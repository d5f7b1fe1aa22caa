/**
 Canonical prefix codes given by a list of code lengths (0 means "no code"), as
 section 3.2.2 of RFC 1951 and Annex C of ITU-T T.81 define them: codes of one
 length are consecutive, in symbol order, and start where twice the end of the
 next shorter length leaves off.
 */
module Canonical {
  import opened Bits

  const MAX_LENGTH: nat := 16

  /** How many symbols have codes of length l. */
  function Count(lens: seq<nat>, l: nat): (c: nat)
    ensures c <= |lens|
  {
    if lens == [] then 0
    else Count(lens[..|lens| - 1], l) + if lens[|lens| - 1] == l then 1 else 0
  }

  /** The first code of length l. */
  function FirstCode(lens: seq<nat>, l: nat): nat {
    if l <= 1 then 0 else 2 * (FirstCode(lens, l - 1) + Count(lens, l - 1))
  }

  /** One past the last code of length l. */
  function EndCode(lens: seq<nat>, l: nat): nat {
    FirstCode(lens, l) + Count(lens, l)
  }

  /** One more length: its codes end where they end, and the next length starts at twice that. */
  lemma LadderStep(lens: seq<nat>, l: nat)
    requires l >= 1
    ensures EndCode(lens, l) == FirstCode(lens, l) + Count(lens, l)
    ensures FirstCode(lens, l + 1) == 2 * EndCode(lens, l)
    ensures Shorter(lens, l + 1) == Shorter(lens, l) + Count(lens, l)
    ensures Fits(lens, l) <==> Fits(lens, l - 1) && (Count(lens, l) > 0 ==> EndCode(lens, l) <= Pow2(l))
  {
    hide Count, Pow2;
  }

  lemma LadderFoot(lens: seq<nat>)
    ensures FirstCode(lens, 1) == 0 && Shorter(lens, 1) == 0 && Fits(lens, 0)
  {
  }

  lemma FitsLess(lens: seq<nat>, l: nat, max: nat)
    requires l <= max
    ensures Fits(lens, max) ==> Fits(lens, l)
  {
  }

  /** How many symbols have codes shorter than l. */
  function Shorter(lens: seq<nat>, l: nat): nat {
    if l <= 1 then 0 else Shorter(lens, l - 1) + Count(lens, l - 1)
  }

  /** The position of symbol i among the symbols of its length. */
  function Rank(lens: seq<nat>, i: nat): nat
    requires i < |lens|
  {
    Count(lens[..i], lens[i])
  }

  function Code(lens: seq<nat>, i: nat): nat
    requires i < |lens|
  {
    FirstCode(lens, lens[i]) + Rank(lens, i)
  }

  /** No length has more codes than fit. */
  ghost predicate Fits(lens: seq<nat>, max: nat) {
    forall l {:trigger EndCode(lens, l)} :: 1 <= l <= max && Count(lens, l) > 0 ==> EndCode(lens, l) <= Pow2(l)
  }

  /** All lengths are at most max. */
  ghost predicate Bounded(lens: seq<nat>, max: nat) {
    forall i :: 0 <= i < |lens| ==> lens[i] <= max
  }

  /** The code of symbol i is a prefix of the 16 bits of w. */
  predicate Match(lens: seq<nat>, i: nat, w: nat) {
    i < |lens| && 0 < lens[i] <= MAX_LENGTH && Shr(w, MAX_LENGTH - lens[i]) == Code(lens, i)
  }

  // ----- counting

  lemma CountPrefix(lens: seq<nat>, i: nat, l: nat)
    requires i < |lens|
    ensures Count(lens[..i + 1], l) == Count(lens[..i], l) + if lens[i] == l then 1 else 0
  {
    assert lens[..i + 1][..i] == lens[..i];
  }

  lemma {:induction false} CountMono(lens: seq<nat>, i: nat, j: nat, l: nat)
    requires i <= j <= |lens|
    ensures Count(lens[..i], l) <= Count(lens[..j], l)
    decreases j
  {
    if i < j {
      CountPrefix(lens, j - 1, l);
      CountMono(lens, i, j - 1, l);
    }
  }

  lemma RankBelowCount(lens: seq<nat>, i: nat)
    requires i < |lens|
    ensures Rank(lens, i) < Count(lens, lens[i])
  {
    CountPrefix(lens, i, lens[i]);
    CountMono(lens, i + 1, |lens|, lens[i]);
    assert lens[..|lens|] == lens;
  }

  lemma RankIncreases(lens: seq<nat>, i: nat, j: nat)
    requires i < j < |lens| && lens[i] == lens[j]
    ensures Rank(lens, i) < Rank(lens, j)
  {
    CountPrefix(lens, i, lens[i]);
    CountMono(lens, i + 1, j, lens[i]);
  }

  /** The symbol of length l with a given rank. */
  lemma {:induction false} SymbolOfRank(lens: seq<nat>, l: nat, d: nat) returns (i: nat)
    requires d < Count(lens, l)
    ensures i < |lens| && lens[i] == l && Rank(lens, i) == d
  {
    var n := |lens| - 1;
    var front := lens[..n];
    if lens[n] == l && d == Count(front, l) {
      i := n;
    } else {
      i := SymbolOfRank(front, l, d);
      assert front[..i] == lens[..i];
    }
  }

  lemma {:induction false} ShorterPlus(lens: seq<nat>, k: nat, l: nat)
    requires 1 <= k < l
    ensures Shorter(lens, k) + Count(lens, k) <= Shorter(lens, l)
  {
    if k < l - 1 { ShorterPlus(lens, k, l - 1); }
  }

  /** The slot a symbol gets when symbols are sorted by length, then by number. */
  function Slot(lens: seq<nat>, i: nat): nat
    requires i < |lens|
  {
    Shorter(lens, lens[i]) + Rank(lens, i)
  }

  lemma SlotsDiffer(lens: seq<nat>, i: nat, j: nat)
    requires i < |lens| && j < |lens| && i != j && lens[i] > 0 && lens[j] > 0
    ensures Slot(lens, i) != Slot(lens, j)
  {
    if lens[i] == lens[j] {
      if i < j { RankIncreases(lens, i, j); } else { RankIncreases(lens, j, i); }
    } else if lens[i] < lens[j] {
      RankBelowCount(lens, i);
      ShorterPlus(lens, lens[i], lens[j]);
    } else {
      RankBelowCount(lens, j);
      ShorterPlus(lens, lens[j], lens[i]);
    }
  }

  lemma {:induction false} ShorterOfPrefix(lens: seq<nat>, n: nat, l: nat)
    requires n <= |lens|
    ensures Shorter(lens[..n], l) + Count(lens[..n], l) <= n
    decreases n
  {
    if n > 0 {
      ShorterOfPrefix(lens, n - 1, l);
      ShorterAppend(lens, n - 1, l);
      CountPrefix(lens, n - 1, l);
    } else {
      ShorterEmpty(l);
      assert lens[..0] == [];
    }
  }

  lemma {:induction false} ShorterEmpty(l: nat)
    ensures Shorter([], l) == 0
  {
    if l > 1 { ShorterEmpty(l - 1); }
  }

  lemma {:induction false} ShorterAppend(lens: seq<nat>, n: nat, l: nat)
    requires n < |lens|
    ensures Shorter(lens[..n + 1], l) == Shorter(lens[..n], l) + if 1 <= lens[n] < l then 1 else 0
    decreases l
  {
    if l > 1 {
      ShorterAppend(lens, n, l - 1);
      CountPrefix(lens, n, l - 1);
    }
  }

  lemma SlotBound(lens: seq<nat>, i: nat)
    requires i < |lens|
    ensures Slot(lens, i) < |lens|
  {
    ShorterOfPrefix(lens, |lens|, lens[i]);
    assert lens[..|lens|] == lens;
    RankBelowCount(lens, i);
  }

  // ----- the ladder of first and end codes

  /** Every end code fits its length, also where the length has no codes of its own. */
  lemma {:induction false} EndFits(lens: seq<nat>, max: nat, l: nat)
    requires Fits(lens, max) && 1 <= l <= max
    ensures EndCode(lens, l) <= Pow2(l)
  {
    if Count(lens, l) == 0 && l > 1 {
      EndFits(lens, max, l - 1);
    }
  }

  lemma CodeFits(lens: seq<nat>, max: nat, i: nat)
    requires Fits(lens, max) && i < |lens| && 0 < lens[i] <= max
    ensures FirstCode(lens, lens[i]) <= Code(lens, i) < EndCode(lens, lens[i]) <= Pow2(lens[i])
  {
    RankBelowCount(lens, i);
  }

  /** Cut to s bits, anything at or above the first code of a longer length is past the codes of length s. */
  lemma {:induction false} Ladder(lens: seq<nat>, s: nat, t: nat, w: nat)
    requires 1 <= s < t && FirstCode(lens, t) <= w
    ensures EndCode(lens, s) <= Shr(w, t - s)
    decreases t
  {
    assert EndCode(lens, t - 1) <= w / 2;
    if s < t - 1 {
      Ladder(lens, s, t - 1, w / 2);
    }
  }

  /** At most one symbol's code is a prefix of w. */
  lemma Unique(lens: seq<nat>, i: nat, j: nat, w: nat)
    requires Match(lens, i, w) && Match(lens, j, w)
    ensures i == j
  {
    RankBelowCount(lens, i);
    RankBelowCount(lens, j);
    if lens[i] == lens[j] {
      if i < j { RankIncreases(lens, i, j); }
      if j < i { RankIncreases(lens, j, i); }
    } else {
      NotShorter(lens, i, j, w);
      NotShorter(lens, j, i, w);
    }
  }

  /** A shorter code is never a prefix of a longer one. */
  lemma NotShorter(lens: seq<nat>, i: nat, j: nat, w: nat)
    requires Match(lens, i, w) && Match(lens, j, w)
    ensures lens[j] <= lens[i]
  {
    if lens[i] < lens[j] {
      RankBelowCount(lens, i);
      ShrAdd(w, MAX_LENGTH - lens[j], lens[j] - lens[i]);
      Ladder(lens, lens[i], lens[j], Shr(w, MAX_LENGTH - lens[j]));
    }
  }

  /** A w whose first l bits are below the end of length l starts with some code. */
  lemma {:induction false} Cover(lens: seq<nat>, l: nat, w: nat) returns (i: nat)
    requires 1 <= l <= MAX_LENGTH && Shr(w, MAX_LENGTH - l) < EndCode(lens, l)
    ensures Match(lens, i, w) && lens[i] <= l
  {
    var c := Shr(w, MAX_LENGTH - l);
    if FirstCode(lens, l) <= c {
      i := SymbolOfRank(lens, l, c - FirstCode(lens, l));
    } else {
      ShrSucc(w, MAX_LENGTH - l);
      i := Cover(lens, l - 1, w);
    }
  }

  /** Where w falls on the ladder when symbol i matches. */
  lemma MatchBelowEnd(lens: seq<nat>, i: nat, w: nat)
    requires Match(lens, i, w)
    ensures FirstCode(lens, lens[i]) <= Shr(w, MAX_LENGTH - lens[i]) < EndCode(lens, lens[i])
  {
    RankBelowCount(lens, i);
  }

  /**
   The search both decoders use: if l is the first length above k whose end lies
   beyond w, and no code of length at most k matches, then the symbol sits in
   slot (first l bits) - FirstCode(l) + Shorter(l).
   */
  lemma FirstLength(lens: seq<nat>, k: nat, l: nat, w: nat) returns (i: nat)
    requires k < l <= MAX_LENGTH
    requires Shr(w, MAX_LENGTH - l) < EndCode(lens, l)
    requires forall m :: k < m < l ==> EndCode(lens, m) <= Shr(w, MAX_LENGTH - m)
    requires forall i: nat :: Match(lens, i, w) ==> lens[i] > k
    ensures Match(lens, i, w) && lens[i] == l
    ensures FirstCode(lens, l) <= Shr(w, MAX_LENGTH - l)
    ensures Slot(lens, i) == Shr(w, MAX_LENGTH - l) - FirstCode(lens, l) + Shorter(lens, l)
  {
    i := Cover(lens, l, w);
    if lens[i] < l {
      MatchBelowEnd(lens, i, w);
      assert false;
    }
    MatchBelowEnd(lens, i, w);
  }

  /** No length up to max has its end beyond w exactly when no symbol matches. */
  lemma NoneMatches(lens: seq<nat>, w: nat, max: nat)
    requires 1 <= max <= MAX_LENGTH && Bounded(lens, max)
    ensures (exists i: nat :: Match(lens, i, w)) <==> Shr(w, MAX_LENGTH - max) < EndCode(lens, max)
  {
    if Shr(w, MAX_LENGTH - max) < EndCode(lens, max) {
      var i := Cover(lens, max, w);
    } else {
      forall i: nat | Match(lens, i, w)
        ensures false
      {
        BelowEndUp(lens, i, max, w);
      }
    }
  }

  lemma {:induction false} BelowEndUp(lens: seq<nat>, i: nat, l: nat, w: nat)
    requires Match(lens, i, w) && lens[i] <= l <= MAX_LENGTH
    ensures Shr(w, MAX_LENGTH - l) < EndCode(lens, l)
    decreases l
  {
    if l == lens[i] {
      MatchBelowEnd(lens, i, w);
    } else {
      BelowEndUp(lens, i, l - 1, w);
      ShrSucc(w, MAX_LENGTH - l);
    }
  }
}
