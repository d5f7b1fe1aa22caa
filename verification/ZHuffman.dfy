/**
 The decoding tables of the inflater: a 512-entry table indexed by the next nine
 stream bits for short codes, and first code, first slot and shifted end code of
 each length for the others.
 */
module ZHuffman {
  import opened Bits
  import opened Common
  import opened BitReversal
  import opened BitStream
  import opened Canonical
  import opened InflateSpec

  const FAST_BITS: nat := 9
  const FAST_SIZE: nat := 512
  const SYMBOLS: nat := 288

  /** Entry j of the fast table belongs to symbol i: j starts, in stream order, with its code. */
  ghost predicate FastHit(lens: seq<nat>, i: nat, j: nat) {
    i < |lens| && 1 <= lens[i] <= FAST_BITS && Low(j, lens[i]) == Rev(Code(lens, i), lens[i])
  }

  class Table {
    const fast: array<nat>
    const firstcode: array<nat>
    const maxcode: array<nat>
    const firstsymbol: array<nat>
    const size: array<nat>
    const value: array<nat>

    ghost const Repr: set<object>

    constructor ()
      ensures Shape() && fresh(Repr)
    {
      fast := new nat[FAST_SIZE];
      firstcode := new nat[16];
      maxcode := new nat[17];
      firstsymbol := new nat[16];
      size := new nat[SYMBOLS];
      value := new nat[SYMBOLS];
      Repr := {fast, firstcode, maxcode, firstsymbol, size, value};
    }

    ghost predicate Shape() {
      && fast.Length == FAST_SIZE && firstcode.Length == 16 && maxcode.Length == 17
      && firstsymbol.Length == 16 && size.Length == SYMBOLS && value.Length == SYMBOLS
      && firstcode != firstsymbol && size != value
      && Repr == {fast, firstcode, maxcode, firstsymbol, size, value}
    }

    ghost predicate HoldsLadder(lens: seq<nat>)
      requires Shape()
      reads firstcode, maxcode, firstsymbol
    {
      && maxcode[16] == 0x10000
      && LadderBelow(lens, 16)
    }

    ghost predicate LadderBelow(lens: seq<nat>, n: nat)
      requires Shape() && n <= 16
      reads firstcode, maxcode, firstsymbol
    {
      && (forall l {:trigger firstcode[l]} :: 1 <= l < n ==> firstcode[l] == FirstCode(lens, l))
      && (forall l {:trigger firstsymbol[l]} :: 1 <= l < n ==> firstsymbol[l] == Shorter(lens, l))
      && (forall l {:trigger maxcode[l]} :: 1 <= l < n ==> maxcode[l] == Shl(EndCode(lens, l), 16 - l))
    }

    /** The slots of the first n symbols are filled. */
    ghost predicate HoldsSlots(lens: seq<nat>, n: nat)
      requires Shape() && n <= |lens|
      reads size, value
    {
      forall i :: 0 <= i < n && lens[i] > 0 ==>
        && Slot(lens, i) < SYMBOLS
        && size[Slot(lens, i)] == lens[i]
        && value[Slot(lens, i)] == i
    }

    /** Each fast entry is that of the one symbol below n that belongs there, and 0 if there is none. */
    ghost predicate HoldsFast(lens: seq<nat>, n: nat)
      requires Shape() && n <= |lens|
      reads fast
    {
      forall j :: 0 <= j < FAST_SIZE ==> FastEntry(lens, n, j, fast[j])
    }

    ghost predicate Holds(lens: seq<nat>)
      requires Shape()
      reads Repr
    {
      && |lens| <= SYMBOLS && Bounded(lens, 15) && Fits(lens, 15)
      && HoldsLadder(lens) && HoldsSlots(lens, |lens|) && HoldsFast(lens, |lens|)
    }

    /** stbi__zbuild_huffman: accepts exactly the length lists that fit, and then describes their code. */
    method Build(sizelist: seq<nat>) returns (ok: bool)
      requires Shape() && |sizelist| <= SYMBOLS && Bounded(sizelist, 15)
      modifies Repr
      ensures ok <==> Fits(sizelist, 15)
      ensures ok ==> Holds(sizelist)
    {
      var sizes := CountSizes(sizelist);
      for i := 0 to FAST_SIZE
        modifies fast
        invariant forall j :: 0 <= j < i ==> fast[j] == 0
      {
        fast[i] := 0;
      }
      for i := 1 to 16
        invariant forall l :: 1 <= l < 17 ==> sizes[l] == Count(sizelist, l)
      {
        if sizes[i] > Shl(1, i) {
          ShlIsTimes(1, i);
          assert EndCode(sizelist, i) > Pow2(i);
          return false;
        }
      }
      var next_code;
      ok, next_code := StartCodes(sizelist, sizes);
      if !ok { return; }
      FillTables(sizelist, next_code);
    }

    static method CountSizes(sizelist: seq<nat>) returns (sizes: array<nat>)
      requires Bounded(sizelist, 15)
      ensures fresh(sizes) && sizes.Length == 17 && sizes[0] == 0
      ensures forall l :: 1 <= l < 17 ==> sizes[l] == Count(sizelist, l)
    {
      sizes := new nat[17](_ => 0);
      for i := 0 to |sizelist|
        invariant forall l :: 0 <= l < 17 ==> sizes[l] == Count(sizelist[..i], l)
      {
        assert sizelist[..i + 1][..i] == sizelist[..i];
        sizes[sizelist[i]] := sizes[sizelist[i]] + 1;
      }
      assert sizelist[..|sizelist|] == sizelist;
      sizes[0] := 0;
    }

    /** First codes, first slots and shifted end codes, length by length. */
    method StartCodes(ghost lens: seq<nat>, sizes: array<nat>) returns (ok: bool, next_code: array<nat>)
      requires Shape() && sizes !in Repr && sizes.Length == 17 && Bounded(lens, 15)
      requires forall l :: 1 <= l < 17 ==> sizes[l] == Count(lens, l)
      modifies firstcode, maxcode, firstsymbol
      ensures ok <==> Fits(lens, 15)
      ensures ok ==> HoldsLadder(lens)
      ensures fresh(next_code) && next_code.Length == 16
      ensures ok ==> forall l {:trigger next_code[l]} :: 1 <= l < 16 ==> next_code[l] == FirstCode(lens, l)
    {
      hide Shl, Pow2, Count, Bounded, FirstCode, EndCode, Shorter, Fits;
      next_code := new nat[16];
      var code, k := 0, 0;
      LadderFoot(lens);
      for i := 1 to 16
        modifies firstcode, maxcode, firstsymbol, next_code
        invariant code == FirstCode(lens, i) && k == Shorter(lens, i)
        invariant forall l {:trigger next_code[l]} :: 1 <= l < i ==> next_code[l] == FirstCode(lens, l)
        invariant LadderBelow(lens, i)
        invariant Fits(lens, i - 1)
      {
        LadderStep(lens, i);
        FitsLess(lens, i, 15);
        next_code[i] := code;
        firstcode[i] := code;
        firstsymbol[i] := k;
        code := code + sizes[i];
        if sizes[i] != 0 && code - 1 >= Shl(1, i) {
          ShlIsTimes(1, i);
          assert EndCode(lens, i) > Pow2(i);
          return false, next_code;
        }
        ShlIsTimes(1, i);
        maxcode[i] := Shl(code, 16 - i);
        code := 2 * code;
        k := k + sizes[i];
      }
      maxcode[16] := 0x10000;
      return true, next_code;
    }

    /** One slot and, for short codes, all fast entries of every symbol. */
    method FillTables(sizelist: seq<nat>, next_code: array<nat>)
      requires Shape() && |sizelist| <= SYMBOLS && Bounded(sizelist, 15) && Fits(sizelist, 15)
      requires HoldsLadder(sizelist) && forall j :: 0 <= j < FAST_SIZE ==> fast[j] == 0
      requires next_code !in Repr && next_code.Length == 16
      requires forall l :: 1 <= l < 16 ==> next_code[l] == FirstCode(sizelist, l)
      modifies fast, size, value, next_code
      ensures Holds(sizelist)
    {
      for i := 0 to |sizelist|
        invariant forall l {:trigger next_code[l]} :: 1 <= l < 16 ==>
                    next_code[l] == FirstCode(sizelist, l) + Count(sizelist[..i], l)
        invariant HoldsLadder(sizelist)
        invariant HoldsSlots(sizelist, i)
        invariant HoldsFast(sizelist, i)
      {
        var s := sizelist[i];
        ghost var next_was := next_code[..];
        if s != 0 {
          PlaceSymbol(sizelist, i, next_code[s]);
          next_code[s] := next_code[s] + 1;
        } else {
          FastSkips(sizelist, i, fast[..]);
        }
        forall l | 1 <= l < 16
          ensures next_code[l] == FirstCode(sizelist, l) + Count(sizelist[..i + 1], l)
        {
          assert next_was[l] == FirstCode(sizelist, l) + Count(sizelist[..i], l);
          CountPrefix(sizelist, i, l);
        }
      }
      assert sizelist[..|sizelist|] == sizelist;
    }

    method PlaceSymbol(sizelist: seq<nat>, i: nat, code: nat)
      requires Shape() && i < |sizelist| <= SYMBOLS && Bounded(sizelist, 15) && Fits(sizelist, 15)
      requires HoldsLadder(sizelist) && HoldsSlots(sizelist, i) && HoldsFast(sizelist, i)
      requires sizelist[i] > 0 && code == Code(sizelist, i)
      modifies fast, size, value
      ensures HoldsSlots(sizelist, i + 1) && HoldsFast(sizelist, i + 1)
    {
      var s := sizelist[i];
      var c := code - firstcode[s] + firstsymbol[s];
      SlotBound(sizelist, i);
      forall k | 0 <= k < i && sizelist[k] > 0
        ensures Slot(sizelist, k) != c
      {
        SlotsDiffer(sizelist, k, i);
      }
      size[c] := s;
      value[c] := i;
      CodeFits(sizelist, 15, i);
      ghost var before := fast[..];
      if s <= FAST_BITS {
        FillFast(i, s, code);
        FastUpdated(sizelist, i, before, fast[..]);
      } else {
        FastSkips(sizelist, i, before);
      }
    }

    /** Every nine-bit continuation of a short code gets the symbol's entry. */
    method FillFast(i: nat, s: nat, code: nat)
      requires Shape() && i < SYMBOLS && 1 <= s <= FAST_BITS && code < Pow2(s)
      modifies fast
      ensures Painted(old(fast[..]), fast[..], Rev(code, s), s, 512 * s + i, FAST_SIZE)
    {
      var fastv := PackEntry(s, i);
      var j := Reversed(code, s);
      RevBound(code, s);
      ShlIsTimes(0, s);
      ghost var r, m, before := j, 0, fast[..];
      PaintNone(before, r, s, fastv);
      while j < FAST_SIZE
        invariant j == r + Shl(m, s)
        invariant Painted(before, fast[..], r, s, fastv, j)
        decreases FAST_SIZE - j
      {
        PaintOne(before, fast[..], r, s, fastv, m);
        fast[j] := fastv;
        j := j + Shl(1, s);
        m := m + 1;
      }
    }
  }

  /** Below `upto`, the entries whose low s bits are r have been set to v. */
  ghost predicate Painted(before: seq<nat>, cur: seq<nat>, r: nat, s: nat, v: nat, upto: nat) {
    |cur| == |before| &&
    forall q :: 0 <= q < |cur| ==> cur[q] == if q < upto && Low(q, s) == r then v else before[q]
  }

  lemma PaintNone(before: seq<nat>, r: nat, s: nat, v: nat)
    ensures Painted(before, before, r, s, v, r)
  {
    forall q: nat | q < r
      ensures Low(q, s) != r
    {
      LowBound(q, s);
    }
  }

  lemma PaintOne(before: seq<nat>, cur: seq<nat>, r: nat, s: nat, v: nat, m: nat)
    requires r < Pow2(s) && r + Shl(m, s) < |cur| && Painted(before, cur, r, s, v, r + Shl(m, s))
    ensures Painted(before, cur[r + Shl(m, s) := v], r, s, v, r + Shl(m, s) + Shl(1, s))
    ensures Shl(m + 1, s) == Shl(m, s) + Shl(1, s) && Shl(1, s) > 0
  {
    var j := r + Shl(m, s);
    LowOfSum(r, m, s);
    ShlAdd(m, 1, s);
    ShlIsTimes(1, s);
    forall q | j < q < j + Shl(1, s)
      ensures Low(q, s) != r
    {
      BetweenMultiples(q, r, m, s);
    }
  }

  ghost predicate FastEntry(lens: seq<nat>, n: nat, j: nat, v: nat)
    requires n <= |lens|
  {
    if v == 0 then forall i: nat :: i < n ==> !FastHit(lens, i, j)
    else v % 512 < n && FastHit(lens, v % 512, j) && v == 512 * lens[v % 512] + v % 512
  }

  method PackEntry(s: nat, i: nat) returns (v: nat)
    requires i < SYMBOLS
    ensures v == 512 * s + i
  {
    v := Or(Shl(s, 9), i);
    OrCommutes(Shl(s, 9), i);
    assert Pow2(9) == 512;
    OrDisjoint(i, s, 9);
    ShlIsTimes(s, 9);
  }

  lemma BetweenMultiples(q: nat, r: nat, m: nat, s: nat)
    requires r + Shl(m, s) < q < r + Shl(m, s) + Shl(1, s)
    ensures Low(q, s) != r
  {
    if Low(q, s) == r {
      SplitAt(q, s);
      var h := Shr(q, s);
      ShlAdd(m, 1, s);
      ShlMono(h, m, s);
      ShlMono(m + 1, h, s);
    }
  }

  lemma {:induction false} RevIntoLow(v: nat, n: nat, acc: nat)
    ensures RevInto(Low(v, n), n, acc) == RevInto(v, n, acc)
  {
    if n > 0 { RevIntoLow(v / 2, n - 1, 2 * acc + v % 2); }
  }

  /** A fast entry belongs to i exactly when its bits, in code order, start with i's code. */
  lemma FastHitIsCode(lens: seq<nat>, i: nat, j: nat)
    requires Fits(lens, 15) && i < |lens| && 1 <= lens[i] <= FAST_BITS
    ensures FastHit(lens, i, j) <==> Rev(j, lens[i]) == Code(lens, i)
  {
    var s, c := lens[i], Code(lens, i);
    CodeFits(lens, 15, i);
    RevIntoLow(j, s, 0);
    RevRev(c, s);
    LowBound(j, s);
    RevRev(Low(j, s), s);
  }

  lemma FastSkips(lens: seq<nat>, i: nat, fast: seq<nat>)
    requires |fast| == FAST_SIZE && i < |lens| && (lens[i] == 0 || lens[i] > FAST_BITS)
    requires forall j :: 0 <= j < FAST_SIZE ==> FastEntry(lens, i, j, fast[j])
    ensures forall j :: 0 <= j < FAST_SIZE ==> FastEntry(lens, i + 1, j, fast[j])
  {
  }

  lemma FastUpdated(lens: seq<nat>, i: nat, before: seq<nat>, after: seq<nat>)
    requires |before| == |after| == FAST_SIZE && |lens| <= SYMBOLS && Fits(lens, 15)
    requires i < |lens| && 1 <= lens[i] <= FAST_BITS
    requires forall j :: 0 <= j < FAST_SIZE ==> FastEntry(lens, i, j, before[j])
    requires forall j :: 0 <= j < FAST_SIZE ==>
               after[j] == if Low(j, lens[i]) == Rev(Code(lens, i), lens[i]) then 512 * lens[i] + i else before[j]
    ensures forall j :: 0 <= j < FAST_SIZE ==> FastEntry(lens, i + 1, j, after[j])
  {
    hide Low, Rev, Code, Fits;
    EntryParts(lens[i], i);
    forall j | 0 <= j < FAST_SIZE
      ensures FastEntry(lens, i + 1, j, after[j])
    {
      assert FastEntry(lens, i, j, before[j]);
    }
  }

  lemma EntryParts(l: nat, i: nat)
    requires i < 512
    ensures (512 * l + i) % 512 == i && (512 * l + i) / 512 == l
  {
  }

  // ----- reading the tables

  /** What a fast entry says about the stream whose next nine bits index it. */
  lemma FastLookup(lens: seq<nat>, data: seq<byte>, p: nat, v: nat)
    requires |lens| <= SYMBOLS && Bounded(lens, 15) && Fits(lens, 15)
    requires FastEntry(lens, |lens|, Take(data, p, FAST_BITS), v)
    ensures v != 0 ==> MatchAt(lens, v % 512, data, p) && v / 512 == lens[v % 512]
    ensures v == 0 ==> forall i: nat :: MatchAt(lens, i, data, p) ==> lens[i] > FAST_BITS
  {
    forall i: nat | i < |lens| && 1 <= lens[i] <= FAST_BITS
      ensures FastHit(lens, i, Take(data, p, FAST_BITS)) <==> MatchAt(lens, i, data, p)
    {
      FastHitIsMatch(lens, i, data, p);
    }
  }

  lemma FastHitIsMatch(lens: seq<nat>, i: nat, data: seq<byte>, p: nat)
    requires Fits(lens, 15) && i < |lens| && 1 <= lens[i] <= FAST_BITS
    ensures FastHit(lens, i, Take(data, p, FAST_BITS)) <==> MatchAt(lens, i, data, p)
  {
    var s := lens[i];
    FastHitIsCode(lens, i, Take(data, p, FAST_BITS));
    RevIntoLow(Take(data, p, FAST_BITS), s, 0);
    LowTake(data, p, FAST_BITS, s);
    RevTake(data, p, s);
  }

  /** The length search of the slow path ends at the length of the one symbol that matches. */
  lemma SlowLookup(lens: seq<nat>, data: seq<byte>, p: nat, l: nat) returns (i: nat)
    requires |lens| <= SYMBOLS && Bounded(lens, 15) && FAST_BITS < l < 16
    requires CodeBits(data, p, 16) < Shl(EndCode(lens, l), 16 - l)
    requires forall m :: FAST_BITS < m < l ==> !(CodeBits(data, p, 16) < Shl(EndCode(lens, m), 16 - m))
    requires forall i: nat :: MatchAt(lens, i, data, p) ==> lens[i] > FAST_BITS
    ensures MatchAt(lens, i, data, p) && lens[i] == l
    ensures FirstCode(lens, l) <= CodeBits(data, p, l)
    ensures Slot(lens, i) == CodeBits(data, p, l) - FirstCode(lens, l) + Shorter(lens, l) < SYMBOLS
  {
    var w := CodeBits(data, p, 16);
    ShrLess(w, EndCode(lens, l), 16 - l);
    forall m | FAST_BITS < m < l
      ensures EndCode(lens, m) <= Shr(w, 16 - m)
    {
      ShrLess(w, EndCode(lens, m), 16 - m);
    }
    forall i: nat | Match(lens, i, w)
      ensures lens[i] > FAST_BITS
    {
      MatchIsWindow(lens, i, data, p);
    }
    i := FirstLength(lens, FAST_BITS, l, w);
    MatchIsWindow(lens, i, data, p);
    ShrCodeBits(data, p, 16, l);
    SlotBound(lens, i);
  }

  /** If the search runs off the last length, no symbol matches. */
  lemma SlowMiss(lens: seq<nat>, data: seq<byte>, p: nat)
    requires Bounded(lens, 15) && !(CodeBits(data, p, 16) < Shl(EndCode(lens, 15), 1))
    ensures Symbol(lens, data, p) == None
  {
    var w := CodeBits(data, p, 16);
    ShrLess(w, EndCode(lens, 15), 1);
    NoneMatches(lens, w, 15);
    forall i: nat
      ensures !MatchAt(lens, i, data, p)
    {
      MatchIsWindow(lens, i, data, p);
    }
  }
}
