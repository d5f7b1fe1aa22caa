/**
 The JPEG Huffman tables: sizes and codes per symbol, the nine-bit table for
 short codes with 255 for "none", and what decoding a 16-bit window with them means.
 */
module JpegHuffman {
  import opened Bits
  import opened CodeCounts
  import opened Common
  import opened Canonical

  const FAST_BITS: nat := 9
  const FAST_SIZE: nat := 512
  const NONE: byte := 255

  // ----- size lists

  /** count[0] ones, count[1] twos and so on: the sizes of figure C.1 of ITU-T T.81. */
  function SizeList(count: seq<nat>, n: nat): seq<nat>
    requires n <= |count|
  {
    if n == 0 then [] else SizeList(count, n - 1) + Repeat(n, count[n - 1])
  }

  ghost predicate Ascending(lens: seq<nat>) {
    && (forall i :: 0 <= i < |lens| ==> lens[i] >= 1)
    && (forall i, j :: 0 <= i < j < |lens| ==> lens[i] <= lens[j])
  }

  lemma {:induction false} SizeListAscends(count: seq<nat>, n: nat)
    requires n <= |count|
    ensures Ascending(SizeList(count, n)) && Bounded(SizeList(count, n), n)
  {
    if n > 0 { SizeListAscends(count, n - 1); }
  }

  /** In an ascending list the slot of a symbol is its own number. */
  lemma SlotIsIndex(lens: seq<nat>, i: nat)
    requires Ascending(lens) && i < |lens|
    ensures Slot(lens, i) == i
  {
    var l := lens[i];
    PrefixFull(lens, i, l);
    SuffixLonger(lens, i, |lens|, l);
    assert lens[..|lens|] == lens;
  }

  lemma {:induction false} PrefixFull(lens: seq<nat>, n: nat, l: nat)
    requires n <= |lens| && forall k :: 0 <= k < n ==> 1 <= lens[k] <= l
    ensures Shorter(lens[..n], l) + Count(lens[..n], l) == n
    decreases n
  {
    if n > 0 {
      PrefixFull(lens, n - 1, l);
      ShorterAppend(lens, n - 1, l);
      CountPrefix(lens, n - 1, l);
    } else {
      ShorterEmpty(l);
      assert lens[..0] == [];
    }
  }

  lemma {:induction false} SuffixLonger(lens: seq<nat>, i: nat, n: nat, l: nat)
    requires i <= n <= |lens| && forall k :: i <= k < n ==> lens[k] >= l
    ensures Shorter(lens[..n], l) == Shorter(lens[..i], l)
    decreases n
  {
    if i < n {
      SuffixLonger(lens, i, n - 1, l);
      ShorterAppend(lens, n - 1, l);
    }
  }

  // ----- the meaning of the fast table

  /** Symbol i's code is short and the nine bits j start with it. */
  ghost predicate FastHit(lens: seq<nat>, i: nat, j: nat) {
    i < |lens| && 1 <= lens[i] <= FAST_BITS && Shr(j, FAST_BITS - lens[i]) == Code(lens, i)
  }

  /** Entry j of the fast table for the first n symbols; number 255 reads as "none". */
  ghost predicate FastEntry(lens: seq<nat>, n: nat, j: nat, v: byte)
    requires n <= |lens|
  {
    if v == NONE then forall i: nat :: i < n && i != 255 ==> !FastHit(lens, i, j)
    else v < n && FastHit(lens, v, j)
  }

  /** Hits of one entry agree with matches of any 16-bit window that starts with it. */
  lemma HitIsMatch(lens: seq<nat>, i: nat, w: nat)
    ensures FastHit(lens, i, Shr(w, 7)) <==> Match(lens, i, w) && lens[i] <= FAST_BITS
  {
    if i < |lens| && 1 <= lens[i] <= FAST_BITS {
      ShrAdd(w, 7, FAST_BITS - lens[i]);
    }
  }

  lemma HitUnique(lens: seq<nat>, i: nat, k: nat, j: nat)
    requires FastHit(lens, i, j) && FastHit(lens, k, j)
    ensures i == k
  {
    ShrShl(j, 7);
    HitIsMatch(lens, i, Shl(j, 7));
    HitIsMatch(lens, k, Shl(j, 7));
    Unique(lens, i, k, Shl(j, 7));
  }

  // ----- decoding a window

  datatype Found = Missing | Found(symbol: nat, length: nat)

  /** The symbol whose code starts the window, as Annex C defines it. */
  ghost function CanonicalDecode(lens: seq<nat>, w: nat): (r: Found)
    ensures r.Found? ==> Match(lens, r.symbol, w) && r.length == lens[r.symbol]
    ensures r.Missing? ==> forall i: nat :: !Match(lens, i, w)
  {
    if i: nat :| Match(lens, i, w) then Found(i, lens[i]) else Missing
  }

  /** The first length from l on whose end code lies beyond the window, or 17. */
  function SearchLength(lens: seq<nat>, l: nat, w: nat): (r: nat)
    requires l <= 17
    ensures l <= r <= 17
    ensures r < 17 ==> Shr(w, 16 - r) < EndCode(lens, r)
    ensures forall m :: l <= m < r ==> EndCode(lens, m) <= Shr(w, 16 - m)
    decreases 17 - l
  {
    if l == 17 || Shr(w, 16 - l) < EndCode(lens, l) then l else SearchLength(lens, l + 1, w)
  }

  /** What the decoder makes of a window: the fast entry unless it is 255, else the length search from ten on. */
  ghost function TableDecode(lens: seq<nat>, w: nat): (r: Found)
    ensures r.Found? && |lens| <= 256 ==> r.symbol < 256
    ensures r.Found? ==> 1 <= r.length <= 16
  {
    if i: nat :| FastHit(lens, i, Shr(w, 7)) && i != 255 then Found(i, lens[i])
    else
      var l := SearchLength(lens, FAST_BITS + 1, w);
      if l == 17 then Missing
      else
        var c: int := Shr(w, 16 - l) + Shorter(lens, l) - FirstCode(lens, l);
        if c < 0 || c >= 256 then Missing else Found(c, l)
  }

  /** Symbol 255 has no short code: its entries would read as "none". */
  predicate NoClash(lens: seq<nat>) {
    |lens| <= 255 || lens[255] > FAST_BITS
  }

  /** A fast entry is what the tables make of the window. */
  lemma FastFound(lens: seq<nat>, w: nat, k: byte)
    requires |lens| <= 256 && FastEntry(lens, |lens|, Shr(w, 7), k) && k != NONE
    ensures k < |lens| && TableDecode(lens, w) == Found(k, lens[k]) && lens[k] <= FAST_BITS
  {
    forall i: nat | FastHit(lens, i, Shr(w, 7))
      ensures i == k
    {
      HitUnique(lens, i, k, Shr(w, 7));
    }
  }

  /** Without a fast entry the search decides. */
  lemma SearchDecides(lens: seq<nat>, w: nat)
    requires |lens| <= 256 && FastEntry(lens, |lens|, Shr(w, 7), NONE)
    ensures var l := SearchLength(lens, FAST_BITS + 1, w);
            TableDecode(lens, w) ==
            if l == 17 then Missing
            else
              var c: int := Shr(w, 16 - l) + Shorter(lens, l) - FirstCode(lens, l);
              if c < 0 || c >= 256 then Missing else Found(c, l)
  {
    forall i: nat | FastHit(lens, i, Shr(w, 7))
      ensures i == 255
    {
      assert i < |lens|;
    }
  }

  lemma TableIsCanonical(lens: seq<nat>, w: nat)
    requires Ascending(lens) && Bounded(lens, 16) && |lens| <= 256 && NoClash(lens)
    ensures TableDecode(lens, w) == CanonicalDecode(lens, w)
  {
    var r := CanonicalDecode(lens, w);
    if i: nat :| FastHit(lens, i, Shr(w, 7)) && i != 255 {
      HitIsMatch(lens, i, w);
      Unique(lens, i, r.symbol, w);
      forall k: nat | FastHit(lens, k, Shr(w, 7))
        ensures k == i
      {
        HitUnique(lens, k, i, Shr(w, 7));
      }
    } else {
      forall i: nat | Match(lens, i, w)
        ensures lens[i] > FAST_BITS
      {
        HitIsMatch(lens, i, w);
      }
      SlowIsCanonical(lens, w);
    }
  }

  lemma SlowIsCanonical(lens: seq<nat>, w: nat)
    requires Ascending(lens) && Bounded(lens, 16) && |lens| <= 256
    requires forall i: nat :: Match(lens, i, w) ==> lens[i] > FAST_BITS
    ensures var l := SearchLength(lens, FAST_BITS + 1, w);
            var r := CanonicalDecode(lens, w);
            if l == 17 then r.Missing?
            else r.Found? && r.length == l && r.symbol < 256 &&
                 r.symbol + FirstCode(lens, l) == Shr(w, 16 - l) + Shorter(lens, l)
  {
    var l := SearchLength(lens, FAST_BITS + 1, w);
    NoneMatches(lens, w, 16);
    if l < 17 {
      var i := FirstLength(lens, FAST_BITS, l, w);
      SlotIsIndex(lens, i);
      Unique(lens, i, CanonicalDecode(lens, w).symbol, w);
    }
  }

  /** With a short code for symbol 255 the decoder takes a longer code where that symbol stands. */
  lemma ClashMisreads(lens: seq<nat>)
    requires Ascending(lens) && Bounded(lens, 16) && |lens| == 256 && Fits(lens, 16) && !NoClash(lens)
    ensures exists w: nat :: w < 0x10000 && TableDecode(lens, w) != CanonicalDecode(lens, w)
  {
    var s := lens[255];
    var w := Shl(Code(lens, 255), 16 - s);
    CodeFits(lens, 16, 255);
    ShlFits(Code(lens, 255), s);
    ShrShl(Code(lens, 255), 16 - s);
    assert Match(lens, 255, w);
    Unique(lens, 255, CanonicalDecode(lens, w).symbol, w);
    HitIsMatch(lens, 255, w);
    forall i: nat | FastHit(lens, i, Shr(w, 7))
      ensures i == 255
    {
      HitUnique(lens, i, 255, Shr(w, 7));
    }
    assert TableDecode(lens, w) != CanonicalDecode(lens, w);
  }

  lemma ShlFits(c: nat, s: nat)
    requires 1 <= s <= 16 && c < Pow2(s)
    ensures Shl(c, 16 - s) < 0x10000
  {
    ShlMono(Pow2(s), c, 16 - s);
    ShlOfPow2(s, 16 - s);
    assert Pow2(8) == 256;
    assert Pow2(16) == 0x10000;
  }

  lemma {:induction false} ShlOfPow2(s: nat, n: nat)
    ensures Shl(Pow2(s), n) == Pow2(s + n)
  {
    if n > 0 { ShlOfPow2(s, n - 1); }
  }

  /** One code of eight bits and 255 of nine, counts that a DHT segment can hold. */
  const CLASHING_COUNTS: seq<nat> := [0, 0, 0, 0, 0, 0, 0, 1, 255, 0, 0, 0, 0, 0, 0, 0]

  lemma NoneOfLength(count: seq<nat>, n: nat)
    requires n < |count| && count[n] == 0
    ensures SizeList(count, n + 1) == SizeList(count, n)
  {
    assert Repeat(n + 1, 0) == [];
  }

  lemma ClashingSizes()
    ensures SizeList(CLASHING_COUNTS, 16) == Repeat(8, 1) + Repeat(9, 255)
  {
    var count := CLASHING_COUNTS;
    for n := 0 to 7
      invariant SizeList(count, n) == []
    {
      NoneOfLength(count, n);
    }
    assert SizeList(count, 8) == [] + Repeat(8, 1) == Repeat(8, 1);
    assert SizeList(count, 9) == Repeat(8, 1) + Repeat(9, 255);
    for n := 9 to 16
      invariant SizeList(count, n) == Repeat(8, 1) + Repeat(9, 255)
    {
      NoneOfLength(count, n);
    }
  }

  lemma NinePowers()
    ensures Pow2(8) == 256 && Pow2(9) == 512
  {
  }

  /** These sizes are accepted, and where symbol 255 stands another symbol is read. */
  lemma ClashExample()
    ensures var lens := SizeList(CLASHING_COUNTS, 16);
            && |lens| == 256 && Fits(lens, 16)
            && exists w: nat :: w < 0x10000 && TableDecode(lens, w) != CanonicalDecode(lens, w)
  {
    var lens := SizeList(CLASHING_COUNTS, 16);
    ClashingSizes();
    SizeListAscends(CLASHING_COUNTS, 16);
    forall l: nat
      ensures Count(lens, l) == if l == 8 then 1 else if l == 9 then 255 else 0
    {
      CountJoin(Repeat(8, 1), Repeat(9, 255), l);
      CountRepeat(8, 1, l);
      CountRepeat(9, 255, l);
    }
    NoShorterCodes(lens, 8, 8);
    assert FirstCode(lens, 9) == 2;
    NinePowers();
    ClashMisreads(lens);
  }

  /** Exactly the lists without that clash are decoded canonically on every window. */
  lemma DecodesCanonically(lens: seq<nat>)
    requires Ascending(lens) && Bounded(lens, 16) && |lens| <= 256 && Fits(lens, 16)
    ensures (forall w: nat :: w < 0x10000 ==> TableDecode(lens, w) == CanonicalDecode(lens, w)) <==> NoClash(lens)
  {
    hide TableDecode;
    if NoClash(lens) {
      forall w: nat | w < 0x10000
        ensures TableDecode(lens, w) == CanonicalDecode(lens, w)
      {
        TableIsCanonical(lens, w);
      }
    } else {
      ClashMisreads(lens);
    }
  }
}
