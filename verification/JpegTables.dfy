/** Building the JPEG decoding tables from the code counts of a DHT segment. */
module JpegTables {
  import opened Bits
  import opened Common
  import opened Canonical
  import opened JpegHuffman

  class Huffman {
    const fast: array<byte>
    const code: array<nat>
    const values: array<byte>
    const size: array<nat>
    const maxcode: array<nat>
    const delta: array<int>

    ghost const Repr: set<object>

    constructor ()
      ensures Shape() && fresh(Repr)
    {
      var f, v := new byte[FAST_SIZE], new byte[256];
      var c, s, m := new nat[256], new nat[257], new nat[18];
      var d := new int[17];
      fast, values, code, size, maxcode, delta := f, v, c, s, m, d;
      Repr := {f as object, v as object, c as object, s as object, m as object, d as object};
    }

    ghost predicate Shape() {
      && fast.Length == FAST_SIZE && code.Length == 256 && values.Length == 256
      && size.Length == 257 && maxcode.Length == 18 && delta.Length == 17
      && Repr == {fast as object, code as object, values as object, size as object, maxcode as object, delta as object}
    }

    ghost predicate HoldsSizes(lens: seq<nat>)
      requires Shape() && |lens| <= 256
      reads size
    {
      size[..|lens|] == lens && size[|lens|] == 0
    }

    ghost predicate HoldsCodes(lens: seq<nat>, n: nat)
      requires Shape() && n <= |lens| <= 256
      reads code
    {
      forall i :: 0 <= i < n ==> code[i] == Code(lens, i)
    }

    ghost predicate LadderBelow(lens: seq<nat>, n: nat)
      requires Shape() && n <= 17
      reads maxcode, delta
    {
      && (forall l {:trigger delta[l]} :: 1 <= l < n ==> delta[l] == Shorter(lens, l) - FirstCode(lens, l))
      && (forall l {:trigger maxcode[l]} :: 1 <= l < n ==> maxcode[l] == Shl(EndCode(lens, l), 16 - l))
    }

    ghost predicate HoldsFast(lens: seq<nat>, n: nat)
      requires Shape() && n <= |lens|
      reads fast
    {
      forall j :: 0 <= j < FAST_SIZE ==> FastEntry(lens, n, j, fast[j])
    }

    ghost predicate Holds(lens: seq<nat>)
      requires Shape()
      reads Repr
    {
      && |lens| <= 256 && Ascending(lens) && Bounded(lens, 16) && Fits(lens, 16)
      && HoldsSizes(lens) && LadderBelow(lens, 17) && maxcode[17] == 0xFFFF_FFFF && HoldsFast(lens, |lens|)
    }

    /** stbi__build_huffman: accepts exactly the counts of at most 256 codes that fit. */
    method Build(count: seq<nat>) returns (ok: bool)
      requires Shape() && |count| == 16
      modifies fast, code, size, maxcode, delta
      ensures ok <==> |SizeList(count, 16)| <= 256 && Fits(SizeList(count, 16), 16)
      ensures ok ==> Holds(SizeList(count, 16))
    {
      hide Fits, Bounded, Ascending;
      ghost var lens := SizeList(count, 16);
      SizeListAscends(count, 16);
      ok := FillSizes(count);
      if !ok { return; }
      ok := FillCodes(lens);
      if !ok { return; }
      FillFast(lens);
    }

    method FillSizes(count: seq<nat>) returns (ok: bool)
      requires Shape() && |count| == 16
      modifies size
      ensures ok <==> |SizeList(count, 16)| <= 256
      ensures ok ==> HoldsSizes(SizeList(count, 16))
    {
      var k := 0;
      for i := 0 to 16
        invariant k == |SizeList(count, i)| <= 256 && size[..k] == SizeList(count, i)
      {
        ghost var start := SizeList(count, i);
        assert start + Repeat(i + 1, 0) == start;
        for j := 0 to count[i]
          invariant k == |start| + j <= 256 && size[..k] == start + Repeat(i + 1, j)
        {
          size[k] := i + 1;
          k := k + 1;
          assert Repeat(i + 1, j + 1) == Repeat(i + 1, j) + [i + 1];
          if k >= 257 {
            SizeListGrows(count, i + 1, 16);
            return false;
          }
        }
      }
      size[k] := 0;
      return true;
    }

    /** Codes in symbol order; for each length the difference from code to symbol and the shifted end code. */
    method FillCodes(ghost lens: seq<nat>) returns (ok: bool)
      requires Shape() && |lens| <= 256 && HoldsSizes(lens) && Ascending(lens) && Bounded(lens, 16)
      modifies code, maxcode, delta
      ensures ok <==> Fits(lens, 16)
      ensures ok ==> HoldsCodes(lens, |lens|) && LadderBelow(lens, 17) && maxcode[17] == 0xFFFF_FFFF
    {
      hide Shl, Pow2, Count;
      var c, k := 0, 0;
      for j := 1 to 17
        invariant c == FirstCode(lens, j) && k == Shorter(lens, j) <= |lens|
        invariant HoldsCodes(lens, k) && LadderBelow(lens, j) && Fits(lens, j - 1)
        invariant size[..|lens|] == lens && size[|lens|] == 0
      {
        delta[j] := k - c;
        GroupBounds(lens, j);
        if size[k] == j {
          k, c := AssignLength(lens, j, k, c);
          if c - 1 >= Shl(1, j) {
            ShlIsTimes(1, j);
            assert EndCode(lens, j) > Pow2(j);
            return false;
          }
        }
        ShlIsTimes(1, j);
        maxcode[j] := Shl(c, 16 - j);
        c := 2 * c;
      }
      maxcode[17] := 0xFFFF_FFFF;
      AllAssigned(lens);
      return true;
    }

    /** The inner loop: the codes of one length. */
    method AssignLength(ghost lens: seq<nat>, j: nat, k0: nat, c0: nat) returns (k: nat, c: nat)
      requires Shape() && |lens| <= 256 && Ascending(lens) && 1 <= j <= 16
      requires size[..|lens|] == lens && size[|lens|] == 0
      requires k0 == Shorter(lens, j) <= |lens| && c0 == FirstCode(lens, j) && HoldsCodes(lens, k0)
      modifies code
      ensures k == Shorter(lens, j) + Count(lens, j) <= |lens| && c == EndCode(lens, j) && HoldsCodes(lens, k)
    {
      hide Count, FirstCode;
      k, c := k0, c0;
      GroupBounds(lens, j);
      while size[k] == j
        invariant k0 <= k <= k0 + Count(lens, j) <= |lens| && c == c0 + (k - k0) && HoldsCodes(lens, k)
        decreases |lens| - k
      {
        assert k < |lens| && lens[k] == j;
        SlotIsIndex(lens, k);
        code[k] := c;
        k, c := k + 1, c + 1;
      }
      assert k < |lens| ==> size[k] == size[..|lens|][k];
    }

    method FillFast(ghost lens: seq<nat>)
      requires Shape() && |lens| <= 256 && Ascending(lens) && Bounded(lens, 16) && Fits(lens, 16)
      requires HoldsSizes(lens) && HoldsCodes(lens, |lens|)
      modifies fast
      ensures HoldsFast(lens, |lens|)
    {
      for i := 0 to FAST_SIZE
        invariant forall j :: 0 <= j < i ==> fast[j] == NONE
      {
        fast[i] := NONE;
      }
      var k := 0;
      while size[k] != 0
        invariant k <= |lens| && HoldsFast(lens, k)
        decreases |lens| - k
      {
        assert size[k] == lens[k];
        if size[k] <= FAST_BITS {
          CodeFits(lens, 16, k);
          ghost var before := fast[..];
          FillSymbol(k, size[k], code[k]);
          FastUpdated(lens, k, before, fast[..]);
        } else {
          FastSkips(lens, k, fast[..]);
        }
        k := k + 1;
      }
    }

    /** All nine-bit numbers that start with the symbol's code. */
    method FillSymbol(i: byte, s: nat, c0: nat)
      requires Shape() && 1 <= s <= FAST_BITS && c0 < Pow2(s)
      modifies fast
      ensures forall j :: 0 <= j < FAST_SIZE ==> fast[j] == if Shr(j, FAST_BITS - s) == c0 then i else old(fast[j])
    {
      hide Shl, Shr;
      var c, m := Shl(c0, FAST_BITS - s), Shl(1, FAST_BITS - s);
      StartsWithRange(c0, s);
      for j := 0 to m
        invariant forall q :: 0 <= q < FAST_SIZE ==> fast[q] == if c <= q < c + j then i else old(fast[q])
      {
        fast[c + j] := i;
      }
      ghost var d: nat := FAST_BITS - s;
      forall q: nat | q < FAST_SIZE
        ensures c <= q < c + m <==> Shr(q, d) == c0
      {
        InRange(c0, s, q);
      }
    }
  }

  lemma {:induction false} SizeListGrows(count: seq<nat>, i: nat, n: nat)
    requires i <= n <= |count|
    ensures |SizeList(count, i)| <= |SizeList(count, n)|
    decreases n
  {
    if i < n { SizeListGrows(count, i, n - 1); }
  }

  /** Where the symbols of one length lie. */
  lemma GroupBounds(lens: seq<nat>, j: nat)
    requires Ascending(lens) && j >= 1
    ensures Shorter(lens, j) + Count(lens, j) <= |lens|
    ensures forall k :: 0 <= k < |lens| ==>
        (lens[k] == j <==> Shorter(lens, j) <= k < Shorter(lens, j) + Count(lens, j))
    ensures Shorter(lens, j + 1) == Shorter(lens, j) + Count(lens, j)
  {
    ShorterOfPrefix(lens, |lens|, j);
    assert lens[..|lens|] == lens;
    forall k | 0 <= k < |lens|
      ensures lens[k] == j <==> Shorter(lens, j) <= k < Shorter(lens, j) + Count(lens, j)
    {
      SlotIsIndex(lens, k);
      RankBelowCount(lens, k);
      if lens[k] < j { ShorterPlus(lens, lens[k], j); }
      if lens[k] > j { ShorterPlus(lens, j, lens[k]); }
    }
  }

  lemma AllAssigned(lens: seq<nat>)
    requires Ascending(lens) && Bounded(lens, 16)
    ensures Shorter(lens, 17) == |lens|
  {
    PrefixFull(lens, |lens|, 16);
    assert lens[..|lens|] == lens;
  }

  lemma StartsWithRange(c: nat, s: nat)
    requires 1 <= s <= FAST_BITS && c < Pow2(s)
    ensures Shl(c, FAST_BITS - s) + Shl(1, FAST_BITS - s) <= FAST_SIZE
  {
    ShlAdd(c, 1, FAST_BITS - s);
    ShlMono(c + 1, Pow2(s), FAST_BITS - s);
    ShlOfPow2(s, FAST_BITS - s);
    assert Pow2(9) == 512;
  }

  lemma InRange(c: nat, s: nat, q: nat)
    requires 1 <= s <= FAST_BITS
    ensures Shl(c, FAST_BITS - s) <= q < Shl(c, FAST_BITS - s) + Shl(1, FAST_BITS - s) <==> Shr(q, FAST_BITS - s) == c
  {
    ShlAdd(c, 1, FAST_BITS - s);
    ShrLess(q, c, FAST_BITS - s);
    ShrLess(q, c + 1, FAST_BITS - s);
  }

  lemma FastSkips(lens: seq<nat>, i: nat, fast: seq<byte>)
    requires |fast| == FAST_SIZE && i < |lens| && lens[i] > FAST_BITS
    requires forall j :: 0 <= j < FAST_SIZE ==> FastEntry(lens, i, j, fast[j])
    ensures forall j :: 0 <= j < FAST_SIZE ==> FastEntry(lens, i + 1, j, fast[j])
  {
  }

  lemma FastUpdated(lens: seq<nat>, i: byte, before: seq<byte>, after: seq<byte>)
    requires |before| == |after| == FAST_SIZE && i < |lens| && 1 <= lens[i] <= FAST_BITS
    requires forall j :: 0 <= j < FAST_SIZE ==> FastEntry(lens, i, j, before[j])
    requires forall j :: 0 <= j < FAST_SIZE ==>
             after[j] == if Shr(j, FAST_BITS - lens[i]) == Code(lens, i) then i else before[j]
    ensures forall j :: 0 <= j < FAST_SIZE ==> FastEntry(lens, i + 1, j, after[j])
  {
    forall j | 0 <= j < FAST_SIZE
      ensures FastEntry(lens, i + 1, j, after[j])
    {
      assert FastEntry(lens, i, j, before[j]);
      if FastHit(lens, i, j) && i == 255 {
        forall k: nat | k < i + 1 && k != 255
          ensures !FastHit(lens, k, j)
        {
          if FastHit(lens, k, j) { HitUnique(lens, k, i, j); }
        }
      }
    }
  }
}
