/**
 Writing bits: numbers with the lowest or the highest bit first, and bits packed
 into bytes, the first one lowest.  What has been written is what BitStream reads.
 */
module BitWriter {
  import opened Bits
  import opened BitStream

  type bit = b: nat | b <= 1

  /** n bits of v, the lowest first. */
  function LowFirst(v: nat, n: nat): (r: seq<bit>)
    ensures |r| == n
    decreases n
  {
    if n == 0 then [] else [v % 2] + LowFirst(v / 2, n - 1)
  }

  /** n bits of v, the highest first. */
  function HighFirst(v: nat, n: nat): (r: seq<bit>)
    ensures |r| == n
    decreases n
  {
    if n == 0 then [] else HighFirst(v / 2, n - 1) + [v % 2]
  }

  /** The position of the highest bit of n. */
  function Log2(n: nat): (r: nat)
    requires n > 0
    ensures Pow2(r) <= n < Pow2(r + 1)
  {
    if n == 1 then 0 else Log2(n / 2) + 1
  }

  lemma Pow2Below(m: nat, n: nat)
    requires Pow2(m) < Pow2(n)
    ensures m < n
  {
    if n <= m { Pow2Mono(n, m); }
  }

  lemma LogIs(n: nat, a: nat, b: nat)
    requires Pow2(a) <= n < Pow2(b)
    ensures n > 0 && a <= Log2(n) < b
  {
    Pow2Below(a, Log2(n) + 1);
    Pow2Below(Log2(n), b);
  }

  /** The number with these bits, the first one lowest. */
  function Number(bs: seq<bit>): (v: nat)
    ensures v < Pow2(|bs|)
  {
    if bs == [] then 0 else bs[0] + 2 * Number(bs[1..])
  }

  function Ceil8(n: nat): nat { (n + 7) / 8 }

  /** Eight bits a byte; missing ones at the end are zero. */
  function Packed(bs: seq<bit>): (r: seq<byte>)
    ensures |r| == Ceil8(|bs|)
    decreases |bs|
  {
    if bs == [] then []
    else
      var n := if |bs| < 8 then |bs| else 8;
      NumberIsByte(bs[..n]);
      [Number(bs[..n])] + Packed(bs[n..])
  }

  lemma NumberIsByte(bs: seq<bit>)
    requires |bs| <= 8
    ensures Number(bs) < 256
  {
    Pow2Mono(|bs|, 8);
    assert Pow2(8) == 256;
  }

  lemma {:induction false} NumberBit(bs: seq<bit>, i: nat)
    ensures Bit(Number(bs), i) == if i < |bs| then bs[i] else 0
    decreases i
  {
    if bs == [] {
      BitZero(i);
    } else if i > 0 {
      assert Number(bs) / 2 == Number(bs[1..]);
      NumberBit(bs[1..], i - 1);
    }
  }

  lemma {:induction false} PackedBit(bs: seq<bit>, p: nat)
    ensures StreamBit(Packed(bs), p) == if p < |bs| then bs[p] else 0
    decreases |bs|
  {
    if bs == [] {
      BitZero(p % 8);
    } else {
      var n := if |bs| < 8 then |bs| else 8;
      var rest := Packed(bs[n..]);
      if p < 8 {
        NumberBit(bs[..n], p);
      } else {
        PackedBit(bs[n..], p - 8);
        assert (p - 8) / 8 == p / 8 - 1 && (p - 8) % 8 == p % 8;
        assert ByteAt(Packed(bs), p / 8) == ByteAt(rest, p / 8 - 1);
      }
    }
  }

  // ----- what has been written

  /** The bits stand in the data at position p. */
  ghost predicate Written(data: seq<byte>, p: nat, bs: seq<bit>) {
    forall i :: 0 <= i < |bs| ==> StreamBit(data, p + i) == bs[i]
  }

  lemma PackedWritten(head: seq<byte>, bs: seq<bit>, tail: seq<byte>)
    ensures Written(head + Packed(bs) + tail, 8 * |head|, bs)
  {
    var data := head + Packed(bs) + tail;
    forall i | 0 <= i < |bs|
      ensures StreamBit(data, 8 * |head| + i) == bs[i]
    {
      PackedBit(bs, i);
      assert (8 * |head| + i) / 8 == |head| + i / 8 && (8 * |head| + i) % 8 == i % 8;
      assert ByteAt(data, |head| + i / 8) == ByteAt(Packed(bs), i / 8);
    }
  }

  lemma WrittenJoin(data: seq<byte>, p: nat, a: seq<bit>, b: seq<bit>)
    ensures Written(data, p, a + b) <==> Written(data, p, a) && Written(data, p + |a|, b)
  {
    hide StreamBit;
    if Written(data, p, a + b) {
      forall i | 0 <= i < |a|
        ensures StreamBit(data, p + i) == a[i]
      {
        assert (a + b)[i] == a[i];
      }
      forall i | 0 <= i < |b|
        ensures StreamBit(data, p + |a| + i) == b[i]
      {
        assert (a + b)[|a| + i] == b[i];
        assert p + |a| + i == p + (|a| + i);
      }
    }
    if Written(data, p, a) && Written(data, p + |a|, b) {
      forall i | 0 <= i < |a + b|
        ensures StreamBit(data, p + i) == (a + b)[i]
      {
        if i >= |a| { assert StreamBit(data, p + |a| + (i - |a|)) == b[i - |a|]; }
      }
    }
  }

  /** A number written with its lowest bit first is taken as that number. */
  lemma {:induction false} TakeWritten(data: seq<byte>, p: nat, v: nat, n: nat)
    requires Written(data, p, LowFirst(v, n)) && v < Pow2(n)
    ensures Take(data, p, n) == v
    decreases n
  {
    hide StreamBit;
    if n > 0 {
      WrittenJoin(data, p, [v % 2], LowFirst(v / 2, n - 1));
      assert [v % 2][0] == v % 2;
      assert StreamBit(data, p + 0) == v % 2;
      TakeWritten(data, p + 1, v / 2, n - 1);
    }
  }

  /** One written with its highest bit first is read as a code. */
  lemma {:induction false} CodeWritten(data: seq<byte>, p: nat, v: nat, n: nat)
    requires Written(data, p, HighFirst(v, n)) && v < Pow2(n)
    ensures CodeBits(data, p, n) == v
    decreases n
  {
    hide StreamBit;
    if n > 0 {
      WrittenJoin(data, p, HighFirst(v / 2, n - 1), [v % 2]);
      assert StreamBit(data, p + (n - 1) + 0) == [v % 2][0];
      CodeWritten(data, p, v / 2, n - 1);
    }
  }
}
