/**
 A byte sequence read as a stream of bits from the highest one of each byte on, as
 PNG samples and JPEG codes are, and written so.
 */
module TopBits {
  import opened Bits
  import opened BitStream
  import opened BitWriter

  function TopBit(data: seq<byte>, p: nat): (b: nat)
    ensures b == 0 || b == 1
  {
    BitRange(ByteAt(data, p / 8), 7 - p % 8);
    Bit(ByteAt(data, p / 8), 7 - p % 8)
  }

  /** The n bits from position p on, highest bit of each byte first, as a number. */
  function Top(data: seq<byte>, p: nat, n: nat): nat {
    if n == 0 then 0 else 2 * Top(data, p, n - 1) + TopBit(data, p + n - 1)
  }

  lemma {:induction false} TopBound(data: seq<byte>, p: nat, n: nat)
    ensures Top(data, p, n) < Pow2(n)
  {
    if n > 0 { TopBound(data, p, n - 1); }
  }

  lemma {:induction false} TopJoin(data: seq<byte>, p: nat, m: nat, n: nat)
    ensures Top(data, p, m + n) == Shl(Top(data, p, m), n) + Top(data, p + m, n)
    decreases n
  {
    hide TopBit;
    if n > 0 { TopJoin(data, p, m, n - 1); }
  }

  lemma {:induction false} TopWithinByte(data: seq<byte>, q: nat, k: nat)
    requires k <= 8
    ensures Top(data, 8 * q, k) == Shr(ByteAt(data, q), 8 - k)
    decreases k
  {
    var b := ByteAt(data, q);
    if k == 0 {
      ShrByte(b);
    } else {
      TopWithinByte(data, q, k - 1);
      assert (8 * q + k - 1) / 8 == q && (8 * q + k - 1) % 8 == k - 1;
      ShrSucc(b, 8 - k);
      BitShr(b, 8 - k, 0);
    }
  }

  lemma TopByte(data: seq<byte>, q: nat)
    ensures Top(data, 8 * q, 8) == ByteAt(data, q)
  {
    TopWithinByte(data, q, 8);
  }

  lemma {:induction false} TopZeros(data: seq<byte>, p: nat, n: nat)
    requires p >= 8 * |data|
    ensures Top(data, p, n) == 0
    decreases n
  {
    if n > 0 {
      BitZero(7 - (p + n - 1) % 8);
      TopZeros(data, p, n - 1);
    }
  }

  // ----- writing

  /** The bits stand in the data at position p. */
  ghost predicate WrittenTop(data: seq<byte>, p: nat, bs: seq<bit>) {
    forall i :: 0 <= i < |bs| ==> TopBit(data, p + i) == bs[i]
  }

  lemma TopJoined(data: seq<byte>, p: nat, a: seq<bit>, b: seq<bit>)
    ensures WrittenTop(data, p, a + b) <==> WrittenTop(data, p, a) && WrittenTop(data, p + |a|, b)
  {
    hide TopBit;
    if WrittenTop(data, p, a + b) {
      forall i | 0 <= i < |a|
        ensures TopBit(data, p + i) == a[i]
      {
        assert (a + b)[i] == a[i];
      }
      forall i | 0 <= i < |b|
        ensures TopBit(data, p + |a| + i) == b[i]
      {
        assert (a + b)[|a| + i] == b[i];
        assert p + |a| + i == p + (|a| + i);
      }
    }
    if WrittenTop(data, p, a) && WrittenTop(data, p + |a|, b) {
      forall i | 0 <= i < |a + b|
        ensures TopBit(data, p + i) == (a + b)[i]
      {
        if i >= |a| { assert TopBit(data, p + |a| + (i - |a|)) == b[i - |a|]; }
      }
    }
  }

  lemma {:induction false} TopWritten(data: seq<byte>, p: nat, v: nat, n: nat)
    requires WrittenTop(data, p, HighFirst(v, n)) && v < Pow2(n)
    ensures Top(data, p, n) == v
    decreases n
  {
    hide TopBit;
    if n > 0 {
      TopJoined(data, p, HighFirst(v / 2, n - 1), [v % 2]);
      assert TopBit(data, p + (n - 1) + 0) == [v % 2][0];
      TopWritten(data, p, v / 2, n - 1);
    }
  }

  /** The number with these bits, the first one highest. */
  function TopNumber(bs: seq<bit>): (v: nat)
    ensures v < Pow2(|bs|)
  {
    if bs == [] then 0 else 2 * TopNumber(bs[..|bs| - 1]) + bs[|bs| - 1]
  }

  /** Eight bits a byte; missing ones at the end are ones. */
  function PackedTop(bs: seq<bit>): (r: seq<byte>)
    ensures |r| == Ceil8(|bs|)
    decreases |bs|
  {
    if bs == [] then []
    else
      var n := if |bs| < 8 then |bs| else 8;
      var eight := bs[..n] + seq(8 - n, _ => 1);
      assert Pow2(8) == 256;
      [TopNumber(eight)] + PackedTop(bs[n..])
  }

  lemma {:induction false} TopNumberBit(bs: seq<bit>, i: nat)
    requires i < |bs|
    ensures Bit(TopNumber(bs), |bs| - 1 - i) == bs[i]
    decreases |bs|
  {
    var front := bs[..|bs| - 1];
    if i < |bs| - 1 {
      TopNumberBit(front, i);
      assert TopNumber(bs) / 2 == TopNumber(front);
    }
  }

  lemma {:induction false} PackedTopBit(bs: seq<bit>, p: nat)
    requires p < |bs|
    ensures TopBit(PackedTop(bs), p) == bs[p]
    decreases |bs|
  {
    var n := if |bs| < 8 then |bs| else 8;
    var eight := bs[..n] + seq(8 - n, _ => 1);
    if p < 8 {
      TopNumberBit(eight, p);
    } else {
      PackedTopBit(bs[n..], p - 8);
      assert (p - 8) / 8 == p / 8 - 1 && (p - 8) % 8 == p % 8;
      assert ByteAt(PackedTop(bs), p / 8) == ByteAt(PackedTop(bs[n..]), p / 8 - 1);
    }
  }

  lemma PackedTopWritten(bs: seq<bit>)
    ensures WrittenTop(PackedTop(bs), 0, bs) && |bs| <= 8 * |PackedTop(bs)|
  {
    hide TopBit, PackedTop;
    forall i | 0 <= i < |bs|
      ensures TopBit(PackedTop(bs), 0 + i) == bs[i]
    {
      PackedTopBit(bs, i);
    }
  }
}
