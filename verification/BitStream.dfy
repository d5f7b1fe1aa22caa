/**
 A byte sequence read as a stream of bits, lowest bit of each byte first
 (section 3.1.1 of RFC 1951), and continued with zero bits past its end.
 */
module BitStream {
  import opened Bits

  function ByteAt(data: seq<byte>, q: nat): byte {
    if q < |data| then data[q] else 0
  }

  function StreamBit(data: seq<byte>, p: nat): (b: nat)
    ensures b == 0 || b == 1
  {
    BitRange(ByteAt(data, p / 8), p % 8);
    Bit(ByteAt(data, p / 8), p % 8)
  }

  /** The n bits from position p on as a number, first bit lowest. */
  function Take(data: seq<byte>, p: nat, n: nat): nat
    decreases n
  {
    if n == 0 then 0 else StreamBit(data, p) + 2 * Take(data, p + 1, n - 1)
  }

  /** The same bits with the first bit highest: how Huffman codes are packed. */
  function CodeBits(data: seq<byte>, p: nat, n: nat): nat {
    if n == 0 then 0 else 2 * CodeBits(data, p, n - 1) + StreamBit(data, p + n - 1)
  }

  lemma {:induction false} TakeBound(data: seq<byte>, p: nat, n: nat)
    ensures Take(data, p, n) < Pow2(n)
    decreases n
  {
    if n > 0 { TakeBound(data, p + 1, n - 1); }
  }

  lemma {:induction false} LowTake(data: seq<byte>, p: nat, n: nat, k: nat)
    requires k <= n
    ensures Low(Take(data, p, n), k) == Take(data, p, k)
    decreases k
  {
    if k > 0 { LowTake(data, p + 1, n - 1, k - 1); }
  }

  lemma {:induction false} ShrTake(data: seq<byte>, p: nat, n: nat, k: nat)
    requires k <= n
    ensures Shr(Take(data, p, n), k) == Take(data, p + k, n - k)
    decreases k
  {
    if k > 0 { ShrTake(data, p + 1, n - 1, k - 1); }
  }

  lemma {:induction false} TakeJoin(data: seq<byte>, p: nat, m: nat, n: nat)
    ensures Take(data, p, m + n) == Take(data, p, m) + Shl(Take(data, p + m, n), m)
    decreases m
  {
    hide StreamBit;
    if m > 0 { TakeJoin(data, p + 1, m - 1, n); }
  }

  lemma {:induction false} TakeWithinByte(data: seq<byte>, q: nat, k: nat)
    requires k <= 8
    ensures Take(data, 8 * q + k, 8 - k) == Shr(ByteAt(data, q), k)
    decreases 8 - k
  {
    var b := ByteAt(data, q);
    if k == 8 {
      ShrByte(b);
    } else {
      TakeWithinByte(data, q, k + 1);
      assert (8 * q + k) / 8 == q && (8 * q + k) % 8 == k;
      BitShr(b, k, 0);
      ShrSucc(b, k);
    }
  }

  lemma ShrByte(b: byte)
    ensures Shr(b, 8) == 0
  {
    ShrBound(b, 8, 0);
  }

  /** Eight bits from a byte boundary are that byte. */
  lemma TakeByte(data: seq<byte>, q: nat)
    ensures Take(data, 8 * q, 8) == ByteAt(data, q)
  {
    TakeWithinByte(data, q, 0);
  }

  lemma {:induction false} RevIntoTake(data: seq<byte>, p: nat, k: nat, n: nat)
    ensures RevInto(Take(data, p + k, n), n, CodeBits(data, p, k)) == CodeBits(data, p, k + n)
    decreases n
  {
    hide StreamBit;
    if n > 0 { RevIntoTake(data, p, k + 1, n - 1); }
  }

  /** Reversing buffered bits gives them in code order. */
  lemma RevTake(data: seq<byte>, p: nat, n: nat)
    ensures Rev(Take(data, p, n), n) == CodeBits(data, p, n)
  {
    RevIntoTake(data, p, 0, n);
  }

  lemma {:induction false} ShrCodeBits(data: seq<byte>, p: nat, n: nat, k: nat)
    requires k <= n
    ensures Shr(CodeBits(data, p, n), n - k) == CodeBits(data, p, k)
    decreases n
  {
    if k < n { ShrCodeBits(data, p, n - 1, k); }
  }

  lemma CodeBitsBound(data: seq<byte>, p: nat, n: nat)
    ensures CodeBits(data, p, n) < Pow2(n)
  {
    RevTake(data, p, n);
    RevBound(Take(data, p, n), n);
  }

  /** The next byte, shifted in above the n buffered bits, extends them. */
  lemma AppendByte(data: seq<byte>, pos: nat, n: nat, e: nat)
    requires pos + n == 8 * e
    ensures Or(Take(data, pos, n), Shl(ByteAt(data, e), n)) == Take(data, pos, n + 8)
  {
    hide *;
    TakeByte(data, e);
    TakeJoin(data, pos, n, 8);
    TakeBound(data, pos, n);
    OrDisjoint(Take(data, pos, n), ByteAt(data, e), n);
  }
}
