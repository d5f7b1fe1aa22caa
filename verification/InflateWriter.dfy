/**
 Whole streams as a writer makes them: stored parts, and parts of literals and
 matches with the fixed codes or with codes of their own.  Every such stream is
 valid, and the code decodes it to the bytes that it was written for.
 */
module InflateWriter {
  import opened BitStream
  import opened BitWriter
  import opened Bits
  import opened Common
  import opened InflateApi
  import opened InflateSpec
  import opened InflateTokens
  import InflateHeader
  import Inflate

  // ----- bytes

  function BytesBits(bs: seq<byte>): (r: seq<bit>)
    ensures |r| == 8 * |bs|
  {
    if bs == [] then [] else LowFirst(bs[0], 8) + BytesBits(bs[1..])
  }

  lemma {:induction false} BytesWritten(data: seq<byte>, q: nat, bs: seq<byte>, i: nat)
    requires Written(data, 8 * q, BytesBits(bs)) && i < |bs|
    ensures ByteAt(data, q + i) == bs[i]
    decreases |bs|
  {
    hide Written, ByteAt, LowFirst;
    WrittenJoin(data, 8 * q, LowFirst(bs[0], 8), BytesBits(bs[1..]));
    if i == 0 {
      assert Pow2(8) == 256;
      TakeWritten(data, 8 * q, bs[0], 8);
      TakeByte(data, q);
    } else {
      assert 8 * (q + 1) == 8 * q + 8;
      BytesWritten(data, q + 1, bs[1..], i - 1);
    }
  }

  // ----- parts of a stream

  /** A stored part has any bits in front of its first whole byte. */
  datatype Part =
    | Stored(pad: seq<bit>, bytes: seq<byte>)
    | Fixed(tokens: seq<Token>)
    | Dynamic(tables: InflateHeader.Tables, tokens: seq<Token>)

  ghost predicate PartWritable(part: Part) {
    match part
    case Stored(pad, bytes) => |bytes| <= 0xFFFF && |pad| < 8
    case Fixed(tokens) => AllWritable(FixedLit(), FixedDist(), tokens)
    case Dynamic(t, tokens) => InflateHeader.IsTables(t) && AllWritable(t.lit, t.dist, tokens)
  }

  /** The bytes of a stored part that is written from bit position p on are whole bytes of the stream. */
  predicate PartAligned(part: Part, p: nat) { part.Stored? ==> (p + 3 + |part.pad|) % 8 == 0 }

  ghost function Body(part: Part): seq<bit>
    requires PartWritable(part)
  {
    match part
    case Stored(pad, bytes) =>
      var n, m := |bytes|, 0xFFFF - |bytes|;
      pad + BytesBits([n % 256, n / 256, m % 256, m / 256] + bytes)
    case Fixed(tokens) => BlockBits(FixedLit(), FixedDist(), tokens)
    case Dynamic(t, tokens) => InflateHeader.HeaderBits(t) + BlockBits(t.lit, t.dist, tokens)
  }

  function TypeOf(part: Part): (t: nat)
    ensures t < 3
  {
    if part.Stored? then 0 else if part.Fixed? then 1 else 2
  }

  /** How many bytes tokens stand for. */
  function Spread(tokens: seq<Token>): nat {
    if tokens == [] then 0 else (if tokens[0].Byte? then 1 else tokens[0].len) + Spread(tokens[1..])
  }

  function PartSpread(part: Part): nat {
    if part.Stored? then |part.bytes| else Spread(part.tokens)
  }

  /** The part stands for the bytes of `out` from k to e. */
  ghost predicate PartDescribes(part: Part, out: seq<byte>, k: nat, e: nat)
    requires k <= e <= |out|
  {
    if part.Stored? then part.bytes == out[k..e] else Describe(part.tokens, out[..e], k)
  }

  // ----- one part is read

  lemma StoredWritten(data: seq<byte>, p: nat, part: Part, out: seq<byte>, k: nat, e: nat, limit: nat)
    requires part.Stored? && PartWritable(part) && PartAligned(part, p)
    requires k <= e <= |out| <= limit && PartDescribes(part, out, k, e)
    requires Written(data, p + 3, Body(part)) && p + 3 + |Body(part)| <= 8 * |data|
    ensures StoredBlock(data, p + 3, out[..k], limit) == Accept(p + 3 + |Body(part)|, out[..e])
  {
    hide Written, ByteAt, BytesBits;
    var n, m := |part.bytes|, 0xFFFF - |part.bytes|;
    var bytes := [n % 256, n / 256, m % 256, m / 256] + part.bytes;
    var q := (p + 3 + |part.pad|) / 8;
    assert AlignUp(p + 3) == q && 8 * q == p + 3 + |part.pad|;
    WrittenJoin(data, p + 3, part.pad, BytesBits(bytes));
    forall i | 0 <= i < |bytes|
      ensures ByteAt(data, q + i) == bytes[i]
    {
      BytesWritten(data, q, bytes, i);
    }
    assert bytes[0] == n % 256 && bytes[1] == n / 256 && bytes[2] == m % 256 && bytes[3] == m / 256;
    assert ByteAt(data, q + 0) == n % 256 && ByteAt(data, q + 1) == n / 256;
    assert ByteAt(data, q + 2) == m % 256 && ByteAt(data, q + 3) == m / 256;
    BytesAre(data, q, bytes);
    assert data[q + 4..q + 4 + n] == bytes[4..] == part.bytes;
    assert out[..k] + part.bytes == out[..e];
  }

  lemma BytesAre(data: seq<byte>, q: nat, bytes: seq<byte>)
    requires q + |bytes| <= |data| && forall i :: 0 <= i < |bytes| ==> ByteAt(data, q + i) == bytes[i]
    ensures data[q..q + |bytes|] == bytes
  {
    forall i | 0 <= i < |bytes|
      ensures data[q + i] == bytes[i]
    {
      assert ByteAt(data, q + i) == bytes[i];
    }
  }

  lemma PartWritten(data: seq<byte>, p: nat, part: Part, out: seq<byte>, k: nat, e: nat, limit: nat)
    requires PartWritable(part) && PartAligned(part, p) && k <= e <= |out| <= limit && PartDescribes(part, out, k, e)
    requires Written(data, p + 3, Body(part)) && p + 3 + |Body(part)| <= 8 * |data|
    ensures BlockOfType(data, TypeOf(part), p + 3, out[..k], limit) == Accept(p + 3 + |Body(part)|, out[..e])
  {
    hide Written, StoredBlock, CompressedBlock, DynamicTables, BlockBits, AllWritable, Describe, FixedLit, FixedDist;
    hide InflateHeader.HeaderBits;
    if part.Stored? {
      StoredWritten(data, p, part, out, k, e, limit);
    } else {
      assert out[..e][..k] == out[..k];
      if part.Fixed? {
        Inflate.FixedTablesFit();
        BlockWritten(data, p + 3, FixedLit(), FixedDist(), part.tokens, out[..e], k, limit);
      } else {
        var t, h := part.tables, InflateHeader.HeaderBits(part.tables);
        WrittenJoin(data, p + 3, h, BlockBits(t.lit, t.dist, part.tokens));
        InflateHeader.HeaderWritten(data, p + 3, t);
        BlockWritten(data, p + 3 + |h|, t.lit, t.dist, part.tokens, out[..e], k, limit);
      }
    }
  }

  // ----- streams

  ghost function PartBits(part: Part, last: bool): seq<bit>
    requires PartWritable(part)
  {
    [if last then 1 else 0] + LowFirst(TypeOf(part), 2) + Body(part)
  }

  ghost predicate AllPartsWritable(parts: seq<Part>) {
    forall i :: 0 <= i < |parts| ==> PartWritable(parts[i])
  }

  ghost predicate AllAligned(parts: seq<Part>, p: nat)
    requires AllPartsWritable(parts)
  {
    parts != [] ==>
      PartAligned(parts[0], p) && AllAligned(parts[1..], p + |PartBits(parts[0], |parts| == 1)|)
  }

  /** The parts one after the other; the last one is marked. */
  ghost function StreamBits(parts: seq<Part>): seq<bit>
    requires AllPartsWritable(parts)
  {
    if parts == [] then [] else PartBits(parts[0], |parts| == 1) + StreamBits(parts[1..])
  }

  /** The parts stand for `out` from k on. */
  ghost predicate PartsDescribe(parts: seq<Part>, out: seq<byte>, k: nat) {
    if parts == [] then k == |out|
    else
      var e := k + PartSpread(parts[0]);
      e <= |out| && PartDescribes(parts[0], out, k, e) && PartsDescribe(parts[1..], out, e)
  }

  lemma OnePart(data: seq<byte>, p: nat, part: Part, last: bool, out: seq<byte>, k: nat, e: nat, limit: nat)
    requires PartWritable(part) && PartAligned(part, p) && k <= e <= |out| <= limit && PartDescribes(part, out, k, e)
    requires Written(data, p, PartBits(part, last)) && p + |PartBits(part, last)| <= 8 * |data|
    ensures Block(data, p, out[..k], limit) == Accept(p + |PartBits(part, last)|, out[..e])
    ensures StreamBit(data, p) == if last then 1 else 0
  {
    hide StreamBit, Take, BlockOfType, Body, PartWritable, PartDescribes, LowFirst;
    var a, b, c := [if last then 1 else 0], LowFirst(TypeOf(part), 2), Body(part);
    WrittenJoin(data, p, a + b, c);
    WrittenJoin(data, p, a, b);
    assert StreamBit(data, p + 0) == a[0];
    hide Written;
    SmallPowers();
    TakeWritten(data, p + 1, TypeOf(part), 2);
    PartWritten(data, p, part, out, k, e, limit);
  }

  lemma {:induction false} PartsWritten(data: seq<byte>, p: nat, parts: seq<Part>, out: seq<byte>, k: nat, limit: nat)
    requires parts != [] && AllPartsWritable(parts) && AllAligned(parts, p)
    requires k <= |out| <= limit && PartsDescribe(parts, out, k)
    requires Written(data, p, StreamBits(parts)) && p + |StreamBits(parts)| <= 8 * |data|
    ensures Blocks(data, p, out[..k], limit) == Accept(p + |StreamBits(parts)|, out)
    decreases |parts|
  {
    hide Written, Block, PartBits, StreamBit, PartWritable, PartDescribes;
    var last, e := |parts| == 1, k + PartSpread(parts[0]);
    var here := PartBits(parts[0], last);
    WrittenJoin(data, p, here, StreamBits(parts[1..]));
    OnePart(data, p, parts[0], last, out, k, e, limit);
    if last {
      assert e == |out| && out[..e] == out;
    } else {
      PartsWritten(data, p + |here|, parts[1..], out, e, limit);
    }
  }

  // ----- with or without the header of section 2.2 of RFC 1950

  /** Method 8, no preset dictionary, and a multiple of 31. */
  predicate IsZlibHeader(h: seq<byte>) {
    |h| == 2 && h[0] % 16 == 8 && h[1] / 32 % 2 == 0 && (256 * (h[0] as nat) + h[1]) % 31 == 0
  }

  lemma LowNibble(x: nat)
    ensures Low(x, 4) == x % 16
  {
    hide Low, Shr, Shl;
    assert Pow2(4) == 16;
    SplitAt(x, 4);
    LowBound(x, 4);
    ShlIsTimes(Shr(x, 4), 4);
  }

  lemma DictionaryBit(x: nat)
    ensures Bit(x, 5) == x / 32 % 2
  {
    hide Low, Shr, Shl;
    SmallPowers();
    SplitAt(x, 5);
    LowBound(x, 5);
    ShlIsTimes(Shr(x, 5), 5);
    BitShr(x, 5, 0);
  }

  lemma HeaderAccepted(data: seq<byte>)
    ensures Header(data) <==> |data| >= 2 && IsZlibHeader(data[..2])
  {
    hide Low, Bit;
    if |data| >= 2 {
      LowNibble(data[0]);
      DictionaryBit(data[1]);
    }
  }

  /** The stream that is written for `out`: a header, if any, the parts, and anything behind them. */
  ghost predicate IsStream(data: seq<byte>, h: seq<byte>, parts: seq<Part>, tail: seq<byte>, out: seq<byte>) {
    && (h == [] || IsZlibHeader(h))
    && parts != [] && AllPartsWritable(parts) && AllAligned(parts, 8 * |h|) && PartsDescribe(parts, out, 0)
    && data == h + Packed(StreamBits(parts)) + tail
  }

  /** What has been written is a valid stream for what it was written for. */
  lemma StreamIsValid(data: seq<byte>, h: seq<byte>, parts: seq<Part>, tail: seq<byte>, out: seq<byte>)
    requires IsStream(data, h, parts, tail, out)
    ensures DecodesTo(data, h != [], out)
  {
    hide *;
    StreamWritten(data, h, parts, tail, out);
    InflateAfter(data, h, out);
    IsDecoded(data, h != [], out, 8 * |h| + |StreamBits(parts)|);
  }

  lemma StreamWritten(data: seq<byte>, h: seq<byte>, parts: seq<Part>, tail: seq<byte>, out: seq<byte>)
    requires IsStream(data, h, parts, tail, out)
    ensures AllPartsWritable(parts) && (h == [] || (IsZlibHeader(h) && |data| >= 2 && data[..2] == h))
    ensures 8 * |h| + |StreamBits(parts)| <= 8 * |data|
    ensures Blocks(data, 8 * |h|, [], |out|) == Accept(8 * |h| + |StreamBits(parts)|, out)
  {
    hide Blocks, Packed, StreamBits, PartsDescribe, PartWritable, AllAligned, Written;
    var bs := StreamBits(parts);
    PackedWritten(h, bs, tail);
    assert out[..0] == [] && data[..|h|] == h;
    PartsWritten(data, 8 * |h|, parts, out, 0, |out|);
  }

  lemma InflateAfter(data: seq<byte>, h: seq<byte>, out: seq<byte>)
    requires h == [] || (IsZlibHeader(h) && |data| >= 2 && data[..2] == h)
    ensures InflateSpec.Inflate(data, h != [], |out|) == Blocks(data, 8 * |h|, [], |out|)
  {
    hide Blocks, Header;
    HeaderAccepted(data);
  }

  lemma IsDecoded(data: seq<byte>, header: bool, out: seq<byte>, p: nat)
    requires InflateSpec.Inflate(data, header, |out|) == Accept(p, out) && p <= 8 * |data|
    ensures DecodesTo(data, header, out)
  {
    hide InflateSpec.Inflate;
    assert DecodesWithin(data, header, out, |out|);
  }

  /** The code decodes it, into a buffer that can hold it. */
  method DecodeWritten(data: seq<byte>, ghost h: seq<byte>, ghost parts: seq<Part>, ghost tail: seq<byte>,
                       ghost out: seq<byte>, header: bool, size: nat, expandable: bool)
    returns (r: Option<seq<byte>>, outlen: int)
    requires IsStream(data, h, parts, tail, out) && header == (h != [])
    requires size <= Common.INT_MAX && (expandable ==> size > 0) && |out| <= Capacity(size, expandable)
    ensures r == Some(out) && outlen == ToInt(|out|)
  {
    hide DecodesTo, ToInt, IsStream, Capacity;
    StreamIsValid(data, h, parts, tail, out);
    r, outlen := Decode(data, size, expandable, header);
  }
}
