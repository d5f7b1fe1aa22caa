/** Any bytes cut into stored blocks are a valid stream, and are decoded again. */
module InflateStored {
  import opened Bits
  import opened BitStream
  import opened Common
  import opened InflateApi
  import opened InflateSpec

  const BLOCK: nat := 0xFFFF

  /** Block header, length, complement of the length, and the bytes. */
  function StoredOne(final: bool, part: seq<byte>): (r: seq<byte>)
    requires |part| <= BLOCK
    ensures |r| == 5 + |part|
  {
    var n, m := |part|, BLOCK - |part|;
    [if final then 1 else 0, n % 256, n / 256, m % 256, m / 256] + part
  }

  /** Stored blocks of 65535 bytes, and a last one. */
  function Stored(out: seq<byte>): seq<byte>
    decreases |out|
  {
    if |out| <= BLOCK then StoredOne(true, out) else StoredOne(false, out[..BLOCK]) + Stored(out[BLOCK..])
  }

  lemma HeaderBit(data: seq<byte>, q: nat, k: nat)
    requires ByteAt(data, q) <= 1 && k < 8
    ensures StreamBit(data, 8 * q + k) == if k == 0 then ByteAt(data, q) else 0
  {
    assert (8 * q + k) / 8 == q && (8 * q + k) % 8 == k;
    if k > 0 {
      BitZero(k - 1);
      assert Bit(ByteAt(data, q), k) == Bit(0, k - 1);
    }
  }

  /** The block header is a byte of its own. */
  lemma HeaderBits(data: seq<byte>, q: nat)
    requires ByteAt(data, q) <= 1
    ensures StreamBit(data, 8 * q) == ByteAt(data, q) && Take(data, 8 * q + 1, 2) == 0
  {
    hide StreamBit;
    HeaderBit(data, q, 0);
    HeaderBit(data, q, 1);
    HeaderBit(data, q, 2);
    assert Take(data, 8 * q + 2, 1) == 0;
  }

  /** One stored block at byte q. */
  lemma OneStored(data: seq<byte>, q: nat, final: bool, part: seq<byte>, done: seq<byte>, limit: nat)
    requires |part| <= BLOCK && q + 5 + |part| <= |data| && data[q..q + 5 + |part|] == StoredOne(final, part)
    requires |done| + |part| <= limit
    ensures Block(data, 8 * q, done, limit) == Accept(8 * (q + 5 + |part|), done + part)
    ensures StreamBit(data, 8 * q) == if final then 1 else 0
  {
    hide StreamBit, Take;
    var block := data[q..q + 5 + |part|];
    assert block[0] == data[q] && block[1] == data[q + 1] && block[2] == data[q + 2] && block[3] == data[q + 3] &&
           block[4] == data[q + 4];
    HeaderBits(data, q);
    assert block[5..] == part && data[q + 5..q + 5 + |part|] == block[5..];
  }

  /** The blocks from byte q on add their bytes to what is there. */
  lemma {:induction false} StoredDecodes(data: seq<byte>, q: nat, out: seq<byte>, done: seq<byte>, limit: nat)
    requires q <= |data| && data[q..] == Stored(out) && |done| + |out| <= limit
    ensures Blocks(data, 8 * q, done, limit) == Accept(8 * |data|, done + out)
    decreases |out|
  {
    hide Block, StreamBit, StoredOne;
    var rest := data[q..];
    if |out| <= BLOCK {
      assert data[q..q + 5 + |out|] == rest;
      OneStored(data, q, true, out, done, limit);
    } else {
      var part, next := out[..BLOCK], q + 5 + BLOCK;
      assert data[q..next] == rest[..5 + BLOCK] == StoredOne(false, part);
      assert data[next..] == rest[5 + BLOCK..] == Stored(out[BLOCK..]);
      OneStored(data, q, false, part, done, limit);
      StoredDecodes(data, next, out[BLOCK..], done + part, limit);
      assert done + part + out[BLOCK..] == done + out;
    }
  }

  /** So there is a valid stream for any bytes. */
  lemma StoredIsValid(out: seq<byte>)
    ensures DecodesTo(Stored(out), false, out)
  {
    hide Blocks, Stored;
    var data := Stored(out);
    assert data[8 * 0..] == data && [] + out == out;
    StoredDecodes(data, 0, out, [], |out|);
    assert DecodesWithin(data, false, out, |out|);
  }

  /** The code decodes it, into a buffer that can hold it. */
  method DecodeStored(out: seq<byte>, size: nat, expandable: bool) returns (r: Option<seq<byte>>, outlen: int)
    requires size <= INT_MAX && (expandable ==> size > 0) && |out| <= Capacity(size, expandable)
    ensures r == Some(out) && outlen == ToInt(|out|)
  {
    hide DecodesTo, Stored, ToInt;
    StoredIsValid(out);
    r, outlen := Decode(Stored(out), size, expandable, false);
  }
}
