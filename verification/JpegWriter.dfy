/**
 Baseline blocks as an encoder writes them (sections F.1.2.1 and F.1.2.2 of ITU-T
 T.81): the difference to the prediction, then runs of zeros and values.  The
 decoder reads the coefficients again, up to the last bit.
 */
module JpegWriter {
  import opened BitStream
  import opened BitWriter
  import opened Bits
  import opened Canonical
  import opened Common
  import opened JpegBlock
  import opened JpegDecode
  import opened JpegFastAc
  import opened JpegHuffman
  import opened JpegTables
  import opened TopBits

  // ----- values

  /** How many bits the absolute value has: tables F.1 and F.2. */
  function Category(v: int): (s: nat)
    ensures v == 0 ==> s == 0
    ensures v != 0 ==> s > 0 && Pow2(s - 1) <= Abs(v) < Pow2(s)
    decreases Abs(v)
  {
    if v == 0 then 0 else Category(Abs(v) / 2) + 1
  }

  /** That many bits: a positive value itself, or the low bits of a negative one less 1. */
  function Magnitude(v: int): (r: seq<bit>)
    ensures |r| == Category(v)
  {
    var s := Category(v);
    HighFirst(if v >= 0 then v else Pow2(s) - 1 + v, s)
  }

  lemma MagnitudeRead(data: seq<byte>, p: nat, v: int)
    requires v != 0 && WrittenTop(data, p, Magnitude(v))
    ensures Extend(Top(data, p, Category(v)), Category(v)) == v
  {
    var s := Category(v);
    assert Pow2(s) == 2 * Pow2(s - 1);
    TopWritten(data, p, if v >= 0 then v else Pow2(s) - 1 + v, s);
  }

  // ----- codes

  /** A table of codes: their sizes, and the symbols that they stand for. */
  datatype Codes = Codes(lens: seq<nat>, values: seq<byte>)

  ghost predicate IsCodes(t: Codes) {
    |t.lens| <= 256 == |t.values| && Bounded(t.lens, 16) && Fits(t.lens, 16)
  }

  /** The number of a code for the symbol. */
  predicate CodeFor(t: Codes, symbol: nat, i: nat) {
    i < |t.lens| && i < |t.values| && t.values[i] == symbol && t.lens[i] > 0
  }

  ghost predicate HasSymbol(t: Codes, symbol: nat) {
    exists i: nat :: CodeFor(t, symbol, i)
  }

  ghost function SymbolCode(t: Codes, symbol: nat): seq<bit>
    requires HasSymbol(t, symbol)
  {
    var i: nat :| CodeFor(t, symbol, i);
    HighFirst(Code(t.lens, i), t.lens[i])
  }

  lemma CodeRead(data: seq<byte>, p: nat, t: Codes, symbol: nat)
    requires IsCodes(t) && HasSymbol(t, symbol) && WrittenTop(data, p, SymbolCode(t, symbol))
    ensures var r := CodeHere(AnnexC, t.lens, Top(data, p, 16));
            r.Found? && t.values[r.symbol] == symbol && r.length == |SymbolCode(t, symbol)|
  {
    hide Top, WrittenTop;
    var i: nat :| CodeFor(t, symbol, i) && SymbolCode(t, symbol) == HighFirst(Code(t.lens, i), t.lens[i]);
    var w := Top(data, p, 16);
    CodeFits(t.lens, 16, i);
    TopWritten(data, p, Code(t.lens, i), t.lens[i]);
    TopPrefix(data, p, t.lens[i], 16);
    assert Match(t.lens, i, w);
    var r := CanonicalDecode(t.lens, w);
    Unique(t.lens, i, r.symbol, w);
  }

  // ----- AC coefficients (figure F.2)

  const END_OF_BLOCK: nat := 0x00
  const SIXTEEN_ZEROS: nat := 0xF0

  /** The first position from k on with a value, or 64. */
  function NextValue(zz: seq<int>, k: nat): (m: nat)
    requires |zz| == 64 && k <= 64
    ensures k <= m <= 64 && (m < 64 ==> zz[m] != 0) && forall j :: k <= j < m ==> zz[j] == 0
    decreases 64 - k
  {
    if k == 64 || zz[k] != 0 then k else NextValue(zz, k + 1)
  }

  /** The symbol of a value after some zeros: the zeros in the high four bits, the category in the low ones. */
  function RunAndSize(run: nat, v: int): nat { 16 * run + Category(v) }

  ghost predicate ValueWritable(t: Codes, zeros: nat, v: int) {
    (zeros >= 16 ==> HasSymbol(t, SIXTEEN_ZEROS)) && Category(v) < 16 && HasSymbol(t, RunAndSize(zeros % 16, v))
  }

  ghost predicate RestWritable(t: Codes, zz: seq<int>, k: nat)
    requires |zz| == 64 && k <= 64
    decreases 64 - k
  {
    var m := NextValue(zz, k);
    if m == 64 then k < 64 ==> HasSymbol(t, END_OF_BLOCK)
    else ValueWritable(t, m - k, zz[m]) && RestWritable(t, zz, m + 1)
  }

  lemma RestOfZeros(zeros: nat)
    ensures if zeros >= 16 then (zeros - 16) % 16 == zeros % 16 else zeros % 16 == zeros
  {
  }

  /** Sixteen zeros at a time while there are so many, then run and size, and the value. */
  ghost function ValueBits(t: Codes, zeros: nat, v: int): seq<bit>
    requires ValueWritable(t, zeros, v)
    decreases zeros
  {
    RestOfZeros(zeros);
    if zeros >= 16 then SymbolCode(t, SIXTEEN_ZEROS) + ValueBits(t, zeros - 16, v)
    else SymbolCode(t, RunAndSize(zeros, v)) + Magnitude(v)
  }

  /** The coefficients from k on; zeros at the end are left to the end of the block. */
  ghost function RestBits(t: Codes, zz: seq<int>, k: nat): seq<bit>
    requires |zz| == 64 && k <= 64 && RestWritable(t, zz, k)
    decreases 64 - k
  {
    var m := NextValue(zz, k);
    if m == 64 then if k < 64 then SymbolCode(t, END_OF_BLOCK) else []
    else ValueBits(t, m - k, zz[m]) + RestBits(t, zz, m + 1)
  }

  /** The coefficients below k, zeros from there on. */
  function UpTo(zz: seq<int>, k: nat): (r: seq<int>)
    requires |zz| == 64
    ensures |r| == 64
  {
    seq(64, i requires 0 <= i < 64 => if i < k then zz[i] else 0)
  }

  /** What reading a symbol comes to. */
  lemma AcRead(data: seq<byte>, p: nat, t: Codes, symbol: nat)
    requires IsCodes(t) && HasSymbol(t, symbol) && WrittenTop(data, p, SymbolCode(t, symbol))
    ensures var r, p1 := ReadAc(AnnexC, t.lens, t.values, data, p), p + |SymbolCode(t, symbol)|;
            && (symbol == END_OF_BLOCK ==> r == Reading(EndOfBlock, p1))
            && (symbol == SIXTEEN_ZEROS ==> r == Reading(ZeroRun, p1))
            && (symbol % 16 != 0 ==>
                  r == Reading(Value(symbol / 16, Extend(Top(data, p1, symbol % 16), symbol % 16)), p1 + symbol % 16))
  {
    hide Top, Extend, CodeHere, SymbolCode, WrittenTop;
    CodeRead(data, p, t, symbol);
  }

  lemma {:induction false} ValueRead(data: seq<byte>, p: nat, t: Codes, k: nat, zeros: nat, v: int, cur: seq<int>)
    requires IsCodes(t) && |cur| == 64 && v != 0 && 1 <= k && k + zeros < 64
    requires ValueWritable(t, zeros, v) && WrittenTop(data, p, ValueBits(t, zeros, v))
    ensures var next, p1 := cur[k + zeros := v], p + |ValueBits(t, zeros, v)|;
            ReadRest(AnnexC, t.lens, t.values, data, p, k, cur) ==
            if k + zeros + 1 < 64 then ReadRest(AnnexC, t.lens, t.values, data, p1, k + zeros + 1, next)
            else Block(next, p1)
    decreases zeros
  {
    RestOfZeros(zeros);
    hide Top, Extend, ReadAc, SymbolCode, WrittenTop, Magnitude, HasSymbol, IsCodes;
    if zeros >= 16 {
      var a := SymbolCode(t, SIXTEEN_ZEROS);
      TopJoined(data, p, a, ValueBits(t, zeros - 16, v));
      AcRead(data, p, t, SIXTEEN_ZEROS);
      ValueRead(data, p + |a|, t, k + 16, zeros - 16, v, cur);
    } else {
      var rs := RunAndSize(zeros, v);
      TopJoined(data, p, SymbolCode(t, rs), Magnitude(v));
      AcRead(data, p, t, rs);
      assert rs % 16 == Category(v) && rs / 16 == zeros;
      MagnitudeRead(data, p + |SymbolCode(t, rs)|, v);
    }
  }

  lemma {:induction false} RestRead(data: seq<byte>, p: nat, t: Codes, zz: seq<int>, k: nat)
    requires IsCodes(t) && |zz| == 64 && 1 <= k < 64
    requires RestWritable(t, zz, k) && WrittenTop(data, p, RestBits(t, zz, k))
    ensures ReadRest(AnnexC, t.lens, t.values, data, p, k, UpTo(zz, k)) == Block(zz, p + |RestBits(t, zz, k)|)
    decreases 64 - k
  {
    hide ReadAc, SymbolCode, WrittenTop, HasSymbol, IsCodes, ValueBits, ValueWritable, Top;
    var m := NextValue(zz, k);
    if m == 64 {
      AcRead(data, p, t, END_OF_BLOCK);
      assert UpTo(zz, k) == zz;
    } else {
      var a := ValueBits(t, m - k, zz[m]);
      TopJoined(data, p, a, RestBits(t, zz, m + 1));
      ValueRead(data, p, t, k, m - k, zz[m], UpTo(zz, k));
      assert UpTo(zz, k)[m := zz[m]] == UpTo(zz, m + 1);
      if m + 1 < 64 {
        RestRead(data, p + |a|, t, zz, m + 1);
      } else {
        assert UpTo(zz, 64) == zz;
      }
    }
  }

  // ----- blocks

  /** A block that the tables can write: its difference and its values have codes. */
  ghost predicate BlockWritable(dc: Codes, ac: Codes, zz: seq<int>, pred: int) {
    && |zz| == 64 && Category(zz[0] - pred) < 16 && HasSymbol(dc, Category(zz[0] - pred))
    && RestWritable(ac, zz, 1)
  }

  /** Size and value of the difference to the prediction, then the other coefficients. */
  ghost function BlockBits(dc: Codes, ac: Codes, zz: seq<int>, pred: int): seq<bit>
    requires BlockWritable(dc, ac, zz, pred)
  {
    var diff := zz[0] - pred;
    SymbolCode(dc, Category(diff)) + Magnitude(diff) + RestBits(ac, zz, 1)
  }

  /** The standard reads the coefficients that have been written, up to the last bit. */
  lemma BlockRead(data: seq<byte>, p: nat, dc: Codes, ac: Codes, zz: seq<int>, pred: int, q: nat)
    requires IsCodes(dc) && IsCodes(ac) && BlockWritable(dc, ac, zz, pred)
    requires Int(zz[0]) && Short(zz[0] * q) && WrittenTop(data, p, BlockBits(dc, ac, zz, pred))
    ensures ReadBlock(AnnexC, dc.lens, dc.values, ac.lens, ac.values, data, p, pred, q) ==
            Block(zz, p + |BlockBits(dc, ac, zz, pred)|)
  {
    hide ReadRest, RestBits, SymbolCode, WrittenTop, HasSymbol, CodeHere, Extend, Top, RestWritable;
    var diff := zz[0] - pred;
    var a, b, c := SymbolCode(dc, Category(diff)), Magnitude(diff), RestBits(ac, zz, 1);
    TopJoined(data, p, a + b, c);
    TopJoined(data, p, a, b);
    CodeRead(data, p, dc, Category(diff));
    if diff != 0 { MagnitudeRead(data, p + |a|, diff); }
    assert DcOnly(zz[0]) == UpTo(zz, 1);
    RestRead(data, p + |a| + |b|, ac, zz, 1);
  }

  /** The decoder's tables are those, and symbol 255 has no short code. */
  ghost predicate Ready(h: Huffman, t: Codes)
    reads h, h.Repr
  {
    h.Shape() && h.Holds(t.lens) && h.values[..] == t.values && NoClash(t.lens)
  }

  ghost predicate AllReady(hdc: Huffman, hac: Huffman, fac: seq<int>, dc: Codes, ac: Codes)
    reads hdc, hdc.Repr, hac, hac.Repr
  {
    Ready(hdc, dc) && Ready(hac, ac) && HoldsFastAc(fac, hac, ac.lens)
  }

  /** The decoder accepts the block, leaves those coefficients, and stands behind the last bit. */
  method DecodeWritten(j: Reader, comp: Component, block: array<int>, hdc: Huffman, hac: Huffman, fac: seq<int>,
                       ghost dc: Codes, ghost ac: Codes, dequant: seq<nat>, ghost zz: seq<int>) returns (ok: bool)
    requires j.Valid() && j !in hdc.Repr + hac.Repr && (block as object) !in hdc.Repr + hac.Repr
    requires AllReady(hdc, hac, fac, dc, ac)
    requires Int(comp.dc_pred) && block.Length == 64 && |dequant| == 64
    requires forall i :: 0 <= i < 64 ==> dequant[i] < 0x10000
    requires BlockWritable(dc, ac, zz, comp.dc_pred) && Int(zz[0]) && Short(zz[0] * dequant[0])
    requires WrittenTop(j.data, j.p, BlockBits(dc, ac, zz, comp.dc_pred))
    requires j.p + |BlockBits(dc, ac, zz, comp.dc_pred)| <= 8 * |j.data|
    modifies j, comp, block
    ensures ok && j.Valid() && j.p == old(j.p) + |BlockBits(dc, ac, zz, old(comp.dc_pred))|
    ensures comp.dc_pred == zz[0] && Placed(block[..], zz, dequant)
  {
    hide ReadBlock, TakeBlock, BlockBits, BlockWritable, Placed, WrittenTop, Reader.Valid;
    BlockRead(j.data, j.p, dc, ac, zz, comp.dc_pred, dequant[0]);
    ok := DecodeBlock(j, comp, block, hdc, hac, fac, dc.lens, ac.lens, dequant);
  }

  // ----- bytes

  /** A zero is put behind every byte 0xFF (section F.1.2.3). */
  function Stuffed(d: seq<byte>): seq<byte> {
    if d == [] then [] else (if d[0] == 0xFF then [0xFF, 0] else [d[0]]) + Stuffed(d[1..])
  }

  /** What follows the data: nothing, or a marker with fill bytes before it, and anything behind it. */
  ghost predicate EndsData(end: seq<byte>) {
    end == [] || (exists n: nat :: MarkerAt(end, n))
  }

  predicate MarkerAt(end: seq<byte>, n: nat) {
    0 < n < |end| && end[n] != 0 && end[n] != 0xFF && forall i :: 0 <= i < n ==> end[i] == 0xFF
  }

  lemma {:induction false} FillPassed(src: seq<byte>, i: nat, n: nat)
    requires i <= n < |src| && src[n] != 0xFF && forall k :: i <= k < n ==> src[k] == 0xFF
    ensures PastFill(src, i) == n
    decreases n - i
  {
    if i < n { FillPassed(src, i + 1, n); }
  }

  /** Nothing is read from what follows the data. */
  lemma EndRead(src: seq<byte>, i: nat)
    requires i <= |src| && EndsData(src[i..])
    ensures Unstuffed(src, i) == []
  {
    var end := src[i..];
    if end != [] {
      var n: nat :| MarkerAt(end, n);
      forall k | 0 <= k <= n
        ensures src[i + k] == end[k]
      {
      }
      assert src[i + 0] == 0xFF;
      FillPassed(src, i + 1, i + n);
    }
  }

  lemma OneRead(src: seq<byte>, i: nat, b: byte)
    requires i < |src| && src[i] == b && (b == 0xFF ==> i + 1 < |src| && src[i + 1] == 0)
    ensures Unstuffed(src, i) == [b] + Unstuffed(src, i + if b == 0xFF then 2 else 1)
  {
    if b == 0xFF { FillPassed(src, i + 1, i + 1); }
  }

  /** The stuffed bytes are read as they were. */
  lemma {:induction false} StuffedRead(src: seq<byte>, i: nat, d: seq<byte>, end: seq<byte>)
    requires i <= |src| && src[i..] == Stuffed(d) + end && EndsData(end)
    ensures Unstuffed(src, i) == d
    decreases |d|
  {
    hide Unstuffed, EndsData;
    if d == [] {
      assert src[i..] == end;
      EndRead(src, i);
    } else {
      var here := if d[0] == 0xFF then [0xFF, 0] else [d[0]];
      var rest := Stuffed(d[1..]) + end;
      assert src[i..] == here + rest;
      assert src[i..][0] == src[i] && (d[0] == 0xFF ==> src[i..][1] == src[i + 1]);
      assert src[i + |here|..] == src[i..][|here|..] == rest;
      OneRead(src, i, d[0]);
      StuffedRead(src, i + |here|, d[1..], end);
    }
  }

  // ----- scans

  ghost predicate ScanWritable(dc: Codes, ac: Codes, zzs: seq<seq<int>>, pred: int, q: nat) {
    zzs != [] ==>
      && BlockWritable(dc, ac, zzs[0], pred) && Int(zzs[0][0]) && Short(zzs[0][0] * q)
      && ScanWritable(dc, ac, zzs[1..], zzs[0][0], q)
  }

  /** Each block's DC coefficient is the prediction for the next one. */
  ghost function ScanBits(dc: Codes, ac: Codes, zzs: seq<seq<int>>, pred: int, q: nat): seq<bit>
    requires ScanWritable(dc, ac, zzs, pred, q)
  {
    if zzs == [] then []
    else BlockBits(dc, ac, zzs[0], pred) + ScanBits(dc, ac, zzs[1..], zzs[0][0], q)
  }

  /** The blocks of a scan are what is to be read next. */
  ghost predicate ScanAhead(data: seq<byte>, p: nat, dc: Codes, ac: Codes, zzs: seq<seq<int>>, pred: int, q: nat) {
    && Int(pred) && ScanWritable(dc, ac, zzs, pred, q) && WrittenTop(data, p, ScanBits(dc, ac, zzs, pred, q))
    && p + |ScanBits(dc, ac, zzs, pred, q)| <= 8 * |data|
  }

  method DecodeNext(j: Reader, comp: Component, block: array<int>, hdc: Huffman, hac: Huffman, fac: seq<int>,
                    ghost dc: Codes, ghost ac: Codes, dequant: seq<nat>, ghost zzs: seq<seq<int>>) returns (ok: bool)
    requires j.Valid() && j !in hdc.Repr + hac.Repr && (block as object) !in hdc.Repr + hac.Repr
    requires AllReady(hdc, hac, fac, dc, ac)
    requires block.Length == 64 && |dequant| == 64 && forall i :: 0 <= i < 64 ==> dequant[i] < 0x10000
    requires zzs != [] && ScanAhead(j.data, j.p, dc, ac, zzs, comp.dc_pred, dequant[0])
    modifies j, comp, block
    ensures ok && j.Valid() && Placed(block[..], zzs[0], dequant) && AllReady(hdc, hac, fac, dc, ac)
    ensures ScanAhead(j.data, j.p, dc, ac, zzs[1..], comp.dc_pred, dequant[0])
  {
    hide Placed, BlockBits, WrittenTop, Reader.Valid, RestWritable, HasSymbol, Category, Huffman.Holds, HoldsFastAc;
    ghost var zz, pred, q := zzs[0], comp.dc_pred, dequant[0];
    TopJoined(j.data, j.p, BlockBits(dc, ac, zz, pred), ScanBits(dc, ac, zzs[1..], zz[0], q));
    ok := DecodeWritten(j, comp, block, hdc, hac, fac, dc, ac, dequant, zz);
  }

  /** The blocks that are to be read next, one after the other. */
  method DecodeBlocks(j: Reader, comp: Component, block: array<int>, hdc: Huffman, hac: Huffman, fac: seq<int>,
                      ghost dc: Codes, ghost ac: Codes, dequant: seq<nat>, count: nat, ghost zzs: seq<seq<int>>)
    returns (ok: bool, blocks: seq<seq<int>>)
    requires j.Valid() && j !in hdc.Repr + hac.Repr && (block as object) !in hdc.Repr + hac.Repr
    requires AllReady(hdc, hac, fac, dc, ac)
    requires block.Length == 64 && |dequant| == 64 && forall i :: 0 <= i < 64 ==> dequant[i] < 0x10000
    requires count == |zzs| && ScanAhead(j.data, j.p, dc, ac, zzs, comp.dc_pred, dequant[0])
    modifies j, comp, block
    ensures ok && |blocks| == count && forall i :: 0 <= i < count ==> Placed(blocks[i], zzs[i], dequant)
  {
    hide Placed, ScanAhead, Reader.Valid, AllReady;
    ok, blocks := true, [];
    assert zzs[0..] == zzs;
    for i := 0 to count
      invariant ok && |blocks| == i && forall k :: 0 <= k < i ==> Placed(blocks[k], zzs[k], dequant)
      invariant j.Valid() && ScanAhead(j.data, j.p, dc, ac, zzs[i..], comp.dc_pred, dequant[0])
      invariant AllReady(hdc, hac, fac, dc, ac)
    {
      assert zzs[i..][1..] == zzs[i + 1..] && zzs[i..][0] == zzs[i];
      ok := DecodeNext(j, comp, block, hdc, hac, fac, dc, ac, dequant, zzs[i..]);
      blocks := blocks + [block[..]];
    }
  }

  /** The blocks of a scan of one component, from the bytes of the file. */
  method DecodeScan(src: seq<byte>, hdc: Huffman, hac: Huffman, fac: seq<int>, dequant: seq<nat>, count: nat,
                    ghost dc: Codes, ghost ac: Codes, ghost zzs: seq<seq<int>>, ghost end: seq<byte>)
    returns (ok: bool, blocks: seq<seq<int>>)
    requires AllReady(hdc, hac, fac, dc, ac)
    requires |dequant| == 64 && forall i :: 0 <= i < 64 ==> dequant[i] < 0x10000
    requires ScanWritable(dc, ac, zzs, 0, dequant[0]) && count == |zzs| && EndsData(end)
    requires src == Stuffed(PackedTop(ScanBits(dc, ac, zzs, 0, dequant[0]))) + end
    ensures ok && |blocks| == count && forall i :: 0 <= i < count ==> Placed(blocks[i], zzs[i], dequant)
  {
    hide Placed, WrittenTop, PackedTop, Stuffed, Unstuffed, EndsData, AllReady, Reader.Valid;
    hide ScanWritable, ScanBits;
    ghost var bs := ScanBits(dc, ac, zzs, 0, dequant[0]);
    StuffedRead(src, 0, PackedTop(bs), end) by { assert src[0..] == src; }
    PackedTopWritten(bs);
    var j := new Reader(src, 0);
    var comp := new Component();
    var block := new int[64];
    assert ScanAhead(j.data, j.p, dc, ac, zzs, comp.dc_pred, dequant[0]);
    hide ScanAhead;
    ok, blocks := DecodeBlocks(j, comp, block, hdc, hac, fac, dc, ac, dequant, count, zzs);
  }
}
