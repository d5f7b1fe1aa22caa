/**
 The table that decodes run, size and value of a small AC coefficient from nine
 bits at once, and its agreement with reading them one after the other.
 */
module JpegFastAc {
  import opened Bits
  import opened Canonical
  import opened JpegHuffman
  import opened JpegTables
  import opened JpegDecode
  import opened TopBits

  /** The entry for the nine bits i, when they start with a code of length len for run and size rs. */
  function PackAc(i: nat, len: nat, rs: byte): int {
    var magbits := rs % 16;
    if magbits == 0 || len + magbits > FAST_BITS then 0
    else
      var v := Extend(Shr(Low(Shl(i, len), FAST_BITS), FAST_BITS - magbits), magbits);
      if -128 <= v <= 127 then v * 256 + (rs / 16) * 16 + (len + magbits) else 0
  }

  ghost predicate HoldsFastAc(fac: seq<int>, h: Huffman, lens: seq<nat>)
    requires h.Shape() && |lens| <= 256
    reads h.fast, h.values
  {
    |fac| == FAST_SIZE &&
    forall i :: 0 <= i < FAST_SIZE ==>
      fac[i] == if h.fast[i] < |lens| && h.fast[i] != NONE then PackAc(i, lens[h.fast[i]], h.values[h.fast[i]]) else 0
  }

  /** stbi__build_fast_ac. */
  method BuildFastAc(h: Huffman, ghost lens: seq<nat>) returns (fast_ac: array<int>)
    requires h.Shape() && h.Holds(lens)
    ensures fresh(fast_ac) && HoldsFastAc(fast_ac[..], h, lens)
  {
    hide Extend, Shl, Low, Shr, FastHit, Fits, Bounded, Ascending, Huffman.LadderBelow;
    fast_ac := new int[FAST_SIZE];
    for i := 0 to FAST_SIZE
      invariant forall j :: 0 <= j < i ==>
        fast_ac[j] == if h.fast[j] < |lens| && h.fast[j] != NONE
                        then PackAc(j, lens[h.fast[j]], h.values[h.fast[j]]) else 0
    {
      var fast := h.fast[i];
      fast_ac[i] := 0;
      assert FastEntry(lens, |lens|, i, fast);
      if fast < NONE {
        assert h.size[fast] == h.size[..|lens|][fast];
        var rs := h.values[fast];
        var run := (rs / 16) % 16;
        var magbits := rs % 16;
        var len := h.size[fast];
        if magbits != 0 && len + magbits <= FAST_BITS {
          var k := MagnitudeBits(i, len, magbits);
          if -128 <= k <= 127 {
            fast_ac[i] := k * 256 + run * 16 + (len + magbits);
          }
        }
      }
    }
  }

  /** The bits behind the code, extended to a signed value. */
  method MagnitudeBits(i: nat, len: nat, magbits: nat) returns (k: int)
    requires 1 <= magbits && len + magbits <= FAST_BITS
    ensures k == Extend(Shr(Low(Shl(i, len), FAST_BITS), FAST_BITS - magbits), magbits)
  {
    hide And, Low, Shr;
    assert Pow2(9) == FAST_SIZE;
    AndMask(Shl(i, len), 9);
    ShlIsTimes(1, magbits - 1);
    ShlIsTimes(1, magbits);
    k := Shr(And(Shl(i, len), FAST_SIZE - 1), FAST_BITS - magbits);
    var m := Shl(1, magbits - 1);
    if k < m { k := k - Shl(1, magbits) + 1; }
  }

  /** The bits behind a code of the nine are the next ones of the stream. */
  lemma BitsBehindCode(data: seq<byte>, p: nat, len: nat, mag: nat)
    requires len + mag <= FAST_BITS
    ensures Shr(Low(Shl(Top(data, p, FAST_BITS), len), FAST_BITS), FAST_BITS - mag) == Top(data, p + len, mag)
  {
    hide Low, Shl, Shr, Top;
    var rest := FAST_BITS - len;
    TopJoin(data, p, len, rest);
    ShlAdd(Shl(Top(data, p, len), rest), Top(data, p + len, rest), len);
    ShlTwice(Top(data, p, len), rest, len);
    TopBound(data, p + len, rest);
    ShlMono(Pow2(rest), Top(data, p + len, rest), len);
    ShlOfPow2(rest, len);
    LowOfSum(Shl(Top(data, p + len, rest), len), Top(data, p, len), FAST_BITS);
    ShrAdd(Shl(Top(data, p + len, rest), len), len, rest - mag);
    ShrShl(Top(data, p + len, rest), len);
    TopPrefix(data, p + len, mag, rest);
  }

  /** The three parts of an entry come apart again. */
  lemma Unpack(v: int, run: nat, s: nat)
    requires run < 16 && s < 16
    ensures var r := v * 256 + run * 16 + s; r % 16 == s && (r / 16) % 16 == run && r / 256 == v
  {
    var r := v * 256 + run * 16 + s;
    assert r / 16 == v * 16 + run;
  }

  /** A non-zero entry is the coefficient that the code and the bits behind it stand for. */
  lemma FastAcAgrees(lens: seq<nat>, values: seq<byte>, data: seq<byte>, p: nat, i: nat)
    requires |lens| <= 256 == |values| && i < |lens|
    requires TableDecode(lens, Top(data, p, 16)) == Found(i, lens[i])
    requires PackAc(Top(data, p, FAST_BITS), lens[i], values[i]) != 0
    ensures var r := PackAc(Top(data, p, FAST_BITS), lens[i], values[i]);
            ReadAc(Tables, lens, values, data, p) == Reading(Value((r / 16) % 16, r / 256), p + r % 16) &&
              -128 <= r / 256 <= 127
  {
    hide TableDecode, Top, Low, Shr, Shl;
    var rs := values[i];
    BitsBehindCode(data, p, lens[i], rs % 16);
    Unpack(Extend(Top(data, p + lens[i], rs % 16), rs % 16), rs / 16, lens[i] + rs % 16);
  }

  // ----- reading with the bit buffer

  /** What has been read, up to where, and how far the buffer is filled then. */
  datatype Taken = Taken(c: Coefficient, pos: nat, i: Intake)

  /** The two single steps. */
  ghost function TakeSingle(lens: seq<nat>, values: seq<byte>, data: seq<byte>, marked: bool, p: nat, i: Intake)
    : (r: Taken)
    requires |lens| <= 256 == |values|
    ensures r.pos >= p && (r.c.Value? ==> r.c.run < 16 && -0x8000 < r.c.value < 0x8000)
  {
    var second := Refilled(|data|, marked, i, p, 16);
    match TableDecode(lens, Top(data, p, 16))
    case Missing => Taken(Broken, p, second)
    case Found(k, len) =>
      var run, mag := values[k] / 16, values[k] % 16;
      if mag == 0 then Taken(if values[k] == 0xF0 then ZeroRun else EndOfBlock, p + len, second)
      else
        var third := Refilled(|data|, marked, second, p + len, mag);
        if p + len + mag > 8 * third.loaded then Taken(Value(run, 0), p + len, third)
        else
          ExtendBound(data, p + len, mag);
          Taken(Value(run, Extend(Top(data, p + len, mag), mag)), p + len + mag, third)
  }

  /** The next nine bits stand for a code and its value in the combined table. */
  ghost predicate Combined(lens: seq<nat>, values: seq<byte>, data: seq<byte>, p: nat)
    requires |lens| <= 256 == |values|
  {
    var f := TableDecode(lens, Top(data, p, 16));
    f.Found? && f.length <= FAST_BITS && PackAc(Top(data, p, FAST_BITS), f.length, values[f.symbol]) != 0
  }

  /**
   One AC code as the code reads it: where the marker has just stopped the buffer, a
   combined entry that is not all there is refused, and a value that is not all
   there counts as 0 and stays where it is.
   */
  ghost function TakeAc(lens: seq<nat>, values: seq<byte>, data: seq<byte>, marked: bool, p: nat, i: Intake): (r: Taken)
    requires |lens| <= 256 == |values|
    ensures r.pos >= p && (r.c.Value? ==> r.c.run < 16 && -0x8000 < r.c.value < 0x8000)
  {
    var first := Refilled(|data|, marked, i, p, 16);
    if Combined(lens, values, data, p) then
      var f := TableDecode(lens, Top(data, p, 16));
      var run, mag := values[f.symbol] / 16, values[f.symbol] % 16;
      var end := p + f.length + mag;
      if end > 8 * first.loaded then Taken(Broken, p, first)
      else
        ExtendBound(data, p + f.length, mag);
        Taken(Value(run, Extend(Top(data, p + f.length, mag), mag)), end, first)
    else TakeSingle(lens, values, data, marked, p, first)
  }

  /** The reading is that of the zero-extended data, unless it meets the marker on the way. */
  lemma TakenIsRead(lens: seq<nat>, values: seq<byte>, data: seq<byte>, marked: bool, p: nat, i: Intake)
    requires |lens| <= 256 == |values| && Sound(|data|, marked, i, p)
    ensures var t, r := TakeAc(lens, values, data, marked, p, i), ReadAc(Tables, lens, values, data, p);
            && (!marked || i.met || r.pos <= 8 * |data| ==> Reading(t.c, t.pos) == r)
            && (!t.c.Broken? ==> Sound(|data|, marked, t.i, t.pos)) && (i.met ==> t.i.met)
  {
    hide TableDecode, Top, Extend, PackAc, Refilled;
    var size := |data|;
    RefilledFacts(size, marked, i, p, 16);
    var first := Refilled(size, marked, i, p, 16);
    RefilledFacts(size, marked, first, p, 16);
    var second := Refilled(size, marked, first, p, 16);
    var f := TableDecode(lens, Top(data, p, 16));
    if f.Found? {
      CombinedFits(lens, values, data, p);
      RefilledFacts(size, marked, second, p + f.length, values[f.symbol] % 16);
    }
  }

  lemma CombinedFits(lens: seq<nat>, values: seq<byte>, data: seq<byte>, p: nat)
    requires |lens| <= 256 == |values|
    ensures Combined(lens, values, data, p) ==>
              var f := TableDecode(lens, Top(data, p, 16));
              values[f.symbol] % 16 > 0 && f.length + values[f.symbol] % 16 <= FAST_BITS
  {
    hide TableDecode, Top, Extend;
  }

  /**
   One round of the AC loop of stbi__jpeg_decode_block: through the combined table
   or through the two single steps.
   */
  method ReadCoefficient(j: Reader, h: Huffman, fac: seq<int>, ghost lens: seq<nat>) returns (c: Coefficient)
    requires j.Valid() && h.Shape() && h.Holds(lens) && j !in h.Repr && HoldsFastAc(fac, h, lens)
    modifies j
    ensures var t := TakeAc(lens, h.values[..], j.data, j.marked, old(j.p), old(j.Filled()));
            c == t.c && (!c.Broken? ==> j.Valid() && j.p == t.pos && j.Filled() == t.i)
  {
    hide TableDecode, Top, Low, Shr, Shl, Held, Unstuffed, Marked, FastEntry, Huffman.LadderBelow, Huffman.HoldsFast,
         Huffman.HoldsSizes, Fits, Bounded, Ascending, HoldsFastAc, Extend, Grown, Combined, PackAc, TakeSingle;
    j.IsSound();
    RefilledFacts(|j.data|, j.marked, j.Filled(), j.p, 16);
    if j.code_bits < 16 { j.GrowBuffer(); }
    RefilledFacts(|j.data|, j.marked, j.Filled(), j.p, 16);
    var r := LookUp(j, h, fac, lens);
    if r != 0 {
      var run := (r / 16) % 16;
      var s := r % 16;
      if s > j.code_bits { return Broken; }
      j.Consume(s);
      return Value(run, r / 256);
    }
    c := ReadSingle(j, h, lens);
  }

  /** Code, then value. */
  method ReadSingle(j: Reader, h: Huffman, ghost lens: seq<nat>) returns (c: Coefficient)
    requires j.Valid() && h.Shape() && h.Holds(lens) && j !in h.Repr
    requires 8 * Refilled(|j.data|, j.marked, j.Filled(), j.p, 16).loaded >= j.p + 16
    modifies j
    ensures var t := TakeSingle(lens, h.values[..], j.data, j.marked, old(j.p), old(j.Filled()));
            c == t.c && (!c.Broken? ==> j.Valid() && j.p == t.pos && j.Filled() == t.i)
  {
    hide TableDecode, Top, Held, Unstuffed, Marked, Huffman.LadderBelow, Huffman.HoldsFast, Huffman.HoldsSizes, Fits,
         Bounded, Ascending, Extend, Grown, Reader.Valid;
    var rs := j.HuffDecode(h, lens);
    if rs < 0 { return Broken; }
    var s := rs % 16;
    if s == 0 {
      return if rs == 0xF0 then ZeroRun else EndOfBlock;
    }
    var v := j.ExtendReceive(s);
    c := Value(rs / 16, v);
  }

  method LookUp(j: Reader, h: Huffman, fac: seq<int>, ghost lens: seq<nat>) returns (r: int)
    requires j.Valid() && (j.code_bits >= 16 || j.loaded >= |j.data|)
    requires h.Shape() && h.Holds(lens) && HoldsFastAc(fac, h, lens)
    ensures r != 0 <==> Combined(lens, h.values[..], j.data, j.p)
    ensures r != 0 ==>
              ReadAc(Tables, lens, h.values[..], j.data, j.p) == Reading(Value((r / 16) % 16, r / 256), j.p + r % 16)
  {
    hide TableDecode, Top, Low, Shr, Shl, Held, Unstuffed, Marked, Huffman.LadderBelow, Fits, Bounded, Ascending,
         ReadAc, PackAc;
    j.WindowIsStream();
    TopPrefix(j.data, j.p, FAST_BITS, 16);
    var c := j.FastIndex();
    r := fac[c];
    assert FastEntry(lens, |lens|, c, h.fast[c]);
    ShortIsFast(lens, Top(j.data, j.p, 16), h.fast[c]);
    if h.fast[c] != NONE {
      FastFound(lens, Top(j.data, j.p, 16), h.fast[c]);
      if r != 0 { FastAcAgrees(lens, h.values[..], j.data, j.p, h.fast[c]); }
    }
  }

  /** Only the fast table finds codes of at most nine bits. */
  lemma ShortIsFast(lens: seq<nat>, w: nat, k: byte)
    requires |lens| <= 256 && FastEntry(lens, |lens|, Shr(w, 7), k)
    ensures k == NONE ==> var f := TableDecode(lens, w); f.Found? ==> f.length > FAST_BITS
  {
    if k == NONE { SearchDecides(lens, w); }
  }
}
