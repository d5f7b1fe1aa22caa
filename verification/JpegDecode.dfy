/**
 Entropy-coded JPEG data: the bit buffer filled from the top, Huffman decoding,
 signed magnitudes, and the table that reads both at once for short codes.
 */
module JpegDecode {
  import opened Bits
  import opened BitStream
  import opened Canonical
  import opened JpegHuffman
  import opened JpegTables
  import opened TopBits

  // ----- the bit stream (section F.1.2.3 of ITU-T T.81)

  /** The data bytes up to the first marker, with stuffed zeros removed and fill bytes before them skipped. */
  function Unstuffed(src: seq<byte>, i: nat): seq<byte>
    decreases |src| - i
  {
    if i >= |src| then []
    else if src[i] != 0xFF then [src[i]] + Unstuffed(src, i + 1)
    else
      var j := PastFill(src, i + 1);
      if ByteAt(src, j) != 0 then [] else [0xFF] + Unstuffed(src, if j < |src| then j + 1 else j)
  }

  /** Whether a marker ends those bytes, rather than the end of the source. */
  function Marked(src: seq<byte>, i: nat): bool
    decreases |src| - i
  {
    if i >= |src| then false
    else if src[i] != 0xFF then Marked(src, i + 1)
    else
      var j := PastFill(src, i + 1);
      ByteAt(src, j) != 0 || Marked(src, if j < |src| then j + 1 else j)
  }

  function PastFill(src: seq<byte>, i: nat): (j: nat)
    ensures i <= j && (i <= |src| ==> j <= |src|)
    decreases |src| - i
  {
    if i < |src| && src[i] == 0xFF then PastFill(src, i + 1) else i
  }

  // ----- what one coefficient is

  /** The signed value of n bits v: section F.2.2.1, figure F.12. */
  function Extend(v: nat, n: nat): int
    requires n > 0
  {
    if v < Pow2(n - 1) then v - Pow2(n) + 1 else v
  }

  /** What one AC code stands for: nothing, the end of the block, sixteen zeros, or a value after some zeros. */
  datatype Coefficient = Broken | EndOfBlock | ZeroRun | Value(run: nat, value: int)

  datatype Reading = Reading(c: Coefficient, pos: nat)

  /** How codes are found: with the tables that are built, or as Annex C defines. */
  datatype Rule = Tables | AnnexC

  ghost function CodeHere(rule: Rule, lens: seq<nat>, w: nat): (r: Found)
    ensures r.Found? && |lens| <= 256 ==> r.symbol < 256
  {
    match rule
    case Tables => TableDecode(lens, w)
    case AnnexC => CanonicalDecode(lens, w)
  }

  /** Section F.2.2.2: a code for run and size, then that many bits of value. */
  ghost function ReadAc(rule: Rule, lens: seq<nat>, values: seq<byte>, data: seq<byte>, p: nat): Reading
    requires |lens| <= 256 == |values|
  {
    match CodeHere(rule, lens, Top(data, p, 16))
    case Missing => Reading(Broken, p)
    case Found(i, len) =>
      var rs := values[i];
      if rs % 16 == 0 then Reading(if rs == 0xF0 then ZeroRun else EndOfBlock, p + len)
      else Reading(Value(rs / 16, Extend(Top(data, p + len, rs % 16), rs % 16)), p + len + rs % 16)
  }

  lemma ExtendBound(data: seq<byte>, p: nat, n: nat)
    requires 1 <= n <= 15
    ensures -0x8000 < Extend(Top(data, p, n), n) < 0x8000
  {
    hide Top;
    TopBound(data, p, n);
    Pow2Mono(n, 15);
    assert Pow2(15) == 0x8000 by { assert Pow2(8) == 256; }
  }

  // ----- how far the bit buffer is filled

  /** The bytes that the bit buffer has taken in, zeros after the end included, and whether it has met the marker that
      ends the data. */
  datatype Intake = Intake(loaded: nat, met: bool)

  /** Filling up from position p to more than 24 bits: a marker stops it once, after that it goes on with zeros. */
  function Grown(size: nat, marked: bool, i: Intake, p: nat): Intake {
    var full := (p + 24) / 8 + 1;
    if i.met || !marked || full <= size then i.(loaded := full) else Intake(size, true)
  }

  /** Filling up if fewer than n bits are left. */
  function Refilled(size: nat, marked: bool, i: Intake, p: nat, n: nat): Intake {
    if 8 * i.loaded < p + n then Grown(size, marked, i, p) else i
  }

  /** What holds of the buffer at any time. */
  predicate Sound(size: nat, marked: bool, i: Intake, p: nat) {
    && p <= 8 * i.loaded <= p + 32
    && (if i.met then i.loaded >= size && marked else marked ==> i.loaded <= size)
  }

  /** The bits are there after filling up, unless the marker has stopped it just then; a second try gets them. */
  lemma RefilledFacts(size: nat, marked: bool, i: Intake, p: nat, n: nat)
    requires Sound(size, marked, i, p) && n <= 16
    ensures var f := Refilled(size, marked, i, p, n);
            && Sound(size, marked, f, p) && i.loaded <= f.loaded && (i.met ==> f.met)
            && (8 * f.loaded >= p + n || (f == Intake(size, true) && !i.met))
            && 8 * Refilled(size, marked, f, p, n).loaded >= p + n
  {
  }

  // ----- shifting the buffer

  /** The buffer for n bits from p: those bits at the top, zeros below. */
  ghost function Held(data: seq<byte>, p: nat, n: nat): nat
    requires n <= 32
  {
    Shl(Top(data, p, n), 32 - n)
  }

  lemma HeldBound(data: seq<byte>, p: nat, n: nat)
    requires n <= 32
    ensures Held(data, p, n) < Pow2(32)
  {
    TopBound(data, p, n);
    ShlMono(Pow2(n), Top(data, p, n), 32 - n);
    ShlOfPow2(n, 32 - n);
  }

  /** The k top bits. */
  lemma HeldTop(data: seq<byte>, p: nat, n: nat, k: nat)
    requires k <= n <= 32
    ensures Shr(Held(data, p, n), 32 - k) == Top(data, p, k)
  {
    TopJoin(data, p, k, n - k);
    ShrAdd(Held(data, p, n), 32 - n, n - k);
    ShrShl(Top(data, p, n), 32 - n);
    TopBound(data, p + k, n - k);
    LowOfSum(Top(data, p + k, n - k), Top(data, p, k), n - k);
  }

  /** Where the data has ended, missing bits read as zero. */
  lemma HeldShort(data: seq<byte>, p: nat, n: nat, k: nat)
    requires n <= k <= 32 && p + n >= 8 * |data|
    ensures Held(data, p, n) == Held(data, p, k)
  {
    TopJoin(data, p, n, k - n);
    TopZeros(data, p + n, k - n);
    ShlTwice(Top(data, p, n), k - n, 32 - k);
  }

  /** `code_buffer <<= s` in 32 bits drops s bits at the top. */
  lemma HeldShift(data: seq<byte>, p: nat, n: nat, s: nat)
    requires s <= n <= 32
    ensures Low(Shl(Held(data, p, n), s), 32) == Held(data, p + s, n - s)
  {
    hide Low, Shl, Top;
    TopJoin(data, p, s, n - s);
    ShlTwice(Top(data, p, n), 32 - n, s);
    ShlAdd(Shl(Top(data, p, s), n - s), Top(data, p + s, n - s), 32 - n + s);
    ShlTwice(Top(data, p, s), n - s, 32 - n + s);
    HeldBound(data, p + s, n - s);
    LowOfSum(Held(data, p + s, n - s), Top(data, p, s), 32);
  }

  /** The next byte goes right below the n bits. */
  lemma HeldAppend(data: seq<byte>, p: nat, n: nat, e: nat)
    requires n <= 24 && p + n == 8 * e
    ensures Or(Held(data, p, n), Shl(ByteAt(data, e), 24 - n)) == Held(data, p, n + 8)
  {
    hide Top, Shl, Or;
    var t, b := Top(data, p, n), ByteAt(data, e);
    TopByte(data, e);
    TopJoin(data, p, n, 8);
    ShlTwice(t, 8, 24 - n);
    ShlAdd(Shl(t, 8), b, 24 - n);
    assert Pow2(8) == 256;
    ShlMono(256, b, 24 - n);
    ShlOfPow2(8, 24 - n);
    OrCommutes(Shl(t, 32 - n), Shl(b, 24 - n));
    OrDisjoint(Shl(b, 24 - n), t, 32 - n);
  }

  class Reader {
    const source: seq<byte>
    var pos: nat
    var code_buffer: nat
    var code_bits: int
    var marker: byte
    var nomore: bool

    ghost const data: seq<byte>
    ghost const marked: bool
    ghost var p: nat
    ghost var loaded: nat

    constructor (src: seq<byte>, start: nat)
      requires start <= |src|
      ensures Valid() && source == src && data == Unstuffed(src, start) && p == 0
      ensures marked == Marked(src, start) && Filled() == Intake(0, false)
    {
      source, pos, code_buffer, code_bits, marker, nomore := src, start, 0, 0, 0xFF, false;
      data, marked, p, loaded := Unstuffed(src, start), Marked(src, start), 0, 0;
      new;
      assert data[0..] == data;
      ShlIsTimes(0, 32);
    }

    ghost predicate Valid()
      reads this
    {
      && 0 <= code_bits <= 32 && pos <= |source|
      && code_buffer == Held(data, p, code_bits)
      && p + code_bits == 8 * loaded
      && Ahead()
    }

    /** The data that is still to be read, up to the marker or the end of the source. */
    ghost predicate Ahead()
      reads this
    {
      if nomore then loaded >= |data| && marked
      else if loaded <= |data| then data[loaded..] == Unstuffed(source, pos) && marked == Marked(source, pos)
      else pos == |source| && !marked
    }

    ghost function Filled(): Intake
      reads this
    {
      Intake(loaded, nomore)
    }

    lemma IsSound()
      requires Valid()
      ensures Sound(|data|, marked, Filled(), p) && p + code_bits == 8 * loaded && 0 <= code_bits
    {
    }

    method Get8() returns (b: byte)
      requires pos <= |source|
      modifies `pos
      ensures b == ByteAt(source, old(pos)) && pos == (if old(pos) < |source| then old(pos) + 1 else old(pos))
    {
      if pos < |source| {
        b := source[pos];
        pos := pos + 1;
      } else {
        b := 0;
      }
    }

    /** Fills the buffer up to more than 24 bits, or stops where a marker ends the data. */
    method GrowBuffer()
      requires Valid() && code_bits <= 24
      modifies this
      ensures Valid() && p == old(p) && code_bits >= old(code_bits)
      ensures code_bits > 24 || loaded == |data|
      ensures Filled() == Grown(|data|, marked, old(Filled()), p)
    {
      hide Held;
      while true
        invariant Valid() && code_bits <= 24 && p == old(p) && code_bits >= old(code_bits) && nomore == old(nomore)
        decreases 32 - code_bits
      {
        HeldAppend(data, p, code_bits, loaded);
        var b, ended := NextByte();
        if ended { return; }
        code_buffer := Or(code_buffer, Shl(b, 24 - code_bits));
        code_bits := code_bits + 8;
        loaded := loaded + 1;
        if code_bits > 24 { break; }
      }
    }

    /** The next data byte, zero after the end; `ended` when a marker has just been found. */
    method NextByte() returns (b: byte, ended: bool)
      requires pos <= |source|
      requires Ahead()
      modifies `pos, `marker, `nomore
      ensures pos <= |source| && (nomore <==> old(nomore) || ended)
      ensures ended ==> !old(nomore) && loaded == |data| && marked
      ensures !ended ==> b == ByteAt(data, loaded)
      ensures !ended && nomore ==> loaded >= |data| && marked
      ensures !ended && !nomore ==>
                if loaded + 1 <= |data|
                then data[loaded + 1..] == Unstuffed(source, pos) && marked == Marked(source, pos)
                else pos == |source| && !marked
    {
      if nomore { return 0, false; }
      if loaded <= |data| {
        assert |data[loaded..]| == |data| - loaded;
        if loaded < |data| {
          assert data[loaded..][0] == data[loaded] && data[loaded..][1..] == data[loaded + 1..];
        }
      }
      b := Get8();
      if b == 0xFF {
        ghost var q := pos;
        var c := Get8();
        while c == 0xFF
          invariant q <= |source| && pos == (if q < |source| then q + 1 else q) && c == ByteAt(source, q)
          invariant PastFill(source, q) == PastFill(source, old(pos) + 1) && !nomore
          decreases |source| - q
        {
          q := pos;
          c := Get8();
        }
        if c != 0 {
          marker := c;
          nomore := true;
          return b, true;
        }
      }
      ended := false;
    }

    // ----- decoding

    /** `code_buffer <<= s; code_bits -= s`. */
    method Consume(s: nat)
      requires Valid() && s <= code_bits
      modifies `code_buffer, `code_bits, `p
      ensures Valid() && Filled() == old(Filled()) && p == old(p) + s && code_bits == old(code_bits) - s
    {
      hide Held;
      HeldShift(data, p, code_bits, s);
      code_buffer := Low(Shl(code_buffer, s), 32);
      code_bits := code_bits - s;
      p := p + s;
    }

    /** The 16 top bits are the next 16 bits of the stream, even when fewer are left. */
    lemma WindowIsStream()
      requires Valid() && (code_bits >= 16 || loaded >= |data|)
      ensures Shr(code_buffer, 16) == Top(data, p, 16)
      ensures Shr(code_buffer, 23) == Shr(Top(data, p, 16), 7)
      ensures code_buffer < Pow2(32)
    {
      hide Held;
      if code_bits < 16 { HeldShort(data, p, code_bits, 16); }
      HeldTop(data, p, if code_bits < 16 then 16 else code_bits, 16);
      ShrAdd(code_buffer, 16, 7);
      HeldBound(data, p, code_bits);
    }

    /** The fast table's entry for the next nine bits, and the size that belongs to it. */
    method FastSymbol(h: Huffman, ghost lens: seq<nat>) returns (k: byte)
      requires Valid() && (code_bits >= 16 || loaded >= |data|) && h.Shape() && h.Holds(lens)
      ensures FastEntry(lens, |lens|, Shr(Top(data, p, 16), 7), k)
      ensures k != NONE ==> k < |lens| && h.size[k] == lens[k]
    {
      hide Top, Unstuffed, Held, Huffman.LadderBelow, Fits, Bounded, Ascending;
      WindowIsStream();
      var c := FastIndex();
      k := h.fast[c];
      assert FastEntry(lens, |lens|, c, k);
      assert k != NONE ==> h.size[k] == h.size[..|lens|][k];
    }

    method FastIndex() returns (c: nat)
      requires code_buffer < Pow2(32)
      ensures c == Shr(code_buffer, 32 - FAST_BITS) < FAST_SIZE
    {
      ShrBound(code_buffer, 23, 9);
      assert Pow2(9) == FAST_SIZE;
      AndMask(Shr(code_buffer, 23), 9);
      LowSmall(Shr(code_buffer, 23), 9);
      c := And(Shr(code_buffer, 32 - FAST_BITS), FAST_SIZE - 1);
    }

    /**
     stbi__jpeg_huff_decode: what the tables make of the next 16 bits, or -1 if
     that is nothing or its code would reach past the end of the data.
     */
    method HuffDecode(h: Huffman, ghost lens: seq<nat>) returns (r: int)
      requires Valid() && h.Shape() && h.Holds(lens) && this !in h.Repr
      modifies this
      ensures var f := TableDecode(lens, Top(data, old(p), 16));
              var i := Refilled(|data|, marked, old(Filled()), old(p), 16);
              && (r >= 0 <==> f.Found? && old(p) + f.length <= 8 * i.loaded)
              && (r >= 0 ==> Valid() && r == h.values[f.symbol] && p == old(p) + f.length && Filled() == i)
    {
      hide Top, Unstuffed, Held, TableDecode, FastEntry, Grown, Huffman.LadderBelow, Huffman.HoldsFast,
           Huffman.HoldsSizes, Fits, Bounded, Ascending;
      if code_bits < 16 { GrowBuffer(); }
      ghost var w := Top(data, p, 16);
      var k := FastSymbol(h, lens);
      if k < NONE {
        FastFound(lens, w, k);
        var s := h.size[k];
        if s > code_bits { return -1; }
        Consume(s);
        return h.values[k];
      }
      r := SlowDecode(h, lens);
    }

    method SlowDecode(h: Huffman, ghost lens: seq<nat>) returns (r: int)
      requires Valid() && h.Shape() && h.Holds(lens) && this !in h.Repr
      requires code_bits >= 16 || loaded == |data|
      requires FastEntry(lens, |lens|, Shr(Top(data, p, 16), 7), NONE)
      modifies this
      ensures var f := TableDecode(lens, Top(data, old(p), 16));
              && (r >= 0 <==> f.Found? && old(p) + f.length <= 8 * old(loaded))
              && (r >= 0 ==> Valid() && r == h.values[f.symbol] && p == old(p) + f.length &&
                             Filled() == old(Filled()))
    {
      hide Top, Unstuffed, Held, TableDecode, SearchLength, Fits, Huffman.HoldsFast, Huffman.HoldsSizes, FastEntry,
           Ascending, Bounded, Huffman.LadderBelow;
      SearchDecides(lens, Top(data, p, 16));
      var k := SlowLength(h, lens);
      if k == 17 {
        code_bits := code_bits - 16;
        return -1;
      }
      if k > code_bits { return -1; }
      var c := SlowSymbol(h, lens, k);
      if c < 0 || c >= 256 { return -1; }
      Consume(k);
      r := h.values[c];
    }

    method SlowLength(h: Huffman, ghost lens: seq<nat>) returns (k: nat)
      requires Valid() && (code_bits >= 16 || loaded >= |data|)
      requires h.Shape() && h.LadderBelow(lens, 17) && h.maxcode[17] == 0xFFFF_FFFF
      ensures k == SearchLength(lens, FAST_BITS + 1, Top(data, p, 16))
    {
      hide Top, Unstuffed, Held, SearchLength, Huffman.LadderBelow;
      WindowIsStream();
      TopBound(data, p, 16);
      k := FindLength(h, lens, Shr(code_buffer, 16));
    }

    method SlowSymbol(h: Huffman, ghost lens: seq<nat>, k: nat) returns (c: int)
      requires Valid() && h.Shape() && h.LadderBelow(lens, 17) && 1 <= k <= 16 && k <= code_bits
      ensures c == Shr(Top(data, p, 16), 16 - k) + Shorter(lens, k) - FirstCode(lens, k)
    {
      hide Top, Unstuffed, Held, Shorter, FirstCode, Shr, And;
      CodeAtTop(data, p, code_bits, k);
      c := And(Shr(code_buffer, 32 - k), BMask(k)) + h.delta[k];
    }

    static method FindLength(h: Huffman, ghost lens: seq<nat>, temp: nat) returns (k: nat)
      requires h.Shape() && h.LadderBelow(lens, 17) && h.maxcode[17] == 0xFFFF_FFFF && temp < Pow2(16)
      ensures k == SearchLength(lens, FAST_BITS + 1, temp)
    {
      hide Shr, Shl, EndCode;
      assert Pow2(16) == 0x10000 by { Pow2Of16(); }
      k := FAST_BITS + 1;
      while temp >= h.maxcode[k]
        invariant FAST_BITS < k <= 17 && SearchLength(lens, k, temp) == SearchLength(lens, FAST_BITS + 1, temp)
        decreases 17 - k
      {
        ShrLess(temp, EndCode(lens, k), 16 - k);
        k := k + 1;
      }
      if k < 17 { ShrLess(temp, EndCode(lens, k), 16 - k); }
    }

    /** stbi__extend_receive, when the bits are there: the signed value they stand for. */
    method ExtendReceive(n: nat) returns (v: int)
      requires Valid() && 1 <= n <= 15
      modifies this
      ensures Valid() && Filled() == Refilled(|data|, marked, old(Filled()), old(p), n)
      ensures if 8 * loaded >= old(p) + n then v == Extend(Top(data, old(p), n), n) && p == old(p) + n
              else v == 0 && p == old(p)
    {
      hide Top, Grown, Unstuffed, Held;
      if code_bits < n { GrowBuffer(); }
      if code_bits < n { return 0; }
      HeldTop(data, p, code_bits, n);
      HeldTop(data, p, code_bits, 1);
      HeldBound(data, p, code_bits);
      SignBit(data, p, n);
      var sgn := Shr(code_buffer, 31);
      var bits := RotatedLow(n);
      Consume(n);
      v := bits + if sgn == 0 then JpegBias(n) else 0;
    }

    /** The low n bits of the buffer rotated left by n: its top n bits. */
    method RotatedLow(n: nat) returns (k: nat)
      requires code_buffer < Pow2(32) && n <= 16
      ensures k == Shr(code_buffer, 32 - n)
    {
      var rotated := Or(Low(Shl(code_buffer, n), 32), Shr(code_buffer, 32 - n));
      RotateParts(code_buffer, n);
      k := And(rotated, BMask(n));
    }
  }

  /** (1 << n) - 1, the table of line 2094. */
  function BMask(n: nat): nat { Pow2(n) - 1 }

  /** (-1 << n) + 1, the table of line 2147. */
  function JpegBias(n: nat): int { 1 - Pow2(n) }

  lemma Pow2Of16()
    ensures Pow2(16) == 0x10000
  {
    assert Pow2(8) == 256;
  }

  lemma CodeAtTop(data: seq<byte>, p: nat, n: nat, k: nat)
    requires k <= n <= 32 && k <= 16
    ensures And(Shr(Held(data, p, n), 32 - k), BMask(k)) == Shr(Top(data, p, 16), 16 - k)
  {
    hide Held, And;
    HeldTop(data, p, n, k);
    TopBound(data, p, k);
    AndMask(Top(data, p, k), k);
    LowSmall(Top(data, p, k), k);
    TopPrefix(data, p, k, 16);
  }

  lemma TopPrefix(data: seq<byte>, p: nat, k: nat, n: nat)
    requires k <= n
    ensures Shr(Top(data, p, n), n - k) == Top(data, p, k)
  {
    TopJoin(data, p, k, n - k);
    TopBound(data, p + k, n - k);
    LowOfSum(Top(data, p + k, n - k), Top(data, p, k), n - k);
  }

  /** The first of n bits tells whether their value is below 2^(n-1). */
  lemma SignBit(data: seq<byte>, p: nat, n: nat)
    requires n >= 1
    ensures Top(data, p, 1) == 0 <==> Top(data, p, n) < Pow2(n - 1)
    ensures Top(data, p, 1) <= 1
  {
    TopPrefix(data, p, 1, n);
    ShrLess(Top(data, p, n), 1, n - 1);
    ShlIsTimes(1, n - 1);
    TopBound(data, p, 1);
  }

  lemma RotateParts(x: nat, n: nat)
    requires x < Pow2(32) && n <= 16
    ensures And(Or(Low(Shl(x, n), 32), Shr(x, 32 - n)), BMask(n)) == Shr(x, 32 - n)
  {
    hide And, Or, Low, Shr, Shl;
    var high := Low(x, 32 - n);
    LowOfShl(x, n, 32 - n);
    ShrBound(x, 32 - n, n);
    OrCommutes(Shl(high, n), Shr(x, 32 - n));
    OrDisjoint(Shr(x, 32 - n), high, n);
    AndMask(Shr(x, 32 - n) + Shl(high, n), n);
    LowOfSum(Shr(x, 32 - n), high, n);
  }

  /** Without a short code for symbol 255, reading with the tables is reading as the standard has it. */
  lemma ReadAcIsStandard(lens: seq<nat>, values: seq<byte>, data: seq<byte>, p: nat)
    requires Ascending(lens) && Bounded(lens, 16) && NoClash(lens) && |lens| <= 256 == |values|
    ensures ReadAc(Tables, lens, values, data, p) == ReadAc(AnnexC, lens, values, data, p)
  {
    hide Top, TableDecode, CanonicalDecode;
    TableIsCanonical(lens, Top(data, p, 16));
  }
}
