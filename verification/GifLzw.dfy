/**
 The LZW decoder of a GIF frame: a table of prefix chains, filled while codes
 come in, whose strings are drawn by walking each chain to its root first.
 */
module GifLzw {
  import opened Bits
  import opened Common
  import opened BitStream
  import opened GifLzwSpec
  import opened GifRaster

  class Decoder {
    const input: seq<byte>
    var pos: nat
    const prefix: array<int>
    const first: array<byte>
    const suffix: array<byte>
    const raster: Raster

    constructor (data: seq<byte>, start: nat, r: Raster)
      requires start <= |data| && r.Valid()
      ensures Shape() && fresh(prefix) && fresh(first) && fresh(suffix) && raster.Valid()
      ensures input == data && pos == start && raster == r
    {
      input, pos, raster := data, start, r;
      prefix := new int[MAX_CODES];
      first := new byte[MAX_CODES];
      suffix := new byte[MAX_CODES];
    }

    ghost predicate Shape() {
      prefix.Length == MAX_CODES && first.Length == MAX_CODES && suffix.Length == MAX_CODES && first != suffix
    }

    /** The chain stored for code i stands for the k-th string of the dictionary. */
    ghost predicate Chain(cs: nat, entries: seq<text>, k: nat)
      requires Shape() && k < |entries| && Avail(cs, entries) <= MAX_CODES
      reads prefix, first, suffix
    {
      var i := Clear(cs) + 2 + k;
      && 0 <= prefix[i] < i && Known(cs, entries[..k], prefix[i])
      && entries[k] == Str(cs, entries, prefix[i]) + [suffix[i]]
      && first[i] == entries[k][0]
    }

    /** The tables represent the dictionary; every prefix is smaller than its own index. */
    ghost predicate Holds(cs: nat, entries: seq<text>)
      reads prefix, first, suffix
    {
      && Shape() && Avail(cs, entries) <= MAX_CODES
      && (forall c :: 0 <= c < Clear(cs) ==> prefix[c] == -1 && first[c] == c % 256 && suffix[c] == c % 256)
      && (forall k :: 0 <= k < |entries| ==> Chain(cs, entries, k))
    }

    /** Draws the string of a code, the chain's root first. */
    method OutGifCode(code: nat, ghost cs: nat, ghost entries: seq<text>)
      requires Holds(cs, entries) && Known(cs, entries, code) && raster.Valid()
      modifies raster, raster.out, raster.history
      ensures Holds(cs, entries) && raster.Valid()
      ensures raster.emitted == old(raster.emitted) + Str(cs, entries, code)
      decreases code
    {
      hide Raster.Valid;
      if code >= Clear(cs) { assert Chain(cs, entries, code - Clear(cs) - 2); }
      ghost var was := raster.emitted;
      if prefix[code] >= 0 {
        OutGifCode(prefix[code], cs, entries);
      }
      raster.Emit(suffix[code]);
      if code < Clear(cs) { assert raster.emitted == was + [suffix[code]]; }
    }

    /** A new code: the string before, and the first byte of the string this code stands for. */
    method AddCode(oldcode: nat, code: nat, avail: nat, ghost cs: nat, ghost entries: seq<text>) returns (avail': nat)
      requires Holds(cs, entries) && avail == Avail(cs, entries) < MAX_CODES
      requires Known(cs, entries, oldcode) && (code == avail || Known(cs, entries, code))
      requires forall k :: 0 <= k < |entries| ==> entries[k] != []
      modifies prefix, first, suffix
      ensures avail' == avail + 1
      ensures var before := Str(cs, entries, oldcode);
              var str := if code < avail then Str(cs, entries, code) else before + [before[0]];
              && Holds(cs, entries + [before + [str[0]]])
              && Str(cs, entries + [before + [str[0]]], code) == str
    {
      ghost var before := Str(cs, entries, oldcode);
      FirstIsFirst(cs, entries, oldcode);
      if code < avail { FirstIsFirst(cs, entries, code); }
      var p := avail;
      avail' := avail + 1;
      prefix[p] := oldcode;
      first[p] := first[oldcode];
      assert code != avail';  // so line 6745, which compares with the count already raised, takes its other arm
      suffix[p] := first[code];
      ghost var str := if code < avail then Str(cs, entries, code) else before + [before[0]];
      ghost var grown := entries + [before + [str[0]]];
      forall k | 0 <= k < |grown|
        ensures Chain(cs, grown, k)
      {
        if k < |entries| {
          assert old(Chain(cs, entries, k));
          assert grown[..k] == entries[..k];
        } else {
          assert grown[..k] == entries;
        }
      }
    }

    lemma FirstIsFirst(cs: nat, entries: seq<text>, code: nat)
      requires Holds(cs, entries) && Known(cs, entries, code)
      requires forall k :: 0 <= k < |entries| ==> entries[k] != []
      ensures Str(cs, entries, code) != [] && first[code] == Str(cs, entries, code)[0]
    {
      if code >= Clear(cs) { assert Chain(cs, entries, code - Clear(cs) - 2); }
    }

    /** Forgetting the dictionary needs no change to the tables. */
    lemma StillHolds(cs: nat, entries: seq<text>)
      requires Holds(cs, entries)
      ensures Holds(cs, [])
    {
    }

    // ----- input

    method Get8() returns (b: byte)
      requires pos <= |input|
      modifies `pos
      ensures b == ByteAt(input, old(pos)) && pos == Next(input, old(pos)) <= |input|
    {
      if pos < |input| {
        b := input[pos];
        pos := pos + 1;
      } else {
        b := 0;
      }
    }

    method Skip(n: nat)
      requires pos <= |input|
      modifies `pos
      ensures pos == if old(pos) + n <= |input| then old(pos) + n else |input|
    {
      pos := if pos + n <= |input| then pos + n else |input|;
    }

    /** Skips the remaining sub-blocks. */
    method SkipBlocks(len0: nat)
      requires pos <= |input|
      modifies `pos
      ensures pos <= |input|
    {
      Skip(len0);
      while true
        invariant pos <= |input|
        decreases |input| - pos
      {
        var len := Get8();
        if len == 0 { break; }
        Skip(len);
      }
    }

    method InitTables(lzw_cs: nat)
      requires Shape() && lzw_cs <= 12
      modifies prefix, first, suffix
      ensures Holds(lzw_cs, [])
    {
      var clear := Shl(1, lzw_cs);
      ClearSize(lzw_cs);
      for init_code := 0 to clear
        invariant forall c :: 0 <= c < init_code ==> prefix[c] == -1 && first[c] == c % 256 && suffix[c] == c % 256
      {
        prefix[init_code] := -1;
        first[init_code] := init_code % 256;
        suffix[init_code] := init_code % 256;
      }
    }

    // ----- the decoding loop

    /** The buffered bits are those at p of the data, of which k bytes have been read and `len` and what follows are
        left. */
    ghost predicate Buffered(data: seq<byte>, p: nat, bits: nat, valid_bits: nat, k: nat, len: nat)
      reads `pos
    {
      && pos <= |input| && bits == Take(data, p, valid_bits)
      && p + valid_bits == 8 * k && k <= |data| && data[k..] == Rest(input, pos, len)
    }

    method ReadByte(len: nat, bits: nat, valid_bits: nat, ghost data: seq<byte>, ghost p: nat, ghost k: nat)
      returns (more: bool, len': nat, bits': nat)
      requires Buffered(data, p, bits, valid_bits, k, len)
      modifies `pos
      ensures more ==> k < |data| && Buffered(data, p, bits', valid_bits + 8, k + 1, len')
      ensures !more ==> k == |data|
    {
      hide Take, Or, Shl;
      len', bits' := len, bits;
      assert |data[k..]| == |data| - k;
      if len' == 0 {
        assert Rest(input, pos, 0) == Payload(input, pos);
        len' := Get8();
        if len' == 0 { return false, len', bits; }
      }
      assert data[k..] == Rest(input, pos, len');
      len' := len' - 1;
      var b := Get8();
      assert data[k..] == [b] + Rest(input, pos, len');
      assert data[k] == data[k..][0] && data[k + 1..] == data[k..][1..];
      AppendByte(data, p, valid_bits, k);
      bits' := Or(bits, Shl(b, valid_bits));
      more := true;
    }

    method TakeCode(bits: nat, valid_bits: nat, codesize: nat, ghost data: seq<byte>, ghost p: nat, ghost k: nat,
                    ghost len: nat)
      returns (code: nat, bits': nat)
      requires Buffered(data, p, bits, valid_bits, k, len) && codesize <= valid_bits
      ensures code == Take(data, p, codesize) && p + codesize <= 8 * |data|
      ensures Buffered(data, p + codesize, bits', valid_bits - codesize, k, len)
    {
      hide Take, And, Shl, Rest;
      ShlIsTimes(1, codesize);
      AndMask(bits, codesize);
      LowTake(data, p, valid_bits, codesize);
      ShrTake(data, p, valid_bits, codesize);
      code := And(bits, Shl(1, codesize) - 1);
      bits' := Shr(bits, codesize);
    }

    /** The loop's variables mean state st. */
    ghost predicate InState(cs: nat, st: State, codesize: nat, avail: nat, oldcode: int, first_code: bool)
      reads prefix, first, suffix
    {
      && WellFormed(st) && Holds(cs, st.entries)
      && codesize == st.width <= 13 && avail == Avail(cs, st.entries) && first_code == !st.cleared
      && (oldcode < 0 <==> st.prev.None?)
      && (oldcode >= 0 ==> Known(cs, st.entries, oldcode) && st.prev == Some(Str(cs, st.entries, oldcode)))
    }

    /** A code that is neither clear nor end of data. */
    method Accept(code: nat, cs: nat, codesize: nat, avail: nat, oldcode: int, first_code: bool, ghost st: State)
      returns (fine: bool, avail': nat, codesize': nat)
      requires cs <= 12 && InState(cs, st, codesize, avail, oldcode, first_code) && raster.Valid()
      requires code != Clear(cs) && code != Clear(cs) + 1
      modifies prefix, first, suffix, raster, raster.out, raster.history
      ensures raster.Valid()
      ensures var r := React(cs, st, code);
              && (fine <==> r.Emits?)
              && (fine ==> !first_code && InState(cs, r.st, codesize', avail', code, false) &&
                           raster.emitted == old(raster.emitted) + r.str)
    {
      hide Raster.Valid, Low, And;
      avail', codesize' := avail, codesize;
      if code > avail || first_code { return false, avail', codesize'; }
      ghost var r := React(cs, st, code);
      if oldcode >= 0 {
        if avail + 1 > MAX_CODES { return false, avail', codesize'; }
        avail' := AddCode(oldcode, code, avail, cs, st.entries);
      } else if code == avail {
        return false, avail', codesize';
      }
      assert Holds(cs, r.st.entries) && Known(cs, r.st.entries, code) && Str(cs, r.st.entries, code) == r.str;
      OutGifCode(code, cs, r.st.entries);
      codesize' := GrowSize(codesize, avail');
      fine := true;
    }

    static method GrowSize(codesize: nat, avail: nat) returns (codesize': nat)
      requires 0 < codesize <= 13 && 0 < avail <= MAX_CODES
      ensures codesize' == Grown(codesize, avail) <= 13
    {
      ShlIsTimes(1, codesize);
      AndMask(avail, codesize);
      GrownBound(codesize, avail);
      codesize' := if And(avail, Shl(1, codesize) - 1) == 0 && avail <= 0xFFF then codesize + 1 else codesize;
    }

    /** stbi__process_gif_raster: a run of the decoder draws exactly what Run emits, or fails with it. */
    method ProcessRaster() returns (ok: bool)
      requires Shape() && pos <= |input| && raster.Valid()
      modifies this, prefix, first, suffix, raster, raster.out, raster.history
      ensures raster.Valid()
      ensures var cs := ByteAt(input, old(pos));
              var data := Payload(input, Next(input, old(pos)));
              var r := Run(data, 0, cs, Start(cs, false), []);
              && (ok <==> cs <= 12 && r.Done?)
              && (ok ==> raster.emitted == old(raster.emitted) + r.out)
    {
      hide Run, Raster.Valid, Rest;
      var lzw_cs := Get8();
      if lzw_cs > 12 { return false; }
      InitTables(lzw_cs);
      ok := DecodeLoop(lzw_cs);
    }

    /**
     For the minimum code sizes of the standard: the frame is accepted exactly
     when Appendix F's decoder accepts the data and nowhere in it do so many
     data codes follow each other without a clear code that the table fills up;
     and the indices drawn are that decoder's.
     */
    method DecodeFrame() returns (ok: bool)
      requires Shape() && pos <= |input| && raster.Valid()
      modifies this, prefix, first, suffix, raster, raster.out, raster.history
      ensures raster.Valid()
      ensures var cs := ByteAt(input, old(pos));
              var data := Payload(input, Next(input, old(pos)));
              var r := Standard(data, 0, cs, Start(cs, false), []);
              2 <= cs <= 8 ==>
                (ok <==> r.Done? && InARow(Codes(data, 0, cs, Start(cs, false)), cs, 0) < TooMany(cs)) &&
                (ok ==> raster.emitted == old(raster.emitted) + r.out)
    {
      hide Run, Standard, Raster.Valid, Rest, Codes, InARow;
      ghost var cs := ByteAt(input, pos);
      ghost var data := Payload(input, Next(input, pos));
      ok := ProcessRaster();
      if 2 <= cs <= 8 {
        StartAlike(cs, false);
        SmallClear(cs);
        RunIsStandard(data, 0, cs, Start(cs, false), Start(cs, false), []);
      }
    }

    method DecodeLoop(cs: nat) returns (ok: bool)
      requires cs <= 12 && Holds(cs, []) && pos <= |input| && raster.Valid()
      modifies this, prefix, first, suffix, raster, raster.out, raster.history
      ensures raster.Valid()
      ensures var r := Run(Payload(input, old(pos)), 0, cs, Start(cs, false), []);
              (ok <==> r.Done?) && (ok ==> raster.emitted == old(raster.emitted) + r.out)
    {
      hide Run, Raster.Valid, Rest, React, Holds, Take, Shl;
      var codesize: nat, bits: nat, valid_bits: nat, len: nat := cs + 1, 0, 0, 0;
      var avail: nat, oldcode: int, first_code := Shl(1, cs) + 2, -1, true;
      ClearSize(cs);
      ghost var data, st := Payload(input, pos), Start(cs, false);
      ghost var p: nat, k: nat, out: text := 0, 0, [];
      ghost var run, drawn := Run(data, p, cs, st, out), raster.emitted;
      NothingBuffered(data);
      assert Rest(input, pos, 0) == data by { RestNone(input, pos); }
      while true
        invariant Buffered(data, p, bits, valid_bits, k, len)
        invariant InState(cs, st, codesize, avail, oldcode, first_code)
        invariant run == Run(data, p, cs, st, out)
        invariant raster.Valid() && raster.emitted == drawn + out
        decreases |data| - k, valid_bits
      {
        if valid_bits < codesize {
          var more;
          more, len, bits := ReadByte(len, bits, valid_bits, data, p, k);
          if !more {
            RunEnds(data, p, cs, st, out);
            return true;
          }
          valid_bits := valid_bits + 8;
          k := k + 1;
        } else {
          ghost var p0 := p;
          var code;
          code, bits := TakeCode(bits, valid_bits, codesize, data, p, k, len);
          valid_bits := valid_bits - codesize;
          p := p + codesize;
          RunStep(data, p0, cs, st, out);
          if code == Shl(1, cs) {
            codesize := cs + 1;
            avail := Shl(1, cs) + 2;
            oldcode := -1;
            first_code := false;
            StillHolds(cs, st.entries);
            st := Start(cs, true);
          } else if code == Shl(1, cs) + 1 {
            SkipBlocks(len);
            return true;
          } else {
            ghost var rx := React(cs, st, code);
            var fine;
            fine, avail, codesize := Accept(code, cs, codesize, avail, oldcode, first_code, st);
            if !fine { return false; }
            oldcode := code;
            out := out + rx.str;
            st := rx.st;
          }
        }
      }
    }
  }

  /** Decodes a frame of this data in sub-blocks that has too many data codes in a row. */
  method DecodeRefused(data: seq<byte>, cs: byte, raster: Raster) returns (d: Decoder, ok: bool)
    requires raster.Valid() && 2 <= cs <= 8 && InARow(Codes(data, 0, cs, Start(cs, false)), cs, 0) >= TooMany(cs)
    modifies raster, raster.out, raster.history
    ensures d.input == [cs] + SubBlocks(data) && Payload(d.input, 1) == data && !ok
  {
    hide Raster.Valid, Standard, SubBlocks, Codes, InARow, TooMany, Payload;
    var frame := [cs] + SubBlocks(data);
    assert frame[1..] == SubBlocks(data);
    BlocksJoined(frame, 1, data);
    d := new Decoder(frame, 0, raster);
    ok := d.DecodeFrame();
  }

  /** A clear code and 12300 zero bytes: the frame is refused, where Appendix F accepts it. */
  method DecodeLongRun(raster: Raster) returns (d: Decoder, ok: bool)
    requires raster.Valid()
    modifies raster, raster.out, raster.history
    ensures d.input == [2] + SubBlocks(ClearThenZeros(12300)) && !ok
    ensures Standard(Payload(d.input, 1), 0, 2, Start(2, false), []).Done?
  {
    hide Raster.Valid, Standard, ClearThenZeros, SubBlocks, Codes, InARow, TooMany, Payload, Run;
    LongRunRefused();
    d, ok := DecodeRefused(ClearThenZeros(12300), 2, raster);
  }

  lemma ClearSize(cs: nat)
    ensures Shl(1, cs) == Clear(cs)
    ensures cs <= 12 ==> Clear(cs) <= 4096
  {
    ShlIsTimes(1, cs);
    Pow2Of12();
    if cs <= 12 { Pow2Mono(cs, 12); }
  }

  lemma SmallClear(cs: nat)
    requires cs <= 8
    ensures Clear(cs) <= 256
  {
    Pow2Mono(cs, 8);
    assert Pow2(8) == 256;
  }

  lemma GrownBound(width: nat, avail: nat)
    requires 0 < width <= 13 && avail > 0
    ensures Grown(width, avail) <= 13
  {
    if width == 13 && avail <= 0xFFF {
      Pow2Of12();
      assert Pow2(13) == 2 * Pow2(12);
      LowSmall(avail, 13);
    }
  }

  lemma RunEnds(data: seq<byte>, p: nat, cs: nat, st: State, out: text)
    requires WellFormed(st) && p + st.width > 8 * |data|
    ensures Run(data, p, cs, st, out) == Done(out)
  {
  }

  lemma RunStep(data: seq<byte>, p: nat, cs: nat, st: State, out: text)
    requires WellFormed(st) && p + st.width <= 8 * |data|
    ensures var code := Take(data, p, st.width);
            var p1 := p + st.width;
            var r := React(cs, st, code);
            Run(data, p, cs, st, out) ==
            if code == Clear(cs) then Run(data, p1, cs, Start(cs, true), out)
            else if code == Clear(cs) + 1 then Done(out)
            else if r.Refused? then Bad
            else if r.TableFull? then Full
            else Run(data, p1, cs, r.st, out + r.str)
  {
    hide React, Take;
  }

  lemma RestNone(input: seq<byte>, pos: nat)
    ensures Rest(input, pos, 0) == Payload(input, pos)
  {
  }

  lemma NothingBuffered(data: seq<byte>)
    ensures Take(data, 0, 0) == 0
    ensures data[0..] == data
  {
  }
}
