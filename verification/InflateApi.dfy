/** The decoding entry points, stated against the reference decoder without any buffer limit. */
module InflateApi {
  import opened Bits
  import opened CodeCounts
  import opened Common
  import opened InflateSpec
  import opened Inflate
  import opened InflateIntake
  import opened InflateExtend

  /** The stream is a valid one for the standard: it decodes, within its own bits, to `out`. */
  ghost predicate DecodesTo(input: seq<byte>, header: bool, out: seq<byte>) {
    exists limit: nat :: DecodesWithin(input, header, out, limit)
  }

  ghost predicate DecodesWithin(input: seq<byte>, header: bool, out: seq<byte>, limit: nat) {
    var r := InflateSpec.Inflate(input, header, limit);
    r.Accept? && r.pos <= 8 * |input| && r.out == out
  }

  /** A limit that the output respects plays no role. */
  lemma {:induction false} LimitInBlock(data: seq<byte>, p: nat, lit: seq<nat>, dist: seq<nat>,
                                        out: seq<byte>, l1: nat, l2: nat)
    requires var r := CompressedBlock(data, p, lit, dist, out, l1); r.Accept? && |r.out| <= l2
    ensures CompressedBlock(data, p, lit, dist, out, l2) == CompressedBlock(data, p, lit, dist, out, l1)
    decreases l1 - |out|
  {
    hide NextStep, CopyBack;
    match NextStep(data, p, lit, dist)
    case Literal(p1, b) => LimitInBlock(data, p1, lit, dist, out + [b], l1, l2);
    case Copy(p1, len, back) => LimitInBlock(data, p1, lit, dist, CopyBack(out, back, len), l1, l2);
    case _ =>
  }

  lemma LimitInTypedBlock(data: seq<byte>, type_: nat, p: nat, out: seq<byte>, l1: nat, l2: nat)
    requires var r := BlockOfType(data, type_, p, out, l1); r.Accept? && |r.out| <= l2
    ensures BlockOfType(data, type_, p, out, l2) == BlockOfType(data, type_, p, out, l1)
    ensures |out| <= |BlockOfType(data, type_, p, out, l1).out|
  {
    hide CompressedBlock, DynamicTables;
    match type_
    case 1 => LimitInBlock(data, p, FixedLit(), FixedDist(), out, l1, l2);
    case 2 =>
      var t := DynamicTables(data, p).value;
      LimitInBlock(data, t.pos, t.lit, t.dist, out, l1, l2);
    case _ =>
  }

  lemma {:induction false} BlocksGrow(data: seq<byte>, p: nat, out: seq<byte>, limit: nat)
    requires Blocks(data, p, out, limit).Accept?
    ensures |out| <= |Blocks(data, p, out, limit).out|
    decreases 8 * |data| - p
  {
    hide BlockOfType;
    var b := Block(data, p, out, limit);
    LimitInTypedBlock(data, BitStream.Take(data, p + 1, 2), p + 3, out, limit, |b.out|);
    if BitStream.StreamBit(data, p) != 1 { BlocksGrow(data, b.pos, b.out, limit); }
  }

  lemma {:induction false} LimitInBlocks(data: seq<byte>, p: nat, out: seq<byte>, l1: nat, l2: nat)
    requires var r := Blocks(data, p, out, l1); r.Accept? && |r.out| <= l2
    ensures Blocks(data, p, out, l2) == Blocks(data, p, out, l1)
    decreases 8 * |data| - p
  {
    hide BlockOfType;
    var b := Block(data, p, out, l1);
    if BitStream.StreamBit(data, p) != 1 {
      BlocksGrow(data, b.pos, b.out, l1);
      LimitInTypedBlock(data, BitStream.Take(data, p + 1, 2), p + 3, out, l1, l2);
      LimitInBlocks(data, b.pos, b.out, l1, l2);
    } else {
      LimitInTypedBlock(data, BitStream.Take(data, p + 1, 2), p + 3, out, l1, l2);
    }
  }

  lemma LimitIrrelevant(input: seq<byte>, header: bool, l1: nat, l2: nat)
    requires var r := InflateSpec.Inflate(input, header, l1); r.Accept? && |r.out| <= l2
    ensures InflateSpec.Inflate(input, header, l2) == InflateSpec.Inflate(input, header, l1)
  {
    hide Blocks;
    LimitInBlocks(input, if header then 16 else 0, [], l1, l2);
  }

  /** A stream decodes to at most one output. */
  lemma DecodesUniquely(input: seq<byte>, header: bool, a: seq<byte>, b: seq<byte>)
    requires DecodesTo(input, header, a) && DecodesTo(input, header, b)
    ensures a == b
  {
    hide InflateSpec.Inflate;
    var la: nat :| DecodesWithin(input, header, a, la);
    var lb: nat :| DecodesWithin(input, header, b, lb);
    InflateWithinLimit(input, header, la);
    InflateWithinLimit(input, header, lb);
    LimitIrrelevant(input, header, la, la + lb);
    LimitIrrelevant(input, header, lb, la + lb);
  }

  /** How much a buffer of this size can be made to hold. */
  ghost function Capacity(size: nat, expandable: bool): nat
    requires expandable ==> 0 < size <= UINT_MAX
  {
    if expandable then MaxGrow(size) else size
  }

  /** `(int) n` for an output length. */
  function ToInt(n: nat): (r: int)
    ensures INT_MIN <= r <= INT_MAX && (n <= UINT_MAX ==> (r == n <==> n <= INT_MAX))
  {
    (n - INT_MIN) % 0x1_0000_0000 + INT_MIN
  }

  /**
   stbi_zlib_decode_malloc_guesssize_headerflag (expandable) and
   stbi_zlib_decode_buffer and its headerless form (not expandable).
   There is a result exactly if the reference decoder reads one from the input and
   zero bits behind it and the bit buffer does not run dry on the way, which it does
   at most behind the horizon; so every valid stream whose output fits is decoded,
   and every result is valid once zero bytes are appended to the input.  The length
   is returned as an int.
   */
  method Decode(input: seq<byte>, size: nat, expandable: bool, header: bool)
    returns (r: Option<seq<byte>>, outlen: int)
    requires size <= INT_MAX && (expandable ==> size > 0)
    ensures forall out :: DecodesTo(input, header, out) && |out| <= Capacity(size, expandable) ==> r == Some(out)
    ensures r.Some? ==> |r.value| <= Capacity(size, expandable)
    ensures var ref := InflateSpec.Inflate(input, header, Capacity(size, expandable));
            && (r.Some? <==> InflateIntake.InflateIntake(input, header, Capacity(size, expandable)).Some?)
            && (ref.Accept? && ref.pos <= Horizon(input, header) ==> r.Some?)
            && (r.Some? ==> ref.Accept? && ref.out == r.value && DecodesTo(input + Zeros(ref.pos), header, r.value))
    ensures outlen == if r.Some? then ToInt(|r.value|) else -1
    ensures expandable ==> Capacity(size, expandable) > INT_MAX
  {
    hide InflateSpec.Inflate, InflateIntake.InflateIntake, MaxGrow, ZBuf.BitsValid;
    var a := new ZBuf(input, size, expandable);
    ghost var limit := a.Limit();
    var ok := a.ParseZlib(header);
    IntakeOfAccepted(input, header, limit);
    ghost var ref := InflateSpec.Inflate(input, header, limit);
    forall out | DecodesTo(input, header, out) && |out| <= limit
      ensures ok && ref.out == out
    {
      var l: nat :| DecodesWithin(input, header, out, l);
      LimitIrrelevant(input, header, l, limit);
    }
    if ok {
      InflateWithinLimit(input, header, limit);
      r := Some(a.out[..a.zout]);
      outlen := ToInt(a.zout);
      InflateKept(input, input + Zeros(ref.pos), header, limit);
      assert DecodesWithin(input + Zeros(ref.pos), header, r.value, limit);
    } else {
      r, outlen := None, -1;
    }
  }

  // ----- a truncated stream that is accepted

  lemma ThreeBits(q: nat)
    ensures BitStream.StreamBit([3], q) == if q < 2 then 1 else 0
  {
    BitZero(q % 8);
    if 2 <= q < 8 {
      BitZero(q - 2);
      assert Bit(3, q) == Bit(1, q - 1) == Bit(0, q - 2);
    } else if q == 1 {
      assert Bit(3, 1) == Bit(1, 0);
    }
  }

  lemma {:induction false} NoCodeBits(p: nat, n: nat)
    requires p >= 2
    ensures BitStream.CodeBits([3], p, n) == 0
  {
    if n > 0 {
      ThreeBits(p + n - 1);
      NoCodeBits(p, n - 1);
    }
  }

  /** The fixed code for the end of a block is seven zero bits. */
  lemma EndCodeIsZero()
    ensures FixedLit()[256] == 7 && Canonical.Code(FixedLit(), 256) == 0
  {
    var f := FixedLit();
    forall m: nat
      ensures Canonical.Count(f, m) == if m == 7 then 24 else if m == 8 then 152 else if m == 9 then 112 else 0
    {
      FixedLitCount(m);
    }
    NoShorterCodes(f, 7, 7);
    assert f[..256] == Repeat(8, 144) + Repeat(9, 112);
    CountRepeat(8, 144, 7);
    CountRepeat(9, 112, 7);
    CountJoin(Repeat(8, 144), Repeat(9, 112), 7);
  }

  /** The one byte 3 starts a last, fixed block; the seven bits of its end code lie partly behind the data. */
  lemma TruncatedAccepted(limit: nat)
    ensures InflateSpec.Inflate([3], false, limit) == Accept(10, [])
    ensures !DecodesTo([3], false, [])
  {
    hide FixedLit, InflateSpec.Inflate;
    EndCodeIsZero();
    NoCodeBits(3, 7);
    SymbolUnique(FixedLit(), 256, [3], 3);
    forall l: nat
      ensures InflateSpec.Inflate([3], false, l) == Accept(10, [])
    {
      OneFixedBlock(l);
    }
  }

  lemma OneFixedBlock(limit: nat)
    requires Symbol(FixedLit(), [3], 3) == Some(256) && FixedLit()[256] == 7
    ensures InflateSpec.Inflate([3], false, limit) == Accept(10, [])
  {
    hide FixedLit, Symbol;
    ThreeBits(0);
    ThreeBits(1);
    ThreeBits(2);
    assert BitStream.Take([3], 1, 2) == 1 by { assert BitStream.Take([3], 2, 1) == 0; }
    assert CompressedBlock([3], 3, FixedLit(), FixedDist(), [], limit) == Accept(10, []);
    assert Block([3], 0, [], limit) == Accept(10, []);
  }

  /** The code accepts it too, with an empty result. */
  method DecodeTruncated(size: nat, expandable: bool) returns (r: Option<seq<byte>>)
    requires size <= INT_MAX && (expandable ==> size > 0)
    ensures r == Some([]) && !DecodesTo([3], false, [])
  {
    TruncatedAccepted(Capacity(size, expandable));
    var outlen;
    r, outlen := Decode([3], size, expandable, false);
  }

  lemma {:induction false} CompressedWithinLimit(data: seq<byte>, p: nat, lit: seq<nat>, dist: seq<nat>, out: seq<byte>,
                                                 limit: nat)
    requires CompressedBlock(data, p, lit, dist, out, limit).Accept? && |out| <= limit
    ensures |CompressedBlock(data, p, lit, dist, out, limit).out| <= limit
    decreases limit - |out|
  {
    hide NextStep, CopyBack;
    match NextStep(data, p, lit, dist)
    case Literal(p1, b) => CompressedWithinLimit(data, p1, lit, dist, out + [b], limit);
    case Copy(p1, len, back) => CompressedWithinLimit(data, p1, lit, dist, CopyBack(out, back, len), limit);
    case _ =>
  }

  lemma {:induction false} BlocksWithinLimit(data: seq<byte>, p: nat, out: seq<byte>, limit: nat)
    requires Blocks(data, p, out, limit).Accept? && |out| <= limit
    ensures |Blocks(data, p, out, limit).out| <= limit
    decreases 8 * |data| - p
  {
    hide CompressedBlock, DynamicTables;
    var type_ := BitStream.Take(data, p + 1, 2);
    if type_ == 1 {
      CompressedWithinLimit(data, p + 3, FixedLit(), FixedDist(), out, limit);
    } else if type_ == 2 {
      var t := DynamicTables(data, p + 3).value;
      CompressedWithinLimit(data, t.pos, t.lit, t.dist, out, limit);
    }
    var b := Block(data, p, out, limit);
    if BitStream.StreamBit(data, p) != 1 { BlocksWithinLimit(data, b.pos, b.out, limit); }
  }

  lemma InflateWithinLimit(input: seq<byte>, header: bool, limit: nat)
    requires InflateSpec.Inflate(input, header, limit).Accept?
    ensures |InflateSpec.Inflate(input, header, limit).out| <= limit
  {
    hide Blocks;
    BlocksWithinLimit(input, if header then 16 else 0, [], limit);
  }
}
