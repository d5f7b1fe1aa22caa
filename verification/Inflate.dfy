/**
 The inflater: a bit buffer over the input bytes, blocks decoded into an output
 buffer that can grow, and the proof that it agrees with InflateSpec.
 */
module Inflate {
  import opened Bits
  import opened CodeCounts
  import opened Common
  import opened BitReversal
  import opened BitStream
  import opened Canonical
  import opened InflateIntake
  import opened InflateSpec
  import opened ZHuffman

  const UINT_MAX: nat := 0xFFFF_FFFF

  /** The largest size that doubling a buffer of size x reaches before the guard stops it. */
  ghost function MaxGrow(x: nat): (r: nat)
    requires 0 < x <= UINT_MAX
    ensures x <= r <= UINT_MAX && r > UINT_MAX / 2
    decreases UINT_MAX - x
  {
    if x > UINT_MAX / 2 then x else MaxGrow(2 * x)
  }

  function Doubled(limit: nat, rounds: nat): nat
    decreases rounds
  {
    if rounds == 0 then limit else Doubled(2 * limit, rounds - 1)
  }

  /** Doubling a limit of zero never makes room for a byte, so the loop that does so would not end. */
  lemma {:induction false} ZeroNeverGrows(rounds: nat)
    ensures Doubled(0, rounds) == 0
  {
    if rounds > 0 { ZeroNeverGrows(rounds - 1); }
  }

  class ZBuf {
    const data: seq<byte>
    var zbuffer: nat
    var numBits: nat
    var hitZeofOnce: bool
    var codeBuffer: nat

    var out: array<byte>
    var zout: nat
    const expandable: bool

    const zLength: Table
    const zDistance: Table

    /** How many bits have been consumed. */
    ghost var pos: nat
    /** How many bytes have been put in the bit buffer, counting zero bytes made up past the end. */
    ghost var loaded: nat

    constructor (input: seq<byte>, olen: nat, exp: bool)
      requires olen <= UINT_MAX && (exp ==> olen > 0)
      ensures Valid() && fresh(this) && fresh(out) && fresh(zLength.Repr) && fresh(zDistance.Repr)
      ensures data == input && expandable == exp && out.Length == olen
      ensures zout == 0 && zbuffer == 0 && pos == 0
    {
      data, zbuffer, numBits, codeBuffer, hitZeofOnce, pos, loaded := input, 0, 0, 0, false, 0, 0;
      zout, expandable := 0, exp;
      var o := new byte[olen];
      out := o;
      zLength := new Table();
      zDistance := new Table();
    }

    ghost predicate BitsValid()
      reads `zbuffer, `numBits, `hitZeofOnce, `codeBuffer, `pos, `loaded
    {
      && zbuffer <= |data|
      && numBits <= 32
      && codeBuffer == Take(data, pos, numBits)
      && pos + numBits == 8 * loaded
      && (zbuffer < |data| ==> loaded == zbuffer && !hitZeofOnce)
      && (zbuffer == |data| ==> loaded >= |data|)
      && (hitZeofOnce ==> loaded >= |data| + 2)
    }

    ghost function Filled(): Intake
      reads `loaded, `hitZeofOnce
    {
      Intake(loaded, hitZeofOnce)
    }

    ghost predicate OutValid()
      reads `out, `zout
    {
      zout <= out.Length <= UINT_MAX && (expandable ==> out.Length > 0)
    }

    ghost predicate Apart()
      reads `out
    {
      && zLength.Shape() && zDistance.Shape()
      && zLength.Repr !! zDistance.Repr && this !in zLength.Repr && this !in zDistance.Repr
      && out !in zLength.Repr && out !in zDistance.Repr
    }

    ghost predicate Valid()
      reads this
    {
      BitsValid() && OutValid() && Apart()
    }

    ghost function Output(): seq<byte>
      requires OutValid()
      reads this, out
    {
      out[..zout]
    }

    /** The most output this buffer can come to hold. */
    ghost function Limit(): nat
      requires OutValid()
      reads `out, `zout
    {
      if expandable then MaxGrow(out.Length) else out.Length
    }

    // ----- the bit buffer

    predicate Zeof()
      reads `zbuffer
    {
      zbuffer >= |data|
    }

    method ZGet8() returns (b: byte)
      requires zbuffer <= |data|
      modifies `zbuffer
      ensures b == ByteAt(data, old(zbuffer))
      ensures zbuffer == if old(zbuffer) < |data| then old(zbuffer) + 1 else |data|
    {
      if Zeof() { return 0; }
      b := data[zbuffer];
      zbuffer := zbuffer + 1;
    }

    method FillBits()
      requires BitsValid() && numBits <= 24
      modifies `zbuffer, `numBits, `codeBuffer, `loaded
      ensures BitsValid() && numBits > 24 && loaded == Full(pos)
    {
      while true
        invariant BitsValid() && numBits <= 24
        decreases 32 - numBits
      {
        AddByte();
        if numBits > 24 { break; }
      }
    }

    method AddByte()
      requires BitsValid() && numBits <= 24
      modifies `zbuffer, `numBits, `codeBuffer, `loaded
      ensures BitsValid() && numBits == old(numBits) + 8
    {
      GuardHolds(data, pos, numBits);
      assert codeBuffer < Shl(1, numBits);  // so the corruption exit of line 4205 is never taken
      AppendByte(data, pos, numBits, loaded);
      var b := ZGet8();
      codeBuffer := Or(codeBuffer, Shl(b, numBits));
      numBits := numBits + 8;
      loaded := loaded + 1;
    }

    method ZReceive(n: nat) returns (k: nat)
      requires BitsValid() && n <= 16
      modifies `zbuffer, `numBits, `codeBuffer, `pos, `loaded
      ensures BitsValid() && Filled() == Received(old(Filled()), old(pos), n)
      ensures k == Take(data, old(pos), n) && pos == old(pos) + n && numBits <= 32 - n
    {
      if numBits < n { FillBits(); }
      ShlIsTimes(1, n);
      k := And(codeBuffer, Shl(1, n) - 1);
      AndMask(codeBuffer, n);
      LowTake(data, pos, numBits, n);
      Consume(n);
    }

    method Consume(n: nat)
      requires BitsValid() && n <= numBits
      modifies `numBits, `codeBuffer, `pos
      ensures BitsValid() && pos == old(pos) + n && numBits == old(numBits) - n
    {
      ShrTake(data, pos, numBits, n);
      codeBuffer := Shr(codeBuffer, n);
      numBits := numBits - n;
      pos := pos + n;
    }

    method HuffmanDecodeSlowpath(z: Table, ghost lens: seq<nat>) returns (r: int)
      requires BitsValid() && numBits >= 16 && z.Shape() && this !in z.Repr && z.Holds(lens)
      requires forall i: nat :: MatchAt(lens, i, data, pos) ==> lens[i] > FAST_BITS
      modifies `numBits, `codeBuffer, `pos
      ensures BitsValid()
      ensures r < 0 ==> Symbol(lens, data, old(pos)) == None && pos == old(pos)
      ensures r >= 0 ==> Symbol(lens, data, old(pos)) == Some(r) && pos == old(pos) + lens[r]
    {
      hide Shr, CodeBits, EndCode, Take, MatchAt, FirstCode, Shorter;
      var k := Window();
      WindowBound(data, pos);
      var s := FindLength(z, lens, k);
      if s >= 16 {
        SlowMiss(lens, data, pos);
        return -1;
      }
      ghost var i := SlowLookup(lens, data, pos, s);
      ShrCodeBits(data, pos, 16, s);
      var b := Shr(k, 16 - s) - z.firstcode[s] + z.firstsymbol[s];
      assert b == Slot(lens, i) < SYMBOLS && z.size[b] == s;  // so neither defensive exit is taken
      SymbolUnique(lens, i, data, pos);
      r := z.value[b];
      Consume(s);
    }

    /** The first length above nine whose shifted end code exceeds k, or 16. */
    static method FindLength(z: Table, ghost lens: seq<nat>, k: nat) returns (s: nat)
      requires z.Shape() && z.HoldsLadder(lens) && k < 0x10000
      ensures FAST_BITS < s <= 16
      ensures s < 16 ==> k < Shl(EndCode(lens, s), 16 - s)
      ensures forall m :: FAST_BITS < m < s ==> !(k < Shl(EndCode(lens, m), 16 - m))
    {
      s := FAST_BITS + 1;
      while k >= z.maxcode[s]
        invariant FAST_BITS < s <= 16
        invariant forall m :: FAST_BITS < m < s ==> !(k < Shl(EndCode(lens, m), 16 - m))
        decreases 16 - s
      {
        s := s + 1;
      }
    }

    /** The next 16 bits in code order. */
    method Window() returns (k: nat)
      requires BitsValid() && numBits >= 16
      ensures k == CodeBits(data, pos, 16)
    {
      k := Reversed(codeBuffer, 16);
      RevIntoLow(codeBuffer, 16, 0);
      LowTake(data, pos, numBits, 16);
      RevTake(data, pos, 16);
    }

    /** On failure there is no symbol here, or the bit buffer has run dry. */
    method HuffmanDecode(z: Table, ghost lens: seq<nat>) returns (r: int)
      requires BitsValid() && z.Shape() && this !in z.Repr && z.Holds(lens)
      modifies `zbuffer, `numBits, `codeBuffer, `hitZeofOnce, `pos, `loaded
      ensures BitsValid()
      ensures var looked := Looked(|data|, old(Filled()), old(pos));
              && (r < 0 <==> looked.None? || Symbol(lens, data, old(pos)).None?)
              && (r >= 0 ==> Symbol(lens, data, old(pos)) == Some(r) && pos == old(pos) + lens[r] &&
                             Filled() == looked.value)
    {
      hide CodeBits, MatchAt, Take;
      var more := Refill();
      if !more { return -1; }
      var j := FastIndex();
      var b := z.fast[j];
      FastLookup(lens, data, pos, b);
      if b != 0 {
        SymbolUnique(lens, b % 512, data, pos);
        Consume(b / 512);
        return b % 512;
      }
      r := HuffmanDecodeSlowpath(z, lens);
    }

    /** At the end of the data, 16 zero bits are added, once. */
    method Refill() returns (more: bool)
      requires BitsValid()
      modifies `zbuffer, `numBits, `codeBuffer, `hitZeofOnce, `loaded
      ensures BitsValid()
      ensures var looked := Looked(|data|, old(Filled()), pos);
              (more <==> looked.Some?) && (more ==> numBits >= 16 && Filled() == looked.value)
    {
      hide Take;
      if numBits < 16 {
        if Zeof() {
          if !hitZeofOnce {
            hitZeofOnce := true;
            PadZeros(data, pos, numBits, 16);
            numBits := numBits + 16;
            loaded := loaded + 2;
          } else {
            return false;
          }
        } else {
          FillBits();
        }
      }
      return true;
    }

    method FastIndex() returns (j: nat)
      requires BitsValid() && numBits >= FAST_BITS
      ensures j == Take(data, pos, FAST_BITS) < FAST_SIZE
    {
      assert Pow2(FAST_BITS) == FAST_SIZE;
      AndMask(codeBuffer, FAST_BITS);
      LowTake(data, pos, numBits, FAST_BITS);
      TakeBound(data, pos, FAST_BITS);
      j := And(codeBuffer, FAST_SIZE - 1);
    }

    // ----- the output buffer

    /** stbi__zexpand: fails only when the buffer can never hold n more bytes. */
    method Expand(at: nat, n: nat) returns (ok: bool)
      requires OutValid() && Apart() && at <= out.Length && at + n > out.Length && n <= UINT_MAX
      modifies `out, `zout
      ensures OutValid() && Apart() && zout == at && Limit() == old(Limit())
      ensures ok ==> fresh(out) && at + n <= out.Length && out[..at] == old(out[..at])
      ensures !ok ==> out == old(out) && at + n > Limit()
    {
      zout := at;
      if !expandable { return false; }
      var cur := zout;
      var limit, old_limit := out.Length, out.Length;
      if UINT_MAX - cur < n { return false; }
      while cur + n > limit
        invariant 0 < limit <= UINT_MAX && limit >= old_limit
        invariant MaxGrow(limit) == MaxGrow(old_limit)
        decreases cur + n - limit
      {
        if limit > UINT_MAX / 2 { return false; }
        limit := limit * 2;
      }
      var q := new byte[limit];
      for i := 0 to old_limit
        modifies q
        invariant forall j :: 0 <= j < i ==> q[j] == out[j]
      {
        q[i] := out[i];
      }
      out := q;
      return true;
    }

    /** The two copy loops: repeat one byte, or copy forward through what was just written. */
    method CopyMatch(cur: nat, dist: nat, len: nat)
      requires 1 <= dist <= cur && cur + len <= out.Length
      modifies out
      ensures out[..cur + len] == CopyBack(old(out[..cur]), dist, len)
    {
      ghost var result := CopyBack(out[..cur], dist, len);
      var to := cur;
      if dist == 1 {
        var v := out[cur - 1];
        while to < cur + len
          invariant cur <= to <= cur + len && out[to - 1] == v
          invariant result == CopyBack(out[..to], dist, cur + len - to)
        {
          ghost var was := out[..to];
          out[to] := v;
          to := to + 1;
          assert out[..to] == was + [v];
        }
      } else {
        var p := cur - dist;
        while to < cur + len
          invariant cur <= to <= cur + len && p == to - dist
          invariant result == CopyBack(out[..to], dist, cur + len - to)
        {
          ghost var was := out[..to];
          out[to] := out[p];
          to := to + 1;
          p := p + 1;
          assert out[..to] == was + [was[|was| - dist]];
        }
      }
    }
  
    // ----- blocks

    /** This buffer's own run accepts exactly where its intake i does not run dry, with the reference's result r. */
    ghost predicate Agrees(ok: bool, r: Outcome, i: Option<Intake>)
      requires OutValid()
      reads this, out
    {
      (ok <==> i.Some?) && (ok ==> r == Accept(pos, Output()) && i == Some(Filled()))
    }

    method EmitLiteral(cur: nat, z: byte) returns (room: bool)
      requires OutValid() && Apart() && cur <= out.Length
      modifies `out, `zout, out
      ensures OutValid() && Apart() && Limit() == old(Limit()) && (out == old(out) || fresh(out))
      ensures room ==> cur + 1 <= out.Length && out[..cur + 1] == old(out[..cur]) + [z]
      ensures !room ==> cur + 1 > Limit() && cur <= out.Length
    {
      if cur >= out.Length {
        room := Expand(cur, 1);
        if !room { return; }
      }
      out[cur] := z;
      return true;
    }

    method EmitMatch(cur: nat, back: nat, len: nat) returns (room: bool)
      requires OutValid() && Apart() && 1 <= back <= cur <= out.Length && len <= UINT_MAX
      modifies `out, `zout, out
      ensures OutValid() && Apart() && Limit() == old(Limit()) && (out == old(out) || fresh(out))
      ensures room ==> cur + len <= out.Length && out[..cur + len] == CopyBack(old(out[..cur]), back, len)
      ensures !room ==> cur + len > Limit() && cur <= out.Length
    {
      if len > out.Length - cur {
        room := Expand(cur, len);
        if !room { return; }
      }
      CopyMatch(cur, back, len);
      return true;
    }

    /** A table value plus the extra bits that belong to it. */
    method WithExtra(base: nat, extra: nat) returns (v: nat)
      requires BitsValid() && extra <= 16
      modifies `zbuffer, `numBits, `codeBuffer, `pos, `loaded
      ensures Filled() == Received(old(Filled()), old(pos), extra)
      ensures BitsValid() && v == base + Take(data, old(pos), extra) && pos == old(pos) + extra
    {
      v := base;
      if extra != 0 {
        var more := ZReceive(extra);
        v := v + more;
      }
    }

    /** The length, distance and extra bits after a length code. */
    method ParseMatch(z: nat, ghost dist: seq<nat>) returns (ok: bool, len: nat, back: nat)
      requires BitsValid() && 257 <= z < 286
      requires zDistance.Shape() && this !in zDistance.Repr && zDistance.Holds(dist)
      modifies `zbuffer, `numBits, `codeBuffer, `hitZeofOnce, `pos, `loaded
      ensures BitsValid()
      ensures var i := MatchIntake(data, old(pos), z, dist, old(Filled()));
              && (ok <==> i.Some?)
              && (ok ==> MatchStep(data, old(pos), z, dist) == Copy(pos, len, back) && len <= UINT_MAX &&
                         Filled() == i.value)
    {
      hide Received, Looked, Take, Table.Holds, BitsValid, MatchStep, Symbol, Table.Shape, MatchAt;
      hide LENGTH_BASE, LENGTH_EXTRA, DIST_BASE, DIST_EXTRA;
      ghost var p := pos;
      ExtraBounds(z - 257);
      len := WithExtra(LENGTH_BASE[z - 257], LENGTH_EXTRA[z - 257]);
      LengthBound(data, p, z - 257);
      MatchCases(data, p, z, dist);
      var d := HuffmanDecode(zDistance, dist);
      if d < 0 || d >= 30 { return false, len, 0; }
      DistBounds(d);
      back := WithExtra(DIST_BASE[d], DIST_EXTRA[d]);
      ok := true;
    }

    /** One round of the block loop: a literal, a copy, the end of the block, or failure. */
    method ParseStep(cur: nat, ghost lit: seq<nat>, ghost dist: seq<nat>) returns (how: Progress, to: nat)
      requires Valid() && zLength.Holds(lit) && zDistance.Holds(dist) && cur <= out.Length
      modifies `zbuffer, `numBits, `codeBuffer, `hitZeofOnce, `pos, `loaded, `out, `zout, out
      ensures Valid() && Limit() == old(Limit()) && (out == old(out) || fresh(out)) && to <= out.Length
      ensures var st, i := NextStep(data, old(pos), lit, dist), StepIntake(data, old(pos), lit, dist, old(Filled()));
              && (how.More? ==> cur < to && Continues(st, pos, old(out[..cur]), out[..to], Limit()))
              && (how.Done? ==> to == cur == zout && out[..to] == old(out[..cur]) && st == EndOfBlock(pos))
              && (how.Fail? ==> i.None? || Stops(st, old(out[..cur]), Limit()))
              && (!how.Fail? ==> i == Some(Filled()))
    {
      hide Looked, MatchIntake, Take, Table.Holds, MatchStep, CopyBack, MaxGrow, BitsValid;
      to := cur;
      var z := HuffmanDecode(zLength, lit);
      if z < 256 {
        if z < 0 { return Fail, cur; }
        var room := EmitLiteral(cur, z);
        if !room { return Fail, cur; }
        return More, cur + 1;
      }
      if z == 256 {
        zout := cur;
        BitCount();
        if hitZeofOnce && numBits < 16 { return Fail, cur; }
        return Done, cur;
      }
      if z >= 286 { return Fail, cur; }
      var more, len, back := ParseMatch(z, dist);
      if !more { return Fail, cur; }
      if cur < back { return Fail, cur; }
      var room := EmitMatch(cur, back, len);
      if !room { return Fail, cur; }
      return More, cur + len;
    }

    lemma BitCount()
      requires BitsValid()
      ensures pos + numBits == 8 * loaded
    {
    }

    method ParseHuffmanBlock(ghost lit: seq<nat>, ghost dist: seq<nat>) returns (ok: bool)
      requires Valid() && zLength.Holds(lit) && zDistance.Holds(dist)
      modifies `zbuffer, `numBits, `codeBuffer, `hitZeofOnce, `pos, `loaded, `out, `zout, out
      ensures Valid() && Limit() == old(Limit()) && (out == old(out) || fresh(out))
      ensures Agrees(ok, CompressedBlock(data, old(pos), lit, dist, old(Output()), old(Limit())),
                     BlockIntake(data, old(pos), lit, dist, old(Output()), old(Limit()), old(Filled())))
    {
      hide Take, Table.Holds, CopyBack, MaxGrow, CompressedBlock, NextStep, BitsValid, BlockIntake, StepIntake;
      ghost var limit := Limit();
      ghost var r := CompressedBlock(data, pos, lit, dist, Output(), limit);
      ghost var i := BlockIntake(data, pos, lit, dist, Output(), limit, Filled());
      var cur := zout;
      while true
        invariant Valid() && cur <= out.Length
        invariant out == old(out) || fresh(out)
        invariant Limit() == limit
        invariant zLength.Holds(lit) && zDistance.Holds(dist)
        invariant r == CompressedBlock(data, pos, lit, dist, out[..cur], limit)
        invariant i == BlockIntake(data, pos, lit, dist, out[..cur], limit, Filled())
        decreases limit - cur
      {
        ghost var p0, was, filled := pos, out[..cur], Filled();
        var how, to := ParseStep(cur, lit, dist);
        BlockStep(data, p0, lit, dist, was, limit, filled, pos, out[..to]);
        cur := to;
        match how {
          case Fail => return false;
          case Done => return true;
          case More =>
        }
      }
    }
  
    // ----- code length tables

    method ReadCodeLengthSizes(hclen: nat) returns (sizes: array<nat>)
      requires BitsValid() && hclen <= 19
      modifies `zbuffer, `numBits, `codeBuffer, `pos, `loaded
      ensures BitsValid() && pos == old(pos) + 3 * hclen && Filled() == SizesIntake(old(pos), hclen, old(Filled()))
      ensures fresh(sizes) && sizes[..] == CodeLengthLens(data, old(pos), hclen) && Bounded(sizes[..], 7)
    {
      hide BitsValid, Take, CodeLengthLens, CODE_LENGTH_ORDER, Received;
      ghost var p := pos;
      sizes := new nat[19](_ => 0);
      SizesStep(data, p, 0);
      for i := 0 to hclen
        modifies `zbuffer, `numBits, `codeBuffer, `pos, `loaded, sizes
        invariant BitsValid() && pos == p + 3 * i && Filled() == SizesIntake(p, i, old(Filled()))
        invariant sizes[..] == CodeLengthLens(data, p, i) && Bounded(sizes[..], 7)
      {
        var s := ZReceive(3);
        Three(data, p + 3 * i);
        SizesStep(data, p, i + 1);
        sizes[CODE_LENGTH_ORDER[i]] := s;
      }
    }

    /** The next run of code lengths: a value and how often it is to be repeated. */
    method ReadRun(z: Table, ghost lens: seq<nat>, lencodes: array<nat>, n: nat) returns (ok: bool, fill: nat, c: nat)
      requires BitsValid() && z.Shape() && this !in z.Repr && z.Holds(lens) && |lens| == 19
      requires n <= lencodes.Length && forall i :: 0 <= i < n ==> lencodes[i] <= 15
      modifies `zbuffer, `numBits, `codeBuffer, `hitZeofOnce, `pos, `loaded
      ensures BitsValid()
      ensures var i := RunIntake(data, old(pos), lens, lencodes[..n], old(Filled()));
              && (ok <==> i.Some?)
              && (ok ==> fill <= 15 && i == Some(Filled()) &&
                         NextRun(data, old(pos), lens, lencodes[..n]) == Some(Lengths(pos, Repeat(fill, c))))
    {
      hide Looked, Received, BitsValid, Table.Holds, Take;
      var s := HuffmanDecode(z, lens);
      if s < 0 || s >= 19 { return false, 0, 0; }
      if s < 16 {
        assert Repeat(s, 1) == [s];
        return true, s, 1;
      }
      fill := 0;
      if s == 16 {
        c := ZReceive(2);
        c := c + 3;
        if n == 0 { return false, 0, 0; }
        fill := lencodes[n - 1];
      } else if s == 17 {
        c := ZReceive(3);
        c := c + 3;
      } else {
        c := ZReceive(7);
        c := c + 11;
      }
      ok := true;
    }

    method ReadCodeLengths(z: Table, ghost lens: seq<nat>, ntot: nat) returns (ok: bool, lencodes: array<nat>)
      requires BitsValid() && z.Shape() && this !in z.Repr && z.Holds(lens) && |lens| == 19 && ntot <= 320
      modifies `zbuffer, `numBits, `codeBuffer, `hitZeofOnce, `pos, `loaded
      ensures BitsValid() && fresh(lencodes) && ntot <= lencodes.Length
      ensures var i := LengthsIntake(data, old(pos), lens, [], ntot, old(Filled()));
              && (ok <==> i.Some?)
              && (ok ==> i == Some(Filled()) && Bounded(lencodes[..ntot], 15) &&
                         CodeLengths(data, old(pos), lens, [], ntot) == Some(Lengths(pos, lencodes[..ntot])))
    {
      hide BitsValid, Table.Holds, Take, CodeLengths, NextRun, RunIntake, LengthsIntake;
      lencodes := new nat[286 + 32 + 137];
      var n := 0;
      ghost var r, i := CodeLengths(data, pos, lens, [], ntot), LengthsIntake(data, pos, lens, [], ntot, Filled());
      assert lencodes[..0] == [];
      while n < ntot
        modifies `zbuffer, `numBits, `codeBuffer, `hitZeofOnce, `pos, `loaded, lencodes
        invariant BitsValid() && n <= ntot && z.Holds(lens)
        invariant forall i :: 0 <= i < n ==> lencodes[i] <= 15
        invariant r == CodeLengths(data, pos, lens, lencodes[..n], ntot)
        invariant i == LengthsIntake(data, pos, lens, lencodes[..n], ntot, Filled())
      {
        ghost var was := lencodes[..n];
        LengthsStep(data, pos, lens, was, ntot, Filled());
        var more, fill, c := ReadRun(z, lens, lencodes, n);
        if !more { return false, lencodes; }
        if ntot - n < c { return false, lencodes; }
        for i := n to n + c
          modifies lencodes
          invariant lencodes[..n] == was
          invariant forall j :: n <= j < i ==> lencodes[j] == fill
        {
          lencodes[i] := fill;
        }
        n := n + c;
        assert lencodes[..n] == was + Repeat(fill, c);
      }
      LengthsStep(data, pos, lens, lencodes[..n], ntot, Filled());
      ok := true;
    }

    method BuildTables(lit: seq<nat>, dist: seq<nat>) returns (ok: bool)
      requires Apart() && |lit| <= SYMBOLS && |dist| <= SYMBOLS && Bounded(lit, 15) && Bounded(dist, 15)
      modifies zLength.Repr, zDistance.Repr
      ensures ok <==> Fits(lit, 15) && Fits(dist, 15)
      ensures ok ==> zLength.Holds(lit) && zDistance.Holds(dist)
    {
      hide Fits, Table.Holds;
      ok := zLength.Build(lit);
      if !ok { return; }
      ok := zDistance.Build(dist);
    }

    method ReadCounts() returns (hlit: nat, hdist: nat, hclen: nat)
      requires BitsValid()
      modifies `zbuffer, `numBits, `codeBuffer, `pos, `loaded
      ensures BitsValid() && pos == old(pos) + 14 && Filled() == CountsIntake(old(pos), old(Filled()))
      ensures hlit == Take(data, old(pos), 5) + 257 && hdist == Take(data, old(pos) + 5, 5) + 1
      ensures hclen == Take(data, old(pos) + 10, 4) + 4
    {
      hide BitsValid, Received, Take;
      hlit := ZReceive(5);
      hlit := hlit + 257;
      hdist := ZReceive(5);
      hdist := hdist + 1;
      hclen := ZReceive(4);
      hclen := hclen + 4;
    }

    /** The code lengths that the header of a dynamic block describes, split at hlit. */
    method ReadTables() returns (ok: bool, lit: seq<nat>, dist: seq<nat>)
      requires BitsValid()
      modifies `zbuffer, `numBits, `codeBuffer, `hitZeofOnce, `pos, `loaded
      ensures BitsValid()
      ensures ok ==> |lit| <= SYMBOLS && |dist| <= SYMBOLS && Bounded(lit, 15) && Bounded(dist, 15)
      ensures ok ==> DynamicTables(data, old(pos)) ==
                     if Fits(lit, 15) && Fits(dist, 15) then Some(Tables(pos, lit, dist)) else None
      ensures var i := TablesIntake(data, old(pos), old(Filled()));
              if ok && DynamicTables(data, old(pos)).Some? then i == Some(Filled()) else i.None?
    {
      hide LengthsIntake, SizesIntake, CountsIntake, BitsValid, Take, CodeLengths, Table.Holds, CodeLengthLens;
      hide DynamicTables, Fits;
      ghost var p := pos;
      lit, dist := [], [];
      HeaderBounds(data, p);
      TableCases(data, p);
      var hlit, hdist, hclen := ReadCounts();
      var sizes := ReadCodeLengthSizes(hclen);
      var z := new Table();
      ghost var lens := sizes[..];
      ok := z.Build(sizes[..]);
      if !ok { return; }
      var lencodes;
      ok, lencodes := ReadCodeLengths(z, lens, hlit + hdist);
      if !ok { return; }
      ghost var all := lencodes[..hlit + hdist];
      lit, dist := lencodes[..hlit], lencodes[hlit..hlit + hdist];
      assert lit == all[..hlit] && dist == all[hlit..];
    }

    method ComputeHuffmanCodes() returns (ok: bool)
      requires BitsValid() && Apart()
      modifies `zbuffer, `numBits, `codeBuffer, `hitZeofOnce, `pos, `loaded, zLength.Repr, zDistance.Repr
      ensures BitsValid() && Apart()
      ensures var i, t := TablesIntake(data, old(pos), old(Filled())), DynamicTables(data, old(pos));
              && (ok <==> i.Some?)
              && (ok ==> i == Some(Filled()) && t.Some? && t.value.pos == pos && zLength.Holds(t.value.lit) &&
                         zDistance.Holds(t.value.dist))
    {
      hide TablesIntake, BitsValid, DynamicTables, Table.Holds, Fits;
      var lit, dist;
      ok, lit, dist := ReadTables();
      if !ok { return; }
      ok := BuildTables(lit, dist);
    }
  
    // ----- stored blocks and the stream

    /** Drops the rest of the current byte. */
    method AlignToByte()
      requires BitsValid() && numBits <= 31
      modifies `numBits, `codeBuffer, `pos
      ensures BitsValid() && pos == 8 * AlignUp(old(pos)) && numBits <= 24 && numBits % 8 == 0
    {
      hide Take;
      if numBits % 8 != 0 { Consume(numBits % 8); }
    }

    /**
     The four header bytes: first those already in the bit buffer, at most three,
     then the rest from the input.  Afterwards the bit buffer is empty and the
     input stands right behind the header.
     */
    method ReadStoredHeader() returns (header: array<byte>)
      requires BitsValid() && numBits <= 24 && numBits % 8 == 0
      modifies `zbuffer, `numBits, `codeBuffer, `pos, `loaded
      ensures BitsValid() && numBits == 0 && pos == old(pos) + 32 && pos == 8 * loaded
      ensures zbuffer == if loaded <= |data| then loaded else |data|
      ensures fresh(header) && header.Length == 4
      ensures forall j :: 0 <= j < 4 ==> header[j] == ByteAt(data, loaded - 4 + j)
    {
      hide Take;
      header := new byte[4];
      var k := DrainHeader(header);
      EmptyBuffer();
      ghost var q := loaded - k;
      while k < 4
        modifies `zbuffer, `pos, `loaded, header
        invariant k <= 4 && loaded == q + k && pos == 8 * loaded && numBits == 0 && codeBuffer == 0
        invariant zbuffer == if loaded <= |data| then loaded else |data|
        invariant hitZeofOnce ==> loaded >= |data| + 2
        invariant forall j :: 0 <= j < k ==> header[j] == ByteAt(data, q + j)
      {
        var b := ZGet8();
        header[k] := b;
        k := k + 1;
        loaded := loaded + 1;
        pos := pos + 8;
      }
      NoBits(data, pos);
    }

    /** The header bytes that are in the bit buffer already. */
    method DrainHeader(header: array<byte>) returns (k: nat)
      requires BitsValid() && numBits <= 24 && numBits % 8 == 0 && header.Length == 4
      modifies `numBits, `codeBuffer, `pos, header
      ensures BitsValid() && numBits == 0 && k <= 3 && k <= loaded && pos == old(pos) + 8 * k
      ensures forall j :: 0 <= j < k ==> header[j] == ByteAt(data, loaded - k + j)
    {
      hide Take;
      k := 0;
      ghost var q := loaded - numBits / 8;
      while numBits > 0
        invariant BitsValid() && numBits == 8 * (loaded - q - k) && k <= 3 && q + k <= loaded <= q + 3
        invariant pos == old(pos) + 8 * k
        invariant forall j :: 0 <= j < k ==> header[j] == ByteAt(data, q + j)
        decreases numBits
      {
        var b := LowByte(q + k);
        header[k] := b;
        k := k + 1;
        Consume(8);
      }
      assert loaded == q + k;
    }

    method LowByte(ghost q: nat) returns (b: byte)
      requires BitsValid() && numBits >= 8 && pos == 8 * q
      ensures b == ByteAt(data, q)
    {
      assert Pow2(8) == 256;
      AndMask(codeBuffer, 8);
      LowTake(data, pos, numBits, 8);
      TakeByte(data, q);
      b := And(codeBuffer, 255);
    }

    lemma EmptyBuffer()
      requires BitsValid() && numBits == 0
      ensures codeBuffer == 0
    {
    }

    method ParseUncompressedBlock() returns (ok: bool)
      requires Valid() && numBits <= 31
      modifies `zbuffer, `numBits, `codeBuffer, `pos, `loaded, `out, `zout, out
      ensures Valid() && Limit() == old(Limit()) && (out == old(out) || fresh(out))
      ensures var r := StoredBlock(data, old(pos), old(Output()), old(Limit()));
              (ok <==> r.Accept?) && (ok ==> r == Accept(pos, Output()) && pos == 8 * loaded)
    {
      hide Take, MaxGrow;
      ghost var q, was := AlignUp(pos), Output();
      AlignToByte();
      var header := ReadStoredHeader();
      var len: nat := (header[1] as nat) * 256 + header[0];
      var nlen: nat := (header[3] as nat) * 256 + header[2];
      ghost var h0, h1, h2, h3 := header[0], header[1], header[2], header[3];
      assert h0 == ByteAt(data, q) && h1 == ByteAt(data, q + 1) && h2 == ByteAt(data, q + 2) &&
             h3 == ByteAt(data, q + 3);
      Complement(len, nlen);
      if nlen != Xor(len, 0xFFFF) { return false; }
      if zbuffer + len > |data| { return false; }
      assert q + 4 <= |data|;
      ok := CopyStored(len);
    }

    method CopyStored(len: nat) returns (room: bool)
      requires Valid() && numBits == 0 && loaded == zbuffer && zbuffer + len <= |data| && len <= UINT_MAX
      modifies `zbuffer, `pos, `loaded, `out, `zout, out
      ensures Valid() && Limit() == old(Limit()) && (out == old(out) || fresh(out))
      ensures room ==> pos == old(pos) + 8 * len && pos == 8 * loaded
      ensures room ==> Output() == old(Output()) + data[old(zbuffer)..old(zbuffer) + len]
      ensures !room ==> old(zout) + len > Limit()
    {
      hide Take, MaxGrow, BitsValid;
      if zout + len > out.Length {
        room := Expand(zout, len);
        if !room { return; }
      }
      CopyInput(len);
      SkipInput(len);
      zout := zout + len;
      room := true;
    }

    method SkipInput(len: nat)
      requires BitsValid() && numBits == 0 && loaded == zbuffer && zbuffer + len <= |data|
      modifies `zbuffer, `pos, `loaded
      ensures BitsValid() && pos == old(pos) + 8 * len == 8 * loaded
    {
      hide Take;
      EmptyBuffer();
      zbuffer := zbuffer + len;
      pos := pos + 8 * len;
      loaded := loaded + len;
      NoBits(data, pos);
    }

    method CopyInput(len: nat)
      requires zout + len <= out.Length && zbuffer + len <= |data|
      modifies out
      ensures out[..zout + len] == old(out[..zout]) + data[zbuffer..zbuffer + len]
    {
      for i := 0 to len
        invariant out[..zout + i] == old(out[..zout]) + data[zbuffer..zbuffer + i]
      {
        out[zout + i] := data[zbuffer + i];
      }
    }

    method ParseZlibHeader() returns (ok: bool)
      requires zbuffer == 0
      modifies `zbuffer
      ensures ok <==> Header(data) && |data| > 2
      ensures ok ==> zbuffer == 2
      ensures zbuffer <= |data|
    {
      var cmf := ZGet8();
      var cm := And(cmf, 15);
      var flg := ZGet8();
      if Zeof() { return false; }
      HeaderFields(cmf, flg);
      if (256 * (cmf as nat) + flg) % 31 != 0 { return false; }
      if And(flg, 32) != 0 { return false; }
      if cm != 8 { return false; }
      return true;
    }

    method ParseBlock(type_: nat) returns (ok: bool)
      requires Valid() && numBits <= 31 && type_ <= 3
      modifies `zbuffer, `numBits, `codeBuffer, `hitZeofOnce, `pos, `loaded, `out, `zout, out, zLength.Repr,
               zDistance.Repr
      ensures Valid() && Limit() == old(Limit()) && (out == old(out) || fresh(out))
      ensures Agrees(ok, BlockOfType(data, type_, old(pos), old(Output()), old(Limit())),
                     TypedIntake(data, type_, old(pos), old(Output()), old(Limit()), old(Filled())))
    {
      hide Take, MaxGrow, BitsValid, StoredBlock, CompressedBlock, DynamicTables, Table.Holds;
      hide BlockIntake, TablesIntake;
      if type_ == 0 {
        ok := ParseUncompressedBlock();
      } else if type_ == 3 {
        ok := false;
      } else {
        if type_ == 1 {
          FixedTablesFit();
          var built := BuildTables(FixedLit(), FixedDist());
          assert built;
          ok := ParseHuffmanBlock(FixedLit(), FixedDist());
        } else {
          ghost var t := DynamicTables(data, pos);
          ok := ComputeHuffmanCodes();
          if !ok { return; }
          ok := ParseHuffmanBlock(t.value.lit, t.value.dist);
        }
      }
    }

    /** stbi__parse_zlib on a fresh buffer. */
    method ParseZlib(parseHeader: bool) returns (ok: bool)
      requires Valid() && zbuffer == 0 && zout == 0
      modifies this, out, zLength.Repr, zDistance.Repr
      ensures Valid() && Agrees(ok, InflateSpec.Inflate(data, parseHeader, old(Limit())),
                                InflateIntake.InflateIntake(data, parseHeader, old(Limit())))
    {
      hide BitsValid, Apart, Take, MaxGrow, Blocks, BlocksIntake, Header;
      ghost var limit := Limit();
      if parseHeader {
        ok := ParseZlibHeader();
        if !ok {
          StartOver();
          if |data| <= 2 { ShortData(data, limit); }
          return;
        }
      }
      StartOver();
      ghost var r, i := Blocks(data, pos, [], limit), BlocksIntake(data, pos, [], limit, Filled());
      assert Output() == [];
      while true
        invariant Valid() && Limit() == limit
        invariant out == old(out) || fresh(out)
        invariant r == Blocks(data, pos, Output(), limit)
        invariant i == BlocksIntake(data, pos, Output(), limit, Filled())
        decreases 8 * |data| - pos
      {
        var final;
        ok, final := ParseOneBlock();
        if !ok || final { return; }
      }
    }

    /** Block header and block. */
    method ParseOneBlock() returns (ok: bool, final: bool)
      requires Valid()
      modifies this, out, zLength.Repr, zDistance.Repr
      ensures Valid() && Limit() == old(Limit()) && (out == old(out) || fresh(out))
      ensures ok ==> old(pos) < 8 * |data| && old(pos) < pos
      ensures var r := Blocks(data, old(pos), old(Output()), old(Limit()));
              var i := BlocksIntake(data, old(pos), old(Output()), old(Limit()), old(Filled()));
              && (!ok ==> i.None?)
              && (ok && final ==> r == Accept(pos, Output()) && i == Some(Filled()))
              && (ok && !final ==> r == Blocks(data, pos, Output(), Limit()) &&
                                   i == BlocksIntake(data, pos, Output(), Limit(), Filled()))
    {
      hide Take, MaxGrow, BlockOfType, Blocks, Table.Holds, BitsValid, Received, TypedIntake, BlocksIntake;
      ghost var p, was, limit := pos, Output(), Limit();
      BlocksStep(data, p, was, limit, Filled());
      var f := ZReceive(1);
      OneBit(data, p);
      var type_ := ZReceive(2);
      TwoBits(data, p + 1);
      ok := ParseBlock(type_);
      final := f == 1;
    }

    /** The bit buffer is empty when the first block starts. */
    method StartOver()
      requires OutValid() && Apart() && zbuffer <= |data|
      modifies `numBits, `codeBuffer, `hitZeofOnce, `pos, `loaded
      ensures Valid() && pos == 8 * zbuffer && numBits == 0 && Filled() == Intake(zbuffer, false)
    {
      numBits := 0;
      codeBuffer := 0;
      hitZeofOnce := false;
      pos := 8 * zbuffer;
      loaded := zbuffer;
    }
  }

  datatype Progress = More | Done | Fail

  /** Step st leads from output `was` to `now`, and to position p. */
  ghost predicate Continues(st: Step, p: nat, was: seq<byte>, now: seq<byte>, limit: nat) {
    match st
    case Literal(p1, b) => p == p1 && |was| < limit && now == was + [b]
    case Copy(p1, len, back) => p == p1 && 1 <= back <= |was| && |was| + len <= limit && now == CopyBack(was, back, len)
    case _ => false
  }

  /** Step st cannot be taken. */
  ghost predicate Stops(st: Step, was: seq<byte>, limit: nat) {
    match st
    case Stuck => true
    case Literal(_, _) => |was| >= limit
    case EndOfBlock(_) => false
    case Copy(_, len, back) => back > |was| || |was| + len > limit
  }

  /** A step of the run is a step of the reference decoder. */
  lemma BlockStep(data: seq<byte>, p: nat, lit: seq<nat>, dist: seq<nat>, was: seq<byte>, limit: nat, i: Intake,
                  p1: nat, now: seq<byte>)
    ensures var r, st := CompressedBlock(data, p, lit, dist, was, limit), NextStep(data, p, lit, dist);
            var b, next := BlockIntake(data, p, lit, dist, was, limit, i), StepIntake(data, p, lit, dist, i);
            && (Continues(st, p1, was, now, limit) ==> r == CompressedBlock(data, p1, lit, dist, now, limit))
            && (Continues(st, p1, was, now, limit) && next.Some? ==>
                  b == BlockIntake(data, p1, lit, dist, now, limit, next.value))
            && (next.None? || Stops(st, was, limit) ==> b.None?)
            && (st == EndOfBlock(p1) ==> r == Accept(p1, was) && b == next)
  {
    hide NextStep, CopyBack, StepIntake;
  }

  lemma NoBits(data: seq<byte>, p: nat)
    ensures Take(data, p, 0) == 0
  {
  }

  lemma Complement(len: nat, nlen: nat)
    requires len < 0x10000 && nlen < 0x10000
    ensures nlen == Xor(len, 0xFFFF) <==> len + nlen == 0xFFFF
  {
    assert Pow2(8) == 0x100 && Pow2(16) == 0x10000;
    XorAllOnes(len, 16);
  }

  lemma HeaderFields(cmf: byte, flg: byte)
    ensures And(cmf, 15) == Low(cmf, 4)
    ensures And(flg, 32) == 0 <==> Bit(flg, 5) == 0
  {
    assert Pow2(4) == 16;
    AndMask(cmf, 4);
    AndSingle(flg, 5);
    assert Shl(1, 5) == 32;
    BitRange(flg, 5);
    ShlIsTimes(0, 5);
  }

  /** `x & (1 << i)` tests bit i. */
  lemma {:induction false} AndSingle(x: nat, i: nat)
    ensures And(x, Shl(1, i)) == Shl(Bit(x, i), i)
  {
    if x == 0 {
      BitZero(i);
      ShlIsTimes(0, i);
    } else if i > 0 {
      AndSingle(x / 2, i - 1);
    } else {
      AndZero(x / 2);
    }
  }

  lemma OneBit(data: seq<byte>, p: nat)
    ensures Take(data, p, 1) == StreamBit(data, p)
  {
  }

  lemma TwoBits(data: seq<byte>, p: nat)
    ensures Take(data, p, 2) <= 3
  {
    TakeBound(data, p, 2);
  }

  lemma Three(data: seq<byte>, p: nat)
    ensures Take(data, p, 3) <= 7
  {
    TakeBound(data, p, 3);
  }

  lemma SizesStep(data: seq<byte>, p: nat, count: nat)
    requires count <= 19
    ensures |CODE_LENGTH_ORDER| == 19
    ensures count == 0 ==> CodeLengthLens(data, p, count) == seq(19, _ => 0)
    ensures count > 0 ==>
              && CODE_LENGTH_ORDER[count - 1] < 19
              && CodeLengthLens(data, p, count) ==
                 CodeLengthLens(data, p, count - 1)[CODE_LENGTH_ORDER[count - 1] := Take(data, p + 3 * (count - 1), 3)]
  {
    hide Take;
  }

  lemma HeaderBounds(data: seq<byte>, p: nat)
    ensures Take(data, p, 5) < 32 && Take(data, p + 5, 5) < 32 && Take(data, p + 10, 4) < 16
  {
    hide Take;
    TakeBound(data, p, 5);
    TakeBound(data, p + 5, 5);
    TakeBound(data, p + 10, 4);
  }

  lemma TableCases(data: seq<byte>, p: nat)
    ensures Take(data, p + 10, 4) + 4 <= 19
    ensures
      var hlit := Take(data, p, 5) + 257;
      var hdist := Take(data, p + 5, 5) + 1;
      var hclen := Take(data, p + 10, 4) + 4;
      var lens := CodeLengthLens(data, p + 14, hclen);
      var r := CodeLengths(data, p + 14 + 3 * hclen, lens, [], hlit + hdist);
      DynamicTables(data, p) ==
      if !Fits(lens, 15) || r.None? || !Fits(r.value.lens[..hlit], 15) || !Fits(r.value.lens[hlit..], 15) then None
      else Some(Tables(r.value.pos, r.value.lens[..hlit], r.value.lens[hlit..]))
  {
    hide Take, CodeLengths, Fits;
    Take4(data, p + 10);
  }

  /** One run of code lengths, or the end of the list. */
  lemma LengthsStep(data: seq<byte>, p: nat, lens: seq<nat>, done: seq<nat>, total: nat, i: Intake)
    requires |done| <= total
    ensures var r, n := CodeLengths(data, p, lens, done, total), LengthsIntake(data, p, lens, done, total, i);
            if |done| == total then r == Some(Lengths(p, done)) && n == Some(i)
            else
              var run, next := NextRun(data, p, lens, done), RunIntake(data, p, lens, done, i);
              if next.None? || run.None? || |done| + |run.value.lens| > total then n.None?
              else
                && r == CodeLengths(data, run.value.pos, lens, done + run.value.lens, total)
                && n == LengthsIntake(data, run.value.pos, lens, done + run.value.lens, total, next.value)
  {
    hide NextRun, RunIntake;
  }

  lemma ExtraBounds(z: nat)
    requires z < 29
    ensures |LENGTH_EXTRA| == 29 && |LENGTH_BASE| == 29
    ensures LENGTH_EXTRA[z] <= 5 && 3 <= LENGTH_BASE[z] <= 258
  {
  }

  lemma MatchCases(data: seq<byte>, p: nat, s: nat, dist: seq<nat>)
    requires 257 <= s < 286
    ensures
      var st := MatchStep(data, p, s, dist);
      var p1 := p + LENGTH_EXTRA[s - 257];
      var r := Symbol(dist, data, p1);
      && (r.None? ==> st.Stuck?)
      && (!st.Stuck? ==> p1 <= st.pos)
      && (r.Some? && r.value >= 30 ==> st.Stuck?)
      && (r.Some? && r.value < 30 ==>
            st == Copy(p1 + dist[r.value] + DIST_EXTRA[r.value],
                       LENGTH_BASE[s - 257] + Take(data, p, LENGTH_EXTRA[s - 257]),
                       DIST_BASE[r.value] + Take(data, p1 + dist[r.value], DIST_EXTRA[r.value])))
  {
    hide Take;
  }

  lemma LengthBound(data: seq<byte>, p: nat, z: nat)
    requires z < 29
    ensures LENGTH_BASE[z] + Take(data, p, LENGTH_EXTRA[z]) <= UINT_MAX
  {
    hide Take;
    ExtraBounds(z);
    TakeBound(data, p, LENGTH_EXTRA[z]);
    Pow2Mono(LENGTH_EXTRA[z], 5);
  }

  lemma DistBounds(d: nat)
    requires d < 30
    ensures |DIST_EXTRA| == 30 && |DIST_BASE| == 30
    ensures DIST_EXTRA[d] <= 13 && 1 <= DIST_BASE[d]
  {
  }

  lemma WindowBound(data: seq<byte>, pos: nat)
    ensures CodeBits(data, pos, 16) < 0x10000
  {
    CodeBitsBound(data, pos, 16);
    assert Pow2(8) == 0x100;
  }

  lemma GuardHolds(data: seq<byte>, pos: nat, n: nat)
    ensures Take(data, pos, n) < Shl(1, n)
  {
    TakeBound(data, pos, n);
    ShlIsTimes(1, n);
  }

  /** Past the end of the data, more bits do not change the buffered number. */
  lemma {:induction false} ZerosPastEnd(data: seq<byte>, p: nat, n: nat)
    requires p >= 8 * |data|
    ensures Take(data, p, n) == 0
    decreases n
  {
    if n > 0 {
      BitZero(p % 8);
      ZerosPastEnd(data, p + 1, n - 1);
    }
  }

  lemma PadZeros(data: seq<byte>, pos: nat, n: nat, k: nat)
    requires pos + n >= 8 * |data|
    ensures Take(data, pos, n + k) == Take(data, pos, n)
  {
    TakeJoin(data, pos, n, k);
    ZerosPastEnd(data, pos + n, k);
    ShlIsTimes(0, n);
  }

  // ----- whole streams

  /** One block; where there is no data left, what the decoder reads is a stored block that it refuses. */
  lemma BlocksStep(data: seq<byte>, p: nat, out: seq<byte>, limit: nat, i: Intake)
    ensures var b, r := BlockOfType(data, Take(data, p + 1, 2), p + 3, out, limit), Blocks(data, p, out, limit);
            var header := Received(Received(i, p, 1), p + 1, 2);
            var t := TypedIntake(data, Take(data, p + 1, 2), p + 3, out, limit, header);
            var n := BlocksIntake(data, p, out, limit, i);
            && (p >= 8 * |data| ==> b.Reject? && t.None? && r.Reject? && n.None?)
            && (p < 8 * |data| ==> r == if b.Reject? then Reject
                                        else if StreamBit(data, p) == 1 then b
                                        else Blocks(data, b.pos, b.out, limit))
            && (t.None? ==> n.None?)
            && (p < 8 * |data| && t.Some? && b.Accept? ==>
                  n == if StreamBit(data, p) == 1 then t else BlocksIntake(data, b.pos, b.out, limit, t.value))
  {
    hide CompressedBlock, DynamicTables, BlockIntake, TablesIntake, Received;
    if p >= 8 * |data| {
      ZerosPastEnd(data, p + 1, 2);
    }
  }

  lemma ShortData(data: seq<byte>, limit: nat)
    requires |data| <= 2
    ensures Blocks(data, 16, [], limit) == Reject && BlocksIntake(data, 16, [], limit, Intake(2, false)).None?
  {
  }

  lemma FixedLitCount(l: nat)
    ensures Count(FixedLit(), l) == if l == 7 then 24 else if l == 8 then 152 else if l == 9 then 112 else 0
  {
    var a, b, c, d := Repeat(8, 144), Repeat(9, 112), Repeat(7, 24), Repeat(8, 8);
    assert FixedLit() == a + b + c + d;
    CountJoin(a + b + c, d, l);
    CountJoin(a + b, c, l);
    CountJoin(a, b, l);
    CountRepeat(8, 144, l);
    CountRepeat(9, 112, l);
    CountRepeat(7, 24, l);
    CountRepeat(8, 8, l);
  }

  /** The fixed codes of section 3.2.6 are complete codes. */
  lemma FixedTablesFit()
    ensures Fits(FixedLit(), 15) && Bounded(FixedLit(), 15)
    ensures Fits(FixedDist(), 15) && Bounded(FixedDist(), 15)
  {
    FixedLitFits();
    forall l: nat
      ensures Count(FixedDist(), l) == if l == 5 then 32 else 0
    {
      CountRepeat(5, 32, l);
    }
    NoShorterCodes(FixedDist(), 5, 5);
    assert Pow2(5) == 32;
  }

  lemma FixedLitFits()
    ensures Fits(FixedLit(), 15)
  {
    var f := FixedLit();
    forall l: nat
      ensures Count(f, l) == if l == 7 then 24 else if l == 8 then 152 else if l == 9 then 112 else 0
    {
      FixedLitCount(l);
    }
    NoShorterCodes(f, 7, 7);
    assert FirstCode(f, 8) == 48;
    assert FirstCode(f, 9) == 400;
    assert Pow2(7) == 128 && Pow2(8) == 256 && Pow2(9) == 512;
  }
}
