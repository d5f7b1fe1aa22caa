/**
 LZW decoding for GIF as a function of the data: the sub-blocks joined to one bit
 stream, codes of growing width taken from it, and a dictionary of strings.
 */
module GifLzwSpec {
  import opened Bits
  import opened Common
  import opened BitStream

  type text = seq<byte>

  const MAX_CODES: nat := 8192

  // ----- sub-blocks

  /** Reading at the end of the data stays there. */
  function Next(input: seq<byte>, pos: nat): nat {
    if pos < |input| then pos + 1 else pos
  }

  /** The data bytes from here on, with `len` bytes left in the current sub-block; a sub-block of length 0 ends them. */
  function Rest(input: seq<byte>, pos: nat, len: nat): seq<byte>
    decreases |input| - pos, len, 1
  {
    if len == 0 then Payload(input, pos)
    else [ByteAt(input, pos)] + Rest(input, Next(input, pos), len - 1)
  }

  function Payload(input: seq<byte>, pos: nat): seq<byte>
    decreases |input| - pos, 0, 0
  {
    var n := ByteAt(input, pos);
    if n == 0 then [] else Rest(input, Next(input, pos), n)
  }

  /** The data in sub-blocks of at most 255 bytes, and the one of length 0. */
  function SubBlocks(data: seq<byte>): seq<byte>
    decreases |data|
  {
    if data == [] then [0]
    else
      var n := if |data| < 255 then |data| else 255;
      [n] + data[..n] + SubBlocks(data[n..])
  }

  /** Joining sub-blocks gives the data back. */
  lemma {:induction false} BlocksJoined(input: seq<byte>, pos: nat, data: seq<byte>)
    requires pos <= |input| && input[pos..] == SubBlocks(data)
    ensures Payload(input, pos) == data
    decreases |input| - pos, 0, 0
  {
    hide Rest;
    assert input[pos] == input[pos..][0];
    if data != [] {
      var n := if |data| < 255 then |data| else 255;
      assert input[pos + 1..] == input[pos..][1..] == data[..n] + SubBlocks(data[n..]);
      RestJoined(input, pos + 1, n, data);
    }
  }

  lemma {:induction false} RestJoined(input: seq<byte>, pos: nat, len: nat, data: seq<byte>)
    requires pos <= |input| && len <= |data| && input[pos..] == data[..len] + SubBlocks(data[len..])
    ensures Rest(input, pos, len) == data
    decreases |input| - pos, len, 1
  {
    hide Payload, SubBlocks;
    if len == 0 {
      assert data[0..] == data && data[..0] == [];
      BlocksJoined(input, pos, data);
    } else {
      assert input[pos..][0] == data[0] && |input[pos..]| > 0;
      assert input[pos + 1..] == input[pos..][1..] == data[1..][..len - 1] + SubBlocks(data[1..][len - 1..]) by {
        assert data[1..][len - 1..] == data[len..];
        assert data[..len][1..] == data[1..][..len - 1];
      }
      RestJoined(input, pos + 1, len - 1, data[1..]);
    }
  }

  // ----- dictionary and codes

  /** The state between codes; `prev` is the string of the code before, if there was one since the last clear. */
  datatype State = State(entries: seq<text>, prev: Option<text>, width: nat, cleared: bool)

  function Clear(cs: nat): nat { Pow2(cs) }

  function Avail(cs: nat, entries: seq<text>): nat { Clear(cs) + 2 + |entries| }

  predicate Known(cs: nat, entries: seq<text>, code: nat) {
    code < Clear(cs) || Clear(cs) + 2 <= code < Avail(cs, entries)
  }

  function Str(cs: nat, entries: seq<text>, code: nat): text
    requires Known(cs, entries, code)
  {
    if code < Clear(cs) then [code % 256] else entries[code - Clear(cs) - 2]
  }

  function Start(cs: nat, cleared: bool): State {
    State([], None, cs + 1, cleared)
  }

  ghost predicate WellFormed(st: State) {
    && st.width > 0
    && (forall k :: 0 <= k < |st.entries| ==> st.entries[k] != [])
    && (st.prev.Some? ==> st.prev.value != [])
  }

  datatype Outcome = Done(out: text) | Bad | Full

  /** What a code that is neither clear nor end of data does: its string and the next state. */
  datatype Reaction = Emits(str: text, st: State) | Refused | TableFull

  /** The decoder's own rules: the table takes up to 8192 codes, and the width grows when the count is a
      multiple of the current range, up to 12 bits. */
  function React(cs: nat, st: State, code: nat): (r: Reaction)
    requires WellFormed(st)
    ensures r.Emits? ==> WellFormed(r.st)
  {
    var avail := Avail(cs, st.entries);
    if !st.cleared || code > avail || code == Clear(cs) || code == Clear(cs) + 1 then Refused
    else
      match st.prev
      case None =>
        if code == avail then Refused
        else
          var str := Str(cs, st.entries, code);
          Emits(str, State(st.entries, Some(str), Grown(st.width, avail), true))
      case Some(before) =>
        if avail >= MAX_CODES then TableFull
        else
          var str := if code < avail then Str(cs, st.entries, code) else before + [before[0]];
          Emits(str, State(st.entries + [before + [str[0]]], Some(str), Grown(st.width, avail + 1), true))
  }

  function Grown(width: nat, avail: nat): nat {
    if Low(avail, width) == 0 && avail <= 0xFFF then width + 1 else width
  }

  function Run(data: seq<byte>, p: nat, cs: nat, st: State, out: text): Outcome
    requires WellFormed(st)
    decreases 8 * |data| - p
  {
    if p + st.width > 8 * |data| then Done(out)
    else
      var code := Take(data, p, st.width);
      var p1 := p + st.width;
      if code == Clear(cs) then Run(data, p1, cs, Start(cs, true), out)
      else if code == Clear(cs) + 1 then Done(out)
      else
        match React(cs, st, code)
        case Refused => Bad
        case TableFull => Full
        case Emits(str, st1) => Run(data, p1, cs, st1, out + str)
  }

  // ----- Appendix F of the GIF89a specification

  /** The dictionary stops growing at 4096 codes, and the width grows when the next code would not fit. */
  function StandardReact(cs: nat, st: State, code: nat): (r: Reaction)
    requires WellFormed(st)
    ensures !r.TableFull?
    ensures r.Emits? ==> WellFormed(r.st)
  {
    var avail := Avail(cs, st.entries);
    if !st.cleared || code > avail || code == Clear(cs) || code == Clear(cs) + 1 then Refused
    else
      match st.prev
      case None =>
        if code == avail then Refused
        else
          var str := Str(cs, st.entries, code);
          Emits(str, st.(prev := Some(str)))
      case Some(before) =>
        if code == avail && avail >= 4096 then Refused
        else
          var str := if code < avail then Str(cs, st.entries, code) else before + [before[0]];
          if avail >= 4096 then Emits(str, st.(prev := Some(str)))
          else
            var width := if avail + 1 == Pow2(st.width) && st.width < 12 then st.width + 1 else st.width;
            Emits(str, State(st.entries + [before + [str[0]]], Some(str), width, true))
  }

  function Standard(data: seq<byte>, p: nat, cs: nat, st: State, out: text): (r: Outcome)
    requires WellFormed(st)
    ensures !r.Full?
    decreases 8 * |data| - p
  {
    if p + st.width > 8 * |data| then Done(out)
    else
      var code := Take(data, p, st.width);
      var p1 := p + st.width;
      if code == Clear(cs) then Standard(data, p1, cs, Start(cs, true), out)
      else if code == Clear(cs) + 1 then Done(out)
      else
        match StandardReact(cs, st, code)
        case Emits(str, st1) => Standard(data, p1, cs, st1, out + str)
        case _ => Bad
  }

  /** The decoder's state b against the standard's a: the same as far as codes of 12 bits can tell. */
  ghost predicate Alike(cs: nat, a: State, b: State) {
    && WellFormed(a) && WellFormed(b)
    && a.prev == b.prev && a.width == b.width && a.cleared == b.cleared
    && a.entries <= b.entries
    && cs + 1 <= a.width <= 12
    && (if Avail(cs, a.entries) < 4096 then a.entries == b.entries && Avail(cs, a.entries) < Pow2(a.width)
        else Avail(cs, a.entries) == 4096 && a.width == 12)
  }

  lemma Pow2Of12()
    ensures Pow2(12) == 4096
  {
    assert Pow2(6) == 64;
  }

  lemma StartAlike(cs: nat, cleared: bool)
    requires 2 <= cs <= 8
    ensures Alike(cs, Start(cs, cleared), Start(cs, cleared))
  {
    assert Pow2(cs + 1) == 2 * Pow2(cs);
    Pow2Mono(2, cs);
    Pow2Mono(cs, 8);
    assert Pow2(2) == 4 && Pow2(8) == 256;
  }

  /** Below its range the count never reaches a multiple of it, and at the range the width grows. */
  lemma GrownIsStandard(width: nat, avail: nat)
    requires 0 < avail <= Pow2(width) && 0 < width <= 12
    ensures Grown(width, avail) == if avail == Pow2(width) && width < 12 then width + 1 else width
  {
    if avail < Pow2(width) {
      LowSmall(avail, width);
    } else {
      ShlIsTimes(1, width);
      LowOfSum(0, 1, width);
    }
    Pow2Of12();
    if width < 12 {
      Pow2Mono(width, 11);
      assert Pow2(12) == 2 * Pow2(11);
    }
  }

  /** One code is treated alike, unless the decoder's table is full. */
  lemma ReactAlike(cs: nat, a: State, b: State, code: nat)
    requires 2 <= cs <= 8 && Alike(cs, a, b) && code < Pow2(a.width)
    requires !React(cs, b, code).TableFull?
    ensures StandardReact(cs, a, code).Refused? <==> React(cs, b, code).Refused?
    ensures StandardReact(cs, a, code).Emits? ==>
              StandardReact(cs, a, code).str == React(cs, b, code).str &&
              Alike(cs, StandardReact(cs, a, code).st, React(cs, b, code).st)
  {
    if Avail(cs, a.entries) < 4096 {
      ReactAlikeGrowing(cs, a, b, code);
    } else {
      ReactAlikeFull(cs, a, b, code);
    }
  }

  lemma ReactAlikeGrowing(cs: nat, a: State, b: State, code: nat)
    requires 2 <= cs <= 8 && Alike(cs, a, b) && Avail(cs, a.entries) < 4096
    ensures StandardReact(cs, a, code).Refused? <==> React(cs, b, code).Refused?
    ensures StandardReact(cs, a, code).Emits? <==> React(cs, b, code).Emits?
    ensures StandardReact(cs, a, code).Emits? ==>
              StandardReact(cs, a, code).str == React(cs, b, code).str &&
              Alike(cs, StandardReact(cs, a, code).st, React(cs, b, code).st)
  {
    hide Grown, Low;
    var avail := Avail(cs, a.entries);
    assert a.entries == b.entries;
    GrownIsStandard(a.width, avail);
    GrownIsStandard(a.width, avail + 1);
    Pow2Of12();
    assert Pow2(a.width + 1) == 2 * Pow2(a.width);
    hide Pow2;
  }

  lemma ReactAlikeFull(cs: nat, a: State, b: State, code: nat)
    requires 2 <= cs <= 8 && Alike(cs, a, b) && Avail(cs, a.entries) >= 4096 && code < Pow2(a.width)
    requires !React(cs, b, code).TableFull?
    ensures StandardReact(cs, a, code).Refused? <==> React(cs, b, code).Refused?
    ensures StandardReact(cs, a, code).Emits? ==>
              StandardReact(cs, a, code).str == React(cs, b, code).str &&
              Alike(cs, StandardReact(cs, a, code).st, React(cs, b, code).st)
  {
    hide Grown, Low;
    Pow2Of12();
    NoGrowth(Avail(cs, b.entries));
    hide Pow2;
    assert |a.entries| <= |b.entries|;
    if Known(cs, a.entries, code) {
      assert Known(cs, b.entries, code) && Str(cs, a.entries, code) == Str(cs, b.entries, code);
    }
  }

  lemma NoGrowth(avail: nat)
    requires avail >= 4096
    ensures Grown(12, avail) == 12 && Grown(12, avail + 1) == 12
  {
  }

  // ----- when the decoder's table fills up

  /** The codes that the standard's decoder accepts, clear codes among them, up to the end of data or a refusal. */
  function Codes(data: seq<byte>, p: nat, cs: nat, st: State): seq<nat>
    requires WellFormed(st)
    decreases 8 * |data| - p
  {
    if p + st.width > 8 * |data| then []
    else
      var code := Take(data, p, st.width);
      var p1 := p + st.width;
      if code == Clear(cs) then [code] + Codes(data, p1, cs, Start(cs, true))
      else if code == Clear(cs) + 1 then []
      else
        match StandardReact(cs, st, code)
        case Emits(_, st1) => [code] + Codes(data, p1, cs, st1)
        case _ => []
  }

  /** The greatest number of data codes without a clear code between them, n of them in front. */
  function InARow(codes: seq<nat>, cs: nat, n: nat): (r: nat)
    ensures r >= n
  {
    if codes == [] then n
    else if codes[0] != Clear(cs) then InARow(codes[1..], cs, n + 1)
    else
      var rest := InARow(codes[1..], cs, 0);
      if rest > n then rest else n
  }

  /** So many data codes in a row need more than the 8192 places of the decoder's table. */
  function TooMany(cs: nat): int { MAX_CODES - Clear(cs) }

  /** The data codes since the last clear code. */
  function Since(st: State): nat { if st.prev.None? then 0 else |st.entries| + 1 }

  lemma InARowCons(code: nat, codes: seq<nat>, cs: nat, n: nat)
    ensures InARow([code] + codes, cs, n) ==
            if code != Clear(cs) then InARow(codes, cs, n + 1)
            else if InARow(codes, cs, 0) > n then InARow(codes, cs, 0) else n
  {
    assert ([code] + codes)[1..] == codes;
  }

  /** The code for which the decoder has no place left is one that the standard accepts. */
  lemma FullIsAccepted(cs: nat, a: State, b: State, code: nat)
    requires 2 <= cs <= 8 && Alike(cs, a, b) && code < Pow2(a.width) && (b.prev.None? ==> b.entries == [])
    requires code != Clear(cs) && code != Clear(cs) + 1
    ensures React(cs, b, code).TableFull? ==> StandardReact(cs, a, code).Emits?
    ensures Since(b) < TooMany(cs) && React(cs, b, code).TableFull? ==> Since(b) + 1 == TooMany(cs)
    ensures Since(b) < TooMany(cs) && React(cs, b, code).Emits? ==> Since(b) + 1 < TooMany(cs)
    ensures React(cs, b, code).Emits? ==>
              Since(React(cs, b, code).st) == Since(b) + 1 && React(cs, b, code).st.prev.Some?
  {
    Pow2Of12();
    Pow2Mono(cs, 8);
    assert Pow2(8) == 256;
    hide Pow2, Grown;
    if b.prev.Some? && Avail(cs, b.entries) >= 4096 {
      assert Avail(cs, a.entries) == 4096 by { hide Low; }
    }
  }

  /**
   The decoder's run is the standard's, the same indices or the same refusal,
   except that it stops where so many data codes stand in a row that its table
   is full; the standard goes on with the dictionary it has.
   */
  lemma {:induction false} RunIsStandard(data: seq<byte>, p: nat, cs: nat, a: State, b: State, out: text)
    requires 2 <= cs <= 8 && Alike(cs, a, b)
    requires (b.prev.None? ==> b.entries == []) && Since(b) < TooMany(cs)
    ensures Run(data, p, cs, b, out) ==
            if InARow(Codes(data, p, cs, a), cs, Since(b)) >= TooMany(cs) then Full else Standard(data, p, cs, a, out)
    decreases 8 * |data| - p, 1
  {
    hide React, StandardReact, Take, InARow;
    InARowNone(cs, Since(b));
    if p + a.width <= 8 * |data| {
      var code := Take(data, p, a.width);
      var p1 := p + a.width;
      if code == Clear(cs) {
        StartAlike(cs, true);
        RunIsStandard(data, p1, cs, Start(cs, true), Start(cs, true), out);
        InARowCons(code, Codes(data, p1, cs, Start(cs, true)), cs, Since(b));
      } else if code != Clear(cs) + 1 {
        DataCodeIsStandard(data, p, cs, a, b, out);
      }
    }
  }

  lemma {:induction false} DataCodeIsStandard(data: seq<byte>, p: nat, cs: nat, a: State, b: State, out: text)
    requires 2 <= cs <= 8 && Alike(cs, a, b) && p + a.width <= 8 * |data|
    requires (b.prev.None? ==> b.entries == []) && Since(b) < TooMany(cs)
    requires Take(data, p, a.width) != Clear(cs) && Take(data, p, a.width) != Clear(cs) + 1
    ensures Run(data, p, cs, b, out) ==
            if InARow(Codes(data, p, cs, a), cs, Since(b)) >= TooMany(cs) then Full else Standard(data, p, cs, a, out)
    decreases 8 * |data| - p, 0
  {
    hide React, StandardReact, Take, InARow, Run, Standard, Codes, Alike;
    var code := Take(data, p, a.width);
    TakeBound(data, p, a.width);
    DataSteps(data, p, cs, a, b, out);
    FullIsAccepted(cs, a, b, code);
    var ra, rb := StandardReact(cs, a, code), React(cs, b, code);
    if !rb.TableFull? { ReactAlike(cs, a, b, code); }
    InARowNone(cs, Since(b));
    if ra.Emits? { InARowCons(code, Codes(data, p + a.width, cs, ra.st), cs, Since(b)); }
    if rb.Emits? { RunIsStandard(data, p + a.width, cs, ra.st, rb.st, out + rb.str); }
  }

  lemma DataSteps(data: seq<byte>, p: nat, cs: nat, a: State, b: State, out: text)
    requires Alike(cs, a, b) && p + a.width <= 8 * |data|
    requires Take(data, p, a.width) != Clear(cs) && Take(data, p, a.width) != Clear(cs) + 1
    ensures a.width == b.width && WellFormed(a) && WellFormed(b)
    ensures var code, p1 := Take(data, p, a.width), p + a.width;
            var ra, rb := StandardReact(cs, a, code), React(cs, b, code);
            && Run(data, p, cs, b, out) ==
               (if rb.Refused? then Bad else if rb.TableFull? then Full else Run(data, p1, cs, rb.st, out + rb.str))
            && Standard(data, p, cs, a, out) == (if ra.Emits? then Standard(data, p1, cs, ra.st, out + ra.str) else Bad)
            && Codes(data, p, cs, a) == if ra.Emits? then [code] + Codes(data, p1, cs, ra.st) else []
  {
    hide React, StandardReact, Take;
  }

  lemma InARowNone(cs: nat, n: nat)
    ensures InARow([], cs, n) == n
  {
  }

  // ----- data on which they differ

  lemma {:induction false} TakeZeros(data: seq<byte>, p: nat, n: nat)
    requires forall q :: p <= q ==> StreamBit(data, q) == 0
    ensures Take(data, p, n) == 0
    decreases n
  {
    if n > 0 { TakeZeros(data, p + 1, n - 1); }
  }

  /** Zero bits are data codes, which the standard's decoder accepts to the end. */
  lemma {:induction false} ZerosAccepted(data: seq<byte>, p: nat, cs: nat, st: State, out: text, n: nat)
    requires WellFormed(st) && st.cleared && st.width <= 12 && forall q :: p <= q ==> StreamBit(data, q) == 0
    ensures Standard(data, p, cs, st, out).Done?
    ensures 12 * InARow(Codes(data, p, cs, st), cs, n) + 12 > 12 * n + 8 * |data| - p
    decreases 8 * |data| - p
  {
    hide Take, InARow;
    if p + st.width <= 8 * |data| {
      TakeZeros(data, p, st.width);
      var r := StandardReact(cs, st, 0);
      ZerosAccepted(data, p + st.width, cs, r.st, out + r.str, n + 1);
      InARowCons(0, Codes(data, p + st.width, cs, r.st), cs, n);
    } else {
      InARowNone(cs, n);
    }
  }

  /** A clear code of three bits, and zeros. */
  function ClearThenZeros(n: nat): seq<byte> { [4] + seq(n, _ => 0) }

  lemma ZerosBehind(n: nat, q: nat)
    requires q >= 3
    ensures StreamBit(ClearThenZeros(n), q) == 0
  {
    BitZero(q % 8);
    if q < 8 {
      BitZero(q - 3);
      assert Bit(4, q) == Bit(2, q - 1) == Bit(1, q - 2) == Bit(0, q - 3);
    }
  }

  lemma StartsWithClear(n: nat)
    ensures Take(ClearThenZeros(n), 0, 3) == 4 == Clear(2)
  {
    hide Take;
    TakeByte(ClearThenZeros(n), 0);
    LowTake(ClearThenZeros(n), 0, 8, 3);
    assert Low(4, 3) == 4;
  }

  /** The standard's decoder accepts this, this decoder gives up. */
  lemma LongRunRefused()
    ensures var data := ClearThenZeros(12300);
            && Standard(data, 0, 2, Start(2, false), []).Done? && Run(data, 0, 2, Start(2, false), []) == Full
            && InARow(Codes(data, 0, 2, Start(2, false)), 2, 0) >= TooMany(2)
  {
    hide Run, InARow, Take, ClearThenZeros;
    var data := ClearThenZeros(12300);
    assert |data| == 12301 by { ClearThenZerosLength(12300); }
    forall q: nat | 3 <= q
      ensures StreamBit(data, q) == 0
    {
      ZerosBehind(12300, q);
    }
    StartsWithClear(12300);
    ZerosAccepted(data, 3, 2, Start(2, true), [], 0);
    InARowCons(4, Codes(data, 3, 2, Start(2, true)), 2, 0);
    StartAlike(2, false);
    RunIsStandard(data, 0, 2, Start(2, false), Start(2, false), []);
  }

  lemma ClearThenZerosLength(n: nat)
    ensures |ClearThenZeros(n)| == n + 1
  {
  }
}
