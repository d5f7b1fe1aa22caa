/**
 How far the bit buffer has been filled: the decoder refuses a stream that the
 reference decoder reads from zero bits behind the data if its buffer runs dry, and
 whether it does depends on all the fillings before.
 */
module InflateIntake {
  import opened Bits
  import opened BitStream
  import opened Canonical
  import opened Common
  import opened InflateSpec

  /** The bytes taken in, zeros after the end included, and whether the last 16 zero bits have been added. */
  datatype Intake = Intake(loaded: nat, padded: bool)

  /** What filling up from position p leaves: more than 24 bits. */
  function Full(p: nat): nat { (p + 24) / 8 + 1 }

  /** stbi__zreceive fills up if fewer than n bits are left. */
  function Received(i: Intake, p: nat, n: nat): Intake {
    if 8 * i.loaded < p + n then i.(loaded := Full(p)) else i
  }

  /** stbi__zhuffman_decode needs 16 bits: it fills up, or adds zero bits once at the end, or finds the buffer dry. */
  function Looked(size: nat, i: Intake, p: nat): Option<Intake> {
    if 8 * i.loaded >= p + 16 then Some(i)
    else if i.loaded < size then Some(i.(loaded := Full(p)))
    else if !i.padded then Some(Intake(i.loaded + 2, true))
    else None
  }

  /** A length and distance: nothing if there is none, or the buffer runs dry. */
  ghost function MatchIntake(data: seq<byte>, p: nat, s: nat, dist: seq<nat>, i: Intake): Option<Intake>
    requires 257 <= s < 286
  {
    var p1 := p + LENGTH_EXTRA[s - 257];
    match Looked(|data|, Received(i, p, LENGTH_EXTRA[s - 257]), p1)
    case None => None
    case Some(looked) =>
      match Symbol(dist, data, p1)
      case None => None
      case Some(d) => if d >= 30 then None else Some(Received(looked, p1 + dist[d], DIST_EXTRA[d]))
  }

  /** A step of a compressed block; a block may not end on the last 16 bits. */
  ghost function StepIntake(data: seq<byte>, p: nat, lit: seq<nat>, dist: seq<nat>, i: Intake): Option<Intake> {
    match Looked(|data|, i, p)
    case None => None
    case Some(looked) =>
      match Symbol(lit, data, p)
      case None => None
      case Some(s) =>
        if s < 256 then Some(looked)
        else if s == 256 then if looked.padded && 8 * looked.loaded < p + lit[s] + 16 then None else Some(looked)
        else if s >= 286 then None
        else MatchIntake(data, p + lit[s], s, dist, looked)
  }

  ghost function BlockIntake(data: seq<byte>, p: nat, lit: seq<nat>, dist: seq<nat>, out: seq<byte>, limit: nat,
                             i: Intake): Option<Intake>
    decreases limit - |out|
  {
    match StepIntake(data, p, lit, dist, i)
    case None => None
    case Some(next) =>
      match NextStep(data, p, lit, dist)
      case Stuck => None
      case Literal(p1, b) =>
        if |out| >= limit then None else BlockIntake(data, p1, lit, dist, out + [b], limit, next)
      case EndOfBlock(_) => Some(next)
      case Copy(p1, len, back) =>
        if back > |out| || |out| + len > limit then None
        else BlockIntake(data, p1, lit, dist, CopyBack(out, back, len), limit, next)
  }

  function SizesIntake(p: nat, count: nat, i: Intake): Intake {
    if count == 0 then i else Received(SizesIntake(p, count - 1, i), p + 3 * (count - 1), 3)
  }

  ghost function RunIntake(data: seq<byte>, p: nat, lens: seq<nat>, done: seq<nat>, i: Intake): Option<Intake> {
    match Looked(|data|, i, p)
    case None => None
    case Some(looked) =>
      match Symbol(lens, data, p)
      case None => None
      case Some(c) =>
        if c < 16 then Some(looked)
        else if c == 16 then if done == [] then None else Some(Received(looked, p + lens[c], 2))
        else if c == 17 then Some(Received(looked, p + lens[c], 3))
        else if c == 18 then Some(Received(looked, p + lens[c], 7))
        else None
  }

  ghost function LengthsIntake(data: seq<byte>, p: nat, lens: seq<nat>, done: seq<nat>, total: nat, i: Intake)
    : Option<Intake>
    requires |done| <= total
    decreases total - |done|
  {
    if |done| == total then Some(i)
    else
      match RunIntake(data, p, lens, done, i)
      case None => None
      case Some(next) =>
        match NextRun(data, p, lens, done)
        case None => None
        case Some(run) =>
          if |done| + |run.lens| > total then None
          else LengthsIntake(data, run.pos, lens, done + run.lens, total, next)
  }

  function CountsIntake(p: nat, i: Intake): Intake {
    Received(Received(Received(i, p, 5), p + 5, 5), p + 10, 4)
  }

  ghost function TablesIntake(data: seq<byte>, p: nat, i: Intake): Option<Intake> {
    Take4(data, p + 10);
    var hclen := Take(data, p + 10, 4) + 4;
    if DynamicTables(data, p).None? then None
    else
      LengthsIntake(data, p + 14 + 3 * hclen, CodeLengthLens(data, p + 14, hclen), [],
                    Take(data, p, 5) + 257 + (Take(data, p + 5, 5) + 1), SizesIntake(p + 14, hclen, CountsIntake(p, i)))
  }

  ghost function TypedIntake(data: seq<byte>, type_: nat, p: nat, out: seq<byte>, limit: nat, i: Intake)
    : Option<Intake>
  {
    match type_
    case 0 =>
      (match StoredBlock(data, p, out, limit)
       case Reject => None
       case Accept(p1, _) => Some(i.(loaded := p1 / 8)))
    case 1 => BlockIntake(data, p, FixedLit(), FixedDist(), out, limit, i)
    case 2 =>
      (match TablesIntake(data, p, i)
       case None => None
       case Some(next) =>
         match DynamicTables(data, p)
         case None => None
         case Some(t) => BlockIntake(data, t.pos, t.lit, t.dist, out, limit, next))
    case _ => None
  }

  ghost function BlocksIntake(data: seq<byte>, p: nat, out: seq<byte>, limit: nat, i: Intake): Option<Intake>
    decreases 8 * |data| - p
  {
    var header := Received(Received(i, p, 1), p + 1, 2);
    match TypedIntake(data, Take(data, p + 1, 2), p + 3, out, limit, header)
    case None => None
    case Some(next) =>
      if p >= 8 * |data| then None
      else
        match Block(data, p, out, limit)
        case Reject => None
        case Accept(p1, out1) =>
          if StreamBit(data, p) == 1 then Some(next) else BlocksIntake(data, p1, out1, limit, next)
  }

  /** The whole stream: the bit buffer starts out empty. */
  ghost function InflateIntake(data: seq<byte>, header: bool, limit: nat): Option<Intake> {
    if !header then BlocksIntake(data, 0, [], limit, Intake(0, false))
    else if Header(data) then BlocksIntake(data, 16, [], limit, Intake(2, false))
    else None
  }

  // ----- where the buffer can run dry

  /** At position p the buffer holds at most 32 bits, and the last 16 come behind the data and behind the first m
      bytes. */
  predicate Late(size: nat, m: nat, i: Intake, p: nat) {
    && 8 * i.loaded <= p + 32
    && if i.padded then i.loaded >= size + 2 && i.loaded >= m + 2 else i.loaded >= m
  }

  lemma LateOn(size: nat, m: nat, i: Intake, p: nat, q: nat)
    requires Late(size, m, i, p) && p <= q
    ensures Late(size, m, i, q)
  {
  }

  lemma LookedLate(size: nat, m: nat, i: Intake, p: nat)
    requires Late(size, m, i, p)
    ensures match Looked(size, i, p)
            case None => p > 8 * size && p > 8 * m
            case Some(looked) => Late(size, m, looked, p)
  {
  }

  lemma ReceivedLate(size: nat, m: nat, i: Intake, p: nat, n: nat)
    requires Late(size, m, i, p) && n <= 16
    ensures Late(size, m, Received(i, p, n), p + n)
  {
  }

  lemma EndLate(size: nat, m: nat, i: Intake, p: nat)
    requires Late(size, m, i, p)
    ensures i.padded && 8 * i.loaded < p + 16 ==> p > 8 * size && p > 8 * m
  {
  }

  lemma ExtraSizes()
    ensures |LENGTH_EXTRA| == |LENGTH_BASE| == 29 && |DIST_EXTRA| == |DIST_BASE| == 30
    ensures forall k :: 0 <= k < 29 ==> LENGTH_EXTRA[k] <= 16
    ensures forall k :: 0 <= k < 30 ==> DIST_EXTRA[k] <= 16
  {
  }

  lemma MatchLate(data: seq<byte>, p: nat, s: nat, dist: seq<nat>, i: Intake, m: nat)
    requires Late(|data|, m, i, p) && 257 <= s < 286
    ensures var st := MatchStep(data, p, s, dist);
            match MatchIntake(data, p, s, dist, i)
            case None => st.Stuck? || (st.pos > 8 * |data| && st.pos > 8 * m)
            case Some(next) => !st.Stuck? && Late(|data|, m, next, st.pos)
  {
    hide Symbol, Take, Late, Looked, Received, LENGTH_BASE, DIST_BASE, LENGTH_EXTRA, DIST_EXTRA;
    ExtraSizes();
    var extra := LENGTH_EXTRA[s - 257];
    var p1 := p + extra;
    ReceivedLate(|data|, m, i, p, extra);
    LookedLate(|data|, m, Received(i, p, extra), p1);
    var looked, d := Looked(|data|, Received(i, p, extra), p1), Symbol(dist, data, p1);
    if looked.Some? && d.Some? && d.value < 30 {
      LateOn(|data|, m, looked.value, p1, p1 + dist[d.value]);
      ReceivedLate(|data|, m, looked.value, p1 + dist[d.value], DIST_EXTRA[d.value]);
    }
  }

  lemma StepLate(data: seq<byte>, p: nat, lit: seq<nat>, dist: seq<nat>, i: Intake, m: nat)
    requires Late(|data|, m, i, p)
    ensures var st := NextStep(data, p, lit, dist);
            match StepIntake(data, p, lit, dist, i)
            case None => st.Stuck? || (st.pos > 8 * |data| && st.pos > 8 * m)
            case Some(next) => !st.Stuck? && Late(|data|, m, next, st.pos)
  {
    hide Symbol, Late, Looked, MatchStep, MatchIntake;
    LookedLate(|data|, m, i, p);
    var looked, s := Looked(|data|, i, p), Symbol(lit, data, p);
    if looked.Some? && s.Some? {
      LateOn(|data|, m, looked.value, p, p + lit[s.value]);
      if s.value == 256 {
        EndLate(|data|, m, looked.value, p + lit[256]);
      } else if 256 < s.value < 286 {
        MatchLate(data, p + lit[s.value], s.value, dist, looked.value, m);
      }
    }
  }

  lemma {:induction false} BlockLate(data: seq<byte>, p: nat, lit: seq<nat>, dist: seq<nat>, out: seq<byte>,
                                     limit: nat, i: Intake, m: nat)
    requires Late(|data|, m, i, p)
    ensures var r := CompressedBlock(data, p, lit, dist, out, limit);
            match BlockIntake(data, p, lit, dist, out, limit, i)
            case None => r.Accept? ==> r.pos > 8 * |data| && r.pos > 8 * m
            case Some(next) => r.Accept? && Late(|data|, m, next, r.pos)
    decreases limit - |out|
  {
    hide StepIntake, NextStep, CopyBack, Late;
    StepLate(data, p, lit, dist, i, m);
    var next := StepIntake(data, p, lit, dist, i);
    if next.Some? {
      match NextStep(data, p, lit, dist)
      case Literal(p1, b) =>
        if |out| < limit { BlockLate(data, p1, lit, dist, out + [b], limit, next.value, m); }
      case Copy(p1, len, back) =>
        if back <= |out| && |out| + len <= limit {
          BlockLate(data, p1, lit, dist, CopyBack(out, back, len), limit, next.value, m);
        }
      case _ =>
    }
  }

  lemma {:induction false} SizesLate(size: nat, m: nat, p: nat, count: nat, i: Intake)
    requires Late(size, m, i, p)
    ensures Late(size, m, SizesIntake(p, count, i), p + 3 * count)
  {
    hide Late, Received;
    if count > 0 {
      SizesLate(size, m, p, count - 1, i);
      ReceivedLate(size, m, SizesIntake(p, count - 1, i), p + 3 * (count - 1), 3);
    }
  }

  lemma RunLate(data: seq<byte>, p: nat, lens: seq<nat>, done: seq<nat>, i: Intake, m: nat)
    requires Late(|data|, m, i, p)
    ensures var r := NextRun(data, p, lens, done);
            match RunIntake(data, p, lens, done, i)
            case None => r.Some? ==> r.value.pos > 8 * |data| && r.value.pos > 8 * m
            case Some(next) => r.Some? && Late(|data|, m, next, r.value.pos)
  {
    hide Symbol, Take, Late, Looked, Received;
    LookedLate(|data|, m, i, p);
    var looked, c := Looked(|data|, i, p), Symbol(lens, data, p);
    if looked.Some? && c.Some? {
      LateOn(|data|, m, looked.value, p, p + lens[c.value]);
      ReceivedLate(|data|, m, looked.value, p + lens[c.value], 2);
      ReceivedLate(|data|, m, looked.value, p + lens[c.value], 3);
      ReceivedLate(|data|, m, looked.value, p + lens[c.value], 7);
    }
  }

  lemma {:induction false} LengthsLate(data: seq<byte>, p: nat, lens: seq<nat>, done: seq<nat>, total: nat, i: Intake,
                                       m: nat)
    requires Late(|data|, m, i, p) && |done| <= total
    ensures var r := CodeLengths(data, p, lens, done, total);
            match LengthsIntake(data, p, lens, done, total, i)
            case None => r.Some? ==> r.value.pos > 8 * |data| && r.value.pos > 8 * m
            case Some(next) => r.Some? && Late(|data|, m, next, r.value.pos)
    decreases total - |done|
  {
    hide RunIntake, NextRun, Late;
    if |done| < total {
      RunLate(data, p, lens, done, i, m);
      var next, run := RunIntake(data, p, lens, done, i), NextRun(data, p, lens, done);
      if next.Some? && |done| + |run.value.lens| <= total {
        LengthsLate(data, run.value.pos, lens, done + run.value.lens, total, next.value, m);
      }
    }
  }

  lemma TablesLate(data: seq<byte>, p: nat, i: Intake, m: nat)
    requires Late(|data|, m, i, p)
    ensures var t := DynamicTables(data, p);
            match TablesIntake(data, p, i)
            case None => t.Some? ==> t.value.pos > 8 * |data| && t.value.pos > 8 * m
            case Some(next) => t.Some? && Late(|data|, m, next, t.value.pos)
  {
    hide Take, Late, Received, CodeLengths, LengthsIntake, SizesIntake, CodeLengthLens, Fits;
    Take4(data, p + 10);
    var hclen := Take(data, p + 10, 4) + 4;
    var counts := CountsIntake(p, i);
    ReceivedLate(|data|, m, i, p, 5);
    ReceivedLate(|data|, m, Received(i, p, 5), p + 5, 5);
    ReceivedLate(|data|, m, Received(Received(i, p, 5), p + 5, 5), p + 10, 4);
    SizesLate(|data|, m, p + 14, hclen, counts);
    LengthsLate(data, p + 14 + 3 * hclen, CodeLengthLens(data, p + 14, hclen), [],
                Take(data, p, 5) + 257 + (Take(data, p + 5, 5) + 1), SizesIntake(p + 14, hclen, counts), m);
  }

  lemma StoredLate(data: seq<byte>, p: nat, out: seq<byte>, limit: nat, i: Intake, m: nat)
    requires Late(|data|, m, i, p) && 8 * i.loaded < p + 32
    ensures var r := StoredBlock(data, p, out, limit);
            r.Accept? ==> Late(|data|, m, i.(loaded := r.pos / 8), r.pos)
  {
  }

  lemma TypedLate(data: seq<byte>, type_: nat, p: nat, out: seq<byte>, limit: nat, i: Intake, m: nat)
    requires Late(|data|, m, i, p) && 8 * i.loaded < p + 32
    ensures var r := BlockOfType(data, type_, p, out, limit);
            match TypedIntake(data, type_, p, out, limit, i)
            case None => r.Accept? ==> r.pos > 8 * |data| && r.pos > 8 * m
            case Some(next) => r.Accept? && Late(|data|, m, next, r.pos)
  {
    hide StoredBlock, BlockIntake, CompressedBlock, TablesIntake, DynamicTables, Late;
    match type_
    case 0 => StoredLate(data, p, out, limit, i, m);
    case 1 => BlockLate(data, p, FixedLit(), FixedDist(), out, limit, i, m);
    case 2 =>
      TablesLate(data, p, i, m);
      var next := TablesIntake(data, p, i);
      if next.Some? {
        var t := DynamicTables(data, p).value;
        BlockLate(data, t.pos, t.lit, t.dist, out, limit, next.value, m);
      }
    case _ =>
  }

  lemma HeaderLate(size: nat, m: nat, i: Intake, p: nat)
    requires Late(size, m, i, p)
    ensures var header := Received(Received(i, p, 1), p + 1, 2);
            Late(size, m, header, p + 3) && 8 * header.loaded < p + 35
  {
  }

  lemma {:induction false} BlocksLate(data: seq<byte>, p: nat, out: seq<byte>, limit: nat, i: Intake, m: nat)
    requires Late(|data|, m, i, p)
    ensures var r := Blocks(data, p, out, limit);
            match BlocksIntake(data, p, out, limit, i)
            case None => r.Accept? ==> r.pos > 8 * |data| && r.pos > 8 * m
            case Some(next) => r.Accept?
    decreases 8 * |data| - p
  {
    hide TypedIntake, BlockOfType, Late, Received, Take, StreamBit;
    HeaderLate(|data|, m, i, p);
    var header, type_ := Received(Received(i, p, 1), p + 1, 2), Take(data, p + 1, 2);
    TypedLate(data, type_, p + 3, out, limit, header, m);
    var next := TypedIntake(data, type_, p + 3, out, limit, header);
    var b := Block(data, p, out, limit);
    if p < 8 * |data| && next.Some? && StreamBit(data, p) != 1 {
      BlocksLate(data, b.pos, b.out, limit, next.value, m);
    }
  }

  /** Reading to here is never too far: the bit buffer starts with four bytes, zero where the data has ended. */
  function Horizon(input: seq<byte>, header: bool): nat {
    var start := if header then 16 else 0;
    if 8 * |input| >= start + 32 then 8 * |input| else start + 32
  }

  /** The first three bits already bring in four bytes. */
  lemma FirstFilling(data: seq<byte>, k: nat, out: seq<byte>, limit: nat)
    ensures BlocksIntake(data, 8 * k, out, limit, Intake(k, false)) ==
            BlocksIntake(data, 8 * k, out, limit, Intake(k + 4, false))
  {
    hide TypedIntake, Block, Take, StreamBit;
  }

  /** What has an intake is accepted by the reference, and what that accepts has one unless it ends behind the
      horizon. */
  lemma IntakeOfAccepted(input: seq<byte>, header: bool, limit: nat)
    ensures var r := Inflate(input, header, limit);
            if InflateIntake(input, header, limit).Some? then r.Accept?
            else r.Accept? ==> r.pos > Horizon(input, header)
  {
    hide Blocks, BlocksIntake, Header;
    var k := if header then 2 else 0;
    FirstFilling(input, k, [], limit);
    BlocksLate(input, 8 * k, [], limit, Intake(k + 4, false), k + 4);
  }
}
