/**
 A reference decoder for sections 2.2 of RFC 1950 and 3.2.3 to 3.2.7 of RFC 1951.
 It reads from a zero-extended bit stream and reports where it stopped reading, so a stream is
 valid in the sense of the standard when the decoder accepts it at a position
 inside the data.  `limit` is the largest output it may produce.
 */
module InflateSpec {
  import opened Bits
  import opened Common
  import opened BitStream
  import opened Canonical

  datatype Outcome = Reject | Accept(pos: nat, out: seq<byte>)

  // ----- one symbol

  /** The code of symbol i is what the stream holds at position p. */
  predicate MatchAt(lens: seq<nat>, i: nat, data: seq<byte>, p: nat) {
    i < |lens| && 0 < lens[i] <= MAX_LENGTH && CodeBits(data, p, lens[i]) == Code(lens, i)
  }

  ghost function Symbol(lens: seq<nat>, data: seq<byte>, p: nat): (r: Option<nat>)
    ensures r.Some? ==> MatchAt(lens, r.value, data, p)
    ensures r.None? ==> forall i: nat :: !MatchAt(lens, i, data, p)
  {
    if i: nat :| MatchAt(lens, i, data, p) then Some(i) else None
  }

  lemma MatchIsWindow(lens: seq<nat>, i: nat, data: seq<byte>, p: nat)
    ensures MatchAt(lens, i, data, p) <==> Match(lens, i, CodeBits(data, p, MAX_LENGTH))
  {
    if i < |lens| && 0 < lens[i] <= MAX_LENGTH {
      ShrCodeBits(data, p, MAX_LENGTH, lens[i]);
    }
  }

  /** The symbol at a position is the only one there: canonical codes are prefix free. */
  lemma SymbolUnique(lens: seq<nat>, i: nat, data: seq<byte>, p: nat)
    requires MatchAt(lens, i, data, p)
    ensures Symbol(lens, data, p) == Some(i)
  {
    var r := Symbol(lens, data, p);
    MatchIsWindow(lens, i, data, p);
    MatchIsWindow(lens, r.value, data, p);
    Unique(lens, i, r.value, CodeBits(data, p, MAX_LENGTH));
  }

  // ----- compressed blocks (section 3.2.5)

  /** Length codes 257 to 285. */
  const LENGTH_EXTRA: seq<nat> := [0,0,0,0,0,0,0,0,1,1,1,1,2,2,2,2,3,3,3,3,4,4,4,4,5,5,5,5,0]
  const LENGTH_BASE: seq<nat> :=
    [3,4,5,6,7,8,9,10,11,13,15,17,19,23,27,31,35,43,51,59,67,83,99,115,131,163,195,227,258]

  /** Distance codes 0 to 29. */
  const DIST_EXTRA: seq<nat> := [0,0,0,0,1,1,2,2,3,3,4,4,5,5,6,6,7,7,8,8,9,9,10,10,11,11,12,12,13,13]
  const DIST_BASE: seq<nat> :=
    [1,2,3,4,5,7,9,13,17,25,33,49,65,97,129,193,257,385,513,769,1025,1537,2049,3073,4097,6145,8193,12289,16385,24577]

  /** Copy `len` bytes starting `dist` back; the source may overlap what is being written. */
  function CopyBack(out: seq<byte>, dist: nat, len: nat): (r: seq<byte>)
    requires 1 <= dist <= |out|
    ensures |r| == |out| + len
    decreases len
  {
    if len == 0 then out else CopyBack(out + [out[|out| - dist]], dist, len - 1)
  }

  /** One step of a compressed block, and the position after it. */
  datatype Step = Stuck | Literal(pos: nat, b: byte) | EndOfBlock(pos: nat) | Copy(pos: nat, len: nat, back: nat)

  /** The length and distance that follow length code s at position p. */
  ghost function MatchStep(data: seq<byte>, p: nat, s: nat, dist: seq<nat>): (r: Step)
    requires 257 <= s < 286
    ensures r.Stuck? || (r.Copy? && p <= r.pos && 3 <= r.len && 1 <= r.back)
  {
    var len := LENGTH_BASE[s - 257] + Take(data, p, LENGTH_EXTRA[s - 257]);
    var p1 := p + LENGTH_EXTRA[s - 257];
    match Symbol(dist, data, p1)
    case None => Stuck
    case Some(d) =>
      if d >= 30 then Stuck
      else
        var p2 := p1 + dist[d];
        TableMinima(s - 257, d);
        Copy(p2 + DIST_EXTRA[d], len, DIST_BASE[d] + Take(data, p2, DIST_EXTRA[d]))
  }

  ghost function NextStep(data: seq<byte>, p: nat, lit: seq<nat>, dist: seq<nat>): (r: Step)
    ensures r.Stuck? || r.Literal? || r.EndOfBlock? || (3 <= r.len && 1 <= r.back)
    ensures !r.Stuck? ==> p <= r.pos
  {
    match Symbol(lit, data, p)
    case None => Stuck
    case Some(s) =>
      var p1 := p + lit[s];
      if s < 256 then Literal(p1, s)
      else if s == 256 then EndOfBlock(p1)
      else if s >= 286 then Stuck
      else MatchStep(data, p1, s, dist)
  }

  ghost function CompressedBlock(data: seq<byte>, p: nat, lit: seq<nat>, dist: seq<nat>,
                                 out: seq<byte>, limit: nat): (r: Outcome)
    ensures r.Accept? ==> p <= r.pos && |out| <= |r.out|
    decreases limit - |out|
  {
    match NextStep(data, p, lit, dist)
    case Stuck => Reject
    case Literal(p1, b) =>
      if |out| >= limit then Reject else CompressedBlock(data, p1, lit, dist, out + [b], limit)
    case EndOfBlock(p1) => Accept(p1, out)
    case Copy(p1, len, back) =>
      if back > |out| || |out| + len > limit then Reject
      else CompressedBlock(data, p1, lit, dist, CopyBack(out, back, len), limit)
  }

  lemma TableMinima(l: nat, d: nat)
    requires l < 29 && d < 30
    ensures LENGTH_BASE[l] >= 3 && DIST_BASE[d] >= 1
  {
  }

  // ----- code length tables (section 3.2.7)

  const CODE_LENGTH_ORDER: seq<nat> := [16,17,18,0,8,7,9,6,10,5,11,4,12,3,13,2,14,1,15]

  /** The code lengths of the code length alphabet: `count` values of three bits in the order above. */
  function CodeLengthLens(data: seq<byte>, p: nat, count: nat): (r: seq<nat>)
    requires count <= 19
    ensures |r| == 19
  {
    if count == 0 then seq(19, _ => 0)
    else
      var k := CODE_LENGTH_ORDER[count - 1];
      CodeLengthLens(data, p, count - 1)[k := Take(data, p + 3 * (count - 1), 3)]
  }

  /** Code lengths, and the position behind what they were read from. */
  datatype Lengths = Lengths(pos: nat, lens: seq<nat>)

  /** The code lengths the next code length symbol stands for, and the position after it. */
  ghost function NextRun(data: seq<byte>, p: nat, lens: seq<nat>, done: seq<nat>): (r: Option<Lengths>)
    ensures r.Some? ==> p <= r.value.pos && |r.value.lens| >= 1
  {
    match Symbol(lens, data, p)
    case None => None
    case Some(c) =>
      var p1 := p + lens[c];
      if c < 16 then Some(Lengths(p1, [c]))
      else if c == 16 then
        if done == [] then None else Some(Lengths(p1 + 2, Repeat(done[|done| - 1], 3 + Take(data, p1, 2))))
      else if c == 17 then Some(Lengths(p1 + 3, Repeat(0, 3 + Take(data, p1, 3))))
      else if c == 18 then Some(Lengths(p1 + 7, Repeat(0, 11 + Take(data, p1, 7))))
      else None
  }

  /** Literal/length and distance code lengths, `total` of them, starting with those in `done`. */
  ghost function CodeLengths(data: seq<byte>, p: nat, lens: seq<nat>, done: seq<nat>,
                             total: nat): (r: Option<Lengths>)
    requires |done| <= total
    ensures r.Some? ==> p <= r.value.pos && |r.value.lens| == total
    decreases total - |done|
  {
    if |done| == total then Some(Lengths(p, done))
    else
      match NextRun(data, p, lens, done)
      case None => None
      case Some(run) =>
        if |done| + |run.lens| > total then None
        else CodeLengths(data, run.pos, lens, done + run.lens, total)
  }

  datatype Tables = Tables(pos: nat, lit: seq<nat>, dist: seq<nat>)

  ghost function DynamicTables(data: seq<byte>, p: nat): (r: Option<Tables>)
    ensures r.Some? ==> p <= r.value.pos
  {
    var hlit := Take(data, p, 5) + 257;
    var hdist := Take(data, p + 5, 5) + 1;
    Take4(data, p + 10);
    var hclen := Take(data, p + 10, 4) + 4;
    var lens := CodeLengthLens(data, p + 14, hclen);
    if !Fits(lens, 15) then None
    else
      match CodeLengths(data, p + 14 + 3 * hclen, lens, [], hlit + hdist)
      case None => None
      case Some(t) =>
        if Fits(t.lens[..hlit], 15) && Fits(t.lens[hlit..], 15) then Some(Tables(t.pos, t.lens[..hlit], t.lens[hlit..]))
        else None
  }

  lemma Take4(data: seq<byte>, p: nat)
    ensures Take(data, p, 4) < 16
  {
    TakeBound(data, p, 4);
  }

  // ----- fixed tables (section 3.2.6)

  function FixedLit(): (r: seq<nat>)
    ensures |r| == 288
  {
    seq(288, i => if i < 144 then 8 else if i < 256 then 9 else if i < 280 then 7 else 8)
  }

  function FixedDist(): (r: seq<nat>)
    ensures |r| == 32
  {
    Repeat(5, 32)
  }

  // ----- blocks (sections 3.2.3 and 3.2.4)

  function AlignUp(p: nat): nat { (p + 7) / 8 }

  function StoredBlock(data: seq<byte>, p: nat, out: seq<byte>, limit: nat): (r: Outcome)
    ensures r.Accept? ==> p < r.pos
  {
    var q := AlignUp(p);
    var len := ByteAt(data, q) + 256 * ByteAt(data, q + 1);
    var nlen := ByteAt(data, q + 2) + 256 * ByteAt(data, q + 3);
    if len + nlen != 0xFFFF || q + 4 + len > |data| || |out| + len > limit then Reject
    else Accept(8 * (q + 4 + len), out + data[q + 4..q + 4 + len])
  }

  /** The body of a block, from the position after its three header bits. */
  ghost function BlockOfType(data: seq<byte>, type_: nat, p: nat, out: seq<byte>, limit: nat): (r: Outcome)
    ensures r.Accept? ==> p <= r.pos
  {
    match type_
    case 0 => StoredBlock(data, p, out, limit)
    case 1 => CompressedBlock(data, p, FixedLit(), FixedDist(), out, limit)
    case 2 =>
      (match DynamicTables(data, p)
       case None => Reject
       case Some(t) => CompressedBlock(data, t.pos, t.lit, t.dist, out, limit))
    case _ => Reject
  }

  ghost function Block(data: seq<byte>, p: nat, out: seq<byte>, limit: nat): (r: Outcome)
    ensures r.Accept? ==> p + 3 <= r.pos
  {
    BlockOfType(data, Take(data, p + 1, 2), p + 3, out, limit)
  }

  ghost function Blocks(data: seq<byte>, p: nat, out: seq<byte>, limit: nat): (r: Outcome)
    ensures r.Accept? ==> p <= r.pos
    decreases 8 * |data| - p
  {
    if p >= 8 * |data| then Reject
    else
      match Block(data, p, out, limit)
      case Reject => Reject
      case Accept(p1, out1) => if StreamBit(data, p) == 1 then Accept(p1, out1) else Blocks(data, p1, out1, limit)
  }

  /** The two header bytes of section 2.2 of RFC 1950, without preset dictionary. */
  predicate Header(data: seq<byte>) {
    |data| >= 2 && (256 * (data[0] as nat) + data[1]) % 31 == 0 && Bit(data[1], 5) == 0 && Low(data[0], 4) == 8
  }

  ghost function Inflate(data: seq<byte>, header: bool, limit: nat): Outcome {
    if !header then Blocks(data, 0, [], limit)
    else if Header(data) then Blocks(data, 16, [], limit)
    else Reject
  }
}
