/**
 The reference decoder on a stream with zero bytes appended: it accepts what it
 accepted before, which makes the zero bits past the end explicit.
 */
module InflateExtend {
  import opened Bits
  import opened BitStream
  import opened Common
  import opened InflateSpec

  /** b is a with zero bytes appended. */
  ghost predicate ZeroExtended(a: seq<byte>, b: seq<byte>) {
    a <= b && forall q :: |a| <= q < |b| ==> b[q] == 0
  }

  lemma SameByte(a: seq<byte>, b: seq<byte>, q: nat)
    requires ZeroExtended(a, b)
    ensures ByteAt(a, q) == ByteAt(b, q)
  {
  }

  lemma SameBit(a: seq<byte>, b: seq<byte>, p: nat)
    requires ZeroExtended(a, b)
    ensures StreamBit(a, p) == StreamBit(b, p)
  {
    SameByte(a, b, p / 8);
  }

  lemma {:induction false} SameTake(a: seq<byte>, b: seq<byte>, p: nat, n: nat)
    requires ZeroExtended(a, b)
    ensures Take(a, p, n) == Take(b, p, n)
    decreases n
  {
    hide StreamBit, ZeroExtended;
    if n > 0 {
      SameBit(a, b, p);
      SameTake(a, b, p + 1, n - 1);
    }
  }

  lemma {:induction false} SameCodeBits(a: seq<byte>, b: seq<byte>, p: nat, n: nat)
    requires ZeroExtended(a, b)
    ensures CodeBits(a, p, n) == CodeBits(b, p, n)
    decreases n
  {
    hide StreamBit, ZeroExtended;
    if n > 0 {
      SameBit(a, b, p + n - 1);
      SameCodeBits(a, b, p, n - 1);
    }
  }

  lemma SameSymbol(a: seq<byte>, b: seq<byte>, lens: seq<nat>, p: nat)
    requires ZeroExtended(a, b)
    ensures Symbol(lens, a, p) == Symbol(lens, b, p)
  {
    hide ZeroExtended, Symbol;
    forall i: nat
      ensures MatchAt(lens, i, a, p) == MatchAt(lens, i, b, p)
    {
      if i < |lens| { SameCodeBits(a, b, p, lens[i]); }
    }
    var s := Symbol(lens, a, p);
    if s.Some? { SymbolUnique(lens, s.value, b, p); }
  }

  lemma SameMatch(a: seq<byte>, b: seq<byte>, p: nat, s: nat, dist: seq<nat>)
    requires ZeroExtended(a, b) && 257 <= s < 286
    ensures MatchStep(a, p, s, dist) == MatchStep(b, p, s, dist)
  {
    hide ZeroExtended, Symbol, Take, LENGTH_BASE, DIST_BASE;
    var extra := LENGTH_EXTRA[s - 257];
    SameTake(a, b, p, extra);
    SameSymbol(a, b, dist, p + extra);
    match Symbol(dist, a, p + extra)
    case None =>
    case Some(d) =>
      if d < 30 { SameTake(a, b, p + extra + dist[d], DIST_EXTRA[d]); }
  }

  lemma SameStep(a: seq<byte>, b: seq<byte>, p: nat, lit: seq<nat>, dist: seq<nat>)
    requires ZeroExtended(a, b)
    ensures NextStep(a, p, lit, dist) == NextStep(b, p, lit, dist)
  {
    hide ZeroExtended, Symbol, Take, MatchStep;
    SameSymbol(a, b, lit, p);
    var s := Symbol(lit, a, p);
    if s.Some? && 257 <= s.value < 286 { SameMatch(a, b, p + lit[s.value], s.value, dist); }
  }

  lemma {:induction false} SameCompressedBlock(a: seq<byte>, b: seq<byte>, p: nat, lit: seq<nat>, dist: seq<nat>,
                                               out: seq<byte>, limit: nat)
    requires ZeroExtended(a, b)
    ensures CompressedBlock(a, p, lit, dist, out, limit) == CompressedBlock(b, p, lit, dist, out, limit)
    decreases limit - |out|
  {
    hide ZeroExtended, NextStep, CopyBack;
    SameStep(a, b, p, lit, dist);
    match NextStep(a, p, lit, dist)
    case Literal(p1, c) =>
      if |out| < limit { SameCompressedBlock(a, b, p1, lit, dist, out + [c], limit); }
    case Copy(p1, len, back) =>
      if back <= |out| && |out| + len <= limit {
        SameCompressedBlock(a, b, p1, lit, dist, CopyBack(out, back, len), limit);
      }
    case _ =>
  }

  lemma {:induction false} SameCodeLengthLens(a: seq<byte>, b: seq<byte>, p: nat, count: nat)
    requires ZeroExtended(a, b) && count <= 19
    ensures CodeLengthLens(a, p, count) == CodeLengthLens(b, p, count)
  {
    hide ZeroExtended, Take, CODE_LENGTH_ORDER;
    if count > 0 {
      SameCodeLengthLens(a, b, p, count - 1);
      SameTake(a, b, p + 3 * (count - 1), 3);
    }
  }

  lemma SameRun(a: seq<byte>, b: seq<byte>, p: nat, lens: seq<nat>, done: seq<nat>)
    requires ZeroExtended(a, b)
    ensures NextRun(a, p, lens, done) == NextRun(b, p, lens, done)
  {
    hide ZeroExtended, Symbol, Take;
    SameSymbol(a, b, lens, p);
    var c := Symbol(lens, a, p);
    if c.Some? {
      SameTake(a, b, p + lens[c.value], 2);
      SameTake(a, b, p + lens[c.value], 3);
      SameTake(a, b, p + lens[c.value], 7);
    }
  }

  lemma {:induction false} SameCodeLengths(a: seq<byte>, b: seq<byte>, p: nat, lens: seq<nat>, done: seq<nat>,
                                           total: nat)
    requires ZeroExtended(a, b) && |done| <= total
    ensures CodeLengths(a, p, lens, done, total) == CodeLengths(b, p, lens, done, total)
    decreases total - |done|
  {
    hide ZeroExtended, NextRun;
    SameRun(a, b, p, lens, done);
    var run := NextRun(a, p, lens, done);
    if |done| < total && run.Some? && |done| + |run.value.lens| <= total {
      SameCodeLengths(a, b, run.value.pos, lens, done + run.value.lens, total);
    }
  }

  lemma SameTables(a: seq<byte>, b: seq<byte>, p: nat)
    requires ZeroExtended(a, b)
    ensures DynamicTables(a, p) == DynamicTables(b, p)
  {
    hide ZeroExtended, Take, CodeLengths, CodeLengthLens, Canonical.Fits;
    SameTake(a, b, p, 5);
    SameTake(a, b, p + 5, 5);
    SameTake(a, b, p + 10, 4);
    TakeBound(a, p + 10, 4);
    var hclen := Take(a, p + 10, 4) + 4;
    SameCodeLengthLens(a, b, p + 14, hclen);
    SameCodeLengths(a, b, p + 14 + 3 * hclen, CodeLengthLens(a, p + 14, hclen), [],
                    Take(a, p, 5) + 257 + (Take(a, p + 5, 5) + 1));
  }

  lemma StoredBlockKept(a: seq<byte>, b: seq<byte>, p: nat, out: seq<byte>, limit: nat)
    requires ZeroExtended(a, b) && StoredBlock(a, p, out, limit).Accept?
    ensures StoredBlock(b, p, out, limit) == StoredBlock(a, p, out, limit)
  {
    var r, q := StoredBlock(a, p, out, limit), AlignUp(p);
    SameByte(a, b, q);
    SameByte(a, b, q + 1);
    SameByte(a, b, q + 2);
    SameByte(a, b, q + 3);
    var len := ByteAt(a, q) + 256 * ByteAt(a, q + 1);
    assert a[q + 4..q + 4 + len] == b[q + 4..q + 4 + len];
  }

  lemma BlockKept(a: seq<byte>, b: seq<byte>, p: nat, out: seq<byte>, limit: nat)
    requires ZeroExtended(a, b) && Block(a, p, out, limit).Accept?
    ensures Block(b, p, out, limit) == Block(a, p, out, limit)
  {
    hide ZeroExtended, StoredBlock, CompressedBlock, DynamicTables, Take;
    SameTake(a, b, p + 1, 2);
    match Take(a, p + 1, 2)
    case 0 => StoredBlockKept(a, b, p + 3, out, limit);
    case 1 => SameCompressedBlock(a, b, p + 3, FixedLit(), FixedDist(), out, limit);
    case _ =>
      SameTables(a, b, p + 3);
      var t := DynamicTables(a, p + 3);
      if t.Some? { SameCompressedBlock(a, b, t.value.pos, t.value.lit, t.value.dist, out, limit); }
  }

  lemma {:induction false} BlocksKept(a: seq<byte>, b: seq<byte>, p: nat, out: seq<byte>, limit: nat)
    requires ZeroExtended(a, b) && Blocks(a, p, out, limit).Accept?
    ensures Blocks(b, p, out, limit) == Blocks(a, p, out, limit)
    decreases 8 * |a| - p
  {
    hide Block, StreamBit;
    BlockKept(a, b, p, out, limit);
    SameBit(a, b, p);
    var r := Block(a, p, out, limit);
    if StreamBit(a, p) != 1 { BlocksKept(a, b, r.pos, r.out, limit); }
  }

  /** An accepted stream stays accepted, with the same result. */
  lemma InflateKept(a: seq<byte>, b: seq<byte>, header: bool, limit: nat)
    requires ZeroExtended(a, b) && InflateSpec.Inflate(a, header, limit).Accept?
    ensures InflateSpec.Inflate(b, header, limit) == InflateSpec.Inflate(a, header, limit)
  {
    hide Blocks, Low, Bit;
    BlocksKept(a, b, if header then 16 else 0, [], limit);
  }

  function Zeros(n: nat): (r: seq<byte>)
    ensures |r| == n && forall i :: 0 <= i < n ==> r[i] == 0
  {
    seq(n, _ => 0)
  }
}
