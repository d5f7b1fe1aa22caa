/**
 The converse of writing: whatever the reference decoder accepts has been written,
 so the valid streams are exactly those that a writer can make.
 */
module InflateReader {
  import opened BitStream
  import opened BitWriter
  import opened Bits
  import opened Canonical
  import opened Common
  import opened InflateApi
  import opened InflateHeader
  import opened InflateSpec
  import opened InflateTokens
  import opened InflateWriter
  import Inflate

  // ----- bits

  lemma NothingWritten(data: seq<byte>, p: nat)
    ensures Written(data, p, [])
  {
  }

  lemma {:induction false} TakeIsWritten(data: seq<byte>, p: nat, n: nat)
    ensures Written(data, p, LowFirst(Take(data, p, n), n))
    decreases n
  {
    hide StreamBit;
    if n > 0 {
      var v := Take(data, p, n);
      assert v % 2 == StreamBit(data, p) && v / 2 == Take(data, p + 1, n - 1);
      TakeIsWritten(data, p + 1, n - 1);
      assert Written(data, p, [v % 2]) by { assert StreamBit(data, p + 0) == v % 2; }
      WrittenJoin(data, p, [v % 2], LowFirst(v / 2, n - 1));
    }
  }

  lemma {:induction false} CodeIsWritten(data: seq<byte>, p: nat, n: nat)
    ensures Written(data, p, HighFirst(CodeBits(data, p, n), n))
    decreases n
  {
    hide StreamBit;
    if n > 0 {
      var v := CodeBits(data, p, n);
      assert v % 2 == StreamBit(data, p + n - 1) && v / 2 == CodeBits(data, p, n - 1);
      CodeIsWritten(data, p, n - 1);
      assert Written(data, p + (n - 1), [v % 2]) by { assert StreamBit(data, p + (n - 1) + 0) == v % 2; }
      WrittenJoin(data, p, HighFirst(v / 2, n - 1), [v % 2]);
    }
  }

  lemma SymbolIsWritten(data: seq<byte>, p: nat, lens: seq<nat>, s: nat)
    requires Bounded(lens, 15) && Symbol(lens, data, p) == Some(s)
    ensures HasCode(lens, s) && Written(data, p, SymbolBits(lens, s)) && |SymbolBits(lens, s)| == lens[s]
  {
    hide Written;
    CodeIsWritten(data, p, lens[s]);
  }

  // ----- codes back to lengths and distances

  lemma LogExact(n: nat, a: nat)
    requires Pow2(a) <= n < Pow2(a + 1)
    ensures n > 0 && Log2(n) == a
  {
    hide Pow2, Log2;
    LogIs(n, a, a + 1);
  }

  lemma SumTimes(a: nat, b: nat, m: nat)
    ensures (a + b) * m == a * m + b * m && a * m >= 0 && b * m >= 0
  {
  }

  lemma Between(k: nat, low: nat, high: nat, m: nat, r: nat)
    requires low <= k < high && r < m
    ensures low * m <= k * m + r < high * m
  {
    SumTimes(low, k - low, m);
    SumTimes(k + 1, high - (k + 1), m);
    SumTimes(k, 1, m);
  }

  /** k units of 2^e and a rest. */
  lemma UnitsBack(n: nat, e: nat, k: nat, r: nat)
    requires n == k * Pow2(e) + r && r < Pow2(e)
    ensures n / Pow2(e) == k && n % Pow2(e) == r
  {
    hide Pow2;
    var m := Pow2(e);
    var q := n / m;
    assert q * m + n % m == n && (q + 1) * m == q * m + m && (k + 1) * m == k * m + m;
    LessFactor(q, k + 1, m);
    LessFactor(k, q + 1, m);
  }

  /** The length that code s and the rest r stand for is spelled by them. */
  lemma LengthBack(s: nat, r: nat)
    requires 257 <= s < 286 && |LENGTH_EXTRA| == |LENGTH_BASE| == 29 && r < Pow2(LENGTH_EXTRA[s - 257])
    ensures var len, other := LENGTH_BASE[s - 257] + r, s == 284 && r == 31;
            && IsLength(len, other) && LengthCode(len, other) == s
            && LengthBits(len, other) == LENGTH_EXTRA[s - 257] && LengthRest(len, other) == r
  {
    hide LENGTH_EXTRA, LENGTH_BASE, Log2;
    SmallPowers();
    LengthTable(s - 257);
    var i := s - 257;
    if 8 <= i < 28 { LongBack(i, i / 4 - 1, 4 + i % 4, r); }
  }

  /** Only the last code with five extra bits reaches 258. */
  lemma LongerThanOwn(e: nat, k: nat, r: nat)
    requires 1 <= e <= 5 && 4 <= k < 8 && r < Pow2(e)
    ensures 8 <= k * Pow2(e) + r <= 255 && (k * Pow2(e) + r == 255 <==> e == 5 && k == 7 && r == 31)
  {
    SmallPowers();
    hide Pow2;
    var m := if e == 1 then 2 else if e == 2 then 4 else if e == 3 then 8 else if e == 4 then 16 else 32;
    assert Pow2(e) == m;
    SameProduct(k, k, Pow2(e), m);
  }

  lemma LongBack(i: nat, e: nat, k: nat, r: nat)
    requires 8 <= i < 28 && 1 <= e <= 5 && 4 <= k < 8 && i == 4 * e + k && r < Pow2(e)
    ensures var len, other := 3 + k * Pow2(e) + r, i == 27 && r == 31;
            && IsLength(len, other) && !OwnCode(len, other) && LengthBits(len, other) == e
            && LengthCode(len, other) == 257 + i && LengthRest(len, other) == r
  {
    var n := k * Pow2(e) + r;
    SmallPowers();
    assert Pow2(e + 2) == 4 * Pow2(e) && Pow2(e + 3) == 8 * Pow2(e);
    hide Pow2, Log2;
    Between(k, 4, 8, Pow2(e), r);
    LogExact(n, e + 2);
    UnitsBack(n, e, k, r);
    LongerThanOwn(e, k, r);
  }

  /** And so is the distance. */
  lemma DistanceBack(d: nat, r: nat)
    requires d < 30 && |DIST_EXTRA| == |DIST_BASE| == 30 && r < Pow2(DIST_EXTRA[d])
    ensures var back := DIST_BASE[d] + r;
            && IsDistance(back) && DistanceCode(back) == d
            && DistanceBits(back) == DIST_EXTRA[d] && DistanceRest(back) == r
  {
    hide DIST_EXTRA, DIST_BASE, Log2;
    SmallPowers();
    DistanceTable(d);
    if d >= 4 { FarBack(d, d / 2 - 1, 2 + d % 2, r); }
  }

  lemma FarBack(d: nat, e: nat, k: nat, r: nat)
    requires 4 <= d < 30 && 1 <= e <= 13 && 2 <= k < 4 && d == 2 * e + k && r < Pow2(e)
    ensures var back := 1 + k * Pow2(e) + r;
            IsDistance(back) && DistanceBits(back) == e && DistanceCode(back) == d && DistanceRest(back) == r
  {
    var n := k * Pow2(e) + r;
    SmallPowers();
    assert Pow2(e + 1) == 2 * Pow2(e) && Pow2(e + 2) == 4 * Pow2(e);
    Pow2Mono(1, e);
    Pow2Mono(e, 13);
    hide Pow2, Log2;
    Between(k, 2, 4, Pow2(e), r);
    LogExact(n, e + 1);
    UnitsBack(n, e, k, r);
  }

  // ----- tokens

  /** A token that has been read has been written. */
  lemma TokenIsWritten(data: seq<byte>, p: nat, lit: seq<nat>, dist: seq<nat>) returns (t: Token)
    requires Bounded(lit, 15) && Bounded(dist, 15)
    requires NextStep(data, p, lit, dist).Literal? || NextStep(data, p, lit, dist).Copy?
    ensures Writable(lit, dist, t) && Written(data, p, TokenBits(lit, dist, t))
    ensures NextStep(data, p, lit, dist) == StepOf(t, p + |TokenBits(lit, dist, t)|)
    ensures t.Match? ==> IsLength(t.len, t.other) && IsDistance(t.back)
  {
    hide Written, SymbolBits, Symbol, Bounded, MatchStep;
    var s := Symbol(lit, data, p).value;
    SymbolIsWritten(data, p, lit, s);
    if s < 256 {
      t := Byte(s);
    } else {
      t := MatchIsWritten(data, p, lit, dist, s);
    }
  }

  lemma MatchIsWritten(data: seq<byte>, p: nat, lit: seq<nat>, dist: seq<nat>, s: nat) returns (t: Token)
    requires Bounded(lit, 15) && Bounded(dist, 15) && 257 <= s < 286 && Symbol(lit, data, p) == Some(s)
    requires MatchStep(data, p + lit[s], s, dist).Copy?
    ensures t.Match? && Writable(lit, dist, t) && Written(data, p, TokenBits(lit, dist, t))
    ensures MatchStep(data, p + lit[s], s, dist) == StepOf(t, p + |TokenBits(lit, dist, t)|)
  {
    hide Written, SymbolBits, Symbol, Bounded, LENGTH_EXTRA, LENGTH_BASE, DIST_EXTRA, DIST_BASE, Take, LowFirst;
    hide LengthBits, LengthCode, LengthRest, DistanceBits, DistanceCode, DistanceRest, Pow2;
    LengthTable(0);
    DistanceTable(0);
    var extra, p1 := LENGTH_EXTRA[s - 257], p + lit[s];
    var r := Take(data, p1, extra);
    TakeBound(data, p1, extra);
    LengthBack(s, r);
    var p2 := p1 + extra;
    var d := Symbol(dist, data, p2).value;
    var more, p3 := DIST_EXTRA[d], p2 + dist[d];
    var q := Take(data, p3, more);
    TakeBound(data, p3, more);
    DistanceBack(d, q);
    var len, other, back := LENGTH_BASE[s - 257] + r, s == 284 && r == 31, DIST_BASE[d] + q;
    t := Match(len, back, other);
    SymbolIsWritten(data, p, lit, s);
    TakeIsWritten(data, p1, extra);
    SymbolIsWritten(data, p2, dist, d);
    TakeIsWritten(data, p3, more);
    var a, b, c, e := SymbolBits(lit, s), LowFirst(r, extra), SymbolBits(dist, d), LowFirst(q, more);
    WrittenJoin(data, p, a, b);
    WrittenJoin(data, p2, c, e);
    WrittenJoin(data, p, a + b, c + e);
  }

  // ----- blocks

  /** A copy makes each byte the one that stands the distance before it. */
  lemma {:induction false} CopiedBytes(out: seq<byte>, back: nat, len: nat)
    requires 1 <= back <= |out|
    ensures var r := CopyBack(out, back, len);
            out <= r && forall j :: |out| <= j < |out| + len ==> r[j] == r[j - back]
    decreases len
  {
    if len > 0 {
      var next := out + [out[|out| - back]];
      CopiedBytes(next, back, len - 1);
      var r := CopyBack(next, back, len - 1);
      assert r[..|next|] == next;
      assert r[|out|] == r[..|next|][|out|] == next[|out|] && r[|out| - back] == r[..|next|][|out| - back];
      assert out == next[..|out|] && out <= r;
    }
  }

  lemma EndIsWritten(data: seq<byte>, p: nat, lit: seq<nat>, dist: seq<nat>)
    requires Bounded(lit, 15) && NextStep(data, p, lit, dist).EndOfBlock?
    ensures HasCode(lit, END_OF_BLOCK) && Written(data, p, SymbolBits(lit, END_OF_BLOCK))
    ensures NextStep(data, p, lit, dist) == EndOfBlock(p + |SymbolBits(lit, END_OF_BLOCK)|)
  {
    hide Written, SymbolBits, Symbol, Bounded, MatchStep;
    SymbolIsWritten(data, p, lit, END_OF_BLOCK);
  }

  /** What a token adds is what it describes. */
  lemma TokenDescribes(t: Token, out: seq<byte>, next: seq<byte>, all: seq<byte>, rest: seq<Token>)
    requires next <= all && Describe(rest, all, |next|)
    requires t.Byte? ==> next == out + [t.b]
    requires t.Match? ==>
               && IsLength(t.len, t.other) && IsDistance(t.back) && t.back <= |out| <= |next| == |out| + t.len
               && forall j :: |out| <= j < |next| ==> next[j] == next[j - t.back]
    ensures Describe([t] + rest, all, |out|)
  {
    assert ([t] + rest)[1..] == rest;
    assert forall j :: 0 <= j < |next| ==> all[j] == next[j];
  }

  /** A block that has been read has been written, from tokens that describe what it adds. */
  lemma {:induction false} BlockIsWritten(data: seq<byte>, p: nat, lit: seq<nat>, dist: seq<nat>, out: seq<byte>,
                                          limit: nat) returns (tokens: seq<Token>)
    requires Bounded(lit, 15) && Bounded(dist, 15) && CompressedBlock(data, p, lit, dist, out, limit).Accept?
    ensures AllWritable(lit, dist, tokens) && Written(data, p, BlockBits(lit, dist, tokens))
    ensures var r := CompressedBlock(data, p, lit, dist, out, limit);
            r.pos == p + |BlockBits(lit, dist, tokens)| && out <= r.out && Describe(tokens, r.out, |out|)
    decreases limit - |out|
  {
    hide Written, NextStep, SymbolBits, TokenBits, Writable, Bounded, CopyBack;
    var r := CompressedBlock(data, p, lit, dist, out, limit);
    var step := NextStep(data, p, lit, dist);
    if step.EndOfBlock? {
      EndIsWritten(data, p, lit, dist);
      tokens := [];
      assert out[..|out|] == out;
    } else {
      var t := TokenIsWritten(data, p, lit, dist);
      var here := TokenBits(lit, dist, t);
      var next := if step.Literal? then out + [step.b] else CopyBack(out, step.back, step.len);
      if step.Copy? { CopiedBytes(out, step.back, step.len); }
      var rest := BlockIsWritten(data, p + |here|, lit, dist, next, limit);
      tokens := [t] + rest;
      assert tokens[1..] == rest;
      WrittenJoin(data, p, here, BlockBits(lit, dist, rest));
      assert r.out[..|next|] == next;
      TokenDescribes(t, out, next, r.out, rest);
    }
  }

  // ----- code lengths

  /** A run that has been read has been written. */
  lemma RunIsWritten(data: seq<byte>, p: nat, sizes: seq<nat>, done: seq<nat>) returns (r: Run)
    requires Bounded(sizes, 15) && NextRun(data, p, sizes, done).Some?
    ensures IsRun(r) && HasCode(sizes, RunCode(r)) && Written(data, p, SymbolBits(sizes, RunCode(r)) + RunRest(r))
    ensures var n := NextRun(data, p, sizes, done).value;
            n.pos == p + |SymbolBits(sizes, RunCode(r)) + RunRest(r)| && RunAt(r, done + n.lens, |done|) &&
            |n.lens| == RunLength(r)
  {
    hide Written, SymbolBits, Symbol, Bounded, Take, LowFirst;
    var c := Symbol(sizes, data, p).value;
    SymbolIsWritten(data, p, sizes, c);
    var p1 := p + sizes[c];
    SmallPowers();
    if c < 16 {
      r := Size(c);
      assert SymbolBits(sizes, c) + [] == SymbolBits(sizes, c);
    } else if c == 16 {
      TakeBound(data, p1, 2);
      TakeIsWritten(data, p1, 2);
      r := Again(3 + Take(data, p1, 2));
      WrittenJoin(data, p, SymbolBits(sizes, c), RunRest(r));
    } else if c == 17 {
      TakeBound(data, p1, 3);
      TakeIsWritten(data, p1, 3);
      r := Zeros(3 + Take(data, p1, 3));
      WrittenJoin(data, p, SymbolBits(sizes, c), RunRest(r));
    } else {
      TakeBound(data, p1, 7);
      TakeIsWritten(data, p1, 7);
      r := ManyZeros(11 + Take(data, p1, 7));
      WrittenJoin(data, p, SymbolBits(sizes, c), RunRest(r));
    }
  }

  lemma RunKept(r: Run, done: seq<nat>, more: seq<nat>, all: seq<nat>)
    requires RunAt(r, done + more, |done|) && done + more <= all
    ensures RunAt(r, all, |done|)
  {
    assert forall j :: 0 <= j < |done + more| ==> all[j] == (done + more)[j];
  }

  /** What runs describe is at most 15. */
  lemma RunSmall(r: Run, done: seq<nat>, more: seq<nat>)
    requires RunAt(r, done + more, |done|) && |more| == RunLength(r) && Bounded(done, 15)
    ensures Bounded(done + more, 15)
  {
  }

  /** Code lengths that have been read have been written, as runs. */
  lemma {:induction false} RunsAreWritten(data: seq<byte>, p: nat, sizes: seq<nat>, done: seq<nat>, total: nat)
    returns (runs: seq<Run>)
    requires Bounded(sizes, 15) && Bounded(done, 15) && |done| <= total
    requires CodeLengths(data, p, sizes, done, total).Some?
    ensures RunsWritable(sizes, runs) && Written(data, p, RunsBits(sizes, runs))
    ensures var t := CodeLengths(data, p, sizes, done, total).value;
            && t.pos == p + |RunsBits(sizes, runs)| && done <= t.lens && Bounded(t.lens, 15)
            && RunsDescribe(runs, t.lens, |done|)
    decreases total - |done|
  {
    hide Written, NextRun, SymbolBits, RunRest, Bounded, RunAt, IsRun;
    var t := CodeLengths(data, p, sizes, done, total).value;
    if |done| == total {
      runs := [];
      NothingWritten(data, p);
    } else {
      var r := RunIsWritten(data, p, sizes, done);
      var n := NextRun(data, p, sizes, done).value;
      var here := SymbolBits(sizes, RunCode(r)) + RunRest(r);
      RunSmall(r, done, n.lens);
      var rest := RunsAreWritten(data, n.pos, sizes, done + n.lens, total);
      runs := [r] + rest;
      assert runs[1..] == rest;
      assert forall i :: 0 <= i < |rest| ==> runs[i + 1] == rest[i];
      WrittenJoin(data, p, here, RunsBits(sizes, rest));
      RunKept(r, done, n.lens, t.lens);
      assert done <= done + n.lens <= t.lens;
    }
  }

  // ----- headers

  lemma {:induction false} SizeAt(data: seq<byte>, p: nat, count: nat, c: nat)
    requires count <= 19 && c < 19
    ensures var k := Place(c);
            k < 19 && CodeLengthLens(data, p, count)[c] == if k < count then Take(data, p + 3 * k, 3) else 0
    decreases count
  {
    hide Take, CODE_LENGTH_ORDER, Order, Place;
    if count > 0 {
      OrderTable(count - 1);
      PlaceOfOrder(count - 1);
      SizeAt(data, p, count - 1, c);
    }
  }

  lemma {:induction false} SizesAreWritten(data: seq<byte>, p: nat, sizes: seq<nat>, count: nat)
    requires |sizes| == 19 && count <= 19
    requires forall k :: 0 <= k < count ==> sizes[Order(k)] == Take(data, p + 3 * k, 3)
    ensures Written(data, p, SizeBits(sizes, count))
    decreases count
  {
    hide Written, Take, Order, LowFirst;
    if count > 0 {
      PlaceOfOrder(count - 1);
      SizesAreWritten(data, p, sizes, count - 1);
      TakeIsWritten(data, p + 3 * (count - 1), 3);
      WrittenJoin(data, p, SizeBits(sizes, count - 1), LowFirst(sizes[Order(count - 1)], 3));
    } else {
      NothingWritten(data, p);
    }
  }

  /** The sizes that a header gives. */
  lemma SizesRead(data: seq<byte>, p: nat, count: nat)
    requires count <= 19
    ensures var sizes := CodeLengthLens(data, p, count);
            && Written(data, p, SizeBits(sizes, count)) && Bounded(sizes, 15)
            && forall i :: 0 <= i < 19 ==> sizes[i] < 8 && (Place(i) >= count ==> sizes[i] == 0)
  {
    hide Written, Take, Order, Place, CodeLengthLens, SizeBits;
    var sizes := CodeLengthLens(data, p, count);
    assert Pow2(3) == 8;
    forall i | 0 <= i < 19
      ensures sizes[i] < 8 && (Place(i) >= count ==> sizes[i] == 0)
    {
      SizeAt(data, p, count, i);
      TakeBound(data, p + 3 * Place(i), 3);
    }
    forall k | 0 <= k < count
      ensures Order(k) < 19 && sizes[Order(k)] == Take(data, p + 3 * k, 3)
    {
      PlaceOfOrder(k);
      SizeAt(data, p, count, Order(k));
    }
    SizesAreWritten(data, p, sizes, count);
  }

  /** A header that has been read has been written. */
  lemma HeaderIsWritten(data: seq<byte>, p: nat) returns (t: InflateHeader.Tables)
    requires DynamicTables(data, p).Some?
    ensures IsTables(t) && Written(data, p, HeaderBits(t)) && Bounded(t.lit, 15) && Bounded(t.dist, 15)
    ensures DynamicTables(data, p) == Some(InflateSpec.Tables(p + |HeaderBits(t)|, t.lit, t.dist))
  {
    hide Written, Take, CodeLengthLens, CodeLengths, Fits, LowFirst, SizeBits, RunsBits, RunsDescribe, RunsWritable;
    var hlit, hdist, hclen := Take(data, p, 5) + 257, Take(data, p + 5, 5) + 1, Take(data, p + 10, 4) + 4;
    SmallPowers();
    TakeBound(data, p, 5);
    TakeBound(data, p + 5, 5);
    TakeBound(data, p + 10, 4);
    SizesRead(data, p + 14, hclen);
    var sizes := CodeLengthLens(data, p + 14, hclen);
    var runs := RunsAreWritten(data, p + 14 + 3 * hclen, sizes, [], hlit + hdist);
    var lens := CodeLengths(data, p + 14 + 3 * hclen, sizes, [], hlit + hdist).value.lens;
    assert lens[..hlit] + lens[hlit..] == lens;
    t := InflateHeader.Tables(sizes, hclen, runs, lens[..hlit], lens[hlit..]);
    TakeIsWritten(data, p, 5);
    TakeIsWritten(data, p + 5, 5);
    TakeIsWritten(data, p + 10, 4);
    var a, b, c := LowFirst(hlit - 257, 5), LowFirst(hdist - 1, 5), LowFirst(hclen - 4, 4);
    var d, e := SizeBits(sizes, hclen), RunsBits(sizes, runs);
    WrittenJoin(data, p, a, b);
    WrittenJoin(data, p, a + b, c);
    WrittenJoin(data, p + 14, d, e);
    WrittenJoin(data, p, a + b + c, d + e);
  }

  // ----- parts

  lemma {:induction false} BytesAreWritten(data: seq<byte>, q: nat, bs: seq<byte>)
    requires forall i :: 0 <= i < |bs| ==> ByteAt(data, q + i) == bs[i]
    ensures Written(data, 8 * q, BytesBits(bs))
    decreases |bs|
  {
    hide Written, ByteAt, LowFirst;
    if bs == [] {
      NothingWritten(data, 8 * q);
    } else {
      assert ByteAt(data, q + 0) == bs[0];
      TakeByte(data, q);
      TakeIsWritten(data, 8 * q, 8);
      forall i | 0 <= i < |bs| - 1
        ensures ByteAt(data, q + 1 + i) == bs[1..][i]
      {
        assert ByteAt(data, q + (i + 1)) == bs[i + 1];
      }
      BytesAreWritten(data, q + 1, bs[1..]);
      assert 8 * (q + 1) == 8 * q + 8;
      WrittenJoin(data, 8 * q, LowFirst(bs[0], 8), BytesBits(bs[1..]));
    }
  }

  /** The bits from p up to e. */
  function BitsFrom(data: seq<byte>, p: nat, e: nat): (r: seq<bit>)
    requires p <= e
    ensures |r| == e - p
    decreases e - p
  {
    if p == e then []
    else
      var b: bit := StreamBit(data, p);
      [b] + BitsFrom(data, p + 1, e)
  }

  lemma {:induction false} BitsFromWritten(data: seq<byte>, p: nat, e: nat)
    requires p <= e
    ensures Written(data, p, BitsFrom(data, p, e))
    decreases e - p
  {
    hide StreamBit;
    if p < e {
      BitsFromWritten(data, p + 1, e);
      var b: bit := StreamBit(data, p);
      assert Written(data, p, [b]) by { assert StreamBit(data, p + 0) == b; }
      WrittenJoin(data, p, [b], BitsFrom(data, p + 1, e));
    }
  }

  lemma TwoBytes(a: byte, b: byte)
    ensures (a + 256 * (b as nat)) % 256 == a && (a + 256 * (b as nat)) / 256 == b
  {
  }

  /** What an accepted stored block consists of. */
  lemma StoredParts(data: seq<byte>, p: nat, out: seq<byte>, limit: nat) returns (q: nat, n: nat, all: seq<byte>)
    requires StoredBlock(data, p, out, limit).Accept?
    ensures p <= 8 * q < p + 8 && n <= 0xFFFF && q + 4 + n <= |data| && |all| == 4 + n
    ensures all == [n % 256, n / 256, (0xFFFF - n) % 256, (0xFFFF - n) / 256] + data[q + 4..q + 4 + n]
    ensures forall i :: 0 <= i < |all| ==> ByteAt(data, q + i) == all[i]
    ensures StoredBlock(data, p, out, limit) == Accept(8 * (q + 4 + n), out + data[q + 4..q + 4 + n])
  {
    q := AlignUp(p);
    n := ByteAt(data, q) + 256 * ByteAt(data, q + 1);
    TwoBytes(ByteAt(data, q), ByteAt(data, q + 1));
    TwoBytes(ByteAt(data, q + 2), ByteAt(data, q + 3));
    var bytes := data[q + 4..q + 4 + n];
    all := [n % 256, n / 256, (0xFFFF - n) % 256, (0xFFFF - n) / 256] + bytes;
    forall i | 0 <= i < |all|
      ensures ByteAt(data, q + i) == all[i]
    {
      if i >= 4 { assert all[i] == bytes[i - 4] == data[q + i]; }
    }
  }

  lemma StoredIsWritten(data: seq<byte>, p: nat, out: seq<byte>, limit: nat) returns (part: Part)
    requires StoredBlock(data, p + 3, out, limit).Accept?
    ensures part.Stored? && PartWritable(part) && PartAligned(part, p) && Written(data, p + 3, Body(part))
    ensures StoredBlock(data, p + 3, out, limit) == Accept(p + 3 + |Body(part)|, out + part.bytes)
  {
    hide Written, StreamBit, BytesBits, StoredBlock, ByteAt, BitsFrom;
    var q, n, all := StoredParts(data, p + 3, out, limit);
    var pad := BitsFrom(data, p + 3, 8 * q);
    part := Stored(pad, data[q + 4..q + 4 + n]);
    BitsFromWritten(data, p + 3, 8 * q);
    BytesAreWritten(data, q, all);
    WrittenJoin(data, p + 3, pad, BytesBits(all));
  }

  lemma FixedIsWritten(data: seq<byte>, p: nat, out: seq<byte>, limit: nat) returns (part: Part)
    requires CompressedBlock(data, p, FixedLit(), FixedDist(), out, limit).Accept?
    ensures part.Fixed? && PartWritable(part) && Written(data, p, Body(part))
    ensures var r := CompressedBlock(data, p, FixedLit(), FixedDist(), out, limit);
            r.pos == p + |Body(part)| && out <= r.out && PartDescribes(part, r.out, |out|, |r.out|)
  {
    hide Written, CompressedBlock, BlockBits, AllWritable, Describe, FixedLit, FixedDist, Fits, Bounded;
    Inflate.FixedTablesFit();
    var tokens := BlockIsWritten(data, p, FixedLit(), FixedDist(), out, limit);
    part := Fixed(tokens);
    var r := CompressedBlock(data, p, FixedLit(), FixedDist(), out, limit);
    assert r.out[..|r.out|] == r.out;
  }

  lemma DynamicIsWritten(data: seq<byte>, p: nat, out: seq<byte>, limit: nat) returns (part: Part)
    requires BlockOfType(data, 2, p, out, limit).Accept?
    ensures part.Dynamic? && PartWritable(part) && Written(data, p, Body(part))
    ensures var r := BlockOfType(data, 2, p, out, limit);
            r.pos == p + |Body(part)| && out <= r.out && PartDescribes(part, r.out, |out|, |r.out|)
  {
    hide Written, CompressedBlock, DynamicTables, HeaderBits, BlockBits, AllWritable, Describe, IsTables, Bounded;
    var t := HeaderIsWritten(data, p);
    var h := HeaderBits(t);
    var tokens := BlockIsWritten(data, p + |h|, t.lit, t.dist, out, limit);
    part := Dynamic(t, tokens);
    WrittenJoin(data, p, h, BlockBits(t.lit, t.dist, tokens));
    var r := CompressedBlock(data, p + |h|, t.lit, t.dist, out, limit);
    assert r.out[..|r.out|] == r.out;
  }

  /** A block that has been read has been written as some part, which stands for what it adds. */
  lemma PartIsWritten(data: seq<byte>, p: nat, out: seq<byte>, limit: nat) returns (part: Part)
    requires Block(data, p, out, limit).Accept?
    ensures PartWritable(part) && PartAligned(part, p)
    ensures Written(data, p, PartBits(part, StreamBit(data, p) == 1))
    ensures var r := Block(data, p, out, limit);
            && r.pos == p + 3 + |Body(part)| && out <= r.out && PartDescribes(part, r.out, |out|, |r.out|)
            && |r.out| == |out| + PartSpread(part)
  {
    hide Written, StoredBlock, CompressedBlock, DynamicTables, StreamBit, Take, Body, FixedLit, FixedDist, Describe;
    hide PartBits, PartWritable;
    var type_ := Take(data, p + 1, 2);
    if type_ == 0 {
      part := StoredIsWritten(data, p, out, limit);
      assert (out + part.bytes)[|out|..] == part.bytes;
    } else if type_ == 1 {
      part := FixedIsWritten(data, p + 3, out, limit);
    } else {
      part := DynamicIsWritten(data, p + 3, out, limit);
    }
    HeaderBitsWritten(data, p, part);
    var all := Block(data, p, out, limit).out;
    assert all[..|all|] == all;
    if !part.Stored? { SpreadIs(part.tokens, all, |out|); }
  }

  /** Tokens describe as many bytes as they stand for. */
  lemma {:induction false} SpreadIs(tokens: seq<Token>, all: seq<byte>, k: nat)
    requires Describe(tokens, all, k)
    ensures |all| == k + Spread(tokens)
    decreases |tokens|
  {
    if tokens != [] { SpreadIs(tokens[1..], all, k + if tokens[0].Byte? then 1 else tokens[0].len); }
  }

  lemma PartKept(part: Part, out: seq<byte>, all: seq<byte>, k: nat)
    requires out <= all && k <= |out| && PartDescribes(part, out, k, |out|)
    ensures PartDescribes(part, all, k, |out|)
  {
    hide Describe;
    assert all[..|out|] == out == out[..|out|];
    assert all[k..|out|] == out[k..];
  }

  lemma PartLength(part: Part, last: bool)
    requires PartWritable(part)
    ensures |PartBits(part, last)| == 3 + |Body(part)|
  {
    hide Body;
  }

  lemma HeaderBitsWritten(data: seq<byte>, p: nat, part: Part)
    requires PartWritable(part) && Take(data, p + 1, 2) == TypeOf(part) && Written(data, p + 3, Body(part))
    ensures Written(data, p, PartBits(part, StreamBit(data, p) == 1))
  {
    hide Take, Body, LowFirst, StreamBit, PartWritable;
    TakeIsWritten(data, p + 1, 2);
    var a, b := [if StreamBit(data, p) == 1 then 1 else 0], LowFirst(TypeOf(part), 2);
    assert Written(data, p, a) by { assert StreamBit(data, p + 0) == a[0]; }
    WrittenJoin(data, p, a, b);
    WrittenJoin(data, p, a + b, Body(part));
  }

  // ----- streams

  /** The stream has been written for `out`: a header, if any, and the parts, and there may be anything behind them. */
  ghost predicate WrittenFor(data: seq<byte>, header: bool, parts: seq<Part>, out: seq<byte>) {
    var p := if header then 16 else 0;
    && (header ==> |data| >= 2 && IsZlibHeader(data[..2]))
    && parts != [] && AllPartsWritable(parts) && AllAligned(parts, p) && PartsDescribe(parts, out, 0)
    && Written(data, p, StreamBits(parts)) && p + |StreamBits(parts)| <= 8 * |data|
  }

  /** Blocks that have been read have been written as parts. */
  lemma {:induction false} BlocksAreWritten(data: seq<byte>, p: nat, out: seq<byte>, limit: nat)
    returns (parts: seq<Part>)
    requires Blocks(data, p, out, limit).Accept?
    ensures parts != [] && AllPartsWritable(parts) && AllAligned(parts, p) && Written(data, p, StreamBits(parts))
    ensures var r := Blocks(data, p, out, limit);
            r.pos == p + |StreamBits(parts)| && out <= r.out && PartsDescribe(parts, r.out, |out|)
    decreases 8 * |data| - p
  {
    hide Written, Block, PartBits, StreamBit, PartWritable, PartDescribes, Body, PartAligned;
    var b, r := Block(data, p, out, limit), Blocks(data, p, out, limit);
    var part := PartIsWritten(data, p, out, limit);
    var last := StreamBit(data, p) == 1;
    var here := PartBits(part, last);
    PartLength(part, last);
    assert Written(data, p, here);
    if last {
      parts := [part];
      assert here + [] == here && b.out[..|b.out|] == b.out;
    } else {
      var rest := BlocksAreWritten(data, p + |here|, b.out, limit);
      parts := [part] + rest;
      assert parts[1..] == rest;
      WrittenJoin(data, p, here, StreamBits(rest));
      PartKept(part, b.out, r.out, |out|);
    }
  }

  /** A stream is a valid one for some bytes if and only if it has been written for them. */
  lemma ValidIffWritten(data: seq<byte>, header: bool, out: seq<byte>)
    ensures DecodesTo(data, header, out) <==> exists parts: seq<Part> :: WrittenFor(data, header, parts, out)
  {
    hide Blocks, StreamBits, AllPartsWritable, AllAligned, PartsDescribe, Written, Header;
    var p := if header then 16 else 0;
    HeaderAccepted(data);
    if DecodesTo(data, header, out) {
      var limit: nat :| DecodesWithin(data, header, out, limit);
      var parts := BlocksAreWritten(data, p, [], limit);
      assert WrittenFor(data, header, parts, out);
    }
    if exists parts: seq<Part> :: WrittenFor(data, header, parts, out) {
      var parts: seq<Part> :| WrittenFor(data, header, parts, out);
      assert out[..0] == [];
      PartsWritten(data, p, parts, out, 0, |out|);
      assert DecodesWithin(data, header, out, |out|);
    }
  }
}
