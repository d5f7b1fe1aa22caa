/**
 The code lengths of a block as a writer puts them in front of it: the sizes of
 the code length codes in their order, and runs of lengths (section 3.2.7 of RFC
 1951); and the values of the fixed codes (section 3.2.6).
 */
module InflateHeader {
  import opened BitStream
  import opened BitWriter
  import opened Bits
  import opened Canonical
  import opened CodeCounts
  import opened Common
  import opened InflateSpec
  import opened InflateTokens

  // ----- the fixed codes

  /** Four ranges of symbols, each with consecutive codes of one length. */
  lemma FixedLitCode(s: nat)
    requires s < 288
    ensures s < 144 ==> FixedLit()[s] == 8 && Code(FixedLit(), s) == 0x30 + s
    ensures 144 <= s < 256 ==> FixedLit()[s] == 9 && Code(FixedLit(), s) == 0x190 + (s - 144)
    ensures 256 <= s < 280 ==> FixedLit()[s] == 7 && Code(FixedLit(), s) == s - 256
    ensures 280 <= s ==> FixedLit()[s] == 8 && Code(FixedLit(), s) == 0xC0 + (s - 280)
  {
    hide Count, Repeat;
    FixedLitStarts();
    var f := FixedLit();
    var a, b, c, d := Least(s, 144), Least(s, 256), Least(s, 280), s;
    var l := f[s];
    assert f[..s] == Repeat(8, a) + Repeat(9, b - a) + Repeat(7, c - b) + Repeat(8, d - c) by {
      FixedLitRanges(s);
    }
    CountJoin(Repeat(8, a) + Repeat(9, b - a) + Repeat(7, c - b), Repeat(8, d - c), l);
    CountJoin(Repeat(8, a) + Repeat(9, b - a), Repeat(7, c - b), l);
    CountJoin(Repeat(8, a), Repeat(9, b - a), l);
    CountRepeat(8, a, l);
    CountRepeat(9, b - a, l);
    CountRepeat(7, c - b, l);
    CountRepeat(8, d - c, l);
  }

  function Least(a: nat, b: nat): nat { if a < b then a else b }

  lemma FixedLitRanges(s: nat)
    requires s <= 288
    ensures var a, b, c := Least(s, 144), Least(s, 256), Least(s, 280);
            FixedLit()[..s] == Repeat(8, a) + Repeat(9, b - a) + Repeat(7, c - b) + Repeat(8, s - c)
  {
  }

  lemma FixedLitStarts()
    ensures FirstCode(FixedLit(), 7) == 0 && FirstCode(FixedLit(), 8) == 0x30 && FirstCode(FixedLit(), 9) == 0x190
  {
    hide Count, FixedLit;
    var f := FixedLit();
    forall l: nat
      ensures Count(f, l) == if l == 7 then 24 else if l == 8 then 152 else if l == 9 then 112 else 0
    {
      FixedLitCounts(l);
    }
    NoShorterCodes(f, 7, 7);
  }

  lemma FixedLitCounts(l: nat)
    ensures Count(FixedLit(), l) == if l == 7 then 24 else if l == 8 then 152 else if l == 9 then 112 else 0
  {
    hide Count;
    FixedLitRanges(288);
    assert FixedLit()[..288] == FixedLit();
    CountJoin(Repeat(8, 144) + Repeat(9, 112) + Repeat(7, 24), Repeat(8, 8), l);
    CountJoin(Repeat(8, 144) + Repeat(9, 112), Repeat(7, 24), l);
    CountJoin(Repeat(8, 144), Repeat(9, 112), l);
    CountRepeat(8, 144, l);
    CountRepeat(9, 112, l);
    CountRepeat(7, 24, l);
    CountRepeat(8, 8, l);
  }

  /** Distances are five-bit numbers. */
  lemma FixedDistCode(d: nat)
    requires d < 32
    ensures FixedDist()[d] == 5 && Code(FixedDist(), d) == d
  {
    hide Count;
    forall l: nat
      ensures Count(FixedDist(), l) == if l == 5 then 32 else 0
    {
      CountRepeat(5, 32, l);
    }
    NoShorterCodes(FixedDist(), 5, 5);
    assert FixedDist()[..d] == Repeat(5, d);
    CountRepeat(5, d, 5);
  }

  // ----- the sizes of the code length codes

  /** The repeat codes and zero first, then the lengths from the middle one outwards. */
  function Order(k: nat): nat
    requires k < 19
  {
    if k < 3 then 16 + k
    else if k == 3 then 0
    else if k % 2 == 0 then 8 + (k - 4) / 2
    else 8 - (k - 3) / 2
  }

  /** Where the size of code c is written. */
  function Place(c: nat): (k: nat)
    requires c < 19
    ensures k < 19 && Order(k) == c
  {
    if c == 0 then 3 else if c >= 16 then c - 16 else if c >= 8 then 2 * c - 12 else 19 - 2 * c
  }

  lemma OrderTable(k: nat)
    requires k < 19
    ensures |CODE_LENGTH_ORDER| == 19 && CODE_LENGTH_ORDER[k] == Order(k)
  {
  }

  lemma PlaceOfOrder(k: nat)
    requires k < 19
    ensures Order(k) < 19 && Place(Order(k)) == k
  {
  }

  function SizeBits(sizes: seq<nat>, count: nat): (r: seq<bit>)
    requires |sizes| == 19 && count <= 19
    ensures |r| == 3 * count
  {
    if count == 0 then [] else SizeBits(sizes, count - 1) + LowFirst(sizes[Order(count - 1)], 3)
  }

  lemma {:induction false} SizesWritten(data: seq<byte>, p: nat, sizes: seq<nat>, count: nat, c: nat)
    requires |sizes| == 19 && count <= 19 && c < 19 && forall i :: 0 <= i < 19 ==> sizes[i] < 8
    requires Written(data, p, SizeBits(sizes, count))
    ensures CodeLengthLens(data, p, count)[c] == if Place(c) < count then sizes[c] else 0
    decreases count
  {
    hide Written, Take, CODE_LENGTH_ORDER, Order, Place, LowFirst;
    if count > 0 {
      var k := Order(count - 1);
      PlaceOfOrder(count - 1);
      OrderTable(count - 1);
      WrittenJoin(data, p, SizeBits(sizes, count - 1), LowFirst(sizes[k], 3));
      SizesWritten(data, p, sizes, count - 1, c);
      assert Pow2(3) == 8;
      TakeWritten(data, p + 3 * (count - 1), sizes[k], 3);
    }
  }

  // ----- runs of code lengths

  datatype Run = Size(n: nat) | Again(n: nat) | Zeros(n: nat) | ManyZeros(n: nat)

  predicate IsRun(r: Run) {
    match r
    case Size(n) => n < 16
    case Again(n) => 3 <= n <= 6
    case Zeros(n) => 3 <= n <= 10
    case ManyZeros(n) => 11 <= n <= 138
  }

  function RunLength(r: Run): nat { if r.Size? then 1 else r.n }

  function RunCode(r: Run): nat {
    match r
    case Size(n) => n
    case Again(_) => 16
    case Zeros(_) => 17
    case ManyZeros(_) => 18
  }

  /** How many of a run there are, above the fewest: in two, three or seven bits. */
  function RunRest(r: Run): seq<bit>
    requires IsRun(r)
  {
    match r
    case Size(_) => []
    case Again(n) => LowFirst(n - 3, 2)
    case Zeros(n) => LowFirst(n - 3, 3)
    case ManyZeros(n) => LowFirst(n - 11, 7)
  }

  /** The run is what stands in `lens` at k. */
  ghost predicate RunAt(r: Run, lens: seq<nat>, k: nat) {
    && IsRun(r) && k + RunLength(r) <= |lens|
    && (r.Size? ==> lens[k] == r.n)
    && (r.Again? ==> k > 0 && forall j :: k <= j < k + r.n ==> lens[j] == lens[k - 1])
    && (r.Zeros? || r.ManyZeros? ==> forall j :: k <= j < k + r.n ==> lens[j] == 0)
  }

  ghost predicate RunsDescribe(runs: seq<Run>, lens: seq<nat>, k: nat) {
    if runs == [] then k == |lens| else RunAt(runs[0], lens, k) && RunsDescribe(runs[1..], lens, k + RunLength(runs[0]))
  }

  predicate RunsWritable(sizes: seq<nat>, runs: seq<Run>) {
    forall i :: 0 <= i < |runs| ==> IsRun(runs[i]) && HasCode(sizes, RunCode(runs[i]))
  }

  function RunsBits(sizes: seq<nat>, runs: seq<Run>): seq<bit>
    requires RunsWritable(sizes, runs)
  {
    if runs == [] then [] else SymbolBits(sizes, RunCode(runs[0])) + RunRest(runs[0]) + RunsBits(sizes, runs[1..])
  }

  lemma IsRepeat(lens: seq<nat>, k: nat, n: nat, x: nat)
    requires k + n <= |lens| && forall j :: k <= j < k + n ==> lens[j] == x
    ensures lens[k..k + n] == Repeat(x, n)
  {
  }

  lemma RunWritten(data: seq<byte>, p: nat, sizes: seq<nat>, r: Run, lens: seq<nat>, k: nat)
    requires RunAt(r, lens, k) && HasCode(sizes, RunCode(r)) && Fits(sizes, 15)
    requires Written(data, p, SymbolBits(sizes, RunCode(r)) + RunRest(r))
    ensures NextRun(data, p, sizes, lens[..k]) ==
            Some(Lengths(p + |SymbolBits(sizes, RunCode(r))| + |RunRest(r)|, lens[k..k + RunLength(r)]))
  {
    hide Written, Symbol, SymbolBits, Fits, Take, LowFirst, Repeat;
    var c := RunCode(r);
    WrittenJoin(data, p, SymbolBits(sizes, c), RunRest(r));
    SymbolWritten(data, p, sizes, c);
    BitsOf(sizes, c);
    var p1 := p + sizes[c];
    SmallPowers();
    if r.Again? {
      TakeWritten(data, p1, r.n - 3, 2);
      assert lens[..k][k - 1] == lens[k - 1];
      IsRepeat(lens, k, r.n, lens[k - 1]);
    } else if r.Zeros? {
      TakeWritten(data, p1, r.n - 3, 3);
      IsRepeat(lens, k, r.n, 0);
    } else if r.ManyZeros? {
      TakeWritten(data, p1, r.n - 11, 7);
      IsRepeat(lens, k, r.n, 0);
    } else {
      assert lens[k..k + 1] == [lens[k]];
    }
  }

  /** Runs are read as the lengths that they describe. */
  lemma {:induction false} RunsWritten(data: seq<byte>, p: nat, sizes: seq<nat>, runs: seq<Run>, lens: seq<nat>, k: nat)
    requires RunsWritable(sizes, runs) && Fits(sizes, 15) && k <= |lens| && RunsDescribe(runs, lens, k)
    requires Written(data, p, RunsBits(sizes, runs))
    ensures CodeLengths(data, p, sizes, lens[..k], |lens|) == Some(Lengths(p + |RunsBits(sizes, runs)|, lens))
    decreases |runs|
  {
    hide Written, NextRun, SymbolBits, RunRest, Fits;
    if runs == [] {
      assert lens[..k] == lens;
    } else {
      var r := runs[0];
      var here := SymbolBits(sizes, RunCode(r)) + RunRest(r);
      WrittenJoin(data, p, here, RunsBits(sizes, runs[1..]));
      RunWritten(data, p, sizes, r, lens, k);
      assert lens[..k] + lens[k..k + RunLength(r)] == lens[..k + RunLength(r)];
      RunsWritten(data, p + |here|, sizes, runs[1..], lens, k + RunLength(r));
    }
  }

  // ----- the whole header

  /** Sizes of the code length codes, how many of them are written, and the runs. */
  datatype Tables = Tables(sizes: seq<nat>, count: nat, runs: seq<Run>, lit: seq<nat>, dist: seq<nat>)

  ghost predicate IsTables(t: Tables) {
    && |t.sizes| == 19 && 4 <= t.count <= 19 && Fits(t.sizes, 15)
    && (forall i :: 0 <= i < 19 ==> t.sizes[i] < 8 && (Place(i) >= t.count ==> t.sizes[i] == 0))
    && 257 <= |t.lit| <= 288 && 1 <= |t.dist| <= 32 && Fits(t.lit, 15) && Fits(t.dist, 15)
    && RunsWritable(t.sizes, t.runs) && RunsDescribe(t.runs, t.lit + t.dist, 0)
  }

  ghost function HeaderBits(t: Tables): seq<bit>
    requires IsTables(t)
  {
    LowFirst(|t.lit| - 257, 5) + LowFirst(|t.dist| - 1, 5) + LowFirst(t.count - 4, 4) +
    (SizeBits(t.sizes, t.count) + RunsBits(t.sizes, t.runs))
  }

  /** A written header is read as the code lengths that it was written for. */
  lemma HeaderWritten(data: seq<byte>, p: nat, t: Tables)
    requires IsTables(t) && Written(data, p, HeaderBits(t))
    ensures DynamicTables(data, p) == Some(InflateSpec.Tables(p + |HeaderBits(t)|, t.lit, t.dist))
  {
    hide Written, Take, CodeLengthLens, CodeLengths, Fits, LowFirst, SizeBits, RunsBits;
    var a, b, c := LowFirst(|t.lit| - 257, 5), LowFirst(|t.dist| - 1, 5), LowFirst(t.count - 4, 4);
    var d, e := SizeBits(t.sizes, t.count), RunsBits(t.sizes, t.runs);
    WrittenJoin(data, p, a + b + c, d + e);
    WrittenJoin(data, p, a + b, c);
    WrittenJoin(data, p, a, b);
    WrittenJoin(data, p + 14, d, e);
    SmallPowers();
    TakeWritten(data, p, |t.lit| - 257, 5);
    TakeWritten(data, p + 5, |t.dist| - 1, 5);
    TakeWritten(data, p + 10, t.count - 4, 4);
    forall i | 0 <= i < 19
      ensures CodeLengthLens(data, p + 14, t.count)[i] == t.sizes[i]
    {
      SizesWritten(data, p + 14, t.sizes, t.count, i);
    }
    assert CodeLengthLens(data, p + 14, t.count) == t.sizes;
    var both := t.lit + t.dist;
    assert both[..0] == [];
    RunsWritten(data, p + 14 + 3 * t.count, t.sizes, t.runs, both, 0);
    assert both[..|t.lit|] == t.lit && both[|t.lit|..] == t.dist;
  }
}
