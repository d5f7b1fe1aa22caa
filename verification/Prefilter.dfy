/**
 stbtt__h_prefilter and stbtt__v_prefilter: a box filter in place, with a ring
 buffer of the last samples and a running total.
 */
module Prefilter {
  import opened Bits

  const MAX_OVERSAMPLE: nat := 8

  // ----- the box filter

  function Sum(s: seq<byte>): nat {
    if s == [] then 0 else Sum(s[..|s| - 1]) + s[|s| - 1]
  }

  /** The k samples up to position i, fewer at the start of the line. */
  function Window(line: seq<byte>, k: nat, i: nat): seq<byte>
    requires i < |line| && k > 0
  {
    line[if i + 1 < k then 0 else i + 1 - k..i + 1]
  }

  /** The filtered sample: a k-th of the window's sum. */
  function Box(line: seq<byte>, k: nat, i: nat): nat
    requires i < |line| && k > 0
  {
    Sum(Window(line, k, i)) / k
  }

  lemma {:induction false} SumFront(s: seq<byte>)
    requires s != []
    ensures Sum(s) == s[0] + Sum(s[1..])
  {
    if |s| > 1 {
      SumFront(s[..|s| - 1]);
      assert s[1..][..|s| - 2] == s[..|s| - 1][1..];
    }
  }

  lemma {:induction false} SumBound(s: seq<byte>)
    ensures Sum(s) <= 255 * |s|
  {
    if s != [] { SumBound(s[..|s| - 1]); }
  }

  /** The window moves on by one: the new sample comes in, the one k before it goes. */
  lemma WindowMoves(line: seq<byte>, k: nat, i: nat)
    requires 0 < k && i < |line|
    ensures Sum(Window(line, k, i)) ==
            (if i == 0 then 0 else Sum(Window(line, k, i - 1))) + line[i] - (if i < k then 0 else line[i - k])
  {
    hide Sum;
    var lo := if i + 1 < k then 0 else i + 1 - k;
    assert Window(line, k, i) == line[lo..i] + [line[i]];
    SumSnoc(line[lo..i], line[i]);
    if i == 0 {
      SumNone();
      assert line[lo..i] == [];
    } else if i < k {
      assert Window(line, k, i - 1) == line[lo..i];
    } else {
      assert Window(line, k, i - 1) == line[lo - 1..i];
      SumFront(line[lo - 1..i]);
      assert line[lo - 1..i][1..] == line[lo..i];
    }
  }

  lemma SumNone()
    ensures Sum([]) == 0
  {
  }

  lemma SumSnoc(s: seq<byte>, x: byte)
    ensures Sum(s + [x]) == Sum(s) + x
  {
    assert (s + [x])[..|s|] == s;
  }

  lemma BoxFits(line: seq<byte>, k: nat, i: nat)
    requires i < |line| && 0 < k <= MAX_OVERSAMPLE
    ensures Sum(Window(line, k, i)) <= 2040 && Box(line, k, i) < 256
  {
    var w := Window(line, k, i);
    SumBound(w);
    assert Sum(w) <= 255 * k;
    assert Sum(w) / k <= 255 by { DivBound(Sum(w), k, 255); }
  }

  lemma DivBound(n: nat, k: nat, b: nat)
    requires k > 0 && n <= b * k
    ensures n / k <= b
  {
    var q := n / k;
    assert q * k <= n;
    assert q > b ==> q * k >= (b + 1) * k == b * k + k;
  }

  /** The running total before sample i. */
  ghost function Total(line: seq<byte>, k: nat, i: nat): nat
    requires i <= |line| && k > 0
  {
    if i == 0 then 0 else Sum(Window(line, k, i - 1))
  }

  /** The unsigned update of the total never wraps and gives the next window's sum, of which a k-th fits a byte. */
  lemma TotalMoves(line: seq<byte>, k: nat, i: nat, leaving: byte)
    requires i < |line| && 0 < k <= MAX_OVERSAMPLE && leaving == if i < k then 0 else line[i - k]
    ensures (Total(line, k, i) + line[i] - leaving) % 0x1_0000_0000 == Total(line, k, i + 1)
    ensures Total(line, k, i + 1) / k % 256 == Box(line, k, i) < 256
  {
    hide Sum, Window;
    WindowMoves(line, k, i);
    BoxFits(line, k, i);
  }

  // ----- one line

  /** Where sample i of the line is. */
  function Place(start: nat, step: nat, i: nat): nat { start + i * step }

  ghost predicate OnLine(start: nat, step: nat, len: nat, q: nat) {
    exists i :: 0 <= i < len && q == Place(start, step, i)
  }

  /** The line's samples lie inside, at different places. */
  ghost predicate LineFits(length: nat, start: nat, step: nat, len: nat) {
    step > 0 && forall i :: 0 <= i < len ==> Place(start, step, i) < length
  }

  lemma PlacesDiffer(start: nat, step: nat, i: nat, j: nat)
    requires step > 0 && i < j
    ensures Place(start, step, i) < Place(start, step, j)
  {
    assert j * step == i * step + (j - i) * step && (j - i) * step > 0;
  }

  /** The samples of a line. */
  function Line(pixels: seq<byte>, start: nat, step: nat, len: nat): (r: seq<byte>)
    requires LineFits(|pixels|, start, step, len)
    ensures |r| == len
  {
    seq(len, i requires 0 <= i < len => pixels[Place(start, step, i)])
  }

  /** The ring buffer holds the samples of the last k positions before i where they will be needed. */
  ghost predicate Ring(buffer: seq<byte>, line: seq<byte>, k: nat, i: nat) {
    && |buffer| == MAX_OVERSAMPLE && i <= |line|
    && forall q :: i <= q < i + k && q < |line| ==> buffer[q % 8] == if q < k then 0 else line[q - k]
  }

  lemma RingStart(buffer: seq<byte>, line: seq<byte>, k: nat)
    requires |buffer| == MAX_OVERSAMPLE && 0 < k <= MAX_OVERSAMPLE && forall q :: 0 <= q < k ==> buffer[q] == 0
    ensures Ring(buffer, line, k, 0)
  {
  }

  lemma RingAt(buffer: seq<byte>, line: seq<byte>, k: nat, i: nat)
    requires Ring(buffer, line, k, i) && 0 < k && i < |line|
    ensures buffer[i % 8] == if i < k then 0 else line[i - k]
  {
  }

  /** The new sample takes the place of the one that has just left the window. */
  lemma RingMoves(buffer: seq<byte>, line: seq<byte>, k: nat, i: nat)
    requires Ring(buffer, line, k, i) && 0 < k <= MAX_OVERSAMPLE && i < |line|
    ensures Ring(buffer[(i + k) % 8 := line[i]], line, k, i + 1)
    ensures i + k >= |line| ==> Ring(buffer, line, k, i + 1)
  {
    var next := buffer[(i + k) % 8 := line[i]];
    forall q | i + 1 <= q < i + 1 + k && q < |line|
      ensures next[q % 8] == if q < k then 0 else line[q - k]
    {
      if q < i + k { SlotsDiffer(q, i + k); }
    }
  }

  lemma SlotsDiffer(q: nat, r: nat)
    requires q < r < q + 8
    ensures q % 8 != r % 8
  {
  }

  /** The first i samples of the line are filtered, everything else is as it was. */
  ghost predicate Progress(pix: seq<byte>, was: seq<byte>, start: nat, step: nat, len: nat, k: nat, i: nat) {
    && |pix| == |was| && LineFits(|was|, start, step, len) && k > 0
    && (forall q :: 0 <= q < len ==>
          pix[Place(start, step, q)] == if q < i then Box(Line(was, start, step, len), k, q)
            else was[Place(start, step, q)])
    && (forall q :: 0 <= q < |pix| && !OnLine(start, step, len, q) ==> pix[q] == was[q])
  }

  lemma ProgressStart(was: seq<byte>, start: nat, step: nat, len: nat, k: nat)
    requires LineFits(|was|, start, step, len) && k > 0
    ensures Progress(was, was, start, step, len, k, 0)
  {
  }

  lemma ProgressStep(pix: seq<byte>, was: seq<byte>, start: nat, step: nat, len: nat, k: nat, i: nat)
    requires Progress(pix, was, start, step, len, k, i) && i < len && k <= MAX_OVERSAMPLE
    ensures Place(start, step, i) < |pix| && pix[Place(start, step, i)] == Line(was, start, step, len)[i]
    ensures Box(Line(was, start, step, len), k, i) < 256
    ensures Progress(pix[Place(start, step, i) := Box(Line(was, start, step, len), k, i)], was, start, step, len, k,
        i + 1)
  {
    hide Box, Place;
    var line := Line(was, start, step, len);
    BoxFits(line, k, i);
    forall q | 0 <= q < len
      ensures q != i ==> Place(start, step, q) != Place(start, step, i)
    {
      if q < i { PlacesDiffer(start, step, q, i); } else if i < q { PlacesDiffer(start, step, i, q); }
    }
  }

  /** The last k - 1 samples are zero, as the packer leaves room for the filter's tail. */
  ghost predicate TailZero(line: seq<byte>, k: nat) {
    forall i :: 0 <= i < |line| && |line| < i + k ==> line[i] == 0
  }

  /** The loops over one line; its last k - 1 samples must be zero. */
  method FilterLine(pixels: array<byte>, start: nat, step: nat, len: nat, k: nat, buffer: array<byte>)
    requires LineFits(pixels.Length, start, step, len) && 0 < k <= MAX_OVERSAMPLE
    requires buffer.Length == MAX_OVERSAMPLE && buffer != pixels
    requires TailZero(Line(pixels[..], start, step, len), k)
    modifies pixels, buffer
    ensures Progress(pixels[..], old(pixels[..]), start, step, len, k, len)
  {
    hide Progress, Ring, Total, Box, Place, LineFits;
    ghost var was := pixels[..];
    ghost var line := Line(was, start, step, len);
    for q := 0 to k
      invariant forall r :: 0 <= r < q ==> buffer[r] == 0
      invariant pixels[..] == was
    {
      buffer[q] := 0;
    }
    var total: nat := 0;
    var i := 0;
    ProgressStart(was, start, step, len, k);
    RingStart(buffer[..], line, k);
    TotalStart(line, k);
    while i + k <= len
      invariant i <= len && i < len + k
      invariant total == Total(line, k, i)
      invariant Ring(buffer[..], line, k, i)
      invariant Progress(pixels[..], was, start, step, len, k, i)
      decreases len - i
    {
      var at := Place(start, step, i);
      RingAt(buffer[..], line, k, i);
      TotalMoves(line, k, i, buffer[i % 8]);
      RingMoves(buffer[..], line, k, i);
      ProgressStep(pixels[..], was, start, step, len, k, i);
      ghost var b, p := buffer[..], pixels[..];
      ghost var boxed: byte := Box(line, k, i);
      total := (total + pixels[at] - buffer[i % 8]) % 0x1_0000_0000;
      buffer[(i + k) % 8] := pixels[at];
      assert buffer[..] == b[(i + k) % 8 := line[i]];
      pixels[at] := total / k % 256;
      assert pixels[..] == p[at := boxed];
      i := i + 1;
    }
    while i < len
      invariant i <= len && i + k > len
      invariant total == Total(line, k, i)
      invariant Ring(buffer[..], line, k, i)
      invariant Progress(pixels[..], was, start, step, len, k, i)
      decreases len - i
    {
      var at := Place(start, step, i);
      RingAt(buffer[..], line, k, i);
      TotalMoves(line, k, i, buffer[i % 8]);
      RingMoves(buffer[..], line, k, i);
      ProgressStep(pixels[..], was, start, step, len, k, i);
      ghost var p := pixels[..];
      ghost var boxed: byte := Box(line, k, i);
      total := (total - buffer[i % 8]) % 0x1_0000_0000;
      pixels[at] := total / k % 256;
      assert pixels[..] == p[at := boxed];
      i := i + 1;
    }
  }

  lemma TotalStart(line: seq<byte>, k: nat)
    requires k > 0
    ensures Total(line, k, 0) == 0
  {
  }

  // ----- rows and columns

  /** A w by h rectangle of pixels in rows that are `stride` apart. */
  ghost predicate Rectangle(length: nat, w: nat, h: nat, stride: nat) {
    w <= stride && stride > 0 && forall x, y :: 0 <= x < w && 0 <= y < h ==> Place(x, stride, y) < length
  }

  function Row(pixels: seq<byte>, w: nat, h: nat, stride: nat, y: nat): (r: seq<byte>)
    requires Rectangle(|pixels|, w, h, stride) && y < h
    ensures |r| == w
  {
    RowFits(|pixels|, w, h, stride, y);
    Line(pixels, y * stride, 1, w)
  }

  function Column(pixels: seq<byte>, w: nat, h: nat, stride: nat, x: nat): (r: seq<byte>)
    requires Rectangle(|pixels|, w, h, stride) && x < w
    ensures |r| == h
  {
    Line(pixels, x, stride, h)
  }

  lemma RowFits(length: nat, w: nat, h: nat, stride: nat, y: nat)
    requires Rectangle(length, w, h, stride) && y < h
    ensures LineFits(length, y * stride, 1, w)
    ensures forall x :: 0 <= x < w ==> Place(y * stride, 1, x) == Place(x, stride, y)
  {
    forall x | 0 <= x < w
      ensures Place(y * stride, 1, x) == Place(x, stride, y) < length
    {
    }
  }

  /** Different coordinates are different places. */
  lemma CoordinatesApart(x: nat, y: nat, u: nat, v: nat, stride: nat)
    requires x < stride && u < stride && (x, y) != (u, v)
    ensures Place(x, stride, y) != Place(u, stride, v)
  {
    if y < v { PlacesDiffer(0, stride, y, v); AtLeast(y, v, stride); }
    if v < y { PlacesDiffer(0, stride, v, y); AtLeast(v, y, stride); }
  }

  lemma AtLeast(y: nat, v: nat, stride: nat)
    requires y < v
    ensures y * stride + stride <= v * stride
  {
    assert v * stride == y * stride + stride + (v - y - 1) * stride && (v - y - 1) * stride >= 0;
  }

  /** A line after the filter. */
  function Filtered(line: seq<byte>, k: nat): (r: seq<nat>)
    requires k > 0
    ensures |r| == |line|
  {
    seq<nat>(|line|, i requires 0 <= i < |line| => Box(line, k, i))
  }

  ghost predicate InRectangle(w: nat, h: nat, stride: nat, q: nat) {
    exists x, y :: 0 <= x < w && 0 <= y < h && q == Place(x, stride, y)
  }

  /** Places outside of the rectangle are as before. */
  ghost predicate OutsideKept(pix: seq<byte>, was: seq<byte>, w: nat, h: nat, stride: nat) {
    |pix| == |was| && forall q :: 0 <= q < |pix| && !InRectangle(w, h, stride, q) ==> pix[q] == was[q]
  }

  /** The pixel at (x, y). */
  function At(pix: seq<byte>, stride: nat, x: nat, y: nat): nat {
    if Place(x, stride, y) < |pix| then pix[Place(x, stride, y)] else 0
  }

  /** Rows before n are filtered, all other pixels of the rectangle are as before. */
  ghost predicate RowsDone(pix: seq<byte>, was: seq<byte>, w: nat, h: nat, stride: nat, k: nat, n: nat)
    requires k > 0 && Rectangle(|was|, w, h, stride)
  {
    && OutsideKept(pix, was, w, h, stride)
    && forall x, y :: 0 <= x < w && 0 <= y < h ==>
         At(pix, stride, x, y) == if y < n then Filtered(Row(was, w, h, stride, y), k)[x] else At(was, stride, x, y)
  }

  ghost predicate ColumnsDone(pix: seq<byte>, was: seq<byte>, w: nat, h: nat, stride: nat, k: nat, n: nat)
    requires k > 0 && Rectangle(|was|, w, h, stride)
  {
    && OutsideKept(pix, was, w, h, stride)
    && forall x, y :: 0 <= x < w && 0 <= y < h ==>
         At(pix, stride, x, y) == if x < n then Filtered(Column(was, w, h, stride, x), k)[y] else At(was, stride, x, y)
  }

  lemma RowInside(w: nat, h: nat, stride: nat, n: nat, q: nat)
    requires n < h
    ensures OnLine(n * stride, 1, w, q) ==> InRectangle(w, h, stride, q)
  {
    if OnLine(n * stride, 1, w, q) {
      var i :| 0 <= i < w && q == Place(n * stride, 1, i);
      assert q == Place(i, stride, n);
    }
  }

  lemma ColumnInside(w: nat, h: nat, stride: nat, n: nat, q: nat)
    requires n < w
    ensures OnLine(n, stride, h, q) ==> InRectangle(w, h, stride, q)
  {
  }

  lemma RowStep(was: seq<byte>, before: seq<byte>, now: seq<byte>, w: nat, h: nat, stride: nat, k: nat, n: nat)
    requires k > 0 && Rectangle(|was|, w, h, stride) && n < h && RowsDone(before, was, w, h, stride, k, n)
    requires Progress(now, before, n * stride, 1, w, k, w)
    ensures RowsDone(now, was, w, h, stride, k, n + 1)
  {
    hide Box;
    RowFits(|was|, w, h, stride, n);
    forall q | 0 <= q < |now| && !InRectangle(w, h, stride, q)
      ensures now[q] == was[q]
    {
      RowInside(w, h, stride, n, q);
    }
    RowUntouched(was, before, w, h, stride, k, n);
    forall x, y | 0 <= x < w && 0 <= y < h
      ensures At(now, stride, x, y) ==
              if y < n + 1 then Filtered(Row(was, w, h, stride, y), k)[x] else At(was, stride, x, y)
    {
      if y == n {
        assert now[Place(n * stride, 1, x)] == Box(Line(before, n * stride, 1, w), k, x);
      } else {
        forall i | 0 <= i < w
          ensures Place(x, stride, y) != Place(n * stride, 1, i)
        {
          CoordinatesApart(x, y, i, n, stride);
        }
        assert now[Place(x, stride, y)] == before[Place(x, stride, y)];
        assert At(before, stride, x, y) == if y < n then Filtered(Row(was, w, h, stride, y), k)[x]
               else At(was, stride, x, y);
      }
    }
  }

  lemma RowUntouched(was: seq<byte>, before: seq<byte>, w: nat, h: nat, stride: nat, k: nat, n: nat)
    requires k > 0 && Rectangle(|was|, w, h, stride) && n < h && RowsDone(before, was, w, h, stride, k, n)
    ensures LineFits(|was|, n * stride, 1, w) && Line(before, n * stride, 1, w) == Row(was, w, h, stride, n)
  {
    hide Filtered;
    RowFits(|was|, w, h, stride, n);
    forall x | 0 <= x < w
      ensures before[Place(n * stride, 1, x)] == was[Place(n * stride, 1, x)]
    {
      assert At(before, stride, x, n) == At(was, stride, x, n);
    }
  }

  /** stbtt__h_prefilter */
  method HPrefilter(pixels: array<byte>, w: nat, h: nat, stride: nat, kernel_width: nat)
    requires 0 < kernel_width <= MAX_OVERSAMPLE && Rectangle(pixels.Length, w, h, stride)
    requires forall y :: 0 <= y < h ==> TailZero(Row(pixels[..], w, h, stride, y), kernel_width)
    modifies pixels
    ensures RowsDone(pixels[..], old(pixels[..]), w, h, stride, kernel_width, h)
  {
    hide Progress, TailZero, Rectangle, Place;
    ghost var was := pixels[..];
    var buffer := new byte[MAX_OVERSAMPLE](_ => 0);
    for j := 0 to h
      invariant RowsDone(pixels[..], was, w, h, stride, kernel_width, j)
    {
      ghost var before := pixels[..];
      RowFits(pixels.Length, w, h, stride, j);
      RowUntouched(was, before, w, h, stride, kernel_width, j);
      FilterLine(pixels, j * stride, 1, w, kernel_width, buffer);
      RowStep(was, before, pixels[..], w, h, stride, kernel_width, j);
    }
  }

  lemma ColumnStep(was: seq<byte>, before: seq<byte>, now: seq<byte>, w: nat, h: nat, stride: nat, k: nat, n: nat)
    requires k > 0 && Rectangle(|was|, w, h, stride) && n < w && ColumnsDone(before, was, w, h, stride, k, n)
    requires Progress(now, before, n, stride, h, k, h)
    ensures ColumnsDone(now, was, w, h, stride, k, n + 1)
  {
    hide Box;
    forall q | 0 <= q < |now| && !InRectangle(w, h, stride, q)
      ensures now[q] == was[q]
    {
      ColumnInside(w, h, stride, n, q);
    }
    ColumnUntouched(was, before, w, h, stride, k, n);
    forall x, y | 0 <= x < w && 0 <= y < h
      ensures At(now, stride, x, y) ==
              if x < n + 1 then Filtered(Column(was, w, h, stride, x), k)[y] else At(was, stride, x, y)
    {
      if x == n {
        assert now[Place(n, stride, y)] == Box(Line(before, n, stride, h), k, y);
      } else {
        forall i | 0 <= i < h
          ensures Place(x, stride, y) != Place(n, stride, i)
        {
          CoordinatesApart(x, y, n, i, stride);
        }
        assert now[Place(x, stride, y)] == before[Place(x, stride, y)];
        assert At(before, stride, x, y) == if x < n then Filtered(Column(was, w, h, stride, x), k)[y]
               else At(was, stride, x, y);
      }
    }
  }

  lemma ColumnUntouched(was: seq<byte>, before: seq<byte>, w: nat, h: nat, stride: nat, k: nat, n: nat)
    requires k > 0 && Rectangle(|was|, w, h, stride) && n < w && ColumnsDone(before, was, w, h, stride, k, n)
    ensures LineFits(|was|, n, stride, h) && Line(before, n, stride, h) == Column(was, w, h, stride, n)
  {
    hide Filtered;
    forall y | 0 <= y < h
      ensures before[Place(n, stride, y)] == was[Place(n, stride, y)]
    {
      assert At(before, stride, n, y) == At(was, stride, n, y);
    }
  }

  /** stbtt__v_prefilter */
  method VPrefilter(pixels: array<byte>, w: nat, h: nat, stride: nat, kernel_width: nat)
    requires 0 < kernel_width <= MAX_OVERSAMPLE && Rectangle(pixels.Length, w, h, stride)
    requires forall x :: 0 <= x < w ==> TailZero(Column(pixels[..], w, h, stride, x), kernel_width)
    modifies pixels
    ensures ColumnsDone(pixels[..], old(pixels[..]), w, h, stride, kernel_width, w)
  {
    hide Progress, TailZero, Rectangle, Place;
    ghost var was := pixels[..];
    var buffer := new byte[MAX_OVERSAMPLE](_ => 0);
    for j := 0 to w
      invariant ColumnsDone(pixels[..], was, w, h, stride, kernel_width, j)
    {
      ghost var before := pixels[..];
      ColumnUntouched(was, before, w, h, stride, kernel_width, j);
      FilterLine(pixels, j, stride, h, kernel_width, buffer);
      ColumnStep(was, before, pixels[..], w, h, stride, kernel_width, j);
    }
  }
}
