/**
 The filter types as clause 9 of the PNG specification words them, and images as
 an encoder packs and filters them: decoding such data shows the image's samples.
 */
module PngRules {
  import opened Bits
  import opened BitStream
  import opened BitWriter
  import opened Common
  import opened PngFilter
  import opened PngImage
  import opened PngSamples
  import opened TopBits

  // ----- one row

  /** The byte at position k, zero outside of the row. */
  function Outside(row: seq<byte>, k: int): byte { if 0 <= k < |row| then row[k] else 0 }

  function Distance(a: int, b: int): nat { if a < b then b - a else a - b }

  /** p is what filter type f takes off, given the bytes to the left, above, and above left. */
  predicate Predicted(f: nat, left: int, above: int, corner: int, p: int) {
    && (f == 0 ==> p == 0)
    && (f == 1 ==> p == left)
    && (f == 2 ==> p == above)
    && (f == 3 ==> 2 * p <= left + above < 2 * p + 2)
    && (f == 4 ==>
          var t := left + above - corner;
          var a, b, c := Distance(t, left), Distance(t, above), Distance(t, corner);
          if a <= b && a <= c then p == left else if b <= c then p == above else p == corner)
  }

  /** The row is what its filtered bytes stand for below the row above: each byte less the filtered one is, modulo 256,
      what the filter takes off. */
  ghost predicate ByRule(f: nat, above: seq<byte>, filtered: seq<byte>, row: seq<byte>, bpp: nat) {
    && |row| == |filtered| == |above|
    && forall k :: 0 <= k < |row| ==>
         Predicted(f, Outside(row, k - bpp), above[k], Outside(above, k - bpp), (row[k] as int - filtered[k]) % 256)
  }

  lemma PredictedIs(f: nat, left: byte, above: byte, corner: byte, p: byte)
    requires f <= 4
    ensures Predicted(f, left, above, corner, p) <==> p == Predict(f, left, above, corner)
  {
  }

  lemma Difference(row: byte, filtered: byte, p: nat)
    requires p < 256
    ensures row == (filtered + p) % 256 <==> (row as int - filtered) % 256 == p
  {
  }

  lemma PredictSmall(f: nat, left: byte, above: byte, corner: byte)
    requires f <= 4
    ensures Predict(f, left, above, corner) < 256
  {
  }

  /** Filtered bytes stand for one row only: the reconstructed one. */
  lemma {:induction false} RuleDecides(f: nat, above: seq<byte>, filtered: seq<byte>, row: seq<byte>, bpp: nat)
    requires f <= 4 && bpp > 0 && |above| == |filtered|
    ensures ByRule(f, above, filtered, row, bpp) <==> row == ReconRow(f, above, filtered, bpp)
  {
    hide Predict, ReconRow, Predicted;
    var r := ReconRow(f, above, filtered, bpp);
    forall k | 0 <= k < |r|
      ensures Predicted(f, Outside(r, k - bpp), above[k], Outside(above, k - bpp), (r[k] as int - filtered[k]) % 256)
    {
      var p := Predict(f, Before(r, k, bpp), above[k], Before(above, k, bpp));
      ReconAt(f, above, filtered, bpp, k);
      PredictSmall(f, Before(r, k, bpp), above[k], Before(above, k, bpp));
      PredictedIs(f, Before(r, k, bpp), above[k], Before(above, k, bpp), p);
      Difference(r[k], filtered[k], p);
    }
    if ByRule(f, above, filtered, row, bpp) { RowsAgree(f, above, filtered, row, r, bpp); }
  }

  lemma RowsAgree(f: nat, above: seq<byte>, filtered: seq<byte>, row: seq<byte>, r: seq<byte>, bpp: nat)
    requires f <= 4 && bpp > 0 && ByRule(f, above, filtered, row, bpp) && ByRule(f, above, filtered, r, bpp)
    ensures row == r
  {
    hide ByRule;
    var k := 0;
    RuleLengths(f, above, filtered, row, bpp);
    RuleLengths(f, above, filtered, r, bpp);
    while k < |row|
      invariant k <= |row| && r[..k] == row[..k]
    {
      ByteAgrees(f, above, filtered, row, r, bpp, k);
      k := k + 1;
    }
    assert r[..|row|] == r && row[..|row|] == row;
  }

  lemma RuleLengths(f: nat, above: seq<byte>, filtered: seq<byte>, row: seq<byte>, bpp: nat)
    requires ByRule(f, above, filtered, row, bpp)
    ensures |row| == |filtered| == |above|
  {
  }

  lemma ByteAgrees(f: nat, above: seq<byte>, filtered: seq<byte>, row: seq<byte>, r: seq<byte>, bpp: nat, k: nat)
    requires f <= 4 && bpp > 0 && ByRule(f, above, filtered, row, bpp) && ByRule(f, above, filtered, r, bpp)
    requires k < |row| == |r| && r[..k] == row[..k]
    ensures row[k] == r[k]
  {
    hide Predict, Predicted;
    if k >= bpp { assert r[..k][k - bpp] == row[..k][k - bpp]; }
    var left, corner := Outside(row, k - bpp), Outside(above, k - bpp);
    PredictedIs(f, left, above[k], corner, (row[k] as int - filtered[k]) % 256);
    PredictedIs(f, left, above[k], corner, (r[k] as int - filtered[k]) % 256);
    SameByte(row[k], r[k], filtered[k]);
  }

  lemma SameByte(a: byte, b: byte, x: byte)
    requires (a as int - x) % 256 == (b as int - x) % 256
    ensures a == b
  {
  }

  // ----- samples packed into a row

  /** The samples of d bits each one after the other. */
  function SampleBits(vs: seq<nat>, d: nat): (r: seq<bit>)
    ensures |r| == |vs| * d
  {
    if vs == [] then [] else SampleBits(vs[..|vs| - 1], d) + HighFirst(vs[|vs| - 1], d)
  }

  function PackedRow(vs: seq<nat>, d: nat): seq<byte> { PackedTop(SampleBits(vs, d)) }

  /** A sample is the bits of the row from its place on. */
  lemma SampleIsTop(row: seq<byte>, d: nat, i: nat)
    requires Depth(d) && (i + 1) * d <= 8 * |row|
    ensures Sample(row, d, i) == Top(row, i * d, d)
  {
    hide Top, Low, Shr;
    if d == 16 {
      TopByte(row, 2 * i);
      TopByte(row, 2 * i + 1);
      TopJoin(row, 16 * i, 8, 8);
      ShlIsTimes(row[2 * i], 8);
      assert Pow2(8) == 256;
    } else if d == 8 {
      TopByte(row, i);
    } else {
      FieldInside(i, d, |row|);
      var q, k := FieldByte(i, d), FieldBit(i, d);
      assert i * d == 8 * q + k;
      TopWithinByte(row, q, k + d);
      TopJoin(row, 8 * q, k, d);
      TopBound(row, 8 * q + k, d);
      LowOfSum(Top(row, 8 * q + k, d), Top(row, 8 * q, k), d);
    }
  }

  lemma {:induction false} SampleWritten(data: seq<byte>, vs: seq<nat>, d: nat, i: nat)
    requires i < |vs| && WrittenTop(data, 0, SampleBits(vs, d))
    ensures WrittenTop(data, i * d, HighFirst(vs[i], d))
    decreases |vs|
  {
    hide WrittenTop, HighFirst;
    var n := |vs| - 1;
    TopJoined(data, 0, SampleBits(vs[..n], d), HighFirst(vs[n], d));
    if i < n { SampleWritten(data, vs[..n], d, i); }
  }

  /** Packed samples are found again. */
  lemma PackedSample(vs: seq<nat>, d: nat, i: nat)
    requires Depth(d) && i < |vs| && vs[i] < Pow2(d)
    ensures (i + 1) * d <= 8 * |PackedRow(vs, d)| && Sample(PackedRow(vs, d), d, i) == vs[i]
  {
    hide WrittenTop, Sample, Top, PackedTop, SampleBits;
    PackedTopWritten(SampleBits(vs, d));
    SampleStep(i, |vs|, d);
    SampleWritten(PackedRow(vs, d), vs, d, i);
    SampleIsTop(PackedRow(vs, d), d, i);
    TopWritten(PackedRow(vs, d), i * d, vs[i], d);
  }

  // ----- pixels

  /** Grey samples of less than eight bits are spread over a byte, the largest one becoming 255. */
  function Spread(v: nat, depth: nat, color: nat): nat
    requires depth > 0
  {
    if color == 0 && depth < 8 then v * (255 / Largest(depth)) else v
  }

  function Largest(depth: nat): (r: nat)
    ensures depth > 0 ==> r > 0
  {
    Pow2(depth) - 1
  }

  lemma SpreadIs(v: nat, depth: nat, color: nat)
    requires Depth(depth)
    ensures Scale(depth, color) * v == Spread(v, depth, color)
  {
    assert Pow2(1) == 2 && Pow2(2) == 4 && Pow2(4) == 16;
  }

  /** What stands in the output for channel c of a pixel: its sample, or full opacity. */
  function Shade(vs: seq<nat>, img_n: nat, depth: nat, color: nat, px: nat, c: nat): nat
    requires Depth(depth) && (c < img_n ==> px * img_n + c < |vs|)
  {
    if c < img_n then Spread(vs[px * img_n + c], depth, color) else if depth == 16 then 65535 else 255
  }

  lemma QuotientIs(q: nat, r: nat, n: nat)
    requires r < n
    ensures (q * n + r) / n == q && (q * n + r) % n == r
  {
    var a := (q * n + r) / n;
    assert a * n + (q * n + r) % n == q * n + r;
    assert (a + 1) * n == a * n + n && (q + 1) * n == q * n + n;
    LessFactor(a, q + 1, n);
    LessFactor(q, a + 1, n);
  }

  lemma PixelPlace(px: nat, c: nat, n: nat, x: nat)
    requires c < n && px < x
    ensures (px * n + c) / n == px && (px * n + c) % n == c && px * n + c < x * n
  {
    QuotientIs(px, c, n);
    assert x * n == px * n + n + (x - px - 1) * n;
  }

  lemma PixelIs(vs: seq<nat>, depth: nat, color: nat, img_n: nat, out_n: nat, x: nat, px: nat, c: nat)
    requires Depth(depth) && Channels(img_n, out_n) && px < x && c < out_n && |vs| == x * img_n
    requires forall i :: 0 <= i < |vs| ==> vs[i] < Pow2(depth)
    requires |vs| * depth <= 8 * |PackedRow(vs, depth)|
    ensures c < img_n ==> px * img_n + c < |vs|
    ensures OutSample(RowSamples(PackedRow(vs, depth), depth, color, |vs|), img_n, out_n, depth, px * out_n + c) ==
            Shade(vs, img_n, depth, color, px, c)
  {
    hide Sample, PackedRow, Scale, Spread;
    PixelPlace(px, c, out_n, x);
    if c < img_n {
      PixelPlace(px, c, img_n, x);
      PackedSample(vs, depth, px * img_n + c);
      SpreadIs(vs[px * img_n + c], depth, color);
    }
  }

  // ----- whole images

  type filterType = f: nat | f <= 4

  /** Each row with its filter type in front. */
  function Scanlines(types: seq<filterType>, filtered: seq<seq<byte>>): seq<byte>
    requires |types| == |filtered|
  {
    if types == [] then [] else [types[0]] + filtered[0] + Scanlines(types[1..], filtered[1..])
  }

  lemma {:induction false} ScanlinesAt(raw: seq<byte>, i: nat, types: seq<filterType>, filtered: seq<seq<byte>>,
                                       tail: seq<byte>, w: nat, j: nat)
    requires |types| == |filtered| && forall k :: 0 <= k < |types| ==> |filtered[k]| == w
    requires LineAt(i, w) <= |raw| && raw[LineAt(i, w)..] == Scanlines(types, filtered) + tail && j < |types|
    ensures |raw| >= LineAt(i + j + 1, w) && TypeAt(raw, w, i + j) == types[j]
    ensures LineBytes(raw, w, i + j) == filtered[j]
    decreases j
  {
    hide LineAt;
    LineStep(i, w);
    var rest := Scanlines(types[1..], filtered[1..]) + tail;
    assert raw[LineAt(i, w)..] == [types[0]] + filtered[0] + rest;
    FirstLine(raw, LineAt(i, w), types[0], filtered[0], rest);
    hide Scanlines;
    if j > 0 { ScanlinesAt(raw, i + 1, types[1..], filtered[1..], tail, w, j - 1); }
  }

  lemma FirstLine(raw: seq<byte>, at: nat, t: byte, line: seq<byte>, rest: seq<byte>)
    requires at <= |raw| && raw[at..] == [t] + line + rest
    ensures at + 1 + |line| <= |raw| && raw[at] == t && raw[at + 1..at + 1 + |line|] == line
    ensures raw[at + 1 + |line|..] == rest
  {
    var here := raw[at..];
    assert here[0] == raw[at] && here[1..1 + |line|] == line && here[1 + |line|..] == rest;
  }

  /** Row j of the samples is what these bytes stand for, by the rule of their type. */
  ghost predicate RowFiltered(samples: seq<seq<nat>>, types: seq<filterType>, filtered: seq<seq<byte>>, d: nat,
                              bpp: nat, j: nat)
    requires j < |samples| == |types| == |filtered|
  {
    var row := PackedRow(samples[j], d);
    |filtered[j]| == |row| &&
    ByRule(types[j], if j == 0 then Zeros(|row|) else PackedRow(samples[j - 1], d), filtered[j], row, bpp)
  }

  ghost predicate Filtered(samples: seq<seq<nat>>, types: seq<filterType>, filtered: seq<seq<byte>>, d: nat, bpp: nat) {
    && |samples| == |types| == |filtered|
    && forall j :: 0 <= j < |types| ==> RowFiltered(samples, types, filtered, d, bpp, j)
  }

  lemma {:induction false} RowIsPacked(raw: seq<byte>, samples: seq<seq<nat>>, types: seq<filterType>,
                                       filtered: seq<seq<byte>>, tail: seq<byte>, w: nat, d: nat, bpp: nat, j: nat)
    requires Filtered(samples, types, filtered, d, bpp) && bpp > 0 && j < |types|
    requires forall k :: 0 <= k < |types| ==> |PackedRow(samples[k], d)| == w
    requires raw == Scanlines(types, filtered) + tail
    ensures Lines(raw, w, j + 1) && Row(raw, w, bpp, j) == PackedRow(samples[j], d)
    decreases j
  {
    hide PackedRow, ByRule, ReconRow, LineAt, Scanlines, TypeAt, LineBytes;
    forall k | 0 <= k < |types|
      ensures |filtered[k]| == w
    {
      assert RowFiltered(samples, types, filtered, d, bpp, k);
    }
    LineEnds(0, w);
    assert raw[0..] == raw;
    forall k | 0 <= k <= j
      ensures TypeAt(raw, w, k) <= 4
    {
      ScanlinesAt(raw, 0, types, filtered, tail, w, k);
    }
    ScanlinesAt(raw, 0, types, filtered, tail, w, j);
    assert 0 + j + 1 == j + 1 && 0 + j == j;
    if j > 0 { RowIsPacked(raw, samples, types, filtered, tail, w, d, bpp, j - 1); }
    assert RowFiltered(samples, types, filtered, d, bpp, j);
    RuleDecides(types[j], if j == 0 then Zeros(w) else PackedRow(samples[j - 1], d), filtered[j],
                PackedRow(samples[j], d), bpp);
  }

  /** Channel c of pixel px in row j of the output. */
  ghost predicate PixelShown(pix: seq<nat>, samples: seq<seq<nat>>, img_n: nat, out_n: nat, x: nat, depth: nat,
                             color: nat, j: nat, px: nat, c: nat) {
    && x * out_n * j + (px * out_n + c) < |pix| && Depth(depth) && j < |samples|
    && (c < img_n ==> px * img_n + c < |samples[j]|)
    && pix[x * out_n * j + (px * out_n + c)] == Shade(samples[j], img_n, depth, color, px, c)
  }

  /** Rows of x pixels with `img_n` samples of `depth` bits. */
  ghost predicate IsImage(samples: seq<seq<nat>>, img_n: nat, x: nat, y: nat, depth: nat) {
    && |samples| == y
    && (forall j :: 0 <= j < y ==> |samples[j]| == x * img_n)
    && forall j, i :: 0 <= j < y && 0 <= i < |samples[j]| ==> samples[j][i] < Pow2(depth)
  }

  lemma PackedWidth(vs: seq<nat>, img_n: nat, x: nat, depth: nat)
    requires |vs| == x * img_n
    ensures |PackedRow(vs, depth)| == WidthBytes(img_n, x, depth) && |vs| * depth <= 8 * |PackedRow(vs, depth)|
  {
    hide PackedTop, SampleBits;
    assert img_n * x * depth == x * img_n * depth == |vs| * depth;
  }

  lemma PixelDecoded(pix: seq<nat>, raw: seq<byte>, samples: seq<seq<nat>>, img_n: nat, out_n: nat, x: nat, y: nat,
                     depth: nat, color: nat, j: nat, px: nat, c: nat)
    requires IsImage(samples, img_n, x, y, depth) && Depth(depth) && Channels(img_n, out_n)
    requires j < y && px < x && c < out_n
    requires RowDecoded(pix, raw, img_n, out_n, x, depth, color, j)
    requires Bpp(img_n, depth) > 0 && Lines(raw, WidthBytes(img_n, x, depth), j + 1)
    requires Row(raw, WidthBytes(img_n, x, depth), Bpp(img_n, depth), j) == PackedRow(samples[j], depth)
    ensures PixelShown(pix, samples, img_n, out_n, x, depth, color, j, px, c)
  {
    hide Row, PackedRow, Shade, OutSample, RowSamples, Lines;
    PackedWidth(samples[j], img_n, x, depth);
    PixelIs(samples[j], depth, color, img_n, out_n, x, px, c);
    PixelPlace(px, c, out_n, x);
  }

  lemma AllPacked(raw: seq<byte>, samples: seq<seq<nat>>, types: seq<filterType>, filtered: seq<seq<byte>>,
                  tail: seq<byte>, img_n: nat, x: nat, y: nat, depth: nat, j: nat)
    requires IsImage(samples, img_n, x, y, depth) && Depth(depth) && x > 0 && img_n > 0 && j < y
    requires Filtered(samples, types, filtered, depth, Bpp(img_n, depth)) && raw == Scanlines(types, filtered) + tail
    ensures var w, bpp := WidthBytes(img_n, x, depth), Bpp(img_n, depth);
            bpp > 0 && Lines(raw, w, j + 1) && Row(raw, w, bpp, j) == PackedRow(samples[j], depth)
  {
    hide RowFiltered, Scanlines, Row, PackedRow, Lines;
    Widths(img_n, x, depth);
    forall k | 0 <= k < y
      ensures |PackedRow(samples[k], depth)| == WidthBytes(img_n, x, depth)
    {
      PackedWidth(samples[k], img_n, x, depth);
    }
    RowIsPacked(raw, samples, types, filtered, tail, WidthBytes(img_n, x, depth), depth, Bpp(img_n, depth), j);
  }

  /** Decoding the filtered rows of an image gives its samples, pixel by pixel. */
  method DecodeImage(png: Png, raw: seq<byte>, img_n: nat, out_n: nat, x: nat, y: nat, depth: nat, color: nat,
                     ghost samples: seq<seq<nat>>, ghost types: seq<filterType>, ghost filtered: seq<seq<byte>>,
                     ghost tail: seq<byte>) returns (ok: bool)
    requires Channels(img_n, out_n) && Depth(depth) && x > 0 && y > 0 && SizesValid(img_n, out_n, x, y, depth)
    requires IsImage(samples, img_n, x, y, depth)
    requires Filtered(samples, types, filtered, depth, Bpp(img_n, depth)) && raw == Scanlines(types, filtered) + tail
    modifies png`out
    ensures ok && fresh(png.out) && png.out.Length == x * y * out_n
    ensures forall j, px, c :: 0 <= j < y && 0 <= px < x && 0 <= c < out_n ==>
              PixelShown(png.out[..], samples, img_n, out_n, x, depth, color, j, px, c)
  {
    hide Filtered, Scanlines, RowDecoded, Row, PackedRow, PixelShown, Lines, SizesValid, IsImage, WidthBytes, Bpp;
    AllPacked(raw, samples, types, filtered, tail, img_n, x, y, depth, y - 1);
    ok := png.CreateImageRaw(raw, img_n, out_n, x, y, depth, color);
    forall j, px, c | 0 <= j < y && 0 <= px < x && 0 <= c < out_n
      ensures PixelShown(png.out[..], samples, img_n, out_n, x, depth, color, j, px, c)
    {
      AllPacked(raw, samples, types, filtered, tail, img_n, x, y, depth, j);
      PixelDecoded(png.out[..], raw, samples, img_n, out_n, x, y, depth, color, j, px, c);
    }
  }
}
