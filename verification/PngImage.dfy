/**
 stbi__create_png_image_raw: filtered scanlines to output samples, with two row
 buffers that take turns.
 */
module PngImage {
  import opened Bits
  import opened Common
  import opened PngFilter
  import opened PngSamples

  /** Bytes of a scanline, and the distance between corresponding bytes of neighbouring pixels. */
  function WidthBytes(img_n: nat, x: nat, depth: nat): nat { (img_n * x * depth + 7) / 8 }

  function Bpp(img_n: nat, depth: nat): nat { if depth < 8 then 1 else if depth == 16 then 2 * img_n else img_n }

  /** Where scanline j starts: a filter byte and w data bytes each. */
  function LineAt(j: nat, w: nat): nat { j * (w + 1) }

  lemma LineStep(j: nat, w: nat)
    ensures LineAt(j + 1, w) == LineAt(j, w) + w + 1
  {
  }

  lemma LineMono(i: nat, j: nat, w: nat)
    requires i <= j
    ensures LineAt(i, w) <= LineAt(j, w)
  {
  }

  /** The data holds n scanlines, all of a known filter type. */
  ghost predicate Lines(raw: seq<byte>, w: nat, n: nat) {
    |raw| >= LineAt(n, w) && forall j :: 0 <= j < n ==> TypeAt(raw, w, j) <= 4
  }

  /** The filter byte of scanline j; anything past the data counts as unknown. */
  ghost function TypeAt(raw: seq<byte>, w: nat, j: nat): byte {
    if LineAt(j, w) < |raw| then raw[LineAt(j, w)] else 5
  }

  ghost function LineBytes(raw: seq<byte>, w: nat, j: nat): (r: seq<byte>)
    requires |raw| >= LineAt(j + 1, w)
    ensures |r| == w
  {
    LineStep(j, w);
    raw[LineAt(j, w) + 1..LineAt(j + 1, w)]
  }

  /** Row j of the image, reconstructed line after line with a zero row above the first. */
  ghost function Row(raw: seq<byte>, w: nat, bpp: nat, j: nat): (r: seq<byte>)
    requires Lines(raw, w, j + 1) && bpp > 0
    ensures |r| == w
  {
    LineMono(j, j + 1, w);
    ReconRow(TypeAt(raw, w, j), if j == 0 then Zeros(w) else Row(raw, w, bpp, j - 1), LineBytes(raw, w, j), bpp)
  }

  // ----- encoding and reconstruction of a whole image

  /** Filtered data for rows of w bytes with one filter type each. */
  ghost function Encode(rows: seq<seq<byte>>, types: seq<nat>, w: nat, bpp: nat): (r: seq<byte>)
    requires |types| == |rows| && bpp > 0 && forall j :: 0 <= j < |rows| ==> |rows[j]| == w && types[j] <= 4
    ensures |r| == LineAt(|rows|, w)
  {
    if rows == [] then []
    else
      var n := |rows| - 1;
      LineStep(n, w);
      Encode(rows[..n], types[..n], w, bpp) + [types[n]] +
      FilterRow(types[n], if n == 0 then Zeros(w) else rows[n - 1], rows[n], bpp)
  }

  /** What stands at the end of the data. */
  lemma LastLine(front: seq<byte>, t: byte, line: seq<byte>, w: nat, n: nat)
    requires |front| == LineAt(n, w) && |line| == w
    ensures var raw := front + [t] + line;
            |raw| == LineAt(n + 1, w) && TypeAt(raw, w, n) == t && LineBytes(raw, w, n) == line
  {
    LineStep(n, w);
  }

  /** What stands further in front does not depend on it. */
  lemma EarlierLine(front: seq<byte>, raw: seq<byte>, w: nat, j: nat)
    requires |front| >= LineAt(j + 1, w) && front <= raw
    ensures TypeAt(raw, w, j) == TypeAt(front, w, j) && LineBytes(raw, w, j) == LineBytes(front, w, j)
  {
    LineStep(j, w);
    assert raw[..|front|] == front;
  }

  lemma {:induction false} EncodedLine(rows: seq<seq<byte>>, types: seq<nat>, w: nat, bpp: nat, j: nat)
    requires |types| == |rows| && bpp > 0 && forall k :: 0 <= k < |rows| ==> |rows[k]| == w && types[k] <= 4
    requires j < |rows|
    ensures var raw := Encode(rows, types, w, bpp);
            && |raw| >= LineAt(j + 1, w) > LineAt(j, w) && TypeAt(raw, w, j) == types[j]
            && LineBytes(raw, w, j) == FilterRow(types[j], if j == 0 then Zeros(w) else rows[j - 1], rows[j], bpp)
  {
    hide LineAt, FilterRow, TypeAt, LineBytes;
    var raw, n := Encode(rows, types, w, bpp), |rows| - 1;
    var front := Encode(rows[..n], types[..n], w, bpp);
    LineStep(j, w);
    LineMono(j + 1, n + 1, w);
    if j < n {
      EncodedLine(rows[..n], types[..n], w, bpp, j);
      EarlierLine(front, raw, w, j);
    } else {
      LastLine(front, types[n], FilterRow(types[n], if n == 0 then Zeros(w) else rows[n - 1], rows[n], bpp), w, n);
    }
  }

  /** For every image and every choice of filters, reconstruction gives the rows back. */
  lemma {:induction false} RowsRestored(rows: seq<seq<byte>>, types: seq<nat>, w: nat, bpp: nat, j: nat)
    requires |types| == |rows| && bpp > 0 && forall k :: 0 <= k < |rows| ==> |rows[k]| == w && types[k] <= 4
    requires j < |rows|
    ensures var raw := Encode(rows, types, w, bpp); Lines(raw, w, j + 1) && Row(raw, w, bpp, j) == rows[j]
  {
    hide LineAt, Encode, FilterRow, ReconRow, LineBytes;
    var raw := Encode(rows, types, w, bpp);
    forall k | 0 <= k <= j
      ensures TypeAt(raw, w, k) <= 4
    {
      EncodedLine(rows, types, w, bpp, k);
    }
    LineMono(j + 1, |rows|, w);
    EncodedLine(rows, types, w, bpp, j);
    if j > 0 { RowsRestored(rows, types, w, bpp, j - 1); }
    ReconFiltered(types[j], if j == 0 then Zeros(w) else rows[j - 1], rows[j], bpp);
  }

  // ----- the decoder

  function SizesValid(img_n: nat, out_n: nat, x: nat, y: nat, depth: nat): bool {
    var w := WidthBytes(img_n, x, depth);
    && x * y * (out_n * if depth == 16 then 2 else 1) <= INT_MAX
    && img_n * x * depth + 7 <= INT_MAX
    && w * y + w <= INT_MAX
  }

  /** The loop's own measure of a scanline is the width in bytes, which holds all samples. */
  lemma Widths(img_n: nat, x: nat, depth: nat)
    requires Depth(depth) && x > 0 && img_n > 0
    ensures var w := WidthBytes(img_n, x, depth);
            && x * img_n * depth <= 8 * w
            && w == (if depth < 8 then w else x) * Bpp(img_n, depth)
            && 0 < Bpp(img_n, depth) <= w
  {
    assert img_n * x * depth == x * img_n * depth;
    assert x * img_n >= 1;
    if depth == 8 {
      assert img_n * x * 8 == 8 * (img_n * x);
      assert WidthBytes(img_n, x, depth) == img_n * x;
    } else if depth == 16 {
      assert img_n * x * 16 == 8 * (2 * (img_n * x));
      assert WidthBytes(img_n, x, depth) == 2 * (img_n * x) == x * (2 * img_n);
    } else {
      assert img_n * x * depth >= 1;
    }
  }

  /** Row j of the output samples. */
  ghost predicate RowDecoded(pix: seq<nat>, raw: seq<byte>, img_n: nat, out_n: nat, x: nat, depth: nat, color: nat,
                             j: nat)
    requires Depth(depth) && x > 0 && img_n > 0
  {
    Widths(img_n, x, depth);
    && Lines(raw, WidthBytes(img_n, x, depth), j + 1)
    && var plain := RowSamples(Row(raw, WidthBytes(img_n, x, depth), Bpp(img_n, depth), j), depth, color, x * img_n);
    Shown(pix, x * out_n * j, plain, img_n, out_n, depth, x * out_n)
  }

  ghost predicate Shown(pix: seq<nat>, dest: nat, plain: seq<nat>, img_n: nat, out_n: nat, depth: nat, n: nat) {
    dest + n <= |pix| && forall q :: 0 <= q < n ==> pix[dest + q] == OutSample(plain, img_n, out_n, depth, q)
  }

  lemma RowIsShown(out: array<nat>, dest: nat, plain: seq<nat>, img_n: nat, out_n: nat, depth: nat, x: nat)
    requires RowShown(out, dest, plain, img_n, out_n, depth, x)
    ensures Shown(out[..], dest, plain, img_n, out_n, depth, x * out_n)
  {
    hide OutSample;
  }

  /** The data is complete, all filter types are known, and nothing is too large. */
  ghost predicate Decodable(raw: seq<byte>, img_n: nat, out_n: nat, x: nat, y: nat, depth: nat) {
    SizesValid(img_n, out_n, x, y, depth) && Lines(raw, WidthBytes(img_n, x, depth), y)
  }

  lemma LineEnds(y: nat, w: nat)
    ensures LineAt(0, w) == 0 && LineAt(y, w) == (w + 1) * y
  {
  }

  lemma TypeIs(raw: seq<byte>, w: nat, j: nat)
    requires LineAt(j, w) < |raw|
    ensures TypeAt(raw, w, j) == raw[LineAt(j, w)]
  {
  }

  lemma RowIs(raw: seq<byte>, w: nat, bpp: nat, j: nat)
    requires Lines(raw, w, j + 1) && bpp > 0 && LineAt(j + 1, w) == LineAt(j, w) + w + 1
    ensures Lines(raw, w, j) && LineAt(j, w) + w + 1 <= |raw|
    ensures Row(raw, w, bpp, j) ==
            ReconRow(TypeAt(raw, w, j), if j == 0 then Zeros(w)
              else Row(raw, w, bpp, j - 1), raw[LineAt(j, w) + 1..LineAt(j, w) + 1 + w], bpp)
  {
    hide ReconRow;
  }

  lemma RowsFit(stride: nat, j: nat, y: nat)
    requires j < y
    ensures 0 <= stride * j && stride * j + stride <= stride * y
  {
    assert stride * (j + 1) <= stride * y;
  }

  lemma RowIsDecoded(out: array<nat>, raw: seq<byte>, img_n: nat, out_n: nat, x: nat, depth: nat, color: nat, j: nat)
    requires Depth(depth) && x > 0 && img_n > 0 && Lines(raw, WidthBytes(img_n, x, depth), j + 1)
    requires x * img_n * depth <= 8 * WidthBytes(img_n, x, depth) && Bpp(img_n, depth) > 0
    requires var row := Row(raw, WidthBytes(img_n, x, depth), Bpp(img_n, depth), j);
             RowShown(out, x * out_n * j, RowSamples(row, depth, color, x * img_n), img_n, out_n, depth, x)
    ensures RowDecoded(out[..], raw, img_n, out_n, x, depth, color, j)
  {
    hide OutSample, Row, RowSamples, RowShown, Shown;
    var row := Row(raw, WidthBytes(img_n, x, depth), Bpp(img_n, depth), j);
    RowIsShown(out, x * out_n * j, RowSamples(row, depth, color, x * img_n), img_n, out_n, depth, x);
  }

  /** Rows in front of the places written keep what they show. */
  lemma RowKept(was: seq<nat>, now: seq<nat>, raw: seq<byte>, img_n: nat, out_n: nat, x: nat, depth: nat, color: nat,
                i: nat, dest: nat)
    requires Depth(depth) && x > 0 && img_n > 0
    requires x * out_n * i + x * out_n <= dest <= |was| == |now| && was[..dest] == now[..dest]
    requires RowDecoded(was, raw, img_n, out_n, x, depth, color, i)
    ensures RowDecoded(now, raw, img_n, out_n, x, depth, color, i)
  {
    hide OutSample, Row, RowSamples;
    forall k | 0 <= k < dest
      ensures now[k] == was[k]
    {
      assert now[..dest][k] == was[..dest][k];
    }
  }

  /** The first n rows of the output samples. */
  ghost predicate RowsDecoded(pix: seq<nat>, raw: seq<byte>, img_n: nat, out_n: nat, x: nat, depth: nat, color: nat,
                              n: nat)
    requires Depth(depth) && x > 0 && img_n > 0
  {
    forall j :: 0 <= j < n ==> RowDecoded(pix, raw, img_n, out_n, x, depth, color, j)
  }

  lemma RowsGrow(was: seq<nat>, now: seq<nat>, raw: seq<byte>, img_n: nat, out_n: nat, x: nat, depth: nat, color: nat,
                 j: nat)
    requires Depth(depth) && x > 0 && img_n > 0
    requires x * out_n * j <= |was| == |now| && was[..x * out_n * j] == now[..x * out_n * j]
    requires RowsDecoded(was, raw, img_n, out_n, x, depth, color, j)
    requires RowDecoded(now, raw, img_n, out_n, x, depth, color, j)
    ensures RowsDecoded(now, raw, img_n, out_n, x, depth, color, j + 1)
  {
    hide RowDecoded;
    forall i | 0 <= i < j + 1
      ensures RowDecoded(now, raw, img_n, out_n, x, depth, color, i)
    {
      if i < j {
        RowsFit(x * out_n, i, j);
        RowKept(was, now, raw, img_n, out_n, x, depth, color, i, x * out_n * j);
      }
    }
  }

  /** stbi__malloc_mad3(x, y, out_n) holds y rows of x pixels. */
  lemma ImageSize(x: nat, y: nat, out_n: nat)
    ensures x * y * out_n == x * out_n * y
  {
    assert x * y * out_n == x * (y * out_n) == x * (out_n * y);
  }

  lemma RowNeeds(x: nat, img_n: nat, out_n: nat)
    requires Channels(img_n, out_n)
    ensures x * img_n <= x * out_n
  {
  }

  class Png {
    var out: array<nat>

    /** The whole decoder: all rows of the standard's reconstruction, as output samples, or failure. */
    method CreateImageRaw(raw: seq<byte>, img_n: nat, out_n: nat, x: nat, y: nat, depth: nat, color: nat)
      returns (ok: bool)
      requires Channels(img_n, out_n) && Depth(depth) && x > 0 && y > 0
      modifies `out
      ensures ok <==> Decodable(raw, img_n, out_n, x, y, depth)
      ensures ok ==> fresh(out) && out.Length == x * y * out_n
      ensures ok ==> RowsDecoded(out[..], raw, img_n, out_n, x, depth, color, y)
    {
      hide Lines, LineAt, RowsDecoded;
      if x * y * (out_n * if depth == 16 then 2 else 1) > INT_MAX { return false; }
      out := new nat[x * y * out_n];
      if img_n * x * depth + 7 > INT_MAX { return false; }
      var w := (img_n * x * depth + 7) / 8;
      if w * y + w > INT_MAX { return false; }
      var img_len := (w + 1) * y;
      LineEnds(y, w);
      LinesNeed(raw, w, y);
      if |raw| < img_len { return false; }
      ImageSize(x, y, out_n);
      ok := DecodeRows(out, raw, img_n, out_n, x, y, depth, color, w);
    }

    /** The loop over the scanlines. */
    static method DecodeRows(out: array<nat>, raw: seq<byte>, img_n: nat, out_n: nat, x: nat, y: nat, depth: nat,
                             color: nat, w: nat)
      returns (ok: bool)
      requires Channels(img_n, out_n) && Depth(depth) && x > 0
      requires w == WidthBytes(img_n, x, depth) && LineAt(y, w) <= |raw| && out.Length == x * out_n * y
      modifies out
      ensures ok <==> Lines(raw, w, y)
      ensures ok ==> RowsDecoded(out[..], raw, img_n, out_n, x, depth, color, y)
    {
      hide Row, Half, RowShown, TypeAt, LineAt, RowSamples, RowDecoded, RowsDecoded, ReconRow, Scale;
      Widths(img_n, x, depth);
      RowNeeds(x, img_n, out_n);
      var filter_bytes := Bpp(img_n, depth);
      var filter_buf := new nat[2 * w];
      var at := 0;
      LineEnds(y, w);
      NoRows(out[..], raw, img_n, out_n, x, depth, color);
      for j := 0 to y
        invariant at == LineAt(j, w) && Lines(raw, w, j)
        invariant j > 0 ==> Half(filter_buf, if j % 2 == 0 then w else 0, Row(raw, w, filter_bytes, j - 1))
        invariant RowsDecoded(out[..], raw, img_n, out_n, x, depth, color, j)
      {
        var cur, prior := if j % 2 == 0 then 0 else w, if j % 2 == 0 then w else 0;
        LineStep(j, w);
        LineMono(j + 1, y, w);
        TypeIs(raw, w, j);
        var filter := raw[at];
        if filter > 4 { return false; }
        ghost var above := if j == 0 then Zeros(w) else Row(raw, w, filter_bytes, j - 1);
        UnfilterRow(filter_buf, cur, prior, filter, j == 0, raw[at + 1..at + 1 + w], above, filter_bytes);
        at := at + 1 + w;
        RowIs(raw, w, filter_bytes, j);
        RowsFit(x * out_n, j, y);
        ghost var was := out[..];
        ShowRow(filter_buf, cur, out, x * out_n * j, x, img_n, out_n, depth, color, Row(raw, w, filter_bytes, j));
        assert out[..][..x * out_n * j] == was[..x * out_n * j];
        RowIsDecoded(out, raw, img_n, out_n, x, depth, color, j);
        RowsGrow(was, out[..], raw, img_n, out_n, x, depth, color, j);
      }
      ok := true;
    }
  }

  lemma NoRows(pix: seq<nat>, raw: seq<byte>, img_n: nat, out_n: nat, x: nat, depth: nat, color: nat)
    requires Depth(depth) && x > 0 && img_n > 0
    ensures RowsDecoded(pix, raw, img_n, out_n, x, depth, color, 0)
  {
  }

  lemma LinesNeed(raw: seq<byte>, w: nat, y: nat)
    ensures |raw| < LineAt(y, w) ==> !Lines(raw, w, y)
  {
  }

  /** Row j of the output shows the samples of this row of bytes. */
  ghost predicate LineShown(pix: seq<nat>, row: seq<byte>, img_n: nat, out_n: nat, x: nat, depth: nat, color: nat,
                            j: nat) {
    && Depth(depth) && x * img_n * depth <= 8 * |row|
    && Shown(pix, x * out_n * j, RowSamples(row, depth, color, x * img_n), img_n, out_n, depth, x * out_n)
  }

  lemma DecodedLine(pix: seq<nat>, raw: seq<byte>, img_n: nat, out_n: nat, x: nat, depth: nat, color: nat, j: nat)
    requires Depth(depth) && x > 0 && img_n > 0 && RowDecoded(pix, raw, img_n, out_n, x, depth, color, j)
    ensures Bpp(img_n, depth) > 0 && Lines(raw, WidthBytes(img_n, x, depth), j + 1)
    ensures LineShown(pix, Row(raw, WidthBytes(img_n, x, depth), Bpp(img_n, depth), j), img_n, out_n, x, depth, color,
        j)
  {
    hide Row, RowSamples, Lines, Shown;
    Widths(img_n, x, depth);
  }

  /** Decoding what was filtered shows the original rows, whatever filters were chosen. */
  lemma FilteredImageShown(pix: seq<nat>, rows: seq<seq<byte>>, types: seq<nat>, w: nat, bpp: nat,
                           img_n: nat, out_n: nat, x: nat, depth: nat, color: nat, j: nat)
    requires Depth(depth) && x > 0 && img_n > 0 && w == WidthBytes(img_n, x, depth) && bpp == Bpp(img_n, depth) > 0
    requires j < |rows| == |types| && forall k :: 0 <= k < |rows| ==> |rows[k]| == w && types[k] <= 4
    requires RowDecoded(pix, Encode(rows, types, w, bpp), img_n, out_n, x, depth, color, j)
    ensures LineShown(pix, rows[j], img_n, out_n, x, depth, color, j)
  {
    hide Encode, Row, RowSamples, Lines, LineShown, RowDecoded, WidthBytes, Bpp;
    RowsRestored(rows, types, w, bpp, j);
    DecodedLine(pix, Encode(rows, types, w, bpp), img_n, out_n, x, depth, color, j);
  }
}
