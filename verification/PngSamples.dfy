/**
 From a reconstructed row of bytes to output samples: bit depths 1, 2, 4, 8 and
 16, grey scaling, and an added opaque alpha channel.
 */
module PngSamples {
  import opened Bits
  import opened PngFilter

  predicate Depth(d: nat) { d == 1 || d == 2 || d == 4 || d == 8 || d == 16 }

  predicate Channels(img_n: nat, out_n: nat) {
    1 <= img_n <= 4 && (out_n == img_n || (out_n == img_n + 1 && (img_n == 1 || img_n == 3)))
  }

  /** stbi__depth_scale_table for grey images of less than eight bits. */
  function Scale(depth: nat, color: nat): nat {
    if color != 0 then 1 else if depth == 1 then 0xff else if depth == 2 then 0x55 else if depth == 4 then 0x11 else 1
  }

  /** Byte and bit position of the i-th sample of d bits. */
  function FieldByte(i: nat, d: nat): nat { i * d / 8 }

  function FieldBit(i: nat, d: nat): nat { i * d % 8 }

  /** The i-th sample of a row: big-endian pairs, bytes, or bit fields from the high end of each byte. */
  function Sample(row: seq<byte>, depth: nat, i: nat): nat
    requires Depth(depth) && (i + 1) * depth <= 8 * |row|
  {
    if depth == 16 then row[2 * i] * 256 + row[2 * i + 1]
    else if depth == 8 then row[i]
    else
      FieldInside(i, depth, |row|);
      Low(Shr(row[FieldByte(i, depth)], 8 - depth - FieldBit(i, depth)), depth)
  }

  /** Samples of less than eight bits fill the bytes one after the other. */
  lemma FieldStep(i: nat, d: nat)
    requires d == 1 || d == 2 || d == 4
    ensures FieldBit(i, d) + d <= 8
    ensures i % (8 / d) == 0 <==> FieldBit(i, d) == 0
    ensures if FieldBit(i, d) + d == 8 then FieldByte(i + 1, d) == FieldByte(i, d) + 1 && FieldBit(i + 1, d) == 0
            else FieldByte(i + 1, d) == FieldByte(i, d) && FieldBit(i + 1, d) == FieldBit(i, d) + d
  {
    hide FieldByte, FieldBit;
    if d == 1 { FieldsOfOne(i); } else if d == 2 { FieldsOfTwo(i); } else { FieldsOfFour(i); }
  }

  lemma FieldInside(i: nat, d: nat, n: nat)
    requires (d == 1 || d == 2 || d == 4) && (i + 1) * d <= 8 * n
    ensures FieldByte(i, d) < n && FieldBit(i, d) + d <= 8
  {
    hide FieldByte, FieldBit;
    if d == 1 { FieldsOfOne(i); } else if d == 2 { FieldsOfTwo(i); } else { FieldsOfFour(i); }
  }

  lemma FieldsOfOne(i: nat)
    ensures FieldByte(i, 1) == i / 8 && FieldBit(i, 1) == 1 * (i % 8)
    ensures FieldByte(i + 1, 1) == (i + 1) / 8 && FieldBit(i + 1, 1) == 1 * ((i + 1) % 8)
  {
  }

  lemma FieldsOfTwo(i: nat)
    ensures FieldByte(i, 2) == i / 4 && FieldBit(i, 2) == 2 * (i % 4)
    ensures FieldByte(i + 1, 2) == (i + 1) / 4 && FieldBit(i + 1, 2) == 2 * ((i + 1) % 4)
  {
  }

  lemma FieldsOfFour(i: nat)
    ensures FieldByte(i, 4) == i / 2 && FieldBit(i, 4) == 4 * (i % 2)
    ensures FieldByte(i + 1, 4) == (i + 1) / 2 && FieldBit(i + 1, 4) == 4 * ((i + 1) % 2)
  {
  }

  /** The top d bits of a byte shifted up by k are the field at offset k; shifting on keeps that up. */
  lemma ByteField(b: nat, d: nat, k: nat)
    requires k + d <= 8
    ensures Shr(Low(Shl(b, k), 8), 8 - d) == Low(Shr(b, 8 - d - k), d)
    ensures Low(Shl(Low(Shl(b, k), 8), d), 8) == Low(Shl(b, k + d), 8)
  {
    hide Low, Shl, Shr;
    LowOfShl(b, k, 8 - k);
    ShrAdd(Shl(Low(b, 8 - k), k), k, 8 - d - k);
    ShrShl(Low(b, 8 - k), k);
    ShrOfLow(b, 8 - d - k, d);
    LowOfShl(Shl(b, k), d, 8);
    LowOfLow(Shl(Shl(b, k), d), 8, d);
    ShlTwice(b, k, d);
  }

  /** Grey scaling stays within a byte. */
  lemma ScaleFits(row: seq<byte>, depth: nat, i: nat, color: nat)
    requires (depth == 1 || depth == 2 || depth == 4) && (i + 1) * depth <= 8 * |row|
    ensures Scale(depth, color) * Sample(row, depth, i) < 256
  {
    FieldInside(i, depth, |row|);
    LowBound(Shr(row[FieldByte(i, depth)], 8 - depth - FieldBit(i, depth)), depth);
    assert Pow2(1) == 2 && Pow2(2) == 4 && Pow2(4) == 16;
    if depth == 1 {} else if depth == 2 {} else {}
  }

  /** The first n samples stand in `out`, scaled. */
  ghost predicate Samples(out: array<nat>, dest: nat, row: seq<byte>, depth: nat, scale: nat, n: nat)
    reads out
  {
    && Depth(depth) && dest + n <= out.Length && n * depth <= 8 * |row|
    && forall i :: 0 <= i < n ==> (i + 1) * depth <= 8 * |row| && out[dest + i] == scale * Sample(row, depth, i)
  }

  /** Outside of n places from dest on, nothing has changed. */
  twostate predicate Elsewhere(out: array<nat>, dest: nat, n: nat)
    reads out
  {
    forall i :: 0 <= i < out.Length && !(dest <= i < dest + n) ==> out[i] == old(out[i])
  }

  /** Expanding bit fields to bytes, for depths 1, 2 and 4. */
  method ExpandBits(buf: array<nat>, cur: nat, out: array<nat>, dest: nat, nsmp: nat, depth: nat, color: nat,
                    ghost row: seq<byte>)
    requires (depth == 1 || depth == 2 || depth == 4) && nsmp * depth <= 8 * |row| && Half(buf, cur, row)
    requires dest + nsmp <= out.Length && buf != out
    modifies out
    ensures Samples(out, dest, row, depth, Scale(depth, color), nsmp) && Elsewhere(out, dest, nsmp)
  {
    hide Sample, Low, Shl, Shr, FieldByte, FieldBit;
    var scale := if color == 0 then Scale(depth, 0) else 1;
    var inb: nat, at: nat := 0, 0;
    FieldStart(depth);
    for i := 0 to nsmp
      invariant at == if FieldBit(i, depth) == 0 then FieldByte(i, depth) else FieldByte(i, depth) + 1
      invariant FieldBit(i, depth) != 0 ==>
          FieldByte(i, depth) < |row| && inb == Low(Shl(row[FieldByte(i, depth)], FieldBit(i, depth)), 8)
      invariant Samples(out, dest, row, depth, scale, i) && Elsewhere(out, dest, nsmp)
    {
      FieldStep(i, depth);
      SampleStep(i, nsmp, depth);
      FieldInside(i, depth, |row|);
      if i % (8 / depth) == 0 {
        inb := buf[cur + at];
        at := at + 1;
      }
      FieldSample(row, depth, i);
      ScaleFits(row, depth, i, color);
      out[dest + i] := scale * Shr(inb, 8 - depth) % 256;
      inb := Low(Shl(inb, depth), 8);
    }
  }

  lemma FieldStart(d: nat)
    ensures FieldByte(0, d) == 0 && FieldBit(0, d) == 0
  {
  }

  /** Reading sample i from the byte in hand, and what is left in it. */
  lemma FieldSample(row: seq<byte>, d: nat, i: nat)
    requires (d == 1 || d == 2 || d == 4) && (i + 1) * d <= 8 * |row|
    ensures FieldByte(i, d) < |row| && FieldBit(i, d) + d <= 8
    ensures var b, k := row[FieldByte(i, d)], FieldBit(i, d);
            && Shr(Low(Shl(b, k), 8), 8 - d) == Sample(row, d, i)
            && Low(Shl(Low(Shl(b, k), 8), d), 8) == Low(Shl(b, k + d), 8)
            && (k == 0 ==> Low(Shl(b, k), 8) == b)
  {
    FieldInside(i, d, |row|);
    hide Low, Shr, FieldByte, FieldBit;
    var b, k := row[FieldByte(i, d)], FieldBit(i, d);
    ByteField(b, d, k);
    assert Pow2(8) == 256;
    LowSmall(b, 8);
  }

  lemma SampleStep(i: nat, n: nat, d: nat)
    requires i < n
    ensures (i + 1) * d <= n * d
  {
  }

  // ----- the alpha channel

  /** Where output sample q of a row comes from when every n samples are followed by an alpha sample. */
  function Behind(q: nat, n: nat): nat { q / (n + 1) * n + q % (n + 1) }

  /** Output sample q of a row of pixels with n samples each and alpha behind them. */
  function StretchedAt(plain: seq<nat>, n: nat, alpha: nat, q: nat): nat {
    if q % (n + 1) == n then alpha else if Behind(q, n) < |plain| then plain[Behind(q, n)] else 0
  }

  /** Output samples from..to of a row are as they should be. */
  ghost predicate Stretched(dest: array<nat>, d: nat, plain: seq<nat>, n: nat, alpha: nat, from: nat, to: nat)
    reads dest
  {
    d + to <= dest.Length && forall q :: from <= q < to ==> dest[d + q] == StretchedAt(plain, n, alpha, q)
  }

  lemma GreyPixel(plain: seq<nat>, alpha: nat, i: nat)
    requires i < |plain|
    ensures StretchedAt(plain, 1, alpha, 2 * i) == plain[i] && StretchedAt(plain, 1, alpha, 2 * i + 1) == alpha
  {
  }

  lemma RgbPixel(plain: seq<nat>, alpha: nat, i: nat)
    requires 3 * i + 2 < |plain|
    ensures StretchedAt(plain, 3, alpha, 4 * i) == plain[3 * i] &&
        StretchedAt(plain, 3, alpha, 4 * i + 1) == plain[3 * i + 1]
    ensures StretchedAt(plain, 3, alpha, 4 * i + 2) == plain[3 * i + 2] &&
        StretchedAt(plain, 3, alpha, 4 * i + 3) == alpha
  {
    hide Behind;
    BehindRgb(i, 0);
    BehindRgb(i, 1);
    BehindRgb(i, 2);
    BehindRgb(i, 3);
  }

  lemma BehindRgb(i: nat, k: nat)
    requires k < 4
    ensures Behind(4 * i + k, 3) == 3 * i + k && (4 * i + k) % 4 == k
  {
    assert (4 * i + k) / 4 == i;
  }

  /** stbi__create_png_alpha_expand8: from the last pixel to the first, so that both may start at the same place. */
  method AlphaExpand8(dest: array<nat>, d: nat, src: array<nat>, s: nat, x: nat, img_n: nat)
    requires img_n == 1 || img_n == 3
    requires d + x * (img_n + 1) <= dest.Length && s + x * img_n <= src.Length && (dest == src ==> d == s)
    modifies dest
    ensures Stretched(dest, d, old(src[s..s + x * img_n]), img_n, 255, 0, x * (img_n + 1))
    ensures Elsewhere(dest, d, x * (img_n + 1))
  {
    if img_n == 1 { AlphaGrey(dest, d, src, s, x); } else { AlphaRgb(dest, d, src, s, x); }
  }

  method AlphaGrey(dest: array<nat>, d: nat, src: array<nat>, s: nat, x: nat)
    requires d + x * 2 <= dest.Length && s + x <= src.Length && (dest == src ==> d == s)
    modifies dest
    ensures Stretched(dest, d, old(src[s..s + x]), 1, 255, 0, x * 2) && Elsewhere(dest, d, x * 2)
  {
    hide StretchedAt;
    ghost var plain := src[s..s + x];
    for i := x downto 0
      invariant Stretched(dest, d, plain, 1, 255, 2 * i, 2 * x)
      invariant Elsewhere(dest, d + 2 * i, 2 * (x - i))
    {
      GreyPixel(plain, 255, i);
      assert src[s + i] == plain[i];
      dest[d + i * 2 + 1] := 255;
      dest[d + i * 2 + 0] := src[s + i];
    }
  }

  method AlphaRgb(dest: array<nat>, d: nat, src: array<nat>, s: nat, x: nat)
    requires d + x * 4 <= dest.Length && s + x * 3 <= src.Length && (dest == src ==> d == s)
    modifies dest
    ensures Stretched(dest, d, old(src[s..s + x * 3]), 3, 255, 0, x * 4) && Elsewhere(dest, d, x * 4)
  {
    hide StretchedAt;
    ghost var plain := src[s..s + x * 3];
    for i := x downto 0
      invariant Stretched(dest, d, plain, 3, 255, 4 * i, 4 * x)
      invariant Elsewhere(dest, d + 4 * i, 4 * (x - i))
    {
      RgbPixel(plain, 255, i);
      assert src[s + i * 3 + 2] == plain[i * 3 + 2];
      assert src[s + i * 3 + 1] == plain[i * 3 + 1];
      assert src[s + i * 3] == plain[i * 3];
      dest[d + i * 4 + 3] := 255;
      dest[d + i * 4 + 2] := src[s + i * 3 + 2];
      dest[d + i * 4 + 1] := src[s + i * 3 + 1];
      dest[d + i * 4 + 0] := src[s + i * 3 + 0];
    }
  }

  // ----- a whole row

  /** All samples of a row, scaled. */
  function RowSamples(row: seq<byte>, depth: nat, color: nat, n: nat): (r: seq<nat>)
    requires Depth(depth) && n * depth <= 8 * |row|
    ensures |r| == n
  {
    seq(n, i requires 0 <= i < n => SampleStep(i, n, depth); Scale(depth, color) * Sample(row, depth, i))
  }

  function Opaque(depth: nat): nat { if depth == 16 then 0xffff else 255 }

  /** Output sample q of a row of pixels. */
  function OutSample(plain: seq<nat>, img_n: nat, out_n: nat, depth: nat, q: nat): nat {
    if out_n != img_n then StretchedAt(plain, img_n, Opaque(depth), q) else if q < |plain| then plain[q] else 0
  }

  /** The row's output samples stand in `out`. */
  ghost predicate RowShown(out: array<nat>, dest: nat, plain: seq<nat>, img_n: nat, out_n: nat, depth: nat, x: nat)
    reads out
  {
    && dest + x * out_n <= out.Length
    && forall q :: 0 <= q < x * out_n ==> out[dest + q] == OutSample(plain, img_n, out_n, depth, q)
  }

  lemma SamplesShown(out: array<nat>, dest: nat, row: seq<byte>, depth: nat, color: nat, n: nat)
    requires Samples(out, dest, row, depth, Scale(depth, color), n)
    ensures out[dest..dest + n] == RowSamples(row, depth, color, n)
  {
    hide Sample;
    forall i | 0 <= i < n
      ensures out[dest + i] == RowSamples(row, depth, color, n)[i]
    {
      assert out[dest + i] == Scale(depth, color) * Sample(row, depth, i);
    }
  }

  /** Depths below eight. */
  method ShowBits(buf: array<nat>, cur: nat, out: array<nat>, dest: nat, x: nat, img_n: nat, out_n: nat, depth: nat,
                  color: nat, ghost row: seq<byte>)
    requires Channels(img_n, out_n) && (depth == 1 || depth == 2 || depth == 4) && x * img_n * depth <= 8 * |row|
    requires Half(buf, cur, row) && buf != out && dest + x * img_n <= dest + x * out_n <= out.Length
    modifies out
    ensures RowShown(out, dest, RowSamples(row, depth, color, x * img_n), img_n, out_n, depth, x)
    ensures Elsewhere(out, dest, x * out_n)
  {
    hide Sample, StretchedAt, RowSamples, Scale;
    ExpandBits(buf, cur, out, dest, x * img_n, depth, color, row);
    SamplesShown(out, dest, row, depth, color, x * img_n);
    ghost var plain := RowSamples(row, depth, color, x * img_n);
    if img_n != out_n {
      AlphaExpand8(out, dest, out, dest, x, img_n);
    } else {
      forall q | 0 <= q < x * out_n
        ensures out[dest + q] == plain[q]
      {
        assert out[dest + q] == out[dest..dest + x * img_n][q];
      }
    }
  }

  lemma ByteSamples(row: seq<byte>, color: nat, n: nat)
    requires n * 8 <= 8 * |row|
    ensures RowSamples(row, 8, color, n) == row[..n]
  {
  }

  /** Depth eight. */
  method ShowBytes(buf: array<nat>, cur: nat, out: array<nat>, dest: nat, x: nat, img_n: nat, out_n: nat, color: nat,
                   ghost row: seq<byte>)
    requires Channels(img_n, out_n) && x * img_n <= |row|
    requires Half(buf, cur, row) && buf != out && dest + x * out_n <= out.Length
    modifies out
    ensures RowShown(out, dest, RowSamples(row, 8, color, x * img_n), img_n, out_n, 8, x)
    ensures Elsewhere(out, dest, x * out_n)
  {
    hide StretchedAt, RowSamples;
    ByteSamples(row, color, x * img_n);
    assert buf[cur..cur + x * img_n] == row[..x * img_n];
    if img_n == out_n {
      for q := 0 to x * img_n
        invariant forall k :: 0 <= k < q ==> out[dest + k] == row[k]
        invariant Elsewhere(out, dest, x * out_n)
      {
        out[dest + q] := buf[cur + q];
      }
    } else {
      AlphaExpand8(out, dest, buf, cur, x, img_n);
    }
  }

  lemma PairSamples(row: seq<byte>, color: nat, n: nat, i: nat)
    requires n * 16 <= 8 * |row| && i < n
    ensures RowSamples(row, 16, color, n)[i] == (row[2 * i] as nat) * 256 + row[2 * i + 1]
  {
  }

  /** `(cur[0] << 8) | cur[1]` */
  lemma PairByOr(hi: byte, lo: byte)
    ensures Or(Shl(hi, 8), lo) == hi * 256 + lo
  {
    assert Pow2(8) == 256;
    ShlIsTimes(hi, 8);
    OrDisjoint(lo, hi, 8);
    OrCommutes(Shl(hi, 8), lo);
  }

  /** Depth sixteen, one sample: two bytes of the row. */
  method Pair(buf: array<nat>, cur: nat, i: nat, ghost row: seq<byte>, ghost color: nat, ghost n: nat) returns (r: nat)
    requires Half(buf, cur, row) && n * 16 <= 8 * |row| && i < n
    ensures r == RowSamples(row, 16, color, n)[i]
  {
    hide RowSamples, Or, Shl;
    PairSamples(row, color, n, i);
    PairByOr(row[2 * i], row[2 * i + 1]);
    r := Or(Shl(buf[cur + 2 * i], 8), buf[cur + 2 * i + 1]);
  }

  method ShowGreyPairs(buf: array<nat>, cur: nat, out: array<nat>, dest: nat, x: nat, ghost color: nat,
                       ghost row: seq<byte>)
    requires x * 16 <= 8 * |row| && Half(buf, cur, row) && buf != out && dest + 2 * x <= out.Length
    modifies out
    ensures Stretched(out, dest, RowSamples(row, 16, color, x), 1, 0xffff, 0, 2 * x) && Elsewhere(out, dest, 2 * x)
  {
    hide StretchedAt, RowSamples, Half;
    ghost var plain := RowSamples(row, 16, color, x);
    for i := 0 to x
      invariant Stretched(out, dest, plain, 1, 0xffff, 0, 2 * i) && Elsewhere(out, dest, 2 * x)
    {
      GreyPixel(plain, 0xffff, i);
      out[dest + 2 * i] := Pair(buf, cur, i, row, color, x);
      out[dest + 2 * i + 1] := 0xffff;
    }
  }

  method ShowRgbPairs(buf: array<nat>, cur: nat, out: array<nat>, dest: nat, x: nat, ghost color: nat,
                      ghost row: seq<byte>)
    requires x * 3 * 16 <= 8 * |row| && Half(buf, cur, row) && buf != out && dest + 4 * x <= out.Length
    modifies out
    ensures Stretched(out, dest, RowSamples(row, 16, color, x * 3), 3, 0xffff, 0, 4 * x) && Elsewhere(out, dest, 4 * x)
  {
    hide StretchedAt, RowSamples, Half;
    ghost var plain := RowSamples(row, 16, color, x * 3);
    for i := 0 to x
      invariant Stretched(out, dest, plain, 3, 0xffff, 0, 4 * i) && Elsewhere(out, dest, 4 * x)
    {
      RgbPixel(plain, 0xffff, i);
      out[dest + 4 * i] := Pair(buf, cur, 3 * i, row, color, x * 3);
      out[dest + 4 * i + 1] := Pair(buf, cur, 3 * i + 1, row, color, x * 3);
      out[dest + 4 * i + 2] := Pair(buf, cur, 3 * i + 2, row, color, x * 3);
      out[dest + 4 * i + 3] := 0xffff;
    }
  }

  /** Depth sixteen. */
  method ShowPairs(buf: array<nat>, cur: nat, out: array<nat>, dest: nat, x: nat, img_n: nat, out_n: nat, color: nat,
                   ghost row: seq<byte>)
    requires Channels(img_n, out_n) && x * img_n * 2 <= |row|
    requires Half(buf, cur, row) && buf != out && dest + x * out_n <= out.Length
    modifies out
    ensures RowShown(out, dest, RowSamples(row, 16, color, x * img_n), img_n, out_n, 16, x)
    ensures Elsewhere(out, dest, x * out_n)
  {
    hide StretchedAt, RowSamples, Half, Behind;
    ghost var plain := RowSamples(row, 16, color, x * img_n);
    if img_n == out_n {
      for i := 0 to x * img_n
        invariant forall k :: 0 <= k < i ==> out[dest + k] == plain[k]
        invariant Elsewhere(out, dest, x * out_n)
      {
        out[dest + i] := Pair(buf, cur, i, row, color, x * img_n);
      }
    } else if img_n == 1 {
      ShowGreyPairs(buf, cur, out, dest, x, color, row);
    } else {
      ShowRgbPairs(buf, cur, out, dest, x, color, row);
    }
  }

  /** A row of any depth. */
  method ShowRow(buf: array<nat>, cur: nat, out: array<nat>, dest: nat, x: nat, img_n: nat, out_n: nat, depth: nat,
                 color: nat, ghost row: seq<byte>)
    requires Channels(img_n, out_n) && Depth(depth) && x * img_n * depth <= 8 * |row|
    requires Half(buf, cur, row) && buf != out && dest + x * img_n <= dest + x * out_n <= out.Length
    modifies out
    ensures RowShown(out, dest, RowSamples(row, depth, color, x * img_n), img_n, out_n, depth, x)
    ensures Elsewhere(out, dest, x * out_n)
  {
    hide RowShown, Half, RowSamples;
    if depth < 8 {
      ShowBits(buf, cur, out, dest, x, img_n, out_n, depth, color, row);
    } else if depth == 8 {
      ShowBytes(buf, cur, out, dest, x, img_n, out_n, color, row);
    } else {
      ShowPairs(buf, cur, out, dest, x, img_n, out_n, color, row);
    }
  }
}
