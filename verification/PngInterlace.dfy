/**
 stbi__create_png_image: the passes of an interlaced image are decoded one after
 the other and their pixels put into place.
 */
module PngInterlace {
  import opened Bits
  import opened Common
  import opened PngFilter
  import opened PngSamples
  import opened PngImage
  import opened Adam7

  // ----- places in a flat image of n samples per pixel

  function PixelAt(x: nat, y: nat, width: nat, n: nat): nat { (y * width + x) * n }

  lemma After(a: nat, b: nat, n: nat)
    requires a < b
    ensures a * n + n <= b * n
  {
    var d := b - a - 1;
    assert b * n == (a + 1 + d) * n == a * n + n + d * n;
    assert d * n >= 0;
  }

  lemma PixelInside(x: nat, y: nat, width: nat, height: nat, n: nat)
    requires x < width && y < height
    ensures PixelAt(x, y, width, n) + n <= width * height * n
  {
    After(y, height, width);
    After(y * width + x, width * height, n);
  }

  lemma PixelApart(x: nat, y: nat, u: nat, v: nat, width: nat, n: nat)
    requires x < width && u < width && (x, y) != (u, v)
    ensures PixelAt(x, y, width, n) + n <= PixelAt(u, v, width, n) ||
        PixelAt(u, v, width, n) + n <= PixelAt(x, y, width, n)
  {
    if y < v { After(y, v, width); } else if v < y { After(v, y, width); }
    var a, b := y * width + x, v * width + u;
    if a < b { After(a, b, n); } else { After(b, a, n); }
  }

  /** The n samples of one pixel. */
  function PixelOf(pix: seq<nat>, x: nat, y: nat, width: nat, n: nat): seq<nat> {
    if PixelAt(x, y, width, n) + n <= |pix| then pix[PixelAt(x, y, width, n)..PixelAt(x, y, width, n) + n] else []
  }

  /** memcpy of one pixel; all other pixels stay. */
  method CopyPixel(final: array<nat>, x: nat, y: nat, width: nat, height: nat, src: array<nat>, i: nat, j: nat, w: nat,
                   h: nat, n: nat)
    requires x < width && y < height && final.Length == width * height * n
    requires i < w && j < h && src.Length == w * h * n && src != final
    modifies final
    ensures PixelOf(final[..], x, y, width, n) == PixelOf(src[..], i, j, w, n)
    ensures forall u, v :: 0 <= u < width && 0 <= v < height && (u, v) != (x, y) ==>
              PixelOf(final[..], u, v, width, n) == old(PixelOf(final[..], u, v, width, n))
  {
    hide PixelAt;
    PixelInside(x, y, width, height, n);
    PixelInside(i, j, w, h, n);
    var to, from := PixelAt(x, y, width, n), PixelAt(i, j, w, n);
    for k := 0 to n
      invariant forall q :: to <= q < to + k ==> final[q] == src[from + (q - to)]
      invariant forall q :: 0 <= q < final.Length && !(to <= q < to + n) ==> final[q] == old(final[q])
    {
      final[to + k] := src[from + k];
    }
    assert final[to..to + n] == src[from..from + n];
    forall u, v | 0 <= u < width && 0 <= v < height && (u, v) != (x, y)
      ensures PixelOf(final[..], u, v, width, n) == old(PixelOf(final[..], u, v, width, n))
    {
      PixelInside(u, v, width, height, n);
      PixelApart(x, y, u, v, width, n);
      var at := PixelAt(u, v, width, n);
      assert final[at..at + n] == old(final[at..at + n]);
    }
  }

  // ----- one pass

  /** Pixel (x, y) of the image belongs to pass p and comes before position (i, j) of it. */
  ghost predicate Earlier(p: nat, x: nat, y: nat, i: nat, j: nat)
    requires p < 7
  {
    PassOf(x, y) == p && (y / YSpc(p) < j || (y / YSpc(p) == j && x / XSpc(p) < i))
  }

  /** The pixel of the pass that belongs at (x, y). */
  ghost function PassPixel(src: seq<nat>, p: nat, x: nat, y: nat, w: nat, n: nat): seq<nat>
    requires p < 7
  {
    PixelOf(src, x / XSpc(p), y / YSpc(p), w, n)
  }

  /** Up to position (i, j) the pixels of pass p are in place, and all others are as before. */
  ghost predicate Placed(was: seq<nat>, now: seq<nat>, src: seq<nat>, p: nat, i: nat, j: nat, width: nat, height: nat,
                         w: nat, n: nat)
    requires p < 7
  {
    forall x, y :: 0 <= x < width && 0 <= y < height ==>
      PixelOf(now, x, y, width, n) == if Earlier(p, x, y, i, j) then PassPixel(src, p, x, y, w, n)
        else PixelOf(was, x, y, width, n)
  }

  /** The two loops that put the pixels of a pass into place. */
  method CopyPass(final: array<nat>, src: array<nat>, p: nat, width: nat, height: nat, n: nat)
    requires p < 7 && 0 < width <= 0x0100_0000 && 0 < height <= 0x0100_0000
    requires final.Length == width * height * n && src.Length == PassX(width, p) * PassY(height, p) * n && src != final
    modifies final
    ensures Placed(old(final[..]), final[..], src[..], p, 0, PassY(height, p), width, height, PassX(width, p), n)
  {
    hide PixelOf, PassOf, PixelAt, Steps;
    var w, h := PassX(width, p), PassY(height, p);
    ghost var was := final[..];
    for j := 0 to h
      invariant Placed(was, final[..], src[..], p, 0, j, width, height, w, n)
    {
      for i := 0 to w
        invariant Placed(was, final[..], src[..], p, i, j, width, height, w, n)
      {
        ghost var before := final[..];
        TargetBelongs(width, height, p, i, j);
        CopyPixel(final, TargetX(p, i), TargetY(p, j), width, height, src, i, j, w, h, n);
        PlacedOne(was, before, final[..], src[..], p, i, j, width, height, w, n);
      }
      PlacedRow(was, final[..], src[..], p, j, width, height, w, n);
    }
  }

  lemma PlacedOne(was: seq<nat>, before: seq<nat>, now: seq<nat>, src: seq<nat>, p: nat, i: nat, j: nat, width: nat,
                  height: nat, w: nat, n: nat)
    requires p < 7 && Placed(was, before, src, p, i, j, width, height, w, n)
    requires PassOf(TargetX(p, i), TargetY(p, j)) == p
    requires PixelOf(now, TargetX(p, i), TargetY(p, j), width, n) == PixelOf(src, i, j, w, n)
    requires forall u, v :: 0 <= u < width && 0 <= v < height && (u, v) != (TargetX(p, i), TargetY(p, j)) ==>
               PixelOf(now, u, v, width, n) == PixelOf(before, u, v, width, n)
    ensures Placed(was, now, src, p, i + 1, j, width, height, w, n)
  {
    hide PixelOf, PassOf;
    forall x, y | 0 <= x < width && 0 <= y < height
      ensures PixelOf(now, x, y, width, n) ==
              if Earlier(p, x, y, i + 1, j) then PassPixel(src, p, x, y, w, n) else PixelOf(was, x, y, width, n)
    {
      SourceOf(x, y);
      SameQuotient(i, XSpc(p), XOrig(p));
      SameQuotient(j, YSpc(p), YOrig(p));
    }
  }

  lemma PlacedRow(was: seq<nat>, now: seq<nat>, src: seq<nat>, p: nat, j: nat, width: nat, height: nat, w: nat, n: nat)
    requires p < 7 && 0 < width <= 0x0100_0000 && w == PassX(width, p)
    requires Placed(was, now, src, p, w, j, width, height, w, n)
    ensures Placed(was, now, src, p, 0, j + 1, width, height, w, n)
  {
    hide PixelOf, PassOf, Steps;
    forall x, y | 0 <= x < width && 0 <= y < height
      ensures Earlier(p, x, y, w, j) == Earlier(p, x, y, 0, j + 1)
    {
      SourceOf(x, y);
      StepsCount(width, XOrig(p), XSpc(p), x / XSpc(p));
    }
  }

  // ----- the whole image

  datatype Format = Format(img_n: nat, out_n: nat, depth: nat, color: nat)

  ghost predicate ValidFormat(f: Format) {
    Channels(f.img_n, f.out_n) && Depth(f.depth)
  }

  /** Pixel i of reconstructed row j, as output samples. */
  ghost function RawPixel(raw: seq<byte>, f: Format, x: nat, i: nat, j: nat): seq<nat>
    requires ValidFormat(f) && x > 0 && Lines(raw, WidthBytes(f.img_n, x, f.depth), j + 1)
  {
    Widths(f.img_n, x, f.depth);
    var row := Row(raw, WidthBytes(f.img_n, x, f.depth), Bpp(f.img_n, f.depth), j);
    var plain := RowSamples(row, f.depth, f.color, x * f.img_n);
    seq<nat>(f.out_n, k requires 0 <= k => OutSample(plain, f.img_n, f.out_n, f.depth, i * f.out_n + k))
  }

  lemma PixelInRow(x: nat, i: nat, j: nat, n: nat)
    requires i < x
    ensures PixelAt(i, j, x, n) == x * n * j + i * n && i * n + n <= x * n
  {
    After(i, x, n);
    assert j * x * n == x * n * j;
  }

  lemma DecodedPixel(pix: seq<nat>, raw: seq<byte>, f: Format, x: nat, i: nat, j: nat)
    requires ValidFormat(f) && i < x && RowDecoded(pix, raw, f.img_n, f.out_n, x, f.depth, f.color, j)
    ensures Lines(raw, WidthBytes(f.img_n, x, f.depth), j + 1)
    ensures PixelOf(pix, i, j, x, f.out_n) == RawPixel(raw, f, x, i, j)
  {
    hide OutSample, Row, RowSamples, Lines, PixelAt;
    PixelInRow(x, i, j, f.out_n);
    var at, d := PixelAt(i, j, x, f.out_n), x * f.out_n * j;
    forall k | 0 <= k < f.out_n
      ensures pix[at..at + f.out_n][k] == RawPixel(raw, f, x, i, j)[k]
    {
      var q := i * f.out_n + k;
      assert pix[d + q] == RawPixel(raw, f, x, i, j)[k];
    }
  }

  /** Where the data of pass p starts: behind the passes before it that are not empty. */
  ghost function PassStart(f: Format, width: nat, height: nat, p: nat): nat
    requires p <= 7
  {
    if p == 0 then 0
    else
      var x, y := PassX(width, p - 1), PassY(height, p - 1);
      PassStart(f, width, height, p - 1) + if x == 0 || y == 0 then 0 else LineAt(y, WidthBytes(f.img_n, x, f.depth))
  }

  ghost function PassData(raw: seq<byte>, f: Format, width: nat, height: nat, p: nat): seq<byte>
    requires p < 7
  {
    if PassStart(f, width, height, p) <= |raw| then raw[PassStart(f, width, height, p)..] else []
  }

  ghost predicate PassDecodable(raw: seq<byte>, f: Format, width: nat, height: nat, p: nat)
    requires p < 7
  {
    var x, y := PassX(width, p), PassY(height, p);
    x == 0 || y == 0 || Decodable(PassData(raw, f, width, height, p), f.img_n, f.out_n, x, y, f.depth)
  }

  /** Pixel (x, y) shows the pixel of its pass that belongs there. */
  ghost predicate PixelRight(pix: seq<nat>, raw: seq<byte>, f: Format, width: nat, height: nat, x: nat, y: nat)
    requires ValidFormat(f)
  {
    var p := PassOf(x, y);
    var i, j := x / XSpc(p), y / YSpc(p);
    && i < PassX(width, p)
    && var data, w := PassData(raw, f, width, height, p), PassX(width, p);
    && Lines(data, WidthBytes(f.img_n, w, f.depth), j + 1)
    && PixelOf(pix, x, y, width, f.out_n) == RawPixel(data, f, w, i, j)
  }

  /** All pixels of the first p passes are right. */
  ghost predicate PassesRight(pix: seq<nat>, raw: seq<byte>, f: Format, width: nat, height: nat, p: nat)
    requires ValidFormat(f)
  {
    forall x, y :: 0 <= x < width && 0 <= y < height && PassOf(x, y) < p ==>
      PixelRight(pix, raw, f, width, height, x, y)
  }

  lemma NoPassYet(pix: seq<nat>, raw: seq<byte>, f: Format, width: nat, height: nat)
    requires ValidFormat(f)
    ensures PassesRight(pix, raw, f, width, height, 0)
  {
  }

  lemma PassDataIs(raw: seq<byte>, f: Format, width: nat, height: nat, p: nat)
    requires p < 7 && PassStart(f, width, height, p) <= |raw|
    ensures PassData(raw, f, width, height, p) == raw[PassStart(f, width, height, p)..]
  {
  }

  lemma EmptyPass(pix: seq<nat>, raw: seq<byte>, f: Format, width: nat, height: nat, p: nat)
    requires ValidFormat(f) && p < 7 && 0 < width <= 0x0100_0000 && 0 < height <= 0x0100_0000
    requires PassesRight(pix, raw, f, width, height, p) && (PassX(width, p) == 0 || PassY(height, p) == 0)
    ensures PassesRight(pix, raw, f, width, height, p + 1)
  {
    hide PixelRight, PassOf, Steps;
    forall x, y | 0 <= x < width && 0 <= y < height
      ensures PassOf(x, y) != p
    {
      EveryPixelOnce(width, height, x, y);
    }
  }

  /** A pass put into place is right, and the passes before it stay right. */
  lemma PassDone(was: seq<nat>, now: seq<nat>, src: seq<nat>, raw: seq<byte>, f: Format, width: nat, height: nat,
                 p: nat)
    requires ValidFormat(f) && p < 7 && 0 < width <= 0x0100_0000 && 0 < height <= 0x0100_0000
    requires PassesRight(was, raw, f, width, height, p)
    requires PassX(width, p) > 0 &&
             RowsDecoded(src, PassData(raw, f, width, height, p), f.img_n, f.out_n, PassX(width, p), f.depth, f.color,
               PassY(height, p))
    requires Placed(was, now, src, p, 0, PassY(height, p), width, height, PassX(width, p), f.out_n)
    ensures PassesRight(now, raw, f, width, height, p + 1)
  {
    hide PassOf, Steps, PixelOf, RawPixel, PassData, Lines, RowDecoded;
    forall x, y | 0 <= x < width && 0 <= y < height && PassOf(x, y) < p + 1
      ensures PixelRight(now, raw, f, width, height, x, y)
    {
      EveryPixelOnce(width, height, x, y);
      if PassOf(x, y) == p {
        DecodedPixel(src, PassData(raw, f, width, height, p), f, PassX(width, p), x / XSpc(p), y / YSpc(p));
      } else {
        assert PixelRight(was, raw, f, width, height, x, y);
      }
    }
  }

  lemma AllPassesRight(pix: seq<nat>, raw: seq<byte>, f: Format, width: nat, height: nat)
    requires ValidFormat(f) && PassesRight(pix, raw, f, width, height, 7)
    ensures forall x, y :: 0 <= x < width && 0 <= y < height ==> PixelRight(pix, raw, f, width, height, x, y)
  {
    hide PixelRight;
  }

  /** De-interlacing: succeeds when every pass can be decoded, and then every pixel is the right one of the right
      pass. */
  method CreateInterlaced(png: Png, raw: seq<byte>, f: Format, width: nat, height: nat) returns (ok: bool)
    requires ValidFormat(f) && 0 < width <= 0x0100_0000 && 0 < height <= 0x0100_0000
    modifies png
    ensures ok <==> width * height * (f.out_n * if f.depth == 16 then 2 else 1) <= INT_MAX &&
                    forall p :: 0 <= p < 7 ==> PassDecodable(raw, f, width, height, p)
    ensures ok ==> fresh(png.out) && png.out.Length == width * height * f.out_n
    ensures ok ==> forall x, y :: 0 <= x < width && 0 <= y < height ==>
        PixelRight(png.out[..], raw, f, width, height, x, y)
  {
    hide PixelRight, PassesRight, Steps, LineAt, RowsDecoded, PassData, Placed, TypeAt, Channels;
    if width * height * (f.out_n * if f.depth == 16 then 2 else 1) > INT_MAX { return false; }
    var final := new nat[width * height * f.out_n];
    var image_data := raw;
    NoPassYet(final[..], raw, f, width, height);
    for p := 0 to 7
      invariant fresh(final) && final.Length == width * height * f.out_n
      invariant PassStart(f, width, height, p) <= |raw| && image_data == raw[PassStart(f, width, height, p)..]
      invariant forall q :: 0 <= q < p ==> PassDecodable(raw, f, width, height, q)
      invariant PassesRight(final[..], raw, f, width, height, p)
    {
      var x, y := PassX(width, p), PassY(height, p);
      PassDataIs(raw, f, width, height, p);
      if x != 0 && y != 0 {
        var img_len := ((f.img_n * x * f.depth + 7) / 8 + 1) * y;
        LineEnds(y, WidthBytes(f.img_n, x, f.depth));
        assert img_len == LineAt(y, WidthBytes(f.img_n, x, f.depth));
        ok := png.CreateImageRaw(image_data, f.img_n, f.out_n, x, y, f.depth, f.color);
        assert PassDecodable(raw, f, width, height, p) == ok;
        if !ok { return; }
        ghost var was := final[..];
        CopyPass(final, png.out, p, width, height, f.out_n);
        PassDone(was, final[..], png.out[..], raw, f, width, height, p);
        image_data := image_data[img_len..];
      } else {
        EmptyPass(final[..], raw, f, width, height, p);
      }
    }
    AllPassesRight(final[..], raw, f, width, height);
    png.out := final;
    ok := true;
  }
}
