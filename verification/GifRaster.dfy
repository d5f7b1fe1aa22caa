/**
 Where a GIF frame's colour indices go: row by row, or in the four passes of
 Appendix E of the GIF89a specification.  Offsets count pixels, not bytes.
 */
module GifRaster {
  import opened Bits

  /** A palette entry in file order, and a pixel of the image in memory order. */
  datatype Color = Color(c0: byte, c1: byte, c2: byte, c3: byte)

  // ----- the order of rows

  /** y, y + step, y + 2 step and so on below h. */
  function Rows(y: nat, step: nat, h: nat): seq<nat>
    requires step > 0
    decreases h - y
  {
    if y >= h then [] else [y] + Rows(y + step, step, h)
  }

  /** The passes still to come; `parse` counts them as the decoder does. */
  function Later(parse: nat, h: nat): seq<nat> {
    if parse == 0 then []
    else if parse == 1 then Rows(1, 2, h)
    else if parse == 2 then Rows(2, 4, h) + Later(1, h)
    else Rows(4, 8, h) + Later(2, h)
  }

  function RowOrder(h: nat, interlaced: bool): seq<nat> {
    if interlaced then Rows(0, 8, h) + Later(3, h) else Rows(0, 1, h)
  }

  /** A pass holds the rows of one residue class, in increasing order. */
  lemma {:induction false} RowsMembers(y: nat, step: nat, h: nat)
    requires step == 1 || step == 2 || step == 4 || step == 8
    ensures |Rows(y, step, h)| == if y >= h then 0 else (h - y + step - 1) / step
    ensures forall i :: 0 <= i < |Rows(y, step, h)| ==> Rows(y, step, h)[i] == y + i * step < h
    decreases h - y
  {
    if y < h {
      RowsMembers(y + step, step, h);
      var all, rest := Rows(y, step, h), Rows(y + step, step, h);
      forall i | 0 <= i < |all|
        ensures all[i] == y + i * step < h
      {
        if i > 0 { assert rest[i - 1] == y + step + (i - 1) * step; }
      }
    }
  }

  /** Where a row stands in the order. */
  function RowIndex(row: nat, h: nat, interlaced: bool): nat {
    if !interlaced then row
    else if row % 8 == 0 then row / 8
    else if row % 8 == 4 then (h + 7) / 8 + row / 8
    else if row % 4 == 2 then (h + 7) / 8 + (h + 3) / 8 + row / 4
    else (h + 7) / 8 + (h + 3) / 8 + (h + 1) / 4 + row / 2
  }

  lemma PassSizes(h: nat)
    ensures |Rows(0, 8, h)| == (h + 7) / 8 && |Rows(4, 8, h)| == (h + 3) / 8
    ensures |Rows(2, 4, h)| == (h + 1) / 4 && |Rows(1, 2, h)| == h / 2
    ensures (h + 7) / 8 + (h + 3) / 8 + (h + 1) / 4 + h / 2 == h
  {
    hide Rows;
    PassSum(h);
    RowsMembers(0, 8, h);
    RowsMembers(4, 8, h);
    RowsMembers(2, 4, h);
    RowsMembers(1, 2, h);
  }

  lemma Passes(h: nat)
    ensures RowOrder(h, true) == Rows(0, 8, h) + (Rows(4, 8, h) + (Rows(2, 4, h) + Rows(1, 2, h)))
  {
    hide Rows;
    assert Later(1, h) == Rows(1, 2, h);
    assert Later(2, h) == Rows(2, 4, h) + Rows(1, 2, h);
  }

  /** Row i of the order, pass by pass. */
  lemma RowAt(h: nat, i: nat)
    requires i < h
    ensures |RowOrder(h, true)| == h
    ensures var n1 := (h + 7) / 8; var n2 := n1 + (h + 3) / 8; var n3 := n2 + (h + 1) / 4;
            RowOrder(h, true)[i] ==
              (if i < n1 then 8 * i else if i < n2 then 4 + 8 * (i - n1) else if i < n3 then 2 + 4 * (i - n2)
                else 1 + 2 * (i - n3))
            && RowOrder(h, true)[i] < h
  {
    hide Rows, RowOrder;
    Passes(h);
    PassSizes(h);
    RowsMembers(0, 8, h);
    RowsMembers(4, 8, h);
    RowsMembers(2, 4, h);
    RowsMembers(1, 2, h);
  }

  /** Within its pass, a row's index is below the pass size. */
  lemma InPass(h: nat, row: nat)
    requires row < h
    ensures row % 8 == 0 ==> row / 8 < (h + 7) / 8
    ensures row % 8 == 4 ==> row / 8 < (h + 3) / 8
    ensures row % 4 == 2 ==> row / 4 < (h + 1) / 4
    ensures row % 2 == 1 ==> row / 2 < h / 2
  {
  }

  lemma Eighths(n: nat)
    ensures n % 4 == (n % 8) % 4 && n % 2 == (n % 8) % 2
    ensures n / 4 == 2 * (n / 8) + (n % 8) / 4 && n / 2 == 4 * (n / 8) + (n % 8) / 2
  {
    var q, r := n / 8, n % 8;
    assert n == 8 * q + r;
    if r < 4 {
      assert n / 4 == 2 * q;
    } else {
      assert n / 4 == 2 * q + 1;
    }
    if r < 2 { assert n / 2 == 4 * q; }
    else if r < 4 { assert n / 2 == 4 * q + 1; }
    else if r < 6 { assert n / 2 == 4 * q + 2; }
    else { assert n / 2 == 4 * q + 3; }
  }

  lemma Residues(row: nat)
    ensures row % 8 == 0 || row % 8 == 4 || row % 4 == 2 || row % 2 == 1
    ensures row % 8 == 0 ==> row == 8 * (row / 8)
    ensures row % 8 == 4 ==> row == 8 * (row / 8) + 4
    ensures row % 4 == 2 ==> row == 4 * (row / 4) + 2 && row % 8 != 0 && row % 8 != 4
    ensures row % 2 == 1 ==> row == 2 * (row / 2) + 1 && row % 8 != 0 && row % 8 != 4 && row % 4 != 2
  {
    Eighths(row);
  }

  lemma IndexInside(h: nat, row: nat)
    requires row < h
    ensures RowIndex(row, h, true) < h
  {
    InPass(h, row);
    Residues(row);
    PassSum(h);
  }

  lemma PassSum(h: nat)
    ensures (h + 7) / 8 + (h + 3) / 8 + (h + 1) / 4 + h / 2 == h
  {
    var q, r := h / 8, h % 8;
    assert (h + 7) / 8 == q + if r >= 1 then 1 else 0;
    assert (h + 3) / 8 == q + if r >= 5 then 1 else 0;
    assert (h + 1) / 4 == 2 * q + if r >= 7 then 2 else if r >= 3 then 1 else 0;
    Eighths(h);
  }

  lemma OrderOfIndex(h: nat, row: nat)
    requires row < h
    ensures RowIndex(row, h, true) < h && |RowOrder(h, true)| == h
    ensures RowOrder(h, true)[RowIndex(row, h, true)] == row
  {
    hide RowOrder;
    IndexInside(h, row);
    InPass(h, row);
    Residues(row);
    RowAt(h, RowIndex(row, h, true));
  }

  lemma IndexOfOrder(h: nat, i: nat)
    requires i < h
    ensures |RowOrder(h, true)| == h && RowOrder(h, true)[i] < h && RowIndex(RowOrder(h, true)[i], h, true) == i
  {
    hide RowOrder;
    RowAt(h, i);
    Residues(RowOrder(h, true)[i]);
  }

  /** The order takes every row of the frame once. */
  lemma RowOrderPermutes(h: nat, interlaced: bool)
    ensures |RowOrder(h, interlaced)| == h
    ensures forall row :: 0 <= row < h ==>
              RowIndex(row, h, interlaced) < h && RowOrder(h, interlaced)[RowIndex(row, h, interlaced)] == row
    ensures forall i :: 0 <= i < h ==> RowOrder(h, interlaced)[i] < h &&
                                       RowIndex(RowOrder(h, interlaced)[i], h, interlaced) == i
  {
    if interlaced {
      hide RowOrder, RowIndex;
      if h > 0 {
        RowAt(h, 0);
      } else {
        Passes(0);
      }
      forall row | 0 <= row < h
        ensures RowIndex(row, h, true) < h && RowOrder(h, true)[RowIndex(row, h, true)] == row
      {
        OrderOfIndex(h, row);
      }
      forall i | 0 <= i < h
        ensures RowOrder(h, true)[i] < h && RowIndex(RowOrder(h, true)[i], h, true) == i
      {
        IndexOfOrder(h, i);
      }
    } else {
      RowsMembers(0, 1, h);
    }
  }

  // ----- the frame

  /** The palette entry as it is stored: the file's order reversed. */
  datatype Rgba = Rgba(r: byte, g: byte, b: byte, a: byte)

  /** What drawing a colour leaves of a pixel: transparent colours leave it alone. */
  function Paint(old_: Rgba, c: Color): Rgba {
    if c.c3 > 128 then Rgba(c.c2, c.c1, c.c0, c.c3) else old_
  }

  /** A frame rectangle inside an image that is `width` pixels wide. */
  datatype Frame = Frame(width: nat, x: nat, y: nat, w: nat, h: nat, interlaced: bool) {

    ghost predicate Fits(size: nat) {
      x + w <= width && (h == 0 || (y + h) * width <= size)
    }

    ghost function Count(): nat { w * h }

    /** The row, within the frame, of the n-th index. */
    ghost function RowOf(n: nat): (row: nat)
      requires n < Count()
      ensures row < h && w > 0 && n / w < h && n % w < w
      ensures |RowOrder(h, interlaced)| == h && row == RowOrder(h, interlaced)[n / w]
      ensures RowIndex(row, h, interlaced) == n / w
    {
      InRow(n, w, h);
      RowOrderPermutes(h, interlaced);
      RowOrder(h, interlaced)[n / w]
    }

    /** The pixel that the n-th index of the frame belongs to. */
    ghost function Target(n: nat): nat
      requires n < Count()
    {
      var row := RowOf(n);
      (y + row) * width + (x + n % w)
    }

    /** The pixels of the rectangle, and no others, are targets, each of one index. */
    lemma TargetsCover(col: nat, row: nat)
      requires x + w <= width && col < w && row < h
      ensures var n := RowIndex(row, h, interlaced) * w + col;
              n < Count() && Target(n) == (y + row) * width + (x + col)
    {
      hide RowOrder, RowIndex, Rows, Later;
      RowOrderPermutes(h, interlaced);
      var i := RowIndex(row, h, interlaced);
      RowBelow(i, h, w, col);
      DivMod(i, w, col);
    }

    lemma TargetsDiffer(m: nat, n: nat)
      requires x + w <= width && m < Count() && n < Count() && Target(m) == Target(n)
      ensures m == n
    {
      hide RowOrder, RowIndex, Rows, Later, RowOf, Count;
      var rm, rn := RowOf(m), RowOf(n);
      SamePixel(y + rm, x + m % w, y + rn, x + n % w, width);
      SameIndex(m, n, w);
    }

    lemma TargetInside(n: nat, size: nat)
      requires Fits(size) && n < Count()
      ensures Target(n) < size
    {
      hide RowOrder, RowIndex, Rows, Later, RowOf, Count;
      RowBelow(y + RowOf(n), y + h, width, x + n % w);
    }
  }

  // ----- arithmetic of rows and columns

  lemma InRow(n: nat, w: nat, h: nat)
    requires n < w * h
    ensures w > 0 && n / w < h && n % w < w
  {
    MulMono(w, 0, h);
    if w > 0 {
      Recompose(n, w);
      MulMono(h, n / w, w);
    }
  }

  lemma SameIndex(m: nat, n: nat, w: nat)
    requires w > 0 && m / w == n / w && m % w == n % w
    ensures m == n
  {
    Recompose(m, w);
    Recompose(n, w);
  }

  lemma MulMono(a: nat, b: nat, w: nat)
    ensures a <= b ==> a * w <= b * w
  {
  }

  lemma Recompose(n: nat, w: nat)
    requires w > 0
    ensures n == (n / w) * w + n % w
  {
  }

  lemma RowBelow(i: nat, h: nat, w: nat, col: nat)
    requires i < h && col < w
    ensures i * w + col < h * w
  {
    MulMono(i + 1, h, w);
  }

  lemma DivMod(i: nat, w: nat, col: nat)
    requires col < w
    ensures (i * w + col) / w == i && (i * w + col) % w == col
  {
    var n := i * w + col;
    Recompose(n, w);
    SamePixel(n / w, n % w, i, col, w);
  }

  /** Row and column are determined by the offset. */
  lemma SamePixel(r1: nat, c1: nat, r2: nat, c2: nat, w: nat)
    requires c1 < w && c2 < w && r1 * w + c1 == r2 * w + c2
    ensures r1 == r2 && c1 == c2
  {
    MulMono(r1 + 1, r2, w);
    MulMono(r2 + 1, r1, w);
  }

  // ----- drawing

  class Raster {
    const out: array<Rgba>
    const history: array<bool>
    const width: nat
    const colors: seq<Color>
    const startX: nat
    const startY: nat
    const maxX: nat
    const maxY: nat
    var curX: nat
    var curY: nat
    var step: nat
    var parse: nat

    ghost const frame: Frame
    ghost const canvas: seq<Rgba>
    ghost var emitted: seq<byte>
    ghost var stepRows: nat

    /** The set-up of a frame, lines 6857 to 6880; the rectangle has been checked against the image. */
    constructor (image: array<Rgba>, touched: array<bool>, f: Frame, palette: seq<Color>)
      requires f.Fits(image.Length) && f.width > 0 && touched.Length == image.Length && |palette| == 256
      requires forall i :: 0 <= i < touched.Length ==> !touched[i]
      ensures Valid() && emitted == [] && fresh(this) && out == image && history == touched
      ensures frame == f && colors == palette && canvas == image[..]
    {
      out, history, width, colors := image, touched, f.width, palette;
      startX, startY := f.x, f.y * f.width;
      maxX, maxY := f.x + f.w, f.y * f.width + f.h * f.width;
      curX := f.x;
      curY := if f.w == 0 then f.y * f.width + f.h * f.width else f.y * f.width;
      step := if f.interlaced then 8 * f.width else f.width;
      parse := if f.interlaced then 3 else 0;
      frame, canvas, emitted := f, image[..], [];
      stepRows := if f.interlaced then 8 else 1;
      new;
      StartsValid();
    }

    ghost predicate Geometry() {
      && width == frame.width > 0 && frame.Fits(out.Length) && |canvas| == out.Length == history.Length &&
        |colors| == 256
      && startX == frame.x && startY == frame.y * width
      && maxX == frame.x + frame.w && maxY == startY + frame.h * width
    }

    /** The cursor stands where index number n goes, with the rows from there on still to come. */
    ghost predicate CursorAt(n: nat)
      requires Geometry()
      reads `curX, `curY, `step, `parse, `stepRows
    {
      if n >= frame.Count() then curY >= maxY
      else
        && curX == frame.x + n % frame.w
        && curY == (frame.y + frame.RowOf(n)) * width
        && RowsLeft(frame.RowOf(n), n / frame.w)
    }

    ghost predicate RowsLeft(row: nat, i: nat)
      requires Geometry() && i <= |RowOrder(frame.h, frame.interlaced)|
      reads `step, `parse, `stepRows
    {
      && parse <= 3 && stepRows > 0 && step == stepRows * width
      && RowOrder(frame.h, frame.interlaced)[i..] == Rows(row, stepRows, frame.h) + Later(parse, frame.h)
    }

    /** Every target so far shows its colour, or what was there if that is transparent; nothing else has changed. */
    ghost predicate Drawn()
      requires Geometry()
      reads `emitted, out, history
    {
      && (forall n :: 0 <= n < |emitted| && n < frame.Count() ==>
            Shows(frame.Target(n), n))
      && (forall p :: 0 <= p < out.Length && !Reached(p) ==> out[p] == canvas[p] && !history[p])
    }

    ghost predicate Shows(p: nat, n: nat)
      requires Geometry() && n < |emitted|
      reads `emitted, out, history
    {
      p < out.Length && history[p] && out[p] == Paint(canvas[p], colors[emitted[n]])
    }

    ghost predicate Reached(p: nat)
      requires Geometry()
      reads `emitted
    {
      exists n :: 0 <= n < |emitted| && n < frame.Count() && frame.Target(n) == p
    }

    ghost predicate Valid()
      reads this, out, history
    {
      Geometry() && CursorAt(|emitted|) && Drawn()
    }

    lemma StartsValid()
      requires Geometry() && emitted == [] && canvas == out[..] && forall i :: 0 <= i < history.Length ==> !history[i]
      requires curX == startX && curY == if frame.w == 0 then maxY else startY
      requires if frame.interlaced then parse == 3 && stepRows == 8 && step == 8 * width
               else parse == 0 && stepRows == 1 && step == width
      ensures Valid()
    {
      RowOrderPermutes(frame.h, frame.interlaced);
      if frame.Count() > 0 {
        assert RowOrder(frame.h, frame.interlaced)[0] == 0;
        assert RowOrder(frame.h, frame.interlaced)[0..] == RowOrder(frame.h, frame.interlaced);
      }
    }

    /** The cursor is above the bottom edge exactly while the rectangle is not full. */
    lemma CursorMeaning(n: nat)
      requires Geometry() && CursorAt(n)
      ensures curY < maxY <==> n < frame.Count()
      ensures n < frame.Count() ==> curX + curY == frame.Target(n) < out.Length
    {
      hide RowsLeft, Frame.RowOf, Frame.Count;
      if n < frame.Count() {
        frame.TargetInside(n, out.Length);
        Below(frame.y, frame.RowOf(n), frame.h, width);
      }
    }

    method Draw(suffix: byte)
      requires Geometry() && Drawn() && |emitted| < frame.Count() && curX + curY == frame.Target(|emitted|) < out.Length
      modifies `emitted, out, history
      ensures emitted == old(emitted) + [suffix] && Drawn()
    {
      hide Frame.Target, Frame.Count;
      ghost var n := |emitted|;
      OthersUntouched();
      var idx := curX + curY;
      history[idx] := true;
      var c := colors[suffix];
      if c.c3 > 128 { out[idx] := Rgba(c.c2, c.c1, c.c0, c.c3); }
      emitted := emitted + [suffix];
      assert Shows(idx, n);
      forall k | 0 <= k < n
        ensures Shows(frame.Target(k), k)
      {
        assert old(Shows(frame.Target(k), k));
        assert frame.Target(k) != idx;
      }
      forall p | 0 <= p < out.Length && !Reached(p)
        ensures out[p] == canvas[p] && !history[p]
      {
        assert frame.Target(n) != p;
        assert !old(Reached(p));
      }
    }

    /** The next target has not been reached before. */
    lemma OthersUntouched()
      requires Geometry() && |emitted| < frame.Count()
      ensures !Reached(frame.Target(|emitted|))
      ensures forall k :: 0 <= k < |emitted| ==> frame.Target(k) != frame.Target(|emitted|)
    {
      hide Frame.Target, Frame.Count;
      forall k | 0 <= k < |emitted|
        ensures frame.Target(k) != frame.Target(|emitted|)
      {
        if frame.Target(k) == frame.Target(|emitted|) { frame.TargetsDiffer(k, |emitted|); }
      }
    }

    /** To the next column, or the first column of the next row in the order. */
    method Advance(ghost n: nat)
      requires Geometry() && CursorAt(n) && n < frame.Count()
      modifies `curX, `curY, `step, `parse, `stepRows
      ensures CursorAt(n + 1)
    {
      hide RowsLeft, RowOrder, Frame.RowOf, Rows, Later;
      ghost var row, i := frame.RowOf(n), n / frame.w;
      NextIndex(n, frame.w, frame.h);
      curX := curX + 1;
      if curX >= maxX {
        curX := startX;
        NextRow(row, i);
        if n + 1 < frame.Count() { assert frame.RowOf(n + 1) == RowOrder(frame.h, frame.interlaced)[i + 1]; }
      } else {
        assert frame.RowOf(n + 1) == row;
      }
    }

    method NextRow(ghost row: nat, ghost i: nat)
      requires Geometry() && i < frame.h && |RowOrder(frame.h, frame.interlaced)| == frame.h
      requires RowsLeft(row, i) && row < frame.h && row == RowOrder(frame.h, frame.interlaced)[i]
      requires curY == (frame.y + row) * width
      modifies `curY, `step, `parse, `stepRows
      ensures i + 1 == frame.h ==> curY >= maxY
      ensures i + 1 < frame.h ==> var r := RowOrder(frame.h, frame.interlaced)[i + 1];
                                  curY == (frame.y + r) * width && RowsLeft(r, i + 1)
    {
      hide RowOrder, Later, Rows, Shl;
      ghost var order := RowOrder(frame.h, frame.interlaced);
      RowsStep(order, i, row, stepRows, parse, frame.h);
      ghost var r: nat := row + stepRows;
      Plus(frame.y + row, stepRows, width);
      curY := curY + step;
      Edge(frame.y, r, frame.h, width);
      while curY >= maxY && parse > 0
        invariant parse <= 3 && stepRows > 0 && step == stepRows * width && curY == (frame.y + r) * width
        invariant curY >= maxY <==> r >= frame.h
        invariant order[i + 1..] == Rows(r, stepRows, frame.h) + Later(parse, frame.h)
        decreases parse
      {
        RowsPast(r, stepRows, frame.h, Later(parse, frame.h));
        NextPass(parse, frame.h);
        EnterPass();
        r := stepRows / 2;
        Edge(frame.y, r, frame.h, width);
      }
      RowsHead(order, i + 1, r, stepRows, parse, frame.h);
    }

    method EnterPass()
      requires Geometry() && 1 <= parse <= 3
      modifies `curY, `step, `parse, `stepRows
      ensures parse == old(parse) - 1 && stepRows == Shl(1, old(parse)) && step == stepRows * width
      ensures curY == (frame.y + stepRows / 2) * width
    {
      step := Shl(1, parse) * width;
      stepRows := Shl(1, parse);
      HalfStep(parse, width);
      Plus(frame.y, stepRows / 2, width);
      curY := startY + step / 2;
      parse := parse - 1;
    }

    /** stbi__out_gif_code after its recursive call: one index is drawn and the cursor moves on. */
    method Emit(suffix: byte)
      requires Valid()
      modifies this, out, history
      ensures Valid() && emitted == old(emitted) + [suffix]
    {
      hide Frame.Target, Frame.Count, Shows;
      ghost var n := |emitted|;
      CursorMeaning(n);
      if curY >= maxY {
        emitted := emitted + [suffix];
        PastTheEnd(n);
        return;
      }
      Draw(suffix);
      Advance(n);
    }

    /** Beyond the last pixel nothing is drawn. */
    twostate lemma PastTheEnd(n: nat)
      requires Geometry() && old(Drawn())
      requires n == old(|emitted|) && n >= frame.Count() && old(emitted) <= emitted
      requires unchanged(out) && unchanged(history)
      ensures Drawn()
    {
      hide Frame.Target, Frame.Count;
      forall k | 0 <= k < |emitted| && k < frame.Count()
        ensures Shows(frame.Target(k), k)
      {
        assert old(Shows(frame.Target(k), k));
      }
      forall p | 0 <= p < out.Length && !Reached(p)
        ensures out[p] == canvas[p] && !history[p]
      {
        assert !old(Reached(p));
      }
    }
  }

  lemma Below(y: nat, row: nat, h: nat, w: nat)
    requires row < h && w > 0
    ensures (y + row) * w < y * w + h * w
  {
    MulMono(row + 1, h, w);
  }

  lemma Plus(a: nat, b: nat, w: nat)
    ensures (a + b) * w == a * w + b * w
  {
  }

  lemma Edge(y: nat, row: nat, h: nat, w: nat)
    requires w > 0
    ensures (y + row) * w >= y * w + h * w <==> row >= h
  {
    Plus(y, row, w);
    MulMono(h, row, w);
    MulMono(row + 1, h, w);
  }

  lemma NextIndex(n: nat, w: nat, h: nat)
    requires n < w * h && w > 0
    ensures n % w + 1 < w ==> (n + 1) / w == n / w && (n + 1) % w == n % w + 1 && n + 1 < w * h
    ensures n % w + 1 == w ==> (n + 1) / w == n / w + 1 && (n + 1) % w == 0
    ensures n % w + 1 == w ==> (n + 1 < w * h <==> n / w + 1 < h)
    ensures n / w < h && n % w < w
  {
    InRow(n, w, h);
    Recompose(n, w);
    var i, c := n / w, n % w;
    if c + 1 < w {
      StepInRow(i, c, w, h);
    } else {
      StepToRow(i, w, h);
      Plus(i, 1, w);
    }
  }

  lemma StepInRow(i: nat, c: nat, w: nat, h: nat)
    requires i < h && c + 1 < w
    ensures (i * w + c + 1) / w == i && (i * w + c + 1) % w == c + 1 && i * w + c + 1 < w * h
  {
    DivMod(i, w, c + 1);
    RowBelow(i, h, w, c + 1);
  }

  lemma StepToRow(i: nat, w: nat, h: nat)
    requires i < h && w > 0
    ensures ((i + 1) * w) / w == i + 1 && ((i + 1) * w) % w == 0
    ensures (i + 1) * w < w * h <==> i + 1 < h
  {
    DivMod(i + 1, w, 0);
    MulMono(h, i + 1, w);
    MulMono(i + 2, h, w);
  }

  lemma RowsStep(order: seq<nat>, i: nat, row: nat, step: nat, parse: nat, h: nat)
    requires i < |order| && step > 0 && row < h
    requires order[i..] == Rows(row, step, h) + Later(parse, h)
    ensures order[i + 1..] == Rows(row + step, step, h) + Later(parse, h)
  {
    hide Later;
    assert order[i..][1..] == order[i + 1..];
  }

  lemma RowsHead(order: seq<nat>, i: nat, row: nat, step: nat, parse: nat, h: nat)
    requires i <= |order| && step > 0 && (row < h || parse == 0)
    requires order[i..] == Rows(row, step, h) + Later(parse, h)
    ensures i < |order| <==> row < h
    ensures i < |order| ==> order[i] == row
  {
    if i < |order| { assert order[i] == order[i..][0]; }
  }

  lemma RowsPast(row: nat, step: nat, h: nat, more: seq<nat>)
    requires step > 0 && row >= h
    ensures Rows(row, step, h) + more == more
  {
  }

  lemma NextPass(parse: nat, h: nat)
    requires 1 <= parse <= 3
    ensures Later(parse, h) == Rows(Shl(1, parse) / 2, Shl(1, parse), h) + Later(parse - 1, h)
    ensures Shl(1, parse) >= 2
  {
    hide Rows;
    assert Shl(1, 1) == 2 && Shl(1, 2) == 4 && Shl(1, 3) == 8;
    assert Rows(1, 2, h) + [] == Rows(1, 2, h);
  }

  lemma HalfStep(parse: nat, w: nat)
    requires 1 <= parse <= 3
    ensures Shl(1, parse) * w / 2 == Shl(1, parse) / 2 * w
  {
    assert Shl(1, 1) == 2 && Shl(1, 2) == 4 && Shl(1, 3) == 8;
  }
}
