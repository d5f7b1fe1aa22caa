/**
 Where each drawing operator draws to: every argument moves the point along one
 axis, and a vertex is reached after a certain number of arguments (the operators
 of section 4.1 of the Type 2 charstring format).
 */
module CharstringDraws {
  import opened Bits
  import opened CharstringSpec

  // ----- arguments and axes

  const RLINETO: byte := 5
  const HLINETO: byte := 6
  const VLINETO: byte := 7
  const RRCURVETO: byte := 8
  const RCURVELINE: byte := 24
  const RLINECURVE: byte := 25
  const VVCURVETO: byte := 26
  const HHCURVETO: byte := 27
  const VHCURVETO: byte := 30
  const HVCURVETO: byte := 31

  /** Argument i of n moves the point along x, not along y. */
  predicate Across(op: byte, n: nat, i: nat) {
    if op == HLINETO then i % 2 == 0
    else if op == VLINETO then i % 2 == 1
    else if op == HHCURVETO then if n % 2 == 1 then i != 0 && (i - 1) % 4 != 2 else i % 4 != 2
    else if op == VVCURVETO then if n % 2 == 1 then i == 0 || (i - 1) % 4 == 1 else i % 4 == 1
    else if op == HVCURVETO then
      if n % 4 == 1 && i == n - 1 then n / 4 % 2 == 1 else i % 8 == 0 || i % 8 == 1 || i % 8 == 5 || i % 8 == 7
    else if op == VHCURVETO then
      if n % 4 == 1 && i == n - 1 then n / 4 % 2 == 0 else i % 8 == 1 || i % 8 == 3 || i % 8 == 4 || i % 8 == 5
    else i % 2 == 0
  }

  /** The point after the first i arguments. */
  function After(p: Pen, op: byte, s: seq<real>, i: nat): (r: Pen)
    requires i <= |s|
    ensures r.first_x == p.first_x && r.first_y == p.first_y
  {
    if i == 0 then p
    else
      var q := After(p, op, s, i - 1);
      if Across(op, |s|, i - 1) then q.(x := q.x + s[i - 1]) else q.(y := q.y + s[i - 1])
  }

  /** A line to the point a. */
  function LineVertex(a: Pen): Vertex { Vertex(VLine, Trunc(a.x), Trunc(a.y), 0, 0, 0, 0) }

  /** A curve with control points a and b to the point c. */
  function CurveVertex(a: Pen, b: Pen, c: Pen): Vertex {
    Vertex(VCubic, Trunc(c.x), Trunc(c.y), Trunc(a.x), Trunc(a.y), Trunc(b.x), Trunc(b.y))
  }

  /** From p on the segments draw these vertices, and lead to q. */
  ghost predicate Draws(p: Pen, ss: seq<Segment>, vs: seq<Vertex>, q: Pen) {
    DrawnAll(p, ss) == vs && PenAfterAll(p, ss) == q
  }

  lemma DrawsNothing(p: Pen)
    ensures Draws(p, [], [], p)
  {
  }

  lemma LineDraws(p: Pen, s: Segment, rest: seq<Segment>, p1: Pen, vs: seq<Vertex>, q: Pen)
    requires s.Line? && p1 == p.(x := p.x + s.dx, y := p.y + s.dy) && Draws(p1, rest, vs, q)
    ensures Draws(p, [s] + rest, [LineVertex(p1)] + vs, q)
  {
    assert ([s] + rest)[1..] == rest;
  }

  lemma CurveDraws(p: Pen, s: Segment, rest: seq<Segment>, a: Pen, b: Pen, p1: Pen, vs: seq<Vertex>, q: Pen)
    requires s.Curve? && Draws(p1, rest, vs, q)
    requires a.x == p.x + s.dx1 && a.y == p.y + s.dy1 && b.x == a.x + s.dx2 && b.y == a.y + s.dy2
    requires p1 == p.(x := b.x + s.dx3, y := b.y + s.dy3)
    ensures Draws(p, [s] + rest, [CurveVertex(a, b, p1)] + vs, q)
  {
    assert ([s] + rest)[1..] == rest;
  }

  /** Coordinates are cut off towards zero. */
  lemma VertexNear(r: real)
    ensures r >= 0.0 ==> Trunc(r) as real <= r < (Trunc(r) + 1) as real
    ensures r < 0.0 ==> (Trunc(r) - 1) as real < r <= Trunc(r) as real
  {
    var n := -(-r).Floor;
    assert n as real == -((-r).Floor as real);
  }

  // ----- lines

  /** Lines to the points after every `step` arguments, from the i-th argument on as far as the first `end` go. */
  ghost function LinesTo(p: Pen, op: byte, s: seq<real>, step: nat, i: nat, end: nat): seq<Vertex>
    requires step > 0 && end <= |s|
    decreases end - i
  {
    if i + step > end then [] else [LineVertex(After(p, op, s, i + step))] + LinesTo(p, op, s, step, i + step, end)
  }

  lemma {:induction false} AxisLinesFrom(p: Pen, op: byte, s: seq<real>, i: nat)
    requires (op == HLINETO || op == VLINETO) && i <= |s|
    ensures Draws(After(p, op, s, i), AxisLines(s[i..], (op == HLINETO) == (i % 2 == 0)),
                  LinesTo(p, op, s, 1, i, |s|), After(p, op, s, |s|))
    decreases |s| - i
  {
    hide LineVertex, Draws;
    var p0, h := After(p, op, s, i), (op == HLINETO) == (i % 2 == 0);
    if i == |s| {
      DrawsNothing(p0);
    } else {
      assert s[i..][1..] == s[i + 1..];
      AxisLinesFrom(p, op, s, i + 1);
      LineDraws(p0, AxisLines(s[i..], h)[0], AxisLines(s[i + 1..], !h), After(p, op, s, i + 1),
                LinesTo(p, op, s, 1, i + 1, |s|), After(p, op, s, |s|));
    }
  }

  /** Two arguments move the point along both axes. */
  lemma TwoAfter(p: Pen, op: byte, s: seq<real>, i: nat)
    requires Relative(op) && i % 2 == 0 && i + 2 <= |s|
    ensures After(p, op, s, i + 2) ==
            After(p, op, s, i).(x := After(p, op, s, i).x + s[i], y := After(p, op, s, i).y + s[i + 1])
  {
    var q := After(p, op, s, i + 1);
    assert q == After(p, op, s, i).(x := After(p, op, s, i).x + s[i]);
    assert After(p, op, s, i + 2) == q.(y := q.y + s[i + 1]);
  }

  predicate Relative(op: byte) { op == RLINETO || op == RRCURVETO || op == RCURVELINE || op == RLINECURVE }

  /** n more lines. */
  lemma {:induction false} LinesFrom(p: Pen, s: seq<real>, i: nat, n: nat)
    requires i % 2 == 0 && i + 2 * n <= |s| < i + 2 * n + 2
    ensures Draws(After(p, RLINETO, s, i), Lines(s[i..]), LinesTo(p, RLINETO, s, 2, i, |s|),
                  After(p, RLINETO, s, i + 2 * n))
    decreases n
  {
    hide LineVertex, Draws, After;
    if n == 0 {
      DrawsNothing(After(p, RLINETO, s, i));
    } else {
      assert s[i..][2..] == s[i + 2..];
      LinesFrom(p, s, i + 2, n - 1);
      TwoAfter(p, RLINETO, s, i);
      LineDraws(After(p, RLINETO, s, i), Line(s[i], s[i + 1]), Lines(s[i + 2..]), After(p, RLINETO, s, i + 2),
                LinesTo(p, RLINETO, s, 2, i + 2, |s|), After(p, RLINETO, s, i + 2 * n));
    }
  }

  // ----- curves with all six arguments

  /** The curve of the six arguments from i on: two for each point. */
  ghost function SixCurve(p: Pen, op: byte, s: seq<real>, i: nat): Vertex
    requires i + 6 <= |s|
  {
    CurveVertex(After(p, op, s, i + 2), After(p, op, s, i + 4), After(p, op, s, i + 6))
  }

  ghost function SixCurves(p: Pen, op: byte, s: seq<real>, i: nat, end: nat): seq<Vertex>
    requires end <= |s|
    decreases end - i
  {
    if i + 6 > end then [] else [SixCurve(p, op, s, i)] + SixCurves(p, op, s, i + 6, end)
  }

  lemma SixCurveDraws(p: Pen, op: byte, s: seq<real>, i: nat, rest: seq<Segment>, vs: seq<Vertex>, q: Pen)
    requires Relative(op) && i % 2 == 0 && i + 6 <= |s| && Draws(After(p, op, s, i + 6), rest, vs, q)
    ensures Draws(After(p, op, s, i), [CurveOf(s[i..])] + rest, [SixCurve(p, op, s, i)] + vs, q)
  {
    hide Draws, CurveVertex, After;
    TwoAfter(p, op, s, i);
    TwoAfter(p, op, s, i + 2);
    TwoAfter(p, op, s, i + 4);
    CurveDraws(After(p, op, s, i), CurveOf(s[i..]), rest, After(p, op, s, i + 2), After(p, op, s, i + 4),
               After(p, op, s, i + 6), vs, q);
  }

  /** n more curves. */
  lemma {:induction false} CurvesFrom(p: Pen, s: seq<real>, i: nat, n: nat)
    requires i % 2 == 0 && i + 6 * n <= |s| < i + 6 * n + 6
    ensures Draws(After(p, RRCURVETO, s, i), Curves(s[i..]), SixCurves(p, RRCURVETO, s, i, |s|),
                  After(p, RRCURVETO, s, i + 6 * n))
    decreases n
  {
    hide After, SixCurve, Draws;
    if n == 0 {
      DrawsNothing(After(p, RRCURVETO, s, i));
    } else {
      assert s[i..][6..] == s[i + 6..];
      CurvesFrom(p, s, i + 6, n - 1);
      SixCurveDraws(p, RRCURVETO, s, i, Curves(s[i + 6..]), SixCurves(p, RRCURVETO, s, i + 6, |s|),
                    After(p, RRCURVETO, s, i + 6 * n));
    }
  }

  /** n more curves, and a line with the two arguments behind them. */
  lemma {:induction false} CurvesLineFrom(p: Pen, s: seq<real>, i: nat, n: nat)
    requires i % 2 == 0 && i + 6 * n + 2 <= |s| < i + 6 * n + 8
    ensures var q := After(p, RCURVELINE, s, i + 6 * n + 2);
            Draws(After(p, RCURVELINE, s, i), CurvesLine(s[i..]),
                  SixCurves(p, RCURVELINE, s, i, |s| - 2) + [LineVertex(q)], q)
    decreases n
  {
    hide After, SixCurve, Draws, LineVertex;
    var q := After(p, RCURVELINE, s, i + 6 * n + 2);
    if n == 0 {
      DrawsNothing(q);
      TwoAfter(p, RCURVELINE, s, i);
      assert CurvesLine(s[i..]) == [Line(s[i], s[i + 1])] + [];
      assert SixCurves(p, RCURVELINE, s, i, |s| - 2) + [LineVertex(q)] == [LineVertex(q)] + [];
      LineDraws(After(p, RCURVELINE, s, i), Line(s[i], s[i + 1]), [], q, [], q);
    } else {
      assert s[i..][6..] == s[i + 6..];
      CurvesLineFrom(p, s, i + 6, n - 1);
      var vs := SixCurves(p, RCURVELINE, s, i + 6, |s| - 2) + [LineVertex(q)];
      SixCurveDraws(p, RCURVELINE, s, i, CurvesLine(s[i + 6..]), vs, q);
      assert [SixCurve(p, RCURVELINE, s, i)] + vs ==
             SixCurves(p, RCURVELINE, s, i, |s| - 2) + [LineVertex(q)];
    }
  }

  /** n more lines, and a curve with the six arguments behind them. */
  lemma {:induction false} LinesCurveFrom(p: Pen, s: seq<real>, i: nat, n: nat)
    requires i % 2 == 0 && i + 2 * n + 6 <= |s| < i + 2 * n + 8
    ensures var m := i + 2 * n;
            Draws(After(p, RLINECURVE, s, i), LinesCurve(s[i..]),
                  LinesTo(p, RLINECURVE, s, 2, i, |s| - 6) + [SixCurve(p, RLINECURVE, s, m)],
                  After(p, RLINECURVE, s, m + 6))
    decreases n
  {
    hide After, SixCurve, Draws, LineVertex;
    var m := i + 2 * n;
    var c, q := SixCurve(p, RLINECURVE, s, m), After(p, RLINECURVE, s, m + 6);
    if n == 0 {
      DrawsNothing(q);
      assert LinesCurve(s[i..]) == [CurveOf(s[i..])] + [];
      assert LinesTo(p, RLINECURVE, s, 2, i, |s| - 6) + [c] == [c] + [];
      SixCurveDraws(p, RLINECURVE, s, i, [], [], q);
    } else {
      assert s[i..][2..] == s[i + 2..];
      LinesCurveFrom(p, s, i + 2, n - 1);
      TwoAfter(p, RLINECURVE, s, i);
      var l, vs := LineVertex(After(p, RLINECURVE, s, i + 2)), LinesTo(p, RLINECURVE, s, 2, i + 2, |s| - 6) + [c];
      LineDraws(After(p, RLINECURVE, s, i), Line(s[i], s[i + 1]), LinesCurve(s[i + 2..]),
                After(p, RLINECURVE, s, i + 2), vs, q);
      assert [l] + vs == LinesTo(p, RLINECURVE, s, 2, i, |s| - 6) + [c];
    }
  }

  // ----- curves with four arguments

  /** One argument, two and one; a single argument that is left at the end goes to the last point as well. */
  ghost function FourCurves(p: Pen, op: byte, s: seq<real>, i: nat): seq<Vertex>
    requires i <= |s|
    decreases |s| - i
  {
    if i + 4 > |s| then []
    else
      var last := if |s| - i == 5 then i + 5 else i + 4;
      [CurveVertex(After(p, op, s, i + 1), After(p, op, s, i + 3), After(p, op, s, last))] +
      FourCurves(p, op, s, last)
  }

  /** How the point moves with each argument. */
  lemma OneAfter(p: Pen, op: byte, s: seq<real>, i: nat)
    requires i < |s|
    ensures var a, b := After(p, op, s, i), After(p, op, s, i + 1);
            b == if Across(op, |s|, i) then a.(x := a.x + s[i]) else a.(y := a.y + s[i])
  {
  }

  predicate Turning(op: byte) { op == HVCURVETO || op == VHCURVETO }

  /** The axes of four arguments of hvcurveto and vhcurveto, and of a fifth one at the end. */
  lemma TurningAxes(op: byte, n: nat, i: nat)
    requires Turning(op) && i % 4 == 0 && i + 4 <= n
    ensures var h := (op == HVCURVETO) == (i % 8 == 0);
            && Across(op, n, i) == h && Across(op, n, i + 1) && !Across(op, n, i + 2) && Across(op, n, i + 3) == !h
            && (n == i + 5 ==> Across(op, n, i + 4) == h)
            && h != ((op == HVCURVETO) == ((i + 4) % 8 == 0))
  {
  }

  /** n more curves. */
  lemma {:induction false} AxisCurvesFrom(p: Pen, op: byte, s: seq<real>, i: nat, n: nat)
    requires Turning(op) && i % 4 == 0 && i + 4 * n <= |s| < i + 4 * n + 4
    ensures var end := if n > 0 && |s| == i + 4 * n + 1 then |s| else i + 4 * n;
            Draws(After(p, op, s, i), AxisCurves(s[i..], (op == HVCURVETO) == (i % 8 == 0)), FourCurves(p, op, s, i),
                  After(p, op, s, end))
    decreases n
  {
    hide Draws, CurveVertex, After, Across;
    var h := (op == HVCURVETO) == (i % 8 == 0);
    if n == 0 {
      DrawsNothing(After(p, op, s, i));
    } else {
      var end := if |s| == i + 4 * n + 1 then |s| else i + 4 * n;
      assert s[i..][4..] == s[i + 4..];
      TurningAxes(op, |s|, i);
      OneAfter(p, op, s, i);
      OneAfter(p, op, s, i + 1);
      OneAfter(p, op, s, i + 2);
      OneAfter(p, op, s, i + 3);
      var last := if |s| - i == 5 then i + 5 else i + 4;
      if |s| - i == 5 { OneAfter(p, op, s, i + 4); }
      if |s| - i == 5 {
        DrawsNothing(After(p, op, s, last));
      } else {
        AxisCurvesFrom(p, op, s, i + 4, n - 1);
      }
      var ss := AxisCurves(s[i..], h);
      CurveDraws(After(p, op, s, i), ss[0], AxisCurves(s[i + 4..], !h), After(p, op, s, i + 1), After(p, op, s, i + 3),
                 After(p, op, s, last), FourCurves(p, op, s, last), After(p, op, s, end));
    }
  }

  /** The axes of hhcurveto and vvcurveto: an odd argument in front goes across. */
  lemma StraightAxes(op: byte, n: nat, i: nat)
    requires (op == HHCURVETO || op == VVCURVETO) && n % 2 <= i && (i - n % 2) % 4 == 0 && i + 4 <= n
    ensures var h := op == HHCURVETO;
            && Across(op, n, i) == h && Across(op, n, i + 1) && !Across(op, n, i + 2) && Across(op, n, i + 3) == h
            && (n % 2 == 1 ==> Across(op, n, 0) == !h)
  {
  }

  /** The four arguments from i on; f is what is left of an odd argument in front, and q is the point without it. */
  lemma StraightDraws(p: Pen, op: byte, s: seq<real>, i: nat, q: Pen, f: real, rest: seq<Segment>, vs: seq<Vertex>,
                      end: Pen)
    requires (op == HHCURVETO || op == VVCURVETO) && |s| % 2 <= i && (i - |s| % 2) % 4 == 0 && i + 4 <= |s|
    requires After(p, op, s, i) == if op == HHCURVETO then q.(y := q.y + f) else q.(x := q.x + f)
    requires Draws(After(p, op, s, i + 4), rest, vs, end)
    ensures var c := if op == HHCURVETO then Curve(s[i], f, s[i + 1], s[i + 2], s[i + 3], 0.0)
                     else Curve(f, s[i], s[i + 1], s[i + 2], 0.0, s[i + 3]);
            Draws(q, [c] + rest,
                  [CurveVertex(After(p, op, s, i + 1), After(p, op, s, i + 3), After(p, op, s, i + 4))] + vs, end)
  {
    hide Draws, CurveVertex, After, Across;
    StraightAxes(op, |s|, i);
    OneAfter(p, op, s, i);
    OneAfter(p, op, s, i + 1);
    OneAfter(p, op, s, i + 2);
    OneAfter(p, op, s, i + 3);
    CurveDraws(q, if op == HHCURVETO then Curve(s[i], f, s[i + 1], s[i + 2], s[i + 3], 0.0)
               else Curve(f, s[i], s[i + 1], s[i + 2], 0.0, s[i + 3]),
               rest, After(p, op, s, i + 1), After(p, op, s, i + 3), After(p, op, s, i + 4), vs, end);
  }

  /** n more curves. */
  lemma {:induction false} StraightFrom(p: Pen, op: byte, s: seq<real>, i: nat, n: nat, q: Pen, f: real)
    requires (op == HHCURVETO || op == VVCURVETO) && |s| % 2 <= i && (i - |s| % 2) % 4 == 0
    requires i + 4 * n <= |s| < i + 4 * n + 4 && (n == 0 ==> f == 0.0)
    requires After(p, op, s, i) == if op == HHCURVETO then q.(y := q.y + f) else q.(x := q.x + f)
    ensures Draws(q, StraightCurves(s[i..], f, op == HHCURVETO), FourCurves(p, op, s, i), After(p, op, s, i + 4 * n))
    decreases n
  {
    hide Draws, CurveVertex, After;
    if n == 0 {
      DrawsNothing(q);
    } else {
      assert s[i..][4..] == s[i + 4..];
      StraightFrom(p, op, s, i + 4, n - 1, After(p, op, s, i + 4), 0.0);
      StraightDraws(p, op, s, i, q, f, StraightCurves(s[i + 4..], 0.0, op == HHCURVETO), FourCurves(p, op, s, i + 4),
                    After(p, op, s, i + 4 * n));
    }
  }

  // ----- flex operators

  const HFLEX: byte := 34
  const FLEX: byte := 35
  const HFLEX1: byte := 36
  const FLEX1: byte := 37

  function By(p: Pen, dx: real, dy: real): Pen { p.(x := p.x + dx, y := p.y + dy) }

  /** The six points of a flex, given by its arguments; hflex and hflex1 end at the height where they begin, and flex1
      ends level with its beginning along the axis on which the first five points come less far. */
  ghost function FlexPoints(p: Pen, op: byte, s: seq<real>): (r: seq<Pen>)
    requires (op == HFLEX && |s| >= 7) || (op == FLEX && |s| >= 12) || (op == HFLEX1 && |s| >= 9) ||
             (op == FLEX1 && |s| >= 11)
    ensures |r| == 6
  {
    if op == HFLEX then
      var a := By(p, s[0], 0.0);
      var b := By(a, s[1], s[2]);
      var c := By(b, s[3], 0.0);
      var d := By(c, s[4], 0.0);
      var e := By(d, s[5], 0.0).(y := p.y);
      [a, b, c, d, e, By(e, s[6], 0.0)]
    else if op == HFLEX1 then
      var a := By(p, s[0], s[1]);
      var b := By(a, s[2], s[3]);
      var c := By(b, s[4], 0.0);
      var d := By(c, s[5], 0.0);
      var e := By(d, s[6], s[7]);
      [a, b, c, d, e, By(e, s[8], 0.0).(y := p.y)]
    else
      var a := By(p, s[0], s[1]);
      var b := By(a, s[2], s[3]);
      var c := By(b, s[4], s[5]);
      var d := By(c, s[6], s[7]);
      var e := By(d, s[8], s[9]);
      var dx, dy := e.x - p.x, e.y - p.y;
      var far := (dx > dy && dx > -dy) || (-dx > dy && -dx > -dy);
      [a, b, c, d, e,
       if op == FLEX then By(e, s[10], s[11])
       else if far then By(e, s[10], 0.0).(y := p.y)
       else By(e, 0.0, s[10]).(x := p.x)]
  }

  lemma FlexDraws(p: Pen, op: byte, s: seq<real>)
    requires HFLEX <= op <= FLEX1 && |s| >= FlexArgs(op)
    ensures |s| >= if op == HFLEX then 7 else if op == FLEX then 13 else if op == HFLEX1 then 9 else 11
    ensures var t := FlexPoints(p, op, s);
            Draws(p, Flex(op, s), [CurveVertex(t[0], t[1], t[2]), CurveVertex(t[3], t[4], t[5])], t[5])
  {
    hide Draws, CurveVertex;
    var t, ss := FlexPoints(p, op, s), Flex(op, s);
    DrawsNothing(t[5]);
    CurveDraws(t[2], ss[1], [], t[3], t[4], t[5], [], t[5]);
    CurveDraws(p, ss[0], [ss[1]] + [], t[0], t[1], t[2], [CurveVertex(t[3], t[4], t[5])] + [], t[5]);
    assert [ss[0]] + ([ss[1]] + []) == ss;
    assert [CurveVertex(t[0], t[1], t[2])] + ([CurveVertex(t[3], t[4], t[5])] + []) ==
           [CurveVertex(t[0], t[1], t[2]), CurveVertex(t[3], t[4], t[5])];
  }

  // ----- the operators as steps of the machine

  /** The fewest arguments of an operator. */
  function Fewest(op: byte): nat {
    if op == RLINETO then 2
    else if op == HLINETO || op == VLINETO then 1
    else if op == RRCURVETO then 6
    else if op == RCURVELINE || op == RLINECURVE then 8
    else 4
  }

  predicate DrawsLines(op: byte) { op == RLINETO || op == HLINETO || op == VLINETO }

  predicate DrawsCurves(op: byte) {
    op == RRCURVETO || op == RCURVELINE || op == RLINECURVE || VVCURVETO <= op <= HHCURVETO ||
    VHCURVETO <= op <= HVCURVETO
  }

  /** The vertices that an operator draws; arguments that are too few for another line or curve have no effect. */
  ghost function Vertices(p: Pen, op: byte, s: seq<real>): seq<Vertex>
    requires (DrawsLines(op) || DrawsCurves(op)) && |s| >= Fewest(op)
  {
    var n := |s|;
    if op == RLINETO then LinesTo(p, op, s, 2, 0, n)
    else if DrawsLines(op) then LinesTo(p, op, s, 1, 0, n)
    else if op == RRCURVETO then SixCurves(p, op, s, 0, n)
    else if op == RCURVELINE then SixCurves(p, op, s, 0, n - 2) + [LineVertex(After(p, op, s, (n - 2) / 6 * 6 + 2))]
    else if op == RLINECURVE then LinesTo(p, op, s, 2, 0, n - 6) + [SixCurve(p, op, s, (n - 6) / 2 * 2)]
    else FourCurves(p, op, s, if Turning(op) then 0 else n % 2)
  }

  /** How many arguments take effect. */
  function Used(op: byte, n: nat): (r: nat)
    requires (DrawsLines(op) || DrawsCurves(op)) && n >= Fewest(op)
    ensures r <= n
  {
    if op == RRCURVETO then n / 6 * 6
    else if op == RCURVELINE then (n - 2) / 6 * 6 + 2
    else if op == RLINETO || op == RLINECURVE then n / 2 * 2
    else if DrawsLines(op) then n
    else if Turning(op) then if n % 4 == 1 then n else n / 4 * 4
    else n % 2 + (n - n % 2) / 4 * 4
  }

  lemma LinesDraw(p: Pen, op: byte, s: seq<real>)
    requires DrawsLines(op) && |s| >= Fewest(op) && Operator(op, s).Segments?
    ensures Draws(p, Operator(op, s).ss, Vertices(p, op, s), After(p, op, s, Used(op, |s|)))
  {
    hide Draws, Lines, AxisLines, LinesTo;
    assert s[0..] == s && After(p, op, s, 0) == p;
    if op == RLINETO {
      LinesFrom(p, s, 0, |s| / 2);
    } else {
      AxisLinesFrom(p, op, s, 0);
    }
  }

  lemma CurvesDraw(p: Pen, op: byte, s: seq<real>)
    requires DrawsCurves(op) && |s| >= Fewest(op) && Operator(op, s).Segments?
    ensures Draws(p, Operator(op, s).ss, Vertices(p, op, s), After(p, op, s, Used(op, |s|)))
  {
    hide Draws, Curves, CurvesLine, LinesCurve, AxisCurves, StraightCurves, SixCurves, SixCurve, FourCurves, LinesTo;
    assert s[0..] == s && After(p, op, s, 0) == p;
    if op == RRCURVETO {
      CurvesFrom(p, s, 0, |s| / 6);
    } else if op == RCURVELINE {
      CurvesLineFrom(p, s, 0, (|s| - 2) / 6);
    } else if op == RLINECURVE {
      LinesCurveFrom(p, s, 0, (|s| - 6) / 2);
    } else if Turning(op) {
      AxisCurvesFrom(p, op, s, 0, |s| / 4);
    } else {
      StraightDraw(p, op, s);
    }
  }

  lemma StraightDraw(p: Pen, op: byte, s: seq<real>)
    requires VVCURVETO <= op <= HHCURVETO && |s| >= 4
    ensures var odd := |s| % 2;
            Draws(p, StraightCurves(s[odd..], if odd == 1 then s[0] else 0.0, op == HHCURVETO),
                  FourCurves(p, op, s, odd), After(p, op, s, odd + (|s| - odd) / 4 * 4))
  {
    hide Draws, StraightCurves, FourCurves, After, Across;
    AfterNone(p, op, s);
    if |s| % 2 == 1 {
      OneAfter(p, op, s, 0);
      StraightAxes(op, |s|, 1);
      StraightFrom(p, op, s, 1, (|s| - 1) / 4, p, s[0]);
    } else {
      StraightFrom(p, op, s, 0, |s| / 4, p, 0.0);
    }
  }

  lemma AfterNone(p: Pen, op: byte, s: seq<real>)
    ensures After(p, op, s, 0) == p
  {
  }

  /** The line and curve operators draw to those points, empty the stack, and refuse too few arguments. */
  lemma OperatorDraws(font: Font, st: State)
    requires Legal(st) && st.b.cursor < |st.b.data|
    requires DrawsLines(Peek(st.b)) || DrawsCurves(Peek(st.b))
    ensures var op, s := Peek(st.b), st.stack;
            Step(font, st) ==
            if |s| < Fewest(op) then Stop(false, [])
            else
              Go(st.(b := Next(st.b), pen := After(st.pen, op, s, Used(op, |s|)), stack := []),
                 Vertices(st.pen, op, s))
  {
    hide Vertices, After, Used, DrawnAll, PenAfterAll, Lines, AxisLines, Curves, CurvesLine, LinesCurve, AxisCurves,
         StraightCurves;
    var op, s := Peek(st.b), st.stack;
    if |s| >= Fewest(op) {
      if DrawsLines(op) { LinesDraw(st.pen, op, s); } else { CurvesDraw(st.pen, op, s); }
    }
  }

  /** A flex draws two curves through its six points. */
  lemma FlexStep(font: Font, st: State)
    requires Legal(st) && st.b.cursor + 1 < |st.b.data| && st.b.data[st.b.cursor] == 12
    requires HFLEX <= st.b.data[st.b.cursor + 1] <= FLEX1
    ensures var op, s := st.b.data[st.b.cursor + 1], st.stack;
            Step(font, st) ==
            if |s| < (if op == HFLEX then 7 else if op == FLEX then 13 else if op == HFLEX1 then 9 else 11)
              then Stop(false, [])
            else
              var t := FlexPoints(st.pen, op, s);
              Go(st.(b := st.b.(cursor := st.b.cursor + 2), pen := t[5], stack := []),
                 [CurveVertex(t[0], t[1], t[2]), CurveVertex(t[3], t[4], t[5])])
  {
    hide Flex, FlexPoints, CurveVertex, DrawnAll, PenAfterAll, Operator;
    var op, s := st.b.data[st.b.cursor + 1], st.stack;
    if |s| >= FlexArgs(op) { FlexDraws(st.pen, op, s); }
  }

  const RMOVETO: byte := 21
  const HMOVETO: byte := 22
  const VMOVETO: byte := 4

  predicate Moves(op: byte) { op == RMOVETO || op == HMOVETO || op == VMOVETO }

  /** The line that closes a contour. */
  function ClosingLine(p: Pen): seq<Vertex> {
    if p.x == p.first_x && p.y == p.first_y then [] else [LineVertex(p.(x := p.first_x, y := p.first_y))]
  }

  /** A move takes the last argument or the last two, closes the contour and begins another one. */
  lemma MoveStep(font: Font, st: State)
    requires Legal(st) && st.b.cursor < |st.b.data| && Moves(Peek(st.b))
    ensures var op, s, n := Peek(st.b), st.stack, |st.stack|;
            Step(font, st) ==
            if n < (if op == RMOVETO then 2 else 1) then Stop(false, [])
            else
              var x := st.pen.x + if op == RMOVETO then s[n - 2] else if op == HMOVETO then s[n - 1] else 0.0;
              var y := st.pen.y + if op == HMOVETO then 0.0 else s[n - 1];
              Go(st.(b := Next(st.b), in_header := false, pen := Pen(x, y, x, y), stack := []),
                 ClosingLine(st.pen) + [Vertex(VMove, Trunc(x), Trunc(y), 0, 0, 0, 0)])
  {
    var op, s, n := Peek(st.b), st.stack, |st.stack|;
    if n >= if op == RMOVETO then 2 else 1 {
      var m := Operator(op, s).ss[0];
      DrawsNothing(PenAfter(st.pen, m));
      assert [m][1..] == [];
      assert DrawnAll(st.pen, [m]) == Drawn(st.pen, m) + [];
    }
  }
}
