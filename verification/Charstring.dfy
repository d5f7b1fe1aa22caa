/**
 stbtt__run_charstring with its drawing context, run once to count and measure
 and once to write the vertices.
 */
module Charstring {
  import opened Bits
  import opened CharstringSpec

  /** The casts to 16 bits when a vertex is stored. */
  function Narrow(v: Vertex): Vertex {
    Vertex(v.kind, Signed(v.x, 16), Signed(v.y, 16), Signed(v.cx, 16), Signed(v.cy, 16), Signed(v.cx1, 16),
      Signed(v.cy1, 16))
  }

  /** The x coordinates of all end points and of the control points of cubic curves. */
  ghost function Xs(path: seq<Vertex>): set<int> {
    if path == [] then {}
    else
      var v := path[|path| - 1];
      Xs(path[..|path| - 1]) + if v.kind == VCubic then {v.x, v.cx, v.cx1} else {v.x}
  }

  ghost function Ys(path: seq<Vertex>): set<int> {
    if path == [] then {}
    else
      var v := path[|path| - 1];
      Ys(path[..|path| - 1]) + if v.kind == VCubic then {v.y, v.cy, v.cy1} else {v.y}
  }

  /** lo and hi are the least and the greatest of the numbers. */
  ghost predicate Spans(lo: int, hi: int, s: set<int>) {
    lo in s && hi in s && forall n :: n in s ==> lo <= n <= hi
  }

  class Context {
    const bounds: bool
    const pvertices: array<Vertex>
    var started: bool
    var first_x: real
    var first_y: real
    var x: real
    var y: real
    var min_x: int
    var max_x: int
    var min_y: int
    var max_y: int
    var num_vertices: nat
    ghost var path: seq<Vertex>

    constructor (bounds: bool, pvertices: array<Vertex>)
      ensures Valid() && this.bounds == bounds && this.pvertices == pvertices
      ensures path == [] && At() == Pen(0.0, 0.0, 0.0, 0.0)
    {
      this.bounds, this.pvertices := bounds, pvertices;
      started, first_x, first_y, x, y := false, 0.0, 0.0, 0.0, 0.0;
      min_x, max_x, min_y, max_y, num_vertices := 0, 0, 0, 0, 0;
      path := [];
    }

    ghost function At(): Pen
      reads this
    {
      Pen(x, y, first_x, first_y)
    }

    /** Counted, and either measured or written. */
    ghost predicate Valid()
      reads this, pvertices
    {
      && num_vertices == |path|
      && (bounds ==> started == (path != []))
      && (bounds ==> if started then Spans(min_x, max_x, Xs(path)) && Spans(min_y, max_y, Ys(path))
                     else min_x == max_x == min_y == max_y == 0)
      && (!bounds ==> num_vertices <= pvertices.Length && forall k :: 0 <= k < num_vertices ==>
        pvertices[k] == Narrow(path[k]))
    }

    /** Drawing ss leads to the path `goal`, which fits the vertices, and the pen `end`. */
    ghost predicate Towards(goal: seq<Vertex>, end: Pen, ss: seq<Segment>)
      reads this, pvertices
    {
      && Valid() && path + DrawnAll(At(), ss) == goal && PenAfterAll(At(), ss) == end
      && (!bounds ==> |goal| <= pvertices.Length)
    }

    method TrackVertex(x: int, y: int, ghost xs: set<int>, ghost ys: set<int>)
      requires started ==> Spans(min_x, max_x, xs) && Spans(min_y, max_y, ys)
      requires !started ==> xs == {} && ys == {}
      modifies `started, `min_x, `max_x, `min_y, `max_y
      ensures started && Spans(min_x, max_x, xs + {x}) && Spans(min_y, max_y, ys + {y})
    {
      if x > max_x || !started { max_x := x; }
      if y > max_y || !started { max_y := y; }
      if x < min_x || !started { min_x := x; }
      if y < min_y || !started { min_y := y; }
      started := true;
    }

    /** stbtt__csctx_v */
    method V(v: Vertex)
      requires Valid() && (!bounds ==> num_vertices < pvertices.Length)
      modifies `started, `min_x, `max_x, `min_y, `max_y, `num_vertices, `path, pvertices
      ensures Valid() && path == old(path) + [v]
    {
      hide Narrow, Xs, Ys, Spans;
      PathGrows(path, v);
      if bounds {
        ghost var xs, ys := Xs(path), Ys(path);
        NoPoints();
        TrackVertex(v.x, v.y, xs, ys);
        if v.kind == VCubic {
          TrackVertex(v.cx, v.cy, xs + {v.x}, ys + {v.y});
          TrackVertex(v.cx1, v.cy1, xs + {v.x} + {v.cx}, ys + {v.y} + {v.cy});
          assert xs + {v.x} + {v.cx} + {v.cx1} == xs + {v.x, v.cx, v.cx1};
          assert ys + {v.y} + {v.cy} + {v.cy1} == ys + {v.y, v.cy, v.cy1};
        }
      } else {
        pvertices[num_vertices] := Narrow(v);
      }
      num_vertices := num_vertices + 1;
      path := path + [v];
    }

    method CloseShape()
      requires Valid() && (!bounds ==> num_vertices + |Closing(At())| <= pvertices.Length)
      modifies `started, `min_x, `max_x, `min_y, `max_y, `num_vertices, `path, pvertices
      ensures Valid() && path == old(path) + Closing(old(At()))
    {
      if first_x != x || first_y != y {
        V(Vertex(VLine, Trunc(first_x), Trunc(first_y), 0, 0, 0, 0));
      }
    }

    method RMoveTo(dx: real, dy: real, ghost goal: seq<Vertex>, ghost end: Pen, ghost rest: seq<Segment>)
      requires Towards(goal, end, [Move(dx, dy)] + rest)
      modifies this, pvertices
      ensures Towards(goal, end, rest)
    {
      hide Closing, Trunc, DrawnAll, PenAfterAll;
      Unfold(At(), Move(dx, dy), rest);
      CloseShape();
      x := x + dx;
      y := y + dy;
      first_x, first_y := x, y;
      V(Vertex(VMove, Trunc(x), Trunc(y), 0, 0, 0, 0));
    }

    method RLineTo(dx: real, dy: real, ghost goal: seq<Vertex>, ghost end: Pen, ghost rest: seq<Segment>)
      requires Towards(goal, end, [Line(dx, dy)] + rest)
      modifies this, pvertices
      ensures Towards(goal, end, rest)
    {
      hide Closing, Trunc, DrawnAll, PenAfterAll;
      Unfold(At(), Line(dx, dy), rest);
      x := x + dx;
      y := y + dy;
      V(Vertex(VLine, Trunc(x), Trunc(y), 0, 0, 0, 0));
    }

    method RCCurveTo(dx1: real, dy1: real, dx2: real, dy2: real, dx3: real, dy3: real,
                     ghost goal: seq<Vertex>, ghost end: Pen, ghost rest: seq<Segment>)
      requires Towards(goal, end, [Curve(dx1, dy1, dx2, dy2, dx3, dy3)] + rest)
      modifies this, pvertices
      ensures Towards(goal, end, rest)
    {
      hide Closing, Trunc, DrawnAll, PenAfterAll;
      Unfold(At(), Curve(dx1, dy1, dx2, dy2, dx3, dy3), rest);
      var cx1, cy1 := x + dx1, y + dy1;
      var cx2, cy2 := cx1 + dx2, cy1 + dy2;
      x := cx2 + dx3;
      y := cy2 + dy3;
      V(Vertex(VCubic, Trunc(x), Trunc(y), Trunc(cx1), Trunc(cy1), Trunc(cx2), Trunc(cy2)));
    }

    // ----- operators with loops

    method LineTos(s: seq<real>, ghost goal: seq<Vertex>, ghost end: Pen)
      requires Towards(goal, end, Lines(s))
      modifies this, pvertices
      ensures Towards(goal, end, [])
    {
      hide Towards;
      var i := 0;
      Whole(s);
      while i + 1 < |s|
        invariant i <= |s| && Towards(goal, end, Lines(s[i..]))
      {
        Tail(s, i, 2);
        RLineTo(s[i], s[i + 1], goal, end, Lines(s[i + 2..]));
        i := i + 2;
      }
    }

    /** The loop of hlineto and vlineto, which vlineto enters in the middle. */
    method AxisLineTos(s: seq<real>, horizontal: bool, ghost goal: seq<Vertex>, ghost end: Pen)
      requires Towards(goal, end, AxisLines(s, horizontal))
      modifies this, pvertices
      ensures Towards(goal, end, [])
    {
      hide Towards;
      var i := 0;
      Whole(s);
      if !horizontal && i < |s| {
        Tail(s, i, 1);
        RLineTo(0.0, s[i], goal, end, AxisLines(s[i + 1..], true));
        i := i + 1;
      }
      while true
        invariant i <= |s| && Towards(goal, end, AxisLines(s[i..], true))
        decreases |s| - i
      {
        if i >= |s| { break; }
        Tail(s, i, 1);
        RLineTo(s[i], 0.0, goal, end, AxisLines(s[i + 1..], false));
        i := i + 1;
        if i >= |s| { break; }
        Tail(s, i, 1);
        RLineTo(0.0, s[i], goal, end, AxisLines(s[i + 1..], true));
        i := i + 1;
      }
    }

    method RRCurveTos(s: seq<real>, ghost goal: seq<Vertex>, ghost end: Pen)
      requires Towards(goal, end, Curves(s))
      modifies this, pvertices
      ensures Towards(goal, end, [])
    {
      hide Towards;
      var i := 0;
      Whole(s);
      while i + 5 < |s|
        invariant i <= |s| && Towards(goal, end, Curves(s[i..]))
      {
        Tail(s, i, 6);
        RCCurveTo(s[i], s[i + 1], s[i + 2], s[i + 3], s[i + 4], s[i + 5], goal, end, Curves(s[i + 6..]));
        i := i + 6;
      }
    }

    /** The loop of vhcurveto and hvcurveto, which hvcurveto enters in the middle. */
    method AxisCurveTos(s: seq<real>, horizontal: bool, ghost goal: seq<Vertex>, ghost end: Pen)
      requires Towards(goal, end, AxisCurves(s, horizontal))
      modifies this, pvertices
      ensures Towards(goal, end, [])
    {
      hide Towards;
      var i := 0;
      Whole(s);
      if horizontal && i + 3 < |s| {
        i := HVCurve(s, i, goal, end);
      } else if horizontal {
        i := |s|;
        EmptyTail(s);
      }
      while true
        invariant i <= |s| && Towards(goal, end, AxisCurves(s[i..], false))
        decreases |s| - i
      {
        if i + 3 >= |s| { break; }
        Tail(s, i, 4);
        RCCurveTo(0.0, s[i], s[i + 1], s[i + 2], s[i + 3], if |s| - i == 5 then s[i + 4]
          else 0.0, goal, end, AxisCurves(s[i + 4..], true));
        i := i + 4;
        if i + 3 >= |s| { break; }
        i := HVCurve(s, i, goal, end);
      }
    }

    method HVCurve(s: seq<real>, i: nat, ghost goal: seq<Vertex>, ghost end: Pen) returns (next: nat)
      requires i + 3 < |s| && Towards(goal, end, AxisCurves(s[i..], true))
      modifies this, pvertices
      ensures next == i + 4 && Towards(goal, end, AxisCurves(s[next..], false))
    {
      hide Towards;
      Tail(s, i, 4);
      RCCurveTo(s[i], 0.0, s[i + 1], s[i + 2], if |s| - i == 5 then s[i + 4]
        else 0.0, s[i + 3], goal, end, AxisCurves(s[i + 4..], false));
      next := i + 4;
    }

    method RCurveLine(s: seq<real>, ghost goal: seq<Vertex>, ghost end: Pen)
      requires |s| >= 8 && Towards(goal, end, CurvesLine(s))
      modifies this, pvertices
      ensures Towards(goal, end, [])
    {
      hide Towards;
      var i := 0;
      Whole(s);
      while i + 5 < |s| - 2
        invariant i + 2 <= |s| && Towards(goal, end, CurvesLine(s[i..]))
      {
        Tail(s, i, 6);
        RCCurveTo(s[i], s[i + 1], s[i + 2], s[i + 3], s[i + 4], s[i + 5], goal, end, CurvesLine(s[i + 6..]));
        i := i + 6;
      }
      assert i + 1 < |s|; // so the second stack check of rcurveline never fires
      Tail(s, i, 2);
      assert CurvesLine(s[i..]) == [Line(s[i], s[i + 1])] + [];
      RLineTo(s[i], s[i + 1], goal, end, []);
    }

    method RLineCurve(s: seq<real>, ghost goal: seq<Vertex>, ghost end: Pen)
      requires |s| >= 8 && Towards(goal, end, LinesCurve(s))
      modifies this, pvertices
      ensures Towards(goal, end, [])
    {
      hide Towards;
      var i := 0;
      Whole(s);
      while i + 1 < |s| - 6
        invariant i + 6 <= |s| && Towards(goal, end, LinesCurve(s[i..]))
      {
        Tail(s, i, 2);
        RLineTo(s[i], s[i + 1], goal, end, LinesCurve(s[i + 2..]));
        i := i + 2;
      }
      assert i + 5 < |s|; // so the second stack check of rlinecurve never fires
      Tail(s, i, 6);
      assert LinesCurve(s[i..]) == [CurveOf(s[i..])] + [];
      RCCurveTo(s[i], s[i + 1], s[i + 2], s[i + 3], s[i + 4], s[i + 5], goal, end, []);
    }

    method StraightCurveTos(s: seq<real>, horizontal: bool, ghost goal: seq<Vertex>, ghost end: Pen)
      requires |s| >= 4
      requires Towards(goal, end,
                       if |s| % 2 == 1 then StraightCurves(s[1..], s[0], horizontal)
                         else StraightCurves(s, 0.0, horizontal))
      modifies this, pvertices
      ensures Towards(goal, end, [])
    {
      hide Towards;
      var f, i := 0.0, 0;
      Whole(s);
      if |s| % 2 == 1 {
        f := s[i];
        i := i + 1;
      }
      while i + 3 < |s|
        invariant i <= |s| && Towards(goal, end, StraightCurves(s[i..], f, horizontal))
      {
        Tail(s, i, 4);
        if horizontal {
          RCCurveTo(s[i], f, s[i + 1], s[i + 2], s[i + 3], 0.0, goal, end, StraightCurves(s[i + 4..], 0.0, horizontal));
        } else {
          RCCurveTo(f, s[i], s[i + 1], s[i + 2], 0.0, s[i + 3], goal, end, StraightCurves(s[i + 4..], 0.0, horizontal));
        }
        f := 0.0;
        i := i + 4;
      }
    }

    // ----- dispatch

    /** A drawing operator, if b0 is one. */
    method DrawOperator(b0: byte, s: seq<real>, ghost goal: seq<Vertex>, ghost end: Pen) returns (r: Status)
      requires Valid() && (Operator(b0, s).Segments? ==> Towards(goal, end, Operator(b0, s).ss))
      modifies this, pvertices
      ensures r == if Operator(b0, s).Segments? then Done else if Operator(b0, s).TooFew? then Failed else Other
      ensures if r == Done then Towards(goal, end, []) else Valid() && path == old(path) && At() == old(At())
    {
      hide Towards, Valid, Lines, AxisLines, AxisCurves, Curves, CurvesLine, LinesCurve, StraightCurves;
      r := Done;
      if b0 == 0x15 {
        if |s| < 2 { return Failed; }
        Singleton(Move(s[|s| - 2], s[|s| - 1]));
        RMoveTo(s[|s| - 2], s[|s| - 1], goal, end, []);
      } else if b0 == 0x04 {
        if |s| < 1 { return Failed; }
        Singleton(Move(0.0, s[|s| - 1]));
        RMoveTo(0.0, s[|s| - 1], goal, end, []);
      } else if b0 == 0x16 {
        if |s| < 1 { return Failed; }
        Singleton(Move(s[|s| - 1], 0.0));
        RMoveTo(s[|s| - 1], 0.0, goal, end, []);
      } else if b0 == 0x05 {
        if |s| < 2 { return Failed; }
        LineTos(s, goal, end);
      } else if b0 == 0x07 || b0 == 0x06 {
        if |s| < 1 { return Failed; }
        AxisLineTos(s, b0 == 0x06, goal, end);
      } else if b0 == 0x1F || b0 == 0x1E {
        if |s| < 4 { return Failed; }
        AxisCurveTos(s, b0 == 0x1F, goal, end);
      } else if b0 == 0x08 {
        if |s| < 6 { return Failed; }
        RRCurveTos(s, goal, end);
      } else if b0 == 0x18 {
        if |s| < 8 { return Failed; }
        RCurveLine(s, goal, end);
      } else if b0 == 0x19 {
        if |s| < 8 { return Failed; }
        RLineCurve(s, goal, end);
      } else if b0 == 0x1A || b0 == 0x1B {
        if |s| < 4 { return Failed; }
        StraightCurveTos(s, b0 == 0x1B, goal, end);
      } else {
        r := Other;
      }
    }

    /** The flex operators. */
    method FlexCurves(b1: byte, s: seq<real>, ghost goal: seq<Vertex>, ghost end: Pen)
      requires (b1 == 0x22 || b1 == 0x23 || b1 == 0x24 || b1 == 0x25) && |s| >= FlexArgs(b1)
      requires Towards(goal, end, Flex(b1, s))
      modifies this, pvertices
      ensures Towards(goal, end, [])
    {
      hide Towards;
      ghost var ss := Flex(b1, s);
      assert ss == [ss[0]] + [ss[1]] && [ss[1]] == [ss[1]] + [];
      if b1 == 0x22 {
        RCCurveTo(s[0], 0.0, s[1], s[2], s[3], 0.0, goal, end, [ss[1]]);
        RCCurveTo(s[4], 0.0, s[5], -s[2], s[6], 0.0, goal, end, []);
      } else if b1 == 0x23 {
        RCCurveTo(s[0], s[1], s[2], s[3], s[4], s[5], goal, end, [ss[1]]);
        RCCurveTo(s[6], s[7], s[8], s[9], s[10], s[11], goal, end, []);
      } else if b1 == 0x24 {
        RCCurveTo(s[0], s[1], s[2], s[3], s[4], 0.0, goal, end, [ss[1]]);
        RCCurveTo(s[5], 0.0, s[6], s[7], s[8], -(s[1] + s[3] + s[7]), goal, end, []);
      } else {
        var dx6, dy6 := s[10], s[10];
        var dx := s[0] + s[2] + s[4] + s[6] + s[8];
        var dy := s[1] + s[3] + s[5] + s[7] + s[9];
        if Fabs(dx) > Fabs(dy) { dy6 := -dy; } else { dx6 := -dx; }
        RCCurveTo(s[0], s[1], s[2], s[3], s[4], s[5], goal, end, [ss[1]]);
        RCCurveTo(s[6], s[7], s[8], s[9], dx6, dy6, goal, end, []);
      }
    }
  }

  lemma Singleton(s: Segment)
    ensures [s] + [] == [s]
  {
  }

  datatype Status = Done | Failed | Other

  lemma Whole(s: seq<real>)
    ensures s[0..] == s
  {
  }

  lemma EmptyTail(s: seq<real>)
    ensures s[|s|..] == []
  {
  }

  lemma Tail(s: seq<real>, i: nat, n: nat)
    requires i + n <= |s|
    ensures s[i..][n..] == s[i + n..]
    ensures |s[i..]| == |s| - i && forall k :: 0 <= k < |s| - i ==> s[i..][k] == s[i + k]
  {
  }

  lemma NoPoints()
    ensures Xs([]) == {} && Ys([]) == {}
  {
  }

  lemma PathGrows(path: seq<Vertex>, v: Vertex)
    ensures Xs(path + [v]) == Xs(path) + if v.kind == VCubic then {v.x, v.cx, v.cx1} else {v.x}
    ensures Ys(path + [v]) == Ys(path) + if v.kind == VCubic then {v.y, v.cy, v.cy1} else {v.y}
  {
    assert (path + [v])[..|path|] == path;
  }

  lemma Unfold(p: Pen, s: Segment, rest: seq<Segment>)
    ensures DrawnAll(p, [s] + rest) == Drawn(p, s) + DrawnAll(PenAfter(p, s), rest)
    ensures PenAfterAll(p, [s] + rest) == PenAfterAll(PenAfter(p, s), rest)
    ensures |Drawn(p, s)| > 0
  {
    assert ([s] + rest)[1..] == rest;
  }

  // ----- the interpreter

  /** What is still to be drawn, and the result to come. */
  ghost predicate Remaining(c: Context, font: Font, st: State, goal: Outcome)
    requires Legal(st)
    reads c, c.pvertices
  {
    && c.Valid() && c.At() == st.pen
    && c.path + Run(font, st).vertices == goal.vertices && Run(font, st).ok == goal.ok
    && (!c.bounds ==> |goal.vertices| <= c.pvertices.Length)
  }

  lemma RunUnfold(font: Font, st: State)
    requires Legal(st)
    ensures st.b.cursor >= |st.b.data| ==> Run(font, st) == Outcome(false, [])
    ensures st.b.cursor < |st.b.data| ==> var r := Step(font, st);
              && (r.Stop? ==> Run(font, st) == Outcome(r.ok, r.last))
              && (r.Go? ==> Legal(r.state) &&
                            Run(font, st) == Outcome(Run(font, r.state).ok, r.drawn + Run(font, r.state).vertices))
  {
    hide Step;
    if st.b.cursor < |st.b.data| && Step(font, st).Go? { StepAdvances(font, st); }
  }

  /** Drawing what a step draws leads from one state to the next. */
  lemma StepDraws(c: Context, font: Font, st: State, goal: Outcome, drawing: State, b: Buf, ss: seq<Segment>)
    requires Legal(st) && Remaining(c, font, st, goal) && st.b.cursor < |st.b.data|
    requires Step(font, st) == Draw(drawing, b, ss) && drawing.pen == st.pen
    ensures c.Towards(c.path + DrawnAll(c.At(), ss), PenAfterAll(c.At(), ss), ss)
  {
    hide Step, Run, DrawnAll, PenAfterAll;
    RunUnfold(font, st);
  }

  /** A step that draws nothing. */
  lemma StepQuiet(c: Context, font: Font, st: State, goal: Outcome)
    requires Legal(st) && Remaining(c, font, st, goal) && st.b.cursor < |st.b.data|
    requires Step(font, st).Go? && Step(font, st).drawn == [] && Step(font, st).state.pen == st.pen
    ensures Legal(Step(font, st).state) && Remaining(c, font, Step(font, st).state, goal)
  {
    hide Step, Run;
    RunUnfold(font, st);
    assert [] + Run(font, Step(font, st).state).vertices == Run(font, Step(font, st).state).vertices;
  }

  /** A step that has drawn what it should. */
  lemma StepDrawn(c: Context, font: Font, st: State, goal: Outcome, was: seq<Vertex>)
    requires Legal(st) && st.b.cursor < |st.b.data| && Step(font, st).Go?
    requires was + Run(font, st).vertices == goal.vertices && Run(font, st).ok == goal.ok
    requires c.Valid() && c.path == was + Step(font, st).drawn && c.At() == Step(font, st).state.pen
    requires !c.bounds ==> |goal.vertices| <= c.pvertices.Length
    ensures Legal(Step(font, st).state) && Remaining(c, font, Step(font, st).state, goal)
  {
    hide Step, Run;
    RunUnfold(font, st);
    var r := Step(font, st);
    assert was + (r.drawn + Run(font, r.state).vertices) == was + r.drawn + Run(font, r.state).vertices;
  }

  /** Everything is drawn once nothing remains. */
  lemma TowardsEnd(c: Context, goal: seq<Vertex>, end: Pen)
    requires c.Towards(goal, end, [])
    ensures c.Valid() && c.path == goal && c.At() == end
  {
  }

  predicate Control(b0: byte) {
    b0 == 0x13 || b0 == 0x14 || b0 == 0x01 || b0 == 0x03 || b0 == 0x12 || b0 == 0x17 || b0 == 0x0A || b0 == 0x1D ||
      b0 == 0x0B
  }

  /** Hints, calls and returns: they change the state and draw nothing. */
  method ControlOperator(font: Font, st: State, has: bool, local: seq<seq<byte>>)
    returns (r: Status, next: State, has_subrs: bool, subrs: seq<seq<byte>>)
    requires Legal(st) && st.b.cursor < |st.b.data| && Control(Peek(st.b))
    requires local == if has then LocalSubrs(font) else font.subrs
    ensures subrs == if has_subrs then LocalSubrs(font) else font.subrs
    ensures r == Done || r == Failed
    ensures Step(font, st) == if r == Done then Go(next, []) else Stop(false, [])
    ensures r == Done ==> next.pen == st.pen
  {
    hide Trunc, Subr;
    has_subrs, subrs, next, r := has, local, st, Done;
    var b0, b, s, maskbits := Peek(st.b), Next(st.b), st.stack, st.maskbits;
    if b0 == 0x13 || b0 == 0x14 {
      if st.in_header { maskbits := maskbits + |s| / 2; }
      next := st.(b := Skip(b, (maskbits + 7) / 8), in_header := false, maskbits := maskbits, stack := []);
    } else if b0 == 0x01 || b0 == 0x03 || b0 == 0x12 || b0 == 0x17 {
      next := st.(b := b, maskbits := maskbits + |s| / 2, stack := []);
    } else if b0 == 0x0A || b0 == 0x1D {
      if b0 == 0x0A && !has_subrs {
        if font.selects { subrs := font.glyph_subrs; }
        has_subrs := true;
      }
      if |s| < 1 { return Failed, next, has_subrs, subrs; }
      var v := Trunc(s[|s| - 1]);
      if |st.callers| >= MAX_CALLS { return Failed, next, has_subrs, subrs; }
      var callee := Buf(Subr(if b0 == 0x0A then subrs else font.gsubrs, v), 0);
      if |callee.data| == 0 { return Failed, next, has_subrs, subrs; }
      next := st.(b := callee, callers := st.callers + [b], stack := s[..|s| - 1]);
    } else {
      if |st.callers| <= 0 { return Failed, next, has_subrs, subrs; }
      next := st.(b := st.callers[|st.callers| - 1], callers := st.callers[..|st.callers| - 1]);
    }
  }

  /** An operand goes onto the stack; unknown operators and a full stack are refused. */
  method PushOperand(font: Font, st: State) returns (r: Status, next: State)
    requires Legal(st) && st.b.cursor < |st.b.data|
    requires !Control(Peek(st.b)) && Peek(st.b) != 0x0E && Peek(st.b) != 0x0C &&
             Operator(Peek(st.b), st.stack).NoDrawing?
    ensures r == Done || r == Failed
    ensures Step(font, st) == if r == Done then Go(next, []) else Stop(false, [])
    ensures r == Done ==> next.pen == st.pen
  {
    hide Operator, Operand, PastOperand;
    var b0, b := Peek(st.b), Next(st.b);
    next := st;
    if b0 != 255 && b0 != 28 && b0 < 32 { return Failed, next; }
    if |st.stack| >= STACK_SIZE { return Failed, next; }
    next := st.(b := PastOperand(b0, b), stack := st.stack + [Operand(b0, b)]);
    r := Done;
  }

  /** Drawing operators and operands. */
  method DrawOrPush(font: Font, st: State, c: Context, ghost goal: Outcome) returns (r: Status, next: State)
    requires Legal(st) && st.b.cursor < |st.b.data| && !Control(Peek(st.b)) && Peek(st.b) != 0x0E
    requires Remaining(c, font, st, goal)
    modifies c, c.pvertices
    ensures r == Done || r == Failed
    ensures r == Done ==> Step(font, st).Go? && next == Step(font, st).state && Legal(next) &&
                          Remaining(c, font, next, goal)
    ensures r == Failed ==> Step(font, st) == Stop(false, []) && c.Valid() && c.path == old(c.path)
  {
    hide Run, Operator, Flex, Operand, PastOperand, DrawnAll, PenAfterAll, Closing, Trunc;
    var b0, b, s := Peek(st.b), Next(st.b), st.stack;
    next := st;
    ghost var was := c.path;
    if b0 == 0x0C {
      var b1 := Peek(b);
      b := Next(b);
      if b1 != 0x22 && b1 != 0x23 && b1 != 0x24 && b1 != 0x25 { return Failed, next; }
      if |s| < FlexArgs(b1) { return Failed, next; }
      ghost var to, end := was + DrawnAll(c.At(), Flex(b1, s)), PenAfterAll(c.At(), Flex(b1, s));
      StepDraws(c, font, st, goal, st, b, Flex(b1, s));
      c.FlexCurves(b1, s, to, end);
      TowardsEnd(c, to, end);
      StepDrawn(c, font, st, goal, was);
      next := st.(b := b, pen := Pen(c.x, c.y, c.first_x, c.first_y), stack := []);
      return Done, next;
    }
    ghost var op := Operator(b0, s);
    ghost var to, end := was, c.At();
    if op.Segments? {
      StepDraws(c, font, st, goal, st.(in_header := st.in_header && b0 != 0x15 && b0 != 0x04 && b0 != 0x16), b, op.ss);
      to, end := was + DrawnAll(c.At(), op.ss), PenAfterAll(c.At(), op.ss);
    }
    r := c.DrawOperator(b0, s, to, end);
    if r == Failed { return; }
    if r == Done {
      TowardsEnd(c, to, end);
      StepDrawn(c, font, st, goal, was);
      var in_header := st.in_header && b0 != 0x15 && b0 != 0x04 && b0 != 0x16;
      next := st.(b := b, pen := Pen(c.x, c.y, c.first_x, c.first_y), stack := [], in_header := in_header);
    } else {
      r, next := PushOperand(font, st);
      if r == Done { StepQuiet(c, font, st, goal); }
    }
  }

  /** stbtt__run_charstring: terminates, and draws and answers exactly what the program says, whatever the mode. */
  method RunCharstring(font: Font, glyph: nat, c: Context) returns (ok: bool)
    requires glyph < |font.charstrings| && c.Valid() && c.path == [] && c.At() == Pen(0.0, 0.0, 0.0, 0.0)
    requires !c.bounds ==> |Glyph(font, glyph).vertices| <= c.pvertices.Length
    modifies c, c.pvertices
    ensures c.Valid() && ok == Glyph(font, glyph).ok && c.path == Glyph(font, glyph).vertices
  {
    hide Run, Step, Closing, Left, Control, Spans, Xs, Ys, Narrow;
    var st := Start(font, glyph);
    var has_subrs, subrs := false, font.subrs;
    ghost var goal := Glyph(font, glyph);
    while st.b.cursor < |st.b.data|
      invariant Legal(st) && Remaining(c, font, st, goal)
      invariant subrs == if has_subrs then LocalSubrs(font) else font.subrs
      decreases Left(st, 0), Left(st, 1), Left(st, 2), Left(st, 3), Left(st, 4), Left(st, 5), Left(st, 6), Left(st, 7),
                Left(st, 8),
                Left(st, 9), Left(st, 10)
    {
      ghost var was := st;
      RunUnfold(font, st);
      var b0 := Peek(st.b);
      var r;
      if Control(b0) {
        r, st, has_subrs, subrs := ControlOperator(font, st, has_subrs, subrs);
        if r == Done { StepQuiet(c, font, was, goal); }
      } else if b0 == 0x0E {
        EndChar(font, st);
        c.CloseShape();
        return true;
      } else {
        r, st := DrawOrPush(font, st, c, goal);
      }
      if r == Failed { return false; }
      StepAdvances(font, was);
      Decreases(was, st);
    }
    RunUnfold(font, st);
    ok := false;
  }

  lemma EndChar(font: Font, st: State)
    requires Legal(st) && st.b.cursor < |st.b.data| && Peek(st.b) == 0x0E
    ensures Step(font, st) == Stop(true, Closing(st.pen))
  {
  }

  /** stbtt__GetGlyphShapeT2: the counting run finds exactly the room that the writing run needs. */
  method GetGlyphShapeT2(font: Font, glyph: nat) returns (n: nat, vertices: array?<Vertex>)
    requires glyph < |font.charstrings|
    ensures var g := Glyph(font, glyph);
            if g.ok then
              && n == |g.vertices| && vertices != null && vertices.Length == n
              && forall k :: 0 <= k < n ==> vertices[k] == Narrow(g.vertices[k])
            else n == 0 && vertices == null
  {
    hide Glyph, Narrow;
    var none := new Vertex[0];
    var count_ctx := new Context(true, none);
    var ok := RunCharstring(font, glyph, count_ctx);
    if ok {
      var pvertices := new Vertex[count_ctx.num_vertices];
      var output_ctx := new Context(false, pvertices);
      ok := RunCharstring(font, glyph, output_ctx);
      if ok {
        assert output_ctx.num_vertices == count_ctx.num_vertices;
        return output_ctx.num_vertices, pvertices;
      }
    }
    return 0, null;
  }

  /** stbtt__GetGlyphInfoT2: the smallest box around all end points and control points. */
  method GetGlyphInfoT2(font: Font, glyph: nat) returns (n: nat, x0: int, y0: int, x1: int, y1: int)
    requires glyph < |font.charstrings|
    ensures var g := Glyph(font, glyph);
            && n == (if g.ok then |g.vertices| else 0)
            && (if n > 0 then Spans(x0, x1, Xs(g.vertices)) &&
              Spans(y0, y1, Ys(g.vertices)) else x0 == y0 == x1 == y1 == 0)
  {
    hide Glyph;
    var none := new Vertex[0];
    var c := new Context(true, none);
    var r := RunCharstring(font, glyph, c);
    x0 := if r then c.min_x else 0;
    y0 := if r then c.min_y else 0;
    x1 := if r then c.max_x else 0;
    y1 := if r then c.max_y else 0;
    n := if r then c.num_vertices else 0;
  }
}
