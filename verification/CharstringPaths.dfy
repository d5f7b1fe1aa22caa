/**
 Glyph programs that draw a given list of points, and with them exactly which
 boxes glyphs have and for which of these the stored vertices stay inside.
 */
module CharstringPaths {
  import opened Bits
  import opened CharstringSpec
  import opened Charstring
  import opened CharstringBox

  datatype Place = Place(x: int, y: int)

  // ----- writing programs

  /** The operand n in three bytes. */
  function Number(n: int): (r: seq<byte>)
    requires Int16(n)
    ensures |r| == 3
  {
    var u := if n < 0 then n + 0x1_0000 else n;
    [28, u / 256, u % 256]
  }

  /** One operand of a relative move or line can bridge the distance. */
  predicate Near(a: Place, b: Place) { Int16(b.x - a.x) && Int16(b.y - a.y) }

  predicate Chain(at: Place, ps: seq<Place>)
    decreases |ps|
  {
    ps == [] || (Near(at, ps[0]) && Chain(ps[0], ps[1..]))
  }

  function Relative(a: Place, b: Place, operator: byte): (r: seq<byte>)
    requires Near(a, b)
    ensures |r| == 7
  {
    Number(b.x - a.x) + Number(b.y - a.y) + [operator]
  }

  /** Lines from one place to the next, and endchar. */
  function LinesProgram(at: Place, ps: seq<Place>): seq<byte>
    requires Chain(at, ps)
    decreases |ps|
  {
    if ps == [] then [0x0E] else Relative(at, ps[0], 0x05) + LinesProgram(ps[0], ps[1..])
  }

  /** A contour that starts at the first place. */
  function Program(ps: seq<Place>): seq<byte>
    requires ps != [] && Chain(Place(0, 0), ps)
  {
    Relative(Place(0, 0), ps[0], 0x15) + LinesProgram(ps[0], ps[1..])
  }

  function OneGlyph(program: seq<byte>): Font { Font([program], [], [], false, []) }

  function LineVertex(p: Place): Vertex { Vertex(VLine, p.x, p.y, 0, 0, 0, 0) }

  function LineVertices(ps: seq<Place>): (r: seq<Vertex>)
    ensures |r| == |ps| && forall k :: 0 <= k < |ps| ==> r[k] == LineVertex(ps[k])
  {
    if ps == [] then [] else [LineVertex(ps[0])] + LineVertices(ps[1..])
  }

  /** The vertices of the contour through these places: a move, lines, and a line back unless it ends at its start. */
  function Contour(ps: seq<Place>): seq<Vertex>
    requires ps != []
  {
    [Vertex(VMove, ps[0].x, ps[0].y, 0, 0, 0, 0)] + LineVertices(ps[1..]) +
    if ps[|ps| - 1] == ps[0] then [] else [LineVertex(ps[0])]
  }

  // ----- running them

  lemma NumberRead(b: Buf, n: int)
    requires Int16(n) && b.cursor + 3 <= |b.data| && b.data[b.cursor..b.cursor + 3] == Number(n)
    ensures Peek(b) == 28 && Operand(28, Next(b)) == n as real && PastOperand(28, Next(b)) == b.(cursor := b.cursor + 3)
  {
    var u := if n < 0 then n + 0x1_0000 else n;
    var c := b.cursor;
    assert b.data[c] == Number(n)[0] && b.data[c + 1] == Number(n)[1] && b.data[c + 2] == Number(n)[2];
    var b1 := Next(b);
    var b2 := Next(b1);
    assert Get(b1, 2, 0) == Get(b2, 1, u / 256) == u;
    assert Past(b1, 2) == Past(b2, 1) == Past(Next(b2), 0);
    SignedOf(u);
  }

  lemma SignedOf(u: nat)
    requires u < 0x1_0000
    ensures Signed(u, 16) == if u < 0x8000 then u else u - 0x1_0000
  {
    assert Pow2(8) == 256;
    assert Pow2(16) == 256 * Pow2(8);
  }

  lemma TruncWhole(n: int)
    ensures Trunc(n as real) == n
  {
  }

  /** An operand goes onto the stack. */
  lemma NumberStep(font: Font, st: State, n: int)
    requires Legal(st) && Int16(n) && |st.stack| < STACK_SIZE
    requires st.b.cursor + 3 <= |st.b.data| && st.b.data[st.b.cursor..st.b.cursor + 3] == Number(n)
    ensures Step(font, st) == Go(st.(b := st.b.(cursor := st.b.cursor + 3), stack := st.stack + [n as real]), [])
  {
    hide Operand, PastOperand;
    NumberRead(st.b, n);
  }

  /** Two operands. */
  lemma TwoNumbers(font: Font, st: State, dx: int, dy: int)
    requires Legal(st) && Int16(dx) && Int16(dy) && st.stack == []
    requires st.b.cursor + 6 < |st.b.data| && st.b.data[st.b.cursor..st.b.cursor + 6] == Number(dx) + Number(dy)
    ensures var last := st.(b := st.b.(cursor := st.b.cursor + 6), stack := [dx as real, dy as real]);
            Legal(last) && Run(font, st) == Run(font, last)
  {
    hide Step, Number;
    var c := st.b.cursor;
    assert st.b.data[c..c + 6][..3] == st.b.data[c..c + 3] && st.b.data[c..c + 6][3..] == st.b.data[c + 3..c + 6];
    NumberStep(font, st, dx);
    RunUnfold(font, st);
    var mid := st.(b := st.b.(cursor := c + 3), stack := [dx as real]);
    assert st.stack + [dx as real] == [dx as real];
    NumberStep(font, mid, dy);
    RunUnfold(font, mid);
    assert mid.stack + [dy as real] == [dx as real, dy as real];
  }

  function PenAt(at: Place, first: Place): Pen {
    Pen(at.x as real, at.y as real, first.x as real, first.y as real)
  }

  /** A state that has this program before it, with nothing on the stack. */
  ghost predicate Before(st: State, program: seq<byte>, at: Place, first: Place) {
    && Legal(st) && st.stack == [] && st.b.data[st.b.cursor..] == program && st.pen == PenAt(at, first)
  }

  /** A relative move or line with its two operands. */
  lemma RelativeStep(font: Font, st: State, at: Place, to: Place, first: Place, operator: byte, rest: seq<byte>)
    returns (next: State)
    requires Near(at, to) && (operator == 0x05 || (operator == 0x15 && at == first))
    requires Before(st, Relative(at, to, operator) + rest, at, first)
    ensures Before(next, rest, to, if operator == 0x15 then to else first)
    ensures Run(font, st) ==
            Outcome(Run(font, next).ok,
                    [Vertex(if operator == 0x15 then VMove else VLine, to.x, to.y, 0, 0, 0, 0)] +
                    Run(font, next).vertices)
  {
    hide Run, Number;
    var dx, dy, c, data := to.x - at.x, to.y - at.y, st.b.cursor, st.b.data;
    var tail := data[c..];
    assert tail[..6] == Number(dx) + Number(dy) && tail[6] == operator && tail[7..] == rest;
    assert data[c..c + 6] == tail[..6] && data[c + 6] == tail[6] && data[c + 7..] == tail[7..];
    TwoNumbers(font, st, dx, dy);
    var last := st.(b := st.b.(cursor := c + 6), stack := [dx as real, dy as real]);
    RelativeDraws(font, last, at, to, first, operator);
    RunUnfold(font, last);
    next := Step(font, last).state;
  }

  lemma RelativeDraws(font: Font, st: State, at: Place, to: Place, first: Place, operator: byte)
    requires Legal(st) && st.b.cursor < |st.b.data| && Peek(st.b) == operator
    requires operator == 0x05 || (operator == 0x15 && at == first)
    requires st.stack == [(to.x - at.x) as real, (to.y - at.y) as real] && st.pen == PenAt(at, first)
    ensures var r := Step(font, st);
            && r.Go? && r.drawn == [Vertex(if operator == 0x15 then VMove else VLine, to.x, to.y, 0, 0, 0, 0)]
            && r.state == st.(b := Next(st.b), stack := [], pen := PenAt(to, if operator == 0x15 then to else first),
                              in_header := st.in_header && operator != 0x15)
  {
    hide Trunc;
    var dx, dy := (to.x - at.x) as real, (to.y - at.y) as real;
    assert at.x as real + dx == to.x as real && at.y as real + dy == to.y as real;
    TruncWhole(to.x);
    TruncWhole(to.y);
    var s := if operator == 0x15 then Move(dx, dy) else Line(dx, dy);
    assert st.stack[2..] == [] && Lines([]) == [];
    assert Lines(st.stack) == [Line(dx, dy)] + Lines(st.stack[2..]) == [Line(dx, dy)];
    assert Operator(operator, st.stack) == Segments([s]);
    Unfold(st.pen, s, []);
    Singleton(s);
    assert DrawnAll(st.pen, [s]) == Drawn(st.pen, s) + [] && Drawn(st.pen, s) + [] == Drawn(st.pen, s);
  }

  /** Lines to all the places, and the line that closes the contour. */
  lemma {:induction false} LinesDrawn(font: Font, st: State, at: Place, ps: seq<Place>, first: Place)
    requires Chain(at, ps) && Before(st, LinesProgram(at, ps), at, first)
    ensures Run(font, st) ==
            Outcome(true, LineVertices(ps) +
                          if (if ps == [] then at else ps[|ps| - 1]) == first then [] else [LineVertex(first)])
    decreases |ps|
  {
    hide Step, Run, Relative;
    if ps == [] {
      EndsHere(font, st, at, first);
    } else {
      var next := RelativeStep(font, st, at, ps[0], first, 0x05, LinesProgram(ps[0], ps[1..]));
      LinesDrawn(font, next, ps[0], ps[1..], first);
    }
  }

  lemma EndsHere(font: Font, st: State, at: Place, first: Place)
    requires Before(st, [0x0E], at, first)
    ensures Run(font, st) == Outcome(true, if at == first then [] else [LineVertex(first)])
  {
    hide Trunc, Run;
    assert st.b.data[st.b.cursor..][0] == 0x0E;
    assert Peek(st.b) == 0x0E;
    RunUnfold(font, st);
    TruncWhole(first.x);
    TruncWhole(first.y);
  }

  /** The program of a list of places draws the contour through them. */
  lemma ContourDrawn(ps: seq<Place>)
    requires ps != [] && Chain(Place(0, 0), ps)
    ensures Glyph(OneGlyph(Program(ps)), 0) == Outcome(true, Contour(ps))
  {
    hide Run, Relative, LinesProgram;
    var font, origin := OneGlyph(Program(ps)), Place(0, 0);
    var st := Start(font, 0);
    assert st.b.data[0..] == Program(ps);
    var next := RelativeStep(font, st, origin, ps[0], origin, 0x15, LinesProgram(ps[0], ps[1..]));
    LinesDrawn(font, next, ps[0], ps[1..], ps[0]);
  }

  // ----- walks inside a box

  /** One step of at most 20000 towards b. */
  function Toward(a: int, b: int): int {
    if b - a > 20000 then a + 20000 else if a - b > 20000 then a - 20000 else b
  }

  function Distance(a: int, b: int): nat { if a < b then b - a else a - b }

  function Walk(a: Place, b: Place): seq<Place>
    decreases Distance(a.x, b.x) + Distance(a.y, b.y)
  {
    if a == b then []
    else
      var m := Place(Toward(a.x, b.x), Toward(a.y, b.y));
      [m] + Walk(m, b)
  }

  /** Where the chain of places ends. */
  function End(at: Place, ps: seq<Place>): Place { if ps == [] then at else ps[|ps| - 1] }

  predicate Within(p: Place, x0: int, y0: int, x1: int, y1: int) { x0 <= p.x <= x1 && y0 <= p.y <= y1 }

  lemma {:induction false} WalkFacts(a: Place, b: Place, x0: int, y0: int, x1: int, y1: int)
    requires Within(a, x0, y0, x1, y1) && Within(b, x0, y0, x1, y1)
    ensures Chain(a, Walk(a, b)) && End(a, Walk(a, b)) == b
    ensures forall p :: p in Walk(a, b) ==> Within(p, x0, y0, x1, y1)
    decreases Distance(a.x, b.x) + Distance(a.y, b.y)
  {
    if a != b {
      var m := Place(Toward(a.x, b.x), Toward(a.y, b.y));
      WalkFacts(m, b, x0, y0, x1, y1);
      assert Walk(a, b)[1..] == Walk(m, b);
    }
  }

  lemma {:induction false} ChainJoin(at: Place, ps: seq<Place>, qs: seq<Place>)
    requires Chain(at, ps) && Chain(End(at, ps), qs)
    ensures Chain(at, ps + qs) && End(at, ps + qs) == End(End(at, ps), qs)
    decreases |ps|
  {
    if ps == [] {
      assert ps + qs == qs;
    } else {
      ChainJoin(ps[0], ps[1..], qs);
      assert (ps + qs)[1..] == ps[1..] + qs;
    }
  }

  /** From `start` on through the three places, without leaving the box. */
  lemma Tour(start: Place, a: Place, b: Place, c: Place, x0: int, y0: int, x1: int, y1: int) returns (ps: seq<Place>)
    requires Near(Place(0, 0), start) && Within(start, x0, y0, x1, y1) && Within(a, x0, y0, x1, y1)
    requires Within(b, x0, y0, x1, y1) && Within(c, x0, y0, x1, y1)
    ensures ps != [] && Chain(Place(0, 0), ps) && a in ps && b in ps && c in ps
    ensures forall p :: p in ps ==> Within(p, x0, y0, x1, y1)
  {
    hide Walk, Within;
    WalkFacts(start, a, x0, y0, x1, y1);
    WalkFacts(a, b, x0, y0, x1, y1);
    WalkFacts(b, c, x0, y0, x1, y1);
    var origin := Place(0, 0);
    var p1 := [start] + Walk(start, a);
    var p2 := p1 + Walk(a, b);
    ps := p2 + Walk(b, c);
    assert Chain(origin, [start]);
    ChainJoin(origin, [start], Walk(start, a));
    ChainJoin(origin, p1, Walk(a, b));
    ChainJoin(origin, p2, Walk(b, c));
    assert p1[|p1| - 1] == a && p2[|p2| - 1] == b && ps[|ps| - 1] == c;
  }

  // ----- the box of a contour

  /** Every vertex of the contour is at one of the places, and there is one at each. */
  lemma ContourPlaces(ps: seq<Place>)
    requires ps != []
    ensures forall k :: 0 <= k < |Contour(ps)| ==>
              Contour(ps)[k].kind != VCubic && Place(Contour(ps)[k].x, Contour(ps)[k].y) in ps
    ensures forall p :: p in ps ==>
              exists k :: 0 <= k < |Contour(ps)| && Place(Contour(ps)[k].x, Contour(ps)[k].y) == p
  {
    var path := Contour(ps);
    forall k | 0 <= k < |path|
      ensures path[k].kind != VCubic && Place(path[k].x, path[k].y) in ps
    {
      var i := if k < |ps| then k else 0;
      assert Place(path[k].x, path[k].y) == ps[i];
    }
    forall p | p in ps
      ensures exists k :: 0 <= k < |path| && Place(path[k].x, path[k].y) == p
    {
      var k :| 0 <= k < |ps| && ps[k] == p;
      assert Place(path[k].x, path[k].y) == p;
    }
  }

  lemma ContourBox(ps: seq<Place>, a: Place, b: Place, x0: int, y0: int, x1: int, y1: int)
    requires ps != [] && a in ps && b in ps && a == Place(x0, y0) && b == Place(x1, y1)
    requires forall p :: p in ps ==> Within(p, x0, y0, x1, y1)
    ensures Spans(x0, x1, Xs(Contour(ps))) && Spans(y0, y1, Ys(Contour(ps)))
    ensures forall p :: p in ps ==> p.x in Xs(Contour(ps)) && p.y in Ys(Contour(ps))
  {
    hide Xs, Ys, Contour;
    var path := Contour(ps);
    ContourPlaces(ps);
    forall p | p in ps
      ensures p.x in Xs(path) && p.y in Ys(path)
    {
      var k :| 0 <= k < |path| && Place(path[k].x, path[k].y) == p;
      PointsIn(path, k);
    }
    forall n | n in Xs(path)
      ensures x0 <= n <= x1
    {
      XFrom(path, n);
      var k :| 0 <= k < |path| && OnX(path[k], n);
      assert Within(Place(path[k].x, path[k].y), x0, y0, x1, y1);
    }
    forall n | n in Ys(path)
      ensures y0 <= n <= y1
    {
      YFrom(path, n);
      var k :| 0 <= k < |path| && OnY(path[k], n);
      assert Within(Place(path[k].x, path[k].y), x0, y0, x1, y1);
    }
  }

  /** The first operands reach into the interval. */
  predicate Reached(lo: int, hi: int) { lo <= 0x7FFF && hi >= -0x8000 }

  /** The glyph is drawn, and this is its box. */
  ghost predicate Boxed(font: Font, g: nat, x0: int, y0: int, x1: int, y1: int) {
    && g < |font.charstrings| && Glyph(font, g).ok
    && Spans(x0, x1, Xs(Glyph(font, g).vertices)) && Spans(y0, y1, Ys(Glyph(font, g).vertices))
  }

  /** A glyph with this box that has a point (n, m) of it. */
  lemma GlyphWithBox(x0: int, y0: int, x1: int, y1: int, n: int, m: int) returns (font: Font)
    requires x0 <= n <= x1 && y0 <= m <= y1 && Reached(x0, x1) && Reached(y0, y1)
    ensures Boxed(font, 0, x0, y0, x1, y1)
    ensures n in Xs(Glyph(font, 0).vertices) && m in Ys(Glyph(font, 0).vertices)
  {
    hide Xs, Ys, Contour, Glyph, Program, Chain;
    var start := Place(Nearest(x0, x1), Nearest(y0, y1));
    var ps := Tour(start, Place(x0, y0), Place(x1, y1), Place(n, m), x0, y0, x1, y1);
    ContourBox(ps, Place(x0, y0), Place(x1, y1), x0, y0, x1, y1);
    ContourDrawn(ps);
    font := OneGlyph(Program(ps));
    assert Place(n, m).x in Xs(Contour(ps)) && Place(n, m).y in Ys(Contour(ps));
  }

  function Nearest(lo: int, hi: int): (r: int)
    requires lo <= hi && Reached(lo, hi)
    ensures lo <= r <= hi && Int16(r)
  {
    if lo > 0 then lo else if hi < 0 then hi else 0
  }

  // ----- where the first vertex is

  predicate Small(r: real) { -32768.0 <= r < 32768.0 }

  /** Nothing has been drawn, and the operands are as the program can give them. */
  ghost predicate Undrawn(st: State) {
    Legal(st) && st.pen == Pen(0.0, 0.0, 0.0, 0.0) && forall i :: 0 <= i < |st.stack| ==> Small(st.stack[i])
  }

  /** A first vertex in the 16-bit range: its end point, or on a cubic curve its first control point. */
  predicate NearOrigin(v: Vertex) {
    if v.kind == VCubic then Int16(v.cx) && Int16(v.cy) else Int16(v.x) && Int16(v.y)
  }

  predicate SmallSegment(s: Segment) {
    match s
    case Move(dx, dy) => Small(dx) && Small(dy)
    case Line(dx, dy) => Small(dx) && Small(dy)
    case Curve(dx1, dy1, _, _, _, _) => Small(dx1) && Small(dy1)
  }

  lemma OperandSmall(b0: byte, b: Buf)
    requires b0 == 255 || b0 == 28 || b0 >= 32
    ensures Small(Operand(b0, b))
  {
    assert Pow2(8) == 256;
    assert Pow2(16) == 256 * Pow2(8) == 0x1_0000;
    assert Pow2(24) == 256 * Pow2(16) == 0x100_0000;
    assert Pow2(32) == 256 * Pow2(24) == 0x1_0000_0000;
  }

  lemma OperatorSmall(b0: byte, s: seq<real>)
    requires forall i :: 0 <= i < |s| ==> Small(s[i])
    ensures var d := Operator(b0, s); d.Segments? ==> d.ss != [] && SmallSegment(d.ss[0])
  {
  }

  lemma FirstDrawn(ss: seq<Segment>)
    requires ss != [] && SmallSegment(ss[0])
    ensures var d := DrawnAll(Pen(0.0, 0.0, 0.0, 0.0), ss); d != [] && NearOrigin(d[0])
  {
  }

  lemma FirstStep(font: Font, st: State)
    requires Undrawn(st) && st.b.cursor < |st.b.data|
    ensures match Step(font, st)
            case Stop(_, last) => last == []
            case Go(next, drawn) => if drawn == [] then Undrawn(next) else NearOrigin(drawn[0])
  {
    hide Operator, Operand, DrawnAll, PenAfterAll, SmallSegment, Small, NearOrigin, Trunc, PastOperand;
    var b0, b := Peek(st.b), Next(st.b);
    if Step(font, st).Go? { StepAdvances(font, st); }
    if b0 == 0x0C {
      var b1 := Peek(b);
      if (b1 == 0x22 || b1 == 0x23 || b1 == 0x24 || b1 == 0x25) && |st.stack| >= FlexArgs(b1) {
        FlexSmall(b1, st.stack);
        FirstDrawn(Flex(b1, st.stack));
      }
    } else if Operator(b0, st.stack).Segments? {
      OperatorSmall(b0, st.stack);
      FirstDrawn(Operator(b0, st.stack).ss);
    } else if b0 == 255 || b0 == 28 || b0 >= 32 {
      OperandSmall(b0, b);
    }
  }

  lemma FlexSmall(b1: byte, s: seq<real>)
    requires (b1 == 0x22 || b1 == 0x23 || b1 == 0x24 || b1 == 0x25) && |s| >= FlexArgs(b1)
    requires forall i :: 0 <= i < |s| ==> Small(s[i])
    ensures SmallSegment(Flex(b1, s)[0])
  {
  }

  lemma {:induction false} FirstVertex(font: Font, st: State)
    requires Undrawn(st)
    ensures var vs := Run(font, st).vertices; vs != [] ==> NearOrigin(vs[0])
    decreases Left(st, 0), Left(st, 1), Left(st, 2), Left(st, 3), Left(st, 4), Left(st, 5), Left(st, 6), Left(st, 7),
              Left(st, 8), Left(st, 9), Left(st, 10)
  {
    hide Step, Run, NearOrigin, Left;
    RunUnfold(font, st);
    if st.b.cursor < |st.b.data| {
      FirstStep(font, st);
      if Step(font, st).Go? && Step(font, st).drawn == [] {
        var next := Step(font, st).state;
        StepAdvances(font, st);
        Decreases(st, next);
        FirstVertex(font, next);
      }
    }
  }

  /** The boxes that glyphs have are those that reach into 16 bits on both axes. */
  lemma BoxIsDrawn(x0: int, y0: int, x1: int, y1: int)
    ensures (exists font, g: nat :: Boxed(font, g, x0, y0, x1, y1)) <==>
            x0 <= x1 && y0 <= y1 && Reached(x0, x1) && Reached(y0, y1)
  {
    hide Xs, Ys, Glyph, NearOrigin;
    forall font: Font, g: nat | Boxed(font, g, x0, y0, x1, y1)
      ensures x0 <= x1 && y0 <= y1 && Reached(x0, x1) && Reached(y0, y1)
    {
      BoxReaches(font, g, x0, y0, x1, y1);
    }
    if x0 <= x1 && y0 <= y1 && Reached(x0, x1) && Reached(y0, y1) {
      var font := GlyphWithBox(x0, y0, x1, y1, x0, y0);
    }
  }

  lemma BoxReaches(font: Font, g: nat, x0: int, y0: int, x1: int, y1: int)
    requires Boxed(font, g, x0, y0, x1, y1)
    ensures x0 <= x1 && y0 <= y1 && Reached(x0, x1) && Reached(y0, y1)
  {
    hide Xs, Ys, Run;
    var path := Glyph(font, g).vertices;
    FirstVertex(font, Start(font, g));
    if path == [] { NoPoints(); } else { PointsIn(path, 0); }
  }

  /**
   All glyphs with this box have their stored points inside it exactly if each
   side fits 16 bits or covers them, or no glyph has the box.
   */
  lemma BoxHoldsStored(x0: int, y0: int, x1: int, y1: int)
    requires x0 <= x1 && y0 <= y1
    ensures (forall font, g: nat :: Boxed(font, g, x0, y0, x1, y1) ==>
              StoredInBox(Glyph(font, g).vertices, x0, y0, x1, y1)) <==>
            (Settled(x0, x1) && Settled(y0, y1)) || !Reached(x0, x1) || !Reached(y0, y1)
  {
    hide Xs, Ys, Glyph, StoredInBox, Settled, Reached;
    if Settled(x0, x1) && Settled(y0, y1) {
      forall font: Font, g: nat | Boxed(font, g, x0, y0, x1, y1)
        ensures StoredInBox(Glyph(font, g).vertices, x0, y0, x1, y1)
      {
        SettledHolds(Glyph(font, g).vertices, x0, y0, x1, y1);
      }
    } else if Reached(x0, x1) && Reached(y0, y1) {
      var n, m := x0, y0;
      if !Settled(x0, x1) { n := Escapes(x0, x1); } else { m := Escapes(y0, y1); }
      var font := GlyphWithBox(x0, y0, x1, y1, n, m);
      StoredInBoxIff(Glyph(font, 0).vertices, x0, y0, x1, y1);
      assert Boxed(font, 0, x0, y0, x1, y1) && !StoredInBox(Glyph(font, 0).vertices, x0, y0, x1, y1);
    } else {
      forall font: Font, g: nat
        ensures !Boxed(font, g, x0, y0, x1, y1)
      {
        if Boxed(font, g, x0, y0, x1, y1) { BoxReaches(font, g, x0, y0, x1, y1); }
      }
    }
  }

  // ----- two glyphs

  lemma {:induction false} ChainOf(at: Place, ps: seq<Place>)
    requires ps != [] ==> Near(at, ps[0])
    requires forall k :: 0 <= k < |ps| - 1 ==> Near(ps[k], ps[k + 1])
    ensures Chain(at, ps)
    decreases |ps|
  {
    if ps != [] { ChainOf(ps[0], ps[1..]); }
  }

  lemma SpansOnce(s: set<int>, a: int, b: int, c: int, d: int)
    requires Spans(a, b, s) && Spans(c, d, s)
    ensures a == c && b == d
  {
  }

  /** The box and the stored vertices that the code finds for the contour through these places. */
  method Draw(ps: seq<Place>, ghost a: Place, ghost b: Place)
    returns (vertices: array<Vertex>, x0: int, y0: int, x1: int, y1: int)
    requires ps != [] && Chain(Place(0, 0), ps) && a in ps && b in ps
    requires forall p :: p in ps ==> Within(p, a.x, a.y, b.x, b.y)
    ensures vertices.Length == |Contour(ps)|
    ensures forall k :: 0 <= k < vertices.Length ==> vertices[k] == Narrow(Contour(ps)[k])
    ensures x0 == a.x && y0 == a.y && x1 == b.x && y1 == b.y
  {
    hide Narrow, Glyph, Xs, Ys, Spans, Program, Contour;
    ContourDrawn(ps);
    ContourBox(ps, a, b, a.x, a.y, b.x, b.y);
    var font := OneGlyph(Program(ps));
    var n, shape := GetGlyphShapeT2(font, 0);
    vertices := shape;
    n, x0, y0, x1, y1 := GetGlyphInfoT2(font, 0);
    assert |Contour(ps)| > 0 by { ContourPlaces(ps); }
    SpansOnce(Xs(Contour(ps)), x0, x1, a.x, b.x);
    SpansOnce(Ys(Contour(ps)), y0, y1, a.y, b.y);
  }

  /** Lines to x = 20000 and x = 40000 and back: the far point is stored as -25536, outside of the box. */
  method StoredOutside() returns (vertices: array<Vertex>, x0: int, y0: int, x1: int, y1: int)
    ensures x0 == 0 && x1 == 40000 && y0 == y1 == 0
    ensures vertices.Length == 4 && vertices[2].x == -25536 && !InBox(vertices[2], x0, y0, x1, y1)
  {
    var ps := [Place(0, 0), Place(20000, 0), Place(40000, 0)];
    ChainOf(Place(0, 0), ps);
    vertices, x0, y0, x1, y1 := Draw(ps, ps[0], ps[2]);
    SignedEdges();
  }

  /** Lines from x = -40000 to x = 40000: both are stored as other numbers, and yet all stored points lie in the box. */
  method StoredInsideWideBox() returns (vertices: array<Vertex>, x0: int, y0: int, x1: int, y1: int)
    ensures x0 == -40000 && x1 == 40000 && y0 == y1 == 0
    ensures vertices.Length == 8 && vertices[2].x == 25536 && vertices[6].x == -25536
    ensures forall k :: 0 <= k < vertices.Length ==> InBox(vertices[k], x0, y0, x1, y1)
  {
    hide Narrow, InBox, Xs, Ys;
    var ps := [Place(0, 0), Place(-20000, 0), Place(-40000, 0), Place(-20000, 0), Place(0, 0), Place(20000, 0),
               Place(40000, 0)];
    ChainOf(Place(0, 0), ps);
    vertices, x0, y0, x1, y1 := Draw(ps, ps[2], ps[6]);
    ContourBox(ps, ps[2], ps[6], x0, y0, x1, y1);
    SettledHolds(Contour(ps), x0, y0, x1, y1);
    NarrowX(Contour(ps)[2]);
    NarrowX(Contour(ps)[6]);
    SignedEdges();
  }

  lemma NarrowX(v: Vertex)
    ensures Narrow(v).x == Signed(v.x, 16)
  {
  }
}
