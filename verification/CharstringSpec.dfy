/**
 Type 2 charstrings as functions: the drawing operators as lists of relative
 segments, drawing as a list of vertices, and the machine that reads a glyph's
 program with its subroutines.
 */
module CharstringSpec {
  import opened Bits

  // ----- bytes

  /** stbtt__buf: data and a position. */
  datatype Buf = Buf(data: seq<byte>, cursor: nat)

  predicate Inside(b: Buf) { b.cursor <= |b.data| }

  /** The next byte, or 0 at the end. */
  function Peek(b: Buf): byte { if b.cursor < |b.data| then b.data[b.cursor] else 0 }

  function Next(b: Buf): (r: Buf)
    ensures r.data == b.data && (Inside(b) ==> Inside(r))
  {
    if b.cursor < |b.data| then b.(cursor := b.cursor + 1) else b
  }

  /** stbtt__buf_skip: a position past the end becomes the end. */
  function Skip(b: Buf, n: nat): (r: Buf)
    ensures r.data == b.data && Inside(r) && (Inside(b) ==> b.cursor <= r.cursor)
  {
    b.(cursor := if b.cursor + n > |b.data| then |b.data| else b.cursor + n)
  }

  /** stbtt__buf_get: the value of n bytes, most significant first. */
  function Get(b: Buf, n: nat, v: nat): nat
    decreases n
  {
    if n == 0 then v else Get(Next(b), n - 1, v * 256 + Peek(b))
  }

  function Past(b: Buf, n: nat): (r: Buf)
    ensures r.data == b.data && (Inside(b) ==> Inside(r) && b.cursor <= r.cursor)
    decreases n
  {
    if n == 0 then b else Past(Next(b), n - 1)
  }

  /** A cast to a signed integer of `bits` bits. */
  function Signed(v: int, bits: nat): int {
    var m := v % Pow2(bits);
    if m < Pow2(bits) / 2 then m else m - Pow2(bits)
  }

  /** The number that starts with byte b0, and the rest. */
  function Operand(b0: byte, b: Buf): real {
    if b0 == 255 then (Signed(Get(b, 4, 0), 32) as real) / 65536.0
    else if b0 == 28 then Signed(Get(b, 2, 0), 16) as real
    else if b0 <= 246 then (b0 as int - 139) as real
    else if b0 <= 250 then ((b0 as int - 247) * 256 + Peek(b) + 108) as real
    else (-(b0 as int - 251) * 256 - Peek(b) - 108) as real
  }

  function PastOperand(b0: byte, b: Buf): (r: Buf)
    ensures r.data == b.data && (Inside(b) ==> Inside(r) && b.cursor <= r.cursor)
  {
    Past(b, if b0 == 255 then 4 else if b0 == 28 then 2 else if b0 <= 246 then 0 else 1)
  }

  // ----- drawing

  datatype Segment =
    | Move(dx: real, dy: real)
    | Line(dx: real, dy: real)
    | Curve(dx1: real, dy1: real, dx2: real, dy2: real, dx3: real, dy3: real)

  datatype Kind = VMove | VLine | VCubic

  datatype Vertex = Vertex(kind: Kind, x: int, y: int, cx: int, cy: int, cx1: int, cy1: int)

  /** Current point and start of the contour. */
  datatype Pen = Pen(x: real, y: real, first_x: real, first_y: real)

  /** A cast to int drops the fraction. */
  function Trunc(r: real): int { if r >= 0.0 then r.Floor else -(-r).Floor }

  /** The line back to the start of the contour, if that is elsewhere. */
  function Closing(p: Pen): seq<Vertex> {
    if p.first_x != p.x || p.first_y != p.y then [Vertex(VLine, Trunc(p.first_x), Trunc(p.first_y), 0, 0, 0, 0)] else []
  }

  function PenAfter(p: Pen, s: Segment): Pen {
    match s
    case Move(dx, dy) => Pen(p.x + dx, p.y + dy, p.x + dx, p.y + dy)
    case Line(dx, dy) => p.(x := p.x + dx, y := p.y + dy)
    case Curve(dx1, dy1, dx2, dy2, dx3, dy3) => p.(x := p.x + dx1 + dx2 + dx3, y := p.y + dy1 + dy2 + dy3)
  }

  function Drawn(p: Pen, s: Segment): seq<Vertex> {
    var q := PenAfter(p, s);
    match s
    case Move(dx, dy) => Closing(p) + [Vertex(VMove, Trunc(q.x), Trunc(q.y), 0, 0, 0, 0)]
    case Line(dx, dy) => [Vertex(VLine, Trunc(q.x), Trunc(q.y), 0, 0, 0, 0)]
    case Curve(dx1, dy1, dx2, dy2, dx3, dy3) =>
      [Vertex(VCubic, Trunc(q.x), Trunc(q.y), Trunc(p.x + dx1), Trunc(p.y + dy1), Trunc(p.x + dx1 + dx2),
        Trunc(p.y + dy1 + dy2))]
  }

  function PenAfterAll(p: Pen, ss: seq<Segment>): Pen
    decreases |ss|
  {
    if ss == [] then p else PenAfterAll(PenAfter(p, ss[0]), ss[1..])
  }

  function DrawnAll(p: Pen, ss: seq<Segment>): seq<Vertex>
    decreases |ss|
  {
    if ss == [] then [] else Drawn(p, ss[0]) + DrawnAll(PenAfter(p, ss[0]), ss[1..])
  }

  // ----- the operators' arguments as segments

  function Lines(s: seq<real>): seq<Segment> {
    if |s| < 2 then [] else [Line(s[0], s[1])] + Lines(s[2..])
  }

  /** Lines along the axes in turn. */
  function AxisLines(s: seq<real>, horizontal: bool): seq<Segment> {
    if s == [] then []
    else [if horizontal then Line(s[0], 0.0) else Line(0.0, s[0])] + AxisLines(s[1..], !horizontal)
  }

  function CurveOf(s: seq<real>): Segment
    requires |s| >= 6
  {
    Curve(s[0], s[1], s[2], s[3], s[4], s[5])
  }

  function Curves(s: seq<real>): seq<Segment> {
    if |s| < 6 then [] else [CurveOf(s)] + Curves(s[6..])
  }

  /** Curves that start along one axis and end along the other, in turn; a fifth argument at the end bends the last
      one. */
  function AxisCurves(s: seq<real>, horizontal: bool): seq<Segment> {
    if |s| < 4 then []
    else
      var last := if |s| == 5 then s[4] else 0.0;
      [if horizontal then Curve(s[0], 0.0, s[1], s[2], last, s[3]) else Curve(0.0, s[0], s[1], s[2], s[3], last)] +
      AxisCurves(s[4..], !horizontal)
  }

  function CurvesLine(s: seq<real>): seq<Segment>
    requires |s| >= 2
  {
    if |s| >= 8 then [CurveOf(s)] + CurvesLine(s[6..]) else [Line(s[0], s[1])]
  }

  function LinesCurve(s: seq<real>): seq<Segment>
    requires |s| >= 6
  {
    if |s| >= 8 then [Line(s[0], s[1])] + LinesCurve(s[2..]) else [CurveOf(s)]
  }

  /** Curves that start and end along the same axis, the first one shifted by f across it. */
  function StraightCurves(s: seq<real>, f: real, horizontal: bool): seq<Segment> {
    if |s| < 4 then []
    else
      [if horizontal then Curve(s[0], f, s[1], s[2], s[3], 0.0) else Curve(f, s[0], s[1], s[2], 0.0, s[3])] +
      StraightCurves(s[4..], 0.0, horizontal)
  }

  function Fabs(r: real): real { if r < 0.0 then -r else r }

  /** The four flex operators: two curves each. */
  function Flex(op: byte, s: seq<real>): (r: seq<Segment>)
    requires op == 0x22 || op == 0x23 || op == 0x24 || op == 0x25
    requires |s| >= FlexArgs(op)
    ensures |r| == 2
  {
    if op == 0x22 then [Curve(s[0], 0.0, s[1], s[2], s[3], 0.0), Curve(s[4], 0.0, s[5], -s[2], s[6], 0.0)]
    else if op == 0x23 then [CurveOf(s), CurveOf(s[6..])]
    else if op == 0x24 then
      [Curve(s[0], s[1], s[2], s[3], s[4], 0.0), Curve(s[5], 0.0, s[6], s[7], s[8], -(s[1] + s[3] + s[7]))]
    else
      var dx := s[0] + s[2] + s[4] + s[6] + s[8];
      var dy := s[1] + s[3] + s[5] + s[7] + s[9];
      [CurveOf(s), if Fabs(dx) > Fabs(dy) then Curve(s[6], s[7], s[8], s[9], s[10], -dy)
        else Curve(s[6], s[7], s[8], s[9], -dx, s[10])]
  }

  function FlexArgs(op: byte): nat {
    if op == 0x22 then 7 else if op == 0x23 then 13 else if op == 0x24 then 9 else 11
  }

  datatype Drawing = NoDrawing | TooFew | Segments(ss: seq<Segment>)

  /** What a drawing operator makes of the stack. */
  function Operator(b0: byte, s: seq<real>): Drawing {
    var n := |s|;
    if b0 == 0x15 then if n < 2 then TooFew else Segments([Move(s[n - 2], s[n - 1])])
    else if b0 == 0x04 then if n < 1 then TooFew else Segments([Move(0.0, s[n - 1])])
    else if b0 == 0x16 then if n < 1 then TooFew else Segments([Move(s[n - 1], 0.0)])
    else if b0 == 0x05 then if n < 2 then TooFew else Segments(Lines(s))
    else if b0 == 0x07 || b0 == 0x06 then if n < 1 then TooFew else Segments(AxisLines(s, b0 == 0x06))
    else if b0 == 0x1F || b0 == 0x1E then if n < 4 then TooFew else Segments(AxisCurves(s, b0 == 0x1F))
    else if b0 == 0x08 then if n < 6 then TooFew else Segments(Curves(s))
    else if b0 == 0x18 then if n < 8 then TooFew else Segments(CurvesLine(s))
    else if b0 == 0x19 then if n < 8 then TooFew else Segments(LinesCurve(s))
    else if b0 == 0x1A || b0 == 0x1B then
      if n < 4 then TooFew
      else if n % 2 == 1 then Segments(StraightCurves(s[1..], s[0], b0 == 0x1B))
      else Segments(StraightCurves(s, 0.0, b0 == 0x1B))
    else NoDrawing
  }

  // ----- the machine

  const STACK_SIZE: nat := 48
  const MAX_CALLS: nat := 10

  /** Subroutines and programs, and the glyph's own subroutines in a font with a selector. */
  datatype Font = Font(charstrings: seq<seq<byte>>, gsubrs: seq<seq<byte>>, subrs: seq<seq<byte>>, selects: bool,
    glyph_subrs: seq<seq<byte>>)

  function Bias(count: nat): nat { if count >= 33900 then 32768 else if count >= 1240 then 1131 else 107 }

  /** stbtt__get_subr: empty if there is none. */
  function Subr(subrs: seq<seq<byte>>, n: int): seq<byte> {
    var i := n + Bias(|subrs|);
    if i < 0 || i >= |subrs| then [] else subrs[i]
  }

  datatype State = State(b: Buf, callers: seq<Buf>, stack: seq<real>, in_header: bool, maskbits: nat, pen: Pen)

  datatype StepResult =
    | Go(state: State, drawn: seq<Vertex>)
    | Stop(ok: bool, last: seq<Vertex>)

  predicate Legal(st: State) {
    && Inside(st.b) && |st.callers| <= MAX_CALLS && |st.stack| <= STACK_SIZE
    && forall i :: 0 <= i < |st.callers| ==> Inside(st.callers[i])
  }

  /** The local subroutines in use. */
  function LocalSubrs(font: Font): seq<seq<byte>> { if font.selects then font.glyph_subrs else font.subrs }

  /** One operator or operand. */
  function Step(font: Font, st: State): (r: StepResult)
    requires Legal(st) && st.b.cursor < |st.b.data|
  {
    var b0, b, s := Peek(st.b), Next(st.b), st.stack;
    if b0 == 0x13 || b0 == 0x14 then
      var maskbits := if st.in_header then st.maskbits + |s| / 2 else st.maskbits;
      Go(st.(b := Skip(b, (maskbits + 7) / 8), in_header := false, maskbits := maskbits, stack := []), [])
    else if b0 == 0x01 || b0 == 0x03 || b0 == 0x12 || b0 == 0x17 then
      Go(st.(b := b, maskbits := st.maskbits + |s| / 2, stack := []), [])
    else if b0 == 0x0A || b0 == 0x1D then
      if s == [] || |st.callers| >= MAX_CALLS then Stop(false, [])
      else
        var code := Subr(if b0 == 0x0A then LocalSubrs(font) else font.gsubrs, Trunc(s[|s| - 1]));
        if code == [] then Stop(false, [])
        else
          Go(st.(b := Buf(code, 0), callers := st.callers + [b], stack := s[..|s| - 1]), [])
    else if b0 == 0x0B then
      if st.callers == [] then Stop(false, [])
      else Go(st.(b := st.callers[|st.callers| - 1], callers := st.callers[..|st.callers| - 1]), [])
    else if b0 == 0x0E then Stop(true, Closing(st.pen))
    else if b0 == 0x0C then
      var b1 := Peek(b);
      if (b1 != 0x22 && b1 != 0x23 && b1 != 0x24 && b1 != 0x25) || |s| < FlexArgs(b1) then Stop(false, [])
      else Draw(st, Next(b), Flex(b1, s))
    else
      match Operator(b0, s)
      case Segments(ss) => Draw(st.(in_header := st.in_header && b0 != 0x15 && b0 != 0x04 && b0 != 0x16), b, ss)
      case TooFew => Stop(false, [])
      case NoDrawing =>
        if (b0 != 255 && b0 != 28 && b0 < 32) || |s| >= STACK_SIZE then Stop(false, [])
        else Go(st.(b := PastOperand(b0, b), stack := s + [Operand(b0, b)]), [])
  }

  function Draw(st: State, b: Buf, ss: seq<Segment>): StepResult {
    Go(st.(b := b, pen := PenAfterAll(st.pen, ss), stack := []), DrawnAll(st.pen, ss))
  }

  /** Bytes left in the k-th buffer from the outermost caller inwards, 0 where there is none. */
  function Left(st: State, k: nat): int {
    var bufs := st.callers + [st.b];
    if k < |bufs| then |bufs[k].data| - bufs[k].cursor else 0
  }

  /** Every step uses up bytes of the buffer it reads; only buffers further in can change otherwise. */
  lemma StepAdvances(font: Font, st: State)
    requires Legal(st) && st.b.cursor < |st.b.data| && Step(font, st).Go?
    ensures var next := Step(font, st).state;
            && Legal(next)
            && Left(next, |st.callers|) < Left(st, |st.callers|)
            && forall k :: 0 <= k < |st.callers| ==> Left(next, k) == Left(st, k)
  {
    hide Operator, Flex, Operand, DrawnAll, PenAfterAll, Trunc, Closing;
  }

  datatype Outcome = Outcome(ok: bool, vertices: seq<Vertex>)

  /**
   The whole program.  It ends because of the bytes left in the at most eleven
   buffers, compared from the outermost one inwards.
   */
  function Run(font: Font, st: State): Outcome
    requires Legal(st)
    decreases Left(st, 0), Left(st, 1), Left(st, 2), Left(st, 3), Left(st, 4), Left(st, 5), Left(st, 6), Left(st, 7),
              Left(st, 8),
              Left(st, 9), Left(st, 10)
  {
    if st.b.cursor >= |st.b.data| then Outcome(false, [])
    else
      match Step(font, st)
      case Stop(ok, last) => Outcome(ok, last)
      case Go(next, drawn) =>
        StepAdvances(font, st);
        Decreases(st, next);
        var rest := Run(font, next);
        Outcome(rest.ok, drawn + rest.vertices)
  }

  /** The lexicographic comparison that the termination of `Run` needs. */
  lemma Decreases(st: State, next: State)
    requires Legal(st) && Legal(next) && Left(next, |st.callers|) < Left(st, |st.callers|)
    requires forall k :: 0 <= k < |st.callers| ==> Left(next, k) == Left(st, k)
    ensures forall k :: 0 <= k ==> Left(st, k) >= 0 && Left(next, k) >= 0
  {
  }

  function Start(font: Font, glyph: nat): State
    requires glyph < |font.charstrings|
  {
    State(Buf(font.charstrings[glyph], 0), [], [], true, 0, Pen(0.0, 0.0, 0.0, 0.0))
  }

  /** What a glyph's program draws. */
  function Glyph(font: Font, glyph: nat): Outcome
    requires glyph < |font.charstrings|
  {
    Run(font, Start(font, glyph))
  }
}
