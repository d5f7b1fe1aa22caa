/**
 The bounding box of a glyph, which is not limited to 16 bits, against the
 vertices, which are stored in 16 bits.
 */
module CharstringBox {
  import opened Bits
  import opened CharstringSpec
  import opened Charstring

  predicate Int16(n: int) { -0x8000 <= n <= 0x7FFF }

  lemma SignedSame(n: int)
    ensures Signed(n, 16) == n <==> Int16(n)
    ensures Int16(Signed(n, 16))
  {
    assert Pow2(8) == 256;
    assert Pow2(16) == 256 * Pow2(8);
  }

  /** The end point and, on a cubic curve, the control points survive the casts. */
  predicate Unchanged(v: Vertex) {
    var w := Narrow(v);
    w.x == v.x && w.y == v.y && (v.kind == VCubic ==> w.cx == v.cx && w.cy == v.cy && w.cx1 == v.cx1 && w.cy1 == v.cy1)
  }

  lemma {:induction false} PointsIn(path: seq<Vertex>, k: nat)
    requires k < |path|
    ensures var v := path[k];
            && v.x in Xs(path) && v.y in Ys(path)
            && (v.kind == VCubic ==> v.cx in Xs(path) && v.cx1 in Xs(path) && v.cy in Ys(path) && v.cy1 in Ys(path))
  {
    if k < |path| - 1 { PointsIn(path[..|path| - 1], k); }
  }

  lemma {:induction false} PointsFrom(path: seq<Vertex>)
    requires forall k :: 0 <= k < |path| ==> Unchanged(path[k])
    ensures forall n :: n in Xs(path) + Ys(path) ==> Int16(n)
  {
    if path != [] {
      PointsFrom(path[..|path| - 1]);
      var v := path[|path| - 1];
      forall n | n in {v.x, v.y, v.cx, v.cy, v.cx1, v.cy1}
        ensures Signed(n, 16) == n <==> Int16(n)
      {
        SignedSame(n);
      }
    }
  }

  /** The stored 16-bit points are the drawn ones exactly if the box fits 16 bits. */
  lemma StoredIfBoxFits(path: seq<Vertex>, x0: int, y0: int, x1: int, y1: int)
    requires Spans(x0, x1, Xs(path)) && Spans(y0, y1, Ys(path))
    ensures (forall k :: 0 <= k < |path| ==> Unchanged(path[k])) <==> Int16(x0) && Int16(x1) && Int16(y0) && Int16(y1)
  {
    if forall k :: 0 <= k < |path| ==> Unchanged(path[k]) { PointsFrom(path); }
    if Int16(x0) && Int16(x1) && Int16(y0) && Int16(y1) {
      forall k | 0 <= k < |path|
        ensures Unchanged(path[k])
      {
        PointsIn(path, k);
        var v := path[k];
        SignedSame(v.x);
        SignedSame(v.y);
        SignedSame(v.cx);
        SignedSame(v.cy);
        SignedSame(v.cx1);
        SignedSame(v.cy1);
      }
    }
  }

  /** The end point and, on a cubic curve, the control points lie inside the box. */
  predicate InBox(v: Vertex, x0: int, y0: int, x1: int, y1: int) {
    && x0 <= v.x <= x1 && y0 <= v.y <= y1
    && (v.kind == VCubic ==> x0 <= v.cx <= x1 && x0 <= v.cx1 <= x1 && y0 <= v.cy <= y1 && y0 <= v.cy1 <= y1)
  }

  predicate StoredInBox(path: seq<Vertex>, x0: int, y0: int, x1: int, y1: int) {
    forall k :: 0 <= k < |path| ==> InBox(Narrow(path[k]), x0, y0, x1, y1)
  }

  /** A coordinate that the cast to 16 bits keeps, or brings back between lo and hi. */
  predicate Returns(n: int, lo: int, hi: int) {
    Int16(n) || lo <= Signed(n, 16) <= hi
  }

  predicate OnX(v: Vertex, n: int) { n == v.x || (v.kind == VCubic && (n == v.cx || n == v.cx1)) }

  predicate OnY(v: Vertex, n: int) { n == v.y || (v.kind == VCubic && (n == v.cy || n == v.cy1)) }

  lemma {:induction false} XFrom(path: seq<Vertex>, n: int)
    requires n in Xs(path)
    ensures exists k :: 0 <= k < |path| && OnX(path[k], n)
  {
    var front := path[..|path| - 1];
    if n in Xs(front) {
      XFrom(front, n);
      var k :| 0 <= k < |front| && OnX(front[k], n);
      assert path[k] == front[k];
    } else {
      assert OnX(path[|path| - 1], n);
    }
  }

  lemma {:induction false} YFrom(path: seq<Vertex>, n: int)
    requires n in Ys(path)
    ensures exists k :: 0 <= k < |path| && OnY(path[k], n)
  {
    var front := path[..|path| - 1];
    if n in Ys(front) {
      YFrom(front, n);
      var k :| 0 <= k < |front| && OnY(front[k], n);
      assert path[k] == front[k];
    } else {
      assert OnY(path[|path| - 1], n);
    }
  }

  lemma Kept(n: int, lo: int, hi: int)
    requires lo <= n <= hi && Returns(n, lo, hi)
    ensures lo <= Signed(n, 16) <= hi
  {
    SignedSame(n);
  }

  lemma VertexKept(path: seq<Vertex>, k: nat, x0: int, y0: int, x1: int, y1: int)
    requires Spans(x0, x1, Xs(path)) && Spans(y0, y1, Ys(path)) && k < |path|
    requires (forall n :: n in Xs(path) ==> Returns(n, x0, x1)) && forall n :: n in Ys(path) ==> Returns(n, y0, y1)
    ensures InBox(Narrow(path[k]), x0, y0, x1, y1)
  {
    hide Xs, Ys, Returns, Signed;
    PointsIn(path, k);
    Kept(path[k].x, x0, x1);
    Kept(path[k].y, y0, y1);
    if path[k].kind == VCubic {
      Kept(path[k].cx, x0, x1);
      Kept(path[k].cx1, x0, x1);
      Kept(path[k].cy, y0, y1);
      Kept(path[k].cy1, y0, y1);
    }
  }

  /** Stored points lie inside the box of the drawn ones exactly if every coordinate outside of 16 bits comes back into
      the box. */
  lemma StoredInBoxIff(path: seq<Vertex>, x0: int, y0: int, x1: int, y1: int)
    requires Spans(x0, x1, Xs(path)) && Spans(y0, y1, Ys(path))
    ensures StoredInBox(path, x0, y0, x1, y1) <==>
            (forall n :: n in Xs(path) ==> Returns(n, x0, x1)) && (forall n :: n in Ys(path) ==> Returns(n, y0, y1))
  {
    hide Xs, Ys;
    if StoredInBox(path, x0, y0, x1, y1) {
      forall n | n in Xs(path)
        ensures Returns(n, x0, x1)
      {
        XFrom(path, n);
        var k :| 0 <= k < |path| && OnX(path[k], n);
        assert InBox(Narrow(path[k]), x0, y0, x1, y1);
      }
      forall n | n in Ys(path)
        ensures Returns(n, y0, y1)
      {
        YFrom(path, n);
        var k :| 0 <= k < |path| && OnY(path[k], n);
        assert InBox(Narrow(path[k]), x0, y0, x1, y1);
      }
    }
    if (forall n :: n in Xs(path) ==> Returns(n, x0, x1)) && forall n :: n in Ys(path) ==> Returns(n, y0, y1) {
      forall k | 0 <= k < |path|
        ensures InBox(Narrow(path[k]), x0, y0, x1, y1)
      {
        VertexKept(path, k, x0, y0, x1, y1);
      }
    }
  }

  /** The interval fits 16 bits, or holds all numbers that do. */
  predicate Settled(lo: int, hi: int) {
    (Int16(lo) && Int16(hi)) || (lo <= -0x8000 && hi >= 0x7FFF)
  }

  /** A number of any other interval leaves it in the cast. */
  lemma Escapes(lo: int, hi: int) returns (n: int)
    requires lo <= hi && !Settled(lo, hi)
    ensures lo <= n <= hi && !Returns(n, lo, hi)
  {
    n := if lo > 0x7FFF then lo else if hi < -0x8000 then hi else if hi > 0x7FFF then 0x8000 else -0x8001;
    SignedSame(n);
    SignedEdges();
  }

  lemma SignedEdges()
    ensures Signed(0x8000, 16) == -0x8000 && Signed(-0x8001, 16) == 0x7FFF
    ensures Signed(40000, 16) == -25536 && Signed(-40000, 16) == 25536
  {
    assert Pow2(8) == 256;
    assert Pow2(16) == 256 * Pow2(8);
  }

  /** All paths with settled sides have their stored points inside the box. */
  lemma SettledHolds(path: seq<Vertex>, x0: int, y0: int, x1: int, y1: int)
    requires Spans(x0, x1, Xs(path)) && Spans(y0, y1, Ys(path)) && Settled(x0, x1) && Settled(y0, y1)
    ensures StoredInBox(path, x0, y0, x1, y1)
  {
    hide Xs, Ys, StoredInBox;
    forall n: int
      ensures Int16(Signed(n, 16))
    {
      SignedSame(n);
    }
    StoredInBoxIff(path, x0, y0, x1, y1);
  }

  /** Every stored point lies inside a box that fits 16 bits. */
  lemma StoredInsideBox(path: seq<Vertex>, x0: int, y0: int, x1: int, y1: int, k: nat)
    requires Spans(x0, x1, Xs(path)) && Spans(y0, y1, Ys(path)) && k < |path|
    requires Int16(x0) && Int16(x1) && Int16(y0) && Int16(y1)
    ensures InBox(Narrow(path[k]), x0, y0, x1, y1)
  {
    SettledHolds(path, x0, y0, x1, y1);
  }
}
