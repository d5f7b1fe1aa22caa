/**
 Adam7: the seven passes of an interlaced PNG, their sizes in the decoder's
 unsigned arithmetic, and the places their pixels go to.
 */
module Adam7 {
  function XOrig(p: nat): nat
    requires p < 7
  {
    if p == 0 then 0 else if p == 1 then 4 else if p == 2 then 0 else if p == 3 then 2 else if p == 4 then 0
      else if p == 5 then 1 else 0
  }

  function YOrig(p: nat): nat
    requires p < 7
  {
    if p == 0 then 0 else if p == 1 then 0 else if p == 2 then 4 else if p == 3 then 0 else if p == 4 then 2
      else if p == 5 then 0 else 1
  }

  function XSpc(p: nat): (r: nat)
    requires p < 7
    ensures XOrig(p) < r <= 8
  {
    if p == 0 then 8 else if p == 1 then 8 else if p == 2 then 4 else if p == 3 then 4 else if p == 4 then 2
      else if p == 5 then 2 else 1
  }

  function YSpc(p: nat): (r: nat)
    requires p < 7
    ensures YOrig(p) < r <= 8
  {
    if p == 0 then 8 else if p == 1 then 8 else if p == 2 then 8 else if p == 3 then 4 else if p == 4 then 4
      else if p == 5 then 2 else 2
  }

  /** Unsigned 32-bit arithmetic wraps. */
  function U32(n: int): nat { n % 0x1_0000_0000 }

  lemma Quotient(n: nat, d: nat)
    requires d > 0
    ensures n / d >= 0 && n / d * d <= n < n / d * d + d
  {
  }

  /** `(size - orig + spc - 1) / spc` as the decoder computes it. */
  function Steps(size: nat, orig: nat, spc: nat): nat
    requires spc > 0
  {
    Quotient(U32(U32(U32(size - orig) + spc) - 1), spc);
    U32(U32(U32(size - orig) + spc) - 1) / spc
  }

  lemma Small(n: nat)
    requires n < 0x1_0000_0000
    ensures U32(n) == n
  {
  }

  lemma Wrap(a: int, b: int)
    ensures U32(U32(a) + b) == U32(a + b)
  {
    var k := a / 0x1_0000_0000;
    assert a + b == k * 0x1_0000_0000 + (U32(a) + b);
  }

  lemma DivIs(n: int, d: int, q: int)
    requires d > 0 && q * d <= n < q * d + d
    ensures n / d == q && n % d == n - q * d
  {
    var k := n / d - q;
    assert k * d == (n / d) * d - q * d;
    assert k >= 1 ==> k * d >= d;
    assert k <= -1 ==> k * d <= -d;
  }

  lemma Below(i: int, q: int, d: int)
    requires d > 0
    ensures i < q ==> (i + 1) * d <= q * d
    ensures i >= q ==> i * d >= q * d
    ensures (i + 1) * d == i * d + d
  {
  }

  /** No wrap-around survives. */
  lemma StepsIs(size: nat, orig: nat, spc: nat)
    requires orig < spc <= 8 && 0 < size <= 0x0100_0000
    ensures Steps(size, orig, spc) == (size - orig + spc - 1) / spc
  {
    hide U32;
    Wrap(size - orig, spc);
    Wrap(size - orig + spc, -1);
    Small(size - orig + spc - 1);
  }

  lemma Product(size: nat, spc: nat)
    requires size > 0 && spc > 0
    ensures size * spc >= size - 1 + spc
  {
    assert (size - 1) * (spc - 1) >= 0;
  }

  /** Exactly the positions orig, orig + spc, ... below the size are counted. */
  lemma StepsCount(size: nat, orig: nat, spc: nat, i: nat)
    requires orig < spc <= 8 && 0 < size <= 0x0100_0000
    ensures i < Steps(size, orig, spc) <==> i * spc + orig < size
    ensures Steps(size, orig, spc) <= size
  {
    hide Steps;
    StepsIs(size, orig, spc);
    var n := size - orig + spc - 1;
    Quotient(n, spc);
    Below(i, n / spc, spc);
    Below(size, n / spc, spc);
    Product(size, spc);
  }

  function PassX(width: nat, p: nat): nat
    requires p < 7
  {
    Steps(width, XOrig(p), XSpc(p))
  }

  function PassY(height: nat, p: nat): nat
    requires p < 7
  {
    Steps(height, YOrig(p), YSpc(p))
  }

  /** The pass that carries pixel (x, y), by the position inside the 8 by 8 pattern. */
  function PassOf(x: nat, y: nat): (p: nat)
    ensures p < 7
  {
    if y % 2 == 1 then 6
    else if x % 2 == 1 then 5
    else if y % 4 == 2 then 4
    else if x % 4 == 2 then 3
    else if y % 8 == 4 then 2
    else if x % 8 == 4 then 1
    else 0
  }

  function TargetX(p: nat, i: nat): nat
    requires p < 7
  {
    i * XSpc(p) + XOrig(p)
  }

  function TargetY(p: nat, j: nat): nat
    requires p < 7
  {
    j * YSpc(p) + YOrig(p)
  }

  /** Every pixel of a pass goes inside the image, to a place that belongs to this pass alone. */
  lemma TargetBelongs(width: nat, height: nat, p: nat, i: nat, j: nat)
    requires p < 7 && 0 < width <= 0x0100_0000 && 0 < height <= 0x0100_0000
    requires i < PassX(width, p) && j < PassY(height, p)
    ensures TargetX(p, i) < width && TargetY(p, j) < height
    ensures PassOf(TargetX(p, i), TargetY(p, j)) == p
  {
    StepsCount(width, XOrig(p), XSpc(p), i);
    StepsCount(height, YOrig(p), YSpc(p), j);
    PassOfTarget(p, i, j);
  }

  lemma Residues(i: nat)
    ensures 8 * i % 8 == 0 && 8 * i % 4 == 0 && 8 * i % 2 == 0
    ensures (8 * i + 4) % 8 == 4 && (8 * i + 4) % 4 == 0 && (8 * i + 4) % 2 == 0
    ensures 4 * i % 4 == 0 && 4 * i % 2 == 0 && (4 * i + 2) % 4 == 2 && (4 * i + 2) % 2 == 0
    ensures 2 * i % 2 == 0 && (2 * i + 1) % 2 == 1
  {
    DivIs(8 * i, 8, i);
    DivIs(8 * i, 4, 2 * i);
    DivIs(8 * i, 2, 4 * i);
    DivIs(8 * i + 4, 8, i);
    DivIs(8 * i + 4, 4, 2 * i + 1);
    DivIs(8 * i + 4, 2, 4 * i + 2);
    DivIs(4 * i, 4, i);
    DivIs(4 * i, 2, 2 * i);
    DivIs(4 * i + 2, 4, i);
    DivIs(4 * i + 2, 2, 2 * i + 1);
    DivIs(2 * i, 2, i);
    DivIs(2 * i + 1, 2, i);
  }

  lemma PassOfTarget(p: nat, i: nat, j: nat)
    requires p < 7
    ensures PassOf(TargetX(p, i), TargetY(p, j)) == p
  {
    Residues(i);
    Residues(j);
  }

  /** Every pixel of the image is the target of one pixel of its pass, and of no other. */
  lemma EveryPixelOnce(width: nat, height: nat, x: nat, y: nat)
    requires x < width <= 0x0100_0000 && y < height <= 0x0100_0000
    ensures var p := PassOf(x, y);
            var i, j := x / XSpc(p), y / YSpc(p);
            && i < PassX(width, p) && j < PassY(height, p) && TargetX(p, i) == x && TargetY(p, j) == y
    ensures forall p, i, j :: 0 <= p < 7 && 0 <= i && 0 <= j && TargetX(p, i) == x && TargetY(p, j) == y ==>
              p == PassOf(x, y) && i == x / XSpc(p) && j == y / YSpc(p)
  {
    var p := PassOf(x, y);
    var i, j := x / XSpc(p), y / YSpc(p);
    SourceOf(x, y);
    StepsCount(width, XOrig(p), XSpc(p), i);
    StepsCount(height, YOrig(p), YSpc(p), j);
    forall q, k, l | 0 <= q < 7 && 0 <= k && 0 <= l && TargetX(q, k) == x && TargetY(q, l) == y
      ensures q == p && k == i && l == j
    {
      PassOfTarget(q, k, l);
      SameQuotient(k, XSpc(p), XOrig(p));
      SameQuotient(l, YSpc(p), YOrig(p));
    }
  }

  lemma SameQuotient(i: nat, spc: nat, orig: nat)
    requires orig < spc
    ensures (i * spc + orig) / spc == i
  {
    DivIs(i * spc + orig, spc, i);
  }

  lemma Remainders(x: nat)
    ensures x % 2 == 0 ==> x % 4 == 0 || x % 4 == 2
    ensures x % 4 == 0 ==> x % 2 == 0 && (x % 8 == 0 || x % 8 == 4)
    ensures x == x / 8 * 8 + x % 8 && x == x / 4 * 4 + x % 4 && x == x / 2 * 2 + x % 2
  {
    var q, r := x / 8, x % 8;
    DivIs(x, 4, 2 * q + r / 4);
    DivIs(x, 2, 4 * q + r / 2);
  }

  lemma SourceOf(x: nat, y: nat)
    ensures var p := PassOf(x, y); TargetX(p, x / XSpc(p)) == x && TargetY(p, y / YSpc(p)) == y
  {
    Remainders(x);
    Remainders(y);
  }

  /** The pattern of section 8.2 of the PNG specification: which pass carries each pixel of an 8 by 8 block. */
  const PATTERN: seq<string> :=
    ["16462646", "77777777", "56565656", "77777777", "36463646", "77777777", "56565656", "77777777"]

  lemma PassInBlock(x: nat, y: nat)
    requires x < 8 && y < 8
    ensures |PATTERN| == 8 && |PATTERN[y]| == 8 && PassOf(x, y) == PATTERN[y][x] as int - '1' as int
  {
  }

  lemma SamePass(x: nat, y: nat)
    ensures PassOf(x, y) == PassOf(x % 8, y % 8)
  {
    Remainders(x);
    Remainders(y);
    DivIs(x, 2, 4 * (x / 8) + x % 8 / 2);
    DivIs(x, 4, 2 * (x / 8) + x % 8 / 4);
    DivIs(y, 2, 4 * (y / 8) + y % 8 / 2);
    DivIs(y, 4, 2 * (y / 8) + y % 8 / 4);
  }

  /** Each pass goes to the pixels that bear its number in the pattern. */
  lemma PassByPattern(p: nat, i: nat, j: nat)
    requires p < 7
    ensures var x, y := TargetX(p, i) % 8, TargetY(p, j) % 8;
            |PATTERN| == 8 && |PATTERN[y]| == 8 && PATTERN[y][x] as int == '1' as int + p
  {
    hide PATTERN, PassOf, TargetX, TargetY;
    PassOfTarget(p, i, j);
    SamePass(TargetX(p, i), TargetY(p, j));
    PassInBlock(TargetX(p, i) % 8, TargetY(p, j) % 8);
  }
}
