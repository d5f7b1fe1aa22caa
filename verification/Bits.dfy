/**
 Shifts and bitwise operators on natural numbers, defined bit by bit, and the
 facts about them that the decoders rely on.  `Low(x, n)` keeps the n lowest
 bits of x, which the C sources write as `x & ((1 << n) - 1)`.
 */
module Bits {

  type byte = x: int | 0 <= x < 256

  function Pow2(n: nat): (r: nat)
    ensures r >= 1
  {
    if n == 0 then 1 else 2 * Pow2(n - 1)
  }

  function Shl(x: nat, n: nat): nat {
    if n == 0 then x else 2 * Shl(x, n - 1)
  }

  function Shr(x: nat, n: nat): nat {
    if n == 0 then x else Shr(x / 2, n - 1)
  }

  function Low(x: nat, n: nat): nat {
    if n == 0 then 0 else x % 2 + 2 * Low(x / 2, n - 1)
  }

  function Bit(x: nat, i: nat): nat {
    if i == 0 then x % 2 else Bit(x / 2, i - 1)
  }

  function And(x: nat, y: nat): nat {
    if x == 0 then 0 else (if x % 2 == 1 && y % 2 == 1 then 1 else 0) + 2 * And(x / 2, y / 2)
  }

  function Or(x: nat, y: nat): nat
    decreases x + y
  {
    if x == 0 && y == 0 then 0
    else (if x % 2 == 1 || y % 2 == 1 then 1 else 0) + 2 * Or(x / 2, y / 2)
  }

  function Xor(x: nat, y: nat): nat
    decreases x + y
  {
    if x == 0 && y == 0 then 0
    else (if x % 2 == y % 2 then 0 else 1) + 2 * Xor(x / 2, y / 2)
  }

  /** The n lowest bits of v in opposite order. */
  function Rev(v: nat, n: nat): nat { RevInto(v, n, 0) }

  function RevInto(v: nat, n: nat, acc: nat): nat {
    if n == 0 then acc else RevInto(v / 2, n - 1, 2 * acc + v % 2)
  }

  // ----- powers and shifts

  lemma {:induction false} Pow2Mono(m: nat, n: nat)
    requires m <= n
    ensures Pow2(m) <= Pow2(n)
    decreases n
  {
    if m < n { Pow2Mono(m, n - 1); }
  }

  lemma {:induction false} ShlIsTimes(x: nat, n: nat)
    ensures Shl(x, n) == x * Pow2(n)
  {
    if n > 0 { ShlIsTimes(x, n - 1); }
  }

  lemma {:induction false} ShlAdd(x: nat, y: nat, n: nat)
    ensures Shl(x + y, n) == Shl(x, n) + Shl(y, n)
  {
    if n > 0 { ShlAdd(x, y, n - 1); }
  }

  lemma {:induction false} ShrAdd(x: nat, m: nat, n: nat)
    ensures Shr(Shr(x, m), n) == Shr(x, m + n)
  {
    if m > 0 { ShrAdd(x / 2, m - 1, n); }
  }

  /** Halving last instead of first. */
  lemma {:induction false} ShrSucc(x: nat, n: nat)
    ensures Shr(x, n + 1) == Shr(x, n) / 2
  {
    if n > 0 { ShrSucc(x / 2, n - 1); }
  }

  /** A shifted comparison is a comparison with the bound shifted the other way. */
  lemma {:induction false} ShrLess(x: nat, b: nat, n: nat)
    ensures Shr(x, n) < b <==> x < Shl(b, n)
  {
    if n > 0 {
      ShrLess(x / 2, b, n - 1);
    }
  }

  lemma {:induction false} ShlMono(a: nat, b: nat, n: nat)
    ensures a <= b <==> Shl(a, n) <= Shl(b, n)
  {
    if n > 0 { ShlMono(a, b, n - 1); }
  }

  lemma {:induction false} ShrShl(x: nat, n: nat)
    ensures Shr(Shl(x, n), n) == x
  {
    if n > 0 { ShrShl(x, n - 1); }
  }

  lemma {:induction false} ShrBound(x: nat, m: nat, n: nat)
    requires x < Pow2(m + n)
    ensures Shr(x, m) < Pow2(n)
  {
    if m > 0 {
      assert Pow2(m + n) == 2 * Pow2(m - 1 + n);
      ShrBound(x / 2, m - 1, n);
    }
  }

  lemma {:induction false} LowBound(x: nat, n: nat)
    ensures Low(x, n) < Pow2(n)
    ensures Low(x, n) <= x
  {
    if n > 0 { LowBound(x / 2, n - 1); }
  }

  lemma {:induction false} LowSmall(x: nat, n: nat)
    requires x < Pow2(n)
    ensures Low(x, n) == x
  {
    if n > 0 { LowSmall(x / 2, n - 1); }
  }

  lemma {:induction false} SplitAt(x: nat, n: nat)
    ensures x == Low(x, n) + Shl(Shr(x, n), n)
  {
    if n > 0 { SplitAt(x / 2, n - 1); }
  }

  lemma {:induction false} LowOfSum(r: nat, q: nat, n: nat)
    requires r < Pow2(n)
    ensures Low(r + Shl(q, n), n) == r
    ensures Shr(r + Shl(q, n), n) == q
  {
    if n > 0 {
      assert (r + Shl(q, n)) / 2 == r / 2 + Shl(q, n - 1);
      LowOfSum(r / 2, q, n - 1);
    }
  }

  lemma {:induction false} ShlTwice(x: nat, m: nat, n: nat)
    ensures Shl(Shl(x, m), n) == Shl(x, m + n)
    decreases n
  {
    if n > 0 { ShlTwice(x, m, n - 1); }
  }

  lemma {:induction false} LowOfShl(x: nat, k: nat, n: nat)
    ensures Low(Shl(x, k), n + k) == Shl(Low(x, n), k)
  {
    if k > 0 { LowOfShl(x, k - 1, n); }
  }

  lemma {:induction false} ShrOfLow(x: nat, m: nat, n: nat)
    ensures Shr(Low(x, m + n), m) == Low(Shr(x, m), n)
  {
    if m > 0 { ShrOfLow(x / 2, m - 1, n); }
  }

  lemma {:induction false} LowOfLow(x: nat, n: nat, k: nat)
    ensures Low(Low(x, n + k), n) == Low(x, n)
  {
    if n > 0 { LowOfLow(x / 2, n - 1, k); }
  }

  // ----- bitwise operators

  /** `x & ((1 << n) - 1)` keeps the n lowest bits. */
  lemma {:induction false} AndMask(x: nat, n: nat)
    ensures And(x, Pow2(n) - 1) == Low(x, n)
  {
    if x == 0 {
      LowBound(x, n);
    } else if n == 0 {
      AndZero(x);
    } else {
      assert (Pow2(n) - 1) / 2 == Pow2(n - 1) - 1;
      AndMask(x / 2, n - 1);
    }
  }

  lemma {:induction false} AndZero(x: nat)
    ensures And(x, 0) == 0
  {
    if x > 0 { AndZero(x / 2); }
  }

  lemma {:induction false} OrCommutes(x: nat, y: nat)
    ensures Or(x, y) == Or(y, x)
    decreases x + y
  {
    if x != 0 || y != 0 { OrCommutes(x / 2, y / 2); }
  }

  lemma {:induction false} OrZero(x: nat)
    ensures Or(0, x) == x && Or(x, 0) == x
  {
    if x > 0 { OrZero(x / 2); }
  }

  /** `x | (y << n)` is a sum when x has only n bits. */
  lemma {:induction false} OrDisjoint(x: nat, y: nat, n: nat)
    requires x < Pow2(n)
    ensures Or(x, Shl(y, n)) == x + Shl(y, n)
  {
    if n == 0 {
      OrZero(y);
    } else {
      OrDisjoint(x / 2, y, n - 1);
    }
  }

  /** `x ^ ((1 << n) - 1)` is the complement of an n-bit number. */
  lemma {:induction false} XorAllOnes(x: nat, n: nat)
    requires x < Pow2(n)
    ensures Xor(x, Pow2(n) - 1) == Pow2(n) - 1 - x
  {
    hide Xor;
    XorZero();
    if n > 0 {
      var p := Pow2(n - 1);
      Halves(p);
      XorStep(x, 2 * p - 1);
      XorAllOnes(x / 2, n - 1);
    }
  }

  lemma XorZero()
    ensures Xor(0, 0) == 0
  {
  }

  lemma Halves(p: nat)
    requires p > 0
    ensures (2 * p - 1) / 2 == p - 1 && (2 * p - 1) % 2 == 1
  {
  }

  lemma XorStep(x: nat, y: nat)
    ensures Xor(x, y) == (if x % 2 == y % 2 then 0 else 1) + 2 * Xor(x / 2, y / 2)
  {
    if x == 0 && y == 0 { assert Xor(0, 0) == 0; }
  }

  // ----- single bits

  lemma {:induction false} BitAnd(x: nat, y: nat, i: nat)
    ensures Bit(And(x, y), i) == (if Bit(x, i) == 1 && Bit(y, i) == 1 then 1 else 0)
  {
    if x == 0 {
      BitZero(i);
    } else if i > 0 {
      BitAnd(x / 2, y / 2, i - 1);
    }
  }

  lemma {:induction false} BitOr(x: nat, y: nat, i: nat)
    ensures Bit(Or(x, y), i) == (if Bit(x, i) == 1 || Bit(y, i) == 1 then 1 else 0)
    decreases i
  {
    if i > 0 {
      BitOr(x / 2, y / 2, i - 1);
    }
  }

  lemma {:induction false} BitZero(i: nat)
    ensures Bit(0, i) == 0
  {
    if i > 0 { BitZero(i - 1); }
  }

  lemma {:induction false} BitShr(x: nat, n: nat, i: nat)
    ensures Bit(Shr(x, n), i) == Bit(x, i + n)
  {
    if n > 0 { BitShr(x / 2, n - 1, i); }
  }

  lemma {:induction false} BitShl(x: nat, n: nat, i: nat)
    ensures Bit(Shl(x, n), i) == if i < n then 0 else Bit(x, i - n)
  {
    if n > 0 && i > 0 { BitShl(x, n - 1, i - 1); }
  }

  lemma {:induction false} BitRange(x: nat, i: nat)
    ensures Bit(x, i) == 0 || Bit(x, i) == 1
  {
    if i > 0 { BitRange(x / 2, i - 1); }
  }

  /** Two n-bit numbers with the same bits are equal. */
  lemma {:induction false} SameBits(x: nat, y: nat, n: nat)
    requires x < Pow2(n) && y < Pow2(n)
    requires forall i :: 0 <= i < n ==> Bit(x, i) == Bit(y, i)
    ensures x == y
  {
    if n > 0 {
      assert Bit(x, 0) == Bit(y, 0);
      forall i | 0 <= i < n - 1
        ensures Bit(x / 2, i) == Bit(y / 2, i)
      {
        assert Bit(x, i + 1) == Bit(y, i + 1);
      }
      SameBits(x / 2, y / 2, n - 1);
    }
  }

  // ----- bit reversal

  lemma {:induction false} RevBit(v: nat, n: nat, acc: nat, i: nat)
    ensures Bit(RevInto(v, n, acc), i) == if i < n then Bit(v, n - 1 - i) else Bit(acc, i - n)
  {
    if n > 0 {
      RevBit(v / 2, n - 1, 2 * acc + v % 2, i);
    }
  }

  lemma {:induction false} RevIntoBound(v: nat, n: nat, acc: nat, k: nat)
    requires acc < Pow2(k)
    ensures RevInto(v, n, acc) < Pow2(n + k)
  {
    if n > 0 {
      RevIntoBound(v / 2, n - 1, 2 * acc + v % 2, k + 1);
    }
  }

  lemma RevBound(v: nat, n: nat)
    ensures Rev(v, n) < Pow2(n)
  {
    RevIntoBound(v, n, 0, 0);
  }

  /** Reversing twice gives back an n-bit number. */
  lemma RevRev(v: nat, n: nat)
    requires v < Pow2(n)
    ensures Rev(Rev(v, n), n) == v
  {
    RevBound(v, n);
    RevBound(Rev(v, n), n);
    forall i | 0 <= i < n
      ensures Bit(Rev(Rev(v, n), n), i) == Bit(v, i)
    {
      RevBit(Rev(v, n), n, 0, i);
      RevBit(v, n, 0, n - 1 - i);
    }
    SameBits(Rev(Rev(v, n), n), v, n);
  }

  /** Dropping low bits after a reversal reverses only the low bits. */
  lemma ShrRev(v: nat, n: nat, s: nat)
    requires s <= n
    ensures Shr(Rev(v, n), n - s) == Rev(v, s)
  {
    RevBound(v, n);
    RevBound(v, s);
    ShrBound(Rev(v, n), n - s, s);
    forall i | 0 <= i < s
      ensures Bit(Shr(Rev(v, n), n - s), i) == Bit(Rev(v, s), i)
    {
      BitShr(Rev(v, n), n - s, i);
      RevBit(v, n, 0, i + (n - s));
      RevBit(v, s, 0, i);
    }
    SameBits(Shr(Rev(v, n), n - s), Rev(v, s), s);
  }
}
