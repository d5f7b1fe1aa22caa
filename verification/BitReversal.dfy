/** The mask-and-swap reversal of 16 bits and its use for shorter codes. */
module BitReversal {
  import opened Bits

  function Swap(n: nat, high: nat, low: nat, k: nat): nat {
    Or(Shr(And(n, high), k), Shl(And(n, low), k))
  }

  function BitReverse16(n: nat): nat {
    var n1 := Swap(n, 0xAAAA, 0x5555, 1);
    var n2 := Swap(n1, 0xCCCC, 0x3333, 2);
    var n4 := Swap(n2, 0xF0F0, 0x0F0F, 4);
    Swap(n4, 0xFF00, 0x00FF, 8)
  }

  function BitReverse(v: nat, bits: nat): nat
    requires bits <= 16
  {
    Shr(BitReverse16(v), 16 - bits)
  }

  lemma SwapBit(n: nat, high: nat, low: nat, k: nat, i: nat)
    ensures Bit(Swap(n, high, low, k), i) ==
      if (Bit(n, i + k) == 1 && Bit(high, i + k) == 1) ||
         (i >= k && Bit(n, i - k) == 1 && Bit(low, i - k) == 1)
      then 1 else 0
  {
    BitOr(Shr(And(n, high), k), Shl(And(n, low), k), i);
    BitShr(And(n, high), k, i);
    BitAnd(n, high, i + k);
    BitShl(And(n, low), k, i);
    if i >= k { BitAnd(n, low, i - k); }
  }

  /** In blocks of k positions, is position i in a block that is the upper one of its pair? */
  predicate Upper(i: nat, k: nat) {
    if k == 1 then i % 2 == 1
    else if k == 2 then i % 4 >= 2
    else if k == 4 then i % 8 >= 4
    else i % 16 >= 8
  }

  /** Bits i and up of the 16-bit mask that selects the upper blocks of k bits. */
  function Mask(k: nat, i: nat): nat
    requires i <= 16
    decreases 16 - i
  {
    if i == 16 then 0 else (if Upper(i, k) then 1 else 0) + 2 * Mask(k, i + 1)
  }

  lemma {:induction false} MaskBit(k: nat, i: nat, j: nat)
    requires i <= 16
    ensures Bit(Mask(k, i), j) == if i + j < 16 && Upper(i + j, k) then 1 else 0
    decreases 16 - i
  {
    if i == 16 {
      BitZero(j);
    } else if j > 0 {
      MaskBit(k, i + 1, j - 1);
    }
  }

  function Upper1(i: nat, k: nat): nat { if Upper(i, k) then 1 else 0 }

  lemma Nibble(k: nat, i: nat)
    requires i <= 12
    ensures Mask(k, i) == Upper1(i, k) + 2 * Upper1(i + 1, k) + 4 * Upper1(i + 2, k) + 8 * Upper1(i + 3, k) +
        16 * Mask(k, i + 4)
  {
    assert Mask(k, i) == Upper1(i, k) + 2 * Mask(k, i + 1);
    assert Mask(k, i + 1) == Upper1(i + 1, k) + 2 * Mask(k, i + 2);
    assert Mask(k, i + 2) == Upper1(i + 2, k) + 2 * Mask(k, i + 3);
    assert Mask(k, i + 3) == Upper1(i + 3, k) + 2 * Mask(k, i + 4);
  }

  lemma HighMask1()
    ensures Mask(1, 0) == 0xAAAA
  {
    Nibble(1, 0);
    Nibble(1, 4);
    Nibble(1, 8);
    Nibble(1, 12);
  }

  lemma HighMask2()
    ensures Mask(2, 0) == 0xCCCC
  {
    Nibble(2, 0);
    Nibble(2, 4);
    Nibble(2, 8);
    Nibble(2, 12);
  }

  lemma HighMask4()
    ensures Mask(4, 0) == 0xF0F0
  {
    Nibble(4, 0);
    Nibble(4, 4);
    Nibble(4, 8);
    Nibble(4, 12);
  }

  lemma HighMask8()
    ensures Mask(8, 0) == 0xFF00
  {
    Nibble(8, 0);
    Nibble(8, 4);
    Nibble(8, 8);
    Nibble(8, 12);
  }

  lemma LowMasks()
    ensures 0x5555 == Shr(0xAAAA, 1) && 0x3333 == Shr(0xCCCC, 2)
    ensures 0x0F0F == Shr(0xF0F0, 4) && 0x00FF == Shr(0xFF00, 8)
  {
  }

  /** Where round k takes bit i from. */
  function Partner(i: nat, k: nat): int
  {
    if Upper(i, k) then i - k else i + k
  }

  lemma PartnerSide(i: nat, k: nat)
    requires k == 1 || k == 2 || k == 4 || k == 8
    requires i < 16
    ensures 0 <= Partner(i, k) < 16
    ensures Upper(i, k) ==> i >= k
    ensures !Upper(i, k) ==> Upper(i + k, k)
    ensures Upper(i, k) && i + k < 16 ==> !Upper(i + k, k)
  {
  }

  lemma SwapSides(n: nat, high: nat, low: nat, k: nat, i: nat, upper: bool)
    requires upper ==> i >= k
    requires Bit(high, i + k) == (if upper then 0 else 1)
    requires i >= k ==> Bit(low, i - k) == (if upper then 1 else 0)
    ensures Bit(Swap(n, high, low, k), i) == Bit(n, if upper then i - k else i + k)
  {
    SwapBit(n, high, low, k, i);
    BitRange(n, i + k);
    if i >= k { BitRange(n, i - k); }
  }

  lemma MaskBits(k: nat, i: nat)
    ensures Bit(Mask(k, 0), i + k) == if i + k < 16 && Upper(i + k, k) then 1 else 0
    ensures i >= k ==> Bit(Shr(Mask(k, 0), k), i - k) == if i < 16 && Upper(i, k) then 1 else 0
  {
    hide *;
    MaskBit(k, 0, i + k);
    if i >= k {
      BitShr(Mask(k, 0), k, i - k);
      MaskBit(k, 0, i);
    }
  }

  /** One round swaps neighbouring blocks of k bits. */
  lemma Round(n: nat, k: nat, i: nat)
    requires k == 1 || k == 2 || k == 4 || k == 8
    requires i < 16
    ensures 0 <= Partner(i, k) < 16
    ensures Bit(Swap(n, Mask(k, 0), Shr(Mask(k, 0), k), k), i) == Bit(n, Partner(i, k))
  {
    PartnerSide(i, k);
    MaskBits(k, i);
    SwapSides(n, Mask(k, 0), Shr(Mask(k, 0), k), k, i, Upper(i, k));
  }

  /** The last round leaves nothing above 16 bits. */
  lemma LastRoundHigh(n: nat, i: nat)
    requires i >= 16
    ensures Bit(Swap(n, Mask(8, 0), Shr(Mask(8, 0), 8), 8), i) == 0
  {
    hide Swap, Mask, Bit, Shr, Upper;
    MaskBits(8, i);
    SwapBit(n, Mask(8, 0), Shr(Mask(8, 0), 8), 8, i);
  }

  lemma PartnersMirror(i: nat)
    requires i < 16
    ensures 0 <= Partner(i, 8) < 16
    ensures 0 <= Partner(Partner(i, 8), 4) < 16
    ensures 0 <= Partner(Partner(Partner(i, 8), 4), 2) < 16
    ensures Partner(Partner(Partner(Partner(i, 8), 4), 2), 1) == 15 - i
  {
  }

  lemma Bit16(n: nat, i: nat)
    ensures Bit(BitReverse16(n), i) == if i < 16 then Bit(n, 15 - i) else 0
  {
    HighMask1();
    HighMask2();
    HighMask4();
    HighMask8();
    LowMasks();
    var n1 := Swap(n, 0xAAAA, 0x5555, 1);
    var n2 := Swap(n1, 0xCCCC, 0x3333, 2);
    var n4 := Swap(n2, 0xF0F0, 0x0F0F, 4);
    if i < 16 {
      PartnersMirror(i);
      Round(n4, 8, i);
      Round(n2, 4, Partner(i, 8));
      Round(n1, 2, Partner(Partner(i, 8), 4));
      Round(n, 1, Partner(Partner(Partner(i, 8), 4), 2));
    } else {
      LastRoundHigh(n4, i);
    }
  }

  /** The network reverses the low 16 bits of any number, and drops the others. */
  lemma Reverse16(n: nat)
    ensures BitReverse16(n) == Rev(n, 16)
  {
    forall i: nat
      ensures Bit(BitReverse16(n), i) == Bit(Rev(n, 16), i)
    {
      Bit16(n, i);
      RevBit(n, 16, 0, i);
      if i >= 16 { BitZero(i - 16); }
    }
    AllBits(BitReverse16(n), Rev(n, 16));
  }

  lemma {:induction false} AllBits(x: nat, y: nat)
    requires forall i: nat :: Bit(x, i) == Bit(y, i)
    ensures x == y
    decreases x + y
  {
    if x + y > 0 {
      assert Bit(x, 0) == Bit(y, 0);
      forall i: nat
        ensures Bit(x / 2, i) == Bit(y / 2, i)
      {
        assert Bit(x, i + 1) == Bit(y, i + 1);
      }
      AllBits(x / 2, y / 2);
    }
  }

  /** stbi__bit_reverse reverses the low `bits` bits. */
  lemma ReverseBits(v: nat, bits: nat)
    requires bits <= 16
    ensures BitReverse(v, bits) == Rev(v, bits)
  {
    Reverse16(v);
    ShrRev(v, 16, bits);
  }

  method Reversed(v: nat, bits: nat) returns (r: nat)
    requires bits <= 16
    ensures r == Rev(v, bits)
  {
    ReverseBits(v, bits);
    r := BitReverse(v, bits);
  }
}
