/**
 Operands as a font writer encodes them, and how subroutines are numbered and hint
 masks passed over (sections 3.2, 4.3 and 4.7 of the Type 2 charstring format).
 */
module CharstringOperands {
  import opened Bits
  import opened CharstringSpec

  // ----- numbers

  const TWO16: nat := 0x1_0000
  const TWO32: nat := 0x1_0000_0000

  /** n modulo m, for the two's complement. */
  function Complement(n: int, m: nat): int { if n < 0 then n + m else n }

  /** An integer in one byte, two or three. */
  function IntBytes(n: int): (r: seq<byte>)
    requires -0x8000 <= n < 0x8000
  {
    if -107 <= n <= 107 then [n + 139]
    else if 108 <= n <= 1131 then [247 + (n - 108) / 256, (n - 108) % 256]
    else if -1131 <= n <= -108 then [251 + (-n - 108) / 256, (-n - 108) % 256]
    else
      var u := Complement(n, TWO16);
      [28, u / 256, u % 256]
  }

  /** A number with sixteen bits behind the point, v of them 2^16 times as much. */
  function FixedBytes(v: int): (r: seq<byte>)
    requires -0x8000_0000 <= v < 0x8000_0000
  {
    var u := Complement(v, TWO32);
    [255, u / 256 / 256 / 256, u / 256 / 256 % 256, u / 256 % 256, u % 256]
  }

  lemma FourPowers()
    ensures Pow2(16) == TWO16 && Pow2(32) == TWO32
  {
    assert Pow2(4) == 16;
    assert Pow2(8) == 16 * Pow2(4);
    assert Pow2(12) == 16 * Pow2(8);
    assert Pow2(16) == 16 * Pow2(12);
    assert Pow2(20) == 16 * Pow2(16);
    assert Pow2(24) == 16 * Pow2(20);
    assert Pow2(28) == 16 * Pow2(24);
    assert Pow2(32) == 16 * Pow2(28);
  }

  lemma SmallRest(u: nat, m: nat)
    requires u < m
    ensures u % m == u
  {
  }

  lemma SignedBack(n: int, bits: nat)
    requires (bits == 16 && -0x8000 <= n < 0x8000) || (bits == 32 && -0x8000_0000 <= n < 0x8000_0000)
    ensures Signed(Complement(n, Pow2(bits)), bits) == n
  {
    FourPowers();
    SmallRest(Complement(n, Pow2(bits)), Pow2(bits));
  }

  /** The bytes stand at the cursor. */
  predicate Here(b: Buf, bytes: seq<byte>) {
    b.cursor + |bytes| <= |b.data| && b.data[b.cursor..b.cursor + |bytes|] == bytes
  }

  lemma HereByte(b: Buf, bytes: seq<byte>, k: nat)
    requires Here(b, bytes) && k < |bytes|
    ensures b.data[b.cursor + k] == bytes[k]
  {
    assert b.data[b.cursor..b.cursor + |bytes|][k] == b.data[b.cursor + k];
  }

  lemma GetNext(b: Buf, n: nat, v: nat)
    requires b.cursor < |b.data|
    ensures Get(b, n + 1, v) == Get(Next(b), n, v * 256 + b.data[b.cursor])
    ensures Past(b, n + 1) == Past(b.(cursor := b.cursor + 1), n) && Next(b) == b.(cursor := b.cursor + 1)
  {
  }

  lemma GetDone(b: Buf, v: nat)
    ensures Get(b, 0, v) == v && Past(b, 0) == b
  {
  }

  /** What an integer's bytes are read as. */
  lemma IntRead(b: Buf, n: int)
    requires -0x8000 <= n < 0x8000 && Here(b, IntBytes(n))
    ensures var b0, rest := b.data[b.cursor], b.(cursor := b.cursor + 1);
            && (b0 >= 32 || b0 == 28) && b0 != 255 && Operand(b0, rest) == n as real
            && PastOperand(b0, rest) == b.(cursor := b.cursor + |IntBytes(n)|)
  {
    hide Signed, Complement, Get, Past;
    var bytes, rest := IntBytes(n), b.(cursor := b.cursor + 1);
    HereByte(b, bytes, 0);
    if |bytes| == 1 {
      GetDone(rest, 0);
    } else if |bytes| == 2 {
      HereByte(b, bytes, 1);
      GetNext(rest, 0, 0);
      GetDone(Next(rest), 0);
    } else {
      HereByte(b, bytes, 1);
      HereByte(b, bytes, 2);
      FourPowers();
      SignedBack(n, 16);
      GetTwo(rest);
    }
  }

  /** Every integer of 16 bits is pushed by its bytes. */
  lemma IntPushed(font: Font, st: State, n: int)
    requires Legal(st) && |st.stack| < 48 && -0x8000 <= n < 0x8000 && Here(st.b, IntBytes(n))
    ensures Step(font, st) ==
            Go(st.(b := st.b.(cursor := st.b.cursor + |IntBytes(n)|), stack := st.stack + [n as real]), [])
  {
    hide Operand, PastOperand;
    IntRead(st.b, n);
  }

  lemma GetTwo(b: Buf)
    requires b.cursor + 2 <= |b.data|
    ensures Get(b, 2, 0) == 256 * (b.data[b.cursor] as nat) + b.data[b.cursor + 1]
    ensures Past(b, 2) == b.(cursor := b.cursor + 2)
  {
    hide Get, Past;
    var a: nat := b.data[b.cursor];
    GetNext(b, 1, 0);
    GetNext(Next(b), 0, a);
    GetDone(Next(Next(b)), a * 256 + b.data[b.cursor + 1]);
  }

  /** Four digits to the base 256. */
  function Four(a: nat, b: nat, c: nat, d: nat): nat { ((a * 256 + b) * 256 + c) * 256 + d }

  lemma FourDigits(u: nat)
    ensures Four(u / 256 / 256 / 256, u / 256 / 256 % 256, u / 256 % 256, u % 256) == u
  {
  }

  lemma GetFour(b: Buf)
    requires b.cursor + 4 <= |b.data|
    ensures var c, d := b.cursor, b.data;
            Get(b, 4, 0) == Four(d[c], d[c + 1], d[c + 2], d[c + 3])
    ensures Past(b, 4) == b.(cursor := b.cursor + 4)
  {
    hide Get, Past;
    var d, c := b.data, b.cursor;
    var v1: nat := d[c];
    var v2: nat := v1 * 256 + d[c + 1];
    var v3: nat := v2 * 256 + d[c + 2];
    GetNext(b, 3, 0);
    GetNext(Next(b), 2, v1);
    GetNext(Next(Next(b)), 1, v2);
    GetNext(Next(Next(Next(b))), 0, v3);
    GetDone(b.(cursor := c + 4), v3 * 256 + d[c + 3]);
  }

  /** And so is every number of 16.16 bits. */
  lemma FixedPushed(font: Font, st: State, v: int)
    requires Legal(st) && |st.stack| < 48 && -0x8000_0000 <= v < 0x8000_0000 && Here(st.b, FixedBytes(v))
    ensures Step(font, st) ==
            Go(st.(b := st.b.(cursor := st.b.cursor + 5), stack := st.stack + [(v as real) / 65536.0]), [])
  {
    hide Signed, Complement, Get, Past, Four;
    var bytes := FixedBytes(v);
    HereByte(st.b, bytes, 0);
    HereByte(st.b, bytes, 1);
    HereByte(st.b, bytes, 2);
    HereByte(st.b, bytes, 3);
    HereByte(st.b, bytes, 4);
    FourPowers();
    SignedBack(v, 32);
    GetFour(Next(st.b));
    FourDigits(Complement(v, TWO32));
    assert Get(Next(st.b), 4, 0) == Complement(v, TWO32);
  }

  // ----- subroutines

  /** How subroutine i is called when there are `count`: from the least number of one byte, of two bytes or of 16 bits
      on. */
  function CallNumber(i: nat, count: nat): int {
    if count < 1240 then i - 107 else if count < 33900 then i - 1131 else i - 0x8000
  }

  /** Those of callgsubr and of callsubr: the font's, or the glyph's where it selects them. */
  function Subroutines(font: Font, op: byte): seq<seq<byte>> {
    if op == 29 then font.gsubrs else if font.selects then font.glyph_subrs else font.subrs
  }

  /** The call goes to that subroutine, and returns behind itself. */
  lemma SubroutineCalled(font: Font, st: State, i: nat)
    requires Legal(st) && st.b.cursor < |st.b.data| && (Peek(st.b) == 10 || Peek(st.b) == 29)
    requires st.stack != [] && |st.callers| < 10
    requires var subrs := Subroutines(font, Peek(st.b));
             i < |subrs| && subrs[i] != [] && st.stack[|st.stack| - 1] == CallNumber(i, |subrs|) as real
    ensures var subrs := Subroutines(font, Peek(st.b));
            Step(font, st) ==
            Go(st.(b := Buf(subrs[i], 0), callers := st.callers + [st.b.(cursor := st.b.cursor + 1)],
                   stack := st.stack[..|st.stack| - 1]), [])
  {
  }

  // ----- hint masks

  /** A mask has a bit for each stem, in as few bytes as hold them; stems on the stack count as well. */
  lemma MaskPassed(font: Font, st: State, stems: nat, bytes: nat)
    requires Legal(st) && st.b.cursor + 1 + bytes <= |st.b.data| && (Peek(st.b) == 19 || Peek(st.b) == 20)
    requires 2 * (stems - st.maskbits) <= |st.stack| <= 2 * (stems - st.maskbits) + 1
    requires st.in_header && stems <= 8 * bytes < stems + 8
    ensures Step(font, st) ==
            Go(st.(b := st.b.(cursor := st.b.cursor + 1 + bytes), in_header := false, maskbits := stems, stack := []),
               [])
  {
  }
}
