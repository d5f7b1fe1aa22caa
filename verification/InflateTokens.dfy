/**
 Compressed blocks as a writer makes them: literals and matches, whose codes and
 extra bits are computed from the length and the distance.  Whatever bytes the
 tokens describe are what the reference decoder reads.
 */
module InflateTokens {
  import opened Bits
  import opened BitStream
  import opened BitWriter
  import opened Canonical
  import opened Common
  import opened InflateSpec

  /** The length 258 has a code of its own, and another spelling with the code before it. */
  datatype Token = Byte(b: byte) | Match(len: nat, back: nat, other: bool)

  const END_OF_BLOCK: nat := 256

  // ----- lengths 3 to 258

  predicate IsLength(len: nat, other: bool) { 3 <= len <= 258 && (other ==> len == 258) }

  predicate OwnCode(len: nat, other: bool) { len < 11 || (len == 258 && !other) }

  /** How many bits are written behind the code: eight lengths have codes of their own, and so has the last; otherwise
      four codes share each power of two. */
  function LengthBits(len: nat, other: bool): nat
    requires IsLength(len, other)
  {
    if OwnCode(len, other) then 0 else Log2(len - 3) - 2
  }

  function LengthCode(len: nat, other: bool): nat
    requires IsLength(len, other)
  {
    if !OwnCode(len, other) then 257 + 4 * LengthBits(len, other) + (len - 3) / Pow2(LengthBits(len, other))
    else if len < 11 then 254 + len
    else 285
  }

  function LengthRest(len: nat, other: bool): nat
    requires IsLength(len, other)
  {
    if OwnCode(len, other) then 0 else (len - 3) % Pow2(LengthBits(len, other))
  }

  // ----- distances 1 to 32768

  predicate IsDistance(back: nat) { 1 <= back <= 0x8000 }

  /** Four distances have codes of their own; otherwise two codes share each power of two. */
  function DistanceBits(back: nat): nat
    requires IsDistance(back)
  {
    if back < 5 then 0 else Log2(back - 1) - 1
  }

  function DistanceCode(back: nat): nat
    requires IsDistance(back)
  {
    if back < 5 then back - 1 else 2 * DistanceBits(back) + (back - 1) / Pow2(DistanceBits(back))
  }

  function DistanceRest(back: nat): nat
    requires IsDistance(back)
  {
    (back - 1) % Pow2(DistanceBits(back))
  }

  // ----- the tables

  lemma SmallPowers()
    ensures Pow2(0) == 1 && Pow2(1) == 2 && Pow2(2) == 4 && Pow2(3) == 8 && Pow2(4) == 16 && Pow2(5) == 32
    ensures Pow2(6) == 64 && Pow2(7) == 128 && Pow2(8) == 256 && Pow2(9) == 512 && Pow2(10) == 1024
    ensures Pow2(11) == 2048 && Pow2(12) == 4096 && Pow2(13) == 8192 && Pow2(14) == 16384 && Pow2(15) == 32768
  {
    assert Pow2(4) == 16;
    assert Pow2(8) == 16 * Pow2(4);
    assert Pow2(12) == 16 * Pow2(8);
  }

  /** The 29 length codes: each starts where the one before it ends. */
  lemma LengthTable(i: nat)
    requires i < 29
    ensures |LENGTH_EXTRA| == |LENGTH_BASE| == 29
    ensures LENGTH_EXTRA[i] == if i < 8 || i == 28 then 0 else i / 4 - 1
    ensures i < 28 ==> LENGTH_BASE[i] == 3 + if i < 8 then i else (4 + i % 4) * Pow2(i / 4 - 1)
    ensures i == 28 ==> LENGTH_BASE[i] == 258
  {
    SmallPowers();
  }

  /** The 30 distance codes. */
  lemma DistanceTable(i: nat)
    requires i < 30
    ensures |DIST_EXTRA| == |DIST_BASE| == 30
    ensures DIST_EXTRA[i] == if i < 4 then 0 else i / 2 - 1
    ensures DIST_BASE[i] == 1 + if i < 4 then i else (2 + i % 2) * Pow2(i / 2 - 1)
  {
    SmallPowers();
  }

  /** n in units of 2^e. */
  lemma Units(n: nat, e: nat, k: nat)
    requires k * Pow2(e) <= n < 2 * k * Pow2(e)
    ensures k <= n / Pow2(e) < 2 * k && n == n / Pow2(e) * Pow2(e) + n % Pow2(e) && n % Pow2(e) < Pow2(e)
  {
    hide Pow2;
    var m := Pow2(e);
    var q, r := n / m, n % m;
    assert n == q * m + r && (q + 1) * m == q * m + m;
    LessFactor(q, 2 * k, m);
    LessFactor(k, q + 1, m);
  }

  /** The code of a length has as many extra bits as are written, and with them stands for the length. */
  lemma LengthRead(len: nat, other: bool)
    requires IsLength(len, other)
    ensures 257 <= LengthCode(len, other) < 286 && |LENGTH_EXTRA| == |LENGTH_BASE| == 29
    ensures LENGTH_EXTRA[LengthCode(len, other) - 257] == LengthBits(len, other)
    ensures LengthRest(len, other) < Pow2(LengthBits(len, other))
    ensures LENGTH_BASE[LengthCode(len, other) - 257] + LengthRest(len, other) == len
  {
    hide LENGTH_EXTRA, LENGTH_BASE, Pow2, Log2;
    SmallPowers();
    if OwnCode(len, other) {
      LengthTable(if len == 258 then 28 else len - 3);
    } else {
      LogIs(len - 3, 3, 8);
      LongLength(len, LengthBits(len, other));
    }
  }

  /** A length whose code has e extra bits. */
  lemma LongLength(len: nat, e: nat)
    requires 1 <= e < 6 && 11 <= len && Pow2(e + 2) <= len - 3 < Pow2(e + 3)
    ensures |LENGTH_EXTRA| == |LENGTH_BASE| == 29
    ensures 0 <= 4 * e + (len - 3) / Pow2(e) < 28 && LENGTH_EXTRA[4 * e + (len - 3) / Pow2(e)] == e
    ensures LENGTH_BASE[4 * e + (len - 3) / Pow2(e)] + (len - 3) % Pow2(e) == len && (len - 3) % Pow2(e) < Pow2(e)
  {
    hide LENGTH_EXTRA, LENGTH_BASE, Pow2;
    Pow2Up(e + 2);
    Pow2Up(e + 1);
    Pow2Up(e);
    Units(len - 3, e, 4);
    var q := (len - 3) / Pow2(e);
    var i := 4 * e + q;
    assert i / 4 == e + 1 && i % 4 == q - 4;
    LengthTable(i);
    SameProduct(4 + i % 4, q, Pow2(i / 4 - 1), Pow2(e));
    assert LENGTH_BASE[i] == 3 + q * Pow2(e);
    assert len - 3 == q * Pow2(e) + (len - 3) % Pow2(e);
  }

  lemma Pow2Up(n: nat)
    ensures Pow2(n + 1) == 2 * Pow2(n)
  {
  }

  lemma DistanceRead(back: nat)
    requires IsDistance(back)
    ensures DistanceCode(back) < 30 && |DIST_EXTRA| == |DIST_BASE| == 30
    ensures DIST_EXTRA[DistanceCode(back)] == DistanceBits(back) && DistanceRest(back) < Pow2(DistanceBits(back))
    ensures DIST_BASE[DistanceCode(back)] + DistanceRest(back) == back
  {
    hide DIST_EXTRA, DIST_BASE, Pow2, Log2;
    SmallPowers();
    if back < 5 {
      DistanceTable(back - 1);
    } else {
      LogIs(back - 1, 2, 15);
      FarDistance(back, DistanceBits(back));
    }
  }

  lemma SameProduct(a: int, b: int, m: int, n: int)
    requires a == b && m == n
    ensures a * m == b * n
  {
  }

  /** A distance whose code has e extra bits. */
  lemma FarDistance(back: nat, e: nat)
    requires 1 <= e < 14 && 5 <= back && Pow2(e + 1) <= back - 1 < Pow2(e + 2)
    ensures |DIST_EXTRA| == |DIST_BASE| == 30
    ensures 0 <= 2 * e + (back - 1) / Pow2(e) < 30 && DIST_EXTRA[2 * e + (back - 1) / Pow2(e)] == e
    ensures DIST_BASE[2 * e + (back - 1) / Pow2(e)] + (back - 1) % Pow2(e) == back
  {
    hide DIST_EXTRA, DIST_BASE, Pow2;
    Pow2Up(e + 1);
    Pow2Up(e);
    Units(back - 1, e, 2);
    var q := (back - 1) / Pow2(e);
    var i := 2 * e + q;
    assert i / 2 == e + 1 && i % 2 == q - 2;
    DistanceTable(i);
    SameProduct(2 + i % 2, q, Pow2(i / 2 - 1), Pow2(e));
    assert DIST_BASE[i] == 1 + q * Pow2(e);
    assert back - 1 == q * Pow2(e) + (back - 1) % Pow2(e);
  }

  // ----- what tokens describe

  /** The tokens describe `out` from position k on: a match repeats what stands `back` bytes before, also its own
      bytes. */
  ghost predicate Describe(tokens: seq<Token>, out: seq<byte>, k: nat)
    decreases |tokens|
  {
    if tokens == [] then k == |out|
    else
      match tokens[0]
      case Byte(b) => k < |out| && out[k] == b && Describe(tokens[1..], out, k + 1)
      case Match(len, back, other) =>
        && IsLength(len, other) && IsDistance(back) && back <= k && k + len <= |out|
        && (forall j :: k <= j < k + len ==> out[j] == out[j - back])
        && Describe(tokens[1..], out, k + len)
  }

  lemma {:induction false} CopyDescribed(out: seq<byte>, k: nat, back: nat, len: nat)
    requires 1 <= back <= k && k + len <= |out| && forall j :: k <= j < k + len ==> out[j] == out[j - back]
    ensures CopyBack(out[..k], back, len) == out[..k + len]
    decreases len
  {
    if len > 0 {
      assert out[..k] + [out[..k][k - back]] == out[..k + 1];
      CopyDescribed(out, k + 1, back, len - 1);
    }
  }

  // ----- writing them

  /** The symbol has a code of at most 15 bits. */
  predicate HasCode(lens: seq<nat>, s: nat) { s < |lens| && 0 < lens[s] <= 15 }

  function SymbolBits(lens: seq<nat>, s: nat): seq<bit>
    requires HasCode(lens, s)
  {
    HighFirst(Code(lens, s), lens[s])
  }

  predicate Writable(lit: seq<nat>, dist: seq<nat>, t: Token) {
    match t
    case Byte(b) => HasCode(lit, b)
    case Match(len, back, other) =>
      IsLength(len, other) && IsDistance(back) && HasCode(lit, LengthCode(len, other)) &&
      HasCode(dist, DistanceCode(back))
  }

  function TokenBits(lit: seq<nat>, dist: seq<nat>, t: Token): seq<bit>
    requires Writable(lit, dist, t)
  {
    match t
    case Byte(b) => SymbolBits(lit, b)
    case Match(len, back, other) =>
      SymbolBits(lit, LengthCode(len, other)) + LowFirst(LengthRest(len, other), LengthBits(len, other)) +
      (SymbolBits(dist, DistanceCode(back)) + LowFirst(DistanceRest(back), DistanceBits(back)))
  }

  predicate AllWritable(lit: seq<nat>, dist: seq<nat>, tokens: seq<Token>) {
    HasCode(lit, END_OF_BLOCK) && forall i :: 0 <= i < |tokens| ==> Writable(lit, dist, tokens[i])
  }

  /** The tokens, and the end of the block. */
  function BlockBits(lit: seq<nat>, dist: seq<nat>, tokens: seq<Token>): seq<bit>
    requires AllWritable(lit, dist, tokens)
    decreases |tokens|
  {
    if tokens == [] then SymbolBits(lit, END_OF_BLOCK)
    else TokenBits(lit, dist, tokens[0]) + BlockBits(lit, dist, tokens[1..])
  }

  lemma SymbolWritten(data: seq<byte>, p: nat, lens: seq<nat>, s: nat)
    requires HasCode(lens, s) && Fits(lens, 15) && Written(data, p, SymbolBits(lens, s))
    ensures Symbol(lens, data, p) == Some(s)
  {
    CodeFits(lens, 15, s);
    CodeWritten(data, p, Code(lens, s), lens[s]);
    SymbolUnique(lens, s, data, p);
  }

  lemma MatchWritten(data: seq<byte>, p: nat, lit: seq<nat>, dist: seq<nat>, len: nat, back: nat,
                     other: bool)
    requires Writable(lit, dist, Match(len, back, other)) && Fits(lit, 15) && Fits(dist, 15)
    requires Written(data, p, TokenBits(lit, dist, Match(len, back, other)))
    ensures NextStep(data, p, lit, dist) == Copy(p + |TokenBits(lit, dist, Match(len, back, other))|, len, back)
  {
    hide Written, Symbol, SymbolBits, Take, LENGTH_EXTRA, LENGTH_BASE, DIST_EXTRA, DIST_BASE, Fits;
    hide LengthCode, LengthBits, LengthRest, DistanceCode, DistanceBits, DistanceRest, LowFirst;
    LengthRead(len, other);
    DistanceRead(back);
    var s, d := LengthCode(len, other), DistanceCode(back);
    var a, b := SymbolBits(lit, s), LowFirst(LengthRest(len, other), LengthBits(len, other));
    var c, e := SymbolBits(dist, d), LowFirst(DistanceRest(back), DistanceBits(back));
    BitsOf(lit, s);
    BitsOf(dist, d);
    WrittenJoin(data, p, a + b, c + e);
    WrittenJoin(data, p, a, b);
    WrittenJoin(data, p + |a + b|, c, e);
    var p1 := p + |a|;
    SymbolWritten(data, p, lit, s);
    TakeWritten(data, p1, LengthRest(len, other), LengthBits(len, other));
    SymbolWritten(data, p1 + |b|, dist, d);
    TakeWritten(data, p1 + |b| + |c|, DistanceRest(back), DistanceBits(back));
  }

  lemma BitsOf(lens: seq<nat>, s: nat)
    requires HasCode(lens, s)
    ensures |SymbolBits(lens, s)| == lens[s]
  {
  }

  /** What the reference decoder does at a token. */
  ghost function StepOf(t: Token, end: nat): Step {
    match t
    case Byte(b) => Literal(end, b)
    case Match(len, back, _) => Copy(end, len, back)
  }

  lemma TokenWritten(data: seq<byte>, p: nat, lit: seq<nat>, dist: seq<nat>, t: Token)
    requires Writable(lit, dist, t) && Fits(lit, 15) && Fits(dist, 15)
    requires Written(data, p, TokenBits(lit, dist, t))
    ensures NextStep(data, p, lit, dist) == StepOf(t, p + |TokenBits(lit, dist, t)|)
  {
    hide Written, Symbol, SymbolBits, Fits, MatchStep;
    match t
    case Byte(b) =>
      SymbolWritten(data, p, lit, b);
      BitsOf(lit, b);
    case Match(len, back, other) => MatchWritten(data, p, lit, dist, len, back, other);
  }

  lemma EndWritten(data: seq<byte>, p: nat, lit: seq<nat>, dist: seq<nat>)
    requires HasCode(lit, END_OF_BLOCK) && Fits(lit, 15) && Written(data, p, SymbolBits(lit, END_OF_BLOCK))
    ensures NextStep(data, p, lit, dist) == EndOfBlock(p + |SymbolBits(lit, END_OF_BLOCK)|)
  {
    hide Written, Symbol, SymbolBits, Fits, MatchStep;
    SymbolWritten(data, p, lit, END_OF_BLOCK);
    BitsOf(lit, END_OF_BLOCK);
  }

  /** The block is read up to its end, as the bytes that the tokens describe. */
  lemma {:induction false} BlockWritten(data: seq<byte>, p: nat, lit: seq<nat>, dist: seq<nat>, tokens: seq<Token>,
                                        out: seq<byte>, k: nat, limit: nat)
    requires AllWritable(lit, dist, tokens) && Fits(lit, 15) && Fits(dist, 15)
    requires Written(data, p, BlockBits(lit, dist, tokens)) && k <= |out| <= limit && Describe(tokens, out, k)
    ensures CompressedBlock(data, p, lit, dist, out[..k], limit) ==
            Accept(p + |BlockBits(lit, dist, tokens)|, out)
    decreases |tokens|
  {
    hide Written, NextStep, SymbolBits, TokenBits, Writable, Fits, CopyBack;
    if tokens == [] {
      EndWritten(data, p, lit, dist);
      assert out[..k] == out;
    } else {
      var t, rest := tokens[0], BlockBits(lit, dist, tokens[1..]);
      var here := TokenBits(lit, dist, t);
      WrittenJoin(data, p, here, rest);
      TokenWritten(data, p, lit, dist, t);
      match t
      case Byte(b) =>
        assert out[..k] + [b] == out[..k + 1];
        BlockWritten(data, p + |here|, lit, dist, tokens[1..], out, k + 1, limit);
      case Match(len, back, _) =>
        CopyDescribed(out, k, back, len);
        BlockWritten(data, p + |here|, lit, dist, tokens[1..], out, k + len, limit);
    }
  }
}
