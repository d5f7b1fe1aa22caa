/**
 stbi__jpeg_decode_block: one baseline block of 64 coefficients, against the
 sequence of codes that sections F.2.2.1 and F.2.2.2 of ITU-T T.81 describe.
 */
module JpegBlock {
  import opened Bits
  import opened Common
  import opened Canonical
  import opened JpegHuffman
  import opened JpegTables
  import opened JpegDecode
  import opened TopBits
  import opened JpegFastAc

  // ----- zigzag order

  /** stbi__jpeg_dezigzag: row-major places in zigzag order, and fifteen entries more for runs that go too far. */
  function Dezigzag(k: nat): nat
    requires k < 79
  {
    match k
    case 0 => 0 case 1 => 1 case 2 => 8 case 3 => 16 case 4 => 9 case 5 => 2 case 6 => 3 case 7 => 10
    case 8 => 17 case 9 => 24 case 10 => 32 case 11 => 25 case 12 => 18 case 13 => 11 case 14 => 4 case 15 => 5
    case 16 => 12 case 17 => 19 case 18 => 26 case 19 => 33 case 20 => 40 case 21 => 48 case 22 => 41 case 23 => 34
    case 24 => 27 case 25 => 20 case 26 => 13 case 27 => 6 case 28 => 7 case 29 => 14 case 30 => 21 case 31 => 28
    case 32 => 35 case 33 => 42 case 34 => 49 case 35 => 56 case 36 => 57 case 37 => 50 case 38 => 43 case 39 => 36
    case 40 => 29 case 41 => 22 case 42 => 15 case 43 => 23 case 44 => 30 case 45 => 37 case 46 => 44 case 47 => 51
    case 48 => 58 case 49 => 59 case 50 => 52 case 51 => 45 case 52 => 38 case 53 => 31 case 54 => 39 case 55 => 46
    case 56 => 53 case 57 => 60 case 58 => 61 case 59 => 54 case 60 => 47 case 61 => 55 case 62 => 62 case 63 => 63
    case _ => 63
  }

  /** The first position of the diagonal x + y == d, less the smallest coordinate on it. */
  function DiagonalStart(d: nat): nat {
    match d
    case 0 => 0 case 1 => 1 case 2 => 3 case 3 => 6 case 4 => 10 case 5 => 15 case 6 => 21 case 7 => 28
    case 8 => 35 case 9 => 41 case 10 => 46 case 11 => 50 case 12 => 53 case 13 => 55 case _ => 56
  }

  /** The position of a place in zigzag order (figure A.6 of T.81): along the diagonals, up and down in turn. */
  function Zigzag(place: nat): nat {
    var x, y := place % 8, place / 8;
    DiagonalStart(x + y) + if (x + y) % 2 == 0 then x else y
  }

  lemma DezigzagLow(k: nat)
    requires k < 32
    ensures Dezigzag(k) < 64 && Zigzag(Dezigzag(k)) == k
  {
  }

  lemma DezigzagHigh(k: nat)
    requires 32 <= k < 64
    ensures Dezigzag(k) < 64 && Zigzag(Dezigzag(k)) == k
  {
  }

  /** The table is the inverse of the zigzag order. */
  lemma DezigzagInverts(k: nat)
    requires k < 79
    ensures Dezigzag(k) < 64 && Zigzag(Dezigzag(k)) == if k < 64 then k else 63
  {
    if k < 32 { DezigzagLow(k); } else if k < 64 { DezigzagHigh(k); }
  }

  lemma ZigzagInverts(place: nat)
    requires place < 64
    ensures Zigzag(place) < 64 && Dezigzag(Zigzag(place)) == place
  {
  }

  /** Where the zigzag line of figure 5 of T.81 goes on from a place: up to the right on even diagonals, down to the
      left on odd ones, along the edge where it meets one. */
  function NextPlace(place: nat): nat
    requires place < 63
  {
    var x, y := place % 8, place / 8;
    if (x + y) % 2 == 0 then if x == 7 then place + 8 else if y == 0 then place + 1 else place - 7
    else if y == 7 then place + 1 else if x == 0 then place + 8 else place + 7
  }

  lemma LineLow(k: nat)
    requires k < 32
    ensures Dezigzag(k) < 63 && Dezigzag(k + 1) == NextPlace(Dezigzag(k))
  {
  }

  lemma LineHigh(k: nat)
    requires 32 <= k < 63
    ensures Dezigzag(k) < 63 && Dezigzag(k + 1) == NextPlace(Dezigzag(k))
  {
  }

  /** The table follows that line from the top left corner to the bottom right one. */
  lemma DezigzagLine(k: nat)
    requires k < 63
    ensures Dezigzag(0) == 0 && Dezigzag(63) == 63
    ensures Dezigzag(k) < 63 && Dezigzag(k + 1) == NextPlace(Dezigzag(k))
  {
    hide NextPlace;
    if k < 32 { LineLow(k); } else { LineHigh(k); }
  }

  lemma FirstPlace()
    ensures Zigzag(0) == 0 && Dezigzag(0) == 0
  {
  }

  // ----- overflow checks

  const SHRT_MIN: int := -0x8000
  const SHRT_MAX: int := 0x7FFF

  predicate Int(n: int) { INT_MIN <= n <= INT_MAX }

  predicate Short(n: int) { SHRT_MIN <= n <= SHRT_MAX }

  function Abs(n: int): nat { if n < 0 then -n else n }

  /** Division in C drops the fraction. */
  function Quotient(n: int, d: int): int
    requires d != 0
  {
    if (n >= 0) == (d > 0) then Abs(n) / Abs(d) else -(Abs(n) / Abs(d))
  }

  /** stbi__addints_valid: no step of it leaves the range of int, and it says whether the sum does. */
  predicate AddIntsValid(a: int, b: int)
    requires Int(a) && Int(b)
    ensures AddIntsValid(a, b) <==> Int(a + b)
  {
    if (a >= 0) != (b >= 0) then true
    else if a < 0 && b < 0 then assert Int(INT_MIN - b); a >= INT_MIN - b
    else assert Int(INT_MAX - b); a <= INT_MAX - b
  }

  /** stbi__mul2shorts_valid */
  predicate Mul2ShortsValid(a: int, b: int) {
    if b == 0 || b == -1 then true
    else if (a >= 0) == (b >= 0) then a <= Quotient(SHRT_MAX, b)
    else if b < 0 then a <= Quotient(SHRT_MIN, b)
    else a >= Quotient(SHRT_MIN, b)
  }

  lemma QuotientBound(n: nat, a: nat, b: nat)
    requires b > 0
    ensures a <= n / b <==> a * b <= n
  {
    var q := n / b;
    assert n == q * b + n % b && n % b < b;
    if a <= q {
      assert a * b <= q * b;
    } else {
      assert a * b >= (q + 1) * b;
    }
  }

  /**
   The check says whether the product fits a short, except where it does not
   look (factor -1) and where two negative factors are compared the wrong way
   round; the decoder's second factor is never negative.
   */
  lemma MulChecked(a: int, b: int)
    ensures (Mul2ShortsValid(a, b) <==> Short(a * b)) <==>
            if b == -1 then -SHRT_MAX <= a <= -SHRT_MIN else b >= 0 || a >= 0 || a == Quotient(SHRT_MAX, b)
  {
    if b != 0 {
      QuotientBound(SHRT_MAX, Abs(a), Abs(b));
      QuotientBound(-SHRT_MIN, Abs(a), Abs(b));
      assert Abs(a * b) == Abs(a) * Abs(b);
    }
  }

  lemma MulCheckFails()
    ensures Short(-1 * -2) && !Mul2ShortsValid(-1, -2)
  {
  }

  // ----- what a block is

  /** `(short) n` keeps 16 bits, the highest of them as sign. */
  function ToShort(n: int): (r: int)
    ensures Short(r) && (r - n) % 0x10000 == 0
  {
    (n + 0x8000) % 0x10000 - 0x8000
  }

  /** The 64 coefficients in zigzag order, or why there are none; and how far was read. */
  datatype Decoded = Refused(pos: nat) | Block(zz: seq<int>, pos: nat)

  /** Section F.2.2.1: the difference to the last block's DC coefficient. */
  ghost function ReadDc(rule: Rule, lens: seq<nat>, values: seq<byte>, data: seq<byte>, p: nat, pred: int): (r: Decoded)
    requires |lens| <= 256 == |values|
    ensures r.Block? ==> |r.zz| == 64 && r.zz == DcOnly(r.zz[0]) && r.pos >= p
  {
    match CodeHere(rule, lens, Top(data, p, 16))
    case Missing => Refused(p)
    case Found(i, len) =>
      var t := values[i];
      if t > 15 then Refused(p + len)
      else Block(DcOnly(pred + if t == 0 then 0 else Extend(Top(data, p + len, t), t)), p + len + t)
  }

  function DcOnly(dc: int): seq<int> { seq(64, i => if i == 0 then dc else 0) }

  /** Section F.2.2.2 from zigzag position k on: a value that a run carries past the end counts as the last one. */
  ghost function ReadRest(rule: Rule, lens: seq<nat>, values: seq<byte>, data: seq<byte>, p: nat, k: nat,
                          zz: seq<int>): (r: Decoded)
    requires |lens| <= 256 == |values| && |zz| == 64 && 1 <= k < 64
    ensures r.pos >= ReadAc(rule, lens, values, data, p).pos >= p
    ensures r.Block? ==> |r.zz| == 64 && r.zz[0] == zz[0]
    decreases 64 - k
  {
    var r := ReadAc(rule, lens, values, data, p);
    match r.c
    case Broken => Refused(r.pos)
    case EndOfBlock => Block(zz, r.pos)
    case ZeroRun => if k + 16 < 64 then ReadRest(rule, lens, values, data, r.pos, k + 16, zz) else Block(zz, r.pos)
    case Value(run, v) =>
      var next := zz[if k + run < 64 then k + run else 63 := v];
      if k + run + 1 < 64 then ReadRest(rule, lens, values, data, r.pos, k + run + 1, next) else Block(next, r.pos)
  }

  /** A whole block; refused as well if the DC coefficient leaves int or, multiplied with its factor q, short. */
  ghost function ReadBlock(rule: Rule, dcLens: seq<nat>, dcValues: seq<byte>, acLens: seq<nat>, acValues: seq<byte>,
                           data: seq<byte>, p: nat, pred: int, q: nat): Decoded
    requires |dcLens| <= 256 == |dcValues| && |acLens| <= 256 == |acValues|
  {
    var dc := ReadDc(rule, dcLens, dcValues, data, p, pred);
    if dc.Refused? then dc
    else if !Int(dc.zz[0]) || !Short(dc.zz[0] * q) then Refused(dc.pos)
    else ReadRest(rule, acLens, acValues, data, dc.pos, 1, dc.zz)
  }

  // ----- what the code makes of it

  /** What has been decoded, and how far the bit buffer is filled then. */
  datatype Buffered = Buffered(d: Decoded, i: Intake)

  /** The difference to the prediction, or none; up to where, and how far the bit buffer is filled then. */
  datatype Difference = NoDifference(pos: nat, i: Intake) | Difference(value: int, pos: nat, i: Intake)

  /** The DC part as the code reads it: a value that the marker cuts off counts as 0. */
  ghost function TakeDifference(lens: seq<nat>, values: seq<byte>, data: seq<byte>, marked: bool, p: nat, i: Intake)
    : (r: Difference)
    requires |lens| <= 256 == |values|
    ensures r.Difference? ==> -0x8000 < r.value < 0x8000
  {
    var size := |data|;
    var second := Refilled(size, marked, Refilled(size, marked, i, p, 16), p, 16);
    match TableDecode(lens, Top(data, p, 16))
    case Missing => NoDifference(p, second)
    case Found(k, len) =>
      var t := values[k];
      if t > 15 then NoDifference(p + len, second)
      else if t == 0 then Difference(0, p + len, second)
      else
        var third := Refilled(size, marked, second, p + len, t);
        if p + len + t > 8 * third.loaded then Difference(0, p + len, third)
        else
          ExtendBound(data, p + len, t);
          Difference(Extend(Top(data, p + len, t), t), p + len + t, third)
  }

  ghost function TakeDc(lens: seq<nat>, values: seq<byte>, data: seq<byte>, marked: bool, p: nat, i: Intake, pred: int)
    : (r: Buffered)
    requires |lens| <= 256 == |values|
    ensures r.d.Block? ==> |r.d.zz| == 64 && r.d.zz == DcOnly(r.d.zz[0])
  {
    match TakeDifference(lens, values, data, marked, p, i)
    case NoDifference(pos, filled) => Buffered(Refused(pos), filled)
    case Difference(diff, pos, filled) => Buffered(Block(DcOnly(pred + diff), pos), filled)
  }

  /** The AC part from zigzag position k on. */
  ghost function TakeRest(lens: seq<nat>, values: seq<byte>, data: seq<byte>, marked: bool, p: nat, i: Intake, k: nat,
                          zz: seq<int>): (r: Buffered)
    requires |lens| <= 256 == |values| && |zz| == 64 && 1 <= k < 64
    ensures r.d.Block? ==> |r.d.zz| == 64 && r.d.zz[0] == zz[0]
    decreases 64 - k
  {
    var t := TakeAc(lens, values, data, marked, p, i);
    match t.c
    case Broken => Buffered(Refused(t.pos), t.i)
    case EndOfBlock => Buffered(Block(zz, t.pos), t.i)
    case ZeroRun =>
      if k + 16 < 64 then TakeRest(lens, values, data, marked, t.pos, t.i, k + 16, zz)
      else Buffered(Block(zz, t.pos), t.i)
    case Value(run, v) =>
      var next := zz[if k + run < 64 then k + run else 63 := v];
      if k + run + 1 < 64 then TakeRest(lens, values, data, marked, t.pos, t.i, k + run + 1, next)
      else Buffered(Block(next, t.pos), t.i)
  }

  /** The whole block. */
  ghost function TakeBlock(dcLens: seq<nat>, dcValues: seq<byte>, acLens: seq<nat>, acValues: seq<byte>,
                           data: seq<byte>, marked: bool, p: nat, i: Intake, pred: int, q: nat): Buffered
    requires |dcLens| <= 256 == |dcValues| && |acLens| <= 256 == |acValues|
  {
    var dc := TakeDc(dcLens, dcValues, data, marked, p, i, pred);
    if dc.d.Refused? then dc
    else if !Int(dc.d.zz[0]) || !Short(dc.d.zz[0] * q) then Buffered(Refused(dc.d.pos), dc.i)
    else TakeRest(acLens, acValues, data, marked, dc.d.pos, dc.i, 1, dc.d.zz)
  }

  lemma DcTaken(lens: seq<nat>, values: seq<byte>, data: seq<byte>, marked: bool, p: nat, i: Intake, pred: int)
    requires |lens| <= 256 == |values| && Sound(|data|, marked, i, p)
    ensures var t, r := TakeDc(lens, values, data, marked, p, i, pred), ReadDc(Tables, lens, values, data, p, pred);
            && (!marked || i.met || r.pos <= 8 * |data| ==> t.d == r)
            && (t.d.Block? ==> Sound(|data|, marked, t.i, t.d.pos)) && (i.met ==> t.i.met)
            && (!marked || i.met || t.d.pos <= r.pos)
  {
    hide TableDecode, Top, Extend, Refilled, DcOnly;
    var size := |data|;
    RefilledFacts(size, marked, i, p, 16);
    var first := Refilled(size, marked, i, p, 16);
    RefilledFacts(size, marked, first, p, 16);
    var second := Refilled(size, marked, first, p, 16);
    var f := TableDecode(lens, Top(data, p, 16));
    if f.Found? && values[f.symbol] <= 15 {
      RefilledFacts(size, marked, second, p + f.length, values[f.symbol]);
    }
  }

  lemma {:induction false} RestTaken(lens: seq<nat>, values: seq<byte>, data: seq<byte>, marked: bool, p: nat,
                                     i: Intake, k: nat, zz: seq<int>)
    requires |lens| <= 256 == |values| && |zz| == 64 && 1 <= k < 64 && Sound(|data|, marked, i, p)
    ensures var r := ReadRest(Tables, lens, values, data, p, k, zz);
            !marked || i.met || r.pos <= 8 * |data| ==> TakeRest(lens, values, data, marked, p, i, k, zz).d == r
    decreases 64 - k
  {
    hide ReadAc, TakeAc, Sound;
    TakenIsRead(lens, values, data, marked, p, i);
    var t := TakeAc(lens, values, data, marked, p, i);
    match t.c
    case ZeroRun => if k + 16 < 64 { RestTaken(lens, values, data, marked, t.pos, t.i, k + 16, zz); }
    case Value(run, v) =>
      if k + run + 1 < 64 {
        RestTaken(lens, values, data, marked, t.pos, t.i, k + run + 1,
                  zz[if k + run < 64 then k + run else 63 := v]);
      }
    case _ =>
  }

  /**
   The block is read as if zero bits followed the data, unless the reading meets
   the marker that ends them: always when there is none, or it has been met before,
   or the block ends within the data.
   */
  lemma BlockTaken(dcLens: seq<nat>, dcValues: seq<byte>, acLens: seq<nat>, acValues: seq<byte>,
                   data: seq<byte>, marked: bool, p: nat, i: Intake, pred: int, q: nat)
    requires |dcLens| <= 256 == |dcValues| && |acLens| <= 256 == |acValues| && Sound(|data|, marked, i, p)
    ensures var r := ReadBlock(Tables, dcLens, dcValues, acLens, acValues, data, p, pred, q);
            !marked || i.met || r.pos <= 8 * |data| ==>
              TakeBlock(dcLens, dcValues, acLens, acValues, data, marked, p, i, pred, q).d == r
  {
    hide ReadDc, TakeDc, ReadRest, TakeRest, Sound;
    DcTaken(dcLens, dcValues, data, marked, p, i, pred);
    var t := TakeDc(dcLens, dcValues, data, marked, p, i, pred);
    if t.d.Block? { RestTaken(acLens, acValues, data, marked, t.d.pos, t.i, 1, t.d.zz); }
  }

  lemma {:induction false} RestIsStandard(lens: seq<nat>, values: seq<byte>, data: seq<byte>, p: nat, k: nat,
                                          zz: seq<int>)
    requires |lens| <= 256 == |values| && |zz| == 64 && 1 <= k < 64
    requires Ascending(lens) && Bounded(lens, 16) && NoClash(lens)
    ensures ReadRest(Tables, lens, values, data, p, k, zz) == ReadRest(AnnexC, lens, values, data, p, k, zz)
    decreases 64 - k
  {
    hide ReadAc, NoClash, Bounded, Ascending;
    ReadAcIsStandard(lens, values, data, p);
    var r := ReadAc(Tables, lens, values, data, p);
    match r.c
    case ZeroRun => if k + 16 < 64 { RestIsStandard(lens, values, data, r.pos, k + 16, zz); }
    case Value(run, v) =>
      if k + run + 1 < 64 {
        RestIsStandard(lens, values, data, r.pos, k + run + 1, zz[if k + run < 64 then k + run else 63 := v]);
      }
    case _ =>
  }

  /** Without a short code for symbol 255 in either table, the block is the one that the standard defines. */
  lemma BlockIsStandard(dcLens: seq<nat>, dcValues: seq<byte>, acLens: seq<nat>, acValues: seq<byte>,
                        data: seq<byte>, p: nat, pred: int, q: nat)
    requires |dcLens| <= 256 == |dcValues| && Ascending(dcLens) && Bounded(dcLens, 16) && NoClash(dcLens)
    requires |acLens| <= 256 == |acValues| && Ascending(acLens) && Bounded(acLens, 16) && NoClash(acLens)
    ensures ReadBlock(Tables, dcLens, dcValues, acLens, acValues, data, p, pred, q) ==
            ReadBlock(AnnexC, dcLens, dcValues, acLens, acValues, data, p, pred, q)
  {
    hide Top, TableDecode, CanonicalDecode, ReadRest, Ascending, Bounded, NoClash;
    TableIsCanonical(dcLens, Top(data, p, 16));
    var dc := ReadDc(Tables, dcLens, dcValues, data, p, pred);
    if dc.Block? { RestIsStandard(acLens, acValues, data, dc.pos, 1, dc.zz); }
  }

  /** Every place holds the coefficient at its zigzag position times its factor, as a short. */
  ghost predicate Placed(block: seq<int>, zz: seq<int>, dequant: seq<nat>) {
    |block| == |zz| == |dequant| == 64 &&
    forall place: nat :: place < 64 ==>
      Zigzag(place) < 64 && block[place] == ToShort(zz[Zigzag(place)] * dequant[place])
  }

  lemma PlaceOne(block: seq<int>, zz: seq<int>, dequant: seq<nat>, k: nat, v: int)
    requires Placed(block, zz, dequant) && k < 79
    ensures Dezigzag(k) < 64
    ensures var zig := Dezigzag(k);
            Placed(block[zig := ToShort(v * dequant[zig])], zz[if k < 64 then k else 63 := v], dequant)
  {
    hide Zigzag, Dezigzag, ToShort;
    DezigzagInverts(k);
    forall place: nat | place < 64
      ensures Dezigzag(Zigzag(place)) == place
    {
      ZigzagInverts(place);
    }
    DezigzagInverts(63);
  }

  // ----- decoding

  class Component {
    var dc_pred: int

    /** At the start of a scan the prediction is 0. */
    constructor ()
      ensures dc_pred == 0
    {
      dc_pred := 0;
    }
  }

  /** The size code and the value; the block is cleared in between. */
  method ReadDifference(j: Reader, block: array<int>, h: Huffman, ghost lens: seq<nat>) returns (ok: bool, diff: int)
    requires j.Valid() && h.Shape() && h.Holds(lens) && j !in h.Repr && (block as object) !in h.Repr
    modifies j, block
    ensures var d := TakeDifference(lens, h.values[..], j.data, j.marked, old(j.p), old(j.Filled()));
            && (ok <==> d.Difference?)
            && (ok ==> j.Valid() && diff == d.value && j.p == d.pos && j.Filled() == d.i)
    ensures ok ==> forall i :: 0 <= i < block.Length ==> block[i] == 0
  {
    hide TableDecode, Top, Held, Unstuffed, Marked, FastEntry, Huffman.LadderBelow, Huffman.HoldsFast,
         Huffman.HoldsSizes, Fits, Bounded, Ascending, Extend, Grown, Reader.Valid;
    diff := 0;
    j.IsSound();
    RefilledFacts(|j.data|, j.marked, j.Filled(), j.p, 16);
    if j.code_bits < 16 { j.GrowBuffer(); }
    RefilledFacts(|j.data|, j.marked, j.Filled(), j.p, 16);
    var t := j.HuffDecode(h, lens);
    if t < 0 || t > 15 { return false, 0; }
    Clear(block);
    if t != 0 { diff := j.ExtendReceive(t); }
    ok := true;
  }

  /** The DC part: the block is cleared, the prediction moves on, and the first coefficient is stored. */
  method DecodeDc(j: Reader, comp: Component, block: array<int>, h: Huffman, ghost lens: seq<nat>, dequant: seq<nat>)
    returns (ok: bool)
    requires j.Valid() && h.Shape() && h.Holds(lens) && j !in h.Repr && (block as object) !in h.Repr
    requires Int(comp.dc_pred) && block.Length == 64 && |dequant| == 64
    modifies j, comp, block
    ensures var dc := TakeDc(lens, h.values[..], j.data, j.marked, old(j.p), old(j.Filled()), old(comp.dc_pred));
            && (ok <==> dc.d.Block? && Int(dc.d.zz[0]) && Short(dc.d.zz[0] * dequant[0]))
            && (ok ==> j.p == dc.d.pos && j.Filled() == dc.i && comp.dc_pred == dc.d.zz[0])
    ensures ok ==> j.Valid() && Int(comp.dc_pred) && Placed(block[..], DcOnly(comp.dc_pred), dequant)
  {
    hide Mul2ShortsValid, Placed, TakeDifference, Reader.Valid, Huffman.Holds;
    var diff;
    ok, diff := ReadDifference(j, block, h, lens);
    if !ok { return; }
    if !AddIntsValid(comp.dc_pred, diff) { return false; }
    var dc := comp.dc_pred + diff;
    comp.dc_pred := dc;
    MulChecked(dc, dequant[0]);
    if !Mul2ShortsValid(dc, dequant[0]) { return false; }
    block[0] := ToShort(dc * dequant[0]);
    ok := true;
    DcPlaced(block[..], dc, dequant);
  }

  method Clear(block: array<int>)
    modifies block
    ensures forall i :: 0 <= i < block.Length ==> block[i] == 0
  {
    for i := 0 to block.Length
      invariant forall l :: 0 <= l < i ==> block[l] == 0
    {
      block[i] := 0;
    }
  }

  lemma DcPlaced(block: seq<int>, dc: int, dequant: seq<nat>)
    requires |block| == |dequant| == 64 && block[0] == ToShort(dc * dequant[0])
    requires forall i :: 0 < i < 64 ==> block[i] == 0
    ensures Placed(block, DcOnly(dc), dequant)
  {
    hide Zigzag, Dezigzag;
    FirstPlace();
    forall place: nat | place < 64
      ensures Zigzag(place) < 64 && (place != 0 ==> Zigzag(place) != 0)
    {
      ZigzagInverts(place);
    }
  }

  /** The AC part, from position 1 on. */
  method DecodeRest(j: Reader, block: array<int>, h: Huffman, fac: seq<int>, ghost lens: seq<nat>, dequant: seq<nat>,
                    ghost dcOnly: seq<int>) returns (ok: bool)
    requires j.Valid() && h.Shape() && h.Holds(lens) && HoldsFastAc(fac, h, lens)
    requires j !in h.Repr && (block as object) !in h.Repr
    requires Placed(block[..], dcOnly, dequant) && forall i :: 0 <= i < 64 ==> dequant[i] < 0x10000
    modifies j, block
    ensures var spec := TakeRest(lens, h.values[..], j.data, j.marked, old(j.p), old(j.Filled()), 1, dcOnly);
            && (ok <==> spec.d.Block?)
            && (ok ==> j.p == spec.d.pos && j.Filled() == spec.i && Placed(block[..], spec.d.zz, dequant))
    ensures ok ==> j.Valid()
  {
    hide CanonicalDecode, Top, Held, Unstuffed, Marked, Huffman.LadderBelow, Huffman.HoldsFast,
         Huffman.HoldsSizes, Fits, Bounded, Ascending, HoldsFastAc, TakeAc, Zigzag, Dezigzag, ToShort;
    ghost var zz := dcOnly;
    ghost var values := h.values[..];
    ghost var spec := TakeRest(lens, values, j.data, j.marked, j.p, j.Filled(), 1, zz);
    var k := 1;
    while true
      invariant 1 <= k < 64 && j.Valid() && Placed(block[..], zz, dequant)
      invariant h.Holds(lens) && HoldsFastAc(fac, h, lens) && h.values[..] == values
      invariant TakeRest(lens, values, j.data, j.marked, j.p, j.Filled(), k, zz) == spec
      decreases 64 - k
    {
      var c := ReadCoefficient(j, h, fac, lens);
      match c {
        case Broken => return false;
        case EndOfBlock => return true;
        case ZeroRun => k := k + 16;
        case Value(run, v) =>
          k := k + run;
          PlaceOne(block[..], zz, dequant, k, v);
          zz := zz[if k < 64 then k else 63 := v];
          var zig := Dezigzag(k);
          assert Int(v * dequant[zig]) by { NoOverflow(v, dequant[zig]); }
          block[zig] := ToShort(v * dequant[zig]);
          k := k + 1;
      }
      if k >= 64 { return true; }
    }
  }

  /**
   stbi__jpeg_decode_block: the block is accepted exactly if the sequence of codes
   gives one, and then holds its coefficients at their places, multiplied with their
   factors.  Unless the reading meets a marker on the way, that sequence is the one of
   the zero-extended data, and then the standard's where symbol 255 has no short code.
   */
  method DecodeBlock(j: Reader, comp: Component, block: array<int>, hdc: Huffman, hac: Huffman, fac: seq<int>,
                     ghost dcLens: seq<nat>, ghost acLens: seq<nat>, dequant: seq<nat>) returns (ok: bool)
    requires j.Valid() && j !in hdc.Repr + hac.Repr && (block as object) !in hdc.Repr + hac.Repr
    requires hdc.Shape() && hdc.Holds(dcLens)
    requires hac.Shape() && hac.Holds(acLens) && HoldsFastAc(fac, hac, acLens)
    requires Int(comp.dc_pred) && block.Length == 64 && |dequant| == 64 && forall i :: 0 <= i < 64 ==>
             dequant[i] < 0x10000
    modifies j, comp, block
    ensures var spec := TakeBlock(dcLens, hdc.values[..], acLens, hac.values[..], j.data, j.marked, old(j.p),
        old(j.Filled()), old(comp.dc_pred), dequant[0]);
            && (ok <==> spec.d.Block?)
            && (ok ==> j.p == spec.d.pos && j.Filled() == spec.i && comp.dc_pred == spec.d.zz[0] &&
                       Placed(block[..], spec.d.zz, dequant))
    ensures var read := ReadBlock(Tables, dcLens, hdc.values[..], acLens, hac.values[..], j.data, old(j.p),
        old(comp.dc_pred), dequant[0]);
            !j.marked || old(j.nomore) || read.pos <= 8 * |j.data| ==>
              TakeBlock(dcLens, hdc.values[..], acLens, hac.values[..], j.data, j.marked, old(j.p), old(j.Filled()),
                old(comp.dc_pred), dequant[0]).d == read
    ensures NoClash(dcLens) && NoClash(acLens) ==>
              ReadBlock(Tables, dcLens, hdc.values[..], acLens, hac.values[..], j.data, old(j.p), old(comp.dc_pred),
                dequant[0]) ==
              ReadBlock(AnnexC, dcLens, hdc.values[..], acLens, hac.values[..], j.data, old(j.p), old(comp.dc_pred),
                dequant[0])
    ensures ok ==> j.Valid() && Int(comp.dc_pred)
  {
    hide CanonicalDecode, Top, Held, Unstuffed, Huffman.LadderBelow, Huffman.HoldsFast,
         Huffman.HoldsSizes, Fits, Bounded, Ascending, HoldsFastAc, Placed, ReadDc, TakeDc, TakeRest, ReadRest,
         ReadBlock;
    j.IsSound();
    BlockTaken(dcLens, hdc.values[..], acLens, hac.values[..], j.data, j.marked, j.p, j.Filled(), comp.dc_pred,
               dequant[0]);
    if NoClash(dcLens) && NoClash(acLens) {
      BlockIsStandard(dcLens, hdc.values[..], acLens, hac.values[..], j.data, j.p, comp.dc_pred, dequant[0]);
    }
    ok := DecodeDc(j, comp, block, hdc, dcLens, dequant);
    if !ok { return; }
    assert Placed(block[..], DcOnly(comp.dc_pred), dequant);
    ok := DecodeRest(j, block, hac, fac, acLens, dequant, DcOnly(comp.dc_pred));
  }

  lemma NoOverflow(v: int, q: nat)
    requires -0x8000 < v < 0x8000 && q < 0x10000
    ensures Int(v * q)
  {
    if v >= 0 {
      assert v * q <= 0x7FFF * q;
    } else {
      assert v * q >= -0x7FFF * q;
    }
  }
}
