/**
 What \u escapes are read as: every code point that is no surrogate, written as
 one escape or as a pair, gives its UTF-8 sequence.
 */
module JsonEscapes {
  import opened Bits
  import opened JsonRoundTrip
  import opened JsonText

  function HexUpper(d: nat): byte
    requires d < 16
  {
    if d < 10 then 48 + d else 55 + d
  }

  /** A \u escape with four hexadecimal digits, in lower or upper case. */
  function UnitEscape(u: nat, upper: bool): (r: bytes)
    requires u < 0x10000
    ensures |r| == 6
  {
    var a, b, d, e := u / 4096, u / 256 % 16, u / 16 % 16, u % 16;
    if upper then [BACKSLASH, 117, HexUpper(a), HexUpper(b), HexUpper(d), HexUpper(e)]
    else [BACKSLASH, 117, HexDigit(a), HexDigit(b), HexDigit(d), HexDigit(e)]
  }

  /** The escape of a code point: one unit, or a surrogate pair (section 7 of RFC 8259). */
  function PointEscape(cp: nat, upper: bool): bytes
    requires cp <= 0x10FFFF
  {
    if cp < 0x10000 then UnitEscape(cp, upper)
    else UnitEscape(0xD800 + (cp - 0x10000) / 1024, upper) + UnitEscape(0xDC00 + (cp - 0x10000) % 1024, upper)
  }

  lemma UnitRead(c: bytes, i: nat, u: nat, upper: bool)
    requires u < 0x10000 && i + 6 <= |c| && c[i..i + 6] == UnitEscape(u, upper)
    ensures c[i] == BACKSLASH && c[i + 1] == 117 && Hex4(c, i + 2) == u
  {
    hide HexValue, HexDigit, HexUpper;
    var e := UnitEscape(u, upper);
    UnitBytes(c, i, e, 0);
    UnitBytes(c, i, e, 1);
    UnitBytes(c, i, e, 2);
    UnitBytes(c, i, e, 3);
    UnitBytes(c, i, e, 4);
    UnitBytes(c, i, e, 5);
    HexParts(u);
    HexReads(u / 4096, upper);
    HexReads(u / 256 % 16, upper);
    HexReads(u / 16 % 16, upper);
    HexReads(u % 16, upper);
  }

  lemma HexParts(u: nat)
    requires u < 0x10000
    ensures 4096 * (u / 4096) + 256 * (u / 256 % 16) + 16 * (u / 16 % 16) + u % 16 == u && u / 4096 < 16
  {
  }

  lemma HexReads(d: nat, upper: bool)
    requires d < 16
    ensures HexValue(if upper then HexUpper(d) else HexDigit(d)) == d
  {
  }

  /** Every escaped code point that is no surrogate is read as its UTF-8 bytes. */
  lemma PointRead(c: bytes, i: nat, end: nat, cp: nat, upper: bool)
    requires cp <= 0x10FFFF && !(0xD800 <= cp <= 0xDFFF)
    requires i + |PointEscape(cp, upper)| <= end < |c| && c[i..i + |PointEscape(cp, upper)|] == PointEscape(cp, upper)
    ensures DecodeStep(c, i, end) == Ok(Utf8(cp), i + |PointEscape(cp, upper)|)
  {
    hide Hex4, HexDigit, HexUpper, Utf8, UnitEscape;
    if cp < 0x10000 {
      UnitRead(c, i, cp, upper);
    } else {
      var high, low := 0xD800 + (cp - 0x10000) / 1024, 0xDC00 + (cp - 0x10000) % 1024;
      assert c[i..i + 6] == c[i..i + 12][..6] && c[i + 6..i + 12] == c[i..i + 12][6..];
      UnitRead(c, i, high, upper);
      UnitRead(c, i + 6, low, upper);
    }
  }

  /** A byte between 0x80 and 0xBF, with the six bits it carries. */
  predicate Trails(b: byte) { 0x80 <= b < 0xC0 }

  /** The code point that a UTF-8 sequence stands for (section 3 of RFC 3629). */
  function PointOf(r: bytes): int
    requires 1 <= |r| <= 4
  {
    match |r|
    case 1 => r[0]
    case 2 => (r[0] as int - 0xC0) * 64 + (r[1] as int - 0x80)
    case 3 => ((r[0] as int - 0xE0) * 64 + (r[1] as int - 0x80)) * 64 + (r[2] as int - 0x80)
    case _ =>
      (((r[0] as int - 0xF0) * 64 + (r[1] as int - 0x80)) * 64 + (r[2] as int - 0x80)) * 64 + (r[3] as int - 0x80)
  }

  /** The bytes are the shortest UTF-8 sequence for the code point. */
  lemma Utf8Reads(cp: nat)
    requires cp <= 0x10FFFF
    ensures var r := Utf8(cp);
            && PointOf(r) == cp && (forall k :: 0 < k < |r| ==> Trails(r[k]))
            && |r| == (if cp < 0x80 then 1 else if cp < 0x800 then 2 else if cp < 0x10000 then 3 else 4)
            && match |r|
               case 1 => r[0] < 0x80
               case 2 => 0xC2 <= r[0] < 0xE0
               case 3 => 0xE0 <= r[0] < 0xF0
               case _ => 0xF0 <= r[0] <= 0xF4
  {
  }
}
