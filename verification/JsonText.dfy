/**
 JSON values, the text that printing gives them, and what the parser makes of a
 text, both as functions.  The values are those of cJSON items; numbers are the
 ones of int range, which the printer writes in full.
 */
module JsonText {
  import opened Bits
  import opened Common

  type bytes = seq<byte>

  /** The bytes of a text of ASCII characters. */
  function Ascii(s: string): (r: bytes)
    requires forall i :: 0 <= i < |s| ==> s[i] as int < 128
    ensures |r| == |s| && forall i :: 0 <= i < |s| ==> r[i] == s[i] as byte
  {
    seq(|s|, i requires 0 <= i < |s| => s[i] as byte)
  }

  datatype Json =
    | Null
    | False
    | True
    | Number(n: int)
    | String(s: bytes)
    | Array(items: seq<Json>)
    | Object(members: seq<Member>)

  datatype Member = Member(key: bytes, value: Json)

  /** The C string that starts here: the bytes in front of the first zero. */
  function UpToZero(b: bytes): (r: bytes)
    ensures 0 !in r && r <= b
    ensures 0 !in b ==> r == b
  {
    if b == [] || b[0] == 0 then [] else
    assert b == [b[0]] + b[1..];
    [b[0]] + UpToZero(b[1..])
  }

  const MAX_DEPTH: nat := 1000

  const QUOTE: byte := 34
  const BACKSLASH: byte := 92
  const COMMA: byte := 44
  const COLON: byte := 58
  const OPEN_BRACKET: byte := 91
  const CLOSE_BRACKET: byte := 93
  const OPEN_BRACE: byte := 123
  const CLOSE_BRACE: byte := 125
  const MINUS: byte := 45

  const NULL_TEXT: bytes := [110, 117, 108, 108]
  const FALSE_TEXT: bytes := [102, 97, 108, 115, 101]
  const TRUE_TEXT: bytes := [116, 114, 117, 101]

  // ----- printing

  function Digits(n: nat): (r: bytes)
    ensures |r| > 0 && forall i :: 0 <= i < |r| ==> 48 <= r[i] <= 57
  {
    if n < 10 then [48 + n] else Digits(n / 10) + [48 + n % 10]
  }

  function IntText(n: int): bytes {
    if n < 0 then [MINUS] + Digits(-n) else Digits(n)
  }

  /** The letter after the backslash for the seven bytes that have a short escape, else 0. */
  function ShortEscape(b: byte): byte {
    if b == QUOTE then QUOTE
    else if b == BACKSLASH then BACKSLASH
    else if b == 8 then 98
    else if b == 12 then 102
    else if b == 10 then 110
    else if b == 13 then 114
    else if b == 9 then 116
    else 0
  }

  function HexDigit(d: nat): byte
    requires d < 16
  {
    if d < 10 then 48 + d else 87 + d
  }

  /**
   What the printer leaves of one string byte.  A control byte without short
   escape is written as \u00XY, but the output pointer is then one short, so
   whatever comes next replaces Y.
   */
  function EscapeByte(b: byte): (r: bytes)
    ensures 1 <= |r| <= 5 && forall i :: 0 <= i < |r| ==> r[i] >= 32
  {
    if b >= 32 && b != QUOTE && b != BACKSLASH then [b]
    else if ShortEscape(b) != 0 then [BACKSLASH, ShortEscape(b)]
    else [BACKSLASH, 117, 48, 48, HexDigit(b / 16)]
  }

  function Escape(s: bytes): bytes {
    if s == [] then [] else EscapeByte(s[0]) + Escape(s[1..])
  }

  function PrintString(s: bytes): bytes {
    [QUOTE] + Escape(s) + [QUOTE]
  }

  function Print(v: Json): bytes
    decreases v, 1
  {
    match v
    case Null => NULL_TEXT
    case False => FALSE_TEXT
    case True => TRUE_TEXT
    case Number(n) => IntText(n)
    case String(s) => PrintString(s)
    case Array(items) => [OPEN_BRACKET] + PrintItems(items) + [CLOSE_BRACKET]
    case Object(members) => [OPEN_BRACE] + PrintMembers(members) + [CLOSE_BRACE]
  }

  function PrintItems(items: seq<Json>): bytes
    decreases items, 0
  {
    if items == [] then []
    else if |items| == 1 then Print(items[0])
    else Print(items[0]) + [COMMA] + PrintItems(items[1..])
  }

  function PrintMember(m: Member): bytes
    decreases m, 2
  {
    PrintString(m.key) + [COLON] + Print(m.value)
  }

  function PrintMembers(members: seq<Member>): bytes
    decreases members, 0
  {
    if members == [] then []
    else if |members| == 1 then PrintMember(members[0])
    else PrintMember(members[0]) + [COMMA] + PrintMembers(members[1..])
  }

  // ----- parsing

  /** Unmodelled stands for numbers that are not integers of int range. */
  datatype Parsed<+T> = Fail | Unmodelled | Ok(value: T, offset: nat)

  /** The parser's buffer: a C string with its terminating zero. */
  ghost predicate Buffer(c: bytes) {
    |c| > 0 && c[|c| - 1] == 0
  }

  function SkipBlanks(c: bytes, i: nat): (r: nat)
    requires i <= |c|
    ensures i <= r <= |c|
    decreases |c| - i
  {
    if i < |c| && c[i] <= 32 then SkipBlanks(c, i + 1) else i
  }

  function Skip(c: bytes, i: nat): (r: nat)
    requires i < |c|
    ensures i <= r < |c|
  {
    var j := SkipBlanks(c, i);
    if j == |c| then j - 1 else j
  }

  predicate StartsWith(c: bytes, i: nat, word: bytes) {
    i + |word| <= |c| && c[i..i + |word|] == word
  }

  // Strings

  /** The end of a string whose scan is at i: the first quote that no backslash escapes. */
  function StringEnd(c: bytes, i: nat): (r: Parsed<()>)
    requires i <= |c|
    ensures !r.Unmodelled?
    ensures r.Ok? ==> i <= r.offset < |c| && c[r.offset] == QUOTE
    decreases |c| - i
  {
    if i >= |c| then Fail
    else if c[i] == QUOTE then Ok((), i)
    else if c[i] == BACKSLASH then
      if i + 1 >= |c| then Fail else StringEnd(c, i + 2)
    else StringEnd(c, i + 1)
  }

  /** The value of a hexadecimal digit, or 16. */
  function HexValue(b: byte): nat {
    if 48 <= b <= 57 then b - 48
    else if 65 <= b <= 70 then b - 55
    else if 97 <= b <= 102 then b - 87
    else 16
  }

  /** Four hexadecimal digits at i, or 0 if one of them is none. */
  function Hex4(c: bytes, i: nat): (r: nat)
    requires i + 4 <= |c|
    ensures r < 0x10000
  {
    var a, b, d, e := HexValue(c[i]), HexValue(c[i + 1]), HexValue(c[i + 2]), HexValue(c[i + 3]);
    if a < 16 && b < 16 && d < 16 && e < 16 then 4096 * a + 256 * b + 16 * d + e else 0
  }

  /** UTF-8, section 3 of RFC 3629. */
  function Utf8(cp: nat): (r: bytes)
    requires cp <= 0x10FFFF
    ensures 1 <= |r| <= 4
  {
    if cp < 0x80 then [cp]
    else if cp < 0x800 then [0xC0 + cp / 64, 0x80 + cp % 64]
    else if cp < 0x10000 then [0xE0 + cp / 64 / 64, 0x80 + cp / 64 % 64, 0x80 + cp % 64]
    else [0xF0 + cp / 64 / 64 / 64, 0x80 + cp / 64 / 64 % 64, 0x80 + cp / 64 % 64, 0x80 + cp % 64]
  }

  /** The bytes for a \u escape at i, and where it ends; a surrogate takes its partner along. */
  function UnicodeEscape(c: bytes, i: nat, end: nat): (r: Parsed<bytes>)
    requires i < end < |c|
    ensures !r.Unmodelled?
    ensures r.Ok? ==> i + 6 <= r.offset <= end
    ensures r.Ok? ==> (r.offset == i + 6 && 1 <= |r.value| <= 3) || (r.offset == i + 12 && |r.value| == 4)
  {
    if end - i < 6 then Fail
    else
      var first := Hex4(c, i + 2);
      if 0xDC00 <= first <= 0xDFFF then Fail
      else if 0xD800 <= first <= 0xDBFF then
        if end - (i + 6) < 6 || c[i + 6] != BACKSLASH || c[i + 7] != 117 then Fail
        else
          var second := Hex4(c, i + 8);
          if second < 0xDC00 || second > 0xDFFF then Fail
          else Ok(Utf8(0x10000 + 1024 * (first - 0xD800) + (second - 0xDC00)), i + 12)
      else Ok(Utf8(first), i + 6)
  }

  /** What a two-character escape stands for, or 0 if it is none. */
  function Unescape(b: byte): byte {
    if b == 98 then 8
    else if b == 102 then 12
    else if b == 110 then 10
    else if b == 114 then 13
    else if b == 116 then 9
    else if b == QUOTE || b == BACKSLASH || b == 47 then b
    else 0
  }

  /** One step of decoding at i: the bytes written and the next position, which can be end + 1. */
  function DecodeStep(c: bytes, i: nat, end: nat): (r: Parsed<bytes>)
    requires i < end < |c|
    ensures !r.Unmodelled?
    ensures r.Ok? ==> i < r.offset <= end + 1
  {
    if c[i] != BACKSLASH then Ok([c[i]], i + 1)
    else if c[i + 1] == 117 then UnicodeEscape(c, i, end)
    else if Unescape(c[i + 1]) != 0 then Ok([Unescape(c[i + 1])], i + 2)
    else Fail
  }

  function Decode(c: bytes, i: nat, end: nat): (r: Parsed<bytes>)
    requires i <= end + 1 && end < |c|
    ensures !r.Unmodelled?
    decreases end + 1 - i
  {
    if i >= end then Ok([], i)
    else
      match DecodeStep(c, i, end)
      case Ok(out, next) =>
        (match Decode(c, next, end)
         case Ok(rest, last) => Ok(out + rest, last)
         case _ => Fail)
      case _ => Fail
  }

  function ParseString(c: bytes, i: nat): (r: Parsed<bytes>)
    requires i < |c|
    ensures !r.Unmodelled?
    ensures r.Ok? ==> i < r.offset <= |c| && c[r.offset - 1] == QUOTE
  {
    if c[i] != QUOTE then Fail
    else
      match StringEnd(c, i + 1)
      case Ok(_, end) =>
        (match Decode(c, i + 1, end)
         case Ok(s, _) => Ok(s, end + 1)
         case _ => Fail)
      case _ => Fail
  }

  // Numbers

  predicate NumberByte(b: byte) {
    48 <= b <= 57 || b == 43 || b == 45 || b == 101 || b == 69 || b == 46
  }

  function NumberEnd(c: bytes, i: nat): (r: nat)
    requires i <= |c|
    ensures i <= r <= |c| && forall k :: i <= k < r ==> NumberByte(c[k])
    decreases |c| - i
  {
    if i < |c| && NumberByte(c[i]) then NumberEnd(c, i + 1) else i
  }

  predicate Digit(b: byte) { 48 <= b <= 57 }

  function DigitsEnd(t: bytes, i: nat): (r: nat)
    requires i <= |t|
    ensures i <= r <= |t|
    decreases |t| - i
  {
    if i < |t| && Digit(t[i]) then DigitsEnd(t, i + 1) else i
  }

  function DigitsValue(t: bytes, i: nat, acc: nat): nat
    requires i <= |t|
    decreases |t| - i
  {
    if i < |t| && Digit(t[i]) then DigitsValue(t, i + 1, 10 * acc + (t[i] - 48)) else acc
  }

  predicate SignFirst(t: bytes) {
    |t| > 0 && (t[0] == 43 || t[0] == MINUS)
  }

  /** strtod on a text of number bytes, as far as the result is an integer of int range. */
  function Strtod(t: bytes): (r: Parsed<int>)
    ensures r.Ok? ==> 0 < r.offset <= |t|
  {
    var i := if SignFirst(t) then 1 else 0;
    var j := DigitsEnd(t, i);
    if j < |t| && (t[j] == 46 || (j > i && (t[j] == 101 || t[j] == 69))) then Unmodelled
    else if j == i then Fail
    else
      var m: int := DigitsValue(t, i, 0);
      var n := if SignFirst(t) && t[0] == MINUS then -m else m;
      if INT_MIN <= n <= INT_MAX then Ok(n, j) else Unmodelled
  }

  function ParseNumber(c: bytes, i: nat): (r: Parsed<Json>)
    requires i < |c|
    ensures r.Ok? ==> i < r.offset <= |c| && NumberByte(c[r.offset - 1])
  {
    match Strtod(c[i..NumberEnd(c, i)])
    case Ok(n, used) => Ok(Number(n), i + used)
    case Unmodelled => Unmodelled
    case Fail => Fail
  }

  // Values

  ghost function Parse(c: bytes, i: nat, depth: nat): (r: Parsed<Json>)
    requires Buffer(c) && i < |c|
    ensures r.Ok? ==> i < r.offset < |c|
    decreases |c| - i, 2
  {
    if StartsWith(c, i, NULL_TEXT) then Ok(Null, i + 4)
    else if StartsWith(c, i, FALSE_TEXT) then Ok(False, i + 5)
    else if StartsWith(c, i, TRUE_TEXT) then Ok(True, i + 4)
    else if c[i] == QUOTE then
      (match ParseString(c, i)
       case Ok(s, next) => Ok(String(s), next)
       case _ => Fail)
    else if c[i] == MINUS || Digit(c[i]) then ParseNumber(c, i)
    else if c[i] == OPEN_BRACKET then ParseArray(c, i, depth)
    else if c[i] == OPEN_BRACE then ParseObject(c, i, depth)
    else Fail
  }

  ghost function ParseArray(c: bytes, i: nat, depth: nat): (r: Parsed<Json>)
    requires Buffer(c) && i < |c| && c[i] == OPEN_BRACKET
    ensures r.Ok? ==> i < r.offset < |c|
    decreases |c| - i, 1
  {
    if depth >= MAX_DEPTH then Fail
    else
      var j := Skip(c, i + 1);
      if c[j] == CLOSE_BRACKET then Ok(Array([]), j + 1)
      else
        match ParseItems(c, j, depth + 1)
        case Ok(items, next) => Ok(Array(items), next)
        case Unmodelled => Unmodelled
        case Fail => Fail
  }

  ghost function ParseItems(c: bytes, i: nat, depth: nat): (r: Parsed<seq<Json>>)
    requires Buffer(c) && i < |c|
    ensures r.Ok? ==> i < r.offset < |c| && |r.value| > 0
    decreases |c| - i, 3
  {
    match Parse(c, Skip(c, i), depth)
    case Unmodelled => Unmodelled
    case Fail => Fail
    case Ok(v, next) =>
      var k := Skip(c, next);
      if c[k] == COMMA then
        (match ParseItems(c, k + 1, depth)
         case Ok(rest, last) => Ok([v] + rest, last)
         case Unmodelled => Unmodelled
         case Fail => Fail)
      else if c[k] == CLOSE_BRACKET then Ok([v], k + 1)
      else Fail
  }

  ghost function ParseObject(c: bytes, i: nat, depth: nat): (r: Parsed<Json>)
    requires Buffer(c) && i < |c| && c[i] == OPEN_BRACE
    ensures r.Ok? ==> i < r.offset < |c|
    decreases |c| - i, 1
  {
    if depth >= MAX_DEPTH then Fail
    else
      var j := Skip(c, i + 1);
      if c[j] == CLOSE_BRACE then Ok(Object([]), j + 1)
      else
        match ParseMembers(c, j, depth + 1)
        case Ok(members, next) => Ok(Object(members), next)
        case Unmodelled => Unmodelled
        case Fail => Fail
  }

  ghost function ParseMember(c: bytes, i: nat, depth: nat): (r: Parsed<Member>)
    requires Buffer(c) && i < |c|
    ensures r.Ok? ==> i < r.offset < |c|
    decreases |c| - i, 3
  {
    match ParseString(c, Skip(c, i))
    case Ok(key, next) =>
      var k := Skip(c, next);
      if c[k] != COLON then Fail
      else
        (match Parse(c, Skip(c, k + 1), depth)
         case Ok(v, last) => Ok(Member(key, v), last)
         case Unmodelled => Unmodelled
         case Fail => Fail)
    case _ => Fail
  }

  ghost function ParseMembers(c: bytes, i: nat, depth: nat): (r: Parsed<seq<Member>>)
    requires Buffer(c) && i < |c|
    ensures r.Ok? ==> i < r.offset < |c| && |r.value| > 0
    decreases |c| - i, 4
  {
    match ParseMember(c, i, depth)
    case Unmodelled => Unmodelled
    case Fail => Fail
    case Ok(m, next) =>
      var k := Skip(c, next);
      if c[k] == COMMA then
        (match ParseMembers(c, k + 1, depth)
         case Ok(rest, last) => Ok([m] + rest, last)
         case Unmodelled => Unmodelled
         case Fail => Fail)
      else if c[k] == CLOSE_BRACE then Ok([m], k + 1)
      else Fail
  }

  /** cJSON_Parse on a C string: leading blanks are skipped, trailing text is ignored. */
  ghost function ParseText(t: bytes): Parsed<Json> {
    var c := t + [0];
    Parse(c, Skip(c, 0), 0)
  }
}
