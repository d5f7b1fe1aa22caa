/**
 The ways in which a value can be spelled: blanks around every token, characters
 of strings as themselves or as any escape for them, and numbers with leading
 zeros.  Each spelling is read as the value that it spells.
 */
module JsonSpelling {
  import opened Bits
  import opened Common
  import opened JsonEscapes
  import opened JsonParser
  import opened JsonRoundTrip
  import opened JsonText
  import opened JsonTree

  // ----- blanks

  /** Space, tab, line feed and carriage return; the parser takes all other control bytes for blanks as well. */
  type blank = b: byte | 1 <= b <= ' ' as byte witness ' ' as byte

  lemma {:induction false} BlanksSkipped(c: bytes, i: nat, s: seq<blank>, rest: bytes)
    requires rest != [] && rest[0] > 32 && At(c, i, s + rest)
    ensures Skip(c, i) == i + |s| && At(c, i + |s|, rest) && c[i + |s|] == rest[0]
    ensures Skip(c, i + |s|) == i + |s|
    decreases |s|
  {
    AtSplit(c, i, s, rest);
    AtFirst(c, i + |s|, rest);
    if s != [] {
      AtFirst(c, i, s + rest);
      assert s + rest == [s[0]] + (s[1..] + rest);
      AtSplit(c, i, [s[0]], s[1..] + rest);
      BlanksSkipped(c, i + 1, s[1..], rest);
    }
  }

  // ----- strings

  type rawByte = b: byte | b != '"' as byte && b != '\\' as byte
  type escaped = b: byte |
    || b == '"' as byte || b == '\\' as byte || b == '/' as byte || b == 'b' as byte
    || b == 'f' as byte || b == 'n' as byte || b == 'r' as byte || b == 't' as byte
    witness 'n' as byte
  type scalar = cp: nat | cp <= 0x10FFFF && !(0xD800 <= cp <= 0xDFFF)

  /** A byte as itself, a character behind a backslash, or a code point in hexadecimal. */
  datatype Unit = Raw(b: rawByte) | Short(e: escaped) | Point(cp: scalar, upper: bool)

  function UnitText(u: Unit): (r: bytes)
    ensures r != []
  {
    match u
    case Raw(b) => [b]
    case Short(e) => ['\\' as byte, e]
    case Point(cp, upper) => PointEscape(cp, upper)
  }

  function UnitValue(u: Unit): bytes {
    match u
    case Raw(b) => [b]
    case Short(e) =>
      if e == 'b' as byte then [8]
      else if e == 'f' as byte then [12]
      else if e == 'n' as byte then ['\n' as byte]
      else if e == 'r' as byte then ['\r' as byte]
      else if e == 't' as byte then ['\t' as byte]
      else [e]
    case Point(cp, _) => Utf8(cp)
  }

  function UnitsText(us: seq<Unit>): bytes {
    if us == [] then [] else UnitText(us[0]) + UnitsText(us[1..])
  }

  function UnitsValue(us: seq<Unit>): bytes {
    if us == [] then [] else UnitValue(us[0]) + UnitsValue(us[1..])
  }

  lemma ShortMeans(e: escaped)
    ensures Unescape(e) != 0 && e != 117 && UnitValue(Short(e)) == [Unescape(e)]
  {
  }

  lemma ShortRead(c: bytes, i: nat, end: nat, e: escaped)
    requires i + 2 <= end < |c| && c[i..i + 2] == ['\\' as byte, e]
    ensures DecodeStep(c, i, end) == Ok(UnitValue(Short(e)), i + 2)
    ensures StringEnd(c, i) == StringEnd(c, i + 2)
  {
    UnitBytes(c, i, ['\\' as byte, e], 0);
    UnitBytes(c, i, ['\\' as byte, e], 1);
    ShortMeans(e);
  }

  /** The scan passes anything that is neither a quote nor a backslash. */
  lemma PlainScanned(c: bytes, i: nat)
    requires i < |c| && c[i] != QUOTE && c[i] != BACKSLASH
    ensures StringEnd(c, i) == StringEnd(c, i + 1)
  {
  }

  lemma HexPlain(d: nat)
    requires d < 16
    ensures HexDigit(d) != QUOTE && HexDigit(d) != BACKSLASH && HexUpper(d) != QUOTE && HexUpper(d) != BACKSLASH
  {
  }

  lemma EscapeScanned(c: bytes, i: nat, u: nat, upper: bool)
    requires u < 0x10000 && i + 6 < |c| && c[i..i + 6] == UnitEscape(u, upper)
    ensures StringEnd(c, i) == StringEnd(c, i + 6)
  {
    hide HexDigit, HexUpper;
    var e := UnitEscape(u, upper);
    UnitBytes(c, i, e, 0);
    assert StringEnd(c, i) == StringEnd(c, i + 2);
    hide StringEnd;
    HexPlain(u / 4096);
    HexPlain(u / 256 % 16);
    HexPlain(u / 16 % 16);
    HexPlain(u % 16);
    UnitBytes(c, i, e, 2);
    PlainScanned(c, i + 2);
    UnitBytes(c, i, e, 3);
    PlainScanned(c, i + 3);
    UnitBytes(c, i, e, 4);
    PlainScanned(c, i + 4);
    UnitBytes(c, i, e, 5);
    PlainScanned(c, i + 5);
  }

  lemma PointScanned(c: bytes, i: nat, cp: scalar, upper: bool)
    requires At(c, i, PointEscape(cp, upper))
    ensures StringEnd(c, i) == StringEnd(c, i + |PointEscape(cp, upper)|)
  {
    hide UnitEscape, StringEnd;
    if cp < 0x10000 {
      EscapeScanned(c, i, cp, upper);
    } else {
      var high, low := 0xD800 + (cp - 0x10000) / 1024, 0xDC00 + (cp - 0x10000) % 1024;
      AtSplit(c, i, UnitEscape(high, upper), UnitEscape(low, upper));
      EscapeScanned(c, i, high, upper);
      EscapeScanned(c, i + 6, low, upper);
    }
  }

  lemma UnitSpelled(c: bytes, i: nat, end: nat, u: Unit)
    requires At(c, i, UnitText(u)) && i + |UnitText(u)| <= end < |c|
    ensures DecodeStep(c, i, end) == Ok(UnitValue(u), i + |UnitText(u)|)
    ensures StringEnd(c, i) == StringEnd(c, i + |UnitText(u)|)
  {
    AtFirst(c, i, UnitText(u));
    if u.Short? {
      ShortRead(c, i, end, u.e);
    } else if u.Point? {
      PointRead(c, i, end, u.cp, u.upper);
      PointScanned(c, i, u.cp, u.upper);
    }
  }

  lemma {:induction false} UnitsSpelled(c: bytes, i: nat, end: nat, us: seq<Unit>)
    requires At(c, i, UnitsText(us) + ['"' as byte]) && end == i + |UnitsText(us)|
    ensures Decode(c, i, end) == Ok(UnitsValue(us), end) && StringEnd(c, i) == Ok((), end)
    decreases |us|
  {
    hide DecodeStep, UnitText, UnitValue;
    if us == [] {
      AtFirst(c, i, UnitsText(us) + ['"' as byte]);
    } else {
      var e, rest := UnitText(us[0]), UnitsText(us[1..]) + ['"' as byte];
      assert UnitsText(us) + ['"' as byte] == e + rest;
      AtSplit(c, i, e, rest);
      UnitSpelled(c, i, end, us[0]);
      UnitsSpelled(c, i + |e|, end, us[1..]);
    }
  }

  function Quoted(us: seq<Unit>): bytes {
    ['"' as byte] + (UnitsText(us) + ['"' as byte])
  }

  /** A string is read as what its units stand for. */
  lemma StringSpelled(c: bytes, i: nat, us: seq<Unit>)
    requires At(c, i, Quoted(us))
    ensures ParseString(c, i) == Ok(UnitsValue(us), i + |Quoted(us)|)
  {
    hide UnitsText, UnitsValue, Decode, StringEnd;
    AtFirst(c, i, Quoted(us));
    AtSplit(c, i, ['"' as byte], UnitsText(us) + ['"' as byte]);
    UnitsSpelled(c, i + 1, i + 1 + |UnitsText(us)|, us);
  }

  // ----- numbers

  type digit = b: byte | '0' as byte <= b <= '9' as byte witness '0' as byte

  /** The number with these decimal digits. */
  function Decimal(d: seq<digit>): nat {
    if d == [] then 0 else 10 * Decimal(d[..|d| - 1]) + (d[|d| - 1] - '0' as byte)
  }

  function IntSpelling(negative: bool, d: seq<digit>): bytes { (if negative then ['-' as byte] else []) + d }

  function IntValue(negative: bool, d: seq<digit>): int {
    if negative then 0 - Decimal(d) else Decimal(d)
  }

  /** Nothing that could go on with the number follows. */
  predicate EndsNumber(b: byte) { !('0' as byte <= b <= '9' as byte) && b !in ['.' as byte, 'e' as byte, 'E' as byte] }

  lemma {:induction false} DecimalRead(t: bytes, i: nat, d: seq<digit>)
    requires i + |d| <= |t| && t[i..i + |d|] == d
    ensures DigitsValue(t, i, 0) == DigitsValue(t, i + |d|, Decimal(d))
    decreases |d|
  {
    hide DigitsValue;
    if d != [] {
      var n := |d| - 1;
      UnitBytes(t, i, d, n);
      assert t[i..i + n] == d[..n];
      DecimalRead(t, i, d[..n]);
      DigitsValueStep(t, i + n, Decimal(d[..n]));
    }
  }

  lemma StrtodReads(t: bytes, negative: bool, d: seq<digit>)
    requires d != [] && IntSpelling(negative, d) <= t
    requires |t| == |IntSpelling(negative, d)| || EndsNumber(t[|IntSpelling(negative, d)|])
    requires INT_MIN <= IntValue(negative, d) <= INT_MAX
    ensures Strtod(t) == Ok(IntValue(negative, d), |IntSpelling(negative, d)|)
  {
    hide Decimal, DigitsValue, DigitsEnd;
    var s := IntSpelling(negative, d);
    var i := if negative then 1 else 0;
    assert s[i..] == d && t[..|s|] == s;
    assert t[i..i + |d|] == t[..|s|][i..] == d;
    assert t[0] == t[..|s|][0] == s[0];
    EndOfDigits(t, i, d);
    DecimalRead(t, i, d);
    Stops(t, |s|, Decimal(d));
  }

  lemma Stops(t: bytes, i: nat, acc: nat)
    requires i <= |t| && (i < |t| ==> !Digit(t[i]))
    ensures DigitsValue(t, i, acc) == acc
  {
  }

  lemma {:induction false} NumberEndPast(c: bytes, i: nat, n: nat)
    requires i + n <= |c| && forall k :: i <= k < i + n ==> NumberByte(c[k])
    ensures NumberEnd(c, i) >= i + n
    decreases n
  {
    if n > 0 { NumberEndPast(c, i + 1, n - 1); }
  }

  lemma NumberSpelled(c: bytes, i: nat, negative: bool, d: seq<digit>)
    requires d != [] && At(c, i, IntSpelling(negative, d))
    requires EndsNumber(c[i + |IntSpelling(negative, d)|]) && INT_MIN <= IntValue(negative, d) <= INT_MAX
    ensures ParseNumber(c, i) == Ok(Number(IntValue(negative, d)), i + |IntSpelling(negative, d)|)
  {
    hide Decimal, Strtod;
    var s := IntSpelling(negative, d);
    forall k | i <= k < i + |s|
      ensures NumberByte(c[k])
    {
      UnitBytes(c, i, s, k - i);
    }
    NumberEndPast(c, i, |s|);
    var t := c[i..NumberEnd(c, i)];
    assert t[..|s|] == c[i..i + |s|];
    StrtodReads(t, negative, d);
  }

  // ----- values

  datatype Spelling =
    | Word(v: Json)
    | Int(negative: bool, digits: seq<digit>)
    | Text(units: seq<Unit>)
    | List(gap: seq<blank>, items: seq<Item>)
    | Record(gap: seq<blank>, members: seq<Entry>)

  /** An item with the blanks around it, and a member with those around its parts. */
  datatype Item = Item(before: seq<blank>, v: Spelling, after: seq<blank>)
  datatype Entry = Entry(before: seq<blank>, key: seq<Unit>, afterKey: seq<blank>,
                         beforeValue: seq<blank>, v: Spelling, after: seq<blank>)

  /** A spelling of a value of at most d levels. */
  ghost predicate IsSpelling(sp: Spelling, d: nat)
    decreases sp, 0
  {
    match sp
    case Word(v) => v.Null? || v.False? || v.True?
    case Int(negative, digits) => digits != [] && INT_MIN <= IntValue(negative, digits) <= INT_MAX
    case Text(_) => true
    case List(_, items) => d > 0 && AreItems(items, d - 1)
    case Record(_, members) => d > 0 && AreEntries(members, d - 1)
  }

  ghost predicate AreItems(items: seq<Item>, d: nat)
    decreases items, 1
  {
    items != [] ==> IsSpelling(items[0].v, d) && AreItems(items[1..], d)
  }

  ghost predicate AreEntries(members: seq<Entry>, d: nat)
    decreases members, 1
  {
    members != [] ==> IsSpelling(members[0].v, d) && AreEntries(members[1..], d)
  }

  ghost function Spelled(sp: Spelling): bytes
    decreases sp, 0
  {
    match sp
    case Word(v) => Ascii(if v.Null? then "null" else if v.False? then "false" else "true")
    case Int(negative, digits) => IntSpelling(negative, digits)
    case Text(units) => Quoted(units)
    case List(gap, items) => ['[' as byte] + if items == [] then gap + [']' as byte] else ItemsSpelled(items)
    case Record(gap, members) => ['{' as byte] + if members == [] then gap + ['}' as byte] else EntriesSpelled(members)
  }

  /** Items up to the closing bracket. */
  ghost function ItemsSpelled(items: seq<Item>): bytes
    requires items != []
    decreases items, 1
  {
    var x := items[0];
    var tail := if |items| == 1 then [']' as byte] else [',' as byte] + ItemsSpelled(items[1..]);
    x.before + (Spelled(x.v) + (x.after + tail))
  }

  /** Members up to the closing brace. */
  ghost function EntriesSpelled(members: seq<Entry>): bytes
    requires members != []
    decreases members, 1
  {
    EntryText(members[0], if |members| == 1 then ['}' as byte] else [',' as byte] + EntriesSpelled(members[1..]))
  }

  /** A member with the blanks around its parts, and what follows it. */
  ghost function EntryText(m: Entry, tail: bytes): bytes
    decreases m, 1
  {
    m.before + (Quoted(m.key) + (m.afterKey + ([':' as byte] + (m.beforeValue + (Spelled(m.v) + (m.after + tail))))))
  }

  /** The value that is spelled. */
  ghost function Meaning(sp: Spelling): Json
    decreases sp, 0
  {
    match sp
    case Word(v) => v
    case Int(negative, digits) => Number(IntValue(negative, digits))
    case Text(units) => String(UnitsValue(units))
    case List(_, items) => Array(ItemsMeaning(items))
    case Record(_, members) => Object(EntriesMeaning(members))
  }

  ghost function ItemsMeaning(items: seq<Item>): seq<Json>
    decreases items, 1
  {
    if items == [] then [] else [Meaning(items[0].v)] + ItemsMeaning(items[1..])
  }

  ghost function EntriesMeaning(members: seq<Entry>): seq<Member>
    decreases members, 1
  {
    if members == [] then []
    else [EntryMeaning(members[0])] + EntriesMeaning(members[1..])
  }

  ghost function EntryMeaning(m: Entry): Member
    decreases m, 1
  {
    Member(UnitsValue(m.key), Meaning(m.v))
  }

  // ----- reading a spelling

  lemma FirstOfSpelling(sp: Spelling, d: nat)
    requires IsSpelling(sp, d)
    ensures Spelled(sp) != [] && Spelled(sp)[0] > 32
    ensures Spelled(sp)[0] != CLOSE_BRACKET && Spelled(sp)[0] != CLOSE_BRACE
    ensures sp.Text? ==> Spelled(sp)[0] == QUOTE
    ensures sp.Int? ==> Spelled(sp)[0] == MINUS || Digit(Spelled(sp)[0])
    ensures sp.List? ==> Spelled(sp)[0] == OPEN_BRACKET
    ensures sp.Record? ==> Spelled(sp)[0] == OPEN_BRACE
  {
    hide ItemsSpelled, EntriesSpelled, UnitsText;
  }

  lemma WordSpelled(c: bytes, i: nat, v: Json, depth: nat)
    requires Buffer(c) && IsSpelling(Word(v), 0) && At(c, i, Spelled(Word(v)))
    ensures Parse(c, i, depth) == Ok(v, i + |Spelled(Word(v))|)
  {
    hide ParseString, ParseNumber, ParseArray, ParseObject;
    assert Spelled(Word(v)) == Print(v);
    Words(c, i, v, depth);
  }

  /** A value is read as what is spelled; a number if nothing follows that could go on with it. */
  lemma {:induction false} SpellingRead(c: bytes, i: nat, sp: Spelling, depth: nat)
    requires Buffer(c) && depth <= MAX_DEPTH && IsSpelling(sp, MAX_DEPTH - depth)
    requires At(c, i, Spelled(sp)) && (sp.Int? ==> EndsNumber(c[i + |Spelled(sp)|]))
    ensures Parse(c, i, depth) == Ok(Meaning(sp), i + |Spelled(sp)|)
    decreases sp, 0
  {
    hide Parse, ParseString, ParseNumber, ParseArray, ParseObject, ItemsSpelled, EntriesSpelled, Quoted, UnitsValue;
    FirstOfSpelling(sp, MAX_DEPTH - depth);
    AtFirst(c, i, Spelled(sp));
    Dispatch(c, i, depth);
    match sp
    case Word(v) => WordSpelled(c, i, v, depth);
    case Int(negative, digits) => NumberSpelled(c, i, negative, digits);
    case Text(units) => StringSpelled(c, i, units);
    case List(gap, items) => ListRead(c, i, gap, items, depth);
    case Record(gap, members) => RecordRead(c, i, gap, members, depth);
  }

  lemma {:induction false} ListRead(c: bytes, i: nat, gap: seq<blank>, items: seq<Item>, depth: nat)
    requires Buffer(c) && depth < MAX_DEPTH && AreItems(items, MAX_DEPTH - depth - 1)
    requires At(c, i, Spelled(List(gap, items))) && c[i] == OPEN_BRACKET
    ensures ParseArray(c, i, depth) == Ok(Array(ItemsMeaning(items)), i + |Spelled(List(gap, items))|)
    decreases items, 2
  {
    hide Parse, ParseItems, ItemsSpelled, Skip;
    var body := if items == [] then gap + [']' as byte] else ItemsSpelled(items);
    AtSplit(c, i, ['[' as byte], body);
    if items == [] {
      BlanksSkipped(c, i + 1, gap, [']' as byte]);
    } else {
      ItemsRead(c, i + 1, items, depth + 1);
    }
  }

  lemma ItemsStep(c: bytes, i: nat, depth: nat, v: Json, next: nat)
    requires Buffer(c) && i < |c| && next < |c| && Parse(c, Skip(c, i), depth) == Ok(v, next)
    ensures var k := Skip(c, next);
            && (c[k] == CLOSE_BRACKET ==> ParseItems(c, i, depth) == Ok([v], k + 1))
            && (c[k] == COMMA && ParseItems(c, k + 1, depth).Ok? ==>
                  var rest := ParseItems(c, k + 1, depth);
                  ParseItems(c, i, depth) == Ok([v] + rest.value, rest.offset))
  {
    hide Parse, Skip;
  }

  /** Neither a blank nor what stands behind a value goes on with a number. */
  lemma AfterValue(c: bytes, i: nat, after: seq<blank>, tail: bytes)
    requires At(c, i, after + tail) && tail != [] && tail[0] in [',' as byte, ']' as byte, '}' as byte]
    ensures EndsNumber(c[i])
  {
    AtFirst(c, i, after + tail);
  }

  /** Where an item stands between its blanks. */
  lemma ItemAt(c: bytes, i: nat, before: seq<blank>, sp: Spelling, after: seq<blank>, tail: bytes, d: nat)
    requires IsSpelling(sp, d) && tail != [] && tail[0] in [',' as byte, ']' as byte, '}' as byte]
    requires At(c, i, before + (Spelled(sp) + (after + tail)))
    ensures var j := i + |before|;
            var k := j + |Spelled(sp)|;
            && At(c, j, Spelled(sp)) && At(c, k + |after|, tail) && c[k + |after|] == tail[0]
            && Skip(c, i) == Skip(c, j) == j && Skip(c, k) == k + |after|
            && c[j] == Spelled(sp)[0] && (sp.Int? ==> EndsNumber(c[k]))
  {
    hide Skip, Spelled, IsSpelling;
    FirstOfSpelling(sp, d);
    var text := Spelled(sp);
    BlanksSkipped(c, i, before, text + (after + tail));
    AtSplit(c, i + |before|, text, after + tail);
    BlanksSkipped(c, i + |before| + |text|, after, tail);
    AfterValue(c, i + |before| + |text|, after, tail);
  }

  /** Items are read up to the closing bracket, from the first one or from the blanks in front of it. */
  lemma {:induction false} ItemsRead(c: bytes, i: nat, items: seq<Item>, depth: nat)
    requires Buffer(c) && depth <= MAX_DEPTH && items != [] && AreItems(items, MAX_DEPTH - depth)
    requires At(c, i, ItemsSpelled(items))
    ensures c[Skip(c, i)] != CLOSE_BRACKET
    ensures ParseItems(c, i, depth) == ParseItems(c, Skip(c, i), depth) ==
            Ok(ItemsMeaning(items), i + |ItemsSpelled(items)|)
    decreases items, 1
  {
    hide Parse, ParseItems, Skip, Buffer, Spelled, Meaning, IsSpelling, At;
    var x, last := items[0], |items| == 1;
    var tail := if last then [']' as byte] else [',' as byte] + ItemsSpelled(items[1..]);
    FirstOfSpelling(x.v, MAX_DEPTH - depth);
    ItemAt(c, i, x.before, x.v, x.after, tail, MAX_DEPTH - depth);
    var j := i + |x.before|;
    var k := j + |Spelled(x.v)|;
    SpellingRead(c, j, x.v, depth);
    ItemsStep(c, i, depth, Meaning(x.v), k);
    ItemsStep(c, j, depth, Meaning(x.v), k);
    if last {
      assert items[1..] == [];
      assert ItemsMeaning(items) == [Meaning(x.v)];
    } else {
      AtSplit(c, k + |x.after|, [',' as byte], ItemsSpelled(items[1..]));
      ItemsRead(c, k + |x.after| + 1, items[1..], depth);
    }
  }

  lemma {:induction false} RecordRead(c: bytes, i: nat, gap: seq<blank>, members: seq<Entry>, depth: nat)
    requires Buffer(c) && depth < MAX_DEPTH && AreEntries(members, MAX_DEPTH - depth - 1)
    requires At(c, i, Spelled(Record(gap, members))) && c[i] == OPEN_BRACE
    ensures ParseObject(c, i, depth) == Ok(Object(EntriesMeaning(members)), i + |Spelled(Record(gap, members))|)
    decreases members, 3
  {
    hide Parse, ParseMembers, EntriesSpelled, Skip;
    var body := if members == [] then gap + ['}' as byte] else EntriesSpelled(members);
    AtSplit(c, i, ['{' as byte], body);
    if members == [] {
      BlanksSkipped(c, i + 1, gap, ['}' as byte]);
    } else {
      EntriesRead(c, i + 1, members, depth + 1);
    }
  }

  lemma MembersStep(c: bytes, i: nat, depth: nat, m: Member, next: nat)
    requires Buffer(c) && i < |c| && next < |c| && ParseMember(c, i, depth) == Ok(m, next)
    ensures var k := Skip(c, next);
            && (c[k] == CLOSE_BRACE ==> ParseMembers(c, i, depth) == Ok([m], k + 1))
            && (c[k] == COMMA && ParseMembers(c, k + 1, depth).Ok? ==>
                  var rest := ParseMembers(c, k + 1, depth);
                  ParseMembers(c, i, depth) == Ok([m] + rest.value, rest.offset))
  {
    hide ParseMember, Skip;
  }

  lemma MemberStep(c: bytes, i: nat, depth: nat, key: bytes, next: nat)
    requires Buffer(c) && i < |c| && next < |c| && ParseString(c, Skip(c, i)) == Ok(key, next)
    ensures var k := Skip(c, next);
            c[k] == COLON ==>
              var r := Parse(c, Skip(c, k + 1), depth);
              r.Ok? ==> ParseMember(c, i, depth) == Ok(Member(key, r.value), r.offset)
  {
    hide Parse, Skip, ParseString;
  }

  /** A member is read, from its key or from the blanks in front of it. */
  lemma {:induction false} EntryRead(c: bytes, i: nat, m: Entry, tail: bytes, depth: nat)
    requires Buffer(c) && depth <= MAX_DEPTH && IsSpelling(m.v, MAX_DEPTH - depth)
    requires tail != [] && tail[0] in [',' as byte, ']' as byte, '}' as byte] && At(c, i, EntryText(m, tail))
    ensures var j := i + |m.before|;
            var k := i + |EntryText(m, tail)| - |m.after| - |tail|;
            && Skip(c, i) == Skip(c, j) == j && c[j] == QUOTE
            && At(c, k + |m.after|, tail) && c[k + |m.after|] == tail[0] && Skip(c, k) == k + |m.after|
            && ParseMember(c, i, depth) == ParseMember(c, j, depth) == Ok(EntryMeaning(m), k)
    decreases m
  {
    hide Parse, ParseMember, ParseString, Skip, Buffer, Spelled, Meaning, IsSpelling, At, Quoted, UnitsValue;
    var value := m.beforeValue + (Spelled(m.v) + (m.after + tail));
    var j := i + |m.before|;
    var e := j + |Quoted(m.key)|;
    var f := e + |m.afterKey| + 1;
    KeyRead(c, i, m.before, m.key, m.afterKey, value);
    ItemAt(c, f, m.beforeValue, m.v, m.after, tail, MAX_DEPTH - depth);
    SpellingRead(c, f + |m.beforeValue|, m.v, depth);
    MemberStep(c, i, depth, UnitsValue(m.key), e);
    MemberStep(c, j, depth, UnitsValue(m.key), e);
  }

  /** The key of a member, and the colon behind it. */
  lemma KeyRead(c: bytes, i: nat, before: seq<blank>, key: seq<Unit>, afterKey: seq<blank>, value: bytes)
    requires At(c, i, before + (Quoted(key) + (afterKey + ([':' as byte] + value))))
    ensures var j := i + |before|;
            var e := j + |Quoted(key)|;
            && Skip(c, i) == Skip(c, j) == j && c[j] == QUOTE && ParseString(c, j) == Ok(UnitsValue(key), e)
            && Skip(c, e) == e + |afterKey| && c[e + |afterKey|] == COLON && At(c, e + |afterKey| + 1, value)
  {
    hide ParseString, Skip, Quoted, UnitsValue, At;
    var rest := afterKey + ([':' as byte] + value);
    var j := i + |before|;
    var e := j + |Quoted(key)|;
    QuotedFirst(key);
    BlanksSkipped(c, i, before, Quoted(key) + rest);
    AtSplit(c, j, Quoted(key), rest);
    StringSpelled(c, j, key);
    BlanksSkipped(c, e, afterKey, [':' as byte] + value);
    AtSplit(c, e + |afterKey|, [':' as byte], value);
  }

  lemma QuotedFirst(us: seq<Unit>)
    ensures Quoted(us) != [] && Quoted(us)[0] == QUOTE
  {
  }

  lemma {:induction false} EntriesRead(c: bytes, i: nat, members: seq<Entry>, depth: nat)
    requires Buffer(c) && depth <= MAX_DEPTH && members != [] && AreEntries(members, MAX_DEPTH - depth)
    requires At(c, i, EntriesSpelled(members))
    ensures c[Skip(c, i)] != CLOSE_BRACE
    ensures ParseMembers(c, i, depth) == ParseMembers(c, Skip(c, i), depth) ==
            Ok(EntriesMeaning(members), i + |EntriesSpelled(members)|)
    decreases members, 1
  {
    hide ParseMember, ParseMembers, Skip, Buffer, EntryText, EntryMeaning, IsSpelling, At;
    var m, last := members[0], |members| == 1;
    var tail := if last then ['}' as byte] else [',' as byte] + EntriesSpelled(members[1..]);
    EntryRead(c, i, m, tail, depth);
    var j := i + |m.before|;
    var k := i + |EntryText(m, tail)| - |m.after| - |tail|;
    MembersStep(c, i, depth, EntryMeaning(m), k);
    MembersStep(c, j, depth, EntryMeaning(m), k);
    if last {
      assert members[1..] == [];
      assert EntriesMeaning(members) == [EntryMeaning(m)];
    } else {
      AtSplit(c, k + |m.after|, [',' as byte], EntriesSpelled(members[1..]));
      EntriesRead(c, k + |m.after| + 1, members[1..], depth);
    }
  }

  // ----- whole texts

  /** A text: blanks, a spelling, and anything behind it that does not go on with a number. */
  ghost predicate IsText(t: bytes, before: seq<blank>, sp: Spelling, behind: bytes) {
    && t == before + Spelled(sp) + behind && IsSpelling(sp, 1000)
    && (sp.Int? && behind != [] ==> EndsNumber(behind[0]))
  }

  lemma TextRead(t: bytes, before: seq<blank>, sp: Spelling, behind: bytes)
    requires IsText(t, before, sp, behind)
    ensures ParseText(t) == Ok(Meaning(sp), |before| + |Spelled(sp)|)
  {
    hide Parse, Skip, Spelled, Meaning, IsSpelling;
    var c, text := t + [0], Spelled(sp);
    assert t == before + (text + behind);
    assert At(c, 0, before + (text + behind)) by { assert c[0..|t|] == t; }
    FirstOfSpelling(sp, 1000);
    BlanksSkipped(c, 0, before, text + behind);
    AtSplit(c, |before|, text, behind);
    assert c[|before| + |text|] == if behind == [] then 0 else behind[0];
    SpellingRead(c, |before|, sp, 0);
  }

  /** The tree that the parser builds from a text is the one of the value that is spelled there. */
  method ParseSpelled(t: bytes, ghost before: seq<blank>, ghost sp: Spelling, ghost behind: bytes)
    returns (item: Node?, ghost kids: seq<Shape>)
    requires IsText(t, before, sp, behind)
    ensures item != null && fresh(Nodes(Shape(item, kids)))
    ensures Tree(Shape(item, kids), ItemOf(Meaning(sp), Absent)) && item.next == null && item.prev == null
  {
    hide ParseText, Tree, Nodes, ItemOf, IsText, Meaning;
    TextRead(t, before, sp, behind);
    var s;
    s, item, kids := ParseBuffer.ParseDocument(t);
  }
}
