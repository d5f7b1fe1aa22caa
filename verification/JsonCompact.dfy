/**
 The printed form of a value is its compact spelling: no blanks, no leading zeros,
 and escapes only where a byte cannot stand for itself, in their short forms.
 */
module JsonCompact {
  import opened Bits
  import opened JsonRoundTrip
  import opened JsonSpelling
  import opened JsonText

  // ----- which spellings are compact

  /** Only a quote, a backslash and control bytes are escaped, with a letter. */
  predicate CompactUnit(u: Unit) {
    match u
    case Raw(b) => b >= ' ' as byte
    case Short(e) => e != '/' as byte
    case Point(_, _) => false
  }

  predicate CompactUnits(us: seq<Unit>) { forall i :: 0 <= i < |us| ==> CompactUnit(us[i]) }

  ghost predicate CompactSpelling(sp: Spelling)
    decreases sp, 0
  {
    match sp
    case Word(_) => true
    case Int(negative, digits) => digits != [] && (digits[0] == '0' as byte ==> |digits| == 1 && !negative)
    case Text(units) => CompactUnits(units)
    case List(gap, items) => gap == [] && CompactItems(items)
    case Record(gap, members) => gap == [] && CompactEntries(members)
  }

  ghost predicate CompactItems(items: seq<Item>)
    decreases items, 1
  {
    items != [] ==> items[0].before == [] == items[0].after && CompactSpelling(items[0].v) && CompactItems(items[1..])
  }

  ghost predicate CompactEntries(members: seq<Entry>)
    decreases members, 1
  {
    members != [] ==>
      var m := members[0];
      && m.before == [] && m.afterKey == [] && m.beforeValue == [] && m.after == []
      && CompactUnits(m.key) && CompactSpelling(m.v) && CompactEntries(members[1..])
  }

  // ----- the one of a value

  function UnitOf(b: byte): Unit
    requires Plain(b)
  {
    if b == 8 then Short('b' as byte)
    else if b == 9 then Short('t' as byte)
    else if b == 10 then Short('n' as byte)
    else if b == 12 then Short('f' as byte)
    else if b == 13 then Short('r' as byte)
    else if b == '"' as byte || b == '\\' as byte then Short(b)
    else Raw(b)
  }

  function UnitsOf(s: bytes): seq<Unit>
    requires PlainString(s)
  {
    if s == [] then [] else [UnitOf(s[0])] + UnitsOf(s[1..])
  }

  function DecimalDigits(n: nat): seq<digit> {
    if n < 10 then [48 + n] else DecimalDigits(n / 10) + [48 + n % 10]
  }

  ghost function Compact(v: Json): Spelling
    requires AllPlain(v)
    decreases v, 0
  {
    match v
    case Number(n) => Int(n < 0, DecimalDigits(if n < 0 then -n else n))
    case String(s) => Text(UnitsOf(s))
    case Array(items) => List([], CompactOf(items))
    case Object(members) => Record([], EntriesOf(members))
    case _ => Word(v)
  }

  ghost function CompactOf(items: seq<Json>): seq<Item>
    requires forall x :: x in items ==> AllPlain(x)
    decreases items, 1
  {
    if items == [] then [] else [Item([], Compact(items[0]), [])] + CompactOf(items[1..])
  }

  ghost function EntriesOf(members: seq<Member>): seq<Entry>
    requires forall m :: m in members ==> PlainString(m.key) && AllPlain(m.value)
    decreases members, 1
  {
    if members == [] then []
    else
      var m := members[0];
      assert m in members;
      [Entry([], UnitsOf(m.key), [], [], Compact(m.value), [])] + EntriesOf(members[1..])
  }

  // ----- printing is writing it

  lemma UnitPrinted(b: byte)
    requires Plain(b)
    ensures UnitText(UnitOf(b)) == EscapeByte(b) && UnitValue(UnitOf(b)) == [b] && CompactUnit(UnitOf(b))
  {
  }

  lemma {:induction false} UnitsPrinted(s: bytes)
    requires PlainString(s)
    ensures UnitsText(UnitsOf(s)) == Escape(s) && UnitsValue(UnitsOf(s)) == s && CompactUnits(UnitsOf(s))
  {
    hide Plain, EscapeByte, UnitText, UnitValue, UnitOf, CompactUnit;
    if s != [] {
      UnitPrinted(s[0]);
      UnitsPrinted(s[1..]);
      assert [s[0]] + s[1..] == s;
    }
  }

  lemma {:induction false} DigitsPrinted(n: nat)
    ensures var d := DecimalDigits(n);
            && d == Digits(n) && d != [] && Decimal(d) == n && (d[0] == '0' as byte ==> n == 0 && |d| == 1)
  {
    if n >= 10 {
      DigitsPrinted(n / 10);
      var d := DecimalDigits(n);
      assert d[..|d| - 1] == DecimalDigits(n / 10);
    }
  }

  /** What the printer writes for a value is its compact spelling, which means the value. */
  lemma {:induction false} PrintIsCompact(v: Json)
    requires AllPlain(v)
    ensures Print(v) == Spelled(Compact(v)) && Meaning(Compact(v)) == v && CompactSpelling(Compact(v))
    decreases v, 0
  {
    hide PrintItems, PrintMembers, ItemsSpelled, EntriesSpelled, UnitsOf, UnitsText, UnitsValue, CompactUnits,
         DecimalDigits, Digits, Decimal, CompactOf, EntriesOf, ItemsMeaning, EntriesMeaning, CompactItems,
         CompactEntries, Escape;
    match v
    case Number(n) => DigitsPrinted(if n < 0 then -n else n);
    case String(s) => UnitsPrinted(s);
    case Array(items) => ItemsPrinted(items);
    case Object(members) => MembersPrinted(members);
    case _ =>
  }

  lemma {:induction false} ItemsPrinted(items: seq<Json>)
    requires forall x :: x in items ==> AllPlain(x)
    ensures ItemsMeaning(CompactOf(items)) == items && CompactItems(CompactOf(items)) && |CompactOf(items)| == |items|
    ensures items == [] ==> PrintItems(items) == []
    ensures items != [] ==> ItemsSpelled(CompactOf(items)) == PrintItems(items) + [']' as byte]
    decreases items, 1
  {
    hide Print, Spelled, Meaning, CompactSpelling, Compact, AllPlain;
    if items != [] {
      PrintIsCompact(items[0]);
      ItemsPrinted(items[1..]);
      var all := CompactOf(items);
      assert all[1..] == CompactOf(items[1..]);
      assert [items[0]] + items[1..] == items;
    }
  }

  lemma {:induction false} MembersPrinted(members: seq<Member>)
    requires forall m :: m in members ==> PlainString(m.key) && AllPlain(m.value)
    ensures EntriesMeaning(EntriesOf(members)) == members && CompactEntries(EntriesOf(members))
    ensures |EntriesOf(members)| == |members|
    ensures members == [] ==> PrintMembers(members) == []
    ensures members != [] ==> EntriesSpelled(EntriesOf(members)) == PrintMembers(members) + ['}' as byte]
    decreases members, 2
  {
    hide PrintMember, EntryText, EntryMeaning, AllPlain, PlainString, CompactSpelling, CompactUnits, Compact, UnitsOf;
    if members != [] {
      var m, last := members[0], |members| == 1;
      assert m in members;
      MembersPrinted(members[1..]);
      var all := EntriesOf(members);
      assert all[1..] == EntriesOf(members[1..]);
      EntryPrinted(m, if last then ['}' as byte] else [',' as byte] + EntriesSpelled(all[1..]));
      assert [m] + members[1..] == members;
    }
  }

  lemma {:induction false} EntryPrinted(m: Member, tail: bytes)
    requires PlainString(m.key) && AllPlain(m.value)
    ensures var e := Entry([], UnitsOf(m.key), [], [], Compact(m.value), []);
            && EntryText(e, tail) == PrintMember(m) + tail && EntryMeaning(e) == m
            && CompactUnits(e.key) && CompactSpelling(e.v)
    decreases m, 1
  {
    hide Print, Spelled, Meaning, CompactSpelling, Compact, AllPlain, PlainString, UnitsOf, UnitsText, UnitsValue,
         Escape;
    PrintIsCompact(m.value);
    UnitsPrinted(m.key);
  }
}
