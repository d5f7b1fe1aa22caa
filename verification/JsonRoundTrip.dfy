/**
 Printing and parsing undo each other exactly when every string is free of the
 control bytes that have no short escape and the value is not nested too deeply.
 */
module JsonRoundTrip {
  import opened Bits
  import opened Common
  import opened JsonText

  // ----- which values

  /** A byte that the printer writes faithfully. */
  predicate Plain(b: byte) {
    b >= 32 || ShortEscape(b) != 0
  }

  predicate PlainString(s: bytes) {
    forall i :: 0 <= i < |s| ==> Plain(s[i])
  }

  /** A C string holds no zero byte. */
  predicate CString(s: bytes) {
    forall i :: 0 <= i < |s| ==> s[i] != 0
  }

  /** What a cJSON tree can hold: C strings, and here numbers of int range. */
  ghost predicate Held(v: Json) {
    match v
    case Number(n) => INT_MIN <= n <= INT_MAX
    case String(s) => CString(s)
    case Array(items) => forall x :: x in items ==> Held(x)
    case Object(members) => forall m :: m in members ==> CString(m.key) && Held(m.value)
    case _ => true
  }

  ghost predicate AllPlain(v: Json) {
    match v
    case String(s) => PlainString(s)
    case Array(items) => forall x :: x in items ==> AllPlain(x)
    case Object(members) => forall m :: m in members ==> PlainString(m.key) && AllPlain(m.value)
    case _ => true
  }

  /** At most d levels of arrays and objects. */
  ghost predicate NestedAtMost(v: Json, d: nat)
    decreases v
  {
    match v
    case Array(items) => d > 0 && forall x :: x in items ==> NestedAtMost(x, d - 1)
    case Object(members) => d > 0 && forall m :: m in members ==> NestedAtMost(m.value, d - 1)
    case _ => true
  }

  ghost predicate ItemsNested(items: seq<Json>, d: nat) {
    forall x :: x in items ==> NestedAtMost(x, d)
  }

  ghost predicate ItemsPlain(items: seq<Json>) {
    forall x :: x in items ==> AllPlain(x)
  }

  ghost predicate ItemsHeld(items: seq<Json>) {
    forall x :: x in items ==> Held(x)
  }

  ghost predicate MembersNested(members: seq<Member>, d: nat) {
    forall m :: m in members ==> NestedAtMost(m.value, d)
  }

  ghost predicate MembersPlain(members: seq<Member>) {
    forall m :: m in members ==> PlainString(m.key) && AllPlain(m.value)
  }

  ghost predicate MembersHeld(members: seq<Member>) {
    forall m :: m in members ==> CString(m.key) && Held(m.value)
  }

  lemma ItemsCons(v: Json, rest: seq<Json>, d: nat)
    ensures ItemsNested([v] + rest, d) == (NestedAtMost(v, d) && ItemsNested(rest, d))
    ensures ItemsPlain([v] + rest) == (AllPlain(v) && ItemsPlain(rest))
    ensures ItemsHeld([v] + rest) == (Held(v) && ItemsHeld(rest))
    ensures ItemsNested([], d) && ItemsPlain([])
  {
    hide NestedAtMost, AllPlain, Held;
    assert v in [v] + rest;
    assert forall x :: x in rest ==> x in [v] + rest;
  }

  lemma MembersCons(m: Member, rest: seq<Member>, d: nat)
    ensures MembersNested([m] + rest, d) == (NestedAtMost(m.value, d) && MembersNested(rest, d))
    ensures MembersPlain([m] + rest) == (PlainString(m.key) && AllPlain(m.value) && MembersPlain(rest))
    ensures MembersHeld([m] + rest) == (CString(m.key) && Held(m.value) && MembersHeld(rest))
    ensures MembersNested([], d) && MembersPlain([])
  {
    hide NestedAtMost, AllPlain, Held, PlainString, CString;
    assert m in [m] + rest;
    assert forall x :: x in rest ==> x in [m] + rest;
  }

  lemma ConsEqual<T>(a: T, x: seq<T>, b: T, y: seq<T>)
    ensures [a] + x == [b] + y <==> a == b && x == y
  {
    if [a] + x == [b] + y {
      assert ([a] + x)[0] == ([b] + y)[0];
      assert ([a] + x)[1..] == x && ([b] + y)[1..] == y;
    }
  }

  // ----- text at a position

  /** The buffer holds text t at position i, with something after it. */
  ghost predicate At(c: bytes, i: nat, t: bytes) {
    i + |t| < |c| && c[i..i + |t|] == t
  }

  lemma AtSplit(c: bytes, i: nat, a: bytes, b: bytes)
    requires At(c, i, a + b)
    ensures i + |a| < |c| && c[i..i + |a|] == a && At(c, i + |a|, b)
    ensures b != [] ==> At(c, i, a) && c[i + |a|] == b[0]
  {
    var t := c[i..i + |a + b|];
    assert t[..|a|] == a && t[|a|..] == b;
    assert c[i..i + |a|] == t[..|a|];
    assert c[i + |a|..i + |a| + |b|] == t[|a|..];
  }

  lemma AtFirst(c: bytes, i: nat, t: bytes)
    requires At(c, i, t) && |t| > 0
    ensures c[i] == t[0]
  {
    assert c[i..i + |t|][0] == c[i];
  }

  lemma NoBlanks(c: bytes, i: nat)
    requires i < |c| && c[i] > 32
    ensures Skip(c, i) == i
  {
  }

  // ----- strings

  lemma {:induction false} EscapeCons(b: byte, s: bytes)
    ensures Escape([b] + s) == EscapeByte(b) + Escape(s)
  {
    assert ([b] + s)[1..] == s;
  }

  /** The closing quote of a printed string is the one its scan finds. */
  lemma {:induction false} ScanEscaped(c: bytes, i: nat, s: bytes)
    requires At(c, i, Escape(s)) && c[i + |Escape(s)|] == QUOTE
    ensures StringEnd(c, i) == Ok((), i + |Escape(s)|)
    decreases s
  {
    hide EscapeByte;
    if s != [] {
      var e := EscapeByte(s[0]);
      AtSplit(c, i, e, Escape(s[1..]));
      ScanEscaped(c, i + |e|, s[1..]);
      ScanUnit(c, i, s[0]);
    }
  }

  lemma ScanUnit(c: bytes, i: nat, b: byte)
    requires i + |EscapeByte(b)| < |c| && c[i..i + |EscapeByte(b)|] == EscapeByte(b)
    ensures StringEnd(c, i) == StringEnd(c, i + |EscapeByte(b)|)
  {
    var e := EscapeByte(b);
    forall k | 0 <= k < |e|
      ensures c[i + k] == e[k]
    {
      assert c[i..i + |e|][k] == c[i + k];
    }
    if |e| == 5 {
      assert StringEnd(c, i) == StringEnd(c, i + 2);
      assert StringEnd(c, i + 2) == StringEnd(c, i + 3);
      assert StringEnd(c, i + 3) == StringEnd(c, i + 4);
    }
  }

  lemma UnitBytes(c: bytes, i: nat, e: bytes, k: nat)
    requires i + |e| <= |c| && c[i..i + |e|] == e && k < |e|
    ensures c[i + k] == e[k]
  {
    assert c[i..i + |e|][k] == c[i + k];
  }

  /** A faithful byte decodes to itself. */
  lemma DecodePlain(c: bytes, i: nat, end: nat, b: byte)
    requires Plain(b) && i + |EscapeByte(b)| <= end < |c| && c[i..i + |EscapeByte(b)|] == EscapeByte(b)
    ensures DecodeStep(c, i, end) == Ok([b], i + |EscapeByte(b)|)
  {
    var e := EscapeByte(b);
    UnitBytes(c, i, e, 0);
    if |e| == 2 { UnitBytes(c, i, e, 1); }
  }

  /** What any other control byte decodes to: nothing at the end of the string, else one byte below 32, and
      a zero byte unless the next string byte is printed as itself. */
  lemma DecodeOther(c: bytes, i: nat, end: nat, b: byte, rest: bytes)
    requires !Plain(b) && b != 0 && end < |c|
    requires At(c, i, EscapeByte(b) + Escape(rest)) && end == i + |EscapeByte(b)| + |Escape(rest)|
    ensures |EscapeByte(b)| == 5
    ensures rest == [] ==> DecodeStep(c, i, end) == Fail
    ensures rest != [] ==> exists d: byte :: d < 32 && DecodeStep(c, i, end) == Ok([d], i + 6) &&
                             (|EscapeByte(rest[0])| > 1 ==> d == 0)
  {
    hide Escape, StringEnd;
    var e := EscapeByte(b);
    AtSplit(c, i, e, Escape(rest));
    UnitBytes(c, i, e, 0);
    UnitBytes(c, i, e, 1);
    UnitBytes(c, i, e, 2);
    UnitBytes(c, i, e, 3);
    UnitBytes(c, i, e, 4);
    if rest != [] {
      EscapeCons(rest[0], rest[1..]);
      assert [rest[0]] + rest[1..] == rest;
      AtFirst(c, i + 5, Escape(rest));
      OtherCode(c, i, b);
      assert DecodeStep(c, i, end) == Ok([Hex4(c, i + 2)], i + 6);
    } else {
      assert Escape(rest) == [] by { EscapeNil(); }
    }
  }

  lemma EscapeNil()
    ensures Escape([]) == []
  {
  }

  lemma OtherCode(c: bytes, i: nat, b: byte)
    requires b < 32 && i + 6 <= |c|
    requires c[i + 2] == 48 && c[i + 3] == 48 && c[i + 4] == HexDigit(b / 16)
    ensures Hex4(c, i + 2) < 32
    ensures c[i + 5] == BACKSLASH ==> Hex4(c, i + 2) == 0
  {
    assert HexValue(HexDigit(b / 16)) == b / 16 < 2;
  }

  /** Faithful strings come back unchanged. */
  lemma {:induction false} DecodeEscaped(c: bytes, i: nat, s: bytes)
    requires PlainString(s) && At(c, i, Escape(s))
    ensures Decode(c, i, i + |Escape(s)|) == Ok(s, i + |Escape(s)|)
    decreases s
  {
    hide DecodeStep, EscapeByte, Plain;
    if s != [] {
      var e := EscapeByte(s[0]);
      AtSplit(c, i, e, Escape(s[1..]));
      DecodePlain(c, i, i + |Escape(s)|, s[0]);
      DecodeEscaped(c, i + |e|, s[1..]);
      assert [s[0]] + s[1..] == s;
    }
  }

  /** No string decodes to itself with one more byte of 32 or above in front. */
  lemma {:induction false} NeverShifted(c: bytes, i: nat, s: bytes, y: byte)
    requires CString(s) && y >= 32 && At(c, i, Escape(s))
    ensures var r := Decode(c, i, i + |Escape(s)|); r.Ok? ==> r.value != [y] + s
    decreases s
  {
    hide DecodeStep, EscapeByte, Plain;
    var end := i + |Escape(s)|;
    if s != [] {
      var e, rest := EscapeByte(s[0]), s[1..];
      AtSplit(c, i, e, Escape(rest));
      if Plain(s[0]) {
        DecodePlain(c, i, end, s[0]);
        NeverShifted(c, i + |e|, rest, y);
        var r := Decode(c, i + |e|, end);
        if r.Ok? {
          assert s == [s[0]] + rest;
          ShiftedEqual(s[0], r.value, y, rest);
        }
      } else {
        DecodeOther(c, i, end, s[0], rest);
        FirstDecoded(c, i, end);
        assert ([y] + s)[0] == y;
      }
    }
  }

  lemma ShiftedEqual(a: byte, v: bytes, y: byte, rest: bytes)
    ensures [a] + v == [y] + ([a] + rest) ==> v == [y] + rest
  {
    if [a] + v == [y] + ([a] + rest) {
      assert ([a] + v)[0] == ([y] + ([a] + rest))[0];
      assert ([a] + v)[1..] == ([y] + ([a] + rest))[1..];
    }
  }

  /** The first step's bytes come first. */
  lemma FirstDecoded(c: bytes, i: nat, end: nat)
    requires i < end < |c|
    ensures var r, st := Decode(c, i, end), DecodeStep(c, i, end);
            r.Ok? ==> st.Ok? && st.value <= r.value
  {
  }

  /** Any other string comes back changed, or not at all. */
  lemma {:induction false} DecodeChanged(c: bytes, i: nat, s: bytes)
    requires CString(s) && !PlainString(s) && At(c, i, Escape(s))
    ensures var r := Decode(c, i, i + |Escape(s)|); r.Ok? ==> r.value != s
    decreases s
  {
    hide DecodeStep, EscapeByte;
    var end := i + |Escape(s)|;
    var e, rest := EscapeByte(s[0]), s[1..];
    AtSplit(c, i, e, Escape(rest));
    if Plain(s[0]) {
      DecodePlain(c, i, end, s[0]);
      DecodeChanged(c, i + |e|, rest);
      var r := Decode(c, i + |e|, end);
      if r.Ok? {
        assert ([s[0]] + r.value)[1..] == r.value;
      }
    } else {
      DecodeOther(c, i, end, s[0], rest);
      FirstDecoded(c, i, end);
      if rest != [] && |EscapeByte(rest[0])| == 1 {
        OneByteUnit(c, i + 5, rest);
        NeverShifted(c, i + 6, rest[1..], rest[0]);
        var r := Decode(c, i + 6, end);
        if r.Ok? {
          var d := DecodeStep(c, i, end).value;
          assert |d| == 1 && (d + r.value)[1..] == r.value;
          assert [rest[0]] + rest[1..] == rest;
        }
      }
    }
  }

  lemma OneByteUnit(c: bytes, i: nat, s: bytes)
    requires s != [] && |EscapeByte(s[0])| == 1 && At(c, i, Escape(s))
    ensures At(c, i + 1, Escape(s[1..])) && i + |Escape(s)| == i + 1 + |Escape(s[1..])| && s[0] >= 32
  {
    AtSplit(c, i, EscapeByte(s[0]), Escape(s[1..]));
  }

  /** A printed string is read back to its end; it is the same string exactly when it is a faithful one. */
  lemma StringRoundTrip(c: bytes, i: nat, s: bytes)
    requires CString(s) && At(c, i, PrintString(s))
    ensures var r := ParseString(c, i);
            && (PlainString(s) ==> r == Ok(s, i + |PrintString(s)|))
            && (r.Ok? ==> r.offset == i + |PrintString(s)|)
            && (!PlainString(s) && r.Ok? ==> r.value != s)
  {
    hide Decode, StringEnd, Escape;
    assert PrintString(s) == [QUOTE] + (Escape(s) + [QUOTE]);
    AtSplit(c, i, [QUOTE], Escape(s) + [QUOTE]);
    AtFirst(c, i, PrintString(s));
    AtSplit(c, i + 1, Escape(s), [QUOTE]);
    ScanEscaped(c, i + 1, s);
    if PlainString(s) {
      DecodeEscaped(c, i + 1, s);
    } else {
      DecodeChanged(c, i + 1, s);
    }
  }

  // ----- numbers

  lemma {:induction false} EndOfDigits(t: bytes, i: nat, d: bytes)
    requires i + |d| <= |t| && t[i..i + |d|] == d && forall k :: 0 <= k < |d| ==> Digit(d[k])
    requires i + |d| == |t| || !Digit(t[i + |d|])
    ensures DigitsEnd(t, i) == i + |d|
    decreases d
  {
    if d != [] {
      UnitBytes(t, i, d, 0);
      assert t[i + 1..i + |d|] == d[1..];
      EndOfDigits(t, i + 1, d[1..]);
    }
  }

  lemma DigitsValueStep(t: bytes, i: nat, acc: nat)
    requires i < |t| && Digit(t[i])
    ensures DigitsValue(t, i, acc) == DigitsValue(t, i + 1, 10 * acc + (t[i] - 48))
  {
  }

  /** Reading the digits of n leaves n in the accumulator. */
  lemma {:induction false} DigitsRead(t: bytes, i: nat, n: nat)
    requires i + |Digits(n)| <= |t| && t[i..i + |Digits(n)|] == Digits(n)
    ensures DigitsValue(t, i, 0) == DigitsValue(t, i + |Digits(n)|, n)
    decreases n
  {
    hide DigitsEnd, DigitsValue;
    var d := Digits(n);
    UnitBytes(t, i, d, |d| - 1);
    DigitsValueStep(t, i + |d| - 1, n / 10);
    DigitsValueStep(t, i, 0);
    if n >= 10 {
      assert t[i..i + |d| - 1] == d[..|d| - 1] == Digits(n / 10);
      DigitsRead(t, i, n / 10);
    }
  }

  lemma StrtodOfInt(n: int)
    requires INT_MIN <= n <= INT_MAX
    ensures Strtod(IntText(n)) == Ok(n, |IntText(n)|)
  {
    var t := IntText(n);
    var i := if n < 0 then 1 else 0;
    var d := Digits(if n < 0 then -n else n);
    assert t[i..i + |d|] == d;
    EndOfDigits(t, i, d);
    DigitsRead(t, i, if n < 0 then -n else n);
    if n >= 0 { assert Digit(t[0]); }
  }

  lemma {:induction false} EndOfNumber(c: bytes, i: nat, t: bytes)
    requires i + |t| <= |c| && c[i..i + |t|] == t && forall k :: 0 <= k < |t| ==> NumberByte(t[k])
    requires i + |t| == |c| || !NumberByte(c[i + |t|])
    ensures NumberEnd(c, i) == i + |t|
    decreases t
  {
    if t != [] {
      UnitBytes(c, i, t, 0);
      assert c[i + 1..i + |t|] == t[1..];
      EndOfNumber(c, i + 1, t[1..]);
    }
  }

  lemma NumberRoundTrip(c: bytes, i: nat, n: int)
    requires INT_MIN <= n <= INT_MAX && At(c, i, IntText(n)) && !NumberByte(c[i + |IntText(n)|])
    ensures ParseNumber(c, i) == Ok(Number(n), i + |IntText(n)|)
  {
    hide Strtod, DigitsEnd, DigitsValue;
    EndOfNumber(c, i, IntText(n));
    StrtodOfInt(n);
  }

  // ----- values

  lemma FirstByte(v: Json)
    ensures Print(v) != [] && Print(v)[0] > 32
    ensures match v
            case Null => Print(v)[0] == 110
            case False => Print(v)[0] == 102
            case True => Print(v)[0] == 116
            case Number(n) => Print(v)[0] == MINUS || Digit(Print(v)[0])
            case String(s) => Print(v)[0] == QUOTE
            case Array(items) => Print(v)[0] == OPEN_BRACKET
            case Object(members) => Print(v)[0] == OPEN_BRACE
  {
  }

  /** The first byte decides what is parsed. */
  lemma Dispatch(c: bytes, i: nat, depth: nat)
    requires Buffer(c) && i < |c|
    ensures c[i] == QUOTE ==>
              (var r := ParseString(c, i); Parse(c, i, depth) == if r.Ok? then Ok(String(r.value), r.offset) else Fail)
    ensures c[i] == MINUS || Digit(c[i]) ==> Parse(c, i, depth) == ParseNumber(c, i)
    ensures c[i] == OPEN_BRACKET ==> Parse(c, i, depth) == ParseArray(c, i, depth)
    ensures c[i] == OPEN_BRACE ==> Parse(c, i, depth) == ParseObject(c, i, depth)
  {
    hide ParseString, ParseNumber, ParseArray, ParseObject;
    if StartsWith(c, i, NULL_TEXT) { UnitBytes(c, i, NULL_TEXT, 0); }
    if StartsWith(c, i, FALSE_TEXT) { UnitBytes(c, i, FALSE_TEXT, 0); }
    if StartsWith(c, i, TRUE_TEXT) { UnitBytes(c, i, TRUE_TEXT, 0); }
  }

  lemma Words(c: bytes, i: nat, v: Json, depth: nat)
    requires Buffer(c) && (v.Null? || v.False? || v.True?) && At(c, i, Print(v))
    ensures Parse(c, i, depth) == Ok(v, i + |Print(v)|)
  {
    hide ParseString, ParseNumber, ParseArray, ParseObject;
    UnitBytes(c, i, Print(v), 0);
    if StartsWith(c, i, NULL_TEXT) { UnitBytes(c, i, NULL_TEXT, 0); }
    if StartsWith(c, i, FALSE_TEXT) { UnitBytes(c, i, FALSE_TEXT, 0); }
  }

  /**
   What a parse result r says about reading back the printed form of `x`, which
   ends at `end`: it succeeds with x when `good`, and otherwise, if it succeeds
   at all, it reads to the same place but not the same value.
   */
  ghost predicate ReadsBack<T>(r: Parsed<T>, x: T, end: nat, good: bool, plain: bool) {
    && !r.Unmodelled?
    && (good && plain ==> r == Ok(x, end))
    && (r.Ok? ==> r.offset == end)
    && (r.Ok? && !plain ==> r.value != x)
  }

  function AsArray(r: Parsed<seq<Json>>): Parsed<Json> {
    match r
    case Ok(items, next) => Ok(Array(items), next)
    case Unmodelled => Unmodelled
    case Fail => Fail
  }

  function AsObject(r: Parsed<seq<Member>>): Parsed<Json> {
    match r
    case Ok(members, next) => Ok(Object(members), next)
    case Unmodelled => Unmodelled
    case Fail => Fail
  }

  lemma {:induction false} ValueRoundTrip(c: bytes, i: nat, v: Json, depth: nat)
    requires Buffer(c) && Held(v) && depth <= MAX_DEPTH
    requires At(c, i, Print(v)) && !NumberByte(c[i + |Print(v)|])
    ensures ReadsBack(Parse(c, i, depth), v, i + |Print(v)|, NestedAtMost(v, MAX_DEPTH - depth), AllPlain(v))
    decreases v, 1
  {
    hide Parse, ParseString, ParseNumber, ParseItems, ParseMembers;
    FirstByte(v);
    AtFirst(c, i, Print(v));
    Dispatch(c, i, depth);
    match v
    case Number(n) => NumberRoundTrip(c, i, n);
    case String(s) => StringRoundTrip(c, i, s);
    case Array(items) => ArrayRoundTrip(c, i, items, depth);
    case Object(members) => ObjectRoundTrip(c, i, members, depth);
    case _ => Words(c, i, v, depth);
  }

  lemma {:induction false} ArrayRoundTrip(c: bytes, i: nat, items: seq<Json>, depth: nat)
    requires Buffer(c) && Held(Array(items)) && depth <= MAX_DEPTH && At(c, i, Print(Array(items)))
    requires c[i] == OPEN_BRACKET
    ensures ReadsBack(ParseArray(c, i, depth), Array(items), i + |Print(Array(items))|,
                      NestedAtMost(Array(items), MAX_DEPTH - depth), AllPlain(Array(items)))
    decreases items, 2
  {
    hide Parse, ParseItems;
    var body := PrintItems(items) + [CLOSE_BRACKET];
    assert Print(Array(items)) == [OPEN_BRACKET] + body;
    AtSplit(c, i, [OPEN_BRACKET], body);
    AtFirst(c, i + 1, body);
    if items != [] {
      FirstByte(items[0]);
      assert body[0] == Print(items[0])[0];
      NoBlanks(c, i + 1);
      if depth < MAX_DEPTH { ItemsRoundTrip(c, i + 1, items, depth + 1); }
    } else {
      NoBlanks(c, i + 1);
    }
  }

  /** The printed items after the first one, up to the closing bracket. */
  ghost function ItemsTail(items: seq<Json>): bytes
    requires items != []
  {
    if |items| == 1 then [CLOSE_BRACKET] else [COMMA] + (PrintItems(items[1..]) + [CLOSE_BRACKET])
  }

  lemma ItemsText(items: seq<Json>)
    requires items != []
    ensures PrintItems(items) + [CLOSE_BRACKET] == Print(items[0]) + ItemsTail(items)
  {
    hide Print;
  }

  ghost function MembersTail(members: seq<Member>): bytes
    requires members != []
  {
    if |members| == 1 then [CLOSE_BRACE] else [COMMA] + (PrintMembers(members[1..]) + [CLOSE_BRACE])
  }

  lemma MembersText(members: seq<Member>)
    requires members != []
    ensures PrintMembers(members) + [CLOSE_BRACE] == PrintMember(members[0]) + MembersTail(members)
    ensures PrintMember(members[0]) != [] && PrintMember(members[0])[0] == QUOTE
  {
    hide Print;
  }

  lemma ObjectText(members: seq<Member>)
    ensures Print(Object(members)) == [OPEN_BRACE] + (PrintMembers(members) + [CLOSE_BRACE])
  {
  }

  lemma StringText(s: bytes)
    ensures PrintString(s) != [] && PrintString(s)[0] == QUOTE
  {
  }

  lemma {:induction false} ItemsRoundTrip(c: bytes, i: nat, items: seq<Json>, depth: nat)
    requires Buffer(c) && items != [] && ItemsHeld(items) && depth <= MAX_DEPTH
    requires At(c, i, PrintItems(items) + [CLOSE_BRACKET])
    ensures ReadsBack(AsArray(ParseItems(c, i, depth)), Array(items), i + |PrintItems(items)| + 1,
                      ItemsNested(items, MAX_DEPTH - depth), ItemsPlain(items))
    decreases items, 0
  {
    hide *;
    var v, rest := items[0], items[1..];
    assert items == [v] + rest;
    ItemsCons(v, rest, MAX_DEPTH - depth);
    var k := ItemsSplit(c, i, items);
    ValueRoundTrip(c, i, v, depth);
    if rest != [] { ItemsRoundTrip(c, k + 1, rest, depth); }
    CombineItems(c, i, depth, v, rest, k, i + |PrintItems(items)| + 1,
                 NestedAtMost(v, MAX_DEPTH - depth), AllPlain(v),
                 ItemsNested(rest, MAX_DEPTH - depth), ItemsPlain(rest));
  }

  /** Where the first item's text ends, and what follows it. */
  lemma ItemsSplit(c: bytes, i: nat, items: seq<Json>) returns (k: nat)
    requires items != [] && At(c, i, PrintItems(items) + [CLOSE_BRACKET])
    ensures k == i + |Print(items[0])| && i < k < |c| && Skip(c, i) == i && Skip(c, k) == k
    ensures At(c, i, Print(items[0])) && !NumberByte(c[k])
    ensures |items| == 1 ==> c[k] == CLOSE_BRACKET && i + |PrintItems(items)| + 1 == k + 1
    ensures |items| > 1 ==> c[k] == COMMA && k + 1 < |c| && At(c, k + 1, PrintItems(items[1..]) + [CLOSE_BRACKET])
    ensures |items| > 1 ==> i + |PrintItems(items)| + 1 == k + 1 + |PrintItems(items[1..])| + 1
  {
    hide Print, PrintItems;
    var tail := ItemsTail(items);
    ItemsText(items);
    assert |PrintItems(items) + [CLOSE_BRACKET]| == |Print(items[0]) + tail|;
    AtSplit(c, i, Print(items[0]), tail);
    FirstByte(items[0]);
    AtFirst(c, i, Print(items[0]));
    NoBlanks(c, i);
    k := i + |Print(items[0])|;
    NoBlanks(c, k);
    if |items| > 1 { AtSplit(c, k, [COMMA], PrintItems(items[1..]) + [CLOSE_BRACKET]); }
  }

  lemma CombineItems(c: bytes, i: nat, depth: nat, v: Json, rest: seq<Json>, k: nat, end: nat,
                     good1: bool, plain1: bool, good2: bool, plain2: bool)
    requires Buffer(c) && i < |c| && Skip(c, i) == i && k < |c| && Skip(c, k) == k
    requires ReadsBack(Parse(c, i, depth), v, k, good1, plain1)
    requires rest == [] ==> c[k] == CLOSE_BRACKET && end == k + 1 && good2 && plain2
    requires rest != [] ==> c[k] == COMMA && k + 1 < |c| &&
                            ReadsBack(AsArray(ParseItems(c, k + 1, depth)), Array(rest), end, good2, plain2)
    ensures ReadsBack(AsArray(ParseItems(c, i, depth)), Array([v] + rest), end, good1 && good2, plain1 && plain2)
  {
    hide Parse, Skip;
    var first := Parse(c, i, depth);
    if first.Ok? {
      assert [first.value] + [] == [first.value];
      ConsEqual(first.value, [], v, rest);
      if rest != [] {
        var more := ParseItems(c, k + 1, depth);
        if more.Ok? { ConsEqual(first.value, more.value, v, rest); }
      }
    }
  }

  lemma {:induction false} ObjectRoundTrip(c: bytes, i: nat, members: seq<Member>, depth: nat)
    requires Buffer(c) && Held(Object(members)) && depth <= MAX_DEPTH && At(c, i, Print(Object(members)))
    requires c[i] == OPEN_BRACE
    ensures ReadsBack(ParseObject(c, i, depth), Object(members), i + |Print(Object(members))|,
                      NestedAtMost(Object(members), MAX_DEPTH - depth), AllPlain(Object(members)))
    decreases members, 2
  {
    hide ParseMembers, ParseMember, PrintMember, Print, PrintString, Skip, CString, PlainString, SkipBlanks;
    var body := PrintMembers(members) + [CLOSE_BRACE];
    ObjectText(members);
    AtSplit(c, i, [OPEN_BRACE], body);
    AtFirst(c, i + 1, body);
    if members != [] { MembersText(members); }
    assert body[0] == QUOTE || body[0] == CLOSE_BRACE;
    NoBlanks(c, i + 1);
    if members != [] {
      if depth < MAX_DEPTH { MembersRoundTrip(c, i + 1, members, depth + 1); }
    }
  }

  lemma {:induction false} MembersRoundTrip(c: bytes, i: nat, members: seq<Member>, depth: nat)
    requires Buffer(c) && members != [] && MembersHeld(members) && depth <= MAX_DEPTH
    requires At(c, i, PrintMembers(members) + [CLOSE_BRACE])
    ensures ReadsBack(AsObject(ParseMembers(c, i, depth)), Object(members), i + |PrintMembers(members)| + 1,
                      MembersNested(members, MAX_DEPTH - depth), MembersPlain(members))
    decreases members, 0
  {
    hide *;
    var m, rest := members[0], members[1..];
    MembersText(members);
    assert members == [m] + rest;
    MembersCons(m, rest, MAX_DEPTH - depth);
    var k := MembersSplit(c, i, members);
    MemberRoundTrip(c, i, m, depth);
    if rest != [] { MembersRoundTrip(c, k + 1, rest, depth); }
    CombineMembers(c, i, depth, m, rest, k, i + |PrintMembers(members)| + 1,
                   NestedAtMost(m.value, MAX_DEPTH - depth), PlainString(m.key) && AllPlain(m.value),
                   MembersNested(rest, MAX_DEPTH - depth), MembersPlain(rest));
  }

  /** Where the first member's text ends, and what follows it. */
  lemma MembersSplit(c: bytes, i: nat, members: seq<Member>) returns (k: nat)
    requires members != [] && At(c, i, PrintMembers(members) + [CLOSE_BRACE])
    ensures k == i + |PrintMember(members[0])| && i < k < |c| && Skip(c, k) == k
    ensures At(c, i, PrintMember(members[0])) && !NumberByte(c[k])
    ensures |members| == 1 ==> c[k] == CLOSE_BRACE && i + |PrintMembers(members)| + 1 == k + 1
    ensures |members| > 1 ==> c[k] == COMMA && k + 1 < |c| && At(c, k + 1, PrintMembers(members[1..]) + [CLOSE_BRACE])
    ensures |members| > 1 ==> i + |PrintMembers(members)| + 1 == k + 1 + |PrintMembers(members[1..])| + 1
  {
    hide PrintMember, PrintMembers;
    var tail := MembersTail(members);
    MembersText(members);
    assert |PrintMembers(members) + [CLOSE_BRACE]| == |PrintMember(members[0]) + tail|;
    AtSplit(c, i, PrintMember(members[0]), tail);
    k := i + |PrintMember(members[0])|;
    NoBlanks(c, k);
    if |members| > 1 { AtSplit(c, k, [COMMA], PrintMembers(members[1..]) + [CLOSE_BRACE]); }
  }

  lemma CombineMembers(c: bytes, i: nat, depth: nat, m: Member, rest: seq<Member>, k: nat, end: nat,
                       good1: bool, plain1: bool, good2: bool, plain2: bool)
    requires Buffer(c) && i < |c| && k < |c| && Skip(c, k) == k
    requires ReadsBack(ParseMember(c, i, depth), m, k, good1, plain1)
    requires rest == [] ==> c[k] == CLOSE_BRACE && end == k + 1 && good2 && plain2
    requires rest != [] ==> c[k] == COMMA && k + 1 < |c| &&
                            ReadsBack(AsObject(ParseMembers(c, k + 1, depth)), Object(rest), end, good2, plain2)
    ensures ReadsBack(AsObject(ParseMembers(c, i, depth)), Object([m] + rest), end, good1 && good2, plain1 && plain2)
  {
    hide ParseMember, Skip;
    var first := ParseMember(c, i, depth);
    if first.Ok? {
      assert [first.value] + [] == [first.value];
      ConsEqual(first.value, [], m, rest);
      if rest != [] {
        var more := ParseMembers(c, k + 1, depth);
        if more.Ok? { ConsEqual(first.value, more.value, m, rest); }
      }
    }
  }

  lemma {:induction false} MemberRoundTrip(c: bytes, i: nat, m: Member, depth: nat)
    requires Buffer(c) && CString(m.key) && Held(m.value) && depth <= MAX_DEPTH
    requires At(c, i, PrintMember(m)) && !NumberByte(c[i + |PrintMember(m)|])
    ensures ReadsBack(ParseMember(c, i, depth), m, i + |PrintMember(m)|,
                      NestedAtMost(m.value, MAX_DEPTH - depth), PlainString(m.key) && AllPlain(m.value))
    decreases m, 2
  {
    hide Parse, ParseString, NestedAtMost, AllPlain, Held, Skip, Print, PrintString, CString, PlainString;
    var tail := [COLON] + Print(m.value);
    StringText(m.key);
    assert PrintMember(m) == PrintString(m.key) + tail;
    AtSplit(c, i, PrintString(m.key), tail);
    AtFirst(c, i, PrintString(m.key));
    NoBlanks(c, i);
    StringRoundTrip(c, i, m.key);
    var k := i + |PrintString(m.key)|;
    NoBlanks(c, k);
    AtSplit(c, k, [COLON], Print(m.value));
    FirstByte(m.value);
    AtFirst(c, k + 1, Print(m.value));
    NoBlanks(c, k + 1);
    ValueRoundTrip(c, k + 1, m.value, depth);
  }

  // ----- nesting

  /** The parser never returns a value nested deeper than its limit. */
  lemma {:induction false} ParseNested(c: bytes, i: nat, depth: nat)
    requires Buffer(c) && i < |c| && depth <= MAX_DEPTH
    ensures var r := Parse(c, i, depth); r.Ok? ==> NestedAtMost(r.value, MAX_DEPTH - depth)
    decreases |c| - i, 2
  {
    hide ParseString, ParseNumber, ParseItems, ParseMembers;
    if c[i] == OPEN_BRACKET && depth < MAX_DEPTH {
      var j := Skip(c, i + 1);
      ItemsParsedNested(c, j, depth + 1);
    } else if c[i] == OPEN_BRACE && depth < MAX_DEPTH {
      var j := Skip(c, i + 1);
      MembersParsedNested(c, j, depth + 1);
    } else {
      NumbersAreFlat(c, i);
    }
  }

  lemma NumbersAreFlat(c: bytes, i: nat)
    requires i < |c|
    ensures ParseNumber(c, i).Ok? ==> ParseNumber(c, i).value.Number?
  {
  }

  lemma {:induction false} ItemsParsedNested(c: bytes, i: nat, depth: nat)
    requires Buffer(c) && i < |c| && depth <= MAX_DEPTH
    ensures var r := ParseItems(c, i, depth); r.Ok? ==> ItemsNested(r.value, MAX_DEPTH - depth)
    decreases |c| - i, 3
  {
    hide Parse, NestedAtMost;
    ParseNested(c, Skip(c, i), depth);
    var r := Parse(c, Skip(c, i), depth);
    if r.Ok? {
      var k := Skip(c, r.offset);
      if c[k] == COMMA {
        ItemsParsedNested(c, k + 1, depth);
        var more := ParseItems(c, k + 1, depth);
        if more.Ok? { ItemsCons(r.value, more.value, MAX_DEPTH - depth); }
      }
    }
  }

  lemma {:induction false} MembersParsedNested(c: bytes, i: nat, depth: nat)
    requires Buffer(c) && i < |c| && depth <= MAX_DEPTH
    ensures var r := ParseMembers(c, i, depth); r.Ok? ==> MembersNested(r.value, MAX_DEPTH - depth)
    decreases |c| - i, 4
  {
    hide ParseMember, NestedAtMost;
    MemberParsedNested(c, i, depth);
    var r := ParseMember(c, i, depth);
    if r.Ok? {
      var k := Skip(c, r.offset);
      if c[k] == COMMA {
        MembersParsedNested(c, k + 1, depth);
        var more := ParseMembers(c, k + 1, depth);
        if more.Ok? { MembersCons(r.value, more.value, MAX_DEPTH - depth); }
      }
    }
  }

  lemma {:induction false} MemberParsedNested(c: bytes, i: nat, depth: nat)
    requires Buffer(c) && i < |c| && depth <= MAX_DEPTH
    ensures var r := ParseMember(c, i, depth); r.Ok? ==> NestedAtMost(r.value.value, MAX_DEPTH - depth)
    decreases |c| - i, 3
  {
    hide Parse, ParseString, NestedAtMost;
    var key := ParseString(c, Skip(c, i));
    if key.Ok? && key.offset < |c| {
      var k := Skip(c, key.offset);
      if c[k] == COLON { ParseNested(c, Skip(c, k + 1), depth); }
    }
  }

  // ----- the theorem

  /**
   Parsing what was printed: the text is read to its end or refused, and it
   gives back the value exactly when all strings and keys are faithful and
   arrays and objects nest at most 1000 deep.
   */
  lemma PrintThenParse(v: Json)
    requires Held(v)
    ensures ParseText(Print(v)) == Ok(v, |Print(v)|) <==> AllPlain(v) && NestedAtMost(v, MAX_DEPTH)
    ensures !ParseText(Print(v)).Unmodelled?
    ensures ParseText(Print(v)).Ok? ==> ParseText(Print(v)).offset == |Print(v)|
  {
    hide Parse, Print, Held, AllPlain, NestedAtMost, NumberByte;
    var c := Print(v) + [0];
    FirstByte(v);
    assert c[0..0 + |Print(v)|] == Print(v);
    NoBlanks(c, 0);
    assert !NumberByte(0) by { ZeroIsNoNumberByte(); }
    ValueRoundTrip(c, 0, v, 0);
    ParseNested(c, 0, 0);
  }

  lemma ZeroIsNoNumberByte()
    ensures !NumberByte(0)
  {
  }

  /** The smallest string that does not survive: one byte of value 1 is printed as \u000. */
  lemma ControlByteLost()
    ensures Held(String([1])) && ParseText(Print(String([1]))) != Ok(String([1]), |Print(String([1]))|)
  {
    assert !Plain([1][0]);
    PrintThenParse(String([1]));
  }
}
