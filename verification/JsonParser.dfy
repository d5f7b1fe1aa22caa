/**
 The recursive-descent parser over its buffer of content, offset and depth, and
 the string decoder with the allocation it computes beforehand.
 */
module JsonParser {
  import opened Bits
  import opened Common
  import opened JsonText
  import opened JsonTree

  /** What a parsing method reports: success, failure, or a number that is not modelled. */
  datatype Status = Parsed | Refused | Beyond

  ghost function StatusOf<T>(r: Parsed<T>): Status {
    match r
    case Ok(_, _) => Status.Parsed
    case Fail => Refused
    case Unmodelled => Beyond
  }

  // ----- UTF-8 by masks and shifts

  lemma AndStep(x: nat, y: nat)
    ensures And(x, y) == (if x % 2 == 1 && y % 2 == 1 then 1 else 0) + 2 * And(x / 2, y / 2)
  {
    if x == 0 { assert And(0, y / 2) == 0; }
  }

  lemma OrStep(x: nat, y: nat)
    ensures Or(x, y) == (if x % 2 == 1 || y % 2 == 1 then 1 else 0) + 2 * Or(x / 2, y / 2)
  {
    if x == 0 && y == 0 { assert Or(0, 0) == 0; }
  }

  /** One bit of `(x | 2a) & (2b + 1)`. */
  lemma PeelBit(x: nat, a: nat, b: nat)
    ensures And(Or(x, 2 * a), 2 * b + 1) == x % 2 + 2 * And(Or(x / 2, a), b)
  {
    hide And, Or;
    OrStep(x, 2 * a);
    AndStep(Or(x, 2 * a), 2 * b + 1);
  }

  lemma TopBits(x: nat)
    ensures And(Or(x, 2), 2) == 2
  {
    hide And, Or;
    OrStep(x, 2);
    AndStep(Or(x, 2), 2);
    OrStep(x / 2, 1);
    AndStep(Or(x / 2, 1), 1);
    AndZero(Or(x / 2, 1) / 2);
  }

  /** Setting bit n + 1, clearing bit n and keeping the n bits below. */
  lemma {:induction false} PeelBits(x: nat, n: nat)
    ensures And(Or(x, Pow2(n + 1)), Pow2(n + 1) + Pow2(n) - 1) == Pow2(n + 1) + Low(x, n)
  {
    hide And, Or;
    if n == 0 {
      assert Pow2(1) == 2;
      TopBits(x);
    } else {
      PeelBit(x, Pow2(n), Pow2(n) + Pow2(n - 1) - 1);
      PeelBits(x / 2, n - 1);
    }
  }

  /** `(cp | 0x80) & 0xBF`: the six low bits behind the mark of a continuation byte. */
  lemma Continuation(cp: nat)
    ensures And(Or(cp, 0x80), 0xBF) == 0x80 + cp % 64
  {
    hide And, Or, Low;
    assert Pow2(6) == 64 && Pow2(7) == 128;
    PeelBits(cp, 6);
    LowBound(cp, 6);
    SplitAt(cp, 6);
    ShlIsTimes(Shr(cp, 6), 6);
  }

  /** `(cp | mark) & 0xFF` for the lead bytes of two, three and four byte forms. */
  lemma Lead(cp: nat, len: nat)
    requires (len == 2 && cp < 32) || (len == 3 && cp < 16) || (len == 4 && cp < 8)
    ensures And(Or(cp, LeadMark(len)), 0xFF) == LeadMark(len) + cp
  {
    hide And, Or;
    var n := 7 - len;
    assert Pow2(5) == 32 && Pow2(4) == 16 && Pow2(3) == 8;
    var high := if len == 2 then 6 else if len == 3 then 14 else 30;
    ShlIsTimes(high, n);
    OrDisjoint(cp, high, n);
    assert Pow2(8) == 256;
    AndMask(LeadMark(len) + cp, 8);
    LowSmall(LeadMark(len) + cp, 8);
  }

  function LeadMark(len: nat): byte {
    if len == 2 then 0xC0 else if len == 3 then 0xE0 else if len == 4 then 0xF0 else 0
  }

  lemma OneByteForm(cp: nat)
    requires cp < 0x80
    ensures And(cp, 0x7F) == cp
  {
    assert Pow2(7) == 0x80;
    AndMask(cp, 7);
    LowSmall(cp, 7);
  }

  // ----- the buffer

  class ParseBuffer {
    const content: bytes
    var offset: nat
    var depth: nat

    constructor (text: bytes)
      ensures content == text + [0] && offset == 0 && depth == 0 && Valid()
    {
      content := text + [0];
      offset, depth := 0, 0;
    }

    ghost predicate Valid()
      reads this
    {
      Buffer(content) && offset < |content|
    }

    method SkipWhitespace()
      requires Valid()
      modifies `offset
      ensures Valid() && offset == Skip(content, old(offset))
    {
      while offset < |content| && content[offset] <= 32
        invariant offset <= |content| && SkipBlanks(content, offset) == SkipBlanks(content, old(offset))
      {
        offset := offset + 1;
      }
      if offset == |content| { offset := offset - 1; }
    }

    // ----- strings

    static method ParseHex4(c: bytes, i: nat) returns (h: nat)
      requires i + 4 <= |c|
      ensures h == Hex4(c, i)
    {
      h := 0;
      for k := 0 to 4
        invariant k == 0 ==> h == 0
        invariant k == 1 ==> HexValue(c[i]) < 16 && h == 16 * HexValue(c[i])
        invariant k == 2 ==> HexValue(c[i]) < 16 && HexValue(c[i + 1]) < 16 &&
                             h == 256 * HexValue(c[i]) + 16 * HexValue(c[i + 1])
        invariant k == 3 ==> HexValue(c[i]) < 16 && HexValue(c[i + 1]) < 16 && HexValue(c[i + 2]) < 16 &&
                             h == 4096 * HexValue(c[i]) + 256 * HexValue(c[i + 1]) + 16 * HexValue(c[i + 2])
        invariant k == 4 ==> HexValue(c[i]) < 16 && HexValue(c[i + 1]) < 16 && HexValue(c[i + 2]) < 16 &&
                             HexValue(c[i + 3]) < 16 &&
                             h == 4096 * HexValue(c[i]) + 256 * HexValue(c[i + 1]) + 16 * HexValue(c[i + 2]) +
                               HexValue(c[i + 3])
      {
        var b := c[i + k];
        if 48 <= b <= 57 { h := h + (b - 48); }
        else if 65 <= b <= 70 { h := h + 10 + b - 65; }
        else if 97 <= b <= 102 { h := h + 10 + b - 97; }
        else { return 0; }
        if k < 3 { h := h * 16; }
      }
    }

    /** Writes the UTF-8 form of cp, last byte first. */
    static method PutUtf8(cp: nat, output: array<byte>, at: nat) returns (len: nat)
      requires cp <= 0x10FFFF && at + |Utf8(cp)| <= output.Length
      modifies output
      ensures len == |Utf8(cp)| && output[..at + len] == old(output[..at]) + Utf8(cp)
    {
      hide And, Or;
      var x := cp;
      if x < 0x80 { len := 1; }
      else if x < 0x800 { len := 2; }
      else if x < 0x10000 { len := 3; }
      else { len := 4; }
      var pos := len - 1;
      while pos > 0
        invariant 0 <= pos < len
        invariant output[..at] == old(output[..at])
        invariant x == if pos == len - 1 then cp else if pos == len - 2 then cp / 64
            else if pos == len - 3 then cp / 64 / 64 else cp / 64 / 64 / 64
        invariant forall k :: pos < k < len ==> output[at + k] == Utf8(cp)[k]
      {
        Continuation(x);
        output[at + pos] := And(Or(x, 0x80), 0xBF);
        x := x / 64;
        pos := pos - 1;
      }
      if len > 1 {
        Lead(x, len);
        output[at] := And(Or(x, LeadMark(len)), 0xFF);
      } else {
        OneByteForm(x);
        output[at] := And(x, 0x7F);
      }
      ghost var written := output[at..at + len];
      assert written[0] == Utf8(cp)[0];
      forall k | 0 <= k < len
        ensures written[k] == Utf8(cp)[k]
      {
        assert written[k] == output[at + k];
      }
      assert written == Utf8(cp);
      assert output[..at + len] == output[..at] + output[at..at + len];
    }

    static method Utf16LiteralToUtf8(c: bytes, input: nat, end: nat, output: array<byte>, at: nat)
      returns (consumed: nat, len: nat)
      requires input < end < |c| && at <= output.Length
      requires var r := UnicodeEscape(c, input, end); r.Ok? ==> at + |r.value| <= output.Length
      modifies output
      ensures var r := UnicodeEscape(c, input, end);
              if r.Ok? then consumed == r.offset - input && len == |r.value| && at + len <= output.Length &&
                            output[..at + len] == old(output[..at]) + r.value
              else consumed == 0
    {
      hide And, Or, Shl, Hex4, Utf8;
      len := 0;
      if end - input < 6 { return 0, 0; }
      var first := ParseHex4(c, input + 2);
      if 0xDC00 <= first <= 0xDFFF { return 0, 0; }
      if 0xD800 <= first <= 0xDBFF {
        var second_sequence := input + 6;
        if end - second_sequence < 6 { return 0, 0; }
        if c[second_sequence] != BACKSLASH || c[second_sequence + 1] != 117 { return 0, 0; }
        var second := ParseHex4(c, second_sequence + 2);
        if second < 0xDC00 || second > 0xDFFF { return 0, 0; }
        Surrogates(first, second);
        len := PutUtf8(0x10000 + Or(Shl(And(first, 0x3FF), 10), And(second, 0x3FF)), output, at);
        return 12, len;
      }
      len := PutUtf8(first, output, at);
      return 6, len;
    }

    /** The scan for the closing quote: its position and the number of escapes passed. */
    static method FindStringEnd(c: bytes, start: nat) returns (ok: bool, end: nat, skipped: nat)
      requires start <= |c|
      ensures ok == StringEnd(c, start).Ok?
      ensures ok ==> StringEnd(c, start) == Ok((), end) && skipped == Escapes(c, start, end)
    {
      end, skipped := start, 0;
      ghost var e := StringEnd(c, start);
      while end < |c| && c[end] != QUOTE
        invariant start <= end <= |c| && StringEnd(c, end) == StringEnd(c, start)
        invariant e.Ok? ==> end <= e.offset && skipped + Escapes(c, end, e.offset) == Escapes(c, start, e.offset)
        decreases |c| - end
      {
        if c[end] == BACKSLASH {
          if end + 1 >= |c| { return false, end, skipped; }
          skipped := skipped + 1;
          end := end + 1;
        }
        end := end + 1;
      }
      ok := end < |c|;
    }
  
    /**
     Decodes the string between start and end into a buffer of size `room`, where
     room is what the scan for the end has counted.  All writes are in bounds for
     every content, also where \u takes in backslashes that the scan has paired differently.
     */
    static method DecodeInto(c: bytes, start: nat, end: nat, output: array<byte>) returns (ok: bool, to: nat)
      requires start <= end < |c| && StringEnd(c, start) == Ok((), end)
      requires output.Length == end - start + 2 - Escapes(c, start, end)
      modifies output
      ensures ok == Decode(c, start, end).Ok?
      ensures ok ==> to < output.Length && output[to] == 0 && output[..to] == Decode(c, start, end).value
    {
      hide DecodeStep, Decode;
      to := 0;
      var input := start;
      assert output[..to] == [];
      ghost var total, scan := Escapes(c, start, end), start;
      while input < end
        invariant start <= input <= end + 1 && to <= output.Length && InStep(c, input, scan, end)
        invariant to + total <= input - start + Escapes(c, scan, end)
        invariant Splits(Decode(c, start, end), output[..to], Decode(c, input, end))
        decreases end + 1 - input
      {
        ghost var was, step := output[..to], DecodeStep(c, input, end);
        DecodeUnfold(c, input, end);
        if step.Ok? { scan := RoomForStep(c, input, scan, end); }
        ok, input, to := DecodeOne(c, input, end, output, to);
        if !ok { return; }
        assert was + step.value + [] == output[..to];
      }
      DecodeEnd(c, input, end);
      assert output[..to] + [] == output[..to];
      output[to] := 0;
      ok := true;
    }

    /** One character or escape of the string. */
    static method DecodeOne(c: bytes, input: nat, end: nat, output: array<byte>, at: nat)
      returns (ok: bool, next: nat, to: nat)
      requires input < end < |c| && at <= output.Length
      requires var st := DecodeStep(c, input, end); st.Ok? ==> at + |st.value| <= output.Length
      modifies output
      ensures var st := DecodeStep(c, input, end);
              ok == st.Ok? && (ok ==> next == st.offset && to == at + |st.value| <= output.Length &&
                                      output[..to] == old(output[..at]) + st.value)
    {
      hide UnicodeEscape;
      next, to := input, at;
      if c[input] != BACKSLASH {
        output[to] := c[input];
        return true, input + 1, to + 1;
      }
      var seq_len := 2;
      var b := c[input + 1];
      if b == 117 {
        var len;
        seq_len, len := Utf16LiteralToUtf8(c, input, end, output, to);
        if seq_len == 0 { return false, input, to; }
        to := to + len;
      } else if Unescape(b) != 0 {
        output[to] := Unescape(b);
        to := to + 1;
      } else {
        return false, input, to;
      }
      next := input + seq_len;
      ok := true;
    }

    method ParseStringItem(item: Node) returns (ok: bool)
      requires Valid()
      modifies `offset, item`kind, item`text
      ensures var r := ParseString(content, old(offset));
              && ok == r.Ok?
              && (ok ==> offset == r.offset && Valid() && item.kind == StringKind && item.text == Present(r.value))
    {
      hide Decode, StringEnd;
      if content[offset] != QUOTE { return false; }
      var found, end, skipped := FindStringEnd(content, offset + 1);
      if !found { return false; }
      var allocation_length := end - offset - skipped;
      EscapesBound(content, offset + 1, end);
      var output := new byte[allocation_length + 1];
      var to;
      ok, to := DecodeInto(content, offset + 1, end, output);
      if !ok { return; }
      item.kind := StringKind;
      item.text := Present(output[..to]);
      offset := end + 1;
    }

    // ----- numbers

    static method StrtodText(t: bytes) returns (r: Parsed<int>)
      ensures r == Strtod(t)
    {
      var i := if SignFirst(t) then 1 else 0;
      var j: nat, value: nat := i, 0;
      while j < |t| && Digit(t[j])
        invariant i <= j <= |t|
        invariant DigitsEnd(t, j) == DigitsEnd(t, i) && DigitsValue(t, j, value) == DigitsValue(t, i, 0)
      {
        value := 10 * value + (t[j] as nat - 48);
        j := j + 1;
      }
      if j < |t| && (t[j] == 46 || (j > i && (t[j] == 101 || t[j] == 69))) { return Unmodelled; }
      if j == i { return Fail; }
      var m: int := value;
      var n := if SignFirst(t) && t[0] == MINUS then -m else m;
      r := if INT_MIN <= n <= INT_MAX then Ok(n, j) else Unmodelled;
    }

    method ParseNumberItem(item: Node) returns (s: Status)
      requires Valid()
      modifies `offset, item`kind, item`number
      ensures var r := ParseNumber(content, old(offset));
              && s == StatusOf(r)
              && (r.Ok? ==> offset == r.offset && Valid() && item.kind == NumberKind && r.value == Number(item.number))
    {
      hide Strtod;
      var i := offset;
      while i < |content| && NumberByte(content[i])
        invariant offset <= i <= |content| && NumberEnd(content, i) == NumberEnd(content, offset)
      {
        i := i + 1;
      }
      var number := StrtodText(content[offset..i]);
      match number {
        case Fail => s := Refused;
        case Unmodelled => s := Beyond;
        case Ok(n, used) =>
          item.number := n;
          item.kind := NumberKind;
          offset := offset + used;
          s := Status.Parsed;
      }
    }

    // ----- values

    method HasWord(word: bytes) returns (has: bool)
      requires Valid()
      ensures has == StartsWith(content, offset, word)
    {
      has := offset + |word| <= |content| && content[offset..offset + |word|] == word;
    }

    /** What a parsing method returns and where it leaves the buffer. */
    ghost predicate Left<T>(r: Parsed<T>, d: nat)
      reads this
    {
      r.Ok? ==> Valid() && offset == r.offset && depth == d
    }

    /** The item holds the value that was read, as a tree of new nodes below it. */
    ghost predicate Holding(r: Parsed<Json>, item: Node, kids: seq<Shape>, name: Text)
      reads item, NodesOf(kids)
    {
      r.Ok? ==> Tree(Shape(item, kids), ItemOf(r.value, name))
    }

    method ParseValue(item: Node) returns (s: Status, ghost kids: seq<Shape>)
      requires Valid() && Blank(item)
      modifies `offset, `depth, item`kind, item`number, item`text, item`child
      ensures var r := Parse(content, old(offset), old(depth));
              s == StatusOf(r) && Left(r, old(depth)) && Holding(r, item, kids, item.name)
      ensures fresh(NodesOf(kids))
      decreases |content| - offset, 3
    {
      hide ParseString, ParseNumber, JsonText.ParseArray, JsonText.ParseObject, StartsWith, Tree, NodesOf;
      kids := [];
      BuiltNone(item);
      var isNull := HasWord(NULL_TEXT);
      if isNull {
        WordFits(content, offset, NULL_TEXT);
        item.kind := NullKind;
        Leaf(item, ItemOf(Null, item.name));
        offset := offset + 4;
        return Status.Parsed, kids;
      }
      var isFalse := HasWord(FALSE_TEXT);
      if isFalse {
        WordFits(content, offset, FALSE_TEXT);
        item.kind := FalseKind;
        Leaf(item, ItemOf(False, item.name));
        offset := offset + 5;
        return Status.Parsed, kids;
      }
      var isTrue := HasWord(TRUE_TEXT);
      if isTrue {
        WordFits(content, offset, TRUE_TEXT);
        item.kind := TrueKind;
        item.number := 1;
        Leaf(item, ItemOf(True, item.name));
        offset := offset + 4;
        return Status.Parsed, kids;
      }
      if content[offset] == QUOTE {
        var ok := ParseStringItem(item);
        if ok { Leaf(item, ItemOf(String(ParseString(content, old(offset)).value), item.name)); }
        s := if ok then Status.Parsed else Refused;
      } else if content[offset] == MINUS || Digit(content[offset]) {
        s := ParseNumberItem(item);
        if s == Status.Parsed { Leaf(item, ItemOf(Number(item.number), item.name)); }
      } else if content[offset] == OPEN_BRACKET {
        s, kids := ParseArrayItem(item);
      } else if content[offset] == OPEN_BRACE {
        s, kids := ParseObjectItem(item);
      } else {
        s := Refused;
      }
    }

    method ParseArrayItem(item: Node) returns (s: Status, ghost kids: seq<Shape>)
      requires Valid() && content[offset] == OPEN_BRACKET && Blank(item)
      modifies `offset, `depth, item`kind, item`number, item`text, item`child
      ensures var r := ParseArray(content, old(offset), old(depth));
              s == StatusOf(r) && Left(r, old(depth)) && Holding(r, item, kids, item.name)
      ensures fresh(NodesOf(kids))
      decreases |content| - offset, 2
    {
      hide Parse, JsonText.ParseItems, Tree, Nodes, NodesOf, Roots, Built, Growing, ItemsOf;
      ItemsOfNone();
      kids := [];
      BuiltNone(item);
      if depth >= MAX_DEPTH { return Refused, kids; }
      depth := depth + 1;
      ghost var d := depth;
      offset := offset + 1;
      SkipWhitespace();
      if content[offset] == CLOSE_BRACKET {
        depth := depth - 1;
        item.kind := ArrayKind;
        item.child := null;
        ItemsOfNone();
        Leaf(item, ItemOf(Array([]), item.name));
        offset := offset + 1;
        return Status.Parsed, kids;
      }
      offset := offset - 1;
      var head, current;
      s, head, current, kids := ParseArrayLoop(item);
      if s != Status.Parsed { return; }
      depth := depth - 1;
      GrowingNodes(item, head, current, kids, ItemsOf(ParseItems(content, old(Skip(content, offset + 1)), d).value));
      FinishList(item, ArrayKind, head, current, kids,
        ItemsOf(ParseItems(content, old(Skip(content, offset + 1)), d).value));
      offset := offset + 1;
      s := Status.Parsed;
    }

    /** The do-while loop over the items, up to the closing bracket. */
    method ParseArrayLoop(item: Node) returns (s: Status, head: Node?, current: Node?, ghost kids: seq<Shape>)
      requires Valid() && offset + 1 < |content|
      modifies `offset, `depth
      ensures var r := ParseItems(content, old(offset) + 1, old(depth));
              && s == StatusOf(r)
              && (r.Ok? ==> Valid() && offset + 1 == r.offset && depth == old(depth) &&
                            Growing(item, head, current, kids, ItemsOf(r.value)))
      ensures fresh(NodesOf(kids))
      decreases |content| - offset, 1
    {
      hide Parse, ParseString, JsonText.ParseItems, JsonText.ParseMember, ItemsSplit, Tree, Nodes, NodesOf, Roots,
           Built, Growing, ItemsOf;
      ghost var d, all := depth, ParseItems(content, offset + 1, depth);
      ItemsOfNone();
      GrowingNone(item);
      head, current, kids := null, null, [];
      ghost var items: seq<Json> := [];
      ItemsStart(all);
      while true
        invariant depth == d && old(offset) <= offset && offset + 1 < |content|
        invariant ItemsSplit(all, items, ParseItems(content, offset + 1, d))
        invariant Growing(item, head, current, kids, ItemsOf(items)) && fresh(NodesOf(kids))
        decreases |content| - offset
      {
        ghost var at := offset + 1;
        GrowingNodes(item, head, current, kids, ItemsOf(items));
        s, head, current, kids := ParseNextItem(item, head, current, kids, ItemsOf(items));
        ItemsStep(content, at, d, all, items);
        if s != Status.Parsed { return; }
        ghost var v := Parse(content, Skip(content, at), d).value;
        ItemsOfGrow(items, v);
        items := items + [v];
        GrowingNodes(item, head, current, kids, ItemsOf(items));
        SkipWhitespace();
        if content[offset] != COMMA { break; }
      }
      if content[offset] != CLOSE_BRACKET { s := Refused; }
    }

    /** One more element of an array: a new item is linked and then parsed. */
    method ParseNextItem(item: Node, head: Node?, current: Node?, ghost kids: seq<Shape>, ghost ts: seq<Item>)
      returns (s: Status, first: Node, node: Node, ghost all: seq<Shape>)
      requires Valid() && offset + 1 < |content|
      requires Growing(item, head, current, kids, ts)
      modifies `offset, `depth, NodesOf(kids)
      ensures var r := Parse(content, Skip(content, old(offset) + 1), old(depth));
              && s == StatusOf(r) && Left(r, old(depth))
              && (r.Ok? ==> Growing(item, first, node, all, ts + [ItemOf(r.value, Absent)]))
      ensures forall n :: n in NodesOf(all) ==> n in NodesOf(kids) || fresh(n)
      decreases |content| - offset, 0
    {
      hide Parse, Tree, Nodes, NodesOf, Roots, Built, Growing, Strung, ItemOf;
      GrowingNodes(item, head, current, kids, ts);
      node := new Node();
      first := LinkItem(head, current, node, item, kids, ts);
      RootsGrow(kids, Shape(node, []));
      offset := offset + 1;
      SkipWhitespace();
      ghost var below;
      ghost var r := Parse(content, offset, depth);
      s, below := ParseValue(node);
      ghost var x := Shape(node, below);
      all := kids;
      if s == Status.Parsed {
        all := kids + [x];
        NodesOfShape(x);
        GrowingFilled(item, first, node, kids, ts, x, ItemOf(r.value, Absent));
      }
    }

    method ParseObjectItem(item: Node) returns (s: Status, ghost kids: seq<Shape>)
      requires Valid() && content[offset] == OPEN_BRACE && Blank(item)
      modifies `offset, `depth, item`kind, item`number, item`text, item`child
      ensures var r := ParseObject(content, old(offset), old(depth));
              s == StatusOf(r) && Left(r, old(depth)) && Holding(r, item, kids, item.name)
      ensures fresh(NodesOf(kids))
      decreases |content| - offset, 2
    {
      hide Parse, ParseString, JsonText.ParseMembers, JsonText.ParseMember, Tree, Nodes, NodesOf, Roots, Built, Growing,
           MembersOf;
      ItemsOfNone();
      kids := [];
      BuiltNone(item);
      if depth >= MAX_DEPTH { return Refused, kids; }
      depth := depth + 1;
      ghost var d := depth;
      offset := offset + 1;
      SkipWhitespace();
      if content[offset] == CLOSE_BRACE {
        depth := depth - 1;
        item.kind := ObjectKind;
        item.child := null;
        ItemsOfNone();
        Leaf(item, ItemOf(Object([]), item.name));
        offset := offset + 1;
        return Status.Parsed, kids;
      }
      offset := offset - 1;
      var head, current;
      s, head, current, kids := ParseObjectLoop(item);
      if s != Status.Parsed { return; }
      depth := depth - 1;
      GrowingNodes(item, head, current, kids,
        MembersOf(ParseMembers(content, old(Skip(content, offset + 1)), d).value));
      FinishList(item, ObjectKind, head, current, kids,
        MembersOf(ParseMembers(content, old(Skip(content, offset + 1)), d).value));
      offset := offset + 1;
      s := Status.Parsed;
    }

    /** The do-while loop over the members, up to the closing brace. */
    method ParseObjectLoop(item: Node) returns (s: Status, head: Node?, current: Node?, ghost kids: seq<Shape>)
      requires Valid() && offset + 1 < |content|
      modifies `offset, `depth
      ensures var r := ParseMembers(content, old(offset) + 1, old(depth));
              && s == StatusOf(r)
              && (r.Ok? ==> Valid() && offset + 1 == r.offset && depth == old(depth) &&
                            Growing(item, head, current, kids, MembersOf(r.value)))
      ensures fresh(NodesOf(kids))
      decreases |content| - offset, 1
    {
      hide Parse, ParseString, JsonText.ParseMembers, JsonText.ParseMember, MembersSplit, Tree, Nodes, NodesOf, Roots,
           Built, Growing, MembersOf;
      ghost var d, all := depth, ParseMembers(content, offset + 1, depth);
      ItemsOfNone();
      GrowingNone(item);
      head, current, kids := null, null, [];
      ghost var members: seq<Member> := [];
      MembersStart(all);
      while true
        invariant depth == d && old(offset) <= offset && offset + 1 < |content|
        invariant MembersSplit(all, members, ParseMembers(content, offset + 1, d))
        invariant Growing(item, head, current, kids, MembersOf(members)) && fresh(NodesOf(kids))
        decreases |content| - offset
      {
        ghost var at := offset + 1;
        GrowingNodes(item, head, current, kids, MembersOf(members));
        s, head, current, kids := ParseNextMember(item, head, current, kids, MembersOf(members));
        MembersStep(content, at, d, all, members);
        if s != Status.Parsed { return; }
        ghost var m := ParseMember(content, at, d).value;
        MembersOfGrow(members, m);
        members := members + [m];
        GrowingNodes(item, head, current, kids, MembersOf(members));
        SkipWhitespace();
        if content[offset] != COMMA { break; }
      }
      if content[offset] != CLOSE_BRACE { s := Refused; }
    }

    /** One more member of an object: a new item is linked and then parsed. */
    method ParseNextMember(item: Node, head: Node?, current: Node?, ghost kids: seq<Shape>, ghost ts: seq<Item>)
      returns (s: Status, first: Node, node: Node, ghost all: seq<Shape>)
      requires Valid() && offset + 1 < |content|
      requires Growing(item, head, current, kids, ts)
      modifies `offset, `depth, NodesOf(kids)
      ensures var r := ParseMember(content, old(offset) + 1, old(depth));
              && s == StatusOf(r) && Left(r, old(depth))
              && (r.Ok? ==> Growing(item, first, node, all, ts + [MemberItem(r.value)]))
      ensures forall n :: n in NodesOf(all) ==> n in NodesOf(kids) || fresh(n)
      decreases |content| - offset, 0
    {
      hide ParseMember, Tree, Nodes, NodesOf, Roots, Built, Growing, Strung, ItemOf;
      GrowingNodes(item, head, current, kids, ts);
      node := new Node();
      first := LinkItem(head, current, node, item, kids, ts);
      RootsGrow(kids, Shape(node, []));
      offset := offset + 1;
      ghost var below;
      ghost var r := ParseMember(content, offset, depth);
      s, below := ParseMemberItem(node);
      ghost var x := Shape(node, below);
      all := kids;
      if s == Status.Parsed {
        all := kids + [x];
        NodesOfShape(x);
        GrowingFilled(item, first, node, kids, ts, x, MemberItem(r.value));
      }
    }

    /** Key, colon and value of one member. */
    method ParseMemberItem(item: Node) returns (s: Status, ghost kids: seq<Shape>)
      requires Valid() && Blank(item)
      modifies `offset, `depth, item`kind, item`number, item`text, item`child, item`name
      ensures var r := ParseMember(content, old(offset), old(depth));
              && s == StatusOf(r) && Left(r, old(depth))
              && (r.Ok? ==> Tree(Shape(item, kids), MemberItem(r.value)))
      ensures fresh(NodesOf(kids))
      decreases |content| - offset, 4
    {
      hide Parse, ParseString;
      kids := [];
      BuiltNone(item);
      SkipWhitespace();
      var ok := ParseStringItem(item);
      if !ok { return Refused, kids; }
      SkipWhitespace();
      item.name := item.text;
      item.text := Absent;
      if content[offset] != COLON { return Refused, kids; }
      offset := offset + 1;
      SkipWhitespace();
      s, kids := ParseValue(item);
    }

    /** cJSON_Parse: the whole text becomes a tree of new items, or nothing is returned. */
    static method ParseDocument(text: bytes) returns (s: Status, item: Node?, ghost kids: seq<Shape>)
      ensures var r := ParseText(text);
              && s == StatusOf(r)
              && (item != null <==> r.Ok?)
              && (r.Ok? ==> Tree(Shape(item, kids), ItemOf(r.value, Absent)) && item.next == null && item.prev == null)
      ensures item != null ==> fresh(Nodes(Shape(item, kids)))
    {
      hide Parse;
      var buffer := new ParseBuffer(text);
      item := new Node();
      buffer.SkipWhitespace();
      s, kids := buffer.ParseValue(item);
      NodesOfShape(Shape(item, kids));
      if s != Status.Parsed { item := null; }
    }
  }
  /** A word without zero bytes ends before the terminating zero. */
  lemma WordFits(c: bytes, i: nat, word: bytes)
    requires Buffer(c) && StartsWith(c, i, word) && |word| > 0 && word[|word| - 1] != 0
    ensures i + |word| < |c|
  {
    assert c[i..i + |word|][|word| - 1] == c[i + |word| - 1];
  }

  // ----- the list loops

  /** all is `front` followed by what `rest` is. */
  ghost predicate ItemsSplit(all: Parsed<seq<Json>>, front: seq<Json>, rest: Parsed<seq<Json>>) {
    match rest
    case Ok(v, next) => all.Ok? && all.value == front + v && all.offset == next
    case Fail => all.Fail?
    case Unmodelled => all.Unmodelled?
  }

  ghost predicate MembersSplit(all: Parsed<seq<Member>>, front: seq<Member>, rest: Parsed<seq<Member>>) {
    match rest
    case Ok(v, next) => all.Ok? && all.value == front + v && all.offset == next
    case Fail => all.Fail?
    case Unmodelled => all.Unmodelled?
  }

  lemma ItemsUnfold(c: bytes, i: nat, depth: nat)
    requires Buffer(c) && i < |c|
    ensures var first, r := Parse(c, Skip(c, i), depth), ParseItems(c, i, depth);
            match first
            case Fail => r.Fail?
            case Unmodelled => r.Unmodelled?
            case Ok(v, next) =>
              var k := Skip(c, next);
              if c[k] == COMMA then ItemsSplit(r, [v], ParseItems(c, k + 1, depth))
              else if c[k] == CLOSE_BRACKET then r == Ok([v], k + 1)
              else r.Fail?
  {
    hide Parse;
  }

  lemma ItemsStart(all: Parsed<seq<Json>>)
    ensures ItemsSplit(all, [], all)
  {
  }

  /** What one more item says about the whole list. */
  lemma ItemsStep(c: bytes, i: nat, depth: nat, all: Parsed<seq<Json>>, front: seq<Json>)
    requires Buffer(c) && i < |c| && ItemsSplit(all, front, ParseItems(c, i, depth))
    ensures match Parse(c, Skip(c, i), depth)
            case Fail => all.Fail?
            case Unmodelled => all.Unmodelled?
            case Ok(v, next) =>
              var k := Skip(c, next);
              if c[k] == COMMA then ItemsSplit(all, front + [v], ParseItems(c, k + 1, depth))
              else if c[k] == CLOSE_BRACKET then all == Ok(front + [v], k + 1)
              else all.Fail?
  {
    hide Parse, ParseMember, ParseItems;
    ItemsUnfold(c, i, depth);
    var r := Parse(c, Skip(c, i), depth);
    if r.Ok? { ItemsAppend(all, front, r.value); }
  }

  lemma ItemsAppend(all: Parsed<seq<Json>>, front: seq<Json>, v: Json)
    ensures forall r, rest :: ItemsSplit(all, front, r) && ItemsSplit(r, [v], rest) ==>
        ItemsSplit(all, front + [v], rest)
    ensures forall next :: ItemsSplit(all, front, Ok([v], next)) ==> all == Ok(front + [v], next)
  {
    forall r, rest | ItemsSplit(all, front, r) && ItemsSplit(r, [v], rest)
      ensures ItemsSplit(all, front + [v], rest)
    {
      if rest.Ok? { assert front + ([v] + rest.value) == front + [v] + rest.value; }
    }
  }

  lemma MembersUnfold(c: bytes, i: nat, depth: nat)
    requires Buffer(c) && i < |c|
    ensures var first, r := ParseMember(c, i, depth), ParseMembers(c, i, depth);
            match first
            case Fail => r.Fail?
            case Unmodelled => r.Unmodelled?
            case Ok(m, next) =>
              var k := Skip(c, next);
              if c[k] == COMMA then MembersSplit(r, [m], ParseMembers(c, k + 1, depth))
              else if c[k] == CLOSE_BRACE then r == Ok([m], k + 1)
              else r.Fail?
  {
    hide ParseMember;
  }

  lemma MembersStart(all: Parsed<seq<Member>>)
    ensures MembersSplit(all, [], all)
  {
  }

  /** What one more member says about the whole list. */
  lemma MembersStep(c: bytes, i: nat, depth: nat, all: Parsed<seq<Member>>, front: seq<Member>)
    requires Buffer(c) && i < |c| && MembersSplit(all, front, ParseMembers(c, i, depth))
    ensures match ParseMember(c, i, depth)
            case Fail => all.Fail?
            case Unmodelled => all.Unmodelled?
            case Ok(m, next) =>
              var k := Skip(c, next);
              if c[k] == COMMA then MembersSplit(all, front + [m], ParseMembers(c, k + 1, depth))
              else if c[k] == CLOSE_BRACE then all == Ok(front + [m], k + 1)
              else all.Fail?
  {
    hide Parse, ParseMember, ParseMembers;
    MembersUnfold(c, i, depth);
    var r := ParseMember(c, i, depth);
    if r.Ok? { MembersAppend(all, front, r.value); }
  }

  lemma MembersAppend(all: Parsed<seq<Member>>, front: seq<Member>, m: Member)
    ensures forall r, rest :: MembersSplit(all, front, r) && MembersSplit(r, [m], rest) ==>
        MembersSplit(all, front + [m], rest)
    ensures forall next :: MembersSplit(all, front, Ok([m], next)) ==> all == Ok(front + [m], next)
  {
    forall r, rest | MembersSplit(all, front, r) && MembersSplit(r, [m], rest)
      ensures MembersSplit(all, front + [m], rest)
    {
      if rest.Ok? { assert front + ([m] + rest.value) == front + [m] + rest.value; }
    }
  }

  lemma Surrogates(first: nat, second: nat)
    requires 0xD800 <= first <= 0xDBFF && 0xDC00 <= second <= 0xDFFF
    ensures Or(Shl(And(first, 0x3FF), 10), And(second, 0x3FF)) == 1024 * (first - 0xD800) + (second - 0xDC00)
  {
    hide And, Or;
    TenBits(first, 54);
    TenBits(second, 55);
    assert Pow2(10) == 1024;
    ShlIsTimes(first - 0xD800, 10);
    OrCommutes(Shl(first - 0xD800, 10), second - 0xDC00);
    OrDisjoint(second - 0xDC00, first - 0xD800, 10);
  }

  lemma TenBits(x: nat, high: nat)
    requires 1024 * high <= x < 1024 * high + 1024
    ensures And(x, 0x3FF) == x - 1024 * high
  {
    hide And;
    assert Pow2(10) == 1024;
    AndMask(x, 10);
    ShlIsTimes(high, 10);
    LowOfSum(x - 1024 * high, high, 10);
  }

  // ----- how many escapes the first scan counts

  /** Escapes that a scan from j starts before reaching `end`. */
  ghost function Escapes(c: bytes, j: nat, end: nat): nat
    requires end <= |c|
    decreases end - j
  {
    if j >= end then 0
    else if c[j] == BACKSLASH then 1 + Escapes(c, j + 2, end)
    else Escapes(c, j + 1, end)
  }

  lemma {:induction false} EscapesBound(c: bytes, j: nat, end: nat)
    requires j <= end < |c| && StringEnd(c, j) == Ok((), end)
    ensures Escapes(c, j, end) <= end - j
    decreases end - j
  {
    if j < end {
      if c[j] == BACKSLASH { EscapesBound(c, j + 2, end); } else { EscapesBound(c, j + 1, end); }
    }
  }

  /** The scan for the end stands at j, level with the decoder at i or one byte ahead. */
  ghost predicate InStep(c: bytes, i: nat, j: nat, end: nat) {
    && j <= end < |c| && StringEnd(c, j) == Ok((), end)
    && (if i < end then i <= j <= i + 1 else j == end)
  }

  /** Moving the scan on to the first position at or after `target` passes an escape every two bytes at most. */
  lemma {:induction false} AdvanceScan(c: bytes, j: nat, end: nat, target: nat) returns (k: nat)
    requires j <= end < |c| && StringEnd(c, j) == Ok((), end) && j <= target <= end + 1
    ensures InStep(c, target, k, end) && j <= k && (j >= target ==> k == j)
    ensures 2 * (Escapes(c, j, end) - Escapes(c, k, end)) <= target - j + 1
    ensures target == j + 1 && c[j] != BACKSLASH ==> Escapes(c, j, end) == Escapes(c, k, end)
    decreases end + 1 - j
  {
    if j >= target || j == end {
      k := j;
    } else if c[j] == BACKSLASH {
      if j + 2 <= target {
        k := AdvanceScan(c, j + 2, end, target);
      } else {
        k := j + 2;
      }
    } else {
      k := AdvanceScan(c, j + 1, end, target);
    }
  }

  /** A decoding step never writes more than it reads, counting one byte less for every escape the scan passes. */
  lemma RoomForStep(c: bytes, i: nat, j: nat, end: nat) returns (k: nat)
    requires i < end && InStep(c, i, j, end) && DecodeStep(c, i, end).Ok?
    ensures var st := DecodeStep(c, i, end);
            && InStep(c, st.offset, k, end)
            && |st.value| + Escapes(c, j, end) <= st.offset - i + Escapes(c, k, end)
            && st.offset + Escapes(c, k, end) <= end + 1
  {
    var st := DecodeStep(c, i, end);
    k := AdvanceScan(c, j, end, st.offset);
    EscapesBound(c, k, end);
  }

  /** r is `front` followed by what `rest` is. */
  ghost predicate Splits(r: Parsed<bytes>, front: bytes, rest: Parsed<bytes>) {
    if rest.Ok? then r.Ok? && r.value == front + rest.value else !r.Ok?
  }

  lemma DecodeEnd(c: bytes, i: nat, end: nat)
    requires end <= i <= end + 1 && end < |c|
    ensures Decode(c, i, end) == Ok([], i)
  {
  }

  lemma DecodeUnfold(c: bytes, i: nat, end: nat)
    requires i < end < |c|
    ensures var st := DecodeStep(c, i, end);
            if st.Ok? then Splits(Decode(c, i, end), st.value, Decode(c, st.offset, end))
            else Decode(c, i, end).Fail?
  {
  }
}
