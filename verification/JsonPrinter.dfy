/**
 The printer: text appended to a buffer that doubles when it runs out.  What has
 been written is the printed form, and the writes stay inside the buffer unless a
 string holds a control byte for which too little room is asked.
 */
module JsonPrinter {
  import opened Bits
  import opened Common
  import opened JsonText
  import opened JsonTree
  import opened JsonRoundTrip
  import opened JsonRoom

  class PrintBuffer {
    var buffer: array<byte>
    var offset: nat

    constructor ()
      ensures Valid() && fresh(buffer) && Text() == [] && buffer.Length == FIRST_LENGTH
    {
      buffer := new byte[FIRST_LENGTH];
      offset := 0;
    }

    ghost predicate Valid()
      reads this
    {
      offset < buffer.Length
    }

    ghost function Text(): bytes
      requires Valid()
      reads this, buffer
    {
      buffer[..offset]
    }

    /** Where the printer stands once it has stepped over `pending` more bytes. */
    ghost function Here(pending: nat): Room
      reads this
    {
      Room(offset + pending, buffer.Length, Printed)
    }

    /** Behind the offset stand t and a terminating zero. */
    ghost predicate Pending(t: bytes)
      reads this, buffer
    {
      && offset + |t| < buffer.Length
      && buffer[offset..offset + |t|] == t
      && buffer[offset + |t|] == 0
      && CString(t)
    }

    /** Room for `needed` bytes and a zero behind the offset; refuses only absurd requests. */
    method Ensure(needed: nat) returns (ok: bool)
      requires Valid()
      modifies `buffer
      ensures ok <==> needed <= INT_MAX
      ensures Valid() && Text() == old(Text()) && (buffer == old(buffer) || fresh(buffer))
      ensures ok ==> buffer.Length == GrownLength(old(buffer.Length), offset + needed + 1)
    {
      if needed > INT_MAX { return false; }
      var total := needed + offset + 1;
      if total <= buffer.Length { return true; }
      var newsize := total * 2;
      var newbuffer := new byte[newsize];
      for i := 0 to buffer.Length
        modifies newbuffer
        invariant newbuffer[..i] == buffer[..i]
      {
        newbuffer[i] := buffer[i];
      }
      assert newbuffer[..offset] == newbuffer[..buffer.Length][..offset] == buffer[..offset];
      buffer := newbuffer;
      return true;
    }

    /** Advances the offset over the text that stands behind it. */
    method UpdateOffset(ghost t: bytes)
      requires Pending(t)
      modifies `offset
      ensures Valid() && Pending([]) && Text() == old(buffer[..offset]) + t
      ensures Here(0) == old(Here(|t|))
    {
      var length := 0;
      forall j | offset <= j < offset + |t|
        ensures buffer[j] != 0
      {
        assert buffer[offset..offset + |t|][j - offset] == buffer[j];
      }
      while buffer[offset + length] != 0
        invariant length <= |t|
        decreases |t| - length
      {
        length := length + 1;
      }
      assert buffer[..offset + length] == buffer[..offset] + buffer[offset..offset + length];
      offset := offset + length;
    }

    /** Copies t and a zero behind the offset, as strcpy and memcpy do. */
    method Put(t: bytes)
      requires offset + |t| < buffer.Length && CString(t)
      modifies buffer
      ensures Pending(t) && Text() == old(Text())
    {
      for i := 0 to |t|
        invariant buffer[..offset] == old(buffer[..offset])
        invariant buffer[offset..offset + i] == t[..i]
      {
        buffer[offset + i] := t[i];
      }
      buffer[offset + |t|] := 0;
      assert buffer[offset..offset + |t|] == t;
    }

    /** Writes an opening bracket or brace and steps over it. */
    method PutOpening(b: byte)
      requires Valid()
      modifies this, buffer
      ensures buffer == old(buffer) || fresh(buffer)
      ensures Valid() && Text() == old(Text()) + [b] && Here(0) == Placed(old(Here(0)), Piece(1, [b]))
    {
      var granted := Ensure(1);
      buffer[offset] := b;
      offset := offset + 1;
      assert buffer[..offset] == buffer[..offset - 1] + [b];
    }

    /** Writes any other punctuation byte, with a zero behind it, and steps over it. */
    method PutByte(b: byte, needed: nat)
      requires Valid() && 1 <= needed <= 2
      modifies this, buffer
      ensures buffer == old(buffer) || fresh(buffer)
      ensures Valid() && Text() == old(Text()) + [b] && Pending([])
      ensures Here(0) == Placed(old(Here(0)), Piece(needed, [b]))
    {
      var granted := Ensure(needed);
      buffer[offset] := b;
      offset := offset + 1;
      buffer[offset] := 0;
      assert buffer[..offset] == buffer[..offset - 1] + [b];
    }

    // ----- numbers and strings

    method PrintNumber(n: int)
      requires Valid() && INT_MIN <= n <= INT_MAX
      modifies this, buffer
      ensures buffer == old(buffer) || fresh(buffer)
      ensures Pending([]) && Text() == old(Text()) + IntText(n)
      ensures Here(0) == Placed(old(Here(0)), WordPiece(IntText(n)))
    {
      var number_buffer := IntText(n);
      IntTextLength(n);
      var ok := Ensure(|number_buffer| + 1);
      Put(number_buffer);
      UpdateOffset(number_buffer);
    }

    /** How many bytes get one byte more. */
    static method CountEscapes(s: bytes) returns (count: nat)
      ensures count == EscapeCount(s)
    {
      count := 0;
      EscapeAll(s);
      for k := 0 to |s|
        invariant count + EscapeCount(s[k..]) == EscapeCount(s)
      {
        assert s[k..][0] == s[k] && s[k..][1..] == s[k + 1..];
        if s[k] == QUOTE || s[k] == BACKSLASH || s[k] < 32 { count := count + 1; }
      }
    }

    /**
     print_string_ptr on any string: the text that JsonText describes, unless the
     room that two bytes for every special byte and three more make, doubled when
     the buffer grows for it, is too small for that text and its zero.
     */
    method PrintStringItem(s: bytes) returns (r: Outcome)
      requires Valid()
      modifies this, buffer
      ensures buffer == old(buffer) || fresh(buffer)
      ensures r == if Requested(s) > INT_MAX then TooLong
                   else if old(offset) + Written(s) > GrownLength(old(buffer.Length), old(offset) + Requested(s) + 1)
                     then Overrun
                   else Printed
      ensures Valid() && r == Placed(old(Here(0)), StringPiece(s)).end
      ensures r.Printed? ==> Pending([]) && Text() == old(Text()) + PrintString(s)
      ensures r.Printed? ==> Here(0) == Placed(old(Here(0)), StringPiece(s))
    {
      hide Escape, EscapeCount;
      var escape_characters := CountEscapes(s);
      var output_length := |s| + escape_characters;
      var ok := Ensure(output_length + 3);
      if !ok { return TooLong; }
      assert old(Text()) == Text();
      var fits := PutString(s);
      r := if fits then Printed else Overrun;
    }

    /** The string between quotes, and a zero, as far as the buffer goes. */
    method PutString(s: bytes) returns (fits: bool)
      requires offset + 2 <= buffer.Length
      modifies buffer, `offset
      ensures Valid() && (fits <==> old(offset) + Written(s) <= buffer.Length)
      ensures fits ==> Pending([]) && Text() == old(Text()) + PrintString(s)
    {
      hide Escape, EscapeCount;
      ghost var before := Text();
      var at := offset;
      buffer[at] := QUOTE;
      at := at + 1;
      assert buffer[..at] == before + [QUOTE];
      fits, at := PutEscapes(at, s);
      if !fits || at + 2 > buffer.Length { return false; }
      buffer[at] := QUOTE;
      buffer[at + 1] := 0;
      at := at + 1;
      assert buffer[..at] == before + [QUOTE] + Escape(s) + [QUOTE] == before + PrintString(s);
      offset := at;
    }

    /** print_string_ptr: a null pointer is printed as an empty string, behind the offset. */
    method PrintStringPtr(input: Text) returns (r: Outcome, ghost pending: bytes)
      requires Valid()
      modifies this, buffer
      ensures buffer == old(buffer) || fresh(buffer)
      ensures Valid()
      ensures r == Placed(old(Here(0)), TextPiece(input)).end
      ensures r.Printed? ==> Pending(pending) && Text() + pending == old(Text()) + TextPrinted(input)
      ensures r.Printed? ==> Here(|pending|) == Placed(old(Here(0)), TextPiece(input))
    {
      hide Requested, Written, PrintString;
      pending := [];
      match input {
        case Absent =>
          var ok := Ensure(3);
          Put([QUOTE, QUOTE]);
          pending := [QUOTE, QUOTE];
          r := Printed;
        case Present(s) =>
          r := PrintStringItem(s);
          if r.Printed? { Appended(Text()); }
      }
    }

    /** The bytes of the string one after another, as far as the buffer goes. */
    method PutEscapes(start: nat, s: bytes) returns (fits: bool, at: nat)
      requires start <= buffer.Length
      modifies buffer
      ensures buffer[..start] == old(buffer[..start])
      ensures start + |Escape(s)| + 2 <= buffer.Length ==> fits
      ensures fits ==> at == start + |Escape(s)| <= buffer.Length && buffer[..at] == old(buffer[..start]) + Escape(s)
    {
      hide EscapeByte, Escape;
      at := start;
      ghost var target := buffer[..start] + Escape(s);
      EscapeAll(s);
      for k := 0 to |s|
        invariant start <= at <= buffer.Length && at + |Escape(s[k..])| == start + |Escape(s)|
        invariant buffer[..at] + Escape(s[k..]) == target
        invariant buffer[..start] == old(buffer[..start])
      {
        ghost var was := buffer[..at];
        EscapeStep(s, k);
        fits, at := PutEscaped(at, s[k]);
        if !fits { return; }
        assert buffer[..start] == buffer[..at][..start] == was[..start];
        assert was + (EscapeByte(s[k]) + Escape(s[k + 1..])) == was + EscapeByte(s[k]) + Escape(s[k + 1..]);
      }
      EscapeNone(s);
      assert buffer[..at] == target;
      fits := true;
    }

    /** One byte; sprintf puts five bytes and a zero behind the backslash, of which the pointer passes four. */
    method PutEscaped(start: nat, b: byte) returns (fits: bool, at: nat)
      requires start <= buffer.Length
      modifies buffer
      ensures buffer[..start] == old(buffer[..start])
      ensures start + |EscapeByte(b)| + 2 <= buffer.Length ==> fits
      ensures fits ==> at == start + |EscapeByte(b)| <= buffer.Length &&
                       buffer[..at] == old(buffer[..start]) + EscapeByte(b)
    {
      at := start;
      if at + 1 > buffer.Length { return false, at; }
      if b >= 32 && b != QUOTE && b != BACKSLASH {
        buffer[at] := b;
        at := at + 1;
      } else if ShortEscape(b) != 0 {
        if at + 2 > buffer.Length { return false, at; }
        buffer[at], buffer[at + 1] := BACKSLASH, ShortEscape(b);
        at := at + 2;
      } else {
        if at + 7 > buffer.Length { return false, at; }
        buffer[at] := BACKSLASH;
        at := at + 1;
        buffer[at], buffer[at + 1], buffer[at + 2] := 117, 48, 48;
        buffer[at + 3], buffer[at + 4], buffer[at + 5] := HexDigit(b / 16), HexDigit(b % 16), 0;
        at := at + 4;
      }
      fits := true;
    }

    // ----- values

    /** On success the printed form has been appended, though its last part may still be pending. */
    method PrintValue(item: Node, ghost s: Shape, ghost v: Json) returns (r: Outcome, ghost pending: bytes)
      requires Valid() && Printable(item, s, v)
      modifies this, buffer
      ensures buffer == old(buffer) || fresh(buffer)
      ensures r == PlacedAll(old(Here(0)), Pieces(v)).end
      ensures r.Printed? ==> Pending(pending) && Text() + pending == old(Text()) + Print(v)
      ensures r.Printed? ==> Here(|pending|) == PlacedAll(old(Here(0)), Pieces(v))
      decreases v, 1
    {
      hide Placed, PlacedAll, ItemPieces, MemberPieces, StringPiece;
      hide CString, PrintItems, PrintMembers, PrintString, IntText, ItemsOf, MembersOf, Holds, HoldAll, NodesOf;
      pending := [];
      PrintableFields(item, s, v);
      OnePiece(Here(0), v);
      assert item.kind != Invalid; // so print_value's default case is never taken
      match item.kind {
        case NullKind => pending := PrintWord(NULL_TEXT); r := Printed;
        case FalseKind => pending := PrintWord(FALSE_TEXT); r := Printed;
        case TrueKind => pending := PrintWord(TRUE_TEXT); r := Printed;
        case NumberKind => PrintNumber(item.number); Appended(Text()); r := Printed;
        case StringKind => r, pending := PrintStringPtr(item.text);
        case ArrayKind => r := PrintArray(item, s, v.items); if r.Printed? { Appended(Text()); }
        case ObjectKind => r := PrintObject(item, s, v.members); if r.Printed? { Appended(Text()); }
      }
    }

    method PrintWord(word: bytes) returns (ghost pending: bytes)
      requires Valid() && (word == NULL_TEXT || word == FALSE_TEXT || word == TRUE_TEXT)
      modifies this, buffer
      ensures pending == word && Pending(word) && Text() == old(Text())
      ensures Here(|word|) == Placed(old(Here(0)), WordPiece(word))
      ensures buffer == old(buffer) || fresh(buffer)
    {
      var ok := Ensure(|word| + 1);
      Put(word);
      pending := word;
    }

    method PrintArray(item: Node, ghost s: Shape, ghost items: seq<Json>) returns (r: Outcome)
      requires Valid() && Printable(item, s, Array(items))
      modifies this, buffer
      ensures buffer == old(buffer) || fresh(buffer)
      ensures r == PlacedAll(old(Here(0)), Pieces(Array(items))).end
      ensures r.Printed? ==> Here(0) == PlacedAll(old(Here(0)), Pieces(Array(items)))
      ensures r.Printed? ==> Pending([]) && Text() == old(Text()) + Print(Array(items))
      decreases items, 2
    {
      hide Placed, PlacedAll, Pieces, ItemPieces;
      hide CString, Print, PrintItems, Printable, NodesOf, ItemOf, Held, AllPlain, Pending;
      ArrayKids(item, s, items);
      ArrayFacts(items);
      ghost var target := Text() + [OPEN_BRACKET] + PrintItems(items);
      ghost var end := PlacedAll(Here(0), Pieces(Array(items)));
      ArrayPieces(Here(0), items);
      PutOpening(OPEN_BRACKET);
      var current := item.child;
      ghost var i := 0;
      while current != null
        invariant i <= |items| == |s.kids| && current == FirstFrom(s.kids, i)
        invariant Printable(item, s, Array(items))
        invariant Valid() && (buffer == old(buffer) || fresh(buffer))
        invariant Text() + PrintItems(items[i..]) == target
        invariant PlacedAll(Here(0), ItemPieces(items[i..]) + [Piece(2, [CLOSE_BRACKET])]) == end
        decreases |items| - i
      {
        ghost var was := Text();
        ItemsJoin(was, items, i);
        ItemPlaced(Here(0), items, i, Piece(2, [CLOSE_BRACKET]));
        ArrayKid(item, s, items, i);
        r := PrintItem(current, s, items, i);
        if !r.Printed? { return; }
        current := current.next;
        i := i + 1;
      }
      NoMoreItems(Text(), items);
      LastPlaced(Here(0), Piece(2, [CLOSE_BRACKET]));
      PutByte(CLOSE_BRACKET, 2);
      r := Printed;
    }

    /** One item, and a comma unless it is the last. */
    method PrintItem(item: Node, ghost s: Shape, ghost items: seq<Json>, ghost i: nat) returns (r: Outcome)
      requires Valid() && i < |items| == |s.kids| && Printable(item, s.kids[i], items[i]) &&
               item.next == NextOf(s.kids, i)
      modifies this, buffer
      ensures buffer == old(buffer) || fresh(buffer)
      ensures r == PlacedAll(old(Here(0)), Pieces(items[i])).end
      ensures r.Printed? ==>
                Here(0) == PlacedAll(PlacedAll(old(Here(0)), Pieces(items[i])), CommaPiece(i + 1 < |items|))
      ensures r.Printed? ==> Valid() && Text() == old(Text()) + Print(items[i]) + if i + 1 < |items| then [COMMA]
          else []
      decreases items, 1
    {
      hide PlacedAll, Pieces, Placed, CString, Print, Held, AllPlain, Holds, NodesOf;
      ghost var pending;
      r, pending := PrintValue(item, s.kids[i], items[i]);
      if !r.Printed? { return; }
      UpdateOffset(pending);
      Appended(Text());
      CommaPlaced(Here(0));
      if item.next != null {
        PutByte(COMMA, 2);
      }
    }

    method PrintObject(item: Node, ghost s: Shape, ghost members: seq<Member>) returns (r: Outcome)
      requires Valid() && Printable(item, s, Object(members))
      modifies this, buffer
      ensures buffer == old(buffer) || fresh(buffer)
      ensures r == PlacedAll(old(Here(0)), Pieces(Object(members))).end
      ensures r.Printed? ==> Here(0) == PlacedAll(old(Here(0)), Pieces(Object(members)))
      ensures r.Printed? ==> Pending([]) && Text() == old(Text()) + Print(Object(members))
      decreases members, 2
    {
      hide Placed, PlacedAll, Pieces, MemberPieces, PiecesOfMember, CString, Print, PrintMember, PrintMembers,
           PlainString, Printable, NodesOf, ItemOf, Held, AllPlain, Pending;
      ObjectKids(item, s, members);
      ObjectFacts(members);
      ghost var target := Text() + [OPEN_BRACE] + PrintMembers(members);
      ghost var end := PlacedAll(Here(0), Pieces(Object(members)));
      ObjectPieces(Here(0), members);
      PutOpening(OPEN_BRACE);
      var current := item.child;
      ghost var i := 0;
      while current != null
        invariant i <= |members| == |s.kids| && current == FirstFrom(s.kids, i)
        invariant Printable(item, s, Object(members))
        invariant Valid() && (buffer == old(buffer) || fresh(buffer))
        invariant Text() + PrintMembers(members[i..]) == target
        invariant PlacedAll(Here(0), MemberPieces(members[i..]) + [Piece(2, [CLOSE_BRACE])]) == end
        decreases |members| - i
      {
        ghost var was := Text();
        MembersJoin(was, members, i);
        MemberPlaced(Here(0), members, i, Piece(2, [CLOSE_BRACE]));
        ObjectKid(item, s, members, i);
        r := PrintMemberItem(current, s, members, i);
        if !r.Printed? { return; }
        current := current.next;
        i := i + 1;
      }
      NoMoreMembers(Text(), members);
      LastPlaced(Here(0), Piece(2, [CLOSE_BRACE]));
      PutByte(CLOSE_BRACE, 2);
      r := Printed;
    }

    /** Key, colon and value of one member, and a comma unless it is the last. */
    method PrintMemberItem(item: Node, ghost s: Shape, ghost members: seq<Member>, ghost i: nat) returns (r: Outcome)
      requires Valid() && i < |members| == |s.kids|
      requires Printable(item, s.kids[i], members[i].value) && item.next == NextOf(s.kids, i)
      requires item.name == Present(members[i].key)
      modifies this, buffer
      ensures buffer == old(buffer) || fresh(buffer)
      ensures r == PlacedAll(old(Here(0)), PiecesOfMember(members[i])).end
      ensures r.Printed? ==>
                Here(0) == PlacedAll(PlacedAll(old(Here(0)), PiecesOfMember(members[i])), CommaPiece(i + 1 < |members|))
      ensures r.Printed? ==> Valid() && Text() == old(Text()) + PrintMember(members[i]) + if i + 1 < |members|
          then [COMMA] else []
      decreases members, 1
    {
      hide PlacedAll, Pieces, PiecesOfMember, Placed, CString, Print, Held, AllPlain, PrintString, PlainString, Holds,
           NodesOf;
      ghost var m := members[i];
      MemberPiecesInTurn(Here(0), m);
      PrintableNodes(item, s.kids[i], m.value);
      ghost var was := Text();
      ghost var pending;
      r, pending := PrintStringPtr(item.name);
      if !r.Printed? { return; }
      UpdateOffset(pending);
      PutByte(COLON, 1);
      r, pending := PrintValue(item, s.kids[i], m.value);
      if !r.Printed? { return; }
      UpdateOffset(pending);
      MemberJoin(was, m);
      Appended(Text());
      CommaPlaced(Here(0));
      if item.next != null {
        PutByte(COMMA, 2);
      }
    }

    /** cJSON_PrintUnformatted. */
    static method PrintUnformatted(item: Node, ghost s: Shape, ghost v: Json) returns (r: Outcome, printed: bytes)
      requires Printable(item, s, v)
      ensures r == PrintEnd(v) && (r.Printed? ==> printed == Print(v))
      ensures |Print(v)| < INT_MAX ==> !r.TooLong?
      ensures AllPlain(v) ==> !r.Overrun?
    {
      hide PlacedAll, Pieces, Print, Held, AllPlain, Holds, NodesOf;
      printed := [];
      PlainFits(v);
      PrintableNodes(item, s, v);
      var p := new PrintBuffer();
      ghost var pending;
      r, pending := p.PrintValue(item, s, v);
      if !r.Printed? { return; }
      p.UpdateOffset(pending);
      assert [] + Print(v) == Print(v);
      printed := p.buffer[..p.offset];
    }
  }

  /** The item is the root of a tree that holds v. */
  ghost predicate Printable(item: Node, s: Shape, v: Json)
    reads item, s.node, NodesOf(s.kids)
  {
    item == s.node && Holds(s, ItemOf(v, item.name)) && Held(v)
  }

  lemma PrintableNodes(item: Node, s: Shape, v: Json)
    requires Printable(item, s, v)
    ensures allocated(NodesOf(s.kids))
  {
    hide Holds, Held, AllPlain;
    FirstKid(s, ItemOf(v, item.name));
  }

  lemma PrintableFields(item: Node, s: Shape, v: Json)
    requires Printable(item, s, v)
    ensures SameFields(item, ItemOf(v, item.name)) && Held(v)
    ensures allocated(NodesOf(s.kids))
  {
    hide Held, AllPlain;
    PrintableNodes(item, s, v);
  }

  lemma NameOf(v: Json, name: Text)
    ensures ItemOf(v, name).name == name
  {
  }

  lemma ArrayKids(item: Node, s: Shape, items: seq<Json>)
    requires Printable(item, s, Array(items))
    ensures item == s.node && |s.kids| == |items| && item.child == FirstFrom(s.kids, 0) && allocated(NodesOf(s.kids))
    ensures Held(Array(items))
  {
    hide Held, AllPlain;
    PrintableNodes(item, s, Array(items));
    FirstKid(s, ItemOf(Array(items), item.name));
  }

  lemma ObjectKids(item: Node, s: Shape, members: seq<Member>)
    requires Printable(item, s, Object(members))
    ensures item == s.node && |s.kids| == |members| && item.child == FirstFrom(s.kids, 0) && allocated(NodesOf(s.kids))
    ensures Held(Object(members))
  {
    hide Held, AllPlain;
    PrintableNodes(item, s, Object(members));
    FirstKid(s, ItemOf(Object(members), item.name));
  }

  lemma ArrayKid(item: Node, s: Shape, items: seq<Json>, i: nat)
    requires Printable(item, s, Array(items)) && i < |items|
    ensures |s.kids| == |items| && Printable(s.kids[i].node, s.kids[i], items[i])
    ensures s.kids[i].node.next == NextOf(s.kids, i)
    ensures allocated(NodesOf(s.kids))
  {
    PrintableNodes(item, s, Array(items));
    ArrayFacts(items);
    var t := ItemOf(Array(items), item.name);
    assert t.kids[i] == ItemsOf(items)[i] == ItemOf(items[i], Absent);
    NameOf(items[i], Absent);
    KidAt(s, t, i);
    HoldAllAt(s.kids, t.kids, i);
  }

  lemma ObjectKid(item: Node, s: Shape, members: seq<Member>, i: nat)
    requires Printable(item, s, Object(members)) && i < |members|
    ensures |s.kids| == |members| && Printable(s.kids[i].node, s.kids[i], members[i].value)
    ensures s.kids[i].node.next == NextOf(s.kids, i)
    ensures s.kids[i].node.name == Present(members[i].key)
    ensures allocated(NodesOf(s.kids))
  {
    PrintableNodes(item, s, Object(members));
    ObjectFacts(members);
    var t := ItemOf(Object(members), item.name);
    assert t.kids[i] == MembersOf(members)[i] == ItemOf(members[i].value, Present(members[i].key));
    NameOf(members[i].value, Present(members[i].key));
    KidAt(s, t, i);
    HoldAllAt(s.kids, t.kids, i);
  }

  // ----- the requests for room, one by one

  function TextPiece(t: Text): Piece {
    match t
    case Absent => Piece(3, [QUOTE, QUOTE])
    case Present(s) => StringPiece(s)
  }

  function CommaPiece(more: bool): seq<Piece> { if more then [Piece(2, [COMMA])] else [] }

  lemma OnePiece(room: Room, v: Json)
    ensures v.Null? || v.False? || v.True? || v.Number? ==>
              PlacedAll(room, Pieces(v)) == Placed(room, WordPiece(Print(v)))
    ensures v.String? ==> PlacedAll(room, Pieces(v)) == Placed(room, StringPiece(v.s))
  {
    hide Placed, Print, StringPiece;
  }

  lemma LastPlaced(room: Room, last: Piece)
    ensures PlacedAll(room, ItemPieces([]) + [last]) == Placed(room, last)
    ensures PlacedAll(room, MemberPieces([]) + [last]) == Placed(room, last)
  {
    hide Placed;
    assert [] + [last] == [last];
  }

  lemma CommaPlaced(room: Room)
    ensures PlacedAll(room, CommaPiece(true)) == Placed(room, Piece(2, [COMMA]))
    ensures PlacedAll(room, CommaPiece(false)) == room
  {
    hide Placed;
  }

  lemma ArrayPieces(room: Room, items: seq<Json>)
    ensures PlacedAll(room, Pieces(Array(items))) ==
            PlacedAll(Placed(room, Piece(1, [OPEN_BRACKET])), ItemPieces(items) + [Piece(2, [CLOSE_BRACKET])])
  {
    hide Placed, ItemPieces;
    FirstPlaced(room, Piece(1, [OPEN_BRACKET]), ItemPieces(items), [Piece(2, [CLOSE_BRACKET])]);
  }

  lemma ObjectPieces(room: Room, members: seq<Member>)
    ensures PlacedAll(room, Pieces(Object(members))) ==
            PlacedAll(Placed(room, Piece(1, [OPEN_BRACE])), MemberPieces(members) + [Piece(2, [CLOSE_BRACE])])
  {
    hide Placed, MemberPieces;
    FirstPlaced(room, Piece(1, [OPEN_BRACE]), MemberPieces(members), [Piece(2, [CLOSE_BRACE])]);
  }

  lemma FirstPlaced(room: Room, first: Piece, ps: seq<Piece>, qs: seq<Piece>)
    ensures PlacedAll(room, [first] + ps + qs) == PlacedAll(Placed(room, first), ps + qs)
  {
    hide Placed;
    assert ([first] + ps + qs)[1..] == ps + qs;
  }

  /** The item, a comma if there are more, the rest; and nothing if the item ends the printing. */
  lemma ItemPlaced(room: Room, items: seq<Json>, i: nat, last: Piece)
    requires i < |items|
    ensures var next := PlacedAll(room, Pieces(items[i]));
            PlacedAll(room, ItemPieces(items[i..]) + [last]) ==
            if next.end != Printed then next
            else PlacedAll(PlacedAll(next, CommaPiece(i + 1 < |items|)), ItemPieces(items[i + 1..]) + [last])
  {
    hide Placed, PlacedAll, Pieces;
    var rest := ItemPieces(items[i + 1..]) + [last];
    assert items[i..][1..] == items[i + 1..];
    assert ItemPieces(items[i..]) + [last] == Pieces(items[i]) + (CommaPiece(i + 1 < |items|) + rest);
    Stages(room, Pieces(items[i]), CommaPiece(i + 1 < |items|), rest);
  }

  lemma Stages(room: Room, ps: seq<Piece>, comma: seq<Piece>, rest: seq<Piece>)
    ensures var next := PlacedAll(room, ps);
            PlacedAll(room, ps + (comma + rest)) ==
            if next.end != Printed then next else PlacedAll(PlacedAll(next, comma), rest)
  {
    hide Placed, PlacedAll;
    var next := PlacedAll(room, ps);
    PlacedJoin(room, ps, comma + rest);
    if next.end != Printed { PlacedEnded(next, comma + rest); } else { PlacedJoin(next, comma, rest); }
  }

  lemma MemberPlaced(room: Room, members: seq<Member>, i: nat, last: Piece)
    requires i < |members|
    ensures var next := PlacedAll(room, PiecesOfMember(members[i]));
            PlacedAll(room, MemberPieces(members[i..]) + [last]) ==
            if next.end != Printed then next
            else PlacedAll(PlacedAll(next, CommaPiece(i + 1 < |members|)), MemberPieces(members[i + 1..]) + [last])
  {
    hide Placed, PlacedAll, PiecesOfMember;
    var rest := MemberPieces(members[i + 1..]) + [last];
    assert members[i..][1..] == members[i + 1..];
    assert MemberPieces(members[i..]) + [last] == PiecesOfMember(members[i]) + (CommaPiece(i + 1 < |members|) + rest);
    Stages(room, PiecesOfMember(members[i]), CommaPiece(i + 1 < |members|), rest);
  }

  lemma MemberPiecesInTurn(room: Room, m: Member)
    ensures var next := Placed(room, StringPiece(m.key));
            PlacedAll(room, PiecesOfMember(m)) ==
            if next.end != Printed then next else PlacedAll(Placed(next, Piece(1, [COLON])), Pieces(m.value))
  {
    hide Placed, Pieces, StringPiece;
    var key, colon := StringPiece(m.key), Piece(1, [COLON]);
    var next := Placed(room, key);
    assert PiecesOfMember(m)[1..] == [colon] + Pieces(m.value) && ([colon] + Pieces(m.value))[1..] == Pieces(m.value);
    if next.end != Printed { PlacedEnded(next, [colon] + Pieces(m.value)); }
  }

  lemma Appended(t: bytes)
    ensures t + [] == t
  {
  }

  lemma ArrayFacts(items: seq<Json>)
    requires Held(Array(items))
    ensures Print(Array(items)) == [OPEN_BRACKET] + PrintItems(items) + [CLOSE_BRACKET]
    ensures forall i :: 0 <= i < |items| ==> Held(items[i])
    ensures items[0..] == items
  {
    hide PrintItems;
  }

  lemma ItemsJoin(was: bytes, items: seq<Json>, i: nat)
    requires i < |items|
    ensures was + Print(items[i]) + (if i + 1 < |items| then [COMMA] else []) + PrintItems(items[i + 1..]) ==
            was + PrintItems(items[i..])
  {
    hide Print, PrintItems;
    ItemsStep(items, i);
  }

  lemma NoMoreItems(t: bytes, items: seq<Json>)
    ensures items[|items|..] == [] && t + PrintItems(items[|items|..]) == t
  {
    assert items[|items|..] == [];
  }

  lemma ObjectFacts(members: seq<Member>)
    requires Held(Object(members))
    ensures Print(Object(members)) == [OPEN_BRACE] + PrintMembers(members) + [CLOSE_BRACE]
    ensures forall i :: 0 <= i < |members| ==>
              CString(members[i].key) && Held(members[i].value)
    ensures members[0..] == members
  {
    hide PrintMembers, PlainString;
  }

  lemma MembersJoin(was: bytes, members: seq<Member>, i: nat)
    requires i < |members|
    ensures was + PrintMember(members[i]) + (if i + 1 < |members| then [COMMA] else []) +
        PrintMembers(members[i + 1..]) ==
            was + PrintMembers(members[i..])
  {
    hide PrintMember, PrintMembers;
    MembersStep(members, i);
  }

  lemma MemberJoin(was: bytes, m: Member)
    ensures was + PrintString(m.key) + [COLON] + Print(m.value) == was + PrintMember(m)
  {
  }

  lemma NoMoreMembers(t: bytes, members: seq<Member>)
    ensures members[|members|..] == [] && t + PrintMembers(members[|members|..]) == t
  {
    assert members[|members|..] == [];
  }

  lemma {:induction false} DigitsLength(n: nat, k: nat)
    requires k > 0 && n < Ten(k)
    ensures |Digits(n)| <= k
  {
    if n >= 10 { DigitsLength(n / 10, k - 1); }
  }

  function Ten(k: nat): nat { if k == 0 then 1 else 10 * Ten(k - 1) }

  /** An int takes at most eleven bytes, so the 26 of the number buffer suffice. */
  lemma IntTextLength(n: int)
    requires INT_MIN <= n <= INT_MAX
    ensures |IntText(n)| <= 11 && CString(IntText(n))
  {
    assert Ten(5) == 100000;
    assert Ten(10) == 100000 * Ten(5);
    DigitsLength(if n < 0 then -n else n, 10);
  }

  function TextPrinted(t: Text): bytes {
    match t
    case Absent => [QUOTE, QUOTE]
    case Present(s) => PrintString(s)
  }

  lemma EscapeStep(s: bytes, k: nat)
    requires k < |s|
    ensures Escape(s[k..]) == EscapeByte(s[k]) + Escape(s[k + 1..])
  {
    assert s[k..][1..] == s[k + 1..];
  }

  lemma EscapeNone(s: bytes)
    ensures Escape(s[|s|..]) == []
  {
  }

  lemma EscapeAll(s: bytes)
    ensures s[0..] == s
  {
  }

  lemma ItemsStep(items: seq<Json>, i: nat)
    requires i < |items|
    ensures PrintItems(items[i..]) == Print(items[i]) +
        (if i + 1 < |items| then [COMMA] + PrintItems(items[i + 1..]) else [])
    ensures i + 1 == |items| ==> PrintItems(items[i + 1..]) == []
  {
    hide Print;
    assert items[i..][1..] == items[i + 1..];
  }

  lemma MembersStep(members: seq<Member>, i: nat)
    requires i < |members|
    ensures PrintMembers(members[i..]) ==
            PrintMember(members[i]) + (if i + 1 < |members| then [COMMA] + PrintMembers(members[i + 1..]) else [])
    ensures i + 1 == |members| ==> PrintMembers(members[i + 1..]) == []
  {
    hide Print;
    assert members[i..][1..] == members[i + 1..];
  }
}
