/**
 The printer's requests for room, one after another: whether what is then written
 stays inside the buffer, for a single string and for a whole value.
 */
module JsonRoom {
  import opened Bits
  import opened Common
  import opened JsonText
  import opened JsonRoundTrip

  const FIRST_LENGTH: nat := 256

  /** How a printing call ends: refused for its length, or stopped where the code would write behind its buffer. */
  datatype Outcome = Printed | TooLong | Overrun

  /** The length that ensure leaves the buffer with. */
  function GrownLength(length: nat, total: nat): nat {
    if total <= length then length else 2 * total
  }

  /** How many bytes of s the first loop of print_string_ptr counts. */
  function EscapeCount(s: bytes): nat {
    if s == [] then 0
    else (if s[0] == QUOTE || s[0] == BACKSLASH || s[0] < 32 then 1 else 0) + EscapeCount(s[1..])
  }

  /** The room print_string_ptr asks for. */
  function Requested(s: bytes): nat { |s| + EscapeCount(s) + 3 }

  /** The bytes it writes, with the zero at the end. */
  function Written(s: bytes): nat { |PrintString(s)| + 1 }

  /** A string of plain bytes takes one more for each counted one; any other at least three bytes more than that. */
  lemma {:induction false} EscapedLength(s: bytes)
    ensures PlainString(s) ==> |Escape(s)| == |s| + EscapeCount(s)
    ensures !PlainString(s) ==> |Escape(s)| >= |s| + EscapeCount(s) + 3
    ensures |Escape(s)| >= |s| + EscapeCount(s)
  {
    if s != [] {
      EscapedLength(s[1..]);
      assert s == [s[0]] + s[1..];
      assert PlainString(s) <==> Plain(s[0]) && PlainString(s[1..]);
    }
  }

  /**
   The writes of print_string_ptr stay inside the room it asks for if and only if
   the string has no control bytes without short escape; the byte that ensure
   grants beyond the request makes no difference.
   */
  lemma StringFits(s: bytes)
    ensures Written(s) <= Requested(s) <==> PlainString(s)
    ensures Written(s) <= Requested(s) + 1 <==> PlainString(s)
  {
    EscapedLength(s);
  }

  /** The string of the single byte 1: eight bytes are written where five are asked for and six granted. */
  lemma ControlByteOverruns()
    ensures Written([1]) == 8 && Requested([1]) == 5
  {
    assert Escape([]) == [];
  }

  function Ones(n: nat): bytes { seq(n, _ => 1) }

  lemma {:induction false} OnesLength(n: nat)
    ensures |Escape(Ones(n))| == 5 * n && EscapeCount(Ones(n)) == n
  {
    if n > 0 {
      OnesLength(n - 1);
      assert Ones(n)[1..] == Ones(n - 1);
    }
  }

  /** In a new buffer a string of such bytes is written behind the end from 51 bytes on, however much the buffer
      grows. */
  lemma OnesOverrun(n: nat)
    ensures Written(Ones(n)) > GrownLength(FIRST_LENGTH, Requested(Ones(n)) + 1) <==> n >= 51
  {
    OnesLength(n);
  }

  // ----- a whole value

  /** A piece of text and the room asked for it; behind it stands a zero. */
  datatype Piece = Piece(requested: nat, text: bytes)

  /** Where the printer stands in a buffer of this length, and how it has ended so far. */
  datatype Room = Room(offset: nat, length: nat, end: Outcome)

  /** One request: refused, outside of the buffer even though it has grown, or placed. */
  function Placed(room: Room, p: Piece): Room {
    if room.end != Printed then room
    else if p.requested > INT_MAX then room.(end := TooLong)
    else
      var length := GrownLength(room.length, room.offset + p.requested + 1);
      if room.offset + |p.text| + 1 > length then room.(end := Overrun)
      else Room(room.offset + |p.text|, length, Printed)
  }

  function PlacedAll(room: Room, ps: seq<Piece>): Room
    decreases |ps|
  {
    if ps == [] then room else PlacedAll(Placed(room, ps[0]), ps[1..])
  }

  function WordPiece(word: bytes): Piece { Piece(|word| + 1, word) }

  function StringPiece(s: bytes): Piece { Piece(Requested(s), PrintString(s)) }

  /** What the printer asks for and writes, in order. */
  function Pieces(v: Json): seq<Piece>
    decreases v, 1
  {
    match v
    case String(s) => [StringPiece(s)]
    case Array(items) => [Piece(1, [OPEN_BRACKET])] + ItemPieces(items) + [Piece(2, [CLOSE_BRACKET])]
    case Object(members) => [Piece(1, [OPEN_BRACE])] + MemberPieces(members) + [Piece(2, [CLOSE_BRACE])]
    case _ => [WordPiece(Print(v))]
  }

  function ItemPieces(items: seq<Json>): seq<Piece>
    decreases items, 0
  {
    if items == [] then []
    else if |items| == 1 then Pieces(items[0])
    else Pieces(items[0]) + [Piece(2, [COMMA])] + ItemPieces(items[1..])
  }

  function PiecesOfMember(m: Member): seq<Piece>
    decreases m, 2
  {
    [StringPiece(m.key), Piece(1, [COLON])] + Pieces(m.value)
  }

  function MemberPieces(members: seq<Member>): seq<Piece>
    decreases members, 0
  {
    if members == [] then []
    else if |members| == 1 then PiecesOfMember(members[0])
    else PiecesOfMember(members[0]) + [Piece(2, [COMMA])] + MemberPieces(members[1..])
  }

  /** How printing the value ends. */
  function PrintEnd(v: Json): Outcome { PlacedAll(Room(0, FIRST_LENGTH, Printed), Pieces(v)).end }

  lemma {:induction false} PlacedJoin(room: Room, ps: seq<Piece>, qs: seq<Piece>)
    ensures PlacedAll(room, ps + qs) == PlacedAll(PlacedAll(room, ps), qs)
    decreases |ps|
  {
    hide Placed;
    if ps == [] {
      assert ps + qs == qs;
    } else {
      PlacedJoin(Placed(room, ps[0]), ps[1..], qs);
      assert (ps + qs)[1..] == ps[1..] + qs;
    }
  }

  /** Nothing more is placed once the printer has ended. */
  lemma {:induction false} PlacedEnded(room: Room, ps: seq<Piece>)
    requires room.end != Printed
    ensures PlacedAll(room, ps) == room
    decreases |ps|
  {
    if ps != [] { PlacedEnded(room, ps[1..]); }
  }

  function Texts(ps: seq<Piece>): bytes { if ps == [] then [] else ps[0].text + Texts(ps[1..]) }

  lemma {:induction false} TextsJoin(ps: seq<Piece>, qs: seq<Piece>)
    ensures Texts(ps + qs) == Texts(ps) + Texts(qs)
    decreases |ps|
  {
    if ps == [] {
      assert ps + qs == qs;
    } else {
      TextsJoin(ps[1..], qs);
      assert (ps + qs)[1..] == ps[1..] + qs;
    }
  }

  /** What the pieces say, one after another, is the printed form. */
  lemma {:induction false} PiecesText(v: Json)
    ensures Texts(Pieces(v)) == Print(v)
    decreases v, 1
  {
    hide PrintString, IntText, Requested;
    match v
    case Array(items) =>
      ItemsText(items);
      TextsJoin([Piece(1, [OPEN_BRACKET])] + ItemPieces(items), [Piece(2, [CLOSE_BRACKET])]);
      TextsJoin([Piece(1, [OPEN_BRACKET])], ItemPieces(items));
    case Object(members) =>
      MembersText(members);
      TextsJoin([Piece(1, [OPEN_BRACE])] + MemberPieces(members), [Piece(2, [CLOSE_BRACE])]);
      TextsJoin([Piece(1, [OPEN_BRACE])], MemberPieces(members));
    case _ =>
  }

  lemma {:induction false} ItemsText(items: seq<Json>)
    ensures Texts(ItemPieces(items)) == PrintItems(items)
    decreases items, 0
  {
    hide Pieces, Print;
    if items != [] {
      PiecesText(items[0]);
      if |items| > 1 {
        ItemsText(items[1..]);
        TextsJoin(Pieces(items[0]) + [Piece(2, [COMMA])], ItemPieces(items[1..]));
        TextsJoin(Pieces(items[0]), [Piece(2, [COMMA])]);
      }
    }
  }

  lemma {:induction false} MemberText(m: Member)
    ensures Texts(PiecesOfMember(m)) == PrintMember(m)
    decreases m, 2
  {
    hide Pieces, Print, PrintString, Requested;
    PiecesText(m.value);
    TextsJoin([StringPiece(m.key), Piece(1, [COLON])], Pieces(m.value));
    TextsJoin([StringPiece(m.key)], [Piece(1, [COLON])]);
    assert [StringPiece(m.key)] + [Piece(1, [COLON])] == [StringPiece(m.key), Piece(1, [COLON])];
  }

  lemma {:induction false} MembersText(members: seq<Member>)
    ensures Texts(MemberPieces(members)) == PrintMembers(members)
    decreases members, 0
  {
    hide PiecesOfMember, PrintMember;
    if members != [] {
      MemberText(members[0]);
      if |members| > 1 {
        MembersText(members[1..]);
        TextsJoin(PiecesOfMember(members[0]) + [Piece(2, [COMMA])], MemberPieces(members[1..]));
        TextsJoin(PiecesOfMember(members[0]), [Piece(2, [COMMA])]);
      }
    }
  }

  // ----- which values fit

  /** No more is written than has been asked for. */
  predicate Modest(p: Piece) { |p.text| <= p.requested }

  predicate AllModest(ps: seq<Piece>) { forall i :: 0 <= i < |ps| ==> Modest(ps[i]) }

  /** Every piece asks at most for its text and one byte more. */
  predicate Tight(ps: seq<Piece>) { forall i :: 0 <= i < |ps| ==> ps[i].requested <= |ps[i].text| + 1 }

  lemma StringModest(s: bytes)
    ensures Modest(StringPiece(s)) <==> PlainString(s)
    ensures Requested(s) <= |PrintString(s)| + 1
  {
    EscapedLength(s);
  }

  /** The pieces of a value are modest exactly if all its strings are plain. */
  lemma {:induction false} ValueModest(v: Json)
    ensures AllModest(Pieces(v)) <==> AllPlain(v)
    ensures Tight(Pieces(v))
    decreases v, 1
  {
    hide PlainString, Requested, PrintString, Print;
    match v
    case String(s) =>
      StringModest(s);
      assert Pieces(v)[0] == StringPiece(s);
    case Array(items) =>
      ItemsModest(items);
      var ps := Pieces(v);
      assert ps[1..|ps| - 1] == ItemPieces(items);
      Middle(ps, ItemPieces(items));
    case Object(members) =>
      MembersModest(members);
      var ps := Pieces(v);
      assert ps[1..|ps| - 1] == MemberPieces(members);
      Middle(ps, MemberPieces(members));
    case _ =>
  }

  lemma Middle(ps: seq<Piece>, qs: seq<Piece>)
    requires |ps| == |qs| + 2 && ps[1..|ps| - 1] == qs && Modest(ps[0]) && Modest(ps[|ps| - 1])
    requires ps[0].requested <= |ps[0].text| + 1 && ps[|ps| - 1].requested <= |ps[|ps| - 1].text| + 1
    ensures AllModest(ps) <==> AllModest(qs)
    ensures Tight(qs) ==> Tight(ps)
  {
    forall i | 0 <= i < |qs|
      ensures qs[i] == ps[i + 1]
    {
    }
    if AllModest(ps) {
      forall i | 0 <= i < |qs|
        ensures Modest(qs[i])
      {
        assert Modest(ps[i + 1]);
      }
    }
    if AllModest(qs) {
      forall i | 0 <= i < |ps|
        ensures Modest(ps[i])
      {
        assert 0 < i < |ps| - 1 ==> Modest(qs[i - 1]);
      }
    }
    if Tight(qs) {
      forall i | 0 <= i < |ps|
        ensures ps[i].requested <= |ps[i].text| + 1
      {
        assert 0 < i < |ps| - 1 ==> ps[i] == qs[i - 1];
      }
    }
  }

  lemma BothModest(ps: seq<Piece>, qs: seq<Piece>)
    ensures AllModest(ps + qs) <==> AllModest(ps) && AllModest(qs)
    ensures Tight(ps + qs) <==> Tight(ps) && Tight(qs)
  {
    var all := ps + qs;
    forall i | 0 <= i < |ps|
      ensures ps[i] == all[i]
    {
    }
    forall i | 0 <= i < |qs|
      ensures qs[i] == all[|ps| + i]
    {
    }
  }

  lemma {:induction false} ItemsModest(items: seq<Json>)
    ensures AllModest(ItemPieces(items)) <==> forall x :: x in items ==> AllPlain(x)
    ensures Tight(ItemPieces(items))
    decreases items, 0
  {
    hide Pieces, AllPlain, AllModest, Tight;
    if items == [] {
      assert AllModest([]) && Tight([]) by { NoPieces(); }
    } else {
      ValueModest(items[0]);
      assert items == [items[0]] + items[1..];
      if |items| > 1 {
        ItemsModest(items[1..]);
        CommaModest();
        BothModest(Pieces(items[0]) + [Piece(2, [COMMA])], ItemPieces(items[1..]));
        BothModest(Pieces(items[0]), [Piece(2, [COMMA])]);
      }
    }
  }

  lemma NoPieces()
    ensures AllModest([]) && Tight([])
  {
  }

  lemma CommaModest()
    ensures AllModest([Piece(2, [COMMA])]) && Tight([Piece(2, [COMMA])])
  {
  }

  lemma {:induction false} MemberModest(m: Member)
    ensures AllModest(PiecesOfMember(m)) <==> PlainString(m.key) && AllPlain(m.value)
    ensures Tight(PiecesOfMember(m))
    decreases m, 2
  {
    hide Pieces, AllPlain, PlainString, Requested, PrintString;
    ValueModest(m.value);
    StringModest(m.key);
    var front := [StringPiece(m.key), Piece(1, [COLON])];
    BothModest(front, Pieces(m.value));
    assert AllModest(front) <==> Modest(front[0]) && Modest(front[1]);
  }

  lemma {:induction false} MembersModest(members: seq<Member>)
    ensures AllModest(MemberPieces(members)) <==> forall m :: m in members ==> PlainString(m.key) && AllPlain(m.value)
    ensures Tight(MemberPieces(members))
    decreases members, 0
  {
    hide PiecesOfMember, AllPlain, PlainString, AllModest, Tight;
    if members == [] {
      NoPieces();
    } else {
      MemberModest(members[0]);
      assert members == [members[0]] + members[1..];
      if |members| > 1 {
        MembersModest(members[1..]);
        CommaModest();
        BothModest(PiecesOfMember(members[0]) + [Piece(2, [COMMA])], MemberPieces(members[1..]));
        BothModest(PiecesOfMember(members[0]), [Piece(2, [COMMA])]);
      }
    }
  }

  /** Modest pieces never leave the buffer, and a short text is never refused. */
  lemma {:induction false} ModestPlaced(room: Room, ps: seq<Piece>)
    requires room.end == Printed
    ensures AllModest(ps) ==> PlacedAll(room, ps).end != Overrun
    ensures Tight(ps) && |Texts(ps)| < INT_MAX ==> PlacedAll(room, ps).end != TooLong
    decreases |ps|
  {
    if ps != [] {
      var next := Placed(room, ps[0]);
      assert AllModest(ps) ==> Modest(ps[0]) && AllModest(ps[1..]);
      assert Tight(ps) ==> ps[0].requested <= |ps[0].text| + 1 && Tight(ps[1..]);
      if next.end == Printed { ModestPlaced(next, ps[1..]); } else { PlacedEnded(next, ps[1..]); }
    }
  }

  /** A value whose strings are all plain never leaves the buffer, and a short one is never refused. */
  lemma PlainFits(v: Json)
    ensures AllPlain(v) ==> PrintEnd(v) != Overrun
    ensures |Print(v)| < INT_MAX ==> PrintEnd(v) != TooLong
  {
    hide Pieces, Print, AllPlain, PlacedAll, AllModest, Tight;
    ValueModest(v);
    PiecesText(v);
    ModestPlaced(Room(0, FIRST_LENGTH, Printed), Pieces(v));
  }

  /** The array of one string of n bytes 1 leaves the buffer from 51 bytes on. */
  lemma OnesInArray(n: nat)
    requires Requested(Ones(n)) <= INT_MAX
    ensures PrintEnd(Array([String(Ones(n))])) == (if n >= 51 then Overrun else Printed)
  {
    hide Ones, Requested, PrintString;
    var ones, start := StringPiece(Ones(n)), Room(0, FIRST_LENGTH, Printed);
    var opening, closing := Piece(1, [OPEN_BRACKET]), Piece(2, [CLOSE_BRACKET]);
    assert ItemPieces([String(Ones(n))]) == [ones];
    assert Pieces(Array([String(Ones(n))])) == [opening] + [ones] + [closing];
    PlacedJoin(start, [opening] + [ones], [closing]);
    PlacedJoin(start, [opening], [ones]);
    OnesSizes(n);
  }

  lemma OnesSizes(n: nat)
    ensures Requested(Ones(n)) == 2 * n + 3 && |PrintString(Ones(n))| == 5 * n + 2
  {
    OnesLength(n);
  }
}
