/**
 What a user of the hub comes to: opening an item, pressing the keys that its
 widget is for, and finding the result in the store under that item alone.
 */
module HubScripts {
  import opened Bits
  import opened Common
  import opened Hub
  import opened HubSpec
  import opened JsonRoom
  import opened JsonRoundTrip
  import opened JsonText

  /** The cursor stands on this item. */
  ghost predicate At(hub: HubData, item: HubItem)
    reads hub
  {
    hub.Valid() && hub.mode == Browsing && hub.Item() == Option.Some(item)
  }

  /** Only the item's value has changed. */
  twostate predicate OnlyStored(hub: HubData, item: HubItem, value: bytes)
    requires old(|hub.keys| == |hub.vals|) && |hub.keys| == |hub.vals|
    reads hub
  {
    forall k :: hub.Get(k) == if k == item.id then Option.Some(value) else old(hub.Get(k))
  }

  /** Opening an item stores nothing. */
  method Open(hub: HubData, ghost item: HubItem)
    requires At(hub, item) && !item.widget.OtherWidget?
    modifies hub
    ensures hub.Valid() && hub.Opened(item, false) && !hub.sub_widget && hub.target == item
    ensures forall k :: hub.Get(k) == old(hub.Get(k))
  {
    hide HubData.Item;
    var r := hub.HandleKey(Event(Enter, false, Waiting));
  }

  /** In a menu, any choice can be reached with the arrows and stored with Enter. */
  method ChooseFromMenu(hub: HubData, i: nat, ghost item: HubItem)
    requires At(hub, item) && item.widget.MenuWidget? && i < |item.choices| && !(QUICK_PROFILE <= item.id)
    modifies hub
    ensures hub.Valid() && hub.mode == Browsing && OnlyStored(hub, item, item.choices[i])
  {
    Open(hub, item);
    while hub.edit_selected != i
      invariant hub.Valid() && hub.mode == EditingMenu && hub.target == item
      invariant forall k :: hub.Get(k) == old(hub.Get(k))
      decreases if hub.edit_selected < i then i - hub.edit_selected else hub.edit_selected - i
    {
      var r := hub.MenuKey(if hub.edit_selected < i then Down else Up);
    }
    ghost var entries := hub.Commits(Enter);
    assert entries == [Entry(item.id, item.choices[i])];
    OneEntry(entries, item.id, item.choices[i]);
    var r := hub.MenuKey(Enter);
  }

  lemma OneEntry(entries: seq<Entry>, key: bytes, value: bytes)
    requires entries == [Entry(key, value)]
    ensures forall k, before :: Overlaid(entries, k, before) == if k == key then Option.Some(value) else before
  {
    assert entries[..0] == [];
  }

  // ----- input

  method TypeInto(hub: HubData, typed: bytes, ghost item: HubItem)
    requires hub.Valid() && hub.mode == EditingInput && hub.target == item && 0 !in typed
    requires hub.edit_cursor == |hub.EditText()|
    modifies hub
    ensures hub.Valid() && hub.mode == EditingInput && hub.target == item
    ensures hub.EditText() == old(hub.EditText()) + typed
    ensures forall k :: hub.Get(k) == old(hub.Get(k))
  {
    hide UpToZero, HubData.Valid, Typed, Erased, HubData.Crashes, HubData.EditText;
    hub.SameLength();
    for i := 0 to |typed|
      invariant hub.Valid() && hub.mode == EditingInput && hub.target == item && |hub.keys| == |hub.vals|
      invariant hub.EditText() == old(hub.EditText()) + typed[..i] && hub.edit_cursor == |hub.EditText()|
      invariant forall k :: hub.Get(k) == old(hub.Get(k))
    {
      assert typed[..i + 1] == typed[..i] + [typed[i]] && typed[i] in typed;
      ghost var text := hub.EditText();
      assert text[..|text|] == text && text[|text|..] == [];
      var r := hub.InputKey(Char(typed[i]));
      assert hub.EditText() == text + [typed[i]];
      hub.SameLength();
    }
    assert typed[..|typed|] == typed;
  }

  /** What is typed goes to the end of the text that is there. */
  method TypeText(hub: HubData, typed: bytes, ghost item: HubItem)
    requires At(hub, item) && item.widget.InputWidget? && 0 !in typed && !(QUICK_PROFILE <= item.id)
    modifies hub
    ensures hub.Valid() && hub.mode == Browsing
    ensures OnlyStored(hub, item, old(UpToZero(hub.CurrentValue(item))) + typed)
  {
    hide UpToZero, HubData.Item, Typed, Erased, HubData.InputValid, HubData.Crashes;
    ghost var text := UpToZero(hub.CurrentValue(item));
    Open(hub, item);
    TypeInto(hub, typed, item);
    OneEntry(hub.Commits(Enter), item.id, text + typed);
    var r := hub.InputKey(Enter);
  }

  // ----- yes and no

  lemma AnswerTexts()
    ensures YES == Ascii("yes") && NO == Ascii("no") && NO != YES
  {
    assert |YES| != |NO|;
  }

  /** The letters answer. */
  method AnswerByLetter(hub: HubData, yes: bool, upper: bool, ghost item: HubItem)
    requires At(hub, item) && item.widget.YesNoWidget?
    modifies hub
    ensures hub.Valid() && hub.mode == Browsing && OnlyStored(hub, item, Ascii(if yes then "yes" else "no"))
  {
    AnswerTexts();
    hide Ascii, HubData.Item;
    Open(hub, item);
    var letter := if yes then if upper then 'Y' else 'y' else if upper then 'N' else 'n';
    OneEntry(hub.Commits(Char(letter as byte)), item.id, Ascii(if yes then "yes" else "no"));
    hub.YesNoKey(Char(letter as byte));
  }

  /** Enter keeps an answer that is there, and Tab turns it over. */
  method AnswerByEnter(hub: HubData, turn: bool, ghost yes: bool, ghost item: HubItem)
    requires At(hub, item) && item.widget.YesNoWidget? && hub.CurrentValue(item) == Ascii(if yes then "yes" else "no")
    modifies hub
    ensures hub.Valid() && hub.mode == Browsing && OnlyStored(hub, item, Ascii(if yes != turn then "yes" else "no"))
  {
    AnswerTexts();
    hide Ascii, HubData.Item, YES, NO;
    Open(hub, item);
    if turn { hub.YesNoKey(Tab); }
    OneEntry(hub.Commits(Enter), item.id, Ascii(if yes != turn then "yes" else "no"));
    hub.YesNoKey(Enter);
  }

  // ----- passwords

  method TypePassword(hub: HubData, typed: bytes, ghost item: HubItem)
    requires hub.Valid() && hub.mode == EditingPassword && hub.target == item && 0 !in typed
    requires if hub.edit_pass_field then hub.edit_pass2 == [] else hub.edit_pass1 == []
    modifies hub
    ensures hub.Valid() && hub.mode == EditingPassword && hub.target == item
    ensures hub.edit_pass_field == old(hub.edit_pass_field)
    ensures if hub.edit_pass_field then hub.edit_pass2 == typed && hub.edit_pass1 == old(hub.edit_pass1)
            else hub.edit_pass1 == typed && hub.edit_pass2 == old(hub.edit_pass2)
    ensures forall k :: hub.Get(k) == old(hub.Get(k))
  {
    hide HubData.Valid;
    hub.SameLength();
    for i := 0 to |typed|
      invariant hub.Valid() && hub.mode == EditingPassword && hub.target == item && |hub.keys| == |hub.vals|
      invariant hub.edit_pass_field == old(hub.edit_pass_field)
      invariant if hub.edit_pass_field then hub.edit_pass2 == typed[..i] && hub.edit_pass1 == old(hub.edit_pass1)
                else hub.edit_pass1 == typed[..i] && hub.edit_pass2 == old(hub.edit_pass2)
      invariant forall k :: hub.Get(k) == old(hub.Get(k))
    {
      assert typed[..i + 1] == typed[..i] + [typed[i]] && typed[i] in typed;
      hub.PasswordKey(Char(typed[i]));
      hub.SameLength();
    }
    assert typed[..|typed|] == typed;
  }

  /** The password is stored if it is typed alike twice; otherwise the widget stays open and nothing is stored. */
  method SetPassword(hub: HubData, first: bytes, second: bytes, ghost item: HubItem)
    requires At(hub, item) && item.widget.PasswordWidget? && 0 !in first && 0 !in second
    modifies hub
    ensures hub.Valid()
    ensures if first == second != [] then hub.mode == Browsing && OnlyStored(hub, item, first)
            else hub.mode == EditingPassword && forall k :: hub.Get(k) == old(hub.Get(k))
  {
    Open(hub, item);
    TypePassword(hub, first, item);
    hub.PasswordKey(Tab);
    TypePassword(hub, second, item);
    if first == second != [] { OneEntry(hub.Commits(Enter), item.id, first); }
    hub.PasswordKey(Enter);
  }

  // ----- filters

  method TypeQuery(hub: HubData, query: bytes, ghost item: HubItem)
    requires hub.Valid() && hub.mode == EditingFilter && hub.target == item && 0 !in query && hub.edit_query == []
    modifies hub
    ensures hub.Valid() && hub.mode == EditingFilter && hub.target == item && hub.edit_query == query
    ensures query != [] ==> hub.edit_selected == 0
    ensures forall k :: hub.Get(k) == old(hub.Get(k))
  {
    hide HubData.Valid;
    hub.SameLength();
    for n := 0 to |query|
      invariant hub.Valid() && hub.mode == EditingFilter && hub.target == item && |hub.keys| == |hub.vals|
      invariant hub.edit_query == query[..n] && (n > 0 ==> hub.edit_selected == 0)
      invariant forall k :: hub.Get(k) == old(hub.Get(k))
    {
      assert query[..n + 1] == query[..n] + [query[n]] && query[n] in query;
      hub.FilterKey(Char(query[n]));
      hub.SameLength();
    }
    assert query[..|query|] == query;
  }

  /** Typing a query and Enter stores the first choice that it is found in, in capital or small letters. */
  method FindChoice(hub: HubData, query: bytes, ghost item: HubItem, ghost i: nat)
    requires At(hub, item) && item.widget.FilterWidget? && 0 !in query && query != []
    requires i < |item.choices| && Matches(item.choices[i], query)
    requires forall j :: 0 <= j < i ==> !Matches(item.choices[j], query)
    modifies hub
    ensures hub.Valid() && hub.mode == Browsing && OnlyStored(hub, item, item.choices[i])
  {
    hide Matches, Matching, HubData.Item;
    Open(hub, item);
    TypeQuery(hub, query, item);
    FirstMatch(item.choices, query, i);
    OneEntry(hub.Commits(Enter), item.id, item.choices[i]);
    hub.FilterKey(Enter);
  }

  lemma FirstMatch(choices: seq<bytes>, query: bytes, i: nat)
    requires i < |choices| && Matches(choices[i], query) && forall j :: 0 <= j < i ==> !Matches(choices[j], query)
    ensures var r := Matching(choices, query, |choices|); r != [] && r[0] == i
  {
    hide Matches;
    var r := Matching(choices, query, |choices|);
    assert i in r;
    assert !(r[0] > i) by {
      var k :| 0 <= k < |r| && r[k] == i;
      assert r[0] <= r[k];
    }
  }

  // ----- letters

  /** Letters match whatever their case, and nothing else is changed. */
  lemma LowerIsAscii(i: nat, b: byte)
    requires i < 26
    ensures LowerByte(Ascii("ABCDEFGHIJKLMNOPQRSTUVWXYZ")[i]) == Ascii("abcdefghijklmnopqrstuvwxyz")[i]
    ensures b < 'A' as byte || b > 'Z' as byte ==> LowerByte(b) == b
  {
    var upper, lower := "ABCDEFGHIJKLMNOPQRSTUVWXYZ", "abcdefghijklmnopqrstuvwxyz";
    assert lower[i] as int == upper[i] as int + 32 && 'A' <= upper[i] <= 'Z';
  }

  // ----- visible items

  /** A value with blanks in front of it, as it stands in a list of values. */
  datatype Token = Token(blanks: nat, name: bytes)

  predicate IsToken(t: Token) { ',' as byte !in t.name && (t.name != [] ==> t.name[0] != ' ' as byte) }

  function TokenText(t: Token): bytes { Spaces(t.blanks) + t.name }

  function Spaces(n: nat): (r: bytes)
    ensures |r| == n && forall i :: 0 <= i < n ==> r[i] == ' ' as byte
  {
    seq(n, _ => ' ' as byte)
  }

  /** Values separated by commas. */
  function ListText(tokens: seq<Token>): bytes {
    if tokens == [] then []
    else if |tokens| == 1 then TokenText(tokens[0])
    else TokenText(tokens[0]) + ([',' as byte] + ListText(tokens[1..]))
  }

  predicate Names(tokens: seq<Token>, v: bytes) {
    exists i :: 0 <= i < |tokens| && TokenText(tokens[i]) != [] && tokens[i].name == v
  }

  lemma {:induction false} TokenTrimmed(n: nat, name: bytes)
    requires name != [] ==> name[0] != SPACE
    ensures TrimSpaces(Spaces(n) + name) == name
  {
    if n > 0 {
      assert (Spaces(n) + name)[1..] == Spaces(n - 1) + name;
      TokenTrimmed(n - 1, name);
    } else {
      assert Spaces(0) + name == name;
    }
  }

  lemma {:induction false} EndsAt(s: bytes, i: nat, e: nat)
    requires i <= e <= |s| && (forall k :: i <= k < e ==> s[k] != COMMA) && (e < |s| ==> s[e] == COMMA)
    ensures TokenEnd(s, i) == e
    decreases e - i
  {
    if i < e { EndsAt(s, i + 1, e); }
  }

  /** One value of the list, up to its comma or the end. */
  lemma OneToken(v: bytes, t: Token, allowed: bytes, i: nat, e: nat)
    requires IsToken(t) && i <= e <= |allowed| && allowed[i..e] == TokenText(t)
    requires e < |allowed| ==> allowed[e] == COMMA
    ensures Listed(v, allowed, i) <==>
            (TokenText(t) != [] && t.name == v) || (e < |allowed| && Listed(v, allowed, e + 1))
  {
    hide TrimSpaces, TokenEnd;
    TokenTrimmed(t.blanks, t.name);
    forall k | i <= k < e
      ensures allowed[k] != COMMA
    {
      assert allowed[k] == allowed[i..e][k - i];
    }
    if i < e { EndsAt(allowed, i + 1, e); }
  }

  /** A value is listed if and only if it is one of the names, empty texts aside. */
  lemma {:induction false} ListedByName(v: bytes, tokens: seq<Token>, allowed: bytes, i: nat)
    requires forall k :: 0 <= k < |tokens| ==> IsToken(tokens[k])
    requires i <= |allowed| && allowed[i..] == ListText(tokens)
    ensures Listed(v, allowed, i) <==> Names(tokens, v)
    decreases |tokens|
  {
    if tokens == [] {
      NoNames(v);
    } else {
      hide Listed, Names, TokenText, IsToken;
      var e := i + |TokenText(tokens[0])|;
      SplitList(tokens, allowed, i);
      NamesFirst(tokens, v);
      if |tokens| > 1 { ListedByName(v, tokens[1..], allowed, e + 1); } else { NoNames(v); }
      OneToken(v, tokens[0], allowed, i, e);
    }
  }

  lemma SplitList(tokens: seq<Token>, allowed: bytes, i: nat)
    requires tokens != [] && i <= |allowed| && allowed[i..] == ListText(tokens)
    ensures var e := i + |TokenText(tokens[0])|;
            && e <= |allowed| && allowed[i..e] == TokenText(tokens[0])
            && (if |tokens| == 1 then tokens[1..] == [] && e == |allowed|
                else e < |allowed| && allowed[e] == COMMA && allowed[e + 1..] == ListText(tokens[1..]))
  {
    hide TokenText;
    var t := TokenText(tokens[0]);
    var e := i + |t|;
    assert allowed[i..][..|t|] == t && allowed[i..e] == t;
    assert allowed[e..] == allowed[i..][|t|..];
    if |tokens| > 1 {
      assert allowed[e..] == [',' as byte] + ListText(tokens[1..]);
      assert allowed[e] == allowed[e..][0] && allowed[e + 1..] == allowed[e..][1..];
    }
  }

  lemma NoNames(v: bytes)
    ensures !Names([], v)
  {
  }

  lemma NamesFirst(tokens: seq<Token>, v: bytes)
    requires tokens != []
    ensures Names(tokens, v) <==> (TokenText(tokens[0]) != [] && tokens[0].name == v) || Names(tokens[1..], v)
  {
    var rest := tokens[1..];
    if Names(rest, v) {
      var i :| 0 <= i < |rest| && TokenText(rest[i]) != [] && rest[i].name == v;
      assert tokens[i + 1] == rest[i];
    }
    if Names(tokens, v) {
      var i :| 0 <= i < |tokens| && TokenText(tokens[i]) != [] && tokens[i].name == v;
      if i > 0 { assert rest[i - 1] == tokens[i]; }
    }
  }

  /** How many of the items are visible. */
  function VisibleCount(keys: seq<bytes>, vals: seq<bytes>, items: seq<HubItem>): nat
    requires |keys| == |vals|
  {
    if items == [] then 0
    else VisibleCount(keys, vals, items[..|items| - 1]) + if Visible(keys, vals, items[|items| - 1]) then 1 else 0
  }

  lemma {:induction false} CountFirst(keys: seq<bytes>, vals: seq<bytes>, items: seq<HubItem>)
    requires |keys| == |vals| && items != []
    ensures VisibleCount(keys, vals, items) ==
            VisibleCount(keys, vals, items[1..]) + if Visible(keys, vals, items[0]) then 1 else 0
    decreases |items|
  {
    hide Visible;
    var n := |items| - 1;
    if n > 0 {
      CountFirst(keys, vals, items[..n]);
      assert items[..n][1..] == items[1..][..n - 1];
    }
  }

  /** The cursor on position n is on the visible item that has n visible ones before it. */
  lemma {:induction false} NthVisibleIs(keys: seq<bytes>, vals: seq<bytes>, items: seq<HubItem>, i: nat)
    requires |keys| == |vals| && i < |items| && Visible(keys, vals, items[i])
    ensures NthVisible(keys, vals, items, VisibleCount(keys, vals, items[..i])) == Option.Some(items[i])
    decreases |items|
  {
    hide Visible;
    if i > 0 {
      assert items[..i][1..] == items[1..][..i - 1];
      CountFirst(keys, vals, items[..i]);
      NthVisibleIs(keys, vals, items[1..], i - 1);
    }
  }

  // ----- marks

  /** The marked choices are those and no others, in order. */
  lemma {:induction false} ChosenAt(choices: seq<bytes>, marks: seq<bool>, n: nat, i: nat)
    requires i < n <= |choices| == |marks| && marks[i]
    ensures var all, before := Chosen(choices, marks, n), Chosen(choices, marks, i);
            |before| < |all| && all[|before|] == String(choices[i]) && all[..|before|] == before
    decreases n
  {
    if i < n - 1 { ChosenAt(choices, marks, n - 1, i); }
  }
}
