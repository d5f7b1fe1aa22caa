/**
 What the installer hub works on: a store of values, items that are visible
 depending on it, the choices that match a query, and what profiles store.
 */
module HubSpec {
  import opened Bits
  import opened Common
  import opened JsonRoundTrip
  import opened JsonText

  datatype Widget =
    | MenuWidget
    | FilterWidget
    | InputWidget
    | PasswordWidget
    | YesNoWidget
    | MultiselectWidget
    | OtherWidget

  /** An item, shown if every condition's key has one of the listed values. */
  datatype HubItem = HubItem(id: bytes, value: bytes, widget: Widget, choices: seq<bytes>, conditions: seq<Condition>)

  datatype Condition = Condition(key: bytes, allowed: bytes)

  datatype Entry = Entry(key: bytes, value: bytes)

  /** All strings of an item are C strings. */
  ghost predicate CStrings(item: HubItem) {
    CString(item.id) && CString(item.value) && forall i :: 0 <= i < |item.choices| ==> CString(item.choices[i])
  }

  // ----- the store

  /** The value of the first entry with that key. */
  function Value(keys: seq<bytes>, vals: seq<bytes>, key: bytes): Option<bytes>
    requires |keys| == |vals|
  {
    if keys == [] then None else if keys[0] == key then Some(vals[0]) else Value(keys[1..], vals[1..], key)
  }

  ghost predicate Distinct(keys: seq<bytes>) {
    forall i, j :: 0 <= i < j < |keys| ==> keys[i] != keys[j]
  }

  lemma {:induction false} ValueAt(keys: seq<bytes>, vals: seq<bytes>, key: bytes, i: nat)
    requires |keys| == |vals| && i <= |keys| && forall k :: 0 <= k < i ==> keys[k] != key
    ensures Value(keys, vals, key) == Value(keys[i..], vals[i..], key)
    ensures i < |keys| && keys[i] == key ==> Value(keys, vals, key) == Some(vals[i])
    ensures i == |keys| ==> Value(keys, vals, key) == None
    decreases i
  {
    if i == 0 {
      assert keys[0..] == keys && vals[0..] == vals;
    } else {
      ValueAt(keys[1..], vals[1..], key, i - 1);
      assert keys[1..][i - 1..] == keys[i..] && vals[1..][i - 1..] == vals[i..];
    }
  }

  /** Replacing the value at a key's only entry. */
  lemma {:induction false} ValueReplaced(keys: seq<bytes>, vals: seq<bytes>, i: nat, v: bytes, k: bytes)
    requires |keys| == |vals| && i < |keys| && Distinct(keys)
    ensures Value(keys, vals[i := v], k) == if k == keys[i] then Some(v) else Value(keys, vals, k)
    decreases i
  {
    if i > 0 {
      assert vals[i := v][1..] == vals[1..][i - 1 := v];
      ValueReplaced(keys[1..], vals[1..], i - 1, v, k);
    }
  }

  lemma {:induction false} ValueAppended(keys: seq<bytes>, vals: seq<bytes>, key: bytes, v: bytes, k: bytes)
    requires |keys| == |vals| && key !in keys
    ensures Value(keys + [key], vals + [v], k) == if k == key then Some(v) else Value(keys, vals, k)
    decreases |keys|
  {
    if keys != [] {
      assert (keys + [key])[1..] == keys[1..] + [key] && (vals + [v])[1..] == vals[1..] + [v];
      ValueAppended(keys[1..], vals[1..], key, v, k);
    }
  }

  /** A key's value once the entries have been stored one after another. */
  function Overlaid(entries: seq<Entry>, key: bytes, before: Option<bytes>): Option<bytes> {
    if entries == [] then before
    else if entries[|entries| - 1].key == key then Some(entries[|entries| - 1].value)
    else Overlaid(entries[..|entries| - 1], key, before)
  }

  lemma {:induction false} OverlaidJoin(es: seq<Entry>, fs: seq<Entry>, key: bytes, before: Option<bytes>)
    ensures Overlaid(es + fs, key, before) == Overlaid(fs, key, Overlaid(es, key, before))
    decreases |fs|
  {
    if fs == [] {
      assert es + fs == es;
    } else {
      assert (es + fs)[..|es + fs| - 1] == es + fs[..|fs| - 1];
      OverlaidJoin(es, fs[..|fs| - 1], key, before);
    }
  }

  /** The entries that the hub starts with. */
  function Defaults(items: seq<HubItem>): seq<Entry> {
    seq(|items|, i requires 0 <= i < |items| => Entry(items[i].id, items[i].value))
  }

  function AllDefaults(categories: seq<seq<HubItem>>): seq<Entry> {
    if categories == [] then []
    else AllDefaults(categories[..|categories| - 1]) + Defaults(categories[|categories| - 1])
  }

  lemma NoDefaults(before: seq<Entry>, items: seq<HubItem>)
    ensures before + Defaults(items[..0]) == before
  {
  }

  lemma OneDefault(before: seq<Entry>, items: seq<HubItem>, i: nat)
    requires i < |items|
    ensures forall k :: Overlaid(before + Defaults(items[..i + 1]), k, None) ==
                        if k == items[i].id then Some(items[i].value)
                        else Overlaid(before + Defaults(items[..i]), k, None)
  {
    var shorter, last := before + Defaults(items[..i]), Entry(items[i].id, items[i].value);
    assert before + Defaults(items[..i + 1]) == shorter + [last];
    assert (shorter + [last])[..|shorter|] == shorter;
    forall k
      ensures Overlaid(shorter + [last], k, None) == if k == last.key then Some(last.value)
        else Overlaid(shorter, k, None)
    {
    }
  }

  lemma DefaultsOf(categories: seq<seq<HubItem>>, c: nat)
    requires c < |categories|
    ensures AllDefaults(categories[..c + 1]) == AllDefaults(categories[..c]) + Defaults(categories[c])
  {
    assert categories[..c + 1][..c] == categories[..c];
  }

  /** The store as the members of a JSON object. */
  function StoreMembers(keys: seq<bytes>, vals: seq<bytes>): seq<Member>
    requires |keys| == |vals|
  {
    seq(|keys|, i requires 0 <= i < |keys| => Member(keys[i], String(vals[i])))
  }

  // ----- which items are visible

  const SPACE: byte := 32

  function TrimSpaces(s: bytes): bytes { if s != [] && s[0] == SPACE then TrimSpaces(s[1..]) else s }

  function TokenEnd(s: bytes, i: nat): (r: nat)
    requires i <= |s|
    ensures i <= r <= |s|
    decreases |s| - i
  {
    if i < |s| && s[i] != COMMA then TokenEnd(s, i + 1) else i
  }

  /** v is one of the comma-separated values of `allowed`, leading blanks aside; empty tokens do not count. */
  predicate Listed(v: bytes, allowed: bytes, i: nat)
    requires i <= |allowed|
    decreases |allowed| - i
  {
    i < |allowed| &&
    if allowed[i] == COMMA then Listed(v, allowed, i + 1)
    else
      var e := TokenEnd(allowed, i + 1);
      TrimSpaces(allowed[i..e]) == v || Listed(v, allowed, e)
  }

  predicate Visible(keys: seq<bytes>, vals: seq<bytes>, item: HubItem)
    requires |keys| == |vals|
  {
    forall i :: 0 <= i < |item.conditions| ==>
      var v := Value(keys, vals, item.conditions[i].key);
      v.Some? && Listed(v.value, item.conditions[i].allowed, 0)
  }

  /** The n-th visible item from i on. */
  function NthVisible(keys: seq<bytes>, vals: seq<bytes>, items: seq<HubItem>, n: nat): Option<HubItem>
    requires |keys| == |vals|
  {
    if items == [] then None
    else if !Visible(keys, vals, items[0]) then NthVisible(keys, vals, items[1..], n)
    else if n == 0 then Some(items[0])
    else NthVisible(keys, vals, items[1..], n - 1)
  }

  lemma {:induction false} NoneAfter(keys: seq<bytes>, vals: seq<bytes>, items: seq<HubItem>, m: nat, n: nat)
    requires |keys| == |vals| && m <= n && NthVisible(keys, vals, items, m) == None
    ensures NthVisible(keys, vals, items, n) == None
    decreases |items|
  {
    if items != [] {
      if !Visible(keys, vals, items[0]) {
        NoneAfter(keys, vals, items[1..], m, n);
      } else {
        NoneAfter(keys, vals, items[1..], m - 1, n - 1);
      }
    }
  }

  lemma NoItems(keys: seq<bytes>, vals: seq<bytes>, n: nat)
    requires |keys| == |vals|
    ensures NthVisible(keys, vals, [], n) == None
  {
  }

  lemma {:induction false} NthVisibleIn(keys: seq<bytes>, vals: seq<bytes>, items: seq<HubItem>, n: nat)
    requires |keys| == |vals|
    ensures var r := NthVisible(keys, vals, items, n); r.Some? ==> exists i :: 0 <= i < |items| && items[i] == r.value
    decreases |items|
  {
    if items != [] && NthVisible(keys, vals, items, n) != Some(items[0]) {
      NthVisibleIn(keys, vals, items[1..], if Visible(keys, vals, items[0]) && n > 0 then n - 1 else n);
      forall i | 0 <= i < |items| - 1
        ensures items[1..][i] == items[i + 1]
      {
      }
    }
  }

  // ----- typing into a text

  /** memmove of n bytes inside a block. */
  function Moved(block: bytes, to: nat, from: nat, n: nat): (r: bytes)
    requires to + n <= |block| && from + n <= |block|
    ensures |r| == |block|
  {
    block[..to] + block[from..from + n] + block[to + n..]
  }

  /** The block after a byte has been typed at the cursor, which may be one behind the end of the text. */
  function Typed(block: bytes, cursor: nat, ch: byte): bytes
    requires cursor <= |UpToZero(block)| + 1
  {
    var text := UpToZero(block);
    if cursor <= |text| then text[..cursor] + [ch] + text[cursor..] + [0] else text + [0, ch]
  }

  /** The block after a backspace: the string at the cursor moves up by one. */
  function Erased(block: bytes, cursor: nat): (r: bytes)
    requires 0 < cursor <= |block| && 0 in block[cursor..]
    ensures |r| == |block|
  {
    var rest := UpToZero(block[cursor..]);
    ZeroBehind(block[cursor..]);
    block[..cursor - 1] + rest + [0] + block[cursor + |rest|..]
  }

  lemma {:induction false} ZeroBehind(block: bytes)
    requires 0 in block
    ensures |UpToZero(block)| < |block| && block[|UpToZero(block)|] == 0
  {
    if block[0] != 0 { ZeroBehind(block[1..]); }
  }

  lemma {:induction false} UpToFirst(block: bytes, n: nat)
    requires n < |block| && block[n] == 0 && 0 !in block[..n]
    ensures UpToZero(block) == block[..n]
  {
    if n > 0 {
      assert block[0] == block[..n][0];
      assert block[1..][..n - 1] == block[..n][1..];
      UpToFirst(block[1..], n - 1);
    }
  }

  /** A new text. */
  lemma NewText(text: bytes)
    requires 0 !in text
    ensures 0 in text + [0] && UpToZero(text + [0]) == text
  {
    var block := text + [0];
    assert block[|text|] == 0 && block[..|text|] == text;
    UpToFirst(block, |text|);
  }

  /** A block that is made two longer than its text keeps the text. */
  lemma Reallocated(block: bytes, r: bytes)
    requires 0 in block && |r| == |UpToZero(block)| + 2
    requires forall i :: 0 <= i < |r| && i < |block| ==> r[i] == block[i]
    ensures 0 in r && UpToZero(r) == UpToZero(block)
  {
    hide UpToZero;
    var n := |UpToZero(block)|;
    ZeroBehind(block);
    assert r[..n] == block[..n] == UpToZero(block);
    assert r[n] == 0;
    UpToFirst(r, n);
  }

  /** memmove and the store make room for the byte and put it there. */
  lemma TypedIsMoved(block: bytes, r: bytes, cursor: nat, ch: byte)
    requires 0 in block && |r| == |UpToZero(block)| + 2 && cursor <= |UpToZero(block)| + 1
    requires forall i :: 0 <= i < |r| && i < |block| ==> r[i] == block[i]
    ensures Moved(r, cursor + 1, cursor, |UpToZero(block)| - cursor + 1)[cursor := ch] == Typed(block, cursor, ch)
  {
    hide UpToZero;
    var text := UpToZero(block);
    var n := |text|;
    ZeroBehind(block);
    assert forall i :: 0 <= i < n ==> r[i] == text[i];
    var moved := Moved(r, cursor + 1, cursor, n - cursor + 1)[cursor := ch];
    assert |moved| == |Typed(block, cursor, ch)| == n + 2;
    if cursor <= n {
      assert moved == r[..cursor] + [ch] + r[cursor..n + 1];
      assert r[..cursor] == text[..cursor] && r[cursor..n + 1] == text[cursor..] + [0];
    } else {
      assert moved == r[..n + 1] + [ch];
      assert r[..n + 1] == text + [0];
    }
  }

  /** memmove of the string at the cursor takes the byte in front of it out. */
  lemma ErasedIsMoved(block: bytes, cursor: nat)
    requires 0 < cursor <= |block| && 0 in block[cursor..]
    ensures var n := |UpToZero(block[cursor..])| + 1;
            cursor + n <= |block| && Moved(block, cursor - 1, cursor, n) == Erased(block, cursor)
  {
    hide UpToZero;
    var rest := UpToZero(block[cursor..]);
    ZeroBehind(block[cursor..]);
    assert block[cursor..cursor + |rest| + 1] == rest + [0];
  }

  /** A typed byte goes into the text at the cursor, and a zero cuts the text off there; behind the end of the text it
      does not show. */
  lemma TypedText(block: bytes, cursor: nat, ch: byte)
    requires cursor <= |UpToZero(block)| + 1
    ensures 0 in Typed(block, cursor, ch)
    ensures UpToZero(Typed(block, cursor, ch)) ==
            var text := UpToZero(block);
            if cursor > |text| then text else if ch == 0 then text[..cursor]
            else text[..cursor] + [ch] + text[cursor..]
  {
    hide UpToZero;
    var text, typed := UpToZero(block), Typed(block, cursor, ch);
    var n := if cursor > |text| then |text| else if ch == 0 then cursor else |text| + 1;
    assert typed[n] == 0;
    assert typed[..n] == if cursor > |text| then text else if ch == 0 then text[..cursor]
      else text[..cursor] + [ch] + text[cursor..];
    UpToFirst(typed, n);
  }

  lemma {:induction false} TextTail(block: bytes, cursor: nat)
    requires 0 in block && cursor <= |UpToZero(block)|
    ensures cursor <= |block| && 0 in block[cursor..] && UpToZero(block[cursor..]) == UpToZero(block)[cursor..]
    decreases cursor
  {
    ZeroBehind(block);
    if cursor > 0 {
      TextTail(block[1..], cursor - 1);
      assert block[1..][cursor - 1..] == block[cursor..];
    } else {
      assert block[0..] == block;
    }
  }

  /** Inside the text a backspace takes one byte out. */
  lemma ErasedInside(block: bytes, cursor: nat)
    requires 0 < cursor <= |UpToZero(block)| && 0 in block
    ensures cursor <= |block| && 0 in block[cursor..] && 0 in Erased(block, cursor)
    ensures UpToZero(Erased(block, cursor)) == UpToZero(block)[..cursor - 1] + UpToZero(block)[cursor..]
  {
    hide UpToZero;
    TextTail(block, cursor);
    ZeroBehind(block[cursor..]);
    var text, erased, rest := UpToZero(block), Erased(block, cursor), UpToZero(block[cursor..]);
    var n := cursor - 1 + |rest|;
    assert erased[n] == 0;
    assert erased[..n] == text[..cursor - 1] + rest;
    UpToFirst(erased, n);
  }

  /** Behind the end of the text it joins what stands at the cursor to it, or leaves the text as it is. */
  lemma ErasedBehind(block: bytes, cursor: nat)
    requires |UpToZero(block)| < cursor <= |block| && 0 in block && 0 in block[cursor..]
    ensures 0 in Erased(block, cursor)
    ensures UpToZero(Erased(block, cursor)) ==
            UpToZero(block) + if cursor == |UpToZero(block)| + 1 then UpToZero(block[cursor..]) else []
  {
    hide UpToZero;
    ZeroBehind(block);
    ZeroBehind(block[cursor..]);
    var text, erased, rest := UpToZero(block), Erased(block, cursor), UpToZero(block[cursor..]);
    var n := if cursor == |text| + 1 then |text| + |rest| else |text|;
    assert erased[n] == 0;
    assert erased[..n] == text + if cursor == |text| + 1 then rest else [];
    UpToFirst(erased, n);
  }

  // ----- which choices match

  function LowerByte(b: byte): byte { if 65 <= b <= 90 then b + 32 else b }

  function Lower(s: bytes): (r: bytes)
    ensures |r| == |s|
  {
    seq(|s|, i requires 0 <= i < |s| => LowerByte(s[i]))
  }

  predicate FoundAt(s: bytes, t: bytes, i: nat) { i + |t| <= |s| && s[i..i + |t|] == t }

  /** strstr finds something. */
  predicate Contains(s: bytes, t: bytes) {
    exists i :: 0 <= i <= |s| && FoundAt(s, t, i)
  }

  predicate Matches(choice: bytes, query: bytes) { Contains(Lower(choice), Lower(query)) }

  /** The indices of the first n choices that match, in order. */
  function Matching(choices: seq<bytes>, query: bytes, n: nat): (r: seq<nat>)
    requires n <= |choices|
    ensures forall k :: 0 <= k < |r| ==> r[k] < n && Matches(choices[r[k]], query)
    ensures forall k, l :: 0 <= k < l < |r| ==> r[k] < r[l]
    ensures forall i :: 0 <= i < n && Matches(choices[i], query) ==> i in r
  {
    if n == 0 then []
    else
      var front := Matching(choices, query, n - 1);
      if Matches(choices[n - 1], query) then front + [n - 1] else front
  }

  lemma {:induction false} EmptyQueryMatches(choices: seq<bytes>, n: nat)
    requires n <= |choices|
    ensures Matching(choices, [], n) == seq<nat>(n, i => if i >= 0 then i else 0)
  {
    if n > 0 {
      EmptyQueryMatches(choices, n - 1);
      assert Lower([]) == [] && FoundAt(Lower(choices[n - 1]), Lower([]), 0);
      assert Matches(choices[n - 1], []);
    }
  }

  /** The chosen ones in the order of the choices. */
  function Chosen(choices: seq<bytes>, marks: seq<bool>, n: nat): seq<Json>
    requires n <= |choices| == |marks|
  {
    if n == 0 then []
    else Chosen(choices, marks, n - 1) + if marks[n - 1] then [String(choices[n - 1])] else []
  }

  /** The first choice equal to the current value. */
  ghost predicate IsFirst(choices: seq<bytes>, v: bytes, i: nat) {
    i < |choices| && choices[i] == v && forall k :: 0 <= k < i ==> choices[k] != v
  }
}
