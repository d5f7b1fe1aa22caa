/**
 The installer hub as a machine driven by keys: browsing categories and items,
 seven ways of editing an item, and what is stored when an edit ends.
 */
module Hub {
  import opened Bits
  import opened Common
  import opened HubSpec
  import opened JsonApi
  import opened JsonRoom
  import opened JsonRoundTrip
  import opened JsonText

  datatype Mode =
    | Browsing
    | EditingMenu
    | EditingInput
    | EditingPassword
    | EditingYesNo
    | EditingFilter
    | EditingMultiselect
    | EditingSubWidget
    | ConfirmProceed
    | ConfirmQuit

  datatype Key =
    | Esc
    | Up
    | Down
    | Left
    | Right
    | Tab
    | Enter
    | Backspace
    | Home
    | End
    | Function(n: nat)
    | Char(ch: byte)
    | OtherKey

  /** What an embedded widget makes of a key: it goes on, or it ends, maybe with a result. */
  datatype Reply = Waiting | Ended(result: Option<Json>)

  /** A key, and what the widgets outside of the hub do: whether one can be created, and the reply of the one there
      is. */
  datatype Event = Event(key: Key, created: bool, reply: Reply)

  /** Crash stands for reading or writing outside of an object. */
  datatype Response = Nothing | Quit | Answer(store: Json) | Action(name: bytes) | Crash

  const YES: bytes := [121, 101, 115]
  const NO: bytes := [110, 111]
  const PROCEED: bytes := [80, 114, 111, 99, 101, 101, 100]
  const QUICK_PROFILE: bytes := [81, 85, 73, 67, 75, 95, 80, 82, 79, 70, 73, 76, 69, 95]

  /** The text that a widget's result is stored as. */
  function ResultText(v: Json): Option<bytes> {
    match v
    case String(s) => Some(s)
    case True => Some(YES)
    case False => Some(NO)
    case Array(_) => Some(Print(v))
    case Object(_) => Some(Print(v))
    case _ => None
  }

  /** The result has to be printed, and that does not end well. */
  predicate Unprintable(reply: Reply) {
    match reply
    case Ended(Some(v)) => (v.Array? || v.Object?) && PrintEnd(v) != Printed
    case _ => false
  }

  /** A result is a tree of cJSON items. */
  ghost predicate Holdable(reply: Reply) {
    match reply
    case Ended(Some(v)) => Held(v)
    case _ => true
  }

  function ReplyText(reply: Reply): Option<bytes> {
    match reply
    case Ended(Some(v)) => if Unprintable(reply) then None else ResultText(v)
    case _ => None
  }

  predicate Agrees(key: Key) { key == Char(121) || key == Char(89) }

  predicate Declines(key: Key) { key == Char(110) || key == Char(78) }

  /** Modes that hub_handle_event hands to hub_handle_edit_event in any case. */
  predicate Editing(mode: Mode) {
    mode in {EditingMenu, EditingInput, EditingPassword, EditingYesNo, EditingFilter, EditingMultiselect}
  }

  /** What is edited in a mode. */
  predicate Suits(mode: Mode, widget: Widget) {
    match mode
    case EditingMenu => widget.MenuWidget?
    case EditingInput => widget.InputWidget?
    case EditingPassword => widget.PasswordWidget?
    case EditingYesNo => widget.YesNoWidget?
    case EditingFilter => widget.FilterWidget?
    case EditingMultiselect => widget.MultiselectWidget?
    case EditingSubWidget => widget.OtherWidget?
    case _ => true
  }

  /** Values that editing an item can give it. */
  ghost predicate Possible(item: HubItem, value: bytes) {
    match item.widget
    case MenuWidget => value in item.choices
    case FilterWidget => value in item.choices
    case PasswordWidget => value != []
    case YesNoWidget => value == YES || value == NO
    case MultiselectWidget =>
      exists marks: seq<bool> ::
        |marks| == |item.choices| && value == Print(Array(Chosen(item.choices, marks, |item.choices|)))
    case _ => true
  }

  /** Events that can end an edit with a value. */
  predicate Committing(ev: Event) {
    ev.key == Enter || Agrees(ev.key) || Declines(ev.key) || ReplyText(ev.reply).Some?
  }

  function Flat(log: seq<seq<Entry>>): seq<Entry> {
    if log == [] then [] else Flat(log[..|log| - 1]) + log[|log| - 1]
  }

  class HubData {
    const categories: seq<seq<HubItem>>
    const actions: seq<bytes>
    /** What choosing a quick profile stores, by item and value. */
    const profile: (bytes, bytes) -> seq<Entry>
    var cat_idx: int
    var item_idx: nat
    var keys: seq<bytes>
    var vals: seq<bytes>
    var mode: Mode
    var edit_selected: nat
    /** The block of edit_text, which is the string in front of its first zero. */
    var edit_buffer: bytes
    var edit_cursor: nat
    var edit_pass1: bytes
    var edit_pass2: bytes
    var edit_pass_field: bool
    var edit_yes: bool
    var edit_query: bytes
    var edit_filtered: seq<nat>
    var edit_selected_set: seq<bool>
    var sub_widget: bool
    /** The item that editing was opened on. */
    ghost var target: HubItem

    ghost function Get(key: bytes): Option<bytes>
      requires |keys| == |vals|
      reads `keys, `vals
    {
      Value(keys, vals, key)
    }

    ghost function Category(): seq<HubItem>
      reads `cat_idx
    {
      if 0 <= cat_idx < |categories| then categories[cat_idx] else []
    }

    ghost function Item(): Option<HubItem>
      requires |keys| == |vals|
      reads `keys, `vals, `cat_idx, `item_idx
    {
      NthVisible(keys, vals, Category(), item_idx)
    }

    ghost function EditText(): bytes
      reads `edit_buffer
    {
      UpToZero(edit_buffer)
    }

    /** The cursor of an input can stand up to two behind the end of the text. */
    ghost predicate InputValid()
      reads `edit_buffer, `edit_cursor
    {
      0 in edit_buffer && edit_cursor <= |edit_buffer| && edit_cursor <= |EditText()| + 2
    }

    /** The cursor of an input stands in the text or at its end. */
    ghost predicate Inside()
      reads `mode, `edit_buffer, `edit_cursor
    {
      mode == EditingInput ==> edit_cursor <= |EditText()|
    }

    /** The store has one entry per key; while an item is edited it is still the one opened; positions and the index
        list are right. */
    ghost predicate Valid()
      reads this
    {
      && |keys| == |vals| && Distinct(keys)
      && (if categories == [] then -1 <= cat_idx <= 0 else 0 <= cat_idx < |categories|)
      && (forall c, i :: 0 <= c < |categories| && 0 <= i < |categories[c]| ==> CStrings(categories[c][i]))
      && (sub_widget ==> mode == EditingSubWidget)
      && (Editing(mode) || sub_widget ==> Item() == Some(target) && CStrings(target) && Suits(mode, target.widget))
      && (mode == EditingMenu ==> edit_selected < |target.choices| || (edit_selected == 0 && target.choices == []))
      && (mode == EditingInput ==> InputValid())
      && (mode == EditingFilter || mode == EditingMultiselect ==>
            && edit_filtered == Matching(target.choices, edit_query, |target.choices|)
            && (edit_selected < |edit_filtered| || (edit_selected == 0 && edit_filtered == [])))
      && (mode == EditingMultiselect ==> |edit_selected_set| == |target.choices|)
    }

    /** Nothing but the value of `key` has changed in the store. */
    twostate predicate Stored(key: bytes, value: bytes)
      requires old(|keys| == |vals|) && |keys| == |vals|
      reads `keys, `vals
    {
      forall k :: Get(k) == if k == key then Some(value) else old(Get(k))
    }

    /** The entries have been stored in this order, and nothing else. */
    twostate predicate StoredAll(entries: seq<Entry>)
      requires old(|keys| == |vals|) && |keys| == |vals|
      reads `keys, `vals
    {
      forall k :: Get(k) == Overlaid(entries, k, old(Get(k)))
    }

    /** install_hub_factory: the items' values are stored in order. */
    constructor (categories: seq<seq<HubItem>>, actions: seq<bytes>, profile: (bytes, bytes) -> seq<Entry>)
      requires forall c, i :: 0 <= c < |categories| && 0 <= i < |categories[c]| ==> CStrings(categories[c][i])
      ensures Valid() && this.categories == categories && this.actions == actions && this.profile == profile &&
          mode == Browsing && cat_idx == item_idx == 0
      ensures forall k :: Get(k) == Overlaid(AllDefaults(categories), k, None)
    {
      this.categories, this.actions, this.profile := categories, actions, profile;
      cat_idx, item_idx, keys, vals, mode := 0, 0, [], [], Browsing;
      edit_selected, edit_query, edit_filtered, edit_selected_set := 0, [], [], [];
      edit_buffer, edit_cursor, edit_pass1, edit_pass2, edit_pass_field, edit_yes, sub_widget := [], 0, [], [], false,
        false, false;
      target := HubItem([], [], OtherWidget, [], []);
      new;
      hide Visible, NthVisible, Matching, CStrings;
      NothingStored();
      hide Value, Distinct;
      for c := 0 to |categories|
        invariant Valid() && mode == Browsing && cat_idx == item_idx == 0
        invariant forall k :: Get(k) == Overlaid(AllDefaults(categories[..c]), k, None)
      {
        StoreDefaults(categories[c], AllDefaults(categories[..c]));
        DefaultsOf(categories, c);
      }
      assert categories[..|categories|] == categories;
    }

    /** The values of one category's items. */
    method StoreDefaults(items: seq<HubItem>, ghost before: seq<Entry>)
      requires |keys| == |vals| && Distinct(keys) && forall k :: Get(k) == Overlaid(before, k, None)
      modifies `keys, `vals
      ensures |keys| == |vals| && Distinct(keys)
      ensures forall k :: Get(k) == Overlaid(before + Defaults(items), k, None)
    {
      hide Value, Distinct;
      NoDefaults(before, items);
      for i := 0 to |items|
        invariant |keys| == |vals| && Distinct(keys)
        invariant forall k :: Get(k) == Overlaid(before + Defaults(items[..i]), k, None)
      {
        HubSet(items[i].id, items[i].value);
        OneDefault(before, items, i);
      }
      assert items[..|items|] == items;
    }

    lemma NothingStored()
      requires keys == [] && vals == []
      ensures Distinct(keys) && forall k :: Get(k) == None
    {
    }

    method HubGet(key: bytes) returns (r: Option<bytes>)
      requires |keys| == |vals|
      ensures r == Get(key)
    {
      for i := 0 to |keys|
        invariant forall k :: 0 <= k < i ==> keys[k] != key
      {
        if keys[i] == key {
          ValueAt(keys, vals, key, i);
          return Some(vals[i]);
        }
      }
      ValueAt(keys, vals, key, |keys|);
      return None;
    }

    /** hub_set: replaces the value or appends a new entry; keys stay distinct. */
    method HubSet(key: bytes, value: bytes)
      requires |keys| == |vals| && Distinct(keys)
      modifies `keys, `vals
      ensures |keys| == |vals| && Distinct(keys) && Stored(key, value)
      ensures old(keys) <= keys && |keys| <= old(|keys|) + 1
    {
      for i := 0 to |keys|
        invariant keys == old(keys) && vals == old(vals)
        invariant forall k :: 0 <= k < i ==> keys[k] != key
      {
        if keys[i] == key {
          forall k
            ensures Value(keys, vals[i := value], k) == if k == key then Some(value) else old(Get(k))
          {
            ValueReplaced(keys, vals, i, value, k);
          }
          vals := vals[i := value];
          return;
        }
      }
      forall k
        ensures Value(keys + [key], vals + [value], k) == if k == key then Some(value) else old(Get(k))
      {
        ValueAppended(keys, vals, key, value, k);
      }
      keys := keys + [key];
      vals := vals + [value];
    }

    /** hub_get_item */
    method HubGetItem() returns (r: Option<HubItem>)
      requires |keys| == |vals| && 0 <= cat_idx < |categories|
      ensures r == Item()
    {
      var items := categories[cat_idx];
      var vi := 0;
      assert items[0..] == items;
      for i := 0 to |items|
        invariant vi <= item_idx
        invariant Item() == NthVisible(keys, vals, items[i..], item_idx - vi)
      {
        assert items[i..][1..] == items[i + 1..];
        if Visible(keys, vals, items[i]) {
          if vi == item_idx { return Some(items[i]); }
          vi := vi + 1;
        }
      }
      return None;
    }

    /** hub_get_item while an item is edited: the one that editing was opened on. */
    method OpenItem() returns (item: HubItem)
      requires Valid() && (Editing(mode) || sub_widget)
      ensures item == target
    {
      hide Value, Visible, Matching, Distinct, CStrings;
      var found := HubGetItem();
      item := found.value;
    }

    /** hub_update_filter: the list of matching choices, with the selection pulled back into it. */
    method UpdateFilter(choices: seq<bytes>)
      modifies `edit_filtered, `edit_selected
      ensures edit_filtered == Matching(choices, edit_query, |choices|)
      ensures edit_selected == if old(edit_selected) < |edit_filtered| then old(edit_selected)
                               else if edit_filtered == [] then 0 else |edit_filtered| - 1
    {
      edit_filtered := [];
      if edit_query == [] {
        EmptyQueryMatches(choices, |choices|);
        for i := 0 to |choices|
          modifies `edit_filtered
          invariant edit_filtered == seq<nat>(i, k => if k >= 0 then k else 0)
        {
          edit_filtered := edit_filtered + [i];
        }
      } else {
        for i := 0 to |choices|
          modifies `edit_filtered
          invariant edit_filtered == Matching(choices, edit_query, i)
        {
          if Contains(Lower(choices[i]), Lower(edit_query)) { edit_filtered := edit_filtered + [i]; }
        }
      }
      if edit_selected >= |edit_filtered| {
        edit_selected := if |edit_filtered| > 0 then |edit_filtered| - 1 else 0;
      }
    }

    /** Several calls of hub_set, one after another. */
    method SetAll(entries: seq<Entry>)
      requires |keys| == |vals| && Distinct(keys)
      modifies `keys, `vals
      ensures |keys| == |vals| && Distinct(keys) && StoredAll(entries)
    {
      hide Value, Distinct;
      for i := 0 to |entries|
        invariant |keys| == |vals| && Distinct(keys) && StoredAll(entries[..i])
      {
        assert entries[..i + 1][..i] == entries[..i];
        HubSet(entries[i].key, entries[i].value);
      }
      assert entries[..|entries|] == entries;
    }

    // ----- opening an item

    /** Editing starts from the current value, in the way of the item's widget. */
    ghost predicate Opened(item: HubItem, created: bool)
      requires |keys| == |vals|
      reads this
    {
      && target == item && (sub_widget <==> mode == EditingSubWidget && created)
      && match item.widget
         case MenuWidget =>
           && mode == EditingMenu
           && (forall i: nat :: IsFirst(item.choices, CurrentValue(item), i) ==> edit_selected == i)
           && (CurrentValue(item) !in item.choices ==> edit_selected == 0)
         case FilterWidget =>
           && mode == EditingFilter && edit_query == []
           && (forall i: nat :: IsFirst(item.choices, CurrentValue(item), i) ==>
                edit_selected == i < |edit_filtered| && edit_filtered[i] == i)
         case InputWidget =>
           && mode == EditingInput && edit_buffer == EditText() + [0]
           && EditText() == UpToZero(CurrentValue(item)) && edit_cursor == |EditText()|
         case PasswordWidget => mode == EditingPassword && edit_pass1 == edit_pass2 == [] && !edit_pass_field
         case YesNoWidget => mode == EditingYesNo && (edit_yes <==> CurrentValue(item) == YES)
         case MultiselectWidget =>
           mode == EditingMultiselect && edit_query == [] && edit_selected == 0 && true !in edit_selected_set
         case OtherWidget => mode == EditingSubWidget
    }

    /** hub_enter_edit: what is edited starts from the current value. */
    method EnterEdit(item: HubItem, created: bool)
      requires Valid() && Item() == Some(item) && CStrings(item) && !sub_widget
      modifies `edit_selected, `edit_buffer, `edit_cursor, `edit_pass1, `edit_pass2, `edit_pass_field, `edit_yes,
               `edit_query, `edit_filtered, `edit_selected_set, `sub_widget, `mode, `target
      ensures Valid() && Opened(item, created)
    {
      hide InputValid, Item, Category, Value, Visible, NthVisible, Matching, Distinct, CStrings, IsFirst;
      var stored := HubGet(item.id);
      var current := if stored.Some? then stored.value else item.value;
      match item.widget {
        case MenuWidget =>
          edit_selected := FindCurrent(item.choices, current);
          target := item;
          mode := EditingMenu;
        case FilterWidget => EnterFilter(item, current);
        case InputWidget => EnterForm(item, current);
        case PasswordWidget => EnterForm(item, current);
        case YesNoWidget => EnterForm(item, current);
        case MultiselectWidget => EnterMultiselect(item);
        case OtherWidget =>
          sub_widget := created;
          target := item;
          mode := EditingSubWidget;
      }
    }

    method EnterFilter(item: HubItem, current: bytes)
      requires Valid() && Item() == Some(item) && CStrings(item) && !sub_widget && item.widget.FilterWidget?
      modifies `edit_selected, `edit_query, `edit_filtered, `mode, `target
      ensures Valid() && target == item && mode == EditingFilter && edit_query == []
      ensures forall i: nat :: IsFirst(item.choices, current, i) ==>
                edit_selected == i < |edit_filtered| && edit_filtered[i] == i
    {
      hide InputValid, Item, Category, Value, Visible, NthVisible, Matching, Distinct, CStrings, IsFirst;
      target := item;
      edit_selected := FindCurrent(item.choices, current);
      edit_query := [];
      EmptyQueryMatches(item.choices, |item.choices|);
      UpdateFilter(item.choices);
      mode := EditingFilter;
    }

    method EnterForm(item: HubItem, current: bytes)
      requires Valid() && Item() == Some(item) && CStrings(item) && !sub_widget
      requires item.widget.InputWidget? || item.widget.PasswordWidget? || item.widget.YesNoWidget?
      modifies `edit_buffer, `edit_cursor, `edit_pass1, `edit_pass2, `edit_pass_field, `edit_yes, `mode, `target
      ensures Valid() && target == item
      ensures match item.widget
              case InputWidget =>
                && mode == EditingInput && edit_buffer == EditText() + [0] && EditText() == UpToZero(current)
                && edit_cursor == |EditText()|
              case PasswordWidget => mode == EditingPassword && edit_pass1 == edit_pass2 == [] && !edit_pass_field
              case _ => mode == EditingYesNo && (edit_yes <==> current == YES)
    {
      hide Item, Category, Value, Visible, NthVisible, Matching, Distinct, CStrings, UpToZero;
      target := item;
      if item.widget.InputWidget? {
        edit_buffer := UpToZero(current) + [0];
        edit_cursor := |UpToZero(current)|;
        NewText(UpToZero(current));
        mode := EditingInput;
      } else if item.widget.PasswordWidget? {
        edit_pass1, edit_pass2, edit_pass_field := [], [], false;
        mode := EditingPassword;
      } else {
        edit_yes := current == YES;
        mode := EditingYesNo;
      }
    }

    method EnterMultiselect(item: HubItem)
      requires Valid() && Item() == Some(item) && CStrings(item) && !sub_widget && item.widget.MultiselectWidget?
      modifies `edit_selected, `edit_query, `edit_filtered, `edit_selected_set, `mode, `target
      ensures Valid() && target == item && mode == EditingMultiselect && edit_query == []
      ensures edit_selected == 0 && true !in edit_selected_set
    {
      hide InputValid, Item, Category, Value, Visible, NthVisible, Matching, Distinct, CStrings;
      target := item;
      edit_query := [];
      edit_selected_set := seq(|item.choices|, _ => false);
      UpdateFilter(item.choices);
      edit_selected := 0;
      mode := EditingMultiselect;
    }

    /** The position of the current value among the choices, 0 if it is not one. */
    static method FindCurrent(choices: seq<bytes>, current: bytes) returns (selected: nat)
      ensures forall i: nat :: IsFirst(choices, current, i) ==> selected == i < |choices|
      ensures selected < |choices| || (selected == 0 && choices == [])
      ensures current !in choices ==> selected == 0
    {
      for i := 0 to |choices|
        invariant forall k :: 0 <= k < i ==> choices[k] != current
      {
        if choices[i] == current { return i; }
      }
      return 0;
    }

    ghost function CurrentValue(item: HubItem): bytes
      requires |keys| == |vals|
      reads `keys, `vals
    {
      if Get(item.id).Some? then Get(item.id).value else item.value
    }

    // ----- what an edit stores

    /** The value, and what choosing it as a quick profile brings along. */
    ghost function CommitOf(item: HubItem, value: bytes): seq<Entry> {
      [Entry(item.id, value)] + if QUICK_PROFILE <= item.id then profile(item.id, value) else []
    }

    /** The marked choices. */
    ghost function Marked(): Json
      requires |edit_selected_set| == |target.choices|
      reads `edit_selected_set, `target
    {
      Array(Chosen(target.choices, edit_selected_set, |target.choices|))
    }

    /**
     The keys that read or write outside of an object: Enter in an empty menu or on
     marked choices that cannot be printed, typing two behind the end of a text,
     a backspace where no zero follows, and looking for an item without categories.
     */
    ghost predicate Crashes(key: Key)
      requires Valid()
      reads this
    {
      match mode
      case EditingMenu => key == Enter && target.choices == []
      case EditingInput =>
        if key.Char? then edit_cursor > |EditText()| + 1
        else key == Backspace && edit_cursor > 0 && 0 !in edit_buffer[edit_cursor..]
      case EditingMultiselect => key == Enter && PrintEnd(Marked()) != Printed
      case Browsing => categories == [] && (key == Enter || key == Down)
      case EditingSubWidget => !sub_widget && categories == [] && (key == Enter || key == Down)
      case _ => false
    }

    /** Typing and erasing inside of the text never crash. */
    lemma InsideIsSafe(key: Key)
      requires Valid() && mode == EditingInput && Inside()
      ensures !Crashes(key)
    {
      TextTail(edit_buffer, edit_cursor);
    }

    /** The entries that a key stores, all of them for the item that was opened. */
    ghost function Commits(key: Key): seq<Entry>
      requires Valid()
      reads this
    {
      match mode
      case EditingMenu =>
        if key == Enter && target.choices != [] then CommitOf(target, target.choices[edit_selected]) else []
      case EditingInput => if key == Enter then CommitOf(target, EditText()) else []
      case EditingPassword =>
        if key == Enter && edit_pass1 != [] && edit_pass1 == edit_pass2 then [Entry(target.id, edit_pass1)] else []
      case EditingYesNo =>
        if key == Enter then [Entry(target.id, if edit_yes then YES else NO)]
        else if Agrees(key) then [Entry(target.id, YES)]
        else if Declines(key) then [Entry(target.id, NO)]
        else []
      case EditingFilter =>
        if key == Enter && edit_filtered != [] then [Entry(target.id, target.choices[edit_filtered[edit_selected]])]
          else []
      case EditingMultiselect =>
        if key == Enter && !Crashes(key) then [Entry(target.id, Print(Marked()))] else []
      case _ => []
    }

    /** The entries that an event stores. */
    ghost function EventCommits(ev: Event): seq<Entry>
      requires Valid()
      reads this
    {
      if !sub_widget then Commits(ev.key)
      else if ReplyText(ev.reply).Some? then [Entry(target.id, ReplyText(ev.reply).value)]
      else []
    }

    /** One value that the item can have, and what its profile brings along. */
    ghost predicate CommittedFor(item: HubItem, entries: seq<Entry>) {
      && entries != [] && entries[0].key == item.id && Possible(item, entries[0].value)
      && (entries[1..] == [] || (QUICK_PROFILE <= item.id && entries[1..] == profile(item.id, entries[0].value)))
    }

    /** Nothing, or a possible value of an item of the hub. */
    ghost predicate Committed(entries: seq<Entry>) {
      entries == [] ||
      exists c, i :: 0 <= c < |categories| && 0 <= i < |categories[c]| && CommittedFor(categories[c][i], entries)
    }

    /** What an event stores is a possible value of an item of the hub. */
    lemma CommitsArePossible(ev: Event)
      requires Valid()
      ensures Committed(EventCommits(ev)) && (EventCommits(ev) != [] ==> Committing(ev))
    {
      hide Value, Visible, NthVisible, Matching, Matches, Distinct, CStrings, Print, Chosen, PrintEnd;
      var entries := EventCommits(ev);
      if entries != [] {
        NthVisibleIn(keys, vals, Category(), item_idx);
        var i :| 0 <= i < |Category()| && Category()[i] == target;
        assert CommittedFor(categories[cat_idx][i], entries);
      }
    }

    /** hub_set with the value and, for a quick profile, hub_apply_profile. */
    method Commit(item: HubItem, value: bytes)
      requires |keys| == |vals| && Distinct(keys)
      modifies `keys, `vals
      ensures |keys| == |vals| && Distinct(keys) && StoredAll(CommitOf(item, value))
    {
      hide Value, Distinct;
      if QUICK_PROFILE <= item.id {
        SetAll([Entry(item.id, value)] + profile(item.id, value));
      } else {
        assert CommitOf(item, value) == [Entry(item.id, value)];
        SetAll([Entry(item.id, value)]);
      }
    }

    // ----- keys while editing

    method MenuKey(key: Key) returns (r: Response)
      requires Valid() && mode == EditingMenu
      modifies this
      ensures Valid() && StoredAll(old(Commits(key)))
      ensures r == if key == Enter && old(target).choices == [] then Crash else Nothing
      ensures mode == if r == Nothing && (key == Esc || key == Enter) then Browsing else EditingMenu
      ensures mode == EditingMenu ==>
                target == old(target) &&
                edit_selected == match key
                                 case Up => if old(edit_selected) > 0 then old(edit_selected) - 1 else 0
                                 case Down => if old(edit_selected + 1 < |target.choices|) then old(edit_selected) + 1
                                   else old(edit_selected)
                                 case _ => old(edit_selected)
    {
      hide InputValid, Item, Category, Value, Visible, NthVisible, Distinct, Matching, CStrings;
      var item := OpenItem();
      r := Nothing;
      match key {
        case Esc => mode := Browsing;
        case Up => if edit_selected > 0 { edit_selected := edit_selected - 1; }
        case Down => if edit_selected + 1 < |item.choices| { edit_selected := edit_selected + 1; }
        case Enter =>
          if edit_selected >= |item.choices| { return Crash; }
          Commit(item, item.choices[edit_selected]);
          mode := Browsing;
        case _ =>
      }
    }

    /** strlen, realloc, memmove and a store: a key typed at the cursor. */
    method TypeByte(ch: byte) returns (r: Response)
      requires InputValid()
      modifies `edit_buffer, `edit_cursor
      ensures InputValid() && r == if old(edit_cursor > |EditText()| + 1) then Crash else Nothing
      ensures r == Nothing ==>
                edit_buffer == old(Typed(edit_buffer, edit_cursor, ch)) && edit_cursor == old(edit_cursor) + 1
      ensures old(edit_cursor <= |EditText()|) ==>
                EditText() == if ch == 0 then old(EditText()[..edit_cursor])
                              else old(EditText()[..edit_cursor] + [ch] + EditText()[edit_cursor..])
    {
      hide UpToZero, Typed, Moved;
      var len := |UpToZero(edit_buffer)|;
      ghost var was := edit_buffer;
      edit_buffer := Realloc(edit_buffer, len + 2);
      Reallocated(was, edit_buffer);
      if edit_cursor > len + 1 { return Crash; }
      TypedText(was, edit_cursor, ch);
      TypedIsMoved(was, edit_buffer, edit_cursor, ch);
      edit_buffer := Moved(edit_buffer, edit_cursor + 1, edit_cursor, len - edit_cursor + 1);
      edit_buffer := edit_buffer[edit_cursor := ch];
      edit_cursor := edit_cursor + 1;
      r := Nothing;
    }

    /** The new bytes of a block that grows are arbitrary. */
    static method Realloc(block: bytes, n: nat) returns (r: bytes)
      ensures |r| == n && forall i :: 0 <= i < n && i < |block| ==> r[i] == block[i]
    {
      r := block;
      while |r| < n
        invariant block <= r && (|r| <= n || r == block)
      {
        var b: byte := *;
        r := r + [b];
      }
      r := r[..n];
    }

    /** strlen at the cursor and a memmove: the byte in front of the cursor is erased. */
    method EraseByte() returns (r: Response)
      requires InputValid() && edit_cursor > 0
      modifies `edit_buffer, `edit_cursor
      ensures InputValid() && r == if old(0 !in edit_buffer[edit_cursor..]) then Crash else Nothing
      ensures r == Nothing ==>
                edit_buffer == old(Erased(edit_buffer, edit_cursor)) && edit_cursor == old(edit_cursor) - 1
      ensures old(edit_cursor <= |EditText()|) ==>
                r == Nothing && EditText() == old(EditText()[..edit_cursor - 1] + EditText()[edit_cursor..])
    {
      hide UpToZero, Erased, Moved;
      if edit_cursor <= |EditText()| { ErasedInside(edit_buffer, edit_cursor); }
      if 0 !in edit_buffer[edit_cursor..] { return Crash; }
      var len := |UpToZero(edit_buffer[edit_cursor..])|;
      ZeroBehind(edit_buffer[edit_cursor..]);
      if edit_cursor > |EditText()| { ErasedBehind(edit_buffer, edit_cursor); }
      ErasedIsMoved(edit_buffer, edit_cursor);
      edit_buffer := Moved(edit_buffer, edit_cursor - 1, edit_cursor, len + 1);
      edit_cursor := edit_cursor - 1;
      r := Nothing;
    }

    static function Shortened(s: bytes): bytes { if s == [] then [] else s[..|s| - 1] }

    /** A C string with a byte stored at its end and a zero behind it. */
    static function Lengthened(s: bytes, ch: byte): bytes { if ch == 0 then s else s + [ch] }

    method StopEditing()
      requires Valid() && mode == EditingInput
      modifies `mode
      ensures Valid() && mode == Browsing
    {
      hide InputValid, Item, Category, Value, Matching, Distinct, CStrings;
      mode := Browsing;
    }

    method StoreInput()
      requires Valid() && mode == EditingInput
      modifies `mode, `keys, `vals
      ensures Valid() && mode == Browsing && StoredAll(old(Commits(Enter)))
    {
      hide Value, Visible, NthVisible, Distinct, Matching, CStrings, UpToZero;
      var item := OpenItem();
      Commit(item, UpToZero(edit_buffer));
      mode := Browsing;
    }

    method EditByte(key: Key) returns (r: Response)
      requires Valid() && mode == EditingInput && (key.Char? || key == Backspace)
      modifies `edit_buffer, `edit_cursor
      ensures Valid() && r == if old(Crashes(key)) then Crash else Nothing
      ensures r == Nothing ==>
                edit_buffer == if key.Char? then old(Typed(edit_buffer, edit_cursor, key.ch))
                               else if old(edit_cursor) == 0 then old(edit_buffer)
                               else old(Erased(edit_buffer, edit_cursor))
      ensures r == Nothing ==>
                edit_cursor == if key.Char? then old(edit_cursor) + 1
                               else if old(edit_cursor) == 0 then 0 else old(edit_cursor) - 1
      ensures old(edit_cursor <= |EditText()|) ==>
                EditText() == if key == Char(0) then old(EditText()[..edit_cursor])
                              else if key.Char?
                                then old(EditText()[..edit_cursor] + [key.ch] + EditText()[edit_cursor..])
                              else Shortened(old(EditText()[..edit_cursor])) + old(EditText()[edit_cursor..])
    {
      hide Item, Category, Value, Matching, Distinct, CStrings, UpToZero, Typed, Erased;
      r := Nothing;
      if key.Char? {
        r := TypeByte(key.ch);
      } else if edit_cursor > 0 {
        r := EraseByte();
      }
    }

    method MoveCursor(key: Key)
      requires Valid() && mode == EditingInput
      modifies `edit_cursor
      ensures Valid()
      ensures edit_cursor == match key
                             case Left => if old(edit_cursor) == 0 then 0 else old(edit_cursor) - 1
                             case Right => if old(edit_cursor) < |EditText()| then old(edit_cursor) + 1
                               else old(edit_cursor)
                             case Home => 0
                             case End => |EditText()|
                             case _ => old(edit_cursor)
    {
      hide Item, Category, Value, Matching, Distinct, CStrings, UpToZero;
      ZeroBehind(edit_buffer);
      match key {
        case Left => if edit_cursor > 0 { edit_cursor := edit_cursor - 1; }
        case Right => if edit_cursor < |UpToZero(edit_buffer)| { edit_cursor := edit_cursor + 1; }
        case Home => edit_cursor := 0;
        case End => edit_cursor := |UpToZero(edit_buffer)|;
        case _ =>
      }
    }

    method InputKey(key: Key) returns (r: Response)
      requires Valid() && mode == EditingInput
      modifies this
      ensures Valid() && StoredAll(old(Commits(key)))
      ensures r == if old(Crashes(key)) then Crash else Nothing
      ensures mode == if key == Esc || key == Enter then Browsing else EditingInput
      ensures mode == EditingInput ==> target == old(target)
      ensures r == Nothing ==>
                edit_buffer == match key
                               case Char(ch) => old(Typed(edit_buffer, edit_cursor, ch))
                               case Backspace => if old(edit_cursor) == 0 then old(edit_buffer)
                                 else old(Erased(edit_buffer, edit_cursor))
                               case _ => old(edit_buffer)
      ensures r == Nothing ==>
                edit_cursor == match key
                               case Char(_) => old(edit_cursor) + 1
                               case Backspace => if old(edit_cursor) == 0 then 0 else old(edit_cursor) - 1
                               case Left => if old(edit_cursor) == 0 then 0 else old(edit_cursor) - 1
                               case Right => if old(edit_cursor) < |EditText()| then old(edit_cursor) + 1
                                 else old(edit_cursor)
                               case Home => 0
                               case End => |EditText()|
                               case _ => old(edit_cursor)
      ensures old(Inside()) ==> r == Nothing && (edit_cursor <= |EditText()| <==> key != Char(0))
      ensures old(Inside()) ==>
                EditText() == match key
                              case Char(ch) => if ch == 0 then old(EditText()[..edit_cursor])
                                else old(EditText()[..edit_cursor] + [ch] + EditText()[edit_cursor..])
                              case Backspace => Shortened(old(EditText()[..edit_cursor])) +
                                old(EditText()[edit_cursor..])
                              case _ => old(EditText())
    {
      hide Valid, EditText, UpToZero, Typed, Erased, Value;
      r := Nothing;
      if edit_cursor <= |EditText()| { InsideIsSafe(key); }
      match key {
        case Esc => StopEditing();
        case Enter => StoreInput();
        case Char(ch) => r := EditByte(key);
        case Backspace => r := EditByte(key);
        case _ => MoveCursor(key);
      }
    }

    method PasswordKey(key: Key)
      requires Valid() && mode == EditingPassword
      modifies this
      ensures Valid() && StoredAll(old(Commits(key)))
      ensures mode == if key == Esc || (key == Enter && old(edit_pass1 != [] && edit_pass1 == edit_pass2)) then Browsing
                      else EditingPassword
      ensures mode == EditingPassword ==> target == old(target)
      ensures edit_pass_field == (old(edit_pass_field) != (key == Tab))
      ensures var typed := if old(edit_pass_field) then edit_pass2 else edit_pass1;
              typed == match key
                       case Char(ch) => Lengthened(old(if edit_pass_field then edit_pass2 else edit_pass1), ch)
                       case Backspace => Shortened(old(if edit_pass_field then edit_pass2 else edit_pass1))
                       case _ => old(if edit_pass_field then edit_pass2 else edit_pass1)
      ensures if old(edit_pass_field) then edit_pass1 == old(edit_pass1) else edit_pass2 == old(edit_pass2)
    {
      hide InputValid, Item, Category, Value, Visible, NthVisible, Distinct, Matching, CStrings;
      var item := OpenItem();
      match key {
        case Esc => mode := Browsing;
        case Tab => edit_pass_field := !edit_pass_field;
        case Enter =>
          if |edit_pass1| > 0 && edit_pass1 == edit_pass2 {
            SetAll([Entry(item.id, edit_pass1)]);
            mode := Browsing;
          }
        case Char(ch) =>
          if edit_pass_field {
            edit_pass2 := Lengthened(edit_pass2, ch);
          } else {
            edit_pass1 := Lengthened(edit_pass1, ch);
          }
        case Backspace =>
          if edit_pass_field { edit_pass2 := Shortened(edit_pass2); } else { edit_pass1 := Shortened(edit_pass1); }
        case _ =>
      }
    }

    method YesNoKey(key: Key)
      requires Valid() && mode == EditingYesNo
      modifies this
      ensures Valid() && StoredAll(old(Commits(key)))
      ensures mode == if key == Esc || key == Enter || Agrees(key) || Declines(key) then Browsing else EditingYesNo
      ensures mode == EditingYesNo ==> target == old(target)
      ensures edit_yes == (old(edit_yes) != (key == Left || key == Right || key == Tab))
    {
      hide InputValid, Item, Category, Value, Visible, NthVisible, Distinct, Matching, CStrings;
      var item := OpenItem();
      match key {
        case Esc => mode := Browsing;
        case Left => edit_yes := !edit_yes;
        case Right => edit_yes := !edit_yes;
        case Tab => edit_yes := !edit_yes;
        case Enter =>
          SetAll([Entry(item.id, if edit_yes then YES else NO)]);
          mode := Browsing;
        case Char(_) =>
          if Agrees(key) {
            SetAll([Entry(item.id, YES)]);
            mode := Browsing;
          } else if Declines(key) {
            SetAll([Entry(item.id, NO)]);
            mode := Browsing;
          }
        case _ =>
      }
    }

    /** Typing and deleting: the list follows the query, the selection goes back to the top. */
    method ChangeQuery(item: HubItem, query: bytes)
      requires Valid() && (mode == EditingFilter || mode == EditingMultiselect) && item == target
      modifies `edit_query, `edit_selected, `edit_filtered
      ensures Valid() && edit_query == query && edit_selected == 0
    {
      hide InputValid, Item, Category, Value, Matching, Distinct, CStrings;
      edit_query := query;
      edit_selected := 0;
      UpdateFilter(item.choices);
    }

    method FilterKey(key: Key)
      requires Valid() && mode == EditingFilter
      modifies this
      ensures Valid() && StoredAll(old(Commits(key)))
      ensures mode == if key == Esc || key == Enter then Browsing else EditingFilter
      ensures mode == EditingFilter ==>
                target == old(target) &&
                edit_selected == match key
                                 case Up => if old(edit_selected) > 0 then old(edit_selected) - 1 else 0
                                 case Down => if old(edit_selected + 1 < |edit_filtered|) then old(edit_selected) + 1
                                   else old(edit_selected)
                                 case Char(_) => 0
                                 case Backspace => if old(edit_query) == [] then old(edit_selected) else 0
                                 case _ => old(edit_selected)
      ensures edit_query == match key
                            case Char(ch) => Lengthened(old(edit_query), ch)
                            case Backspace => Shortened(old(edit_query))
                            case _ => old(edit_query)
    {
      hide InputValid, Item, Category, Value, Visible, NthVisible, Distinct, Matching, Matches, CStrings;
      var item := OpenItem();
      match key {
        case Esc => mode := Browsing;
        case Up => if edit_selected > 0 { edit_selected := edit_selected - 1; }
        case Down => if edit_selected + 1 < |edit_filtered| { edit_selected := edit_selected + 1; }
        case Enter =>
          if |edit_filtered| > 0 && edit_selected < |edit_filtered| {
            var orig := edit_filtered[edit_selected];
            SetAll([Entry(item.id, item.choices[orig])]);
          }
          mode := Browsing;
        case Char(ch) => ChangeQuery(item, Lengthened(edit_query, ch));
        case Backspace => if |edit_query| > 0 { ChangeQuery(item, edit_query[..|edit_query| - 1]); }
        case _ =>
      }
    }

    /** The marked choices as the text of a JSON array, built and printed as cJSON items. */
    method CollectChosen(item: HubItem) returns (r: Outcome, joined: bytes)
      requires |edit_selected_set| == |item.choices| && CStrings(item)
      ensures r == PrintEnd(Array(Chosen(item.choices, edit_selected_set, |item.choices|)))
      ensures r.Printed? ==> joined == Print(Array(Chosen(item.choices, edit_selected_set, |item.choices|)))
    {
      hide Print, PrintEnd;
      var marked: seq<bytes> := [];
      for i := 0 to |item.choices|
        invariant Strings(marked) == Chosen(item.choices, edit_selected_set, i)
        invariant forall s :: s in marked ==> CString(s) && s in item.choices
      {
        if edit_selected_set[i] {
          assert Strings(marked + [item.choices[i]]) == Strings(marked) + [String(item.choices[i])];
          marked := marked + [item.choices[i]];
        }
      }
      r, joined := PrintStrings(marked);
    }

    /** Stores the text of the marked choices and ends the edit. */
    method StoreMarked(item: HubItem) returns (r: Response)
      requires Valid() && mode == EditingMultiselect && item == target
      modifies `keys, `vals, `mode
      ensures Valid() && StoredAll(old(Commits(Enter)))
      ensures r == if old(Crashes(Enter)) then Crash else Nothing
      ensures mode == if r == Crash then EditingMultiselect else Browsing
    {
      hide InputValid, Item, Category, Print, PrintEnd, Value, Visible, NthVisible, Distinct, Chosen, Matching;
      hide Matches, CStrings;
      var outcome, joined := CollectChosen(item);
      if !outcome.Printed? { return Crash; }
      SetAll([Entry(item.id, joined)]);
      mode := Browsing;
      r := Nothing;
    }

    static function Toggled(marks: seq<bool>, i: nat): seq<bool>
      requires i < |marks|
    {
      marks[i := !marks[i]]
    }

    method ToggleMark()
      requires Valid() && mode == EditingMultiselect
      modifies `edit_selected_set
      ensures Valid()
      ensures edit_selected_set == if edit_filtered != []
                                   then Toggled(old(edit_selected_set), edit_filtered[edit_selected])
                                   else old(edit_selected_set)
    {
      hide InputValid, Item, Category, Value, Matching, Distinct, CStrings;
      if |edit_filtered| > 0 && edit_selected < |edit_filtered| {
        var orig := edit_filtered[edit_selected];
        edit_selected_set := edit_selected_set[orig := !edit_selected_set[orig]];
      }
    }

    /** The space bar marks, other characters extend the query; Enter stores the text of the marked choices, if it can
        be printed. */
    method MultiselectKey(key: Key) returns (r: Response)
      requires Valid() && mode == EditingMultiselect
      modifies this
      ensures Valid() && StoredAll(old(Commits(key)))
      ensures r == if old(Crashes(key)) then Crash else Nothing
      ensures mode == if r == Nothing && (key == Esc || key == Enter) then Browsing else EditingMultiselect
      ensures mode == EditingMultiselect ==>
                target == old(target) &&
                edit_selected_set ==
                if key == Char(SPACE) && edit_filtered != []
                then Toggled(old(edit_selected_set), edit_filtered[edit_selected])
                else old(edit_selected_set)
      ensures mode == EditingMultiselect ==>
                edit_selected == match key
                                 case Up => if old(edit_selected) > 0 then old(edit_selected) - 1 else 0
                                 case Down => if old(edit_selected + 1 < |edit_filtered|) then old(edit_selected) + 1
                                   else old(edit_selected)
                                 case Char(ch) => if ch == SPACE then old(edit_selected) else 0
                                 case Backspace => if old(edit_query) == [] then old(edit_selected) else 0
                                 case _ => old(edit_selected)
      ensures edit_query == match key
                            case Char(ch) => if ch == SPACE then old(edit_query) else Lengthened(old(edit_query), ch)
                            case Backspace => Shortened(old(edit_query))
                            case _ => old(edit_query)
    {
      hide InputValid, Item, Category, Print, PrintEnd, Value, Visible, NthVisible, Distinct, Chosen, Matching;
      hide Matches, IsFirst, CStrings, Toggled;
      var item := OpenItem();
      r := Nothing;
      match key {
        case Esc => mode := Browsing;
        case Up => if edit_selected > 0 { edit_selected := edit_selected - 1; }
        case Down => if edit_selected + 1 < |edit_filtered| { edit_selected := edit_selected + 1; }
        case Enter =>
          r := StoreMarked(item);
        case Char(ch) =>
          if ch == SPACE {
            ToggleMark();
          } else {
            ChangeQuery(item, Lengthened(edit_query, ch));
          }
        case Backspace => if |edit_query| > 0 { ChangeQuery(item, edit_query[..|edit_query| - 1]); }
        case _ =>
      }
    }

    /** hub_handle_edit_event while an embedded widget is open. */
    method SubWidgetKey(reply: Reply) returns (r: Response)
      requires Valid() && mode == EditingSubWidget && sub_widget && Holdable(reply)
      modifies this
      ensures Valid()
      ensures StoredAll(if ReplyText(reply).Some? then [Entry(old(target).id, ReplyText(reply).value)] else [])
      ensures r == if Unprintable(reply) then Crash else Nothing
      ensures mode == if reply.Ended? && r == Nothing then Browsing else EditingSubWidget
      ensures mode == EditingSubWidget ==> sub_widget && target == old(target)
    {
      hide InputValid, Item, Category, Value, Visible, NthVisible, Distinct, Matching, CStrings, PrintEnd, Print;
      hide Held;
      match reply {
        case Waiting => return Nothing;
        case Ended(result) =>
          var item := OpenItem();
          if result.Some? {
            var outcome, text := TextOf(result.value);
            if !outcome.Printed? { return Crash; }
            if text.Some? { SetAll([Entry(item.id, text.value)]); }
          }
          sub_widget := false;
          mode := Browsing;
          return Nothing;
      }
    }

    /** The text of a result; arrays and objects are printed from their tree of items. */
    static method TextOf(v: Json) returns (outcome: Outcome, text: Option<bytes>)
      requires Held(v)
      ensures outcome == if Unprintable(Ended(Some(v))) then PrintEnd(v) else Printed
      ensures outcome.Printed? ==> text == ReplyText(Ended(Some(v)))
    {
      hide Held, PrintEnd, Print;
      if v.Array? || v.Object? {
        var printed;
        outcome, printed := PrintBuilt(v);
        text := Some(printed);
      } else {
        outcome, text := Printed, ResultText(v);
      }
    }

    // ----- keys while browsing

    method VisibleCount() returns (vc: nat)
      requires |keys| == |vals| && 0 <= cat_idx < |categories|
      ensures forall n :: 0 <= n < vc ==> NthVisible(keys, vals, Category(), n).Some?
      ensures NthVisible(keys, vals, Category(), vc) == None
    {
      hide Value, Visible;
      var items := categories[cat_idx];
      vc := 0;
      assert items[0..] == items;
      for i := 0 to |items|
        invariant forall n: nat :: NthVisible(keys, vals, items, n) == if n < vc then NthVisible(keys, vals, items, n)
            else NthVisible(keys, vals, items[i..], n - vc)
        invariant forall n :: 0 <= n < vc ==> NthVisible(keys, vals, items, n).Some?
      {
        assert items[i..][1..] == items[i + 1..];
        if Visible(keys, vals, items[i]) { vc := vc + 1; }
      }
    }

    /** The two confirmation dialogues. */
    method ConfirmKey(key: Key) returns (r: Response)
      requires Valid() && (mode == ConfirmQuit || mode == ConfirmProceed)
      modifies `mode
      ensures Valid()
      ensures r == if !Agrees(key) then Nothing else if old(mode) == ConfirmQuit then Quit
          else Answer(Object(StoreMembers(keys, vals)))
      ensures mode == if Agrees(key) then old(mode) else Browsing
    {
      if Agrees(key) {
        return if mode == ConfirmQuit then Quit else Answer(Object(StoreMembers(keys, vals)));
      }
      mode := Browsing;
      r := Nothing;
    }

    method MoveDown()
      requires Valid() && (mode == Browsing || mode == EditingSubWidget) && !sub_widget && categories != []
      modifies `item_idx
      ensures Valid()
      ensures item_idx == old(item_idx) + if NthVisible(keys, vals, Category(), old(item_idx) + 1).Some? then 1 else 0
    {
      hide InputValid, Value, Visible, NthVisible, Matching, Distinct, CStrings;
      var vc := VisibleCount();
      if item_idx + 1 < vc {
        item_idx := item_idx + 1;
      } else {
        NoneAfter(keys, vals, Category(), vc, item_idx + 1);
      }
    }

    method OpenAtCursor(created: bool)
      requires Valid() && (mode == Browsing || mode == EditingSubWidget) && !sub_widget && categories != []
      modifies `edit_selected, `edit_buffer, `edit_cursor, `edit_pass1, `edit_pass2, `edit_pass_field, `edit_yes,
               `edit_query, `edit_filtered, `edit_selected_set, `sub_widget, `mode, `target
      ensures Valid()
      ensures if Item() == None then mode == old(mode) else Opened(Item().value, created)
    {
      hide InputValid, Opened, Value, Visible, NthVisible, Matching, Distinct, CStrings;
      var item := HubGetItem();
      if item.Some? {
        NthVisibleIn(keys, vals, Category(), item_idx);
        EnterEdit(item.value, created);
      }
    }

    /** hub_handle_event otherwise; so it is also when no embedded widget could be created. */
    method BrowseKey(key: Key, created: bool) returns (r: Response)
      requires Valid() && (mode == Browsing || mode == EditingSubWidget) && !sub_widget
      modifies this
      ensures Valid() && keys == old(keys) && vals == old(vals)
      ensures r == match key
                   case Function(f) => if 1 <= f <= 12 && f <= |actions| && actions[f - 1] != PROCEED
                                         then Action(actions[f - 1]) else Nothing
                   case _ => if old(Crashes(key)) then Crash else Nothing
      ensures match key
              case Enter =>
                cat_idx == old(cat_idx) && item_idx == old(item_idx) &&
                if old(Item()) == None then mode == old(mode)
                else r == Nothing && Item() == old(Item()) && Opened(old(Item()).value, created)
              case Esc => mode == ConfirmQuit && cat_idx == old(cat_idx) && item_idx == old(item_idx)
              case Function(f) =>
                mode == (if 1 <= f <= 12 && f <= |actions| &&
                  actions[f - 1] == PROCEED then ConfirmProceed else old(mode)) &&
                cat_idx == old(cat_idx) && item_idx == old(item_idx)
              case Up =>
                mode == old(mode) && cat_idx == old(cat_idx) &&
                  item_idx == if old(item_idx) > 0 then old(item_idx) - 1 else 0
              case Down =>
                mode == old(mode) && cat_idx == old(cat_idx) &&
                item_idx == old(item_idx) +
                            if NthVisible(keys, vals, Category(), old(item_idx) + 1).Some? then 1 else 0
              case Left =>
                mode == old(mode) && item_idx == 0 &&
                if categories == [] then cat_idx == -1
                else cat_idx == (old(cat_idx) + |categories| - 1) % |categories|
              case _ =>
                mode == old(mode) &&
                if key == Right || key == Tab
                then item_idx == 0 && cat_idx == if categories == [] then 0 else (old(cat_idx) + 1) % |categories|
                else cat_idx == old(cat_idx) && item_idx == old(item_idx)
    {
      hide InputValid, Opened, Value, Visible, NthVisible, Matching, Distinct, CStrings;
      r := Nothing;
      match key {
        case Esc => mode := ConfirmQuit;
        case Up => if item_idx > 0 { item_idx := item_idx - 1; }
        case Down =>
          if categories == [] {
            NoItems(keys, vals, item_idx + 1);
            return Crash;
          }
          MoveDown();
        case Left => PreviousCategory();
        case Right => NextCategory();
        case Tab => NextCategory();
        case Enter =>
          if categories == [] {
            NoItems(keys, vals, item_idx);
            return Crash;
          }
          OpenAtCursor(created);
        case Function(f) =>
          if 1 <= f <= 12 && f <= |actions| {
            if actions[f - 1] == PROCEED { mode := ConfirmProceed; } else { return Action(actions[f - 1]); }
          }
        case _ =>
      }
    }

    method PreviousCategory()
      requires if categories == [] then -1 <= cat_idx <= 0 else 0 <= cat_idx < |categories|
      modifies `cat_idx, `item_idx
      ensures item_idx == 0 && if categories == [] then cat_idx == -1
          else 0 <= cat_idx < |categories| && cat_idx == (old(cat_idx) + |categories| - 1) % |categories|
    {
      cat_idx := if cat_idx > 0 then cat_idx - 1 else |categories| - 1;
      item_idx := 0;
    }

    method NextCategory()
      requires if categories == [] then -1 <= cat_idx <= 0 else 0 <= cat_idx < |categories|
      modifies `cat_idx, `item_idx
      ensures item_idx == 0 && if categories == [] then cat_idx == 0
          else 0 <= cat_idx < |categories| && cat_idx == (old(cat_idx) + 1) % |categories|
    {
      cat_idx := if cat_idx + 1 < |categories| then cat_idx + 1 else 0;
      item_idx := 0;
    }

    // ----- all keys

    /** hub_handle_event: the store changes only by what the open edit commits, under the item that was opened. */
    method HandleKey(ev: Event) returns (r: Response)
      requires Valid() && Holdable(ev.reply)
      modifies this
      ensures Valid()
      ensures StoredAll(old(EventCommits(ev)))
      ensures r == Crash <==> if old(sub_widget) then Unprintable(ev.reply) else old(Crashes(ev.key))
      ensures r.Answer? ==> r.store == Object(StoreMembers(keys, vals))
      ensures old(Inside()) && ev.key != Char(0) ==> Inside()
      ensures old(Editing(mode)) ==> r == Nothing || r == Crash
      ensures old(mode) == EditingInput && ev.key.Char? && r == Nothing ==>
                mode == EditingInput && target == old(target) && edit_cursor == old(edit_cursor) + 1 &&
                edit_buffer == old(Typed(edit_buffer, edit_cursor, ev.key.ch))
      ensures old(mode) == Browsing && old(Item()).Some? && ev.key == Enter ==>
                r == Nothing && Opened(old(Item()).value, ev.created)
      ensures old(mode) == EditingMultiselect && ev.key == Char(SPACE) && old(edit_filtered) != [] ==>
                r == Nothing && mode == EditingMultiselect && target == old(target) &&
                edit_selected_set == old(Toggled(edit_selected_set, edit_filtered[edit_selected]))
      ensures old(Editing(mode)) && r == Nothing && ev.key == Esc ==> mode == Browsing
    {
      hide Value, Visible, NthVisible, Matching, Distinct, CStrings, Print, PrintEnd, Chosen;
      r := Nothing;
      if sub_widget {
        r := SubWidgetKey(ev.reply);
        return;
      }
      match mode {
        case EditingMenu => r := MenuKey(ev.key);
        case EditingInput => r := InputKey(ev.key);
        case EditingPassword => PasswordKey(ev.key);
        case EditingYesNo => YesNoKey(ev.key);
        case EditingFilter => FilterKey(ev.key);
        case EditingMultiselect => r := MultiselectKey(ev.key);
        case ConfirmQuit => r := ConfirmKey(ev.key);
        case ConfirmProceed => r := ConfirmKey(ev.key);
        case _ => r := BrowseKey(ev.key, ev.created);
      }
    }

    /**
     Any run of events, from any valid state, until the hub answers or crashes.  The
     store is the one from before with what each event has committed put in order:
     possible values of the hub's items, each from an event that ends an edit.
     */
    method Run(events: seq<Event>) returns (r: Response, ghost log: seq<seq<Entry>>)
      requires Valid() && forall i :: 0 <= i < |events| ==> Holdable(events[i].reply)
      modifies this
      ensures Valid() && StoredAll(Flat(log))
      ensures |log| <= |events| && (r == Nothing ==> |log| == |events|)
      ensures forall i :: 0 <= i < |log| ==> Committed(log[i]) && (log[i] != [] ==> Committing(events[i]))
      ensures r.Answer? ==> r.store == Object(StoreMembers(keys, vals))
      ensures old(Inside()) && (forall i :: 0 <= i < |events| ==> events[i].key != Char(0)) ==> Inside()
    {
      hide Valid, Value, Inside, Committed, EventCommits, Crashes;
      r, log := Nothing, [];
      SameLength();
      for i := 0 to |events|
        invariant Valid() && |keys| == |vals| && StoredAll(Flat(log)) && |log| == i && r == Nothing
        invariant forall j :: 0 <= j < i ==> Committed(log[j]) && (log[j] != [] ==> Committing(events[j]))
        invariant old(Inside()) && (forall j :: 0 <= j < i ==> events[j].key != Char(0)) ==> Inside()
      {
        ghost var entries := EventCommits(events[i]);
        CommitsArePossible(events[i]);
        label before:
        r := HandleKey(events[i]);
        SameLength();
        forall k
          ensures Overlaid(Flat(log) + entries, k, old(Get(k))) == Overlaid(entries, k, old@before(Get(k)))
        {
          OverlaidJoin(Flat(log), entries, k, old(Get(k)));
        }
        assert (log + [entries])[..|log|] == log;
        log := log + [entries];
        if r != Nothing { return; }
      }
    }

    lemma SameLength()
      requires Valid()
      ensures |keys| == |vals|
    {
    }
  }

  // ----- hubs that crash

  /** A menu without choices: the second Enter reads outside of its list. */
  method EnterTwice() returns (hub: HubData, first: Response, second: Response)
    ensures fresh(hub) && first == Nothing && second == Crash
  {
    hide Matching;
    var menu := HubItem([], [], MenuWidget, [], []);
    var enter := Event(Enter, false, Waiting);
    hub := new HubData([[menu]], [], (key, value) => []);
    assert hub.categories[0] == [menu] && Visible(hub.keys, hub.vals, menu);
    assert hub.Item() == Some(menu);
    first := hub.HandleKey(enter);
    second := hub.HandleKey(enter);
  }

  lemma MarkedOnes(marks: seq<bool>)
    requires marks == [true]
    ensures PrintEnd(Array(Chosen([Ones(51)], marks, 1))) == Overrun
  {
    hide Ones, PrintEnd;
    OnesSizes(51);
    OnesInArray(51);
    assert Chosen([Ones(51)], marks, 0) == [] && Chosen([Ones(51)], marks, 1) == [String(Ones(51))];
  }

  lemma OneUnmarked(marks: seq<bool>)
    requires |marks| == 1 && true !in marks
    ensures marks == [false]
  {
    var mark := marks[0];
    assert mark in marks && mark != true;
  }

  /** A multiselect with one choice of 51 bytes 1: once that is marked, Enter writes outside of the printer's buffer. */
  method MarkAndEnter() returns (hub: HubData, first: Response, second: Response, third: Response)
    ensures fresh(hub) && first == second == Nothing && third == Crash
  {
    hide Matching, Ones, PrintEnd, Chosen, CStrings, Distinct, Print;
    var item := HubItem([], [], MultiselectWidget, [Ones(51)], []);
    var enter := Event(Enter, false, Waiting);
    OnesNotZero(51);
    hub := new HubData([[item]], [], (key, value) => []);
    assert hub.categories[0] == [item] && Visible(hub.keys, hub.vals, item);
    assert hub.Item() == Some(item);
    first := hub.HandleKey(enter);
    EmptyQueryMatches(item.choices, 1);
    OneUnmarked(hub.edit_selected_set);
    assert hub.edit_filtered == [0];
    second := hub.HandleKey(Event(Char(SPACE), false, Waiting));
    MarkedOnes(hub.edit_selected_set);
    third := hub.HandleKey(enter);
  }

  lemma OnesNotZero(n: nat)
    ensures CStrings(HubItem([], [], MultiselectWidget, [Ones(n)], []))
  {
  }

  /** An input: after a zero byte any two bytes more are one too many. */
  method TypeBehindEnd(value: bytes, b: byte, c: byte)
    returns (hub: HubData, first: Response, second: Response, third: Response, fourth: Response)
    requires CString(value)
    ensures fresh(hub) && first == second == third == Nothing && fourth == Crash
  {
    hide Matching, Distinct, UpToZero, CString, Typed, Erased, Print, PrintEnd;
    var item := HubItem([], value, InputWidget, [], []);
    assert CStrings(item) by { NoBytes(); }
    hub := new HubData([[item]], [], (key, value) => []);
    assert hub.categories[0] == [item] && Visible(hub.keys, hub.vals, item);
    assert hub.Item() == Some(item);
    first := hub.HandleKey(Event(Enter, false, Waiting));
    TypedText(hub.edit_buffer, hub.edit_cursor, 0);
    second := hub.HandleKey(Event(Char(0), false, Waiting));
    TypedText(hub.edit_buffer, hub.edit_cursor, b);
    third := hub.HandleKey(Event(Char(b), false, Waiting));
    fourth := hub.HandleKey(Event(Char(c), false, Waiting));
  }

  lemma NoBytes()
    ensures CString([])
  {
  }

  /** A hub without categories: Enter looks for an item where there is none. */
  method EnterNowhere() returns (hub: HubData, first: Response)
    ensures fresh(hub) && hub.categories == [] && first == Crash
  {
    hub := new HubData([], [], (key, value) => []);
    first := hub.HandleKey(Event(Enter, false, Waiting));
  }
}
