/**
 cJSON_PrintUnformatted followed by cJSON_Parse on the tree of items: a new tree
 with the same contents.
 */
module JsonApi {
  import opened Common
  import opened JsonText
  import opened JsonTree
  import opened JsonRoundTrip
  import opened JsonRoom
  import opened JsonPrinter
  import opened JsonParser

  /**
   If printing succeeds, as it does for plain strings and a text of int size, parsing
   the text builds the same tree again, from new nodes only, exactly when all strings
   are plain and nesting allows.
   */
  method PrintThenParseTree(item: Node, ghost s: Shape, ghost v: Json)
    returns (r: Outcome, copy: Node?, ghost kids: seq<Shape>)
    requires Printable(item, s, v)
    ensures r == PrintEnd(v) && (AllPlain(v) && |Print(v)| < INT_MAX ==> r.Printed?)
    ensures r.Printed? ==>
              (copy != null && Tree(Shape(copy, kids), ItemOf(v, Absent)) <==>
                AllPlain(v) && NestedAtMost(v, MAX_DEPTH))
    ensures copy != null ==> fresh(Nodes(Shape(copy, kids)))
  {
    hide Print, Held, AllPlain, NestedAtMost, Tree, Holds, NodesOf, Nodes, ItemOf;
    var printed;
    kids := [];
    r, printed := PrintBuffer.PrintUnformatted(item, s, v);
    if !r.Printed? { return r, null, kids; }
    PrintThenParse(v);
    var status;
    status, copy, kids := ParseBuffer.ParseDocument(printed);
    ghost var parsed := ParseText(printed);
    if parsed.Ok? && Tree(Shape(copy, kids), ItemOf(v, Absent)) { OneValue(Shape(copy, kids), parsed.value, v); }
  }

  lemma OneValue(s: Shape, v: Json, w: Json)
    requires Tree(s, ItemOf(v, Absent)) && Tree(s, ItemOf(w, Absent))
    ensures v == w
  {
    OneContents(s, ItemOf(v, Absent), ItemOf(w, Absent));
    ItemOfInjective(v, w, Absent);
  }

  // ----- building an array of strings

  function Strings(ss: seq<bytes>): seq<Json> { seq(|ss|, i requires 0 <= i < |ss| => String(ss[i])) }

  /** cJSON_CreateString */
  method CreateString(s: bytes) returns (item: Node)
    requires CString(s)
    ensures fresh(item) && item.next == null && Tree(Shape(item, []), ItemOf(String(s), Absent))
  {
    item := new Node();
    item.kind := StringKind;
    item.text := Present(UpToZero(s));
    Leaf(item, ItemOf(String(s), Absent));
  }

  /** Appending one tree to the root of another. */
  method AppendBuilt(list: Node, item: Node, ghost s: Shape, ghost t: Item, ghost x: Shape, ghost u: Item)
    returns (ghost grown: Shape)
    requires list == s.node && Tree(s, t) && item == x.node && Tree(x, u) && Nodes(s) !! Nodes(x)
    requires item.next == null
    modifies Nodes(s), Nodes(x)
    ensures list.name == old(list.name) && list.next == old(list.next)
    ensures grown.node == list && Nodes(grown) == Nodes(s) + Nodes(x)
    ensures Tree(grown, t.(kids := t.kids + [u]))
  {
    hide Tidy, Holds, NodesOf;
    NodesOfShape(s);
    NodesOfShape(x);
    KidNodes(s.kids);
    RootsGrow(s.kids, x);
    RootApart(s, t);
    HoldsLinks(s, t);
    var ok := AddItemToArray(list, item, s, t, x, u);
    grown := Shape(list, s.kids + [x]);
    NodesOfShape(grown);
    NodesOfAppend(s.kids, x);
    HoldsLinks(grown, t.(kids := t.kids + [u]));
  }

  lemma RootApart(s: Shape, t: Item)
    requires Tree(s, t)
    ensures s.node !in Roots(s.kids)
  {
    hide Holds;
    KidNodes(s.kids);
  }

  lemma StringsPrintable(arr: Node, s: Shape, ss: seq<bytes>)
    requires arr == s.node && arr.name == Absent && Tree(s, ItemOf(Array(Strings(ss)), Absent))
    requires forall s :: s in ss ==> CString(s)
    ensures Printable(arr, s, Array(Strings(ss)))
  {
    hide Holds, CString, PlainString;
    forall v | v in Strings(ss)
      ensures Held(v)
    {
      var i :| 0 <= i < |ss| && v == Strings(ss)[i];
      assert ss[i] in ss;
    }
  }

  /** An array of strings built with cJSON_CreateArray and cJSON_AddItemToArray, and printed. */
  method PrintStrings(ss: seq<bytes>) returns (r: Outcome, printed: bytes)
    requires forall s :: s in ss ==> CString(s)
    ensures r == PrintEnd(Array(Strings(ss))) && (r.Printed? ==> printed == Print(Array(Strings(ss))))
  {
    hide Print, CString, PlainString, Tree, Holds, Nodes, NodesOf, ItemsOf;
    var arr := new Node();
    arr.kind := ArrayKind;
    ghost var s := Shape(arr, []);
    BuiltNone(arr);
    for i := 0 to |ss|
      invariant fresh(Nodes(s)) && arr == s.node && arr.name == Absent
      invariant Tree(s, ItemOf(Array(Strings(ss[..i])), Absent))
    {
      assert Strings(ss[..i + 1]) == Strings(ss[..i]) + [String(ss[i])];
      NodesAllocated(s);
      var item := CreateString(ss[i]);
      BuiltNone(item);
      ItemsOfGrow(Strings(ss[..i]), String(ss[i]));
      s := AppendBuilt(arr, item, s, ItemOf(Array(Strings(ss[..i])), Absent), Shape(item, []),
                       ItemOf(String(ss[i]), Absent));
    }
    assert ss[..|ss|] == ss;
    StringsPrintable(arr, s, ss);
    r, printed := PrintBuffer.PrintUnformatted(arr, s, Array(Strings(ss)));
  }

  // ----- building any value

  /** A tree of new items that holds the value. */
  method Build(v: Json, name: Text) returns (item: Node, ghost s: Shape)
    requires Held(v)
    ensures fresh(Nodes(s)) && item == s.node && item.next == null && item.name == name && Tree(s, ItemOf(v, name))
    decreases v, 1
  {
    hide Tidy, Holds, NodesOf, ItemsOf, MembersOf, Tree;
    if v.Array? {
      item, s := BuildItems(v.items, name);
    } else if v.Object? {
      item, s := BuildMembers(v.members, name);
    } else {
      item := BuildLeaf(v, name);
      s := Shape(item, []);
      BuiltNone(item);
    }
  }

  method BuildLeaf(v: Json, name: Text) returns (item: Node)
    requires !v.Array? && !v.Object?
    ensures fresh(item) && item.next == null && item.name == name && Tree(Shape(item, []), ItemOf(v, name))
  {
    hide Tidy, Holds, NodesOf, Tree;
    item := new Node();
    item.name := name;
    match v {
      case Null => item.kind := NullKind;
      case False => item.kind := FalseKind;
      case True => item.kind, item.number := TrueKind, 1;
      case Number(n) => item.kind, item.number := NumberKind, n;
      case String(b) => item.kind, item.text := StringKind, Present(b);
    }
    Leaf(item, ItemOf(v, name));
  }

  method BuildItems(items: seq<Json>, name: Text) returns (list: Node, ghost s: Shape)
    requires Held(Array(items))
    ensures fresh(Nodes(s)) && list == s.node && list.next == null && list.name == name
    ensures Tree(s, ItemOf(Array(items), name))
    decreases items, 0
  {
    hide Tidy, Holds, NodesOf, ItemsOf, Tree, Nodes, Held;
    list := new Node();
    list.kind, list.name := ArrayKind, name;
    s := Shape(list, []);
    BuiltNone(list);
    ItemsOfNone();
    Leaf(list, ItemOf(Array([]), name));
    assert items[..0] == [];
    for i := 0 to |items|
      invariant fresh(Nodes(s)) && list == s.node && list.name == name && list.next == null
      invariant Tree(s, ItemOf(Array(items[..i]), name))
    {
      NodesAllocated(s);
      HeldAt(items, i);
      var item, x := Build(items[i], Absent);
      assert items[..i + 1] == items[..i] + [items[i]];
      ItemsOfGrow(items[..i], items[i]);
      s := AppendBuilt(list, item, s, ItemOf(Array(items[..i]), name), x, ItemOf(items[i], Absent));
    }
    assert items[..|items|] == items;
  }

  method BuildMembers(members: seq<Member>, name: Text) returns (list: Node, ghost s: Shape)
    requires Held(Object(members))
    ensures fresh(Nodes(s)) && list == s.node && list.next == null && list.name == name
    ensures Tree(s, ItemOf(Object(members), name))
    decreases members, 0
  {
    hide Tidy, Holds, NodesOf, MembersOf, Tree, Nodes, Held;
    list := new Node();
    list.kind, list.name := ObjectKind, name;
    s := Shape(list, []);
    BuiltNone(list);
    ItemsOfNone();
    Leaf(list, ItemOf(Object([]), name));
    assert members[..0] == [];
    for i := 0 to |members|
      invariant fresh(Nodes(s)) && list == s.node && list.name == name && list.next == null
      invariant Tree(s, ItemOf(Object(members[..i]), name))
    {
      NodesAllocated(s);
      MemberHeldAt(members, i);
      var m := members[i];
      var item, x := Build(m.value, Present(m.key));
      assert members[..i + 1] == members[..i] + [m];
      MembersOfGrow(members[..i], m);
      s := AppendBuilt(list, item, s, ItemOf(Object(members[..i]), name), x, ItemOf(m.value, Present(m.key)));
    }
    assert members[..|members|] == members;
  }

  lemma HeldAt(items: seq<Json>, i: nat)
    requires Held(Array(items)) && i < |items|
    ensures Held(items[i])
  {
  }

  lemma MemberHeldAt(members: seq<Member>, i: nat)
    requires Held(Object(members)) && i < |members|
    ensures Held(members[i].value)
  {
  }

  /** A value printed from a tree of items. */
  method PrintBuilt(v: Json) returns (r: Outcome, printed: bytes)
    requires Held(v)
    ensures r == PrintEnd(v) && (r.Printed? ==> printed == Print(v))
  {
    hide Print, PrintEnd, Held, Holds, NodesOf, Tidy;
    ghost var s;
    var item;
    item, s := Build(v, Absent);
    r, printed := PrintBuffer.PrintUnformatted(item, s, v);
  }
}
