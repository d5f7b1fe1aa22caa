/**
 Trees under change: what appending to and detaching from a nested list does to
 the tree around it, and the invariant that any run of parsing, appending,
 detaching and duplicating keeps.
 */
module JsonForest {
  import opened JsonText
  import opened JsonTree
  import opened JsonParser

  // ----- nested lists

  /** The way from an item to one below it, as indices of children. */
  type Path = seq<nat>

  ghost predicate OnTree(t: Item, path: Path) {
    path == [] || (path[0] < |t.kids| && OnTree(t.kids[path[0]], path[1..]))
  }

  ghost function ItemAt(t: Item, path: Path): Item
    requires OnTree(t, path)
  {
    if path == [] then t else ItemAt(t.kids[path[0]], path[1..])
  }

  /** t with the item at the path replaced. */
  ghost function WithItem(t: Item, path: Path, u: Item): Item
    requires OnTree(t, path)
  {
    if path == [] then u else t.(kids := t.kids[path[0] := WithItem(t.kids[path[0]], path[1..], u)])
  }

  ghost predicate OnShape(s: Shape, path: Path) {
    path == [] || (path[0] < |s.kids| && OnShape(s.kids[path[0]], path[1..]))
  }

  ghost function ShapeAt(s: Shape, path: Path): Shape
    requires OnShape(s, path)
  {
    if path == [] then s else ShapeAt(s.kids[path[0]], path[1..])
  }

  ghost function WithShape(s: Shape, path: Path, x: Shape): Shape
    requires OnShape(s, path)
  {
    if path == [] then x else Shape(s.node, s.kids[path[0] := WithShape(s.kids[path[0]], path[1..], x)])
  }

  lemma {:induction false} TreeAt(s: Shape, t: Item, path: Path)
    requires Tree(s, t)
    ensures OnShape(s, path) <==> OnTree(t, path)
    ensures OnShape(s, path) ==>
              var sub := ShapeAt(s, path);
              Tree(sub, ItemAt(t, path)) && Nodes(sub) <= Nodes(s) && (path != [] ==> s.node !in Nodes(sub))
    decreases |path|
  {
    hide Nodes;
    HoldsLinks(s, t);
    if path != [] && path[0] < |s.kids| {
      var i := path[0];
      HoldAllAt(s.kids, t.kids, i);
      KidWithin(s, i);
      TreeAt(s.kids[i], t.kids[i], path[1..]);
    }
  }

  lemma KidsDiffer(s: Shape, i: nat, j: nat)
    requires Tidy(s) && i < |s.kids| && j < |s.kids| && i != j
    ensures Nodes(s.kids[i]) !! Nodes(s.kids[j])
  {
  }

  lemma NodesExchanged(kids: seq<Shape>, i: nat, x: Shape)
    requires TidyAll(kids) && i < |kids|
    ensures NodesOf(kids[i := x]) == NodesOf(kids) - Nodes(kids[i]) + Nodes(x)
  {
    hide Nodes, Tidy;
    var all := kids[i := x];
    assert all[i] == x;
    forall n | n in NodesOf(all) && n !in Nodes(x)
      ensures n in NodesOf(kids) - Nodes(kids[i])
    {
      var j :| 0 <= j < |all| && n in Nodes(all[j]);
      assert n in Nodes(kids[j]) && j != i;
    }
    forall n | n in NodesOf(kids) - Nodes(kids[i])
      ensures n in NodesOf(all)
    {
      var j :| 0 <= j < |kids| && n in Nodes(kids[j]);
      assert all[j] == kids[j];
    }
    assert Nodes(x) <= NodesOf(all);
  }

  lemma TidyExchanged(kids: seq<Shape>, i: nat, x: Shape)
    requires TidyAll(kids) && i < |kids| && Tidy(x) && Nodes(x) !! NodesOf(kids) - Nodes(kids[i])
    ensures TidyAll(kids[i := x])
  {
    hide Nodes, Tidy;
    forall j | 0 <= j < |kids| && j != i
      ensures Nodes(kids[j]) !! Nodes(x)
    {
      assert Nodes(kids[j]) !! Nodes(kids[i]);
      assert Nodes(kids[j]) <= NodesOf(kids);
    }
  }

  /** Exchanging one child for another tree. */
  lemma KidExchanged(s: Shape, i: nat, x: Shape)
    requires Tidy(s) && i < |s.kids| && Tidy(x) && Nodes(x) !! Nodes(s) - Nodes(s.kids[i])
    ensures var r := Shape(s.node, s.kids[i := x]); Tidy(r) && Nodes(r) == Nodes(s) - Nodes(s.kids[i]) + Nodes(x)
  {
    hide Nodes;
    var kids := s.kids[i := x];
    KidWithin(s, i);
    NodesExchanged(s.kids, i, x);
    NodesOfShape(s);
    NodesOfShape(Shape(s.node, kids));
    TidyExchanged(s.kids, i, x);
    assert Nodes(Shape(s.node, kids)) == {s.node} + NodesOf(kids) == Nodes(s) - Nodes(s.kids[i]) + Nodes(x);
  }

  lemma {:induction false} TidyWith(s: Shape, path: Path, x: Shape)
    requires Tidy(s) && OnShape(s, path) && Tidy(x) && Nodes(x) !! Nodes(s) - Nodes(ShapeAt(s, path))
    requires Nodes(ShapeAt(s, path)) <= Nodes(s)
    ensures Tidy(WithShape(s, path, x)) && Nodes(WithShape(s, path, x)) == Nodes(s) - Nodes(ShapeAt(s, path)) + Nodes(x)
    decreases |path|
  {
    hide Tidy, Nodes;
    if path != [] {
      var i := path[0];
      KidWithin(s, i);
      Within(s.kids[i], path[1..]);
      TidyWith(s.kids[i], path[1..], x);
      KidExchanged(s, i, WithShape(s.kids[i], path[1..], x));
    }
  }

  lemma {:induction false} Within(s: Shape, path: Path)
    requires OnShape(s, path)
    ensures Nodes(ShapeAt(s, path)) <= Nodes(s)
    decreases |path|
  {
    hide Nodes;
    if path != [] {
      KidWithin(s, path[0]);
      Within(s.kids[path[0]], path[1..]);
    }
  }

  // ----- a tree around one of its items

  lemma AroundNodes(s: Shape, path: Path)
    requires Tidy(s) && OnShape(s, path) && path != []
    ensures var outside, i := Nodes(s) - Nodes(ShapeAt(s, path)), path[0];
            && s.node in outside && Roots(s.kids) <= outside + {ShapeAt(s, path).node}
            && (forall j :: 0 <= j < |s.kids| && j != i ==> {s.kids[j].node} + NodesOf(s.kids[j].kids) <= outside)
            && Nodes(s.kids[i]) - Nodes(ShapeAt(s, path)) <= outside && Tidy(s.kids[i])
  {
    hide Tidy, Nodes;
    var i := path[0];
    KidWithin(s, i);
    Within(s.kids[i], path[1..]);
    forall j | 0 <= j < |s.kids|
      ensures j != i ==> {s.kids[j].node} + NodesOf(s.kids[j].kids) <= Nodes(s) - Nodes(ShapeAt(s, path))
      ensures s.kids[j].node in Nodes(s) - Nodes(ShapeAt(s, path)) + {ShapeAt(s, path).node}
    {
      KidWithin(s, j);
      NodesOfShape(s.kids[j]);
      if j != i { KidsDiffer(s, j, i); }
      if path[1..] != [] { BelowRoot(s.kids[i], path[1..]); }
    }
  }

  lemma {:induction false} BelowRoot(s: Shape, path: Path)
    requires Tidy(s) && OnShape(s, path) && path != []
    ensures s.node !in Nodes(ShapeAt(s, path))
  {
    hide Nodes;
    KidWithin(s, path[0]);
    Within(s.kids[path[0]], path[1..]);
  }

  /** The tree s holds t and is linked as it should be, whatever stands at the path. */
  ghost predicate HoldsAround(s: Shape, t: Item, path: Path)
    requires Tidy(s) && OnShape(s, path)
    reads Nodes(s) - Nodes(ShapeAt(s, path)), ShapeAt(s, path).node`next, ShapeAt(s, path).node`prev
    decreases |path|
  {
    path == [] ||
    (AroundNodes(s, path);
     && SameFields(s.node, t)
     && Chain(s.node.child, s.kids)
     && |s.kids| == |t.kids|
     && (forall j :: 0 <= j < |s.kids| && j != path[0] ==> Holds(s.kids[j], t.kids[j]))
     && HoldsAround(s.kids[path[0]], t.kids[path[0]], path[1..]))
  }

  lemma {:induction false} TakeOut(s: Shape, t: Item, path: Path)
    requires Tree(s, t) && OnShape(s, path)
    ensures HoldsAround(s, t, path)
    decreases |path|
  {
    hide Nodes, NodesOf;
    if path != [] {
      HoldsLinks(s, t);
      KidWithin(s, path[0]);
      forall j | 0 <= j < |s.kids|
        ensures Holds(s.kids[j], t.kids[j])
      {
        HoldAllAt(s.kids, t.kids, j);
      }
      TakeOut(s.kids[path[0]], t.kids[path[0]], path[1..]);
    }
  }

  /** Another tree at the same node fits in. */
  lemma {:induction false} PutIn(s: Shape, t: Item, path: Path, x: Shape, u: Item)
    requires Tidy(s) && OnShape(s, path) && HoldsAround(s, t, path)
    requires Tree(x, u) && x.node == ShapeAt(s, path).node && Nodes(x) !! Nodes(s) - Nodes(ShapeAt(s, path))
    ensures OnTree(t, path) && Tree(WithShape(s, path, x), WithItem(t, path, u))
    decreases |path|
  {
    Within(s, path);
    TidyWith(s, path, x);
    HoldsWith(s, t, path, x, u);
  }

  lemma {:induction false} HoldsWith(s: Shape, t: Item, path: Path, x: Shape, u: Item)
    requires Tidy(s) && OnShape(s, path) && HoldsAround(s, t, path)
    requires Holds(x, u) && x.node == ShapeAt(s, path).node
    ensures OnTree(t, path) && Holds(WithShape(s, path, x), WithItem(t, path, u))
    ensures WithShape(s, path, x).node == s.node
    decreases |path|
  {
    hide Tidy, Nodes, NodesOf, Holds, HoldAll;
    if path != [] {
      var i := path[0];
      KidWithin(s, i);
      HoldsWith(s.kids[i], t.kids[i], path[1..], x, u);
      var kids, ts := WithShape(s, path, x).kids, WithItem(t, path, u).kids;
      SameRoots(s, path, x);
      AllHold(kids, ts);
      HoldsIff(WithShape(s, path, x), WithItem(t, path, u));
    }
  }

  lemma AllHold(kids: seq<Shape>, ts: seq<Item>)
    requires |kids| == |ts| && forall j :: 0 <= j < |kids| ==> Holds(kids[j], ts[j])
    ensures HoldAll(kids, ts)
  {
    hide Holds;
  }

  lemma SameRoots(s: Shape, path: Path, x: Shape)
    requires Tidy(s) && OnShape(s, path) && path != [] && Chain(s.node.child, s.kids)
    requires WithShape(s.kids[path[0]], path[1..], x).node == s.kids[path[0]].node
    ensures Chain(s.node.child, WithShape(s, path, x).kids)
  {
    hide Tidy;
    var kids := WithShape(s, path, x).kids;
    forall j | 0 <= j < |kids|
      ensures LinksAt(kids, j)
    {
      assert LinksAt(s.kids, j);
    }
  }

  // ----- the list operations at a path

  /** Following the indices with cJSON_GetArrayItem. */
  method Locate(root: Node, path: Path, ghost s: Shape, ghost t: Item) returns (item: Node?)
    requires root == s.node && Tree(s, t)
    ensures OnShape(s, path) <==> OnTree(t, path)
    ensures item == if OnShape(s, path) then ShapeAt(s, path).node else null
  {
    hide Tidy, Holds, Nodes, NodesOf;
    TreeAt(s, t, path);
    item := root;
    ghost var sub, subItem := s, t;
    for k := 0 to |path|
      invariant item != null && item == sub.node && Tree(sub, subItem)
      invariant OnShape(s, path) <==> OnShape(sub, path[k..])
      invariant OnShape(s, path) ==> ShapeAt(s, path) == ShapeAt(sub, path[k..])
    {
      assert path[k..][0] == path[k] && path[k..][1..] == path[k + 1..];
      NodesAllocated(sub);
      NodesOfShape(sub);
      item := GetArrayItem(item, path[k], sub, subItem);
      if item == null { return; }
      KidTree(sub, subItem, path[k]);
      sub, subItem := sub.kids[path[k]], subItem.kids[path[k]];
    }
  }

  /** What a list operation on the item at the path may write leaves everything around it alone. */
  lemma ListNodes(s: Shape, t: Item, path: Path)
    requires Tree(s, t) && OnShape(s, path)
    ensures var sub := ShapeAt(s, path);
            && OnTree(t, path) && Tree(sub, ItemAt(t, path)) && |sub.kids| == |ItemAt(t, path).kids|
            && Roots(sub.kids) <= NodesOf(sub.kids) && sub.node !in NodesOf(sub.kids) &&
              Nodes(sub) == {sub.node} + NodesOf(sub.kids)
            && Nodes(sub) <= Nodes(s) && (path != [] ==> s.node !in Nodes(sub)) && s.node in Nodes(s)
    ensures HoldsAround(s, t, path) && allocated(Nodes(s))
  {
    hide Nodes, NodesOf;
    TreeAt(s, t, path);
    TakeOut(s, t, path);
    var sub := ShapeAt(s, path);
    KidNodes(sub.kids);
    NodesOfShape(sub);
    NodesOfShape(s);
    NodesAllocated(s);
  }

  ghost function Grown(s: Shape, path: Path, x: Shape): Shape
    requires OnShape(s, path)
  {
    WithShape(s, path, Shape(ShapeAt(s, path).node, ShapeAt(s, path).kids + [x]))
  }

  ghost function GrownItem(t: Item, path: Path, u: Item): Item
    requires OnTree(t, path)
  {
    WithItem(t, path, ItemAt(t, path).(kids := ItemAt(t, path).kids + [u]))
  }

  /** cJSON_AddItemToArray on a nested list: the tree around it stays whole, with one more child there. */
  method AppendAt(root: Node, path: Path, item: Node, ghost s: Shape, ghost t: Item, ghost x: Shape, ghost u: Item)
    returns (ok: bool)
    requires root == s.node && Tree(s, t) && item == x.node && Tree(x, u) && Nodes(s) !! Nodes(x)
    requires item.next == null
    modifies Nodes(s), Nodes(x)
    ensures ok <==> OnTree(t, path)
    ensures ok ==> OnShape(s, path) && Tree(Grown(s, path, x), GrownItem(t, path, u))
    ensures ok ==> Grown(s, path, x).node == root && Nodes(Grown(s, path, x)) == Nodes(s) + Nodes(x)
    ensures !ok ==> Tree(s, t) && Tree(x, u) && item.next == old(item.next) && item.prev == old(item.prev)
    ensures root.next == old(root.next) && root.prev == old(root.prev)
  {
    hide Nodes, NodesOf, Holds, Tidy, Roots, HoldsAround;
    NodesOfShape(x);
    NodesOfShape(s);
    NodesAllocated(s);
    NodesAllocated(x);
    var list := Locate(root, path, s, t);
    if list == null { return false; }
    ghost var sub, subItem := ShapeAt(s, path), ItemAt(t, path);
    ListNodes(s, t, path);
    RootsGrow(sub.kids, x);
    ok := AddItemToArray(list, item, sub, subItem, x, u);
    ghost var longer := Shape(sub.node, sub.kids + [x]);
    NodesOfAppend(sub.kids, x);
    NodesOfShape(longer);
    PutIn(s, t, path, longer, subItem.(kids := subItem.kids + [u]));
    TidyWith(s, path, longer);
  }

  ghost function Shrunk(s: Shape, path: Path, i: nat): Shape
    requires OnShape(s, path) && i < |ShapeAt(s, path).kids|
  {
    WithShape(s, path, Shape(ShapeAt(s, path).node, ShapesWithout(ShapeAt(s, path).kids, i)))
  }

  ghost function ShrunkItem(t: Item, path: Path, i: nat): Item
    requires OnTree(t, path) && i < |ItemAt(t, path).kids|
  {
    WithItem(t, path, ItemAt(t, path).(kids := ItemsWithout(ItemAt(t, path).kids, i)))
  }

  ghost predicate HasChild(t: Item, path: Path, i: nat) {
    OnTree(t, path) && i < |ItemAt(t, path).kids|
  }

  /** cJSON_DetachItemViaPointer on a child of a nested list: two whole trees, the child's and the one it left. */
  method DetachAt(root: Node, path: Path, i: nat, ghost s: Shape, ghost t: Item) returns (r: Node?, ghost x: Shape)
    requires root == s.node && Tree(s, t)
    modifies Nodes(s)
    ensures r != null <==> HasChild(t, path, i)
    ensures r != null ==> r == x.node && r.next == null && r.prev == null
    ensures r != null ==> Tree(x, ItemAt(t, path).kids[i])
    ensures r != null ==> OnShape(s, path) && i < |ShapeAt(s, path).kids| &&
                          Tree(Shrunk(s, path, i), ShrunkItem(t, path, i))
    ensures r != null ==> Shrunk(s, path, i).node == root
    ensures r != null ==> Nodes(Shrunk(s, path, i)) !! Nodes(x) && Nodes(Shrunk(s, path, i)) + Nodes(x) == Nodes(s)
    ensures r == null ==> Tree(s, t)
    ensures root.next == old(root.next) && root.prev == old(root.prev)
  {
    hide Nodes, NodesOf, Holds, Tidy, Roots, HoldsAround, ShapesWithout, ItemsWithout;
    NodesOfShape(s);
    NodesAllocated(s);
    x := s;
    var parent := Locate(root, path, s, t);
    if parent == null { return null, x; }
    ghost var sub, subItem := ShapeAt(s, path), ItemAt(t, path);
    ListNodes(s, t, path);
    NodesAllocated(sub);
    var item := GetArrayItem(parent, i, sub, subItem);
    if item == null { return null, x; }
    r := DetachItemViaPointer(parent, item, sub, subItem, i);
    x := sub.kids[i];
    ghost var shorter := Shape(sub.node, ShapesWithout(sub.kids, i));
    TidyWithout(sub, i);
    NodesOfShape(shorter);
    NodesWithout(sub, i);
    PutIn(s, t, path, shorter, subItem.(kids := ItemsWithout(subItem.kids, i)));
    TidyWith(s, path, shorter);
  }

  lemma NodesWithout(s: Shape, i: nat)
    requires Tidy(s) && i < |s.kids|
    ensures NodesOf(ShapesWithout(s.kids, i)) == NodesOf(s.kids) - Nodes(s.kids[i])
    ensures Nodes(s.kids[i]) <= NodesOf(s.kids)
  {
    hide Nodes;
    var kids := s.kids;
    var rest := ShapesWithout(kids, i);
    forall k | 0 <= k < |rest|
      ensures rest[k] == kids[if k < i then k else k + 1]
    {
    }
    forall n | n in NodesOf(rest)
      ensures n in NodesOf(kids) - Nodes(kids[i])
    {
      var k :| 0 <= k < |rest| && n in Nodes(rest[k]);
      assert n in Nodes(kids[if k < i then k else k + 1]);
    }
    forall n | n in NodesOf(kids) - Nodes(kids[i])
      ensures n in NodesOf(rest)
    {
      var k :| 0 <= k < |kids| && n in Nodes(kids[k]);
      assert rest[if k < i then k else k - 1] == kids[k];
    }
  }

  /** cJSON_Duplicate of an item anywhere in a tree. */
  method DuplicateAt(root: Node, path: Path, recurse: bool, ghost s: Shape, ghost t: Item)
    returns (copy: Node?, ghost x: Shape)
    requires root == s.node && Tree(s, t)
    ensures copy != null <==> OnTree(t, path)
    ensures copy != null ==> copy == x.node && copy.next == null && copy.prev == null && fresh(Nodes(x))
    ensures copy != null ==> Tree(x, Copied(ItemAt(t, path), recurse))
  {
    hide Nodes, NodesOf, Holds, Tidy, Copied;
    NodesAllocated(s);
    NodesOfShape(s);
    x := s;
    var item := Locate(root, path, s, t);
    if item == null { return null, x; }
    ListNodes(s, t, path);
    copy, x := DuplicateRec(item, recurse, ShapeAt(s, path), ItemAt(t, path));
  }

  // ----- an item in two lists

  const BLANK: Item := Item(Invalid, 0, Absent, Absent, [])

  method NewItem() returns (item: Node, ghost s: Shape)
    ensures fresh(item) && s == Shape(item, []) && Tree(s, BLANK) && item.next == null && Nodes(s) == {item}
  {
    item := new Node();
    s := Shape(item, []);
    BuiltNone(item);
  }

  method ListOfOne() returns (list: Node, ghost kid: Shape, ghost s: Shape)
    ensures fresh(Nodes(s)) && s == Shape(list, [kid]) && Tree(s, BLANK.(kids := [BLANK]))
    ensures Tree(kid, BLANK) && kid.kids == [] && kid.node in Nodes(s)
  {
    hide Tidy, Holds, Nodes, NodesOf;
    ghost var sl;
    list, sl := NewItem();
    var item;
    item, kid := NewItem();
    assert sl.kids + [kid] == [kid] && BLANK.kids + [BLANK] == [BLANK];
    BuiltNone(list);
    var ok := AddItemToArray(list, item, sl, BLANK, kid, BLANK);
    s := Shape(list, [kid]);
    NodesOfShape(s);
    NodesOfAppend(sl.kids, kid);
    KidTree(s, BLANK.(kids := [BLANK]), 0);
  }

  /** An item that is still in a list is appended to another one: that list is then ill linked. */
  method AppendLinked() returns (ok: bool, ghost list: Node, ghost kid: Shape, ghost item: Shape)
    ensures fresh(list) && ok && !Tree(Shape(list, [kid, item]), BLANK.(kids := [BLANK, BLANK]))
  {
    hide Tidy, Holds, Nodes, NodesOf;
    var b, y, sb := ListOfOne();
    NodesAllocated(sb);
    NodesOfShape(sb);
    var z, sz := NewItem();
    NodesOfShape(sz);
    RootsGrow(sb.kids, sz);
    KidNodes(sb.kids);
    ok := AddItemToArray(b, z, sb, BLANK.(kids := [BLANK]), sz, BLANK);
    ghost var two := Shape(b, sb.kids + [sz]);
    KidTree(two, BLANK.(kids := [BLANK] + [BLANK]), 0);
    assert y.node.next == z && b.child == y.node;
    NodesAllocated(two);
    NodesOfShape(two);
    NodesOfAppend(sb.kids, sz);
    var a, x, sa := ListOfOne();
    assert Tree(y, BLANK);
    NodesOfShape(sa);
    NodesOfShape(y);
    BuiltNone(y.node);
    RootsGrow(sa.kids, y);
    KidNodes(sa.kids);
    ok := AddItemToArray(a, b.child, sa, BLANK.(kids := [BLANK]), y, BLANK);
    list, kid, item := a, x, y;
    assert sa.kids + [y] == [x, y] && [BLANK] + [BLANK] == [BLANK, BLANK];
  }

  /** Nodes that are each other's first child are in no tree. */
  lemma NotCircular(a: Node, b: Node)
    requires a.child == b && b.child == a
    ensures forall s: Shape, t: Item :: s.node == a ==> !Tree(s, t)
  {
    forall s: Shape, t: Item | s.node == a
      ensures !Tree(s, t)
    {
      if Tree(s, t) {
        HoldsLinks(s, t);
        KidTree(s, t, 0);
        HoldsLinks(s.kids[0], t.kids[0]);
        KidWithin(s, 0);
        KidWithin(s.kids[0], 0);
      }
    }
  }

  /** A list is appended to its own child: no tree is left. */
  method AppendInside() returns (ok: bool, ghost list: Node, ghost kid: Node)
    ensures fresh(list) && ok && list.child == kid && kid.child == list
    ensures forall s: Shape, t: Item :: s.node == list ==> !Tree(s, t)
  {
    hide Tidy, Holds, Nodes, NodesOf;
    var a, b, sa := ListOfOne();
    HoldsLinks(sa, BLANK.(kids := [BLANK]));
    NodesAllocated(sa);
    NodesOfShape(sa);
    NodesOfShape(b);
    KidWithin(sa, 0);
    BuiltNone(b.node);
    RootsGrow([], sa);
    assert [] + [sa] == [sa];
    var first := a.child;
    ok := AddItemToArray(first, a, b, BLANK, sa, BLANK.(kids := [BLANK]));
    list, kid := a, first;
    NotCircular(a, first);
  }

  /** An item of another list is detached: neither list is well linked then. */
  method DetachForeign() returns (ghost list: Node, ghost kid: Shape, ghost other: Node, ghost left: Shape)
    ensures fresh(list) && fresh(other)
    ensures !Tree(Shape(list, [kid]), BLANK.(kids := [BLANK]))
    ensures !Tree(Shape(other, [left]), BLANK.(kids := [BLANK]))
  {
    hide Tidy, Holds, Nodes, NodesOf;
    var b, y, sb := ListOfOne();
    NodesAllocated(sb);
    NodesOfShape(sb);
    var z, sz := NewItem();
    NodesOfShape(sz);
    RootsGrow(sb.kids, sz);
    KidNodes(sb.kids);
    var ok := AddItemToArray(b, z, sb, BLANK.(kids := [BLANK]), sz, BLANK);
    ghost var two := Shape(b, sb.kids + [sz]);
    KidTree(two, BLANK.(kids := [BLANK] + [BLANK]), 0);
    HoldsLinks(two, BLANK.(kids := [BLANK] + [BLANK]));
    assert LinksAt(two.kids, 0) && LinksAt(two.kids, 1);
    NodesAllocated(two);
    NodesOfShape(two);
    NodesOfAppend(sb.kids, sz);
    var a, x, sa := ListOfOne();
    HoldsLinks(sa, BLANK.(kids := [BLANK]));
    Relink(a, z);
    list, kid, other, left := a, x, b, y;
    NotAlone(a, x, y.node);
    NotAlone(b, y, z);
  }

  lemma NotAlone(list: Node, kid: Shape, n: Node)
    requires kid.node.prev == n && n != kid.node
    ensures !Tree(Shape(list, [kid]), BLANK.(kids := [BLANK]))
  {
    hide Tidy, Nodes, NodesOf;
    var s := Shape(list, [kid]);
    assert !LinksAt(s.kids, 0);
    if Holds(s, BLANK.(kids := [BLANK])) { HoldsLinks(s, BLANK.(kids := [BLANK])); }
  }

  // ----- a collection of trees

  datatype Op =
    | Parse(text: bytes)
    | Append(tree: nat, path: Path, other: nat)
    | Detach(tree: nat, path: Path, index: nat)
    | Duplicate(tree: nat, path: Path, recurse: bool)

  /** What an operation does to the contents of the trees: a list append, a removal, a copy, or nothing. */
  ghost function Applied(op: Op, ts: seq<Item>): seq<Item> {
    match op
    case Parse(text) =>
      var r := ParseText(text);
      if r.Ok? then ts + [ItemOf(r.value, Absent)] else ts
    case Append(i, path, j) =>
      if i < |ts| && j < |ts| && i != j && OnTree(ts[i], path)
        then ItemsWithout(ts[i := GrownItem(ts[i], path, ts[j])], j) else ts
    case Detach(i, path, k) =>
      if i < |ts| && HasChild(ts[i], path, k) then ts[i := ShrunkItem(ts[i], path, k)] + [ItemAt(ts[i], path).kids[k]]
        else ts
    case Duplicate(i, path, recurse) =>
      if i < |ts| && OnTree(ts[i], path) then ts + [Copied(ItemAt(ts[i], path), recurse)] else ts
  }

  ghost function AppliedAll(ops: seq<Op>, ts: seq<Item>): seq<Item>
    decreases |ops|
  {
    if ops == [] then ts else Applied(ops[|ops| - 1], AppliedAll(ops[..|ops| - 1], ts))
  }

  /** No tree is appended to a list inside itself, which would make a cycle. */
  predicate NoCycle(op: Op) {
    op.Append? && op.tree == op.other ==> op.path == []
  }

  class Forest {
    var roots: seq<Node>
    ghost var shapes: seq<Shape>
    ghost var items: seq<Item>

    /** Every tree is well linked, no node belongs to two places, and the roots are in no list. */
    ghost predicate Valid()
      reads this, NodesOf(shapes)
    {
      KidNodes(shapes);
      && |roots| == |shapes| && (forall i :: 0 <= i < |roots| ==> roots[i] == shapes[i].node)
      && TidyAll(shapes) && HoldAll(shapes, items)
      && forall i :: 0 <= i < |shapes| ==> Free(shapes[i].node)
    }

    constructor ()
      ensures Valid() && items == [] && shapes == []
    {
      roots, shapes, items := [], [], [];
    }

    /** cJSON_Parse; a text that is refused adds nothing. */
    method Parse(text: bytes)
      requires Valid()
      modifies this
      ensures Valid() && items == Applied(Op.Parse(text), old(items))
      ensures fresh(NodesOf(shapes) - old(NodesOf(shapes)))
    {
      hide ParseText, Nodes, NodesOf, Tidy, Holds, ItemOf;
      KidNodes(shapes);
      BelowAllocated(shapes);
      var s, item;
      ghost var kids;
      s, item, kids := ParseBuffer.ParseDocument(text);
      if item != null { Add(item, Shape(item, kids), ItemOf(ParseText(text).value, Absent)); }
    }

    method Add(root: Node, ghost x: Shape, ghost u: Item)
      requires Valid() && root == x.node && Tree(x, u) && Free(root) && Nodes(x) !! NodesOf(shapes)
      modifies this
      ensures Valid() && items == old(items) + [u] && shapes == old(shapes) + [x]
      ensures NodesOf(shapes) == old(NodesOf(shapes)) + Nodes(x)
    {
      hide Nodes, NodesOf, Tidy, Holds;
      KidNodes(shapes);
      TidyAppend(shapes, x);
      HoldAllGrow(shapes, items, x, u);
      NodesOfAppend(shapes, x);
      Become(roots + [root], shapes + [x], items + [u]);
    }

    method Become(rs: seq<Node>, ghost ss: seq<Shape>, ghost ts: seq<Item>)
      requires |rs| == |ss| && TidyAll(ss) && HoldAll(ss, ts)
      requires forall i :: 0 <= i < |ss| ==> rs[i] == ss[i].node && Free(ss[i].node)
      modifies this
      ensures Valid() && roots == rs && shapes == ss && items == ts
    {
      hide NodesOf, Tidy, Holds;
      roots, shapes, items := rs, ss, ts;
      KidNodes(shapes);
    }

    /** cJSON_AddItemToArray of one tree to a list in another one. */
    method Append(i: nat, path: Path, j: nat)
      requires Valid() && NoCycle(Op.Append(i, path, j))
      modifies this, NodesOf(shapes)
      ensures Valid() && items == Applied(Op.Append(i, path, j), old(items))
      ensures NodesOf(shapes) == old(NodesOf(shapes))
    {
      hide Nodes, NodesOf, Tidy, Holds, GrownItem, Grown, ShapesWithout, ItemsWithout, Valid, Tree, HoldAll;
      if i >= |roots| || j >= |roots| || i == j { // add_item_to_array refuses the list itself
        Parts();
        return;
      }
      Parts();
      Separate(i);
      var ok := AppendTree(i, path, j);
      if !ok { return; }
      ghost var g := Grown(shapes[i], path, shapes[j]);
      ghost var u := GrownItem(items[i], path, items[j]);
      Joined(shapes, items, i, j, g, u);
      JoinedAt(shapes, i, j, g);
      Become(roots[..j] + roots[j + 1..], ShapesWithout(shapes[i := g], j), ItemsWithout(items[i := u], j));
    }

    method AppendTree(i: nat, path: Path, j: nat) returns (ok: bool)
      requires Valid() && i < |roots| && j < |roots| && i != j
      requires |shapes| == |items|
      modifies NodesOf(shapes)
      ensures ok <==> OnTree(items[i], path)
      ensures !ok ==> Valid()
      ensures forall k :: 0 <= k < |shapes| && k != i && k != j ==> Holds(shapes[k], items[k]) && Free(shapes[k].node)
      ensures ok ==> OnShape(shapes[i], path)
      ensures ok ==> var g := Grown(shapes[i], path, shapes[j]);
        && Tree(g, GrownItem(items[i], path, items[j])) && Nodes(g) == Nodes(shapes[i]) + Nodes(shapes[j])
        && g.node == roots[i] && Free(g.node)
    {
      hide Nodes, NodesOf, Tidy, Holds, GrownItem, Grown;
      Separate(i);
      Separate(j);
      assert TidyAll(shapes);
      forall k | 0 <= k < |shapes| && k != i && k != j
        ensures {shapes[k].node} + NodesOf(shapes[k].kids) !! Nodes(shapes[i]) + Nodes(shapes[j])
        ensures Holds(shapes[k], items[k])
        ensures allocated(NodesOf(shapes[k].kids))
      {
        NodesOfShape(shapes[k]);
        NodesAllocated(shapes[k]);
        HoldAllAt(shapes, items, k);
      }
      ok := AppendAt(roots[i], path, roots[j], shapes[i], items[i], shapes[j], items[j]);
      forall k | 0 <= k < |shapes| && k != i && k != j
        ensures Holds(shapes[k], items[k]) && Free(shapes[k].node)
      {
        assert old(Holds(shapes[k], items[k]));
      }
      if !ok { AllHold(shapes, items); }
    }

    lemma Parts()
      requires Valid()
      ensures |roots| == |shapes| == |items| && TidyAll(shapes)
      ensures forall k :: 0 <= k < |roots| ==> roots[k] == shapes[k].node
    {
    }

    /** cJSON_DetachItemViaPointer of a child of a nested list, which becomes a tree of its own. */
    method Detach(i: nat, path: Path, k: nat)
      requires Valid()
      modifies this, NodesOf(shapes)
      ensures Valid() && items == Applied(Op.Detach(i, path, k), old(items))
      ensures NodesOf(shapes) == old(NodesOf(shapes))
    {
      hide Nodes, NodesOf, Tidy, Holds, ShrunkItem, Shrunk, Valid, Tree, HoldAll;
      Parts();
      if i >= |roots| { return; }
      Separate(i);
      var r;
      ghost var x;
      r, x := DetachTree(i, path, k);
      if r == null { return; }
      ghost var g := Shrunk(shapes[i], path, k);
      ghost var u := ShrunkItem(items[i], path, k);
      Divided(shapes, items, i, g, u, x, ItemAt(items[i], path).kids[k]);
      Become(roots + [r], shapes[i := g] + [x], items[i := u] + [ItemAt(items[i], path).kids[k]]);
    }

    method DetachTree(i: nat, path: Path, k: nat) returns (r: Node?, ghost x: Shape)
      requires Valid() && i < |roots| && |shapes| == |items|
      modifies NodesOf(shapes)
      ensures r != null <==> HasChild(items[i], path, k)
      ensures r == null ==> Valid()
      ensures forall m :: 0 <= m < |shapes| && m != i ==> Holds(shapes[m], items[m]) && Free(shapes[m].node)
      ensures r != null ==> OnShape(shapes[i], path) && k < |ShapeAt(shapes[i], path).kids|
      ensures r != null ==> r == x.node && Free(r) && Tree(x, ItemAt(items[i], path).kids[k])
      ensures r != null ==> var g := Shrunk(shapes[i], path, k);
        && Tree(g, ShrunkItem(items[i], path, k)) && Nodes(g) !! Nodes(x) && Nodes(g) + Nodes(x) == Nodes(shapes[i])
        && g.node == roots[i] && Free(g.node)
    {
      hide Nodes, NodesOf, Tidy, Holds, ShrunkItem, Shrunk;
      Separate(i);
      assert TidyAll(shapes);
      forall m | 0 <= m < |shapes| && m != i
        ensures {shapes[m].node} + NodesOf(shapes[m].kids) !! Nodes(shapes[i])
        ensures Holds(shapes[m], items[m])
        ensures allocated(NodesOf(shapes[m].kids))
      {
        NodesOfShape(shapes[m]);
        NodesAllocated(shapes[m]);
        HoldAllAt(shapes, items, m);
      }
      r, x := DetachAt(roots[i], path, k, shapes[i], items[i]);
      forall m | 0 <= m < |shapes| && m != i
        ensures Holds(shapes[m], items[m]) && Free(shapes[m].node)
      {
        assert old(Holds(shapes[m], items[m]));
      }
      if r == null { AllHold(shapes, items); }
    }

    method Duplicate(i: nat, path: Path, recurse: bool)
      requires Valid()
      modifies this
      ensures Valid() && items == Applied(Op.Duplicate(i, path, recurse), old(items))
      ensures fresh(NodesOf(shapes) - old(NodesOf(shapes)))
    {
      hide Nodes, NodesOf, Tidy, Holds, Copied;
      if i >= |roots| { return; }
      Separate(i);
      ghost var x;
      var copy;
      copy, x := DuplicateAt(roots[i], path, recurse, shapes[i], items[i]);
      if copy != null { Add(copy, x, Copied(ItemAt(items[i], path), recurse)); }
    }

    /** Any run of operations keeps every list well linked, and has the effect of the operations on the contents. */
    method Run(ops: seq<Op>)
      requires Valid() && forall k :: 0 <= k < |ops| ==> NoCycle(ops[k])
      modifies this, NodesOf(shapes)
      ensures Valid() && items == AppliedAll(ops, old(items))
    {
      hide Nodes, NodesOf, Valid, Applied;
      for k := 0 to |ops|
        invariant Valid() && items == AppliedAll(ops[..k], old(items))
        invariant forall n {:trigger n in NodesOf(shapes)} :: n in NodesOf(shapes) ==>
            n in old(NodesOf(shapes)) || fresh(n)
      {
        assert ops[..k + 1][..k] == ops[..k];
        Perform(ops[k]);
      }
      assert ops[..|ops|] == ops;
    }

    method Perform(op: Op)
      requires Valid() && NoCycle(op)
      modifies this, NodesOf(shapes)
      ensures Valid() && items == Applied(op, old(items))
      ensures forall n {:trigger n in NodesOf(shapes)} :: n in NodesOf(shapes) ==> n in old(NodesOf(shapes)) || fresh(n)
    {
      hide Nodes, NodesOf, Valid, Applied;
      match op {
        case Parse(text) => Parse(text);
        case Append(i, path, j) => Append(i, path, j);
        case Detach(i, path, k) => Detach(i, path, k);
        case Duplicate(i, path, recurse) => Duplicate(i, path, recurse);
      }
    }

    lemma Separate(i: nat)
      requires Valid() && i < |roots|
      ensures |shapes| == |items| && Tree(shapes[i], items[i]) && roots[i] == shapes[i].node && Free(roots[i])
      ensures allocated(NodesOf(shapes)) && Nodes(shapes[i]) <= NodesOf(shapes)
      ensures roots[i] in Nodes(shapes[i])
    {
    }
  }

  /** The lists when tree j has gone into tree i, which has become g. */
  lemma Joined(kids: seq<Shape>, ts: seq<Item>, i: nat, j: nat, g: Shape, u: Item)
    requires TidyAll(kids) && |kids| == |ts| && i < |kids| && j < |kids| && i != j
    requires Tree(g, u) && Nodes(g) == Nodes(kids[i]) + Nodes(kids[j])
    requires forall k :: 0 <= k < |kids| && k != i && k != j ==> Holds(kids[k], ts[k])
    ensures var all := ShapesWithout(kids[i := g], j);
            TidyAll(all) && NodesOf(all) == NodesOf(kids) && HoldAll(all, ItemsWithout(ts[i := u], j))
  {
    hide Nodes, Tidy, Holds, ShapesWithout, ItemsWithout, TidyAll, NodesOf, HoldAll;
    JoinedAt(kids, i, j, g);
    JoinedNodes(kids, i, j, g);
    JoinedTidy(kids, i, j, g);
    var all, us := ShapesWithout(kids[i := g], j), ItemsWithout(ts[i := u], j);
    forall k | 0 <= k < |us|
      ensures us[k] == var m := if k < j then k else k + 1; if m == i then u else ts[m]
    {
      ItemsWithoutAt(ts[i := u], j, k);
    }
    AllHold(all, us);
  }

  lemma ItemsWithoutAt(ts: seq<Item>, j: nat, k: nat)
    requires j < |ts| && k < |ts| - 1
    ensures ItemsWithout(ts, j)[k] == ts[if k < j then k else k + 1]
  {
  }

  lemma JoinedAt(kids: seq<Shape>, i: nat, j: nat, g: Shape)
    requires i < |kids| && j < |kids| && i != j
    ensures var all := ShapesWithout(kids[i := g], j);
            && |all| == |kids| - 1
            && (forall k :: 0 <= k < |all| ==>
              all[k] == var m := if k < j then k else k + 1; if m == i then g else kids[m])
            && forall m :: 0 <= m < |kids| && m != j ==>
              all[if m < j then m else m - 1] == if m == i then g else kids[m]
  {
  }

  lemma JoinedNodes(kids: seq<Shape>, i: nat, j: nat, g: Shape)
    requires i < |kids| && j < |kids| && i != j && Nodes(g) == Nodes(kids[i]) + Nodes(kids[j])
    ensures NodesOf(ShapesWithout(kids[i := g], j)) == NodesOf(kids)
  {
    hide Nodes, ShapesWithout;
    var all := ShapesWithout(kids[i := g], j);
    JoinedAt(kids, i, j, g);
    forall n | n in NodesOf(all)
      ensures n in NodesOf(kids)
    {
      var k :| 0 <= k < |all| && n in Nodes(all[k]);
      var m := if k < j then k else k + 1;
      assert n in Nodes(kids[m]) || n in Nodes(kids[j]);
    }
    forall n | n in NodesOf(kids)
      ensures n in NodesOf(all)
    {
      var m :| 0 <= m < |kids| && n in Nodes(kids[m]);
      var at := if m == j then i else m;
      assert n in Nodes(all[if at < j then at else at - 1]);
    }
  }

  lemma JoinedTidy(kids: seq<Shape>, i: nat, j: nat, g: Shape)
    requires i < |kids| && j < |kids| && i != j && Nodes(g) == Nodes(kids[i]) + Nodes(kids[j]) && Tidy(g) &&
             TidyAll(kids)
    ensures TidyAll(ShapesWithout(kids[i := g], j))
  {
    hide Nodes, Tidy, ShapesWithout;
    var all := ShapesWithout(kids[i := g], j);
    JoinedAt(kids, i, j, g);
    forall k, l | 0 <= k < l < |all|
      ensures Nodes(all[k]) !! Nodes(all[l])
    {
      var m, n := if k < j then k else k + 1, if l < j then l else l + 1;
      assert Nodes(kids[m]) !! Nodes(kids[n]);
      assert Nodes(kids[m]) !! Nodes(kids[j]) && Nodes(kids[n]) !! Nodes(kids[j]);
    }
  }

  /** The lists when tree i has been divided into g and x. */
  lemma Divided(kids: seq<Shape>, ts: seq<Item>, i: nat, g: Shape, u: Item, x: Shape, v: Item)
    requires TidyAll(kids) && |kids| == |ts| && i < |kids|
    requires Tree(g, u) && Tree(x, v) && Nodes(g) !! Nodes(x) && Nodes(g) + Nodes(x) == Nodes(kids[i])
    requires forall k :: 0 <= k < |kids| && k != i ==> Holds(kids[k], ts[k])
    ensures var all := kids[i := g] + [x];
            TidyAll(all) && NodesOf(all) == NodesOf(kids) && HoldAll(all, ts[i := u] + [v])
  {
    hide Nodes, Tidy, Holds;
    TidyExchanged(kids, i, g);
    NodesExchanged(kids, i, g);
    assert Nodes(kids[i]) <= NodesOf(kids);
    TidyAppend(kids[i := g], x);
    NodesOfAppend(kids[i := g], x);
    AllHold(kids[i := g] + [x], ts[i := u] + [v]);
  }

  ghost predicate Free(n: Node)
    reads n`next, n`prev
  {
    n.next == null && n.prev == null
  }
}
