/**
 The cJSON tree: items linked by next, prev and child, where the first child's
 prev is the last child and the last child's next is null.  A Shape lists the
 nodes of a tree in order, an Item the contents they hold.
 */
module JsonTree {
  import opened JsonText

  datatype Kind = Invalid | FalseKind | TrueKind | NullKind | NumberKind | StringKind | ArrayKind | ObjectKind

  /** A char pointer: null, or the bytes of a string. */
  datatype Text = Absent | Present(bytes: bytes)

  class Node {
    var next: Node?
    var prev: Node?
    var child: Node?
    var kind: Kind
    var number: int
    var text: Text
    var name: Text

    constructor ()
      ensures next == null && prev == null && Blank(this) && kind == Invalid && name == Absent
    {
      next, prev, child := null, null, null;
      kind, number, text, name := Invalid, 0, Absent, Absent;
    }
  }

  /** Nothing that parsing a value leaves as it is has been set yet. */
  ghost predicate Blank(n: Node)
    reads n`child, n`number, n`text
  {
    n.child == null && n.number == 0 && n.text == Absent
  }

  // ----- shapes

  datatype Shape = Shape(node: Node, kids: seq<Shape>)

  ghost function Nodes(s: Shape): set<Node> {
    {s.node} + NodesOf(s.kids)
  }

  ghost function NodesOf(kids: seq<Shape>): set<Node> {
    set i, n | 0 <= i < |kids| && n in Nodes(kids[i]) :: n
  }

  ghost function Roots(kids: seq<Shape>): set<Node> {
    set i | 0 <= i < |kids| :: kids[i].node
  }

  ghost function Below(kids: seq<Shape>): set<Node> {
    set i, n | 0 <= i < |kids| && n in NodesOf(kids[i].kids) :: n
  }

  lemma RootsIn(kids: seq<Shape>)
    ensures forall i :: 0 <= i < |kids| ==> kids[i].node in Roots(kids) && NodesOf(kids[i].kids) <= Below(kids)
  {
  }

  lemma RootsGrow(kids: seq<Shape>, x: Shape)
    ensures Roots(kids + [x]) == Roots(kids) + {x.node}
  {
    var all := kids + [x];
    assert all[|kids|] == x;
    assert forall i :: 0 <= i < |kids| ==> all[i] == kids[i];
  }

  lemma KidNodes(kids: seq<Shape>)
    ensures NodesOf(kids) == Roots(kids) + Below(kids)
  {
    forall i | 0 <= i < |kids|
      ensures Nodes(kids[i]) == {kids[i].node} + NodesOf(kids[i].kids)
    {
    }
  }

  lemma {:induction false} NodesAllocated(s: Shape)
    ensures allocated(Nodes(s))
  {
    BelowAllocated(s.kids);
    KidNodes(s.kids);
  }

  lemma {:induction false} BelowAllocated(kids: seq<Shape>)
    ensures allocated(Below(kids)) && allocated(Roots(kids))
  {
    forall i | 0 <= i < |kids|
      ensures allocated(Nodes(kids[i])) && allocated(kids[i].node)
    {
      NodesAllocated(kids[i]);
    }
    forall n | n in Below(kids)
      ensures allocated(n)
    {
      var i :| 0 <= i < |kids| && n in NodesOf(kids[i].kids);
      assert n in Nodes(kids[i]);
    }
  }

  /** No node occurs twice in the tree. */
  ghost predicate Tidy(s: Shape) {
    s.node !in NodesOf(s.kids) && TidyAll(s.kids)
  }

  ghost predicate TidyAll(kids: seq<Shape>) {
    && (forall i :: 0 <= i < |kids| ==> Tidy(kids[i]))
    && (forall i, j :: 0 <= i < j < |kids| ==> Nodes(kids[i]) !! Nodes(kids[j]))
  }

  // ----- contents

  datatype Item = Item(kind: Kind, number: int, text: Text, name: Text, kids: seq<Item>)

  /** The next and prev links that the i-th of a complete list of children must have. */
  ghost function NextOf(kids: seq<Shape>, i: nat): Node?
    requires i < |kids|
  {
    if i + 1 < |kids| then kids[i + 1].node else null
  }

  ghost function PrevOf(kids: seq<Shape>, i: nat): Node
    requires i < |kids|
  {
    kids[if i == 0 then |kids| - 1 else i - 1].node
  }

  ghost predicate LinksAt(kids: seq<Shape>, i: nat)
    requires i < |kids|
    reads kids[i].node`next, kids[i].node`prev
  {
    kids[i].node.next == NextOf(kids, i) && kids[i].node.prev == PrevOf(kids, i)
  }

  ghost predicate Chain(first: Node?, kids: seq<Shape>)
    reads Roots(kids)`next, Roots(kids)`prev
  {
    RootsIn(kids);
    && first == (if kids == [] then null else kids[0].node)
    && forall i :: 0 <= i < |kids| ==> LinksAt(kids, i)
  }

  /** The nodes of s are linked as they should be and hold the contents t. */
  ghost predicate Holds(s: Shape, t: Item)
    reads s.node`child, s.node`kind, s.node`number, s.node`text, s.node`name, NodesOf(s.kids)
  {
    KidNodes(s.kids);
    && SameFields(s.node, t)
    && Chain(s.node.child, s.kids)
    && |s.kids| == |t.kids|
    && HoldAll(s.kids, t.kids)
  }

  /** Every child holds its contents; the links between the children do not matter. */
  ghost predicate HoldAll(kids: seq<Shape>, ts: seq<Item>)
    reads Roots(kids)`child, Roots(kids)`kind, Roots(kids)`number, Roots(kids)`text, Roots(kids)`name, Below(kids)
  {
    RootsIn(kids);
    |kids| == |ts| && forall i :: 0 <= i < |kids| ==> Holds(kids[i], ts[i])
  }

  ghost predicate Tree(s: Shape, t: Item)
    reads Nodes(s)
  {
    Tidy(s) && Holds(s, t)
  }

  // ----- the list operations

  /** Different roots, none of them further down, nor the parent's own node. */
  ghost predicate Apart(node: Node, kids: seq<Shape>) {
    && (forall i, j :: 0 <= i < j < |kids| ==> kids[i].node != kids[j].node)
    && node !in Roots(kids)
    && Below(kids) !! Roots(kids) + {node}
  }

  lemma TidyApart(s: Shape)
    requires Tidy(s)
    ensures Apart(s.node, s.kids)
  {
    var kids := s.kids;
    KidNodes(kids);
    forall i, j | 0 <= i < |kids| && 0 <= j < |kids|
      ensures i != j ==> kids[i].node != kids[j].node
      ensures kids[j].node !in NodesOf(kids[i].kids)
    {
      assert Tidy(kids[i]);
      assert kids[i].node in Nodes(kids[i]) && kids[j].node in Nodes(kids[j]);
      assert NodesOf(kids[i].kids) <= Nodes(kids[i]);
    }
  }

  lemma NodesOfAppend(kids: seq<Shape>, x: Shape)
    ensures NodesOf(kids + [x]) == NodesOf(kids) + Nodes(x)
  {
    var all := kids + [x];
    assert forall i :: 0 <= i < |kids| ==> all[i] == kids[i];
    assert all[|kids|] == x;
    assert NodesOf(kids) <= NodesOf(all) && Nodes(x) <= NodesOf(all);
    forall n | n in NodesOf(all)
      ensures n in NodesOf(kids) + Nodes(x)
    {
      var i :| 0 <= i < |all| && n in Nodes(all[i]);
      if i < |kids| { assert n in Nodes(kids[i]); }
    }
  }

  lemma TidyAppend(kids: seq<Shape>, x: Shape)
    requires TidyAll(kids) && Tidy(x) && NodesOf(kids) !! Nodes(x)
    ensures TidyAll(kids + [x])
  {
    forall i | 0 <= i < |kids|
      ensures Nodes(kids[i]) !! Nodes(x)
    {
      assert Nodes(kids[i]) <= NodesOf(kids);
    }
  }

  lemma TidyGrow(s: Shape, x: Shape)
    requires Tidy(s) && Tidy(x) && Nodes(s) !! Nodes(x)
    ensures Tidy(Shape(s.node, s.kids + [x]))
  {
    NodesOfAppend(s.kids, x);
    TidyAppend(s.kids, x);
  }

  predicate Added(list: Node?, item: Node?) {
    list != null && item != null && list != item
  }

  /** add_item_to_array: the item becomes the last child.  The list is well linked if the two trees share no node and
      the item's own next link is null already, unless it is the first child. */
  method AddItemToArray(list: Node?, item: Node?, ghost s: Shape, ghost t: Item, ghost x: Shape, ghost u: Item)
    returns (ok: bool)
    requires list != null ==> list == s.node && Tree(s, t)
    requires item != null ==> item == x.node && Tree(x, u)
    modifies s.node`child, Roots(s.kids + [x])`next, Roots(s.kids + [x])`prev
    ensures ok == Added(list, item)
    ensures !ok ==> unchanged(s.node`child) && unchanged(Roots(s.kids + [x]))
    ensures ok ==> list.child == if s.kids == [] then item else old(list.child)
    ensures ok && Nodes(s) !! Nodes(x) ==>
              (Tree(Shape(s.node, s.kids + [x]), t.(kids := t.kids + [u])) <==>
                 s.kids == [] || old(x.node.next) == null)
  {
    hide Tidy, Nodes, NodesOf, Below, Holds, HoldAll;
    if item == null || list == null || list == item { return false; }
    ghost var all, apart := s.kids + [x], Nodes(s) !! Nodes(x);
    if apart {
      TidyGrow(s, x);
      TidyApart(Shape(s.node, all));
    }
    RootsIn(all);
    HoldsLinks(s, t);
    HoldAllGrow(s.kids, t.kids, x, u);
    assert all[|s.kids|] == x;
    assert s.kids != [] ==> LinksAt(s.kids, 0) && all[|s.kids| - 1] == s.kids[|s.kids| - 1] && all[0] == s.kids[0];
    var child := list.child;
    if child == null {
      list.child := item;
      item.prev := item;
      item.next := null;
    } else {
      if child.prev != null {
        child.prev.next := item;
        item.prev := child.prev;
      }
      list.child.prev := item;
    }
    ok := true;
    if apart {
      forall i | 0 <= i < |s.kids|
        ensures LinksAt(all, i)
      {
        assert old(LinksAt(s.kids, i)) && all[i] == s.kids[i];
      }
      assert LinksAt(all, |s.kids|) <==> s.kids == [] || old(x.node.next) == null;
      assert HoldAll(all, t.kids + [u]);
      HoldsIff(Shape(s.node, all), t.(kids := t.kids + [u]));
    }
  }

  lemma KidWithin(s: Shape, i: nat)
    requires i < |s.kids|
    ensures Nodes(s.kids[i]) <= NodesOf(s.kids) <= Nodes(s)
    ensures s.kids[i].node in Nodes(s.kids[i]) && s.node in Nodes(s)
    ensures Tidy(s) ==> Tidy(s.kids[i]) && s.node !in Nodes(s.kids[i])
  {
    assert Tidy(s) ==> TidyAll(s.kids);
  }

  lemma KidTree(s: Shape, t: Item, i: nat)
    requires Tree(s, t) && i < |s.kids|
    ensures |s.kids| == |t.kids| && Tree(s.kids[i], t.kids[i]) && s.kids[i].node in Nodes(s)
    ensures s.kids[i].node.next == NextOf(s.kids, i) && s.node.child == s.kids[0].node
  {
    hide Nodes, Holds;
    KidWithin(s, i);
    HoldsLinks(s, t);
    HoldAllAt(s.kids, t.kids, i);
    assert LinksAt(s.kids, i);
  }

  lemma HoldAllGrow(kids: seq<Shape>, ts: seq<Item>, x: Shape, u: Item)
    requires HoldAll(kids, ts) && Holds(x, u)
    ensures HoldAll(kids + [x], ts + [u])
  {
    hide Holds;
  }

  lemma HoldAllWithout(kids: seq<Shape>, ts: seq<Item>, i: nat)
    requires HoldAll(kids, ts) && i < |kids|
    ensures |kids| == |ts| && HoldAll(ShapesWithout(kids, i), ItemsWithout(ts, i)) && Holds(kids[i], ts[i])
  {
    hide Holds;
  }

  lemma HoldsLinks(s: Shape, t: Item)
    requires Holds(s, t)
    ensures Chain(s.node.child, s.kids)
    ensures SameFields(s.node, t)
    ensures |s.kids| == |t.kids| && HoldAll(s.kids, t.kids)
  {
  }

  lemma HoldsIff(s: Shape, t: Item)
    requires SameFields(s.node, t)
    requires |s.kids| == |t.kids| && HoldAll(s.kids, t.kids)
    ensures Holds(s, t) <==> Chain(s.node.child, s.kids)
  {
  }

  ghost function ShapesWithout(kids: seq<Shape>, i: nat): (r: seq<Shape>)
    requires i < |kids|
    ensures |r| == |kids| - 1 && (r != [] ==> r[0] == kids[if i == 0 then 1 else 0])
  {
    kids[..i] + kids[i + 1..]
  }

  ghost function ItemsWithout(kids: seq<Item>, i: nat): (r: seq<Item>)
    requires i < |kids|
    ensures |r| == |kids| - 1
  {
    kids[..i] + kids[i + 1..]
  }

  lemma TidyWithout(s: Shape, i: nat)
    requires Tidy(s) && i < |s.kids|
    ensures Tidy(Shape(s.node, ShapesWithout(s.kids, i))) && Tidy(s.kids[i])
    ensures NodesOf(ShapesWithout(s.kids, i)) !! Nodes(s.kids[i]) && s.node !in Nodes(s.kids[i])
  {
    var rest := ShapesWithout(s.kids, i);
    forall k | 0 <= k < |rest|
      ensures rest[k] == s.kids[if k < i then k else k + 1]
    {
    }
    forall n | n in NodesOf(rest)
      ensures n in NodesOf(s.kids) && n !in Nodes(s.kids[i])
    {
      var k :| 0 <= k < |rest| && n in Nodes(rest[k]);
      assert n in Nodes(s.kids[if k < i then k else k + 1]);
    }
  }

  /** item is the i-th child of s. */
  ghost predicate IsKid(s: Shape, i: nat, item: Node?) {
    i < |s.kids| && item == s.kids[i].node
  }

  /** The links of child j once the gap around child i is closed. */
  ghost predicate Closed(kids: seq<Shape>, i: nat, j: nat)
    requires i < |kids| && j < |kids|
    reads kids[j].node
  {
    && kids[j].node.next == (if j + 1 == i then NextOf(kids, i) else NextOf(kids, j))
    && kids[j].node.prev == (if j == i + 1 || (j == 0 && i == |kids| - 1) then PrevOf(kids, i) else PrevOf(kids, j))
  }

  lemma ClosedLinks(kids: seq<Shape>, i: nat, k: nat)
    requires i < |kids| && k < |kids| - 1
    requires Closed(kids, i, if k < i then k else k + 1)
    ensures LinksAt(ShapesWithout(kids, i), k)
  {
    var rest := ShapesWithout(kids, i);
    assert rest[k] == kids[if k < i then k else k + 1];
  }

  lemma HoldsWithout(s: Shape, t: Item, i: nat)
    requires i < |s.kids| == |t.kids|
    requires SameFields(s.node, t)
    requires s.node.child == if |s.kids| == 1 then null else s.kids[if i == 0 then 1 else 0].node
    requires forall j :: 0 <= j < |s.kids| && j != i ==> Closed(s.kids, i, j)
    requires HoldAll(s.kids, t.kids)
    ensures Holds(Shape(s.node, ShapesWithout(s.kids, i)), t.(kids := ItemsWithout(t.kids, i)))
    ensures Holds(s.kids[i], t.kids[i])
  {
    hide HoldAll, Closed, LinksAt, ShapesWithout, ItemsWithout;
    var rest := ShapesWithout(s.kids, i);
    forall k | 0 <= k < |rest|
      ensures LinksAt(rest, k)
    {
      ClosedLinks(s.kids, i, k);
    }
    HoldAllWithout(s.kids, t.kids, i);
    HoldsIff(Shape(s.node, rest), t.(kids := ItemsWithout(t.kids, i)));
  }

  /** The pointer updates of a detach, whatever the two items are linked to. */
  method Relink(parent: Node, item: Node)
    requires item != parent.child ==> item.prev != null && (item.next == null ==> parent.child != null)
    modifies parent`child, Around(parent, item)`next, Around(parent, item)`prev
    ensures parent.child == if item == old(parent.child) then old(item.next) else old(parent.child)
    ensures forall n: Node | old(allocated(n)) ::
              && n.next == (if n == item then null
                            else old(if item != parent.child && n == item.prev then item.next else n.next))
              && n.prev == (if n == item then null
                            else old(if item.next != null && n == item.next then item.prev
                                     else if item != parent.child && item.next == null && n == parent.child
                                       then item.prev
                                     else n.prev))
  {
    if item != parent.child { item.prev.next := item.next; }
    if item.next != null { item.next.prev := item.prev; }
    if item == parent.child {
      parent.child := item.next;
    } else if item.next == null {
      parent.child.prev := item.prev;
    }
    item.prev := null;
    item.next := null;
  }

  ghost function Around(parent: Node, item: Node): set<Node>
    reads parent, item
  {
    {item} + (if item.prev == null then {} else {item.prev}) + (if item.next == null then {} else {item.next}) +
    (if parent.child == null then {} else {parent.child})
  }

  /** The pointer updates of a detach: the gap is closed and the item's own links are cleared. */
  method Unlink(parent: Node, item: Node, ghost kids: seq<Shape>, ghost i: nat)
    requires Chain(parent.child, kids) && Apart(parent, kids)
    requires i < |kids| && item == kids[i].node
    modifies parent`child, Roots(kids)
    ensures parent.child == if |kids| == 1 then null else kids[if i == 0 then 1 else 0].node
    ensures forall j :: 0 <= j < |kids| && j != i ==> Closed(kids, i, j)
    ensures item.next == null && item.prev == null
    ensures forall k :: 0 <= k < |kids| ==> var n := kids[k].node;
      n.child == old(n.child) && n.kind == old(n.kind) && n.number == old(n.number) && n.text == old(n.text) &&
        n.name == old(n.name)
  {
    hide NodesOf, Below;
    RootsIn(kids);
    assert LinksAt(kids, i) && LinksAt(kids, 0);
    Relink(parent, item);
    forall j | 0 <= j < |kids| && j != i
      ensures Closed(kids, i, j)
    {
      assert old(LinksAt(kids, j)) && old(LinksAt(kids, i));
    }
  }

  /** cJSON_DetachItemViaPointer: exactly the item leaves the list, and its own subtree stays whole. */
  method DetachItemViaPointer(parent: Node?, item: Node?, ghost s: Shape, ghost t: Item, ghost i: nat)
    returns (r: Node?)
    requires parent != null ==> parent == s.node && Tree(s, t)
    requires parent != null && item != null ==> IsKid(s, i, item) || (item.prev == null && item !in Roots(s.kids))
    modifies s.node`child, Roots(s.kids)
    ensures r == if parent != null && IsKid(s, i, item) then item else null
    ensures r == null ==> unchanged(s.node`child) && unchanged(Roots(s.kids))
    ensures r != null ==> Tree(Shape(s.node, ShapesWithout(s.kids, i)), t.(kids := ItemsWithout(t.kids, i)))
    ensures r != null ==> Tree(s.kids[i], t.kids[i]) && r.next == null && r.prev == null
  {
    hide Tidy, Nodes, NodesOf, Below, Holds, HoldAll, ShapesWithout, ItemsWithout, Closed;
    RootsIn(s.kids);
    if parent != null {
      HoldsLinks(s, t);
      TidyApart(s);
      assert IsKid(s, i, item) ==> LinksAt(s.kids, i);
    }
    if parent == null || item == null || (item != parent.child && item.prev == null) { return null; }
    TidyWithout(s, i);
    BelowAllocated(s.kids);
    Unlink(parent, item, s.kids, i);
    assert HoldAll(s.kids, t.kids);
    HoldsWithout(s, t, i);
    r := item;
  }

  // ----- walking a list

  lemma KidAt(s: Shape, t: Item, k: nat)
    requires Holds(s, t) && k < |s.kids|
    ensures |s.kids| == |t.kids| && s.kids[k].node.name == t.kids[k].name && s.kids[k].node.next == NextOf(s.kids, k)
  {
    assert Holds(s.kids[k], t.kids[k]) && LinksAt(s.kids, k);
  }

  lemma FirstKid(s: Shape, t: Item)
    requires Holds(s, t)
    ensures |s.kids| == |t.kids| && s.node.child == FirstFrom(s.kids, 0)
    ensures allocated(NodesOf(s.kids))
  {
    NodesAllocated(s);
    assert NodesOf(s.kids) <= Nodes(s);
  }

  /** cJSON_GetArraySize: the walk along next ends, after as many items as there are children. */
  method GetArraySize(list: Node?, ghost s: Shape, ghost t: Item) returns (size: nat)
    requires list != null ==> list == s.node && Holds(s, t)
    ensures size == if list == null then 0 else |t.kids|
  {
    hide Holds, NodesOf;
    size := 0;
    if list != null { FirstKid(s, t); }
    var child := if list == null then null else list.child;
    while child != null
      invariant list != null ==> size <= |s.kids| && child == FirstFrom(s.kids, size)
      invariant list == null ==> child == null && size == 0
      invariant list != null ==> Holds(s, t)
      decreases |s.kids| - size
    {
      KidAt(s, t, size);
      size := size + 1;
      child := child.next;
    }
  }

  /** cJSON_GetArrayItem. */
  method GetArrayItem(list: Node?, index: int, ghost s: Shape, ghost t: Item) returns (item: Node?)
    requires list != null ==> list == s.node && Holds(s, t)
    ensures item == if list != null && 0 <= index < |s.kids| then s.kids[index].node else null
  {
    hide Holds, NodesOf;
    if index < 0 { return null; }
    if list != null { FirstKid(s, t); }
    item := if list == null then null else list.child;
    var left := index;
    while item != null && left > 0
      invariant 0 <= left <= index
      invariant list == null ==> item == null
      invariant list != null ==> index - left <= |s.kids| && item == FirstFrom(s.kids, index - left)
      invariant list != null ==> Holds(s, t)
    {
      KidAt(s, t, index - left);
      left := left - 1;
      item := item.next;
    }
  }

  /** Where a search by name stops: at the first child with that name or with none. */
  ghost function FirstNamed(ts: seq<Item>, name: bytes, k: nat): (r: nat)
    requires k <= |ts|
    ensures k <= r <= |ts|
    ensures forall i :: k <= i < r ==> ts[i].name.Present? && UpToZero(ts[i].name.bytes) != UpToZero(name)
    ensures r < |ts| && ts[r].name.Present? ==> UpToZero(ts[r].name.bytes) == UpToZero(name)
    decreases |ts| - k
  {
    if k == |ts| || ts[k].name.Absent? || UpToZero(ts[k].name.bytes) == UpToZero(name) then k
      else FirstNamed(ts, name, k + 1)
  }

  /** The index of the child that a search by name returns. */
  ghost predicate NamedAt(ts: seq<Item>, name: bytes, k: nat) {
    k == FirstNamed(ts, name, 0) && k < |ts| && ts[k].name.Present?
  }

  /** cJSON_GetObjectItem: the first child of that name, unless one without name comes before it. */
  method GetObjectItem(parent: Node?, name: bytes, ghost s: Shape, ghost t: Item) returns (item: Node?)
    requires parent != null ==> parent == s.node && Holds(s, t)
    ensures parent == null ==> item == null
    ensures parent != null ==> |s.kids| == |t.kids|
    ensures parent != null ==> var k := FirstNamed(t.kids, name, 0);
              item == if k < |t.kids| && t.kids[k].name.Present? then s.kids[k].node else null
  {
    hide Holds, NodesOf, UpToZero;
    if parent == null { return null; }
    ghost var k := 0;
    FirstKid(s, t);
    var current := parent.child;
    if current != null { KidAt(s, t, 0); }
    while current != null && current.name.Present? && UpToZero(name) != UpToZero(current.name.bytes)
      invariant k <= |t.kids| && current == FirstFrom(s.kids, k) &&
          FirstNamed(t.kids, name, 0) == FirstNamed(t.kids, name, k)
      invariant current != null ==> k < |t.kids| && current.name == t.kids[k].name
      invariant Holds(s, t)
      decreases |s.kids| - k
    {
      KidAt(s, t, k);
      k := k + 1;
      if k < |s.kids| { KidAt(s, t, k); }
      current := current.next;
    }
    item := if current != null && current.name.Present? then current else null;
  }

  /** cJSON_DetachItemFromObject. */
  method DetachItemFromObject(parent: Node?, name: bytes, ghost s: Shape, ghost t: Item)
    returns (item: Node?, ghost k: nat)
    requires parent != null ==> parent == s.node && Tree(s, t)
    modifies s.node`child, Roots(s.kids)
    ensures item != null <==> parent != null && NamedAt(t.kids, name, k)
    ensures item == null ==> unchanged(s.node`child) && unchanged(Roots(s.kids))
    ensures item != null ==> IsKid(s, k, item) && |s.kids| == |t.kids|
    ensures item != null ==> Tree(Shape(s.node, ShapesWithout(s.kids, k)), t.(kids := ItemsWithout(t.kids, k)))
    ensures item != null ==> Tree(s.kids[k], t.kids[k]) && item.next == null && item.prev == null
  {
    hide Tidy, Holds, NodesOf, FirstNamed, ShapesWithout, ItemsWithout;
    NodesAllocated(s);
    var found := GetObjectItem(parent, name, s, t);
    k := if parent != null then FirstNamed(t.kids, name, 0) else 0;
    item := DetachItemViaPointer(parent, found, s, t, k);
  }

  // ----- duplicates

  /** What cJSON_strdup keeps. */
  function Strdup(t: Text): Text {
    if t.Present? then Present(UpToZero(t.bytes)) else Absent
  }

  /** The contents of a duplicate. */
  ghost function Copied(t: Item, recurse: bool): Item {
    Item(t.kind, t.number, Strdup(t.text), Strdup(t.name), if recurse then CopiedAll(t.kids) else [])
  }

  ghost function CopiedAll(ts: seq<Item>): (r: seq<Item>)
    ensures |r| == |ts|
  {
    seq(|ts|, i requires 0 <= i < |ts| => Copied(ts[i], true))
  }

  ghost predicate ZeroFree(t: Text) {
    t.Present? ==> 0 !in t.bytes
  }

  ghost predicate AllZeroFree(t: Item) {
    ZeroFree(t.text) && ZeroFree(t.name) && forall i :: 0 <= i < |t.kids| ==> AllZeroFree(t.kids[i])
  }

  /** A duplicate holds what the original holds, whenever its strings are C strings. */
  lemma {:induction false} CopiedIsEqual(t: Item)
    ensures Copied(t, true) == t <==> AllZeroFree(t)
  {
    forall i | 0 <= i < |t.kids|
      ensures CopiedAll(t.kids)[i] == t.kids[i] <==> AllZeroFree(t.kids[i])
    {
      CopiedIsEqual(t.kids[i]);
    }
    assert CopiedAll(t.kids) == t.kids <==> forall i :: 0 <= i < |t.kids| ==> CopiedAll(t.kids)[i] == t.kids[i];
  }

  /** A list of children as it grows: all links are in place except the first child's prev. */
  ghost predicate Strung(first: Node?, last: Node?, kids: seq<Shape>)
    reads Roots(kids)`next, Roots(kids)`prev
  {
    RootsIn(kids);
    && first == (if kids == [] then null else kids[0].node)
    && last == (if kids == [] then null else kids[|kids| - 1].node)
    && forall i :: 0 <= i < |kids| ==> StrungAt(kids, i)
  }

  ghost predicate StrungAt(kids: seq<Shape>, i: nat)
    requires i < |kids|
    reads kids[i].node`next, kids[i].node`prev
  {
    kids[i].node.next == NextOf(kids, i) && (i > 0 ==> kids[i].node.prev == PrevOf(kids, i))
  }

  /** The nodes of a list under construction: tidy, holding ts, and apart from the list's owner. */
  ghost predicate Built(owner: Node, kids: seq<Shape>, ts: seq<Item>)
    reads NodesOf(kids)
  {
    KidNodes(kids);
    TidyAll(kids) && owner !in NodesOf(kids) && HoldAll(kids, ts)
  }

  /** A list of new children on its way: its nodes are built and strung. */
  ghost predicate Growing(owner: Node, first: Node?, last: Node?, kids: seq<Shape>, ts: seq<Item>)
    reads NodesOf(kids)
  {
    KidNodes(kids);
    Built(owner, kids, ts) && Strung(first, last, kids)
  }

  lemma GrowingNone(owner: Node)
    ensures Growing(owner, null, null, [], []) && NodesOf([]) == {}
  {
  }

  lemma GrowingNodes(owner: Node, first: Node?, last: Node?, kids: seq<Shape>, ts: seq<Item>)
    requires Growing(owner, first, last, kids, ts)
    ensures allocated(NodesOf(kids)) && Roots(kids) <= NodesOf(kids) && owner !in NodesOf(kids)
  {
    KidNodes(kids);
    BelowAllocated(kids);
  }

  /** The item at the end of the list has got its contents. */
  lemma GrowingFilled(owner: Node, first: Node?, last: Node?, kids: seq<Shape>, ts: seq<Item>, x: Shape, u: Item)
    requires Built(owner, kids, ts) && Strung(first, last, kids + [Shape(x.node, [])])
    requires Tree(x, u) && Nodes(x) !! NodesOf(kids) + {owner}
    ensures Growing(owner, first, last, kids + [x], ts + [u])
    ensures NodesOf(kids + [x]) == NodesOf(kids) + Nodes(x)
  {
    hide Tree, Strung;
    StrungSame(first, last, kids, x);
    BuiltGrow(owner, kids, ts, x, u);
  }

  lemma BuiltGrow(owner: Node, kids: seq<Shape>, ts: seq<Item>, x: Shape, u: Item)
    requires Built(owner, kids, ts) && Tree(x, u) && Nodes(x) !! NodesOf(kids) + {owner}
    ensures Built(owner, kids + [x], ts + [u])
    ensures NodesOf(kids + [x]) == NodesOf(kids) + Nodes(x)
  {
    hide Tidy, Holds;
    TidyAppend(kids, x);
    NodesOfAppend(kids, x);
    HoldAllGrow(kids, ts, x, u);
  }

  lemma BuiltApart(owner: Node, kids: seq<Shape>, ts: seq<Item>)
    requires Built(owner, kids, ts)
    ensures Apart(owner, kids) && Tidy(Shape(owner, kids))
    ensures HoldAll(kids, ts) && |kids| == |ts|
    ensures allocated(NodesOf(kids)) && allocated(Below(kids)) && allocated(Roots(kids))
  {
    hide Holds;
    BelowAllocated(kids);
    KidNodes(kids);
    TidyApart(Shape(owner, kids));
  }

  /** The pointer updates that append one more copy. */
  method LinkCopy(newitem: Node, next: Node?, newchild: Node,
                  ghost kids: seq<Shape>, ghost x: Shape, ghost front: seq<Item>, ghost u: Item)
    requires Built(newitem, kids, front) && Strung(newitem.child, next, kids)
    requires Tree(x, u) && Nodes(x) !! NodesOf(kids) + {newitem}
    requires newchild == x.node && newchild.next == null
    modifies newitem`child, Roots(kids), newchild
    ensures Built(newitem, kids + [x], front + [u]) && Strung(newitem.child, newchild, kids + [x])
    ensures NodesOf(kids + [x]) == NodesOf(kids) + Nodes(x)
    ensures newitem.next == old(newitem.next) && newitem.prev == old(newitem.prev)
    ensures forall t: Item :: old(SameFields(newitem, t)) ==> SameFields(newitem, t)
  {
    hide Tidy, TidyAll, Nodes, NodesOf, Below, Holds, HoldAll, Roots;
    ghost var all, ts := kids + [x], front + [u];
    BuiltGrow(newitem, kids, front, x, u);
    BuiltApart(newitem, all, ts);
    RootsIn(all);
    RootsGrow(kids, x);
    assert all[|kids|] == x;
    assert forall i :: 0 <= i < |kids| ==> all[i] == kids[i];
    if next != null {
      next.next := newchild;
      newchild.prev := next;
    } else {
      newitem.child := newchild;
    }
    forall i | 0 <= i < |all|
      ensures StrungAt(all, i)
    {
      if i < |kids| { assert old(StrungAt(kids, i)); }
    }
    assert HoldAll(all, ts);
  }

  /** The first child's prev becomes the last child, which completes the list. */
  method CloseList(head: Node?, last: Node?, ghost owner: Node, ghost kids: seq<Shape>, ghost ts: seq<Item>)
    requires Growing(owner, head, last, kids, ts)
    modifies Roots(kids)
    ensures Built(owner, kids, ts) && Chain(head, kids)
  {
    hide Tidy, TidyAll, Nodes, NodesOf, Below, Holds, HoldAll;
    BuiltApart(owner, kids, ts);
    RootsIn(kids);
    if head != null { head.prev := last; }
    forall i | 0 <= i < |kids|
      ensures LinksAt(kids, i)
    {
      assert old(StrungAt(kids, i));
    }
    assert HoldAll(kids, ts);
  }

  lemma BuiltComplete(owner: Node, kids: seq<Shape>, t: Item)
    requires Built(owner, kids, t.kids) && Chain(owner.child, kids) && SameFields(owner, t)
    ensures Tree(Shape(owner, kids), t)
  {
    hide HoldAll;
    BuiltApart(owner, kids, t.kids);
    HoldsIff(Shape(owner, kids), t);
  }

  /** The end of parse_array and parse_object: the list is closed and becomes the item's. */
  method FinishList(item: Node, kind: Kind, head: Node?, current: Node?, ghost kids: seq<Shape>, ghost ts: seq<Item>)
    requires Growing(item, head, current, kids, ts) && Blank(item)
    modifies NodesOf(kids), item`kind, item`child
    ensures Tree(Shape(item, kids), Item(kind, 0, Absent, item.name, ts))
  {
    hide Built, Strung, NodesOf;
    GrowingNodes(item, head, current, kids, ts);
    CloseList(head, current, item, kids, ts);
    BuiltApart(item, kids, ts);
    item.kind := kind;
    item.child := head;
    BuiltComplete(item, kids, Item(kind, 0, Absent, item.name, ts));
  }

  /** The list of a parsed array or object gets one more, still empty, item. */
  method LinkItem(head: Node?, current: Node?, item: Node, ghost owner: Node, ghost kids: seq<Shape>,
                  ghost ts: seq<Item>)
    returns (first: Node)
    requires Growing(owner, head, current, kids, ts) && item !in NodesOf(kids) && item.next == null
    modifies Roots(kids), item`prev
    ensures Built(owner, kids, ts) && Strung(first, item, kids + [Shape(item, [])])
  {
    hide Tidy, TidyAll, Nodes, NodesOf, Below, Holds, HoldAll, Roots;
    ghost var all := kids + [Shape(item, [])];
    BuiltApart(owner, kids, ts);
    KidNodes(kids);
    RootsIn(kids);
    RootsIn(all);
    assert forall i :: 0 <= i < |kids| ==> all[i] == kids[i];
    if head == null {
      first := item;
    } else {
      current.next := item;
      item.prev := current;
      first := head;
    }
    forall i | 0 <= i < |all|
      ensures StrungAt(all, i)
    {
      if i < |kids| { assert old(StrungAt(kids, i)); }
    }
    assert HoldAll(kids, ts);
  }

  lemma StrungSame(first: Node?, last: Node?, kids: seq<Shape>, x: Shape)
    requires Strung(first, last, kids + [Shape(x.node, [])])
    ensures Strung(first, last, kids + [x])
  {
    var before, after := kids + [Shape(x.node, [])], kids + [x];
    assert forall i :: 0 <= i < |after| ==> after[i].node == before[i].node;
    forall i | 0 <= i < |after|
      ensures StrungAt(after, i)
    {
      assert StrungAt(before, i);
    }
  }

  lemma TakeNext(ts: seq<Item>, k: nat)
    requires k < |ts|
    ensures ts[..k] + [ts[k]] == ts[..k + 1]
  {
  }

  lemma TakeAll(ts: seq<Item>)
    ensures ts[..|ts|] == ts
  {
  }

  lemma CopiedAt(ts: seq<Item>, i: nat)
    requires i < |ts|
    ensures CopiedAll(ts)[i] == Copied(ts[i], true)
  {
  }

  lemma HoldAllAt(kids: seq<Shape>, ts: seq<Item>, i: nat)
    requires HoldAll(kids, ts) && i < |kids|
    ensures |kids| == |ts| && Holds(kids[i], ts[i])
  {
  }

  lemma NodesOfShape(s: Shape)
    ensures Nodes(s) == {s.node} + NodesOf(s.kids)
  {
  }

  /** A new item with the fields of another one, strings duplicated. */
  method CopyNode(item: Node, ghost t: Item, ghost recurse: bool) returns (newitem: Node)
    requires SameFields(item, t)
    ensures fresh(newitem) && newitem.child == null && newitem.next == null && newitem.prev == null
    ensures SameFields(newitem, Copied(t, recurse))
  {
    newitem := new Node();
    newitem.kind := item.kind;
    newitem.number := item.number;
    newitem.text := Strdup(item.text);
    newitem.name := Strdup(item.name);
  }

  /** cJSON_Duplicate_rec: a deep copy that shares no node with the original. */
  method DuplicateRec(item: Node?, recurse: bool, ghost s: Shape, ghost t: Item) returns (copy: Node?, ghost c: Shape)
    requires item != null ==> item == s.node && Holds(s, t)
    ensures copy == null <==> item == null
    ensures copy != null ==> c.node == copy && fresh(Nodes(c)) && copy.next == null && copy.prev == null
    ensures copy != null ==> Tree(c, Copied(t, recurse))
    decreases s
  {
    hide Tidy, TidyAll, Nodes, NodesOf, Below, Holds, HoldAll, Built, Strung, CopiedAll, SameFields, Strdup;
    if item == null { return null, s; }
    HoldsLinks(s, t);
    BelowAllocated(s.kids);
    var newitem := CopyNode(item, t, recurse);
    ghost var u := Copied(t, recurse);
    c := Shape(newitem, []);
    BuiltNone(newitem);
    if !recurse { return newitem, c; }
    var child := item.child;
    var next: Node?, newchild: Node? := null, null;
    ghost var kids: seq<Shape> := [];
    while child != null
      invariant |kids| <= |s.kids| == |u.kids| && child == FirstFrom(s.kids, |kids|)
      invariant Built(newitem, kids, u.kids[..|kids|]) && Strung(newitem.child, next, kids) && newchild == next
      invariant fresh(NodesOf(kids)) && HoldAll(s.kids, t.kids)
      invariant newitem.next == null && newitem.prev == null && SameFields(newitem, u)
      decreases |s.kids| - |kids|
    {
      ghost var k := |kids|;
      ghost var x;
      HoldAllAt(s.kids, t.kids, k);
      KidNodes(kids);
      BuiltApart(newitem, kids, u.kids[..k]);
      CopiedAt(t.kids, k);
      newchild, x := DuplicateRec(child, true, s.kids[k], t.kids[k]);
      NodesOfShape(x);
      LinkCopy(newitem, next, newchild, kids, x, u.kids[..k], u.kids[k]);
      TakeNext(u.kids, k);
      next := newchild;
      kids := kids + [x];
      assert old(LinksAt(s.kids, k));
      child := child.next;
    }
    TakeAll(u.kids);
    KidNodes(kids);
    BuiltApart(newitem, kids, u.kids);
    CloseList(newitem.child, newchild, newitem, kids, u.kids);
    BuiltComplete(newitem, kids, u);
    copy := newitem;
    c := Shape(newitem, kids);
    NodesOfShape(c);
  }

  lemma BuiltNone(owner: Node)
    ensures Built(owner, [], []) && Strung(null, null, []) && NodesOf([]) == {}
    ensures Nodes(Shape(owner, [])) == {owner}
    ensures forall t: Item :: owner.child == null && SameFields(owner, t) && t.kids == [] ==> Tree(Shape(owner, []), t)
  {
  }

  lemma Leaf(item: Node, t: Item)
    requires item.child == null && SameFields(item, t) && t.kids == []
    ensures Tree(Shape(item, []), t)
  {
  }

  lemma ItemsOfNone()
    ensures ItemsOf([]) == [] && MembersOf([]) == []
  {
  }

  lemma ItemsOfGrow(vs: seq<Json>, v: Json)
    ensures ItemsOf(vs + [v]) == ItemsOf(vs) + [ItemOf(v, Absent)]
  {
  }

  lemma MembersOfGrow(ms: seq<Member>, m: Member)
    ensures MembersOf(ms + [m]) == MembersOf(ms) + [MemberItem(m)]
  {
  }

  ghost predicate SameFields(n: Node, t: Item)
    reads n`kind, n`number, n`text, n`name
  {
    n.kind == t.kind && n.number == t.number && n.text == t.text && n.name == t.name
  }

  ghost function FirstFrom(kids: seq<Shape>, k: nat): Node?
    requires k <= |kids|
  {
    if k < |kids| then kids[k].node else null
  }

  // ----- the items of parsed values

  /** The item that parsing builds for a value. */
  ghost function ItemOf(v: Json, name: Text): Item {
    match v
    case Null => Item(NullKind, 0, Absent, name, [])
    case False => Item(FalseKind, 0, Absent, name, [])
    case True => Item(TrueKind, 1, Absent, name, [])
    case Number(n) => Item(NumberKind, n, Absent, name, [])
    case String(b) => Item(StringKind, 0, Present(b), name, [])
    case Array(vs) => Item(ArrayKind, 0, Absent, name, ItemsOf(vs))
    case Object(ms) => Item(ObjectKind, 0, Absent, name, MembersOf(ms))
  }

  ghost function ItemsOf(vs: seq<Json>): (r: seq<Item>)
    ensures |r| == |vs|
  {
    seq(|vs|, i requires 0 <= i < |vs| => ItemOf(vs[i], Absent))
  }

  ghost function MembersOf(ms: seq<Member>): (r: seq<Item>)
    ensures |r| == |ms|
  {
    seq(|ms|, i requires 0 <= i < |ms| => ItemOf(ms[i].value, Present(ms[i].key)))
  }

  ghost function MemberItem(m: Member): Item {
    ItemOf(m.value, Present(m.key))
  }

  /** Nodes in place determine what they hold. */
  lemma {:induction false} OneContents(s: Shape, t: Item, u: Item)
    requires Holds(s, t) && Holds(s, u)
    ensures t == u
  {
    HoldsLinks(s, t);
    HoldsLinks(s, u);
    forall i | 0 <= i < |s.kids|
      ensures t.kids[i] == u.kids[i]
    {
      HoldAllAt(s.kids, t.kids, i);
      HoldAllAt(s.kids, u.kids, i);
      OneContents(s.kids[i], t.kids[i], u.kids[i]);
    }
  }

  /** No two values are built alike. */
  lemma {:induction false} ItemOfInjective(v: Json, w: Json, name: Text)
    requires ItemOf(v, name) == ItemOf(w, name)
    ensures v == w
  {
    match v
    case Array(vs) =>
      assert w.Array?;
      forall i | 0 <= i < |vs|
        ensures vs[i] == w.items[i]
      {
        assert ItemsOf(vs)[i] == ItemsOf(w.items)[i];
        ItemOfInjective(vs[i], w.items[i], Absent);
      }
    case Object(ms) =>
      assert w.Object?;
      forall i | 0 <= i < |ms|
        ensures ms[i] == w.members[i]
      {
        assert MembersOf(ms)[i] == MembersOf(w.members)[i];
        assert MembersOf(ms)[i].name == Present(ms[i].key) && MembersOf(w.members)[i].name == Present(w.members[i].key);
        ItemOfInjective(ms[i].value, w.members[i].value, Present(ms[i].key));
      }
    case _ =>
  }
}
