/** Moving items between trees: what is put into a list can be taken out again, and nothing else changes. */
module JsonMoves {
  import opened JsonForest
  import opened JsonText
  import opened JsonTree

  lemma {:induction false} PutThere(t: Item, path: Path, u: Item)
    requires OnTree(t, path)
    ensures OnTree(WithItem(t, path, u), path) && ItemAt(WithItem(t, path, u), path) == u
    decreases |path|
  {
    if path != [] { PutThere(t.kids[path[0]], path[1..], u); }
  }

  lemma {:induction false} PutTwice(t: Item, path: Path, u: Item, w: Item)
    requires OnTree(t, path) && OnTree(WithItem(t, path, u), path)
    ensures WithItem(WithItem(t, path, u), path, w) == WithItem(t, path, w)
    decreases |path|
  {
    if path != [] {
      var i := path[0];
      PutTwice(t.kids[i], path[1..], u, w);
      assert t.kids[i := WithItem(t.kids[i], path[1..], u)][i := WithItem(t.kids[i], path[1..], w)] ==
             t.kids[i := WithItem(t.kids[i], path[1..], w)];
    }
  }

  lemma {:induction false} PutBack(t: Item, path: Path)
    requires OnTree(t, path)
    ensures WithItem(t, path, ItemAt(t, path)) == t
    decreases |path|
  {
    if path != [] {
      PutBack(t.kids[path[0]], path[1..]);
      assert t.kids[path[0] := t.kids[path[0]]] == t.kids;
    }
  }

  /** Two ways that part. */
  ghost predicate Apart(a: Path, b: Path) {
    a != [] && b != [] && (a[0] != b[0] || Apart(a[1..], b[1..]))
  }

  /** An item that is not above or below the place keeps its contents. */
  lemma {:induction false} OthersKept(t: Item, path: Path, u: Item, other: Path)
    requires OnTree(t, path) && OnTree(t, other) && Apart(path, other)
    ensures OnTree(WithItem(t, path, u), other) && ItemAt(WithItem(t, path, u), other) == ItemAt(t, other)
    decreases |path|
  {
    if path[0] == other[0] { OthersKept(t.kids[path[0]], path[1..], u, other[1..]); }
  }

  /** Detaching what has just been appended gives both trees back, the moved one at the end. */
  lemma AppendThenDetach(ts: seq<Item>, i: nat, path: Path, j: nat)
    requires i < |ts| && j < |ts| && i != j && OnTree(ts[i], path)
    ensures var there := if j < i then i - 1 else i;
            Applied(Op.Detach(there, path, |ItemAt(ts[i], path).kids|), Applied(Op.Append(i, path, j), ts)) ==
            ts[..j] + ts[j + 1..] + [ts[j]]
  {
    var t, list := ts[i], ItemAt(ts[i], path);
    var longer := list.(kids := list.kids + [ts[j]]);
    PutThere(t, path, longer);
    PutTwice(t, path, longer, list);
    PutBack(t, path);
    var grown := WithItem(t, path, longer);
    var there := if j < i then i - 1 else i;
    var mid := Applied(Op.Append(i, path, j), ts);
    assert mid == ItemsWithout(ts[i := grown], j) && mid[there] == grown;
    assert longer.kids[|list.kids|] == ts[j];
    assert ItemsWithout(longer.kids, |list.kids|) == list.kids;
    assert ShrunkItem(grown, path, |list.kids|) == t;
    assert mid[there := t] == ts[..j] + ts[j + 1..];
  }

  /** A detached child is appended again as the last one. */
  lemma DetachThenAppend(ts: seq<Item>, i: nat, path: Path, k: nat)
    requires i < |ts| && HasChild(ts[i], path, k)
    ensures var list := ItemAt(ts[i], path);
            Applied(Op.Append(i, path, |ts|), Applied(Op.Detach(i, path, k), ts)) ==
            ts[i := WithItem(ts[i], path, list.(kids := list.kids[..k] + list.kids[k + 1..] + [list.kids[k]]))]
  {
    var t, list := ts[i], ItemAt(ts[i], path);
    var shorter := list.(kids := ItemsWithout(list.kids, k));
    var moved := list.(kids := list.kids[..k] + list.kids[k + 1..] + [list.kids[k]]);
    PutThere(t, path, shorter);
    PutTwice(t, path, shorter, moved);
    var mid := Applied(Op.Detach(i, path, k), ts);
    assert mid == ts[i := WithItem(t, path, shorter)] + [list.kids[k]];
    assert GrownItem(mid[i], path, mid[|ts|]) == WithItem(t, path, moved);
    assert ItemsWithout(mid[i := WithItem(t, path, moved)], |ts|) == ts[i := WithItem(t, path, moved)];
  }
}
