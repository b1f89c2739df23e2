/**
 The doubly linked child lists under arrays and objects, edited in place, and the deep copy.

 Each edit is specified by the sequence of children before and after; a ghost parameter names that sequence.
 */
module JsonList {

  /** A node; everything but its links is fixed when it is created and kept abstract. */
  class Node<Payload> {
    const payload: Payload
    var next: Node?<Payload>
    var prev: Node?<Payload>
    var child: Node?<Payload>

    constructor (payload: Payload)
      ensures this.payload == payload && next == null && prev == null && child == null
    {
      this.payload := payload;
      next, prev, child := null, null, null;
    }
  }

  ghost predicate Distinct<T(!new)>(s: seq<Node<T>>) {
    forall i, j :: 0 <= i < j < |s| ==> s[i] != s[j]
  }

  /** The nodes of `kids` are linked to their neighbours in both directions, with null at both ends. */
  ghost predicate Chained<T(!new)>(kids: seq<Node<T>>)
    reads kids
  {
    && Distinct(kids)
    && (forall i {:trigger kids[i].next} :: 0 <= i < |kids| ==>
          kids[i].next == if i + 1 < |kids| then kids[i + 1] else null)
    && (forall i {:trigger kids[i].prev} :: 0 <= i < |kids| ==>
          kids[i].prev == if i > 0 then kids[i - 1] else null)
  }

  /** `kids` are exactly the children of `parent`, in order. */
  ghost predicate Children<T(!new)>(parent: Node<T>, kids: seq<Node<T>>)
    reads parent`child, kids
  {
    && Chained(kids)
    && parent.child == if kids == [] then null else kids[0]
  }

  ghost predicate Detached<T(!new)>(item: Node<T>, kids: seq<Node<T>>)
    reads item
  {
    item.next == null && item.prev == null && item !in kids
  }

  /** `get_array_item`. */
  method GetArrayItem<T(!new)>(parent: Node<T>, index: nat, ghost kids: seq<Node<T>>) returns (item: Node?<T>)
    requires Children(parent, kids)
    ensures item == if index < |kids| then kids[index] else null
  {
    item := parent.child;
    var remaining := index;
    ghost var i := 0;
    while item != null && remaining > 0
      invariant 0 <= i <= |kids| && remaining >= 0 && i + remaining == index
      invariant item == if i < |kids| then kids[i] else null
    {
      remaining := remaining - 1;
      item := item.next;
      i := i + 1;
    }
  }

  method AddItemToArray<T(!new)>(parent: Node<T>, item: Node<T>, ghost kids: seq<Node<T>>)
    requires Children(parent, kids) && Detached(item, kids)
    modifies parent`child, kids`next, item`prev
    ensures Children(parent, kids + [item])
  {
    var child := parent.child;
    if child == null {
      parent.child := item;
    } else {
      ghost var i := 0;
      while child.next != null
        invariant 0 <= i < |kids| && child == kids[i]
        decreases |kids| - i
      {
        child := child.next;
        i := i + 1;
      }
      child.next := item;
      item.prev := child;
    }
  }

  /** The links after the child at `k` was passed over. */
  lemma LinkedPast<T(!new)>(kids: seq<Node<T>>, k: nat)
    requires Distinct(kids) && k < |kids|
    requires forall i {:trigger kids[i].next} :: 0 <= i < |kids| && i != k ==>
               var after := if i + 1 == k then i + 2 else i + 1;
               kids[i].next == if after < |kids| then kids[after] else null
    requires forall i {:trigger kids[i].prev} :: 0 <= i < |kids| && i != k ==>
               var before := if i == k + 1 then i - 2 else i - 1;
               kids[i].prev == if before >= 0 then kids[before] else null
    ensures Chained(kids[..k] + kids[k + 1..]) && kids[k] !in kids[..k] + kids[k + 1..]
  {
    var rest := kids[..k] + kids[k + 1..];
    assert forall i :: 0 <= i < |rest| ==> rest[i] == if i < k then kids[i] else kids[i + 1];
  }

  /** `cJSON_DetachItemViaPointer`; `k` is where the item is. */
  method DetachItem<T(!new)>(parent: Node<T>, item: Node<T>, ghost kids: seq<Node<T>>, ghost k: nat)
    requires Children(parent, kids) && k < |kids| && kids[k] == item
    modifies parent`child, kids`next, kids`prev
    ensures Children(parent, kids[..k] + kids[k + 1..]) && Detached(item, kids[..k] + kids[k + 1..])
  {
    if item.prev != null {
      item.prev.next := item.next;
    }
    if item.next != null {
      item.next.prev := item.prev;
    }
    if item == parent.child {
      parent.child := item.next;
    }
    item.prev := null;
    item.next := null;
    LinkedPast(kids, k);
  }

  /** The links after an item went in front of the child at `which`. */
  lemma LinkedBetween<T(!new)>(kids: seq<Node<T>>, which: nat, item: Node<T>)
    requires Distinct(kids) && item !in kids && which < |kids|
    requires forall i {:trigger kids[i].next} :: 0 <= i < |kids| ==>
               kids[i].next == if i + 1 == which then item else if i + 1 < |kids| then kids[i + 1] else null
    requires forall i {:trigger kids[i].prev} :: 0 <= i < |kids| ==>
               kids[i].prev == if i == which then item else if i > 0 then kids[i - 1] else null
    requires item.next == kids[which] && item.prev == if which > 0 then kids[which - 1] else null
    ensures Chained(kids[..which] + [item] + kids[which..])
  {
    var whole := kids[..which] + [item] + kids[which..];
    assert forall i :: 0 <= i < |whole| ==>
        whole[i] == if i < which then kids[i] else if i == which then item else kids[i - 1];
  }

  /** `cJSON_InsertItemInArray`: before the item at `which`, or at the end when there is none. */
  method InsertItem<T(!new)>(parent: Node<T>, which: int, item: Node<T>, ghost kids: seq<Node<T>>)
    requires Children(parent, kids) && Detached(item, kids)
    modifies parent`child, kids`next, kids`prev, item`next, item`prev
    ensures Children(parent, if which < 0 then kids
                            else if which < |kids| then kids[..which] + [item] + kids[which..]
                            else kids + [item])
  {
    if which < 0 {
      return;
    }
    var after := GetArrayItem(parent, which, kids);
    if after == null {
      AddItemToArray(parent, item, kids);
      return;
    }
    item.next := after;
    item.prev := after.prev;
    after.prev := item;
    if after == parent.child {
      parent.child := item;
    } else {
      item.prev.next := item;
    }
    LinkedBetween(kids, which, item);
  }

  /** The links after another item took the place of the child at `k`. */
  lemma LinkedInstead<T(!new)>(kids: seq<Node<T>>, k: nat, item: Node<T>)
    requires Distinct(kids) && item !in kids && k < |kids|
    requires forall i {:trigger kids[i].next} :: 0 <= i < |kids| && i != k ==>
               kids[i].next == if i + 1 == k then item else if i + 1 < |kids| then kids[i + 1] else null
    requires forall i {:trigger kids[i].prev} :: 0 <= i < |kids| && i != k ==>
               kids[i].prev == if i == k + 1 then item else if i > 0 then kids[i - 1] else null
    requires item.next == (if k + 1 < |kids| then kids[k + 1] else null)
    requires item.prev == if k > 0 then kids[k - 1] else null
    ensures Chained(kids[k := item]) && kids[k] !in kids[k := item]
  {
    var whole := kids[k := item];
    assert forall i :: 0 <= i < |whole| ==> whole[i] == if i == k then item else kids[i];
  }

  /** `cJSON_ReplaceItemViaPointer`. */
  method ReplaceItem<T(!new)>(parent: Node<T>, item: Node<T>, replacement: Node<T>, ghost kids: seq<Node<T>>,
                              ghost k: nat)
    requires Children(parent, kids) && k < |kids| && kids[k] == item
    requires replacement == item || Detached(replacement, kids)
    modifies parent`child, kids`next, kids`prev, replacement`next, replacement`prev
    ensures Children(parent, kids[k := replacement])
    ensures replacement != item ==> Detached(item, kids[k := replacement])
  {
    if replacement == item {
      return;
    }
    replacement.next := item.next;
    replacement.prev := item.prev;
    if replacement.next != null {
      replacement.next.prev := replacement;
    }
    if replacement.prev != null {
      replacement.prev.next := replacement;
    }
    if parent.child == item {
      parent.child := replacement;
    }
    item.next := null;
    item.prev := null;
    LinkedInstead(kids, k, replacement);
  }

  /** Detaching an item and inserting it where it was restores the list. */
  method DetachThenInsert<T(!new)>(parent: Node<T>, item: Node<T>, ghost kids: seq<Node<T>>, which: nat)
    requires Children(parent, kids) && which < |kids| && kids[which] == item
    modifies parent`child, kids`next, kids`prev
    ensures Children(parent, kids)
  {
    hide *;
    DetachItem(parent, item, kids, which);
    PutBack(kids, which);
    InsertItem(parent, which, item, kids[..which] + kids[which + 1..]);
  }

  lemma PutBack<T>(kids: seq<T>, which: nat)
    requires which < |kids|
    ensures var rest := kids[..which] + kids[which + 1..];
            kids == if which < |rest| then rest[..which] + [kids[which]] + rest[which..] else rest + [kids[which]]
  {
  }

  // ---------------------------------------------------------------- deep copies

  /** The nodes of a tree in the heap, and the same tree without its identities. */
  datatype Tree<T> = Tree(root: Node<T>, kids: seq<Tree<T>>)
  datatype Shape<T> = Shape(payload: T, kids: seq<Shape<T>>)

  ghost function Roots<T>(ts: seq<Tree<T>>): (r: seq<Node<T>>)
    ensures |r| == |ts|
    ensures forall i :: 0 <= i < |ts| ==> r[i] == ts[i].root
  {
    seq(|ts|, i requires 0 <= i < |ts| => ts[i].root)
  }

  ghost function Nodes<T(!new)>(t: Tree<T>): (r: set<Node<T>>)
    ensures t.root in r && ForestNodes(t.kids) <= r
    decreases t, 1
  {
    {t.root} + ForestNodes(t.kids)
  }

  ghost function ForestNodes<T(!new)>(ts: seq<Tree<T>>): (r: set<Node<T>>)
    ensures forall i :: 0 <= i < |ts| ==> ts[i].root in r
    decreases ts, 0
  {
    if ts == [] then {} else Nodes(ts[0]) + ForestNodes(ts[1..])
  }

  /** The nodes strictly below the roots. */
  ghost function Inner<T(!new)>(ts: seq<Tree<T>>): (r: set<Node<T>>)
    ensures r <= ForestNodes(ts)
  {
    if ts == [] then {} else ForestNodes(ts[0].kids) + Inner(ts[1..])
  }

  /** `t` is what is in the heap under its root: properly linked lists all the way down, no node shared. */
  ghost predicate Linked<T(!new)>(t: Tree<T>)
    reads t.root`child, ForestNodes(t.kids)
    decreases t, 1
  {
    && Children(t.root, Roots(t.kids))
    && t.root !in ForestNodes(t.kids)
    && LinkedForest(t.kids)
  }

  ghost predicate LinkedForest<T(!new)>(ts: seq<Tree<T>>)
    reads Roots(ts)`child, Inner(ts)
    decreases ts, 0
  {
    ts != [] ==> Linked(ts[0]) && Nodes(ts[0]) !! ForestNodes(ts[1..]) && LinkedForest(ts[1..])
  }

  ghost function ShapeOf<T(!new)>(t: Tree<T>): Shape<T>
    decreases t, 1
  {
    Shape(t.root.payload, Shapes(t.kids))
  }

  ghost function Shapes<T(!new)>(ts: seq<Tree<T>>): (r: seq<Shape<T>>)
    ensures |r| == |ts|
    decreases ts, 0
  {
    if ts == [] then [] else [ShapeOf(ts[0])] + Shapes(ts[1..])
  }

  lemma {:induction false} ForestAt<T(!new)>(ts: seq<Tree<T>>, i: nat)
    requires i < |ts|
    ensures Nodes(ts[i]) <= ForestNodes(ts)
    ensures LinkedForest(ts) ==> Linked(ts[i])
    ensures Shapes(ts)[i] == ShapeOf(ts[i])
  {
    if i > 0 {
      ForestAt(ts[1..], i - 1);
    }
  }

  lemma {:induction false} ForestAppend<T(!new)>(ts: seq<Tree<T>>, t: Tree<T>)
    ensures ForestNodes(ts + [t]) == ForestNodes(ts) + Nodes(t)
    ensures Shapes(ts + [t]) == Shapes(ts) + [ShapeOf(t)]
    ensures Roots(ts + [t]) == Roots(ts) + [t.root]
    ensures LinkedForest(ts) && Linked(t) && ForestNodes(ts) !! Nodes(t) ==> LinkedForest(ts + [t])
  {
    if ts == [] {
      assert ts + [t] == [t];
      assert [t][1..] == [];
    } else {
      assert (ts + [t])[1..] == ts[1..] + [t];
      ForestAppend(ts[1..], t);
    }
  }

  lemma {:induction false} AllAllocated<T(!new)>(ts: seq<Tree<T>>)
    ensures forall n :: n in ForestNodes(ts) ==> allocated(n)
  {
    if ts != [] {
      AllAllocated(ts[0].kids);
      AllAllocated(ts[1..]);
      var root := ts[0].root;
      assert allocated(root);
      assert ForestNodes(ts) == {root} + ForestNodes(ts[0].kids) + ForestNodes(ts[1..]);
    }
  }

  /** Relinking a root to its siblings does not disturb what is below any root. */
  lemma {:induction false} RootNotInner<T(!new)>(ts: seq<Tree<T>>, i: nat)
    requires LinkedForest(ts) && i < |ts|
    ensures ts[i].root !in Inner(ts)
  {
    if i > 0 {
      RootNotInner(ts[1..], i - 1);
    } else {
      assert ts[0].root in Nodes(ts[0]);
    }
  }

  /** A copy under construction: the children copied so far are in place, the last of them at hand. */
  ghost predicate Building<T(!new)>(copy: Node<T>, last: Node?<T>, built: seq<Tree<T>>)
    reads copy, ForestNodes(built)
  {
    && LinkedForest(built) && copy !in ForestNodes(built)
    && Children(copy, Roots(built)) && copy.next == null && copy.prev == null
    && last == if built == [] then null else built[|built| - 1].root
  }

  /** The links after an item went behind the last child. */
  lemma LinkedAtEnd<T(!new)>(kids: seq<Node<T>>, item: Node<T>)
    requires Distinct(kids) && item !in kids
    requires forall i {:trigger kids[i].next} :: 0 <= i < |kids| ==>
               kids[i].next == if i + 1 < |kids| then kids[i + 1] else item
    requires forall i {:trigger kids[i].prev} :: 0 <= i < |kids| ==>
               kids[i].prev == if i > 0 then kids[i - 1] else null
    requires item.next == null && item.prev == if kids == [] then null else kids[|kids| - 1]
    ensures Chained(kids + [item])
  {
    var whole := kids + [item];
    assert forall i :: 0 <= i < |whole| ==> whole[i] == if i < |kids| then kids[i] else item;
  }

  /** Crosswiring the next copied child behind the last one, or under the copied parent when it is the first. */
  method LinkCopy<T(!new)>(copy: Node<T>, last: Node?<T>, child: Node<T>, ghost built: seq<Tree<T>>, ghost k: Tree<T>)
    requires Building(copy, last, built) && Linked(k) && k.root == child
    requires ForestNodes(built) !! Nodes(k) && copy !in Nodes(k)
    requires child.next == null && child.prev == null
    modifies copy`child, child`prev, ForestNodes(built)`next
    ensures Building(copy, child, built + [k])
  {
    hide Linked;
    hide LinkedForest;
    hide Nodes;
    hide ForestNodes;
    hide Inner;
    RootNotBelow(k);
    ForestAppend(built, k);
    assert child !in ForestNodes(built) && Inner(built) <= ForestNodes(built);
    assert copy !in Inner(built) && child !in Inner(built);
    assert forall r :: r in Roots(built) ==> r in ForestNodes(built);
    if last != null {
      RootNotInner(built, |built| - 1);
      last.next := child;
      child.prev := last;
    } else {
      copy.child := child;
    }
    assert LinkedForest(built) && Linked(k);
    ForestAppend(built, k);
    LinkedAtEnd(Roots(built), child);
  }

  lemma RootNotBelow<T(!new)>(t: Tree<T>)
    requires Linked(t)
    ensures t.root !in ForestNodes(t.kids)
  {
  }

  lemma Finished<T(!new)>(copy: Node<T>, last: Node?<T>, built: seq<Tree<T>>)
    requires Building(copy, last, built)
    ensures Linked(Tree(copy, built)) && copy.next == null && copy.prev == null
    ensures Nodes(Tree(copy, built)) == {copy} + ForestNodes(built)
    ensures ShapeOf(Tree(copy, built)) == Shape(copy.payload, Shapes(built))
  {
  }

  lemma ChildAt<T(!new)>(t: Tree<T>, i: nat)
    requires Linked(t) && i < |t.kids|
    ensures Linked(t.kids[i]) && t.kids[i].root.next == if i + 1 < |t.kids| then t.kids[i + 1].root else null
    ensures Shapes(t.kids)[i] == ShapeOf(t.kids[i])
    ensures t.root.child == t.kids[0].root
  {
    ForestAt(t.kids, i);
    assert t.kids[i].root == Roots(t.kids)[i];
  }

  /** Allocating a node changes nothing in an existing tree. */
  method NewNode<T(!new)>(payload: T, ghost t: Tree<T>) returns (copy: Node<T>)
    requires Linked(t)
    ensures fresh(copy) && copy.payload == payload && Linked(t)
    ensures Building(copy, null, [])
  {
    AllAllocated(t.kids);
    ghost var nodes := ForestNodes(t.kids);
    assert forall r :: r in Roots(t.kids) ==> r in nodes;
    copy := new Node(payload);
    assert unchanged(nodes);
    assert unchanged(Inner(t.kids));
    assert forall i :: 0 <= i < |t.kids| ==> unchanged(Roots(t.kids)[i]);
  }

  /** `cJSON_Duplicate`: a copy of the node, and when recursing of everything under it, sharing no node. */
  method Duplicate<T(!new)>(item: Node<T>, recurse: bool, ghost t: Tree<T>) returns (copy: Node<T>, ghost t': Tree<T>)
    requires t.root == item && Linked(t)
    ensures t'.root == copy && Linked(t') && fresh(Nodes(t'))
    ensures copy.next == null && copy.prev == null
    ensures ShapeOf(t') == if recurse then ShapeOf(t) else Shape(item.payload, [])
    decreases t
  {
    hide Building;
    hide Linked;
    hide Nodes;
    hide ForestNodes;
    AllAllocated(t.kids);
    copy := NewNode(item.payload, t);
    t' := Tree(copy, []);
    Finished(copy, null, []);
    assert Building(copy, null, []) && ForestNodes<T>([]) == {} by {
      NoNodes<T>();
    }
    if !recurse {
      return;
    }
    ChildrenOf(t);
    var child := item.child;
    var last: Node?<T> := null;
    ghost var built: seq<Tree<T>> := [];
    while child != null
      invariant |built| <= |t.kids|
      invariant child == if |built| < |t.kids| then t.kids[|built|].root else null
      invariant Linked(t) && Building(copy, last, built) && fresh(ForestNodes(built))
      invariant Shapes(built) == Shapes(t.kids)[..|built|]
      decreases |t.kids| - |built|
    {
      ChildAt(t, |built|);
      AllAllocated(built);
      var newChild;
      ghost var k;
      newChild, k := Duplicate(child, true, t.kids[|built|]);
      LinkCopy(copy, last, newChild, built, k);
      last := newChild;
      ForestAppend(built, k);
      built := built + [k];
      child := child.next;
    }
    t' := Tree(copy, built);
    Finished(copy, last, built);
  }

  lemma NoNodes<T(!new)>()
    ensures ForestNodes<T>([]) == {}
  {
  }

  lemma ChildrenOf<T(!new)>(t: Tree<T>)
    requires Linked(t)
    ensures t.root.child == if t.kids == [] then null else t.kids[0].root
    ensures ShapeOf(t) == Shape(t.root.payload, Shapes(t.kids))
  {
  }
}
