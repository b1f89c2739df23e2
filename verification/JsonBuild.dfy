/**
 The nodes parsing leaves behind: each array's and object's children are linked one by one behind the last.

 The parser links a node before it fills it in; here the tree is read first and linked afterwards.
 */
module JsonBuild {
  import opened Bytes
  import opened JsonValue
  import opened JsonList
  import opened Wrappers
  import JsonParser
  import JsonReading

  /** What a node keeps besides its links: its key, if it has one, and its value without the children. */
  datatype Content = Content(key: Option<seq<byte>>, value: Value)

  function Hollow(v: Value): Value {
    match v
    case Array(_) => Array([])
    case Object(_) => Object([])
    case _ => v
  }

  // ---------------------------------------------------------------- the shape of a tree of nodes

  function ShapeFor(key: Option<seq<byte>>, v: Value): Shape<Content>
    decreases v, 1
  {
    var kids :=
      match v
      case Array(items) => ItemShapes(items)
      case Object(members) => MemberShapes(members)
      case _ => [];
    Shape(Content(key, Hollow(v)), kids)
  }

  function ItemShapes(items: seq<Value>): (r: seq<Shape<Content>>)
    ensures |r| == |items|
    decreases items, 0
  {
    if items == [] then [] else ItemShapes(items[..|items| - 1]) + [ShapeFor(None, items[|items| - 1])]
  }

  function MemberShapes(members: seq<Member>): (r: seq<Shape<Content>>)
    ensures |r| == |members|
    decreases members, 0
  {
    if members == [] then []
    else
      var last := members[|members| - 1];
      MemberShapes(members[..|members| - 1]) + [ShapeFor(Some(last.key), last.value)]
  }

  /** The value a tree of nodes stands for. */
  function ValueOf(s: Shape<Content>): Value
    decreases s, 1
  {
    match s.payload.value
    case Array(_) => Array(ItemsOf(s.kids))
    case Object(_) => Object(MembersOf(s.kids))
    case v => v
  }

  function ItemsOf(kids: seq<Shape<Content>>): seq<Value>
    decreases kids, 0
  {
    if kids == [] then [] else ItemsOf(kids[..|kids| - 1]) + [ValueOf(kids[|kids| - 1])]
  }

  function MembersOf(kids: seq<Shape<Content>>): seq<Member>
    decreases kids, 0
  {
    if kids == [] then []
    else
      var last := kids[|kids| - 1];
      var key := if last.payload.key.Some? then last.payload.key.value else [];
      MembersOf(kids[..|kids| - 1]) + [Member(key, ValueOf(last))]
  }

  lemma {:induction false} ItemsMore(kids: seq<Shape<Content>>, kid: Shape<Content>)
    ensures ItemsOf(kids + [kid]) == ItemsOf(kids) + [ValueOf(kid)]
    ensures kid.payload.key.Some? ==>
              MembersOf(kids + [kid]) == MembersOf(kids) + [Member(kid.payload.key.value, ValueOf(kid))]
  {
    assert (kids + [kid])[..|kids|] == kids;
  }

  /** No part of a tree is lost in its nodes. */
  lemma {:induction false} ShapeStands(key: Option<seq<byte>>, v: Value)
    ensures ValueOf(ShapeFor(key, v)) == v && ShapeFor(key, v).payload.key == key
    decreases v, 1
  {
    hide ItemsOf;
    hide MembersOf;
    hide ItemShapes;
    hide MemberShapes;
    match v
    case Array(items) => ItemsStand(items);
    case Object(members) => MembersStand(members);
    case _ =>
  }

  lemma {:induction false} ItemsStand(items: seq<Value>)
    ensures ItemsOf(ItemShapes(items)) == items
    decreases items, 0
  {
    hide ValueOf;
    hide ShapeFor;
    if items != [] {
      var n := |items| - 1;
      ItemsStand(items[..n]);
      ShapeStands(None, items[n]);
      ItemsMore(ItemShapes(items[..n]), ShapeFor(None, items[n]));
      assert items == items[..n] + [items[n]];
    }
  }

  lemma {:induction false} MembersStand(members: seq<Member>)
    ensures MembersOf(MemberShapes(members)) == members
    decreases members, 0
  {
    hide ValueOf;
    hide ShapeFor;
    if members != [] {
      var n := |members| - 1;
      MembersStand(members[..n]);
      ShapeStands(Some(members[n].key), members[n].value);
      ItemsMore(MemberShapes(members[..n]), ShapeFor(Some(members[n].key), members[n].value));
      assert members == members[..n] + [members[n]];
    }
  }

  // ---------------------------------------------------------------- linking

  /** A list under construction, before it has a parent. */
  ghost predicate Growing<T(!new)>(head: Node?<T>, last: Node?<T>, built: seq<Tree<T>>)
    reads ForestNodes(built)
  {
    && LinkedForest(built) && Chained(Roots(built))
    && head == (if built == [] then null else built[0].root)
    && last == if built == [] then null else built[|built| - 1].root
  }

  /** The next node goes behind the last one, or starts the list. */
  method LinkNext<T(!new)>(head: Node?<T>, last: Node?<T>, item: Node<T>, ghost built: seq<Tree<T>>, ghost k: Tree<T>)
    returns (start: Node<T>)
    requires Growing(head, last, built) && Linked(k) && k.root == item
    requires ForestNodes(built) !! Nodes(k) && item.next == null && item.prev == null
    modifies item`prev, ForestNodes(built)`next
    ensures Growing(start, item, built + [k])
  {
    hide Linked;
    hide LinkedForest;
    hide Nodes;
    hide ForestNodes;
    hide Inner;
    RootNotBelow(k);
    ForestAppend(built, k);
    assert item !in ForestNodes(built) && Inner(built) <= ForestNodes(built);
    assert item !in Inner(built);
    assert forall r :: r in Roots(built) ==> r in ForestNodes(built);
    if head == null {
      start := item;
    } else {
      RootNotInner(built, |built| - 1);
      start := head;
      last.next := item;
      item.prev := last;
    }
    assert LinkedForest(built) && Linked(k);
    ForestAppend(built, k);
    LinkedAtEnd(Roots(built), item);
  }

  /** What is allocated next leaves the list alone. */
  lemma GrowingAllocated<T(!new)>(head: Node?<T>, last: Node?<T>, built: seq<Tree<T>>)
    requires Growing(head, last, built)
    ensures forall n :: n in ForestNodes(built) ==> allocated(n)
  {
    AllAllocated(built);
  }

  lemma NothingGrows<T(!new)>()
    ensures Growing<T>(null, null, []) && ForestNodes<T>([]) == {} && Shapes<T>([]) == []
  {
  }

  method LinkItems(items: seq<Value>)
    returns (head: Node?<Content>, ghost last: Node?<Content>, ghost built: seq<Tree<Content>>)
    ensures Growing(head, last, built) && fresh(ForestNodes(built)) && Shapes(built) == ItemShapes(items)
    decreases items, 0
  {
    hide Growing;
    hide ForestNodes;
    hide ShapeFor;
    hide Linked;
    var current: Node?<Content> := null;
    head, built := null, [];
    NothingGrows<Content>();
    for i := 0 to |items|
      invariant Growing(head, current, built) && fresh(ForestNodes(built))
      invariant Shapes(built) == ItemShapes(items[..i])
    {
      GrowingAllocated(head, current, built);
      var item, k := Link(None, items[i]);
      ForestAppend(built, k);
      head := LinkNext(head, current, item, built, k);
      ForestAppend(built, k);
      current, built := item, built + [k];
      assert items[..i + 1][..i] == items[..i];
    }
    last := current;
    assert items[..|items|] == items;
  }

  method LinkMembers(members: seq<Member>)
    returns (head: Node?<Content>, ghost last: Node?<Content>, ghost built: seq<Tree<Content>>)
    ensures Growing(head, last, built) && fresh(ForestNodes(built)) && Shapes(built) == MemberShapes(members)
    decreases members, 0
  {
    hide Growing;
    hide ForestNodes;
    hide ShapeFor;
    hide Linked;
    var current: Node?<Content> := null;
    head, built := null, [];
    NothingGrows<Content>();
    for i := 0 to |members|
      invariant Growing(head, current, built) && fresh(ForestNodes(built))
      invariant Shapes(built) == MemberShapes(members[..i])
    {
      GrowingAllocated(head, current, built);
      var item, k := Link(Some(members[i].key), members[i].value);
      ForestAppend(built, k);
      head := LinkNext(head, current, item, built, k);
      ForestAppend(built, k);
      current, built := item, built + [k];
      assert members[..i + 1][..i] == members[..i];
    }
    last := current;
    assert members[..|members|] == members;
  }

  /** The list gets its parent. */
  method Adopt<T(!new)>(payload: T, head: Node?<T>, ghost last: Node?<T>, ghost built: seq<Tree<T>>)
    returns (node: Node<T>)
    requires Growing(head, last, built)
    ensures fresh(node) && node.payload == payload && Linked(Tree(node, built))
    ensures node.next == null && node.prev == null
  {
    AllAllocated(built);
    ghost var nodes := ForestNodes(built);
    assert forall r :: r in Roots(built) ==> r in nodes;
    node := new Node(payload);
    assert unchanged(nodes);
    assert unchanged(Inner(built));
    assert forall i :: 0 <= i < |built| ==> unchanged(Roots(built)[i]);
    node.child := head;
  }

  /** The nodes of a value, under the key it has in the object it is in. */
  method Link(key: Option<seq<byte>>, v: Value) returns (node: Node<Content>, ghost t: Tree<Content>)
    ensures t.root == node && Linked(t) && fresh(Nodes(t)) && node.next == null && node.prev == null
    ensures ShapeOf(t) == ShapeFor(key, v)
    decreases v, 1
  {
    hide Growing;
    hide ForestNodes;
    hide Linked;
    hide ItemShapes;
    hide MemberShapes;
    var head: Node?<Content> := null;
    ghost var last: Node?<Content> := null;
    ghost var built: seq<Tree<Content>> := [];
    NothingGrows<Content>();
    match v {
      case Array(items) => head, last, built := LinkItems(items);
      case Object(members) => head, last, built := LinkMembers(members);
      case _ =>
    }
    node := Adopt(Content(key, Hollow(v)), head, last, built);
    t := Tree(node, built);
  }

  /** Parsing into nodes: when it succeeds they stand for the tree the text is read as. */
  method ParseNodes(text: seq<byte>, requireNullTerminated: bool)
    returns (ok: bool, node: Node?<Content>, end: nat, ghost t: Option<Tree<Content>>)
    requires NulFree(text)
    ensures end <= |text|
    ensures match JsonReading.ReadText(text + [NUL], requireNullTerminated)
            case Parsed(v, next) =>
              && ok && end == next && t.Some? && t.value.root == node && Linked(t.value) && fresh(Nodes(t.value))
              && ShapeOf(t.value) == ShapeFor(None, v) && ValueOf(ShapeOf(t.value)) == v
            case Failed(at) => !ok && end == at && node == null
  {
    var value;
    ok, value, end := JsonParser.ParseWithOpts(text, requireNullTerminated);
    node, t := null, None;
    if ok {
      ghost var tree;
      node, tree := Link(None, value);
      t := Some(tree);
      ShapeStands(None, value);
    }
  }
}
