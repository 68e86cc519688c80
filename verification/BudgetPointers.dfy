/** What a budget failure says: the first offending value in preorder, and a pointer that leads to
    it in the JSON form of the call. */
module BudgetPointers {
  import opened Digits
  import opened Options
  import opened Pointers
  import opened Texts
  import opened ValueBudgets

  // --- All values of a call, in preorder -----------------------------------------------

  /** A value with the segments that lead to it from the call. */
  datatype Node = Node(path: seq<Segment>, value: DataValue)

  function RenderPath(path: seq<Segment>): string {
    if path == [] then "" else RenderPath(path[..|path| - 1]) + RenderSegment(path[|path| - 1])
  }

  /** The values below `v` from its child `k` on, each before its own children. */
  ghost function NodesBelow(v: DataValue, k: nat, path: seq<Segment>): seq<Node>
    requires k <= |Children(v)|
    decreases v, |Children(v)| - k
  {
    if k == |Children(v)| then []
    else
      var item := Children(v)[k];
      var here := path + [item.segment];
      [Node(here, item.value)] + NodesBelow(item.value, 0, here) + NodesBelow(v, k + 1, path)
  }

  ghost function NodesOfCall(args: seq<Entry>, k: nat): seq<Node>
    requires k <= |args|
    decreases |args| - k
  {
    if k == |args| then []
    else
      var here := [Arg(args[k].key)];
      [Node(here, args[k].value)] + NodesBelow(args[k].value, 0, here) + NodesOfCall(args, k + 1)
  }

  /** The last segment of a node together with its value. */
  ghost function ItemOf(n: Node): Item
    requires n.path != []
  {
    Item(n.path[|n.path| - 1], n.value)
  }

  ghost predicate Rooted(nodes: seq<Node>) {
    forall i :: 0 <= i < |nodes| ==> nodes[i].path != []
  }

  /** What is reported for a node that `before` values precede. */
  ghost function Reported(n: Node, before: nat): Option<BudgetError>
    requires n.path != []
  {
    NodeFailure(ItemOf(n), RenderPath(n.path), |n.path|, before)
  }

  /** The flat walk: one value after another. */
  ghost function FlatWalk(nodes: seq<Node>, before: nat): Walk
    requires Rooted(nodes)
    decreases |nodes|
  {
    if nodes == [] then Passed(before)
    else match Reported(nodes[0], before)
      case Some(error) => Failed(error)
      case None => FlatWalk(nodes[1..], before + 1)
  }

  lemma {:induction false} FlatWalkOn(a: seq<Node>, b: seq<Node>, before: nat)
    requires Rooted(a) && Rooted(b)
    ensures Rooted(a + b)
    ensures FlatWalk(a + b, before) ==
            match FlatWalk(a, before) case Failed(error) => Failed(error) case Passed(total) => FlatWalk(b, total)
    decreases |a|
  {
    if a == [] {
      assert a + b == b;
    } else {
      assert (a + b)[1..] == a[1..] + b;
      FlatWalkOn(a[1..], b, before + 1);
    }
  }

  lemma {:induction false} BelowIsRooted(v: DataValue, k: nat, path: seq<Segment>)
    requires k <= |Children(v)|
    ensures Rooted(NodesBelow(v, k, path))
    decreases v, |Children(v)| - k
  {
    if k < |Children(v)| {
      var item := Children(v)[k];
      BelowIsRooted(item.value, 0, path + [item.segment]);
      BelowIsRooted(v, k + 1, path);
    }
  }

  lemma {:induction false} CallIsRooted(args: seq<Entry>, k: nat)
    requires k <= |args|
    ensures Rooted(NodesOfCall(args, k))
    decreases |args| - k
  {
    if k < |args| {
      BelowIsRooted(args[k].value, 0, [Arg(args[k].key)]);
      CallIsRooted(args, k + 1);
    }
  }

  lemma RenderLast(path: seq<Segment>, segment: Segment)
    ensures RenderPath(path + [segment]) == RenderPath(path) + RenderSegment(segment)
  {
    assert (path + [segment])[..|path|] == path;
  }

  /** One value and everything below it, in either walk. */
  lemma NodeWalk(item: Item, path: seq<Segment>, below: seq<Node>, before: nat)
    requires Rooted(below)
    requires WalkItems(Children(item.value), RenderPath(path) + RenderSegment(item.segment), |path| + 2, before + 1) ==
             FlatWalk(below, before + 1)
    ensures Rooted([Node(path + [item.segment], item.value)] + below)
    ensures WalkNode(item, RenderPath(path), |path| + 1, before) ==
            FlatWalk([Node(path + [item.segment], item.value)] + below, before)
  {
    hide NodeFailure, RenderSegment, Children;
    var node := Node(path + [item.segment], item.value);
    RenderLast(path, item.segment);
    assert ItemOf(node) == item;
    assert ([node] + below)[1..] == below;
    hide WalkItems, RenderPath;
  }

  /** An item and its siblings, in either walk. */
  lemma ItemsWalk(items: seq<Item>, prefix: string, depth: nat, before: nat, first: seq<Node>, rest: seq<Node>)
    requires items != [] && Rooted(first) && Rooted(rest)
    requires WalkNode(items[0], prefix, depth, before) == FlatWalk(first, before)
    requires FlatWalk(first, before).Passed? ==>
               WalkItems(items[1..], prefix, depth, FlatWalk(first, before).total) ==
               FlatWalk(rest, FlatWalk(first, before).total)
    ensures Rooted(first + rest) && WalkItems(items, prefix, depth, before) == FlatWalk(first + rest, before)
  {
    FlatWalkOn(first, rest, before);
    hide WalkNode, FlatWalk;
  }

  /** One child and everything below it. */
  ghost function NodesOfItem(item: Item, path: seq<Segment>): seq<Node> {
    [Node(path + [item.segment], item.value)] + NodesBelow(item.value, 0, path + [item.segment])
  }

  lemma ChildrenLeft(v: DataValue, k: nat, path: seq<Segment>)
    requires k < |Children(v)|
    ensures Children(v)[k..] == [Children(v)[k]] + Children(v)[k + 1..]
    ensures NodesBelow(v, k, path) == NodesOfItem(Children(v)[k], path) + NodesBelow(v, k + 1, path)
  {
  }

  lemma ItemWalk(item: Item, path: seq<Segment>, before: nat)
    requires Rooted(NodesBelow(item.value, 0, path + [item.segment]))
    requires WalkItems(Children(item.value)[0..], RenderPath(path + [item.segment]), |path| + 2, before + 1) ==
             FlatWalk(NodesBelow(item.value, 0, path + [item.segment]), before + 1)
    ensures Rooted(NodesOfItem(item, path))
    ensures WalkNode(item, RenderPath(path), |path| + 1, before) == FlatWalk(NodesOfItem(item, path), before)
  {
    hide RenderPath, WalkItems, WalkNode, FlatWalk, NodesBelow, Children, Rooted, RenderSegment;
    assert Children(item.value)[0..] == Children(item.value);
    RenderLast(path, item.segment);
    NodeWalk(item, path, NodesBelow(item.value, 0, path + [item.segment]), before);
  }

  /** The recursive walk of a container's children is the flat walk of the values below it. */
  lemma {:induction false} WalkIsFlat(v: DataValue, k: nat, path: seq<Segment>, before: nat)
    requires k <= |Children(v)|
    ensures Rooted(NodesBelow(v, k, path))
    ensures WalkItems(Children(v)[k..], RenderPath(path), |path| + 1, before) ==
            FlatWalk(NodesBelow(v, k, path), before)
    decreases v, |Children(v)| - k
  {
    if k < |Children(v)| {
      var items, item := Children(v)[k..], Children(v)[k];
      assert item.value < v;
      hide RenderPath, WalkItems, WalkNode, FlatWalk, Rooted, NodesBelow, NodesOfItem, Children;
      var first := NodesOfItem(item, path);
      ChildrenLeft(v, k, path);
      BelowIsRooted(v, k + 1, path);
      WalkIsFlat(item.value, 0, path + [item.segment], before + 1);
      ItemWalk(item, path, before);
      if FlatWalk(first, before).Passed? {
        WalkIsFlat(v, k + 1, path, FlatWalk(first, before).total);
      }
      assert items[0] == item && items[1..] == Children(v)[k + 1..];
      ItemsWalk(items, RenderPath(path), |path| + 1, before, first, NodesBelow(v, k + 1, path));
    }
  }

  /** One argument and everything below it. */
  ghost function NodesOfArgument(arg: Entry): seq<Node> {
    [Node([Arg(arg.key)], arg.value)] + NodesBelow(arg.value, 0, [Arg(arg.key)])
  }

  lemma ArgumentWalk(arg: Entry, before: nat)
    ensures Rooted(NodesOfArgument(arg))
    ensures WalkNode(Item(Arg(arg.key), arg.value), "", 1, before) == FlatWalk(NodesOfArgument(arg), before)
  {
    hide RenderPath, WalkItems, WalkNode, FlatWalk, NodesBelow, Children, Rooted, RenderSegment;
    var item, here := Item(Arg(arg.key), arg.value), [Arg(arg.key)];
    var below := NodesBelow(arg.value, 0, here);
    WalkIsFlat(arg.value, 0, here, before + 1);
    assert [] + here == here && Children(arg.value)[0..] == Children(arg.value);
    EmptyPath();
    RenderLast([], item.segment);
    NodeWalk(item, [], below, before);
  }

  lemma ArgumentsLeft(args: seq<Entry>, k: nat)
    requires k < |args|
    ensures ArgItems(args)[k..] == [Item(Arg(args[k].key), args[k].value)] + ArgItems(args)[k + 1..]
    ensures NodesOfCall(args, k) == NodesOfArgument(args[k]) + NodesOfCall(args, k + 1)
  {
  }

  lemma {:induction false} CallWalkIsFlat(args: seq<Entry>, k: nat, before: nat)
    requires k <= |args|
    ensures Rooted(NodesOfCall(args, k))
    ensures WalkItems(ArgItems(args)[k..], "", 1, before) == FlatWalk(NodesOfCall(args, k), before)
    decreases |args| - k
  {
    if k < |args| {
      hide WalkItems, WalkNode, FlatWalk, NodesOfArgument, Rooted, NodesOfCall, ArgItems;
      var items, first := ArgItems(args)[k..], NodesOfArgument(args[k]);
      ArgumentsLeft(args, k);
      CallIsRooted(args, k + 1);
      ArgumentWalk(args[k], before);
      if FlatWalk(first, before).Passed? {
        CallWalkIsFlat(args, k + 1, FlatWalk(first, before).total);
      }
      assert items[0] == Item(Arg(args[k].key), args[k].value) && items[1..] == ArgItems(args)[k + 1..];
      ItemsWalk(items, "", 1, before, first, NodesOfCall(args, k + 1));
    }
  }

  lemma EmptyPath()
    ensures RenderPath([]) == ""
  {
  }

  /** The value at `k` is the first that is reported, and `error` is what is reported for it. */
  ghost predicate FirstReported(nodes: seq<Node>, before: nat, k: nat, error: BudgetError)
    requires Rooted(nodes)
  {
    && k < |nodes| && Reported(nodes[k], before + k) == Some(error)
    && forall j :: 0 <= j < k ==> Reported(nodes[j], before + j) == None
  }

  lemma {:induction false} FlatWalkFindsFirst(nodes: seq<Node>, before: nat)
    requires Rooted(nodes)
    ensures FlatWalk(nodes, before).Passed? ==> forall j :: 0 <= j < |nodes| ==> Reported(nodes[j], before + j) == None
    ensures FlatWalk(nodes, before).Failed? ==>
              exists k: nat :: FirstReported(nodes, before, k, FlatWalk(nodes, before).error)
    decreases |nodes|
  {
    hide Reported;
    if nodes != [] {
      var walked := FlatWalk(nodes, before);
      if Reported(nodes[0], before).Some? {
        assert FirstReported(nodes, before, 0, walked.error);
      } else {
        FlatWalkFindsFirst(nodes[1..], before + 1);
        assert forall j :: 0 < j < |nodes| ==> nodes[j] == nodes[1..][j - 1];
        if walked.Failed? {
          var k: nat :| FirstReported(nodes[1..], before + 1, k, walked.error);
          assert FirstReported(nodes, before, k + 1, walked.error);
        }
      }
    }
  }

  /** A call passes if and only if no value is reported, each counted with the values before it; the
      error is what is reported for the first one. */
  lemma CallFindsFirst(args: seq<Entry>)
    ensures Rooted(NodesOfCall(args, 0))
    ensures WalkCall(args).Passed? ==>
              forall j :: 0 <= j < |NodesOfCall(args, 0)| ==> Reported(NodesOfCall(args, 0)[j], j) == None
    ensures WalkCall(args).Failed? ==>
              exists k: nat :: FirstReported(NodesOfCall(args, 0), 0, k, WalkCall(args).error)
  {
    CallWalkIsFlat(args, 0, 0);
    assert ArgItems(args)[0..] == ArgItems(args);
    FlatWalkFindsFirst(NodesOfCall(args, 0), 0);
    hide NodesOfCall, FlatWalk, WalkItems, Reported;
  }
}
