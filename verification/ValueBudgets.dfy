/** The depth, node and string budgets of one action call: the iterative walk and the plain
    recursive preorder walk it stands for. */
module ValueBudgets {
  import opened Digits
  import opened Options
  import opened Pointers
  import opened Texts

  const MAX_ACTION_VALUE_DEPTH: nat := 32
  const MAX_ACTION_VALUE_NODES: nat := 4096
  const MAX_ACTION_VALUE_STRING_BYTES: nat := 4096

  /** Maps are listed in the lexical key order in which they are iterated. */
  datatype DataValue =
    | Bool(flag: bool)
    | Integer(int64: int)
    | Unsigned(uint64: nat)
    | Fixed(raw: int)
    | Text(text: string)
    | ObjectRef(ulid: nat)
    | List(items: seq<DataValue>)
    | Map(entries: seq<Entry>)

  datatype Entry = Entry(key: string, value: DataValue)

  datatype Segment = Arg(name: string) | Index(index: nat) | Key(key: string)

  /** A value together with the path segment that leads to it. */
  datatype Item = Item(segment: Segment, value: DataValue)

  datatype Limit = ValueDepth | ValueNodes | ValueStringBytes

  datatype BudgetError = BudgetError(limit: Limit, pointer: string)

  function RenderSegment(s: Segment): string {
    match s
    case Arg(name) => "/args/" + Escape(name)
    case Index(i) => "/value/" + Numeral(i)
    case Key(key) => "/value/" + Escape(key)
  }

  function ArgItems(args: seq<Entry>): seq<Item> {
    seq(|args|, i requires 0 <= i < |args| => Item(Arg(args[i].key), args[i].value))
  }

  function ListItems(items: seq<DataValue>): seq<Item> {
    seq(|items|, i requires 0 <= i < |items| => Item(Index(i), items[i]))
  }

  function MapItems(entries: seq<Entry>): seq<Item> {
    seq(|entries|, i requires 0 <= i < |entries| => Item(Key(entries[i].key), entries[i].value))
  }

  // --- The recursive walk --------------------------------------------------------------

  /** Either the running node total or the first failure. */
  datatype Walk = Passed(total: nat) | Failed(error: BudgetError)

  datatype Defect = BytesOfKey | Depth | Nodes | BytesOfText

  /** What is wrong with a node itself, before its children are looked at. */
  function NodeDefect(node: Item, depth: nat, total: nat): Option<Defect> {
    if node.segment.Key? && Utf8Len(node.segment.key) > MAX_ACTION_VALUE_STRING_BYTES then Some(BytesOfKey)
    else if depth > MAX_ACTION_VALUE_DEPTH then Some(Depth)
    else if total + 1 > MAX_ACTION_VALUE_NODES then Some(Nodes)
    else if node.value.Text? && Utf8Len(node.value.text) > MAX_ACTION_VALUE_STRING_BYTES then Some(BytesOfText)
    else None
  }

  function LimitOf(defect: Defect): Limit {
    match defect
    case Depth => ValueDepth
    case Nodes => ValueNodes
    case _ => ValueStringBytes
  }

  /** The failure reported for a defective node at `pointer`; an overlong text is blamed on the
      value inside the node. */
  function NodeFailure(node: Item, pointer: string, depth: nat, total: nat): Option<BudgetError> {
    match NodeDefect(node, depth, total)
    case None => None
    case Some(defect) =>
      Some(BudgetError(LimitOf(defect), if defect == BytesOfText then pointer + "/value" else pointer))
  }

  function Children(v: DataValue): seq<Item> {
    match v
    case List(items) => ListItems(items)
    case Map(entries) => MapItems(entries)
    case _ => []
  }

  /** Levels of nesting still allowed below `depth`. */
  function Headroom(depth: nat): nat {
    if depth <= MAX_ACTION_VALUE_DEPTH then MAX_ACTION_VALUE_DEPTH + 1 - depth else 0
  }

  /** Visits a node and then its children, in order, each under the pointer of its parent. */
  ghost function WalkNode(node: Item, prefix: string, depth: nat, total: nat): Walk
    decreases Headroom(depth), 0
  {
    var pointer := prefix + RenderSegment(node.segment);
    match NodeFailure(node, pointer, depth, total)
    case Some(error) => Failed(error)
    case None => WalkItems(Children(node.value), pointer, depth + 1, total + 1)
  }

  ghost function WalkItems(items: seq<Item>, prefix: string, depth: nat, total: nat): Walk
    decreases Headroom(depth), 1, |items|
  {
    if items == [] then Passed(total)
    else match WalkNode(items[0], prefix, depth, total)
      case Failed(error) => Failed(error)
      case Passed(after) => WalkItems(items[1..], prefix, depth, after)
  }

  /** The preorder walk of all arguments of a call. */
  ghost function WalkCall(args: seq<Entry>): Walk {
    WalkItems(ArgItems(args), "", 1, 0)
  }

  // --- The trail -----------------------------------------------------------------------

  /** A visited container: the index of its parent in the trail, and its segment. */
  datatype TrailNode = TrailNode(parent: Option<nat>, segment: Segment)

  /** Parents come before their children. */
  ghost predicate ValidTrail(nodes: seq<TrailNode>) {
    forall i :: 0 <= i < |nodes| ==> Within(nodes[i].parent, i)
  }

  ghost predicate Within(parent: Option<nat>, n: nat) {
    parent.Some? ==> parent.value < n
  }

  /** The pointer of a trail position, from the root down. */
  ghost function PointerOf(nodes: seq<TrailNode>, parent: Option<nat>): string
    requires ValidTrail(nodes) && Within(parent, |nodes|)
    decreases if parent.Some? then parent.value + 1 else 0
  {
    if parent.None? then ""
    else
      var node := nodes[parent.value];
      PointerOf(nodes, node.parent) + RenderSegment(node.segment)
  }

  lemma {:induction false} PointerIsStable(nodes: seq<TrailNode>, node: TrailNode, parent: Option<nat>)
    requires ValidTrail(nodes) && Within(parent, |nodes|) && Within(node.parent, |nodes|)
    ensures ValidTrail(nodes + [node]) && PointerOf(nodes + [node], parent) == PointerOf(nodes, parent)
    decreases if parent.Some? then parent.value + 1 else 0
  {
    var more := nodes + [node];
    assert forall i :: 0 <= i < |nodes| ==> more[i] == nodes[i];
    if parent.Some? {
      PointerIsStable(nodes, node, nodes[parent.value].parent);
    }
  }

  /** The concatenation of the parts in reverse order. */
  function Backwards(parts: seq<string>): string {
    if parts == [] then "" else parts[|parts| - 1] + Backwards(parts[..|parts| - 1])
  }

  lemma BackwardsPush(parts: seq<string>, part: string, up: string)
    ensures up + Backwards(parts + [part]) == (up + part) + Backwards(parts)
  {
  }

  /** Rebuilds a pointer by following parent links up and reversing what was collected. */
  method TrailPointer(nodes: seq<TrailNode>, parent: Option<nat>, segment: Segment) returns (pointer: string)
    requires ValidTrail(nodes) && Within(parent, |nodes|)
    ensures pointer == PointerOf(nodes, parent) + RenderSegment(segment)
  {
    hide RenderSegment;
    ghost var above := PointerOf(nodes, parent);
    ghost var whole := above + RenderSegment(segment);
    var parts := [RenderSegment(segment)];
    var cursor := parent;
    BackwardsPush([], RenderSegment(segment), above);
    while cursor.Some?
      invariant Within(cursor, |nodes|)
      invariant above == PointerOf(nodes, cursor) && whole == above + Backwards(parts)
      decreases if cursor.Some? then cursor.value + 1 else 0
    {
      var node := nodes[cursor.value];
      var part := RenderSegment(node.segment);
      above := PointerOf(nodes, node.parent);
      BackwardsPush(parts, part, above);
      parts := parts + [part];
      cursor := node.parent;
    }
    return Backwards(parts);
  }

  // --- The iterative walk --------------------------------------------------------------

  /** A container being walked: the children not yet visited. */
  datatype Frame = Frame(items: seq<Item>, depth: nat, parent: Option<nat>)

  /** What the recursive walk would still do for the frames of a stack, innermost first. */
  ghost function Resume(stack: seq<Frame>, prefixes: seq<string>, total: nat): Walk
    requires |prefixes| == |stack|
    decreases |stack|
  {
    if stack == [] then Passed(total)
    else
      var last := |stack| - 1;
      var walked := WalkItems(stack[last].items, prefixes[last], stack[last].depth, total);
      if walked.Failed? then walked else Resume(stack[..last], prefixes[..last], walked.total)
  }

  ghost predicate ValidStack(stack: seq<Frame>, prefixes: seq<string>, nodes: seq<TrailNode>) {
    && ValidTrail(nodes) && |prefixes| == |stack|
    && forall k :: 0 <= k < |stack| ==>
         stack[k].depth == k + 1 && Within(stack[k].parent, |nodes|) && PointerOf(nodes, stack[k].parent) == prefixes[k]
  }

  lemma ResumeTop(below: seq<Frame>, prefixes: seq<string>, top: Frame, prefix: string, total: nat)
    requires |prefixes| == |below|
    ensures Resume(below + [top], prefixes + [prefix], total) ==
            var walked := WalkItems(top.items, prefix, top.depth, total);
            if walked.Failed? then walked else Resume(below, prefixes, walked.total)
  {
  }

  lemma VisitFails(below: seq<Frame>, prefixes: seq<string>, top: Frame, prefix: string, total: nat, error: BudgetError)
    requires |prefixes| == |below| && top.items != []
    requires NodeFailure(top.items[0], prefix + RenderSegment(top.items[0].segment), top.depth, total) == Some(error)
    ensures Resume(below + [top], prefixes + [prefix], total) == Failed(error)
  {
    ResumeTop(below, prefixes, top, prefix, total);
  }

  lemma WalkDescends(items: seq<Item>, prefix: string, depth: nat, total: nat, pointer: string)
    requires items != [] && pointer == prefix + RenderSegment(items[0].segment)
    requires NodeFailure(items[0], pointer, depth, total) == None
    ensures WalkItems(items, prefix, depth, total) ==
            var inside := WalkItems(Children(items[0].value), pointer, depth + 1, total + 1);
            if inside.Failed? then inside else WalkItems(items[1..], prefix, depth, inside.total)
  {
  }

  /** A node without a defect hands over to its children, then to the siblings after it. */
  lemma VisitDescends(below: seq<Frame>, prefixes: seq<string>, top: Frame, prefix: string, total: nat,
                      pointer: string, inner: Frame)
    requires |prefixes| == |below| && top.items != [] && pointer == prefix + RenderSegment(top.items[0].segment)
    requires NodeFailure(top.items[0], pointer, top.depth, total) == None
    requires inner.items == Children(top.items[0].value) && inner.depth == top.depth + 1
    ensures var rest := top.(items := top.items[1..]);
      Resume(below + [top], prefixes + [prefix], total) ==
      Resume(below + [rest] + [inner], prefixes + [prefix] + [pointer], total + 1)
  {
    hide WalkItems, RenderSegment, NodeFailure, Children;
    var rest := top.(items := top.items[1..]);
    WalkDescends(top.items, prefix, top.depth, total, pointer);
    ResumeTop(below, prefixes, top, prefix, total);
    ResumeTop(below + [rest], prefixes + [prefix], inner, pointer, total + 1);
    var inside := WalkItems(inner.items, pointer, inner.depth, total + 1);
    if inside.Passed? {
      ResumeTop(below, prefixes, rest, prefix, inside.total);
    }
  }

  /** A frame with nothing left to visit changes nothing. */
  lemma VisitEnds(below: seq<Frame>, prefixes: seq<string>, top: Frame, prefix: string, total: nat)
    requires |prefixes| == |below| && top.items == []
    ensures Resume(below + [top], prefixes + [prefix], total) == Resume(below, prefixes, total)
  {
  }

  lemma PushKeepsStack(stack: seq<Frame>, prefixes: seq<string>, nodes: seq<TrailNode>, node: TrailNode, inner: Frame,
                       pointer: string)
    requires ValidStack(stack, prefixes, nodes) && Within(node.parent, |nodes|)
    requires inner.depth == |stack| + 1 && inner.parent == Some(|nodes|)
    requires pointer == PointerOf(nodes, node.parent) + RenderSegment(node.segment)
    ensures ValidStack(stack + [inner], prefixes + [pointer], nodes + [node])
  {
  }

  /** The walk in progress. Between any two visits its stack and its trail are within their bounds
      and what is left to do is the rest of the recursive walk. */
  class BudgetWalk {
    ghost const expected: Walk
    var stack: seq<Frame>
    var nodes: seq<TrailNode>
    var total: nat
    ghost var prefixes: seq<string>

    ghost predicate Valid()
      reads this
    {
      && ValidStack(stack, prefixes, nodes) && Resume(stack, prefixes, total) == expected
      && |stack| <= MAX_ACTION_VALUE_DEPTH + 1 && |nodes| <= total <= MAX_ACTION_VALUE_NODES
    }

    constructor (args: seq<Entry>)
      ensures Valid() && expected == WalkCall(args)
    {
      expected := WalkCall(args);
      stack, nodes, total, prefixes := [Frame(ArgItems(args), 1, None)], [], 0, [""];
      new;
      hide Resume, WalkCall, PointerOf;
      VisitStarts(args);
      PointerOfRoot(nodes);
    }

    /** Takes the next item of the top frame, or drops the frame when it has none. */
    method Visit() returns (failure: Option<BudgetError>)
      requires Valid() && stack != []
      modifies this
      ensures Valid()
      ensures failure.Some? ==> expected == Failed(failure.value)
      ensures failure.None? ==> total > old(total) || (total == old(total) && |stack| < |old(stack)|)
    {
      hide Resume, WalkCall, WalkItems, RenderSegment, PointerOf, Utf8Len;
      var last := |stack| - 1;
      var top := stack[last];
      ghost var prefix := prefixes[last];
      ghost var below, above := stack[..last], prefixes[..last];
      assert stack == below + [top] && prefixes == above + [prefix];
      if top.items == [] {
        VisitEnds(below, above, top, prefix, total);
        stack := stack[..last];
        prefixes := above;
        return None;
      }
      var node := top.items[0];
      ghost var pointer := prefix + RenderSegment(node.segment);
      var defect := NodeDefect(node, top.depth, total);
      if defect.Some? {
        var text := TrailPointer(nodes, top.parent, node.segment);
        if defect.value == BytesOfText {
          text := text + "/value";
        }
        failure := Some(BudgetError(LimitOf(defect.value), text));
        VisitFails(below, above, top, prefix, total, failure.value);
        return;
      }
      total := total + 1;
      var rest := top.(items := top.items[1..]);
      stack := stack[last := rest];
      assert stack == below + [rest];
      if node.value.List? || node.value.Map? {
        var inner := Frame(Children(node.value), top.depth + 1, Some(|nodes|));
        VisitDescends(below, above, top, prefix, total - 1, pointer, inner);
        PushKeepsStack(stack, prefixes, nodes, TrailNode(top.parent, node.segment), inner, pointer);
        nodes := nodes + [TrailNode(top.parent, node.segment)];
        stack := stack + [inner];
        prefixes := prefixes + [pointer];
      } else {
        var inner := Frame([], top.depth + 1, None);
        VisitDescends(below, above, top, prefix, total - 1, pointer, inner);
        VisitEnds(stack, prefixes, inner, pointer, total);
      }
      failure := None;
    }
  }

  /** The iterative walk reports exactly what the recursive walk reports. */
  method CheckValueBudgets(args: seq<Entry>) returns (failure: Option<BudgetError>)
    ensures failure == if WalkCall(args).Failed? then Some(WalkCall(args).error) else None
  {
    hide Resume, WalkCall, ValidStack;
    var walk := new BudgetWalk(args);
    while walk.stack != []
      invariant walk.Valid() && fresh(walk)
      decreases MAX_ACTION_VALUE_NODES - walk.total, |walk.stack|
    {
      failure := walk.Visit();
      if failure.Some? {
        return;
      }
    }
    EndOfWalk(walk.prefixes, walk.nodes, walk.total);
    failure := None;
  }

  lemma EndOfWalk(prefixes: seq<string>, nodes: seq<TrailNode>, total: nat)
    requires ValidStack([], prefixes, nodes)
    ensures Resume([], prefixes, total) == Passed(total)
  {
    ResumeDone(prefixes, total);
  }

  lemma ResumeDone(prefixes: seq<string>, total: nat)
    requires prefixes == []
    ensures Resume([], prefixes, total) == Passed(total)
  {
  }

  lemma PointerOfRoot(nodes: seq<TrailNode>)
    requires ValidTrail(nodes)
    ensures PointerOf(nodes, None) == ""
  {
  }

  lemma VisitStarts(args: seq<Entry>)
    ensures Resume([Frame(ArgItems(args), 1, None)], [""], 0) == WalkCall(args)
  {
  }

  // --- What acceptance means -----------------------------------------------------------

  /** No chain of nested values starting at `v` has more than `levels` of them. */
  ghost predicate NestsWithin(v: DataValue, levels: nat)
    decreases levels
  {
    levels >= 1 && forall i :: 0 <= i < |Children(v)| ==> NestsWithin(Children(v)[i].value, levels - 1)
  }

  ghost predicate SegmentFits(s: Segment) {
    s.Key? ==> Utf8Len(s.key) <= MAX_ACTION_VALUE_STRING_BYTES
  }

  /** Every text and every map key at any depth is within the string budget. */
  ghost predicate StringsFit(v: DataValue)
    decreases v
  {
    && (v.Text? ==> Utf8Len(v.text) <= MAX_ACTION_VALUE_STRING_BYTES)
    && forall i :: 0 <= i < |Children(v)| ==> SegmentFits(Children(v)[i].segment) && StringsFit(Children(v)[i].value)
  }

  /** The number of values in `v`, itself included. */
  ghost function CountNodes(v: DataValue): nat
    decreases v, |Children(v)| + 1
  {
    1 + CountFrom(v, 0)
  }

  ghost function CountFrom(v: DataValue, k: nat): nat
    decreases v, if k <= |Children(v)| then |Children(v)| - k else 0
  {
    if k >= |Children(v)| then 0 else CountNodes(Children(v)[k].value) + CountFrom(v, k + 1)
  }

  ghost function CountItems(items: seq<Item>): nat {
    if items == [] then 0 else CountNodes(items[0].value) + CountItems(items[1..])
  }

  ghost predicate ItemsFit(items: seq<Item>, levels: nat) {
    forall i :: 0 <= i < |items| ==>
      SegmentFits(items[i].segment) && StringsFit(items[i].value) && NestsWithin(items[i].value, levels)
  }

  lemma {:induction false} CountIsSum(v: DataValue, k: nat)
    requires k <= |Children(v)|
    ensures CountFrom(v, k) == CountItems(Children(v)[k..])
    decreases |Children(v)| - k
  {
    if k < |Children(v)| {
      CountIsSum(v, k + 1);
      assert Children(v)[k..][1..] == Children(v)[k + 1..];
    }
  }

  lemma ItemsFitStep(items: seq<Item>, levels: nat)
    requires items != []
    ensures ItemsFit(items, levels) <==> ItemsFit(items[..1], levels) && ItemsFit(items[1..], levels)
  {
  }

  lemma NodeFits(node: Item, depth: nat)
    requires depth <= MAX_ACTION_VALUE_DEPTH
    ensures ItemsFit([node], MAX_ACTION_VALUE_DEPTH + 1 - depth) <==>
            && SegmentFits(node.segment)
            && (node.value.Text? ==> Utf8Len(node.value.text) <= MAX_ACTION_VALUE_STRING_BYTES)
            && ItemsFit(Children(node.value), MAX_ACTION_VALUE_DEPTH - depth)
    ensures CountNodes(node.value) == 1 + CountItems(Children(node.value))
  {
    var v := node.value;
    CountIsSum(v, 0);
    assert Children(v)[0..] == Children(v);
    assert [node][0] == node;
    var levels := MAX_ACTION_VALUE_DEPTH + 1 - depth;
    assert NestsWithin(v, levels) <==>
           forall i :: 0 <= i < |Children(v)| ==> NestsWithin(Children(v)[i].value, levels - 1);
  }

  /** The walk passes exactly when everything fits, and then it has counted every node. */
  lemma {:induction false} WalkAccepts(items: seq<Item>, prefix: string, depth: nat, total: nat)
    requires 1 <= depth <= MAX_ACTION_VALUE_DEPTH + 1 && total <= MAX_ACTION_VALUE_NODES
    ensures var walked := WalkItems(items, prefix, depth, total);
      && (walked.Passed? <==>
          ItemsFit(items, MAX_ACTION_VALUE_DEPTH + 1 - depth) && total + CountItems(items) <= MAX_ACTION_VALUE_NODES)
      && (walked.Passed? ==> walked.total == total + CountItems(items))
    decreases Headroom(depth), |items|
  {
    hide Utf8Len, StringsFit, NestsWithin, RenderSegment, Children;
    if items != [] {
      var node := items[0];
      var levels := MAX_ACTION_VALUE_DEPTH + 1 - depth;
      ItemsFitStep(items, levels);
      assert items[..1] == [node];
      if depth > MAX_ACTION_VALUE_DEPTH {
        NestsNowhere(node.value);
      } else {
        NodeFits(node, depth);
        var pointer := prefix + RenderSegment(node.segment);
        if NodeFailure(node, pointer, depth, total) == None {
          WalkAccepts(Children(node.value), pointer, depth + 1, total + 1);
          WalkDescends(items, prefix, depth, total, pointer);
          var inside := WalkItems(Children(node.value), pointer, depth + 1, total + 1);
          if inside.Passed? {
            WalkAccepts(items[1..], prefix, depth, inside.total);
          }
        }
      }
    }
  }

  lemma NestsNowhere(v: DataValue)
    ensures !NestsWithin(v, 0)
  {
  }

  lemma ArgsFit(items: seq<Item>)
    requires forall i :: 0 <= i < |items| ==> items[i].segment.Arg?
    ensures forall i :: 0 <= i < |items| ==> SegmentFits(items[i].segment)
  {
  }

  /** A call passes its budgets exactly when no argument nests deeper than 32 values, the call
      holds at most 4096 values, and every text and map key is at most 4096 bytes. */
  lemma PassingCalls(args: seq<Entry>)
    ensures WalkCall(args).Passed? <==>
            && (forall i :: 0 <= i < |args| ==>
                NestsWithin(args[i].value, MAX_ACTION_VALUE_DEPTH) && StringsFit(args[i].value))
            && CountItems(ArgItems(args)) <= MAX_ACTION_VALUE_NODES
  {
    hide NestsWithin, StringsFit, CountItems, SegmentFits, WalkItems;
    var items := ArgItems(args);
    ArgsFit(items);
    WalkAccepts(items, "", 1, 0);
    assert forall i {:trigger args[i]} {:trigger items[i]} :: 0 <= i < |args| ==> items[i].value == args[i].value;
  }
}
