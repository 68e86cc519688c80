/** Derived-stat expressions: their shape bounds, reference and literal checks, and kinds. */
module Expressions {
  import opened Numbers
  import opened Options
  import opened Texts

  const MAX_EXPR_NODES: nat := 4096
  const MAX_EXPR_DEPTH: nat := 32
  const MAX_TAGS: nat := 1024
  const MAX_DICE_INPUT_BYTES: nat := 128

  datatype Value =
    | IntValue(number: i32)
    | FixedValue(raw: i32)
    | BoolValue(flag: bool)
    | EnumValue(enumId: string, variant: string)
    | TagsValue(tags: seq<string>)
    | DiceValue(dice: string)

  datatype BinaryOp = Add | Subtract | Multiply | Divide | Min | Max

  datatype Expr =
    | Literal(value: Value)
    | Stat(name: string)
    | Binary(op: BinaryOp, left: Expr, right: Expr)

  /** The declared kind of a stat. */
  datatype StatKind =
    | IntStat | FixedStat | BoolStat | TagsStat | DiceStat
    | EnumStat(enumId: string, variants: seq<string>)

  /** The kind of an expression; an enum kind is only its domain identifier. */
  datatype ExprKind = IntKind | FixedKind | BoolKind | TagsKind | DiceKind | EnumKind(enumId: string)

  datatype StatDecl = StatDecl(name: string, kind: StatKind, derived: Option<Expr>)

  type Domains = map<string, set<string>>
  type Kinds = map<string, StatKind>

  function Size(e: Expr): (n: nat)
    ensures n >= 1
  {
    if e.Binary? then 1 + Size(e.left) + Size(e.right) else 1
  }

  /** The number of nodes on the longest path from the root to a leaf. */
  function Height(e: Expr): (n: nat)
    ensures n >= 1
  {
    if e.Binary? then
      1 + if Height(e.left) >= Height(e.right) then Height(e.left) else Height(e.right)
    else 1
  }

  // --- Shape bound ---------------------------------------------------------------------

  ghost function PendingSize(stack: seq<(Expr, nat)>): nat {
    if stack == [] then 0 else Size(stack[|stack| - 1].0) + PendingSize(stack[..|stack| - 1])
  }

  /** Every pending subtree, hung at its depth, stays within the depth bound. */
  ghost predicate PendingShallow(stack: seq<(Expr, nat)>) {
    forall k :: 0 <= k < |stack| ==> stack[k].1 + Height(stack[k].0) - 1 <= MAX_EXPR_DEPTH
  }

  /** Counts the nodes of an expression on an explicit stack: the true size when the tree is
      within both bounds, and nothing otherwise. */
  method ExprNodeCount(root: Expr) returns (count: Option<nat>)
    ensures count ==
            if Size(root) <= MAX_EXPR_NODES && Height(root) <= MAX_EXPR_DEPTH then Some(Size(root)) else None
  {
    var nodes := 0;
    var stack: seq<(Expr, nat)> := [(root, 1)];
    assert PendingSize([]) == 0;
    while stack != []
      invariant nodes + PendingSize(stack) == Size(root)
      invariant nodes <= MAX_EXPR_NODES
      invariant PendingShallow(stack) <==> Height(root) <= MAX_EXPR_DEPTH
      invariant forall k :: 0 <= k < |stack| ==> stack[k].1 >= 1
      decreases PendingSize(stack)
    {
      var last := |stack| - 1;
      var (node, depth) := stack[last];
      ghost var before := stack;
      stack := stack[..last];
      nodes := nodes + 1;
      if depth > MAX_EXPR_DEPTH || nodes > MAX_EXPR_NODES {
        return None;
      }
      if node.Binary? {
        stack := stack + [(node.right, depth + 1)];
        stack := stack + [(node.left, depth + 1)];
        Pushed(before, stack, node, depth);
      }
    }
    return Some(nodes);
  }

  lemma Pushed(before: seq<(Expr, nat)>, after: seq<(Expr, nat)>, node: Expr, depth: nat)
    requires before != [] && before[|before| - 1] == (node, depth) && node.Binary?
    requires after == before[..|before| - 1] + [(node.right, depth + 1)] + [(node.left, depth + 1)]
    ensures PendingSize(after) + 1 == PendingSize(before)
    ensures PendingShallow(after) <==> PendingShallow(before)
  {
  }

  // --- Reference and literal checks ----------------------------------------------------

  datatype NodeDefect = BadTagsLiteral | BadDiceLiteral | BadEnumLiteral | UnknownReference

  /** Whether the names are nonempty and pairwise different. */
  predicate DistinctNonempty(names: seq<string>) {
    && (forall i :: 0 <= i < |names| ==> names[i] != "")
    && (forall i, j :: 0 <= i < j < |names| ==> names[i] != names[j])
  }

  function LiteralDefect(v: Value, domains: Domains): Option<NodeDefect> {
    match v
    case TagsValue(tags) =>
      if |tags| <= MAX_TAGS && DistinctNonempty(tags) then None else Some(BadTagsLiteral)
    case DiceValue(dice) =>
      if 1 <= Utf8Len(dice) <= MAX_DICE_INPUT_BYTES then None else Some(BadDiceLiteral)
    case EnumValue(id, variant) =>
      if id in domains && variant in domains[id] then None else Some(BadEnumLiteral)
    case _ => None
  }

  /** The first defect of an expression in preorder. */
  function NodeCheck(e: Expr, kinds: Kinds, domains: Domains): Option<NodeDefect> {
    match e
    case Literal(v) => LiteralDefect(v, domains)
    case Stat(name) => if name in kinds then None else Some(UnknownReference)
    case Binary(_, left, right) =>
      var first := NodeCheck(left, kinds, domains);
      if first.Some? then first else NodeCheck(right, kinds, domains)
  }

  /** The names an expression references, in preorder. */
  function Refs(e: Expr): seq<string> {
    match e
    case Literal(_) => []
    case Stat(name) => [name]
    case Binary(_, left, right) => Refs(left) + Refs(right)
  }

  // --- Kinds ---------------------------------------------------------------------------

  function DeclKind(k: StatKind): ExprKind {
    match k
    case IntStat => IntKind
    case FixedStat => FixedKind
    case BoolStat => BoolKind
    case TagsStat => TagsKind
    case DiceStat => DiceKind
    case EnumStat(id, _) => EnumKind(id)
  }

  function ValueKind(v: Value): ExprKind {
    match v
    case IntValue(_) => IntKind
    case FixedValue(_) => FixedKind
    case BoolValue(_) => BoolKind
    case TagsValue(_) => TagsKind
    case DiceValue(_) => DiceKind
    case EnumValue(id, _) => EnumKind(id)
  }

  function KindOf(e: Expr, kinds: Kinds): Option<ExprKind> {
    match e
    case Literal(v) => Some(ValueKind(v))
    case Stat(name) => if name in kinds then Some(DeclKind(kinds[name])) else None
    case Binary(_, left, right) =>
      match (KindOf(left, kinds), KindOf(right, kinds))
      case (Some(IntKind), Some(IntKind)) => Some(IntKind)
      case (Some(FixedKind), Some(FixedKind)) => Some(FixedKind)
      case _ => None
  }

  // --- Formulas through their leaves ---------------------------------------------------

  /** The literals and references of an expression, left to right. */
  ghost function Leaves(e: Expr): seq<Expr> {
    if e.Binary? then Leaves(e.left) + Leaves(e.right) else [e]
  }

  ghost predicate LeafHasKind(leaf: Expr, kinds: Kinds, kind: ExprKind) {
    || (leaf.Literal? && ValueKind(leaf.value) == kind)
    || (leaf.Stat? && leaf.name in kinds && DeclKind(kinds[leaf.name]) == kind)
  }

  /** All leaves have one kind, and operators combine integers or fixed-point numbers only. */
  ghost predicate HasUniformKind(e: Expr, kinds: Kinds, kind: ExprKind) {
    && (forall leaf :: leaf in Leaves(e) ==> LeafHasKind(leaf, kinds, kind))
    && (e.Binary? ==> kind == IntKind || kind == FixedKind)
  }

  /** An expression has a kind if and only if all its leaves do and its operators are numeric. */
  lemma {:induction false} KindIffLeaves(e: Expr, kinds: Kinds, kind: ExprKind)
    ensures KindOf(e, kinds) == Some(kind) <==> HasUniformKind(e, kinds, kind)
    decreases e
  {
    if e.Binary? {
      KindIffLeaves(e.left, kinds, kind);
      KindIffLeaves(e.right, kinds, kind);
      hide LeafHasKind;
      assert KindOf(e, kinds) == Some(kind) <==>
             KindOf(e.left, kinds) == KindOf(e.right, kinds) == Some(kind) && (kind == IntKind || kind == FixedKind);
      assert forall leaf :: leaf in Leaves(e) <==> leaf in Leaves(e.left) || leaf in Leaves(e.right);
    } else {
      assert Leaves(e) == [e] && e in Leaves(e);
    }
  }

  /** A reference to a declared stat, or a literal within the bounds of its kind. */
  ghost predicate LeafLegal(leaf: Expr, kinds: Kinds, domains: Domains) {
    if leaf.Stat? then leaf.name in kinds
    else leaf.Literal? && LiteralLegal(leaf.value, domains)
  }

  ghost predicate LeavesLegal(e: Expr, kinds: Kinds, domains: Domains) {
    forall leaf :: leaf in Leaves(e) ==> LeafLegal(leaf, kinds, domains)
  }

  ghost predicate LiteralLegal(v: Value, domains: Domains) {
    && (v.TagsValue? ==> |v.tags| <= MAX_TAGS && DistinctNonempty(v.tags))
    && (v.DiceValue? ==> v.dice != "" && Utf8Len(v.dice) <= MAX_DICE_INPUT_BYTES)
    && (v.EnumValue? ==> v.enumId in domains && v.variant in domains[v.enumId])
  }

  /** The defect names what is wrong with the leaf. */
  ghost predicate Blames(defect: NodeDefect, leaf: Expr) {
    match defect
    case UnknownReference => leaf.Stat?
    case BadTagsLiteral => leaf.Literal? && leaf.value.TagsValue?
    case BadDiceLiteral => leaf.Literal? && leaf.value.DiceValue?
    case BadEnumLiteral => leaf.Literal? && leaf.value.EnumValue?
  }

  /** The leaf at `i` is the first that is not legal, and `defect` is what is wrong with it. */
  ghost predicate FirstIllegal(leaves: seq<Expr>, kinds: Kinds, domains: Domains, i: nat, defect: NodeDefect) {
    && i < |leaves| && !LeafLegal(leaves[i], kinds, domains) && Blames(defect, leaves[i])
    && forall j :: 0 <= j < i ==> LeafLegal(leaves[j], kinds, domains)
  }

  lemma LeafChecks(e: Expr, kinds: Kinds, domains: Domains)
    requires !e.Binary?
    ensures NodeCheck(e, kinds, domains) == None <==> LeafLegal(e, kinds, domains)
    ensures NodeCheck(e, kinds, domains).Some? ==> Blames(NodeCheck(e, kinds, domains).value, e)
  {
    if e.Literal? && e.value.DiceValue? && e.value.dice != "" {
      assert Utf8Len(e.value.dice) >= 1;
    }
  }

  /** The check finds nothing if and only if every leaf is legal, and otherwise the first that is not. */
  lemma {:induction false} CheckIffLeaves(e: Expr, kinds: Kinds, domains: Domains)
    ensures NodeCheck(e, kinds, domains) == None <==> LeavesLegal(e, kinds, domains)
    ensures NodeCheck(e, kinds, domains).Some? ==>
              exists i: nat :: FirstIllegal(Leaves(e), kinds, domains, i, NodeCheck(e, kinds, domains).value)
    decreases e
  {
    hide LeafLegal, Blames;
    if e.Binary? {
      var a, b := Leaves(e.left), Leaves(e.right);
      CheckIffLeaves(e.left, kinds, domains);
      CheckIffLeaves(e.right, kinds, domains);
      var left, found := NodeCheck(e.left, kinds, domains), NodeCheck(e, kinds, domains);
      if left.Some? {
        var i: nat :| FirstIllegal(a, kinds, domains, i, left.value);
        assert FirstIllegal(a + b, kinds, domains, i, left.value);
      } else if found.Some? {
        var i: nat :| FirstIllegal(b, kinds, domains, i, found.value);
        assert (a + b)[|a| + i] == b[i];
        assert forall j :: 0 <= j < |a| ==> a[j] in Leaves(e.left);
        assert forall j :: |a| <= j < |a| + i ==> (a + b)[j] == b[j - |a|];
        assert FirstIllegal(a + b, kinds, domains, |a| + i, found.value);
      }
    } else {
      LeafChecks(e, kinds, domains);
      if NodeCheck(e, kinds, domains).Some? {
        assert FirstIllegal(Leaves(e), kinds, domains, 0, NodeCheck(e, kinds, domains).value);
      }
    }
  }

  /** A value and a declared kind agree exactly when they are of one sort and, for enums, one domain. */
  lemma SortsAgree(v: Value, kind: StatKind)
    ensures ValueKind(v) == DeclKind(kind) <==>
            || (v.IntValue? && kind.IntStat?) || (v.FixedValue? && kind.FixedStat?) || (v.BoolValue? && kind.BoolStat?)
            || (v.TagsValue? && kind.TagsStat?) || (v.DiceValue? && kind.DiceStat?)
            || (v.EnumValue? && kind.EnumStat? && v.enumId == kind.enumId)
  {
  }
}
