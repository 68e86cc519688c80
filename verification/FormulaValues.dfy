/** What a formula is worth: each node against exact arithmetic on its operands, whole trees
    against the real number they denote, and stats against their formulas and modifiers. */
module FormulaValues {
  import opened DerivedGraph
  import opened Evaluation
  import opened Expressions
  import opened Numbers
  import opened Operators
  import opened Options
  import opened Rulesets
  import opened StatQueries

  // --- One node ------------------------------------------------------------------------

  /** `outcome` is what an operator node must yield for operands worth `a` and `b`, in this order:
      a zero divisor, or the exact result rounded down to the kind of the operands and held within
      its range. `y` ranges over the kind. */
  ghost predicate NodeYields(outcome: Outcome, op: BinaryOp, a: Value, b: Value, y: i32)
    requires SameNumericKind(a, b)
  {
    if op == Divide && Stored(b) == 0 then outcome == DivisionByZero
    else
      && outcome.Yields? && SameNumericKind(outcome.value, a)
      && (op == Divide ==> Denoted(Stored(b), Scale(b)) != 0.0)
      && Nearest(Stored(outcome.value), y,
                 Exact(op, Denoted(Stored(a), Scale(a)), Denoted(Stored(b), Scale(b))), Scale(a))
  }

  lemma ApplyYields(op: BinaryOp, a: Value, b: Value, y: i32)
    requires SameNumericKind(a, b)
    ensures NodeYields(Apply(op, a, b), op, a, b, y)
  {
    hide Exact, Denoted, Nearest, Apply;
    OperatorsRoundDown(op, a, b, y);
  }

  /** The left operand comes first, and a failure of an operand is the failure of the node, the left
      one's before the right one's. */
  lemma NodeMeaning(q: Query, op: BinaryOp, left: Expr, right: Expr, budget: nat, a: Value, b: Value, y: i32)
    ensures MeaningOfExpr(q, left, budget) == Yields(a) && MeaningOfExpr(q, right, budget) == Yields(b)
            && SameNumericKind(a, b) ==>
              NodeYields(MeaningOfExpr(q, Binary(op, left, right), budget), op, a, b, y)
    ensures !MeaningOfExpr(q, left, budget).Yields? ==>
              MeaningOfExpr(q, Binary(op, left, right), budget) == MeaningOfExpr(q, left, budget)
    ensures MeaningOfExpr(q, left, budget).Yields? && !MeaningOfExpr(q, right, budget).Yields? ==>
              MeaningOfExpr(q, Binary(op, left, right), budget) == MeaningOfExpr(q, right, budget)
  {
    hide NodeYields;
    if SameNumericKind(a, b) {
      ApplyYields(op, a, b, y);
    }
    hide Apply;
  }

  lemma NodeEvaluates(op: BinaryOp, left: Expr, right: Expr, resolved: map<string, Value>, a: Value, b: Value, y: i32)
    ensures EvalExpr(left, resolved) == Yields(a) && EvalExpr(right, resolved) == Yields(b)
            && SameNumericKind(a, b) ==>
              NodeYields(EvalExpr(Binary(op, left, right), resolved), op, a, b, y)
    ensures !EvalExpr(left, resolved).Yields? ==>
              EvalExpr(Binary(op, left, right), resolved) == EvalExpr(left, resolved)
    ensures EvalExpr(left, resolved).Yields? && !EvalExpr(right, resolved).Yields? ==>
              EvalExpr(Binary(op, left, right), resolved) == EvalExpr(right, resolved)
  {
    hide NodeYields;
    if SameNumericKind(a, b) {
      ApplyYields(op, a, b, y);
    }
    hide Apply;
  }

  // --- Whole trees ---------------------------------------------------------------------

  /** What a leaf stands for. */
  ghost function LeafValue(e: Expr, resolved: map<string, Value>): Option<Value> {
    if e.Literal? then Some(e.value)
    else if e.Stat? && e.name in resolved then Some(resolved[e.name])
    else None
  }

  ghost predicate Numeric(v: Value, fixed: bool) {
    if fixed then v.FixedValue? else v.IntValue?
  }

  ghost function UnitsPerOne(fixed: bool): int {
    if fixed then 65536 else 1
  }

  /** The real number a tree denotes, where it denotes one. */
  ghost function RealOf(e: Expr, resolved: map<string, Value>): real {
    if e.Binary? then
      var x, y := RealOf(e.left, resolved), RealOf(e.right, resolved);
      if e.op == Divide && y == 0.0 then 0.0 else Exact(e.op, x, y)
    else
      var leaf := LeafValue(e, resolved);
      if leaf.Some? && (leaf.value.IntValue? || leaf.value.FixedValue?)
      then Denoted(Stored(leaf.value), Scale(leaf.value)) else 0.0
  }

  ghost predicate IsStored(x: real, fixed: bool, k: i32) {
    Denoted(k, UnitsPerOne(fixed)) == x
  }

  /** All leaves are numbers of one kind, nothing is divided by zero, and the exact result of every
      operator is a number of that kind. */
  ghost predicate StaysExact(e: Expr, resolved: map<string, Value>, fixed: bool) {
    if e.Binary? then
      && StaysExact(e.left, resolved, fixed) && StaysExact(e.right, resolved, fixed)
      && (e.op == Divide ==> RealOf(e.right, resolved) != 0.0)
      && exists k: i32 :: IsStored(RealOf(e, resolved), fixed, k)
    else
      LeafValue(e, resolved).Some? && Numeric(LeafValue(e, resolved).value, fixed)
  }

  lemma NearestIsExact(r: i32, k: i32, exact: real, scale: int)
    requires scale > 0 && Nearest(r, k, exact, scale) && Denoted(k, scale) == exact
    ensures r == k
  {
    SumBelow(0, r, k, scale);
    hide Denoted;
  }

  ghost predicate Worth(outcome: Outcome, x: real, fixed: bool) {
    outcome.Yields? && Numeric(outcome.value, fixed) && Denoted(Stored(outcome.value), UnitsPerOne(fixed)) == x
  }

  lemma ExactNode(e: Expr, resolved: map<string, Value>, fixed: bool)
    requires e.Binary? && StaysExact(e, resolved, fixed)
    requires Worth(EvalExpr(e.left, resolved), RealOf(e.left, resolved), fixed)
    requires Worth(EvalExpr(e.right, resolved), RealOf(e.right, resolved), fixed)
    ensures Worth(EvalExpr(e, resolved), RealOf(e, resolved), fixed)
  {
    var a, b := EvalExpr(e.left, resolved).value, EvalExpr(e.right, resolved).value;
    var k: i32 :| IsStored(RealOf(e, resolved), fixed, k);
    OperandsDecide(e, resolved, fixed, a, b);
    hide EvalExpr, RealOf, StaysExact, Denoted, Exact, NodeYields;
    NodeEvaluates(e.op, e.left, e.right, resolved, a, b, k);
    assert e == Binary(e.op, e.left, e.right);
    ExactOutcome(EvalExpr(e, resolved), e.op, a, b, k, RealOf(e, resolved), fixed);
  }

  lemma OperandsDecide(e: Expr, resolved: map<string, Value>, fixed: bool, a: Value, b: Value)
    requires e.Binary? && StaysExact(e, resolved, fixed) && Numeric(a, fixed) && Numeric(b, fixed)
    requires Denoted(Stored(a), UnitsPerOne(fixed)) == RealOf(e.left, resolved)
    requires Denoted(Stored(b), UnitsPerOne(fixed)) == RealOf(e.right, resolved)
    ensures e.op == Divide ==> Denoted(Stored(b), Scale(b)) != 0.0 && Stored(b) != 0
    ensures RealOf(e, resolved) == Exact(e.op, Denoted(Stored(a), Scale(a)), Denoted(Stored(b), Scale(b)))
  {
    hide Exact;
    assert Scale(a) == UnitsPerOne(fixed) && Scale(b) == UnitsPerOne(fixed);
    assert Stored(b) == 0 ==> Denoted(Stored(b), Scale(b)) == 0.0;
  }

  lemma ExactOutcome(outcome: Outcome, op: BinaryOp, a: Value, b: Value, k: i32, x: real, fixed: bool)
    requires Numeric(a, fixed) && Numeric(b, fixed) && NodeYields(outcome, op, a, b, k) && IsStored(x, fixed, k)
    requires op == Divide ==> Stored(b) != 0 && Denoted(Stored(b), Scale(b)) != 0.0
    requires x == Exact(op, Denoted(Stored(a), Scale(a)), Denoted(Stored(b), Scale(b)))
    ensures Worth(outcome, x, fixed)
  {
    hide Denoted, Exact, Nearest;
    NearestIsExact(Stored(outcome.value), k, x, UnitsPerOne(fixed));
  }

  /** When no operator has to round or saturate, a formula yields the exact value of its tree. */
  lemma {:induction false} TreesAreExact(e: Expr, resolved: map<string, Value>, fixed: bool)
    requires StaysExact(e, resolved, fixed)
    ensures Worth(EvalExpr(e, resolved), RealOf(e, resolved), fixed)
    decreases e
  {
    hide Denoted, Exact;
    if e.Binary? {
      TreesAreExact(e.left, resolved, fixed);
      TreesAreExact(e.right, resolved, fixed);
      ExactNode(e, resolved, fixed);
    }
  }

  /** So does its meaning in a query. */
  lemma TreesMeanExactly(q: Query, e: Expr, resolved: map<string, Value>, fixed: bool, budget: nat)
    requires StaysExact(e, resolved, fixed)
    requires forall ref :: ref in Refs(e) ==>
               ref in resolved && MeaningOfStat(q, ref, budget) == Yields(resolved[ref])
    ensures Worth(MeaningOfExpr(q, e, budget), RealOf(e, resolved), fixed)
  {
    hide StaysExact, RealOf, EvalExpr, MeaningOfExpr, Worth;
    TreesAreExact(e, resolved, fixed);
    ResolvedFormula(q, e, resolved, budget);
  }

  // --- Stats ---------------------------------------------------------------------------

  /** A base stat is its modified stored value; a name without declaration and a base stat without
      stored value are errors. */
  lemma BaseStats(q: Query, name: string)
    ensures name !in StatIndex(q.stats) ==> Meaning(q, name) == UnknownStat
    ensures name in StatIndex(q.stats) && q.stats[StatIndex(q.stats)[name]].derived == None ==>
              Meaning(q, name) == if name in q.base then Yields(q.modifiers(name, q.base[name])) else MissingBase
  {
    hide StatIndex;
  }

  /** A derived stat is its formula, over the modified values of the stats it refers to, modified
      itself; it divides by zero when its formula does. */
  lemma DerivedStats(q: Query, name: string, e: Expr, resolved: map<string, Value>)
    requires FormulaOf(q, name, e) && Traced(q, resolved) && forall ref :: ref in Refs(e) ==> ref in resolved
    ensures EvalExpr(e, resolved).Yields? ==>
              Meaning(q, name) == Yields(q.modifiers(name, EvalExpr(e, resolved).value))
    ensures EvalExpr(e, resolved).DivisionByZero? ==> Meaning(q, name) == DivisionByZero
  {
    FormulaResolves(q, name, e, resolved);
    hide FormulaOf, Traced, EvalExpr, Meaning;
  }
}
