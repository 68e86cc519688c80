/** What a derived stat means, and why every lawful ruleset gives it a meaning. */
module Evaluation {
  import opened DerivedGraph
  import opened Expressions
  import opened FixedPoint
  import opened Graphs
  import opened Numbers
  import opened Options
  import opened Rulesets

  /** The stats of one entity: declarations, stored base values, and the modifiers applied to a
      stat's value once it is known. */
  datatype Query = Query(stats: seq<StatDecl>, base: map<string, Value>, modifiers: (string, Value) -> Value)

  datatype Outcome = Yields(value: Value) | DivisionByZero | TypeMismatch | UnknownStat | MissingBase | OutOfBudget

  // --- Operators -----------------------------------------------------------------------

  function ApplyInt(op: BinaryOp, a: i32, b: i32): Outcome {
    match op
    case Add => Yields(IntValue(Clamp(a + b)))
    case Subtract => Yields(IntValue(Clamp(a - b)))
    case Multiply => Yields(IntValue(Clamp(a * b)))
    case Divide => (match IntDivide(a, b) case None => DivisionByZero case Some(q) => Yields(IntValue(q)))
    case Min => Yields(IntValue(if a <= b then a else b))
    case Max => Yields(IntValue(if a >= b then a else b))
  }

  function ApplyFixed(op: BinaryOp, a: i32, b: i32): Outcome {
    match op
    case Add => Yields(FixedValue(SaturatingAdd(a, b)))
    case Subtract => Yields(FixedValue(SaturatingSub(a, b)))
    case Multiply => Yields(FixedValue(SaturatingMul(a, b)))
    case Divide => if b == 0 then DivisionByZero else Yields(FixedValue(SaturatingDiv(a, b)))
    case Min => Yields(FixedValue(if a <= b then a else b))
    case Max => Yields(FixedValue(if a >= b then a else b))
  }

  function Apply(op: BinaryOp, a: Value, b: Value): Outcome {
    if a.IntValue? && b.IntValue? then ApplyInt(op, a.number, b.number)
    else if a.FixedValue? && b.FixedValue? then ApplyFixed(op, a.raw, b.raw)
    else TypeMismatch
  }

  function Combine(op: BinaryOp, left: Outcome, right: Outcome): Outcome {
    if !left.Yields? then left
    else if !right.Yields? then right
    else Apply(op, left.value, right.value)
  }

  // --- Meaning -------------------------------------------------------------------------

  /** The documented meaning of a node: references stand for the modified value of the stat they
      name, operands are evaluated left to right. `budget` bounds the nesting of stats. */
  ghost function MeaningOfExpr(q: Query, e: Expr, budget: nat): Outcome
    decreases budget, 1, e
  {
    match e
    case Literal(v) => Yields(v)
    case Stat(name) => MeaningOfStat(q, name, budget)
    case Binary(op, left, right) => Combine(op, MeaningOfExpr(q, left, budget), MeaningOfExpr(q, right, budget))
  }

  ghost function MeaningOfStat(q: Query, name: string, budget: nat): Outcome
    decreases budget, 0
  {
    var index := StatIndex(q.stats);
    if budget == 0 then OutOfBudget
    else if name !in index then UnknownStat
    else
      var plain := match q.stats[index[name]].derived
                   case Some(e) => MeaningOfExpr(q, e, budget - 1)
                   case None => if name in q.base then Yields(q.base[name]) else MissingBase;
      Modified(q, name, plain)
  }

  ghost function Modified(q: Query, name: string, plain: Outcome): Outcome {
    if plain.Yields? then Yields(q.modifiers(name, plain.value)) else plain
  }

  // --- Kinds of values -----------------------------------------------------------------

  /** The value belongs to the declared kind; an enum value also to its declared domain. */
  ghost predicate HasKind(v: Value, kind: StatKind) {
    ValueKind(v) == DeclKind(kind) && (kind.EnumStat? ==> v.variant in kind.variants)
  }

  ghost predicate HasExprKind(v: Value, kind: ExprKind, domains: Domains) {
    ValueKind(v) == kind && (kind.EnumKind? ==> kind.enumId in domains && v.variant in domains[kind.enumId])
  }

  ghost predicate Sound(o: Outcome, kind: ExprKind, domains: Domains) {
    o.DivisionByZero? || (o.Yields? && HasExprKind(o.value, kind, domains))
  }

  /** Stored bases have their declared kinds and modifiers keep them. */
  ghost predicate WellKinded(q: Query) {
    var index, kinds := StatIndex(q.stats), KindTable(q.stats);
    && (forall name :: name in index && q.stats[index[name]].derived == None ==>
          name in q.base && HasKind(q.base[name], kinds[name]))
    && (forall name, v :: name in kinds && HasKind(v, kinds[name]) ==> HasKind(q.modifiers(name, v), kinds[name]))
  }

  /** A lawful ruleset with well-kinded base values and modifiers. */
  ghost predicate Ready(q: Query) {
    DomainsAgree(q.stats) && DerivedLawful(q.stats) && WellKinded(q)
  }

  lemma DomainOfKind(stats: seq<StatDecl>, i: nat, v: Value)
    requires DomainsAgree(stats) && i < |stats|
    ensures HasKind(v, stats[i].kind) <==> HasExprKind(v, DeclKind(stats[i].kind), DomainTable(stats))
  {
    if stats[i].kind.EnumStat? {
      var id := stats[i].kind.enumId;
      var first := FirstDeclaration(stats, i, id);
      assert id in DomainIndex(stats);
      assert DomainTable(stats)[id] == Variants(stats[i].kind);
    }
  }

  // --- Soundness -----------------------------------------------------------------------

  ghost predicate ChainsFrom(g: Graph<nat>, i: nat, bound: nat) {
    forall w :: Walk(g, w) && w[0] == i ==> |w| <= bound
  }

  lemma ChainShrinks(g: Graph<nat>, i: nat, bound: nat)
    requires Closed(g) && i in g && ChainsFrom(g, i, bound)
    ensures bound >= 1
    ensures forall d :: d in g[i] ==> ChainsFrom(g, d, bound - 1)
  {
    assert Walk(g, [i]);
    forall d, w | d in g[i] && Walk(g, w) && w[0] == d ensures |w| <= bound - 1 {
      WalkPrepends(g, i, w);
    }
  }

  /** The stat's formula fits the budget left for what it references. */
  ghost predicate RefsWithin(q: Query, e: Expr, budget: nat) {
    forall name :: name in Refs(e) && name in StatIndex(q.stats) ==>
      ChainsFrom(DependencyGraph(q.stats), StatIndex(q.stats)[name], budget)
  }

  lemma FormulaWithin(q: Query, i: nat, budget: nat)
    requires i < |q.stats| && q.stats[i].derived.Some? && ChainsFrom(DependencyGraph(q.stats), i, budget)
    ensures budget >= 1 && RefsWithin(q, q.stats[i].derived.value, budget - 1)
  {
    var g := DependencyGraph(q.stats);
    ChainShrinks(g, i, budget);
    forall name | name in Refs(q.stats[i].derived.value) && name in StatIndex(q.stats)
      ensures ChainsFrom(g, StatIndex(q.stats)[name], budget - 1)
    {
      assert StatIndex(q.stats)[name] in g[i];
    }
  }

  /** A clean, well-kinded formula is sound when the stats it references are. */
  lemma {:induction false} ExprIsSound(q: Query, e: Expr, budget: nat, kind: ExprKind, kinds: Kinds, domains: Domains)
    requires NodeCheck(e, kinds, domains) == None && KindOf(e, kinds) == Some(kind)
    requires forall name :: name in Refs(e) && name in kinds ==>
               Sound(MeaningOfStat(q, name, budget), DeclKind(kinds[name]), domains)
    ensures Sound(MeaningOfExpr(q, e, budget), kind, domains)
    decreases e
  {
    match e
    case Literal(v) =>
    case Stat(name) =>
    case Binary(op, left, right) =>
      ExprIsSound(q, left, budget, kind, kinds, domains);
      ExprIsSound(q, right, budget, kind, kinds, domains);
  }

  ghost predicate StatSound(q: Query, name: string, budget: nat)
    requires name in StatIndex(q.stats)
  {
    Sound(MeaningOfStat(q, name, budget), DeclKind(KindTable(q.stats)[name]), DomainTable(q.stats))
  }

  lemma {:induction false} StatIsSound(q: Query, name: string, budget: nat)
    requires Ready(q) && name in StatIndex(q.stats)
    requires ChainsFrom(DependencyGraph(q.stats), StatIndex(q.stats)[name], budget)
    ensures StatSound(q, name, budget)
    decreases budget
  {
    hide Ready, StatSound, ChainsFrom;
    var i := StatIndex(q.stats)[name];
    assert budget >= 1 by { ChainShrinks(DependencyGraph(q.stats), i, budget); }
    if q.stats[i].derived.Some? {
      var e := q.stats[i].derived.value;
      FormulaWithin(q, i, budget);
      assert RefsSound(q, e, budget - 1) by {
        forall ref | ref in Refs(e) && ref in StatIndex(q.stats) ensures StatSound(q, ref, budget - 1) {
          StatIsSound(q, ref, budget - 1);
        }
      }
      DerivedIsSound(q, name, i, e, budget);
    } else {
      BaseIsSound(q, name, budget);
    }
  }

  lemma BaseIsSound(q: Query, name: string, budget: nat)
    requires Ready(q) && name in StatIndex(q.stats) && budget >= 1
    requires q.stats[StatIndex(q.stats)[name]].derived == None
    ensures StatSound(q, name, budget)
  {
    DomainOfKind(q.stats, StatIndex(q.stats)[name], q.base[name]);
    ModifiedIsSound(q, name, Yields(q.base[name]));
  }

  /** Every stat the formula references is sound within the budget. */
  ghost predicate RefsSound(q: Query, e: Expr, budget: nat) {
    forall ref :: ref in Refs(e) && ref in StatIndex(q.stats) ==> StatSound(q, ref, budget)
  }

  lemma DerivedIsSound(q: Query, name: string, i: nat, e: Expr, budget: nat)
    requires Ready(q) && name in StatIndex(q.stats) && StatIndex(q.stats)[name] == i && budget >= 1
    requires q.stats[i].derived == Some(e) && RefsSound(q, e, budget - 1)
    ensures StatSound(q, name, budget)
  {
    hide WellKinded, ChainsWithin, ShapesBounded, TotalSize, FormulasClean, KindsFit;
    var kinds, domains := KindTable(q.stats), DomainTable(q.stats);
    FormulaIsLawful(q.stats, i, e);
    assert forall ref :: ref in Refs(e) && ref in kinds ==> StatSound(q, ref, budget - 1);
    ExprIsSound(q, e, budget - 1, DeclKind(kinds[name]), kinds, domains);
    var plain := MeaningOfExpr(q, e, budget - 1);
    ModifiedIsSound(q, name, plain);
    assert MeaningOfStat(q, name, budget) == Modified(q, name, plain);
  }

  lemma FormulaIsLawful(stats: seq<StatDecl>, i: nat, e: Expr)
    requires DerivedLawful(stats) && i < |stats| && stats[i].derived == Some(e)
    ensures NodeCheck(e, KindTable(stats), DomainTable(stats)) == None
    ensures KindOf(e, KindTable(stats)) == Some(DeclKind(stats[i].kind))
  {
    hide KindTable, DomainTable, HasUniformKind, LeavesLegal, NodeCheck, KindOf, ChainsWithin;
    KindIffLeaves(e, KindTable(stats), DeclKind(stats[i].kind));
    CheckIffLeaves(e, KindTable(stats), DomainTable(stats));
  }

  lemma ModifiedIsSound(q: Query, name: string, plain: Outcome)
    requires Ready(q) && name in StatIndex(q.stats)
    requires Sound(plain, DeclKind(KindTable(q.stats)[name]), DomainTable(q.stats))
    ensures Sound(Modified(q, name, plain), DeclKind(KindTable(q.stats)[name]), DomainTable(q.stats))
  {
    if plain.Yields? {
      var i := StatIndex(q.stats)[name];
      DomainOfKind(q.stats, i, plain.value);
      DomainOfKind(q.stats, i, q.modifiers(name, plain.value));
    }
  }

  // --- Termination ---------------------------------------------------------------------

  lemma {:induction false} CleanRefsAreKnown(e: Expr, kinds: Kinds, domains: Domains)
    requires NodeCheck(e, kinds, domains) == None
    ensures forall name :: name in Refs(e) ==> name in kinds
    decreases e
  {
    if e.Binary? {
      CleanRefsAreKnown(e.left, kinds, domains);
      CleanRefsAreKnown(e.right, kinds, domains);
    }
  }

  ghost predicate RefsAgree(q: Query, e: Expr, b: nat, c: nat) {
    forall name :: name in Refs(e) ==> StatAgrees(q, name, b, c)
  }

  ghost predicate StatAgrees(q: Query, name: string, b: nat, c: nat) {
    MeaningOfStat(q, name, b) == MeaningOfStat(q, name, c)
  }

  lemma {:induction false} ExprIsStable(q: Query, e: Expr, b: nat, c: nat)
    requires RefsAgree(q, e, b, c)
    ensures MeaningOfExpr(q, e, b) == MeaningOfExpr(q, e, c)
    decreases e
  {
    match e
    case Literal(_) =>
    case Stat(name) =>
      assert StatAgrees(q, name, b, c);
    case Binary(_, left, right) =>
      ExprIsStable(q, left, b, c);
      ExprIsStable(q, right, b, c);
  }

  /** A budget that covers the longest chain is as good as any larger one. */
  lemma {:induction false} StatIsStable(q: Query, name: string, b: nat, c: nat)
    requires DerivedLawful(q.stats) && name in StatIndex(q.stats) && b <= c
    requires ChainsFrom(DependencyGraph(q.stats), StatIndex(q.stats)[name], b)
    ensures StatAgrees(q, name, b, c)
    decreases b, 1
  {
    hide DerivedLawful, RefsAgree;
    var i := StatIndex(q.stats)[name];
    assert b >= 1 by { ChainShrinks(DependencyGraph(q.stats), i, b); }
    if q.stats[i].derived.Some? {
      RefsAreStable(q, i, b, c);
      ExprIsStable(q, q.stats[i].derived.value, b - 1, c - 1);
    }
  }

  lemma {:induction false} RefsAreStable(q: Query, i: nat, b: nat, c: nat)
    requires DerivedLawful(q.stats) && i < |q.stats| && q.stats[i].derived.Some? && 1 <= b <= c
    requires ChainsFrom(DependencyGraph(q.stats), i, b)
    ensures RefsAgree(q, q.stats[i].derived.value, b - 1, c - 1)
    decreases b, 0
  {
    hide DerivedLawful, StatAgrees, NodeCheck, KindOf, ChainsFrom, StatIndex, DependencyGraph, DomainTable;
    var e := q.stats[i].derived.value;
    FormulaWithin(q, i, b);
    FormulaIsLawful(q.stats, i, e);
    CleanRefsAreKnown(e, KindTable(q.stats), DomainTable(q.stats));
    forall ref | ref in Refs(e) ensures StatAgrees(q, ref, b - 1, c - 1) {
      StatIsStable(q, ref, b - 1, c - 1);
    }
  }

  lemma ChainsBoundEveryStat(stats: seq<StatDecl>, i: nat)
    requires DerivedLawful(stats)
    ensures ChainsFrom(DependencyGraph(stats), i, MAX_DERIVED_DEPTH)
  {
  }

  /** In every lawful ruleset with well-kinded bases and modifiers, nesting 128 stats deep is
      enough for every declared stat: it has a value of its declared kind and domain, or it
      divides by zero, and no larger budget changes which. */
  lemma LawfulStatsHaveMeaning(rs: Ruleset, q: Query, name: string, budget: nat)
    requires Lawful(rs) && q.stats == rs.stats && WellKinded(q)
    requires name in StatIndex(q.stats) && budget >= MAX_DERIVED_DEPTH
    ensures var o := MeaningOfStat(q, name, budget);
      && o == MeaningOfStat(q, name, MAX_DERIVED_DEPTH)
      && (o.DivisionByZero? || (o.Yields? && HasKind(o.value, KindTable(q.stats)[name])))
  {
    var i := StatIndex(q.stats)[name];
    ChainsBoundEveryStat(q.stats, i);
    StatIsSound(q, name, MAX_DERIVED_DEPTH);
    StatIsStable(q, name, MAX_DERIVED_DEPTH, budget);
    var o := MeaningOfStat(q, name, MAX_DERIVED_DEPTH);
    if o.Yields? {
      DomainOfKind(q.stats, i, o.value);
    }
  }
}
