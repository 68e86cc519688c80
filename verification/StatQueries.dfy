/** Memoised stat evaluation: one query's traces, filled as stats are evaluated. */
module StatQueries {
  import opened DerivedGraph
  import opened Evaluation
  import opened Expressions
  import opened Graphs
  import opened Options
  import opened Rulesets

  /** Evaluates a formula whose references are already resolved. */
  function EvalExpr(e: Expr, resolved: map<string, Value>): Outcome {
    match e
    case Literal(v) => Yields(v)
    case Stat(name) => if name in resolved then Yields(resolved[name]) else UnknownStat
    case Binary(op, left, right) => Combine(op, EvalExpr(left, resolved), EvalExpr(right, resolved))
  }

  /** The full meaning of a stat: what a 128-deep evaluation yields. */
  ghost function Meaning(q: Query, name: string): Outcome {
    MeaningOfStat(q, name, MAX_DERIVED_DEPTH)
  }

  /** The resolved values are the meanings of the stats they are filed under. */
  ghost predicate Traced(q: Query, values: map<string, Value>) {
    forall name :: name in values ==> name in StatIndex(q.stats) && Meaning(q, name) == Yields(values[name])
  }

  /** One formula of a ready query together with the facts its evaluation rests on. */
  ghost predicate FormulaOf(q: Query, name: string, e: Expr) {
    && Ready(q) && name in StatIndex(q.stats)
    && q.stats[StatIndex(q.stats)[name]].derived == Some(e)
  }

  lemma RefsAreDeclared(q: Query, name: string, e: Expr)
    requires FormulaOf(q, name, e)
    ensures forall ref :: ref in Refs(e) ==> ref in StatIndex(q.stats)
  {
    hide StatIndex, DependencyGraph, DomainTable, DerivedLawful;
    FormulaIsLawful(q.stats, StatIndex(q.stats)[name], e);
    CleanRefsAreKnown(e, KindTable(q.stats), DomainTable(q.stats));
  }

  /** One level below the full budget a formula's references already have their full meaning. */
  lemma RefsHaveMeaning(q: Query, name: string, e: Expr)
    requires FormulaOf(q, name, e)
    ensures RefsAgree(q, e, MAX_DERIVED_DEPTH - 1, MAX_DERIVED_DEPTH)
  {
    hide StatIndex, DependencyGraph, DomainTable, DerivedLawful, StatAgrees;
    var i := StatIndex(q.stats)[name];
    ChainsBoundEveryStat(q.stats, i);
    RefsAreStable(q, i, MAX_DERIVED_DEPTH, MAX_DERIVED_DEPTH + 1);
  }

  lemma RefIsSound(q: Query, name: string)
    requires Ready(q) && name in StatIndex(q.stats)
    ensures Meaning(q, name).Yields? || Meaning(q, name).DivisionByZero?
  {
    hide StatIndex, DependencyGraph, DomainTable, DerivedLawful;
    ChainsBoundEveryStat(q.stats, StatIndex(q.stats)[name]);
    StatIsSound(q, name, MAX_DERIVED_DEPTH);
  }

  /** With every reference resolved, the formula evaluates to its meaning. */
  lemma {:induction false} ResolvedFormula(q: Query, e: Expr, resolved: map<string, Value>, budget: nat)
    requires forall ref :: ref in Refs(e) ==> ref in resolved && MeaningOfStat(q, ref, budget) == Yields(resolved[ref])
    ensures EvalExpr(e, resolved) == MeaningOfExpr(q, e, budget)
    decreases e
  {
    if e.Binary? {
      ResolvedFormula(q, e.left, resolved, budget);
      ResolvedFormula(q, e.right, resolved, budget);
    }
  }

  /** If any reference divides by zero then so does the formula, wherever it stands. */
  lemma {:induction false} FailingFormula(q: Query, e: Expr, budget: nat, bad: string, kinds: Kinds, domains: Domains,
                                          kind: ExprKind)
    requires NodeCheck(e, kinds, domains) == None && KindOf(e, kinds) == Some(kind)
    requires forall ref :: ref in Refs(e) && ref in kinds ==>
               Sound(MeaningOfStat(q, ref, budget), DeclKind(kinds[ref]), domains)
    requires bad in Refs(e) && MeaningOfStat(q, bad, budget) == DivisionByZero
    ensures MeaningOfExpr(q, e, budget) == DivisionByZero
    decreases e
  {
    if e.Binary? {
      ExprIsSound(q, e.left, budget, kind, kinds, domains);
      if bad in Refs(e.left) {
        FailingFormula(q, e.left, budget, bad, kinds, domains, kind);
      } else {
        FailingFormula(q, e.right, budget, bad, kinds, domains, kind);
      }
    }
  }

  lemma FormulaResolves(q: Query, name: string, e: Expr, resolved: map<string, Value>)
    requires FormulaOf(q, name, e) && Traced(q, resolved) && forall ref :: ref in Refs(e) ==> ref in resolved
    ensures Modified(q, name, EvalExpr(e, resolved)) == Meaning(q, name)
  {
    hide Ready, StatIndex, DependencyGraph, StatAgrees;
    RefsHaveMeaning(q, name, e);
    forall ref | ref in Refs(e) ensures MeaningOfStat(q, ref, MAX_DERIVED_DEPTH - 1) == Yields(resolved[ref]) {
      AgreesMeans(q, ref, MAX_DERIVED_DEPTH - 1, MAX_DERIVED_DEPTH);
    }
    ResolvedFormula(q, e, resolved, MAX_DERIVED_DEPTH - 1);
  }

  lemma AgreesMeans(q: Query, name: string, b: nat, c: nat)
    requires StatAgrees(q, name, b, c)
    ensures MeaningOfStat(q, name, b) == MeaningOfStat(q, name, c)
  {
  }

  lemma FormulaFails(q: Query, name: string, e: Expr, bad: string)
    requires FormulaOf(q, name, e) && bad in Refs(e) && Meaning(q, bad) == DivisionByZero
    ensures Meaning(q, name) == DivisionByZero
  {
    hide StatIndex, DependencyGraph, DomainTable, DerivedLawful, StatAgrees, StatSound, ChainsFrom;
    var i, kinds, domains := StatIndex(q.stats)[name], KindTable(q.stats), DomainTable(q.stats);
    var below := MAX_DERIVED_DEPTH - 1;
    FormulaIsLawful(q.stats, i, e);
    ChainsBoundEveryStat(q.stats, i);
    FormulaWithin(q, i, MAX_DERIVED_DEPTH);
    forall ref | ref in Refs(e) && ref in kinds
      ensures Sound(MeaningOfStat(q, ref, below), DeclKind(kinds[ref]), domains)
    {
      StatIsSound(q, ref, below);
      SoundMeans(q, ref, below);
    }
    RefsHaveMeaning(q, name, e);
    AgreesMeans(q, bad, below, MAX_DERIVED_DEPTH);
    FailingFormula(q, e, below, bad, kinds, domains, DeclKind(q.stats[i].kind));
  }

  lemma SoundMeans(q: Query, name: string, budget: nat)
    requires name in StatIndex(q.stats) && StatSound(q, name, budget)
    ensures Sound(MeaningOfStat(q, name, budget), DeclKind(KindTable(q.stats)[name]), DomainTable(q.stats))
  {
  }

  /** One query's memo. Traces hold only finished stats, so they never change an answer. */
  class StatQuery {
    const q: Query
    var traces: map<string, Value>

    constructor (query: Query)
      requires Ready(query)
      ensures Valid() && q == query && traces == map[]
    {
      q := query;
      traces := map[];
    }

    ghost predicate Valid()
      reads this
    {
      Ready(q) && Traced(q, traces)
    }

    /** Returns the meaning of any name, evaluating every stat at most once and keeping what was
        traced before. `budget` bounds the chains still to be followed. */
    method EvalStat(name: string, ghost budget: nat) returns (r: Outcome)
      requires Valid()
      requires name in StatIndex(q.stats) ==> ChainsFrom(DependencyGraph(q.stats), StatIndex(q.stats)[name], budget)
      modifies this`traces
      ensures Valid() && r == Meaning(q, name)
      ensures forall n :: n in old(traces) ==> n in traces && traces[n] == old(traces)[n]
      ensures r.Yields? ==> name in traces
      decreases budget
    {
      hide Ready, StatIndex, DependencyGraph, ChainsFrom, EvalExpr;
      if name in traces {
        return Yields(traces[name]);
      }
      var index := StatIndex(q.stats);
      if name !in index {
        return UnknownStat;
      }
      var plain: Outcome;
      match q.stats[index[name]].derived {
        case Some(e) =>
          var resolved, failed := ResolveRefs(name, e, budget);
          if failed.Some? {
            return failed.value;
          }
          FormulaResolves(q, name, e, resolved);
          plain := EvalExpr(e, resolved);
        case None =>
          plain := if name in q.base then Yields(q.base[name]) else MissingBase;
      }
      r := if plain.Yields? then Yields(q.modifiers(name, plain.value)) else plain;
      if r.Yields? {
        traces := traces[name := r.value];
      }
    }

    /** Evaluates the stats a formula references, one after the other, until one fails. */
    method ResolveRefs(name: string, e: Expr, ghost budget: nat)
      returns (resolved: map<string, Value>, failed: Option<Outcome>)
      requires Valid() && FormulaOf(q, name, e)
      requires ChainsFrom(DependencyGraph(q.stats), StatIndex(q.stats)[name], budget)
      modifies this`traces
      ensures Valid()
      ensures forall n :: n in old(traces) ==> n in traces && traces[n] == old(traces)[n]
      ensures failed.None? ==> Traced(q, resolved) && forall ref :: ref in Refs(e) ==> ref in resolved
      ensures failed.Some? ==> failed.value == Meaning(q, name) && !failed.value.Yields?
      decreases budget, 0
    {
      hide Ready, StatIndex, DependencyGraph, ChainsFrom, Meaning;
      resolved := map[];
      var pending := set ref | ref in Refs(e);
      FormulaWithin(q, StatIndex(q.stats)[name], budget);
      RefsAreDeclared(q, name, e);
      while pending != {}
        invariant Valid() && Traced(q, resolved)
        invariant forall n :: n in old(traces) ==> n in traces && traces[n] == old(traces)[n]
        invariant forall ref :: ref in Refs(e) ==> ref in pending || ref in resolved
        invariant forall ref :: ref in pending ==> ref in Refs(e)
      {
        var ref :| ref in pending;
        pending := pending - {ref};
        var value := EvalStat(ref, budget - 1);
        if !value.Yields? {
          RefIsSound(q, ref);
          FormulaFails(q, name, e, ref);
          return resolved, Some(value);
        }
        resolved := resolved[ref := value.value];
      }
      failed := None;
    }
  }
}
