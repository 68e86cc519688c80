/** The typed-stat and derived-expression rules of one ruleset. */
module Rulesets {
  import opened DerivedGraph
  import opened Expressions
  import opened Graphs
  import opened Options
  import opened Texts

  const MAX_ENUM_VARIANTS: nat := 1024
  const MAX_TOTAL_EXPR_NODES: nat := 65_536

  datatype Initiative = Initiative(dice: string, bonusStats: seq<string>)

  datatype Ruleset = Ruleset(stats: seq<StatDecl>, healthStat: string, attributes: seq<string>,
                             initiative: Option<Initiative>)

  datatype Defect =
    | EmptyEnumId | VariantCount | VariantNames
    | DomainMismatch
    | HealthStat
    | Attributes
    | ExprShape
    | TotalNodes
    | BadNode(node: NodeDefect)
    | DerivedCycle | DerivedChain
    | KindMismatch
    | InitiativeDice | InitiativeBonus

  // --- The rules -----------------------------------------------------------------------

  function Variants(kind: StatKind): set<string>
    requires kind.EnumStat?
  {
    set v | v in kind.variants
  }

  function EnumDefect(kind: StatKind): Option<Defect> {
    if !kind.EnumStat? then None
    else if kind.enumId == "" then Some(EmptyEnumId)
    else if |kind.variants| == 0 || |kind.variants| > MAX_ENUM_VARIANTS then Some(VariantCount)
    else if !DistinctNonempty(kind.variants) then Some(VariantNames)
    else None
  }

  /** Enum stats that share a domain identifier declare the same variants. */
  ghost predicate DomainsAgree(stats: seq<StatDecl>) {
    forall i, j :: 0 <= i < |stats| && 0 <= j < |stats| && stats[i].kind.EnumStat? && stats[j].kind.EnumStat?
                   && stats[i].kind.enumId == stats[j].kind.enumId
                   ==> Variants(stats[i].kind) == Variants(stats[j].kind)
  }

  predicate FirstOfDomain(stats: seq<StatDecl>, i: nat) {
    && i < |stats| && stats[i].kind.EnumStat?
    && forall j :: 0 <= j < i && stats[j].kind.EnumStat? ==> stats[j].kind.enumId != stats[i].kind.enumId
  }

  ghost function DomainIndex(stats: seq<StatDecl>): (index: map<string, nat>)
    ensures forall id :: id in index ==> FirstOfDomain(stats, index[id]) && stats[index[id]].kind.enumId == id
    ensures forall i :: 0 <= i < |stats| && FirstOfDomain(stats, i) ==> stats[i].kind.enumId in index
  {
    map i: nat | i < |stats| && FirstOfDomain(stats, i) :: stats[i].kind.enumId := i
  }

  /** Domain identifier to variants, as first declared. */
  ghost function DomainTable(stats: seq<StatDecl>): Domains {
    var index := DomainIndex(stats);
    map id | id in index :: Variants(stats[index[id]].kind)
  }

  function KindTable(stats: seq<StatDecl>): Kinds {
    var index := StatIndex(stats);
    map name | name in index :: stats[index[name]].kind
  }

  predicate NamesInt(kinds: Kinds, name: string) {
    name in kinds && kinds[name] == IntStat
  }

  /** The first declaration of the health stat is a base integer stat. */
  ghost predicate HealthIsBaseInt(rs: Ruleset) {
    exists i :: 0 <= i < |rs.stats| && rs.stats[i].name == rs.healthStat
                && rs.stats[i].kind == IntStat && rs.stats[i].derived == None
                && forall j :: 0 <= j < i ==> rs.stats[j].name != rs.healthStat
  }

  ghost predicate AttributesAreInt(rs: Ruleset) {
    forall k :: 0 <= k < |rs.attributes| ==> NamesInt(KindTable(rs.stats), rs.attributes[k])
  }

  predicate Bounded(derived: Option<Expr>) {
    derived.Some? ==> Size(derived.value) <= MAX_EXPR_NODES && Height(derived.value) <= MAX_EXPR_DEPTH
  }

  ghost predicate ShapesBounded(stats: seq<StatDecl>) {
    forall i :: 0 <= i < |stats| ==> Bounded(stats[i].derived)
  }

  ghost function TotalSize(stats: seq<StatDecl>): nat {
    if stats == [] then 0
    else
      var n := |stats| - 1;
      TotalSize(stats[..n]) + if stats[n].derived.Some? then Size(stats[n].derived.value) else 0
  }

  function FormulaDefect(stat: StatDecl, kinds: Kinds, domains: Domains): Option<NodeDefect> {
    if stat.derived.None? then None else NodeCheck(stat.derived.value, kinds, domains)
  }

  predicate KindFits(stat: StatDecl, kinds: Kinds) {
    stat.derived.Some? ==> KindOf(stat.derived.value, kinds) == Some(DeclKind(stat.kind))
  }

  /** The leaves of the formula all have the declared kind of the stat, and operators are numeric. */
  ghost predicate KindsFit(stats: seq<StatDecl>) {
    forall i :: 0 <= i < |stats| && stats[i].derived.Some? ==>
      HasUniformKind(stats[i].derived.value, KindTable(stats), DeclKind(stats[i].kind))
  }

  predicate BonusStatsFit(rs: Ruleset, names: seq<string>) {
    && (forall k :: 0 <= k < |names| ==> names[k] != rs.healthStat && NamesInt(KindTable(rs.stats), names[k]))
    && (forall i, j :: 0 <= i < j < |names| ==> names[i] != names[j])
  }

  predicate DiceLengthFits(dice: string) {
    1 <= Utf8Len(dice) <= MAX_DICE_INPUT_BYTES
  }

  /** Every literal is within its bounds and every reference names a declared stat. */
  ghost predicate FormulasClean(stats: seq<StatDecl>) {
    forall i :: 0 <= i < |stats| && stats[i].derived.Some? ==>
      LeavesLegal(stats[i].derived.value, KindTable(stats), DomainTable(stats))
  }

  /** An enum stat names its domain and has between 1 and 1024 different nonempty variants. */
  ghost predicate EnumLegal(kind: StatKind) {
    kind.EnumStat? ==>
      kind.enumId != "" && 1 <= |kind.variants| <= MAX_ENUM_VARIANTS && DistinctNonempty(kind.variants)
  }

  ghost predicate EnumsLegal(stats: seq<StatDecl>) {
    forall i :: 0 <= i < |stats| ==> EnumLegal(stats[i].kind)
  }

  ghost predicate DeclarationsLawful(rs: Ruleset) {
    && EnumsLegal(rs.stats)
    && DomainsAgree(rs.stats)
    && HealthIsBaseInt(rs)
    && AttributesAreInt(rs)
  }

  ghost predicate DerivedLawful(stats: seq<StatDecl>) {
    && ShapesBounded(stats) && TotalSize(stats) <= MAX_TOTAL_EXPR_NODES
    && FormulasClean(stats)
    && ChainsWithin(DependencyGraph(stats), MAX_DERIVED_DEPTH)
    && KindsFit(stats)
  }

  /** All the rules at once. */
  ghost predicate Lawful(rs: Ruleset) {
    && DeclarationsLawful(rs)
    && DerivedLawful(rs.stats)
    && (rs.initiative.Some? ==>
          DiceLengthFits(rs.initiative.value.dice) && BonusStatsFit(rs, rs.initiative.value.bonusStats))
  }

  // --- The first broken rule -----------------------------------------------------------

  ghost function FirstEnumDefect(stats: seq<StatDecl>): Option<Defect> {
    if stats == [] then None
    else if EnumDefect(stats[0].kind).Some? then EnumDefect(stats[0].kind)
    else FirstEnumDefect(stats[1..])
  }

  ghost function FirstFormulaDefect(stats: seq<StatDecl>, kinds: Kinds, domains: Domains): Option<Defect> {
    if stats == [] then None
    else
      match FormulaDefect(stats[0], kinds, domains)
      case Some(defect) => Some(BadNode(defect))
      case None => FirstFormulaDefect(stats[1..], kinds, domains)
  }

  ghost function DeclarationDefect(rs: Ruleset): Option<Defect> {
    if FirstEnumDefect(rs.stats).Some? then FirstEnumDefect(rs.stats)
    else if !DomainsAgree(rs.stats) then Some(DomainMismatch)
    else if !HealthIsBaseInt(rs) then Some(HealthStat)
    else if !AttributesAreInt(rs) then Some(Attributes)
    else None
  }

  ghost function DerivedDefect(stats: seq<StatDecl>): Option<Defect> {
    var formula := FirstFormulaDefect(stats, KindTable(stats), DomainTable(stats));
    if !ShapesBounded(stats) then Some(ExprShape)
    else if TotalSize(stats) > MAX_TOTAL_EXPR_NODES then Some(TotalNodes)
    else if formula.Some? then formula
    else if Cyclic(DependencyGraph(stats)) then Some(DerivedCycle)
    else if !ChainsWithin(DependencyGraph(stats), MAX_DERIVED_DEPTH) then Some(DerivedChain)
    else if !KindsFit(stats) then Some(KindMismatch)
    else None
  }

  function InitiativeDefect(rs: Ruleset): Option<Defect> {
    if rs.initiative.None? then None
    else if !DiceLengthFits(rs.initiative.value.dice) then Some(InitiativeDice)
    else if !BonusStatsFit(rs, rs.initiative.value.bonusStats) then Some(InitiativeBonus)
    else None
  }

  /** The defect of the earliest broken rule, in the order the rules are applied. */
  ghost function FirstDefect(rs: Ruleset): Option<Defect> {
    if DeclarationDefect(rs).Some? then DeclarationDefect(rs)
    else if DerivedDefect(rs.stats).Some? then DerivedDefect(rs.stats)
    else InitiativeDefect(rs)
  }

  lemma {:induction false} NoEnumDefect(stats: seq<StatDecl>)
    ensures FirstEnumDefect(stats) == None <==> EnumsLegal(stats)
  {
    if stats != [] {
      NoEnumDefect(stats[1..]);
      assert EnumDefect(stats[0].kind) == None <==> EnumLegal(stats[0].kind);
      hide EnumDefect, EnumLegal;
      assert forall i :: 0 < i < |stats| ==> stats[i] == stats[1..][i - 1];
      assert forall i :: 0 <= i < |stats[1..]| ==> stats[1..][i] == stats[i + 1];
    }
  }

  lemma {:induction false} NoFormulaDefect(stats: seq<StatDecl>, kinds: Kinds, domains: Domains)
    ensures FirstFormulaDefect(stats, kinds, domains) == None <==>
            forall i :: 0 <= i < |stats| ==> FormulaDefect(stats[i], kinds, domains) == None
  {
    if stats != [] {
      NoFormulaDefect(stats[1..], kinds, domains);
      assert forall i :: 0 < i < |stats| ==> stats[i] == stats[1..][i - 1];
    }
  }

  lemma CleanIffLeaves(stats: seq<StatDecl>)
    ensures FirstFormulaDefect(stats, KindTable(stats), DomainTable(stats)) == None <==> FormulasClean(stats)
  {
    hide KindTable, DomainTable, NodeCheck, LeavesLegal;
    var kinds, domains := KindTable(stats), DomainTable(stats);
    NoFormulaDefect(stats, kinds, domains);
    forall i | 0 <= i < |stats| && stats[i].derived.Some?
      ensures FormulaDefect(stats[i], kinds, domains) == None <==> LeavesLegal(stats[i].derived.value, kinds, domains)
    {
      CheckIffLeaves(stats[i].derived.value, kinds, domains);
    }
  }

  lemma KindsFitIff(stats: seq<StatDecl>)
    ensures (forall i :: 0 <= i < |stats| ==> KindFits(stats[i], KindTable(stats))) <==> KindsFit(stats)
  {
    hide KindTable, HasUniformKind, KindOf;
    forall i | 0 <= i < |stats| && stats[i].derived.Some?
      ensures KindFits(stats[i], KindTable(stats)) <==>
              HasUniformKind(stats[i].derived.value, KindTable(stats), DeclKind(stats[i].kind))
    {
      KindIffLeaves(stats[i].derived.value, KindTable(stats), DeclKind(stats[i].kind));
    }
  }

  lemma NoDerivedDefect(stats: seq<StatDecl>)
    ensures DerivedDefect(stats) == None <==> DerivedLawful(stats)
  {
    hide KindTable, DomainTable, FormulasClean, KindsFit, ShapesBounded;
    CleanIffLeaves(stats);
    if Cyclic(DependencyGraph(stats)) {
      CyclicHasLongWalk(DependencyGraph(stats), MAX_DERIVED_DEPTH);
    }
  }

  /** No rule is broken first exactly when every rule holds. */
  lemma NoDefectMeansLawful(rs: Ruleset)
    ensures FirstDefect(rs) == None <==> Lawful(rs)
  {
    hide DerivedDefect, DerivedLawful, DomainsAgree;
    assert DeclarationDefect(rs) == None <==> DeclarationsLawful(rs) by {
      NoEnumDefect(rs.stats);
    }
    NoDerivedDefect(rs.stats);
  }

  lemma {:induction false} EnumDefectKinds(stats: seq<StatDecl>)
    ensures FirstEnumDefect(stats).Some? ==>
              FirstEnumDefect(stats).value in {EmptyEnumId, VariantCount, VariantNames}
  {
    if stats != [] {
      EnumDefectKinds(stats[1..]);
    }
  }

  lemma {:induction false} FormulaDefectKinds(stats: seq<StatDecl>, kinds: Kinds, domains: Domains)
    ensures FirstFormulaDefect(stats, kinds, domains).Some? ==> FirstFormulaDefect(stats, kinds, domains).value.BadNode?
  {
    if stats != [] {
      FormulaDefectKinds(stats[1..], kinds, domains);
    }
  }

  /** Each defect is reported exactly when its own rule is broken and every earlier rule holds. */
  lemma DeclarationDefectMeans(rs: Ruleset)
    ensures (FirstDefect(rs).Some? && FirstDefect(rs).value in {EmptyEnumId, VariantCount, VariantNames}) <==>
            !EnumsLegal(rs.stats)
    ensures FirstDefect(rs) == Some(DomainMismatch) <==> EnumsLegal(rs.stats) && !DomainsAgree(rs.stats)
    ensures FirstDefect(rs) == Some(HealthStat) <==>
            EnumsLegal(rs.stats) && DomainsAgree(rs.stats) && !HealthIsBaseInt(rs)
    ensures FirstDefect(rs) == Some(Attributes) <==>
            EnumsLegal(rs.stats) && DomainsAgree(rs.stats) && HealthIsBaseInt(rs) && !AttributesAreInt(rs)
  {
    hide EnumsLegal, DomainsAgree, HealthIsBaseInt, AttributesAreInt, KindTable, DomainTable, ShapesBounded, KindsFit;
    NoEnumDefect(rs.stats);
    EnumDefectKinds(rs.stats);
    FormulaDefectKinds(rs.stats, KindTable(rs.stats), DomainTable(rs.stats));
  }

  ghost predicate SizesFit(stats: seq<StatDecl>) {
    ShapesBounded(stats) && TotalSize(stats) <= MAX_TOTAL_EXPR_NODES
  }

  lemma FormulaDefectMeans(rs: Ruleset)
    requires DeclarationsLawful(rs)
    ensures FirstDefect(rs) == Some(ExprShape) <==> !ShapesBounded(rs.stats)
    ensures FirstDefect(rs) == Some(TotalNodes) <==> ShapesBounded(rs.stats) && !SizesFit(rs.stats)
    ensures (FirstDefect(rs).Some? && FirstDefect(rs).value.BadNode?) <==>
            SizesFit(rs.stats) && !FormulasClean(rs.stats)
    ensures FirstDefect(rs) == Some(DerivedCycle) <==>
            SizesFit(rs.stats) && FormulasClean(rs.stats) && Cyclic(DependencyGraph(rs.stats))
    ensures FirstDefect(rs) == Some(DerivedChain) <==>
            SizesFit(rs.stats) && FormulasClean(rs.stats) && !Cyclic(DependencyGraph(rs.stats))
            && !ChainsWithin(DependencyGraph(rs.stats), MAX_DERIVED_DEPTH)
    ensures FirstDefect(rs) == Some(KindMismatch) <==>
            SizesFit(rs.stats) && FormulasClean(rs.stats)
            && ChainsWithin(DependencyGraph(rs.stats), MAX_DERIVED_DEPTH) && !KindsFit(rs.stats)
  {
    assert DeclarationDefect(rs) == None by {
      NoEnumDefect(rs.stats);
    }
    if Cyclic(DependencyGraph(rs.stats)) {
      CyclicHasLongWalk(DependencyGraph(rs.stats), MAX_DERIVED_DEPTH);
    }
    CleanIffLeaves(rs.stats);
    hide DeclarationsLawful, DeclarationDefect, KindTable, DomainTable, ShapesBounded, KindsFit, FormulasClean;
    hide TotalSize, ChainsWithin, Cyclic, DependencyGraph;
    FormulaDefectKinds(rs.stats, KindTable(rs.stats), DomainTable(rs.stats));
  }

  lemma InitiativeDefectMeans(rs: Ruleset)
    requires DeclarationsLawful(rs) && DerivedLawful(rs.stats)
    ensures FirstDefect(rs) == Some(InitiativeDice) <==>
            rs.initiative.Some? && !DiceLengthFits(rs.initiative.value.dice)
    ensures FirstDefect(rs) == Some(InitiativeBonus) <==>
            rs.initiative.Some? && DiceLengthFits(rs.initiative.value.dice)
            && !BonusStatsFit(rs, rs.initiative.value.bonusStats)
  {
    assert DeclarationDefect(rs) == None by {
      NoEnumDefect(rs.stats);
    }
    NoDerivedDefect(rs.stats);
    hide DeclarationsLawful, DeclarationDefect, DerivedLawful, DerivedDefect, BonusStatsFit, DiceLengthFits;
  }

  // --- The check -----------------------------------------------------------------------

  method CheckEnums(stats: seq<StatDecl>) returns (defect: Option<Defect>)
    ensures defect == FirstEnumDefect(stats)
  {
    assert stats[0..] == stats;
    for i := 0 to |stats|
      invariant FirstEnumDefect(stats) == FirstEnumDefect(stats[i..])
    {
      defect := EnumDefect(stats[i].kind);
      assert stats[i..][0] == stats[i] && stats[i..][1..] == stats[i + 1..];
      if defect.Some? {
        return;
      }
    }
    defect := None;
  }

  ghost predicate Declares(stats: seq<StatDecl>, i: nat, id: string) {
    i < |stats| && stats[i].kind.EnumStat? && stats[i].kind.enumId == id
  }

  /** The table holds the domains of the first `k` stats and no others. */
  ghost predicate TableOf(table: Domains, stats: seq<StatDecl>, k: nat) {
    && k <= |stats|
    && (forall i :: 0 <= i < k && stats[i].kind.EnumStat? ==>
          stats[i].kind.enumId in table && table[stats[i].kind.enumId] == Variants(stats[i].kind))
    && (forall id :: id in table ==> exists i :: 0 <= i < k && Declares(stats, i, id))
  }

  lemma {:induction false} FirstDeclaration(stats: seq<StatDecl>, i: nat, id: string) returns (first: nat)
    requires Declares(stats, i, id)
    ensures first <= i && Declares(stats, first, id) && FirstOfDomain(stats, first)
    decreases i
  {
    if FirstOfDomain(stats, i) {
      first := i;
    } else {
      var j :| 0 <= j < i && stats[j].kind.EnumStat? && stats[j].kind.enumId == id;
      first := FirstDeclaration(stats, j, id);
    }
  }

  lemma TableMeansAgreement(table: Domains, stats: seq<StatDecl>)
    requires TableOf(table, stats, |stats|)
    ensures DomainsAgree(stats)
  {
  }

  lemma CompleteTable(table: Domains, stats: seq<StatDecl>)
    requires TableOf(table, stats, |stats|)
    ensures table == DomainTable(stats)
  {
    var index := DomainIndex(stats);
    forall id ensures id in table <==> id in index {
      if id in table {
        var i :| 0 <= i < |stats| && Declares(stats, i, id);
        var first := FirstDeclaration(stats, i, id);
      }
    }
  }

  /** Collects the domains in declaration order, stopping at the first disagreement. */
  method CollectDomains(stats: seq<StatDecl>) returns (domains: Option<Domains>)
    ensures domains.Some? <==> DomainsAgree(stats)
    ensures domains.Some? ==> domains.value == DomainTable(stats)
  {
    var table: Domains := map[];
    for i := 0 to |stats|
      invariant TableOf(table, stats, i)
    {
      var kind := stats[i].kind;
      if kind.EnumStat? {
        assert Declares(stats, i, kind.enumId);
        if kind.enumId in table {
          if table[kind.enumId] != Variants(kind) {
            return None;
          }
        } else {
          table := table[kind.enumId := Variants(kind)];
        }
      }
    }
    CompleteTable(table, stats);
    TableMeansAgreement(table, stats);
    return Some(table);
  }

  method CheckHealth(rs: Ruleset) returns (ok: bool)
    ensures ok <==> HealthIsBaseInt(rs)
  {
    for i := 0 to |rs.stats|
      invariant forall j :: 0 <= j < i ==> rs.stats[j].name != rs.healthStat
    {
      if rs.stats[i].name == rs.healthStat {
        return rs.stats[i].kind == IntStat && rs.stats[i].derived == None;
      }
    }
    return false;
  }

  /** Measures every formula, then bounds their sum. */
  method CheckShapes(stats: seq<StatDecl>) returns (defect: Option<Defect>)
    ensures defect == if !ShapesBounded(stats) then Some(ExprShape)
                      else if TotalSize(stats) > MAX_TOTAL_EXPR_NODES then Some(TotalNodes) else None
  {
    var total := 0;
    for i := 0 to |stats|
      invariant forall j :: 0 <= j < i ==> Bounded(stats[j].derived)
      invariant total == TotalSize(stats[..i])
    {
      if stats[i].derived.Some? {
        var nodes := ExprNodeCount(stats[i].derived.value);
        if nodes.None? {
          return Some(ExprShape);
        }
        total := total + nodes.value;
      }
      assert stats[..i + 1][..i] == stats[..i];
    }
    assert stats[..|stats|] == stats;
    return if total > MAX_TOTAL_EXPR_NODES then Some(TotalNodes) else None;
  }

  method CheckFormulas(stats: seq<StatDecl>, kinds: Kinds, domains: Domains) returns (defect: Option<Defect>)
    ensures defect == FirstFormulaDefect(stats, kinds, domains)
  {
    assert stats[0..] == stats;
    for i := 0 to |stats|
      invariant FirstFormulaDefect(stats, kinds, domains) == FirstFormulaDefect(stats[i..], kinds, domains)
    {
      var found := FormulaDefect(stats[i], kinds, domains);
      assert stats[i..][0] == stats[i] && stats[i..][1..] == stats[i + 1..];
      if found.Some? {
        return Some(BadNode(found.value));
      }
    }
    return None;
  }

  method CheckDeclarations(rs: Ruleset) returns (defect: Option<Defect>, domains: Domains)
    ensures defect == DeclarationDefect(rs)
    ensures defect == None ==> domains == DomainTable(rs.stats)
  {
    domains := map[];
    defect := CheckEnums(rs.stats);
    if defect.Some? {
      return;
    }
    var collected := CollectDomains(rs.stats);
    if collected.None? {
      return Some(DomainMismatch), domains;
    }
    domains := collected.value;
    var healthy := CheckHealth(rs);
    if !healthy {
      return Some(HealthStat), domains;
    }
    var kinds := KindTable(rs.stats);
    if !(forall k :: 0 <= k < |rs.attributes| ==> NamesInt(kinds, rs.attributes[k])) {
      return Some(Attributes), domains;
    }
  }

  method CheckDerived(stats: seq<StatDecl>, domains: Domains) returns (defect: Option<Defect>)
    requires domains == DomainTable(stats)
    ensures defect == DerivedDefect(stats)
  {
    var kinds := KindTable(stats);
    defect := CheckShapes(stats);
    if defect.Some? {
      return;
    }
    defect := CheckFormulas(stats, kinds, domains);
    if defect.Some? {
      return;
    }
    var verdict := ValidateDerivedGraph(stats);
    if verdict != Acceptable {
      return Some(if verdict == CycleFound then DerivedCycle else DerivedChain);
    }
    KindsFitIff(stats);
    if !(forall i :: 0 <= i < |stats| ==> KindFits(stats[i], kinds)) {
      return Some(KindMismatch);
    }
  }

  /** Reports the earliest broken rule, and nothing exactly when every rule holds. */
  method ValidateRulesetKernel(rs: Ruleset) returns (defect: Option<Defect>)
    ensures defect == FirstDefect(rs)
    ensures defect == None <==> Lawful(rs)
  {
    NoDefectMeansLawful(rs);
    var domains;
    defect, domains := CheckDeclarations(rs);
    if defect.Some? {
      return;
    }
    defect := CheckDerived(rs.stats, domains);
    if defect.Some? {
      return;
    }
    return InitiativeDefect(rs);
  }
}
