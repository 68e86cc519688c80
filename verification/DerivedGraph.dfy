/** The dependency graph of derived stats and its check: Kahn's algorithm with longest-chain
    depths, deciding cycles and over-long chains. */
module DerivedGraph {
  import opened Collections
  import opened Expressions
  import opened Graphs
  import opened Options

  const MAX_DERIVED_DEPTH: nat := 128

  predicate LastDeclared(stats: seq<StatDecl>, i: nat) {
    i < |stats| && forall j :: i < j < |stats| ==> stats[j].name != stats[i].name
  }

  /** Name to declaration index; a repeated name keeps its last declaration. */
  function StatIndex(stats: seq<StatDecl>): (index: map<string, nat>)
    ensures forall name :: name in index ==> LastDeclared(stats, index[name]) && stats[index[name]].name == name
  {
    map i: nat | i < |stats| && LastDeclared(stats, i) :: stats[i].name := i
  }

  /** A name stands for the last stat declared under it. */
  lemma IndexMeans(stats: seq<StatDecl>, name: string, i: nat)
    ensures (name in StatIndex(stats) && StatIndex(stats)[name] == i) <==>
            i < |stats| && stats[i].name == name && forall j :: i < j < |stats| ==> stats[j].name != name
  {
    if name in StatIndex(stats) && i < |stats| && stats[i].name == name {
      var k := StatIndex(stats)[name];
      assert LastDeclared(stats, k);
    }
    if LastDeclared(stats, i) {
      assert stats[i].name in StatIndex(stats);
    }
  }

  /** The stats whose values the formula of stat `i` reads. */
  function Dependencies(stats: seq<StatDecl>, i: nat): (deps: set<nat>)
    requires i < |stats|
    ensures forall d :: d in deps ==> d < |stats|
  {
    var index := StatIndex(stats);
    match stats[i].derived
    case None => {}
    case Some(expr) => set name | name in Refs(expr) && name in index :: index[name]
  }

  ghost function DependencyGraph(stats: seq<StatDecl>): (g: Graph<nat>)
    ensures Closed(g)
  {
    map i | 0 <= i < |stats| :: Dependencies(stats, i)
  }

  ghost predicate OverNodes(g: Graph<nat>, n: nat) {
    && Closed(g)
    && forall i :: i in g <==> 0 <= i < n
  }

  /** The list of stats that depend on `i`, each once. */
  ghost predicate DependentsOf(g: Graph<nat>, i: nat, list: seq<nat>) {
    Distinct(list) && forall x :: x in list <==> x in g && i in g[x]
  }

  ghost predicate DependenciesOf(g: Graph<nat>, i: nat, list: seq<nat>) {
    i in g && forall x :: x in list <==> x in g[i]
  }

  /** Adjacency lists that agree with the graph in both directions. */
  ghost predicate Adjacency(g: Graph<nat>, n: nat, dependents: seq<seq<nat>>, dependencies: seq<seq<nat>>) {
    && OverNodes(g, n)
    && |dependents| == |dependencies| == n
    && (forall i :: 0 <= i < n ==> DependentsOf(g, i, dependents[i]))
    && (forall i :: 0 <= i < n ==> DependenciesOf(g, i, dependencies[i]))
  }

  lemma AddEdge(g: Graph<nat>, n: nat, i: nat, dep: nat, dependents: seq<seq<nat>>, dependencies: seq<seq<nat>>)
    requires Adjacency(g, n, dependents, dependencies)
    requires i < n && dep < n && dep !in g[i]
    ensures Adjacency(g[i := g[i] + {dep}], n,
                      dependents[dep := dependents[dep] + [i]], dependencies[i := dependencies[i] + [dep]])
  {
  }

  /** The graph restricted to the formulas of the first `k` stats. */
  ghost function Partial(g: Graph<nat>, k: nat): Graph<nat> {
    map i | i in g :: if i < k then g[i] else {}
  }

  lemma PartialSteps(g: Graph<nat>, n: nat, k: nat)
    requires OverNodes(g, n)
    ensures OverNodes(Partial(g, k), n)
    ensures Adjacency(Partial(g, 0), n, seq(n, _ => []), seq(n, _ => []))
    ensures k < n ==> Partial(g, k)[k] == {} && Partial(g, k)[k := g[k]] == Partial(g, k + 1)
    ensures Partial(g, n) == g
  {
  }

  /** Records the edges of stat `i`, in whatever order its dependency set is iterated. */
  method LinkStat(ghost g: Graph<nat>, i: nat, deps: set<nat>, dependents: seq<seq<nat>>, dependencies: seq<seq<nat>>)
    returns (up: seq<seq<nat>>, down: seq<seq<nat>>)
    requires Adjacency(g, |dependents|, dependents, dependencies)
    requires i < |dependents| && g[i] == {} && forall d :: d in deps ==> d < |dependents|
    ensures Adjacency(g[i := deps], |dependents|, up, down)
  {
    var n := |dependents|;
    var todo := deps;
    ghost var h := g;
    up, down := dependents, dependencies;
    while todo != {}
      invariant todo <= deps && h.Keys == g.Keys
      invariant h[i] == deps - todo
      invariant forall j :: j in g && j != i ==> h[j] == g[j]
      invariant Adjacency(h, n, up, down)
    {
      var dep :| dep in todo;
      AddEdge(h, n, i, dep, up, down);
      up := up[dep := up[dep] + [i]];
      down := down[i := down[i] + [dep]];
      h := h[i := h[i] + {dep}];
      todo := todo - {dep};
      assert h[i] == deps - todo;
    }
    assert deps - todo == deps;
    assert h == g[i := deps];
  }

  method BuildAdjacency(stats: seq<StatDecl>)
    returns (pending: seq<nat>, dependents: seq<seq<nat>>, dependencies: seq<seq<nat>>)
    ensures Adjacency(DependencyGraph(stats), |stats|, dependents, dependencies)
    ensures |pending| == |stats| && forall i :: 0 <= i < |stats| ==> pending[i] == |Dependencies(stats, i)|
  {
    var n := |stats|;
    ghost var g := DependencyGraph(stats);
    pending := seq(n, _ => 0);
    dependents := seq(n, _ => []);
    dependencies := seq(n, _ => []);
    PartialSteps(g, n, 0);
    for i := 0 to n
      invariant |pending| == |dependents| == n
      invariant forall j :: 0 <= j < i ==> pending[j] == |Dependencies(stats, j)|
      invariant Adjacency(Partial(g, i), n, dependents, dependencies)
    {
      var deps := Dependencies(stats, i);
      pending := pending[i := |deps|];
      PartialSteps(g, n, i);
      dependents, dependencies := LinkStat(Partial(g, i), i, deps, dependents, dependencies);
    }
  }

  // --- Kahn's algorithm ----------------------------------------------------------------

  /** `pending[i]` counts the dependencies of `i` not yet processed, and `ready` lists exactly
      the unprocessed stats with none left. */
  ghost predicate Scheduled(g: Graph<nat>, n: nat, processed: set<nat>, pending: seq<nat>, ready: seq<nat>) {
    && OverNodes(g, n) && processed <= g.Keys && |pending| == n
    && (forall i :: 0 <= i < n ==> pending[i] == |g[i] - processed|)
    && Distinct(ready)
    && (forall i :: i in ready <==> 0 <= i < n && i !in processed && pending[i] == 0)
  }

  /** Each processed stat is one deeper than its deepest dependency. */
  ghost predicate DepthsAgree(g: Graph<nat>, processed: set<nat>, depth: seq<nat>) {
    && processed <= g.Keys
    && (forall i :: i in processed ==> i < |depth| && depth[i] >= 1)
    && (forall i, d {:trigger d in g[i]} :: i in processed && d in g[i] ==> d in processed && depth[d] < depth[i])
    && (forall i {:trigger OneBelow(g, processed, depth, i)} :: i in processed && depth[i] > 1 ==>
        OneBelow(g, processed, depth, i))
  }

  /** Some dependency of `i` is exactly one less deep. */
  ghost predicate OneBelow(g: Graph<nat>, processed: set<nat>, depth: seq<nat>, i: nat)
    requires i in g && i < |depth|
  {
    exists d :: d in g[i] * processed && d < |depth| && depth[i] == depth[d] + 1
  }

  /** The greatest depth among the listed stats, or zero for none. */
  function MaxDepth(list: seq<nat>, depth: seq<nat>): (m: nat)
    requires forall d :: d in list ==> d < |depth|
    ensures forall d :: d in list ==> depth[d] <= m
    ensures m == 0 || exists d :: d in list && depth[d] == m
  {
    if list == [] then 0
    else
      assert list[0] in list && forall d :: d in list[1..] ==> d in list;
      var rest := MaxDepth(list[1..], depth);
      assert list == [list[0]] + list[1..];
      if depth[list[0]] >= rest then depth[list[0]] else rest
  }

  /** The state while the dependents of the newest processed stat are being released: those in
      `waiting` still count it as unprocessed. */
  ghost predicate Releasing(g: Graph<nat>, n: nat, processed: set<nat>, waiting: seq<nat>, pending: seq<nat>,
                            ready: seq<nat>) {
    && OverNodes(g, n) && processed <= g.Keys && |pending| == n
    && Counted(g, n, processed, waiting, pending)
    && Listed(n, processed, pending, ready)
  }

  ghost predicate Counted(g: Graph<nat>, n: nat, processed: set<nat>, waiting: seq<nat>, pending: seq<nat>)
    requires OverNodes(g, n) && |pending| == n
  {
    forall x :: 0 <= x < n ==> pending[x] == |g[x] - processed| + if x in waiting then 1 else 0
  }

  /** `ready` lists each unprocessed stat with nothing pending once. */
  ghost predicate Listed(n: nat, processed: set<nat>, pending: seq<nat>, ready: seq<nat>)
    requires |pending| == n
  {
    && Distinct(ready)
    && forall x :: x in ready <==> 0 <= x < n && x !in processed && pending[x] == 0
  }

  ghost predicate NoneOf(list: seq<nat>, s: set<nat>) {
    forall x :: x in list ==> x !in s
  }

  /** The order of the ready stats does not matter. */
  lemma AnyIsLast(g: Graph<nat>, n: nat, processed: set<nat>, pending: seq<nat>, ready: seq<nat>, at: nat)
    requires Scheduled(g, n, processed, pending, ready) && at < |ready|
    ensures Scheduled(g, n, processed, pending, MovedLast(ready, at))
  {
    MovingKeepsElements(ready, at);
    hide MovedLast, Distinct;
  }

  lemma StartRelease(g: Graph<nat>, n: nat, processed: set<nat>, pending: seq<nat>, ready: seq<nat>, i: nat,
                     waiting: seq<nat>)
    requires Scheduled(g, n, processed, pending, ready + [i])
    requires DependentsOf(g, i, waiting)
    ensures Releasing(g, n, processed + {i}, waiting, pending, ready)
  {
    LastLeaves(ready, i);
    assert i in ready + [i];
    forall x | 0 <= x < n
      ensures pending[x] == |g[x] - (processed + {i})| + if x in waiting then 1 else 0
    {
      OneFewer(g[x], processed, i);
    }
  }

  lemma LastLeaves(s: seq<nat>, i: nat)
    requires Distinct(s + [i])
    ensures Distinct(s) && i !in s && forall x :: x in s + [i] <==> x in s || x == i
  {
    var t := s + [i];
    forall a, b | 0 <= a < b < |s| ensures s[a] != s[b] {
      assert t[a] != t[b];
    }
    forall a | 0 <= a < |s| ensures s[a] != i {
      assert t[a] != t[|s|];
    }
  }

  lemma OneFewer(deps: set<nat>, processed: set<nat>, i: nat)
    requires i !in processed
    ensures |deps - processed| == |deps - (processed + {i})| + if i in deps then 1 else 0
  {
    if i in deps {
      assert deps - processed == (deps - (processed + {i})) + {i};
    } else {
      assert deps - processed == deps - (processed + {i});
    }
  }

  lemma SuffixLosesHead(s: seq<nat>, k: nat)
    requires Distinct(s) && k < |s|
    ensures s[k] !in s[k + 1..] && forall x :: x in s[k..] <==> x == s[k] || x in s[k + 1..]
  {
  }

  lemma CountsAfter(g: Graph<nat>, n: nat, processed: set<nat>, waiting: seq<nat>, rest: seq<nat>,
                    pending: seq<nat>, next: nat, fewer: seq<nat>)
    requires OverNodes(g, n) && |pending| == n && next < n && next !in rest
    requires Counted(g, n, processed, waiting, pending)
    requires forall x :: x in waiting <==> x == next || x in rest
    requires pending[next] >= 1 && fewer == pending[next := pending[next] - 1]
    ensures Counted(g, n, processed, rest, fewer)
  {
    forall x | 0 <= x < n ensures fewer[x] == |g[x] - processed| + if x in rest then 1 else 0 {
      assert pending[x] == |g[x] - processed| + if x in waiting then 1 else 0;
    }
  }

  lemma ReadyAfter(n: nat, processed: set<nat>, pending: seq<nat>, ready: seq<nat>, next: nat, fewer: seq<nat>,
                   more: seq<nat>)
    requires |pending| == n && next < n && next !in processed && Listed(n, processed, pending, ready)
    requires pending[next] >= 1 && fewer == pending[next := pending[next] - 1]
    requires more == if fewer[next] == 0 then ready + [next] else ready
    ensures Listed(n, processed, fewer, more)
  {
    assert next !in ready;
    if fewer[next] == 0 {
      Appended(ready, next);
    }
    hide Distinct;
    forall x ensures x in more <==> 0 <= x < n && x !in processed && fewer[x] == 0 {
      assert x in ready <==> 0 <= x < n && x !in processed && pending[x] == 0;
    }
  }

  lemma ReleaseOne(g: Graph<nat>, n: nat, processed: set<nat>, waiting: seq<nat>, rest: seq<nat>,
                   pending: seq<nat>, ready: seq<nat>, next: nat, fewer: seq<nat>, more: seq<nat>)
    requires Releasing(g, n, processed, waiting, pending, ready)
    requires next < n && next !in processed && next !in rest && forall x :: x in waiting <==> x == next || x in rest
    requires pending[next] >= 1 && fewer == pending[next := pending[next] - 1]
    requires more == if fewer[next] == 0 then ready + [next] else ready
    ensures Releasing(g, n, processed, rest, fewer, more)
  {
    hide OverNodes, Counted, Listed;
    CountsAfter(g, n, processed, waiting, rest, pending, next, fewer);
    ReadyAfter(n, processed, pending, ready, next, fewer, more);
  }

  lemma Appended(s: seq<nat>, i: nat)
    requires Distinct(s) && i !in s
    ensures Distinct(s + [i]) && forall x :: x in s + [i] <==> x in s || x == i
  {
  }

  /** Tells every dependent of the stat popped from `ready0 + [i]` that it is done. */
  method Release(ghost g: Graph<nat>, n: nat, ghost processed: set<nat>, ghost i: nat, list: seq<nat>,
                 pending0: seq<nat>, ready0: seq<nat>)
    returns (pending: seq<nat>, ready: seq<nat>)
    requires Scheduled(g, n, processed, pending0, ready0 + [i])
    requires DependentsOf(g, i, list) && NoneOf(list, processed + {i})
    ensures Scheduled(g, n, processed + {i}, pending, ready)
  {
    pending, ready := pending0, ready0;
    StartRelease(g, n, processed, pending, ready, i, list);
    ghost var after := processed + {i};
    assert list[0..] == list;
    for k := 0 to |list|
      invariant Releasing(g, n, after, list[k..], pending, ready)
    {
      var next := list[k];
      assert next in list;
      SuffixLosesHead(list, k);
      ghost var pending1, ready1 := pending, ready;
      pending := pending[next := pending[next] - 1];
      if pending[next] == 0 {
        ready := ready + [next];
      }
      ReleaseOne(g, n, after, list[k..], list[k + 1..], pending1, ready1, next, pending, ready);
    }
  }

  /** Processes every stat whose dependencies can all be processed first, in any order, and
      leaves those that each depend on an unprocessed one. */
  method Kahn(ghost g: Graph<nat>, n: nat, pending0: seq<nat>, dependents: seq<seq<nat>>, dependencies: seq<seq<nat>>)
    returns (done: nat, depth: seq<nat>, ghost processed: set<nat>)
    requires Adjacency(g, n, dependents, dependencies)
    requires |pending0| == n && forall i :: 0 <= i < n ==> pending0[i] == |g[i]|
    ensures done == |processed| && |depth| == n && DepthsAgree(g, processed, depth)
    ensures forall i :: i in g && i !in processed ==> SucceedsWithin(g, i, g.Keys - processed)
  {
    var pending := pending0;
    var ready := ZeroPending(pending);
    depth := seq(n, _ => 1);
    done, processed := 0, {};
    NothingProcessed(g, n, pending, ready, depth);
    while ready != []
      invariant Scheduled(g, n, processed, pending, ready)
      invariant done == |processed| && |depth| == n && DepthsAgree(g, processed, depth)
      decreases g.Keys - processed
    {
      var at :| 0 <= at < |ready|;
      var i, others := ready[at], ready[..at] + ready[at + 1..];
      AnyIsLast(g, n, processed, pending, ready, at);
      ReadyIsReleased(g, n, processed, pending, ready, i);
      DependentsAreUnprocessed(g, processed, depth, i, dependents[i]);
      pending, ready := Release(g, n, processed, i, dependents[i], pending, others);
      ReadyReadsDepths(g, processed, depth, i, dependencies[i]);
      var deepest := MaxDepth(dependencies[i], depth);
      ReadyDepth(g, processed, depth, i, dependencies[i], deepest);
      depth := depth[i := 1 + deepest];
      done := done + 1;
      OneMore(processed, i);
      assert g.Keys - (processed + {i}) < g.Keys - processed by { assert i in g.Keys - processed; }
      processed := processed + {i};
    }
    StuckMeansBlocked(g, n, processed, pending);
  }

  lemma NothingProcessed(g: Graph<nat>, n: nat, pending: seq<nat>, ready: seq<nat>, depth: seq<nat>)
    requires OverNodes(g, n) && |pending| == |depth| == n && Distinct(ready)
    requires forall i :: 0 <= i < n ==> pending[i] == |g[i]|
    requires forall i :: i in ready <==> 0 <= i < n && pending[i] == 0
    ensures Scheduled(g, n, {}, pending, ready) && DepthsAgree(g, {}, depth)
  {
  }

  lemma StuckMeansBlocked(g: Graph<nat>, n: nat, processed: set<nat>, pending: seq<nat>)
    requires Scheduled(g, n, processed, pending, [])
    ensures forall i :: i in g && i !in processed ==> SucceedsWithin(g, i, g.Keys - processed)
  {
    forall i | i in g && i !in processed ensures SucceedsWithin(g, i, g.Keys - processed) {
      assert i !in [];
      assert |g[i] - processed| != 0;
      var d :| d in g[i] - processed;
      assert d in g[i] * (g.Keys - processed);
    }
  }

  method ZeroPending(pending: seq<nat>) returns (ready: seq<nat>)
    ensures Distinct(ready) && forall j :: j in ready <==> 0 <= j < |pending| && pending[j] == 0
  {
    ready := [];
    for i := 0 to |pending|
      invariant Distinct(ready) && forall j :: j in ready <==> 0 <= j < i && pending[j] == 0
    {
      if pending[i] == 0 {
        ready := ready + [i];
      }
    }
  }

  lemma ReadyIsReleased(g: Graph<nat>, n: nat, processed: set<nat>, pending: seq<nat>, ready: seq<nat>, i: nat)
    requires Scheduled(g, n, processed, pending, ready) && i in ready
    ensures i in g && i !in processed && g[i] <= processed
  {
    assert g[i] - processed == {};
    assert forall d :: d in g[i] ==> d in processed || d in g[i] - processed;
  }

  lemma DependentsAreUnprocessed(g: Graph<nat>, processed: set<nat>, depth: seq<nat>, i: nat, list: seq<nat>)
    requires DepthsAgree(g, processed, depth) && i in g && i !in processed && g[i] <= processed
    requires DependentsOf(g, i, list)
    ensures NoneOf(list, processed + {i})
  {
  }

  lemma ReadyReadsDepths(g: Graph<nat>, processed: set<nat>, depth: seq<nat>, i: nat, list: seq<nat>)
    requires DepthsAgree(g, processed, depth) && DependenciesOf(g, i, list) && g[i] <= processed
    ensures forall d :: d in list ==> d < |depth|
  {
  }

  lemma ReadyDepth(g: Graph<nat>, processed: set<nat>, depth: seq<nat>, i: nat, list: seq<nat>, deepest: nat)
    requires DepthsAgree(g, processed, depth) && DependenciesOf(g, i, list) && i < |depth|
    requires i !in processed && g[i] <= processed
    requires forall d :: d in list ==> d < |depth| && depth[d] <= deepest
    requires deepest == 0 || exists d :: d in list && depth[d] == deepest
    ensures DepthsAgree(g, processed + {i}, depth[i := 1 + deepest])
  {
    var after := depth[i := 1 + deepest];
    forall j | j in processed + {i} && after[j] > 1 ensures OneBelow(g, processed + {i}, after, j) {
      if j == i {
        var d :| d in list && depth[d] == deepest;
        assert d in g[j] * (processed + {i}) && after[d] == depth[d];
      } else {
        assert OneBelow(g, processed, depth, j);
        var d :| d in g[j] * processed && d < |depth| && depth[j] == depth[d] + 1;
        assert d in g[j] * (processed + {i}) && after[d] == depth[d];
      }
    }
  }

  // --- Verdict -------------------------------------------------------------------------

  datatype Verdict = Acceptable | CycleFound | ChainTooLong

  /** Every dependency chain, endpoints included, has at most `bound` stats. */
  ghost predicate ChainsWithin(g: Graph<nat>, bound: nat) {
    forall w :: Walk(g, w) ==> |w| <= bound
  }

  /** `length` is the number of stats on the longest chain that starts at `i`. */
  ghost predicate LongestChain(g: Graph<nat>, i: nat, length: nat) {
    && (exists w :: Walk(g, w) && w[0] == i && |w| == length)
    && (forall w :: Walk(g, w) && w[0] == i ==> |w| <= length)
  }

  lemma DepthIsLongestChain(g: Graph<nat>, processed: set<nat>, depth: seq<nat>, i: nat)
    requires DepthsAgree(g, processed, depth) && i in processed
    ensures LongestChain(g, i, depth[i])
  {
    var rank := map j | j in processed :: depth[j];
    forall w | Walk(g, w) && w[0] == i ensures |w| <= depth[i] {
      RankDropsAlongWalk(g, processed, rank, w);
    }
    var w := DeepestChain(g, processed, depth, i);
  }

  lemma {:induction false} DeepestChain(g: Graph<nat>, processed: set<nat>, depth: seq<nat>, i: nat)
    returns (w: seq<nat>)
    requires DepthsAgree(g, processed, depth) && i in processed
    ensures Walk(g, w) && w[0] == i && |w| == depth[i]
    decreases depth[i]
  {
    if depth[i] == 1 {
      w := [i];
    } else {
      assert OneBelow(g, processed, depth, i);
      var d :| d in g[i] * processed && d < |depth| && depth[i] == depth[d] + 1;
      var rest := DeepestChain(g, processed, depth, d);
      WalkPrepends(g, i, rest);
      w := [i] + rest;
    }
  }

  lemma {:induction false} CountOfNodes(n: nat, nodes: set<nat>)
    requires forall i :: i in nodes <==> 0 <= i < n
    ensures |nodes| == n
  {
    if n == 0 {
      assert nodes == {};
    } else {
      CountOfNodes(n - 1, nodes - {n - 1});
    }
  }

  lemma AllOrSome(g: Graph<nat>, n: nat, processed: set<nat>)
    requires OverNodes(g, n) && processed <= g.Keys
    ensures |processed| == n <==> processed == g.Keys
  {
    CountOfNodes(n, g.Keys);
    assert g.Keys == processed + (g.Keys - processed);
  }

  /** The algorithm processes every stat exactly when no chain returns to its start, and then
      the depth of each stat is its longest chain. */
  method ComputeDepths(stats: seq<StatDecl>) returns (done: nat, depth: seq<nat>)
    ensures |depth| == |stats|
    ensures done == |stats| <==> !Cyclic(DependencyGraph(stats))
    ensures done == |stats| ==> forall i :: 0 <= i < |stats| ==> LongestChain(DependencyGraph(stats), i, depth[i])
  {
    var n := |stats|;
    ghost var g := DependencyGraph(stats);
    var pending, dependents, dependencies := BuildAdjacency(stats);
    ghost var processed;
    done, depth, processed := Kahn(g, n, pending, dependents, dependencies);
    AllOrSome(g, n, processed);
    if done == n {
      AllProcessed(g, depth);
    } else {
      NoSinkForcesCycle(g, g.Keys - processed);
    }
  }

  lemma AllProcessed(g: Graph<nat>, depth: seq<nat>)
    requires DepthsAgree(g, g.Keys, depth)
    ensures !Cyclic(g) && forall i :: i in g ==> LongestChain(g, i, depth[i])
  {
    RankedIsAcyclic(g, map j | j in g :: depth[j]);
    forall i | i in g ensures LongestChain(g, i, depth[i]) {
      DepthIsLongestChain(g, g.Keys, depth, i);
    }
  }

  /** Accepts exactly the rulesets without a cyclic derived stat and without a chain of more
      than 128 stats, and tells the two failures apart. */
  method ValidateDerivedGraph(stats: seq<StatDecl>) returns (verdict: Verdict)
    ensures verdict == CycleFound <==> Cyclic(DependencyGraph(stats))
    ensures verdict == Acceptable <==> ChainsWithin(DependencyGraph(stats), MAX_DERIVED_DEPTH)
  {
    var done, depth := ComputeDepths(stats);
    ghost var g := DependencyGraph(stats);
    if done != |stats| {
      CyclicHasLongWalk(g, MAX_DERIVED_DEPTH);
      return CycleFound;
    }
    for i := 0 to |depth|
      invariant forall j :: 0 <= j < i ==> depth[j] <= MAX_DERIVED_DEPTH
    {
      if depth[i] > MAX_DERIVED_DEPTH {
        assert LongestChain(g, i, depth[i]);
        return ChainTooLong;
      }
    }
    forall w | Walk(g, w) ensures |w| <= MAX_DERIVED_DEPTH {
      assert LongestChain(g, w[0], depth[w[0]]);
    }
    return Acceptable;
  }
}
