/** The cycle check of the dependency lint: a three-colour depth-first search. */
module DependencyLint {
  import opened Collections
  import opened Graphs

  datatype Color = White | Gray | Black

  type Crate = string

  /** The graph behind neighbour lists, whatever order they are iterated in. */
  ghost function GraphOf(edges: map<Crate, seq<Crate>>): Graph<Crate> {
    map n | n in edges :: set m | m in edges[n]
  }

  /** A closed walk that visits no node twice on the way. */
  ghost predicate SimpleCycle(g: Graph<Crate>, v: seq<Crate>) {
    ClosedWalk(g, v) && Distinct(v[..|v| - 1])
  }

  /** The search path is a walk without repetition through exactly the gray nodes. */
  ghost predicate PathOk(g: Graph<Crate>, color: map<Crate, Color>, path: seq<Crate>) {
    && color.Keys == g.Keys
    && Distinct(path) && (path != [] ==> Walk(g, path))
    && forall n :: n in path <==> n in color && color[n] == Gray
  }

  ghost predicate AllCycles(g: Graph<Crate>, violations: seq<seq<Crate>>) {
    forall k :: 0 <= k < |violations| ==> SimpleCycle(g, violations[k])
  }

  /** The edge from `n` to `m` closes a reported cycle. */
  ghost predicate Closes(violations: seq<seq<Crate>>, n: Crate, m: Crate) {
    exists k :: 0 <= k < |violations| && ClosedBy(violations[k], n, m)
  }

  ghost predicate ClosedBy(v: seq<Crate>, n: Crate, m: Crate) {
    |v| >= 2 && v[|v| - 2] == n && v[|v| - 1] == m
  }

  /** Every successor of a finished node finished before it, or the edge to it closes a report. */
  ghost predicate Topological(g: Graph<Crate>, violations: seq<seq<Crate>>, finished: seq<Crate>) {
    forall k :: 0 <= k < |finished| ==> finished[k] in g && AllSeen(g, violations, finished[..k], finished[k])
  }

  ghost predicate AllSeen(g: Graph<Crate>, violations: seq<seq<Crate>>, earlier: seq<Crate>, n: Crate)
    requires n in g
  {
    forall m :: m in g[n] ==> m in earlier || Closes(violations, n, m)
  }

  /** The graph without the edges that close reported cycles. */
  ghost function Remaining(g: Graph<Crate>, violations: seq<seq<Crate>>): Graph<Crate> {
    map n | n in g :: set m | m in g[n] && !Closes(violations, n, m)
  }

  lemma ClosesStays(before: seq<seq<Crate>>, after: seq<seq<Crate>>, n: Crate, m: Crate)
    requires before <= after && Closes(before, n, m)
    ensures Closes(after, n, m)
  {
    var k :| 0 <= k < |before| && ClosedBy(before[k], n, m);
    assert after[k] == before[k];
  }

  lemma SeenStays(g: Graph<Crate>, before: seq<seq<Crate>>, after: seq<seq<Crate>>, earlier: seq<Crate>, n: Crate)
    requires before <= after && n in g && AllSeen(g, before, earlier, n)
    ensures AllSeen(g, after, earlier, n)
  {
    forall m | m in g[n] ensures m in earlier || Closes(after, n, m) {
      if m !in earlier {
        ClosesStays(before, after, n, m);
      }
    }
  }

  ghost predicate Consistent(g: Graph<Crate>, color: map<Crate, Color>, path: seq<Crate>, violations: seq<seq<Crate>>,
                             finished: seq<Crate>) {
    && PathOk(g, color, path)
    && AllCycles(g, violations)
    && (forall n :: n in finished <==> n in color && color[n] == Black)
    && Topological(g, violations, finished)
  }

  lemma GrayNeighbourClosesCycle(g: Graph<Crate>, path: seq<Crate>, k: nat, next: Crate)
    requires Walk(g, path) && Distinct(path) && k < |path| && path[k] == next && next in g[path[|path| - 1]]
    ensures SimpleCycle(g, path[k..] + [next])
  {
  }

  /** A finished list of all nodes leaves no cycle among the edges that close no report. */
  lemma FinishedAreAcyclic(g: Graph<Crate>, violations: seq<seq<Crate>>, finished: seq<Crate>)
    requires Topological(g, violations, finished) && forall n :: n in g ==> n in finished
    ensures !Cyclic(Remaining(g, violations))
  {
    hide Closes;
    var rest := Remaining(g, violations);
    var rank := map n | n in g :: FirstPosition(finished, n);
    forall n, m | n in rest && m in rest[n] ensures m in rest && rank[m] < rank[n] {
      var k := FirstPosition(finished, n);
      assert finished[k] == n && AllSeen(g, violations, finished[..k], n);
      assert m in finished[..k];
      FirstIsEarlier(finished, k, m);
      var j := FirstPosition(finished, m);
      assert finished[j] == m && finished[j] in g;
    }
    RankedIsAcyclic(rest, rank);
  }

  ghost function FirstPosition(s: seq<Crate>, n: Crate): (k: nat)
    requires n in s
    ensures k < |s| && s[k] == n && forall i :: 0 <= i < k ==> s[i] != n
  {
    if s[0] == n then 0 else 1 + FirstPosition(s[1..], n)
  }

  lemma FirstIsEarlier(s: seq<Crate>, k: nat, m: Crate)
    requires k <= |s| && m in s[..k]
    ensures m in s && FirstPosition(s, m) < k
  {
  }

  /** Every neighbour is itself a node. */
  ghost predicate ClosedEdges(edges: map<Crate, seq<Crate>>) {
    forall n, k :: n in edges && 0 <= k < |edges[n]| ==> edges[n][k] in edges
  }

  ghost function WhitesOf(color: map<Crate, Color>): set<Crate> {
    set n | n in color && color[n] == White
  }

  lemma Darkens(color: map<Crate, Color>, node: Crate, c: Color)
    requires c != White
    ensures WhitesOf(color[node := c]) == WhitesOf(color) - {node}
  {
  }

  class CycleCheck {
    const edges: map<Crate, seq<Crate>>
    var color: map<Crate, Color>
    var path: seq<Crate>
    var violations: seq<seq<Crate>>
    ghost var finished: seq<Crate>

    ghost predicate Valid()
      reads this
    {
      && ClosedEdges(edges)
      && color.Keys == edges.Keys
      && Consistent(GraphOf(edges), color, path, violations, finished)
    }

    ghost function Whites(): set<Crate>
      reads this
    {
      WhitesOf(color)
    }

    constructor (edges: map<Crate, seq<Crate>>)
      requires ClosedEdges(edges)
      ensures Valid() && this.edges == edges && path == [] && violations == []
      ensures forall n :: n in edges ==> color[n] == White
    {
      this.edges := edges;
      color := map n | n in edges :: White;
      path, violations, finished := [], [], [];
    }

    /** Nothing already known is lost: gray stays gray, black stays black, reports accumulate. */
    twostate predicate Extends()
      reads this
    {
      && color.Keys == old(color).Keys
      && (forall n :: n in old(color) && old(color)[n] != White ==> color[n] == old(color)[n])
      && old(violations) <= violations && old(finished) <= finished
    }

    /** Explores everything reachable from a white node, appending one report per back edge. */
    method Dfs(node: Crate)
      requires Valid() && node in edges && color[node] == White
      requires path != [] ==> node in GraphOf(edges)[path[|path| - 1]]
      modifies this
      ensures Valid() && path == old(path) && color[node] == Black
      ensures Extends() && Whites() <= old(Whites())
      decreases Whites(), 0
    {
      hide Consistent, GraphOf, Distinct, Closes, AllSeen, ClosedEdges;
      ghost var g := GraphOf(edges);
      EdgesOf(edges);
      Meaning(g, color, path, violations, finished, node);
      Enter(g, color, path, violations, finished, node);
      Darkens(color, node, Gray);
      assert node in WhitesOf(color);
      hide WhitesOf;
      color := color[node := Gray];
      path := path + [node];
      VisitNeighbours(node);
      Leave(g, color, old(path), violations, finished, node);
      Darkens(color, node, Black);
      path := path[..|path| - 1];
      color := color[node := Black];
      finished := finished + [node];
      assert path == old(path);
    }

    /** Follows every edge of the node on top of the path. */
    method VisitNeighbours(node: Crate)
      requires Valid() && node in edges && path != [] && path[|path| - 1] == node
      modifies this
      ensures Valid() && path == old(path)
      ensures Extends() && Whites() <= old(Whites())
      ensures node in GraphOf(edges) && AllSeen(GraphOf(edges), violations, finished, node)
      decreases Whites(), 1
    {
      hide Consistent, GraphOf, Distinct, Closes, AllSeen, WhitesOf;
      ghost var g := GraphOf(edges);
      EdgesOf(edges);
      for k := 0 to |edges[node]|
        invariant Valid() && path == old(path)
        invariant Extends() && Whites() <= old(Whites())
        invariant forall j :: 0 <= j < k ==> Seen(violations, finished, node, edges[node][j])
      {
        var next := edges[node][k];
        ghost var reports, done := violations, finished;
        Meaning(g, color, path, violations, finished, next);
        if color[next] == Gray {
          var at :| 0 <= at < |path| && path[at] == next;
          Report(g, color, path, violations, finished, at, next);
          ReportCloses(violations, path, at, next);
          violations := violations + [path[at..] + [next]];
        } else if color[next] == White {
          Dfs(next);
          Meaning(g, color, path, violations, finished, next);
        }
        assert Seen(violations, finished, node, next);
        forall j | 0 <= j < k ensures Seen(violations, finished, node, edges[node][j]) {
          StaysSeen(reports, violations, done, finished, node, edges[node][j]);
        }
      }
      AllAreSeen(edges, node, violations, finished);
    }
  }

  ghost predicate Seen(violations: seq<seq<Crate>>, finished: seq<Crate>, n: Crate, m: Crate) {
    m in finished || Closes(violations, n, m)
  }

  lemma StaysSeen(reports: seq<seq<Crate>>, violations: seq<seq<Crate>>, done: seq<Crate>, finished: seq<Crate>,
                  n: Crate, m: Crate)
    requires reports <= violations && done <= finished && Seen(reports, done, n, m)
    ensures Seen(violations, finished, n, m)
  {
    if m in done {
      var k :| 0 <= k < |done| && done[k] == m;
      assert finished[k] == m;
    } else {
      ClosesStays(reports, violations, n, m);
    }
  }

  lemma ReportCloses(violations: seq<seq<Crate>>, path: seq<Crate>, at: nat, next: Crate)
    requires at < |path|
    ensures Closes(violations + [path[at..] + [next]], path[|path| - 1], next)
  {
    var more := violations + [path[at..] + [next]];
    assert ClosedBy(more[|violations|], path[|path| - 1], next);
  }

  lemma AllAreSeen(edges: map<Crate, seq<Crate>>, node: Crate, violations: seq<seq<Crate>>, finished: seq<Crate>)
    requires node in edges && forall j :: 0 <= j < |edges[node]| ==> Seen(violations, finished, node, edges[node][j])
    ensures node in GraphOf(edges) && AllSeen(GraphOf(edges), violations, finished, node)
  {
    hide Closes;
  }

  lemma EdgesOf(edges: map<Crate, seq<Crate>>)
    ensures GraphOf(edges).Keys == edges.Keys
    ensures forall n, m :: n in edges ==> (m in GraphOf(edges)[n] <==> m in edges[n])
  {
  }

  /** Gray nodes are on the path and black nodes are finished. */
  lemma Meaning(g: Graph<Crate>, color: map<Crate, Color>, path: seq<Crate>, violations: seq<seq<Crate>>,
                finished: seq<Crate>, n: Crate)
    requires Consistent(g, color, path, violations, finished)
    ensures color.Keys == g.Keys
    ensures n in path <==> n in color && color[n] == Gray
    ensures n in finished <==> n in color && color[n] == Black
  {
  }

  lemma Report(g: Graph<Crate>, color: map<Crate, Color>, path: seq<Crate>, violations: seq<seq<Crate>>,
               finished: seq<Crate>, at: nat, next: Crate)
    requires Consistent(g, color, path, violations, finished)
    requires at < |path| && path[at] == next && path[|path| - 1] in g && next in g[path[|path| - 1]]
    ensures Consistent(g, color, path, violations + [path[at..] + [next]], finished)
  {
    hide AllSeen;
    var more := violations + [path[at..] + [next]];
    GrayNeighbourClosesCycle(g, path, at, next);
    forall k | 0 <= k < |finished| ensures finished[k] in g && AllSeen(g, more, finished[..k], finished[k]) {
      SeenStays(g, violations, more, finished[..k], finished[k]);
    }
  }

  lemma Enter(g: Graph<Crate>, color: map<Crate, Color>, path: seq<Crate>, violations: seq<seq<Crate>>,
              finished: seq<Crate>, node: Crate)
    requires Consistent(g, color, path, violations, finished) && node in g && color[node] == White
    requires path != [] ==> node in g[path[|path| - 1]]
    ensures Consistent(g, color[node := Gray], path + [node], violations, finished)
  {
  }

  lemma Leave(g: Graph<Crate>, color: map<Crate, Color>, path: seq<Crate>, violations: seq<seq<Crate>>,
              finished: seq<Crate>, node: Crate)
    requires Consistent(g, color, path + [node], violations, finished) && node in g
    requires AllSeen(g, violations, finished, node)
    ensures Consistent(g, color[node := Black], path, violations, finished + [node])
  {
    var longer := path + [node];
    assert Distinct(path) && node !in path by {
      forall i, j | 0 <= i < j < |path| ensures path[i] != path[j] {
        assert longer[i] != longer[j];
      }
      forall i | 0 <= i < |path| ensures path[i] != node {
        assert longer[i] != longer[|path|];
      }
    }
    if path != [] {
      forall k | 0 <= k < |path| - 1 ensures path[k + 1] in g[path[k]] {
        assert longer[k + 1] in g[longer[k]];
      }
    }
    var all := finished + [node];
    hide AllSeen;
    forall k | 0 <= k < |all| ensures all[k] in g && AllSeen(g, violations, all[..k], all[k]) {
      if k < |finished| {
        assert all[..k] == finished[..k];
      } else {
        assert all[..k] == finished;
      }
    }
  }

  /** Reports a violation exactly when the graph has a cycle. Every report is a closed walk along edges
      that repeats only its first node, and without the closing edges of the reports no cycle is left. */
  method CheckCycles(edges: map<Crate, seq<Crate>>) returns (violations: seq<seq<Crate>>)
    requires ClosedEdges(edges)
    ensures violations != [] <==> Cyclic(GraphOf(edges))
    ensures forall k :: 0 <= k < |violations| ==> SimpleCycle(GraphOf(edges), violations[k])
    ensures !Cyclic(Remaining(GraphOf(edges), violations))
  {
    hide Consistent, GraphOf, Closes, AllSeen, Remaining;
    var check := new CycleCheck(edges);
    var todo := edges.Keys;
    while todo != {}
      invariant check.Valid() && check.edges == edges && check.path == []
      invariant forall n :: n in edges ==> n in todo || check.color[n] == Black
    {
      var node :| node in todo;
      Meaning(GraphOf(edges), check.color, check.path, check.violations, check.finished, node);
      if check.color[node] == White {
        check.Dfs(node);
      }
      todo := todo - {node};
    }
    violations := check.violations;
    EdgesOf(edges);
    Verdict(GraphOf(edges), check.color, violations, check.finished);
  }

  lemma Verdict(g: Graph<Crate>, color: map<Crate, Color>, violations: seq<seq<Crate>>, finished: seq<Crate>)
    requires Consistent(g, color, [], violations, finished) && forall n :: n in g ==> n in color && color[n] == Black
    ensures violations != [] <==> Cyclic(g)
    ensures forall k :: 0 <= k < |violations| ==> SimpleCycle(g, violations[k])
    ensures !Cyclic(Remaining(g, violations))
  {
    FinishedAreAcyclic(g, violations, finished);
    if violations == [] {
      NothingRemoved(g);
    } else {
      assert SimpleCycle(g, violations[0]);
    }
  }

  lemma NothingRemoved(g: Graph<Crate>)
    ensures Remaining(g, []) == g
  {
    var rest := Remaining(g, []);
    forall n | n in g ensures rest[n] == g[n] {
      assert forall m :: m in rest[n] <==> m in g[n];
    }
  }
}
