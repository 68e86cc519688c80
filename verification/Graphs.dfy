/** Finite directed graphs, walks along their edges, and the two facts that decide
    cyclicity: a strictly decreasing rank rules cycles out, and a set of nodes that
    never runs out of successors forces one. */
module Graphs {

  type Graph<N> = map<N, set<N>>

  /** Every edge ends in a node of the graph. */
  ghost predicate Closed<N>(g: Graph<N>) {
    forall n, m {:trigger m in g[n]} :: n in g && m in g[n] ==> m in g
  }

  /** A nonempty sequence of nodes in which each one has an edge to the next. */
  ghost predicate Walk<N>(g: Graph<N>, w: seq<N>) {
    && |w| > 0
    && (forall k :: 0 <= k < |w| ==> w[k] in g)
    && (forall k :: 0 <= k < |w| - 1 ==> w[k + 1] in g[w[k]])
  }

  /** A walk along at least one edge that returns to its start. */
  ghost predicate ClosedWalk<N>(g: Graph<N>, w: seq<N>) {
    Walk(g, w) && |w| >= 2 && w[0] == w[|w| - 1]
  }

  ghost predicate Cyclic<N(!new)>(g: Graph<N>) {
    exists w :: ClosedWalk(g, w)
  }

  /** `s` is closed under edges and `rank` strictly decreases along every edge in it. */
  ghost predicate Ranked<N>(g: Graph<N>, s: set<N>, rank: map<N, nat>) {
    && s <= g.Keys && s <= rank.Keys
    && forall n, m {:trigger m in g[n]} :: n in s && m in g[n] ==> m in s && rank[m] < rank[n]
  }

  lemma {:induction false} RankDropsAlongWalk<N>(g: Graph<N>, s: set<N>, rank: map<N, nat>, w: seq<N>)
    requires Ranked(g, s, rank) && Walk(g, w) && w[0] in s
    ensures w[|w| - 1] in s
    ensures rank[w[|w| - 1]] + |w| - 1 <= rank[w[0]]
    decreases |w|
  {
    if |w| > 1 {
      var rest := w[1..];
      assert Walk(g, rest) by {
        forall k | 0 <= k < |rest| - 1 ensures rest[k + 1] in g[rest[k]] {
          assert w[k + 1 + 1] in g[w[k + 1]];
        }
      }
      assert w[0 + 1] in g[w[0]];
      RankDropsAlongWalk(g, s, rank, rest);
    }
  }

  lemma RankedIsAcyclic<N(!new)>(g: Graph<N>, rank: map<N, nat>)
    requires Ranked(g, g.Keys, rank)
    ensures !Cyclic(g)
  {
    forall w | ClosedWalk(g, w) ensures false {
      RankDropsAlongWalk(g, g.Keys, rank, w);
    }
  }

  lemma WalkExtends<N>(g: Graph<N>, w: seq<N>, n: N)
    requires Walk(g, w) && n in g && n in g[w[|w| - 1]]
    ensures Walk(g, w + [n])
  {
  }

  lemma WalkPrepends<N>(g: Graph<N>, n: N, w: seq<N>)
    requires Walk(g, w) && n in g && w[0] in g[n]
    ensures Walk(g, [n] + w)
  {
  }

  lemma WalkSuffix<N>(g: Graph<N>, w: seq<N>, k: nat)
    requires Walk(g, w) && k < |w|
    ensures Walk(g, w[k..])
  {
  }

  ghost predicate SucceedsWithin<N>(g: Graph<N>, n: N, u: set<N>) {
    n in g && g[n] * u != {}
  }

  /** A nonempty set in which every node has a successor inside the set holds a cycle. */
  lemma NoSinkForcesCycle<N(!new)>(g: Graph<N>, u: set<N>)
    requires u <= g.Keys && u != {}
    requires forall n :: n in u ==> SucceedsWithin(g, n, u)
    ensures Cyclic(g)
  {
    var n :| n in u;
    ProlongUntilRepeat(g, u, [n]);
  }

  lemma {:induction false} ProlongUntilRepeat<N(!new)>(g: Graph<N>, u: set<N>, path: seq<N>)
    requires u <= g.Keys
    requires forall n :: n in u ==> SucceedsWithin(g, n, u)
    requires Walk(g, path) && forall n :: n in path ==> n in u
    ensures Cyclic(g)
    decreases u - (set n | n in path)
  {
    var last := path[|path| - 1];
    assert SucceedsWithin(g, last, u);
    var next :| next in g[last] * u;
    WalkExtends(g, path, next);
    if next in path {
      var k :| 0 <= k < |path| && path[k] == next;
      WalkSuffix(g, path + [next], k);
      assert ClosedWalk(g, (path + [next])[k..]);
    } else {
      assert next in u - (set n | n in path);
      ProlongUntilRepeat(g, u, path + [next]);
    }
  }

  /** Going round a cycle often enough makes a walk of any length. */
  lemma CyclicHasLongWalk<N(!new)>(g: Graph<N>, bound: nat)
    requires Cyclic(g)
    ensures exists w :: Walk(g, w) && |w| > bound
  {
    var c :| ClosedWalk(g, c);
    var w := Unroll(g, c, bound);
  }

  lemma {:induction false} Unroll<N>(g: Graph<N>, c: seq<N>, bound: nat) returns (w: seq<N>)
    requires ClosedWalk(g, c)
    ensures Walk(g, w) && |w| > bound && w[0] == c[0]
    decreases bound
  {
    if bound == 0 {
      w := c;
    } else {
      var rest := Unroll(g, c, bound - 1);
      w := PrependLap(g, c[..|c| - 1], rest);
    }
  }

  lemma {:induction false} PrependLap<N>(g: Graph<N>, lap: seq<N>, rest: seq<N>) returns (w: seq<N>)
    requires Walk(g, lap) && Walk(g, rest) && rest[0] in g[lap[|lap| - 1]]
    ensures w == lap + rest && Walk(g, w)
  {
    w := lap + rest;
    forall k | 0 <= k < |w| - 1 ensures w[k + 1] in g[w[k]] {
      if k < |lap| - 1 {
        assert lap[k + 1] in g[lap[k]];
      } else if k > |lap| - 1 {
        var j := k - |lap|;
        assert rest[j + 1] in g[rest[j]];
      }
    }
  }
}
