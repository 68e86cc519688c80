/** The event queue: stamped pushes, sorted drains, validated loading. */
module EventQueues {
  import opened Options
  import opened Sorting

  const SEQ_MAX: nat := 0xFFFF_FFFF_FFFF_FFFF

  datatype Envelope<P> = Envelope(tick: nat, stamp: nat, payload: P)

  datatype State<P> = State(envelopes: seq<Envelope<P>>, next: nat)

  /** Ascending by tick, then by sequence number. */
  predicate Before<P>(a: Envelope<P>, b: Envelope<P>) {
    a.tick < b.tick || (a.tick == b.tick && a.stamp <= b.stamp)
  }

  ghost predicate StrictlyAscending<P>(s: seq<Envelope<P>>) {
    forall i, j :: 0 <= i < j < |s| ==> s[i].tick < s[j].tick || (s[i].tick == s[j].tick && s[i].stamp < s[j].stamp)
  }

  function Saturated(n: nat): nat {
    if n < SEQ_MAX then n + 1 else SEQ_MAX
  }

  function Push<P>(s: State<P>, tick: nat, payload: P): State<P> {
    State(s.envelopes + [Envelope(tick, s.next, payload)], Saturated(s.next))
  }

  function Batch<P>(s: State<P>): seq<Envelope<P>> {
    Sort(s.envelopes, Before)
  }

  function Drain<P>(s: State<P>): State<P> {
    State([], s.next)
  }

  // --- Loading -------------------------------------------------------------------------

  ghost predicate DistinctStamps<P>(envelopes: seq<Envelope<P>>) {
    forall i, j :: 0 <= i < j < |envelopes| ==> envelopes[i].stamp != envelopes[j].stamp
  }

  /** What the loader accepts. */
  ghost predicate Loads<P>(s: State<P>) {
    && DistinctStamps(s.envelopes)
    && (s.next == SEQ_MAX || forall i :: 0 <= i < |s.envelopes| ==> s.envelopes[i].stamp < s.next)
  }

  datatype LoadError = DuplicateStamp(stamp: nat) | NextTooLow(next: nat, highest: nat)

  /** Checks a stored queue: stamps must be unique and below the counter unless it is saturated. */
  method Load<P>(s: State<P>) returns (error: Option<LoadError>)
    ensures error.None? <==> Loads(s)
    ensures error.Some? && error.value.DuplicateStamp? ==> exists i, j ::
              0 <= i < j < |s.envelopes| && s.envelopes[i].stamp == s.envelopes[j].stamp == error.value.stamp
              && DistinctStamps(s.envelopes[..j])
    ensures error.Some? && error.value.NextTooLow? ==>
              DistinctStamps(s.envelopes) && error.value.next == s.next <= error.value.highest
              && (exists i :: 0 <= i < |s.envelopes| && s.envelopes[i].stamp == error.value.highest)
              && (forall i :: 0 <= i < |s.envelopes| ==> s.envelopes[i].stamp <= error.value.highest)
  {
    var seen: set<nat> := {};
    var max: Option<nat> := None;
    for k := 0 to |s.envelopes|
      invariant DistinctStamps(s.envelopes[..k])
      invariant forall n :: n in seen <==> exists i :: 0 <= i < k && s.envelopes[i].stamp == n
      invariant max.None? <==> k == 0
      invariant max.Some? ==> max.value in seen && forall i :: 0 <= i < k ==> s.envelopes[i].stamp <= max.value
    {
      var stamp := s.envelopes[k].stamp;
      if stamp in seen {
        ghost var i :| 0 <= i < k && s.envelopes[i].stamp == stamp;
        return Some(DuplicateStamp(stamp));
      }
      assert s.envelopes[..k + 1] == s.envelopes[..k] + [s.envelopes[k]];
      seen := seen + {stamp};
      max := Some(if max.Some? && max.value >= stamp then max.value else stamp);
    }
    assert s.envelopes[..|s.envelopes|] == s.envelopes;
    if max.Some? && s.next != SEQ_MAX && s.next <= max.value {
      return Some(NextTooLow(s.next, max.value));
    }
    return None;
  }

  // --- Runs ----------------------------------------------------------------------------

  datatype Op<P> = DoPush(tick: nat, payload: P) | DoDrain | DoReload

  function Step<P>(s: State<P>, op: Op<P>): State<P> {
    match op
    case DoPush(tick, payload) => Push(s, tick, payload)
    case DoDrain => Drain(s)
    case DoReload => s
  }

  function Run<P>(s: State<P>, ops: seq<Op<P>>): State<P>
    decreases |ops|
  {
    if ops == [] then s else Run(Step(s, ops[0]), ops[1..])
  }

  /** The envelopes one step hands out, and the ones it pushes. */
  function Out<P>(s: State<P>, op: Op<P>): seq<Envelope<P>> {
    if op.DoDrain? then Batch(s) else []
  }

  function In<P>(next: nat, op: Op<P>): seq<Envelope<P>> {
    if op.DoPush? then [Envelope(op.tick, next, op.payload)] else []
  }

  /** Every envelope handed out by the drains of a run, batch after batch. */
  ghost function Drained<P>(s: State<P>, ops: seq<Op<P>>): seq<Envelope<P>>
    decreases |ops|
  {
    if ops == [] then [] else Out(s, ops[0]) + Drained(Step(s, ops[0]), ops[1..])
  }

  /** The envelopes a run pushes when its counter starts at `next`. */
  ghost function Pushed<P>(next: nat, ops: seq<Op<P>>): seq<Envelope<P>>
    decreases |ops|
  {
    if ops == [] then [] else In(next, ops[0]) + Pushed(if ops[0].DoPush? then Saturated(next) else next, ops[1..])
  }

  lemma BeforeIsTotal<P(!new)>()
    ensures TotalPreorder<Envelope<P>>(Before)
  {
  }

  lemma StepConserves<P(!new)>(s: State<P>, op: Op<P>)
    ensures multiset(Out(s, op)) + multiset(Step(s, op).envelopes) == multiset(s.envelopes) + multiset(In(s.next, op))
  {
    BeforeIsTotal<P>();
    SortSorts(s.envelopes, Before);
  }

  lemma BalancesAdd<T>(out: seq<T>, mid: seq<T>, start: seq<T>, pushed: seq<T>, outs: seq<T>, end: seq<T>, rest: seq<T>)
    requires multiset(out) + multiset(mid) == multiset(start) + multiset(pushed)
    requires multiset(outs) + multiset(end) == multiset(mid) + multiset(rest)
    ensures multiset(out + outs) + multiset(end) == multiset(start) + multiset(pushed + rest)
  {
    assert multiset(out + outs) == multiset(out) + multiset(outs);
    assert multiset(pushed + rest) == multiset(pushed) + multiset(rest);
    calc {
      (multiset(out) + multiset(outs)) + multiset(end);
      multiset(out) + (multiset(outs) + multiset(end));
      (multiset(out) + multiset(mid)) + multiset(rest);
      multiset(start) + (multiset(pushed) + multiset(rest));
    }
  }

  /** Nothing is lost, invented or repeated: what was drained and what is still queued are together
      exactly what was queued at first and what was pushed. */
  lemma {:induction false} EventsAreConserved<P(!new)>(s: State<P>, ops: seq<Op<P>>)
    ensures multiset(Drained(s, ops)) + multiset(Run(s, ops).envelopes) ==
            multiset(s.envelopes) + multiset(Pushed(s.next, ops))
    decreases |ops|
  {
    if ops != [] {
      var op, rest := ops[0], ops[1..];
      var after := Step(s, op);
      EventsAreConserved(after, rest);
      StepConserves(s, op);
      hide Sort, Out, In, Batch;
      var outs, end, more := Drained(after, rest), Run(after, rest).envelopes, Pushed(after.next, rest);
      BalancesAdd(Out(s, op), after.envelopes, s.envelopes, In(s.next, op), outs, end, more);
      assert Pushed(s.next, ops) == In(s.next, op) + more;
      assert Drained(s, ops) == Out(s, op) + outs;
      assert Run(s, ops).envelopes == end;
    }
  }

  /** The stamps of pushed envelopes count up from the counter without gaps and stay at its end. */
  lemma {:induction false} StampsCountUp<P>(next: nat, ops: seq<Op<P>>, k: nat)
    requires next <= SEQ_MAX && k < |Pushed(next, ops)|
    ensures Pushed(next, ops)[k].stamp == if next + k <= SEQ_MAX then next + k else SEQ_MAX
    decreases |ops|
  {
    if ops[0].DoPush? {
      if k > 0 {
        StampsCountUp(Saturated(next), ops[1..], k - 1);
      }
    } else {
      StampsCountUp(next, ops[1..], k);
    }
  }

  /** No sequence number is used twice if and only if the counter has room for all pushes. */
  lemma StampsAreDistinctIff<P>(next: nat, ops: seq<Op<P>>)
    requires next <= SEQ_MAX
    ensures DistinctStamps(Pushed(next, ops)) <==> next + |Pushed(next, ops)| <= SEQ_MAX + 1
  {
    var pushed := Pushed(next, ops);
    forall k | 0 <= k < |pushed| ensures pushed[k].stamp == if next + k <= SEQ_MAX then next + k else SEQ_MAX {
      StampsCountUp(next, ops, k);
    }
    hide Pushed;
    if next + |pushed| > SEQ_MAX + 1 {
      var last := SEQ_MAX - next;
      assert pushed[last].stamp == pushed[last + 1].stamp;
    }
  }

  lemma {:induction false} PushedAreUnique<P>(s: seq<Envelope<P>>, e: Envelope<P>)
    requires DistinctStamps(s) && e in s
    ensures multiset(s)[e] == 1
  {
    if multiset(s)[e] >= 2 {
      var i, j := TwoPositions(s, e);
      assert false;
    }
  }

  function Empty<P>(): State<P> {
    State([], 0)
  }

  /** Each of the first 2^64 pushed events is drained once or still queued, never both and never
      twice, and no two of them share a sequence number. */
  lemma EachEventOnce<P(!new)>(ops: seq<Op<P>>, k: nat)
    requires k < |Pushed(0, ops)| <= SEQ_MAX + 1
    ensures Pushed(0, ops)[k].stamp == k
    ensures multiset(Drained(Empty<P>(), ops))[Pushed(0, ops)[k]]
            + multiset(Run(Empty<P>(), ops).envelopes)[Pushed(0, ops)[k]] == 1
  {
    hide Drained, Run;
    var s := Empty<P>();
    var pushed := Pushed(0, ops);
    StampsAreDistinctIff(0, ops);
    StampsCountUp(0, ops, k);
    PushedAreUnique(pushed, pushed[k]);
    EventsAreConserved(s, ops);
    assert multiset(s.envelopes)[pushed[k]] == 0;
    assert (multiset(Drained(s, ops)) + multiset(Run(s, ops).envelopes))[pushed[k]] == 1;
  }

  // --- Order and reloading -------------------------------------------------------------

  /** A drain of a loadable queue is strictly ascending and holds exactly the queued events. */
  lemma DrainsAreSorted<P(!new)>(s: State<P>)
    requires Loads(s)
    ensures StrictlyAscending(Batch(s)) && multiset(Batch(s)) == multiset(s.envelopes)
  {
    BeforeIsTotal<P>();
    SortSorts(s.envelopes, Before);
    var batch := Batch(s);
    forall i, j | 0 <= i < j < |batch| && batch[i].tick == batch[j].tick ensures batch[i].stamp < batch[j].stamp {
      assert Before(batch[i], batch[j]);
      if batch[i].stamp == batch[j].stamp {
        SharedStamp(s.envelopes, batch, i, j);
        assert false;
      }
    }
  }

  /** Any drain, at saturation too, is ascending, and events with one tick and stamp keep push order. */
  lemma DrainsAreStable<P(!new)>(s: State<P>, x: Envelope<P>)
    ensures Sorted(Batch(s), Before) && multiset(Batch(s)) == multiset(s.envelopes)
    ensures Alike(Batch(s), x, Before) == Alike(s.envelopes, x, Before)
  {
    BeforeIsTotal<P>();
    SortSorts(s.envelopes, Before);
    SortIsStable(s.envelopes, x, Before);
  }

  /** Two entries of a permutation with one stamp come from two entries with that stamp. */
  lemma SharedStamp<P>(s: seq<Envelope<P>>, t: seq<Envelope<P>>, i: nat, j: nat)
    requires multiset(s) == multiset(t) && i < j < |t| && t[i].stamp == t[j].stamp
    ensures !DistinctStamps(s)
  {
    if t[i] == t[j] {
      PositionsMakeTwo(t, i, j);
      var a, b := TwoPositions(s, t[i]);
    } else {
      assert t[i] in multiset(t) && t[j] in multiset(t);
      assert t[i] in s && t[j] in s;
      var a :| 0 <= a < |s| && s[a] == t[i];
      var b :| 0 <= b < |s| && s[b] == t[j];
      assert a < b || b < a;
    }
  }

  /** A push keeps a loadable queue loadable exactly when the counter is not saturated, or its last
      number is not in the queue yet. */
  lemma PushKeepsLoadable<P>(s: State<P>, tick: nat, payload: P)
    requires Loads(s) && s.next <= SEQ_MAX
    ensures Loads(Push(s, tick, payload)) <==>
            s.next < SEQ_MAX || forall i :: 0 <= i < |s.envelopes| ==> s.envelopes[i].stamp != SEQ_MAX
  {
    var after := Push(s, tick, payload);
    var n := |s.envelopes|;
    assert after.envelopes[n].stamp == s.next;
    assert forall i :: 0 <= i < n ==> after.envelopes[i] == s.envelopes[i];
  }

  /** At saturation two pushes in a row leave a queue its own loader refuses. */
  lemma SaturatedPushesCollide<P>(s: State<P>, tick: nat, payload: P)
    requires s.next == SEQ_MAX
    ensures !Loads(Push(Push(s, tick, payload), tick, payload))
  {
    var after := Push(Push(s, tick, payload), tick, payload);
    var n := |s.envelopes|;
    assert after.envelopes[n].stamp == after.envelopes[n + 1].stamp == SEQ_MAX;
  }

  /** Draining in between hides the collision from the loader: every queue on the way loads, and yet
      both events carry the last number. */
  lemma StampsRepeatAcrossDrains<P(!new)>(tick: nat, payload: P)
    ensures Orderly(State([], SEQ_MAX), [DoPush(tick, payload), DoDrain, DoPush(tick, payload)])
    ensures Pushed(SEQ_MAX, [DoPush(tick, payload), DoDrain, DoPush(tick, payload)]) ==
            [Envelope(tick, SEQ_MAX, payload), Envelope(tick, SEQ_MAX, payload)]
  {
    var s: State<P> := State([], SEQ_MAX);
    var push, drain: Op<P> := DoPush(tick, payload), DoDrain;
    assert [push, drain, push][1..] == [drain, push] && [drain, push][1..] == [push] && [push][1..] == [];
    var t := Push(s, tick, payload);
    var u := Drain(t);
    DrainsAreSorted(t);
    hide Sort, StrictlyAscending;
    assert Orderly(Push(u, tick, payload), []);
    assert Orderly(u, [push]);
    assert Orderly(t, [drain, push]);
    assert Pushed(SEQ_MAX, [push]) == [Envelope(tick, SEQ_MAX, payload)];
    assert Pushed(SEQ_MAX, [drain, push]) == [Envelope(tick, SEQ_MAX, payload)];
  }

  /** A queue that `count` pushes have led to. */
  ghost predicate Numbered<P>(s: State<P>, count: nat) {
    && DistinctStamps(s.envelopes)
    && (forall i :: 0 <= i < |s.envelopes| ==> s.envelopes[i].stamp < count)
    && s.next == (if count < SEQ_MAX then count else SEQ_MAX)
  }

  /** Every queue on the way loads, and every batch handed out is strictly ascending. */
  ghost predicate Orderly<P>(s: State<P>, ops: seq<Op<P>>)
    decreases |ops|
  {
    && Loads(s)
    && (ops != [] ==> (ops[0].DoDrain? ==> StrictlyAscending(Batch(s))) && Orderly(Step(s, ops[0]), ops[1..]))
  }

  lemma PushKeepsNumbers<P>(s: State<P>, tick: nat, payload: P, count: nat)
    requires Numbered(s, count) && count <= SEQ_MAX
    ensures Numbered(Push(s, tick, payload), count + 1)
  {
  }

  /** Up to 2^64 pushes, every run is orderly. */
  lemma {:induction false} RunsAreOrderly<P(!new)>(s: State<P>, ops: seq<Op<P>>, count: nat)
    requires Numbered(s, count) && count + |Pushed(s.next, ops)| <= SEQ_MAX + 1
    ensures Orderly(s, ops)
    decreases |ops|
  {
    if ops != [] {
      if ops[0].DoPush? {
        PushKeepsNumbers(s, ops[0].tick, ops[0].payload, count);
        RunsAreOrderly(Step(s, ops[0]), ops[1..], count + 1);
      } else {
        DrainsAreSorted(s);
        RunsAreOrderly(Step(s, ops[0]), ops[1..], count);
      }
    }
  }

  /** The queue as an object. */
  class EventQueue<P> {
    var envelopes: seq<Envelope<P>>
    var next: nat

    ghost function Contents(): State<P>
      reads this
    {
      State(envelopes, next)
    }

    constructor ()
      ensures Contents() == State([], 0)
    {
      envelopes, next := [], 0;
    }

    method PushEvent(tick: nat, payload: P)
      modifies this
      ensures Contents() == Push(old(Contents()), tick, payload)
    {
      var stamp := next;
      next := if next < SEQ_MAX then next + 1 else SEQ_MAX;
      envelopes := envelopes + [Envelope(tick, stamp, payload)];
    }

    method DrainEvents() returns (batch: seq<Envelope<P>>)
      modifies this
      ensures Contents() == Drain(old(Contents())) && batch == Batch(old(Contents()))
    {
      envelopes := Sort(envelopes, Before);
      batch := envelopes;
      envelopes := [];
    }
  }
}
