/** Whether a wave gets to its end: which states can, which specs always do, and that every wave
    that can, does, once its members finish. */
module WaveProgress {
  import opened Collections
  import opened WaveScheduler

  /** Every member was started and has ended. */
  ghost predicate Done(w: Wave, s: State) {
    s.phase == Polling && |s.launched| == |w.models| && s.alive == {}
  }

  /** The places that dead members still hold, and that nobody will give back. */
  ghost function Leaked(s: State): Table {
    map i | i in s.running && i !in s.alive && i < |s.launched| :: s.running[i]
  }

  /** The first member without a reservation of its own so far. */
  ghost function Unreserved(s: State): nat {
    |s.launched| + if s.phase == Reserved then 1 else 0
  }

  /** Every member still to be reserved fits beside the leaked places alone. */
  ghost predicate Unblocked(w: Wave, s: State) {
    forall j :: Unreserved(s) <= j < |w.models| ==> WaveFits(w.models[j], Leaked(s))
  }

  ghost predicate CrashFree(steps: seq<Step>) {
    forall k :: 0 <= k < |steps| ==> !steps[k].Crash?
  }

  ghost predicate Finishes(w: Wave, s: State, steps: seq<Step>, t: State) {
    Leads(w, s, steps, t) && Done(w, t)
  }

  // --- Work ----------------------------------------------------------------------------

  /** The live members that still hold their reservation. */
  ghost function Holding(s: State): set<nat> {
    s.running.Keys * s.alive
  }

  /** Acts left: reserving, launching, giving back and ending, for each member. */
  ghost function WorkLeft(w: Wave, s: State): int {
    4 * (|w.models| - |s.launched|) + |s.alive| + |Holding(s)| -
    match s.phase case Reserved => 1 case Aborted => 2 case _ => 0
  }

  /** Looking for room, and finding that the next model does not fit, are the steps that may repeat. */
  ghost predicate Polls(w: Wave, s: State, step: Step)
    requires Enabled(w, s, step)
  {
    step == SeeRoom || (step == TryReserve && !WaveFits(w.models[|s.launched|], s.running))
  }

  /** A crash skips the giving back, and so stands for two acts. */
  ghost function Cost(w: Wave, s: State, step: Step): nat
    requires Enabled(w, s, step)
  {
    if Polls(w, s, step) then 0 else if step.Crash? then 2 else 1
  }

  lemma ReserveWork(w: Wave, s: State)
    requires Inv(w, s) && Enabled(w, s, TryReserve)
    ensures WorkLeft(w, Take(w, s, TryReserve)) == WorkLeft(w, s) - Cost(w, s, TryReserve)
  {
    hide WithinCaps, WaveFits, Workers;
    assert Holding(Take(w, s, TryReserve)) == Holding(s);
  }

  lemma LaunchWork(w: Wave, s: State)
    requires Inv(w, s) && Enabled(w, s, Launch)
    ensures WorkLeft(w, Take(w, s, Launch)) == WorkLeft(w, s) - 1
  {
    hide WithinCaps, WaveFits, Workers;
    var cursor := |s.launched|;
    assert Holding(Take(w, s, Launch)) == Holding(s) + {cursor};
    OneMore(Holding(s), cursor);
    OneMore(s.alive, cursor);
  }

  lemma LaunchFailsWork(w: Wave, s: State)
    requires Inv(w, s) && Enabled(w, s, LaunchFails)
    ensures WorkLeft(w, Take(w, s, LaunchFails)) == WorkLeft(w, s) - 1
  {
    hide WithinCaps, WaveFits, Workers;
    assert Holding(Take(w, s, LaunchFails)) == Holding(s);
  }

  lemma ReleaseWork(w: Wave, s: State, i: nat)
    requires Enabled(w, s, Release(i))
    ensures WorkLeft(w, Take(w, s, Release(i))) == WorkLeft(w, s) - 1
  {
    hide WaveFits, Workers;
    assert Holding(Take(w, s, Release(i))) == Holding(s) - {i};
    assert i in Holding(s);
    OneMore(Holding(s), i);
  }

  lemma ExitWork(w: Wave, s: State, i: nat)
    requires Enabled(w, s, Exit(i))
    ensures WorkLeft(w, Take(w, s, Exit(i))) == WorkLeft(w, s) - 1
  {
    hide WaveFits, Workers;
    assert Holding(Take(w, s, Exit(i))) == Holding(s);
    OneMore(s.alive, i);
  }

  lemma CrashWork(w: Wave, s: State, i: nat)
    requires Enabled(w, s, Crash(i))
    ensures WorkLeft(w, Take(w, s, Crash(i))) == WorkLeft(w, s) - 2
  {
    hide WaveFits, Workers;
    assert Holding(Take(w, s, Crash(i))) == Holding(s) - {i};
    assert i in Holding(s);
    OneMore(Holding(s), i);
    OneMore(s.alive, i);
  }

  /** Polling uses up no work; every other step uses up its acts. */
  lemma StepsUseUpWork(w: Wave, s: State, step: Step)
    requires Inv(w, s) && Enabled(w, s, step)
    ensures WorkLeft(w, s) >= 0
    ensures WorkLeft(w, Take(w, s, step)) == WorkLeft(w, s) - Cost(w, s, step)
  {
    hide Inv, WaveFits, Holding, Workers, WorkLeft;
    WorkIsNeverNegative(w, s);
    match step
    case SeeRoom => SeeRoomWork(w, s);
    case TryReserve => ReserveWork(w, s);
    case Launch => LaunchWork(w, s);
    case LaunchFails => LaunchFailsWork(w, s);
    case Release(i) => ReleaseWork(w, s, i);
    case Exit(i) => ExitWork(w, s, i);
    case Crash(i) => CrashWork(w, s, i);
  }

  lemma SeeRoomWork(w: Wave, s: State)
    requires Enabled(w, s, SeeRoom)
    ensures WorkLeft(w, Take(w, s, SeeRoom)) == WorkLeft(w, s)
  {
    assert Holding(Take(w, s, SeeRoom)) == Holding(s);
  }

  lemma WorkIsNeverNegative(w: Wave, s: State)
    requires Inv(w, s)
    ensures WorkLeft(w, s) >= 0
  {
  }

  /** The acts of a run. */
  ghost function Acts(w: Wave, s: State, steps: seq<Step>, t: State): nat
    requires Leads(w, s, steps, t)
    decreases |steps|
  {
    if steps == [] then 0 else Cost(w, s, steps[0]) + Acts(w, Take(w, s, steps[0]), steps[1..], t)
  }

  lemma {:induction false} ActsAddUp(w: Wave, s: State, steps: seq<Step>, t: State)
    requires Inv(w, s) && Leads(w, s, steps, t)
    ensures Acts(w, s, steps, t) + WorkLeft(w, t) == WorkLeft(w, s)
    decreases |steps|
  {
    hide Inv, Enabled, Take, WorkLeft, Cost;
    if steps != [] {
      StepKeepsInv(w, s, steps[0]);
      StepsUseUpWork(w, s, steps[0]);
      ActsAddUp(w, Take(w, s, steps[0]), steps[1..], t);
    }
  }

  /** Acts done and acts left always add up, so no run acts more than four times per member and
      only polling can go on forever. */
  lemma RunsActBoundedly(w: Wave, steps: seq<Step>, t: State)
    requires Leads(w, Initial(), steps, t)
    ensures Acts(w, Initial(), steps, t) + WorkLeft(w, t) == 4 * |w.models|
    ensures Acts(w, Initial(), steps, t) <= 4 * |w.models|
  {
    InitialInv(w);
    assert Holding(Initial()) == {};
    ActsAddUp(w, Initial(), steps, t);
    RunKeepsInv(w, Initial(), steps, t);
    WorkIsNeverNegative(w, t);
  }

  // --- Leaked places -------------------------------------------------------------------

  ghost predicate Within(a: Table, b: Table) {
    forall i :: i in a ==> i in b && b[i] == a[i]
  }

  lemma SubsetCount(a: set<nat>, b: set<nat>)
    requires a <= b
    ensures |a| <= |b|
  {
    assert b == a + (b - a);
  }

  /** What fits beside more fits beside less, and fewer places stay within the caps. */
  lemma FewerFit(a: Table, b: Table, model: string)
    requires Within(a, b)
    ensures WaveFits(model, b) ==> WaveFits(model, a)
  {
    SubsetCount(HoldersOf(a, model), HoldersOf(b, model));
    SubsetCount(FreeZenHolders(a), FreeZenHolders(b));
  }

  lemma FewerWithinCaps(a: Table, b: Table)
    requires Within(a, b) && WithinCaps(b)
    ensures WithinCaps(a)
  {
    SubsetCount(FreeZenHolders(a), FreeZenHolders(b));
    forall m ensures |HoldersOf(a, m)| <= |HoldersOf(b, m)| {
      SubsetCount(HoldersOf(a, m), HoldersOf(b, m));
    }
  }

  lemma SchedulerLeaksNothing(w: Wave, s: State, step: Step)
    requires Inv(w, s) && Enabled(w, s, step) && !step.Release? && !step.Exit? && !step.Crash?
    ensures Leaked(Take(w, s, step)) == Leaked(s)
  {
    hide WithinCaps, WaveFits, Workers;
    var cursor := |s.launched|;
    assert forall i :: i in s.alive ==> i < cursor;
    assert step != Launch && step != LaunchFails ==> cursor !in s.running;
    hide Inv;
  }

  lemma WorkersLeakNothing(w: Wave, s: State, step: Step)
    requires Enabled(w, s, step) && (step.Release? || step.Exit?)
    ensures Leaked(Take(w, s, step)) == Leaked(s)
  {
  }

  lemma Leak(w: Wave, s: State, i: nat)
    requires Enabled(w, s, Crash(i))
    ensures Within(Leaked(s), Leaked(Take(w, s, Crash(i))))
  {
  }

  /** A step leaks a place only when it is a crash, and never recovers one. */
  lemma LeaksOnlyGrow(w: Wave, s: State, step: Step)
    requires Inv(w, s) && Enabled(w, s, step)
    ensures Within(Leaked(s), Leaked(Take(w, s, step)))
    ensures !step.Crash? ==> Leaked(Take(w, s, step)) == Leaked(s)
  {
    hide Inv, Enabled, Take, Leaked;
    if step.Crash? {
      Leak(w, s, step.member);
    } else if step.Release? || step.Exit? {
      WorkersLeakNothing(w, s, step);
    } else {
      SchedulerLeaksNothing(w, s, step);
    }
  }

  /** Whatever a step does, a member that fits the leaked places afterwards fitted them before, and
      a member that gets its reservation fits them. */
  lemma BlockedBefore(w: Wave, s: State, step: Step)
    requires Inv(w, s) && Enabled(w, s, step) && Unblocked(w, Take(w, s, step))
    ensures Unblocked(w, s)
  {
    var after := Take(w, s, step);
    LeaksOnlyGrow(w, s, step);
    forall j | Unreserved(s) <= j < |w.models| ensures WaveFits(w.models[j], Leaked(s)) {
      if j < Unreserved(after) {
        FewerFit(Leaked(s), s.running, w.models[j]);
      } else {
        FewerFit(Leaked(s), Leaked(after), w.models[j]);
      }
    }
  }

  /** No steps at all lead from a blocked state to the end. */
  lemma {:induction false} BlockedNeverFinishes(w: Wave, s: State, steps: seq<Step>, t: State)
    requires Inv(w, s) && Finishes(w, s, steps, t)
    ensures Unblocked(w, s)
    decreases |steps|
  {
    hide Inv, Enabled, Take, WaveFits;
    if steps != [] {
      StepKeepsInv(w, s, steps[0]);
      BlockedNeverFinishes(w, Take(w, s, steps[0]), steps[1..], t);
      BlockedBefore(w, s, steps[0]);
    }
  }

  lemma CrashFreeStaysUnblocked(w: Wave, s: State, step: Step)
    requires Inv(w, s) && Enabled(w, s, step) && !step.Crash? && Unblocked(w, s)
    ensures Unblocked(w, Take(w, s, step)) || step == LaunchFails
  {
    LeaksOnlyGrow(w, s, step);
  }

  // --- Finishing -----------------------------------------------------------------------

  /** When no member thread is alive, only leaked places are taken. */
  lemma OnlyLeaksLeft(w: Wave, s: State)
    requires Inv(w, s) && s.alive == {} && s.phase != Reserved
    ensures Leaked(s) == s.running
  {
    hide WithinCaps;
  }

  /** The step that brings the wave nearer to its end: workers first, then the scheduler. */
  lemma UsefulStep(w: Wave, s: State) returns (step: Step)
    requires Inv(w, s) && w.slots > 0 && !Done(w, s) && s.phase != Aborted && Unblocked(w, s)
    ensures Enabled(w, s, step) && step != LaunchFails && !step.Crash?
    ensures Polls(w, s, step) ==> s.phase == Polling && step == SeeRoom
  {
    if i :| i in s.alive {
      step := if i in s.running then Release(i) else Exit(i);
    } else if s.phase == Polling {
      step := SeeRoom;
    } else if s.phase == RoomSeen {
      OnlyLeaksLeft(w, s);
      step := TryReserve;
    } else {
      step := Launch;
    }
  }

  lemma {:induction false} WaveCanFinish(w: Wave, s: State) returns (steps: seq<Step>, t: State)
    requires Inv(w, s) && w.slots > 0 && s.phase != Aborted && Unblocked(w, s)
    ensures Finishes(w, s, steps, t) && CrashFree(steps)
    decreases WorkLeft(w, s), if s.phase == Polling then 1 else 0
  {
    if Done(w, s) {
      return [], s;
    }
    var step := UsefulStep(w, s);
    var next := Take(w, s, step);
    StepKeepsInv(w, s, step);
    StepsUseUpWork(w, s, step);
    CrashFreeStaysUnblocked(w, s, step);
    hide Inv, WorkLeft, Done, Polls, Unblocked;
    steps, t := WaveCanFinish(w, next);
    assert ([step] + steps)[1..] == steps;
    steps := [step] + steps;
  }

  ghost predicate CanFinish(w: Wave, s: State) {
    exists steps, t :: Finishes(w, s, steps, t)
  }

  ghost predicate CanFinishWithoutCrash(w: Wave, s: State) {
    exists steps, t :: Finishes(w, s, steps, t) && CrashFree(steps)
  }

  /** A wave that has not aborted can get to its end, with or without further crashes, if and only
      if every member still to be reserved fits beside the leaked places alone. */
  lemma FinishIffUnblocked(w: Wave, s: State)
    requires Inv(w, s) && w.slots > 0 && s.phase != Aborted
    ensures CanFinish(w, s) <==> Unblocked(w, s)
    ensures CanFinishWithoutCrash(w, s) <==> Unblocked(w, s)
  {
    hide Inv, Unblocked, Finishes;
    if Unblocked(w, s) {
      var steps, t := WaveCanFinish(w, s);
      assert Finishes(w, s, steps, t) && CrashFree(steps);
    }
    if CanFinish(w, s) {
      var steps, t :| Finishes(w, s, steps, t);
      BlockedNeverFinishes(w, s, steps, t);
    }
  }

  lemma FewerThanMembers(w: Wave, s: State)
    requires Inv(w, s) && |s.launched| < |w.models|
    ensures |s.alive| < |w.models|
  {
    BoundedCount(s.alive, |s.launched|);
  }

  /** Unless the wave is done or aborted some step is enabled. Whenever fewer threads are alive than
      there are slots, the scheduler gets through to launching the next member exactly when the caps
      hold with it; once every started member has ended, exactly when it fits the leaked places. */
  lemma NeverStuck(w: Wave, s: State)
    requires Inv(w, s) && w.slots > 0 && !Done(w, s) && s.phase != Aborted
    ensures exists step :: Enabled(w, s, step)
    ensures s.phase == Polling && |s.launched| < |w.models| && |s.alive| < w.slots ==>
              && Enabled(w, s, SeeRoom)
              && Enabled(w, Take(w, s, SeeRoom), TryReserve)
              && (Enabled(w, Take(w, Take(w, s, SeeRoom), TryReserve), Launch) <==>
                  WithinCaps(s.running[|s.launched| := w.models[|s.launched|]]))
    ensures s.phase == Polling && s.alive == {} ==>
              |s.launched| < |w.models| && 0 < w.slots && Leaked(s) == s.running
  {
    if s.phase == Polling && |s.launched| < |w.models| {
      FewerThanMembers(w, s);
      FitsIffCapsHold(s.running, |s.launched|, w.models[|s.launched|]);
    }
    if s.phase == Polling && s.alive == {} {
      OnlyLeaksLeft(w, s);
      assert Enabled(w, s, SeeRoom);
    } else if s.phase == Polling {
      var i :| i in s.alive;
      assert Enabled(w, s, if i in s.running then Release(i) else Exit(i));
    } else {
      assert Enabled(w, s, if s.phase == RoomSeen then TryReserve else Launch);
    }
  }

  // --- Which specs always finish -------------------------------------------------------

  /** The places of the first `k` members, all taken at once. */
  ghost function PlacesOf(w: Wave, k: nat): Table
    requires k <= |w.models|
  {
    map i | 0 <= i < k :: w.models[i]
  }

  /** At most one member per free Zen model, three free Zen members, three members per other model. */
  ghost predicate SpecWithinCaps(w: Wave) {
    WithinCaps(PlacesOf(w, |w.models|))
  }

  ghost predicate Reachable(w: Wave, s: State) {
    exists steps :: Leads(w, Initial(), steps, s)
  }

  lemma CappedSpecsAreUnblocked(w: Wave, s: State)
    requires Inv(w, s) && SpecWithinCaps(w)
    ensures Unblocked(w, s)
  {
    var leaked := Leaked(s);
    forall j | Unreserved(s) <= j < |w.models| ensures WaveFits(w.models[j], leaked) {
      hide WithinCaps, WaveFits;
      assert Within(leaked[j := w.models[j]], PlacesOf(w, |w.models|));
      assert Within(leaked, s.running);
      FewerWithinCaps(leaked[j := w.models[j]], PlacesOf(w, |w.models|));
      FewerWithinCaps(leaked, s.running);
      FitsIffCapsHold(leaked, j, w.models[j]);
    }
  }

  lemma {:induction false} LeadsOn(w: Wave, s: State, a: seq<Step>, t: State, b: seq<Step>, u: State)
    requires Leads(w, s, a, t) && Leads(w, t, b, u)
    ensures Leads(w, s, a + b, u)
    decreases |a|
  {
    if a == [] {
      assert a + b == b;
    } else {
      LeadsOn(w, Take(w, s, a[0]), a[1..], t, b, u);
      assert (a + b)[1..] == a[1..] + b;
    }
  }

  /** The first `k` members started and crashed one after another. */
  ghost function AllCrashed(w: Wave, k: nat): State
    requires k <= |w.models|
  {
    State(Polling, seq(k, i => i), {}, PlacesOf(w, k))
  }

  /** One member more is started and crashes. */
  lemma CrashOneMore(w: Wave, k: nat)
    requires w.slots > 0 && k < |w.models| && WaveFits(w.models[k], PlacesOf(w, k))
    ensures Leads(w, AllCrashed(w, k), [SeeRoom, TryReserve, Launch, Crash(k)], AllCrashed(w, k + 1))
  {
    var s := AllCrashed(w, k);
    hide WaveFits;
    assert Enabled(w, s, SeeRoom);
    var t := Take(w, s, SeeRoom);
    var u := Take(w, t, TryReserve);
    assert u == State(Reserved, s.launched, {}, s.running[k := w.models[k]]);
    var v := Take(w, u, Launch);
    assert v == State(Polling, s.launched + [k], {k}, s.running[k := w.models[k]]);
    var x := Take(w, v, Crash(k));
    assert x.launched == seq(k + 1, i => i) && x.running == PlacesOf(w, k + 1) && x.alive == {};
    assert Leads(w, x, [], AllCrashed(w, k + 1));
    assert Leads(w, v, [Crash(k)], AllCrashed(w, k + 1));
    assert [Launch, Crash(k)][1..] == [Crash(k)];
    assert Leads(w, u, [Launch, Crash(k)], AllCrashed(w, k + 1));
    assert [TryReserve, Launch, Crash(k)][1..] == [Launch, Crash(k)];
    assert Leads(w, t, [TryReserve, Launch, Crash(k)], AllCrashed(w, k + 1));
    assert [SeeRoom, TryReserve, Launch, Crash(k)][1..] == [TryReserve, Launch, Crash(k)];
  }

  lemma CrashedAreLeaked(w: Wave, k: nat)
    requires k < |w.models| && WithinCaps(PlacesOf(w, k))
    ensures WaveFits(w.models[k], PlacesOf(w, k)) ==> WithinCaps(PlacesOf(w, k + 1))
    ensures Unblocked(w, AllCrashed(w, k)) ==> WaveFits(w.models[k], PlacesOf(w, k))
  {
    hide WithinCaps, WaveFits;
    var places := PlacesOf(w, k);
    FitsIffCapsHold(places, k, w.models[k]);
    assert places[k := w.models[k]] == PlacesOf(w, k + 1);
    assert Leaked(AllCrashed(w, k)) == places;
  }

  /** Crashing members one after another either blocks the wave or shows that all of them fit. */
  lemma {:induction false} CrashUntilBlocked(w: Wave, k: nat, before: seq<Step>) returns (steps: seq<Step>, s: State)
    requires w.slots > 0 && k <= |w.models| && WithinCaps(PlacesOf(w, k)) && !SpecWithinCaps(w)
    requires Leads(w, Initial(), before, AllCrashed(w, k))
    ensures Leads(w, Initial(), steps, s) && s.phase == Polling && s.alive == {} && !Unblocked(w, s)
    decreases |w.models| - k
  {
    hide WithinCaps, WaveFits, Leads, PlacesOf, Unblocked;
    var here := AllCrashed(w, k);
    CrashedAreLeaked(w, k);
    if WaveFits(w.models[k], PlacesOf(w, k)) {
      CrashOneMore(w, k);
      LeadsOn(w, Initial(), before, here, [SeeRoom, TryReserve, Launch, Crash(k)], AllCrashed(w, k + 1));
      steps, s := CrashUntilBlocked(w, k + 1, before + [SeeRoom, TryReserve, Launch, Crash(k)]);
    } else {
      steps, s := before, here;
    }
  }

  /** What a caller can check beforehand: the wave can get to its end from every state it can reach
      without aborting, whatever crashes, if and only if its spec is within the caps all at once. */
  lemma SpecDecides(w: Wave)
    requires w.slots > 0
    ensures (forall s :: Reachable(w, s) && s.phase != Aborted ==> CanFinish(w, s)) <==> SpecWithinCaps(w)
  {
    hide Unblocked, CanFinish, SpecWithinCaps;
    InitialInv(w);
    if SpecWithinCaps(w) {
      forall s | Reachable(w, s) && s.phase != Aborted ensures CanFinish(w, s) {
        var steps :| Leads(w, Initial(), steps, s);
        RunKeepsInv(w, Initial(), steps, s);
        CappedSpecsAreUnblocked(w, s);
        FinishIffUnblocked(w, s);
      }
    } else {
      assert PlacesOf(w, 0) == map[] && seq(0, i => i) == [];
      assert Leads(w, Initial(), [], AllCrashed(w, 0));
      var steps, s := CrashUntilBlocked(w, 0, []);
      RunKeepsInv(w, Initial(), steps, s);
      FinishIffUnblocked(w, s);
      assert Reachable(w, s);
    }
  }

  /** The smallest such wave: two members of one free Zen model, the first of which crashes. Every
      started member has ended, and no steps whatever start the second one. */
  lemma CrashBlocksTwin(model: string, slots: nat) returns (s: State)
    requires IsFreeZen(model) && slots > 0
    ensures Reachable(Wave([model, model], slots), s)
    ensures s == State(Polling, [0], {}, map[0 := model])
    ensures !CanFinish(Wave([model, model], slots), s)
  {
    var w := Wave([model, model], slots);
    s := AllCrashed(w, 1);
    hide Leads, Inv, CanFinish;
    assert seq(1, i => i) == [0] && PlacesOf(w, 1) == map[0 := model];
    assert PlacesOf(w, 0) == map[] && seq(0, i => i) == [] && AllCrashed(w, 0) == Initial();
    assert HoldersOf(map[], model) == {} && FreeZenHolders(map[]) == {};
    CrashOneMore(w, 0);
    assert Leads(w, Initial(), [SeeRoom, TryReserve, Launch, Crash(0)], s);
    InitialInv(w);
    RunKeepsInv(w, Initial(), [SeeRoom, TryReserve, Launch, Crash(0)], s);
    assert Leaked(s) == map[0 := model] && HoldersOf(Leaked(s), model) == {0};
    assert !WaveFits(w.models[1], Leaked(s));
    FinishIffUnblocked(w, s);
  }

  // --- Every wave that can finish does -------------------------------------------------

  /** One moment of an execution; a wave that is done stays as it is. */
  ghost predicate Moves(w: Wave, run: nat -> State, taken: nat -> Step, k: nat) {
    if Done(w, run(k)) then run(k + 1) == run(k)
    else Enabled(w, run(k), taken(k)) && taken(k) != LaunchFails && run(k + 1) == Take(w, run(k), taken(k))
  }

  /** An endless execution without launch failures. */
  ghost predicate IsExecution(w: Wave, run: nat -> State, taken: nat -> Step) {
    && Inv(w, run(0)) && run(0).phase != Aborted
    && forall k: nat :: Moves(w, run, taken, k)
  }

  /** Every started member eventually ends. */
  ghost predicate MembersEnd(run: nat -> State) {
    forall k: nat, i {:trigger i in run(k).alive} :: i in run(k).alive ==> EndsAfter(run, k, i)
  }

  ghost predicate EndsAfter(run: nat -> State, k: nat, i: nat) {
    exists m: nat :: k <= m && i !in run(m).alive
  }

  ghost predicate Settles(w: Wave, run: nat -> State, k: nat) {
    exists m: nat :: k <= m && Done(w, run(m))
  }

  ghost predicate Sane(w: Wave, s: State) {
    Inv(w, s) && s.phase != Aborted
  }

  lemma MoveKeepsSane(w: Wave, s: State, step: Step)
    requires Sane(w, s) && Enabled(w, s, step) && step != LaunchFails
    ensures Sane(w, Take(w, s, step))
  {
    StepKeepsInv(w, s, step);
    hide Inv;
  }

  lemma {:induction false} ExecutionStaysSane(w: Wave, run: nat -> State, taken: nat -> Step, k: nat)
    requires IsExecution(w, run, taken)
    ensures Sane(w, run(k))
  {
    hide Inv, Enabled, Take, Done;
    if k > 0 {
      ExecutionStaysSane(w, run, taken, k - 1);
      hide Sane;
      assert Moves(w, run, taken, k - 1);
      if !Done(w, run(k - 1)) {
        MoveKeepsSane(w, run(k - 1), taken(k - 1));
      }
    }
  }

  /** A step that does no work leaves the member threads alone. */
  lemma IdleStep(w: Wave, s: State, step: Step)
    requires Sane(w, s) && Enabled(w, s, step)
    ensures WorkLeft(w, Take(w, s, step)) <= WorkLeft(w, s)
    ensures WorkLeft(w, Take(w, s, step)) == WorkLeft(w, s) ==> Take(w, s, step).alive == s.alive
  {
    StepsUseUpWork(w, s, step);
    hide Inv, WorkLeft, WaveFits;
  }

  /** While no work is done the same members are alive. */
  lemma {:induction false} IdleMeansSame(w: Wave, run: nat -> State, taken: nat -> Step, k: nat, m: nat)
    requires IsExecution(w, run, taken) && k <= m
    ensures WorkLeft(w, run(m)) <= WorkLeft(w, run(k))
    ensures WorkLeft(w, run(m)) == WorkLeft(w, run(k)) ==> run(m).alive == run(k).alive
    decreases m
  {
    hide Inv, Enabled, Take, Done, WorkLeft, Sane;
    if k < m {
      var n := m - 1;
      IdleMeansSame(w, run, taken, k, n);
      ExecutionStaysSane(w, run, taken, n);
      assert Moves(w, run, taken, n);
      if !Done(w, run(n)) {
        IdleStep(w, run(n), taken(n));
      }
    }
  }

  /** With no member alive every step is the scheduler's, and gets it further. */
  lemma SchedulerGoesOn(w: Wave, s: State, step: Step)
    requires Sane(w, s) && s.alive == {} && Unblocked(w, s) && Enabled(w, s, step)
    ensures WorkLeft(w, Take(w, s, step)) < WorkLeft(w, s) ||
            (WorkLeft(w, Take(w, s, step)) == WorkLeft(w, s)
             && s.phase == Polling && Take(w, s, step).phase == RoomSeen)
  {
    StepsUseUpWork(w, s, step);
    hide WorkLeft, WithinCaps;
    if step == TryReserve {
      OnlyLeaksLeft(w, s);
    }
  }

  /** If every member that has started ends, and the wave is never blocked, it gets to its end. */
  lemma {:induction false} WaveFinishes(w: Wave, run: nat -> State, taken: nat -> Step, k: nat)
    requires IsExecution(w, run, taken) && MembersEnd(run)
    requires forall m: nat :: Unblocked(w, run(m))
    ensures Settles(w, run, k)
    decreases WorkLeft(w, run(k)), if run(k).phase == Polling then 1 else 0
  {
    hide Inv, Enabled, Take, WorkLeft, Unblocked;
    var s := run(k);
    ExecutionStaysSane(w, run, taken, k);
    assert WorkLeft(w, s) >= 0 by { WorkIsNeverNegative(w, s); }
    hide Sane;
    if Done(w, s) {
    } else if i :| i in s.alive {
      assert EndsAfter(run, k, i);
      var m: nat :| k <= m && i !in run(m).alive;
      IdleMeansSame(w, run, taken, k, m);
      WaveFinishes(w, run, taken, m);
    } else {
      assert Moves(w, run, taken, k);
      SchedulerGoesOn(w, s, taken(k));
      WaveFinishes(w, run, taken, k + 1);
    }
  }

  /** Without crashes a wave is never blocked. */
  lemma {:induction false} NothingLeaks(w: Wave, run: nat -> State, taken: nat -> Step, k: nat)
    requires IsExecution(w, run, taken) && Unblocked(w, run(0))
    requires forall m: nat :: !taken(m).Crash?
    ensures Unblocked(w, run(k))
  {
    hide Inv, Enabled, Take, Done, Unblocked;
    if k > 0 {
      NothingLeaks(w, run, taken, k - 1);
      ExecutionStaysSane(w, run, taken, k - 1);
      assert Moves(w, run, taken, k - 1);
      if !Done(w, run(k - 1)) {
        CrashFreeStaysUnblocked(w, run(k - 1), taken(k - 1));
      }
    }
  }

  /** Every execution from the start in which no member crashes and every started member ends gets to
      the end of the wave. */
  lemma WavesWithoutCrashFinish(w: Wave, run: nat -> State, taken: nat -> Step)
    requires run(0) == Initial() && IsExecution(w, run, taken) && MembersEnd(run)
    requires forall m: nat :: !taken(m).Crash?
    ensures Settles(w, run, 0)
  {
    NoLeaksAtFirst(w);
    hide Inv, Unblocked, Settles, MembersEnd, IsExecution;
    forall m: nat ensures Unblocked(w, run(m)) {
      NothingLeaks(w, run, taken, m);
    }
    WaveFinishes(w, run, taken, 0);
  }

  lemma NoLeaksAtFirst(w: Wave)
    ensures Unblocked(w, Initial())
  {
    assert Leaked(Initial()) == map[];
    assert forall m :: HoldersOf(map[], m) == {};
    assert FreeZenHolders(map[]) == {};
  }

  /** When the spec is within the caps all at once, every such execution does, whatever crashes. */
  lemma CappedWavesFinish(w: Wave, run: nat -> State, taken: nat -> Step)
    requires run(0) == Initial() && IsExecution(w, run, taken) && MembersEnd(run)
    requires SpecWithinCaps(w)
    ensures Settles(w, run, 0)
  {
    hide Inv, Unblocked, Settles, MembersEnd, IsExecution, SpecWithinCaps;
    forall m: nat ensures Unblocked(w, run(m)) {
      ExecutionStaysSane(w, run, taken, m);
      CappedSpecsAreUnblocked(w, run(m));
    }
    WaveFinishes(w, run, taken, 0);
  }
}
