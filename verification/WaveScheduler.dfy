/** The wave scheduler as a state machine: one scheduling thread, one thread per member, and a
    shared table of reserved models. */
module WaveScheduler {
  import opened Collections

  const FREE_ZEN_PREFIX: string := "opencode/"
  const FREE_ZEN_PER_MODEL: nat := 1
  const FREE_ZEN_TOTAL: nat := 3
  const PER_MODEL_MAX: nat := 3

  /** Reserved models by member index. */
  type Table = map<nat, string>

  predicate IsFreeZen(model: string) {
    FREE_ZEN_PREFIX <= model
  }

  function HoldersOf(running: Table, model: string): set<nat> {
    set i | i in running && running[i] == model
  }

  function FreeZenHolders(running: Table): set<nat> {
    set i | i in running && IsFreeZen(running[i])
  }

  /** Whether one more run of this model may start alongside the reserved ones. */
  predicate WaveFits(model: string, running: Table) {
    if IsFreeZen(model) then
      |HoldersOf(running, model)| < FREE_ZEN_PER_MODEL && |FreeZenHolders(running)| < FREE_ZEN_TOTAL
    else
      |HoldersOf(running, model)| < PER_MODEL_MAX
  }

  /** Where the scheduling thread stands: polling, having seen a free worker, having reserved the
      next member's model, or dead of a thread that would not start. */
  datatype Phase = Polling | RoomSeen | Reserved | Aborted

  /** `launched` lists the members started so far; `alive` are those whose threads still run. */
  datatype State = State(phase: Phase, launched: seq<nat>, alive: set<nat>, running: Table)

  datatype Wave = Wave(models: seq<string>, slots: nat)

  function Workers(w: Wave): nat {
    if w.slots <= |w.models| then w.slots else |w.models|
  }

  function Initial(): State {
    State(Polling, [], {}, map[])
  }

  datatype Step =
    | SeeRoom | TryReserve | Launch | LaunchFails
    | Release(member: nat) | Exit(member: nat) | Crash(member: nat)

  ghost predicate Enabled(w: Wave, s: State, step: Step) {
    match step
    case SeeRoom => s.phase == Polling && |s.launched| < |w.models| && |s.alive| < Workers(w)
    case TryReserve => s.phase == RoomSeen && |s.launched| < |w.models|
    case Launch => s.phase == Reserved
    case LaunchFails => s.phase == Reserved
    case Release(i) => i in s.alive && i in s.running
    case Exit(i) => i in s.alive && i !in s.running
    case Crash(i) => i in s.alive && i in s.running
  }

  /** The scheduler reserves the next member's place before its thread starts. A worker gives its
      place back and then its thread ends, except when getting a slot fails in a way the worker does
      not expect: then its thread ends at once and the place stays taken. */
  ghost function Take(w: Wave, s: State, step: Step): State
    requires Enabled(w, s, step)
  {
    var cursor := |s.launched|;
    match step
    case SeeRoom => s.(phase := RoomSeen)
    case TryReserve =>
      if WaveFits(w.models[cursor], s.running)
      then s.(phase := Reserved, running := s.running[cursor := w.models[cursor]])
      else s.(phase := Polling)
    case Launch => s.(phase := Polling, launched := s.launched + [cursor], alive := s.alive + {cursor})
    case LaunchFails => s.(phase := Aborted, running := s.running - {cursor})
    case Release(i) => s.(running := s.running - {i})
    case Exit(i) => s.(alive := s.alive - {i})
    case Crash(i) => s.(alive := s.alive - {i})
  }

  // --- Safety --------------------------------------------------------------------------

  /** At most one run per free Zen model, three free Zen runs in all, three runs per other model. */
  ghost predicate WithinCaps(running: Table) {
    && |FreeZenHolders(running)| <= FREE_ZEN_TOTAL
    && forall model :: |HoldersOf(running, model)| <= if IsFreeZen(model) then FREE_ZEN_PER_MODEL else PER_MODEL_MAX
  }

  ghost predicate Inv(w: Wave, s: State) {
    var cursor := |s.launched|;
    && cursor <= |w.models|
    && (forall k :: 0 <= k < cursor ==> s.launched[k] == k)
    && (forall i :: i in s.alive ==> i < cursor)
    && (forall i :: i in s.running ==> i < |w.models| && s.running[i] == w.models[i])
    && (forall i :: i in s.running ==> i < cursor || (s.phase == Reserved && i == cursor))
    && (s.phase == Reserved ==> cursor in s.running)
    && (s.phase == RoomSeen || s.phase == Reserved ==> cursor < |w.models| && |s.alive| < Workers(w))
    && (s.phase == Aborted ==> cursor < |w.models|)
    && |s.alive| <= Workers(w)
    && WithinCaps(s.running)
  }

  lemma HoldersAfter(running: Table, i: nat, model: string, m: string)
    requires i !in running
    ensures |HoldersOf(running[i := model], m)| == |HoldersOf(running, m)| + if m == model then 1 else 0
  {
    var after := running[i := model];
    if m == model {
      assert HoldersOf(after, m) == HoldersOf(running, m) + {i};
    } else {
      assert HoldersOf(after, m) == HoldersOf(running, m);
    }
  }

  lemma FreeZenAfter(running: Table, i: nat, model: string)
    requires i !in running
    ensures |FreeZenHolders(running[i := model])| == |FreeZenHolders(running)| + if IsFreeZen(model) then 1 else 0
  {
    var after := running[i := model];
    if IsFreeZen(model) {
      assert FreeZenHolders(after) == FreeZenHolders(running) + {i};
    } else {
      assert FreeZenHolders(after) == FreeZenHolders(running);
    }
  }

  /** The cap test lets a run start exactly when the caps still hold with it. */
  lemma FitsIffCapsHold(running: Table, i: nat, model: string)
    requires WithinCaps(running) && i !in running
    ensures WaveFits(model, running) <==> WithinCaps(running[i := model])
  {
    hide HoldersOf, FreeZenHolders, IsFreeZen;
    FreeZenAfter(running, i, model);
    HoldersAfter(running, i, model, model);
    forall m ensures |HoldersOf(running[i := model], m)| == |HoldersOf(running, m)| + if m == model then 1 else 0 {
      HoldersAfter(running, i, model, m);
    }
  }

  lemma GivingBackKeepsCaps(running: Table, i: nat)
    requires WithinCaps(running)
    ensures WithinCaps(running - {i})
  {
    var after := running - {i};
    forall m ensures |HoldersOf(after, m)| <= |HoldersOf(running, m)| {
      assert HoldersOf(after, m) == HoldersOf(running, m) - {i};
    }
    assert FreeZenHolders(after) == FreeZenHolders(running) - {i};
  }

  lemma SchedulerKeepsInv(w: Wave, s: State, step: Step)
    requires Inv(w, s) && Enabled(w, s, step) && !step.Release? && !step.Exit? && !step.Crash?
    ensures Inv(w, Take(w, s, step))
  {
    hide WithinCaps, WaveFits;
    var cursor := |s.launched|;
    OneMore(s.alive, cursor);
    match step
    case SeeRoom =>
    case TryReserve =>
      if WaveFits(w.models[cursor], s.running) {
        FitsIffCapsHold(s.running, cursor, w.models[cursor]);
      }
    case Launch =>
    case LaunchFails =>
      GivingBackKeepsCaps(s.running, cursor);
  }

  lemma WorkersKeepInv(w: Wave, s: State, step: Step)
    requires Inv(w, s) && Enabled(w, s, step) && (step.Release? || step.Exit? || step.Crash?)
    ensures Inv(w, Take(w, s, step))
  {
    hide WithinCaps, WaveFits;
    OneMore(s.alive, step.member);
    if step.Release? {
      GivingBackKeepsCaps(s.running, step.member);
    }
  }

  /** Every step of every thread keeps the invariant. */
  lemma StepKeepsInv(w: Wave, s: State, step: Step)
    requires Inv(w, s) && Enabled(w, s, step)
    ensures Inv(w, Take(w, s, step))
  {
    hide Inv, Enabled, Take;
    if step.Release? || step.Exit? || step.Crash? {
      WorkersKeepInv(w, s, step);
    } else {
      SchedulerKeepsInv(w, s, step);
    }
  }

  /** The steps, each enabled in its turn, lead from `s` to `t`. */
  ghost predicate Leads(w: Wave, s: State, steps: seq<Step>, t: State)
    decreases |steps|
  {
    if steps == [] then s == t
    else Enabled(w, s, steps[0]) && Leads(w, Take(w, s, steps[0]), steps[1..], t)
  }

  lemma InitialInv(w: Wave)
    ensures Inv(w, Initial())
  {
    assert forall m :: HoldersOf(map[], m) == {};
    assert FreeZenHolders(map[]) == {};
  }

  lemma {:induction false} RunKeepsInv(w: Wave, s: State, steps: seq<Step>, t: State)
    requires Inv(w, s) && Leads(w, s, steps, t)
    ensures Inv(w, t)
    decreases |steps|
  {
    hide Inv, Enabled, Take;
    if steps != [] {
      StepKeepsInv(w, s, steps[0]);
      RunKeepsInv(w, Take(w, s, steps[0]), steps[1..], t);
    }
  }

  /** In every state of every run, crashes included, the reservations are within the caps, no more
      threads run than there are workers, and members were started once each, in spec order. */
  lemma RunIsSafe(w: Wave, steps: seq<Step>, s: State)
    requires Leads(w, Initial(), steps, s)
    ensures Inv(w, s) && WithinCaps(s.running) && |s.alive| <= Workers(w)
    ensures |s.launched| <= |w.models| && s.launched == seq(|s.launched|, i => i)
    ensures forall i :: i in s.running ==> i < |w.models| && s.running[i] == w.models[i]
  {
    InitialInv(w);
    RunKeepsInv(w, Initial(), steps, s);
  }
}
