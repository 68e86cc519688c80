/** The generational arena: slots, free set, and the operations as functions of the whole state. */
module Arena {
  import opened Collections
  import opened Numbers
  import opened Options

  const FIRST_GENERATION: u32 := 1
  /** The tombstone generation, never issued. */
  const RETIRED_GENERATION: u32 := 0xFFFF_FFFF
  const LAST_ISSUABLE_GENERATION: u32 := RETIRED_GENERATION - 1
  const MAX_SLOTS: nat := 0xFFFF_FFFF

  datatype EntityId = EntityId(index: nat, generation: u32)

  datatype Slot<T> = Slot(generation: u32, value: Option<T>)

  datatype State<T> = State(slots: seq<Slot<T>>, free: set<nat>, len: nat)

  /** The number of occupied slots. */
  function Occupied<T>(slots: seq<Slot<T>>): nat {
    if slots == [] then 0
    else Occupied(slots[..|slots| - 1]) + if slots[|slots| - 1].value.Some? then 1 else 0
  }

  /** A slot is occupied, free or retired, and its generation says which vacant kind it is. */
  predicate SlotOk<T>(slot: Slot<T>, free: bool) {
    && slot.generation != 0
    && if slot.value.Some? then !free && slot.generation != RETIRED_GENERATION
       else free <==> slot.generation != RETIRED_GENERATION
  }

  /** What every operation keeps. */
  ghost predicate Inv<T>(s: State<T>) {
    && |s.slots| <= MAX_SLOTS
    && (forall i :: i in s.free ==> i < |s.slots|)
    && (forall i :: 0 <= i < |s.slots| ==> SlotOk(s.slots[i], i in s.free))
    && s.len == Occupied(s.slots)
  }

  function Empty<T>(): State<T> {
    State([], {}, 0)
  }

  function Get<T>(s: State<T>, id: EntityId): Option<T> {
    if id.index < |s.slots| && s.slots[id.index].generation == id.generation then s.slots[id.index].value else None
  }

  ghost predicate IsLowest(i: nat, free: set<nat>) {
    i in free && forall j :: j in free ==> i <= j
  }

  lemma LowestExists(free: set<nat>) returns (low: nat)
    requires free != {}
    ensures IsLowest(low, free)
  {
    var i :| i in free;
    if free == {i} {
      low := i;
    } else {
      var rest := LowestExists(free - {i});
      assert forall j :: j in free ==> j == i || j in free - {i};
      low := if i < rest then i else rest;
    }
  }

  ghost function Lowest(free: set<nat>): (low: nat)
    requires free != {}
    ensures IsLowest(low, free)
  {
    assert exists i: nat :: IsLowest(i, free) by { var _ := LowestExists(free); }
    var low: nat :| IsLowest(low, free);
    low
  }

  /** Reuses the lowest free slot, else appends one; no id when the arena is full. */
  ghost function Insert<T>(s: State<T>, value: T): (State<T>, Option<EntityId>)
    requires Inv(s)
  {
    if s.free != {} then
      var i := Lowest(s.free);
      (State(s.slots[i := s.slots[i].(value := Some(value))], s.free - {i}, s.len + 1),
       Some(EntityId(i, s.slots[i].generation)))
    else if |s.slots| < MAX_SLOTS then
      (State(s.slots + [Slot(FIRST_GENERATION, Some(value))], s.free, s.len + 1),
       Some(EntityId(|s.slots|, FIRST_GENERATION)))
    else
      (s, None)
  }

  /** A slot that can be issued: neither live nor retired. */
  ghost predicate Available<T>(slot: Slot<T>) {
    slot.value.None? && slot.generation != RETIRED_GENERATION
  }

  /** An insert takes the lowest index that is neither live nor retired, leaves every other slot
      alone, and fails only when the index range is used up and every slot is live or retired. */
  lemma InsertTakesLowest<T>(s: State<T>, value: T)
    requires Inv(s)
    ensures Insert(s, value).1.None? <==>
            |s.slots| == MAX_SLOTS && forall j :: 0 <= j < |s.slots| ==> !Available(s.slots[j])
    ensures Insert(s, value).1.Some? ==>
              var (after, id) := (Insert(s, value).0, Insert(s, value).1.value);
              && id.index <= |s.slots| && id.index < MAX_SLOTS
              && (id.index < |s.slots| ==> Available(s.slots[id.index]))
              && (forall j :: 0 <= j < id.index ==> !Available(s.slots[j]) && after.slots[j] == s.slots[j])
              && (forall j :: id.index < j < |s.slots| ==> after.slots[j] == s.slots[j])
  {
    assert forall j :: 0 <= j < |s.slots| ==> (Available(s.slots[j]) <==> j in s.free);
    if i :| i in s.free {
      assert Available(s.slots[i]);
    }
  }

  /** The generation of a slot that is vacated at `g`. */
  function Bump(g: u32): u32 {
    if g < LAST_ISSUABLE_GENERATION then g + 1 else RETIRED_GENERATION
  }

  function Vacate<T>(slot: Slot<T>): Slot<T> {
    Slot(Bump(slot.generation), None)
  }

  ghost function Remove<T>(s: State<T>, id: EntityId): (State<T>, Option<T>)
    requires Inv(s)
  {
    var found := Get(s, id);
    if found.None? then (s, None)
    else
      assert Occupied(s.slots) > 0 by { OccupiedUpdate(s.slots, id.index, Vacate(s.slots[id.index])); }
      (State(s.slots[id.index := Vacate(s.slots[id.index])],
             if id.generation < LAST_ISSUABLE_GENERATION then s.free + {id.index} else s.free,
             s.len - 1),
       found)
  }

  lemma {:induction false} OccupiedUpdate<T>(slots: seq<Slot<T>>, i: nat, slot: Slot<T>)
    requires i < |slots|
    ensures Occupied(slots[i := slot]) ==
            Occupied(slots) - (if slots[i].value.Some? then 1 else 0) + (if slot.value.Some? then 1 else 0)
    decreases |slots|
  {
    var n := |slots| - 1;
    if i < n {
      OccupiedUpdate(slots[..n], i, slot);
      assert slots[i := slot][..n] == slots[..n][i := slot];
    } else {
      assert slots[i := slot][..n] == slots[..n];
    }
  }

  // --- Invariant -----------------------------------------------------------------------

  lemma InsertKeepsInv<T>(s: State<T>, value: T)
    requires Inv(s)
    ensures Inv(Insert(s, value).0)
  {
    if s.free != {} {
      ReuseKeepsInv(s, Lowest(s.free), value);
    } else if |s.slots| < MAX_SLOTS {
      assert (s.slots + [Slot(FIRST_GENERATION, Some(value))])[..|s.slots|] == s.slots;
    }
  }

  lemma ReuseKeepsInv<T>(s: State<T>, i: nat, value: T)
    requires Inv(s) && i in s.free
    ensures Inv(State(s.slots[i := s.slots[i].(value := Some(value))], s.free - {i}, s.len + 1))
  {
    assert SlotOk(s.slots[i], true);
    OccupiedUpdate(s.slots, i, s.slots[i].(value := Some(value)));
  }

  lemma RemoveKeepsInv<T>(s: State<T>, id: EntityId)
    requires Inv(s)
    ensures Inv(Remove(s, id).0)
  {
    if Get(s, id).Some? {
      assert SlotOk(s.slots[id.index], id.index in s.free);
      OccupiedUpdate(s.slots, id.index, Vacate(s.slots[id.index]));
    }
  }

  // --- Removing many -------------------------------------------------------------------

  function IdAt<T>(s: State<T>, i: nat): EntityId
    requires i < |s.slots|
  {
    EntityId(i, s.slots[i].generation)
  }

  predicate LiveAt<T>(s: State<T>, i: nat) {
    i < |s.slots| && s.slots[i].value.Some?
  }

  /** The ids that resolve. */
  function LiveIds<T>(s: State<T>): set<EntityId> {
    set i: nat | i < |s.slots| && LiveAt(s, i) :: IdAt(s, i)
  }

  /** The state with every id in `dead` removed, described slot by slot. */
  ghost function Vacated<T>(s: State<T>, dead: set<EntityId>): State<T> {
    var slots := seq(|s.slots|, i requires 0 <= i < |s.slots| =>
                       if LiveAt(s, i) && IdAt(s, i) in dead then Vacate(s.slots[i]) else s.slots[i]);
    State(slots,
          s.free + (set i: nat | i < |s.slots| && LiveAt(s, i) && IdAt(s, i) in dead
                                 && s.slots[i].generation < LAST_ISSUABLE_GENERATION),
          Occupied(slots))
  }

  ghost function RemoveAll<T>(s: State<T>, ids: seq<EntityId>): (after: State<T>)
    requires Inv(s)
    ensures Inv(after)
    decreases |ids|
  {
    if ids == [] then s
    else
      RemoveKeepsInv(s, ids[0]);
      RemoveAll(Remove(s, ids[0]).0, ids[1..])
  }

  ghost function Clear<T>(s: State<T>): State<T> {
    var slots := seq(|s.slots|, i requires 0 <= i < |s.slots| =>
                       if LiveAt(s, i) then Vacate(s.slots[i]) else s.slots[i]);
    State(slots,
          s.free + (set i: nat | i < |s.slots| && LiveAt(s, i) && s.slots[i].generation < LAST_ISSUABLE_GENERATION),
          0)
  }

  ghost function Elements<X>(s: seq<X>): set<X> {
    set x | x in s
  }

  lemma RemoveOneThenRest<T>(s: State<T>, id: EntityId, rest: set<EntityId>)
    requires Inv(s) && Get(s, id).Some? && id !in rest && rest <= LiveIds(s)
    ensures Vacated(Remove(s, id).0, rest) == Vacated(s, rest + {id})
    ensures rest <= LiveIds(Remove(s, id).0)
  {
    var after := Remove(s, id).0;
    var a, b := Vacated(after, rest), Vacated(s, rest + {id});
    assert id == IdAt(s, id.index);
    forall x | x in rest ensures x in LiveIds(after) {
      var i: nat :| i < |s.slots| && LiveAt(s, i) && x == IdAt(s, i);
      assert i != id.index;
      assert LiveAt(after, i) && IdAt(after, i) == x;
    }
    forall i | 0 <= i < |s.slots| ensures a.slots[i] == b.slots[i] {
      if i != id.index {
        assert after.slots[i] == s.slots[i];
      }
    }
    assert a.slots == b.slots;
    forall i: nat | i < |s.slots| ensures i in a.free <==> i in b.free {
      if i != id.index {
        assert after.slots[i] == s.slots[i];
      }
    }
    assert a.free == b.free;
  }

  /** Removing distinct live ids one after the other is removing them all at once. */
  lemma {:induction false} RemoveAllIsVacated<T>(s: State<T>, ids: seq<EntityId>)
    requires Inv(s) && Distinct(ids) && forall id :: id in ids ==> id in LiveIds(s)
    ensures RemoveAll(s, ids) == Vacated(s, Elements(ids))
    decreases |ids|
  {
    var all := Elements(ids);
    if ids == [] {
      assert Vacated(s, all).slots == s.slots;
      assert Vacated(s, all).free == s.free;
    } else {
      var id, tail := ids[0], ids[1..];
      var rest := Elements(tail);
      assert all == rest + {id};
      assert id !in rest;
      assert forall x :: x in rest ==> x in ids;
      RemoveKeepsInv(s, id);
      RemoveOneThenRest(s, id, rest);
      RemoveAllIsVacated(Remove(s, id).0, tail);
    }
  }

  /** Removing the same live ids in any two orders leaves the same arena. */
  lemma RemovalOrderIsIrrelevant<T>(s: State<T>, a: seq<EntityId>, b: seq<EntityId>)
    requires Inv(s) && Distinct(a) && Distinct(b) && Elements(a) == Elements(b)
    requires forall id :: id in a ==> id in LiveIds(s)
    ensures RemoveAll(s, a) == RemoveAll(s, b)
  {
    forall id | id in b ensures id in LiveIds(s) {
      assert id in Elements(b);
    }
    RemoveAllIsVacated(s, a);
    RemoveAllIsVacated(s, b);
  }

  lemma {:induction false} NoneOccupied<T>(slots: seq<Slot<T>>)
    requires forall i :: 0 <= i < |slots| ==> slots[i].value.None?
    ensures Occupied(slots) == 0
  {
    if slots != [] { NoneOccupied(slots[..|slots| - 1]); }
  }

  /** Clearing is removing every live id, in any order. */
  lemma ClearRemovesEverything<T>(s: State<T>, ids: seq<EntityId>)
    requires Inv(s) && Distinct(ids) && Elements(ids) == LiveIds(s)
    ensures RemoveAll(s, ids) == Clear(s) && Inv(Clear(s))
  {
    forall id | id in ids ensures id in LiveIds(s) {
      assert id in Elements(ids);
    }
    RemoveAllIsVacated(s, ids);
    var v, c := Vacated(s, LiveIds(s)), Clear(s);
    assert forall i: nat :: i < |s.slots| && LiveAt(s, i) ==> IdAt(s, i) in LiveIds(s);
    assert v.slots == c.slots;
    assert v.free == c.free;
    NoneOccupied(c.slots);
  }

  // --- Runs ----------------------------------------------------------------------------

  datatype Op<T> = DoInsert(value: T) | DoRemove(id: EntityId) | DoClear | DoReload

  /** The arena after one operation; `DoReload` is a save followed by a load. */
  ghost function Step<T>(s: State<T>, op: Op<T>): (after: State<T>)
    requires Inv(s)
    ensures Inv(after)
  {
    match op
    case DoInsert(value) => InsertKeepsInv(s, value); Insert(s, value).0
    case DoRemove(id) => RemoveKeepsInv(s, id); Remove(s, id).0
    case DoClear => ClearKeepsInv(s); Clear(s)
    case DoReload => State(s.slots, s.free, Occupied(s.slots))
  }

  lemma ClearKeepsInv<T>(s: State<T>)
    requires Inv(s)
    ensures Inv(Clear(s))
  {
    var c := Clear(s);
    forall i | 0 <= i < |c.slots| ensures SlotOk(c.slots[i], i in c.free) {
      assert SlotOk(s.slots[i], i in s.free);
    }
    NoneOccupied(c.slots);
  }

  ghost function Run<T>(s: State<T>, ops: seq<Op<T>>): (after: State<T>)
    requires Inv(s)
    ensures Inv(after)
    decreases |ops|
  {
    if ops == [] then s else Run(Step(s, ops[0]), ops[1..])
  }

  /** The id an operation issues, if any. */
  ghost function IssuedBy<T>(s: State<T>, op: Op<T>): seq<EntityId>
    requires Inv(s)
  {
    if op.DoInsert? && Insert(s, op.value).1.Some? then [Insert(s, op.value).1.value] else []
  }

  /** The ids a run issues, in order. */
  ghost function Issued<T>(s: State<T>, ops: seq<Op<T>>): seq<EntityId>
    requires Inv(s)
    decreases |ops|
  {
    if ops == [] then [] else IssuedBy(s, ops[0]) + Issued(Step(s, ops[0]), ops[1..])
  }

  /** The slot has moved up to or past the generation of this id, so the id may not be issued again. */
  ghost predicate Spent<T>(s: State<T>, id: EntityId) {
    && id.index < |s.slots| && id.generation != RETIRED_GENERATION
    && (if s.slots[id.index].value.Some? then id.generation <= s.slots[id.index].generation
        else id.generation < s.slots[id.index].generation)
  }

  ghost predicate Dead<T>(s: State<T>, id: EntityId) {
    Spent(s, id) && Get(s, id).None?
  }

  /** No operation gives a spent id back or brings a dead one to life. */
  lemma StepKeepsSpent<T>(s: State<T>, op: Op<T>, id: EntityId)
    requires Inv(s) && Spent(s, id)
    ensures Spent(Step(s, op), id)
    ensures Dead(s, id) ==> Dead(Step(s, op), id)
  {
  }

  /** An issued id is new, in the issuable range, and spent from then on. */
  lemma StepIssuesFresh<T>(s: State<T>, op: Op<T>, id: EntityId)
    requires Inv(s) && IssuedBy(s, op) == [id]
    ensures !Spent(s, id) && Spent(Step(s, op), id)
    ensures 1 <= id.generation <= LAST_ISSUABLE_GENERATION
    ensures Get(Step(s, op), id) == Some(op.value)
  {
  }

  lemma {:induction false} RunKeepsSpent<T>(s: State<T>, ops: seq<Op<T>>, id: EntityId)
    requires Inv(s) && Spent(s, id)
    ensures Spent(Run(s, ops), id) && id !in Issued(s, ops)
    ensures Dead(s, id) ==> Dead(Run(s, ops), id)
    decreases |ops|
  {
    if ops != [] {
      StepKeepsSpent(s, ops[0], id);
      RunKeepsSpent(Step(s, ops[0]), ops[1..], id);
      if IssuedBy(s, ops[0]) == [id] {
        StepIssuesFresh(s, ops[0], id);
        assert false;
      }
    }
  }

  /** No run issues an id twice, or one that was already spent when the run began. */
  lemma {:induction false} IssuedIdsAreDistinct<T>(s: State<T>, ops: seq<Op<T>>)
    requires Inv(s)
    ensures Distinct(Issued(s, ops))
    decreases |ops|
  {
    if ops != [] {
      var head, after := IssuedBy(s, ops[0]), Step(s, ops[0]);
      IssuedIdsAreDistinct(after, ops[1..]);
      if head != [] {
        StepIssuesFresh(s, ops[0], head[0]);
        RunKeepsSpent(after, ops[1..], head[0]);
      }
    }
  }

  lemma VacatedIdIsDead<T>(s: State<T>, id: EntityId)
    requires Inv(s) && Get(s, id).Some?
    ensures Dead(Remove(s, id).0, id) && Dead(Clear(s), id)
  {
  }

  /** A removed or cleared id never resolves and is never issued in any later run, even when its
      slot is reused or retired. */
  lemma RemovedIdsStayDead<T>(s: State<T>, id: EntityId, cleared: bool, ops: seq<Op<T>>)
    requires Inv(s) && Get(s, id).Some?
    ensures var after := Step(s, if cleared then DoClear else DoRemove(id));
      Get(Run(after, ops), id) == None && id !in Issued(after, ops)
  {
    VacatedIdIsDead(s, id);
    RunKeepsSpent(Step(s, if cleared then DoClear else DoRemove(id)), ops, id);
  }

  /** Until it is removed or cleared, a live id keeps resolving to the same value. */
  lemma {:induction false} LiveUntilRemoved<T>(s: State<T>, ops: seq<Op<T>>, id: EntityId)
    requires Inv(s) && Get(s, id).Some?
    requires forall k :: 0 <= k < |ops| ==> ops[k] != DoRemove(id) && ops[k] != DoClear
    ensures Get(Run(s, ops), id) == Get(s, id)
    decreases |ops|
  {
    if ops != [] {
      assert ops[0] != DoRemove(id) && ops[0] != DoClear;
      StepKeepsLive(s, ops[0], id);
      LiveUntilRemoved(Step(s, ops[0]), ops[1..], id);
    }
  }

  lemma StepKeepsLive<T>(s: State<T>, op: Op<T>, id: EntityId)
    requires Inv(s) && Get(s, id).Some? && op != DoRemove(id) && op != DoClear
    ensures Get(Step(s, op), id) == Get(s, id)
  {
  }

  /** The run without its saves and loads. */
  ghost function WithoutReloads<T>(ops: seq<Op<T>>): seq<Op<T>> {
    if ops == [] then []
    else (if ops[0] == DoReload then [] else [ops[0]]) + WithoutReloads(ops[1..])
  }

  /** Saving and loading at any points of a run changes neither the arena nor any id it issues. */
  lemma {:induction false} ReloadsAreInvisible<T>(s: State<T>, ops: seq<Op<T>>)
    requires Inv(s)
    ensures Run(s, ops) == Run(s, WithoutReloads(ops)) && Issued(s, ops) == Issued(s, WithoutReloads(ops))
    decreases |ops|
  {
    if ops != [] {
      var kept := WithoutReloads(ops[1..]);
      ReloadsAreInvisible(Step(s, ops[0]), ops[1..]);
      if ops[0] == DoReload {
        assert Step(s, ops[0]) == s;
        assert WithoutReloads(ops) == kept;
      } else {
        assert ([ops[0]] + kept)[1..] == kept;
      }
    }
  }

  // --- Loading -------------------------------------------------------------------------

  datatype LoadError =
    | SlotCount | FreeIndexRange | GenerationZero
    | OccupiedAtRetired | OccupiedButFree | RetiredButFree | VacantNotFree

  datatype Loaded<T> = Accepted(state: State<T>) | Corrupt(error: LoadError)

  function SlotDefect<T>(slot: Slot<T>, free: bool): Option<LoadError> {
    if slot.generation == 0 then Some(GenerationZero)
    else if slot.value.Some? && slot.generation == RETIRED_GENERATION then Some(OccupiedAtRetired)
    else if slot.value.Some? && free then Some(OccupiedButFree)
    else if slot.value.None? && free && slot.generation == RETIRED_GENERATION then Some(RetiredButFree)
    else if slot.value.None? && !free && slot.generation != RETIRED_GENERATION then Some(VacantNotFree)
    else None
  }

  /** The defect of the first bad slot from index `k` on. */
  ghost function FirstSlotDefect<T>(slots: seq<Slot<T>>, free: set<nat>, k: nat): Option<LoadError>
    decreases if k < |slots| then |slots| - k else 0
  {
    if k >= |slots| then None
    else if SlotDefect(slots[k], k in free).Some? then SlotDefect(slots[k], k in free)
    else FirstSlotDefect(slots, free, k + 1)
  }

  ghost function FirstDefect<T>(slots: seq<Slot<T>>, free: set<nat>): Option<LoadError> {
    if |slots| > MAX_SLOTS then Some(SlotCount)
    else if exists i :: i in free && i >= |slots| then Some(FreeIndexRange)
    else FirstSlotDefect(slots, free, 0)
  }

  /** What each error says of the slot it is reported for. */
  ghost predicate ErrorOf<T>(slot: Slot<T>, free: bool, error: LoadError) {
    match error
    case GenerationZero => slot.generation == 0
    case OccupiedAtRetired => slot.value.Some? && slot.generation == RETIRED_GENERATION
    case OccupiedButFree => slot.value.Some? && free && 0 < slot.generation < RETIRED_GENERATION
    case RetiredButFree => slot.value.None? && free && slot.generation == RETIRED_GENERATION
    case VacantNotFree => slot.value.None? && !free && 0 < slot.generation < RETIRED_GENERATION
    case _ => false
  }

  ghost predicate FirstBadSlot<T>(slots: seq<Slot<T>>, free: set<nat>, k: nat, i: nat, error: LoadError) {
    && k <= i < |slots| && ErrorOf(slots[i], i in free, error)
    && forall j :: k <= j < i ==> SlotOk(slots[j], j in free)
  }

  lemma {:induction false} SlotDefectMeans<T>(slots: seq<Slot<T>>, free: set<nat>, k: nat)
    ensures FirstSlotDefect(slots, free, k).Some? ==>
              exists i: nat :: FirstBadSlot(slots, free, k, i, FirstSlotDefect(slots, free, k).value)
    decreases if k < |slots| then |slots| - k else 0
  {
    if k < |slots| {
      var here, found := SlotDefect(slots[k], k in free), FirstSlotDefect(slots, free, k);
      if here.Some? {
        assert FirstBadSlot(slots, free, k, k, here.value);
      } else if found.Some? {
        SlotDefectMeans(slots, free, k + 1);
        var i: nat :| FirstBadSlot(slots, free, k + 1, i, found.value);
        assert FirstBadSlot(slots, free, k, i, found.value);
      }
    }
  }

  /** The loader's error: too many slots, else a free index that is no slot, else what is wrong with
      the first bad slot. */
  lemma FirstDefectMeans<T>(slots: seq<Slot<T>>, free: set<nat>)
    ensures FirstDefect(slots, free) == Some(SlotCount) <==> |slots| > MAX_SLOTS
    ensures FirstDefect(slots, free) == Some(FreeIndexRange) <==>
            |slots| <= MAX_SLOTS && exists i :: i in free && i >= |slots|
    ensures |slots| <= MAX_SLOTS && (forall i :: i in free ==> i < |slots|) && FirstDefect(slots, free).Some? ==>
              exists i: nat :: FirstBadSlot(slots, free, 0, i, FirstDefect(slots, free).value)
  {
    hide FirstSlotDefect;
    SlotDefectMeans(slots, free, 0);
  }

  /** Rebuilds an arena from its slots and free list: accepted exactly when the invariant holds
      with the length recomputed, and otherwise the first defect found is reported. */
  method Load<T>(slots: seq<Slot<T>>, free: set<nat>) returns (r: Loaded<T>)
    ensures r.Accepted? <==> Inv(State(slots, free, Occupied(slots)))
    ensures r == if FirstDefect(slots, free).Some? then Corrupt(FirstDefect(slots, free).value)
                 else Accepted(State(slots, free, Occupied(slots)))
  {
    if |slots| > MAX_SLOTS {
      return Corrupt(SlotCount);
    }
    if exists i :: i in free && i >= |slots| {
      return Corrupt(FreeIndexRange);
    }
    var len := 0;
    for index := 0 to |slots|
      invariant FirstSlotDefect(slots, free, 0) == FirstSlotDefect(slots, free, index)
      invariant forall i :: 0 <= i < index ==> SlotOk(slots[i], i in free)
      invariant len == Occupied(slots[..index])
    {
      var slot := slots[index];
      var defect := SlotDefect(slot, index in free);
      assert defect.None? <==> SlotOk(slot, index in free);
      assert slots[..index + 1][..index] == slots[..index];
      if defect.Some? {
        return Corrupt(defect.value);
      }
      if slot.value.Some? {
        len := len + 1;
      }
    }
    assert slots[..|slots|] == slots;
    return Accepted(State(slots, free, len));
  }

  /** Every arena any run reaches from the empty one is accepted by the loader unchanged. */
  lemma ReachableArenasLoad<T>(ops: seq<Op<T>>)
    ensures var s := Run(Empty<T>(), ops);
      Inv(s) && FirstDefect(s.slots, s.free) == None && State(s.slots, s.free, Occupied(s.slots)) == s
  {
    var s := Run(Empty<T>(), ops);
    SoundHasNoDefect(s, 0);
  }

  lemma {:induction false} SoundHasNoDefect<T>(s: State<T>, k: nat)
    requires Inv(s)
    ensures FirstSlotDefect(s.slots, s.free, k) == None
    decreases if k < |s.slots| then |s.slots| - k else 0
  {
    if k < |s.slots| {
      assert SlotOk(s.slots[k], k in s.free);
      SoundHasNoDefect(s, k + 1);
    }
  }
}
