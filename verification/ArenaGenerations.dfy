/** How slots use up their generations: one at a time, all of them, and only then retire. */
module ArenaGenerations {
  import opened Arena
  import opened Numbers
  import opened Options

  /** How many ids a slot has issued in its life. */
  ghost function IssuedAt<T>(s: State<T>, index: nat): nat
    requires Inv(s)
  {
    if index >= |s.slots| then 0
    else if s.slots[index].value.Some? then s.slots[index].generation
    else
      assert SlotOk(s.slots[index], index in s.free);
      s.slots[index].generation - 1
  }

  /** The generations of the ids with one index, in their order. */
  ghost function GenerationsAt(ids: seq<EntityId>, index: nat): seq<int> {
    if ids == [] then []
    else (if ids[0].index == index then [ids[0].generation] else []) + GenerationsAt(ids[1..], index)
  }

  /** The numbers above `low` up to `high`. */
  ghost function Above(low: nat, high: nat): seq<int>
    requires low <= high
  {
    seq(high - low, k => low + 1 + k)
  }

  /** A step adds one to the count of the slot it issues from, under exactly the next generation, and
      changes no other count. */
  lemma StepCounts<T>(s: State<T>, op: Op<T>, index: nat)
    requires Inv(s)
    ensures IssuedAt(Step(s, op), index) ==
            IssuedAt(s, index) + if IssuedBy(s, op) != [] && IssuedBy(s, op)[0].index == index then 1 else 0
    ensures IssuedBy(s, op) != [] && IssuedBy(s, op)[0].index == index ==>
              IssuedBy(s, op)[0].generation == IssuedAt(s, index) + 1
  {
    if index < |s.slots| {
      assert SlotOk(s.slots[index], index in s.free);
    }
    match op
    case DoInsert(value) => InsertTakesLowest(s, value);
    case DoRemove(id) =>
    case DoClear =>
    case DoReload =>
  }

  lemma GenerationsOfCons(id: EntityId, ids: seq<EntityId>, index: nat)
    ensures GenerationsAt([id] + ids, index) ==
            (if id.index == index then [id.generation] else []) + GenerationsAt(ids, index)
  {
    assert ([id] + ids)[1..] == ids;
  }

  /** From any state, the ids a run issues at one index have the next generations, one after another. */
  lemma {:induction false} GenerationsCountUp<T>(s: State<T>, ops: seq<Op<T>>, index: nat)
    requires Inv(s)
    ensures IssuedAt(s, index) <= IssuedAt(Run(s, ops), index)
    ensures GenerationsAt(Issued(s, ops), index) == Above(IssuedAt(s, index), IssuedAt(Run(s, ops), index))
    decreases |ops|
  {
    hide Inv, Step, IssuedBy, IssuedAt, GenerationsAt, Above;
    if ops == [] {
      NothingAbove(IssuedAt(s, index));
    } else {
      var op, after := ops[0], Step(s, ops[0]);
      GenerationsCountUp(after, ops[1..], index);
      StepCounts(s, op, index);
      IssuesAtMostOne(s, op);
      Prepend(IssuedBy(s, op), Issued(after, ops[1..]), index, IssuedAt(s, index), IssuedAt(after, index),
              IssuedAt(Run(after, ops[1..]), index));
    }
  }

  lemma NothingAbove(n: nat)
    ensures GenerationsAt([], 0) == Above(n, n) == [] && forall i: nat :: GenerationsAt([], i) == []
  {
  }

  lemma Prepend(head: seq<EntityId>, rest: seq<EntityId>, index: nat, low: nat, mid: nat, high: nat)
    requires |head| <= 1 && mid <= high && GenerationsAt(rest, index) == Above(mid, high)
    requires mid == low + if head != [] && head[0].index == index then 1 else 0
    requires head != [] && head[0].index == index ==> head[0].generation == low + 1
    ensures GenerationsAt(head + rest, index) == Above(low, high)
  {
    if head != [] {
      assert head == [head[0]];
      GenerationsOfCons(head[0], rest, index);
    } else {
      assert head + rest == rest;
    }
  }

  lemma IssuesAtMostOne<T>(s: State<T>, op: Op<T>)
    requires Inv(s)
    ensures |IssuedBy(s, op)| <= 1
  {
  }

  /** From the empty arena, the ids issued at one index have generations 1, 2, 3 and so on without a
      gap, and a slot is retired only after every issuable generation of it was issued. */
  lemma NoGenerationIsSkipped<T>(ops: seq<Op<T>>, index: nat)
    ensures GenerationsAt(Issued(Empty<T>(), ops), index) == Above(0, IssuedAt(Run(Empty<T>(), ops), index))
    ensures index < |Run(Empty<T>(), ops).slots|
            && Run(Empty<T>(), ops).slots[index].generation == RETIRED_GENERATION ==>
              GenerationsAt(Issued(Empty<T>(), ops), index) == Above(0, 0xFFFF_FFFE)
  {
    var s := Run(Empty<T>(), ops);
    GenerationsCountUp(Empty<T>(), ops, index);
    if index < |s.slots| {
      assert SlotOk(s.slots[index], index in s.free);
    }
    hide Run, Issued;
  }

  /** A removal returns the value it takes out, and without a match changes nothing. */
  lemma RemovalReturnsValue<T>(s: State<T>, id: EntityId)
    requires Inv(s)
    ensures Remove(s, id).1 == Get(s, id)
    ensures Get(s, id).None? ==> Remove(s, id).0 == s
    ensures Get(s, id).Some? ==> Remove(s, id).0.len == s.len - 1 && Get(Remove(s, id).0, id).None?
  {
  }
}
