/** The arena as an object that updates its slots, free set and length in place. */
module GenerationalArenas {
  import A = Arena
  import opened Options

  class GenerationalArena<T> {
    var slots: seq<A.Slot<T>>
    var free: set<nat>
    var len: nat

    ghost function Contents(): A.State<T>
      reads this
    {
      A.State(slots, free, len)
    }

    ghost predicate Valid()
      reads this
    {
      A.Inv(Contents())
    }

    constructor ()
      ensures Valid() && Contents() == A.Empty()
    {
      slots, free, len := [], {}, 0;
    }

    /** Issues an id for `value`, or none when all slot indices are taken. */
    method Insert(value: T) returns (id: Option<A.EntityId>)
      requires Valid()
      modifies this
      ensures Valid() && (Contents(), id) == A.Insert(old(Contents()), value)
    {
      A.InsertKeepsInv(Contents(), value);
      if free != {} {
        ghost var low := A.Lowest(free);
        assert low in free && forall j :: j in free ==> low <= j;
        var index :| index in free && forall j :: j in free ==> index <= j;
        assert index == low;
        assert A.SlotOk(slots[index], true);
        free := free - {index};
        slots := slots[index := slots[index].(value := Some(value))];
        len := len + 1;
        id := Some(A.EntityId(index, slots[index].generation));
      } else if |slots| < A.MAX_SLOTS {
        id := Some(A.EntityId(|slots|, A.FIRST_GENERATION));
        slots := slots + [A.Slot(A.FIRST_GENERATION, Some(value))];
        len := len + 1;
      } else {
        id := None;
      }
    }

    /** Removes the entry `id` addresses, if it addresses one. */
    method Remove(id: A.EntityId) returns (removed: Option<T>)
      requires Valid()
      modifies this
      ensures Valid() && (Contents(), removed) == A.Remove(old(Contents()), id)
    {
      A.RemoveKeepsInv(Contents(), id);
      if id.index >= |slots| || slots[id.index].generation != id.generation {
        return None;
      }
      removed := slots[id.index].value;
      if removed.None? {
        return;
      }
      A.OccupiedUpdate(slots, id.index, A.Vacate(slots[id.index]));
      len := len - 1;
      RetireOrFree(id.index);
    }

    /** Vacates a slot and advances its generation, freeing it unless that exhausts it. */
    method RetireOrFree(index: nat)
      requires index < |slots|
      modifies this`slots, this`free
      ensures slots == old(slots)[index := A.Vacate(old(slots)[index])]
      ensures free == if old(slots)[index].generation < A.LAST_ISSUABLE_GENERATION then old(free) + {index}
                      else old(free)
    {
      var generation := slots[index].generation;
      if generation < A.LAST_ISSUABLE_GENERATION {
        slots := slots[index := A.Slot(generation + 1, None)];
        free := free + {index};
      } else {
        slots := slots[index := A.Slot(A.RETIRED_GENERATION, None)];
      }
    }

    /** Removes every entry, slot by slot. */
    method Clear()
      requires Valid()
      modifies this
      ensures Valid() && Contents() == A.Clear(old(Contents()))
    {
      ghost var before := Contents();
      ghost var target := A.Clear(before);
      A.ClearKeepsInv(before);
      for index := 0 to |slots|
        invariant |slots| == |before.slots|
        invariant forall i :: 0 <= i < |slots| ==> slots[i] == if i < index then target.slots[i] else before.slots[i]
        invariant forall i :: i in free <==> i in before.free || (i < index && i in target.free)
      {
        if slots[index].value.Some? {
          RetireOrFree(index);
        }
      }
      len := 0;
      assert slots == target.slots && free == target.free;
    }

    /** The live entries in ascending index order. */
    method Iter() returns (entries: seq<(A.EntityId, T)>)
      requires Valid()
      ensures forall i, j :: 0 <= i < j < |entries| ==> entries[i].0.index < entries[j].0.index
      ensures forall id, value :: (id, value) in entries <==> A.Get(Contents(), id) == Some(value)
      ensures |entries| == len
    {
      entries := [];
      for index := 0 to |slots|
        invariant forall i, j :: 0 <= i < j < |entries| ==> entries[i].0.index < entries[j].0.index
        invariant forall id, value :: (id, value) in entries <==>
                    id.index < index && A.Get(Contents(), id) == Some(value)
        invariant |entries| == A.Occupied(slots[..index])
      {
        assert slots[..index + 1][..index] == slots[..index];
        if slots[index].value.Some? {
          entries := entries + [(A.EntityId(index, slots[index].generation), slots[index].value.value)];
        }
      }
      assert slots[..|slots|] == slots;
    }
  }
}
