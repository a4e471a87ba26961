/** src/memory/slab.rs: an arena with a last-in first-out free list. */
module Slabs {
  import opened Wrappers
  import opened Rows

  /** The free list names each empty slot once and nothing else. */
  ghost predicate FreeExact<T>(slots: seq<Option<T>>, free: seq<nat>) {
    && NoDup(free)
    && (forall x: nat :: x in free <==> x < |slots| && slots[x].None?)
  }

  ghost function LiveSet<T>(slots: seq<Option<T>>): set<nat> {
    set x | 0 <= x < |slots| && slots[x].Some?
  }

  class Slab<T> {
    var slots: seq<Option<T>>
    var free: seq<nat>

    ghost predicate Valid()
      reads this
    {
      FreeExact(slots, free)
    }

    constructor ()
      ensures Valid() && slots == [] && free == []
    {
      slots, free := [], [];
    }

    /** A field-by-field copy, as the derived clone makes it. */
    constructor Copy(other: Slab<T>)
      ensures slots == other.slots && free == other.free
    {
      slots, free := other.slots, other.free;
    }

    method Insert(value: T) returns (key: nat)
      requires Valid()
      modifies this
      ensures Valid()
      ensures key == NextKey(|old(slots)|, old(free)) && key < |slots|
      ensures old(free) == [] ==> key == |old(slots)| && free == []
      ensures old(free) != [] ==> old(free) == free + [key]
      ensures key < |old(slots)| ==> old(slots)[key].None?
      ensures slots == if key < |old(slots)| then old(slots)[key := Some(value)] else old(slots) + [Some(value)]
      ensures free == PopFree(old(free))
    {
      if |free| > 0 {
        key := free[|free| - 1];
        assert key in free;
        free := free[..|free| - 1];
        slots := slots[key := Some(value)];
        assert old(free) == free + [key];
      } else {
        key := |slots|;
        slots := slots + [Some(value)];
      }
    }

    method Remove(key: nat) returns (r: Option<T>)
      requires Valid()
      modifies this
      ensures Valid()
      ensures r == old(Get(key))
      ensures r.None? ==> slots == old(slots) && free == old(free)
      ensures r.Some? ==> slots == old(slots)[key := None] && free == old(free) + [key]
    {
      if key >= |slots| || slots[key].None? {
        return None;
      }
      r := slots[key];
      slots := slots[key := None];
      assert key !in free;
      NoDupConcat(free, [key]);
      free := free + [key];
    }

    function Get(key: nat): (r: Option<T>)
      reads this
      ensures r.Some? <==> key < |slots| && slots[key].Some?
      ensures r.Some? ==> slots[key] == r
    {
      if key < |slots| then slots[key] else None
    }

    /** Indexing panics on a stale key, so a live one is required. */
    function At(key: nat): T
      requires key < |slots| && slots[key].Some?
      reads this
    {
      slots[key].value
    }

    method Put(key: nat, value: T)
      requires key < |slots| && slots[key].Some?
      modifies this
      ensures slots == old(slots)[key := Some(value)] && free == old(free)
      ensures old(Valid()) ==> Valid()
    {
      slots := slots[key := Some(value)];
    }

    /** The slot count less the free count is the number of live slots. */
    function Len(): (n: nat)
      requires Valid()
      reads this
      ensures n == |LiveSet(slots)|
    {
      LiveCount(slots, free);
      |slots| - |free|
    }
  }

  /** The slot that the next insertion fills: the one freed last, or a new one. */
  ghost function NextKey(size: nat, free: seq<nat>): nat {
    if |free| > 0 then free[|free| - 1] else size
  }

  ghost function PopFree(free: seq<nat>): seq<nat> {
    if |free| > 0 then free[..|free| - 1] else []
  }

  function Elements(s: seq<nat>): set<nat> {
    set x | x in s
  }

  lemma {:induction false} NoDupCount(s: seq<nat>)
    requires NoDup(s)
    ensures |Elements(s)| == |s|
  {
    if s != [] {
      NoDupCount(s[1..]);
      assert s[0] !in s[1..];
      assert Elements(s) == {s[0]} + Elements(s[1..]);
    }
  }

  lemma LiveCount<T>(slots: seq<Option<T>>, free: seq<nat>)
    requires FreeExact(slots, free)
    ensures |LiveSet(slots)| == |slots| - |free|
  {
    var range := seq(|slots|, i => i);
    NoDupCount(range);
    NoDupCount(free);
    forall x | 0 <= x < |slots|
      ensures x in range
    {
      assert range[x] == x;
    }
    assert Elements(range) == LiveSet(slots) + Elements(free);
    assert LiveSet(slots) !! Elements(free);
  }
}
