/**
 * The generational entity/component store of src/ecs.js.
 *
 * An entity is a slot index tagged with a generation. A storage keeps, per
 * slot index, the generation a component was inserted under and the
 * component; it answers a lookup only when the generations agree, so a handle
 * to a deleted entity never reaches the component of the slot's next
 * occupant. The world allocates entities, recycles the slots of deleted ones,
 * keeps a tag set per slot and cascades a deletion over every storage
 * registered with it.
 */
module Ecs {

  datatype Option<T> = None | Some(value: T)

  /** How a call of the source ends: it returns a value, or it raises a TypeError by reading a property of null or undefined. */
  datatype Completion<T> = Returned(value: T) | Threw

  /** The element type of the `Uint32Array` that holds an entity. */
  type u32 = x: int | 0 <= x < 0x1_0000_0000

  /** `entity_new(pos, gen)`: a slot index and the generation of its occupant. */
  datatype Entity = Entity(index: nat, generation: u32)

  /** `entity[1] += 1` on a `Uint32Array`: the increment wraps around at 2^32. */
  function NextGeneration(g: u32): (r: u32)
    ensures r == (g + 1) % 0x1_0000_0000
    ensures r != g
  {
    if g == 0xFFFF_FFFF then 0 else g + 1
  }

  /** No element occurs twice. */
  predicate NoDuplicates<X(==)>(s: seq<X>)
  {
    forall i, j :: 0 <= i < j < |s| ==> s[i] != s[j]
  }

  // ---------------------------------------------------------------------------
  // Storages as values
  // ---------------------------------------------------------------------------

  /** An occupied slot of a storage: the generation the component was inserted under, and the component. */
  datatype Slot<T> = Slot(generation: u32, value: T)

  /** The sparse array `_store` of a storage; `None` is a slot that is null or was never written. */
  type Store<T> = seq<Option<Slot<T>>>

  /** What `get(e)` answers: the component, provided the slot is occupied under `e`'s generation. */
  function Lookup<T>(s: Store<T>, e: Entity): Option<T>
  {
    if e.index < |s| && s[e.index].Some? && s[e.index].value.generation == e.generation
    then Some(s[e.index].value.value)
    else None
  }

  /** Whether slot `i` holds no component of any generation. */
  predicate FreeIn<T>(s: Store<T>, i: nat)
  {
    i >= |s| || s[i].None?
  }

  /** The store after `insert(e, c)`: slot `e.index` is overwritten, slots between the old end and it are empty. */
  function Inserted<T>(s: Store<T>, e: Entity, c: T): (r: Store<T>)
    ensures |r| == if e.index < |s| then |s| else e.index + 1
    ensures r[e.index] == Some(Slot(e.generation, c))
    ensures forall i :: 0 <= i < |r| && i != e.index ==> r[i] == if i < |s| then s[i] else None
  {
    var grown := if e.index < |s| then s else s + seq(e.index + 1 - |s|, _ => None);
    grown[e.index := Some(Slot(e.generation, c))]
  }

  /** The store after `remove(e)`: the slot is emptied only when `e` is live in it. */
  function Removed<T>(s: Store<T>, e: Entity): Store<T>
  {
    if Lookup(s, e).Some? then s[e.index := None] else s
  }

  /** The store after removing each of `es` in turn. */
  function RemovedAll<T>(s: Store<T>, es: seq<Entity>): Store<T>
    decreases |es|
  {
    if es == [] then s else Removed(RemovedAll(s, es[..|es| - 1]), es[|es| - 1])
  }

  /** An insert is seen by its own entity, hides the slot from every other generation, and leaves other slots alone. */
  lemma LookupInserted<T>(s: Store<T>, e: Entity, c: T, x: Entity)
    ensures Lookup(Inserted(s, e, c), x) ==
      if x == e then Some(c)
      else if x.index == e.index then None
      else Lookup(s, x)
  {
  }

  /** A remove is seen by its own entity only. */
  lemma LookupRemoved<T>(s: Store<T>, e: Entity, x: Entity)
    ensures Lookup(Removed(s, e), x) == if x == e then None else Lookup(s, x)
  {
  }

  /** Removing several entities misses exactly those entities. */
  lemma {:induction false} LookupRemovedAll<T>(s: Store<T>, es: seq<Entity>, x: Entity)
    ensures Lookup(RemovedAll(s, es), x) == if x in es then None else Lookup(s, x)
    decreases |es|
  {
    if es != [] {
      var init := es[..|es| - 1];
      LookupRemovedAll(s, init, x);
      LookupRemoved(RemovedAll(s, init), es[|es| - 1], x);
      assert es == init + [es[|es| - 1]];
    }
  }

  /** At most one generation is live in a slot. */
  lemma LiveUnique<T>(s: Store<T>, x: Entity, y: Entity)
    requires Lookup(s, x).Some? && Lookup(s, y).Some? && x.index == y.index
    ensures x == y
  {
  }

  /** A prefix of a store answers like the whole store for the indices it covers. */
  lemma LookupPrefix<T>(s: Store<T>, n: nat, e: Entity)
    requires n <= |s| && e.index < n
    ensures Lookup(s[..n], e) == Lookup(s, e)
  {
  }

  // ---------------------------------------------------------------------------
  // Iteration
  // ---------------------------------------------------------------------------

  /** What `iter()` yields: every live (entity, component) pair of the store, in slot order. */
  function Entries<T>(s: Store<T>): (r: seq<(Entity, T)>)
    ensures forall k :: 0 <= k < |r| ==> Lookup(s, r[k].0) == Some(r[k].1)
    ensures forall e :: Lookup(s, e).Some? ==> (e, Lookup(s, e).value) in r
    ensures forall j, k :: 0 <= j < k < |r| ==> r[j].0.index < r[k].0.index
    decreases |s|
  {
    if s == [] then []
    else
      var n := |s| - 1;
      var init := Entries(s[..n]);
      assert forall k :: 0 <= k < |init| ==> init[k].0.index < n && Lookup(s, init[k].0) == Lookup(s[..n], init[k].0);
      assert forall e: Entity :: e.index < n ==> Lookup(s, e) == Lookup(s[..n], e);
      if s[n].Some? then init + [(Entity(n, s[n].value.generation), s[n].value.value)] else init
  }

  /** What `iter_values()` yields: the components of `iter()`, in the same order. */
  function Values<T>(s: Store<T>): (r: seq<T>)
    ensures |r| == |Entries(s)|
    ensures forall k :: 0 <= k < |r| ==> r[k] == Entries(s)[k].1
    decreases |s|
  {
    if s == [] then []
    else
      var n := |s| - 1;
      var init := Values(s[..n]);
      if s[n].Some? then init + [s[n].value.value] else init
  }

  /** What `find(func)` yields: every live entity whose component satisfies `p`, in slot order. */
  function Found<T>(s: Store<T>, p: T -> bool): (r: seq<Entity>)
    ensures forall k :: 0 <= k < |r| ==> Lookup(s, r[k]).Some? && p(Lookup(s, r[k]).value)
    ensures forall e :: Lookup(s, e).Some? && p(Lookup(s, e).value) ==> e in r
    ensures forall j, k :: 0 <= j < k < |r| ==> r[j].index < r[k].index
    decreases |s|
  {
    if s == [] then []
    else
      var n := |s| - 1;
      var init := Found(s[..n], p);
      FoundStep(s, p, init);
      if s[n].Some? && p(s[n].value.value) then init + [Entity(n, s[n].value.generation)] else init
  }

  /** The step of `Found` from the store without its last slot to the whole store. */
  lemma FoundStep<T>(s: Store<T>, p: T -> bool, init: seq<Entity>)
    requires |s| > 0
    requires forall k :: 0 <= k < |init| ==> Lookup(s[..|s| - 1], init[k]).Some? && p(Lookup(s[..|s| - 1], init[k]).value)
    requires forall e :: Lookup(s[..|s| - 1], e).Some? && p(Lookup(s[..|s| - 1], e).value) ==> e in init
    requires forall j, k :: 0 <= j < k < |init| ==> init[j].index < init[k].index
    ensures var n := |s| - 1;
      var r := if s[n].Some? && p(s[n].value.value) then init + [Entity(n, s[n].value.generation)] else init;
      && (forall k :: 0 <= k < |r| ==> Lookup(s, r[k]).Some? && p(Lookup(s, r[k]).value))
      && (forall e :: Lookup(s, e).Some? && p(Lookup(s, e).value) ==> e in r)
      && (forall j, k :: 0 <= j < k < |r| ==> r[j].index < r[k].index)
  {
    var n := |s| - 1;
    var r := if s[n].Some? && p(s[n].value.value) then init + [Entity(n, s[n].value.generation)] else init;
    forall k | 0 <= k < |init|
      ensures init[k].index < n && Lookup(s, init[k]) == Lookup(s[..n], init[k])
    {
      assert Lookup(s[..n], init[k]).Some?;
      LookupPrefix(s, n, init[k]);
    }
    forall k | 0 <= k < |r|
      ensures Lookup(s, r[k]).Some? && p(Lookup(s, r[k]).value)
    {
      if k < |init| {
        assert r[k] == init[k];
      }
    }
    forall e | Lookup(s, e).Some? && p(Lookup(s, e).value)
      ensures e in r
    {
      if e.index < n {
        LookupPrefix(s, n, e);
        assert e in init;
      } else {
        assert r[|r| - 1] == e;
      }
    }
  }

  /** A `Storage`: the sparse, generation-checked component array. */
  class Storage<T> {
    var store: Store<T>

    constructor()
      ensures store == []
    {
      store := [];
    }

    /** `get(e)`: the component of `e`, or nothing when the slot is empty or belongs to another generation. */
    function Get(e: Entity): (r: Option<T>)
      reads this
      ensures r.Some? <==> e.index < |store| && store[e.index].Some? && store[e.index].value.generation == e.generation
      ensures r.Some? ==> store[e.index] == Some(Slot(e.generation, r.value))
    {
      Lookup(store, e)
    }

    /** `contains(e)`: whether `get(e)` finds a component. */
    function Contains(e: Entity): (r: bool)
      reads this
      ensures r <==> exists k :: 0 <= k < |Entries(store)| && Entries(store)[k].0 == e
    {
      var r := Get(e).Some?;
      assert r ==> (e, Get(e).value) in Entries(store);
      r
    }

    /** `with(e, func)`: `func` applied to the component of `e`, when there is one. */
    function With<R>(e: Entity, func: T -> R): (r: Option<R>)
      reads this
      ensures r.Some? <==> Contains(e)
      ensures r.Some? ==> r.value == func(Get(e).value)
    {
      if Get(e).Some? then Some(func(Get(e).value)) else None
    }

    /** `insert(e, c)`. */
    method Insert(e: Entity, c: T)
      modifies this
      ensures store == Inserted(old(store), e, c)
    {
      if e.index < |store| {
        store := store[e.index := Some(Slot(e.generation, c))];
      } else {
        store := (store + seq(e.index + 1 - |store|, _ => None))[e.index := Some(Slot(e.generation, c))];
      }
    }

    /** `remove(e)`: empties the slot of a live `e` and hands back its component. */
    method Remove(e: Entity) returns (comp: Option<T>)
      modifies this
      ensures comp == Lookup(old(store), e)
      ensures store == Removed(old(store), e)
    {
      comp := Get(e);
      if comp.Some? {
        store := store[e.index := None];
      }
    }

    /**
     * `get_or(e, init)`: the component of `e`; otherwise `init()` is called and, when it gives a
     * component, that component is inserted and returned. `initCalled` says whether `init` ran.
     */
    method GetOr(e: Entity, init: () -> Option<T>) returns (r: Option<T>, initCalled: bool)
      modifies this
      ensures initCalled <==> Lookup(old(store), e).None?
      ensures !initCalled ==> r == Lookup(old(store), e) && store == old(store)
      ensures initCalled && init().None? ==> r == None && store == old(store)
      ensures initCalled && init().Some? ==> r == init() && store == Inserted(old(store), e, init().value)
    {
      r := Get(e);
      initCalled := false;
      if r.None? {
        initCalled := true;
        r := init();
        if r.Some? {
          Insert(e, r.value);
        }
      }
    }

    /** `take_with(e, func)`: removes the component of `e` and applies `func` to it. */
    method TakeWith<R>(e: Entity, func: T -> R) returns (r: Option<R>)
      modifies this
      ensures r.Some? <==> Lookup(old(store), e).Some?
      ensures r.Some? ==> r.value == func(Lookup(old(store), e).value)
      ensures store == Removed(old(store), e)
    {
      var comp := Remove(e);
      r := if comp.Some? then Some(func(comp.value)) else None;
    }

    /** `iter()` (and `_iter()`, which yields the same pairs as a slot index and a slot). */
    method Iter() returns (r: seq<(Entity, T)>)
      ensures r == Entries(store)
    {
      r := [];
      var idx := 0;
      while idx < |store|
        invariant 0 <= idx <= |store|
        invariant r == Entries(store[..idx])
      {
        assert store[..idx + 1][..idx] == store[..idx];
        if store[idx].Some? {
          r := r + [(Entity(idx, store[idx].value.generation), store[idx].value.value)];
        }
        idx := idx + 1;
      }
      assert store[..idx] == store;
    }

    /** `iter_values()`. */
    method IterValues() returns (r: seq<T>)
      ensures r == Values(store)
    {
      r := [];
      var idx := 0;
      while idx < |store|
        invariant 0 <= idx <= |store|
        invariant r == Values(store[..idx])
      {
        assert store[..idx + 1][..idx] == store[..idx];
        if store[idx].Some? {
          r := r + [store[idx].value.value];
        }
        idx := idx + 1;
      }
      assert store[..idx] == store;
    }

    /** `find(func)`. */
    method Find(p: T -> bool) returns (r: seq<Entity>)
      ensures r == Found(store, p)
    {
      r := [];
      var idx := 0;
      while idx < |store|
        invariant 0 <= idx <= |store|
        invariant r == Found(store[..idx], p)
      {
        assert store[..idx + 1][..idx] == store[..idx];
        if store[idx].Some? && p(store[idx].value.value) {
          r := r + [Entity(idx, store[idx].value.generation)];
        }
        idx := idx + 1;
      }
      assert store[..idx] == store;
    }
  }

  // ---------------------------------------------------------------------------
  // Entity allocation
  // ---------------------------------------------------------------------------

  /** Whether `create_entity` reuses the slot it pops: a popped 0 counts as "no slot" (`if (slot)`). */
  predicate Reuses(free: seq<nat>)
  {
    |free| > 0 && free[|free| - 1] != 0
  }

  /** The free stack after `pop()`; popping an empty stack leaves it empty. */
  function Popped(free: seq<nat>): (r: seq<nat>)
    ensures |free| > 0 ==> free == r + [free[|free| - 1]]
    ensures |free| == 0 ==> r == []
  {
    if free == [] then [] else free[..|free| - 1]
  }

  /** Every free slot index names a slot of the entity table. */
  predicate FreeBounded(entities: seq<Entity>, free: seq<nat>)
  {
    forall k :: 0 <= k < |free| ==> free[k] < |entities|
  }

  /** Slot `i` of the entity table holds an entity with index `i`. */
  predicate Indexed(entities: seq<Entity>)
  {
    forall i :: 0 <= i < |entities| ==> entities[i].index == i
  }

  /** The entity `create_entity` returns. */
  function Allocated(entities: seq<Entity>, free: seq<nat>): Entity
    requires FreeBounded(entities, free)
  {
    if Reuses(free) then
      var slot := free[|free| - 1];
      Entity(slot, NextGeneration(entities[slot].generation))
    else
      Entity(|entities|, 0)
  }

  /** The entity table after `create_entity`. */
  function EntitiesAfterCreate(entities: seq<Entity>, free: seq<nat>): seq<Entity>
    requires FreeBounded(entities, free)
  {
    if Reuses(free) then entities[free[|free| - 1] := Allocated(entities, free)]
    else entities + [Allocated(entities, free)]
  }

  /**
   * The entity `create_entity` returns differs from every entity the table
   * holds, so it is a new handle: never equal to a handle of the slot's
   * previous occupant.
   */
  lemma AllocatedIsNew(entities: seq<Entity>, free: seq<nat>)
    requires Indexed(entities) && FreeBounded(entities, free)
    ensures Allocated(entities, free) !in entities
    ensures Indexed(EntitiesAfterCreate(entities, free))
    ensures Allocated(entities, free) in EntitiesAfterCreate(entities, free)
  {
  }

  /**
   * Generational safety: once `e` is deleted (its components removed and its
   * slot pushed on the free stack), the next `create_entity` hands out a
   * different entity, and `e` finds nothing in a storage, even after the new
   * entity is given a component there.
   */
  lemma StaleHandleMisses<T>(entities: seq<Entity>, free: seq<nat>, s: Store<T>, e: Entity, c: T)
    requires Indexed(entities) && FreeBounded(entities, free)
    requires e in entities
    ensures FreeBounded(entities, free + [e.index])
    ensures Allocated(entities, free + [e.index]) != e
    ensures e.index != 0 ==> Allocated(entities, free + [e.index]).index == e.index
    ensures Lookup(Removed(s, e), e) == None
    ensures Lookup(Inserted(Removed(s, e), Allocated(entities, free + [e.index]), c), e) == None
  {
    var next := Allocated(entities, free + [e.index]);
    AllocatedIsNew(entities, free + [e.index]);
    LookupRemoved(s, e, e);
    LookupInserted(Removed(s, e), next, c, e);
  }

  /** The tag sets after `delete_entity` has cleared those of each of `es`. */
  function TagsCleared<G>(tags: seq<set<G>>, es: seq<Entity>): (r: seq<set<G>>)
    ensures |r| == |tags|
    ensures forall i :: 0 <= i < |r| ==> r[i] == if exists k :: 0 <= k < |es| && es[k].index == i then {} else tags[i]
    decreases |es|
  {
    if es == [] then tags
    else
      var init := TagsCleared(tags, es[..|es| - 1]);
      var last := es[|es| - 1];
      assert forall k :: 0 <= k < |es| - 1 ==> es[..|es| - 1][k] == es[k];
      if last.index < |init| then init[last.index := {}] else init
  }

  /** The slot indices of `es`, in order: what a sequence of `delete_entity` calls pushes on the free stack. */
  function Indices(es: seq<Entity>): (r: seq<nat>)
    ensures |r| == |es|
    ensures forall k :: 0 <= k < |es| ==> r[k] == es[k].index
  {
    seq(|es|, k requires 0 <= k < |es| => es[k].index)
  }

  // ---------------------------------------------------------------------------
  // The world
  // ---------------------------------------------------------------------------

  /** A `World`: the entity table, the free stack, the tag sets and the registered storages. */
  class World<T> {
    var entities: seq<Entity>
    var storages: seq<Storage<T>>
    var tags: seq<set<int>>
    var freeSlots: seq<nat>

    ghost predicate Valid()
      reads this
    {
      && |tags| == |entities|
      && Indexed(entities)
      && FreeBounded(entities, freeSlots)
      && NoDuplicates(storages)
    }

    constructor()
      ensures Valid()
      ensures entities == [] && storages == [] && tags == [] && freeSlots == []
    {
      entities := [];
      storages := [];
      tags := [];
      freeSlots := [];
    }

    /** `capacity`: the number of slots ever allocated. */
    function Capacity(): (r: nat)
      reads this
      ensures r == |entities|
    {
      |entities|
    }

    /** `free`: the number of slots waiting on the free stack. */
    function Free(): (r: nat)
      reads this
      ensures r == |freeSlots|
    {
      |freeSlots|
    }

    /** `create_entity()`: reuses the slot on top of the free stack, unless there is none or it is slot 0. */
    method CreateEntity() returns (e: Entity)
      requires Valid()
      modifies this
      ensures Valid()
      ensures e == Allocated(old(entities), old(freeSlots))
      ensures entities == EntitiesAfterCreate(old(entities), old(freeSlots))
      ensures freeSlots == Popped(old(freeSlots))
      ensures storages == old(storages)
      ensures Reuses(old(freeSlots)) ==>
        && e.index == old(freeSlots[|freeSlots| - 1])
        && e.generation == NextGeneration(old(entities[e.index].generation))
        && entities == old(entities)[e.index := e]
        && tags == old(tags)
      ensures !Reuses(old(freeSlots)) ==>
        && e == Entity(old(Capacity()), 0)
        && entities == old(entities) + [e]
        && tags == old(tags) + [{}]
      ensures Capacity() >= old(Capacity())
      ensures Free() == if old(Free()) == 0 then 0 else old(Free()) - 1
    {
      var slot: Option<nat> := if freeSlots == [] then None else Some(freeSlots[|freeSlots| - 1]);
      freeSlots := Popped(freeSlots);
      if slot.Some? && slot.value != 0 {
        e := Entity(slot.value, NextGeneration(entities[slot.value].generation));
        entities := entities[slot.value := e];
      } else {
        e := Entity(|entities|, 0);
        entities := entities + [e];
        tags := tags + [{}];
      }
    }

    /**
     * `delete_entity(e)`: clears the slot's tags, removes `e` from every
     * storage and frees the slot. An index past the table has no tag set, so
     * `tags(e).clear()` throws before anything changes.
     */
    method DeleteEntity(e: Entity) returns (threw: bool)
      requires Valid()
      modifies this, storages
      ensures Valid()
      ensures threw <==> e.index >= old(|tags|)
      ensures entities == old(entities) && storages == old(storages)
      ensures threw ==>
        && tags == old(tags) && freeSlots == old(freeSlots)
        && forall k :: 0 <= k < |storages| ==> storages[k].store == old(storages[k].store)
      ensures !threw ==>
        && tags == old(tags)[e.index := {}]
        && freeSlots == old(freeSlots) + [e.index]
        && forall k :: 0 <= k < |storages| ==> storages[k].store == Removed(old(storages[k].store), e)
      ensures Free() == if threw then old(Free()) else old(Free()) + 1
    {
      if e.index >= |tags| {
        return true;
      }
      threw := false;
      tags := tags[e.index := {}];
      var i := 0;
      while i < |storages|
        invariant 0 <= i <= |storages|
        invariant entities == old(entities) && storages == old(storages) && freeSlots == old(freeSlots)
        invariant tags == old(tags)[e.index := {}]
        invariant forall k :: 0 <= k < i ==> storages[k].store == Removed(old(storages[k].store), e)
        invariant forall k :: i <= k < |storages| ==> storages[k].store == old(storages[k].store)
      {
        var removed := storages[i].Remove(e);
        i := i + 1;
      }
      freeSlots := freeSlots + [e.index];
    }

    /** `tags(e)`: the tag set of `e`'s slot, looked up by index alone; nothing past the table. */
    function Tags(e: Entity): (r: Option<set<int>>)
      reads this
      ensures r.Some? <==> e.index < |tags|
      ensures r.Some? ==> r.value == tags[e.index]
    {
      if e.index < |tags| then Some(tags[e.index]) else None
    }

    /** `add_tag(e, tag)`; throws for an index past the table. */
    method AddTag(e: Entity, tag: int) returns (threw: bool)
      requires Valid()
      modifies this
      ensures Valid()
      ensures threw <==> old(Tags(e)).None?
      ensures !threw ==> tags == old(tags)[e.index := old(tags[e.index]) + {tag}]
      ensures threw ==> tags == old(tags)
      ensures entities == old(entities) && storages == old(storages) && freeSlots == old(freeSlots)
    {
      threw := e.index >= |tags|;
      if !threw {
        tags := tags[e.index := tags[e.index] + {tag}];
      }
    }

    /** `contains_tag(e, tag)`: keyed by slot index, so it ignores the generation of `e`; throws past the table. */
    function ContainsTag(e: Entity, tag: int): (r: Completion<bool>)
      reads this
      ensures r.Threw? <==> Tags(e).None?
      ensures r.Returned? ==> (r.value <==> tag in Tags(e).value)
    {
      if e.index < |tags| then Returned(tag in tags[e.index]) else Threw
    }

    /** Tags belong to the slot: two entities with the same index, of any generations, see the same tags. */
    lemma TagsIgnoreGeneration(a: Entity, b: Entity, tag: int)
      requires a.index == b.index
      ensures Tags(a) == Tags(b)
      ensures ContainsTag(a, tag) == ContainsTag(b, tag)
    {
    }

    /** `delete_tag(e, tag)`; throws for an index past the table. */
    method DeleteTag(e: Entity, tag: int) returns (threw: bool)
      requires Valid()
      modifies this
      ensures Valid()
      ensures threw <==> old(Tags(e)).None?
      ensures !threw ==> tags == old(tags)[e.index := old(tags[e.index]) - {tag}]
      ensures threw ==> tags == old(tags)
      ensures entities == old(entities) && storages == old(storages) && freeSlots == old(freeSlots)
    {
      threw := e.index >= |tags|;
      if !threw {
        tags := tags[e.index := tags[e.index] - {tag}];
      }
    }

    /** `register_storage()`: a new empty storage that future deletions also clear. */
    method RegisterStorage() returns (s: Storage<T>)
      requires Valid()
      modifies this
      ensures Valid()
      ensures fresh(s) && s.store == []
      ensures storages == old(storages) + [s]
      ensures entities == old(entities) && tags == old(tags) && freeSlots == old(freeSlots)
    {
      s := new Storage();
      storages := storages + [s];
    }
  }
}
