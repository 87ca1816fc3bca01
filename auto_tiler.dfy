/**
 * The `AutoTiler` of src/auto_tiler.js: a world whose first storage holds the
 * tiling forks, with the operations that attach a window next to another,
 * detach a window, create a fork and tile a tree.
 */
module AutoTiling {
  import opened Ecs
  import opened Tiling
  import opened Detaching

  /**
   * Whether the scan of `attach_window` stops at this fork: it holds
   * `Window(onto)` on a branch, or its left branch is null and the
   * `fork.left.is_window` test throws.
   */
  predicate StopsAt(f: TilingFork, onto: Entity)
  {
    || f.left.None?
    || f.left.value.IsWindow(onto)
    || (f.right.Some? && f.right.value.IsWindow(onto))
  }

  /** The position of the first fork of `es` that the scan stops at, or `|es|`. */
  function ScanIndex(es: seq<(Entity, TilingFork)>, onto: Entity): (k: nat)
    ensures k <= |es|
    ensures forall j :: 0 <= j < k ==> !StopsAt(es[j].1, onto)
    ensures k < |es| ==> StopsAt(es[k].1, onto)
    decreases |es|
  {
    if es == [] then 0
    else if StopsAt(es[0].1, onto) then 0
    else 1 + ScanIndex(es[1..], onto)
  }

  /** What `attach_window(onto, ..)` does, decided by the first fork its scan stops at. */
  datatype AttachPoint =
    | NoAttachPoint
    | NullLeft(entity: Entity, fork: TilingFork)
    | FillRight(entity: Entity, fork: TilingFork)
    | SplitLeft(entity: Entity, fork: TilingFork)
    | SplitRight(entity: Entity, fork: TilingFork)

  function AttachPointOf(s: ForkStore, onto: Entity): AttachPoint
  {
    var es := Entries(s);
    var k := ScanIndex(es, onto);
    if k == |es| then NoAttachPoint
    else
      var (e, f) := es[k];
      if f.left.None? then NullLeft(e, f)
      else if f.left.value.IsWindow(onto) then
        if f.right.Some? then SplitLeft(e, f) else FillRight(e, f)
      else SplitRight(e, f)
  }

  /**
   * The scan finds nothing exactly when no live fork holds `Window(onto)` or
   * has a null left; otherwise it acts on the live fork with the lowest slot
   * index that does, and the case matches that fork's branches: a null left
   * met first is where `fork.left.is_window` throws.
   */
  lemma AttachPointFirstMatch(s: ForkStore, onto: Entity)
    ensures var p := AttachPointOf(s, onto);
      && (p.NoAttachPoint? <==> forall x :: Lookup(s, x).Some? ==> !StopsAt(Lookup(s, x).value, onto))
      && (!p.NoAttachPoint? ==>
            && Lookup(s, p.entity) == Some(p.fork)
            && (forall x :: Lookup(s, x).Some? && x.index < p.entity.index ==> !StopsAt(Lookup(s, x).value, onto)))
      && (p.FillRight? ==> p.fork.left == Some(WindowNode(onto)) && p.fork.right.None?)
      && (p.SplitLeft? ==> p.fork.left == Some(WindowNode(onto)) && p.fork.right.Some?)
      && (p.SplitRight? ==> p.fork.left.Some? && !p.fork.left.value.IsWindow(onto) && p.fork.right == Some(WindowNode(onto)))
      && (p.NullLeft? ==> p.fork.left.None?)
  {
    var es := Entries(s);
    var k := ScanIndex(es, onto);
    forall x | Lookup(s, x).Some? && (k == |es| || x.index < es[k].0.index)
      ensures !StopsAt(Lookup(s, x).value, onto)
    {
      assert (x, Lookup(s, x).value) in es;
      var j :| 0 <= j < |es| && es[j] == (x, Lookup(s, x).value);
    }
    if k < |es| {
      assert Lookup(s, es[k].0) == Some(es[k].1);
    }
  }

  /**
   * `_attach`: with a new fork, both windows are associated with it, `onto`
   * first; otherwise the new window is associated with the fork that took it.
   * Every call names the returned fork, and the new window comes last.
   */
  function FinishAttach(onto: Entity, newWindow: Entity, entity: Entity, fork: TilingFork,
                        result: Option<(Entity, TilingFork)>): (r: (seq<Assoc>, (Entity, TilingFork)))
    ensures |r.0| >= 1 && r.0[|r.0| - 1] == Assoc(r.1.0, newWindow)
    ensures forall a :: a in r.0 ==> a.fork == r.1.0
    ensures result.Some? ==> r.1 == result.value && r.0 == [Assoc(r.1.0, onto), Assoc(r.1.0, newWindow)]
    ensures result.None? ==> r.1 == (entity, fork) && |r.0| == 1
  {
    if result.Some? then
      ([Assoc(result.value.0, onto), Assoc(result.value.0, newWindow)], result.value)
    else
      ([Assoc(entity, newWindow)], (entity, fork))
  }

  /** Overwriting a live slot keeps the store's length and its empty slots. */
  lemma OverwriteKeepsFree<T>(s: Store<T>, e: Entity, c: T)
    requires Lookup(s, e).Some?
    ensures |Inserted(s, e, c)| == |s|
    ensures forall i :: FreeIn(Inserted(s, e, c), i) <==> FreeIn(s, i)
  {
  }

  /** An `AutoTiler`: the world, and its fork storage, registered first. */
  class AutoTiler {
    const world: World<TilingFork>
    const forks: Storage<TilingFork>

    /**
     * The fork storage is the world's first storage, has no slot beyond the
     * entity table, and every slot on the free stack, which holds no index
     * twice, is empty.
     */
    ghost predicate Valid()
      reads this, world, forks
    {
      && world.Valid()
      && |world.storages| > 0 && world.storages[0] == forks
      && |forks.store| <= |world.entities|
      && (forall k :: 0 <= k < |world.freeSlots| ==> FreeIn(forks.store, world.freeSlots[k]))
      && NoDuplicates(world.freeSlots)
    }

    constructor()
      ensures Valid()
      ensures fresh(world) && fresh(forks)
      ensures world.entities == [] && world.freeSlots == [] && world.storages == [forks] && forks.store == []
    {
      var w := new World<TilingFork>();
      var f := w.RegisterStorage();
      world := w;
      forks := f;
    }

    /**
     * `create_fork(left, right)`: a new entity carrying a new fork with those
     * branches, no parent, the default ratio and horizontal orientation. Its
     * slot held no fork.
     */
    method CreateFork(left: TilingNode, right: Option<TilingNode>) returns (e: Entity, fork: TilingFork)
      requires Valid()
      modifies world, forks
      ensures Valid()
      ensures fork == TilingFork(Some(left), right, None, DefaultRatio, Horizontal, None)
      ensures e == Allocated(old(world.entities), old(world.freeSlots))
      ensures FreeIn(old(forks.store), e.index)
      ensures forks.store == Inserted(old(forks.store), e, fork)
      ensures world.entities == EntitiesAfterCreate(old(world.entities), old(world.freeSlots))
      ensures world.freeSlots == Popped(old(world.freeSlots))
      ensures world.tags == if Reuses(old(world.freeSlots)) then old(world.tags) else old(world.tags) + [{}]
      ensures world.storages == old(world.storages)
    {
      e := world.CreateEntity();
      fork := TilingFork(Some(left), right, None, DefaultRatio, Horizontal, None);
      forks.Insert(e, fork);
    }

    /**
     * `attach_window(onto, new, assoc)`: scans the forks in slot order and
     * acts on the first that holds `Window(onto)` (throwing if it meets a
     * fork with a null left first). A free right branch takes the new window;
     * otherwise the branch holding `onto` is replaced by a new fork that has
     * `onto` on the left, the new window on the right, and the enclosing
     * fork as parent.
     */
    method AttachWindow(onto: Entity, newWindow: Entity) returns (r: Completion<Option<(Entity, TilingFork)>>, calls: seq<Assoc>)
      requires Valid()
      modifies world, forks
      ensures Valid()
      ensures var p := AttachPointOf(old(forks.store), onto);
        p.NoAttachPoint? ==> r == Returned(None) && calls == [] && unchanged(world, forks)
      ensures var p := AttachPointOf(old(forks.store), onto);
        p.NullLeft? ==> r == Threw && calls == [] && unchanged(world, forks)
      ensures var p := AttachPointOf(old(forks.store), onto);
        p.FillRight? ==>
          var filled := p.fork.(right := Some(WindowNode(newWindow)));
          && r == Returned(Some((p.entity, filled)))
          && calls == [Assoc(p.entity, newWindow)]
          && forks.store == Inserted(old(forks.store), p.entity, filled)
          && unchanged(world)
      ensures var p := AttachPointOf(old(forks.store), onto);
        p.SplitLeft? || p.SplitRight? ==>
          var ne := Allocated(old(world.entities), old(world.freeSlots));
          var child := TilingFork(Some(WindowNode(onto)), Some(WindowNode(newWindow)), Some(p.entity), DefaultRatio, Horizontal, None);
          var enclosing := if p.SplitLeft? then p.fork.(left := Some(ForkNode(ne))) else p.fork.(right := Some(ForkNode(ne)));
          && r == Returned(Some((ne, child)))
          && calls == [Assoc(ne, onto), Assoc(ne, newWindow)]
          && FreeIn(old(forks.store), ne.index)
          && (forall x :: Lookup(forks.store, x) ==
                if x == ne then Some(child)
                else if x == p.entity then Some(enclosing)
                else Lookup(old(forks.store), x))
          && world.entities == EntitiesAfterCreate(old(world.entities), old(world.freeSlots))
          && world.freeSlots == Popped(old(world.freeSlots))
          && world.tags == (if Reuses(old(world.freeSlots)) then old(world.tags) else old(world.tags) + [{}])
          && world.storages == old(world.storages)
    {
      ghost var s0 := forks.store;
      var entries := forks.Iter();
      var k := 0;
      while k < |entries|
        invariant 0 <= k <= |entries|
        invariant forall j :: 0 <= j < k ==> !StopsAt(entries[j].1, onto)
        invariant forks.store == s0
      {
        var (entity, fork) := entries[k];
        if StopsAt(fork, onto) {
          assert ScanIndex(entries, onto) == k;
          assert Lookup(s0, entity) == Some(fork);
          if fork.left.None? {
            r, calls := Threw, [];
          } else if fork.left.value.IsWindow(onto) && fork.right.None? {
            var filled := fork.(right := Some(WindowNode(newWindow)));
            OverwriteKeepsFree(s0, entity, filled);
            forks.Insert(entity, filled);
            var finish := FinishAttach(onto, newWindow, entity, filled, None);
            r, calls := Returned(Some(finish.1)), finish.0;
          } else {
            var ne, child := Split(onto, newWindow, entity, fork, fork.left.value.IsWindow(onto));
            var finish := FinishAttach(onto, newWindow, entity, fork, Some((ne, child)));
            r, calls := Returned(Some(finish.1)), finish.0;
          }
          return;
        }
        k := k + 1;
      }
      assert ScanIndex(entries, onto) == |entries|;
      r, calls := Returned(None), [];
    }

    /**
     * The split of `attach_window`: `create_fork` on the branch holding
     * `onto` and the new window, the branch replaced by the new fork, and
     * `set_parent(entity)` on the new fork.
     */
    method Split(onto: Entity, newWindow: Entity, entity: Entity, fork: TilingFork, onLeft: bool) returns (ne: Entity, child: TilingFork)
      requires Valid() && Lookup(forks.store, entity) == Some(fork)
      requires onLeft ==> fork.left == Some(WindowNode(onto))
      requires !onLeft ==> fork.right == Some(WindowNode(onto))
      modifies world, forks
      ensures Valid()
      ensures ne == Allocated(old(world.entities), old(world.freeSlots))
      ensures child == TilingFork(Some(WindowNode(onto)), Some(WindowNode(newWindow)), Some(entity), DefaultRatio, Horizontal, None)
      ensures FreeIn(old(forks.store), ne.index)
      ensures forall x ::
                Lookup(forks.store, x) ==
                  if x == ne then Some(child)
                  else if x == entity then Some(if onLeft then fork.(left := Some(ForkNode(ne))) else fork.(right := Some(ForkNode(ne))))
                  else Lookup(old(forks.store), x)
      ensures world.entities == EntitiesAfterCreate(old(world.entities), old(world.freeSlots))
      ensures world.freeSlots == Popped(old(world.freeSlots))
      ensures world.tags == if Reuses(old(world.freeSlots)) then old(world.tags) else old(world.tags) + [{}]
      ensures world.storages == old(world.storages)
    {
      ghost var s0 := forks.store;
      var enclosing;
      if onLeft {
        ne, child := CreateFork(fork.left.value, Some(WindowNode(newWindow)));
        enclosing := fork.(left := Some(ForkNode(ne)));
      } else {
        ne, child := CreateFork(fork.right.value, Some(WindowNode(newWindow)));
        enclosing := fork.(right := Some(ForkNode(ne)));
      }
      assert entity.index != ne.index;
      forks.Insert(entity, enclosing);
      child := child.SetParent(entity);
      forks.Insert(ne, child);
      SplitLookups(s0, entity, fork, ne, child, enclosing);
    }

    /** The three writes of a split, read back through lookups, and the free slots they keep. */
    static lemma SplitLookups(s0: ForkStore, entity: Entity, fork: TilingFork, ne: Entity, child: TilingFork, enclosing: TilingFork)
      requires Lookup(s0, entity) == Some(fork) && FreeIn(s0, ne.index)
      ensures var s := Inserted(Inserted(Inserted(s0, ne, child.(parent := None)), entity, enclosing), ne, child);
        && (forall x :: Lookup(s, x) == if x == ne then Some(child) else if x == entity then Some(enclosing) else Lookup(s0, x))
        && |s| == |Inserted(s0, ne, child)|
        && (forall i :: i != ne.index ==> (FreeIn(s, i) <==> FreeIn(Inserted(s0, ne, child), i)))
        && !FreeIn(s, ne.index)
    {
      var s1 := Inserted(s0, ne, child.(parent := None));
      var s2 := Inserted(s1, entity, enclosing);
      var s := Inserted(s2, ne, child);
      forall x
        ensures Lookup(s, x) == if x == ne then Some(child) else if x == entity then Some(enclosing) else Lookup(s0, x)
      {
        LookupInserted(s0, ne, child.(parent := None), x);
        LookupInserted(s1, entity, enclosing, x);
        LookupInserted(s2, ne, child, x);
      }
    }

    /**
     * `detach(fork_entity, window, assoc)`, as the source writes it: runs the
     * `forks.with` part and the loop as `DetachModel` describes them, then
     * deletes every fork marked for removal from the world, which also clears
     * its tags, empties its slot in every storage and pushes it on the free
     * stack. A throw happens before any deletion.
     */
    method Detach(forkEntity: Entity, window: Entity) returns (r: Completion<Option<TilingFork>>, calls: seq<Assoc>)
      requires Valid()
      modifies world, world.storages
      ensures Valid()
      ensures var d := DetachModel(old(forks.store), forkEntity, window);
        && calls == d.calls
        && world.entities == old(world.entities) && world.storages == old(world.storages)
        && (d.threw ==>
              && r == Threw && forks.store == d.store
              && world.freeSlots == old(world.freeSlots) && world.tags == old(world.tags))
        && (!d.threw ==>
              && r == Returned(ReflowFork(d))
              && forks.store == RemovedAll(d.store, d.removals)
              && world.freeSlots == old(world.freeSlots) + Indices(d.removals)
              && world.tags == TagsCleared(old(world.tags), d.removals))
      ensures var d := DetachModel(old(forks.store), forkEntity, window);
        forall m :: 1 <= m < |world.storages| ==>
          world.storages[m].store == if d.threw then old(world.storages[m].store) else RemovedAll(old(world.storages[m].store), d.removals)
    {
      ghost var s0 := forks.store;
      var detach: Option<Entity> := None;
      var retach: Option<TilingNode> := None;
      var found := forks.Get(forkEntity);
      if found.Some? {
        var fork := found.value;
        if fork.left.None? {
          r, calls := Threw, [];
          return;
        }
        if fork.left.value.IsWindow(window) {
          // `fork.left = null`, and `fork.right = null` once it is saved as `retach`.
          OverwriteKeepsFree(s0, forkEntity, Cleared(fork));
          forks.Insert(forkEntity, Cleared(fork));
          detach, retach := Some(forkEntity), fork.right;
        } else if fork.right.Some? && fork.right.value.IsWindow(window) {
          detach, retach := Some(forkEntity), fork.left;
        }
      }
      assert DetachStart(s0, forkEntity, window) == Returned(Climb(forks.store, detach, retach, None, [], []));
      var reflow, removals, threw;
      reflow, removals, calls, threw := ClimbParents(detach, retach);
      if threw {
        r := Threw;
        return;
      }
      DetachRemovalsLive(s0, forkEntity, window);
      r := Returned(if reflow.Some? then forks.Get(reflow.value) else None);
      DeleteForks(removals);
    }

    /**
     * The `while (detach)` loop of `detach`, from the loop variables the
     * `forks.with` part leaves, with `reflow_fork` null and nothing marked or
     * called yet.
     */
    method ClimbParents(detach0: Option<Entity>, retach0: Option<TilingNode>)
      returns (reflow: Option<Entity>, removals: seq<Entity>, calls: seq<Assoc>, threw: bool)
      requires Valid() && Live(Climb(forks.store, detach0, retach0, None, [], []))
      modifies forks
      ensures Valid()
      ensures var d := ClimbFrom(Climb(old(forks.store), detach0, retach0, None, [], []));
        && forks.store == d.store && reflow == d.reflow && removals == d.removals
        && calls == d.calls && threw == d.threw
    {
      ghost var c0 := Climb(forks.store, detach0, retach0, None, [], []);
      var detach, retach := detach0, retach0;
      reflow, removals, calls, threw := None, [], [], false;
      while detach.Some?
        invariant Live(Climb(forks.store, detach, retach, reflow, removals, calls))
        invariant ClimbFrom(Climb(forks.store, detach, retach, reflow, removals, calls)) == ClimbFrom(c0)
        invariant Valid() && !threw
        decreases if detach.Some? then 1 else 0, LeftCount(forks.store)
      {
        ghost var c := Climb(forks.store, detach, retach, reflow, removals, calls);
        ghost var next := Step(c);
        var de := detach.value;
        var df := forks.Get(de).value;
        detach := None;
        if df.parent.Some? {
          var pe := df.parent.value;
          var parent := forks.Get(pe);
          if parent.None? || parent.value.left.None? {
            // `fork.left` on a null fork, or `.is_fork` on a null left, throws.
            threw := true;
            return;
          }
          removals := removals + [de];
          reflow := Some(de);
          var p := parent.value;
          if p.left.value.IsFork(de) || (p.right.Some? && p.right.value.IsFork(de)) {
            if retach.Some? {
              // `fork.left = retach` (or `fork.right = retach`), undone by the clearing below.
              calls := calls + [Assoc(pe, retach.value.entity)];
              retach := None;
            } else {
              detach, retach := Some(pe), p.right;
            }
          }
          // `fork.left = null; fork.right = null`: the parent ends with both branches null.
          OverwriteKeepsFree(forks.store, pe, Cleared(p));
          forks.Insert(pe, Cleared(p));
        } else if df.left.None? && df.right.None? {
          removals := removals + [de];
        }
        assert next == Returned(Climb(forks.store, detach, retach, reflow, removals, calls));
      }
    }

    /** The `for (const entity of removals)` loop: `delete_entity` on each marked fork in turn. */
    method DeleteForks(removals: seq<Entity>)
      requires Valid()
      requires NoDuplicates(removals) && forall x :: x in removals ==> Lookup(forks.store, x).Some?
      modifies world, world.storages
      ensures Valid()
      ensures forks.store == RemovedAll(old(forks.store), removals)
      ensures world.entities == old(world.entities) && world.storages == old(world.storages)
      ensures world.freeSlots == old(world.freeSlots) + Indices(removals)
      ensures world.tags == TagsCleared(old(world.tags), removals)
      ensures forall m :: 1 <= m < |world.storages| ==> world.storages[m].store == RemovedAll(old(world.storages[m].store), removals)
    {
      ghost var s := forks.store;
      ForkStoreAfterDeletions(s, removals);
      var i := 0;
      while i < |removals|
        invariant 0 <= i <= |removals|
        invariant Valid()
        invariant forks.store == RemovedAll(s, removals[..i])
        invariant world.entities == old(world.entities) && world.storages == old(world.storages)
        invariant world.freeSlots == old(world.freeSlots) + Indices(removals[..i])
        invariant world.tags == TagsCleared(old(world.tags), removals[..i])
        invariant forall m :: 1 <= m < |world.storages| ==> world.storages[m].store == RemovedAll(old(world.storages[m].store), removals[..i])
      {
        assert removals[..i + 1][..i] == removals[..i];
        assert removals[i] !in removals[..i];
        LookupRemovedAll(s, removals[..i], removals[i]);
        RemovingLiveKeepsValid(forks.store, removals[i], world.freeSlots, |world.entities|);
        var threw := world.DeleteEntity(removals[i]);
        i := i + 1;
      }
      assert removals[..i] == removals;
    }

    /** Deleting a live fork keeps the free stack's slots empty and free of duplicates. */
    static lemma RemovingLiveKeepsValid(s: ForkStore, e: Entity, free: seq<nat>, capacity: nat)
      requires Lookup(s, e).Some? && |s| <= capacity
      requires forall k :: 0 <= k < |free| ==> FreeIn(s, free[k])
      requires NoDuplicates(free)
      ensures e.index < capacity
      ensures forall k :: 0 <= k < |free + [e.index]| ==> FreeIn(Removed(s, e), (free + [e.index])[k])
      ensures NoDuplicates(free + [e.index])
    {
      assert forall k :: 0 <= k < |free| ==> free[k] != e.index;
    }

    /**
     * Deleting the marked forks one after another keeps each
     * still-to-be-deleted fork live.
     */
    static lemma ForkStoreAfterDeletions(s: ForkStore, removals: seq<Entity>)
      requires NoDuplicates(removals)
      requires forall x :: x in removals ==> Lookup(s, x).Some?
      ensures forall i, j :: 0 <= i <= j < |removals| ==> Lookup(RemovedAll(s, removals[..i]), removals[j]).Some?
    {
      forall i, j | 0 <= i <= j < |removals|
        ensures Lookup(RemovedAll(s, removals[..i]), removals[j]).Some?
      {
        LookupRemovedAll(s, removals[..i], removals[j]);
        assert removals[j] in removals;
      }
    }

    /**
     * `TilingNode.tile(area)`: moves a window into `area`, or tiles the fork
     * the node names; `depth` is the call stack left.
     */
    method TileNode(node: TilingNode, area: Rect, g: Gaps, depth: nat) returns (moves: seq<Move>, completed: bool)
      requires Valid()
      modifies forks
      ensures Valid()
      ensures var t := NodeTiling(old(forks.store), node, area, g, depth);
        forks.store == t.store && moves == t.moves && completed == t.completed
      decreases depth, 1
    {
      if node.kind == Window {
        moves, completed := [Move(node.entity, area)], true;
      } else if forks.Get(node.entity).None? {
        // `tiler.forks.get(entity)` is null, so calling `tile` on it throws.
        moves, completed := [], false;
      } else {
        moves, completed := TileFork(node.entity, area, g, depth);
      }
    }

    /**
     * `TilingFork.tile(area)` on the fork stored under `e`: records `area` on
     * the fork, then tiles the left branch into the left region and the right
     * branch into the right region, or the left branch into the whole area
     * when there is no right branch.
     */
    method TileFork(e: Entity, area: Rect, g: Gaps, depth: nat) returns (moves: seq<Move>, completed: bool)
      requires Valid() && Lookup(forks.store, e).Some?
      modifies forks
      ensures Valid()
      ensures var t := ForkTiling(old(forks.store), e, area, g, depth);
        forks.store == t.store && moves == t.moves && completed == t.completed
      decreases depth, 0
    {
      if depth == 0 {
        // The call stack is exhausted.
        moves, completed := [], false;
        return;
      }
      var f := forks.Get(e).value;
      OverwriteKeepsFree(forks.store, e, f.(area := Some(area)));
      forks.Insert(e, f.(area := Some(area)));
      if f.left.None? {
        moves, completed := [], false;
      } else if f.right.None? {
        moves, completed := TileNode(f.left.value, area, g, depth - 1);
      } else {
        var len := SplitLength(area, f.orientation, f.ratio);
        var leftMoves, leftDone := TileNode(f.left.value, LeftRegion(area, f.orientation, len, g), g, depth - 1);
        if !leftDone {
          moves, completed := leftMoves, false;
          return;
        }
        var rightMoves, rightDone := TileNode(f.right.value, RightRegion(area, f.orientation, len, g), g, depth - 1);
        moves, completed := leftMoves + rightMoves, rightDone;
      }
    }
  }
}
