/**
 * `AutoTiler.detach` of src/auto_tiler.js as a function of the fork storage,
 * exactly as the source writes it.
 *
 * The `forks.with` callback unlinks the window from its fork; the loop then
 * climbs the parent links, marking forks for removal, promoting the saved
 * sibling (`retach`) into the first parent that can take it, and clearing
 * both branches of every parent it visits. The forks marked for removal are
 * deleted afterwards.
 */
module Detaching {
  import opened Ecs
  import opened Tiling

  /** A call `assoc(fork, entity)`: the caller is told that `entity` now hangs under `fork`. */
  datatype Assoc = Assoc(fork: Entity, entity: Entity)

  /** The loop variables of `detach` and the fork storage they act on. */
  datatype Climb = Climb(
    store: ForkStore,
    detach: Option<Entity>,
    retach: Option<TilingNode>,
    reflow: Option<Entity>,
    removals: seq<Entity>,
    calls: seq<Assoc>)

  /**
   * Where the loop of `detach` ends: the fork storage before the deletions,
   * the last fork taken as `reflow_fork`, the forks marked for removal, the
   * `assoc` calls made, and whether a property read on null threw.
   */
  datatype Detached = Detached(store: ForkStore, reflow: Option<Entity>, removals: seq<Entity>, calls: seq<Assoc>, threw: bool)

  /** A parent fork after `fork.left = null; fork.right = null`: both branches null. */
  function Cleared(f: TilingFork): (r: TilingFork)
    ensures r.left.None? && r.right.None?
    ensures r.(left := f.left, right := f.right) == f
  {
    f.(left := None, right := None)
  }

  /** Loop variables whose `detach` names a live fork, as the loop needs them to be. */
  predicate Live(c: Climb)
  {
    c.detach.Some? ==> Lookup(c.store, c.detach.value).Some?
  }

  /**
   * The `forks.with(fork_entity, ..)` part. With `window` on the left, the
   * fork's branches are both emptied and the right one is kept as `retach`;
   * with `window` on the right, the left branch is kept as `retach` and
   * nothing is emptied. A null left makes `is_window` throw.
   */
  function DetachStart(s: ForkStore, fe: Entity, window: Entity): (r: Completion<Climb>)
    ensures r.Returned? ==> Live(r.value) && r.value.removals == [] && r.value.calls == [] && r.value.reflow.None?
    ensures r.Returned? && r.value.detach.Some? ==> r.value.detach == Some(fe)
  {
    var none := Climb(s, None, None, None, [], []);
    if Lookup(s, fe).None? then Returned(none)
    else
      var f := Lookup(s, fe).value;
      if f.left.None? then Threw
      else if f.left.value.IsWindow(window) then
        LookupInserted(s, fe, Cleared(f), fe);
        Returned(Climb(Inserted(s, fe, Cleared(f)), Some(fe), f.right, None, [], []))
      else if f.right.Some? && f.right.value.IsWindow(window) then
        Returned(Climb(s, Some(fe), f.left, None, [], []))
      else Returned(none)
  }

  /** The number of live forks whose left branch is set: it drops with every parent the loop empties. */
  function LeftCount(s: ForkStore): nat
    decreases |s|
  {
    if s == [] then 0
    else LeftCount(s[..|s| - 1]) + (if s[|s| - 1].Some? && s[|s| - 1].value.value.left.Some? then 1 else 0)
  }

  lemma {:induction false} LeftCountDrops(s: ForkStore, i: nat, v: Option<Slot<TilingFork>>)
    requires i < |s| && s[i].Some? && s[i].value.value.left.Some?
    requires v.None? || v.value.value.left.None?
    ensures LeftCount(s[i := v]) == LeftCount(s) - 1
    decreases |s|
  {
    var n := |s| - 1;
    if i == n {
      assert s[i := v][..n] == s[..n];
    } else {
      assert s[i := v][..n] == s[..n][i := v];
      LeftCountDrops(s[..n], i, v);
    }
  }

  /** Emptying a live fork whose left branch is set lowers the count. */
  lemma ClearingDropsLeftCount(s: ForkStore, e: Entity)
    requires Lookup(s, e).Some? && Lookup(s, e).value.left.Some?
    ensures LeftCount(Inserted(s, e, Cleared(Lookup(s, e).value))) < LeftCount(s)
  {
    var v := Some(Slot(e.generation, Cleared(Lookup(s, e).value)));
    assert Inserted(s, e, Cleared(Lookup(s, e).value)) == s[e.index := v];
    LeftCountDrops(s, e.index, v);
  }

  /**
   * One iteration of `while (detach)`. A fork with a parent is marked for
   * removal and becomes `reflow_fork`; if the parent holds it on either
   * branch, a saved `retach` is handed to `assoc` and the climb stops, and
   * without one the climb goes on from the parent, saving the parent's right
   * branch (on the right-branch path that is the detached fork itself). Every
   * parent visited ends with both branches empty. A parentless fork is marked
   * only if both its branches are empty. A dead parent or a parent with a
   * null left throws.
   */
  function Step(c: Climb): (r: Completion<Climb>)
    requires c.detach.Some? && Live(c)
    ensures r.Returned? ==> Live(r.value)
    ensures r.Returned? && r.value.detach.Some? ==> LeftCount(r.value.store) < LeftCount(c.store)
  {
    var de := c.detach.value;
    var df := Lookup(c.store, de).value;
    if df.parent.Some? then
      var pe := df.parent.value;
      var removals := c.removals + [de];
      if Lookup(c.store, pe).None? then Threw
      else
        var p := Lookup(c.store, pe).value;
        if p.left.None? then Threw
        else
          var s' := Inserted(c.store, pe, Cleared(p));
          if p.left.value.IsFork(de) || (p.right.Some? && p.right.value.IsFork(de)) then
            if c.retach.Some? then
              Returned(Climb(s', None, None, Some(de), removals, c.calls + [Assoc(pe, c.retach.value.entity)]))
            else
              LookupInserted(c.store, pe, Cleared(p), pe);
              ClearingDropsLeftCount(c.store, pe);
              Returned(Climb(s', Some(pe), p.right, Some(de), removals, c.calls))
          else
            Returned(Climb(s', None, c.retach, Some(de), removals, c.calls))
    else if df.left.None? && df.right.None? then
      Returned(c.(detach := None, removals := c.removals + [de]))
    else
      Returned(c.(detach := None))
  }

  /** The loop run to its end. */
  function ClimbFrom(c: Climb): Detached
    requires Live(c)
    decreases if c.detach.Some? then 1 else 0, LeftCount(c.store)
  {
    if c.detach.None? then Detached(c.store, c.reflow, c.removals, c.calls, false)
    else
      match Step(c)
      case Threw => Detached(c.store, c.reflow, c.removals, c.calls, true)
      case Returned(next) => ClimbFrom(next)
  }

  /** `detach(fork_entity, window, assoc)` up to the deletions. */
  function DetachModel(s: ForkStore, fe: Entity, window: Entity): Detached
  {
    match DetachStart(s, fe, window)
    case Threw => Detached(s, None, [], [], true)
    case Returned(c) => ClimbFrom(c)
  }

  /** What `detach` returns: the fork last taken as `reflow_fork`, in its final state. */
  function ReflowFork(d: Detached): Option<TilingFork>
  {
    if d.reflow.Some? then Lookup(d.store, d.reflow.value) else None
  }

  // ---------------------------------------------------------------------------
  // Properties
  // ---------------------------------------------------------------------------

  /** With no live fork under `fe`, or `window` on neither branch, `detach` changes nothing and returns null. */
  lemma DetachMissIsNoop(s: ForkStore, fe: Entity, window: Entity)
    requires Lookup(s, fe).None? ||
      var f := Lookup(s, fe).value;
      f.left.Some? && !f.left.value.IsWindow(window) && !(f.right.Some? && f.right.value.IsWindow(window))
    ensures DetachModel(s, fe, window) == Detached(s, None, [], [], false)
  {
  }

  /** As written, detaching the right window of a parentless fork changes nothing: the window stays. */
  lemma DetachRightOfRootIsNoop(s: ForkStore, fe: Entity, window: Entity)
    requires Lookup(s, fe).Some?
    requires var f := Lookup(s, fe).value;
      f.left.Some? && !f.left.value.IsWindow(window) && f.right == Some(WindowNode(window)) && f.parent.None?
    ensures DetachModel(s, fe, window) == Detached(s, None, [], [], false)
  {
    var f := Lookup(s, fe).value;
    var c := Climb(s, Some(fe), f.left, None, [], []);
    assert DetachStart(s, fe, window) == Returned(c);
    assert Step(c) == Returned(c.(detach := None));
    assert ClimbFrom(c) == ClimbFrom(c.(detach := None));
  }

  /**
   * Detaching the left window of a parentless fork empties the fork and marks
   * it for removal; the right sibling, if any, goes with it, and nothing is
   * returned.
   */
  lemma DetachLeftOfRoot(s: ForkStore, fe: Entity, window: Entity)
    requires Lookup(s, fe).Some?
    requires var f := Lookup(s, fe).value;
      f.left == Some(WindowNode(window)) && f.parent.None?
    ensures DetachModel(s, fe, window) == Detached(Inserted(s, fe, Cleared(Lookup(s, fe).value)), None, [fe], [], false)
  {
    var f := Lookup(s, fe).value;
    var s1 := Inserted(s, fe, Cleared(f));
    LookupInserted(s, fe, Cleared(f), fe);
    var c := Climb(s1, Some(fe), f.right, None, [], []);
    assert DetachStart(s, fe, window) == Returned(c);
    assert Lookup(c.store, fe) == Some(Cleared(f));
    assert Lookup(c.store, fe).value.parent.None?;
    assert Step(c) == Returned(c.(detach := None, removals := c.removals + [fe]));
    assert c.removals + [fe] == [fe];
    assert ClimbFrom(c) == ClimbFrom(c.(detach := None, removals := [fe]));
  }

  /**
   * Detaching the left window of a fork whose parent holds it on the left:
   * the sibling is handed to `assoc` under the parent, yet the parent ends
   * with both branches empty; the fork is marked for removal and returned.
   */
  lemma DetachUnderParent(s: ForkStore, fe: Entity, pe: Entity, window: Entity, sibling: TilingNode)
    requires Lookup(s, fe).Some? && Lookup(s, pe).Some?
    requires Lookup(s, fe).value.left == Some(WindowNode(window))
    requires Lookup(s, fe).value.right == Some(sibling)
    requires Lookup(s, fe).value.parent == Some(pe)
    requires Lookup(s, pe).value.left == Some(ForkNode(fe))
    ensures var f := Lookup(s, fe).value;
      var s1 := Inserted(s, fe, Cleared(f));
      var s2 := Inserted(s1, pe, Cleared(Lookup(s, pe).value));
      var d := DetachModel(s, fe, window);
      && d == Detached(s2, Some(fe), [fe], [Assoc(pe, sibling.entity)], false)
      && ReflowFork(d) == Some(Cleared(f))
      && Lookup(d.store, pe) == Some(Cleared(Lookup(s, pe).value))
  {
    var f := Lookup(s, fe).value;
    var p := Lookup(s, pe).value;
    assert fe != pe;
    var s1 := Inserted(s, fe, Cleared(f));
    LookupInserted(s, fe, Cleared(f), fe);
    LookupInserted(s, fe, Cleared(f), pe);
    var s2 := Inserted(s1, pe, Cleared(p));
    LookupInserted(s1, pe, Cleared(p), pe);
    LookupInserted(s1, pe, Cleared(p), fe);
    var c := Climb(s1, Some(fe), Some(sibling), None, [], []);
    assert DetachStart(s, fe, window) == Returned(c);
    assert fe.index != pe.index;
    assert Lookup(s1, pe) == Some(p) && Lookup(s1, fe) == Some(Cleared(f));
    assert Lookup(s2, fe) == Some(Cleared(f));
    var c' := Climb(s2, None, None, Some(fe), [fe], [Assoc(pe, sibling.entity)]);
    assert c.removals + [fe] == [fe] && c.calls + [Assoc(pe, sibling.entity)] == [Assoc(pe, sibling.entity)];
    assert Step(c) == Returned(c');
    assert ClimbFrom(c) == ClimbFrom(c');
  }

  /**
   * Attach followed by detach does not restore the tree. `attach_window`
   * onto a left window `b` whose fork `pe` has a right branch leaves a child
   * fork `ne` holding `b` and the new window `a`, with `pe.left` pointing at
   * `ne`. Detaching `a` from `ne` then hands `b` to `assoc` under `pe`, but
   * `pe` ends with both branches empty: `b` and `pe`'s right branch are gone
   * from the tree, and the returned fork is `ne`, which is deleted.
   */
  lemma DetachAfterSplitEmptiesParent(s: ForkStore, pe: Entity, ne: Entity, a: Entity, b: Entity)
    requires Lookup(s, pe).Some? && Lookup(s, ne).Some? && a != b
    requires Lookup(s, pe).value.left == Some(ForkNode(ne))
    requires Lookup(s, ne).value.left == Some(WindowNode(b))
    requires Lookup(s, ne).value.right == Some(WindowNode(a))
    requires Lookup(s, ne).value.parent == Some(pe)
    ensures var p := Lookup(s, pe).value;
      var d := DetachModel(s, ne, a);
      && d == Detached(Inserted(s, pe, Cleared(p)), Some(ne), [ne], [Assoc(pe, b)], false)
      && ReflowFork(d) == Lookup(s, ne)
      && Lookup(d.store, pe).value.left.None? && Lookup(d.store, pe).value.right.None?
  {
    var f := Lookup(s, ne).value;
    var p := Lookup(s, pe).value;
    assert ne != pe;
    assert ne.index != pe.index;
    var s2 := Inserted(s, pe, Cleared(p));
    LookupInserted(s, pe, Cleared(p), pe);
    LookupInserted(s, pe, Cleared(p), ne);
    var c := Climb(s, Some(ne), Some(WindowNode(b)), None, [], []);
    assert !f.left.value.IsWindow(a);
    assert DetachStart(s, ne, a) == Returned(c);
    var c' := Climb(s2, None, None, Some(ne), [ne], [Assoc(pe, b)]);
    assert c.removals + [ne] == [ne] && c.calls + [Assoc(pe, b)] == [Assoc(pe, b)];
    assert Step(c) == Returned(c');
    assert ClimbFrom(c) == ClimbFrom(c');
  }

  /** `assoc` is called at most once, and never while the climb goes on. */
  lemma {:induction false} ClimbCallsOnce(c: Climb)
    requires Live(c)
    requires |c.calls| <= 1 && (c.calls != [] ==> c.detach.None?)
    ensures |ClimbFrom(c).calls| <= 1
    decreases if c.detach.Some? then 1 else 0, LeftCount(c.store)
  {
    if c.detach.Some? {
      match Step(c)
      case Threw =>
      case Returned(next) => ClimbCallsOnce(next);
    }
  }

  lemma DetachCallsOnce(s: ForkStore, fe: Entity, window: Entity)
    ensures |DetachModel(s, fe, window).calls| <= 1
  {
    if DetachStart(s, fe, window).Returned? {
      ClimbCallsOnce(DetachStart(s, fe, window).value);
    }
  }

  /** `path[k + 1]` is the parent of `path[k]` in `s`, and every fork on the path is live there. */
  predicate ParentPath(s: ForkStore, path: seq<Entity>)
  {
    && (forall k :: 0 <= k < |path| ==> Lookup(s, path[k]).Some?)
    && (forall k :: 0 <= k < |path| - 1 ==> Lookup(s, path[k]).value.parent == Some(path[k + 1]))
  }

  /** `t` has the live forks of `s`, with the same parents. */
  ghost predicate KeepsParents(s: ForkStore, t: ForkStore)
  {
    forall x ::
      && (Lookup(s, x).Some? <==> Lookup(t, x).Some?)
      && (Lookup(s, x).Some? ==> Lookup(t, x).value.parent == Lookup(s, x).value.parent)
  }

  lemma ClearingKeepsParents(s: ForkStore, t: ForkStore, e: Entity)
    requires KeepsParents(s, t) && Lookup(t, e).Some?
    ensures KeepsParents(s, Inserted(t, e, Cleared(Lookup(t, e).value)))
  {
    forall x {
      LookupInserted(t, e, Cleared(Lookup(t, e).value), x);
    }
  }

  /** The detached fork followed by the fork the climb is at. */
  function Walk(c: Climb): seq<Entity>
  {
    c.removals + (if c.detach.Some? then [c.detach.value] else [])
  }

  /** The climb only ever moves from a fork to its parent in the original storage. */
  lemma {:induction false} ClimbFollowsParents(s0: ForkStore, first: Entity, c: Climb)
    requires Live(c) && KeepsParents(s0, c.store)
    requires ParentPath(s0, Walk(c)) && (Walk(c) != [] ==> Walk(c)[0] == first)
    ensures var d := ClimbFrom(c);
      ParentPath(s0, d.removals) && (d.removals != [] ==> d.removals[0] == first)
    decreases if c.detach.Some? then 1 else 0, LeftCount(c.store)
  {
    if c.detach.None? {
      assert Walk(c) == c.removals;
    } else {
      var de := c.detach.value;
      assert Walk(c) == c.removals + [de];
      assert ParentPath(s0, c.removals) by {
        assert forall k :: 0 <= k < |c.removals| ==> c.removals[k] == Walk(c)[k];
      }
      match Step(c)
      case Threw =>
      case Returned(next) =>
        var df := Lookup(c.store, de).value;
        if df.parent.Some? && Lookup(c.store, df.parent.value).Some? {
          var pe := df.parent.value;
          ClearingKeepsParents(s0, c.store, pe);
          if next.detach.Some? {
            assert Walk(next) == Walk(c) + [pe];
            assert Lookup(s0, de).value.parent == Some(pe);
          } else {
            assert Walk(next) == Walk(c);
          }
        } else {
          assert next.store == c.store;
          assert next.removals == Walk(c) || next.removals == c.removals;
        }
        ClimbFollowsParents(s0, first, next);
    }
  }

  /**
   * The forks `detach` marks for removal form a chain of parent links
   * starting at `fork_entity` in the storage it was called on.
   */
  lemma DetachRemovesAncestors(s: ForkStore, fe: Entity, window: Entity)
    ensures var d := DetachModel(s, fe, window);
      ParentPath(s, d.removals) && (d.removals != [] ==> d.removals[0] == fe)
  {
    match DetachStart(s, fe, window)
    case Threw =>
    case Returned(c) =>
      if Lookup(s, fe).Some? {
        ClearingKeepsParents(s, s, fe);
      }
      assert KeepsParents(s, c.store);
      ClimbFollowsParents(s, fe, c);
  }

  /** What the loop keeps true while it climbs. */
  predicate ClimbInvariant(c: Climb)
  {
    && Live(c)
    && NoDuplicates(c.removals)
    && (forall x :: x in c.removals ==> Lookup(c.store, x).Some?)
    && (c.detach.Some? ==> c.detach.value !in c.removals)
    && (c.detach.Some? ==> forall x :: x in c.removals ==> Lookup(c.store, x).value.left.None?)
    && (c.detach.Some? ==> Lookup(c.store, c.detach.value).value.left.None? || c.retach.Some?)
    && (c.reflow.Some? ==> c.reflow.value in c.removals)
  }

  lemma StepKeepsInvariant(c: Climb)
    requires c.detach.Some? && ClimbInvariant(c)
    ensures Step(c).Returned? ==> ClimbInvariant(Step(c).value)
  {
    var de := c.detach.value;
    var df := Lookup(c.store, de).value;
    if df.parent.Some? && Lookup(c.store, df.parent.value).Some? && Lookup(c.store, df.parent.value).value.left.Some? {
      var pe := df.parent.value;
      var p := Lookup(c.store, pe).value;
      var s' := Inserted(c.store, pe, Cleared(p));
      var next := Step(c).value;
      assert pe !in c.removals;
      if pe == de {
        assert df.left.Some?;
        assert c.retach.Some?;
      }
      forall x
        ensures Lookup(s', x) == if x == pe then Some(Cleared(p)) else Lookup(c.store, x)
      {
        LookupInserted(c.store, pe, Cleared(p), x);
        if x != pe && x.index == pe.index && Lookup(c.store, x).Some? {
          LiveUnique(c.store, x, pe);
        }
      }
      assert next.removals == c.removals + [de];
      assert NoDuplicates(next.removals);
    }
  }

  lemma {:induction false} ClimbKeepsInvariant(c: Climb)
    requires ClimbInvariant(c)
    ensures var d := ClimbFrom(c);
      && NoDuplicates(d.removals)
      && (forall x :: x in d.removals ==> Lookup(d.store, x).Some?)
      && (d.reflow.Some? ==> d.reflow.value in d.removals)
    decreases if c.detach.Some? then 1 else 0, LeftCount(c.store)
  {
    if c.detach.Some? {
      match Step(c)
      case Threw =>
      case Returned(next) =>
        StepKeepsInvariant(c);
        ClimbKeepsInvariant(next);
    }
  }

  /**
   * The forks marked for removal are distinct and live in the storage the
   * loop ends with, and the returned fork is one of them: `detach` returns a
   * fork it then deletes.
   */
  lemma DetachRemovalsLive(s: ForkStore, fe: Entity, window: Entity)
    ensures var d := DetachModel(s, fe, window);
      && NoDuplicates(d.removals)
      && (forall x :: x in d.removals ==> Lookup(d.store, x).Some?)
      && (d.reflow.Some? ==> d.reflow.value in d.removals && ReflowFork(d).Some?)
  {
    match DetachStart(s, fe, window)
    case Threw =>
    case Returned(c) =>
      if c.detach.Some? {
        var f := Lookup(s, fe).value;
        assert f.left.Some?;
        if f.left.value.IsWindow(window) {
          LookupInserted(s, fe, Cleared(f), fe);
        }
      }
      assert ClimbInvariant(c);
      ClimbKeepsInvariant(c);
  }
}
