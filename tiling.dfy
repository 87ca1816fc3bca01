/**
 * The tiling tree of src/auto_tiler.js as values: tiling nodes, tiling forks,
 * the split geometry of `TilingFork.tile`, and the tiling walk itself as a
 * function of the fork storage.
 *
 * A fork is a component stored under a fork entity; its branches are tiling
 * nodes naming either another fork entity or a window entity of the caller.
 * Tiling walks the tree from a node, records the area on every fork it
 * enters and hands every window leaf one rectangle.
 */
module Tiling {
  import opened Ecs

  /** `ORIENTATION_HORIZONTAL` (0) and `ORIENTATION_VERTICAL` (1) of src/lib.js. */
  datatype Orientation = Horizontal | Vertical

  /** `FORK` (0) and `WINDOW` (1): what the entity of a tiling node refers to. */
  datatype NodeKind = Fork | Window

  /** A branch of a fork: a fork entity of the tiler, or a window entity. */
  datatype TilingNode = TilingNode(kind: NodeKind, entity: Entity)
  {
    /** `is_fork(fork)`. */
    predicate IsFork(fork: Entity)
    {
      kind == Fork && entity == fork
    }

    /** `is_window(window)`. */
    predicate IsWindow(window: Entity)
    {
      kind == Window && entity == window
    }
  }

  /** `TilingNode.fork(fork)`. */
  function ForkNode(fork: Entity): (n: TilingNode)
    ensures n.IsFork(fork)
    ensures forall w :: !n.IsWindow(w)
  {
    TilingNode(Fork, fork)
  }

  /** `TilingNode.window(window)`. */
  function WindowNode(window: Entity): (n: TilingNode)
    ensures n.IsWindow(window)
    ensures forall f :: !n.IsFork(f)
  {
    TilingNode(Window, window)
  }

  /** A node answers `is_window(w)` exactly when it is the window node of `w`, and likewise for forks. */
  lemma NodeQueries(n: TilingNode, e: Entity)
    ensures n.IsWindow(e) <==> n == WindowNode(e)
    ensures n.IsFork(e) <==> n == ForkNode(e)
  {
  }

  /** An `[xpos, ypos, width, height]` area. */
  datatype Rect = Rect(x: int, y: int, width: int, height: int)

  /** The ratio a new fork starts with. */
  const DefaultRatio: real := 0.5

  /** A `TilingFork`: two branches, the parent fork, the split ratio, the orientation and the cached area. */
  datatype TilingFork = TilingFork(
    left: Option<TilingNode>,
    right: Option<TilingNode>,
    parent: Option<Entity>,
    ratio: real,
    orientation: Orientation,
    area: Option<Rect>)
  {
    /**
     * `replace_window(a, b)`: renames the left window `a` to `b`; otherwise
     * renames whatever the right branch holds, without checking that it is
     * `a`; with no right branch it reports `false`. A null left makes the
     * `is_window` call throw.
     */
    function ReplaceWindow(a: Entity, b: Entity): (r: Completion<(TilingFork, bool)>)
      ensures left.None? <==> r.Threw?
      ensures r.Returned? && r.value.1 ==> r.value.0.Renamed(this, b)
      ensures r.Returned? && !r.value.1 ==> r.value.0 == this && right.None?
      ensures r.Returned? && r.value.1 && right.None? ==> r.value.0.left == Some(WindowNode(b))
      ensures r.Returned? ==> r.value.0.left != left ==> left == Some(WindowNode(a))
      ensures left.Some? && left.value.IsWindow(a) ==> r == Returned((this.(left := Some(WindowNode(b))), true))
      ensures left.Some? && !left.value.IsWindow(a) && right.Some? ==>
        r == Returned((this.(right := Some(right.value.(entity := b))), true))
      ensures left.Some? && !left.value.IsWindow(a) && right.None? ==> r == Returned((this, false))
    {
      if left.None? then Threw
      else if left.value.IsWindow(a) then Returned((this.(left := Some(WindowNode(b))), true))
      else if right.Some? then Returned((this.(right := Some(right.value.(entity := b))), true))
      else Returned((this, false))
    }

    /** This fork is `f` with exactly one branch made to name `b`, its kind kept. */
    predicate Renamed(f: TilingFork, b: Entity)
    {
      || (f.left.Some? && this == f.(left := Some(f.left.value.(entity := b))))
      || (f.right.Some? && this == f.(right := Some(f.right.value.(entity := b))))
    }

    /** `set_orientation(o)`: the same fork with orientation `o`. */
    function SetOrientation(o: Orientation): (f: TilingFork)
      ensures f.orientation == o
      ensures f.(orientation := orientation) == this
    {
      this.(orientation := o)
    }

    /** `set_parent(p)`: the same fork with parent `p`. */
    function SetParent(p: Entity): (f: TilingFork)
      ensures f.parent == Some(p)
      ensures f.(parent := parent) == this
    {
      this.(parent := Some(p))
    }
  }

  /** A window that `replace_window` renamed from `a` to `b` is renamed back by `replace_window(b, a)`. */
  lemma ReplaceWindowUndo(f: TilingFork, a: Entity, b: Entity)
    requires f.left == Some(WindowNode(a))
    ensures f.ReplaceWindow(a, b).Returned?
    ensures var g := f.ReplaceWindow(a, b).value.0;
      g.ReplaceWindow(b, a) == Returned((f, true))
  {
  }

  /**
   * The right branch is renamed whenever the left is not the window `a`,
   * without checking what the right branch holds: a fork or another window
   * gets the name `b` all the same.
   */
  lemma ReplaceWindowUnchecked(f: TilingFork, a: Entity, b: Entity)
    requires f.left.Some? && !f.left.value.IsWindow(a) && f.right.Some?
    ensures f.ReplaceWindow(a, b) == Returned((f.(right := Some(f.right.value.(entity := b))), true))
  {
  }

  // ---------------------------------------------------------------------------
  // Geometry of one split
  // ---------------------------------------------------------------------------

  /** `ext.tiler.gap` and `ext.tiler.half_gap`. */
  datatype Gaps = Gaps(gap: int, halfGap: int)

  /** `Math.round`: the nearest integer, halves rounded up. */
  function RoundHalfUp(x: real): (r: int)
    ensures r as real - 0.5 <= x < r as real + 0.5
  {
    (x + 0.5).Floor
  }

  /** The extent of `area` along the axis a fork of orientation `o` splits. */
  function Primary(area: Rect, o: Orientation): int
  {
    if o == Horizontal then area.width else area.height
  }

  /** `length`: the left branch's share of the split axis. */
  function SplitLength(area: Rect, o: Orientation, ratio: real): (len: int)
    ensures len as real - 0.5 <= Primary(area, o) as real * ratio < len as real + 0.5
  {
    RoundHalfUp(Primary(area, o) as real * ratio)
  }

  /** The region the left branch is tiled into. */
  function LeftRegion(area: Rect, o: Orientation, len: int, g: Gaps): Rect
  {
    if o == Horizontal then area.(width := len - g.halfGap)
    else area.(height := len - g.halfGap)
  }

  /** The region the right branch is tiled into. */
  function RightRegion(area: Rect, o: Orientation, len: int, g: Gaps): Rect
  {
    if o == Horizontal then area.(x := area.x + len + g.gap, width := area.width - len - g.halfGap)
    else area.(y := area.y + len + g.gap, height := area.height - len - g.halfGap)
  }

  /**
   * A split keeps the origin for the left branch and the other axis for both,
   * leaves a gutter of `gap + half_gap` between the branches, and shares out
   * the split axis less one `half_gap` per branch.
   */
  lemma SplitGeometry(area: Rect, o: Orientation, len: int, g: Gaps)
    ensures var l := LeftRegion(area, o, len, g);
      var r := RightRegion(area, o, len, g);
      && l.x == area.x && l.y == area.y
      && (o == Horizontal ==>
            && l.height == area.height && r.height == area.height && r.y == area.y
            && r.x - (l.x + l.width) == g.gap + g.halfGap
            && l.width + r.width == area.width - 2 * g.halfGap)
      && (o == Vertical ==>
            && l.width == area.width && r.width == area.width && r.x == area.x
            && r.y - (l.y + l.height) == g.gap + g.halfGap
            && l.height + r.height == area.height - 2 * g.halfGap)
  {
  }

  /** At the default ratio, a 1920x1080 screen with gaps 8 and 4 is halved into two 956-wide columns. */
  lemma SplitExample()
    ensures SplitLength(Rect(0, 0, 1920, 1080), Horizontal, DefaultRatio) == 960
    ensures LeftRegion(Rect(0, 0, 1920, 1080), Horizontal, 960, Gaps(8, 4)) == Rect(0, 0, 956, 1080)
    ensures RightRegion(Rect(0, 0, 1920, 1080), Horizontal, 960, Gaps(8, 4)) == Rect(968, 0, 956, 1080)
  {
    assert (1920 as real * 0.5 + 0.5).Floor == 960;
  }

  // ---------------------------------------------------------------------------
  // The tiling walk
  // ---------------------------------------------------------------------------

  type ForkStore = Store<TilingFork>

  /** `window.move_snap(rect)`: the window entity and the rectangle it is given. */
  datatype Move = Move(window: Entity, area: Rect)

  /**
   * The state after `tile`: the fork storage with the cached areas written,
   * the `move_snap` calls made, in order, and whether the walk returned
   * normally (`false`: it threw, or the call stack ran out).
   */
  datatype Tiled = Tiled(store: ForkStore, moves: seq<Move>, completed: bool)

  /**
   * `TilingNode.tile(area)`: a window is moved into `area`; a fork node tiles
   * its fork, and a dead fork entity makes `forks.get(..).tile` throw.
   * `depth` is the call stack left: each fork entered uses one frame.
   */
  function NodeTiling(s: ForkStore, node: TilingNode, area: Rect, g: Gaps, depth: nat): Tiled
    decreases depth, 1
  {
    match node.kind
    case Window => Tiled(s, [Move(node.entity, area)], true)
    case Fork =>
      if Lookup(s, node.entity).None? then Tiled(s, [], false)
      else ForkTiling(s, node.entity, area, g, depth)
  }

  /**
   * `TilingFork.tile(area)` for the fork stored under `e`: caches `area`, then
   * splits it between the branches, or passes it whole to the left when there
   * is no right branch. A null left throws.
   */
  function ForkTiling(s: ForkStore, e: Entity, area: Rect, g: Gaps, depth: nat): Tiled
    requires Lookup(s, e).Some?
    decreases depth, 0
  {
    if depth == 0 then Tiled(s, [], false)
    else
      var f := Lookup(s, e).value;
      var s1 := Inserted(s, e, f.(area := Some(area)));
      if f.left.None? then Tiled(s1, [], false)
      else if f.right.None? then NodeTiling(s1, f.left.value, area, g, depth - 1)
      else
        var len := SplitLength(area, f.orientation, f.ratio);
        var l := NodeTiling(s1, f.left.value, LeftRegion(area, f.orientation, len, g), g, depth - 1);
        if !l.completed then l
        else
          var r := NodeTiling(l.store, f.right.value, RightRegion(area, f.orientation, len, g), g, depth - 1);
          Tiled(r.store, l.moves + r.moves, r.completed)
  }

  /** The windows of a sequence of moves, in order. */
  function Windows(moves: seq<Move>): (r: seq<Entity>)
    ensures |r| == |moves|
    ensures forall k :: 0 <= k < |moves| ==> r[k] == moves[k].window
  {
    seq(|moves|, k requires 0 <= k < |moves| => moves[k].window)
  }

  lemma WindowsConcat(a: seq<Move>, b: seq<Move>)
    ensures Windows(a + b) == Windows(a) + Windows(b)
  {
    assert Windows(a + b) == Windows(a) + Windows(b);
  }

  /**
   * The reference reading of the tree: the window leaves below `node`, left
   * to right, or `None` when walking it reaches a dead fork, a null left or
   * the end of the call stack.
   */
  function Leaves(s: ForkStore, node: TilingNode, depth: nat): Option<seq<Entity>>
    decreases depth, 1
  {
    match node.kind
    case Window => Some([node.entity])
    case Fork =>
      if Lookup(s, node.entity).None? then None
      else ForkLeaves(s, Lookup(s, node.entity).value, depth)
  }

  function ForkLeaves(s: ForkStore, f: TilingFork, depth: nat): Option<seq<Entity>>
    decreases depth, 0
  {
    if depth == 0 || f.left.None? then None
    else
      var l := Leaves(s, f.left.value, depth - 1);
      if f.right.None? || l.None? then l
      else
        var r := Leaves(s, f.right.value, depth - 1);
        if r.None? then None else Some(l.value + r.value)
  }

  /** The fork entities whose `tile` runs when `node` is tiled (those it reaches, whether or not the walk completes). */
  function Reach(s: ForkStore, node: TilingNode, depth: nat): set<Entity>
    decreases depth, 1
  {
    if node.kind == Window || Lookup(s, node.entity).None? || depth == 0 then {}
    else {node.entity} + ForkReach(s, Lookup(s, node.entity).value, depth)
  }

  function ForkReach(s: ForkStore, f: TilingFork, depth: nat): set<Entity>
    requires depth > 0
    decreases depth, 0
  {
    if f.left.None? then {}
    else if f.right.None? then Reach(s, f.left.value, depth - 1)
    else Reach(s, f.left.value, depth - 1) + Reach(s, f.right.value, depth - 1)
  }

  /** The slot with its cached area forgotten. */
  function Shape(o: Option<Slot<TilingFork>>): Option<Slot<TilingFork>>
  {
    match o
    case None => None
    case Some(sl) => Some(Slot(sl.generation, sl.value.(area := None)))
  }

  /** Two fork stores that differ at most in the cached areas of their forks. */
  predicate SameShape(s: ForkStore, t: ForkStore)
  {
    |s| == |t| && forall i :: 0 <= i < |s| ==> Shape(s[i]) == Shape(t[i])
  }

  lemma SameShapeLookup(s: ForkStore, t: ForkStore, x: Entity)
    requires SameShape(s, t)
    ensures Lookup(s, x).Some? <==> Lookup(t, x).Some?
    ensures Lookup(s, x).Some? ==> Lookup(t, x).value.(area := None) == Lookup(s, x).value.(area := None)
  {
    if x.index < |s| {
      assert Shape(s[x.index]) == Shape(t[x.index]);
    }
  }

  /** Writing a fork's cached area changes nothing else. */
  lemma CacheKeepsShape(s: ForkStore, e: Entity, a: Option<Rect>)
    requires Lookup(s, e).Some?
    ensures SameShape(s, Inserted(s, e, Lookup(s, e).value.(area := a)))
    ensures forall x :: x != e ==> Lookup(Inserted(s, e, Lookup(s, e).value.(area := a)), x) == Lookup(s, x)
  {
    var t := Inserted(s, e, Lookup(s, e).value.(area := a));
    forall x | x != e
      ensures Lookup(t, x) == Lookup(s, x)
    {
      LookupInserted(s, e, Lookup(s, e).value.(area := a), x);
    }
  }

  /** The leaves and the reached forks depend on the shape of the store only. */
  lemma {:induction false} ShapeDecidesWalk(s: ForkStore, t: ForkStore, node: TilingNode, depth: nat)
    requires SameShape(s, t)
    ensures Leaves(s, node, depth) == Leaves(t, node, depth)
    ensures Reach(s, node, depth) == Reach(t, node, depth)
    decreases depth, 1
  {
    if node.kind == Fork {
      SameShapeLookup(s, t, node.entity);
      if Lookup(s, node.entity).Some? {
        ForkShapeDecidesWalk(s, t, Lookup(s, node.entity).value, Lookup(t, node.entity).value, depth);
      }
    }
  }

  lemma {:induction false} ForkShapeDecidesWalk(s: ForkStore, t: ForkStore, f: TilingFork, f': TilingFork, depth: nat)
    requires SameShape(s, t)
    requires f.(area := None) == f'.(area := None)
    ensures ForkLeaves(s, f, depth) == ForkLeaves(t, f', depth)
    ensures depth > 0 ==> ForkReach(s, f, depth) == ForkReach(t, f', depth)
    decreases depth, 0
  {
    assert f.left == f'.left && f.right == f'.right;
    if depth > 0 && f.left.Some? {
      ShapeDecidesWalk(s, t, f.left.value, depth - 1);
      if f.right.Some? {
        ShapeDecidesWalk(s, t, f.right.value, depth - 1);
      }
    }
  }

  /** Tiling writes only the cached areas, and only those of the forks it reaches. */
  lemma {:induction false} NodeTilingWritesCaches(s: ForkStore, node: TilingNode, area: Rect, g: Gaps, depth: nat)
    ensures SameShape(s, NodeTiling(s, node, area, g, depth).store)
    ensures forall x :: x !in Reach(s, node, depth) ==> Lookup(NodeTiling(s, node, area, g, depth).store, x) == Lookup(s, x)
    decreases depth, 1
  {
    if node.kind == Fork && Lookup(s, node.entity).Some? {
      ForkTilingWritesCaches(s, node.entity, area, g, depth);
    }
  }

  lemma {:induction false} ForkTilingWritesCaches(s: ForkStore, e: Entity, area: Rect, g: Gaps, depth: nat)
    requires Lookup(s, e).Some?
    ensures SameShape(s, ForkTiling(s, e, area, g, depth).store)
    ensures forall x :: x !in Reach(s, ForkNode(e), depth) ==> Lookup(ForkTiling(s, e, area, g, depth).store, x) == Lookup(s, x)
    decreases depth, 0
  {
    if depth > 0 {
      var f := Lookup(s, e).value;
      var s1 := Inserted(s, e, f.(area := Some(area)));
      CacheKeepsShape(s, e, Some(area));
      var t := ForkTiling(s, e, area, g, depth);
      if f.left.Some? {
        ShapeDecidesWalk(s, s1, f.left.value, depth - 1);
        if f.right.None? {
          NodeTilingWritesCaches(s1, f.left.value, area, g, depth - 1);
        } else {
          var len := SplitLength(area, f.orientation, f.ratio);
          var l := NodeTiling(s1, f.left.value, LeftRegion(area, f.orientation, len, g), g, depth - 1);
          NodeTilingWritesCaches(s1, f.left.value, LeftRegion(area, f.orientation, len, g), g, depth - 1);
          if l.completed {
            ShapeDecidesWalk(s, l.store, f.right.value, depth - 1);
            NodeTilingWritesCaches(l.store, f.right.value, RightRegion(area, f.orientation, len, g), g, depth - 1);
          }
        }
      }
    }
  }

  /**
   * Tiling completes exactly when the reference walk finds the leaves, and
   * then moves every window leaf once, in left-to-right order.
   */
  lemma {:induction false} NodeTilingMovesLeaves(s: ForkStore, node: TilingNode, area: Rect, g: Gaps, depth: nat)
    ensures var t := NodeTiling(s, node, area, g, depth);
      && (t.completed <==> Leaves(s, node, depth).Some?)
      && (t.completed ==> Windows(t.moves) == Leaves(s, node, depth).value)
    decreases depth, 1
  {
    if node.kind == Fork && Lookup(s, node.entity).Some? {
      ForkTilingMovesLeaves(s, node.entity, area, g, depth);
    }
  }

  lemma {:induction false} ForkTilingMovesLeaves(s: ForkStore, e: Entity, area: Rect, g: Gaps, depth: nat)
    requires Lookup(s, e).Some?
    ensures var t := ForkTiling(s, e, area, g, depth);
      var leaves := ForkLeaves(s, Lookup(s, e).value, depth);
      && (t.completed <==> leaves.Some?)
      && (t.completed ==> Windows(t.moves) == leaves.value)
    decreases depth, 0
  {
    if depth > 0 {
      var f := Lookup(s, e).value;
      var s1 := Inserted(s, e, f.(area := Some(area)));
      CacheKeepsShape(s, e, Some(area));
      if f.left.Some? {
        ShapeDecidesWalk(s, s1, f.left.value, depth - 1);
        if f.right.None? {
          NodeTilingMovesLeaves(s1, f.left.value, area, g, depth - 1);
        } else {
          var len := SplitLength(area, f.orientation, f.ratio);
          var l := NodeTiling(s1, f.left.value, LeftRegion(area, f.orientation, len, g), g, depth - 1);
          NodeTilingMovesLeaves(s1, f.left.value, LeftRegion(area, f.orientation, len, g), g, depth - 1);
          if l.completed {
            NodeTilingWritesCaches(s1, f.left.value, LeftRegion(area, f.orientation, len, g), g, depth - 1);
            ShapeDecidesWalk(s, l.store, f.right.value, depth - 1);
            var r := NodeTiling(l.store, f.right.value, RightRegion(area, f.orientation, len, g), g, depth - 1);
            NodeTilingMovesLeaves(l.store, f.right.value, RightRegion(area, f.orientation, len, g), g, depth - 1);
            WindowsConcat(l.moves, r.moves);
          }
        }
      }
    }
  }

  /**
   * A fork that its own subtree does not reach again ends up caching exactly
   * the area it was tiled into (what a later reflow reads back).
   */
  lemma ForkTilingCachesArea(s: ForkStore, e: Entity, area: Rect, g: Gaps, depth: nat)
    requires Lookup(s, e).Some? && depth > 0
    requires e !in ForkReach(s, Lookup(s, e).value, depth)
    ensures Lookup(ForkTiling(s, e, area, g, depth).store, e) == Some(Lookup(s, e).value.(area := Some(area)))
  {
    var f := Lookup(s, e).value;
    var s1 := Inserted(s, e, f.(area := Some(area)));
    CacheKeepsShape(s, e, Some(area));
    LookupInserted(s, e, f.(area := Some(area)), e);
    if f.left.Some? {
      ShapeDecidesWalk(s, s1, f.left.value, depth - 1);
      if f.right.None? {
        NodeTilingWritesCaches(s1, f.left.value, area, g, depth - 1);
      } else {
        var len := SplitLength(area, f.orientation, f.ratio);
        var l := NodeTiling(s1, f.left.value, LeftRegion(area, f.orientation, len, g), g, depth - 1);
        NodeTilingWritesCaches(s1, f.left.value, LeftRegion(area, f.orientation, len, g), g, depth - 1);
        if l.completed {
          ShapeDecidesWalk(s, l.store, f.right.value, depth - 1);
          NodeTilingWritesCaches(l.store, f.right.value, RightRegion(area, f.orientation, len, g), g, depth - 1);
        }
      }
    }
  }

  /** `x` names a live fork that has an area cached. */
  predicate HasCachedArea(s: ForkStore, x: Entity)
  {
    Lookup(s, x).Some? && Lookup(s, x).value.area.Some?
  }

  /**
   * Tiling never forgets a cached area, and a walk that completes leaves an
   * area cached on every fork it reached: each `tile` stores its `area`
   * before doing anything else.
   */
  lemma {:induction false} NodeTilingCachesReached(s: ForkStore, node: TilingNode, area: Rect, g: Gaps, depth: nat)
    ensures var t := NodeTiling(s, node, area, g, depth);
      && (forall x :: HasCachedArea(s, x) ==> HasCachedArea(t.store, x))
      && (t.completed ==> forall x :: x in Reach(s, node, depth) ==> HasCachedArea(t.store, x))
    decreases depth, 1
  {
    if node.kind == Fork && Lookup(s, node.entity).Some? {
      ForkTilingCachesReached(s, node.entity, area, g, depth);
    }
  }

  lemma {:induction false} ForkTilingCachesReached(s: ForkStore, e: Entity, area: Rect, g: Gaps, depth: nat)
    requires Lookup(s, e).Some?
    ensures var t := ForkTiling(s, e, area, g, depth);
      && (forall x :: HasCachedArea(s, x) ==> HasCachedArea(t.store, x))
      && (t.completed ==> forall x :: x in Reach(s, ForkNode(e), depth) ==> HasCachedArea(t.store, x))
    decreases depth, 0
  {
    if depth > 0 {
      var f := Lookup(s, e).value;
      var s1 := Inserted(s, e, f.(area := Some(area)));
      CacheKeepsShape(s, e, Some(area));
      LookupInserted(s, e, f.(area := Some(area)), e);
      assert HasCachedArea(s1, e);
      assert forall x :: HasCachedArea(s, x) ==> HasCachedArea(s1, x);
      if f.left.Some? {
        ShapeDecidesWalk(s, s1, f.left.value, depth - 1);
        if f.right.None? {
          NodeTilingCachesReached(s1, f.left.value, area, g, depth - 1);
        } else {
          var len := SplitLength(area, f.orientation, f.ratio);
          var l := NodeTiling(s1, f.left.value, LeftRegion(area, f.orientation, len, g), g, depth - 1);
          NodeTilingCachesReached(s1, f.left.value, LeftRegion(area, f.orientation, len, g), g, depth - 1);
          if l.completed {
            NodeTilingWritesCaches(s1, f.left.value, LeftRegion(area, f.orientation, len, g), g, depth - 1);
            ShapeDecidesWalk(s, l.store, f.right.value, depth - 1);
            NodeTilingCachesReached(l.store, f.right.value, RightRegion(area, f.orientation, len, g), g, depth - 1);
          }
        }
      }
    }
  }

  /**
   * A right branch that is a fork caches exactly the right region of the
   * split, once the left branch has been tiled without a fault, provided the
   * right fork's own subtree does not reach it again.
   */
  lemma ForkTilingCachesRightRegion(s: ForkStore, e: Entity, re: Entity, area: Rect, g: Gaps, depth: nat)
    requires Lookup(s, e).Some? && Lookup(s, re).Some? && depth > 1
    requires var f := Lookup(s, e).value;
      f.left.Some? && f.right == Some(ForkNode(re)) && Leaves(s, f.left.value, depth - 1).Some?
    requires e != re && re !in ForkReach(s, Lookup(s, re).value, depth - 1)
    ensures var f := Lookup(s, e).value;
      var rr := RightRegion(area, f.orientation, SplitLength(area, f.orientation, f.ratio), g);
      Lookup(ForkTiling(s, e, area, g, depth).store, re) == Some(Lookup(s, re).value.(area := Some(rr)))
  {
    var f := Lookup(s, e).value;
    var s1 := Inserted(s, e, f.(area := Some(area)));
    CacheKeepsShape(s, e, Some(area));
    ShapeDecidesWalk(s, s1, f.left.value, depth - 1);
    var len := SplitLength(area, f.orientation, f.ratio);
    var l := NodeTiling(s1, f.left.value, LeftRegion(area, f.orientation, len, g), g, depth - 1);
    NodeTilingMovesLeaves(s1, f.left.value, LeftRegion(area, f.orientation, len, g), g, depth - 1);
    NodeTilingWritesCaches(s1, f.left.value, LeftRegion(area, f.orientation, len, g), g, depth - 1);
    assert SameShape(s, l.store);
    SameShapeLookup(s, l.store, re);
    var fr := Lookup(s, re).value;
    var fr' := Lookup(l.store, re).value;
    ForkShapeDecidesWalk(s, l.store, fr, fr', depth - 1);
    var rr := RightRegion(area, f.orientation, len, g);
    ForkTilingCachesArea(l.store, re, rr, g, depth - 1);
    assert fr'.(area := Some(rr)) == fr.(area := Some(rr));
  }

  /** Without a right branch, the whole area is passed on to the left branch. */
  lemma ForkTilingPassesArea(s: ForkStore, e: Entity, area: Rect, g: Gaps, depth: nat)
    requires Lookup(s, e).Some? && depth > 0
    requires Lookup(s, e).value.left.Some? && Lookup(s, e).value.right.None?
    ensures ForkTiling(s, e, area, g, depth)
         == NodeTiling(Inserted(s, e, Lookup(s, e).value.(area := Some(area))), Lookup(s, e).value.left.value, area, g, depth - 1)
  {
  }

  /** A fork holding two windows, tiled over a 1920x1080 screen with gaps 8 and 4. */
  lemma TwoWindowExample(a: Entity, b: Entity)
    ensures var e := Entity(0, 0);
      var f := TilingFork(Some(WindowNode(a)), Some(WindowNode(b)), None, DefaultRatio, Horizontal, None);
      var t := NodeTiling([Some(Slot(0, f))], ForkNode(e), Rect(0, 0, 1920, 1080), Gaps(8, 4), 1);
      && t.completed
      && t.moves == [Move(a, Rect(0, 0, 956, 1080)), Move(b, Rect(968, 0, 956, 1080))]
      && Lookup(t.store, e) == Some(f.(area := Some(Rect(0, 0, 1920, 1080))))
  {
    SplitExample();
  }
}
