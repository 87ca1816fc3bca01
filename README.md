# Auto-tiling layout core, modelled in Dafny

This project models the layout core of an automatic window-tiling extension.
The core has two parts.

- **The generational entity/component store** (`src/ecs.js`), in module `Ecs`.
  - An `Entity` is an `(index, generation)` pair. The generation is a 32-bit unsigned integer that wraps.
  - A `Storage` is a sparse array indexed by entity index. Each slot holds `(generation, component)` or nothing.
  - A lookup succeeds only when the stored generation equals the entity's generation.
  - A `World` owns the entity table, a stack of free slots, one tag set per slot and the list of registered storages.
  - `delete_entity` cascades over every registered storage.
- **The auto-tiling binary tree** (`src/auto_tiler.js`), in three modules.
  - `Tiling`: the `TilingNode` edges (to a fork or to a window) and the `TilingFork` values.
  - `Tiling` also holds the area-division arithmetic and the recursive `tile` walk. The walk returns the list of `(window, rectangle)` moves it would issue.
  - `Detaching`: a pure model of `detach`'s upward climb along parent links.
  - `AutoTiling`: the `AutoTiler` class. It owns a `World` whose first registered storage holds the forks.
  - `AutoTiling` implements `attach_window`, `create_fork`, `detach` and `tile` as methods. Each method is proved equal to the pure model, or its effect is stated outright.

`src/ecs.js` is imperative, and so is most of `src/auto_tiler.js`. The `TilingNode` helpers `fork`, `window`, `is_fork`, `is_window` and `clone` are pure, and they are modelled as functions on values. The stateful parts are modelled as follows.

- `Storage`, `World` and `AutoTiler` are classes whose methods update `seq` fields.
- Each method is proved against a specification function on sequences, for example `Inserted`, `Removed`, `Entries`, `Found`, `Allocated`, `ClimbFrom` and `NodeTiling`.
- The properties the source promises are proved about those functions as lemmas.

Components are values, so a write the source makes to a fork object's field is modelled as writing the updated fork back into its slot.

The callback `assoc(fork, window)` is the only side channel that `attach_window` and `detach` use. It is modelled as the returned sequence of `Assoc` calls, in order.

## Modelling choices

JavaScript `TypeError`s are modelled as a `Threw` outcome. These are reads of a property of `null`. The state already changed before the throw is kept, as the engine would keep it.

- `attach_window` throws on a fork whose `left` is null.
- `detach` throws on such a fork, and on a dead parent.
- `tile` throws on a dead fork.
- `delete_entity`, `add_tag`, `contains_tag` and `delete_tag` throw on an index past the tag table.

The recursive `tile` takes a `depth` argument. It stands for the engine's call stack: a walk that runs out of depth has not completed, as a `RangeError` would leave it.

## Behaviour of the code worth knowing

The model reproduces each of these behaviours of the code.

- **Index 0 is never reused.** `create_entity` tests `if (slot)`, so a popped index 0 counts as "no free slot" (`src/ecs.js:186-195`). In that case index 0 is dropped from the free stack and a fresh slot is appended. `Ecs.Reuses`, `Ecs.Popped` and `Ecs.World.CreateEntity` state this.
- **Detaching the right window of a root fork changes nothing.** `detach` does not clear a branch when the window is on the right (`src/auto_tiler.js:83-86`). The retach candidate is taken from `fork.left`. See `Detaching.DetachRightOfRootIsNoop`.
- **Every parent visited ends with both branches empty** (`src/auto_tiler.js:112`, `src/auto_tiler.js:124-125`). This holds even after a sibling has just been promoted into the parent.
  - So attaching a window and then detaching it does not restore the tree.
  - `Detaching.DetachAfterSplitEmptiesParent` shows this. After a split, detaching the new window empties the enclosing fork, and both its branches leave the tree.
  - `detach` then returns the child fork, which it has just deleted.
- **Some faults throw instead of returning null.** The code dereferences `fork.left` and parent forks without checking, so a null left or a dead parent throws a `TypeError`. Those cases are modelled as `Threw`.

## Model

| member | source | states |
|---|---|---|
| Ecs.NextGeneration | src/ecs.js:190 | The bumped generation is `(g + 1) mod 2^32` (`Uint32Array` storage) and is never equal to the old one. |
| Ecs.Inserted | src/ecs.js:97-106 | After an insert, slot `e.index` holds `(e.generation, c)`. The store grows to cover `e.index` if needed, and any gap is left empty. Every other slot keeps its old content. |
| Ecs.LookupInserted | src/ecs.js:97-106 | After `insert(e, c)`, `get(e)` is `c`. Any other entity with the same index (another generation) misses. Entities at other indices see what they saw before. |
| Ecs.LookupRemoved | src/ecs.js:109-115 | After `remove(e)`, `get(e)` misses and every other entity sees what it saw before. A stale or missing `e` leaves lookups unchanged. |
| Ecs.LookupRemovedAll | src/ecs.js:203-210 | After removing a list of entities, exactly the listed entities miss. Every other lookup is unchanged. |
| Ecs.LiveUnique | src/ecs.js:77-81 | At most one generation of an index is live in a storage. |
| Ecs.Entries | src/ecs.js:38-51 | The iterated pairs are live lookups. Every live entity occurs. Indices strictly increase, so the order is index order and there are no repeats. |
| Ecs.Values | src/ecs.js:54-58 | The values are those of `iter`, in the same order. |
| Ecs.Found | src/ecs.js:61-65 | `find(p)` yields, in increasing index order, exactly the live entities whose component satisfies `p`. |
| Ecs.Storage.Get | src/ecs.js:77-81 | `get(e)` returns a value iff slot `e.index` exists and is occupied and its generation equals `e.generation`. That value is the stored component. |
| Ecs.Storage.Contains | src/ecs.js:72-74 | `contains(e)` iff `e` is one of the entities `iter` yields. |
| Ecs.Storage.With | src/ecs.js:129-132 | `func` is applied exactly when `e` is live, and to its component. A function cannot change the storage. |
| Ecs.Storage.Insert | src/ecs.js:97-106 | The new store is `Inserted(old, e, c)`. The slot is overwritten whatever its previous generation. |
| Ecs.Storage.Remove | src/ecs.js:109-115 | Returns what `get(e)` returned. The new store is `Removed(old, e)`: the slot is emptied only for a live `e`. |
| Ecs.Storage.GetOr | src/ecs.js:84-94 | `init` is called iff `e` misses. A hit returns the value and leaves the store alone. A missing `init()` result returns null and inserts nothing. Otherwise that result is inserted and returned. |
| Ecs.Storage.TakeWith | src/ecs.js:123-126 | The component is removed first, then `func` is applied to it. A miss applies nothing, and the store is `Removed(old, e)` either way. |
| Ecs.Storage.Iter | src/ecs.js:38-51 | The index loop returns exactly `Entries(store)`. |
| Ecs.Storage.IterValues | src/ecs.js:54-58 | The index loop returns exactly `Values(store)`. |
| Ecs.Storage.Find | src/ecs.js:61-65 | The index loop returns exactly `Found(store, p)`. |
| Ecs.Popped | src/ecs.js:186 | `pop` removes the top of the free stack, and does nothing on an empty stack. |
| Ecs.AllocatedIsNew | src/ecs.js:185-198 | The entity `create_entity` hands out is not already in the table. After the create, the table is still one entity per slot and contains it. |
| Ecs.StaleHandleMisses | src/ecs.js:77-81 | Covers `delete_entity(e)` followed by a `create_entity` that reuses `e.index`. The reused index gets a different generation. The old handle then misses in a storage, both after the removal and after a component is inserted for the new entity. |
| Ecs.TagsCleared | src/ecs.js:204 | After deleting a list of entities, the tag set of each of their indices is empty. Every other tag set is unchanged. |
| Ecs.Indices | src/ecs.js:209 | The indices pushed onto the free stack are those of the deleted entities, in order. |
| Ecs.Storage.constructor | src/ecs.js:33-35 | A new storage is empty. |
| Ecs.World.constructor | src/ecs.js:146-151 | A new world has no entities, storages, tags or free slots. |
| Ecs.World.Capacity | src/ecs.js:154-156 | The capacity is the size of the entity table. |
| Ecs.World.Free | src/ecs.js:159-161 | `free` is the size of the free stack. Through the contracts of `CreateEntity` and `DeleteEntity`, it drops by one on every create (or stays 0 on an empty stack) and grows by one on every delete that does not throw. |
| Ecs.World.CreateEntity | src/ecs.js:185-198 | On a non-empty free stack whose top is not 0, the create pops it and reuses that slot with the generation bumped by one; tags are untouched. Otherwise it pops (index 0 is lost), appends `(capacity, 0)` and a new empty tag set. The table never shrinks, `free` drops by one (it stays 0 on an empty stack), and the world stays well formed. |
| Ecs.World.DeleteEntity | src/ecs.js:203-210 | Throws, changing nothing, iff the index is past the tag table. Otherwise the index's tag set becomes empty, the index is pushed onto the free stack, and every registered storage is `Removed(old, e)`, so `free` grows by one. |
| Ecs.World.Tags | src/ecs.js:171-173 | The tag set exists iff the index is inside the tag table, and it is the set stored at `e.index`. |
| Ecs.World.AddTag | src/ecs.js:213-215 | Throws iff the index is past the tag table. Otherwise it adds `tag` to that index's set and changes nothing else. |
| Ecs.World.ContainsTag | src/ecs.js:218-220 | Throws iff the index is past the tag table. Otherwise it answers whether `tag` is in that index's set. |
| Ecs.World.TagsIgnoreGeneration | src/ecs.js:171-173 | Tags are keyed by index alone: two generations of one index share their tags. |
| Ecs.World.DeleteTag | src/ecs.js:223-225 | Throws iff the index is past the tag table. Otherwise it removes `tag` from that index's set and changes nothing else. |
| Ecs.World.RegisterStorage | src/ecs.js:230-234 | A fresh empty storage is appended to the registered storages and returned. |
| Tiling.ForkNode | src/auto_tiler.js:274-276 | `TilingNode.fork(e)` is a fork edge to `e` and matches no window. |
| Tiling.WindowNode | src/auto_tiler.js:285-287 | `TilingNode.window(e)` is a window edge to `e` and matches no fork. |
| Tiling.NodeQueries | src/auto_tiler.js:320-331 | `is_window(e)` holds iff the node is `window(e)`, and `is_fork(e)` iff it is `fork(e)`. |
| Tiling.TilingFork.ReplaceWindow | src/auto_tiler.js:198-208 | One clause per branch of the source. A null left throws. A left that is `window(a)` becomes `window(b)`, with true returned and nothing else changed. Otherwise a right branch, if there is one, has its entity renamed to `b` without checking what it holds, and true is returned. Otherwise the fork is unchanged and false is returned. A true result always renames exactly one branch. |
| Tiling.ReplaceWindowUndo | src/auto_tiler.js:198-208 | Renaming a left window `a` to `b` and then `b` back to `a` restores the fork. |
| Tiling.ReplaceWindowUnchecked | src/auto_tiler.js:199-202 | For any fork whose left is not the window `a` and which has a right branch, the right branch is renamed to `b` whatever it holds (a fork or another window), and true is returned. |
| Tiling.TilingFork.SetOrientation | src/auto_tiler.js:210-213 | Only the orientation changes. |
| Tiling.TilingFork.SetParent | src/auto_tiler.js:215-218 | Only the parent changes. |
| Tiling.RoundHalfUp | src/auto_tiler.js:235 | `Math.round`: the result is within half a unit of `x`, with halves rounding up. |
| Tiling.SplitLength | src/auto_tiler.js:232-235 | Measured on the primary axis (width when horizontal, height when vertical), the split length is the rounded `length * ratio`. |
| Tiling.SplitGeometry | src/auto_tiler.js:238-246 | The left region keeps the origin. Both regions keep the secondary axis. The right region starts `gap + half_gap` past the end of the left one. Together they cover `length - 2 * half_gap` of the primary axis. |
| Tiling.SplitExample | src/auto_tiler.js:227-249 | At ratio 0.5, with gap 8 and half gap 4, `[0,0,1920,1080]` splits into `[0,0,956,1080]` and `[968,0,956,1080]`. |
| Tiling.Windows | src/auto_tiler.js:346-351 | The moved windows of a list of moves, in order. |
| Tiling.SameShapeLookup | src/auto_tiler.js:229 | Stores that differ only in cached areas have the same live forks with the same branches. |
| Tiling.CacheKeepsShape | src/auto_tiler.js:229 | Writing a fork's cached area changes only that fork, and only its area. |
| Tiling.ShapeDecidesWalk | src/auto_tiler.js:340-353 | The windows reached and the forks visited do not depend on cached areas. |
| Tiling.ForkShapeDecidesWalk | src/auto_tiler.js:227-253 | The same, starting from a fork value. |
| Tiling.NodeTilingWritesCaches | src/auto_tiler.js:340-353 | `tile` changes only the cached areas, and only of forks reachable from the node. |
| Tiling.ForkTilingWritesCaches | src/auto_tiler.js:227-253 | The same, for `TilingFork.tile`. |
| Tiling.NodeTilingMovesLeaves | src/auto_tiler.js:340-353 | `tile` completes iff the reachable subtree is well formed within the depth: every fork is live and has a left branch. When it completes, it moves exactly the window leaves, left to right, each once. |
| Tiling.ForkTilingMovesLeaves | src/auto_tiler.js:227-253 | The same, for `TilingFork.tile`. |
| Tiling.ForkTilingCachesArea | src/auto_tiler.js:229 | After `tile(area)`, the fork's cached area is `area`, unless the fork lies on a cycle below itself. |
| Tiling.NodeTilingCachesReached | src/auto_tiler.js:340-353 | A walk never erases a cached area. A walk that completes leaves an area cached on every fork it reached. |
| Tiling.ForkTilingCachesReached | src/auto_tiler.js:227-253 | The same, for `TilingFork.tile`, counting the fork itself. |
| Tiling.ForkTilingCachesRightRegion | src/auto_tiler.js:245-249 | Take a right branch that is a fork not reached again from its own subtree. Once the left branch tiles without a fault, that fork caches exactly the right region of the split. |
| Tiling.ForkTilingPassesArea | src/auto_tiler.js:250-252 | A fork with no right branch tiles its left branch into the whole area. |
| Tiling.TwoWindowExample | src/auto_tiler.js:227-253 | Two windows under one horizontal root on `[0,0,1920,1080]` are moved to `[0,0,956,1080]` and `[968,0,956,1080]`, in that order, and the root caches the full area. |
| Detaching.Cleared | src/auto_tiler.js:124-125 | A cleared fork has both branches null and is otherwise unchanged. |
| Detaching.DetachStart | src/auto_tiler.js:74-87 | The `with` part starts the climb from `fork_entity` or not at all, with no removals, no calls and no reflow fork. |
| Detaching.LeftCountDrops | src/auto_tiler.js:124-125 | Nulling a left branch lowers the count of forks with a left branch by one. |
| Detaching.ClearingDropsLeftCount | src/auto_tiler.js:124-125 | Clearing a fork that has a left branch lowers the count of forks with a left branch. This is the loop's termination measure. |
| Detaching.Step | src/auto_tiler.js:91-130 | One pass of `while (detach)` keeps the climb well formed. When the climb goes on, the count of forks with a left branch has dropped, so the loop terminates. |
| Detaching.DetachMissIsNoop | src/auto_tiler.js:74-91 | If `fork_entity` is dead, or `window` is on neither branch, `detach` returns null, deletes nothing, calls `assoc` never and changes no fork. |
| Detaching.DetachRightOfRootIsNoop | src/auto_tiler.js:83-86 | Detaching the right window of a parentless fork changes nothing and returns null. |
| Detaching.DetachLeftOfRoot | src/auto_tiler.js:76-82 | Detaching the left window of a parentless fork empties that fork, marks only it for deletion, calls nothing and returns null. |
| Detaching.DetachUnderParent | src/auto_tiler.js:96-125 | Detaching the left window of a fork held on its parent's left hands the sibling to `assoc` under the parent. The parent ends with both branches empty. The fork is marked for deletion and is what is returned. |
| Detaching.DetachAfterSplitEmptiesParent | src/auto_tiler.js:102-125 | After a split, detaching the new window hands the old one to `assoc` under the enclosing fork. The enclosing fork still ends empty, so the round trip loses windows. |
| Detaching.ClimbCallsOnce | src/auto_tiler.js:103-106 | A climb calls `assoc` at most once. |
| Detaching.DetachCallsOnce | src/auto_tiler.js:69-137 | `detach` calls `assoc` at most once. |
| Detaching.ClearingKeepsParents | src/auto_tiler.js:124-125 | Clearing branches keeps every fork's parent link. |
| Detaching.ClimbFollowsParents | src/auto_tiler.js:91-130 | Each fork marked by the climb is the parent of the one marked before it. |
| Detaching.DetachRemovesAncestors | src/auto_tiler.js:89-135 | `detach` deletes only `fork_entity` and ancestors of it reached through parent links, starting from `fork_entity`. |
| Detaching.StepKeepsInvariant | src/auto_tiler.js:91-130 | One pass keeps the marked forks distinct and live, and the current fork unmarked. |
| Detaching.ClimbKeepsInvariant | src/auto_tiler.js:91-130 | At the end of the loop, the marked forks are distinct and live, and the reflow fork is one of them. |
| Detaching.DetachRemovalsLive | src/auto_tiler.js:97-137 | `detach` deletes distinct, live forks. The fork it returns is the last one marked, so it is among the deleted forks. |
| AutoTiling.ScanIndex | src/auto_tiler.js:32-49 | The scan stops at the first fork, in iteration order, that has `onto` on a branch. It stops at the end if there is none. |
| AutoTiling.AttachPointFirstMatch | src/auto_tiler.js:32-53 | There is no attach point iff no live fork holds `onto` on a branch or has a null left. Otherwise the outcome names the live fork with the lowest index that does, and no fork with a lower index does either. The four outcomes follow that fork's branches: a null left (where `attach_window` throws), `onto` on the left with no right, `onto` on the left with a right, or `onto` on the right. |
| AutoTiling.FinishAttach | src/auto_tiler.js:148-157 | With a new fork, `assoc(new fork, onto)` and then `assoc(new fork, new)` are made, and the new fork is returned. Without one, the single call is `assoc(fork, new)` and the fork is returned. |
| AutoTiling.OverwriteKeepsFree | src/auto_tiler.js:37-46 | Rewriting a live fork's slot leaves the store's length and its free slots unchanged. |
| AutoTiling.AutoTiler.constructor | src/auto_tiler.js:19-23 | A new tiler is an empty world whose only storage is the fork storage. |
| AutoTiling.AutoTiler.CreateFork | src/auto_tiler.js:61-67 | Allocates an entity as `create_entity` does. It stores at that entity, in a slot that was free, a fork with the given branches, no parent, ratio 0.5 and horizontal orientation, and returns both. |
| AutoTiling.AutoTiler.AttachWindow | src/auto_tiler.js:31-53 | Without an attach point: returns null, creates nothing, calls nothing and changes nothing. A null left in the way: throws with nothing changed. `onto` on the left with no right: the right becomes `window(new)`, one call is made and the fork is returned. Otherwise: one new fork holds `onto` and `new` under the matching fork, which now points at it on the matching branch; its other branch is unchanged and the two calls are made. The entity table, free stack and tag table change as `create_entity` changes them: a tag set is appended only when a fresh slot is taken. |
| AutoTiling.AutoTiler.Split | src/auto_tiler.js:35-48 | The split creates the child fork (`onto` left, `new` right, parent the enclosing fork, ratio 0.5, horizontal). It points the enclosing fork's matching branch at the child, and no other fork changes. The entity table, free stack and tag table change as `create_entity` changes them. |
| AutoTiling.AutoTiler.Detach | src/auto_tiler.js:69-138 | The `assoc` calls, the forks deleted, the free slots pushed, the tags cleared and the returned fork are exactly those of `DetachModel`. A throw inside the loop keeps the fork writes made so far and deletes nothing. Every other storage loses the deleted forks' entities. |
| AutoTiling.AutoTiler.ClimbParents | src/auto_tiler.js:89-130 | The `while (detach)` loop ends in exactly the state `ClimbFrom` computes. |
| AutoTiling.AutoTiler.DeleteForks | src/auto_tiler.js:132-135 | Deleting the marked forks one by one removes them from every storage, clears their tags and pushes their indices in order. |
| AutoTiling.AutoTiler.TileNode | src/auto_tiler.js:340-353 | The recursive method writes exactly the caches and issues exactly the moves of `NodeTiling`. |
| AutoTiling.AutoTiler.TileFork | src/auto_tiler.js:227-253 | The recursive method writes exactly the caches and issues exactly the moves of `ForkTiling`. |

## Left out

- src/extension.js is not part of this model. It holds the GNOME Shell glue: signals, `GLib.idle_add`, frame rects, cursor-position queries, keybindings, the grab-operation table and the orientation rule.
- The host wrappers in src/lib.js are left out. Only the orientation constants (`src/lib.js:9-10`) are used, as the enumeration `Orientation`.
- `TilingNode.area` (`src/auto_tiler.js:297-304`) is left out. It calls a method `TilingFork` does not have, and it reads a window frame rectangle from the host.
- The `display` debug dumps are left out. They only build strings.
- `World.length` is left out, because it calls the `capacity` getter as a function. `World.entities()` is left out, because it uses `for…in` and a non-existent `Array.contains`.
- `entity_eq` is left out. Only the host glue uses it, and entities here compare by value.
- JavaScript reference identity and aliasing are not modelled. Entities are immutable `(index, generation)` values with value equality, so these effects are dropped:
  - `is_fork`/`is_window` compare arrays by identity;
  - `create_entity` returns the table's own array and then bumps it;
  - `tile` caches in a left-child fork the very `region` array it then rewrites for the right child, so that fork's cached area ends up being the right region.
- Generators are modelled as loops that return the whole sequence. They are not lazy.
- `_iter` is folded into `Iter`, which yields the same pairs with the index.
- `Tiling.RoundHalfUp`: the ratio is an exact `real` (0.5 by default, never changed here), not a double. `Math.round` is modelled as round-half-up on exact values.
- `window.move_snap` is not called. `tile` records a `Move` per window instead.
- `gap` and `half_gap` are parameters (`Gaps`) instead of being read from the extension's settings.
- Logging is left out.
- `TilingNode.clone` is the identity on values.
- Components are assumed truthy: every stored component is a value, and "no component" is `None`.
- `Ecs.Storage.GetOr`: `init` returns an optional value, standing for a truthy or falsy result.
- Entity indices are unbounded: the model does not assume a table of fewer than 2^32 slots. Generations wrap at 2^32.
- `Ecs.World` holds storages of one component type, because the model has no traits. The tiler uses only its fork storage.
- `Tiling.NodeTiling`: `depth` stands for the engine's call stack. The model does not fix its size.
- A fork entity or window entity that the caller passes is taken as given. Whether it is registered with the host is not modelled.
