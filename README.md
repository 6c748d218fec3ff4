# Draggable Connections: the tile-ordering controller

Draggable Connections makes the tiles of the NYT Connections puzzle
draggable. It ships as a browser extension (`draggable-connections.js`) and
as a bookmarklet (`bookmarklet/draggable.bookmarklet.js`). Once the
animation library and the DOM plumbing are set aside, both are the same
small controller:

- **Per-tile pointer handling.** Every tile has two slots, `last_pd` and
  `last_pu`. The press and release handlers keep a real pointer event in
  them while ignoring wrong-type events and replays (which carry a `captured`
  tag). The click handler replays the pending press and then the pending
  release. It clears each slot before that slot's dispatch.
- **The drag reorder step (`onDrag`).** While the dragged tile is over the
  container, the first tile in list order that passes the 50% hit test
  decides a single `insertBefore`. The dragged tile goes right after that
  tile when the direction includes "right", and right before it otherwise.
- **The reorder watcher.** A submit snapshots the tile order and connects a
  mutation observer. When a batch shows that the number of solved categories
  has changed, the order is restored from the snapshot and the observer
  disconnects. The two variants restore differently:
  - the extension appends every still-attached snapshot tile in turn;
  - the bookmarklet filters the snapshot to the attached tiles and calls
    `replaceChildren` with it.
- **`killExistingDraggables`.** At setup it detaches and counts the
  Draggables already on the tiles.

## Modules

- `Dom` (`dom.dfy`) holds the tile container.
  - The container's children are a sequence of distinct tile ids.
  - A tile is attached (`parentNode != null`) exactly when it is one of these
    children.
  - `PreInsert` is the pre-insert and insert algorithms of section 4.2.3 of
    the WHATWG DOM Standard, restricted to the container's element children.
    The node inserted is usually a child already and is then moved; a node
    that is not a child is added:
    - a reference child that is not a child of the container throws
      NotFoundError;
    - a reference equal to the node itself is replaced by the node's next
      sibling;
    - the node is removed, then inserted before the reference, or appended
      when the reference is null.
  - `Keep` is the bookmarklet's two `filter((e) => e.parentNode != null)`
    expressions, over the snapshot and over `tiles`.
  - `Drop` models no expression of the source. It removes a set of tiles
    from a list, and is the front part of `Watcher.AppendRestore`, the
    closed form of the order the extension's restore loop produces.
  - The class `TileContainer` applies `insertBefore` and `replaceChildren`
    in place.
- `Pointer` (`pointer.dfy`) holds the pointer events, the replays built from
  them, and the few style properties the handlers tween, as an abstract
  visual record.
- `Drag` (`drag.dfy`) holds the drag step and the drag library's registry of
  attached Draggables. The two variants have the same `onDrag` and
  `killExistingDraggables` text, so both are modelled here once.
- `Watcher` (`watcher.dfy`) holds the observed scope, the scan of one
  mutation batch, and the order the extension's restore produces.
- `Connections` (`connections.dfy`) is the extension's `Draggable` callbacks
  and setup closure.
- `Bookmarklet` (`bookmarklet.dfy`) is the bookmarklet's version of the same.

Inputs that come from the page, not from the controller:

- the outcome of the container hit test, per sample;
- the 50% hit test against each tile and the result of `getDirection`, both
  as functions of the tile;
- the number of solved-category nodes in the observed scope when a batch is
  delivered, and the node that is the parent of the first of them;
- whether the drag library fires the tile's click callback again from
  inside the replayed pointerup (`replayClicks`).

Restores happen once per submit:

- A second solved event cannot reach the callback before the next submit.
  The observer disconnects right after a restore, and the submit that
  reconnects it replaces the snapshot. `Bookmarklet.SolvedEventRestores`
  shows it: a re-render after a restore stays as it is.
- A restore from the already filtered snapshot would equal one filter of
  the original snapshot by both attached sets (`Dom.KeepTwice`).

## Model

| member | source | states |
|---|---|---|
| Dom.IndexOf | draggable-connections.js:72 | the position of a tile among the container's children, and no earlier occurrence of it |
| Dom.NextSibling | draggable-connections.js:72 | `x.nextSibling`: the child right after `x`; among distinct children it is null exactly when `x` is the last child, and it is null for a node without a parent |
| Dom.PreInsert | draggable-connections.js:74 | `insertBefore(node, child)`: throws NotFoundError exactly when `child` is a tile that is not a child; otherwise the reference is `child`, or the node's next sibling when `child` is the node itself, and the node is taken out and put before the reference, or last when the reference is null |
| Dom.PreInsertPermutes | draggable-connections.js:74 | `insertBefore` succeeds exactly when the reference is null or a child of the container. On success the children stay distinct. They are the same multiset when the node was a child, and gain the node otherwise |
| Dom.PreInsertPlacement | draggable-connections.js:74 | after `insertBefore` the node is a child. A null reference puts it last. A reference equal to the node changes nothing. Any other reference puts the node right before the reference. The other children keep their relative order |
| Dom.PreInsertSelf | draggable-connections.js:74 | `insertBefore(node, node)` on a child leaves the children as they are |
| Dom.PreInsertBeforeNext | draggable-connections.js:71-74 | `insertBefore(node, node.nextSibling)` on a child leaves the children as they are, also when the node is the last child |
| Dom.PreInsertAfter | draggable-connections.js:71-74 | inserting before the next sibling of a child `a` (null when `a` is last) puts the node right after `a`, and leaves every other child in its relative order |
| Dom.RemoveCounts | draggable-connections.js:74 | taking a node out of the children shortens them by one when the node was present and removes exactly one copy |
| Dom.RemoveFacts | draggable-connections.js:74 | taking a node out of distinct children leaves distinct children holding every other child and not the node |
| Dom.KeepElems | bookmarklet/draggable.bookmarklet.js:172-173 | the filter keeps exactly the entries that pass, never adds one, and keeps a distinct list distinct |
| Dom.Keep | bookmarklet/draggable.bookmarklet.js:172-173 | `filter((e) => e.parentNode != null)`: the entries of a list that are in the attached set, in list order |
| Dom.DropElems | draggable-connections.js:153-158 | removing a set of tiles keeps exactly the entries not in the set, and keeps a distinct list distinct |
| Dom.KeepTwice | bookmarklet/draggable.bookmarklet.js:172 | filtering the already filtered snapshot again equals filtering the original once by both conditions |
| Dom.KeepAppend | bookmarklet/draggable.bookmarklet.js:172 | filtering distributes over concatenation |
| Dom.DropAppend | draggable-connections.js:153-158 | removing a set distributes over concatenation |
| Dom.KeepAll | bookmarklet/draggable.bookmarklet.js:172 | a filter that every entry passes returns the list unchanged |
| Dom.DropNone | draggable-connections.js:153-158 | removing a set that no entry belongs to returns the list unchanged |
| Dom.DropAll | draggable-connections.js:153-158 | removing a set that holds every entry returns the empty list |
| Dom.RemoveFromDrop | draggable-connections.js:156-157 | taking one more tile out of a list from which a set was removed equals removing the set with that tile added |
| Dom.DropSame | draggable-connections.js:156-157 | adding to the removed set a tile that is not in the list changes nothing |
| Dom.TileContainer.InsertBefore | draggable-connections.js:74 | the container's children become the `PreInsert` result, or stay unchanged when it throws, and the call reports the same NotFoundError |
| Dom.TileContainer.ReplaceChildren | bookmarklet/draggable.bookmarklet.js:176 | the container's children become exactly the given tiles, in the given order |
| Pointer.ReplaysShape | draggable-connections.js:43-58 | a click replays at most one press and at most one release, press first, all tagged `captured`, carrying the pending events' data, and nothing when both slots are empty |
| Pointer.ReplaysAreIgnored | draggable-connections.js:10-14 | no replayed event is intercepted by the press or release handler |
| Pointer.Intercepted | draggable-connections.js:10-14 | the guards of `onPress` and `onRelease`: the event has the handler's type and is not tagged `captured` |
| Pointer.Replay | draggable-connections.js:47-48 | `new PointerEvent(kind, e)` tagged `captured`: the given type and the original event's data, refused by both handlers |
| Pointer.Replays | draggable-connections.js:43-58 | the events `onClick` dispatches: the replayed press when `last_pd` is set, then the replayed release when `last_pu` is set |
| Drag.FirstHit | draggable-connections.js:67-68 | the index found passes the hit test and no earlier tile does; no index means no tile passes |
| Drag.FirstHitAt | draggable-connections.js:67-68 | a tile that passes the hit test with no earlier tile passing it is the first hit |
| Drag.NoHit | draggable-connections.js:67-68 | when no tile passes the hit test there is no first hit |
| Drag.Includes | draggable-connections.js:70 | `direction.includes("right")` |
| Drag.IncludesAt | draggable-connections.js:70 | `Includes(s, p)` holds exactly when `p` occurs in `s` at some position |
| Drag.Reference | draggable-connections.js:69-73 | the reference node for a hit on `other`: `other.nextSibling` when the direction includes "right", else `other` |
| Drag.DragStep | draggable-connections.js:65-83 | one `onDrag` sample: nothing moves unless the dragged tile is over the container; then the first hit tile decides one `PreInsert` with its reference, and none moves nothing. Only that insertion can throw, with NotFoundError |
| Drag.DragStepUnmoved | draggable-connections.js:66-68 | the step leaves the children unchanged when the dragged tile is not over the container, when no tile is hit, or when the first hit is the dragged tile |
| Drag.DragStepPermutes | draggable-connections.js:65-83 | a successful step keeps the children distinct and, for an attached dragged tile, is a permutation |
| Drag.DragStepPlacement | draggable-connections.js:69-74 | when the first hit is another attached tile, the dragged tile ends up right after it for a direction that includes "right", and right before it otherwise; every other tile keeps its relative order |
| Drag.DragStepDetachedHit | bookmarklet/draggable.bookmarklet.js:72-80 | a first hit on a tile that has left the container either appends the dragged tile (direction "right", next sibling null) or throws NotFoundError |
| Drag.OnDrag | draggable-connections.js:65-83 | the loop stops at the first hit tile, and the container ends up as the drag step says: moved once or not at all, or unchanged with the thrown error reported |
| Drag.DraggableRegistry.KillExisting | draggable-connections.js:93-107 | every listed tile that had a live Draggable has one fewer, every other tile keeps its count, and the count returned is the number of listed tiles that had one |
| Drag.AfterKill | draggable-connections.js:97-103 | a tile's Draggable count once `killExistingDraggables` has passed: one fewer for a listed tile that had any, the same for every other tile, so a listed tile ends with none exactly when it had at most one |
| Drag.DraggableRegistry.Create | draggable-connections.js:180-196 | every listed tile gets one more live Draggable, and every other tile keeps its count |
| Watcher.InitialScope | draggable-connections.js:135-138 | the scope is the outer container exactly when no category is solved at setup |
| Watcher.AppendRestore | draggable-connections.js:153-159 | the order the extension's restore loop leaves: the children that are not attached snapshot tiles keep their order at the front, followed by the attached snapshot tiles in snapshot order |
| Watcher.ScanBatch | draggable-connections.js:140-149 | a change is reported exactly when the batch holds a childList record and the recount differs from the remembered count; the remembered count becomes the recount exactly when there is a childList record |
| Watcher.AppendRestoreStep | draggable-connections.js:153-159 | one more iteration of the restore loop moves an attached snapshot tile to the end and skips a detached one |
| Watcher.AppendRestorePermutes | draggable-connections.js:153-159 | the extension's restore only reorders: the result is distinct and holds exactly the children |
| Dom.DistinctCard | draggable-connections.js:153-159 | a list of distinct tiles has as many entries as it holds tiles; it serves `AppendRestorePermutes`, whose result has as many tiles as the children |
| Watcher.RestoresAgree | bookmarklet/draggable.bookmarklet.js:172-176 | when every child is in the snapshot, the extension's restore and the bookmarklet's restore give the same order |
| Watcher.AppendRestoreIdempotent | draggable-connections.js:153-159 | restoring an already restored container changes nothing |
| Connections.TileDraggable.OnPress | draggable-connections.js:9-24 | a real pointerdown becomes the pending press and gives the grabbed look; a wrong-type or replayed event changes nothing |
| Connections.TileDraggable.OnRelease | draggable-connections.js:26-38 | a real pointerup becomes the pending release and resets opacity and scale; a wrong-type or replayed event changes nothing |
| Connections.TileDraggable.OnClick | draggable-connections.js:40-59 | the events dispatched are exactly the replays of the two slots, press first. Both slots end empty, including when the replayed pointerup re-enters the click callback. The style is left unchanged |
| Connections.TileDraggable.OnDragStart | draggable-connections.js:61-63 | the tile is raised and nothing else changes |
| Connections.TileDraggable.OnDragEnd | draggable-connections.js:85-91 | only the raise is cleared |
| Connections.ClickWithoutDrag | draggable-connections.js:9-59 | from any tile state that is not raised, whatever its slots held and whatever it dispatched before, press, release and click add exactly one replayed pointerdown and then one replayed pointerup to what was dispatched, leave both slots empty, and leave the tile rendering like the cleared state |
| Connections.Controller.Setup | draggable-connections.js:109-197 | the snapshot is the setup tile order, the count and scope are those found on the page, and observation is off. On each tile one live Draggable found is killed and counted, then one is created. A tile that had at most one ends with exactly one, so a repeated setup leaves no competing Draggables |
| Connections.Controller.Submit | draggable-connections.js:166-175 | the snapshot becomes the current tile order and observation is armed, with count and scope kept |
| Connections.Controller.OnMutations | draggable-connections.js:139-163 | a disconnected observer changes nothing. Without a count change only the count is brought up to date. A change to zero throws after the count update. Any other change narrows the scope, reorders the container as `AppendRestore` says, and stops observation |
| Connections.Controller.MoveSnapshotToEnd | draggable-connections.js:153-159 | the container ends in the `AppendRestore` order of its old children and the snapshot |
| Connections.Controller.OnDrag | draggable-connections.js:183 | the drag step runs over the tile list found at setup |
| Connections.SolvedEventRestores | draggable-connections.js:139-175 | on the worked case, a solved event restores 1, 3, 4. A later re-render before the next submit is left alone |
| Bookmarklet.TileDraggable.OnPress | bookmarklet/draggable.bookmarklet.js:9-26 | a real pointerdown becomes the pending press and gives the grabbed look; a wrong-type or replayed event changes nothing |
| Bookmarklet.TileDraggable.OnRelease | bookmarklet/draggable.bookmarklet.js:28-38 | a real pointerup becomes the pending release with the style untouched; a wrong-type or replayed event changes nothing |
| Bookmarklet.TileDraggable.OnClick | bookmarklet/draggable.bookmarklet.js:40-64 | the events dispatched are exactly the replays of the two slots, press first. Both slots end empty, including on re-entry. Every tweened property is cleared |
| Bookmarklet.TileDraggable.OnDragStart | bookmarklet/draggable.bookmarklet.js:66-68 | the tile is raised and nothing else changes |
| Bookmarklet.TileDraggable.OnDragEnd | bookmarklet/draggable.bookmarklet.js:91-108 | every tweened property is cleared |
| Bookmarklet.ClickWithoutDrag | bookmarklet/draggable.bookmarklet.js:9-64 | from any tile state, whatever its slots held and whatever it dispatched before, press, release and click add exactly one replayed pointerdown and then one replayed pointerup to what was dispatched, leave both slots empty, and clear the style |
| Bookmarklet.Controller.Setup | bookmarklet/draggable.bookmarklet.js:126-226 | the tiles, the drag callback's tile array and the snapshot are the setup tile order. The count and scope are those found on the page, and observation is off. On each tile one live Draggable found is killed and counted, then one is created. A tile that had at most one ends with exactly one, so a repeated setup leaves no competing Draggables |
| Bookmarklet.Controller.Submit | bookmarklet/draggable.bookmarklet.js:184-204 | the snapshot becomes the current tile order and observation is armed, with the tiles, count and scope kept |
| Bookmarklet.Controller.OnMutations | bookmarklet/draggable.bookmarklet.js:158-181 | a disconnected observer changes nothing. Without a count change only the count is brought up to date. A change to zero throws after the count update. Any other change narrows the scope and filters the snapshot and `tiles` to the attached tiles. The container's children become exactly the filtered snapshot, and observation stops |
| Bookmarklet.Controller.OnDrag | bookmarklet/draggable.bookmarklet.js:212 | the drag step runs over the tile array captured at setup, not the filtered `tiles` |
| Bookmarklet.SolvedEventRestores | bookmarklet/draggable.bookmarklet.js:158-204 | on the worked case, a solved event makes the children exactly 1, 3, 4. A later re-render before the next submit is left alone |

## Left out

- Animation: the GSAP tweens, timelines and Flip. Sparing the tween
  durations and interpolation, each style change is one assignment to an
  abstract visual record of opacity, scale, inline transform origin and
  raised z-index. `clearProps` resets the record to its defaults.
- The tile's x/y drag offset, which `onDragEnd` tweens back to zero, is not
  part of the visual record.
- The `onDragEnd` duration computation of the bookmarklet. It is
  floating-point arithmetic that only affects timing.
- The geometry of `hitTest` and `getDirection`: both are inputs of the drag
  step.
- `this.update(false, true)` after a move. It re-anchors the drag to the
  pointer and changes no ordering state.
- Browser mechanics are not modelled:
  - the scheduling and batching of mutation records;
  - event-loop ordering;
  - `stopPropagation`, and dispatch to listeners other than the tile's own
    callbacks.
- A batch's record types are modelled. The nodes the records name are not,
  since the callback never reads them.
- Console logging and `style.transition = "none"`.
- Setup on a page that lacks one of the nodes it looks up. Each of these
  throws before any Draggable is killed or created:
  - no `fieldset` (`outerContainer.querySelectorAll` on null);
  - no tiles (`tiles[0].parentNode` on undefined);
  - no submit button (`submitBtn.addEventListener` on null).

  The model starts from an existing container and submit button.
- `Drag.DraggableRegistry.KillExisting` is stated for a list without
  repeated tiles only. Both setups pass the container's children, which
  never repeat.
- `Draggable.get` is modelled as finding a live Draggable whenever the
  tile has one. Which of several Draggables on one tile it returns is not
  modelled, only that one of them is killed.
- The tile list and the submit-time snapshot are the card-label nodes found
  under the outer container. The model takes them to be exactly the tile
  container's children. Other node types among the children are not
  modelled.
- `Dom.TileContainer.ReplaceChildren` is stated for a list of distinct
  tiles only. The filtered snapshot always is one.
- The loaders: `main.js`, `bookmarklet/load-draggable.js`, the script
  loader at the end of the bookmarklet, `bookmarklet/bookmarkleter-cli.js`
  and `web-ext-config.mjs`. They are script injection, file I/O and
  packaging configuration.
