/** The bookmarklet build of the controller, `draggable.bookmarklet.js`.
    It differs from the extension in three places: the release callback
    leaves the tile's style alone, the click and drag-end callbacks clear the
    style properties back to their defaults, and the restore filters the
    snapshot (and the `tiles` variable) to the attached tiles and hands the
    filtered snapshot to `replaceChildren`. */
module Bookmarklet {
  import opened Dom
  import opened Pointer
  import opened Watcher
  import Drag

  /** One tile's Draggable as its callbacks see it through `this`: the tile,
      the pending-event slots `last_pd` and `last_pu`, the tile's inline
      style, and the events dispatched on the tile so far. */
  class TileDraggable {
    const target: TileId
    var lastPd: Option<PointerEvent>
    var lastPu: Option<PointerEvent>
    var visual: Visual
    var dispatched: seq<PointerEvent>

    constructor (target: TileId)
      ensures this.target == target
      ensures lastPd == None && lastPu == None && visual == Cleared && dispatched == []
    {
      this.target := target;
      lastPd, lastPu := None, None;
      visual := Cleared;
      dispatched := [];
    }

    /** How many replays a click would still dispatch. */
    function Pending(): nat
      reads this
    {
      (if lastPd.Some? then 1 else 0) + (if lastPu.Some? then 1 else 0)
    }

    /** `onPress`: a real pointerdown becomes the pending press and the tile
        shows the grabbed look; another event type is refused with a warning
        and a replay is let through, both without any change. */
    method OnPress(e: PointerEvent)
      modifies this
      ensures lastPd == if Intercepted(e, PointerDown) then Some(e) else old(lastPd)
      ensures visual == if Intercepted(e, PointerDown) then Grabbed(old(visual)) else old(visual)
      ensures lastPu == old(lastPu) && dispatched == old(dispatched)
    {
      if e.kind != PointerDown {
        return;
      }
      if e.captured {
        return;
      }
      lastPd := Some(e);
      visual := Grabbed(visual);
    }

    /** `onRelease`: a real pointerup becomes the pending release; other
        events change nothing. The style is left for the click or drag end. */
    method OnRelease(e: PointerEvent)
      modifies this
      ensures lastPu == if Intercepted(e, PointerUp) then Some(e) else old(lastPu)
      ensures lastPd == old(lastPd) && visual == old(visual) && dispatched == old(dispatched)
    {
      if e.kind != PointerUp {
        return;
      }
      if e.captured {
        return;
      }
      lastPu := Some(e);
    }

    /** `onClick`: replay the pending press, then the pending release, tagged
        `captured`, clearing each slot before its dispatch; a click that the
        replayed release itself triggers (`replayClicks`) re-enters with both
        slots empty. Then `clearProps` resets scale, transform origin, opacity
        and z-index. */
    method OnClick(replayClicks: bool)
      modifies this
      decreases Pending()
      ensures dispatched == old(dispatched) + Replays(old(lastPd), old(lastPu))
      ensures lastPd == None && lastPu == None
      ensures visual == Cleared
    {
      if lastPd.Some? {
        var replay := Replay(lastPd.value, PointerDown);
        lastPd := None;
        dispatched := dispatched + [replay];
        OnPress(replay);
      }
      if lastPu.Some? {
        var replay := Replay(lastPu.value, PointerUp);
        lastPu := None;
        dispatched := dispatched + [replay];
        OnRelease(replay);
        if replayClicks {
          OnClick(replayClicks);
        }
      }
      visual := Cleared;
    }

    /** `onDragStart`: raise the tile with `zIndex: 1000`. */
    method OnDragStart()
      modifies this
      ensures visual == old(visual).(raised := true)
      ensures lastPd == old(lastPd) && lastPu == old(lastPu) && dispatched == old(dispatched)
    {
      visual := visual.(raised := true);
    }

    /** `onDragEnd`, once its timeline has run: the tile is back at its
        (possibly new) place and every property set elsewhere is cleared. */
    method OnDragEnd()
      modifies this
      ensures visual == Cleared
      ensures lastPd == old(lastPd) && lastPu == old(lastPu) && dispatched == old(dispatched)
    {
      visual := Cleared;
    }
  }

  /** A press, a release without a drag in between, then the click, on a tile
      in any state (slots `pd` and `pu` left pending from before, events
      `before` already dispatched, any style): exactly one replayed
      pointerdown and then one replayed pointerup are added to what was
      dispatched, both slots end empty, and the style is cleared. */
  method ClickWithoutDrag(target: TileId, before: seq<PointerEvent>, pd: Option<PointerEvent>,
                          pu: Option<PointerEvent>, start: Visual,
                          down: PointerEvent, up: PointerEvent, replayClicks: bool)
    returns (trace: seq<PointerEvent>, look: Visual, pendingPd: Option<PointerEvent>,
             pendingPu: Option<PointerEvent>)
    requires Intercepted(down, PointerDown) && Intercepted(up, PointerUp)
    ensures trace == before + [PointerEvent(PointerDown, true, down.init), PointerEvent(PointerUp, true, up.init)]
    ensures look == Cleared
    ensures pendingPd == None && pendingPu == None
  {
    var d := new TileDraggable(target);
    d.lastPd, d.lastPu, d.visual, d.dispatched := pd, pu, start, before;
    d.OnPress(down);
    d.OnRelease(up);
    d.OnClick(replayClicks);
    trace, look, pendingPd, pendingPu := d.dispatched, d.visual, d.lastPd, d.lastPu;
  }

  /** The state `setUpDraggables` keeps for the page. */
  class Controller {
    const container: TileContainer
    /** The tile array as `onDragParams` captured it at setup: the drag
        callback keeps walking this array after `tiles` is reassigned. */
    const dragTiles: seq<TileId>
    /** The closure variable `tiles`, filtered at every restore. */
    var tiles: seq<TileId>
    /** `tilesSnapshot`. */
    var snapshot: seq<TileId>
    /** `solvedCount`. */
    var solvedCount: nat
    /** `solvedCategoriesContainer`. */
    var scope: Scope
    /** Whether the observer is connected. */
    var observing: bool
    /** The count `killExistingDraggables` logged during setup. */
    ghost var killedAtSetup: nat

    ghost predicate Valid()
      reads this, container
    {
      container.Valid() && Distinct(snapshot)
    }

    /** `setUpDraggables` on a page whose tile container is `container`, with
        `solvedFound` solved categories already shown, the first of them
        under the node `firstSolvedParent`. Existing Draggables on the tiles
        are killed before new ones are created. */
    constructor Setup(container: TileContainer, registry: Drag.DraggableRegistry,
                      solvedFound: nat, firstSolvedParent: nat)
      requires container.Valid()
      modifies registry
      ensures Valid()
      ensures this.container == container
      ensures dragTiles == container.children && tiles == container.children && snapshot == container.children
      ensures solvedCount == solvedFound && scope == InitialScope(solvedFound, firstSolvedParent)
      ensures !observing
      ensures killedAtSetup == |Drag.Holding(old(registry.live)) * Elems(container.children)|
      ensures forall t :: Drag.Count(registry.live, t) == (
                if t in container.children then Drag.AfterKill(old(registry.live), Elems(container.children), t) + 1
                else Drag.Count(old(registry.live), t))
      ensures forall t :: t in container.children && Drag.Count(old(registry.live), t) <= 1 ==>
        Drag.Count(registry.live, t) == 1
      ensures Drag.AtMostOne(old(registry.live)) ==> Drag.AtMostOne(registry.live)
    {
      this.container := container;
      dragTiles := container.children;
      tiles := container.children;
      snapshot := container.children;
      solvedCount := solvedFound;
      scope := InitialScope(solvedFound, firstSolvedParent);
      observing := false;
      new;
      var killed := registry.KillExisting(tiles);
      killedAtSetup := killed;
      registry.Create(tiles);
    }

    /** The submit button's click listener: snapshot the current tile order
        and (re)connect the observer to the current scope. */
    method Submit()
      requires Valid()
      modifies this
      ensures Valid()
      ensures snapshot == container.children && observing
      ensures tiles == old(tiles) && solvedCount == old(solvedCount) && scope == old(scope)
      ensures killedAtSetup == old(killedAtSetup)
    {
      snapshot := container.children;
      observing := true;
    }

    /** The observer's callback for one batch `records`, when the scope holds
        `found` solved-category nodes, the first of them under the node
        `firstSolvedParent`. A disconnected observer gets no batch. On a count
        change the scope narrows, the snapshot and `tiles` are filtered to the
        attached tiles, the container's children become the filtered
        snapshot, and observation stops; if the count dropped to zero,
        reading the parent of `solvedNodes[0]` throws first. */
    method OnMutations(records: seq<MutationKind>, found: nat, firstSolvedParent: nat) returns (res: Outcome)
      requires Valid()
      modifies this, container
      ensures Valid()
      ensures killedAtSetup == old(killedAtSetup)
      ensures !old(observing) ==>
        && res == Completed && !observing
        && solvedCount == old(solvedCount) && scope == old(scope)
        && snapshot == old(snapshot) && tiles == old(tiles)
        && container.children == old(container.children)
      ensures old(observing) ==>
        solvedCount == if ChildList in records then found else old(solvedCount)
      ensures old(observing) && !(ChildList in records && found != old(solvedCount)) ==>
        && res == Completed && observing && scope == old(scope)
        && snapshot == old(snapshot) && tiles == old(tiles)
        && container.children == old(container.children)
      ensures old(observing) && ChildList in records && found != old(solvedCount) && found == 0 ==>
        && res == Threw(TypeError) && observing && scope == old(scope)
        && snapshot == old(snapshot) && tiles == old(tiles)
        && container.children == old(container.children)
      ensures old(observing) && ChildList in records && found != old(solvedCount) && found != 0 ==>
        && res == Completed && !observing && scope == SolvedParent(firstSolvedParent)
        && snapshot == Keep(old(snapshot), Elems(old(container.children)))
        && tiles == Keep(old(tiles), Elems(old(container.children)))
        && container.children == snapshot
    {
      res := Completed;
      if !observing {
        return;
      }
      var changed, count := ScanBatch(records, found, solvedCount);
      solvedCount := count;
      if changed {
        if found == 0 {
          // `solvedNodes[0]` is undefined.
          return Threw(TypeError);
        }
        scope := SolvedParent(firstSolvedParent);
        var attached := container.Attached();
        KeepElems(snapshot, attached);
        snapshot := Keep(snapshot, attached);
        tiles := Keep(tiles, attached);
        // Flip.getState / Flip.from only animate the change.
        container.ReplaceChildren(snapshot);
        observing := false;
      }
    }

    /** The drag callback as setup registers it: it walks `dragTiles`, the
        array captured at setup, and not the filtered `tiles`, so tiles that
        have gone into a solved category are still hit-tested. */
    method OnDrag(target: TileId, inContainer: bool, hit: TileId -> bool, direction: TileId -> string)
      returns (res: Outcome)
      requires Valid()
      modifies container
      ensures Valid()
      ensures match Drag.DragStep(old(container.children), dragTiles, target, inContainer, hit, direction)
              case Ok(r) => res == Completed && container.children == r
              case Err(e) => res == Threw(e) && container.children == old(container.children)
    {
      res := Drag.OnDrag(container, dragTiles, target, inContainer, hit, direction);
    }
  }

  /** The worked case of a solved event: tiles 1, 2, 3, 4 as submitted; the
      host page then takes tile 2 into a solved category and shows the rest
      as 4, 3, 1. The restore puts them back as 1, 3, 4. A later re-render
      (3, 4, 1) before the next submit stays: the observer is disconnected. */
  method SolvedEventRestores() returns (order: seq<TileId>, later: seq<TileId>)
    ensures order == [1, 3, 4]
    ensures later == [3, 4, 1]
  {
    var container := new TileContainer([1, 2, 3, 4]);
    var registry := new Drag.DraggableRegistry(map[]);
    var c := new Controller.Setup(container, registry, 0, 0);
    c.Submit();
    assert c.observing && c.solvedCount == 0 && c.snapshot == [1, 2, 3, 4];
    container.ReplaceChildren([4, 3, 1]);
    WorkedCaseFilter();
    assert ChildList in [ChildList];
    var res := c.OnMutations([ChildList], 1, 7);
    order := container.children;
    assert !c.observing;
    container.ReplaceChildren([3, 4, 1]);
    res := c.OnMutations([ChildList], 2, 7);
    later := container.children;
  }
}
