/** The extension's controller, `draggable-connections.js`: the per-tile
    press, release and click callbacks, the drag callbacks, and the state
    `setUpDraggables` keeps in its closure (snapshot, solved count, observed
    scope) with the submit listener and the mutation observer's callback. */
module Connections {
  import opened Dom
  import opened Pointer
  import opened Watcher
  import Drag

  /** One tile's Draggable as its callbacks see it through `this`: the tile,
      the two pending-event slots `last_pd` and `last_pu`, the tile's inline
      style, and the events dispatched on the tile so far. */
  class TileDraggable {
    const target: TileId
    var lastPd: Option<PointerEvent>
    var lastPu: Option<PointerEvent>
    var visual: Visual
    var dispatched: seq<PointerEvent>

    constructor (target: TileId)
      ensures this.target == target
      ensures lastPd == None && lastPu == None && visual == Cleared && dispatched == []
    {
      this.target := target;
      lastPd, lastPu := None, None;
      visual := Cleared;
      dispatched := [];
    }

    /** How many replays a click would still dispatch. */
    function Pending(): nat
      reads this
    {
      (if lastPd.Some? then 1 else 0) + (if lastPu.Some? then 1 else 0)
    }

    /** `onPress`: a real pointerdown becomes the pending press (its
        propagation is stopped) and the tile shows the grabbed look; any other
        event type is refused with a warning and a replay is let through,
        both without any change. */
    method OnPress(e: PointerEvent)
      modifies this
      ensures lastPd == if Intercepted(e, PointerDown) then Some(e) else old(lastPd)
      ensures visual == if Intercepted(e, PointerDown) then Grabbed(old(visual)) else old(visual)
      ensures lastPu == old(lastPu) && dispatched == old(dispatched)
    {
      if e.kind != PointerDown {
        return;
      }
      if e.captured {
        return;
      }
      lastPd := Some(e);
      visual := Grabbed(visual);
    }

    /** `onRelease`: a real pointerup becomes the pending release and the
        grabbed look's opacity and scale are set back to 1; other events
        change nothing. */
    method OnRelease(e: PointerEvent)
      modifies this
      ensures lastPu == if Intercepted(e, PointerUp) then Some(e) else old(lastPu)
      ensures visual == if Intercepted(e, PointerUp) then old(visual).(opacityPct := 100, scalePct := 100)
                        else old(visual)
      ensures lastPd == old(lastPd) && dispatched == old(dispatched)
    {
      if e.kind != PointerUp {
        return;
      }
      if e.captured {
        return;
      }
      lastPu := Some(e);
      visual := visual.(opacityPct := 100, scalePct := 100);
    }

    /** `onClick`: replay the pending press, then the pending release, as new
        events tagged `captured`, clearing each slot before its dispatch.
        Dispatching runs the tile's own listeners at once: the press and
        release callbacks, which ignore the replays, and, when
        `replayClicks` holds, the drag library's click detection, which calls
        this callback again from inside the replayed release. That nested
        call finds both slots empty and dispatches nothing. */
    method OnClick(replayClicks: bool)
      modifies this
      decreases Pending()
      ensures dispatched == old(dispatched) + Replays(old(lastPd), old(lastPu))
      ensures lastPd == None && lastPu == None
      ensures visual == old(visual)
    {
      if lastPd.Some? {
        var replay := Replay(lastPd.value, PointerDown);
        lastPd := None;
        dispatched := dispatched + [replay];
        OnPress(replay);
      }
      if lastPu.Some? {
        var replay := Replay(lastPu.value, PointerUp);
        lastPu := None;
        dispatched := dispatched + [replay];
        OnRelease(replay);
        if replayClicks {
          OnClick(replayClicks);
        }
      }
    }

    /** `onDragStart`: raise the tile with `zIndex: 1000`. */
    method OnDragStart()
      modifies this
      ensures visual == old(visual).(raised := true)
      ensures lastPd == old(lastPd) && lastPu == old(lastPu) && dispatched == old(dispatched)
    {
      visual := visual.(raised := true);
    }

    /** `onDragEnd`, once its timeline has run: the tile is back at its
        (possibly new) place and its `zIndex` is cleared. */
    method OnDragEnd()
      modifies this
      ensures visual == old(visual).(raised := false)
      ensures lastPd == old(lastPd) && lastPu == old(lastPu) && dispatched == old(dispatched)
    {
      visual := visual.(raised := false);
    }
  }

  /** A press, a release without a drag in between, then the click, on a tile
      in any state that is not raised (slots `pd` and `pu` left pending from
      before, events `before` already dispatched): exactly one replayed
      pointerdown and then one replayed pointerup are added to what was
      dispatched, both slots end empty, and the tile renders like the
      cleared state. */
  method ClickWithoutDrag(target: TileId, before: seq<PointerEvent>, pd: Option<PointerEvent>,
                          pu: Option<PointerEvent>, start: Visual,
                          down: PointerEvent, up: PointerEvent, replayClicks: bool)
    returns (trace: seq<PointerEvent>, look: Visual, pendingPd: Option<PointerEvent>,
             pendingPu: Option<PointerEvent>)
    requires !start.raised
    requires Intercepted(down, PointerDown) && Intercepted(up, PointerUp)
    ensures trace == before + [PointerEvent(PointerDown, true, down.init), PointerEvent(PointerUp, true, up.init)]
    ensures LooksCleared(look)
    ensures pendingPd == None && pendingPu == None
  {
    var d := new TileDraggable(target);
    d.lastPd, d.lastPu, d.visual, d.dispatched := pd, pu, start, before;
    d.OnPress(down);
    d.OnRelease(up);
    d.OnClick(replayClicks);
    trace, look, pendingPd, pendingPu := d.dispatched, d.visual, d.lastPd, d.lastPu;
  }

  /** The state `setUpDraggables` keeps for the page: the tile container,
      the tile list found at setup, and the closure variables the submit
      listener and the observer's callback share. */
  class Controller {
    const container: TileContainer
    /** `tiles`: the static NodeList found at setup, which the drag callback
        receives through `onDragParams`. */
    const tiles: seq<TileId>
    /** `tilesSnapshot`: the tile order at the last submit. */
    var snapshot: seq<TileId>
    /** `solvedCount`: solved categories in the scope at the last count. */
    var solvedCount: nat
    /** `solvedCategoriesContainer`. */
    var scope: Scope
    /** Whether the observer is connected. */
    var observing: bool
    /** The count `killExistingDraggables` logged during setup. */
    ghost var killedAtSetup: nat

    ghost predicate Valid()
      reads this, container
    {
      container.Valid() && Distinct(snapshot)
    }

    /** `setUpDraggables` on a page whose tile container is `container`, with
        `solvedFound` solved categories already shown, the first of them
        under the node `firstSolvedParent`. Existing Draggables on the tiles
        are killed before new ones are created. */
    constructor Setup(container: TileContainer, registry: Drag.DraggableRegistry,
                      solvedFound: nat, firstSolvedParent: nat)
      requires container.Valid()
      modifies registry
      ensures Valid()
      ensures this.container == container && tiles == container.children && snapshot == container.children
      ensures solvedCount == solvedFound && scope == InitialScope(solvedFound, firstSolvedParent)
      ensures !observing
      ensures killedAtSetup == |Drag.Holding(old(registry.live)) * Elems(container.children)|
      ensures forall t :: Drag.Count(registry.live, t) == (
                if t in container.children then Drag.AfterKill(old(registry.live), Elems(container.children), t) + 1
                else Drag.Count(old(registry.live), t))
      ensures forall t :: t in container.children && Drag.Count(old(registry.live), t) <= 1 ==>
        Drag.Count(registry.live, t) == 1
      ensures Drag.AtMostOne(old(registry.live)) ==> Drag.AtMostOne(registry.live)
    {
      this.container := container;
      tiles := container.children;
      snapshot := container.children;
      solvedCount := solvedFound;
      scope := InitialScope(solvedFound, firstSolvedParent);
      observing := false;
      new;
      var killed := registry.KillExisting(tiles);
      killedAtSetup := killed;
      registry.Create(tiles);
    }

    /** The submit button's click listener: snapshot the current tile order
        and (re)connect the observer to the current scope. */
    method Submit()
      requires Valid()
      modifies this
      ensures Valid()
      ensures snapshot == container.children && observing
      ensures solvedCount == old(solvedCount) && scope == old(scope)
      ensures killedAtSetup == old(killedAtSetup)
    {
      snapshot := container.children;
      observing := true;
    }

    /** The observer's callback for one batch `records`, when the scope holds
        `found` solved-category nodes, the first of them under the node
        `firstSolvedParent`. A disconnected observer gets no batch. On a count
        change every snapshot tile that is still attached is moved to the end
        in snapshot order and observation stops; if the count dropped to zero,
        reading the parent of `solvedNodes[0]` throws first. */
    method OnMutations(records: seq<MutationKind>, found: nat, firstSolvedParent: nat) returns (res: Outcome)
      requires Valid()
      modifies this, container
      ensures Valid()
      ensures snapshot == old(snapshot) && killedAtSetup == old(killedAtSetup)
      ensures !old(observing) ==>
        && res == Completed && !observing
        && solvedCount == old(solvedCount) && scope == old(scope)
        && container.children == old(container.children)
      ensures old(observing) ==>
        solvedCount == if ChildList in records then found else old(solvedCount)
      ensures old(observing) && !(ChildList in records && found != old(solvedCount)) ==>
        && res == Completed && observing && scope == old(scope)
        && container.children == old(container.children)
      ensures old(observing) && ChildList in records && found != old(solvedCount) && found == 0 ==>
        && res == Threw(TypeError) && observing && scope == old(scope)
        && container.children == old(container.children)
      ensures old(observing) && ChildList in records && found != old(solvedCount) && found != 0 ==>
        && res == Completed && !observing && scope == SolvedParent(firstSolvedParent)
        && container.children == AppendRestore(old(container.children), old(snapshot))
    {
      res := Completed;
      if !observing {
        return;
      }
      var changed, count := ScanBatch(records, found, solvedCount);
      solvedCount := count;
      if changed {
        if found == 0 {
          // `solvedNodes[0]` is undefined.
          return Threw(TypeError);
        }
        scope := SolvedParent(firstSolvedParent);
        MoveSnapshotToEnd();
        observing := false;
      }
    }

    /** The restore loop: every snapshot tile that still has a parent is
        appended to the container in turn (`insertBefore(tile, null)`);
        tiles the host page took away are skipped. */
    method MoveSnapshotToEnd()
      requires Valid()
      modifies container
      ensures Valid()
      ensures container.children == AppendRestore(old(container.children), snapshot)
    {
      ghost var before := container.children;
      assert AppendRestore(before, snapshot[..0]) == before by {
        assert Elems(Keep(snapshot[..0], Elems(before))) == {};
        DropNone(before, {});
      }
      var i := 0;
      while i < |snapshot|
        invariant 0 <= i <= |snapshot|
        invariant container.Valid()
        invariant container.children == AppendRestore(before, snapshot[..i])
      {
        var t := snapshot[i];
        assert snapshot[..i + 1] == snapshot[..i] + [t];
        AppendRestoreStep(before, snapshot[..i], t);
        AppendRestorePermutes(before, snapshot[..i]);
        assert t in container.Attached() <==> t in container.children;
        if t in container.Attached() {
          var moved := container.InsertBefore(t, None);
        }
        i := i + 1;
      }
      assert snapshot[..|snapshot|] == snapshot;
    }

    /** The drag callback as setup registers it: `onDragParams` bind the
        container and the tile list found at setup. */
    method OnDrag(target: TileId, inContainer: bool, hit: TileId -> bool, direction: TileId -> string)
      returns (res: Outcome)
      requires Valid()
      modifies container
      ensures Valid()
      ensures match Drag.DragStep(old(container.children), tiles, target, inContainer, hit, direction)
              case Ok(r) => res == Completed && container.children == r
              case Err(e) => res == Threw(e) && container.children == old(container.children)
    {
      res := Drag.OnDrag(container, tiles, target, inContainer, hit, direction);
    }
  }

  /** The restore of the worked case below, unfolded. */
  lemma RestoreExample()
    ensures AppendRestore([4, 3, 1], [1, 2, 3, 4]) == [1, 3, 4]
  {
    WorkedCaseFilter();
    assert forall x :: x in [4, 3, 1] ==> x in [1, 2, 3, 4];
    RestoresAgree([4, 3, 1], [1, 2, 3, 4]);
  }

  /** The worked case of a solved event: tiles 1, 2, 3, 4 as submitted; the
      host page then takes tile 2 into a solved category and shows the rest
      as 4, 3, 1. The restore moves 1, 3 and 4 to the end in snapshot order.
      A later re-render (3, 4, 1) before the next submit stays: the observer
      is disconnected. */
  method SolvedEventRestores() returns (order: seq<TileId>, later: seq<TileId>)
    ensures order == [1, 3, 4]
    ensures later == [3, 4, 1]
  {
    var container := new TileContainer([1, 2, 3, 4]);
    var registry := new Drag.DraggableRegistry(map[]);
    var c := new Controller.Setup(container, registry, 0, 0);
    c.Submit();
    assert c.observing && c.solvedCount == 0 && c.snapshot == [1, 2, 3, 4];
    container.ReplaceChildren([4, 3, 1]);
    RestoreExample();
    assert ChildList in [ChildList];
    var res := c.OnMutations([ChildList], 1, 7);
    order := container.children;
    assert !c.observing;
    container.ReplaceChildren([3, 4, 1]);
    res := c.OnMutations([ChildList], 2, 7);
    later := container.children;
  }
}
