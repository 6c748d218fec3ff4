/** The drag reorder step (`onDrag`) and the drag library's per-tile
    registration record that `killExistingDraggables` tears down. Both are the
    same in the extension and in the bookmarklet.

    The geometry is not modelled: the container hit test, the 50% hit test
    against each tile and `getDirection` are inputs of the step. */
module Drag {
  import opened Dom

  /** `s.includes(p)` on strings. */
  function Includes(s: string, p: string): bool
    decreases |s|
  {
    if |s| < |p| then false
    else s[..|p|] == p || Includes(s[1..], p)
  }

  /** `p` occurs in `s` at position `i`. */
  predicate OccursAt(s: string, p: string, i: int) {
    0 <= i <= |s| - |p| && s[i..i + |p|] == p
  }

  /** `Includes` holds exactly when `p` occurs somewhere in `s`. */
  lemma {:induction false} IncludesAt(s: string, p: string)
    decreases |s|
    ensures Includes(s, p) <==> exists i :: OccursAt(s, p, i)
  {
    if |s| >= |p| {
      if s[..|p|] == p {
        assert OccursAt(s, p, 0);
      } else {
        IncludesAt(s[1..], p);
        if Includes(s[1..], p) {
          var i :| OccursAt(s[1..], p, i);
          assert s[i + 1..i + 1 + |p|] == s[1..][i..i + |p|];
          assert OccursAt(s, p, i + 1);
        }
        if i :| OccursAt(s, p, i) {
          assert i != 0;
          assert s[1..][i - 1..i - 1 + |p|] == s[i..i + |p|];
          assert OccursAt(s[1..], p, i - 1);
        }
      }
    }
  }

  const Right := "right"

  /** The first position, in list order, of a tile that passes the hit test. */
  function FirstHit(tiles: seq<TileId>, hit: TileId -> bool): (r: Option<nat>)
    ensures r.Some? ==> r.value < |tiles| && hit(tiles[r.value])
    ensures r.Some? ==> forall k :: 0 <= k < r.value ==> !hit(tiles[k])
    ensures r.None? ==> forall k :: 0 <= k < |tiles| ==> !hit(tiles[k])
  {
    if tiles == [] then None
    else if hit(tiles[0]) then Some(0)
    else match FirstHit(tiles[1..], hit)
      case None => None
      case Some(i) => Some(i + 1)
  }

  /** The node the dragged tile is inserted before, for a hit on `other`:
      `other.nextSibling` when the direction includes "right", else `other`. */
  function Reference(children: seq<TileId>, other: TileId, direction: string): Option<TileId> {
    if Includes(direction, Right) then NextSibling(children, other) else Some(other)
  }

  /** One drag-move sample on the container whose children are `children`:
      nothing happens unless the dragged tile is over the container; then the
      first hit tile of `tiles` decides the one insertion, if any. */
  function DragStep(children: seq<TileId>, tiles: seq<TileId>, target: TileId, inContainer: bool,
                    hit: TileId -> bool, direction: TileId -> string): (r: Result<seq<TileId>>)
    requires Distinct(children)
    ensures r.Err? ==> r.error == NotFoundError && inContainer && FirstHit(tiles, hit).Some?
  {
    if !inContainer then Ok(children)
    else match FirstHit(tiles, hit)
      case None => Ok(children)
      case Some(i) => PreInsert(children, target, Reference(children, tiles[i], direction(tiles[i])))
  }

  /** A step leaves the children as they are when the dragged tile is not
      over the container, when no tile is hit, and when the first hit is the
      dragged tile itself; only that last case needs the dragged tile to be a
      child. */
  lemma DragStepUnmoved(children: seq<TileId>, tiles: seq<TileId>, target: TileId, inContainer: bool,
                        hit: TileId -> bool, direction: TileId -> string)
    requires Distinct(children)
    requires inContainer && FirstHit(tiles, hit).Some? ==> target in children
    requires !inContainer || FirstHit(tiles, hit).None? || tiles[FirstHit(tiles, hit).value] == target
    ensures DragStep(children, tiles, target, inContainer, hit, direction) == Ok(children)
  {
    if inContainer && FirstHit(tiles, hit).Some? {
      if Includes(direction(target), Right) {
        PreInsertBeforeNext(children, target);
      } else {
        PreInsertSelf(children, target);
      }
    }
  }

  /** A step that succeeds permutes the children (adding the dragged tile if
      it was not among them) and never duplicates a tile. */
  lemma DragStepPermutes(children: seq<TileId>, tiles: seq<TileId>, target: TileId, inContainer: bool,
                         hit: TileId -> bool, direction: TileId -> string)
    requires Distinct(children)
    ensures DragStep(children, tiles, target, inContainer, hit, direction).Ok? ==>
      var r := DragStep(children, tiles, target, inContainer, hit, direction).value;
      && Distinct(r)
      && (target in children ==> multiset(r) == multiset(children))
      && (target !in children ==>
            multiset(r) == multiset(children) || multiset(r) == multiset(children) + multiset{target})
  {
    if inContainer && FirstHit(tiles, hit).Some? {
      var i := FirstHit(tiles, hit).value;
      PreInsertPermutes(children, target, Reference(children, tiles[i], direction(tiles[i])));
    }
  }

  /** When the first hit is another attached tile, the step moves the dragged
      tile next to it: right after it if the direction includes "right",
      right before it otherwise; every other tile keeps its relative order. */
  lemma DragStepPlacement(children: seq<TileId>, tiles: seq<TileId>, target: TileId,
                          hit: TileId -> bool, direction: TileId -> string)
    requires Distinct(children)
    requires FirstHit(tiles, hit).Some?
    requires var other := tiles[FirstHit(tiles, hit).value]; other in children && other != target
    ensures DragStep(children, tiles, target, true, hit, direction).Ok?
    ensures var other := tiles[FirstHit(tiles, hit).value];
      var r := DragStep(children, tiles, target, true, hit, direction).value;
      && other in r && target in r
      && (Includes(direction(other), Right) ==> IndexOf(r, target) == IndexOf(r, other) + 1)
      && (!Includes(direction(other), Right) ==> IndexOf(r, other) == IndexOf(r, target) + 1)
      && Remove(r, target) == Remove(children, target)
  {
    var other := tiles[FirstHit(tiles, hit).value];
    if Includes(direction(other), Right) {
      PreInsertAfter(children, target, other);
    } else {
      PreInsertPlacement(children, target, Some(other));
    }
  }

  /** A first hit on a tile that has left the container (possible because the
      step walks the tile list captured at setup): with a direction that
      includes "right" its next sibling is null and the dragged tile goes to
      the end; otherwise `insertBefore` throws NotFoundError and nothing moves. */
  lemma DragStepDetachedHit(children: seq<TileId>, tiles: seq<TileId>, target: TileId,
                            hit: TileId -> bool, direction: TileId -> string)
    requires Distinct(children)
    requires FirstHit(tiles, hit).Some? && tiles[FirstHit(tiles, hit).value] !in children
    ensures var other := tiles[FirstHit(tiles, hit).value];
      DragStep(children, tiles, target, true, hit, direction) ==
        if Includes(direction(other), Right) then Ok(Remove(children, target) + [target])
        else Err(NotFoundError)
  {
  }

  /** `onDrag`: for a drag-move sample, reorder the container's children in
      place. `inContainer` is the container hit test, `hit` the 50% hit test
      against each tile, `direction` the result of `getDirection`. A thrown
      NotFoundError ends the call with the children unchanged. */
  method OnDrag(container: TileContainer, tiles: seq<TileId>, target: TileId, inContainer: bool,
                hit: TileId -> bool, direction: TileId -> string) returns (res: Outcome)
    requires container.Valid()
    modifies container
    ensures container.Valid()
    ensures match DragStep(old(container.children), tiles, target, inContainer, hit, direction)
            case Ok(r) => res == Completed && container.children == r
            case Err(e) => res == Threw(e) && container.children == old(container.children)
  {
    res := Completed;
    if inContainer {
      ghost var before := container.children;
      for i := 0 to |tiles|
        invariant container.children == before
        invariant forall k :: 0 <= k < i ==> !hit(tiles[k])
      {
        var other := tiles[i];
        if hit(other) {
          FirstHitAt(tiles, hit, i);
          var reference := Some(other);
          if Includes(direction(other), Right) {
            reference := NextSibling(container.children, other);
          }
          assert reference == Reference(before, other, direction(other));
          res := container.InsertBefore(target, reference);
          // `this.update(false, true)` re-anchors the drag to the pointer;
          // it changes no state of this model.
          return;
        }
      }
      NoHit(tiles, hit);
    }
  }

  /** A hit at `i` with no hit before it is the first hit. */
  lemma {:induction false} FirstHitAt(tiles: seq<TileId>, hit: TileId -> bool, i: nat)
    requires i < |tiles| && hit(tiles[i])
    requires forall k :: 0 <= k < i ==> !hit(tiles[k])
    ensures FirstHit(tiles, hit) == Some(i)
  {
    if i != 0 {
      assert !hit(tiles[0]);
      FirstHitAt(tiles[1..], hit, i - 1);
    }
  }

  /** No tile passes the hit test: there is no first hit. */
  lemma {:induction false} NoHit(tiles: seq<TileId>, hit: TileId -> bool)
    requires forall k :: 0 <= k < |tiles| ==> !hit(tiles[k])
    ensures FirstHit(tiles, hit) == None
  {
    if tiles != [] {
      assert !hit(tiles[0]);
      NoHit(tiles[1..], hit);
    }
  }

  /** How many live Draggables `m` records on `tile`; a tile `m` does not
      mention has none. */
  function Count(m: map<TileId, nat>, tile: TileId): nat {
    if tile in m then m[tile] else 0
  }

  /** The tiles on which `m` records at least one live Draggable: those for
      which `Draggable.get` finds one. */
  ghost function Holding(m: map<TileId, nat>): set<TileId> {
    set t | t in m && m[t] > 0
  }

  /** No tile has competing Draggables. */
  ghost predicate AtMostOne(m: map<TileId, nat>) {
    forall t :: Count(m, t) <= 1
  }

  /** The count `m` records on `tile` once one Draggable has been killed on
      every tile of `tiles` that had one. */
  function AfterKill(m: map<TileId, nat>, tiles: set<TileId>, tile: TileId): (r: nat)
    ensures r <= Count(m, tile) <= r + 1
    ensures tile !in tiles ==> r == Count(m, tile)
    ensures tile in tiles ==> (r == 0 <==> Count(m, tile) <= 1)
  {
    if tile in tiles && Count(m, tile) > 0 then Count(m, tile) - 1 else Count(m, tile)
  }

  /** Killing one Draggable on a tile not yet visited that has one, or
      passing over a tile that has none, keeps the loop's account of
      `killExistingDraggables` up to date. */
  lemma KillStep(m: map<TileId, nat>, initial: map<TileId, nat>, killed: set<TileId>, done: set<TileId>,
                  tile: TileId)
    requires tile !in done && killed == Holding(initial) * done
    requires forall t :: Count(m, t) == AfterKill(initial, done, t)
    ensures Count(m, tile) > 0 ==>
      && tile !in killed
      && killed + {tile} == Holding(initial) * (done + {tile})
      && forall t :: Count(m[tile := Count(m, tile) - 1], t) == AfterKill(initial, done + {tile}, t)
    ensures Count(m, tile) == 0 ==>
      && killed == Holding(initial) * (done + {tile})
      && forall t :: Count(m, t) == AfterKill(initial, done + {tile}, t)
  {
    assert Count(m, tile) == AfterKill(initial, done, tile);
    if Count(m, tile) > 0 {
      var m' := m[tile := Count(m, tile) - 1];
      forall t
        ensures Count(m', t) == AfterKill(initial, done + {tile}, t)
      {
        if t != tile {
          assert Count(m', t) == Count(m, t) == AfterKill(initial, done, t);
        }
      }
    }
  }

  /** The drag library's record of the live Draggables on each tile. */
  class DraggableRegistry {
    var live: map<TileId, nat>

    constructor (initial: map<TileId, nat>)
      ensures live == initial
    {
      live := initial;
    }

    /** `killExistingDraggables(tiles)`: for each tile, `Draggable.get` finds
        a live Draggable if it has one, which is killed and counted. The
        tiles are a node list, so no tile is listed twice. */
    method KillExisting(tiles: seq<TileId>) returns (count: nat)
      requires Distinct(tiles)
      modifies this
      ensures forall t :: Count(live, t) == AfterKill(old(live), Elems(tiles), t)
      ensures count == |Holding(old(live)) * Elems(tiles)|
    {
      count := 0;
      ghost var initial := live;
      ghost var killed: set<TileId> := {};
      for i := 0 to |tiles|
        invariant killed == Holding(initial) * Elems(tiles[..i])
        invariant forall t :: Count(live, t) == AfterKill(initial, Elems(tiles[..i]), t)
        invariant count == |killed|
      {
        var tile := tiles[i];
        ElemsSnoc(tiles, i);
        NotBefore(tiles, i);
        KillStep(live, initial, killed, Elems(tiles[..i]), tile);
        if Count(live, tile) > 0 {
          killed := killed + {tile};
          live := live[tile := Count(live, tile) - 1];
          count := count + 1;
        }
      }
      assert tiles[..|tiles|] == tiles;
    }

    /** `Draggable.create(tiles, ...)`: one new Draggable on every tile. */
    method Create(tiles: seq<TileId>)
      modifies this
      ensures forall t :: Count(live, t) == if t in tiles then Count(old(live), t) + 1 else Count(old(live), t)
    {
      live := map t | t in live.Keys + Elems(tiles) :: Count(live, t) + (if t in tiles then 1 else 0);
    }
  }
}
