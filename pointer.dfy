/** Pointer events as the press and release handlers see them, the replays
    the click handler builds from them, and the few visual properties the
    handlers set on a tile. */
module Pointer {
  import opened Dom

  /** A pointer event: its `type`, whether it carries the `captured` tag that
      marks a replay, and its initialisation data (coordinates, pointer id and
      the like), which a replay copies and nothing here inspects. */
  datatype PointerEvent = PointerEvent(kind: string, captured: bool, init: nat)

  const PointerDown := "pointerdown"
  const PointerUp := "pointerup"

  /** `new PointerEvent(kind, e)` followed by `captured = true`. */
  function Replay(e: PointerEvent, kind: string): (r: PointerEvent)
    ensures r.kind == kind && r.init == e.init
    ensures forall k :: !Intercepted(r, k)
  {
    PointerEvent(kind, true, e.init)
  }

  /** The events the click handler dispatches for the pending press `pd` and
      pending release `pu`: the press first, then the release, each once. */
  function Replays(pd: Option<PointerEvent>, pu: Option<PointerEvent>): seq<PointerEvent> {
    (if pd.Some? then [Replay(pd.value, PointerDown)] else [])
    + (if pu.Some? then [Replay(pu.value, PointerUp)] else [])
  }

  /** A click replays at most one press and at most one release, in that
      order, all tagged as replays and carrying the captured events' data;
      with nothing pending it replays nothing. */
  lemma ReplaysShape(pd: Option<PointerEvent>, pu: Option<PointerEvent>)
    ensures var r := Replays(pd, pu);
      && |r| == (if pd.Some? then 1 else 0) + (if pu.Some? then 1 else 0)
      && (forall i :: 0 <= i < |r| ==> r[i].captured)
      && (pd.Some? ==> r[0] == PointerEvent(PointerDown, true, pd.value.init))
      && (pu.Some? ==> r[|r| - 1] == PointerEvent(PointerUp, true, pu.value.init))
      && (pd.None? && pu.None? ==> r == [])
  {
  }

  /** Whether the handler for events of type `kind` takes `e` as pending:
      events of another type are refused with a warning, and replays (those
      tagged `captured`) are let through untouched. */
  predicate Intercepted(e: PointerEvent, kind: string) {
    e.kind == kind && !e.captured
  }

  /** No event a click dispatches is taken by the press or release handler,
      which is what ends the replay's recursion. */
  lemma ReplaysAreIgnored(pd: Option<PointerEvent>, pu: Option<PointerEvent>)
    ensures forall e :: e in Replays(pd, pu) ==>
      !Intercepted(e, PointerDown) && !Intercepted(e, PointerUp)
  {
    ReplaysShape(pd, pu);
  }

  /** The inline style properties the handlers tween: opacity and scale in
      percent, whether `transformOrigin` is set inline (to "50% 50%", which
      renders like the default), and whether `zIndex` is raised to 1000. */
  datatype Visual = Visual(opacityPct: nat, scalePct: nat, originSet: bool, raised: bool)

  /** No inline value for any of them: the state `clearProps` leaves. */
  const Cleared := Visual(100, 100, false, false)

  /** The "grabbed" look of `onPress`: opacity 0.5, scale 0.9, origin "50% 50%". */
  function Grabbed(v: Visual): Visual {
    v.(opacityPct := 50, scalePct := 90, originSet := true)
  }

  /** Rendered like the cleared state: the inline origin equals the default. */
  predicate LooksCleared(v: Visual) {
    v.opacityPct == 100 && v.scalePct == 100 && !v.raised
  }
}
