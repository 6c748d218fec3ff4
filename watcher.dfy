/** The parts of the reorder watcher that both variants share: the scope it
    observes, the scan of a mutation batch for a change in the number of
    solved categories, and the order the extension's restore produces. */
module Watcher {
  import opened Dom

  /** The `type` of a mutation record. */
  datatype MutationKind = ChildList | Attributes | CharacterData

  /** The node the observer is attached to and the solved categories are
      counted in: the outer container (the `fieldset`) until a category is
      solved, then the parent node of the solved-category nodes. */
  datatype Scope = OuterContainer | SolvedParent(node: nat)

  /** The scope at setup: the outer container, or the parent of the first
      solved-category node when some category is solved already. */
  function InitialScope(solvedFound: nat, firstSolvedParent: nat): (s: Scope)
    ensures s == OuterContainer <==> solvedFound == 0
  {
    if solvedFound != 0 then SolvedParent(firstSolvedParent) else OuterContainer
  }

  /** The loop over a batch's records. Every childList record recounts the
      solved-category nodes in the scope; `found` is that count, the same for
      every record because nothing changes the page while the callback runs.
      A change is reported when the count differs from the remembered one,
      and the remembered count is brought up to date. */
  method ScanBatch(records: seq<MutationKind>, found: nat, remembered: nat) returns (changed: bool, count: nat)
    ensures count == if ChildList in records then found else remembered
    ensures changed <==> ChildList in records && found != remembered
  {
    changed, count := false, remembered;
    for i := 0 to |records|
      invariant count == if ChildList in records[..i] then found else remembered
      invariant changed <==> ChildList in records[..i] && found != remembered
    {
      assert records[..i + 1] == records[..i] + [records[i]];
      if records[i] == ChildList {
        if found != count {
          count := found;
          changed := true;
        }
      }
    }
    assert records[..|records|] == records;
  }

  /** The container order the extension's restore leaves: the snapshot tiles
      still attached, in snapshot order, moved behind every other child. */
  function AppendRestore(children: seq<TileId>, snapshot: seq<TileId>): seq<TileId> {
    var moved := Keep(snapshot, Elems(children));
    Drop(children, Elems(moved)) + moved
  }

  /** Appending one more snapshot tile to the restore is what one more
      iteration of the restore loop does: an attached tile is moved to the
      end, a detached one is skipped. */
  lemma AppendRestoreStep(children: seq<TileId>, done: seq<TileId>, t: TileId)
    requires Distinct(children) && t !in done
    ensures AppendRestore(children, done + [t]) ==
      if t in children then Remove(AppendRestore(children, done), t) + [t]
      else AppendRestore(children, done)
  {
    var e := Elems(children);
    var moved := Keep(done, e);
    KeepSnoc(done, t, e);
    KeepElems(done, e);
    if t in children {
      assert t in e && t !in moved;
      assert Elems(moved + [t]) == Elems(moved) + {t};
      var front := Drop(children, Elems(moved));
      assert AppendRestore(children, done) == front + moved;
      assert AppendRestore(children, done + [t]) == Drop(children, Elems(moved) + {t}) + (moved + [t]);
      RemoveAppendLeft(front, moved, t);
      RemoveFromDrop(children, Elems(moved), t);
    } else {
      assert t !in e;
      assert Keep(done + [t], e) == moved;
    }
  }

  /** Filtering one more entry appends it when it passes. */
  lemma KeepSnoc(s: seq<TileId>, t: TileId, keep: set<TileId>)
    ensures Keep(s + [t], keep) == Keep(s, keep) + (if t in keep then [t] else [])
  {
    assert (s + [t])[..|s|] == s;
  }

  /** The restore only reorders: its result holds each child exactly once. */
  lemma AppendRestorePermutes(children: seq<TileId>, snapshot: seq<TileId>)
    requires Distinct(children) && Distinct(snapshot)
    ensures var r := AppendRestore(children, snapshot);
      && Distinct(r)
      && (forall x :: x in r <==> x in children)
      && |r| == |children|
  {
    var moved := Keep(snapshot, Elems(children));
    var front := Drop(children, Elems(moved));
    var r := front + moved;
    KeepElems(snapshot, Elems(children));
    DropElems(children, Elems(moved));
    forall i, j | 0 <= i < j < |r| ensures r[i] != r[j] {
      if j >= |front| && i < |front| {
        assert r[i] in front && r[j] in moved;
      }
    }
    assert forall x :: x in r <==> x in children;
    DistinctCard(r);
    DistinctCard(children);
    assert Elems(r) == Elems(children);
  }

  /** When every child is in the snapshot, the extension's restore and the
      bookmarklet's `replaceChildren` restore give the same order: the
      snapshot filtered to the attached tiles. */
  lemma RestoresAgree(children: seq<TileId>, snapshot: seq<TileId>)
    requires forall x :: x in children ==> x in snapshot
    ensures AppendRestore(children, snapshot) == Keep(snapshot, Elems(children))
  {
    var moved := Keep(snapshot, Elems(children));
    KeepElems(snapshot, Elems(children));
    DropAll(children, Elems(moved));
  }

  /** A restore applied to its own result changes nothing more: the moves the
      restore makes cannot by themselves call for another reordering. */
  lemma AppendRestoreIdempotent(children: seq<TileId>, snapshot: seq<TileId>)
    ensures AppendRestore(AppendRestore(children, snapshot), snapshot) == AppendRestore(children, snapshot)
  {
    var moved := Keep(snapshot, Elems(children));
    var front := Drop(children, Elems(moved));
    var r := front + moved;
    assert AppendRestore(children, snapshot) == r;
    assert Elems(r) == Elems(children) by {
      KeepElems(snapshot, Elems(children));
      DropElems(children, Elems(moved));
      forall x ensures x in r <==> x in children {
        assert x in r <==> x in front || x in moved;
      }
    }
    assert Keep(snapshot, Elems(r)) == moved;
    assert Drop(r, Elems(moved)) == front by {
      DropAppend(front, moved, Elems(moved));
      DropElems(children, Elems(moved));
      DropNone(front, Elems(moved));
      DropAll(moved, Elems(moved));
    }
  }

  /** The filter of the worked solved event: of the submitted tiles 1, 2, 3, 4
      the ones still shown as 4, 3, 1, in submitted order. */
  lemma WorkedCaseFilter()
    ensures Keep([1, 2, 3, 4], Elems([4, 3, 1])) == [1, 3, 4]
  {
    var a := Elems([4, 3, 1]);
    assert a == {1, 3, 4} by {
      forall x ensures x in a <==> x in {1, 3, 4} {
        assert x in [4, 3, 1] <==> x == 4 || x == 3 || x == 1;
      }
    }
    assert Keep([1], a) == Keep([], a) + [1];
    assert Keep([1, 2], a) == Keep([1], a) by { assert [1, 2][..1] == [1]; }
    assert Keep([1, 2, 3], a) == Keep([1, 2], a) + [3] by { assert [1, 2, 3][..2] == [1, 2]; }
    assert Keep([1, 2, 3, 4], a) == Keep([1, 2, 3], a) + [4] by { assert [1, 2, 3, 4][..3] == [1, 2, 3]; }
  }
}
