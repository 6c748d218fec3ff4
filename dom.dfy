/** Tiles, tile sequences and the two DOM operations the controller applies to
    the tile container: `insertBefore` (the pre-insert and insert algorithms of
    section 4.2.3 of the WHATWG DOM Standard) and `replaceChildren`.

    The tile container's children are a sequence of distinct tile identities.
    A tile whose `parentNode` is not null is, in this model, a child of the
    tile container; a tile the host page has taken away is in no sequence. */
module Dom {

  /** A tile is known by its node identity; its content is never inspected. */
  type TileId = nat

  datatype Option<T> = None | Some(value: T)

  /** Exceptions the modelled code can throw: the `DOMException` named
      NotFoundError that `insertBefore` throws, and the JavaScript TypeError
      of reading a property of `undefined`. */
  datatype JsException = NotFoundError | TypeError

  datatype Result<T> = Ok(value: T) | Err(error: JsException)

  /** How a handler or DOM call ended: normally, or with an exception. */
  datatype Outcome = Completed | Threw(error: JsException)

  /** A node has at most one parent and appears once among its children. */
  predicate Distinct(s: seq<TileId>) {
    forall i, j :: 0 <= i < j < |s| ==> s[i] != s[j]
  }

  function Elems(s: seq<TileId>): set<TileId> {
    set x | x in s
  }

  /** The tiles of a longer prefix are those of the shorter one and one more. */
  lemma ElemsSnoc(s: seq<TileId>, i: nat)
    requires i < |s|
    ensures Elems(s[..i + 1]) == Elems(s[..i]) + {s[i]}
  {
    assert s[..i + 1] == s[..i] + [s[i]];
  }

  /** In a list without repeats, no entry occurs before its own position. */
  lemma NotBefore(s: seq<TileId>, i: nat)
    requires Distinct(s) && i < |s|
    ensures s[i] !in Elems(s[..i])
  {
    forall x | x in s[..i]
      ensures x != s[i]
    {
      var j :| 0 <= j < i && s[..i][j] == x;
    }
  }

  /** A sequence without repetitions has as many entries as distinct ones. */
  lemma {:induction false} DistinctCard(s: seq<TileId>)
    requires Distinct(s)
    ensures |Elems(s)| == |s|
  {
    if s != [] {
      var init := s[..|s| - 1];
      assert s == init + [s[|s| - 1]];
      assert Elems(s) == Elems(init) + {s[|s| - 1]};
      DistinctCard(init);
    }
  }

  /** The position of `x` in `s`: its first occurrence. */
  function IndexOf(s: seq<TileId>, x: TileId): (i: nat)
    requires x in s
    ensures i < |s| && s[i] == x && x !in s[..i]
  {
    if s[0] == x then 0
    else
      var j := IndexOf(s[1..], x);
      assert s[..j + 1] == [s[0]] + s[1..][..j];
      1 + j
  }

  /** In a sequence without repetitions a position determines its entry. */
  lemma IndexOfAt(s: seq<TileId>, k: nat)
    requires Distinct(s) && k < |s|
    ensures IndexOf(s, s[k]) == k
  {
  }

  /** `s` with `x` taken out: what the DOM does to a node's old parent when
      the node is inserted somewhere. */
  function Remove(s: seq<TileId>, x: TileId): seq<TileId> {
    if x in s then s[..IndexOf(s, x)] + s[IndexOf(s, x) + 1..] else s
  }

  /** Where the entries of `s` other than `x` sit once `x` is removed. */
  lemma RemoveAt(s: seq<TileId>, x: TileId, k: nat)
    requires x in s && k < |s| - 1
    ensures |Remove(s, x)| == |s| - 1
    ensures Remove(s, x)[k] == if k < IndexOf(s, x) then s[k] else s[k + 1]
  {
  }

  /** Removing a present `x` takes out one occurrence of it and nothing else. */
  lemma RemoveCounts(s: seq<TileId>, x: TileId)
    requires x in s
    ensures |Remove(s, x)| == |s| - 1 && multiset(Remove(s, x)) == multiset(s) - multiset{x}
  {
    var i := IndexOf(s, x);
    assert s == s[..i] + [x] + s[i + 1..];
    assert multiset(s) == multiset(s[..i]) + multiset{x} + multiset(s[i + 1..]);
  }

  /** From a sequence without repetitions, removing `x` takes it out altogether
      and keeps every other entry. */
  lemma RemoveFacts(s: seq<TileId>, x: TileId)
    requires Distinct(s)
    ensures Distinct(Remove(s, x))
    ensures forall y :: y in Remove(s, x) <==> y in s && y != x
  {
    RemoveDistinct(s, x);
    forall y ensures y in Remove(s, x) <==> y in s && y != x {
      RemoveMember(s, x, y);
    }
  }

  lemma RemoveDistinct(s: seq<TileId>, x: TileId)
    requires Distinct(s)
    ensures Distinct(Remove(s, x))
  {
    if x in s {
      var r := Remove(s, x);
      forall a, b | 0 <= a < b < |r| ensures r[a] != r[b] {
        RemoveAt(s, x, a);
        RemoveAt(s, x, b);
      }
    }
  }

  lemma RemoveMember(s: seq<TileId>, x: TileId, y: TileId)
    requires Distinct(s)
    ensures y in Remove(s, x) <==> y in s && y != x
  {
    if x in s {
      var i := IndexOf(s, x);
      var r := Remove(s, x);
      if y in r {
        var k := IndexOf(r, y);
        RemoveAt(s, x, k);
      }
      if y in s && y != x {
        var k := IndexOf(s, y);
        var k' := if k < i then k else k - 1;
        RemoveAt(s, x, k');
        assert r[k'] == y;
      }
    }
  }

  function InsertAt(s: seq<TileId>, i: nat, x: TileId): seq<TileId>
    requires i <= |s|
  {
    s[..i] + [x] + s[i..]
  }

  /** Inserting a new entry at `p` shifts the entries from `p` on by one. */
  lemma InsertAtFacts(s: seq<TileId>, p: nat, x: TileId)
    requires Distinct(s) && x !in s && p <= |s|
    ensures Distinct(InsertAt(s, p, x))
    ensures multiset(InsertAt(s, p, x)) == multiset(s) + multiset{x}
  {
    var t := InsertAt(s, p, x);
    forall i, j | 0 <= i < j < |t| ensures t[i] != t[j] {
      InsertAtIndex(s, p, x, i);
      InsertAtIndex(s, p, x, j);
    }
    assert s == s[..p] + s[p..];
    assert multiset(t) == multiset(s[..p]) + multiset{x} + multiset(s[p..]);
  }

  /** The entry at `k` after inserting `x` at `p`. */
  lemma InsertAtIndex(s: seq<TileId>, p: nat, x: TileId, k: nat)
    requires p <= |s| && k <= |s|
    ensures InsertAt(s, p, x)[k] == if k < p then s[k] else if k == p then x else s[k - 1]
  {
  }

  /** `x.nextSibling`, for a tile `x` among the children `s`; null for the last
      child and for a node that has no parent. */
  function NextSibling(s: seq<TileId>, x: TileId): (r: Option<TileId>)
    ensures r.Some? ==> exists i :: 0 <= i < |s| - 1 && s[i] == x && s[i + 1] == r.value
    ensures Distinct(s) && x in s ==> (r.None? <==> s[|s| - 1] == x)
  {
    if x in s && IndexOf(s, x) + 1 < |s| then Some(s[IndexOf(s, x) + 1]) else None
  }

  /** `parent.insertBefore(node, child)` on a parent whose children are
      `children`: the pre-insert algorithm followed by insert.
      - a `child` that is not a child of the parent throws NotFoundError;
      - a `child` equal to `node` is replaced by the node's next sibling;
      - `node` leaves its old place, then goes before the reference child, or
        at the end when the reference is null. */
  function PreInsert(children: seq<TileId>, node: TileId, child: Option<TileId>): (r: Result<seq<TileId>>)
    requires Distinct(children)
    ensures r.Err? <==> child.Some? && child.value !in children
    ensures r.Err? ==> r.error == NotFoundError
  {
    if child.Some? && child.value !in children then Err(NotFoundError)
    else
      var reference := if child == Some(node) then NextSibling(children, node) else child;
      var rest := Remove(children, node);
      match reference
      case None => Ok(rest + [node])
      case Some(c) =>
        assert c in rest by {
          RemoveFacts(children, node);
          if child == Some(node) {
            IndexOfAt(children, IndexOf(children, node) + 1);
          }
        }
        Ok(InsertAt(rest, IndexOf(rest, c), node))
  }

  /** insertBefore fails exactly when the reference is not a child; when it
      succeeds the children are a permutation of the old children plus `node`
      (which the insertion moves if it was there already). */
  lemma PreInsertPermutes(children: seq<TileId>, node: TileId, child: Option<TileId>)
    requires Distinct(children)
    ensures PreInsert(children, node, child).Ok? <==> child.None? || child.value in children
    ensures PreInsert(children, node, child).Ok? ==>
      var r := PreInsert(children, node, child).value;
      && Distinct(r)
      && (node in children ==> multiset(r) == multiset(children))
      && (node !in children ==> multiset(r) == multiset(children) + multiset{node})
  {
    if child.None? || child.value in children {
      var r := PreInsert(children, node, child).value;
      var rest := Remove(children, node);
      var reference := if child == Some(node) then NextSibling(children, node) else child;
      RemoveFacts(children, node);
      if node in children {
        RemoveCounts(children, node);
        assert multiset(rest) + multiset{node} == multiset(children);
      }
      match reference
      case None =>
        assert r == rest + [node];
        InsertAtFacts(rest, |rest|, node);
        assert rest + [node] == InsertAt(rest, |rest|, node);
      case Some(c) =>
        InsertAtFacts(rest, IndexOf(rest, c), node);
    }
  }

  /** Where insertBefore puts `node` when it succeeds, and that it leaves the
      other children in their relative order. */
  lemma PreInsertPlacement(children: seq<TileId>, node: TileId, child: Option<TileId>)
    requires Distinct(children)
    requires child.None? || child.value in children
    ensures PreInsert(children, node, child).Ok?
    ensures var r := PreInsert(children, node, child).value;
      && node in r
      && (child.None? ==> r[|r| - 1] == node)
      && (child == Some(node) ==> r == children)
      && (child.Some? && child.value != node ==>
            child.value in r && IndexOf(r, child.value) == IndexOf(r, node) + 1)
      && Remove(r, node) == Remove(children, node)
  {
    var r := PreInsert(children, node, child).value;
    var rest := Remove(children, node);
    RemoveFacts(children, node);
    if child.None? {
      assert r == rest + [node];
      RemoveLast(rest, node);
    } else if child == Some(node) {
      PreInsertSelf(children, node);
    } else {
      var c := child.value;
      var p := IndexOf(rest, c);
      PreInsertOther(children, node, c);
      InsertBeforeAt(rest, p, node);
      RemoveInserted(rest, p, node);
    }
  }

  /** Inserting a new entry at `p` puts it right before the entry at `p`. */
  lemma InsertBeforeAt(s: seq<TileId>, p: nat, x: TileId)
    requires Distinct(s) && x !in s && p < |s|
    ensures var t := InsertAt(s, p, x);
      s[p] in t && x in t && IndexOf(t, s[p]) == IndexOf(t, x) + 1
  {
    var t := InsertAt(s, p, x);
    InsertAtFacts(s, p, x);
    InsertAtIndex(s, p, x, p);
    InsertAtIndex(s, p, x, p + 1);
    IndexOfAt(t, p);
    IndexOfAt(t, p + 1);
  }

  /** `insertBefore(node, node)` leaves a child where it is. */
  lemma PreInsertSelf(children: seq<TileId>, node: TileId)
    requires Distinct(children) && node in children
    ensures PreInsert(children, node, Some(node)) == Ok(children)
  {
    var i := IndexOf(children, node);
    if i + 1 < |children| {
      IndexOfAt(children, i + 1);
    }
    assert NextSibling(children, node) != Some(node);
    assert PreInsert(children, node, Some(node)) == PreInsert(children, node, NextSibling(children, node));
    PreInsertBeforeNext(children, node);
  }

  /** `insertBefore(node, node.nextSibling)` leaves a child where it is. */
  lemma PreInsertBeforeNext(children: seq<TileId>, node: TileId)
    requires Distinct(children) && node in children
    ensures PreInsert(children, node, NextSibling(children, node)) == Ok(children)
  {
    var i := IndexOf(children, node);
    var rest := Remove(children, node);
    assert rest == children[..i] + children[i + 1..];
    if i + 1 == |children| {
      assert NextSibling(children, node) == None;
      assert PreInsert(children, node, None) == Ok(rest + [node]);
      assert children[i + 1..] == [] && rest == children[..i];
      assert children == children[..i] + [node];
    } else {
      assert NextSibling(children, node) == Some(children[i + 1]);
      BeforeNextInside(children, node, i);
    }
  }

  lemma BeforeNextInside(children: seq<TileId>, node: TileId, i: nat)
    requires Distinct(children) && i + 1 < |children| && children[i] == node
    ensures PreInsert(children, node, Some(children[i + 1])) == Ok(children)
  {
    var c := children[i + 1];
    IndexOfAt(children, i);
    IndexOfAt(children, i + 1);
    var rest := Remove(children, node);
    PreInsertOther(children, node, c);
    RemoveFacts(children, node);
    SpliceBack(children, i);
    IndexOfAt(rest, i);
  }

  /** `insertBefore(node, c)` for a child `c` other than `node`. */
  lemma PreInsertOther(children: seq<TileId>, node: TileId, c: TileId)
    requires Distinct(children) && c in children && c != node
    ensures c in Remove(children, node)
    ensures PreInsert(children, node, Some(c))
            == Ok(InsertAt(Remove(children, node), IndexOf(Remove(children, node), c), node))
  {
    RemoveFacts(children, node);
  }

  /** Taking out the entry at `i` and putting it back at `i` restores `s`. */
  lemma SpliceBack(s: seq<TileId>, i: nat)
    requires i + 1 < |s| && IndexOf(s, s[i]) == i
    ensures Remove(s, s[i]) == s[..i] + s[i + 1..]
    ensures Remove(s, s[i])[i] == s[i + 1]
    ensures InsertAt(Remove(s, s[i]), i, s[i]) == s
  {
    var rest := s[..i] + s[i + 1..];
    assert rest[..i] == s[..i];
    assert rest[i..] == s[i + 1..];
    assert s == s[..i] + [s[i]] + s[i + 1..];
  }

  lemma RemoveLast(s: seq<TileId>, x: TileId)
    requires x !in s
    ensures Remove(s + [x], x) == s
  {
    assert (s + [x])[|s|] == x;
    assert IndexOf(s + [x], x) == |s|;
    assert (s + [x])[..|s|] == s;
  }

  lemma RemoveInserted(s: seq<TileId>, p: nat, x: TileId)
    requires x !in s && p <= |s|
    ensures Remove(InsertAt(s, p, x), x) == s
  {
    var t := InsertAt(s, p, x);
    assert t[p] == x;
    assert x !in t[..p] by { assert t[..p] == s[..p]; }
    assert IndexOf(t, x) == p;
    assert t[..p] == s[..p] && t[p + 1..] == s[p..];
    assert s == s[..p] + s[p..];
  }

  /** `parent.insertBefore(node, a.nextSibling)` puts `node` right after the
      child `a`, whatever `a`'s next sibling is (none, `node` itself, or
      another tile), and keeps the other children in order. */
  lemma PreInsertAfter(children: seq<TileId>, node: TileId, a: TileId)
    requires Distinct(children) && a in children && a != node
    ensures PreInsert(children, node, NextSibling(children, a)).Ok?
    ensures var r := PreInsert(children, node, NextSibling(children, a)).value;
      && a in r && node in r
      && IndexOf(r, node) == IndexOf(r, a) + 1
      && Remove(r, node) == Remove(children, node)
  {
    var next := NextSibling(children, a);
    var ia := IndexOf(children, a);
    PreInsertPermutes(children, node, next);
    PreInsertPlacement(children, node, next);
    match next
    case None =>
      AfterLast(children, node, a);
    case Some(c) =>
      if c == node {
        PreInsertSelf(children, node);
        IndexOfAt(children, ia + 1);
      } else {
        AfterOther(children, node, a);
      }
  }

  lemma AfterLast(children: seq<TileId>, node: TileId, a: TileId)
    requires Distinct(children) && a in children && a != node
    requires NextSibling(children, a) == None
    ensures var r := PreInsert(children, node, None).value;
      a in r && IndexOf(r, node) == IndexOf(r, a) + 1
  {
    var ia := IndexOf(children, a);
    var rest := Remove(children, node);
    var r := PreInsert(children, node, None).value;
    assert ia == |children| - 1;
    assert r == rest + [node];
    RemoveFacts(children, node);
    PreInsertPermutes(children, node, None);
    if node in children {
      RemoveAt(children, node, |rest| - 1);
    }
    assert rest[|rest| - 1] == a;
    assert r[|rest| - 1] == a && r[|rest|] == node;
    IndexOfAt(r, |rest| - 1);
    IndexOfAt(r, |rest|);
  }

  lemma AfterOther(children: seq<TileId>, node: TileId, a: TileId)
    requires Distinct(children) && a in children && a != node
    requires NextSibling(children, a).Some? && NextSibling(children, a).value != node
    ensures var r := PreInsert(children, node, NextSibling(children, a)).value;
      a in r && IndexOf(r, node) == IndexOf(r, a) + 1
  {
    var c := NextSibling(children, a).value;
    var rest := Remove(children, node);
    var q := AdjacentAfterRemove(children, node, a);
    RemoveFacts(children, node);
    IndexOfAt(rest, q + 1);
    assert PreInsert(children, node, Some(c)).value == InsertAt(rest, q + 1, node);
    InsertAfter(rest, q, node);
  }

  /** `a` stays right before its next sibling `c` once another `node` is out
      of the way; `q` is where `a` then sits. */
  lemma AdjacentAfterRemove(children: seq<TileId>, node: TileId, a: TileId) returns (q: nat)
    requires a in children && a != node
    requires NextSibling(children, a).Some? && NextSibling(children, a).value != node
    ensures q + 1 < |Remove(children, node)|
    ensures Remove(children, node)[q] == a
    ensures Remove(children, node)[q + 1] == NextSibling(children, a).value
  {
    var ia := IndexOf(children, a);
    assert ia + 1 < |children| && NextSibling(children, a).value == children[ia + 1];
    if node !in children {
      q := ia;
    } else {
      var i := IndexOf(children, node);
      q := if i < ia then ia - 1 else ia;
      Neighbours(children, i, ia);
    }
  }

  /** Where the entries at `j` and `j + 1` sit once the entry at `i`, another
      position, is cut out. */
  lemma Neighbours(s: seq<TileId>, i: nat, j: nat)
    requires i < |s| && j + 1 < |s| && i != j && i != j + 1
    ensures var rest := s[..i] + s[i + 1..];
      var q := if i < j then j - 1 else j;
      q + 1 < |rest| && rest[q] == s[j] && rest[q + 1] == s[j + 1]
  {
  }

  /** Inserting a new entry at `q + 1` puts it right after the entry at `q`. */
  lemma InsertAfter(s: seq<TileId>, q: nat, x: TileId)
    requires Distinct(s) && x !in s && q < |s|
    ensures var t := InsertAt(s, q + 1, x);
      s[q] in t && x in t && IndexOf(t, x) == IndexOf(t, s[q]) + 1
  {
    var t := InsertAt(s, q + 1, x);
    InsertAtFacts(s, q + 1, x);
    InsertAtIndex(s, q + 1, x, q);
    InsertAtIndex(s, q + 1, x, q + 1);
    IndexOfAt(t, q);
    IndexOfAt(t, q + 1);
  }

  /** The entries of `s` that are in `keep`, in their order in `s`
      (`Array.prototype.filter` with a membership test). */
  function Keep(s: seq<TileId>, keep: set<TileId>): seq<TileId> {
    if s == [] then []
    else Keep(s[..|s| - 1], keep) + (if s[|s| - 1] in keep then [s[|s| - 1]] else [])
  }

  /** The entries of `s` that are not in `gone`, in their order in `s`. */
  function Drop(s: seq<TileId>, gone: set<TileId>): seq<TileId> {
    if s == [] then []
    else Drop(s[..|s| - 1], gone) + (if s[|s| - 1] in gone then [] else [s[|s| - 1]])
  }

  /** Filtering keeps exactly the entries that pass and keeps them distinct. */
  lemma {:induction false} KeepElems(s: seq<TileId>, keep: set<TileId>)
    ensures forall x :: x in Keep(s, keep) <==> x in s && x in keep
    ensures Distinct(s) ==> Distinct(Keep(s, keep))
    ensures |Keep(s, keep)| <= |s|
  {
    if s != [] {
      var init := s[..|s| - 1];
      assert s == init + [s[|s| - 1]];
      KeepElems(init, keep);
    }
  }

  lemma {:induction false} DropElems(s: seq<TileId>, gone: set<TileId>)
    ensures forall x :: x in Drop(s, gone) <==> x in s && x !in gone
    ensures Distinct(s) ==> Distinct(Drop(s, gone))
  {
    if s != [] {
      var init := s[..|s| - 1];
      assert s == init + [s[|s| - 1]];
      DropElems(init, gone);
    }
  }

  /** Filtering twice is filtering once by both tests: a snapshot filtered at
      one solved event and again at the next is the original snapshot
      filtered by what is attached at both. */
  lemma {:induction false} KeepTwice(s: seq<TileId>, a: set<TileId>, b: set<TileId>)
    ensures Keep(Keep(s, a), b) == Keep(s, a * b)
  {
    if s != [] {
      var init := s[..|s| - 1];
      var last := s[|s| - 1];
      KeepTwice(init, a, b);
      var tail := if last in a then [last] else [];
      KeepAppend(Keep(init, a), tail, b);
    }
  }

  lemma {:induction false} KeepAppend(s: seq<TileId>, t: seq<TileId>, keep: set<TileId>)
    ensures Keep(s + t, keep) == Keep(s, keep) + Keep(t, keep)
    decreases |t|
  {
    if t == [] {
      assert s + t == s;
    } else {
      var init := t[..|t| - 1];
      assert (s + t)[..|s + t| - 1] == s + init;
      KeepAppend(s, init, keep);
    }
  }

  lemma {:induction false} DropAppend(s: seq<TileId>, t: seq<TileId>, gone: set<TileId>)
    ensures Drop(s + t, gone) == Drop(s, gone) + Drop(t, gone)
    decreases |t|
  {
    if t == [] {
      assert s + t == s;
    } else {
      var init := t[..|t| - 1];
      assert (s + t)[..|s + t| - 1] == s + init;
      DropAppend(s, init, gone);
    }
  }

  /** A filter that every entry passes changes nothing. */
  lemma {:induction false} KeepAll(s: seq<TileId>, keep: set<TileId>)
    requires forall x :: x in s ==> x in keep
    ensures Keep(s, keep) == s
  {
    if s != [] {
      var init := s[..|s| - 1];
      assert s == init + [s[|s| - 1]];
      KeepAll(init, keep);
    }
  }

  /** Dropping what is not there changes nothing. */
  lemma {:induction false} DropNone(s: seq<TileId>, gone: set<TileId>)
    requires forall x :: x in s ==> x !in gone
    ensures Drop(s, gone) == s
  {
    if s != [] {
      var init := s[..|s| - 1];
      assert s == init + [s[|s| - 1]];
      DropNone(init, gone);
    }
  }

  /** Dropping everything leaves nothing. */
  lemma {:induction false} DropAll(s: seq<TileId>, gone: set<TileId>)
    requires forall x :: x in s ==> x in gone
    ensures Drop(s, gone) == []
  {
    if s != [] {
      DropAll(s[..|s| - 1], gone);
    }
  }

  /** Removing one more entry from a filtered sequence is filtering by one more
      name. */
  lemma {:induction false} RemoveFromDrop(s: seq<TileId>, gone: set<TileId>, x: TileId)
    requires Distinct(s) && x !in gone
    ensures Remove(Drop(s, gone), x) == Drop(s, gone + {x})
  {
    if s != [] {
      var init := s[..|s| - 1];
      var last := s[|s| - 1];
      var g := gone + {x};
      assert Distinct(init) by {
        forall a, b | 0 <= a < b < |init| ensures init[a] != init[b] {
          assert init[a] == s[a] && init[b] == s[b];
        }
      }
      if last == x {
        assert x !in init by {
          forall k | 0 <= k < |init| ensures init[k] != x {
            assert init[k] == s[k];
          }
        }
        assert Drop(s, gone) == Drop(init, gone) + [x];
        assert Drop(s, g) == Drop(init, g);
        DropElems(init, gone);
        RemoveLast(Drop(init, gone), x);
        DropSame(init, gone, x);
      } else if last in gone {
        assert Drop(s, gone) == Drop(init, gone);
        assert Drop(s, g) == Drop(init, g);
        RemoveFromDrop(init, gone, x);
      } else {
        assert Drop(s, gone) == Drop(init, gone) + [last];
        assert Drop(s, g) == Drop(init, g) + [last];
        RemoveFromDrop(init, gone, x);
        RemoveAppendLeft(Drop(init, gone), [last], x);
      }
    }
  }

  lemma {:induction false} DropSame(s: seq<TileId>, gone: set<TileId>, x: TileId)
    requires x !in s
    ensures Drop(s, gone + {x}) == Drop(s, gone)
  {
    if s != [] {
      DropSame(s[..|s| - 1], gone, x);
    }
  }

  /** Removing an entry of the front part leaves the back part alone; removing
      an entry that is absent changes nothing. */
  lemma RemoveAppendLeft(s: seq<TileId>, t: seq<TileId>, x: TileId)
    requires x !in t
    ensures Remove(s + t, x) == Remove(s, x) + t
  {
    if x in s {
      var i := IndexOf(s, x);
      assert (s + t)[i] == x && (s + t)[..i] == s[..i];
      assert IndexOf(s + t, x) == i;
      assert (s + t)[i + 1..] == s[i + 1..] + t;
    } else {
      assert x !in s + t;
    }
  }

  /** The tile container: the DOM parent of the tiles that are still in play. */
  class TileContainer {
    var children: seq<TileId>

    ghost predicate Valid()
      reads this
    {
      Distinct(children)
    }

    constructor (initial: seq<TileId>)
      requires Distinct(initial)
      ensures Valid() && children == initial
    {
      children := initial;
    }

    /** The tiles whose `parentNode` is not null. */
    function Attached(): set<TileId>
      reads this
    {
      Elems(children)
    }

    /** `this.insertBefore(node, child)`. */
    method InsertBefore(node: TileId, child: Option<TileId>) returns (res: Outcome)
      requires Valid()
      modifies this
      ensures Valid()
      ensures match PreInsert(old(children), node, child)
              case Ok(r) => res == Completed && children == r
              case Err(e) => res == Threw(e) && children == old(children)
    {
      PreInsertPermutes(children, node, child);
      var r := PreInsert(children, node, child);
      if r.Ok? {
        children := r.value;
        res := Completed;
      } else {
        res := Threw(r.error);
      }
    }

    /** `this.replaceChildren(...nodes)` for distinct nodes: afterwards the
        children are exactly `nodes`, in that order; former children not in
        `nodes` lose their parent. */
    method ReplaceChildren(nodes: seq<TileId>)
      requires Distinct(nodes)
      modifies this
      ensures Valid() && children == nodes
    {
      children := nodes;
    }
  }
}
