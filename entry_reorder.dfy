/** The entry list's drag-and-drop reorder: the dragged entry is taken out of
    the list and spliced back in where it was dropped, and every entry's
    stored position is then rewritten to its index in the new list. */
module EntryReorder {
  import opened Ordering

  /** An entry of the list; reordering looks only at `id`. `position` is the
      value loaded from storage: the reorder writes the new positions to
      storage but leaves this field of the in-memory entries as it was. */
  datatype Entry = Entry(id: Id, title: string, position: int)

  /** One row of the batch sent to the position store. */
  datatype PositionUpdate = PositionUpdate(id: Id, position: int)

  /** What a finished drag leaves behind: the list shown, and the position
      batch persisted, if any. */
  datatype DragOutcome = DragOutcome(entries: seq<Entry>, updates: Option<seq<PositionUpdate>>)

  /** `s` without its element at `i`. */
  function Remove<T>(s: seq<T>, i: nat): (r: seq<T>)
    requires i < |s|
    ensures |r| == |s| - 1
    ensures forall k :: 0 <= k < |r| ==> r[k] == if k < i then s[k] else s[k + 1]
  {
    s[..i] + s[i + 1..]
  }

  /** `s` with `x` spliced in before index `i`. */
  function Insert<T>(s: seq<T>, i: nat, x: T): (r: seq<T>)
    requires i <= |s|
    ensures |r| == |s| + 1
    ensures r[i] == x
    ensures forall k :: 0 <= k < |r| && k != i ==> r[k] == if k < i then s[k] else s[k - 1]
  {
    s[..i] + [x] + s[i..]
  }

  /** `arrayMove`: the element at `from` is spliced out and then spliced back
      in at `to`, so that it ends up at index `to` of the result. */
  function ArrayMove<T>(s: seq<T>, from: nat, to: nat): (r: seq<T>)
    requires from < |s| && to < |s|
    ensures |r| == |s|
    ensures r[to] == s[from]
  {
    Insert(Remove(s, from), to, s[from])
  }

  /** Where the element at index `k` of a moved list came from: the moved
      element at `to`, the elements between the two indices shifted by one
      toward `from`, and every other element where it was. */
  function MovedFrom(from: nat, to: nat, k: nat): nat {
    if k == to then from
    else if from < to && from <= k < to then k + 1
    else if to < from && to < k <= from then k - 1
    else k
  }

  /** The splice definition agrees with the index-shift description. */
  lemma ArrayMoveIndices<T>(s: seq<T>, from: nat, to: nat)
    requires from < |s| && to < |s|
    ensures forall k :: 0 <= k < |s| ==> MovedFrom(from, to, k) < |s| && ArrayMove(s, from, to)[k] == s[MovedFrom(from, to, k)]
  {
    var t := Remove(s, from);
    var r := ArrayMove(s, from, to);
    forall k | 0 <= k < |s| ensures MovedFrom(from, to, k) < |s| && r[k] == s[MovedFrom(from, to, k)] {
      if k != to {
        var m := if k < to then k else k - 1;
        assert r[k] == t[m];
      }
    }
  }

  /** The moved list holds the same entries, each as many times. */
  lemma ArrayMovePermutes<T>(s: seq<T>, from: nat, to: nat)
    requires from < |s| && to < |s|
    ensures multiset(ArrayMove(s, from, to)) == multiset(s)
  {
    RemoveCount(s, from);
    InsertCount(Remove(s, from), to, s[from]);
  }

  lemma RemoveCount<T>(s: seq<T>, i: nat)
    requires i < |s|
    ensures multiset(Remove(s, i)) + multiset{s[i]} == multiset(s)
  {
    assert s == s[..i] + [s[i]] + s[i + 1..];
  }

  lemma InsertCount<T>(s: seq<T>, i: nat, x: T)
    requires i <= |s|
    ensures multiset(Insert(s, i, x)) == multiset(s) + multiset{x}
  {
    assert s == s[..i] + s[i..];
  }

  /** Taking the moved element out of the result leaves the others in their
      original relative order. */
  lemma ArrayMoveKeepsOthersInOrder<T>(s: seq<T>, from: nat, to: nat)
    requires from < |s| && to < |s|
    ensures Remove(ArrayMove(s, from, to), to) == Remove(s, from)
  {
    var t := Remove(s, from);
    var u := Remove(ArrayMove(s, from, to), to);
    assert |u| == |t|;
    forall k | 0 <= k < |u| ensures u[k] == t[k] {
      if k < to {
        assert u[k] == ArrayMove(s, from, to)[k];
      } else {
        assert u[k] == ArrayMove(s, from, to)[k + 1];
      }
    }
  }

  /** Moving an element onto its own index changes nothing. */
  lemma ArrayMoveInPlace<T>(s: seq<T>, i: nat)
    requires i < |s|
    ensures ArrayMove(s, i, i) == s
  {
    var r := ArrayMove(s, i, i);
    ArrayMoveIndices(s, i, i);
    assert forall k :: 0 <= k < |s| ==> r[k] == s[k];
  }

  /** Dragging the entry back to where it came from undoes a move. */
  lemma ArrayMoveUndo<T>(s: seq<T>, from: nat, to: nat)
    requires from < |s| && to < |s|
    ensures ArrayMove(ArrayMove(s, from, to), to, from) == s
  {
    var r := ArrayMove(s, from, to);
    var u := ArrayMove(r, to, from);
    ArrayMoveIndices(s, from, to);
    ArrayMoveIndices(r, to, from);
    forall k | 0 <= k < |s| ensures u[k] == s[k] {
      assert u[k] == r[MovedFrom(to, from, k)];
      assert MovedFrom(from, to, MovedFrom(to, from, k)) == k;
    }
  }

  /** The position batch: every entry of the list, in order, gets its index. */
  function Renumber(entries: seq<Entry>): (u: seq<PositionUpdate>)
    ensures |u| == |entries|
    ensures forall k :: 0 <= k < |u| ==> u[k] == PositionUpdate(entries[k].id, k)
  {
    seq(|entries|, k requires 0 <= k < |entries| => PositionUpdate(entries[k].id, k))
  }

  /** The positions of a batch, in order. */
  function Positions(u: seq<PositionUpdate>): (ps: seq<int>)
    ensures |ps| == |u|
  {
    seq(|u|, k requires 0 <= k < |u| => u[k].position)
  }

  /** The positions written are exactly 0 .. n-1, each once, and every entry
      of the list receives an update, whether or not its index changed. */
  lemma RenumberIsDense(entries: seq<Entry>)
    ensures forall p :: p in Positions(Renumber(entries)) <==> 0 <= p < |entries|
    ensures NoDup(Positions(Renumber(entries)))
    ensures forall e :: e in entries ==> exists x :: x in Renumber(entries) && x.id == e.id
  {
    var u := Renumber(entries);
    var ps := Positions(u);
    assert forall k :: 0 <= k < |ps| ==> ps[k] == k;
    forall p | 0 <= p < |entries| ensures p in ps {
      assert ps[p] == p;
    }
    forall e | e in entries ensures exists x :: x in u && x.id == e.id {
      var k :| 0 <= k < |entries| && entries[k] == e;
      assert u[k] in u;
    }
  }

  predicate HasId(entries: seq<Entry>, id: Id) {
    exists e :: e in entries && e.id == id
  }

  /** `findIndex`: the first index holding an entry with that id. */
  function IndexOf(entries: seq<Entry>, id: Id): (i: nat)
    requires HasId(entries, id)
    ensures i < |entries| && entries[i].id == id
    ensures forall k :: 0 <= k < i ==> entries[k].id != id
  {
    if entries[0].id == id then 0
    else
      assert HasId(entries[1..], id) by {
        var e :| e in entries && e.id == id;
        assert e in entries[1..];
      }
      1 + IndexOf(entries[1..], id)
  }

  /** `handleDragEnd`: without a drop target, or when dropped on itself,
      nothing changes and nothing is persisted. Otherwise the dragged entry
      moves to the target's index, the others keep their relative order, and
      the whole new order is persisted as positions 0 .. n-1. The dragged
      and target ids are ids of the list, since the sortable items are the
      entries themselves. */
  function HandleDragEnd(entries: seq<Entry>, activeId: Id, overId: Option<Id>): (r: DragOutcome)
    requires HasId(entries, activeId)
    requires overId.Some? ==> HasId(entries, overId.value)
    ensures overId.None? || overId.value == activeId ==> r == DragOutcome(entries, None)
    ensures overId.Some? && overId.value != activeId ==>
      var oldIndex := IndexOf(entries, activeId);
      var newIndex := IndexOf(entries, overId.value);
      && |r.entries| == |entries|
      && r.entries[newIndex] == entries[oldIndex]
      && r.entries[newIndex].id == activeId
      && multiset(r.entries) == multiset(entries)
      && Remove(r.entries, newIndex) == Remove(entries, oldIndex)
      && r.updates == Some(Renumber(r.entries))
  {
    if overId.Some? && activeId != overId.value then
      var oldIndex := IndexOf(entries, activeId);
      var newIndex := IndexOf(entries, overId.value);
      var newEntries := ArrayMove(entries, oldIndex, newIndex);
      ArrayMovePermutes(entries, oldIndex, newIndex);
      ArrayMoveKeepsOthersInOrder(entries, oldIndex, newIndex);
      DragOutcome(newEntries, Some(Renumber(newEntries)))
    else
      DragOutcome(entries, None)
  }

  /** Dragging the last of four entries onto the first puts it in front and
      persists positions 0 .. 3 in the new order. */
  lemma DragLastToFront(e1: Entry, e2: Entry, e3: Entry, e4: Entry)
    requires e1.id == "e1" && e2.id == "e2" && e3.id == "e3" && e4.id == "e4"
    ensures HandleDragEnd([e1, e2, e3, e4], "e4", Some("e1")) ==
      DragOutcome([e4, e1, e2, e3], Some([PositionUpdate("e4", 0), PositionUpdate("e1", 1),
                                          PositionUpdate("e2", 2), PositionUpdate("e3", 3)]))
  {
    var s := [e1, e2, e3, e4];
    assert s[0] in s && s[3] in s;
    assert IndexOf(s, "e4") == 3 by {
      assert s[1..][1..][1..] == [e4];
    }
    assert ArrayMove(s, 3, 0) == [e4, e1, e2, e3];
    assert Renumber([e4, e1, e2, e3]) == [PositionUpdate("e4", 0), PositionUpdate("e1", 1),
                                          PositionUpdate("e2", 2), PositionUpdate("e3", 3)];
  }
}
