/**
 * The undo/redo history around the volume list.
 *
 * The application keeps the current list, a `history` stack of earlier
 * lists (top at the end) and a `future` stack of undone lists (top at the
 * front). Every edit goes through one gate, `setSpacesWithHistory`, which
 * pushes the current list onto `history` and empties `future`.
 */
module History {
  import opened Wrappers
  import opened Volumes

  datatype Session = Session(spaces: seq<Space>, history: seq<seq<Space>>, future: seq<seq<Space>>)

  const EmptySession := Session([], [], [])

  /** The number of lists the session holds: the current one and both stacks. */
  function Snapshots(s: Session): nat { |s.history| + |s.future| + 1 }

  /** `handleUndo`: without history nothing happens; otherwise the top of `history` comes back and the current list moves to the front of `future`. */
  function Undo(s: Session): (r: Session)
    ensures |s.history| == 0 ==> r == s
    ensures |s.history| > 0 ==>
      r.spaces == s.history[|s.history| - 1] &&
      r.history == s.history[..|s.history| - 1] &&
      r.future == [s.spaces] + s.future
  {
    if |s.history| == 0 then s
    else Session(s.history[|s.history| - 1], s.history[..|s.history| - 1], [s.spaces] + s.future)
  }

  /** `handleRedo`: without future nothing happens; otherwise the front of `future` comes back and the current list goes on top of `history`. */
  function Redo(s: Session): (r: Session)
    ensures |s.future| == 0 ==> r == s
    ensures |s.future| > 0 ==>
      r.spaces == s.future[0] && r.history == s.history + [s.spaces] && r.future == s.future[1..]
  {
    if |s.future| == 0 then s
    else Session(s.future[0], s.history + [s.spaces], s.future[1..])
  }

  /** `setSpacesWithHistory`: the current list is pushed, the redo stack is dropped, and the new list becomes current. */
  function Commit(s: Session, next: seq<Space>): (r: Session)
    ensures r.spaces == next && r.history == s.history + [s.spaces] && r.future == []
  {
    Session(next, s.history + [s.spaces], [])
  }

  /** A viewer handler: None when it returned before calling the gate, Some(list) when it called it. */
  function Apply(s: Session, edit: Option<seq<Space>>): (r: Session)
    ensures edit.None? ==> r == s
    ensures edit.Some? ==> r == Commit(s, edit.value)
  {
    if edit.None? then s else Commit(s, edit.value)
  }

  /** `onAddSpace`: the gate with `prev => [...prev, space]`. */
  function AddSpace(s: Session, space: Space): (r: Session)
    ensures r.spaces == s.spaces + [space] && r.history == s.history + [s.spaces] && r.future == []
  {
    Commit(s, s.spaces + [space])
  }

  function Repeat(list: seq<Space>, k: nat): (r: seq<seq<Space>>)
    ensures |r| == k && forall i :: 0 <= i < k ==> r[i] == list
  {
    if k == 0 then [] else Repeat(list, k - 1) + [list]
  }

  /**
   * "Add All": `onAddSpace` once per record within one event. Every call
   * pushes the same current list (the one the handler closed over), while
   * the list updates compose, so the records are all appended and the
   * history grows by one copy of the old list per record.
   */
  function AddAll(s: Session, records: seq<Space>): (r: Session)
    ensures records == [] ==> r == s
    ensures records != [] ==>
      r.spaces == s.spaces + records && r.future == [] &&
      |r.history| == |s.history| + |records| && r.history[..|s.history|] == s.history &&
      forall j :: |s.history| <= j < |r.history| ==> r.history[j] == s.spaces
  {
    if records == [] then s else Session(s.spaces + records, s.history + Repeat(s.spaces, |records|), [])
  }

  // ---------------------------------------------------------------- properties

  /** Undo or redo on an empty stack changes nothing. */
  lemma UndoRedoOnEmpty(s: Session)
    ensures s.history == [] ==> Undo(s) == s
    ensures s.future == [] ==> Redo(s) == s
  {
  }

  /** Undo then redo restores the session exactly, and so does redo then undo. */
  lemma UndoRedoRoundTrip(s: Session)
    ensures |s.history| > 0 ==> Redo(Undo(s)) == s
    ensures |s.future| > 0 ==> Undo(Redo(s)) == s
  {
    if |s.history| > 0 {
      assert s.history[..|s.history| - 1] + [s.history[|s.history| - 1]] == s.history;
    }
    if |s.future| > 0 {
      assert [s.future[0]] + s.future[1..] == s.future;
    }
  }

  /** All the lists a session holds, oldest first: the history, the current list, then the undone ones. */
  function Timeline(s: Session): (t: seq<seq<Space>>)
    ensures |t| == Snapshots(s)
  {
    s.history + [s.spaces] + s.future
  }

  /** Undo and redo only move the cursor along the timeline: no list is lost, added or reordered. */
  lemma UndoKeepsTimeline(s: Session)
    ensures Timeline(Undo(s)) == Timeline(s)
    ensures Snapshots(Undo(s)) == Snapshots(s)
  {
    if |s.history| > 0 {
      var h := s.history[..|s.history| - 1];
      var top := s.history[|s.history| - 1];
      assert h + [top] == s.history;
      assert Timeline(Undo(s)) == h + [top] + ([s.spaces] + s.future);
    }
  }

  lemma RedoKeepsTimeline(s: Session)
    ensures Timeline(Redo(s)) == Timeline(s)
    ensures Snapshots(Redo(s)) == Snapshots(s)
  {
    if |s.future| > 0 {
      assert [s.future[0]] + s.future[1..] == s.future;
      assert Timeline(Redo(s)) == s.history + [s.spaces] + ([s.future[0]] + s.future[1..]);
    }
  }

  /** An edit after an undo discards the redo stack, and undoing it brings back the list it replaced. */
  lemma CommitClearsFuture(s: Session, next: seq<Space>)
    ensures Redo(Commit(s, next)) == Commit(s, next)
    ensures Undo(Commit(s, next)) == Session(s.spaces, s.history, [next])
    ensures Snapshots(Commit(s, next)) == |s.history| + 2
  {
    assert (s.history + [s.spaces])[..|s.history|] == s.history;
  }

  /** A handler that returned early leaves the whole session, history included, untouched. */
  lemma EarlyReturnNoHistory(s: Session, edit: Option<seq<Space>>)
    ensures Apply(s, edit).history == s.history <==> edit.None?
  {
    if edit.Some? {
      assert |Apply(s, edit).history| == |s.history| + 1;
    }
  }

  /**
   * After "Add All" of k records the first undo already goes back to the list
   * before the import, and the remaining k - 1 undos each bring back that
   * same list again.
   */
  lemma AddAllUndo(s: Session, records: seq<Space>, j: nat)
    requires records != [] && j < |records|
    ensures var a := AddAll(s, records);
      a.spaces == s.spaces + records &&
      |a.history| == |s.history| + |records| &&
      a.history[|s.history| + j] == s.spaces &&
      Undo(a) == Session(s.spaces, s.history + Repeat(s.spaces, |records| - 1), [s.spaces + records])
  {
    var k := |records|;
    assert Repeat(s.spaces, k) == Repeat(s.spaces, k - 1) + [s.spaces];
    assert (s.history + Repeat(s.spaces, k))[..|s.history| + k - 1] == s.history + Repeat(s.spaces, k - 1);
  }

  /** The list "Add All" leaves is the one that adding the records one at a time would leave. */
  lemma {:induction false} AddAllAppends(s: Session, records: seq<Space>)
    ensures AddAll(s, records).spaces == AddEach(s, records).spaces
    decreases |records|
  {
    if records != [] {
      var init := records[..|records| - 1];
      AddAllAppends(s, init);
      assert init + [records[|records| - 1]] == records;
      if init == [] {
        assert AddEach(s, init) == s;
      }
    }
  }

  /** The records added one event at a time, each with its own history entry. */
  function AddEach(s: Session, records: seq<Space>): (r: Session)
    ensures |r.history| == |s.history| + |records|
  {
    if records == [] then s else AddSpace(AddEach(s, records[..|records| - 1]), records[|records| - 1])
  }
}
