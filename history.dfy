/** The undo/redo history of the drawing page (fontCreator.js): a list of recorded
    pictures of the canvas and a cursor into it. Pictures are opaque values of type `S`
    (the `toDataURL()` strings of the source); they are only stored and handed back. */
module CursorHistory {
  import opened Wrappers

  /** `entries` is the recorded list, `index` the cursor; -1 means "before the first entry". */
  datatype History<S> = History(entries: seq<S>, index: int)

  /** What an undo or redo leaves behind: the history afterwards, and the picture the
      caller must draw back onto the canvas (None when the step did nothing). */
  datatype Step<S> = Step(after: History<S>, restore: Option<S>)

  /** The cursor is a valid index or the sentinel -1, and the sentinel is only
      possible while nothing has been recorded. */
  predicate Valid<S>(h: History<S>) {
    -1 <= h.index < |h.entries| && (h.index == -1 ==> h.entries == [])
  }

  /** `addToHistory`: drop every entry past the cursor, append the picture, and put the
      cursor on it. */
  function Record<S>(h: History<S>, picture: S): (r: History<S>)
    requires Valid(h)
    ensures Valid(r)
    ensures r.entries == h.entries[..h.index + 1] + [picture]
    ensures r.index == |r.entries| - 1 && r.entries[r.index] == picture
  {
    var kept := if h.index < |h.entries| - 1 then h.entries[..h.index + 1] else h.entries;
    History(kept + [picture], h.index + 1)
  }

  /** `undo`: step the cursor back when there is an entry before it; the list itself is
      never changed, and the picture handed back is the one now under the cursor. */
  function Undo<S>(h: History<S>): (r: Step<S>)
    requires Valid(h)
    ensures Valid(r.after) && r.after.entries == h.entries
    ensures r.restore.Some? <==> h.index > 0
    ensures r.after.index == if h.index > 0 then h.index - 1 else h.index
    ensures r.restore.Some? ==> r.restore.value == r.after.entries[r.after.index]
  {
    if h.index > 0 then
      var back := History(h.entries, h.index - 1);
      Step(back, Some(h.entries[back.index]))
    else
      Step(h, None)
  }

  /** `redo`: step the cursor forward when it is not at the tail; the list is never
      changed, and the picture handed back is the one now under the cursor. */
  function Redo<S>(h: History<S>): (r: Step<S>)
    requires Valid(h)
    ensures Valid(r.after) && r.after.entries == h.entries
    ensures r.restore.Some? <==> h.index < |h.entries| - 1
    ensures r.after.index == if h.index < |h.entries| - 1 then h.index + 1 else h.index
    ensures r.restore.Some? ==> r.restore.value == r.after.entries[r.after.index]
  {
    if h.index < |h.entries| - 1 then
      var forward := History(h.entries, h.index + 1);
      Step(forward, Some(h.entries[forward.index]))
    else
      Step(h, None)
  }

  /** The undo button: record the picture on the canvas, then undo. With at least one
      entry at or before the cursor, the new picture becomes the last entry, the cursor
      stays where it was (one before the tail) and the entry under it is restored. */
  function PressUndo<S>(h: History<S>, picture: S): (r: Step<S>)
    requires Valid(h)
    ensures Valid(r.after)
    ensures h.index >= 0 ==>
      && r.after.entries == h.entries[..h.index + 1] + [picture]
      && r.after.index == h.index == |r.after.entries| - 2
      && r.restore == Some(h.entries[h.index])
    ensures h.index == -1 ==> r.after == History([picture], 0) && r.restore == None
  {
    Undo(Record(h, picture))
  }

  /** An effective undo followed by a redo gives back the same history, and the redo
      restores the entry that was current before the undo. */
  lemma UndoThenRedo<S>(h: History<S>)
    requires Valid(h) && h.index > 0
    ensures Redo(Undo(h).after).after == h
    ensures Redo(Undo(h).after).restore == Some(h.entries[h.index])
  {
  }

  /** An effective redo followed by an undo gives back the same history. */
  lemma RedoThenUndo<S>(h: History<S>)
    requires Valid(h) && h.index < |h.entries| - 1
    ensures Undo(Redo(h).after).after == h
    ensures Undo(Redo(h).after).restore == Some(h.entries[h.index])
  {
  }

  /** Recording cuts off the redo branch: right after it, redo does nothing. */
  lemma RecordLeavesNothingToRedo<S>(h: History<S>, picture: S)
    requires Valid(h)
    ensures Redo(Record(h, picture)) == Step(Record(h, picture), None)
  {
  }

  /** `k` presses of undo in a row. */
  function UndoTimes<S>(h: History<S>, k: nat): (r: History<S>)
    requires Valid(h)
    ensures Valid(r) && r.entries == h.entries
    ensures k <= h.index ==> r.index == h.index - k
    decreases k
  {
    if k == 0 then h else Undo(UndoTimes(h, k - 1)).after
  }

  /** `k` presses of redo in a row. */
  function RedoTimes<S>(h: History<S>, k: nat): (r: History<S>)
    requires Valid(h)
    ensures Valid(r) && r.entries == h.entries
    ensures h.index + k < |h.entries| ==> r.index == h.index + k
    decreases k
  {
    if k == 0 then h else RedoTimes(Redo(h).after, k - 1)
  }

  /** Undoing `k` steps and then redoing `k` steps returns to the starting history,
      as long as there were `k` entries before the cursor to undo to. */
  lemma {:induction false} UndoTimesThenRedoTimes<S>(h: History<S>, k: nat)
    requires Valid(h) && k <= h.index
    ensures RedoTimes(UndoTimes(h, k), k) == h
  {
    if k > 0 {
      var mid := UndoTimes(h, k - 1);
      UndoThenRedo(mid);
      UndoTimesThenRedoTimes(h, k - 1);
    }
  }

  /** The undo button pressed once per picture in `pictures`. */
  function PressUndoRepeatedly<S>(h: History<S>, pictures: seq<S>): (r: History<S>)
    requires Valid(h)
    ensures Valid(r)
    decreases |pictures|
  {
    if pictures == [] then h
    else PressUndoRepeatedly(PressUndo(h, pictures[0]).after, pictures[1..])
  }

  /** However often the undo button is pressed, once something has been recorded the
      cursor never moves back and the entries up to it never change: every press
      restores the same entry, so the button cannot step back further than that. */
  lemma {:induction false} UndoButtonNeverStepsBack<S>(h: History<S>, pictures: seq<S>)
    requires Valid(h) && h.index >= 0
    ensures PressUndoRepeatedly(h, pictures).index == h.index
    ensures PressUndoRepeatedly(h, pictures).entries[..h.index + 1] == h.entries[..h.index + 1]
    decreases |pictures|
  {
    if pictures != [] {
      var next := PressUndo(h, pictures[0]).after;
      assert next.entries[..h.index + 1] == h.entries[..h.index + 1];
      UndoButtonNeverStepsBack(next, pictures[1..]);
    }
  }
}
