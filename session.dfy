/** The session state of the glyph editor (fontEditor.js) as a value, and each button
    handler as a function from the state before to the state after. Glyph pictures have
    the opaque type `S` (the `ImageData` values of the source); they are only stored,
    moved and handed back. A JavaScript `ImageData` is always truthy, so "the slot holds
    a glyph" is "the character is a key of the map". */
module GlyphSession {
  import opened Wrappers

  /** The slot map: character to glyph picture. */
  type Slots<S> = map<string, S>

  /** `slots`, `clipboard`, `undoStack`, `redoStack`, `currentChar` and `currentSlot`
      (None for `null`). The top of a stack is its last element. */
  datatype EditorState<S> = EditorState(
    slots: Slots<S>,
    clipboard: Option<S>,
    undoStack: seq<Slots<S>>,
    redoStack: seq<Slots<S>>,
    currentChar: string,
    currentSlot: Option<string>)

  /** The editor as the page opens it. */
  function Initial<S>(): EditorState<S> {
    EditorState(map[], None, [], [], "", None)
  }

  /** `m` and `m'` hold the same keys with the same glyphs, except possibly at `k`. */
  ghost predicate AgreeExcept<S>(m: Slots<S>, m': Slots<S>, k: string) {
    forall c :: c != k ==> (c in m <==> c in m') && (c in m ==> m[c] == m'[c])
  }

  /** The guard of copy and cut: a selected slot whose name is not empty and which holds a glyph. */
  predicate HasSelection<S>(st: EditorState<S>) {
    st.currentSlot.Some? && st.currentSlot.value != "" && st.currentSlot.value in st.slots
  }

  /** `addToHistory`: push a copy of the current map on the undo stack and empty the redo
      stack; nothing else changes. */
  function AddToHistory<S>(st: EditorState<S>): (r: EditorState<S>)
    ensures |r.undoStack| == |st.undoStack| + 1
    ensures r.undoStack[..|st.undoStack|] == st.undoStack && r.undoStack[|st.undoStack|] == st.slots
    ensures r.redoStack == []
    ensures r.(undoStack := st.undoStack, redoStack := st.redoStack) == st
  {
    st.(undoStack := st.undoStack + [st.slots], redoStack := [])
  }

  /** Save glyph: with a current character, it is bound to the picture on the main canvas
      (other characters keep theirs) and the resulting map is recorded; without one,
      nothing changes. */
  function SaveGlyph<S>(st: EditorState<S>, picture: S): (r: EditorState<S>)
    ensures st.currentChar != "" ==>
      && st.currentChar in r.slots && r.slots[st.currentChar] == picture
      && AgreeExcept(st.slots, r.slots, st.currentChar)
      && r.undoStack == st.undoStack + [r.slots] && r.redoStack == []
      && r.clipboard == st.clipboard && r.currentChar == st.currentChar && r.currentSlot == st.currentSlot
    ensures st.currentChar == "" ==> r == st
  {
    if st.currentChar != "" then
      AddToHistory(st.(slots := st.slots[st.currentChar := picture]))
    else
      st
  }

  /** Edit glyph: a character that has a slot becomes the selected slot; otherwise nothing changes. */
  function EditGlyph<S>(st: EditorState<S>, ch: string): (r: EditorState<S>)
    ensures r.currentSlot == Some(ch) <==> ch in st.slots || st.currentSlot == Some(ch)
    ensures ch !in st.slots ==> r == st
    ensures r.(currentSlot := st.currentSlot) == st
  {
    if ch in st.slots then st.(currentSlot := Some(ch)) else st
  }

  /** Copy: under the guard the clipboard takes the selected glyph; nothing else ever changes. */
  function Copy<S>(st: EditorState<S>): (r: EditorState<S>)
    ensures HasSelection(st) ==> r.clipboard == Some(st.slots[st.currentSlot.value])
    ensures !HasSelection(st) ==> r == st
    ensures r.(clipboard := st.clipboard) == st
  {
    if HasSelection(st) then st.(clipboard := Some(st.slots[st.currentSlot.value])) else st
  }

  /** Cut: under the guard the clipboard takes the selected glyph, its slot is removed
      (every other slot kept), and the resulting map is recorded; otherwise nothing changes. */
  function Cut<S>(st: EditorState<S>): (r: EditorState<S>)
    ensures HasSelection(st) ==>
      var k := st.currentSlot.value;
      && r.clipboard == Some(st.slots[k])
      && k !in r.slots && AgreeExcept(st.slots, r.slots, k)
      && r.undoStack == st.undoStack + [r.slots] && r.redoStack == []
      && r.currentChar == st.currentChar && r.currentSlot == st.currentSlot
    ensures !HasSelection(st) ==> r == st
  {
    if HasSelection(st) then
      var k := st.currentSlot.value;
      AddToHistory(st.(clipboard := Some(st.slots[k]), slots := st.slots - {k}))
    else
      st
  }

  /** Paste: with something on the clipboard the current character is bound to it (other
      slots kept); the clipboard and both stacks are left alone. With an empty clipboard
      nothing changes. */
  function Paste<S>(st: EditorState<S>): (r: EditorState<S>)
    ensures st.clipboard.Some? ==>
      && st.currentChar in r.slots && r.slots[st.currentChar] == st.clipboard.value
      && AgreeExcept(st.slots, r.slots, st.currentChar)
    ensures st.clipboard.None? ==> r == st
    ensures r.(slots := st.slots) == st
  {
    match st.clipboard
    case Some(glyph) => st.(slots := st.slots[st.currentChar := glyph])
    case None => st
  }

  /** Undo: with a non-empty undo stack the current map goes on the redo stack and the
      top of the undo stack becomes the map; with an empty one nothing changes. The total
      number of stacked maps is kept. */
  function Undo<S>(st: EditorState<S>): (r: EditorState<S>)
    ensures |st.undoStack| > 0 ==>
      && r.slots == st.undoStack[|st.undoStack| - 1]
      && r.undoStack == st.undoStack[..|st.undoStack| - 1]
      && r.redoStack == st.redoStack + [st.slots]
    ensures |st.undoStack| == 0 ==> r == st
    ensures |r.undoStack| + |r.redoStack| == |st.undoStack| + |st.redoStack|
    ensures r.(slots := st.slots, undoStack := st.undoStack, redoStack := st.redoStack) == st
  {
    if |st.undoStack| > 0 then
      var n := |st.undoStack| - 1;
      st.(redoStack := st.redoStack + [st.slots], slots := st.undoStack[n], undoStack := st.undoStack[..n])
    else
      st
  }

  /** Redo: the mirror image of undo. */
  function Redo<S>(st: EditorState<S>): (r: EditorState<S>)
    ensures |st.redoStack| > 0 ==>
      && r.slots == st.redoStack[|st.redoStack| - 1]
      && r.redoStack == st.redoStack[..|st.redoStack| - 1]
      && r.undoStack == st.undoStack + [st.slots]
    ensures |st.redoStack| == 0 ==> r == st
    ensures |r.undoStack| + |r.redoStack| == |st.undoStack| + |st.redoStack|
    ensures r.(slots := st.slots, undoStack := st.undoStack, redoStack := st.redoStack) == st
  {
    if |st.redoStack| > 0 then
      var n := |st.redoStack| - 1;
      st.(undoStack := st.undoStack + [st.slots], slots := st.redoStack[n], redoStack := st.redoStack[..n])
    else
      st
  }

  /** Add slot: a non-empty character without a slot gets the blank picture; an existing
      glyph is never overwritten, and nothing is recorded. */
  function AddSlot<S>(st: EditorState<S>, ch: string, blank: S): (r: EditorState<S>)
    ensures ch != "" && ch !in st.slots ==> ch in r.slots && r.slots[ch] == blank && AgreeExcept(st.slots, r.slots, ch)
    ensures !(ch != "" && ch !in st.slots) ==> r == st
    ensures forall c :: c in st.slots ==> c in r.slots && r.slots[c] == st.slots[c]
    ensures r.(slots := st.slots) == st
  {
    if ch != "" && ch !in st.slots then st.(slots := st.slots[ch := blank]) else st
  }

  /** An effective undo followed by redo restores the whole state. */
  lemma UndoThenRedo<S>(st: EditorState<S>)
    requires |st.undoStack| > 0
    ensures Redo(Undo(st)) == st
  {
    var n := |st.undoStack| - 1;
    assert st.undoStack[..n] + [st.undoStack[n]] == st.undoStack;
  }

  /** An effective redo followed by undo restores the whole state. */
  lemma RedoThenUndo<S>(st: EditorState<S>)
    requires |st.redoStack| > 0
    ensures Undo(Redo(st)) == st
  {
    var n := |st.redoStack| - 1;
    assert st.redoStack[..n] + [st.redoStack[n]] == st.redoStack;
  }

  /** `k` presses of undo in a row. */
  function UndoTimes<S>(st: EditorState<S>, k: nat): (r: EditorState<S>)
    ensures |r.undoStack| + |r.redoStack| == |st.undoStack| + |st.redoStack|
    ensures k <= |st.undoStack| ==> |r.undoStack| == |st.undoStack| - k
    decreases k
  {
    if k == 0 then st else Undo(UndoTimes(st, k - 1))
  }

  /** `k` presses of redo in a row. */
  function RedoTimes<S>(st: EditorState<S>, k: nat): (r: EditorState<S>)
    ensures |r.undoStack| + |r.redoStack| == |st.undoStack| + |st.redoStack|
    ensures k <= |st.redoStack| ==> |r.redoStack| == |st.redoStack| - k
    decreases k
  {
    if k == 0 then st else RedoTimes(Redo(st), k - 1)
  }

  /** Undoing `k` times and then redoing `k` times gives back the state exactly, as long
      as the undo stack held `k` maps. */
  lemma {:induction false} UndoTimesThenRedoTimes<S>(st: EditorState<S>, k: nat)
    requires k <= |st.undoStack|
    ensures RedoTimes(UndoTimes(st, k), k) == st
  {
    if k > 0 {
      var mid := UndoTimes(st, k - 1);
      UndoThenRedo(mid);
      UndoTimesThenRedoTimes(st, k - 1);
    }
  }

  /** History records the state AFTER each change, so the first undo after a recorded
      change brings back the very map just recorded: the map does not change. */
  lemma UndoRightAfterRecordKeepsSlots<S>(st: EditorState<S>)
    ensures Undo(AddToHistory(st)).slots == st.slots
  {
  }

  /** After a recorded change there is nothing to redo. */
  lemma RecordLeavesNothingToRedo<S>(st: EditorState<S>)
    ensures Redo(AddToHistory(st)) == AddToHistory(st)
  {
  }

  /** Pasting twice is pasting once. */
  lemma PasteIdempotent<S>(st: EditorState<S>)
    ensures Paste(Paste(st)) == Paste(st)
  {
  }

  /** Adding the same slot twice is adding it once. */
  lemma AddSlotIdempotent<S>(st: EditorState<S>, ch: string, blank: S)
    ensures AddSlot(AddSlot(st, ch, blank), ch, blank) == AddSlot(st, ch, blank)
  {
  }

  /** Selecting a character that has a glyph and copying puts that glyph on the clipboard. */
  lemma EditThenCopy<S>(st: EditorState<S>, ch: string)
    requires ch != "" && ch in st.slots
    ensures Copy(EditGlyph(st, ch)).clipboard == Some(st.slots[ch])
  {
  }

  /** Cutting the selected slot and pasting it back under the same character restores
      the slot map (the cut is still on the undo stack). */
  lemma CutThenPasteBack<S>(st: EditorState<S>)
    requires HasSelection(st) && st.currentChar == st.currentSlot.value
    ensures Paste(Cut(st)).slots == st.slots
  {
    var k := st.currentSlot.value;
    assert (st.slots - {k})[k := st.slots[k]] == st.slots;
  }

  /** Undo as the source runs it. `slots` is declared `const`, so after the current map
      has been pushed on the redo stack and the undo stack popped, assigning the popped map
      throws a `TypeError`: the map stays as it was and the popped map is dropped. */
  function UndoAsWritten<S>(st: EditorState<S>): (r: EditorState<S>)
    ensures r.slots == st.slots
    ensures |st.undoStack| > 0 ==>
      r.undoStack == st.undoStack[..|st.undoStack| - 1] && r.redoStack == st.redoStack + [st.slots]
    ensures |st.undoStack| == 0 ==> r == st
    ensures r.(undoStack := st.undoStack, redoStack := st.redoStack) == st
  {
    if |st.undoStack| > 0 then
      var n := |st.undoStack| - 1;
      st.(redoStack := st.redoStack + [st.slots], undoStack := st.undoStack[..n])
    else
      st
  }

  /** Redo as the source runs it: the mirror image of `UndoAsWritten`. */
  function RedoAsWritten<S>(st: EditorState<S>): (r: EditorState<S>)
    ensures r.slots == st.slots
    ensures |st.redoStack| > 0 ==>
      r.redoStack == st.redoStack[..|st.redoStack| - 1] && r.undoStack == st.undoStack + [st.slots]
    ensures |st.redoStack| == 0 ==> r == st
    ensures r.(undoStack := st.undoStack, redoStack := st.redoStack) == st
  {
    if |st.redoStack| > 0 then
      var n := |st.redoStack| - 1;
      st.(undoStack := st.undoStack + [st.slots], redoStack := st.redoStack[..n])
    else
      st
  }

  /** The input that shows the defect, reached from the opening state by handlers the page
      offers: add slots "A" and "B", select and cut "A", select and cut "B". Two presses of
      undo as written leave the map empty, where the evident design brings back `{B: blank}`;
      and as written that map is then held nowhere in the state. */
  lemma AsWrittenUndoLosesSnapshot<S>(blank: S)
    ensures var st := Cut(EditGlyph(Cut(EditGlyph(AddSlot(AddSlot(Initial(), "A", blank), "B", blank), "A")), "B"));
      && UndoAsWritten(UndoAsWritten(st)).slots == map[]
      && Undo(Undo(st)).slots == map["B" := blank]
      && map["B" := blank] !in UndoAsWritten(UndoAsWritten(st)).undoStack
      && map["B" := blank] !in UndoAsWritten(UndoAsWritten(st)).redoStack
  {
    var ab := AddSlot(AddSlot(Initial(), "A", blank), "B", blank);
    assert ab.slots == map["A" := blank, "B" := blank];
    var cutA := Cut(EditGlyph(ab, "A"));
    assert cutA.slots == map["B" := blank];
    var st := Cut(EditGlyph(cutA, "B"));
    assert st.slots == map[];
    assert st.undoStack == [map["B" := blank], map[]];
    var twice := UndoAsWritten(UndoAsWritten(st));
    assert twice.redoStack == [map[], map[]];
    assert map["B" := blank] != map[] by { assert "B" in map["B" := blank]; }
  }
}
