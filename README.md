# Font creator session model

A Dafny model of the session state behind the two pages of the font creator: the
drawing page (`fontCreator.js`) and the glyph editor (`fontEditor.js`). Both pages keep
all their state in page-level variables that button handlers update. The model keeps
that state in a class per page, with one method per handler, and proves what the
handlers do to it.

- `wrappers.dfy` (`Wrappers`): the `Option` type that stands for JavaScript's `null`-or-value.
- `history.dfy` (`CursorHistory`): the drawing page's undo history. It is a list of canvas
  pictures plus a cursor, with `-1` meaning "before the first entry". The module holds
  the invariant, record, undo, redo and the undo button as functions, and lemmas about
  sequences of them.
- `creator.dfy` (`FontCreator`): the drawing page as the class `Creator`. It holds the slot
  list, the radical library, the clipboard and the history fields. Its history methods
  are proved equal to the `CursorHistory` functions. Load, import and radical loading
  fall back to `[]` / `{}` for missing fields.
- `session.dfy` (`GlyphSession`): the glyph editor's state as a value. There is one
  function per handler: add slot, save glyph, edit glyph (selection), copy, cut, paste,
  add to history, undo, redo. The lemmas relate them. The module also holds undo and
  redo as the page actually runs them.
- `editor.dfy` (`FontEditor`): the glyph editor as the class `Editor`. Each method is
  proved to move the fields exactly as the matching `GlyphSession` function says.

Pictures are opaque. They are the `toDataURL()` strings on the drawing page and the
`ImageData` values in the editor. Here they are a type parameter `S`: they are only
stored, moved and compared. A blank canvas (`createImageData`, `clearRect`) is the
constant `blank` given to each constructor. Radical data, whatever `JSON.parse` produced,
is a second opaque type `R`.

Two facts about the source as written are proved here:
- On the drawing page, the undo button records the current picture before it undoes
  (`fontCreator.js:180-183`). So once something has been recorded, pressing it never
  moves the cursor back. Every press restores the same entry
  (`CursorHistory.UndoButtonNeverStepsBack`). The page calls `undo` only from that
  button (`fontCreator.js:182`), so no handler ever steps back more than one entry.
  Repeated `undo` without recording in between would step back further and redo back
  again (`CursorHistory.UndoTimesThenRedoTimes`), but no handler does that.
- In the editor, history is recorded after each change. So the first undo after a
  recorded change brings back the map just recorded
  (`GlyphSession.UndoRightAfterRecordKeepsSlots`).

The editor never reassigns `currentChar`, so on the page it stays `''`. Saving a glyph
then does nothing, and paste writes under the key `''`. The model keeps `currentChar` as
an ordinary field, and the functions hold for every value of it.

## Model

| member | source | states |
|---|---|---|
| `CursorHistory.Record` | fontCreator.js:57-63 | keeps the cursor invariant; the new list is the old one up to the cursor followed by the picture; the cursor sits on the new tail |
| `CursorHistory.Undo` | fontCreator.js:65-72 | the list never changes; the cursor steps back exactly when it is above 0, otherwise nothing changes; the picture handed back is the entry under the new cursor |
| `CursorHistory.Redo` | fontCreator.js:74-81 | the list never changes; the cursor steps forward exactly when it is below the tail, otherwise nothing changes; the picture handed back is the entry under the new cursor |
| `CursorHistory.PressUndo` | fontCreator.js:180-183 | with an entry at the cursor: the new picture becomes the last entry, entries past the old cursor are gone, the cursor stays one before the tail, and the entry under it is restored; on an empty history it records the picture and restores nothing |
| `CursorHistory.UndoThenRedo` | fontCreator.js:65-81 | an effective undo followed by redo gives back the same history and restores the entry that was current |
| `CursorHistory.RedoThenUndo` | fontCreator.js:65-81 | an effective redo followed by undo gives back the same history and restores the entry that was current |
| `CursorHistory.RecordLeavesNothingToRedo` | fontCreator.js:57-81 | right after a record, redo does nothing |
| `CursorHistory.UndoTimes` | fontCreator.js:65-72 | `k` undos keep the invariant and the list, and move the cursor back by `k` when there are `k` entries before it |
| `CursorHistory.RedoTimes` | fontCreator.js:74-81 | `k` redos keep the invariant and the list, and move the cursor forward by `k` when there are `k` entries after it |
| `CursorHistory.UndoTimesThenRedoTimes` | fontCreator.js:65-81 | `k` undos and then `k` redos give back the starting history |
| `CursorHistory.PressUndoRepeatedly` | fontCreator.js:180-183 | pressing the undo button any number of times keeps the cursor invariant |
| `CursorHistory.UndoButtonNeverStepsBack` | fontCreator.js:180-183 | once something is recorded, any number of presses of the undo button leaves the cursor where it was and the entries up to it unchanged |
| `FontCreator.LoadedSlots` | fontCreator.js:116 | a missing or falsy `slots` field loads as the empty list, otherwise as given |
| `FontCreator.LoadedRadicals` | fontCreator.js:117 | a missing or falsy `radicals` field loads as the empty mapping, otherwise as given |
| `FontCreator.Creator.constructor` | fontCreator.js:4-12 | everything starts empty: no current character, no slots, no radicals, empty clipboard, empty history with the cursor at -1 |
| `FontCreator.Creator.Copy` | fontCreator.js:47-49 | the clipboard holds the canvas picture |
| `FontCreator.Creator.Cut` | fontCreator.js:51-54 | the clipboard holds the canvas picture and the canvas is left blank |
| `FontCreator.Creator.AddToHistory` | fontCreator.js:57-63 | keeps the cursor invariant and moves the history exactly as `Record` does |
| `FontCreator.Creator.Undo` | fontCreator.js:65-72 | keeps the invariant; cursor and returned picture are exactly those of `CursorHistory.Undo` |
| `FontCreator.Creator.Redo` | fontCreator.js:74-81 | keeps the invariant; cursor and returned picture are exactly those of `CursorHistory.Redo` |
| `FontCreator.Creator.PressUndo` | fontCreator.js:180-183 | keeps the invariant; history and returned picture are exactly those of `CursorHistory.PressUndo` |
| `FontCreator.Creator.AddSlot` | fontCreator.js:164-171 | a non-empty character appends exactly one empty slot (duplicates allowed) and becomes current; an empty one changes nothing |
| `FontCreator.Creator.AddRadical` | fontCreator.js:189-201 | with both inputs non-empty and data that parses, the name is bound to the parsed value and every other name keeps its entry; otherwise the library is unchanged |
| `FontCreator.Creator.Export` | fontCreator.js:126-136 | the exported document carries exactly the slot list and the radical library |
| `FontCreator.Creator.LoadFromStorage` | fontCreator.js:112-122 | stored data replaces slots and radicals, with defaults for missing fields; no stored data changes nothing |
| `FontCreator.Creator.Import` | fontCreator.js:142-152 | the imported document replaces slots and radicals, with defaults for missing fields |
| `FontCreator.Creator.LoadRadicalsFile` | fontCreator.js:88-97 | the file's radicals replace the library (empty when missing); slots are untouched |
| `GlyphSession.AddToHistory` | fontEditor.js:84-87 | the undo stack gains the current map on top with everything below unchanged; the redo stack is emptied; nothing else changes |
| `GlyphSession.SaveGlyph` | fontEditor.js:33-43 | with a current character it is bound to the picture, other slots kept, and the resulting map is on top of the undo stack with the redo stack empty; without one nothing changes |
| `GlyphSession.EditGlyph` | fontEditor.js:46-56 | a character that has a slot becomes the selected slot; a character without one leaves the whole state, the selection included, as it was; nothing but the selection ever changes |
| `GlyphSession.Copy` | fontEditor.js:59-64 | with a selected non-empty slot holding a glyph, the clipboard takes that glyph; only the clipboard ever changes |
| `GlyphSession.Cut` | fontEditor.js:66-73 | under the same guard: clipboard takes the old glyph, that key is removed with other keys unchanged, the resulting map tops the undo stack and the redo stack is empty; otherwise nothing changes |
| `GlyphSession.Paste` | fontEditor.js:75-81 | with a clipboard the current character is bound to it, other slots kept; the clipboard and both stacks never change; with none nothing changes |
| `GlyphSession.Undo` | fontEditor.js:89-96 | with a non-empty undo stack: current map onto the redo stack, popped top becomes the map; with an empty one nothing changes; the total of stacked maps is kept |
| `GlyphSession.Redo` | fontEditor.js:98-105 | mirror image of undo; the total of stacked maps is kept |
| `GlyphSession.AddSlot` | fontEditor.js:118-126 | a non-empty absent character gets the blank glyph with other slots kept; an existing glyph is never overwritten; nothing is recorded |
| `GlyphSession.UndoThenRedo` | fontEditor.js:89-105 | an effective undo followed by redo restores the map and both stacks exactly |
| `GlyphSession.RedoThenUndo` | fontEditor.js:89-105 | an effective redo followed by undo restores the map and both stacks exactly |
| `GlyphSession.UndoTimes` | fontEditor.js:89-96 | `k` undos keep the total of stacked maps and shrink the undo stack by `k` when it holds `k` maps |
| `GlyphSession.RedoTimes` | fontEditor.js:98-105 | `k` redos keep the total of stacked maps and shrink the redo stack by `k` when it holds `k` maps |
| `GlyphSession.UndoTimesThenRedoTimes` | fontEditor.js:89-105 | `k` undos followed by `k` redos give back the state exactly |
| `GlyphSession.UndoRightAfterRecordKeepsSlots` | fontEditor.js:84-96 | since history holds post-states, undo right after a recorded change leaves the map as it is |
| `GlyphSession.RecordLeavesNothingToRedo` | fontEditor.js:84-105 | right after a recorded change, redo does nothing |
| `GlyphSession.PasteIdempotent` | fontEditor.js:75-81 | pasting twice is pasting once |
| `GlyphSession.AddSlotIdempotent` | fontEditor.js:118-126 | adding the same slot twice is adding it once |
| `GlyphSession.EditThenCopy` | fontEditor.js:46-64 | selecting a non-empty character that has a glyph and copying puts that glyph on the clipboard |
| `GlyphSession.CutThenPasteBack` | fontEditor.js:66-81 | cutting the selected slot and pasting under the same character restores the map |
| `GlyphSession.UndoAsWritten` | fontEditor.js:89-96 | the page's undo: the map never changes; a non-empty undo stack loses its top and the redo stack gains the current map; clipboard, current character and selection are untouched |
| `GlyphSession.RedoAsWritten` | fontEditor.js:98-105 | the page's redo: the map never changes; a non-empty redo stack loses its top and the undo stack gains the current map; clipboard, current character and selection are untouched |
| `GlyphSession.AsWrittenUndoLosesSnapshot` | fontEditor.js:89-96 | after add A, add B, cut A, cut B: two undos as written leave the map empty and lose `{B: blank}`, while the intended undo restores it |
| `FontEditor.Editor.constructor` | fontEditor.js:6-11 | empty map, no clipboard, empty stacks, no current character, no selected slot |
| `FontEditor.Editor.AddToHistory` | fontEditor.js:84-87 | fields move exactly as `GlyphSession.AddToHistory` |
| `FontEditor.Editor.SaveGlyph` | fontEditor.js:33-43 | fields move exactly as `GlyphSession.SaveGlyph`; the main canvas is blank after a save and untouched otherwise |
| `FontEditor.Editor.EditGlyph` | fontEditor.js:46-56 | fields move exactly as `GlyphSession.EditGlyph`; the character's glyph is shown when it has one |
| `FontEditor.Editor.Copy` | fontEditor.js:59-64 | fields move exactly as `GlyphSession.Copy` |
| `FontEditor.Editor.Cut` | fontEditor.js:66-73 | fields move exactly as `GlyphSession.Cut` |
| `FontEditor.Editor.Paste` | fontEditor.js:75-81 | fields move exactly as `GlyphSession.Paste`; the clipboard glyph is shown |
| `FontEditor.Editor.Undo` | fontEditor.js:89-96 | fields move exactly as the intended `GlyphSession.Undo` |
| `FontEditor.Editor.Redo` | fontEditor.js:98-105 | fields move exactly as the intended `GlyphSession.Redo` |
| `FontEditor.Editor.AddSlot` | fontEditor.js:118-126 | fields move exactly as `GlyphSession.AddSlot` with the blank picture |

## Left out

- Drawing with the mouse, brush settings and the flip button (`fontCreator.js:33-44`, `155-161`; `fontEditor.js:19-30`). These are canvas rendering with floating-point transforms. The canvas picture is an input to the handlers that read it.
- Pixel contents. Pictures are opaque values, and a blank canvas is one constant `blank`.
- The asynchronous redraw after undo/redo on the drawing page (`Image.onload` then `drawImage`). `Undo`/`Redo` return the entry to draw. That `drawImage` paints over the canvas rather than replacing it is not modelled.
- Browser I/O: `FileReader`, `localStorage`, the `Blob`/URL download and `fileInput.click`. Load, import and export take or return the parsed document.
- The order of the two `change` listeners on the same file input (`fontCreator.js:88`, `142`). One file choice runs both; the model offers `Import` and `LoadRadicalsFile` as separate operations.
- `JSON.parse` / `JSON.stringify`. Parsing is foreign. Its outcome is a parameter (`Option` for the radical data, whose failure is caught). Load and import take an already-parsed document, so a parse failure there, or a non-object document, is not modelled.
- `FontCreator.FontData`: a field that is present with a shape other than a slot list or a name mapping is not modelled. Only "missing or falsy" versus "present" is.
- `FontCreator.Creator.LoadFromStorage`: `stored` None stands for both `getItem` returning `null` and an empty string, which the page treats alike.
- The editor's radical loading (`fontEditor.js:128-140`) and the list rendering (`updateRadicalsList`, `redraw`). These are file I/O and DOM output. Their only state effect is replacing the editor's radical value wholesale.
- JavaScript object semantics of the editor's `slots`. Keys inherited from `Object.prototype` (such as `"toString"`) are truthy in the source's guards and are not modelled. The shallow copy `{...slots}` is modelled as a map value, which is exact because glyphs are never changed in place.
- `FontCreator.Creator.AddRadical`: the drawing page's `radicals` is a plain JavaScript object. Assigning the name `"__proto__"` goes through the `Object.prototype.__proto__` setter: it creates no entry, and for object data it replaces the prototype. The model binds `"__proto__"` like any other name, and its contract claims `name in radicals` for it.
- Memory growth of the histories is unbounded in the source and in the model.

## Findings

| source | as written | input that shows it | evidently intended | confidence | as-written member | corrected member |
|---|---|---|---|---|---|---|
| fontEditor.js:89-105 | `slots` is declared `const` (line 6) but reassigned at lines 92 and 101. The assignment throws `TypeError` after the redo (resp. undo) stack was pushed and the other stack popped. So the map never changes and the popped map is lost | add slots "A" and "B", select and cut "A", select and cut "B", then press undo twice: the map stays empty and `{B: blank}` is gone from the state | undo/redo swap the current map with the top of the other stack, and undo followed by redo restores the state exactly | high, by reading; not executed | `GlyphSession.AsWrittenUndoLosesSnapshot` | `GlyphSession.UndoThenRedo` |
