/** The session state of the drawing page (fontCreator.js): a list of character slots,
    a library of radicals, a clipboard holding one picture of the canvas, and the
    undo/redo history of canvas pictures. The canvas itself is outside the model: the
    handlers that read it take its current picture as a parameter, and undo/redo hand
    back the picture to draw. Pictures have the opaque type `S`, radical data (whatever
    `JSON.parse` produced) the opaque type `R`. */
module FontCreator {
  import opened Wrappers
  import CursorHistory

  /** One entry of the slot list, `{ char, data }` (`char` is `character` here);
      `data` is `null` when the slot is added. */
  datatype Slot<S> = Slot(character: string, data: Option<S>)

  /** A parsed font document. A field is None when it is missing or falsy in the JSON, in
      which case loading falls back to an empty list or an empty mapping. */
  datatype FontData<S, R> = FontData(slots: Option<seq<Slot<S>>>, radicals: Option<map<string, R>>)

  /** The slot list a loaded document yields (`data.slots || []`). */
  function LoadedSlots<S, R>(doc: FontData<S, R>): (r: seq<Slot<S>>)
    ensures doc.slots.None? ==> r == []
    ensures doc.slots.Some? ==> r == doc.slots.value
  {
    doc.slots.GetOr([])
  }

  /** The radical library a loaded document yields (`data.radicals || {}`). */
  function LoadedRadicals<S, R>(doc: FontData<S, R>): (r: map<string, R>)
    ensures doc.radicals.None? ==> r == map[]
    ensures doc.radicals.Some? ==> r == doc.radicals.value
  {
    doc.radicals.GetOr(map[])
  }

  class Creator<S, R> {
    var currentChar: string
    var slots: seq<Slot<S>>
    var radicals: map<string, R>
    var clipboard: Option<S>
    var history: seq<S>
    var historyIndex: int
    /** The picture of a cleared canvas (`clearRect`). */
    const blank: S

    /** The history list and its cursor as one value. */
    function Cursor(): CursorHistory.History<S>
      reads this
    {
      CursorHistory.History(history, historyIndex)
    }

    predicate Valid()
      reads this
    {
      CursorHistory.Valid(Cursor())
    }

    /** The page as loaded: everything empty, the cursor before the first entry. */
    constructor (blank: S)
      ensures Valid() && this.blank == blank
      ensures currentChar == "" && slots == [] && radicals == map[] && clipboard == None
      ensures history == [] && historyIndex == -1
    {
      this.blank := blank;
      currentChar := "";
      slots := [];
      radicals := map[];
      clipboard := None;
      history := [];
      historyIndex := -1;
    }

    /** `copy`: the clipboard takes the picture on the canvas. */
    method Copy(picture: S)
      modifies this`clipboard
      ensures clipboard == Some(picture)
    {
      clipboard := Some(picture);
    }

    /** `cut`: copy, then clear the canvas; `surface` is the picture left on it. */
    method Cut(picture: S) returns (surface: S)
      modifies this`clipboard
      ensures clipboard == Some(picture)
      ensures surface == blank
    {
      Copy(picture);
      surface := blank;
    }

    /** `addToHistory`: record the picture on the canvas, discarding the redo branch. */
    method AddToHistory(picture: S)
      requires Valid()
      modifies this`history, this`historyIndex
      ensures Valid()
      ensures Cursor() == CursorHistory.Record(old(Cursor()), picture)
    {
      if historyIndex < |history| - 1 {
        history := history[..historyIndex + 1];
      }
      history := history + [picture];
      historyIndex := historyIndex + 1;
    }

    /** `undo`: returns the picture to draw back, if the cursor moved. */
    method Undo() returns (restore: Option<S>)
      requires Valid()
      modifies this`historyIndex
      ensures Valid()
      ensures CursorHistory.Step(Cursor(), restore) == CursorHistory.Undo(old(Cursor()))
    {
      restore := None;
      if historyIndex > 0 {
        historyIndex := historyIndex - 1;
        restore := Some(history[historyIndex]);
      }
    }

    /** `redo`: returns the picture to draw back, if the cursor moved. */
    method Redo() returns (restore: Option<S>)
      requires Valid()
      modifies this`historyIndex
      ensures Valid()
      ensures CursorHistory.Step(Cursor(), restore) == CursorHistory.Redo(old(Cursor()))
    {
      restore := None;
      if historyIndex < |history| - 1 {
        historyIndex := historyIndex + 1;
        restore := Some(history[historyIndex]);
      }
    }

    /** The undo button: record the picture on the canvas, then undo. */
    method PressUndo(picture: S) returns (restore: Option<S>)
      requires Valid()
      modifies this`history, this`historyIndex
      ensures Valid()
      ensures CursorHistory.Step(Cursor(), restore) == CursorHistory.PressUndo(old(Cursor()), picture)
    {
      AddToHistory(picture);
      restore := Undo();
    }

    /** The add-slot button: a non-empty character is appended as a new empty slot
        (even when the list already has one for it) and becomes the current character. */
    method AddSlot(character: string)
      modifies this`slots, this`currentChar
      ensures character != "" ==> slots == old(slots) + [Slot(character, None)] && currentChar == character
      ensures character == "" ==> slots == old(slots) && currentChar == old(currentChar)
    {
      if character != "" {
        slots := slots + [Slot(character, None)];
        currentChar := character;
      }
    }

    /** The add-radical button. `parsed` is the outcome of `JSON.parse(elementsData)`,
        None when it throws. With both inputs non-empty and data that parses, `name` is
        bound to the parsed value and every other name keeps its entry; otherwise the
        library is unchanged. */
    method AddRadical(name: string, elementsData: string, parsed: Option<R>)
      modifies this`radicals
      ensures name != "" && elementsData != "" && parsed.Some? ==>
        && name in radicals && radicals[name] == parsed.value
        && radicals.Keys == old(radicals).Keys + {name}
        && forall other :: other in old(radicals) && other != name ==> radicals[other] == old(radicals)[other]
      ensures !(name != "" && elementsData != "" && parsed.Some?) ==> radicals == old(radicals)
    {
      if name != "" && elementsData != "" {
        match parsed
        case Some(data) =>
          radicals := radicals[name := data];
        case None =>
      }
    }

    /** The document that save and export write: exactly the slot list and the radicals. */
    method Export() returns (doc: FontData<S, R>)
      ensures LoadedSlots(doc) == slots && LoadedRadicals(doc) == radicals
      ensures doc.slots.Some? && doc.radicals.Some?
    {
      doc := FontData(Some(slots), Some(radicals));
    }

    /** Load from the browser store. `stored` is None when nothing (or the empty string)
        is stored under the key, in which case nothing changes; otherwise it is the
        parsed document, which replaces the slots and the radicals. */
    method LoadFromStorage(stored: Option<FontData<S, R>>)
      modifies this`slots, this`radicals
      ensures stored.Some? ==> slots == LoadedSlots(stored.value) && radicals == LoadedRadicals(stored.value)
      ensures stored.None? ==> slots == old(slots) && radicals == old(radicals)
    {
      if stored.Some? {
        slots := LoadedSlots(stored.value);
        radicals := LoadedRadicals(stored.value);
      }
    }

    /** Import from a chosen file: the parsed document replaces the slots and the radicals. */
    method Import(doc: FontData<S, R>)
      modifies this`slots, this`radicals
      ensures slots == LoadedSlots(doc) && radicals == LoadedRadicals(doc)
    {
      slots := LoadedSlots(doc);
      radicals := LoadedRadicals(doc);
    }

    /** Load radicals from a chosen file: only the radical library is replaced. */
    method LoadRadicalsFile(doc: FontData<S, R>)
      modifies this`radicals
      ensures radicals == LoadedRadicals(doc)
    {
      radicals := LoadedRadicals(doc);
    }
  }
}
