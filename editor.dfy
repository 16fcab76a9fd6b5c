/** The glyph editor page (fontEditor.js) as an object whose fields the button handlers
    update in place. Every handler is proved to move the state exactly as the matching
    `GlyphSession` function says; the properties of those functions are proved there. */
module FontEditor {
  import opened Wrappers
  import GlyphSession

  class Editor<S> {
    var slots: map<string, S>
    var clipboard: Option<S>
    var undoStack: seq<map<string, S>>
    var redoStack: seq<map<string, S>>
    /** Never reassigned by the page itself, so it stays "" there; any value is allowed here. */
    var currentChar: string
    var currentSlot: Option<string>
    /** The picture of a blank canvas (`createImageData`, or a canvas after `clearRect`). */
    const blank: S

    /** The fields as one session value. */
    function State(): GlyphSession.EditorState<S>
      reads this
    {
      GlyphSession.EditorState(slots, clipboard, undoStack, redoStack, currentChar, currentSlot)
    }

    constructor (blank: S)
      ensures State() == GlyphSession.Initial() && this.blank == blank
    {
      this.blank := blank;
      slots := map[];
      clipboard := None;
      undoStack := [];
      redoStack := [];
      currentChar := "";
      currentSlot := None;
    }

    /** `addToHistory`: push a copy of the map, clear the redo stack. */
    method AddToHistory()
      modifies this
      ensures State() == GlyphSession.AddToHistory(old(State()))
    {
      undoStack := undoStack + [slots];
      redoStack := [];
    }

    /** Save glyph; `surface` is what the main canvas shows afterwards (it is cleared on a save). */
    method SaveGlyph(picture: S) returns (surface: S)
      modifies this
      ensures State() == GlyphSession.SaveGlyph(old(State()), picture)
      ensures surface == if old(currentChar) != "" then blank else picture
    {
      surface := picture;
      if currentChar != "" {
        slots := slots[currentChar := picture];
        AddToHistory();
        surface := blank;
      }
    }

    /** Edit glyph; `shown` is the glyph put on the editor canvas, if any. */
    method EditGlyph(ch: string) returns (shown: Option<S>)
      modifies this
      ensures State() == GlyphSession.EditGlyph(old(State()), ch)
      ensures shown == if ch in old(slots) then Some(old(slots)[ch]) else None
    {
      shown := None;
      if ch in slots {
        shown := Some(slots[ch]);
        currentSlot := Some(ch);
      }
    }

    method Copy()
      modifies this
      ensures State() == GlyphSession.Copy(old(State()))
    {
      if currentSlot.Some? && currentSlot.value != "" && currentSlot.value in slots {
        clipboard := Some(slots[currentSlot.value]);
      }
    }

    method Cut()
      modifies this
      ensures State() == GlyphSession.Cut(old(State()))
    {
      if currentSlot.Some? && currentSlot.value != "" && currentSlot.value in slots {
        clipboard := Some(slots[currentSlot.value]);
        slots := slots - {currentSlot.value};
        AddToHistory();
      }
    }

    /** Paste; `shown` is the glyph put on the editor canvas, if any. */
    method Paste() returns (shown: Option<S>)
      modifies this
      ensures State() == GlyphSession.Paste(old(State()))
      ensures shown == old(clipboard)
    {
      shown := clipboard;
      if clipboard.Some? {
        slots := slots[currentChar := clipboard.value];
      }
    }

    /** Undo as evidently intended (the page itself throws before reassigning `slots`;
        see `GlyphSession.UndoAsWritten`). */
    method Undo()
      modifies this
      ensures State() == GlyphSession.Undo(old(State()))
    {
      if |undoStack| > 0 {
        redoStack := redoStack + [slots];
        slots := undoStack[|undoStack| - 1];
        undoStack := undoStack[..|undoStack| - 1];
      }
    }

    /** Redo as evidently intended (see `GlyphSession.RedoAsWritten`). */
    method Redo()
      modifies this
      ensures State() == GlyphSession.Redo(old(State()))
    {
      if |redoStack| > 0 {
        undoStack := undoStack + [slots];
        slots := redoStack[|redoStack| - 1];
        redoStack := redoStack[..|redoStack| - 1];
      }
    }

    method AddSlot(ch: string)
      modifies this
      ensures State() == GlyphSession.AddSlot(old(State()), ch, blank)
    {
      if ch != "" && ch !in slots {
        slots := slots[ch := blank];
      }
    }
  }
}
