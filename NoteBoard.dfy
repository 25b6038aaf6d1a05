/** The page's mutable state: the list of notes, the colour chosen for the
    next save, and the note form's edit session. */
module NoteBoard {
  import opened JsString
  import opened Notes

  /** The form's `data-edit-id` attribute: absent while a new note is being
      written, the id of the note being edited otherwise. */
  datatype EditMode = Creating | Editing(id: int)

  /** The colour the form starts with and returns to after every save. */
  const DEFAULT_COLOR := "white"

  /** A submission is accepted when neither the title nor the content is
      blank once trimmed. */
  predicate Accepted(titleInput: string, contentInput: string)
  {
    Trim(titleInput) != [] && Trim(contentInput) != []
  }

  class Board {
    var notes: seq<Note>
    var selectedColor: string
    var mode: EditMode
    /** The `data-color` values of the page's colour option buttons. */
    const palette: seq<string>
    /** The last list written to storage. */
    ghost var persisted: seq<Note>
    /** How many times the list has been written to storage. */
    ghost var writes: nat

    /** Storage always holds the current list: every change to `notes` is
        followed by a write. */
    ghost predicate Valid()
      reads this
    {
      persisted == notes
    }

    /** Page load: the list read back from storage, white selected, and the
        form in creation mode. */
    constructor (stored: seq<Note>, palette: seq<string>)
      ensures Valid()
      ensures notes == stored && selectedColor == DEFAULT_COLOR && mode == Creating
      ensures this.palette == palette && writes == 0
    {
      notes := stored;
      selectedColor := DEFAULT_COLOR;
      mode := Creating;
      this.palette := palette;
      persisted := stored;
      writes := 0;
    }

    /** Writes the current list to storage. */
    method SaveToLocalStorage()
      modifies this
      ensures persisted == notes && writes == old(writes) + 1
      ensures notes == old(notes) && selectedColor == old(selectedColor) && mode == old(mode)
    {
      persisted := notes;
      writes := writes + 1;
    }

    /** Clicking a colour option selects its colour. */
    method SelectColor(color: string)
      requires color in palette
      modifies this
      ensures selectedColor == color
      ensures notes == old(notes) && persisted == old(persisted) && writes == old(writes)
      ensures mode == old(mode)
    {
      selectedColor := color;
    }

    /** Clears the form: white is selected again and the form leaves edit
        mode. Storage is not touched. */
    method ResetForm()
      modifies this
      ensures selectedColor == DEFAULT_COLOR && mode == Creating
      ensures notes == old(notes) && persisted == old(persisted) && writes == old(writes)
    {
      selectedColor := DEFAULT_COLOR;
      mode := Creating;
    }

    /** Opens the first note with `id` in the form. Nothing happens when no
        note has that id. Otherwise the form enters edit mode for `id`, and
        the note's colour is selected if one of the colour options offers
        it (the selection is left as it was if none does). */
    method EditNote(id: int)
      modifies this
      ensures notes == old(notes) && persisted == old(persisted) && writes == old(writes)
      ensures !HasId(notes, id) ==> mode == old(mode) && selectedColor == old(selectedColor)
      ensures HasId(notes, id) ==>
        var color := notes[IndexOfId(notes, id)].color;
        mode == Editing(id) &&
        selectedColor == (if color in palette then color else old(selectedColor))
    {
      var i := IndexOfId(notes, id);
      if i != -1 {
        var color := notes[i].color;
        for k := 0 to |palette|
          invariant notes == old(notes) && persisted == old(persisted) && writes == old(writes)
          invariant mode == old(mode)
          invariant selectedColor == (if color in palette[..k] then color else old(selectedColor))
        {
          assert palette[..k + 1] == palette[..k] + [palette[k]];
          if palette[k] == color {
            selectedColor := color;
          }
        }
        assert palette[..|palette|] == palette;
        mode := Editing(id);
      }
    }

    /** Deletes every note with `id` and writes the list. The edit session
        is left alone, even when it refers to a deleted note. */
    method DeleteNote(id: int)
      requires Valid()
      modifies this
      ensures Valid()
      ensures notes == Without(old(notes), id)
      ensures writes == old(writes) + 1
      ensures mode == old(mode) && selectedColor == old(selectedColor)
    {
      notes := Without(notes, id);
      SaveToLocalStorage();
    }

    /** Submits the form. `now` and `timestamp` stand for the clock readings
        the page takes (the new note's id and the save time).
        A blank title or content leaves everything as it was. Otherwise, in
        creation mode one note is appended; in edit mode the first note with
        the edited id is overwritten in place, keeping its id, and nothing
        changes if that id has gone. Either way the list is written and the
        form is reset. */
    method SaveNote(titleInput: string, contentInput: string, now: int, timestamp: string)
      requires Valid()
      modifies this
      ensures Valid()
      ensures !Accepted(titleInput, contentInput) ==>
        notes == old(notes) && persisted == old(persisted) && writes == old(writes) &&
        mode == old(mode) && selectedColor == old(selectedColor)
      ensures Accepted(titleInput, contentInput) ==>
        mode == Creating && selectedColor == DEFAULT_COLOR && writes == old(writes) + 1
      ensures Accepted(titleInput, contentInput) && old(mode) == Creating ==>
        notes == old(notes) + [Note(now, Trim(titleInput), Trim(contentInput), old(selectedColor), timestamp)]
      ensures Accepted(titleInput, contentInput) && old(mode).Editing? && !HasId(old(notes), old(mode).id) ==>
        notes == old(notes)
      ensures Accepted(titleInput, contentInput) && old(mode).Editing? && HasId(old(notes), old(mode).id) ==>
        var i := IndexOfId(old(notes), old(mode).id);
        |notes| == |old(notes)| &&
        notes[i] == Note(old(notes)[i].id, Trim(titleInput), Trim(contentInput), old(selectedColor), timestamp) &&
        forall k :: 0 <= k < |notes| && k != i ==> notes[k] == old(notes)[k]
    {
      var title := Trim(titleInput);
      var content := Trim(contentInput);
      if title == [] || content == [] {
        return;
      }
      match mode {
        case Editing(id) =>
          var i := IndexOfId(notes, id);
          if i != -1 {
            notes := notes[i := Note(notes[i].id, title, content, selectedColor, timestamp)];
          }
        case Creating =>
          notes := notes + [Note(now, title, content, selectedColor, timestamp)];
      }
      SaveToLocalStorage();
      ResetForm();
    }
  }

  /** Two notes written in creation mode are appended in order, each
      with the colour selected when it was saved. */
  method CreateWalkthrough()
  {
    var board := new Board([], [DEFAULT_COLOR, "#212121"]);
    TrimUnchanged("Groceries");
    TrimUnchanged("milk, eggs");
    board.SaveNote("Groceries", "milk, eggs", 1, "t1");
    assert board.palette[1] == "#212121";
    board.SelectColor("#212121");
    TrimUnchanged("Todo");
    board.SaveNote("Todo", "milk, eggs", 2, "t2");
    assert board.notes == [Note(1, "Groceries", "milk, eggs", DEFAULT_COLOR, "t1"),
                           Note(2, "Todo", "milk, eggs", "#212121", "t2")];
    assert board.persisted == board.notes && board.writes == 2;
    assert board.selectedColor == DEFAULT_COLOR;
  }

  /** The note being edited is deleted behind the form's back: the edit
      session survives the deletion, so the next save changes no note, but
      it still writes the list and closes the session. */
  method StaleEditWalkthrough()
  {
    var kept := Note(1, "Groceries", "milk, eggs", DEFAULT_COLOR, "t1");
    var edited := Note(2, "Todo", "buy milk", "#212121", "t2");
    var board := new Board([kept, edited], [DEFAULT_COLOR, "#212121"]);
    assert board.notes[1].id == 2;
    board.EditNote(2);
    assert board.mode == Editing(2);
    WithoutAppend([kept], [edited], 2);
    assert [kept] + [edited] == board.notes;
    board.DeleteNote(2);
    assert board.notes == [kept] && board.mode == Editing(2);
    TrimUnchanged("x");
    board.SaveNote("x", "x", 3, "t3");
    assert board.notes == [kept] && board.mode == Creating && board.writes == 2;
  }
}
