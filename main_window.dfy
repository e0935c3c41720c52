/** The editing logic of notes.py's `MainWindow`, without its widgets: the
    selected note id, the edit buffer, the date label, and the four actions
    that move between "new note" (no selection) and "editing" (a selection). */
module Window {
  import opened NoteStore

  /** The fixed text in front of the date shown under the editor. */
  const DateLabelPrefix := "Tarih: "

  /** Python truthiness of `current_note_id`: `None` and `0` are false. */
  predicate Truthy(id: Option<int>)
  {
    id.Some? && id.value != 0
  }

  class MainWindow {
    const db: Store
    /** `current_note_id`: the note loaded into the editor, if any. */
    var currentNoteId: Option<int>
    /** The text of the title field. */
    var title: string
    /** The text of the content field. */
    var content: string
    /** The text of the date label. */
    var dateLabel: string

    /** A selection always names a note that is in the table. */
    ghost predicate Valid()
      reads this, db
    {
      db.Valid() && (currentNoteId.Some? ==> currentNoteId.value in db.rows)
    }

    /** The store never hands out id 0, so the truthiness test that save and
        delete apply to `current_note_id` is the same as "a note is selected". */
    lemma SelectionIsTruthy()
      requires Valid()
      ensures Truthy(currentNoteId) <==> currentNoteId.Some?
    {
    }

    /** Starts with nothing selected and empty fields, over an open store. */
    constructor (db: Store)
      requires db.Valid()
      ensures Valid() && this.db == db
      ensures currentNoteId == None && title == "" && content == "" && dateLabel == DateLabelPrefix
    {
      this.db := db;
      currentNoteId := None;
      title := "";
      content := "";
      dateLabel := DateLabelPrefix;
    }

    /** Loads the clicked note into the editor. When the id is no longer in
        the table the selection is cleared and the fields keep their text. */
    method LoadNoteDetails(noteId: int)
      requires Valid()
      modifies this
      ensures Valid()
      ensures noteId in db.rows ==>
                && currentNoteId == Some(noteId)
                && title == db.rows[noteId].title
                && content == db.rows[noteId].content
                && dateLabel == DateLabelPrefix + db.rows[noteId].date
      ensures noteId !in db.rows ==>
                && currentNoteId == None
                && title == old(title) && content == old(content) && dateLabel == old(dateLabel)
    {
      var note := GetNoteById(db.rows, noteId);
      if note.Some? {
        currentNoteId := Some(note.value.id);
        title := note.value.title;
        content := note.value.content;
        dateLabel := DateLabelPrefix + note.value.date;
      } else {
        currentNoteId := None;
      }
    }

    /** Clears the selection and the fields so the next save creates a note. */
    method NewNote()
      requires Valid()
      modifies this
      ensures Valid()
      ensures currentNoteId == None && title == "" && content == "" && dateLabel == DateLabelPrefix
    {
      currentNoteId := None;
      title := "";
      content := "";
      dateLabel := DateLabelPrefix;
    }

    /** Saves the edit buffer stamped with `now`: updates the selected note,
        or inserts a new one and selects it when nothing is selected. */
    method SaveNote(now: string)
      requires Valid()
      modifies this, db
      ensures Valid()
      ensures old(currentNoteId).Some? ==>
                && currentNoteId == old(currentNoteId)
                && db.rows == old(db.rows)[currentNoteId.value := Note(title, content, now)]
                && db.issued == old(db.issued)
                && db.nextId == old(db.nextId)
      ensures old(currentNoteId).None? ==>
                && currentNoteId.Some?
                && currentNoteId.value == old(db.nextId)
                && db.nextId == old(db.nextId) + 1
                && currentNoteId.value !in old(db.issued)
                && db.rows == old(db.rows)[currentNoteId.value := Note(title, content, now)]
                && db.issued == old(db.issued) + {currentNoteId.value}
      ensures currentNoteId.Some?
      ensures GetNoteById(db.rows, currentNoteId.value) == Some(Row(currentNoteId.value, title, content, now))
      ensures title == old(title) && content == old(content)
      ensures dateLabel == DateLabelPrefix + now
    {
      if Truthy(currentNoteId) {
        db.UpdateNote(currentNoteId.value, title, content, now);
      } else {
        var id := db.AddNote(title, content, now);
        currentNoteId := Some(id);
      }
      dateLabel := DateLabelPrefix + now;
    }

    /** Deletes the selected note and clears the editor; does nothing when
        no note is selected. */
    method DeleteNote()
      requires Valid()
      modifies this, db
      ensures Valid()
      ensures db.nextId == old(db.nextId) && db.issued == old(db.issued)
      ensures old(currentNoteId).None? ==>
                && db.rows == old(db.rows)
                && currentNoteId == None
                && title == old(title) && content == old(content) && dateLabel == old(dateLabel)
      ensures old(currentNoteId).Some? ==>
                && db.rows == old(db.rows) - {old(currentNoteId).value}
                && |db.rows| == |old(db.rows)| - 1
                && GetNoteById(db.rows, old(currentNoteId).value) == None
                && currentNoteId == None
                && title == "" && content == "" && dateLabel == DateLabelPrefix
    {
      if Truthy(currentNoteId) {
        db.DeleteNote(currentNoteId.value);
        currentNoteId := None;
        title := "";
        content := "";
        dateLabel := DateLabelPrefix;
      }
    }
  }
}
