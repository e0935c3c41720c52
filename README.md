# Note_App in Dafny

This project models the core of a small desktop note-taking application, `notes.py`. The model has three modules:

- `NoteStore` (`note_store.dfy`) models `DatabaseManager`.
  - The SQLite table `notes(id, title, content, date)` becomes a `Store` object. It holds a `map<int, Note>` and an AUTOINCREMENT counter, `nextId`.
  - A ghost set records every id ever handed out, including the ids of deleted notes.
  - `AddNote`, `UpdateNote` and `DeleteNote` are methods that change the table.
  - The two read-only queries are functions over the table:
    - `GetNoteById` is `get_note_by_id`.
    - `GetNotes` models `get_notes` with the search text read literally, as a user types it. It keeps the rows whose title contains that text, reads them in id order and sorts them on the date, newest first. The query's `LIKE` test as written, where `%` and `_` in the search text act as wildcards, is `Text.LikeSearch` (see Findings).
- `Window` (`main_window.dfy`) models the editing logic of `MainWindow` without its widgets.
  - The state is the selected id (`current_note_id`), the title and content fields, and the date label.
  - `LoadNoteDetails`, `NewNote`, `SaveNote` and `DeleteNote` are the four actions. They move the editor between "new note" (nothing selected) and "editing" (a note selected).
  - The invariant: a selection always names a note that is in the table.
- `Text` (`text.dfy`) holds the string operations the store relies on:
  - the lexicographic order that `ORDER BY date` uses on the fixed-width `YYYY-MM-DD HH:MM:SS` dates;
  - the title search: ASCII-case-insensitive substring containment;
  - SQLite's `LIKE` operator as the query actually uses it.

The clock (`datetime.now()`) is an input. `SaveNote` takes the timestamp string `now` as a parameter.

Two choices follow directly from the code:

- The title search uses SQLite `LIKE` (notes.py:44), which ignores ASCII case by default. So the model's search ignores ASCII case and nothing else.
- The schema lets the `content` column hold NULL (notes.py:17), but the window always passes the text of its content field (notes.py:164-174). So content is a `string`.

## Model

| member | source | states |
|---|---|---|
| `NoteStore.Store.constructor` | notes.py:8-22 | Opening a database that does not exist yet gives an empty table. The next id is 1 and no id has been issued. |
| `NoteStore.Store.AddNote` | notes.py:24-29 | The returned id was never issued before: not to a present note and not to a deleted one (the AUTOINCREMENT column of line 15). The id is the counter's current value and the counter advances by one. The table gains exactly one row, holding the given title, content and date under that id. `GetNoteById` on the id then returns `(id, title, content, date)`. |
| `NoteStore.Store.UpdateNote` | notes.py:31-34 | On a present id, the title, content and date are replaced under the same id, and no other row changes. On an absent id, the table is unchanged. Neither case raises an error, and the id counter never moves. |
| `NoteStore.Store.DeleteNote` | notes.py:36-39 | Exactly the row with that id is removed, and `GetNoteById` then returns None. An absent id leaves the table unchanged. The deleted id stays issued, so it is never handed out again. |
| `NoteStore.GetNoteById` | notes.py:50-52 | It returns a row exactly when the id is in the table, and that row carries the id with the stored title, content and date. Otherwise it returns None. |
| `NoteStore.Selected` | notes.py:41-48 | The query keeps exactly the ids whose title contains the search text, ignoring ASCII case. The empty search keeps every id. This shows that the branch without a WHERE clause agrees with the `LIKE` branch. |
| `NoteStore.GetNotes` | notes.py:41-48 | The listing query, with the search text read literally. It carries no contract of its own. `GetNotesRows`, `GetNotesIds` and `GetNotesNewestFirst` give it one: exactly the stored rows whose title matches, each id once, newest first. |
| `NoteStore.SortNewestFirst` | notes.py:47 | Sorting on the date returns a permutation of its input, as a multiset. |
| `NoteStore.SortIsNewestFirst` | notes.py:47 | The sorted rows are in non-increasing date order. |
| `NoteStore.GetNotesNewestFirst` | notes.py:43-48 | Every listing, with or without a search, is ordered by date, newest first. |
| `NoteStore.GetNotesRows` | notes.py:43-48 | A row is listed exactly when it is the stored row for its id and its title matches the search. No id is listed twice. The listing has one row per selected id, so the empty search lists every row of the table. |
| `NoteStore.GetNotesIds` | notes.py:43-48 | The ids in a listing are exactly the ids the WHERE clause keeps. |
| `NoteStore.SearchIgnoresContent` | notes.py:44-45 | Changing a note's content never changes which notes a search lists, because only the title is searched. |
| `NoteStore.TwoNotesNewestFirst` | notes.py:47-48 | A table of two notes lists the later-dated note first. |
| `NoteStore.ExampleListsNewestFirst` | notes.py:46-48 | Groceries is saved at 2024-01-01 10:00:00 and Work at 2024-01-02 09:00:00. The full listing is `[Work, Groceries]`. |
| `NoteStore.ExampleSearchesTitles` | notes.py:43-45 | In the same table, searching for "Work" lists only Work. |
| `NoteStore.ExampleDeleteThenList` | notes.py:36-48 | After Work is deleted, the full listing is `[Groceries]`. |
| `NoteStore.ExampleSession` | notes.py:24-48 | A fresh store, driven through `AddNote` and `DeleteNote`, hands out ids 1 and 2 to Groceries and Work, lists `[Work, Groceries]`, lists only Work for the search "Work", and lists `[Groceries]` once Work is deleted. |
| `Text.LexLeqTotal` | notes.py:47 | Any two dates are comparable, so `ORDER BY date` is a total order. |
| `Text.LexLeqTransitive` | notes.py:47 | The date order is transitive. |
| `Text.LexLeq` | notes.py:47 | The order behind `ORDER BY date`: SQLite's BINARY collation, comparing code point by code point with a proper prefix first. `LexLeqTotal` and `LexLeqTransitive` state its properties, and `LexLeqCommonPrefix` lets equal leading parts of a date be skipped. |
| `Text.ContainsAt` | notes.py:44-45 | The recursive substring test agrees with the positional definition: some `i` has `s[i..i+|p|] == p`. |
| `Text.LikeSearch` | notes.py:44-45 | The test `title LIKE '%' + search + '%'` as the query writes it, with `%` matching any run of characters, `_` any one character, and letters compared ignoring ASCII case. `LikeSearchWithoutWildcards` and `LikeSearchWildcardCounterexample` state how it relates to the containment test. |
| `Text.LikeSearchWithoutWildcards` | notes.py:44-45 | For a search text without `%` or `_`, `title LIKE '%' + search + '%'` holds exactly when the title contains the search text, ignoring ASCII case. |
| `Text.LikeSearchWildcardCounterexample` | notes.py:44-45 | The `LIKE` test as written lists the title "ab" for the search "_", although "ab" does not contain "_". |
| `Window.MainWindow.constructor` | notes.py:57-61 | The window starts over an open store with nothing selected, empty fields and the bare date label. |
| `Window.Truthy` | notes.py:169-178 | Python's truth test `if self.current_note_id:`: false for None and for 0. `MainWindow.SelectionIsTruthy` proves that under the window invariant it means "a note is selected". |
| `Window.MainWindow.SelectionIsTruthy` | notes.py:169-178 | While the invariant holds, the truthiness test `if self.current_note_id:` is the same as "a note is selected", because the store never issues id 0. |
| `Window.MainWindow.LoadNoteDetails` | notes.py:145-155 | If the clicked id is in the table, that note becomes the selection. The title and content fields and the date label show the stored values. If the id is not in the table, the selection is cleared and the fields keep their text. The table is unchanged in both cases. |
| `Window.MainWindow.NewNote` | notes.py:157-162 | The selection is always cleared, the title and content are emptied and the date label is reset. |
| `Window.MainWindow.SaveNote` | notes.py:164-174 | With a note selected, that note is updated and the selection stays. With nothing selected, a note is created under the store's next id, which was never issued before and becomes the selection, and the id counter advances by one. With a note selected, the counter stays. Either way, the selected note then reads back as `(id, title, content, now)`, and the date label shows `now`. |
| `Window.MainWindow.DeleteNote` | notes.py:176-184 | With nothing selected, nothing changes. Otherwise exactly the selected note is removed and can no longer be found. The selection is cleared, and the fields and date label are reset. |

## Findings

| source | as written | input that shows it | evidently intended | confidence | as-written member | corrected member |
|---|---|---|---|---|---|---|
| notes.py:44-45 | The search text is placed between two `%` of a `LIKE` pattern without escaping. Its own `%` and `_` therefore act as wildcards. | Searching for `_` lists the note titled `ab`. | The notes whose title contains the typed text, ignoring case. | not executed; medium | `Text.LikeSearchWildcardCounterexample` | `NoteStore.GetNotesRows` |

`Text.LikeSearch` models the query as written, and `Text.LikeSearchWithoutWildcards` proves that it agrees with the corrected test whenever the search holds no wildcard. `NoteStore.GetNotes` uses the corrected test, `Text.MatchesIgnoringCase`.

## Left out

- The PyQt widgets are not modelled: window construction and layout (`initUI`), the list rendering of `load_notes`, and `main`. `LoadNoteDetails` takes the clicked note's id directly instead of a list item.
- Refreshing the list after a search change, save or delete (`load_notes`) is left out with the rendering. It reads the store and changes no state the model keeps.
- The SQLite connection, `CREATE TABLE IF NOT EXISTS` and the `commit` calls are replaced by the in-memory table. Storage errors are not modelled, since the source does not handle them.
- `Store.constructor` models only a database file that does not exist yet. Reopening a file with existing notes, whose AUTOINCREMENT counter continues from the largest id ever issued, is not modelled.
- `Store.AddNote` does not model the limit of a 64-bit rowid. When the largest id 2^63-1 has been used, SQLite fails the insert. The model's ids are unbounded.
- `NoteStore.Selected` and `NoteStore.GetNotes` read the search text literally. A search holding `%` or `_` gets the containment test, not the wildcard matching that the `LIKE` query applies. The behaviour as written is `Text.LikeSearch`, and `Text.LikeSearchWithoutWildcards` proves the two agree on every search without wildcards (see Findings).
- `SaveNote` takes the clock reading `now` as a parameter. The model does not check that it has the `%Y-%m-%d %H:%M:%S` layout.
- Rows with equal dates come back in increasing id order in `GetNotes`. The source does not promise any tie order, so no lemma states one: only the newest-first order is proved.
- Case folding covers ASCII only, as in SQLite's built-in `LIKE`. Non-ASCII letters are compared as they are.
- A content column holding NULL is not modelled, since the application always stores a string.
