/** The `notes` table of notes.py's `DatabaseManager`: an in-memory table from
    row id to note, an AUTOINCREMENT counter, and the two read-only queries. */
module NoteStore {
  import Text

  datatype Option<+T> = None | Some(value: T)

  /** The mutable columns of one row of `notes`. */
  datatype Note = Note(title: string, content: string, date: string)

  /** A row as the queries return it: `(id, title, content, date)`. */
  datatype Row = Row(id: int, title: string, content: string, date: string)

  type Table = map<int, Note>

  function RowOf(id: int, n: Note): Row
  {
    Row(id, n.title, n.content, n.date)
  }

  // ---------------------------------------------------------------------------
  // get_note_by_id

  /** `SELECT ... WHERE id = ?` followed by `fetchone()`: the row, or None. */
  function GetNoteById(t: Table, id: int): (r: Option<Row>)
    ensures r.Some? <==> id in t
    ensures r.Some? ==> r.value.id == id && r.value.title == t[id].title
                        && r.value.content == t[id].content && r.value.date == t[id].date
  {
    if id in t then Some(RowOf(id, t[id])) else None
  }

  // ---------------------------------------------------------------------------
  // get_notes: WHERE clause

  /** The ids the query keeps: every id for an empty search (the branch
      without a WHERE clause), otherwise the ids whose title contains the
      search text up to ASCII case. The title is the only column looked at.
      Both branches agree on the empty search. */
  function Selected(t: Table, search: string): (ids: set<int>)
    ensures forall id :: id in ids <==> id in t && Text.MatchesIgnoringCase(t[id].title, search)
  {
    if search == "" then
      assert forall id :: id in t ==> Text.MatchesIgnoringCase(t[id].title, search) by {
        forall id | id in t ensures Text.MatchesIgnoringCase(t[id].title, search) {
          Text.ContainsEmpty(Text.Lower(t[id].title));
        }
      }
      t.Keys
    else
      set id | id in t && Text.MatchesIgnoringCase(t[id].title, search)
  }

  // ---------------------------------------------------------------------------
  // get_notes: table scan in id order

  lemma {:induction false} HasLeast(s: set<int>)
    requires s != {}
    ensures exists m :: m in s && forall k :: k in s ==> m <= k
  {
    if forall y :: y !in s { assert false; }
    var x :| x in s;
    var rest := s - {x};
    var least := x;
    if rest != {} {
      HasLeast(rest);
      var m :| m in rest && forall k :: k in rest ==> m <= k;
      if m < x {
        least := m;
      }
    }
    forall k | k in s ensures least <= k {
      assert k == x || k in rest;
    }
  }

  function Least(s: set<int>): (m: int)
    requires s != {}
    ensures m in s && forall k :: k in s ==> m <= k
  {
    HasLeast(s);
    var m :| m in s && forall k :: k in s ==> m <= k;
    m
  }

  /** The ids of `s` in increasing order, each once. */
  function Ascending(s: set<int>): (ks: seq<int>)
    ensures forall k :: k in ks <==> k in s
    ensures forall i, j :: 0 <= i < j < |ks| ==> ks[i] < ks[j]
    ensures |ks| == |s|
    decreases s
  {
    if s == {} then []
    else
      var m := Least(s);
      [m] + Ascending(s - {m})
  }

  function RowsFor(t: Table, ids: seq<int>): (rs: seq<Row>)
    requires forall id :: id in ids ==> id in t
    ensures |rs| == |ids|
    ensures forall i :: 0 <= i < |ids| ==> rs[i] == RowOf(ids[i], t[ids[i]])
  {
    if ids == [] then [] else [RowOf(ids[0], t[ids[0]])] + RowsFor(t, ids[1..])
  }

  // ---------------------------------------------------------------------------
  // get_notes: ORDER BY date DESC

  /** Every row's date is at least the date of each row after it. */
  predicate NewestFirst(rs: seq<Row>)
  {
    forall i, j :: 0 <= i < j < |rs| ==> Text.LexLeq(rs[j].date, rs[i].date)
  }

  /** No id occurs twice. */
  predicate DistinctIds(rs: seq<Row>)
  {
    forall i, j :: 0 <= i < j < |rs| ==> rs[i].id != rs[j].id
  }

  /** Puts `r` in front of the first row whose date is not later than its own. */
  function InsertByDate(r: Row, rs: seq<Row>): (out: seq<Row>)
    ensures multiset(out) == multiset(rs) + multiset{r}
  {
    if rs == [] || Text.LexLeq(rs[0].date, r.date) then [r] + rs
    else
      assert rs == [rs[0]] + rs[1..];
      [rs[0]] + InsertByDate(r, rs[1..])
  }

  /** Insertion sort on the date column, newest first. */
  function SortNewestFirst(rs: seq<Row>): (out: seq<Row>)
    ensures multiset(out) == multiset(rs)
  {
    if rs == [] then []
    else
      assert rs == [rs[0]] + rs[1..];
      InsertByDate(rs[0], SortNewestFirst(rs[1..]))
  }

  lemma {:induction false} InsertKeepsOrder(r: Row, rs: seq<Row>)
    requires NewestFirst(rs)
    ensures NewestFirst(InsertByDate(r, rs))
  {
    var out := InsertByDate(r, rs);
    if rs == [] {
    } else if Text.LexLeq(rs[0].date, r.date) {
      assert out == [r] + rs;
      forall i, j | 0 <= i < j < |out| ensures Text.LexLeq(out[j].date, out[i].date) {
        if i == 0 {
          if j > 1 {
            Text.LexLeqTransitive(rs[j - 1].date, rs[0].date, r.date);
          }
        }
      }
    } else {
      var tail := InsertByDate(r, rs[1..]);
      assert out == [rs[0]] + tail;
      InsertKeepsOrder(r, rs[1..]);
      Text.LexLeqTotal(rs[0].date, r.date);
      forall i, j | 0 <= i < j < |out| ensures Text.LexLeq(out[j].date, out[i].date) {
        if i == 0 {
          var x := tail[j - 1];
          assert x in multiset(tail);
          if x != r {
            assert x in multiset(rs[1..]);
            var k :| 0 <= k < |rs[1..]| && rs[1..][k] == x;
            assert rs[k + 1] == x;
          }
        }
      }
    }
  }

  lemma {:induction false} SortIsNewestFirst(rs: seq<Row>)
    ensures NewestFirst(SortNewestFirst(rs))
  {
    if rs != [] {
      SortIsNewestFirst(rs[1..]);
      InsertKeepsOrder(rs[0], SortNewestFirst(rs[1..]));
    }
  }

  lemma {:induction false} InsertKeepsDistinct(r: Row, rs: seq<Row>)
    requires DistinctIds(rs)
    requires forall x :: x in rs ==> x.id != r.id
    ensures DistinctIds(InsertByDate(r, rs))
  {
    var out := InsertByDate(r, rs);
    if rs == [] || Text.LexLeq(rs[0].date, r.date) {
      assert out == [r] + rs;
      forall i, j | 0 <= i < j < |out| ensures out[i].id != out[j].id {
        if i == 0 {
          assert out[j] in rs;
        }
      }
    } else {
      var tail := InsertByDate(r, rs[1..]);
      assert out == [rs[0]] + tail;
      InsertKeepsDistinct(r, rs[1..]);
      forall i, j | 0 <= i < j < |out| ensures out[i].id != out[j].id {
        if i == 0 {
          var x := tail[j - 1];
          assert x in multiset(tail);
          if x != r {
            assert x in multiset(rs[1..]);
            var k :| 0 <= k < |rs[1..]| && rs[1..][k] == x;
            assert rs[k + 1] == x;
          }
        }
      }
    }
  }

  lemma {:induction false} SortKeepsDistinct(rs: seq<Row>)
    requires DistinctIds(rs)
    ensures DistinctIds(SortNewestFirst(rs))
  {
    if rs != [] {
      var sorted := SortNewestFirst(rs[1..]);
      SortKeepsDistinct(rs[1..]);
      forall x | x in sorted ensures x.id != rs[0].id {
        assert x in multiset(sorted);
        assert x in multiset(rs[1..]);
        var k :| 0 <= k < |rs[1..]| && rs[1..][k] == x;
        assert rs[k + 1] == x;
      }
      InsertKeepsDistinct(rs[0], sorted);
    }
  }

  // ---------------------------------------------------------------------------
  // get_notes

  /** `SELECT id, title, content, date FROM notes [WHERE title LIKE ?] ORDER BY date DESC`.
      Rows are read in id order and then sorted on the date; rows with the
      same date keep id order, which the query itself does not promise. */
  function GetNotes(t: Table, search: string): seq<Row>
  {
    SortNewestFirst(RowsFor(t, Ascending(Selected(t, search))))
  }

  /** The listing is ordered by date, newest first. */
  lemma GetNotesNewestFirst(t: Table, search: string)
    ensures NewestFirst(GetNotes(t, search))
  {
    SortIsNewestFirst(RowsFor(t, Ascending(Selected(t, search))));
  }

  /** `r` is the row stored under its id and its title contains `search`
      up to ASCII case. */
  predicate Matches(t: Table, search: string, r: Row)
  {
    r.id in t && r == RowOf(r.id, t[r.id]) && Text.MatchesIgnoringCase(r.title, search)
  }

  /** The ids of a listing. */
  function Ids(rs: seq<Row>): set<int>
  {
    set r | r in rs :: r.id
  }

  lemma RowsForOfAscending(t: Table, search: string)
    ensures var rs := RowsFor(t, Ascending(Selected(t, search)));
            && (forall r :: r in rs <==> Matches(t, search, r))
            && DistinctIds(rs)
            && |rs| == |Selected(t, search)|
  {
    var ids := Ascending(Selected(t, search));
    var rs := RowsFor(t, ids);
    forall r ensures r in rs <==> Matches(t, search, r) {
      if r in rs {
        var i :| 0 <= i < |rs| && rs[i] == r;
        assert ids[i] in ids;
      }
      if Matches(t, search, r) {
        assert r.id in ids;
        var i :| 0 <= i < |ids| && ids[i] == r.id;
        assert rs[i] == r;
      }
    }
  }

  /** The listing holds exactly the stored rows whose title contains the
      search text, each once; for an empty search, every row of the table. */
  lemma GetNotesRows(t: Table, search: string)
    ensures forall r :: r in GetNotes(t, search) <==> Matches(t, search, r)
    ensures DistinctIds(GetNotes(t, search))
    ensures |GetNotes(t, search)| == |Selected(t, search)|
    ensures search == "" ==> |GetNotes(t, search)| == |t|
  {
    var rs := RowsFor(t, Ascending(Selected(t, search)));
    var out := SortNewestFirst(rs);
    RowsForOfAscending(t, search);
    forall r ensures r in out <==> r in rs {
      assert r in out <==> r in multiset(out);
      assert r in rs <==> r in multiset(rs);
    }
    SortKeepsDistinct(rs);
    assert |out| == |multiset(out)| == |multiset(rs)| == |rs|;
    if search == "" {
      assert Selected(t, search) == t.Keys;
    }
  }

  lemma {:induction false} ListingIds(t: Table, search: string, rs: seq<Row>)
    requires forall r :: r in rs <==> Matches(t, search, r)
    ensures Ids(rs) == Selected(t, search)
  {
    forall k | k in Selected(t, search) ensures k in Ids(rs) {
      assert RowOf(k, t[k]) in rs;
    }
  }

  /** The ids listed are exactly the ids the WHERE clause keeps. */
  lemma GetNotesIds(t: Table, search: string)
    ensures Ids(GetNotes(t, search)) == Selected(t, search)
  {
    GetNotesRows(t, search);
    ListingIds(t, search, GetNotes(t, search));
  }

  /** Changing a note's content never changes which notes a search lists. */
  lemma SearchIgnoresContent(t: Table, id: int, content: string, search: string)
    requires id in t
    ensures Ids(GetNotes(t[id := t[id].(content := content)], search)) == Ids(GetNotes(t, search))
  {
    var t' := t[id := t[id].(content := content)];
    GetNotesIds(t, search);
    GetNotesIds(t', search);
    assert Selected(t', search) == Selected(t, search);
  }

  // The worked example of the listing: two notes, a title search, a delete.

  const Groceries := Note("Groceries", "Milk, eggs", "2024-01-01 10:00:00")
  const Work := Note("Work", "Finish report", "2024-01-02 09:00:00")
  const ExampleTable: Table := map[1 := Groceries, 2 := Work]

  lemma WorkIsLater()
    ensures !Text.LexLeq(Work.date, Groceries.date)
  {
    assert Work.date == "2024-01-0" + "2 09:00:00";
    assert Groceries.date == "2024-01-0" + "1 10:00:00";
    Text.LexLeqCommonPrefix("2024-01-0", "2 09:00:00", "1 10:00:00");
  }

  lemma OnlyWorkTitleHoldsWork()
    ensures Text.MatchesIgnoringCase(Work.title, "Work")
    ensures !Text.MatchesIgnoringCase(Groceries.title, "Work")
  {
    Text.MatchesItself(Work.title);
    assert 'W' !in Groceries.title && 'w' !in Groceries.title;
    Text.LacksLetter(Groceries.title, 'w');
    Text.NoMatchWithoutFirstChar(Groceries.title, "Work");
  }

  /** A listing of a two-note table, ordered newest first, starts with the later note. */
  lemma TwoRowsNewestFirst(t: Table, older: int, newer: int, all: seq<Row>)
    requires t.Keys == {older, newer} && older != newer
    requires !Text.LexLeq(t[newer].date, t[older].date)
    requires forall r :: r in all <==> Matches(t, "", r)
    requires |all| == 2 && DistinctIds(all) && NewestFirst(all)
    ensures all == [RowOf(newer, t[newer]), RowOf(older, t[older])]
  {
    var x, y := all[0], all[1];
    assert Matches(t, "", x) && Matches(t, "", y);
    assert Text.LexLeq(y.date, x.date);
    assert x.id == newer && y.id == older;
    assert all == [x, y];
  }

  /** A table of two notes lists the later-dated one first. */
  lemma TwoNotesNewestFirst(t: Table, older: int, newer: int)
    requires t.Keys == {older, newer} && older != newer
    requires !Text.LexLeq(t[newer].date, t[older].date)
    ensures GetNotes(t, "") == [RowOf(newer, t[newer]), RowOf(older, t[older])]
  {
    GetNotesRows(t, "");
    GetNotesNewestFirst(t, "");
    TwoRowsNewestFirst(t, older, newer, GetNotes(t, ""));
  }

  /** Both notes come back, the later-saved one first. */
  lemma ExampleListsNewestFirst()
    ensures GetNotes(ExampleTable, "") == [RowOf(2, Work), RowOf(1, Groceries)]
  {
    WorkIsLater();
    TwoNotesNewestFirst(ExampleTable, 1, 2);
  }

  /** A search that keeps a single id lists that one row. */
  lemma SingleMatchListing(t: Table, search: string, k: int)
    requires Selected(t, search) == {k}
    ensures GetNotes(t, search) == [RowOf(k, t[k])]
  {
    var found := GetNotes(t, search);
    GetNotesRows(t, search);
    assert |found| == 1;
    assert Matches(t, search, found[0]);
  }

  /** A title search finds only the note whose title holds the text. */
  lemma ExampleSearchesTitles()
    ensures GetNotes(ExampleTable, "Work") == [RowOf(2, Work)]
  {
    OnlyWorkTitleHoldsWork();
    SingleTitleMatches(ExampleTable, "Work", 2);
    SingleMatchListing(ExampleTable, "Work", 2);
  }

  /** When only the title stored under `k` matches, the search keeps only `k`. */
  lemma SingleTitleMatches(t: Table, search: string, k: int)
    requires k in t && Text.MatchesIgnoringCase(t[k].title, search)
    requires forall j :: j in t && j != k ==> !Text.MatchesIgnoringCase(t[j].title, search)
    ensures Selected(t, search) == {k}
  {
    forall j ensures j in Selected(t, search) <==> j == k {
    }
  }

  /** After deleting the later note only the earlier one is listed. */
  lemma ExampleDeleteThenList()
    ensures GetNotes(ExampleTable - {2}, "") == [RowOf(1, Groceries)]
  {
    var t := ExampleTable - {2};
    assert Selected(t, "") == {1};
    SingleMatchListing(t, "", 1);
  }

  // ---------------------------------------------------------------------------
  // DatabaseManager

  class Store {
    /** The rows of `notes`, keyed by id. */
    var rows: Table
    /** The id the next insert receives: one past the largest id ever issued. */
    var nextId: int
    /** Every id ever handed out, including those of deleted notes. */
    ghost var issued: set<int>

    ghost predicate Valid()
      reads this
    {
      && 1 <= nextId
      && rows.Keys <= issued
      && forall id :: id in issued ==> 1 <= id < nextId
    }

    /** Opens a database file that does not exist yet: the table is empty. */
    constructor ()
      ensures Valid()
      ensures rows == map[] && issued == {} && nextId == 1
    {
      rows := map[];
      nextId := 1;
      issued := {};
    }

    /** `INSERT INTO notes ...` returning `lastrowid`. */
    method AddNote(title: string, content: string, date: string) returns (id: int)
      requires Valid()
      modifies this
      ensures Valid()
      ensures id !in old(issued) && id !in old(rows) && 1 <= id
      ensures id == old(nextId) && nextId == old(nextId) + 1
      ensures issued == old(issued) + {id}
      ensures rows == old(rows)[id := Note(title, content, date)]
      ensures |rows| == |old(rows)| + 1
      ensures GetNoteById(rows, id) == Some(Row(id, title, content, date))
    {
      id := nextId;
      rows := rows[id := Note(title, content, date)];
      nextId := nextId + 1;
      issued := issued + {id};
    }

    /** `UPDATE notes SET title, content, date WHERE id = ?`: silently does
        nothing when no row has that id. */
    method UpdateNote(noteId: int, title: string, content: string, date: string)
      requires Valid()
      modifies this
      ensures Valid()
      ensures nextId == old(nextId) && issued == old(issued)
      ensures rows.Keys == old(rows).Keys
      ensures noteId in old(rows) ==> rows == old(rows)[noteId := Note(title, content, date)]
      ensures noteId in old(rows) ==> GetNoteById(rows, noteId) == Some(Row(noteId, title, content, date))
      ensures noteId !in old(rows) ==> rows == old(rows)
    {
      if noteId in rows {
        rows := rows[noteId := Note(title, content, date)];
      }
    }

    /** `DELETE FROM notes WHERE id = ?`: silently does nothing when no row
        has that id. The id stays issued and is never handed out again. */
    method DeleteNote(noteId: int)
      requires Valid()
      modifies this
      ensures Valid()
      ensures nextId == old(nextId) && issued == old(issued)
      ensures rows == old(rows) - {noteId}
      ensures GetNoteById(rows, noteId) == None
      ensures noteId !in old(rows) ==> rows == old(rows)
    {
      rows := rows - {noteId};
    }
  }

  /** The worked example run through the store itself: a fresh database, two
      inserts, the full listing, a title search, a delete and the listing again. */
  method ExampleSession() returns (listed: seq<Row>, found: seq<Row>, remaining: seq<Row>)
    ensures listed == [RowOf(2, Work), RowOf(1, Groceries)]
    ensures found == [RowOf(2, Work)]
    ensures remaining == [RowOf(1, Groceries)]
  {
    var store := new Store();
    var g := store.AddNote(Groceries.title, Groceries.content, Groceries.date);
    var w := store.AddNote(Work.title, Work.content, Work.date);
    assert g == 1 && w == 2;
    assert store.rows == ExampleTable;
    ExampleListsNewestFirst();
    ExampleSearchesTitles();
    listed := GetNotes(store.rows, "");
    found := GetNotes(store.rows, "Work");
    store.DeleteNote(w);
    assert store.rows == ExampleTable - {2};
    ExampleDeleteThenList();
    remaining := GetNotes(store.rows, "");
  }
}
