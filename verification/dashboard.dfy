/**
 The admin table as a state machine.  Every handler of the dashboard hands React
 an updater `prev => next`; here each one is a pure function from the whole
 table state to the next.  The filtered list is derived from the rows and the
 search term rather than stored, and the rows on screen are derived from that.
 */
module Dashboard {
  import Seqs
  import Paging
  import Selection
  import opened Users
  import Text

  datatype State = State(users: seq<User>, selectedRows: seq<int>, currentPage: int, searchTerm: string)

  /** The state before the member list arrives: no rows, no selection, page 1, no search. */
  function Initial(): State
  {
    State([], [], 1, "")
  }

  /** Before the list arrives the table is empty and page 1 already lies beyond the
      last page, which is 0. */
  lemma InitialState()
    ensures Filtered(Initial()) == [] && LastPage(Initial()) == 0
    ensures !PageInRange(Initial())
    ensures DisplayedRows(Initial()) == [] && PageIds(Initial()) == []
  {
  }

  /** Only the row list may differ between `s` and `r`. */
  predicate OnlyUsersChange(s: State, r: State)
  {
    r.selectedRows == s.selectedRows && r.currentPage == s.currentPage && r.searchTerm == s.searchTerm
  }

  /** Only the current page may differ between `s` and `r`. */
  predicate OnlyPageChanges(s: State, r: State)
  {
    r.users == s.users && r.selectedRows == s.selectedRows && r.searchTerm == s.searchTerm
  }

  // ---------------------------------------------------------------------------
  // Search

  /** `filteredUsers`: the rows matching the search term, in their original order. */
  function Filtered(s: State): (r: seq<User>)
    ensures forall k :: 0 <= k < |r| ==> r[k] in s.users && Matches(r[k], s.searchTerm)
    ensures forall k :: 0 <= k < |s.users| ==> (s.users[k] in r <==> Matches(s.users[k], s.searchTerm))
    ensures Seqs.IsSubsequence(r, s.users)
  {
    Seqs.FilterIsSubsequence(s.users, u => Matches(u, s.searchTerm));
    Seqs.Filter(s.users, u => Matches(u, s.searchTerm))
  }

  /** A matching row is kept with all its copies, a non-matching one with none; with
      the subsequence property this fixes `filteredUsers` completely. */
  lemma FilteredCounts(s: State, u: User)
    ensures multiset(Filtered(s))[u] == if Matches(u, s.searchTerm) then multiset(s.users)[u] else 0
  {
    Seqs.FilterMultiset(s.users, u => Matches(u, s.searchTerm), u);
  }

  /** With no search term nothing is filtered out. */
  lemma FilteredEmptyTerm(s: State)
    requires s.searchTerm == ""
    ensures Filtered(s) == s.users
  {
    forall k | 0 <= k < |s.users|
      ensures Matches(s.users[k], s.searchTerm)
    {
      MatchesEmpty(s.users[k]);
    }
    Seqs.FilterKeepsAll(s.users, u => Matches(u, s.searchTerm));
  }

  /** `handleSearch`: the term is replaced; the current page is not reset. */
  function SetSearchTerm(s: State, term: string): (r: State)
    ensures r.searchTerm == term
    ensures r.users == s.users && r.selectedRows == s.selectedRows && r.currentPage == s.currentPage
  {
    s.(searchTerm := term)
  }

  // ---------------------------------------------------------------------------
  // Rows on screen

  /** The rows of the current page: of all rows when the term is empty, of the
      filtered rows otherwise. */
  function DisplayedRows(s: State): (r: seq<User>)
    ensures |r| <= Paging.RowsPerPage
    ensures forall k :: 0 <= k < |r| ==> r[k] in s.users && Matches(r[k], s.searchTerm)
  {
    if s.searchTerm == "" then
      FilteredEmptyTerm(s);
      Paging.PageSlice(s.users, s.currentPage)
    else
      Paging.PageSlice(Filtered(s), s.currentPage)
  }

  /** Both branches of the display are the current page of the filtered rows. */
  lemma DisplayedRowsArePageOfFiltered(s: State)
    ensures DisplayedRows(s) == Paging.PageSlice(Filtered(s), s.currentPage)
  {
    if s.searchTerm == "" {
      FilteredEmptyTerm(s);
    }
  }

  // ---------------------------------------------------------------------------
  // Editing

  /** `handleEdit`: the rows with this id enter edit mode; nothing else changes. */
  function Edit(s: State, id: int): (r: State)
    ensures OnlyUsersChange(s, r) && |r.users| == |s.users|
    ensures forall i :: 0 <= i < |r.users| ==> r.users[i].id == s.users[i].id && SameCells(r.users[i], s.users[i])
    ensures forall i :: 0 <= i < |r.users| && s.users[i].id == id ==> r.users[i].isEditing
    ensures forall i :: 0 <= i < |r.users| && s.users[i].id != id ==> r.users[i] == s.users[i]
  {
    s.(users := SetEditing(s.users, id, true))
  }

  /** `handleSave`: the rows with this id leave edit mode; nothing else changes. */
  function Save(s: State, id: int): (r: State)
    ensures OnlyUsersChange(s, r) && |r.users| == |s.users|
    ensures forall i :: 0 <= i < |r.users| ==> r.users[i].id == s.users[i].id && SameCells(r.users[i], s.users[i])
    ensures forall i :: 0 <= i < |r.users| && s.users[i].id == id ==> !r.users[i].isEditing
    ensures forall i :: 0 <= i < |r.users| && s.users[i].id != id ==> r.users[i] == s.users[i]
  {
    s.(users := SetEditing(s.users, id, false))
  }

  /** The Cancel button, which is wired to `handleEdit`: the row stays in edit mode. */
  function Cancel(s: State, id: int): (r: State)
    ensures OnlyUsersChange(s, r) && |r.users| == |s.users|
    ensures forall i :: 0 <= i < |r.users| ==> r.users[i].id == s.users[i].id && SameCells(r.users[i], s.users[i])
    ensures forall i :: 0 <= i < |r.users| && s.users[i].id == id ==> r.users[i].isEditing
    ensures forall i :: 0 <= i < |r.users| && s.users[i].id != id ==> r.users[i] == s.users[i]
  {
    Edit(s, id)
  }

  /** Saving after editing returns to the original state when the row was not being edited. */
  lemma SaveUndoesEdit(s: State, id: int)
    requires forall i :: 0 <= i < |s.users| && s.users[i].id == id ==> !s.users[i].isEditing
    ensures Save(Edit(s, id), id) == s
  {
    Users.SaveUndoesEdit(s.users, id);
  }

  /** `handleCellValueChange`: column `f` of the rows with this id becomes `v`; every other
      row and every other column stays. */
  function ChangeCell(s: State, id: int, f: Field, v: string): (r: State)
    ensures OnlyUsersChange(s, r) && |r.users| == |s.users|
    ensures forall i :: 0 <= i < |r.users| ==> r.users[i].id == s.users[i].id && r.users[i].isEditing == s.users[i].isEditing
    ensures forall i :: 0 <= i < |r.users| && s.users[i].id == id ==> Get(r.users[i], f) == v
    ensures forall i, g :: 0 <= i < |r.users| && g != f ==> Get(r.users[i], g) == Get(s.users[i], g)
    ensures forall i :: 0 <= i < |r.users| && s.users[i].id != id ==> r.users[i] == s.users[i]
  {
    s.(users := SetCell(s.users, id, f, v))
  }

  /** Cancel does not roll back: a value typed while editing survives Cancel, and the
      row is still in edit mode. */
  lemma CancelKeepsTypedValue(s: State, id: int, f: Field, v: string)
    ensures var r := Cancel(ChangeCell(Edit(s, id), id, f, v), id);
            forall i :: 0 <= i < |r.users| && s.users[i].id == id ==> Get(r.users[i], f) == v && r.users[i].isEditing
  {
  }

  // ---------------------------------------------------------------------------
  // Deleting

  /** `handleDelete`: every row with this id goes, the others stay in order; the
      selection is left as it was. */
  function Delete(s: State, id: int): (r: State)
    ensures OnlyUsersChange(s, r)
    ensures forall k :: 0 <= k < |r.users| ==> r.users[k].id != id && r.users[k] in s.users
    ensures forall k :: 0 <= k < |s.users| && s.users[k].id != id ==> s.users[k] in r.users
    ensures Seqs.IsSubsequence(r.users, s.users)
  {
    Seqs.FilterIsSubsequence(s.users, (u: User) => u.id != id);
    s.(users := Seqs.Filter(s.users, (u: User) => u.id != id))
  }

  /** A row without the id survives deletion with all its copies. */
  lemma DeleteCounts(s: State, id: int, u: User)
    ensures multiset(Delete(s, id).users)[u] == if u.id != id then multiset(s.users)[u] else 0
  {
    Seqs.FilterMultiset(s.users, (u: User) => u.id != id, u);
  }

  /** Deleting the same id twice is the same as deleting it once. */
  lemma DeleteIdempotent(s: State, id: int)
    ensures Delete(Delete(s, id), id) == Delete(s, id)
  {
    Seqs.FilterIdempotent(s.users, (u: User) => u.id != id);
  }

  /** A deleted row that was selected stays in the selection, which then names an id
      no row has. */
  lemma DeleteLeavesSelection(s: State, id: int)
    requires id in s.selectedRows
    ensures id in Delete(s, id).selectedRows
    ensures id !in Ids(Delete(s, id).users)
  {
  }

  /** `handleDeleteSelected`: every row whose id is selected goes, the others stay in
      order, and the selection is emptied. */
  function DeleteSelected(s: State): (r: State)
    ensures r.selectedRows == [] && r.currentPage == s.currentPage && r.searchTerm == s.searchTerm
    ensures forall k :: 0 <= k < |r.users| ==> r.users[k].id !in s.selectedRows && r.users[k] in s.users
    ensures forall k :: 0 <= k < |s.users| && s.users[k].id !in s.selectedRows ==> s.users[k] in r.users
    ensures Seqs.IsSubsequence(r.users, s.users)
  {
    Seqs.FilterIsSubsequence(s.users, (u: User) => u.id !in s.selectedRows);
    s.(users := Seqs.Filter(s.users, (u: User) => u.id !in s.selectedRows), selectedRows := [])
  }

  /** A row whose id was not selected survives bulk deletion with all its copies. */
  lemma DeleteSelectedCounts(s: State, u: User)
    ensures multiset(DeleteSelected(s).users)[u] == if u.id !in s.selectedRows then multiset(s.users)[u] else 0
  {
    Seqs.FilterMultiset(s.users, (u: User) => u.id !in s.selectedRows, u);
  }

  // ---------------------------------------------------------------------------
  // Selecting

  /** `handleSelectRow`: flips whether `id` is selected, removing every copy of it when
      it was; no other id's membership changes. */
  function SelectRow(s: State, id: int): (r: State)
    ensures r.users == s.users && r.currentPage == s.currentPage && r.searchTerm == s.searchTerm
    ensures id in r.selectedRows <==> id !in s.selectedRows
    ensures forall x :: x != id ==> (x in r.selectedRows <==> x in s.selectedRows)
  {
    var sel := Selection.ToggleRow(s.selectedRows, id);
    forall x | x != id
      ensures x in sel <==> x in s.selectedRows
    {
      if x in s.selectedRows {
        var k :| 0 <= k < |s.selectedRows| && s.selectedRows[k] == x;
      }
      if x in sel {
        var k :| 0 <= k < |sel| && sel[k] == x;
      }
    }
    s.(selectedRows := sel)
  }

  /** Clicking the same row's checkbox twice restores which ids are selected. */
  lemma SelectRowTwice(s: State, id: int, x: int)
    ensures x in SelectRow(SelectRow(s, id), id).selectedRows <==> x in s.selectedRows
  {
  }

  /** The ids of the current page, taken from all rows, not from the filtered ones. */
  function PageIds(s: State): (r: seq<int>)
    ensures |r| <= Paging.RowsPerPage
    ensures forall k :: 0 <= k < |r| ==> r[k] in Ids(s.users)
    ensures s.currentPage >= 1 ==>
      var n := |s.users|;
      r == Ids(s.users)[Paging.Min((s.currentPage - 1) * Paging.RowsPerPage, n)..Paging.Min(s.currentPage * Paging.RowsPerPage, n)]
    ensures s.currentPage == 0 ==> r == []
  {
    var page := Paging.PageSlice(s.users, s.currentPage);
    var r := Ids(page);
    forall k | 0 <= k < |r|
      ensures r[k] in Ids(s.users)
    {
      var j :| 0 <= j < |s.users| && s.users[j] == page[k];
      assert Ids(s.users)[j] == r[k];
    }
    r
  }

  /** `handleSelectAll`: when the selection is exactly as long as the page's id list it is
      cleared, otherwise the page's ids are appended to it. */
  function SelectAll(s: State): (r: State)
    ensures r.users == s.users && r.currentPage == s.currentPage && r.searchTerm == s.searchTerm
    ensures |s.selectedRows| == |PageIds(s)| ==> r.selectedRows == []
    ensures |s.selectedRows| != |PageIds(s)| ==>
      && |r.selectedRows| == |s.selectedRows| + |PageIds(s)|
      && r.selectedRows[..|s.selectedRows|] == s.selectedRows
      && r.selectedRows[|s.selectedRows|..] == PageIds(s)
  {
    s.(selectedRows := Selection.SelectAll(s.selectedRows, PageIds(s)))
  }

  /** From an empty selection on a non-empty page, select-all selects the page and a
      second select-all clears the selection. */
  lemma SelectAllTwice(s: State)
    requires s.selectedRows == [] && |PageIds(s)| > 0
    ensures SelectAll(s).selectedRows == PageIds(s)
    ensures SelectAll(SelectAll(s)).selectedRows == []
  {
    assert PageIds(SelectAll(s)) == PageIds(s);
  }

  /** The search term plays no part in select-all: it may select rows the filter hides. */
  lemma SelectAllIgnoresSearch(s: State, term: string)
    ensures SelectAll(SetSearchTerm(s, term)).selectedRows == SelectAll(s).selectedRows
  {
    assert PageIds(SetSearchTerm(s, term)) == PageIds(s);
  }

  // ---------------------------------------------------------------------------
  // Paging

  /** `Math.ceil(filteredUsers.length / 10)`. */
  function LastPage(s: State): (n: nat)
    ensures n * Paging.RowsPerPage >= |Filtered(s)|
    ensures n > 0 ==> (n - 1) * Paging.RowsPerPage < |Filtered(s)|
  {
    Paging.PageCount(|Filtered(s)|)
  }

  /** `goToPage`; the First button calls it with page 1. */
  function GoToPage(s: State, page: int): (r: State)
    ensures OnlyPageChanges(s, r) && r.currentPage == page
  {
    s.(currentPage := page)
  }

  /** `goToPreviousPage`: one page back, never below page 1. */
  function GoToPrevious(s: State): (r: State)
    ensures OnlyPageChanges(s, r)
    ensures r.currentPage >= 1
    ensures s.currentPage > 1 ==> r.currentPage == s.currentPage - 1
    ensures s.currentPage <= 1 ==> r.currentPage == 1
  {
    s.(currentPage := Paging.PreviousPage(s.currentPage))
  }

  /** `goToNextPage`: one page forward, never beyond the last page of the filtered rows. */
  function GoToNext(s: State): (r: State)
    ensures OnlyPageChanges(s, r)
    ensures r.currentPage <= LastPage(s)
    ensures s.currentPage < LastPage(s) ==> r.currentPage == s.currentPage + 1
    ensures s.currentPage >= LastPage(s) ==> r.currentPage == LastPage(s)
  {
    s.(currentPage := Paging.NextPage(s.currentPage, |Filtered(s)|))
  }

  /** `goToLastPage`: to the last page of the filtered rows. */
  function GoToLast(s: State): (r: State)
    ensures OnlyPageChanges(s, r)
    ensures r.currentPage == LastPage(s)
  {
    s.(currentPage := LastPage(s))
  }

  /** The page is one of the filtered list's pages. */
  predicate PageInRange(s: State)
  {
    1 <= s.currentPage <= LastPage(s)
  }

  /** Previous and next keep the page in range; last brings it in range whenever
      some row matches. */
  lemma PagingKeepsPageInRange(s: State)
    ensures PageInRange(s) ==> PageInRange(GoToPrevious(s)) && PageInRange(GoToNext(s))
    ensures |Filtered(s)| > 0 ==> PageInRange(GoToLast(s))
  {
  }

  /** The last page is never blank when some row matches. */
  lemma LastPageShowsRows(s: State)
    requires |Filtered(s)| > 0
    ensures 0 < |DisplayedRows(GoToLast(s))| <= Paging.RowsPerPage
  {
  }

  /** When nothing matches, last and next lead to page 0, which shows no rows. */
  lemma EmptyFilterGivesPageZero(s: State)
    requires |Filtered(s)| == 0
    ensures GoToLast(s).currentPage == 0
    ensures DisplayedRows(GoToLast(s)) == []
    ensures s.currentPage >= 0 ==> GoToNext(s).currentPage == 0
  {
  }

  /** Because the search does not reset the page, a term that leaves too few rows for
      the current page strands it: the page is out of range and shows nothing. */
  lemma SearchCanStrandPage(s: State, term: string)
    requires |Filtered(SetSearchTerm(s, term))| <= (s.currentPage - 1) * Paging.RowsPerPage
    ensures SetSearchTerm(s, term).currentPage == s.currentPage
    ensures !PageInRange(SetSearchTerm(s, term))
    ensures DisplayedRows(SetSearchTerm(s, term)) == []
  {
    DisplayedRowsArePageOfFiltered(SetSearchTerm(s, term));
  }

  /** With 25 rows and no search, Last goes to page 3, which shows exactly 5 rows. */
  lemma TwentyFiveRowsLastPage(s: State)
    requires |s.users| == 25 && s.searchTerm == ""
    ensures GoToLast(s).currentPage == 3
    ensures |DisplayedRows(GoToLast(s))| == 5
  {
    FilteredEmptyTerm(s);
    Paging.TwentyFiveRows(s.users);
  }

  // ---------------------------------------------------------------------------
  // Worked scenarios

  const Ann := User(1, "Ann", "ann@mail.com", "admin", false)
  const Bob := User(2, "Bob", "bob@mail.com", "member", false)

  /** Ann's name includes "an" once lower-cased. */
  lemma AnnMatches()
    ensures Matches(Ann, "an")
  {
    assert Text.OccursAt(Text.ToLower(Ann.name), "an", 0);
  }

  /** None of Bob's columns includes "an", whatever the case. */
  lemma BobDoesNotMatch()
    ensures !Matches(Bob, "an")
  {
    NoMatchInColumn(Bob.name, 'n');
    NoMatchInColumn(Bob.email, 'n');
    NoMatchInColumn(Bob.role, 'a');
  }

  lemma NoMatchInColumn(col: string, c: char)
    requires c == 'a' || c == 'n'
    requires c !in col && (c as int - ('a' as int - 'A' as int)) as char !in col
    ensures !Text.Contains(Text.ToLower(col), Text.ToLower("an"))
  {
    Text.LowerCaseOrigin(col, c);
    assert Text.ToLower("an") == "an";
    Text.MissingCharNotContained(Text.ToLower(col), "an", c);
  }

  /** Searching "an" keeps Ann (her name matches regardless of case) and drops Bob;
      clearing the search brings every row back. */
  lemma SearchScenario()
    ensures Filtered(State([Ann, Bob], [], 1, "an")) == [Ann]
    ensures Filtered(SetSearchTerm(State([Ann, Bob], [], 1, "an"), "")) == [Ann, Bob]
  {
    var s := State([Ann, Bob], [], 1, "an");
    var keep := (u: User) => Matches(u, "an");
    AnnMatches();
    BobDoesNotMatch();
    assert [Ann, Bob][1..] == [Bob];
    assert Seqs.Filter([Bob], keep) == [];
    assert Seqs.Filter([Ann, Bob], keep) == [Ann];
    FilteredEmptyTerm(SetSearchTerm(s, ""));
  }
}
