# Admin dashboard table — a Dafny model

This project models the table logic of the `AdminDashboard` React component of
the datagrid admin UI. The component holds a list of member records
(`users`), a list of selected row ids (`selectedRows`), the current page
(`currentPage`) and the search text (`searchTerm`). Every click or keystroke
handler gives React an updater `prev => next`. Here each handler is a pure
transition on an immutable `Dashboard.State`.

Module layout:

- `Seqs` (seqs.dfy): `Array.prototype.filter` as `Filter`, and order-preserving subsequences.
- `Text` (text.dfy): `toLowerCase`, restricted to ASCII, and `String.prototype.includes` as `Contains`.
- `Users` (users.dfy): the row record, the `Name | Email | Role` column key, the row-wise edit-mode and cell updates, and the search predicate `Matches`.
- `Paging` (paging.dfy): ten rows per page, `Math.ceil(n / 10)`, JavaScript `slice` with its negative-index rules, and previous/next page arithmetic.
- `Selection` (selection.dfy): the row checkbox and the header "select all" checkbox, as operations on the id list.
- `Dashboard` (dashboard.dfy): the state, the derived `filteredUsers`, the rows on screen, and one transition per handler.

The model follows the code as written, quirks included:

- Cancel is wired to `handleEdit`, so the row stays in edit mode. Typed values are kept, because they were applied on each keystroke.
- Select-all takes the page's ids from the unfiltered `users`. It decides between "clear" and "append" by comparing only list lengths.
- The selection is a list of ids, not a set: it can hold duplicates, and deleting one row does not remove its id from it.
- "Next" and "Last" go to page 0 when no row matches the search: the last page is `Math.ceil(filteredUsers.length / 10)`, which is 0 for an empty list.
- Typing a search term does not reset the page.

## Model

| member | source | states |
|---|---|---|
| Seqs.Filter | src/components/AdminDashboard.js:20-25 | the result holds exactly the input's elements that satisfy the predicate, and is no longer than the input |
| Seqs.FilterIsSubsequence | src/components/AdminDashboard.js:48 | a filter keeps its survivors in their original relative order |
| Seqs.FilterIdempotent | src/components/AdminDashboard.js:48 | filtering twice with the same predicate equals filtering once |
| Seqs.FilterKeepsAll | src/components/AdminDashboard.js:20-25 | a predicate every element satisfies returns the whole list |
| Seqs.FilterMultiset | src/components/AdminDashboard.js:127 | a kept value keeps every copy, and a dropped value loses every copy |
| Text.Lower | src/components/AdminDashboard.js:22 | lower-casing maps A–Z to a–z, leaves every other character alone, and never yields a capital |
| Text.Contains | src/components/AdminDashboard.js:22-24 | `includes` is true exactly when the needle occurs at some position of the string |
| Text.ToLower | src/components/AdminDashboard.js:22-24 | `toLowerCase`, restricted to ASCII: keeps the length, lower-cases each character in place, and leaves no ASCII capital |
| Text.ToLowerIdempotent | src/components/AdminDashboard.js:22-24 | lower-casing twice is the same as lower-casing once |
| Text.ContainsEmpty | src/components/AdminDashboard.js:22-24 | every string includes the empty string |
| Text.MissingCharNotContained | src/components/AdminDashboard.js:22-24 | a needle containing a character the string lacks is not included |
| Text.LowerCaseOrigin | src/components/AdminDashboard.js:22-24 | a small letter appears in a lower-cased string only if it or its capital was in the original |
| Users.Ids | src/components/AdminDashboard.js:61 | `.map((user) => user.id)` gives one id per row, in row order |
| Users.Set | src/components/AdminDashboard.js:76 | `{ ...user, [field]: value }` sets that column to the value and leaves the id, the edit flag and the other columns alone |
| Users.SetEditing | src/components/AdminDashboard.js:31-45 | rows with the id get the edit flag; all other rows, and the ids and columns of the touched rows, are unchanged; length is kept |
| Users.SetCell | src/components/AdminDashboard.js:73-79 | rows with the id get the new value in that column only; every other row and column is unchanged; length is kept |
| Users.SaveUndoesEdit | src/components/AdminDashboard.js:31-45 | save after edit restores the rows when those rows were not being edited |
| Users.SetCellUndo | src/components/AdminDashboard.js:73-79 | writing back the previous value of a cell restores the rows |
| Users.Matches | src/components/AdminDashboard.js:21-24 | a row matches exactly when some column (name, email or role), lower-cased, includes the lower-cased term |
| Users.MatchesEmpty | src/components/AdminDashboard.js:19-27 | every row matches the empty search term |
| Users.MatchesIgnoresTermCase | src/components/AdminDashboard.js:22-24 | terms equal up to ASCII case match the same rows |
| Users.MatchesIgnoresCellCase | src/components/AdminDashboard.js:22-24 | rows whose columns are equal up to ASCII case match the same terms |
| Users.MatchesSubstring | src/components/AdminDashboard.js:22-24 | a row with a column that contains the term verbatim matches it |
| Paging.PageCount | src/components/AdminDashboard.js:147 | `Math.ceil(n / 10)` is the fewest pages of ten that hold n rows; it is 0 only for 0 rows |
| Paging.SliceBound | src/components/AdminDashboard.js:184 | a `slice` bound counts back from the end when negative and is clamped to the list |
| Paging.Slice | src/components/AdminDashboard.js:184 | `slice(start, end)` is the contiguous block between the resolved bounds, and empty when they cross; it never has more than end − start elements |
| Paging.PageSlice | src/components/AdminDashboard.js:182-190 | a page has at most 10 rows, all from the list; page p ≥ 1 is rows (p−1)·10 up to p·10, cut at the end; page 0 is empty; every page up to the last has a row |
| Paging.PreviousPage | src/components/AdminDashboard.js:138-140 | previous is never below 1; it steps back by one from page 2 on |
| Paging.NextPage | src/components/AdminDashboard.js:142-144 | next is never beyond `ceil(n/10)`; it steps forward by one below that page and lands on it otherwise |
| Paging.PreviousUndoesNext | src/components/AdminDashboard.js:138-144 | below the last page, previous after next returns to the same page |
| Paging.NextUndoesPrevious | src/components/AdminDashboard.js:138-144 | above page 1, next after previous returns to the same page |
| Paging.StepsStayInRange | src/components/AdminDashboard.js:138-144 | from a page in 1..last, previous and next stay in 1..last |
| Paging.PagesArePrefix | src/components/AdminDashboard.js:182-190 | pages 1..k laid end to end are the first k·10 rows |
| Paging.PagesCoverList | src/components/AdminDashboard.js:182-190 | pages 1..last laid end to end are the whole list, with nothing lost or repeated |
| Paging.TwentyFiveRows | src/components/AdminDashboard.js:182-190 | 25 rows make 3 pages, and the third holds 5 rows |
| Selection.ToggleRow | src/components/AdminDashboard.js:124-132 | the id's membership flips; no other id's membership changes; on removal every copy goes and the rest keep their order; on addition the id is appended |
| Selection.MultisetOfRemoval | src/components/AdminDashboard.js:127 | removing an id removes all its copies and keeps every other id's count |
| Selection.ToggleRowTwice | src/components/AdminDashboard.js:124-132 | toggling twice restores which ids are selected |
| Selection.ToggleRowTwiceMayReorder | src/components/AdminDashboard.js:124-132 | toggling twice need not restore the order: [1, 2] becomes [2, 1] |
| Selection.SelectAll | src/components/AdminDashboard.js:63-71 | equal lengths clear the selection; otherwise the page ids are appended, so the lengths and contents add up |
| Selection.SelectAllTwiceClears | src/components/AdminDashboard.js:63-71 | from an empty selection, one click selects a non-empty page and a second click clears it |
| Selection.SelectAllComparesOnlyLengths | src/components/AdminDashboard.js:64-66 | a selection of another row with the page's length is cleared although none of the page was selected |
| Selection.SelectAllDuplicates | src/components/AdminDashboard.js:69 | an id already selected that is also on the page ends up selected twice |
| Dashboard.Filtered | src/components/AdminDashboard.js:19-27 | `filteredUsers` is an order-preserving subsequence of `users`; a row is in it exactly when it matches the term |
| Dashboard.FilteredCounts | src/components/AdminDashboard.js:20-25 | a matching row is kept with every copy and a non-matching one with none, which with the subsequence property fixes `filteredUsers` |
| Dashboard.FilteredEmptyTerm | src/components/AdminDashboard.js:19-27 | with an empty term `filteredUsers` equals `users` |
| Dashboard.SearchScenario | src/components/AdminDashboard.js:19-27 | for rows Ann and Bob, the term "an" keeps only Ann, and clearing the term brings both back |
| Dashboard.InitialState | src/components/AdminDashboard.js:7-11 | the initial state has no rows, shows nothing, and its page 1 lies beyond the last page, which is 0 |
| Dashboard.SetSearchTerm | src/components/AdminDashboard.js:81-83 | the term is replaced, and rows, selection and page are unchanged |
| Dashboard.SearchCanStrandPage | src/components/AdminDashboard.js:81-83 | a term leaving too few rows for the current page leaves that page out of range and blank |
| Dashboard.DisplayedRows | src/components/AdminDashboard.js:182-190 | at most 10 rows are shown, each a row of `users` that matches the term |
| Dashboard.DisplayedRowsArePageOfFiltered | src/components/AdminDashboard.js:182-190 | both display branches show the current page of `filteredUsers` |
| Dashboard.Edit | src/components/AdminDashboard.js:31-37 | rows with the id enter edit mode; other rows, ids, columns, length, selection, page and term are unchanged |
| Dashboard.Save | src/components/AdminDashboard.js:39-45 | rows with the id leave edit mode; other rows, ids, columns, length, selection, page and term are unchanged |
| Dashboard.Cancel | src/components/AdminDashboard.js:112 | Cancel leaves the rows with the id in edit mode and changes no column; every other row, the length and the rest of the state are unchanged |
| Dashboard.SaveUndoesEdit | src/components/AdminDashboard.js:31-45 | save after edit returns to the original state when the row was not being edited |
| Dashboard.ChangeCell | src/components/AdminDashboard.js:73-79 | only the named column of rows with the id changes, to the value; every other row and column, the length and the rest of the state are unchanged |
| Dashboard.CancelKeepsTypedValue | src/components/AdminDashboard.js:105-112 | after edit, typing and Cancel, the typed value stays and the row is still in edit mode |
| Dashboard.Delete | src/components/AdminDashboard.js:47-49 | no row keeps the id; every other row survives, in order; selection, page and term are unchanged |
| Dashboard.DeleteCounts | src/components/AdminDashboard.js:48 | a row without the id keeps every copy, and a row with it keeps none |
| Dashboard.DeleteIdempotent | src/components/AdminDashboard.js:47-49 | deleting the same id twice equals deleting it once |
| Dashboard.DeleteLeavesSelection | src/components/AdminDashboard.js:47-49 | a selected id stays selected after its row is deleted, though no row has it |
| Dashboard.DeleteSelected | src/components/AdminDashboard.js:51-56 | exactly the rows whose id was selected go; survivors keep their order; the selection becomes empty |
| Dashboard.DeleteSelectedCounts | src/components/AdminDashboard.js:53 | a row whose id was not selected keeps every copy, and a selected one keeps none |
| Dashboard.SelectRow | src/components/AdminDashboard.js:124-132 | the id's selection flips, with every copy removed when it was selected; other ids' membership and the rest of the state are unchanged |
| Dashboard.SelectRowTwice | src/components/AdminDashboard.js:124-132 | clicking the same row twice restores which ids are selected |
| Dashboard.PageIds | src/components/AdminDashboard.js:59-61 | the page ids are the ids of block (p−1)·10 up to p·10 of the unfiltered `users`, cut at the end: at most 10 ids, all of existing rows; on page 0 there are none |
| Dashboard.SelectAll | src/components/AdminDashboard.js:58-72 | when the selection is as long as the page ids it is cleared; otherwise the page ids are appended after it |
| Dashboard.SelectAllTwice | src/components/AdminDashboard.js:58-72 | from no selection on a non-empty page, select-all selects that page and a second select-all clears it |
| Dashboard.SelectAllIgnoresSearch | src/components/AdminDashboard.js:59-61 | the search term has no effect on select-all, which may select rows the filter hides |
| Dashboard.LastPage | src/components/AdminDashboard.js:147 | the last page is `ceil(|filteredUsers| / 10)` |
| Dashboard.GoToPage | src/components/AdminDashboard.js:134-136 | the page becomes the given one and nothing else changes |
| Dashboard.GoToPrevious | src/components/AdminDashboard.js:138-140 | the page steps back by one and never drops below 1 |
| Dashboard.GoToNext | src/components/AdminDashboard.js:142-144 | the page steps forward by one and never passes the last page of `filteredUsers` |
| Dashboard.GoToLast | src/components/AdminDashboard.js:146-148 | the page becomes exactly `ceil(|filteredUsers| / 10)` |
| Dashboard.PagingKeepsPageInRange | src/components/AdminDashboard.js:138-148 | previous and next keep an in-range page in range; last puts the page in range whenever a row matches |
| Dashboard.LastPageShowsRows | src/components/AdminDashboard.js:146-148 | when a row matches, the last page shows between 1 and 10 rows |
| Dashboard.EmptyFilterGivesPageZero | src/components/AdminDashboard.js:142-148 | when no row matches, last and next give page 0, which shows nothing |
| Dashboard.TwentyFiveRowsLastPage | src/components/AdminDashboard.js:146-148 | with 25 rows and no search, last goes to page 3, which shows exactly 5 rows |

## Left out

- Loading the member list (src/components/AdminDashboard.js:13-17) is network I/O with an asynchronous merge into state. It is not modelled. `Dashboard.Initial` is the state before it resolves (the `useState` initial values).
- The `alert` calls for the search button and the Enter key (src/components/AdminDashboard.js:85-93) are browser side effects with no state change.
- JSX rendering, CSS classes and event wiring (src/components/AdminDashboard.js:95-122, 150-206) are presentation only. The one wiring fact that changes behaviour, Cancel calling `handleEdit`, is `Dashboard.Cancel`.
- src/index.js is the React bootstrap and has no logic.
- React's effect scheduling is not modelled. `filteredUsers` is recomputed in an effect after each render; the model derives it from `users` and `searchTerm` at once. So the one render where the stored `filteredUsers` is stale is not modelled.
- The handlers' captured render-time values are not modelled. `handleDeleteSelected`, `handleSelectAll`, `goToNextPage` and `goToLastPage` read the `selectedRows`, `users`, `currentPage` or `filteredUsers` of their render. With one synchronous transition per event, these equal the current state.
- Text.Lower: only ASCII capitals are mapped. Full Unicode case mapping of `toLowerCase` is not modelled.
- Text.ToLower: maps ASCII capitals only and keeps the length. JavaScript's `toLowerCase` also lowers non-ASCII letters and can change the length ("İ" becomes two code units).
- Users.Set: only the three text columns are modelled. The dynamic `[field]` key could name any property in JavaScript, but the UI only passes `name`, `email` or `role`.
- Ids and pages are unbounded integers. JavaScript numbers, with their floating-point range, `NaN` and non-integer ids, are not modelled. `===` and `includes` on ids are integer equality.
