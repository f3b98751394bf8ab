/**
 The list of selected row ids behind the check boxes.  It is a list, not a set:
 select-all appends the page's ids without looking for ones already present, so
 an id can occur more than once.
 */
module Selection {
  import Seqs

  /** The checkbox on one row: drop every occurrence of `id` if it is selected,
      otherwise append it. */
  function ToggleRow(sel: seq<int>, id: int): (r: seq<int>)
    ensures id in r <==> id !in sel
    ensures forall k :: 0 <= k < |sel| && sel[k] != id ==> sel[k] in r
    ensures forall k :: 0 <= k < |r| && r[k] != id ==> r[k] in sel
    ensures id in sel ==> multiset(r) == multiset(sel)[id := 0] && Seqs.IsSubsequence(r, sel)
    ensures id !in sel ==> |r| == |sel| + 1 && r[..|sel|] == sel && r[|sel|] == id
  {
    if id in sel then
      var r := Seqs.Filter(sel, x => x != id);
      Seqs.FilterIsSubsequence(sel, x => x != id);
      MultisetOfRemoval(sel, id);
      r
    else
      sel + [id]
  }

  lemma MultisetOfRemoval(sel: seq<int>, id: int)
    ensures multiset(Seqs.Filter(sel, x => x != id)) == multiset(sel)[id := 0]
  {
    var r := Seqs.Filter(sel, x => x != id);
    forall x
      ensures multiset(r)[x] == multiset(sel)[id := 0][x]
    {
      Seqs.FilterMultiset(sel, y => y != id, x);
    }
  }

  /** Toggling the same row twice restores which ids are selected. */
  lemma ToggleRowTwice(sel: seq<int>, id: int, x: int)
    ensures x in ToggleRow(ToggleRow(sel, id), id) <==> x in sel
  {
    var once := ToggleRow(sel, id);
    var twice := ToggleRow(once, id);
    if x != id {
      if x in sel {
        var k :| 0 <= k < |sel| && sel[k] == x;
        assert x in once;
      }
      if x in twice {
        var k :| 0 <= k < |twice| && twice[k] == x;
        assert x in once;
      }
    }
  }

  /** ... but not necessarily their order: deselecting and reselecting moves the id to the end. */
  lemma ToggleRowTwiceMayReorder()
    ensures ToggleRow(ToggleRow([1, 2], 1), 1) == [2, 1]
  {
    assert ToggleRow([1, 2], 1) == [2];
  }

  /** The header checkbox: if the selection is exactly as long as the page's id list,
      clear all of it; otherwise append the page's ids. */
  function SelectAll(sel: seq<int>, pageIds: seq<int>): (r: seq<int>)
    ensures |sel| == |pageIds| ==> r == []
    ensures |sel| != |pageIds| ==> |r| == |sel| + |pageIds| && r[..|sel|] == sel && r[|sel|..] == pageIds
    ensures |sel| != |pageIds| ==> multiset(r) == multiset(sel) + multiset(pageIds)
  {
    if |sel| == |pageIds| then [] else sel + pageIds
  }

  /** From an empty selection, the header checkbox selects a non-empty page and a
      second click clears it again. */
  lemma SelectAllTwiceClears(pageIds: seq<int>)
    requires |pageIds| > 0
    ensures SelectAll([], pageIds) == pageIds
    ensures SelectAll(SelectAll([], pageIds), pageIds) == []
  {
  }

  /** Only the lengths are compared: a selection made elsewhere that happens to be as
      long as the page's id list is cleared, although none of the page is selected. */
  lemma SelectAllComparesOnlyLengths()
    ensures SelectAll([7], [1]) == []
  {
  }

  /** Ids already selected are appended again, so the list can hold duplicates. */
  lemma SelectAllDuplicates(sel: seq<int>, pageIds: seq<int>, id: int)
    requires id in sel && id in pageIds && |sel| != |pageIds|
    ensures multiset(SelectAll(sel, pageIds))[id] >= 2
  {
  }
}
