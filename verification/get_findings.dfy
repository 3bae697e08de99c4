/**
  `getFindings`: the rows of the `finding` table in `found`-descending order,
  deduplicated by tuple and then partitioned with ERROR rows first.
 */
module GetFindings {
  import opened Findings
  import opened Subsequences
  import opened Dedup
  import opened ErrorSort

  /** The list `getFindings` returns for the rows the query delivered: the
      deduplicated rows under the corrected ERROR-first order. It shows exactly
      the deduplicated rows, each once. */
  function ListFindings(rows: seq<Finding>): (r: seq<Finding>)
    ensures multiset(r) == multiset(UniqueFindings(rows))
  {
    ErrorsFirstPermutes(UniqueFindings(rows));
    ErrorsFirst(UniqueFindings(rows))
  }

  /** No tuple is shown twice. */
  lemma GetFindingsDistinctKeys(rows: seq<Finding>)
    ensures DistinctKeys(ListFindings(rows))
  {
    UniqueDistinctKeys(rows);
    ErrorsFirstKeepsDistinctKeys(UniqueFindings(rows));
  }

  /** Every tuple of the query is shown. */
  lemma GetFindingsCoversKeys(rows: seq<Finding>)
    ensures forall i :: 0 <= i < |rows| ==>
      exists j :: 0 <= j < |ListFindings(rows)| && KeyOf(ListFindings(rows)[j]) == KeyOf(rows[i])
  {
    var u := UniqueFindings(rows);
    var r := ListFindings(rows);
    ErrorsFirstPermutes(u);
    UniqueCoversKeys(rows);
    forall i | 0 <= i < |rows|
      ensures exists j :: 0 <= j < |r| && KeyOf(r[j]) == KeyOf(rows[i])
    {
      var j0 :| 0 <= j0 < |u| && KeyOf(u[j0]) == KeyOf(rows[i]);
      assert u[j0] in multiset(u);
      assert u[j0] in r;
    }
  }

  /** Every row shown is the first row of the query with its tuple. */
  lemma GetFindingsKeepsFirst(rows: seq<Finding>)
    ensures forall j :: 0 <= j < |ListFindings(rows)| ==>
      exists i :: 0 <= i < |rows| && ListFindings(rows)[j] == rows[i] && IsFirstOccurrence(rows, i)
  {
    var u := UniqueFindings(rows);
    var r := ListFindings(rows);
    ErrorsFirstPermutes(u);
    UniqueKeepsFirst(rows);
    forall j | 0 <= j < |r|
      ensures exists i :: 0 <= i < |rows| && r[j] == rows[i] && IsFirstOccurrence(rows, i)
    {
      assert r[j] in multiset(r);
      assert r[j] in u;
      var j0 :| 0 <= j0 < |u| && u[j0] == r[j];
      var i :| 0 <= i < |rows| && u[j0] == rows[i] && IsFirstOccurrence(rows, i);
    }
    assert forall j :: 0 <= j < |r| ==>
      exists i :: 0 <= i < |rows| && r[j] == rows[i] && IsFirstOccurrence(rows, i);
  }

  /** With the query in `found`-descending order, the row shown for a tuple is
      its most recent one. */
  lemma GetFindingsMostRecent(rows: seq<Finding>)
    requires SortedByFoundDesc(rows)
    ensures forall i, j ::
      (0 <= i < |rows| && 0 <= j < |ListFindings(rows)| && KeyOf(rows[i]) == KeyOf(ListFindings(rows)[j]))
      ==> rows[i].found <= ListFindings(rows)[j].found
  {
    var u := UniqueFindings(rows);
    var r := ListFindings(rows);
    ErrorsFirstPermutes(u);
    UniqueKeepsMostRecent(rows);
    forall i, j | 0 <= i < |rows| && 0 <= j < |r| && KeyOf(rows[i]) == KeyOf(r[j])
      ensures rows[i].found <= r[j].found
    {
      assert r[j] in multiset(r);
      assert r[j] in u;
      var j0 :| 0 <= j0 < |u| && u[j0] == r[j];
    }
  }

  /** Every ERROR row is listed before every other row. */
  lemma GetFindingsErrorsFirst(rows: seq<Finding>)
    ensures forall i, j ::
      (0 <= i < j < |ListFindings(rows)| && IsError(ListFindings(rows)[j])) ==> IsError(ListFindings(rows)[i])
  {
    ErrorsFirstOrdersLevels(UniqueFindings(rows));
  }

  /** The non-ERROR rows are the non-ERROR first occurrences, in the query's order. */
  lemma GetFindingsNonErrorOrder(rows: seq<Finding>)
    ensures NonErrors(ListFindings(rows)) == NonErrors(FirstOccurrences(rows))
    ensures IsSubsequence(NonErrors(ListFindings(rows)), rows)
  {
    var u := UniqueFindings(rows);
    ErrorsFirstKeepsGroupOrder(u);
    UniqueMatchesFirstOccurrences(rows);
    FiltersAreSubsequences(u);
    UniqueIsSubsequence(rows);
    SubsequenceTransitive(NonErrors(u), u, rows);
  }
}
