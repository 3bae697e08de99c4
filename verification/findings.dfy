/**
  The rows of the `finding` table as the findings page receives them, and the
  tuple by which two rows count as the same logical finding.
 */
module Findings {

  /** One scan issue. `kind` is the table's `type` column (a keyword in Dafny);
      `found` is the stored UTC instant that the query orders by. */
  datatype Finding = Finding(
    id: string,
    category: string,
    kind: string,
    level: string,
    body: string,
    found: int)

  /** The (category, type, level, body) tuple that identifies a logical finding. */
  datatype Key = Key(category: string, kind: string, level: string, body: string)

  function KeyOf(f: Finding): Key {
    Key(f.category, f.kind, f.level, f.body)
  }

  const ErrorLevel: string := "ERROR"

  predicate IsError(f: Finding) {
    f.level == ErrorLevel
  }

  /** The order `orderBy("found", "desc")` delivers: most recent first. */
  ghost predicate SortedByFoundDesc(rows: seq<Finding>) {
    forall i, j :: 0 <= i < j < |rows| ==> rows[i].found >= rows[j].found
  }

  /** No two rows share a key. */
  ghost predicate DistinctKeys(rows: seq<Finding>) {
    forall i, j :: 0 <= i < j < |rows| ==> KeyOf(rows[i]) != KeyOf(rows[j])
  }

  /** Row `i` is the first row of `rows` with its key. */
  ghost predicate IsFirstOccurrence(rows: seq<Finding>, i: int)
    requires 0 <= i < |rows|
  {
    forall k :: 0 <= k < i ==> KeyOf(rows[k]) != KeyOf(rows[i])
  }

  /** An ERROR row and a non-ERROR row never share a key, since the level is part of it. */
  lemma KeySeparatesLevels(a: Finding, b: Finding)
    requires IsError(a) && !IsError(b)
    ensures KeyOf(a) != KeyOf(b)
  {
  }
}
