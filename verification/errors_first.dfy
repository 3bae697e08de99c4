/**
  The `sort` call in `getFindings`: ERROR rows go ahead of all other rows, and
  other rows keep the time order the query gave them.

  The comparator as written returns -1 whenever its first argument is an ERROR
  row, so for two ERROR rows it answers -1 in both directions; ECMAScript leaves
  the result of `Array.prototype.sort` implementation-defined for such a
  comparator. The model therefore uses a corrected comparator, which answers 0
  for two rows of the same group, and proves that a stable sort with it is the
  stable partition `ErrorsFirst`. The as-written comparator is kept for contrast.
 */
module ErrorSort {
  import opened Findings
  import opened Subsequences

  /** The ERROR rows of `s`, in order. */
  function Errors(s: seq<Finding>): seq<Finding>
    decreases |s|
  {
    if |s| == 0 then []
    else if IsError(s[0]) then [s[0]] + Errors(s[1..])
    else Errors(s[1..])
  }

  /** The non-ERROR rows of `s`, in order. */
  function NonErrors(s: seq<Finding>): seq<Finding>
    decreases |s|
  {
    if |s| == 0 then []
    else if !IsError(s[0]) then [s[0]] + NonErrors(s[1..])
    else NonErrors(s[1..])
  }

  /** The stable partition: every ERROR row, then every other row, each group in input order. */
  function ErrorsFirst(s: seq<Finding>): seq<Finding> {
    Errors(s) + NonErrors(s)
  }

  /** The comparator at database.ts lines 24-32, as written. */
  function CompareAsWritten(a: Finding, b: Finding): int {
    if a.level == ErrorLevel then -1
    else if b.level == ErrorLevel then 1
    else 0
  }

  /** The corrected comparator: it extends the line-30 rule (return 0, keep the
      current order) to two ERROR rows, so only an ERROR row against a non-ERROR
      row is out of order. */
  function Compare(a: Finding, b: Finding): int {
    if IsError(a) && !IsError(b) then -1
    else if !IsError(a) && IsError(b) then 1
    else 0
  }

  function Sign(x: int): int {
    if x < 0 then -1 else if x > 0 then 1 else 0
  }

  /** What `Array.prototype.sort` requires of a comparator: swapping the
      arguments flips the sign of the answer. */
  ghost predicate Antisymmetric(cmp: (Finding, Finding) -> int) {
    forall a, b :: Sign(cmp(a, b)) == -Sign(cmp(b, a))
  }

  /** ... and "not after" is transitive. */
  ghost predicate TransitiveNotAfter(cmp: (Finding, Finding) -> int) {
    forall a, b, c :: cmp(a, b) <= 0 && cmp(b, c) <= 0 ==> cmp(a, c) <= 0
  }

  /** Inserts `x` into the sorted `t`: `x` moves right past the rows that compare
      below it and stops before the first that does not, so rows that compare
      equal keep their order. */
  function Insert(cmp: (Finding, Finding) -> int, x: Finding, t: seq<Finding>): seq<Finding>
    decreases |t|
  {
    if |t| == 0 then [x]
    else if cmp(t[0], x) < 0 then [t[0]] + Insert(cmp, x, t[1..])
    else [x] + t
  }

  /** A stable insertion sort, one sort `Array.prototype.sort` may be. */
  function SortBy(cmp: (Finding, Finding) -> int, s: seq<Finding>): seq<Finding>
    decreases |s|
  {
    if |s| == 0 then [] else Insert(cmp, s[0], SortBy(cmp, s[1..]))
  }

  function Reverse(s: seq<Finding>): seq<Finding>
    decreases |s|
  {
    if |s| == 0 then [] else Reverse(s[1..]) + [s[0]]
  }

  // ---------------------------------------------------------------------------
  // Filters over concatenation
  // ---------------------------------------------------------------------------

  lemma {:induction false} ErrorsAppend(a: seq<Finding>, b: seq<Finding>)
    ensures Errors(a + b) == Errors(a) + Errors(b)
    decreases |a|
  {
    if |a| == 0 {
      assert a + b == b;
    } else {
      assert (a + b)[0] == a[0] && (a + b)[1..] == a[1..] + b;
      ErrorsAppend(a[1..], b);
      if IsError(a[0]) {
        assert Errors(a + b) == [a[0]] + (Errors(a[1..]) + Errors(b));
      }
    }
  }

  lemma {:induction false} NonErrorsAppend(a: seq<Finding>, b: seq<Finding>)
    ensures NonErrors(a + b) == NonErrors(a) + NonErrors(b)
    decreases |a|
  {
    if |a| == 0 {
      assert a + b == b;
    } else {
      assert (a + b)[0] == a[0] && (a + b)[1..] == a[1..] + b;
      NonErrorsAppend(a[1..], b);
      if !IsError(a[0]) {
        assert NonErrors(a + b) == [a[0]] + (NonErrors(a[1..]) + NonErrors(b));
      }
    }
  }

  lemma {:induction false} FiltersOfErrors(s: seq<Finding>)
    ensures Errors(Errors(s)) == Errors(s) && NonErrors(Errors(s)) == []
    ensures NonErrors(NonErrors(s)) == NonErrors(s) && Errors(NonErrors(s)) == []
    decreases |s|
  {
    if |s| > 0 {
      FiltersOfErrors(s[1..]);
      if IsError(s[0]) {
        assert ([s[0]] + Errors(s[1..]))[1..] == Errors(s[1..]);
      } else {
        assert ([s[0]] + NonErrors(s[1..]))[1..] == NonErrors(s[1..]);
      }
    }
  }

  lemma {:induction false} FiltersPartition(s: seq<Finding>)
    ensures multiset(Errors(s)) + multiset(NonErrors(s)) == multiset(s)
    decreases |s|
  {
    if |s| > 0 {
      FiltersPartition(s[1..]);
      assert s == [s[0]] + s[1..];
    }
  }

  lemma {:induction false} FiltersSelectLevels(s: seq<Finding>)
    ensures forall f :: f in Errors(s) ==> f in s && IsError(f)
    ensures forall f :: f in NonErrors(s) ==> f in s && !IsError(f)
    decreases |s|
  {
    if |s| > 0 {
      FiltersSelectLevels(s[1..]);
    }
  }

  lemma {:induction false} FiltersAreSubsequences(s: seq<Finding>)
    ensures IsSubsequence(Errors(s), s) && IsSubsequence(NonErrors(s), s)
    decreases |s|
  {
    if |s| > 0 {
      FiltersAreSubsequences(s[1..]);
      var e := Errors(s);
      var n := NonErrors(s);
      if IsError(s[0]) {
        assert e[1..] == Errors(s[1..]);
        if |n| > 0 {
          assert IsSubsequence(n, s[1..]);
        }
      } else {
        assert n[1..] == NonErrors(s[1..]);
        if |e| > 0 {
          assert IsSubsequence(e, s[1..]);
        }
      }
    }
  }

  // ---------------------------------------------------------------------------
  // Properties of the partition
  // ---------------------------------------------------------------------------

  /** The partition is a permutation: the same rows with the same multiplicities. */
  lemma ErrorsFirstPermutes(s: seq<Finding>)
    ensures multiset(ErrorsFirst(s)) == multiset(s)
  {
    FiltersPartition(s);
  }

  /** Every ERROR row comes before every non-ERROR row. */
  lemma ErrorsFirstOrdersLevels(s: seq<Finding>)
    ensures forall i, j ::
      (0 <= i < j < |ErrorsFirst(s)| && IsError(ErrorsFirst(s)[j])) ==> IsError(ErrorsFirst(s)[i])
  {
    var e := Errors(s);
    var n := NonErrors(s);
    var r := ErrorsFirst(s);
    FiltersSelectLevels(s);
    forall i | 0 <= i < |r|
      ensures IsError(r[i]) <==> i < |e|
    {
      if i < |e| {
        assert r[i] == e[i] && e[i] in e;
      } else {
        assert r[i] == n[i - |e|] && n[i - |e|] in n;
      }
    }
  }

  /** The non-ERROR rows keep their input order, and so (by choice of model) do the ERROR rows. */
  lemma ErrorsFirstKeepsGroupOrder(s: seq<Finding>)
    ensures NonErrors(ErrorsFirst(s)) == NonErrors(s)
    ensures Errors(ErrorsFirst(s)) == Errors(s)
  {
    ErrorsAppend(Errors(s), NonErrors(s));
    NonErrorsAppend(Errors(s), NonErrors(s));
    FiltersOfErrors(s);
  }

  lemma {:induction false} DistinctKeysSubsequence(xs: seq<Finding>, ys: seq<Finding>)
    requires IsSubsequence(xs, ys) && DistinctKeys(ys)
    ensures DistinctKeys(xs)
    decreases |ys|
  {
    if |xs| > 0 {
      assert DistinctKeys(ys[1..]) by {
        assert forall i :: 0 <= i < |ys[1..]| ==> ys[1..][i] == ys[i + 1];
      }
      if xs[0] == ys[0] && IsSubsequence(xs[1..], ys[1..]) {
        DistinctKeysSubsequence(xs[1..], ys[1..]);
        SubsequenceElements(xs[1..], ys[1..]);
        forall i, j | 0 <= i < j < |xs|
          ensures KeyOf(xs[i]) != KeyOf(xs[j])
        {
          assert xs[j] == xs[1..][j - 1] && xs[j] in xs[1..];
          var m :| 0 <= m < |ys[1..]| && ys[1..][m] == xs[j];
          if i > 0 {
            assert xs[i] == xs[1..][i - 1];
          } else {
            assert ys[1..][m] == ys[m + 1];
          }
        }
      } else {
        DistinctKeysSubsequence(xs, ys[1..]);
      }
    }
  }

  /** The partition keeps keys distinct: it reorders rows and an ERROR row never
      shares a key with a non-ERROR one. */
  lemma ErrorsFirstKeepsDistinctKeys(s: seq<Finding>)
    requires DistinctKeys(s)
    ensures DistinctKeys(ErrorsFirst(s))
  {
    var e, n := Errors(s), NonErrors(s);
    var r := ErrorsFirst(s);
    FiltersAreSubsequences(s);
    FiltersSelectLevels(s);
    DistinctKeysSubsequence(e, s);
    DistinctKeysSubsequence(n, s);
    forall i, j | 0 <= i < j < |r|
      ensures KeyOf(r[i]) != KeyOf(r[j])
    {
      if j < |e| {
        assert r[i] == e[i] && r[j] == e[j];
      } else if i >= |e| {
        assert r[i] == n[i - |e|] && r[j] == n[j - |e|];
      } else {
        assert r[i] == e[i] && e[i] in e;
        assert r[j] == n[j - |e|] && n[j - |e|] in n;
        KeySeparatesLevels(r[i], r[j]);
      }
    }
  }

  // ---------------------------------------------------------------------------
  // The comparators
  // ---------------------------------------------------------------------------

  /** The as-written comparator breaks the contract of `Array.prototype.sort`:
      an ERROR row compares below itself. */
  lemma CompareAsWrittenNotAntisymmetric()
    ensures !Antisymmetric(CompareAsWritten)
  {
    var e := Finding("", "", "", "ERROR", "", 0);
    assert Sign(CompareAsWritten(e, e)) != -Sign(CompareAsWritten(e, e));
  }

  /** The corrected comparator is consistent. */
  lemma CompareConsistent()
    ensures Antisymmetric(Compare) && TransitiveNotAfter(Compare)
  {
  }

  /** Whatever the comparator, insertion sort only rearranges rows. */
  lemma {:induction false} InsertPermutes(cmp: (Finding, Finding) -> int, x: Finding, t: seq<Finding>)
    ensures multiset(Insert(cmp, x, t)) == multiset(t) + multiset{x}
    decreases |t|
  {
    if |t| > 0 {
      InsertPermutes(cmp, x, t[1..]);
      assert t == [t[0]] + t[1..];
      assert multiset(t) == multiset{t[0]} + multiset(t[1..]);
    }
  }

  lemma {:induction false} SortByPermutes(cmp: (Finding, Finding) -> int, s: seq<Finding>)
    ensures multiset(SortBy(cmp, s)) == multiset(s)
    decreases |s|
  {
    if |s| > 0 {
      SortByPermutes(cmp, s[1..]);
      InsertPermutes(cmp, s[0], SortBy(cmp, s[1..]));
      assert s == [s[0]] + s[1..];
      assert multiset(s) == multiset{s[0]} + multiset(s[1..]);
    }
  }

  /** With the corrected comparator an ERROR row stays in front. */
  lemma InsertErrorRow(x: Finding, t: seq<Finding>)
    requires IsError(x)
    ensures Insert(Compare, x, t) == [x] + t
  {
  }

  /** With the corrected comparator a non-ERROR row moves right past the leading
      ERROR rows and stops before the first non-ERROR row. */
  lemma {:induction false} InsertNonErrorRow(x: Finding, e: seq<Finding>, n: seq<Finding>)
    requires !IsError(x)
    requires forall i :: 0 <= i < |e| ==> IsError(e[i])
    requires |n| > 0 ==> !IsError(n[0])
    ensures Insert(Compare, x, e + n) == e + [x] + n
    decreases |e|
  {
    if |e| == 0 {
      assert e + n == n;
    } else {
      assert (e + n)[0] == e[0];
      assert (e + n)[1..] == e[1..] + n;
      InsertNonErrorRow(x, e[1..], n);
    }
  }

  /** The first row of the non-ERROR group, if any, is a non-ERROR row. */
  lemma GroupHeads(s: seq<Finding>)
    ensures forall i :: 0 <= i < |Errors(s)| ==> IsError(Errors(s)[i])
    ensures forall i :: 0 <= i < |NonErrors(s)| ==> !IsError(NonErrors(s)[i])
  {
    FiltersSelectLevels(s);
    forall i | 0 <= i < |Errors(s)| ensures IsError(Errors(s)[i]) {
      assert Errors(s)[i] in Errors(s);
    }
    forall i | 0 <= i < |NonErrors(s)| ensures !IsError(NonErrors(s)[i]) {
      assert NonErrors(s)[i] in NonErrors(s);
    }
  }

  /** Under a stable sort, the corrected comparator yields exactly the stable partition. */
  lemma {:induction false} SortByCompareIsErrorsFirst(s: seq<Finding>)
    ensures SortBy(Compare, s) == ErrorsFirst(s)
    decreases |s|
  {
    if |s| > 0 {
      var x, e, n := s[0], Errors(s[1..]), NonErrors(s[1..]);
      SortByCompareIsErrorsFirst(s[1..]);
      if IsError(x) {
        InsertErrorRow(x, e + n);
      } else {
        GroupHeads(s[1..]);
        InsertNonErrorRow(x, e, n);
      }
    }
  }

  /** With the as-written comparator any row moves right past every leading
      ERROR row, since an ERROR row always compares below. */
  lemma {:induction false} InsertAsWritten(x: Finding, e: seq<Finding>, n: seq<Finding>)
    requires forall i :: 0 <= i < |e| ==> IsError(e[i])
    requires |n| > 0 ==> !IsError(n[0])
    ensures Insert(CompareAsWritten, x, e + n) == e + [x] + n
    decreases |e|
  {
    if |e| == 0 {
      assert e + n == n;
    } else {
      assert (e + n)[0] == e[0];
      assert (e + n)[1..] == e[1..] + n;
      InsertAsWritten(x, e[1..], n);
    }
  }

  lemma {:induction false} ReverseElements(s: seq<Finding>)
    ensures |Reverse(s)| == |s|
    ensures forall i :: 0 <= i < |s| ==> Reverse(s)[i] == s[|s| - 1 - i]
    decreases |s|
  {
    if |s| > 0 {
      ReverseElements(s[1..]);
    }
  }

  /** One step of the as-written sort: the head row lands between the tail's
      (reversed) ERROR rows and its non-ERROR rows. */
  lemma SortByAsWrittenStep(s: seq<Finding>)
    requires |s| > 0
    requires SortBy(CompareAsWritten, s[1..]) == Reverse(Errors(s[1..])) + NonErrors(s[1..])
    ensures SortBy(CompareAsWritten, s) == Reverse(Errors(s[1..])) + [s[0]] + NonErrors(s[1..])
  {
    var e := Errors(s[1..]);
    GroupHeads(s[1..]);
    ReverseElements(e);
    InsertAsWritten(s[0], Reverse(e), NonErrors(s[1..]));
  }

  /** Under a stable insertion sort, the as-written comparator keeps the
      non-ERROR rows in order but reverses the ERROR rows. */
  lemma {:induction false} SortByAsWrittenReversesErrors(s: seq<Finding>)
    ensures SortBy(CompareAsWritten, s) == Reverse(Errors(s)) + NonErrors(s)
    decreases |s|
  {
    if |s| > 0 {
      var x, e, n := s[0], Errors(s[1..]), NonErrors(s[1..]);
      SortByAsWrittenReversesErrors(s[1..]);
      SortByAsWrittenStep(s);
      if IsError(x) {
        assert Errors(s) == [x] + e;
        assert ([x] + e)[1..] == e;
        assert Reverse(Errors(s)) == Reverse(e) + [x];
      } else {
        assert NonErrors(s) == [x] + n;
      }
    }
  }

  /** Two ERROR rows in the query's time order (newer first) come out older first. */
  lemma AsWrittenSwapsErrorRows()
    ensures var newer := Finding("1", "c", "t", "ERROR", "a", 2);
            var older := Finding("2", "c", "t", "ERROR", "b", 1);
            SortBy(CompareAsWritten, [newer, older]) == [older, newer]
            && SortBy(Compare, [newer, older]) == [newer, older]
  {
    var newer := Finding("1", "c", "t", "ERROR", "a", 2);
    var older := Finding("2", "c", "t", "ERROR", "b", 1);
    assert [newer, older][1..] == [older];
    assert [older][1..] == [];
    assert SortBy(CompareAsWritten, [older]) == [older];
    assert SortBy(Compare, [older]) == [older];
    assert Insert(CompareAsWritten, newer, [older]) == [older, newer];
    assert Insert(Compare, newer, [older]) == [newer, older];
  }
}
