/**
  `uniqueFindings`: keep the first row of every (category, type, level, body)
  tuple, in input order. The source keys rows by their JSON key string and
  threads a set of keys already seen through `Array.prototype.filter`.

  The filter and its lemmas take the key function as a parameter; the facts
  about the real key (`RowKey`) enter only through `RowKeyInjective`.
 */
module Dedup {
  import opened Findings
  import opened JsonKey
  import opened Subsequences

  /** The key of a row, as computed by the inner `key` function. */
  function RowKey(f: Finding): string {
    Stringify(KeyOf(f))
  }

  /** Key strings collide exactly when the tuples are equal. */
  lemma RowKeyInjective(a: Finding, b: Finding)
    ensures RowKey(a) == RowKey(b) <==> KeyOf(a) == KeyOf(b)
  {
    StringifyInjective(KeyOf(a), KeyOf(b));
  }

  /** The set of keys of `rows`. */
  function KeysOf(key: Finding -> string, rows: seq<Finding>): set<string> {
    if |rows| == 0 then {} else {key(rows[0])} + KeysOf(key, rows[1..])
  }

  /** The filter callback run over `rows`, with `seen` holding the keys of the rows already kept. */
  function Filter(key: Finding -> string, rows: seq<Finding>, seen: set<string>): (r: seq<Finding>)
    ensures |r| <= |rows|
    decreases |rows|
  {
    if |rows| == 0 then []
    else if key(rows[0]) in seen then Filter(key, rows[1..], seen)
    else [rows[0]] + Filter(key, rows[1..], seen + {key(rows[0])})
  }

  /** `uniqueFindings(rows)`: the filter with the JSON key, started with an empty `seen` set. */
  function UniqueFindings(rows: seq<Finding>): (r: seq<Finding>)
    ensures |r| <= |rows|
  {
    Filter(RowKey, rows, {})
  }

  /** Reference definition, built from the end: row `n` is kept exactly when
      no earlier row has its tuple. */
  ghost function FirstOccurrences(rows: seq<Finding>): seq<Finding>
    decreases |rows|
  {
    if |rows| == 0 then []
    else
      var n := |rows| - 1;
      FirstOccurrences(rows[..n])
        + (if exists k :: 0 <= k < n && KeyOf(rows[k]) == KeyOf(rows[n]) then [] else [rows[n]])
  }

  /** Row `i` is the first row with its key and that key was not seen before the call. */
  ghost predicate FirstFresh(key: Finding -> string, rows: seq<Finding>, seen: set<string>, i: int)
    requires 0 <= i < |rows|
  {
    && key(rows[i]) !in seen
    && forall k :: 0 <= k < i ==> key(rows[k]) != key(rows[i])
  }

  // ---------------------------------------------------------------------------
  // Properties of the filter, for any key function and starting `seen` set
  // ---------------------------------------------------------------------------

  lemma {:induction false} KeysOfMembership(key: Finding -> string, rows: seq<Finding>, k: string)
    ensures k in KeysOf(key, rows) <==> exists i :: 0 <= i < |rows| && key(rows[i]) == k
    decreases |rows|
  {
    if |rows| > 0 {
      KeysOfMembership(key, rows[1..], k);
      if k in KeysOf(key, rows[1..]) {
        var i :| 0 <= i < |rows[1..]| && key(rows[1..][i]) == k;
        assert key(rows[i + 1]) == k;
      }
      if exists i :: 0 <= i < |rows| && key(rows[i]) == k {
        var i :| 0 <= i < |rows| && key(rows[i]) == k;
        if i > 0 {
          assert key(rows[1..][i - 1]) == k;
        }
      }
    }
  }

  lemma {:induction false} FilterSubsequence(key: Finding -> string, rows: seq<Finding>, seen: set<string>)
    ensures IsSubsequence(Filter(key, rows, seen), rows)
    decreases |rows|
  {
    if |rows| > 0 {
      var k := key(rows[0]);
      if k in seen {
        FilterSubsequence(key, rows[1..], seen);
        var r := Filter(key, rows[1..], seen);
        if |r| > 0 {
          assert IsSubsequence(r, rows[1..]);
        }
      } else {
        FilterSubsequence(key, rows[1..], seen + {k});
        var r := [rows[0]] + Filter(key, rows[1..], seen + {k});
        assert r[1..] == Filter(key, rows[1..], seen + {k});
      }
    }
  }

  lemma {:induction false} FilterFresh(key: Finding -> string, rows: seq<Finding>, seen: set<string>)
    ensures forall j :: 0 <= j < |Filter(key, rows, seen)| ==> key(Filter(key, rows, seen)[j]) !in seen
    ensures forall i, j :: 0 <= i < j < |Filter(key, rows, seen)| ==>
      key(Filter(key, rows, seen)[i]) != key(Filter(key, rows, seen)[j])
    decreases |rows|
  {
    if |rows| > 0 {
      var k := key(rows[0]);
      if k in seen {
        FilterFresh(key, rows[1..], seen);
      } else {
        FilterFresh(key, rows[1..], seen + {k});
        var r := Filter(key, rows, seen);
        assert forall j :: 1 <= j < |r| ==> r[j] == Filter(key, rows[1..], seen + {k})[j - 1];
      }
    }
  }

  lemma {:induction false} FilterCovers(key: Finding -> string, rows: seq<Finding>, seen: set<string>)
    ensures forall i :: 0 <= i < |rows| ==>
      key(rows[i]) in seen || key(rows[i]) in KeysOf(key, Filter(key, rows, seen))
    decreases |rows|
  {
    if |rows| > 0 {
      var k := key(rows[0]);
      var r := Filter(key, rows, seen);
      if k in seen {
        FilterCovers(key, rows[1..], seen);
      } else {
        FilterCovers(key, rows[1..], seen + {k});
        assert r[1..] == Filter(key, rows[1..], seen + {k});
        assert KeysOf(key, r) == {k} + KeysOf(key, Filter(key, rows[1..], seen + {k}));
      }
      forall i | 1 <= i < |rows|
        ensures key(rows[i]) in seen || key(rows[i]) in KeysOf(key, r)
      {
        assert rows[i] == rows[1..][i - 1];
      }
    }
  }

  /** Where the `j`-th kept row came from. */
  lemma {:induction false} FilterOrigin(key: Finding -> string, rows: seq<Finding>, seen: set<string>, j: int)
    requires 0 <= j < |Filter(key, rows, seen)|
    ensures exists i :: 0 <= i < |rows| && Filter(key, rows, seen)[j] == rows[i] && FirstFresh(key, rows, seen, i)
    decreases |rows|
  {
    var k := key(rows[0]);
    var r := Filter(key, rows, seen);
    if k !in seen && j == 0 {
      assert r[j] == rows[0] && FirstFresh(key, rows, seen, 0);
    } else {
      var seen' := if k in seen then seen else seen + {k};
      var jt := if k in seen then j else j - 1;
      var tail := Filter(key, rows[1..], seen');
      assert r[j] == tail[jt];
      FilterOrigin(key, rows[1..], seen', jt);
      var i' :| 0 <= i' < |rows[1..]| && tail[jt] == rows[1..][i'] && FirstFresh(key, rows[1..], seen', i');
      var i := i' + 1;
      assert rows[1..][i'] == rows[i];
      forall m | 0 <= m < i
        ensures key(rows[m]) != key(rows[i])
      {
        if m > 0 {
          assert rows[m] == rows[1..][m - 1];
        }
      }
      assert r[j] == rows[i] && FirstFresh(key, rows, seen, i);
    }
  }

  /** On rows whose keys are all new and pairwise distinct, the filter drops nothing. */
  lemma {:induction false} FilterKeepsFreshRows(key: Finding -> string, rows: seq<Finding>, seen: set<string>)
    requires forall j :: 0 <= j < |rows| ==> key(rows[j]) !in seen
    requires forall i, j :: 0 <= i < j < |rows| ==> key(rows[i]) != key(rows[j])
    ensures Filter(key, rows, seen) == rows
    decreases |rows|
  {
    if |rows| > 0 {
      var k := key(rows[0]);
      assert forall j :: 0 <= j < |rows[1..]| ==> rows[1..][j] == rows[j + 1];
      FilterKeepsFreshRows(key, rows[1..], seen + {k});
      assert [rows[0]] + rows[1..] == rows;
    }
  }

  /** Running the filter over one more row at the end appends that row exactly
      when its key is neither in `seen` nor among the earlier rows. */
  lemma {:induction false} FilterSnoc(key: Finding -> string, rows: seq<Finding>, x: Finding, seen: set<string>)
    ensures Filter(key, rows + [x], seen)
         == Filter(key, rows, seen) + (if key(x) in seen + KeysOf(key, rows) then [] else [x])
    decreases |rows|
  {
    if |rows| == 0 {
      assert rows + [x] == [x];
      assert [x][1..] == [];
    } else {
      var y := rows[0];
      assert (rows + [x])[0] == y;
      assert (rows + [x])[1..] == rows[1..] + [x];
      if key(y) in seen {
        FilterSnoc(key, rows[1..], x, seen);
      } else {
        FilterSnoc(key, rows[1..], x, seen + {key(y)});
      }
    }
  }

  // ---------------------------------------------------------------------------
  // Properties of uniqueFindings
  // ---------------------------------------------------------------------------

  /** Rows are only dropped: never reordered, altered or invented. */
  lemma UniqueIsSubsequence(rows: seq<Finding>)
    ensures IsSubsequence(UniqueFindings(rows), rows)
  {
    FilterSubsequence(RowKey, rows, {});
  }

  /** No two kept rows share a (category, type, level, body) tuple. */
  lemma UniqueDistinctKeys(rows: seq<Finding>)
    ensures DistinctKeys(UniqueFindings(rows))
  {
    var r := UniqueFindings(rows);
    FilterFresh(RowKey, rows, {});
    forall i, j | 0 <= i < j < |r|
      ensures KeyOf(r[i]) != KeyOf(r[j])
    {
      RowKeyInjective(r[i], r[j]);
    }
  }

  /** Every tuple of the input is represented in the output. */
  lemma UniqueCoversKeys(rows: seq<Finding>)
    ensures forall i :: 0 <= i < |rows| ==>
      exists j :: 0 <= j < |UniqueFindings(rows)| && KeyOf(UniqueFindings(rows)[j]) == KeyOf(rows[i])
  {
    var r := UniqueFindings(rows);
    FilterCovers(RowKey, rows, {});
    forall i | 0 <= i < |rows|
      ensures exists j :: 0 <= j < |r| && KeyOf(r[j]) == KeyOf(rows[i])
    {
      KeysOfMembership(RowKey, r, RowKey(rows[i]));
      var j :| 0 <= j < |r| && RowKey(r[j]) == RowKey(rows[i]);
      RowKeyInjective(r[j], rows[i]);
    }
  }

  /** Every kept row is the first row of the input with its tuple. */
  lemma UniqueKeepsFirst(rows: seq<Finding>)
    ensures forall j :: 0 <= j < |UniqueFindings(rows)| ==>
      exists i :: 0 <= i < |rows| && UniqueFindings(rows)[j] == rows[i] && IsFirstOccurrence(rows, i)
  {
    var r := UniqueFindings(rows);
    forall j | 0 <= j < |r|
      ensures exists i :: 0 <= i < |rows| && r[j] == rows[i] && IsFirstOccurrence(rows, i)
    {
      FilterOrigin(RowKey, rows, {}, j);
      var i :| 0 <= i < |rows| && r[j] == rows[i] && FirstFresh(RowKey, rows, {}, i);
      forall k | 0 <= k < i
        ensures KeyOf(rows[k]) != KeyOf(rows[i])
      {
        RowKeyInjective(rows[k], rows[i]);
      }
      assert IsFirstOccurrence(rows, i);
    }
    assert forall j :: 0 <= j < |UniqueFindings(rows)| ==>
      exists i :: 0 <= i < |rows| && UniqueFindings(rows)[j] == rows[i] && IsFirstOccurrence(rows, i);
  }

  /** With the input in `found`-descending order, the kept row of each tuple is
      at least as recent as every input row with that tuple. */
  lemma UniqueKeepsMostRecent(rows: seq<Finding>)
    requires SortedByFoundDesc(rows)
    ensures forall i, j ::
      (0 <= i < |rows| && 0 <= j < |UniqueFindings(rows)| && KeyOf(rows[i]) == KeyOf(UniqueFindings(rows)[j]))
      ==> rows[i].found <= UniqueFindings(rows)[j].found
  {
    var r := UniqueFindings(rows);
    UniqueKeepsFirst(rows);
    forall i, j | 0 <= i < |rows| && 0 <= j < |r| && KeyOf(rows[i]) == KeyOf(r[j])
      ensures rows[i].found <= r[j].found
    {
      var i0 :| 0 <= i0 < |rows| && r[j] == rows[i0] && IsFirstOccurrence(rows, i0);
      assert !(i < i0);
    }
  }

  /** Deduplicating twice is the same as deduplicating once. */
  lemma UniqueIdempotent(rows: seq<Finding>)
    ensures UniqueFindings(UniqueFindings(rows)) == UniqueFindings(rows)
  {
    FilterFresh(RowKey, rows, {});
    FilterKeepsFreshRows(RowKey, UniqueFindings(rows), {});
  }

  lemma KeysOfTransfer(key: Finding -> string, p: seq<Finding>, x: Finding)
    requires forall k :: 0 <= k < |p| ==> (key(p[k]) == key(x) <==> KeyOf(p[k]) == KeyOf(x))
    ensures key(x) in KeysOf(key, p) <==> exists k :: 0 <= k < |p| && KeyOf(p[k]) == KeyOf(x)
  {
    KeysOfMembership(key, p, key(x));
  }

  /** A row's key string was seen among `p` exactly when some row of `p` has its tuple. */
  lemma SeenIffEarlierTuple(p: seq<Finding>, x: Finding)
    ensures RowKey(x) in KeysOf(RowKey, p) <==> exists k :: 0 <= k < |p| && KeyOf(p[k]) == KeyOf(x)
  {
    forall k | 0 <= k < |p|
      ensures RowKey(p[k]) == RowKey(x) <==> KeyOf(p[k]) == KeyOf(x)
    {
      RowKeyInjective(p[k], x);
    }
    KeysOfTransfer(RowKey, p, x);
  }

  /** The seen-set filter agrees with the reference definition on every input. */
  lemma {:induction false} UniqueMatchesFirstOccurrences(rows: seq<Finding>)
    ensures UniqueFindings(rows) == FirstOccurrences(rows)
    decreases |rows|
  {
    if |rows| > 0 {
      var n := |rows| - 1;
      var p, x := rows[..n], rows[n];
      var seenBefore := RowKey(x) in KeysOf(RowKey, p);
      assert UniqueFindings(rows) == UniqueFindings(p) + (if seenBefore then [] else [x]) by {
        assert rows == p + [x];
        FilterSnoc(RowKey, p, x, {});
      }
      assert seenBefore <==> exists k :: 0 <= k < n && KeyOf(rows[k]) == KeyOf(rows[n]) by {
        SeenIffEarlierTuple(p, x);
        assert forall k :: 0 <= k < n ==> p[k] == rows[k];
      }
      UniqueMatchesFirstOccurrences(p);
    }
  }

  /** The loop form of the filter: one pass with a mutable set of seen keys. */
  method UniqueFindingsLoop(rows: seq<Finding>) returns (r: seq<Finding>)
    ensures r == UniqueFindings(rows)
    ensures DistinctKeys(r) && |r| <= |rows|
  {
    var seen: set<string> := {};
    r := [];
    var i := 0;
    while i < |rows|
      invariant 0 <= i <= |rows|
      invariant r + Filter(RowKey, rows[i..], seen) == UniqueFindings(rows)
    {
      var k := RowKey(rows[i]);
      assert rows[i..][1..] == rows[i + 1..];
      if k !in seen {
        assert r + Filter(RowKey, rows[i..], seen) == (r + [rows[i]]) + Filter(RowKey, rows[i + 1..], seen + {k});
        seen := seen + {k};
        r := r + [rows[i]];
      }
      i := i + 1;
    }
    assert rows[i..] == [];
    UniqueDistinctKeys(rows);
  }
}
