# RegistryScanner findings: deduplication and ERROR-first ordering

RegistryScannerUI is an administrative front-end for a package-scanning
pipeline. Its server-side gateway reads the `finding` table newest first
(by `found`, descending). Then it does two things before handing the list to
the page:

1. `uniqueFindings` collapses rows that describe the same finding. Two rows
   are the same when they agree on `category`, `type`, `level` and `body`.
   The comparison is made on the `JSON.stringify` of that 4-element array.
   A `Set` of seen key strings lets only the first row of each key through.
2. `getFindings` sorts the result so that rows with level `"ERROR"` come
   before all other rows. It relies on the sort being stable to keep the
   time order among the non-ERROR rows (line 30).

This project models both steps on immutable sequences of rows:

- `findings.dfy` (module `Findings`): the row, its key tuple, and the
  predicates the properties are stated with.
- `json_key.dfy` (module `JsonKey`): the key string built as `JSON.stringify`
  builds it. A parser for that string proves that the key string determines
  the tuple.
- `dedup.dfy` (module `Dedup`): the seen-set filter, written both as a
  function and as a loop. It also holds a reference definition by first
  occurrences, and the dedup properties.
- `errors_first.dfy` (module `ErrorSort`): the stable ERROR-first partition.
  It models the comparator as written and a corrected one. It also has an
  insertion sort parameterised by a comparator, which stands in for a stable
  `Array.prototype.sort`.
- `get_findings.dfy` (module `GetFindings`): `ListFindings`, the composition
  of dedup and sort, and the properties of what `getFindings` returns.
- `subsequences.dfy` and `wrappers.dfy`: generic helpers (an
  order-preserving subsequence relation, and `Option`).

The field `type` is called `kind` in the model, because `type` is a Dafny
keyword. `found` is the instant the query orders by, modelled as an integer.

## Model

| member | source | states |
|---|---|---|
| Dedup.UniqueIsSubsequence | RegistryScannerUI/src/lib/server/database.ts:76-79 | The filter only drops rows. What it returns is the input with some rows removed, with nothing reordered, changed or added. |
| Dedup.UniqueDistinctKeys | RegistryScannerUI/src/lib/server/database.ts:71-78 | No two returned rows agree on all of (category, type, level, body). |
| Dedup.UniqueCoversKeys | RegistryScannerUI/src/lib/server/database.ts:75-79 | Every (category, type, level, body) tuple present in the input is carried by some returned row. |
| Dedup.UniqueKeepsFirst | RegistryScannerUI/src/lib/server/database.ts:75-79 | Each returned row is the first input row with its tuple. |
| Dedup.UniqueKeepsMostRecent | RegistryScannerUI/src/lib/server/database.ts:19-23 | For input ordered by `found` descending, as the query delivers it, the row kept for a tuple is at least as recent as every input row with that tuple. |
| Dedup.UniqueIdempotent | RegistryScannerUI/src/lib/server/database.ts:70-80 | Deduplicating an already deduplicated list returns it unchanged. |
| Dedup.UniqueFindings | RegistryScannerUI/src/lib/server/database.ts:70-80 | The deduplicated list is never longer than its input. |
| Dedup.Filter | RegistryScannerUI/src/lib/server/database.ts:76-79 | For any key function and any starting set of seen keys, the filter never returns more rows than it is given. |
| Dedup.UniqueMatchesFirstOccurrences | RegistryScannerUI/src/lib/server/database.ts:70-80 | The seen-set filter equals an independent definition on every input. That definition keeps row n exactly when no earlier row has its tuple. |
| Dedup.UniqueFindingsLoop | RegistryScannerUI/src/lib/server/database.ts:75-79 | One pass with a mutable set of seen key strings computes the same list as the functional filter. Its result has distinct tuples and is no longer than the input. |
| Dedup.RowKey | RegistryScannerUI/src/lib/server/database.ts:71-73 | The inner `key` function: the JSON array string of a row's (category, type, level, body). No contract of its own. `RowKeyInjective` is its partner. |
| Dedup.RowKeyInjective | RegistryScannerUI/src/lib/server/database.ts:71-73 | Two rows get the same key string exactly when they agree on (category, type, level, body). |
| JsonKey.Stringify | RegistryScannerUI/src/lib/server/database.ts:72 | `JSON.stringify` of a 4-string array: `[`, the four quoted and escaped fields separated by commas, `]`. No contract of its own. `ParseStringify` gives its inverse and `StringifyInjective` its injectivity. |
| JsonKey.ParseStringify | RegistryScannerUI/src/lib/server/database.ts:72 | Reading back the JSON array string built for a key gives that key. |
| JsonKey.StringifyInjective | RegistryScannerUI/src/lib/server/database.ts:72 | Two keys give the same JSON array string if and only if they are equal. Quoting and escaping keep field boundaries, so `["a,b","c",…]` and `["a","b,c",…]` differ. |
| JsonKey.ReadEscapedBody | RegistryScannerUI/src/lib/server/database.ts:72 | Any string, escaped as `JSON.stringify` escapes a string literal's contents and followed by the closing quote, reads back as that string, with what follows the quote left untouched. |
| JsonKey.EscapeChar | RegistryScannerUI/src/lib/server/database.ts:72 | An escaped character never begins with a bare quote or a raw control character. It begins with a backslash exactly for the quote, the backslash and control characters. |
| ErrorSort.ErrorsFirst | RegistryScannerUI/src/lib/server/database.ts:23-33 | The corrected ERROR-first order: the ERROR rows, then the other rows, each group in input order. No contract of its own. The lemmas below state that it permutes, orders the levels and keeps group order, and `SortByCompareIsErrorsFirst` ties it to the corrected comparator. |
| ErrorSort.CompareAsWritten | RegistryScannerUI/src/lib/server/database.ts:24-32 | The comparator as written: -1 whenever the first row is ERROR, otherwise 1 when the second is ERROR, otherwise 0. No contract of its own. `CompareAsWrittenNotAntisymmetric` states what is wrong with it. |
| ErrorSort.SortBy | RegistryScannerUI/src/lib/server/database.ts:23 | Stands in for `.sort`: a stable insertion sort driven by a comparator. It inserts each row into the sorted rest, after the rows that compare below it. No contract of its own. `SortByPermutes`, `SortByCompareIsErrorsFirst` and `SortByAsWrittenReversesErrors` are its partners. |
| ErrorSort.ErrorsFirstPermutes | RegistryScannerUI/src/lib/server/database.ts:23 | The ERROR-first reordering returns the same rows with the same multiplicities. |
| ErrorSort.ErrorsFirstOrdersLevels | RegistryScannerUI/src/lib/server/database.ts:24-28 | Every ERROR row comes before every non-ERROR row. |
| ErrorSort.ErrorsFirstKeepsGroupOrder | RegistryScannerUI/src/lib/server/database.ts:29-31 | The non-ERROR rows keep their input order. The ERROR rows also keep it, which is the model's choice (see Findings). |
| ErrorSort.ErrorsFirstKeepsDistinctKeys | RegistryScannerUI/src/lib/server/database.ts:23-33 | Reordering a list whose tuples are distinct leaves them distinct. |
| ErrorSort.SortByPermutes | RegistryScannerUI/src/lib/server/database.ts:23 | A sort driven by any comparator, even an inconsistent one, only rearranges rows. |
| ErrorSort.SortByCompareIsErrorsFirst | RegistryScannerUI/src/lib/server/database.ts:23-33 | A stable insertion sort with the corrected comparator gives exactly the stable ERROR-first partition. |
| ErrorSort.CompareAsWrittenNotAntisymmetric | RegistryScannerUI/src/lib/server/database.ts:25-26 | The comparator as written is not antisymmetric: an ERROR row compares below itself. |
| ErrorSort.SortByAsWrittenReversesErrors | RegistryScannerUI/src/lib/server/database.ts:23-33 | With the comparator as written, the stable insertion sort keeps the non-ERROR rows in order but reverses the ERROR rows. |
| ErrorSort.AsWrittenSwapsErrorRows | RegistryScannerUI/src/lib/server/database.ts:25-26 | Take two ERROR rows, newest first. The model's insertion sort (`SortBy`) with the as-written comparator puts the older row first. The corrected one keeps the newer row first. |
| GetFindings.ListFindings | RegistryScannerUI/src/lib/server/database.ts:23-33 | The list `getFindings` returns: `UniqueFindings` of the query's rows, reordered by the corrected `ErrorsFirst`, not by `SortBy(CompareAsWritten, ·)` (see Findings). Its contract states that it shows exactly the deduplicated rows, with the same multiplicities. |
| GetFindings.GetFindingsDistinctKeys | RegistryScannerUI/src/lib/server/database.ts:23 | The rows `getFindings` returns have pairwise distinct tuples. |
| GetFindings.GetFindingsCoversKeys | RegistryScannerUI/src/lib/server/database.ts:23 | Every tuple read from the table appears in the result. |
| GetFindings.GetFindingsKeepsFirst | RegistryScannerUI/src/lib/server/database.ts:23 | Every returned row is the first row with its tuple in the query's order. |
| GetFindings.GetFindingsMostRecent | RegistryScannerUI/src/lib/server/database.ts:19-23 | With the query's `found`-descending order, every returned row is the most recent row with its tuple. |
| GetFindings.GetFindingsErrorsFirst | RegistryScannerUI/src/lib/server/database.ts:23-33 | In the result, every ERROR row precedes every non-ERROR row. |
| GetFindings.GetFindingsNonErrorOrder | RegistryScannerUI/src/lib/server/database.ts:29-31 | The result's non-ERROR rows are the deduplicated non-ERROR rows in query order, and so also a subsequence of the query's rows. |

## Left out

- Database access: the knex/MySQL connection (lines 5-16) and the query itself (line 19). The query's result is the input sequence. Its `found`-descending order is a precondition where a property depends on it.
- `getImportErrors`, `getPackagesByUUID`, `forceImportPackage`, `deleteImportError` and `deleteFinding` (lines 36-68) are single SQL statements with no logic of their own.
- Timestamps: the luxon decode in `mysqlTypeCast` (lines 82-90) and the local-time formatting of `found` (line 21). `found` stays the instant the rows were ordered by.
- The HTTP routes, page loaders and browser-side stores are not part of this model.
- NULL columns: every key field is a string. `JSON.stringify` would write `null` for a missing one.
- JsonKey.EscapeChar: lone UTF-16 surrogates, which `JSON.stringify` writes as `\udXXX`, are not modelled, because a Dafny `char` cannot hold one.
- ErrorSort.SortBy: the engine's actual sort algorithm is not modelled. A stable insertion sort stands in for it. For the as-written comparator, whose result depends on the algorithm, this is one permitted outcome and not the only one.
- ErrorSort.ErrorsFirst: it fixes the ERROR rows in input order. The code does not promise that order (see Findings). The model's `getFindings`, `GetFindings.ListFindings`, uses this corrected ordering.
- The comparator is not a consistent comparator in ECMAScript's sense, because it returns -1 for two ERROR rows in either order. The model follows the code for the as-written comparator and records the difference under Findings.

## Findings

| source | as written | input that shows it | evidently intended | confidence | as-written member | corrected member |
|---|---|---|---|---|---|---|
| RegistryScannerUI/src/lib/server/database.ts:25-26 | The comparator returns -1 whenever the first row is ERROR, including when both are ERROR. | Two ERROR rows with found 2 and found 1, in that (query) order. The model's insertion sort (`ErrorSort.SortBy`) returns them as found 1, found 2, so the older row comes first. ECMAScript leaves the order implementation-defined for this comparator, so another engine's algorithm may keep them. | Return 0 for two ERROR rows, as for two non-ERROR rows, so the time order from the query is kept within the ERROR group. | medium, not executed | ErrorSort.SortByAsWrittenReversesErrors | ErrorSort.SortByCompareIsErrorsFirst |
