# Merge utilities: a verified model

This project models the table operations of `merge_utils.py`, a small
library behind an interactive tool that joins two uploaded tables. It covers:

- `do_merge`: a key-equality join of kind inner, left, right or outer, with
  suffixes for column names the two sides share;
- `anti_join`: the rows of one table whose key does not occur in the other's;
- `_with_suffix` and `filter_columns`: after a merge, keep the columns the user
  picked from each side, finding each picked name as it is or with its side's
  suffix;
- `build_summary_stats`: row counts, distinct-key counts, matched keys and
  excluded rows.

A table is a list of column names and a list of rows (`Tables.Table`). A cell is
a number, a text or a missing value (`Tables.Value`). The errors the code raises
are values of `Tables.Error`:

- `MissingKeyArgument` is do_merge's `ValueError` for a missing or empty key.
- `InvalidDirection` is anti_join's `ValueError` for an unknown direction.
- `ColumnNotFound` is the `KeyError` raised when a key column does not exist.

The join the data-frame library performs inside `do_merge` is written out
(module `Merge`). Its output rows are described by "slots": a slot pairs at
most one row of A with at most one row of B. Inner slots are the key-equal
pairs, in A order and then B order. A left join adds each unmatched A row on
its own. A right join is the mirror image. An outer join is the left join
plus the unmatched B rows.

When both keys have the same name, the library keeps a single key column:
B's key column is dropped, and a row with no A side takes B's key value there.
Names then shared by the two sides get the first suffix on A's side and the
second on B's side. Other names are unchanged.

`filter_columns` is imperative in the source: two loops append to a list. It
is modelled as the method `ColumnFilter.FilterColumns`, proved equal to the
specification function `ColumnFilter.Filtered`.

Files: `tables.dfy` (data model), `merge.dfy`, `anti_join.dfy`,
`column_filter.dfy`, `summary_stats.dfy`, and `join_partition.dfy` (how the
merge kinds' row counts relate through the anti-join).

### Where the design description and the code differ (the model follows the code)

- **Missing keys in anti_join and in matching.** The design description says a
  missing key never matches. The code's `isin` (merge_utils.py:68, 71, 179, 181)
  and the library's merge both treat a missing key as equal to another missing
  key. The model does the same: `Null` is an ordinary value for matching. Only
  the distinct-key counts drop missing values (merge_utils.py:170-174).
- **excluded_rows.** The design description counts the excluded side's rows
  whose key *was* found on the other side. The code sums `~isin`, i.e. the rows
  whose key was *not* found (merge_utils.py:178-181). `SummaryStats.ExcludedIsAntiJoin`
  proves that this equals the anti-join's row count.
- **Key columns in filter_columns.** The design description says the key
  columns stay in the output even when not requested. The code's key step
  (merge_utils.py:128-136) only considers a key that was requested, and such a
  key was already resolved and appended by the loops. So that step never adds
  anything, and an unrequested key column is dropped. `ColumnFilter.FilterColumns`
  runs the key step and is proved equal to `Filtered`, whose selection ignores
  the keys. `ColumnFilter.FilteredColumns` and `ColumnFilter.FilterExample`
  show that a key nobody asked for is not kept.
- **Two key columns.** The design description keeps both key columns. The code
  passes `left_on`/`right_on` to the library, which merges two key columns
  with the same name into one. The model does the same (`Merge.RightColumns`,
  `Merge.MissingLeft`).

## Model

| member | source | states |
|---|---|---|
| Tables.IndexOf | merge_utils.py:68 | a column lookup by name finds the first column of that name, and finds none exactly when the name is absent |
| AntiJoins.KeepRows | merge_utils.py:68-69 | selecting rows by a membership mask keeps no more rows than it is given |
| AntiJoins.Exclude | merge_utils.py:68-69 | the anti-join result keeps the query table's columns and at most its rows |
| AntiJoins.KeepRowsMembers | merge_utils.py:68-69 | a row is kept exactly when it is an input row whose key membership in the other key set is the one asked for |
| AntiJoins.KeepRowsAppend | merge_utils.py:68-69 | the mask selection keeps rows in their original order: selecting from a concatenation concatenates the selections |
| AntiJoins.KeepRowsPartition | merge_utils.py:68-69 | the rows kept and the rows dropped together are exactly the input rows (as a multiset), and their counts add up |
| AntiJoins.AntiJoin | merge_utils.py:57-74 | an unknown direction is an error; a known one succeeds exactly when both key columns exist; the result has the query side's columns and at most its rows |
| AntiJoins.AntiJoinPartition | merge_utils.py:67-69 | the A-not-in-B anti-join and the A rows whose key is in B partition A's rows |
| AntiJoins.AntiJoinAnotInB | merge_utils.py:67-69 | A_not_in_B keeps exactly the A rows whose key equals no B key, and only A rows |
| AntiJoins.AntiJoinBnotInA | merge_utils.py:70-72 | B_not_in_A keeps exactly the B rows whose key equals no A key, and only B rows |
| AntiJoins.AntiJoinExample | test_merge_utils.py:117-132 | A keys 1-4 against B keys 2, 3 give exactly the rows with keys 1 and 4 |
| Merge.Partners | merge_utils.py:46-53 | the B rows an A row joins with are exactly those with an equal key, in B order, and there are none exactly when the key is absent from B |
| Merge.InnerSlots | merge_utils.py:46-53 | inner join rows are exactly the pairs of an A row and a B row with equal keys, ordered by A row and then by B row |
| Merge.LeftSlots | merge_utils.py:46-53 | left join rows are the key-equal pairs plus each A row matching no B row alone, in A order |
| Merge.RightSlots | merge_utils.py:46-53 | right join rows are the key-equal pairs plus each B row matching no A row alone, in B order |
| Merge.OuterSlots | merge_utils.py:46-53 | outer join rows are the left join's rows plus each B row matching no A row |
| Merge.Combine | merge_utils.py:46-53 | the output column list is as long as both sides' contributed lists together |
| Merge.RightColumns | merge_utils.py:46-53 | B contributes all its columns, or, when the keys share a name, all but its key column (one fewer, every other name kept) |
| Merge.RightCells | merge_utils.py:46-53 | a B row contributes all its cells, or, when the keys share a name, its cells with the key cell taken out and the later ones moved up by one |
| Merge.MissingLeft | merge_utils.py:46-53 | a row with no A side is missing everywhere on A's side, except that it carries B's key in A's key column when the keys share a name |
| Merge.Join | merge_utils.py:46-53 | the joined table has as many columns as A's plus those B contributes; their names are stated by `MergeColumnNames` and `CombineNames` |
| Merge.Provided | merge_utils.py:43 | a key argument is refused exactly when it is None or the empty text |
| Merge.DoMerge | merge_utils.py:34-54 | a key argument that is None or empty is refused before merging; otherwise the merge succeeds exactly when both key columns exist, and a missing key column is reported by name, B's first (the library looks up the right key before the left one) |
| Merge.InnerSlotsCount | merge_utils.py:46-53 | an inner join has as many rows as there are key-equal pairs (N x M per shared key) |
| Merge.LeftSlotsCount | merge_utils.py:46-53 | a left join has the inner join's rows plus one per A row matching no B row |
| Merge.RightSlotsCount | merge_utils.py:46-53 | a right join has one row per key-equal pair plus one per B row matching no A row |
| Merge.OuterSlotsCount | merge_utils.py:46-53 | an outer join has one row per key-equal pair plus one per unmatched row on either side |
| Merge.JoinMatchedRows | merge_utils.py:46-53 | in every kind of join, each key-equal pair yields the row of A's cells followed by B's contributed cells |
| Merge.JoinUnmatchedLeft | merge_utils.py:46-53 | left and outer joins keep each unmatched A row, padded with missing values |
| Merge.JoinUnmatchedRight | merge_utils.py:46-53 | right and outer joins keep each unmatched B row, with a missing A side carrying B's key when the key names agree |
| Merge.InnerJoinRows | merge_utils.py:46-53 | an inner do_merge has exactly one row per key-equal pair, each output row comes from such a pair, and each pair gives a row |
| Merge.JoinRowOrigin | merge_utils.py:46-53 | every row of a join comes from a key-equal pair, or (left and outer) from an A row whose key B lacks, or (right and outer) from a B row whose key A lacks |
| Merge.LeftJoinRows | merge_utils.py:46-53 | a left do_merge has the stated row count, each output row is a key-equal pair's row or a padded unmatched A row, every key-equal pair gives a row, and every unmatched A row is kept padded |
| Merge.RightJoinRows | merge_utils.py:46-53 | a right do_merge has the stated row count, each output row is a key-equal pair's row or an unmatched B row behind a missing A side, every key-equal pair gives a row, and every unmatched B row is kept |
| Merge.OuterJoinFacts | merge_utils.py:46-53 | the outer join's row count, the origin of each of its rows, and the presence of every pair and every unmatched row of both sides |
| Merge.OuterJoinRows | merge_utils.py:46-53 | an outer do_merge has the stated row count, each output row is a key-equal pair's row or an unmatched row of either side, and every row of both sides is kept |
| Merge.MergeWellFormed | merge_utils.py:46-53 | merging tables whose rows have one cell per column gives such a table |
| Merge.CombineNames | merge_utils.py:52 | a name on one side only is kept unchanged, a name on both sides appears with each side's suffix, and nothing else appears |
| Merge.RemoveAt | merge_utils.py:46-53 | dropping B's key column removes exactly one entry and keeps every other name |
| Merge.MergeColumnNames | merge_utils.py:46-53 | the output columns are A's columns combined (as `CombineNames` states) with B's, less B's key when both keys have the same name, so there is one column fewer then |
| Merge.ExampleRows | test_merge_utils.py:98-112 | the test's inner join of keys 1-3 with keys 2-4 has two rows |
| Merge.ExampleJoinColumns | test_merge_utils.py:98-114 | the test's inner join has columns key, value_a, value_b |
| Merge.InnerJoinExample | test_merge_utils.py:98-114 | A keys 1-3 inner-joined with B keys 2-4 give 2 rows carrying value_a and value_b |
| ColumnFilter.WithSuffix | merge_utils.py:77-78 | the suffixed name is the column name followed by the suffix |
| ColumnFilter.Resolve | merge_utils.py:106-114 | a resolved name is a merged column equal to the request or the request plus suffix; the exact name wins; none exactly when neither exists |
| ColumnFilter.ResolveAll | merge_utils.py:116-126 | every resolved name is a merged column, at most one per request |
| ColumnFilter.Requests | merge_utils.py:97-100 | an absent list of requested columns is the empty list; a given one is used as is |
| ColumnFilter.Selection | merge_utils.py:116-126 | the selected names are merged columns, at most one per request of either side |
| ColumnFilter.Filtered | merge_utils.py:138-142 | filter_columns keeps every row, never invents a column, and returns either the merged table or at most one column per request |
| ColumnFilter.KeepPresent | merge_utils.py:142 | keeps exactly the selected names that are merged columns |
| ColumnFilter.Project | merge_utils.py:142 | the projection has the selected columns, every row, and one cell per selected column |
| ColumnFilter.ResolveAllMembers | merge_utils.py:116-126 | a name is selected exactly when some request resolves to it |
| ColumnFilter.ResolveAllAppend | merge_utils.py:116-126 | requests are resolved in order: resolving a concatenation concatenates the resolutions |
| ColumnFilter.KeepPresentAll | merge_utils.py:142 | the final presence filter changes nothing when every selected name is a column |
| ColumnFilter.FilterColumns | merge_utils.py:81-142 | the loops and the key step together return the projection onto the names resolved from A's requests then B's, or the merged table when none resolves |
| ColumnFilter.FallbackWhenNothingResolves | merge_utils.py:138-140 | nothing is selected exactly when no request names a column as is or with its suffix, and then the merged table comes back whole |
| ColumnFilter.FilteredColumns | merge_utils.py:116-142 | when something is selected, the output columns are exactly the resolutions of the requests, so an unrequested key is dropped |
| ColumnFilter.ProjectKeepsValues | merge_utils.py:142 | each row keeps, under every selected name, the value it had in the merged table |
| ColumnFilter.FilterExample | merge_utils.py:106-126 | a request for "value" on B's side finds "value_B", and the unrequested key is not kept |
| JoinPartition.WhereIsKept | merge_utils.py:68-69 | the A rows whose key B lacks are as many counted by index (the merge) as selected by mask (the anti-join) |
| JoinPartition.MergeIsInnerPlusAntiJoins | merge_utils.py:34-74 | with both keys present, a left merge has the inner merge's rows plus A_not_in_B's, a right merge the inner rows plus B_not_in_A's, an outer merge all three |
| SummaryStats.NonNullKeys | merge_utils.py:170-174 | the distinct keys never include the missing value |
| SummaryStats.CountAbsent | merge_utils.py:179-181 | the count of keys absent from the other side is at most the number of keys |
| SummaryStats.BuildSummaryStats | merge_utils.py:145-191 | a missing key column is an error (A's first); row counts are the three tables' lengths; excluded rows are zero unless the kind is an anti-join, and then at most that side's rows |
| SummaryStats.NonNullKeysBound | merge_utils.py:170-171 | a column has no more distinct non-missing keys than rows |
| SummaryStats.SummaryBounds | merge_utils.py:170-175 | distinct keys are at most the row counts, and matched keys at most either side's distinct keys |
| SummaryStats.CountAbsentIsKept | merge_utils.py:179-181 | summing the negated membership mask counts the rows the anti-join keeps |
| SummaryStats.ExcludedIsAntiJoin | merge_utils.py:177-181 | for either anti-join kind, excluded rows equal the row count of that direction's anti-join |
| SummaryStats.MatchedKeysMeanInnerRows | merge_utils.py:173-175 | when some key is on both sides, the inner merge on those keys has at least one row |

## Left out

- `load_file`, `to_excel_bytes` and the web UI in `app.py`: file and byte I/O and presentation, not table logic.
- Key detection, validation, normalisation and quality analysis are not part of this model. They are described for the system but are not functions of `merge_utils.py`.
- Composite (multi-column) keys: `do_merge` and `anti_join` take one key name per side.
- Data types: cells are whole numbers, texts or missing. Floating point, dates, and dtype-driven matching (1 and 1.0, say) are not modelled. The model does not tell NaN from None: both are `Null`.
- Merge.OuterSlots: the outer join's row order is the left join followed by the unmatched B rows. The library instead sorts an outer join by key. The set of rows and their count are the same.
- The library's own merge errors are not modelled: shared names when both suffixes are empty, and duplicate column labels. Tables are taken as having distinct column names wherever a lookup by name matters (`Tables.IndexOf` finds the first).
- `build_summary_stats` takes any text for the join kind. A kind other than the two anti-join labels gives zero excluded rows, as in the code. `do_merge`'s join kind is an enumeration (`Merge.JoinKind`), because the library rejects other values itself.
- `.copy()` (merge_utils.py:69, 72, 142): the model is made of values, so a copy is the value itself.
- Merge.JoinColumns: when A has no rows and both keys have the same name, the data-frame library drops A's key column instead of B's (to keep the key's type). The output columns are then A's other columns followed by all of B's. The model always drops B's key column, so for an empty A each row holds the same value under each name, but the columns come in a different order.
- Merge.DoMerge: the library refuses to merge a numeric key column with a text key column (a `ValueError`). The model has no column types, so it returns `Ok` with such keys simply never equal.
- AntiJoins.AntiJoin: `df_a.loc[mask]` (merge_utils.py:69, 72) keeps each row's index label from A or B. Tables here are lists of rows without index labels, so the labels are not modelled; the rows and their order are.
