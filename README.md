# Grade aggregation engine, modelled in Dafny

This project models `analyze_data.py`, the engine that turns per-student raw assignment
scores into an instructor's grade report. It covers:

- column discovery, where every student must have the same assignments;
- normalisation of each raw record to one number, as `max(total, effort) + max(composition, revision)`;
- the score table and the pruning of columns whose maximum is 0;
- the per-row queries: exam alias lookups, prefix sums and "recent effort";
- the Total with its midterm recovery policy;
- the assembled report, which is pruned again and sorted by whole rows.

Scores are exact `real`s. A table is a `Frame`: a header of column labels and one `Row`
per student. Each `Row` holds the student's label and one value per column. The input
`all_scores` is the sequence of `(student, assignments)` pairs in dictionary order. An
assignment maps to its raw record of sub-fields.

Modules, one per component:

- `Outcomes`: `Option`, `Result` and `Failure`. `Failure` has one constructor per exception the source can raise.
- `Lex`: lexicographic order on sequences. It is Python's string order and the order `sort_values` gives rows.
- `Columns`: `get_columns` and `sanitize_scores`.
- `Frames`: the table, `remove_all_0s` and `to_frame`.
- `Queries`: `by_cat`, `recent_effort`, `for_assignments`, the alias lists and `QUERIES`.
- `Totals`: `total` and `midterm_recovery`.
- `Report`: `matches_exam` and `run_queries`.

Three loops of the source are methods with loop invariants: `sanitize_scores`, which fills
a zero array; `recent_effort`, which overwrites its three variables; and `matches_exam`,
which or-s its result. The early-return scan of `for_assignments` is a method too. Each
method is proved equal to the function the rest of the model uses. Everything else is
expressions and comprehensions, so it is written as functions.

Errors the code raises are modelled as `Err` values, not excluded by preconditions:

- `get_columns` unpacks a one-element set. It fails with no students (`NoStudents`) and
  with two different key sets (`InconsistentColumns`).
- `total` evaluates `col[3]` for a column named exactly `"lab"`, which raises IndexError (`BareLabColumn`).
- `total` reads `data.midterm1`, `data.midterm1extra` and `data.midterm2`. A missing
  column, for example one pruned for being all zero, raises AttributeError (`MissingColumn`).
- With no column starting with "disc" or "lab", the three participation sums are the
  integer 0, and `participation.clip` fails (`NoParticipationColumns`).
- `sort_values` refuses a label that is not unique. A raw column named like a report
  column ("hw", "proj", "Total", ...) that survives pruning makes `run_queries` fail
  (`DuplicateColumnLabel`).

Modelling choices about how the code behaves:

- The recovery gap is clipped to [0, 10000], as the code's `clip(0, 10000)` does.
- The sort is not promised to be stable; pandas uses a non-stable sort for a single key.
- `remove_all_0s` drops by label, as `DataFrame.drop` does. With duplicate labels,
  every column carrying an all-zero label goes.
- A table with no rows has a NaN maximum, so nothing is dropped from it.

## Model

| member | source | states |
|---|---|---|
| `Columns.GetColumns` | analyze_data.py:5-7 | succeeds exactly when there is a student and all students have the same key set; fails with NoStudents on no students, InconsistentColumns otherwise; the result is strictly sorted and holds exactly every student's keys |
| `Columns.SortedKeys` | analyze_data.py:6 | `sorted` of a key set: strictly sorted in string order, with exactly the set's elements |
| `Lex.StrBelowIsStrictTotalOrder` | analyze_data.py:6 | Python's string order is irreflexive, transitive and total |
| `Lex.LessTotal` | analyze_data.py:6 | any two sequences are equal or one sorts lexicographically before the other |
| `Lex.LessTransitive` | analyze_data.py:100 | lexicographic order is transitive |
| `Columns.Normalize` | analyze_data.py:12 | a record's score is the largest of the four sums of a total/effort value and a composition/revision value, absent sub-fields read as 0; it is non-negative when all sub-fields are |
| `Columns.IndexOf` | analyze_data.py:12 | `cols.index(k)`: a position holding `k` with no earlier one |
| `Columns.Sanitized` | analyze_data.py:9-13 | one value per column; at `cols.index(k)` the normalised record of every assignment `k`; 0 under every column the student lacks |
| `Columns.SanitizeScores` | analyze_data.py:9-13 | the loop that fills the zero vector one assignment at a time yields exactly `Sanitized` |
| `Frames.SeqMax` | analyze_data.py:16 | `agg('max')` of a column: a member of it, at least every entry |
| `Frames.KeptColumns` | analyze_data.py:16 | the kept positions are increasing and are exactly the columns whose label is not the label of an all-zero column |
| `Frames.RemoveAllZeros` | analyze_data.py:15-16 | rows and students stay, the kept columns keep their order and values, and no column of the result has maximum 0 |
| `Frames.RemoveAllZerosKeepsExactly` | analyze_data.py:15-16 | with distinct labels a column is kept exactly when its maximum is not 0 |
| `Frames.RemoveAllZerosIdempotent` | analyze_data.py:15-16 | pruning a pruned table changes nothing |
| `Frames.ToFrame` | analyze_data.py:18-24 | fails exactly as get_columns does; otherwise one row per student in input order, sorted columns, each cell the normalised record of that student and assignment, and an assignment kept exactly when its best score is not 0 |
| `Frames.UnprunedKeeps` | analyze_data.py:18-24 | an assignment survives the pruning in to_frame exactly when the maximum of its normalised scores is not 0 |
| `Queries.SumWhereUnion` | analyze_data.py:27 | sums by name test count each column once: the sums under "either" and "both" add up to the sums under the two tests |
| `Queries.SumWhereNonNegative` | analyze_data.py:27 | a category sum of non-negative scores is non-negative |
| `Queries.ByCat` | analyze_data.py:26-27 | the sum over the columns starting with the prefix: 0 when none does, non-negative for non-negative scores |
| `Queries.LastMatch` | analyze_data.py:29-37 | the position of the last column with the prefix; none when no column has it |
| `Queries.RecentEffort` | analyze_data.py:29-38 | the loop returns twice the last "disc" and last "lab" value (the latter also matching "labc" columns) plus the last "hw" value, 0 for an absent one |
| `Queries.AliasLookup` | analyze_data.py:40-46 | the value of the first alias, in argument order, that names a column; 0 when none does |
| `Queries.ForAssignments` | analyze_data.py:41-45 | the early-return scan over the aliases yields `AliasLookup` |
| `Queries.FinalQueryAbsent` | analyze_data.py:78 | with no "final" column the "final" query reads 0 |
| `Totals.MidtermRecovery` | analyze_data.py:61-64 | never lowers the score for non-negative currency, never adds more than the currency; with non-negative currency a score at or above half the maximum is unchanged (negative currency is added as it is); below half it gains exactly `min(recovery, (max/2 - score)/2)` when the gap is at most 10000, and stays below half |
| `Totals.MidtermRecoveryMonotone` | analyze_data.py:61-64 | a higher midterm score never yields a lower recovered score |
| `Totals.ParticipPoints` | analyze_data.py:67 | the points lie in [0, 10]: participation inside that range, 10 at or above 10, 0 at or below 0 |
| `Totals.ParticipRecovery` | analyze_data.py:66-68 | the currency lies in [0, 20] and with the points adds up to participation clipped to [0, 30] |
| `Totals.TotalFailure` | analyze_data.py:52-67 | total returns a value exactly when there is no column "lab", the three midterm columns exist and some column starts with "disc" or "lab"; a "lab" column raises first, then a missing midterm1, midterm1extra, midterm2 in that order, then the missing participation columns |
| `Totals.Compose` | analyze_data.py:70-75 | the Total lies between the unrecovered sum of midterms, final (0), project, homework and participation points, and that sum plus twice the pool; when both midterms are far enough below half, each gains the whole pool, so the pool is shared, not split |
| `Totals.Total` | analyze_data.py:52-75 | the Total told through the display queries: one pool from the "disc" plus "lab" queries recovers midterm1 + midterm1extra (max 40) and midterm2 (max 50), plus 0 for the final, the project sum, the "hw" query and the participation points |
| `Totals.TotalLabSplit` | analyze_data.py:54-55 | the Total's lab and lab-checkoff sums never share a column and add up to the display query `by_cat("lab")` |
| `Totals.TotalMatchesDisplayQueries` | analyze_data.py:53-66 | the Total's participation is the "disc" query plus the "lab" query, and its homework is the "hw" query |
| `Totals.TotalProjectCountsOnce` | analyze_data.py:57 | a column both starting with "proj" and containing "checkpoint" counts once in the project sum |
| `Report.MatchesExam` | analyze_data.py:88-92 | the or-loop yields `IsExam`: true exactly for the aliases in FINAL, MIDTERM_1 and MIDTERM_2 |
| `Report.NonExam` | analyze_data.py:96 | the positions of the non-exam columns, increasing, all of them |
| `Report.Assemble` | analyze_data.py:94-98 | column 0 is "Total" with each student's Total; columns 1..8 are the QUERIES names with each query's value on the student's row; the rest are exactly the non-exam columns of the input, in input order, with every student's values unchanged |
| `Report.SortRows` | analyze_data.py:100 | the rows sorted ascending by whole row, and a permutation of the input rows |
| `Report.RunQueries` | analyze_data.py:94-100 | for a table with distinct labels, as to_frame builds: fails as total fails; otherwise fails exactly when two surviving labels coincide, and else returns the pruned assembled columns with rows sorted and a permutation of the pruned rows |
| `Report.RunQueriesSucceeds` | analyze_data.py:97-100 | with distinct raw labels and no non-exam label equal to a report label, run_queries fails only where total fails (a raw "final" column is allowed) |

## Left out

- pandas and numpy internals (`DataFrame`, `apply`, `agg`, `drop`, `concatenate`, `zeros`)
  are replaced by sequences of rows. The vectorised calls are modelled one row or one column at a time.
- `matches_exam` is applied to the whole column index at once in the source. The model applies it to one label.
- Floating-point rounding is not modelled. Scores are exact reals, so `max_score / 2` and the halving are exact.
- The tie order of `sort_values` is not modelled. Its algorithm is not visible. `SortRows` is a stable
  insertion sort, and `Report.RunQueries` promises only "sorted and a permutation".
- Loading `all_scores` and printing or saving the report are not part of the file. Neither is modelled.
- `Totals.Total`, `Totals.BreakdownOf` and `Totals.TotalFailure` are modelled for tables with distinct labels, as
  `to_frame` produces. With a repeated label, pandas' `data[col]` returns every column with that label once per
  occurrence, and the Total is no longer a per-student number; the model does not describe that case.
  `Report.RunQueries` requires distinct labels for this reason.
- Score values are assumed numeric. A non-numeric sub-field would make Python raise, and that error is not modelled.
