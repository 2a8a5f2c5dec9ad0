# taskman: ranking, column selection and record formatting

A Dafny model of the logic at the heart of `taskman`, a command-line task
tracker written in Rust. Each task has a name, an optional description, a
cost in minutes, a priority, a creation date and an optional deadline. The
model covers three parts:

- **Ranking** (`src/task.rs`, `src/comparible_task.rs`). `make_comparible`
  sums the squared priorities and tags every task with its input position
  and a score. The score is `priority² / sqrt(sum) / cost`, plus
  `cost / max(minutes to deadline, 1)` when the task has a deadline. The
  tagged tasks are then sorted with the stable `Vec::sort` and reversed.
  The comparator `cmp` looks at the score alone.
- **Listing columns** (`src/task.rs`, `src/show_rule.rs`). `get_cols` picks
  columns from a fixed table of seven. `as_row` prints one cell per picked
  column. `ShowRule::from` turns two flags into a detail level.
- **The command-line record** (`src/main.rs`). `as_string` writes a task as
  seven comma-separated fields. `Completed` prints as `y` or `n`. Two
  helpers complete a date typed by the user toward an RFC 3339 (section
  5.6) date-time.

Modules, one per file:

| file | module | models |
|---|---|---|
| `rust_types.dfy` | `RustTypes` | `Option`, `u32` |
| `timestamps.dfy` | `Timestamps` | chrono's `DateTime<FixedOffset>`, and `num_minutes` of a signed duration |
| `scores.dfy` | `Scores` | the `f64` values a score can take: exact non-negative reals, `+inf` and NaN |
| `comparible_task.dfy` | `ComparibleTasks` | `src/comparible_task.rs` |
| `vec_ops.dfy` | `VecOps` | `Vec::sort` and `Vec::reverse` as used by `make_comparible` |
| `text.dfy` | `Text` | `u32::to_string`, comma joining, `str::split` |
| `show_rule.dfy` | `ShowRules` | `src/show_rule.rs` |
| `task.dfy` | `Tasks` | `src/task.rs` |
| `cli_task.dfy` | `CliTask` | the `Task`, `Completed` and date helpers of `src/main.rs` |

Things outside the program are passed in as parameters:

- The current time is a parameter. `as_comparible_task` reads the clock
  once for each task that has a deadline (`src/task.rs:120-123`), so
  `Tasks.Tagged` and `Tasks.MakeComparible` take one reading per task
  (`nows[k]` for task `k`); for a task without a deadline, `nows[k]` is
  ignored.
- The square root of the priority sum is the parameter `norm`. The
  requirement `IsSqrt` ties it to the sum.
- chrono's `to_rfc3339` and `to_rfc2822` are function-valued parameters of
  type `Renderer`.
- The local time's RFC 3339 rendering is the parameter `nowRfc3339`.

The two `Task` types of the program are modelled where each is defined:
`Tasks.Task` for `src/task.rs` and `CliTask.Task` for `src/main.rs`.

Behaviours of the code worth knowing:

- Tasks with equal scores come out in decreasing input position. The
  stable sort is followed by a reverse (`VecOps.SortThenReverse`,
  `Tasks.MakeComparible`).
- An all-zero-priority batch scores NaN everywhere (`0/0`). `cmp` then ties
  every pair, so the ranking is the input reversed
  (`Tasks.AllNaNRankingIsReversed`).
- A cost of 0 is accepted. A task with positive priority then scores
  `+inf`. A task with zero priority and zero cost scores NaN, next to
  finite scores. That breaks the total order `Vec::sort` relies on, so
  `MakeComparible` requires that this does not happen (`ConsistentScores`).

## Model

| member | source | states |
|---|---|---|
| `Timestamps.MinutesUntil` | src/task.rs:124 | `num_minutes` of the signed difference: never positive for a deadline at or before "now"; otherwise a non-negative count of whole minutes that fit in the difference, rounded down |
| `Timestamps.DeadlineAheadCountsWholeMinutes` | src/task.rs:124 | a deadline at least `m` minutes ahead is counted as at least `m` whole minutes away |
| `Scores.Div` | src/task.rs:118-119 | `f64` division by a non-negative divisor: NaN exactly for NaN or `0/0`; `+inf` for `+inf` or a positive value over 0; the exact quotient otherwise |
| `Scores.Add` | src/task.rs:126 | `f64` addition of a finite term keeps NaN and `+inf` and adds to a finite value |
| `Scores.Below` | src/comparible_task.rs:28-30 | `f64` `<` on scores: two finite scores compare by value, only a finite score is below anything, nothing is below NaN, and every finite score is below `+inf`; `BelowIsStrictOrder` and `BelowIsTotalWithoutNaN` state the order laws |
| `Scores.BelowIsStrictOrder` | src/comparible_task.rs:28-30 | `f64` `<` on scores is irreflexive, asymmetric and transitive, and NaN is unordered with everything |
| `Scores.BelowIsTotalWithoutNaN` | src/comparible_task.rs:28-33 | without NaN, two scores are ordered one way or the other, or are equal |
| `ComparibleTasks.New` | src/comparible_task.rs:15-19 | `new(task, comparitor, index)` stores its three arguments unchanged |
| `ComparibleTasks.Cmp` | src/comparible_task.rs:27-35 | `Less` iff this score is `<` the other's, `Greater` iff it is `>`, `Equal` iff neither |
| `ComparibleTasks.PartialCmp` | src/comparible_task.rs:39-41 | `partial_cmp` is never `None` and always carries `cmp`'s answer |
| `ComparibleTasks.CmpReflexive` | src/comparible_task.rs:27-35 | `cmp(a, a)` is `Equal`, NaN included |
| `ComparibleTasks.CmpAntisymmetric` | src/comparible_task.rs:27-35 | `cmp(a, b)` is `Less` iff `cmp(b, a)` is `Greater`, and `Equal` iff `cmp(b, a)` is `Equal` |
| `ComparibleTasks.CmpOnlyReadsComparitor` | src/comparible_task.rs:27-35 | `cmp` depends on the two scores only, never on `task` or `index` |
| `ComparibleTasks.CmpEqualIffSameScore` | src/comparible_task.rs:27-35 | without NaN, `cmp` is `Equal` exactly when the scores are equal |
| `ComparibleTasks.CmpNaNIsEqualToAll` | src/comparible_task.rs:27-35 | a NaN score is `Equal` to every score in both directions |
| `ComparibleTasks.CmpTransitive` | src/comparible_task.rs:27-35 | among scores that are all NaN or all not NaN, "not `Greater`" and "`Less`" are transitive, so `cmp` is a total preorder |
| `VecOps.StableSort` | src/task.rs:112 | `Vec::sort`: the result is a permutation, ascending by `cmp`, and equal scores keep their input order |
| `VecOps.InsertLeft` | src/task.rs:112 | one insertion step keeps a permutation and extends the stably sorted prefix by one element |
| `VecOps.StepLeft` | src/task.rs:112 | one move of an insertion step: the travelling element swaps with a `Greater` left neighbour, the contents stay a permutation and the insertion invariant holds one position further left |
| `VecOps.Reverse` | src/task.rs:113 | `Vec::reverse`: element `k` becomes element `n - 1 - k`, a permutation |
| `VecOps.SortThenReverse` | src/task.rs:112-113 | a permutation with the highest score first and equal scores in decreasing input position |
| `Text.NatToString` | src/task.rs:56-57 | `u32::to_string` is a non-empty string of decimal digits with no leading zero |
| `Text.NatToStringRoundTrip` | src/main.rs:49-50 | the decimal rendering reads back as the same number, so no two costs or priorities print alike |
| `Text.SplitJoin` | src/main.rs:42 | splitting a comma-joined list of comma-free fields on `,` gives the fields back |
| `ShowRules.From` | src/show_rule.rs:12-20 | `Verbose` iff `verbose`; `Complete` iff not `verbose` and `complete`; `Required` iff neither flag |
| `ShowRules.DeclarationOrder` | src/show_rule.rs:4-9 | the derived order is `Verbose < Complete < Required`, a strict total order |
| `ShowRules.FromIsAntitone` | src/show_rule.rs:12-20 | setting either flag never moves the rule later in that order |
| `Tasks.SelectColumns` | src/task.rs:92-96 | the `filter`/`map` pipeline keeps the table's order: its result is a subsequence of the table's names |
| `Tasks.SelectColumnsMembership` | src/task.rs:92-96 | a column is selected iff some table entry names it and its tag passes the filter at this level |
| `Tasks.GetCols` | src/task.rs:81-97 | `get_cols` lists table names in table order |
| `Tasks.GetColsRequired` | src/task.rs:82-96 | `get_cols(false)` is exactly `["task", "deadline"]` |
| `Tasks.GetColsVerbose` | src/task.rs:82-96 | `get_cols(true)` is all seven columns in table order |
| `Tasks.RequiredColumnsAreVerboseSubsequence` | src/task.rs:94 | on any table, the plain selection is an order-preserving subsequence of the verbose one |
| `Tasks.GetColsRequiredWithinVerbose` | src/task.rs:82-96 | `get_cols(false)` is an order-preserving subsequence of `get_cols(true)` |
| `Tasks.GetColsAreKnown` | src/task.rs:65-74 | every name `get_cols` returns is one that `as_row` handles, so its `unreachable!` arm is never taken |
| `Tasks.OptionalTimeAsString` | src/task.rs:43-48 | an absent time renders as `""`, a present one as its RFC 2822 rendering |
| `Tasks.CellByName` | src/task.rs:50-75 | the cell under each of the seven column names is the matching field: name, description or `""`, cost and priority in decimal, RFC 2822 dates, `""` for an absent date |
| `Tasks.Cell` | src/task.rs:66-74 | the `match` arm of `as_row` for one known column name; `CellByName` states, name by name, which field each arm pushes |
| `Tasks.Row` | src/task.rs:62-76 | the row has exactly one cell per column of `get_cols` |
| `Tasks.AsRow` | src/task.rs:50-79 | the loop builds the row: one cell per selected column, cell `i` being the field named by column `i` |
| `Tasks.VerboseRow` | src/task.rs:50-79 | a verbose row is name, description, cost, priority, completion date, deadline, creation date; absent ones are `""` |
| `Tasks.RequiredRow` | src/task.rs:50-79 | a plain row is the name and the deadline, `""` when there is none |
| `Tasks.TotalPrioSquared` | src/task.rs:101-104 | the fold's sum bounds every task's squared priority, and is 0 iff every priority is 0 |
| `Tasks.PartialSumsBounded` | src/task.rs:101-104 | every partial sum of the fold is at most the total, so a total within `u32` never overflows on the way |
| `Tasks.UrgencyMinutes` | src/task.rs:124-125 | `max(minutes, 1)`: the urgency divisor equals the minutes to the deadline when they are at least 1, and is 1 when they are at most 1 (a passed deadline, or one less than a minute ahead) |
| `Tasks.AsComparibleTask` | src/task.rs:117-129 | keeps the task and index; score NaN iff priority 0 and the sum or cost is 0; `+inf` iff priority positive and the sum or cost is 0; otherwise `priority²/norm/cost`, plus `cost/minutes` with a deadline |
| `Tasks.RoiCases` | src/task.rs:118-119 | the three outcomes of `priority² / norm / cost` in `f64`: NaN, `+inf`, or the exact quotient |
| `Tasks.SingleTaskScore` | src/task.rs:101-121 | one task with cost 10, priority 5 and no deadline: the sum is 25 and the score is 0.5 |
| `Tasks.PassedDeadlineUrgencyIsCost` | src/task.rs:122-127 | a deadline now or in the past counts as 1 minute, so the score is the value density plus the whole cost |
| `Tasks.NoDeadlineOrderFollowsDensity` | src/task.rs:118-121 | without deadlines one task scores below another iff its `priority²/cost` is smaller |
| `Tasks.Tagged` | src/task.rs:106-110 | `enumerate().map(..)`: one tag per task, tag `k` scoring task `k` with index `k` against the clock reading taken for it |
| `Tasks.MakeComparible` | src/task.rs:99-115 | one element per task; a permutation of the tags; each element scores the task at its own index against that task's clock reading; indices distinct; highest score first with ties in decreasing index; all-zero priorities give the input reversed |
| `Tasks.TaggedIsSortable` | src/task.rs:106-112 | the tags satisfy the sort's needs: scores all NaN or none NaN, and indices equal to input positions |
| `Tasks.RankingOfTags` | src/task.rs:106-114 | a descending permutation of the tags has one element per task, each the score of the task at its own index, no index twice, and is the input reversed when all priorities are 0 |
| `Tasks.PermutationOfTags` | src/task.rs:106-114 | in a descending permutation of the tags every element is the tag of its own index and no index repeats |
| `Tasks.AllNaNRankingIsReversed` | src/task.rs:112-114 | when every score is NaN, the ranking lists indices `n-1, ..., 0` |
| `CliTask.CompletedToString` | src/main.rs:19-27 | `Completed` prints as one character: `y` iff `YES`, `n` iff `NO` |
| `CliTask.Fields` | src/main.rs:42-56 | the record has exactly seven fields |
| `CliTask.AsString` | src/main.rs:41-57 | `as_string` joins the seven fields with commas and escapes nothing: when no text field holds a comma, splitting the record on `,` gives back exactly `Fields`; `AsStringSplitsIntoFields` reads each field back and `CommaInNameAddsAField` shows the unescaped case |
| `CliTask.AsStringSplitsIntoFields` | src/main.rs:41-57 | with comma-free text, splitting `as_string` on `,` gives the seven fields in order: completed, name, description, cost, priority, created, deadline; absent ones are empty; cost and priority read back |
| `CliTask.CommaInNameAddsAField` | src/main.rs:42-56 | nothing is escaped: one comma in the name makes the record split into eight fields |
| `CliTask.AppendMidnightIfNoTime` | src/main.rs:93-99 | the result always contains `T`; the input is unchanged when it has `T`, and gets `T23:59:59` appended otherwise |
| `CliTask.AppendMidnightIsIdempotent` | src/main.rs:93-99 | applying the helper twice is the same as applying it once |
| `CliTask.AppendTimezoneIfNotPresent` | src/main.rs:101-110 | the input is unchanged when it has `+`; otherwise the last six characters of the current time's RFC 3339 rendering are appended |
| `CliTask.TrailingOffset` | src/main.rs:103-104 | the last six characters of the RFC 3339 rendering, the `+hh:mm`/`-hh:mm` offset: six characters that end the rendering |
| `CliTask.NegativeOffsetGetsSecondOffset` | src/main.rs:102-105 | as written, `2024-01-01T10:00:00-05:00` gets a second offset appended |
| `CliTask.NotIdempotentWestOfUtc` | src/main.rs:102-105 | as written, with a negative local offset, a second application appends the offset again |
| `CliTask.AppendTimezoneIfAbsent` | src/main.rs:101-110 | corrected helper: the result always ends with an RFC 3339 offset, and the offset is appended only when there is none |
| `CliTask.AppendTimezoneIfAbsentIsIdempotent` | src/main.rs:101-110 | the corrected helper is idempotent |
| `CliTask.NegativeOffsetKept` | src/main.rs:101-110 | the corrected helper leaves `2024-01-01T10:00:00-05:00` unchanged |

## Findings

| source | as written | input that shows it | evidently intended | confidence | as-written member | corrected member |
|---|---|---|---|---|---|---|
| src/main.rs:102 | only a `+` counts as an offset that is already present | `2024-01-01T10:00:00-05:00` with local offset `+02:00` becomes `2024-01-01T10:00:00-05:00+02:00`, which RFC 3339 parsing then rejects | append the local offset only when the string ends with no offset (`Z`, `+hh:mm` or `-hh:mm`) | medium, not executed | `CliTask.NegativeOffsetGetsSecondOffset` | `CliTask.AppendTimezoneIfAbsent` |

## Left out

- `src/db.rs`: file I/O under the home directory. `get_lines` opens the task file for reading and panics when it is missing; `get_tasks` calls it and then returns an empty heap; `write_task` appends the task's `as_string` line to the file.
- `Task::write` and `write_task` in `src/main.rs`: file appends and console output.
- `get_string_arg`, `get_u32_arg`, `get_optional`, `get_datetime`, `build_task`, `add` and `main` in `src/main.rs`: argument handling through the clap library, and parsing through chrono.
- `delete`, `complete` and `show` in `src/main.rs`: their bodies are empty, so there is no behaviour to model.
- `ComparibleTask::as_string` (`src/comparible_task.rs:21-23`): it calls an `as_string` that the `src/task.rs` `Task` does not define.
- `PartialEq::eq` for `ComparibleTask` (`src/comparible_task.rs:48-52`): it calls itself and never terminates. The model compares tags with structural equality (in the multiset statements) and never with this `eq`.
- `Task::new` (`src/task.rs:29-41`): the constructor of the `Tasks.Task` datatype stands for it.
- chrono's RFC 3339 and RFC 2822 formatting: the model takes these as opaque `Renderer` parameters. Sub-second precision is kept, since instants are in nanoseconds. Overflow of chrono's `i64` durations is not modelled.
- `Local::now()`: the current time is a parameter.
- Rounding: `f64` division, addition, `sqrt` and `minutes as f64` are exact reals here. Only NaN and `+inf` are kept from IEEE 754, because they change the comparisons.
- Tasks.MakeComparible: takes the square root of the sum as the parameter `norm`, because Dafny's reals have no square root.
- Tasks.MakeComparible: requires the sum of squared priorities to fit in `u32`. In the program, a larger sum panics in a debug build and wraps in a release build.
- Tasks.MakeComparible: requires `ConsistentScores`. A batch that mixes NaN with numbers breaks the total order that `Vec::sort` requires. What the program then does depends on the Rust version.
- VecOps.StableSort: is an insertion sort, not the library's merge sort. Both produce a stable ascending permutation. Because the input positions are distinct, that result is the same under any stable sort.
