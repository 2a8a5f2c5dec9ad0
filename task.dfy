/**
 * The task record of the ranking and listing code: which columns a listing
 * shows and the row it prints for a task, and the ranking of a batch of
 * tasks by score.
 */
module Tasks {

  import opened RustTypes
  import opened Timestamps
  import opened Scores
  import opened Text
  import opened ComparibleTasks
  import opened VecOps

  /** Whether a column is always listed or only in verbose listings. */
  datatype ShouldShow = Verbose | Required

  datatype Task = Task(
    name: string,
    desc: Option<string>,
    cost: u32,
    priority: u32,
    dateCreated: Timestamp,
    dateCompleted: Option<Timestamp>,
    deadline: Option<Timestamp>)

  // ---------------------------------------------------------------------
  // Column selection and rows

  /** The fixed column table, in listing order, each column with its visibility. */
  const ColumnTable: seq<(string, ShouldShow)> := [
    ("task", Required),
    ("desc", Verbose),
    ("cost", Verbose),
    ("priority", Verbose),
    ("completed", Verbose),
    ("deadline", Required),
    ("created", Verbose)
  ]

  /** The filter's test: required columns always, verbose ones only in a verbose listing. */
  predicate Shown(tag: ShouldShow, verbose: bool) {
    tag == Required || (verbose && tag == Verbose)
  }

  function Names(table: seq<(string, ShouldShow)>): (names: seq<string>)
    ensures |names| == |table|
    ensures forall k | 0 <= k < |table| :: names[k] == table[k].0
  {
    if table == [] then [] else [table[0].0] + Names(table[1..])
  }

  /** `a` is `b` with some elements left out, order kept. */
  predicate IsSubsequence<U(==)>(a: seq<U>, b: seq<U>)
    decreases |b|
  {
    if a == [] then true
    else if b == [] then false
    else if a[0] == b[0] then IsSubsequence(a[1..], b[1..])
    else IsSubsequence(a, b[1..])
  }

  /** The `filter` then `map` of `get_cols`, over any column table. */
  function SelectColumns(table: seq<(string, ShouldShow)>, verbose: bool): (cols: seq<string>)
    ensures IsSubsequence(cols, Names(table))
  {
    if table == [] then []
    else
      var rest := SelectColumns(table[1..], verbose);
      assert Names(table) == [table[0].0] + Names(table[1..]);
      if Shown(table[0].1, verbose) then
        assert ([table[0].0] + rest)[1..] == rest;
        [table[0].0] + rest
      else
        SkipHeadKeepsSubsequence(rest, table[0].0, Names(table[1..]));
        rest
  }

  /** A column is selected exactly when some entry of the table names it and is shown at this level. */
  lemma {:induction false} SelectColumnsMembership(table: seq<(string, ShouldShow)>, verbose: bool, c: string)
    ensures c in SelectColumns(table, verbose) <==>
            exists k | 0 <= k < |table| :: table[k].0 == c && Shown(table[k].1, verbose)
  {
    if table != [] {
      SelectColumnsMembership(table[1..], verbose, c);
      if exists k | 0 <= k < |table| :: table[k].0 == c && Shown(table[k].1, verbose) {
        var k :| 0 <= k < |table| && table[k].0 == c && Shown(table[k].1, verbose);
        if k > 0 {
          assert table[1..][k - 1] == table[k];
        }
      }
      if exists k | 0 <= k < |table| - 1 :: table[1..][k].0 == c && Shown(table[1..][k].1, verbose) {
        var k :| 0 <= k < |table| - 1 && table[1..][k].0 == c && Shown(table[1..][k].1, verbose);
        assert table[k + 1] == table[1..][k];
      }
    }
  }

  /** `Task::get_cols(verbose)`: the names of the columns a listing shows, in table order. */
  function GetCols(verbose: bool): (cols: seq<string>)
    ensures IsSubsequence(cols, Names(ColumnTable))
  {
    SelectColumns(ColumnTable, verbose)
  }

  lemma GetColsRequired()
    ensures GetCols(false) == ["task", "deadline"]
  {
  }

  lemma GetColsVerbose()
    ensures GetCols(true) == ["task", "desc", "cost", "priority", "completed", "deadline", "created"]
  {
  }

  /** On any table, the columns of a plain listing are those of a verbose one with some left out, order kept. */
  lemma {:induction false} RequiredColumnsAreVerboseSubsequence(table: seq<(string, ShouldShow)>)
    ensures IsSubsequence(SelectColumns(table, false), SelectColumns(table, true))
  {
    if table != [] {
      RequiredColumnsAreVerboseSubsequence(table[1..]);
      var plain, verbose := SelectColumns(table[1..], false), SelectColumns(table[1..], true);
      if Shown(table[0].1, false) {
        assert ([table[0].0] + plain)[1..] == plain;
        assert ([table[0].0] + verbose)[1..] == verbose;
      } else {
        SkipHeadKeepsSubsequence(plain, table[0].0, verbose);
      }
    }
  }

  lemma {:induction false} SkipHeadKeepsSubsequence<U>(a: seq<U>, x: U, b: seq<U>)
    requires IsSubsequence(a, b)
    ensures IsSubsequence(a, [x] + b)
    decreases |b|, 1
  {
    assert ([x] + b)[1..] == b;
    if a != [] && a[0] == x {
      SubsequenceDropsHead(a, b);
    }
  }

  lemma {:induction false} SubsequenceDropsHead<U>(a: seq<U>, b: seq<U>)
    requires a != [] && IsSubsequence(a, b)
    ensures IsSubsequence(a[1..], b)
    decreases |b|, 0
  {
    assert [b[0]] + b[1..] == b;
    if a[0] != b[0] {
      SubsequenceDropsHead(a, b[1..]);
    }
    if a[1..] != [] {
      SkipHeadKeepsSubsequence(a[1..], b[0], b[1..]);
    }
  }

  lemma GetColsRequiredWithinVerbose()
    ensures IsSubsequence(GetCols(false), GetCols(true))
  {
    RequiredColumnsAreVerboseSubsequence(ColumnTable);
  }

  /** `Task::optional_time_as_string`: the RFC 2822 rendering, or the empty string when absent. */
  function OptionalTimeAsString(time: Option<Timestamp>, rfc2822: Renderer): (s: string)
    ensures time.None? ==> s == ""
    ensures time.Some? ==> s == rfc2822(time.value)
  {
    match time
    case Some(date) => rfc2822(date)
    case None => ""
  }

  function DescText(task: Task): string {
    match task.desc
    case Some(v) => v
    case None => ""
  }

  /** The names `as_row` knows how to fill; any other name is unreachable there. */
  predicate KnownColumn(col: string) {
    col == "task" || col == "desc" || col == "cost" || col == "priority"
    || col == "deadline" || col == "completed" || col == "created"
  }

  lemma GetColsAreKnown(verbose: bool)
    ensures forall k | 0 <= k < |GetCols(verbose)| :: KnownColumn(GetCols(verbose)[k])
  {
    var cols := GetCols(verbose);
    SubsequenceMembers(cols, Names(ColumnTable));
    TableNames();
    forall k | 0 <= k < |cols|
      ensures KnownColumn(cols[k])
    {
      assert cols[k] in Names(ColumnTable);
    }
  }

  lemma TableNames()
    ensures Names(ColumnTable) == ["task", "desc", "cost", "priority", "completed", "deadline", "created"]
  {
  }

  lemma {:induction false} SubsequenceMembers<U>(a: seq<U>, b: seq<U>)
    requires IsSubsequence(a, b)
    ensures forall x | x in a :: x in b
    decreases |b|
  {
    if a != [] && b != [] {
      if a[0] == b[0] {
        SubsequenceMembers(a[1..], b[1..]);
        forall x | x in a
          ensures x in b
        {
          if x != a[0] {
            assert x in a[1..];
          }
        }
      } else {
        SubsequenceMembers(a, b[1..]);
      }
    }
  }

  /** The cell `as_row` prints under the column named `col`. */
  function Cell(task: Task, col: string, rfc2822: Renderer): string
    requires KnownColumn(col)
  {
    if col == "task" then task.name
    else if col == "desc" then DescText(task)
    else if col == "cost" then NatToString(task.cost)
    else if col == "priority" then NatToString(task.priority)
    else if col == "deadline" then OptionalTimeAsString(task.deadline, rfc2822)
    else if col == "completed" then OptionalTimeAsString(task.dateCompleted, rfc2822)
    else rfc2822(task.dateCreated)
  }

  /** The row `as_row(verbose)` prints: one cell per column of `get_cols(verbose)`, in column order. */
  function Row(task: Task, verbose: bool, rfc2822: Renderer): (row: seq<string>)
    ensures |row| == |GetCols(verbose)|
  {
    GetColsAreKnown(verbose);
    seq(|GetCols(verbose)|, k requires 0 <= k < |GetCols(verbose)| => Cell(task, GetCols(verbose)[k], rfc2822))
  }

  /** `Task::as_row(verbose)`: one cell per selected column, in column order. */
  method AsRow(task: Task, verbose: bool, rfc2822: Renderer) returns (res: seq<string>)
    ensures |res| == |GetCols(verbose)|
    ensures forall k | 0 <= k < |res| :: KnownColumn(GetCols(verbose)[k]) && res[k] == Cell(task, GetCols(verbose)[k], rfc2822)
    ensures res == Row(task, verbose, rfc2822)
  {
    var name := task.name;
    var desc := DescText(task);
    var cost := NatToString(task.cost);
    var priority := NatToString(task.priority);
    var date := rfc2822(task.dateCreated);
    var deadline := OptionalTimeAsString(task.deadline, rfc2822);
    var completed := OptionalTimeAsString(task.dateCompleted, rfc2822);

    var cols := GetCols(verbose);
    GetColsAreKnown(verbose);
    res := [];
    for i := 0 to |cols|
      invariant |res| == i
      invariant forall k | 0 <= k < i :: res[k] == Cell(task, cols[k], rfc2822)
    {
      var col := cols[i];
      if col == "task" {
        res := res + [name];
      } else if col == "desc" {
        res := res + [desc];
      } else if col == "cost" {
        res := res + [cost];
      } else if col == "priority" {
        res := res + [priority];
      } else if col == "deadline" {
        res := res + [deadline];
      } else if col == "completed" {
        res := res + [completed];
      } else if col == "created" {
        res := res + [date];
      } else {
        assert false;
      }
    }
  }

  /** What `as_row` prints under each of the seven column names. */
  lemma CellByName(task: Task, rfc2822: Renderer)
    ensures Cell(task, "task", rfc2822) == task.name
    ensures Cell(task, "desc", rfc2822) == DescText(task)
    ensures Cell(task, "cost", rfc2822) == NatToString(task.cost)
    ensures Cell(task, "priority", rfc2822) == NatToString(task.priority)
    ensures Cell(task, "deadline", rfc2822) == OptionalTimeAsString(task.deadline, rfc2822)
    ensures Cell(task, "completed", rfc2822) == OptionalTimeAsString(task.dateCompleted, rfc2822)
    ensures Cell(task, "created", rfc2822) == rfc2822(task.dateCreated)
  {
    assert "desc" != "task";
    assert "cost" != "task" && "cost" != "desc";
    assert "priority" != "task" && "priority" != "desc" && "priority" != "cost";
    assert "deadline" != "task" && "deadline" != "desc" && "deadline" != "cost" && "deadline" != "priority";
    assert "completed" != "task" && "completed" != "desc" && "completed" != "cost" && "completed" != "priority"
        && "completed" != "deadline";
    assert "created" != "task" && "created" != "desc" && "created" != "cost" && "created" != "priority"
        && "created" != "deadline" && "created" != "completed";
  }

  /** A verbose row: the seven fields in table order, absent ones as empty cells. */
  lemma VerboseRow(task: Task, rfc2822: Renderer)
    ensures |Row(task, true, rfc2822)| == 7
    ensures Row(task, true, rfc2822)[0] == task.name
    ensures Row(task, true, rfc2822)[1] == DescText(task)
    ensures Row(task, true, rfc2822)[2] == NatToString(task.cost)
    ensures Row(task, true, rfc2822)[3] == NatToString(task.priority)
    ensures Row(task, true, rfc2822)[4] == OptionalTimeAsString(task.dateCompleted, rfc2822)
    ensures Row(task, true, rfc2822)[5] == OptionalTimeAsString(task.deadline, rfc2822)
    ensures Row(task, true, rfc2822)[6] == rfc2822(task.dateCreated)
  {
    GetColsVerbose();
    CellByName(task, rfc2822);
  }

  /** A plain row: the task's name and its deadline (empty when it has none). */
  lemma RequiredRow(task: Task, rfc2822: Renderer)
    ensures Row(task, false, rfc2822) == [task.name, OptionalTimeAsString(task.deadline, rfc2822)]
  {
    GetColsRequired();
    CellByName(task, rfc2822);
    var row := Row(task, false, rfc2822);
    assert row == [Cell(task, "task", rfc2822), Cell(task, "deadline", rfc2822)];
  }

  // ---------------------------------------------------------------------
  // Ranking

  function Square(n: nat): nat {
    n * n
  }

  /** The `fold` of `make_comparible`: the sum of the squared priorities, added from the left. */
  function TotalPrioSquared(tasks: seq<Task>): (total: nat)
    ensures forall k | 0 <= k < |tasks| :: Square(tasks[k].priority) <= total
    ensures total == 0 <==> forall k | 0 <= k < |tasks| :: tasks[k].priority == 0
  {
    if tasks == [] then 0
    else TotalPrioSquared(tasks[..|tasks| - 1]) + Square(tasks[|tasks| - 1].priority)
  }

  /** A partial sum of the fold never exceeds the total, so a total that fits in `u32` never overflows on the way. */
  lemma {:induction false} PartialSumsBounded(tasks: seq<Task>, n: nat)
    requires n <= |tasks|
    ensures TotalPrioSquared(tasks[..n]) <= TotalPrioSquared(tasks)
    decreases |tasks|
  {
    if n < |tasks| {
      var init := tasks[..|tasks| - 1];
      PartialSumsBounded(init, n);
      assert init[..n] == tasks[..n];
    } else {
      assert tasks[..n] == tasks;
    }
  }

  /**
   * `norm` is the square root of `total`, as `f64::from(total).sqrt()`
   * computes it (without rounding). The second conjunct follows from the
   * first; it is spelled out because the solver does not derive it.
   */
  predicate IsSqrt(norm: NonNegReal, total: nat) {
    norm * norm == total as real && (norm == 0.0 <==> total == 0)
  }

  /** `Ord::max(minutes_until_deadline, 1)`: the divisor of the urgency term. */
  function UrgencyMinutes(deadline: Timestamp, now: Timestamp): (m: int)
    ensures m >= 1
    ensures m >= MinutesUntil(deadline, now)
    ensures MinutesUntil(deadline, now) >= 1 ==> m == MinutesUntil(deadline, now)
    ensures MinutesUntil(deadline, now) <= 1 ==> m == 1
  {
    var minutes := MinutesUntil(deadline, now);
    if minutes > 1 then minutes else 1
  }

  /**
   * `Task::as_comparible_task`. `norm` is `f64::from(total).sqrt()`, passed in
   * since real square roots are not part of the model.
   */
  function AsComparibleTask(task: Task, total: nat, norm: NonNegReal, index: nat, now: Timestamp): (c: ComparibleTask<Task>)
    requires IsSqrt(norm, total)
    requires Square(task.priority) <= U32_MAX
    ensures c.task == task && c.index == index
    ensures c.comparitor.NaN? <==> task.priority == 0 && (total == 0 || task.cost == 0)
    ensures c.comparitor.Infinity? <==> task.priority > 0 && (total == 0 || task.cost == 0)
    ensures total > 0 && task.cost > 0 ==>
      c.comparitor.Finite? &&
      c.comparitor.value == Square(task.priority) as real / norm / task.cost as real
                            + (if task.deadline.Some?
                               then task.cost as real / UrgencyMinutes(task.deadline.value, now) as real
                               else 0.0)
  {
    var squared := Square(task.priority) as real;
    assert squared > 0.0 <==> task.priority > 0;
    var normalized := Div(Finite(squared), norm);
    var roi := Div(normalized, task.cost as real);
    RoiCases(squared, norm, task.cost as real);
    if task.deadline.None? then
      New(task, roi, index)
    else
      var minutes := UrgencyMinutes(task.deadline.value, now);
      var comparitor := Add(roi, task.cost as real / minutes as real);
      New(task, comparitor, index)
  }

  /** The cases of `priority² / norm / cost` in `f64`. */
  lemma RoiCases(squared: NonNegReal, norm: NonNegReal, cost: NonNegReal)
    ensures Div(Div(Finite(squared), norm), cost).NaN? <==> squared == 0.0 && (norm == 0.0 || cost == 0.0)
    ensures Div(Div(Finite(squared), norm), cost).Infinity? <==> squared > 0.0 && (norm == 0.0 || cost == 0.0)
    ensures norm > 0.0 && cost > 0.0 ==> Div(Div(Finite(squared), norm), cost) == Finite(squared / norm / cost)
  {
    if norm > 0.0 {
      assert squared / norm > 0.0 <==> squared > 0.0;
    }
  }

  /** One task with cost 10 and priority 5 and no deadline: the norm is 5, so the score is 25 / 5 / 10 = 0.5. */
  lemma SingleTaskScore(task: Task, now: Timestamp)
    requires task.cost == 10 && task.priority == 5 && task.deadline.None?
    ensures TotalPrioSquared([task]) == 25
    ensures AsComparibleTask(task, 25, 5.0, 0, now).comparitor == Finite(0.5)
  {
    assert [task][..0] == [];
  }

  /** A deadline now or in the past counts as one minute away, so the urgency term is the whole cost. */
  lemma PassedDeadlineUrgencyIsCost(task: Task, total: nat, norm: NonNegReal, index: nat, now: Timestamp)
    requires IsSqrt(norm, total) && Square(task.priority) <= U32_MAX
    requires total > 0 && task.cost > 0
    requires task.deadline.Some? && task.deadline.value.nanos <= now.nanos
    ensures AsComparibleTask(task, total, norm, index, now).comparitor.Finite?
    ensures AsComparibleTask(task, total, norm, index, now).comparitor.value
         == Square(task.priority) as real / norm / task.cost as real + task.cost as real
  {
  }

  /**
   * Without deadlines the ranking follows value density: one task scores
   * below another exactly when its `priority² / cost` is smaller.
   */
  lemma NoDeadlineOrderFollowsDensity(a: Task, b: Task, total: nat, norm: NonNegReal, now: Timestamp)
    requires IsSqrt(norm, total) && Square(a.priority) <= U32_MAX && Square(b.priority) <= U32_MAX
    requires total > 0 && a.cost > 0 && b.cost > 0
    requires a.deadline.None? && b.deadline.None?
    ensures Cmp(AsComparibleTask(a, total, norm, 0, now), AsComparibleTask(b, total, norm, 1, now)) == Less
        <==> Square(a.priority) as real / a.cost as real < Square(b.priority) as real / b.cost as real
  {
    var x := Square(a.priority) as real / a.cost as real;
    var y := Square(b.priority) as real / b.cost as real;
    DivideInEitherOrder(Square(a.priority) as real, norm, a.cost as real);
    DivideInEitherOrder(Square(b.priority) as real, norm, b.cost as real);
    DivisionKeepsOrder(x, y, norm);
  }

  lemma DivideInEitherOrder(p: real, n: real, c: real)
    requires n > 0.0 && c > 0.0
    ensures p / n / c == p / c / n
  {
  }

  lemma DivisionKeepsOrder(x: real, y: real, n: real)
    requires n > 0.0
    ensures x / n < y / n <==> x < y
  {
    assert y / n - x / n == (y - x) / n;
  }

  /**
   * Each task tagged with its input position and its score: the
   * `enumerate().map(..)` of `make_comparible`. `as_comparible_task` reads
   * the clock once for each task that has a deadline, so `nows[k]` is the
   * reading taken while scoring task `k`; for a task without a deadline it
   * is ignored.
   */
  function Tagged(tasks: seq<Task>, norm: NonNegReal, nows: seq<Timestamp>): (tagged: seq<ComparibleTask<Task>>)
    requires TotalPrioSquared(tasks) <= U32_MAX
    requires IsSqrt(norm, TotalPrioSquared(tasks))
    requires |nows| == |tasks|
    ensures |tagged| == |tasks|
    ensures forall k | 0 <= k < |tasks| ::
      tagged[k] == AsComparibleTask(tasks[k], TotalPrioSquared(tasks), norm, k, nows[k])
  {
    seq(|tasks|, k requires 0 <= k < |tasks| =>
      AsComparibleTask(tasks[k], TotalPrioSquared(tasks), norm, k, nows[k]))
  }

  /**
   * The batches whose scores `Ord::cmp` totally preorders: all priorities
   * zero (every score NaN), or no task with both cost and priority zero (no
   * score NaN).
   */
  predicate ConsistentScores(tasks: seq<Task>) {
    TotalPrioSquared(tasks) == 0 || forall k | 0 <= k < |tasks| :: tasks[k].cost > 0 || tasks[k].priority > 0
  }

  /**
   * `Task::make_comparible`: tags every task, sorts ascending with the
   * stable `Vec::sort` and reverses.
   */
  method MakeComparible(tasks: seq<Task>, norm: NonNegReal, nows: seq<Timestamp>) returns (ranked: seq<ComparibleTask<Task>>)
    requires TotalPrioSquared(tasks) <= U32_MAX
    requires IsSqrt(norm, TotalPrioSquared(tasks))
    requires |nows| == |tasks|
    requires ConsistentScores(tasks)
    ensures |ranked| == |tasks|
    ensures multiset(ranked) == multiset(Tagged(tasks, norm, nows))
    ensures forall k | 0 <= k < |ranked| ::
              ranked[k].index < |tasks| &&
              ranked[k] == AsComparibleTask(tasks[ranked[k].index], TotalPrioSquared(tasks), norm, ranked[k].index, nows[ranked[k].index])
    ensures forall i, j | 0 <= i < j < |ranked| :: ranked[i].index != ranked[j].index
    ensures RankedDescending(ranked)
    ensures TotalPrioSquared(tasks) == 0 ==> forall k | 0 <= k < |ranked| :: ranked[k].index == |tasks| - 1 - k
  {
    var tagged := Tagged(tasks, norm, nows);
    TaggedIsSortable(tasks, norm, nows);
    var a := new ComparibleTask<Task>[|tagged|](k requires 0 <= k < |tagged| => tagged[k]);
    assert a[..] == tagged;
    SortThenReverse(a);
    ranked := a[..];
    RankingOfTags(tasks, norm, nows, ranked);
  }

  /** What a descending permutation of the tags is made of, element by element. */
  lemma {:induction false} RankingOfTags(tasks: seq<Task>, norm: NonNegReal, nows: seq<Timestamp>, ranked: seq<ComparibleTask<Task>>)
    requires TotalPrioSquared(tasks) <= U32_MAX
    requires IsSqrt(norm, TotalPrioSquared(tasks))
    requires |nows| == |tasks|
    requires ConsistentScores(tasks)
    requires multiset(ranked) == multiset(Tagged(tasks, norm, nows))
    requires RankedDescending(ranked)
    ensures |ranked| == |tasks|
    ensures forall k | 0 <= k < |ranked| ::
              ranked[k].index < |tasks| &&
              ranked[k] == AsComparibleTask(tasks[ranked[k].index], TotalPrioSquared(tasks), norm, ranked[k].index, nows[ranked[k].index])
    ensures forall i, j | 0 <= i < j < |ranked| :: ranked[i].index != ranked[j].index
    ensures TotalPrioSquared(tasks) == 0 ==> forall k | 0 <= k < |ranked| :: ranked[k].index == |tasks| - 1 - k
  {
    var tagged := Tagged(tasks, norm, nows);
    TaggedIsSortable(tasks, norm, nows);
    assert |ranked| == |multiset(ranked)| == |tagged|;
    PermutationOfTags(tagged, ranked);
    if TotalPrioSquared(tasks) == 0 {
      forall k | 0 <= k < |ranked|
        ensures ranked[k].comparitor.NaN? && ranked[k].index < |ranked|
      {
        assert ranked[k] == tagged[ranked[k].index];
      }
      AllNaNRankingIsReversed(ranked);
    }
  }

  /** The tags meet the sort's requirements: a consistent kind of score, and indices in input order. */
  lemma TaggedIsSortable(tasks: seq<Task>, norm: NonNegReal, nows: seq<Timestamp>)
    requires TotalPrioSquared(tasks) <= U32_MAX
    requires IsSqrt(norm, TotalPrioSquared(tasks))
    requires |nows| == |tasks|
    requires ConsistentScores(tasks)
    ensures UniformKind(Tagged(tasks, norm, nows))
    ensures forall k | 0 <= k < |tasks| :: Tagged(tasks, norm, nows)[k].index == k
    ensures TotalPrioSquared(tasks) == 0 ==> forall k | 0 <= k < |tasks| :: Tagged(tasks, norm, nows)[k].comparitor.NaN?
  {
  }

  /**
   * A permutation of the tags is made of tags: each element is the tag of the
   * task at its own index, and, being in strict descending order, no index
   * repeats.
   */
  lemma PermutationOfTags(tagged: seq<ComparibleTask<Task>>, ranked: seq<ComparibleTask<Task>>)
    requires forall k | 0 <= k < |tagged| :: tagged[k].index == k
    requires multiset(ranked) == multiset(tagged)
    requires RankedDescending(ranked)
    ensures forall k | 0 <= k < |ranked| :: ranked[k].index < |tagged| && ranked[k] == tagged[ranked[k].index]
    ensures forall i, j | 0 <= i < j < |ranked| :: ranked[i].index != ranked[j].index
  {
    forall k | 0 <= k < |ranked|
      ensures ranked[k].index < |tagged| && ranked[k] == tagged[ranked[k].index]
    {
      assert ranked[k] in multiset(tagged);
      var m :| 0 <= m < |tagged| && tagged[m] == ranked[k];
    }
    forall i, j | 0 <= i < j < |ranked|
      ensures ranked[i].index != ranked[j].index
    {
      assert Precedes(ranked[j], ranked[i]);
      CmpReflexive(ranked[i]);
    }
  }

  /** When every score is NaN, `cmp` ties everything, so the ranking is the input reversed. */
  lemma AllNaNRankingIsReversed(ranked: seq<ComparibleTask<Task>>)
    requires RankedDescending(ranked)
    requires forall k | 0 <= k < |ranked| :: ranked[k].comparitor.NaN? && ranked[k].index < |ranked|
    ensures forall k | 0 <= k < |ranked| :: ranked[k].index == |ranked| - 1 - k
  {
    var indices := seq(|ranked|, k requires 0 <= k < |ranked| => ranked[k].index as int);
    forall i, j | 0 <= i < j < |ranked|
      ensures indices[j] < indices[i]
    {
      CmpNaNIsEqualToAll(ranked[j], ranked[i]);
    }
    CountdownIsForced(indices);
    assert forall k | 0 <= k < |ranked| :: ranked[k].index == indices[k];
  }

  /** A strictly decreasing sequence of `n` values in `[0, n)` is `n - 1, ..., 1, 0`. */
  lemma CountdownIsForced(s: seq<int>)
    requires forall k | 0 <= k < |s| :: 0 <= s[k] < |s|
    requires forall i, j | 0 <= i < j < |s| :: s[j] < s[i]
    ensures forall k | 0 <= k < |s| :: s[k] == |s| - 1 - k
  {
    forall k | 0 <= k < |s|
      ensures s[k] == |s| - 1 - k
    {
      DecreasingGap(s, k, |s| - 1);
      DecreasingGap(s, 0, k);
    }
  }

  lemma {:induction false} DecreasingGap(s: seq<int>, i: nat, j: nat)
    requires i <= j < |s|
    requires forall a, b | 0 <= a < b < |s| :: s[b] < s[a]
    ensures s[i] >= s[j] + (j - i)
    decreases j - i
  {
    if i < j {
      DecreasingGap(s, i + 1, j);
    }
  }

}
