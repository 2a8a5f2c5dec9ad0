/**
 * The task record of the command-line front end: the `Completed` flag, the
 * flat comma-separated record a task is written as, and the two helpers
 * that complete a user-supplied date toward an RFC 3339 (section 5.6)
 * date-time before it is parsed.
 */
module CliTask {

  import opened RustTypes
  import opened Timestamps
  import opened Text

  datatype Completed = Yes | No

  /** `Display` for `Completed`: one character, `y` or `n`. */
  function CompletedToString(c: Completed): (s: string)
    ensures |s| == 1 && ',' !in s
    ensures s == "y" <==> c == Yes
    ensures s == "n" <==> c == No
  {
    match c
    case Yes => "y"
    case No => "n"
  }

  datatype Task = Task(
    name: string,
    cost: u32,
    priority: u32,
    completed: Completed,
    description: Option<string>,
    dateCreated: Timestamp,
    deadline: Option<Timestamp>)

  /** The seven fields of the record, in the order `as_string` writes them. */
  function Fields(task: Task, rfc3339: Renderer): (fields: seq<string>)
    ensures |fields| == 7
  {
    [ CompletedToString(task.completed),
      task.name,
      match task.description { case Some(desc) => desc case None => "" },
      NatToString(task.cost),
      NatToString(task.priority),
      rfc3339(task.dateCreated),
      match task.deadline { case Some(date) => rfc3339(date) case None => "" } ]
  }

  /** `Task::as_string`: the fields joined by commas, with no quoting or escaping. */
  function AsString(task: Task, rfc3339: Renderer): (record: string)
    ensures CommaFree(task, rfc3339) ==> Split(record, ',') == Fields(task, rfc3339)
  {
    var fields := Fields(task, rfc3339);
    NatToStringHasNoComma(task.cost);
    NatToStringHasNoComma(task.priority);
    if CommaFree(task, rfc3339) then
      assert forall k | 0 <= k < |fields| :: ',' !in fields[k];
      SplitJoin(fields, ',');
      Join(fields, ',')
    else
      Join(fields, ',')
  }

  /** The free-text and timestamp fields contain no comma. */
  predicate CommaFree(task: Task, rfc3339: Renderer) {
    && ',' !in task.name
    && (task.description.Some? ==> ',' !in task.description.value)
    && ',' !in rfc3339(task.dateCreated)
    && (task.deadline.Some? ==> ',' !in rfc3339(task.deadline.value))
  }

  /**
   * Without commas in the text fields, splitting the record on `,` gives
   * back exactly the seven fields, absent ones as empty fields, and the
   * numbers read back as the cost and the priority.
   */
  lemma AsStringSplitsIntoFields(task: Task, rfc3339: Renderer)
    requires CommaFree(task, rfc3339)
    ensures Split(AsString(task, rfc3339), ',') == Fields(task, rfc3339)
    ensures |Split(AsString(task, rfc3339), ',')| == 7
    ensures Split(AsString(task, rfc3339), ',')[0] == (if task.completed == Yes then "y" else "n")
    ensures Split(AsString(task, rfc3339), ',')[1] == task.name
    ensures Split(AsString(task, rfc3339), ',')[2] == (if task.description.Some? then task.description.value else "")
    ensures ParseDecimal(Split(AsString(task, rfc3339), ',')[3]) == task.cost
    ensures ParseDecimal(Split(AsString(task, rfc3339), ',')[4]) == task.priority
    ensures Split(AsString(task, rfc3339), ',')[5] == rfc3339(task.dateCreated)
    ensures Split(AsString(task, rfc3339), ',')[6] == (if task.deadline.Some? then rfc3339(task.deadline.value) else "")
  {
    NatToStringRoundTrip(task.cost);
    NatToStringRoundTrip(task.priority);
  }

  /** Nothing is escaped: one comma in the name turns the record into eight fields. */
  lemma CommaInNameAddsAField(task: Task, rfc3339: Renderer, left: string, right: string)
    requires task.name == left + "," + right && ',' !in left && ',' !in right
    requires CommaFree(task.(name := left), rfc3339)
    ensures |Split(AsString(task, rfc3339), ',')| == 8
  {
    var fields := Fields(task, rfc3339);
    var split := [fields[0], left, right] + fields[2..];
    NatToStringHasNoComma(task.cost);
    NatToStringHasNoComma(task.priority);
    var tail := Join(fields[2..], ',');
    assert Join(split, ',') == AsString(task, rfc3339) by {
      assert split[1..] == [left, right] + fields[2..];
      assert split[1..][1..] == [right] + fields[2..];
      assert split[1..][1..][1..] == fields[2..];
      assert fields[1..] == [task.name] + fields[2..];
      assert fields[1..][1..] == fields[2..];
      assert Join(split[1..][1..], ',') == right + [','] + tail;
      assert Join(split[1..], ',') == left + [','] + (right + [','] + tail);
      assert Join(fields[1..], ',') == task.name + [','] + tail;
      assert left + [','] + (right + [','] + tail) == task.name + [','] + tail;
    }
    assert forall k | 0 <= k < |split| :: ',' !in split[k];
    SplitJoin(split, ',');
  }

  /** `append_midnight_if_no_time`: a date without a time part gets the last second of the day. */
  function AppendMidnightIfNoTime(dateMaybeTime: string): (s: string)
    ensures 'T' in s
    ensures 'T' in dateMaybeTime ==> s == dateMaybeTime
    ensures 'T' !in dateMaybeTime ==> s == dateMaybeTime + "T23:59:59"
  {
    if 'T' !in dateMaybeTime then dateMaybeTime + "T23:59:59" else dateMaybeTime
  }

  lemma AppendMidnightIsIdempotent(s: string)
    ensures AppendMidnightIfNoTime(AppendMidnightIfNoTime(s)) == AppendMidnightIfNoTime(s)
  {
  }

  /** The UTC offset at the end of an RFC 3339 rendering: its last six characters. */
  function TrailingOffset(rendered: string): (offset: string)
    requires |rendered| >= 6
    ensures |offset| == 6
    ensures rendered[..|rendered| - 6] + offset == rendered
  {
    rendered[|rendered| - 6..]
  }

  /**
   * `append_timezone_if_not_present`, with the RFC 3339 rendering of the
   * current local time passed in: a string without `+` gets the current
   * offset appended.
   */
  function AppendTimezoneIfNotPresent(dateMaybeTimezone: string, nowRfc3339: string): (s: string)
    requires |nowRfc3339| >= 6
    ensures '+' in dateMaybeTimezone ==> s == dateMaybeTimezone
    ensures '+' !in dateMaybeTimezone ==> s == dateMaybeTimezone + TrailingOffset(nowRfc3339)
  {
    if '+' !in dateMaybeTimezone then dateMaybeTimezone + TrailingOffset(nowRfc3339) else dateMaybeTimezone
  }

  /** An explicit negative offset is not recognised, so a second offset is appended after it. */
  lemma NegativeOffsetGetsSecondOffset()
    ensures AppendTimezoneIfNotPresent("2024-01-01T10:00:00-05:00", "2024-06-01T09:30:00+02:00")
         == "2024-01-01T10:00:00-05:00+02:00"
  {
    assert '+' !in "2024-01-01T10:00:00-05:00";
  }

  /** West of UTC the helper is not idempotent: its own output, which has no `+`, gets a second offset. */
  lemma NotIdempotentWestOfUtc()
    ensures AppendTimezoneIfNotPresent(AppendTimezoneIfNotPresent("2024-01-01T10:00:00", "2024-06-01T09:30:00-05:00"), "2024-06-01T09:30:00-05:00")
         != AppendTimezoneIfNotPresent("2024-01-01T10:00:00", "2024-06-01T09:30:00-05:00")
  {
    var once := AppendTimezoneIfNotPresent("2024-01-01T10:00:00", "2024-06-01T09:30:00-05:00");
    assert '+' !in "2024-01-01T10:00:00";
    assert once == "2024-01-01T10:00:00-05:00";
    assert '+' !in once;
  }

  /** An RFC 3339 numeric offset: a sign, two digits, a colon and two digits (`+hh:mm` or `-hh:mm`). */
  predicate IsNumericOffset(s: string) {
    |s| == 6 && (s[0] == '+' || s[0] == '-') && IsDigit(s[1]) && IsDigit(s[2])
    && s[3] == ':' && IsDigit(s[4]) && IsDigit(s[5])
  }

  /** The string ends with an RFC 3339 time-offset: `Z`, or a numeric offset of either sign. */
  predicate EndsWithOffset(s: string) {
    (|s| >= 1 && (s[|s| - 1] == 'Z' || s[|s| - 1] == 'z'))
    || (|s| >= 6 && IsNumericOffset(s[|s| - 6..]))
  }

  /**
   * The helper as evidently intended: the current offset is appended only
   * when the string does not already end with an offset of any form.
   */
  function AppendTimezoneIfAbsent(dateMaybeTimezone: string, nowRfc3339: string): (s: string)
    requires |nowRfc3339| >= 6 && IsNumericOffset(TrailingOffset(nowRfc3339))
    ensures EndsWithOffset(s)
    ensures EndsWithOffset(dateMaybeTimezone) ==> s == dateMaybeTimezone
    ensures !EndsWithOffset(dateMaybeTimezone) ==> s == dateMaybeTimezone + TrailingOffset(nowRfc3339)
  {
    if EndsWithOffset(dateMaybeTimezone) then dateMaybeTimezone
    else
      var r := dateMaybeTimezone + TrailingOffset(nowRfc3339);
      assert r[|r| - 6..] == TrailingOffset(nowRfc3339);
      r
  }

  lemma AppendTimezoneIfAbsentIsIdempotent(s: string, nowRfc3339: string)
    requires |nowRfc3339| >= 6 && IsNumericOffset(TrailingOffset(nowRfc3339))
    ensures AppendTimezoneIfAbsent(AppendTimezoneIfAbsent(s, nowRfc3339), nowRfc3339) == AppendTimezoneIfAbsent(s, nowRfc3339)
  {
  }

  /** The corrected helper keeps an explicit negative offset as it is. */
  lemma NegativeOffsetKept()
    ensures AppendTimezoneIfAbsent("2024-01-01T10:00:00-05:00", "2024-06-01T09:30:00+02:00")
         == "2024-01-01T10:00:00-05:00"
  {
    var s := "2024-01-01T10:00:00-05:00";
    assert s[|s| - 6..] == "-05:00";
  }

}
