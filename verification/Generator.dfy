/** The trading log generator: which days get rows, at which times, and which rows are errors. */
module Generator {

  import opened Arith
  import opened NumberTheory
  import opened Timespec

  const HOUR_NS: int := 3600 * SECOND
  const DAY_NS: int := 24 * HOUR_NS
  const SESSION_NS: int := 8 * HOUR_NS
  const MIN_ITERATIONS: int := 8

  datatype Config = Config(days: nat, errors: nat, iterations: nat)

  /** A row of the log: its time in nanoseconds since the epoch, and whether it is an error. */
  datatype Row = Row(ts: int, error: bool)

  /** What one day pushes: its number since the epoch, and its rows. */
  datatype Batch = Batch(day: int, rows: seq<Row>)

  // ---------------------------------------------------------------- days

  /** 0 is Sunday; day 0 of the epoch was a Thursday. */
  function DayOfWeek(day: int): int {
    (day + 4) % 7
  }

  predicate IsWeekday(day: int) {
    1 <= DayOfWeek(day) <= 5
  }

  /** The epoch was a Thursday, and days of the week follow each other. */
  lemma WeekdaysFollow(day: int)
    ensures DayOfWeek(0) == 4 && 0 <= DayOfWeek(day) < 7
    ensures DayOfWeek(day + 1) == if DayOfWeek(day) == 6 then 0 else DayOfWeek(day) + 1
    ensures IsWeekday(day) <==> DayOfWeek(day) != 0 && DayOfWeek(day) != 6
  {
  }

  /** `skip_weekend`: to the Monday after. */
  method SkipWeekend(day: int) returns (next: int)
    ensures next >= day && IsWeekday(next)
    ensures forall d :: day <= d < next ==> !IsWeekday(d)
  {
    next := day;
    if DayOfWeek(day) == 0 {
      next := next + 1;
    } else if DayOfWeek(day) == 6 {
      next := next + 1;
      next := next + 1;
    }
  }

  /** How many weekdays lie in `[from, end)`. */
  function Weekdays(from: int, end: int): nat
    decreases end - from
  {
    if end <= from then 0 else Weekdays(from, end - 1) + if IsWeekday(end - 1) then 1 else 0
  }

  lemma {:induction false} NoWeekdays(from: int, mid: int, end: int)
    requires from <= mid <= end && forall d :: mid <= d < end ==> !IsWeekday(d)
    ensures Weekdays(from, end) == Weekdays(from, mid)
    decreases end - mid
  {
    if mid < end {
      NoWeekdays(from, mid, end - 1);
    }
  }

  // ---------------------------------------------------------------- errors

  /** `should_generate_error` */
  predicate ShouldGenerateError(cfg: Config, day: nat, i: nat) {
    if day != cfg.days / 2 then false
    else if cfg.iterations < cfg.errors then true
    else if cfg.iterations / 2 < cfg.errors then i < cfg.errors
    else
      var startError := cfg.iterations / 2 - cfg.errors;
      var endError := startError + cfg.errors;
      i >= startError && i < endError
  }

  function ErrorCount(rows: seq<Row>): nat {
    if rows == [] then 0 else ErrorCount(rows[..|rows| - 1]) + if rows[|rows| - 1].error then 1 else 0
  }

  /** How many of the first `n` rows of a day are errors. */
  function ErrorsAmong(cfg: Config, day: nat, n: nat): nat {
    if n == 0 then 0 else ErrorsAmong(cfg, day, n - 1) + if ShouldGenerateError(cfg, day, n - 1) then 1 else 0
  }

  /** `iterations_count` draws from this range. */
  predicate RowCount(n: nat, cfg: Config) {
    if cfg.iterations < 20 then n == cfg.iterations
    else cfg.iterations - cfg.iterations / 10 <= n <= cfg.iterations
  }

  function MinOf(x: int, y: int): int { if x < y then x else y }

  function MaxOf(x: int, y: int): int { if x < y then y else x }

  lemma {:induction false} ErrorsClosedForm(cfg: Config, day: nat, n: nat)
    ensures day != cfg.days / 2 ==> ErrorsAmong(cfg, day, n) == 0
    ensures day == cfg.days / 2 ==>
              ErrorsAmong(cfg, day, n) ==
                if cfg.iterations < cfg.errors then n
                else if cfg.iterations / 2 < cfg.errors then MinOf(n, cfg.errors)
                else MinOf(MaxOf(n - (cfg.iterations / 2 - cfg.errors), 0), cfg.errors)
  {
    if n > 0 {
      ErrorsClosedForm(cfg, day, n - 1);
    }
  }

  /** In all three cases the middle day has as many error rows as asked for, or as it has rows. */
  lemma {:induction false} ErrorsExact(cfg: Config, day: nat, n: nat)
    requires RowCount(n, cfg)
    ensures ErrorsAmong(cfg, day, n) == if day == cfg.days / 2 then MinOf(cfg.errors, n) else 0
  {
    ErrorsClosedForm(cfg, day, n);
  }

  // ---------------------------------------------------------------- the log

  /** Rows of one day: inside the session, `increment` apart. */
  ghost predicate Spaced(rows: seq<Row>, day: int, cfg: Config)
    requires cfg.iterations > 0
  {
    forall i :: 0 <= i < |rows| ==> rows[i].ts == day * DAY_NS + 9 * HOUR_NS + i * (SESSION_NS / cfg.iterations)
  }

  ghost predicate InSession(ts: int, day: int) {
    day * DAY_NS + 9 * HOUR_NS <= ts < day * DAY_NS + 17 * HOUR_NS
  }

  /** `iterations_count` */
  method IterationsCount(cfg: Config) returns (n: nat)
    ensures RowCount(n, cfg)
    ensures n <= cfg.iterations && 10 * n >= 9 * cfg.iterations
  {
    if cfg.iterations < 20 {
      return cfg.iterations;
    }
    n :| cfg.iterations - cfg.iterations / 10 <= n <= cfg.iterations;
  }

  /** The inner loop: one day's rows. */
  method GenerateDay(cfg: Config, days: nat, day: int) returns (rows: seq<Row>)
    requires cfg.iterations >= MIN_ITERATIONS
    ensures RowCount(|rows|, cfg) && Spaced(rows, day, cfg)
    ensures ErrorCount(rows) == ErrorsAmong(cfg, days, |rows|)
    ensures forall i :: 0 <= i < |rows| ==> rows[i].error == ShouldGenerateError(cfg, days, i)
  {
    var ts := new Timespec(day * (DAY_NS / SECOND), 0);
    ts.AddAssign(9 * HOUR_NS);
    var increment := SESSION_NS / cfg.iterations;
    var thisDayIterations := IterationsCount(cfg);
    rows := [];
    for i := 0 to thisDayIterations
      invariant |rows| == i && Spaced(rows, day, cfg)
      invariant ts.State().Total() == day * DAY_NS + 9 * HOUR_NS + i * increment
      invariant ErrorCount(rows) == ErrorsAmong(cfg, days, i)
      invariant forall j :: 0 <= j < i ==> rows[j].error == ShouldGenerateError(cfg, days, j)
    {
      var row := Row(ts.State().Total(), ShouldGenerateError(cfg, days, i));
      assert (rows + [row])[..i] == rows;
      rows := rows + [row];
      ts.AddAssign(increment);
      assert (i + 1) * increment == i * increment + increment;
    }
  }

  lemma {:induction false} SpacedInSession(rows: seq<Row>, day: int, cfg: Config, i: nat)
    requires cfg.iterations > 0 && Spaced(rows, day, cfg) && i < |rows| <= cfg.iterations
    ensures InSession(rows[i].ts, day)
  {
    var increment := SESSION_NS / cfg.iterations;
    ProductMonotone(i, increment, cfg.iterations - 1, increment);
    assert cfg.iterations * increment <= SESSION_NS;
    if increment > 0 {
      assert (cfg.iterations - 1) * increment == cfg.iterations * increment - increment;
    }
  }

  lemma {:induction false} SpacedAscending(rows: seq<Row>, day: int, cfg: Config, i: nat, j: nat)
    requires cfg.iterations > 0 && Spaced(rows, day, cfg) && i < j < |rows|
    ensures rows[i].ts <= rows[j].ts
    ensures rows[i].ts < rows[j].ts <==> cfg.iterations <= SESSION_NS
  {
    var increment := SESSION_NS / cfg.iterations;
    assert j * increment - i * increment == (j - i) * increment;
    ProductMonotone(0, 0, j - i, increment);
    if cfg.iterations <= SESSION_NS {
      QuotientAtLeast(SESSION_NS, cfg.iterations, 1);
      ProductMonotone(1, 1, j - i, increment);
    } else {
      assert increment == 0;
    }
  }

  /** Batch `k` is right: on the `k`th weekday counted from the first of January. */
  ghost predicate GoodBatch(b: Batch, k: nat, startDay: int, cfg: Config)
    requires cfg.iterations > 0
  {
    && startDay <= b.day && IsWeekday(b.day) && Weekdays(startDay, b.day) == k
    && RowCount(|b.rows|, cfg) && Spaced(b.rows, b.day, cfg)
    && (forall i :: 0 <= i < |b.rows| && b.rows[i].error ==> k == cfg.days / 2)
    && ErrorCount(b.rows) == if k == cfg.days / 2 then MinOf(cfg.errors, |b.rows|) else 0
  }

  /** `generate_transaction_log`, from the day number of the first of January. */
  method GenerateTransactionLog(cfg: Config, startDay: int) returns (log: seq<Batch>)
    requires cfg.iterations >= MIN_ITERATIONS
    ensures |log| == cfg.days
    ensures forall k :: 0 <= k < |log| ==> GoodBatch(log[k], k, startDay, cfg)
  {
    hide Spaced, RowCount, ShouldGenerateError, ErrorsAmong, IsWeekday, ErrorCount;
    log := [];
    var day := startDay;
    for days := 0 to cfg.days
      invariant |log| == days && startDay <= day && Weekdays(startDay, day) == days
      invariant forall k :: 0 <= k < days ==> GoodBatch(log[k], k, startDay, cfg)
    {
      var weekday := SkipWeekend(day);
      NoWeekdays(startDay, day, weekday);
      var rows := GenerateDay(cfg, days, weekday);
      ErrorsExact(cfg, days, |rows|);
      OnlyMiddle(cfg, days);
      log := log + [Batch(weekday, rows)];
      day := weekday + 1;
    }
  }

  lemma OnlyMiddle(cfg: Config, day: nat)
    ensures forall i :: ShouldGenerateError(cfg, day, i) ==> day == cfg.days / 2
  {
  }

  lemma {:induction false} WeekdaysMonotone(from: int, x: int, y: int)
    requires from <= x < y && IsWeekday(x)
    ensures Weekdays(from, x) < Weekdays(from, y)
    decreases y - x
  {
    if y > x + 1 {
      WeekdaysMonotone(from, x, y - 1);
    }
  }

  /** In any such log every row lies on a weekday, from nine to before five. */
  lemma {:induction false} RowsInSession(log: seq<Batch>, startDay: int, cfg: Config, k: nat, i: nat)
    requires cfg.iterations > 0 && forall n :: 0 <= n < |log| ==> GoodBatch(log[n], n, startDay, cfg)
    requires k < |log| && i < |log[k].rows|
    ensures IsWeekday(log[k].day) && InSession(log[k].rows[i].ts, log[k].day)
    ensures log[k].rows[i].ts == log[k].day * 86_400_000_000_000 + 32_400_000_000_000
                                 + i * (28_800_000_000_000 / cfg.iterations)
    ensures log[k].rows[i].ts < log[k].day * 86_400_000_000_000 + 61_200_000_000_000
  {
    assert GoodBatch(log[k], k, startDay, cfg);
    SpacedInSession(log[k].rows, log[k].day, cfg, i);
  }

  lemma {:induction false} NoneBetween(from: int, x: int, y: int, d: int)
    requires from <= x < y && IsWeekday(x) && Weekdays(from, y) == Weekdays(from, x) + 1 && x < d < y
    ensures !IsWeekday(d)
  {
    if IsWeekday(d) {
      WeekdaysMonotone(from, x, d);
      WeekdaysMonotone(from, d, y);
    }
  }

  /** No weekday is left out: not before the first batch, and not between two. */
  lemma {:induction false} NoWeekdayMissed(log: seq<Batch>, startDay: int, cfg: Config, k: nat, d: int)
    requires cfg.iterations > 0 && forall n :: 0 <= n < |log| ==> GoodBatch(log[n], n, startDay, cfg)
    requires k < |log|
    ensures startDay <= d < log[0].day ==> !IsWeekday(d)
    ensures k + 1 < |log| ==> log[k].day < log[k + 1].day && (log[k].day < d < log[k + 1].day ==> !IsWeekday(d))
  {
    assert GoodBatch(log[0], 0, startDay, cfg) && GoodBatch(log[k], k, startDay, cfg);
    if startDay <= d < log[0].day && IsWeekday(d) {
      WeekdaysMonotone(startDay, d, log[0].day);
    }
    if k + 1 < |log| {
      assert GoodBatch(log[k + 1], k + 1, startDay, cfg);
      if log[k + 1].day < log[k].day {
        WeekdaysMonotone(startDay, log[k + 1].day, log[k].day);
      }
      if log[k].day < d < log[k + 1].day {
        NoneBetween(startDay, log[k].day, log[k + 1].day, d);
      }
    }
  }

  /** Times never decrease from row to row and day to day; they strictly increase from day to day, and
      within a day exactly when there is a nanosecond for every iteration. */
  lemma {:induction false} LogInOrder(log: seq<Batch>, startDay: int, cfg: Config, k: nat, i: nat, m: nat, j: nat)
    requires cfg.iterations > 0 && forall n :: 0 <= n < |log| ==> GoodBatch(log[n], n, startDay, cfg)
    requires k <= m < |log| && i < |log[k].rows| && j < |log[m].rows| && (k == m ==> i < j)
    ensures log[k].rows[i].ts <= log[m].rows[j].ts
    ensures log[k].rows[i].ts < log[m].rows[j].ts <==> k < m || cfg.iterations <= SESSION_NS
  {
    hide Spaced, InSession, RowCount;
    var a, b := log[k], log[m];
    assert GoodBatch(a, k, startDay, cfg) && GoodBatch(b, m, startDay, cfg);
    if k == m {
      SpacedAscending(a.rows, a.day, cfg, i, j);
    } else {
      RowsInSession(log, startDay, cfg, k, i);
      RowsInSession(log, startDay, cfg, m, j);
      if b.day < a.day {
        WeekdaysMonotone(startDay, b.day, a.day);
      }
      LaterDay(a.rows[i].ts, a.day, b.rows[j].ts, b.day);
    }
  }

  lemma LaterDay(x: int, xDay: int, y: int, yDay: int)
    requires InSession(x, xDay) && InSession(y, yDay) && xDay < yDay
    ensures x < y
  {
  }
}
