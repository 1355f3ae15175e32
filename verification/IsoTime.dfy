/** Instants of one day as text: formatting, parsing, and the order `strcmp` gives. */
module IsoTime {

  import opened Arith

  const DAY: nat := 86400
  const QUARTER: nat := 900

  /** A calendar day, with the epoch second at which it starts. */
  datatype Day = Day(start: nat, year: nat, month: nat, day: nat) {
    ghost predicate Valid() {
      && 1970 <= year <= 9999 && IsDate(year, month, day)
      && start == DaysFromCivil(year, month, day) * DAY
    }

    predicate Contains(t: int) {
      start <= t < start + DAY
    }
  }

  /** Days from 1970-01-01 to a date of the proleptic Gregorian calendar; `timegm` is this times
      86400 plus the time of day. */
  function DaysFromCivil(year: nat, month: nat, day: nat): int
  {
    var y := if month <= 2 then year - 1 else year;
    var dayOfYear := (153 * ((month + 9) % 12) + 2) / 5 + day - 1;
    y * 365 + y / 4 - y / 100 + y / 400 + dayOfYear - 719468
  }

  // ---------------------------------------------------------------- the calendar

  predicate Leap(year: nat) {
    year % 4 == 0 && (year % 100 != 0 || year % 400 == 0)
  }

  function DaysInMonth(year: nat, month: nat): (n: nat)
    ensures 28 <= n <= 31
  {
    if month == 2 then (if Leap(year) then 29 else 28) else if month in {4, 6, 9, 11} then 30 else 31
  }

  predicate IsDate(year: nat, month: nat, day: nat) {
    1 <= month <= 12 && 1 <= day <= DaysInMonth(year, month)
  }

  lemma {:induction false} StepOver(n: nat, k: nat)
    requires n >= 1 && k >= 1
    ensures n / k - (n - 1) / k == if n % k == 0 then 1 else 0
  {
    DivMod(n, k);
    if n % k == 0 {
      assert (n / k - 1) * k == n / k * k - k;
      QuotientUnique(n - 1, k, n / k - 1);
    } else {
      QuotientUnique(n - 1, k, n / k);
    }
  }

  /** How many leap days the formula counts for a year. */
  lemma {:induction false} LeapDay(year: nat)
    requires year >= 1
    ensures year / 4 - (year - 1) / 4 - (year / 100 - (year - 1) / 100) + (year / 400 - (year - 1) / 400)
         == if Leap(year) then 1 else 0
  {
    StepOver(year, 4);
    StepOver(year, 100);
    StepOver(year, 400);
    DivMod(year, 400);
    DivMod(year, 100);
    ModShift(0, year / 400 * 4, 100);
    ModShift(0, year / 100 * 25, 4);
  }

  /** Days before a year that starts in March, and days before a month of it. */
  function YearBase(y: int): int {
    y * 365 + y / 4 - y / 100 + y / 400
  }

  function MonthBase(month: nat): int {
    (153 * ((month + 9) % 12) + 2) / 5
  }

  lemma CivilParts(year: nat, month: nat, day: nat)
    ensures DaysFromCivil(year, month, day)
         == YearBase(if month <= 2 then year - 1 else year) + MonthBase(month) + day - 1 - 719468
  {
  }

  lemma MonthsFollow(year: nat, month: nat)
    requires 1 <= month <= 12
    ensures month != 2 ==>
              MonthBase(if month == 12 then 1 else month + 1) == MonthBase(month) + DaysInMonth(year, month)
    ensures MonthBase(3) == 0 && MonthBase(2) == 337
  {
  }

  /** Counting days starts at the epoch, and the day after a date, in its month, in the next month or in the
      next year, has the next number: these two fix the number of every date from the epoch on. */
  lemma {:induction false} DaysCount(year: nat, month: nat, day: nat)
    requires IsDate(year, month, day) && year >= 1
    ensures DaysFromCivil(1970, 1, 1) == 0
    ensures var n := DaysFromCivil(year, month, day) + 1;
            if day < DaysInMonth(year, month) then DaysFromCivil(year, month, day + 1) == n
            else if month < 12 then DaysFromCivil(year, month + 1, 1) == n
            else DaysFromCivil(year + 1, 1, 1) == n
  {
    CivilParts(year, month, day);
    CivilParts(year, month, day + 1);
    CivilParts(year, month + 1, 1);
    CivilParts(year + 1, 1, 1);
    MonthsFollow(year, month);
    LeapDay(year);
    FebruaryLength(year);
    Epoch();
    assert YearBase(year) - YearBase(year - 1) == 365 + if Leap(year) then 1 else 0;
    hide DaysFromCivil, YearBase, MonthBase, Leap, DaysInMonth;
  }

  lemma FebruaryLength(year: nat)
    ensures DaysInMonth(year, 2) == if Leap(year) then 29 else 28
  {
  }

  lemma Epoch()
    ensures DaysFromCivil(1970, 1, 1) == 0
  {
  }

  function Timegm(year: nat, month: nat, day: nat, hour: nat, minute: nat, second: nat): int {
    DaysFromCivil(year, month, day) * DAY + hour * 3600 + minute * 60 + second
  }

  // ---------------------------------------------------------------- digits

  function Digit(n: nat): char
    requires n < 10
  {
    ('0' as int + n) as char
  }

  predicate IsDigit(c: char) {
    '0' <= c <= '9'
  }

  function Value(c: char): nat
    requires IsDigit(c)
  {
    c as int - '0' as int
  }

  function Two(n: nat): (s: string)
    requires n < 100
    ensures |s| == 2
  {
    [Digit(n / 10), Digit(n % 10)]
  }

  function Four(n: nat): (s: string)
    requires n < 10000
    ensures |s| == 4
  {
    Two(n / 100) + Two(n % 100)
  }

  // ---------------------------------------------------------------- formatting

  function DateText(d: Day): (s: string)
    requires d.Valid()
    ensures |s| == 11
  {
    Four(d.year) + "-" + Two(d.month) + "-" + Two(d.day) + "T"
  }

  function ClockText(second: nat): (s: string)
    requires second < DAY
    ensures |s| == 9
  {
    Two(second / 3600) + ":" + Two(second / 60 % 60) + ":" + Two(second % 60) + "Z"
  }

  /** `to_iso_extended_string_utc` of an instant of the day. */
  function IsoText(d: Day, t: int): (s: string)
    requires d.Valid() && d.Contains(t)
    ensures |s| == 20
  {
    DateText(d) + ClockText(t - d.start)
  }

  function Decimal(c: char): int {
    c as int - '0' as int
  }

  lemma TwoSpelled(n: nat)
    requires n < 100
    ensures var s := Two(n); '0' <= s[0] <= '9' && '0' <= s[1] <= '9' && 10 * Decimal(s[0]) + Decimal(s[1]) == n
  {
  }

  lemma {:induction false} DateSpelled(d: Day)
    requires d.Valid()
    ensures var s := DateText(d);
            && (forall i :: 0 <= i < 11 && i !in {4, 7, 10} ==> '0' <= s[i] <= '9')
            && s[4] == s[7] == '-' && s[10] == 'T'
            && 1000 * Decimal(s[0]) + 100 * Decimal(s[1]) + 10 * Decimal(s[2]) + Decimal(s[3]) == d.year
            && 10 * Decimal(s[5]) + Decimal(s[6]) == d.month && 10 * Decimal(s[8]) + Decimal(s[9]) == d.day
  {
    TwoSpelled(d.year / 100);
    TwoSpelled(d.year % 100);
    TwoSpelled(d.month);
    TwoSpelled(d.day);
    hide Two, Decimal, DaysFromCivil, DaysInMonth;
  }

  lemma {:induction false} ClockSpelled(c: nat)
    requires c < DAY
    ensures var s := ClockText(c);
            && (forall i :: 0 <= i < 9 && i !in {2, 5, 8} ==> '0' <= s[i] <= '9')
            && s[2] == s[5] == ':' && s[8] == 'Z'
            && 10 * Decimal(s[0]) + Decimal(s[1]) == c / 3600
            && 10 * Decimal(s[3]) + Decimal(s[4]) == c % 3600 / 60 && 10 * Decimal(s[6]) + Decimal(s[7]) == c % 60
  {
    TwoSpelled(c / 3600);
    TwoSpelled(c / 60 % 60);
    TwoSpelled(c % 60);
    MinutesOfHour(c);
    hide Two, Decimal;
  }

  lemma {:induction false} MinutesOfHour(c: nat)
    ensures c / 60 % 60 == c % 3600 / 60
  {
    DivMod(c, 3600);
    ModShift(c % 3600, c / 3600 * 60, 60);
    ModShift(c % 3600 / 60, c / 3600, 60);
  }

  /** The text of an instant, character by character: YYYY-MM-DDTHH:MM:SSZ. */
  lemma {:induction false} IsoTextSpelled(d: Day, t: int)
    requires d.Valid() && d.Contains(t)
    ensures var s, c := IsoText(d, t), t - d.start;
            && (forall i :: 0 <= i < 20 && i !in {4, 7, 10, 13, 16, 19} ==> '0' <= s[i] <= '9')
            && s[4] == s[7] == '-' && s[10] == 'T' && s[13] == s[16] == ':' && s[19] == 'Z'
            && 1000 * Decimal(s[0]) + 100 * Decimal(s[1]) + 10 * Decimal(s[2]) + Decimal(s[3]) == d.year
            && 10 * Decimal(s[5]) + Decimal(s[6]) == d.month && 10 * Decimal(s[8]) + Decimal(s[9]) == d.day
            && 10 * Decimal(s[11]) + Decimal(s[12]) == c / 3600
            && 10 * Decimal(s[14]) + Decimal(s[15]) == c % 3600 / 60
            && 10 * Decimal(s[17]) + Decimal(s[18]) == c % 60
  {
    DateSpelled(d);
    ClockSpelled(t - d.start);
    hide Decimal, DateText, ClockText, DaysFromCivil, DaysInMonth;
    var s, date, clock := IsoText(d, t), DateText(d), ClockText(t - d.start);
    assert s == date + clock;
    assert forall i :: 0 <= i < 11 ==> s[i] == date[i];
    assert forall i :: 11 <= i < 20 ==> s[i] == clock[i - 11];
  }

  // ---------------------------------------------------------------- parsing

  datatype Option<T> = None | Some(value: T)

  /** A fixed number of digits at the front. */
  function ParseDigits(s: string, n: nat): Option<nat> {
    if n == 0 then Some(0)
    else if |s| < n || !IsDigit(s[n - 1]) then None
    else match ParseDigits(s, n - 1)
      case None => None
      case Some(v) => Some(10 * v + Value(s[n - 1]))
  }

  /** `from_iso_extended_string_utc`; None stands for the default time point. What follows the
      seconds is not looked at. */
  function ParseIso(s: string): Option<int> {
    if |s| < 19 then None
    else if !(s[4] == '-' && s[7] == '-' && s[10] == 'T' && s[13] == ':' && s[16] == ':') then None
    else match (ParseDigits(s[0..4], 4), ParseDigits(s[5..7], 2), ParseDigits(s[8..10], 2),
                ParseDigits(s[11..13], 2), ParseDigits(s[14..16], 2), ParseDigits(s[17..19], 2))
      case (Some(y), Some(mo), Some(d), Some(h), Some(mi), Some(sec)) =>
        var t := Timegm(y, mo, d, h, mi, sec);
        if t == 0 then None else Some(t)
      case _ => None
  }

  lemma {:induction false} ParseTwo(n: nat)
    requires n < 100
    ensures ParseDigits(Two(n), 2) == Some(n)
  {
    assert ParseDigits(Two(n), 0) == Some(0);
    assert ParseDigits(Two(n), 1) == Some(n / 10);
  }

  lemma {:induction false} ParseFour(n: nat)
    requires n < 10000
    ensures ParseDigits(Four(n), 4) == Some(n)
  {
    var s := Four(n);
    assert ParseDigits(s, 0) == Some(0);
    assert ParseDigits(s, 1) == Some(n / 1000);
    assert ParseDigits(s, 2) == Some(n / 100);
    assert ParseDigits(s, 3) == Some(n / 10);
  }

  /** Parsing what was formatted gives the instant back, except for the epoch itself. */
  lemma {:induction false} ParseFormatted(d: Day, t: int)
    requires d.Valid() && d.Contains(t)
    ensures ParseIso(IsoText(d, t)) == if t == 0 then None else Some(t)
  {
    hide ParseDigits, Two, Four, DaysFromCivil;
    var s, c := IsoText(d, t), t - d.start;
    assert s[0..4] == Four(d.year) && s[5..7] == Two(d.month) && s[8..10] == Two(d.day);
    assert s[11..13] == Two(c / 3600) && s[14..16] == Two(c / 60 % 60) && s[17..19] == Two(c % 60);
    ParseFour(d.year);
    ParseTwo(d.month);
    ParseTwo(d.day);
    ParseTwo(c / 3600);
    ParseTwo(c / 60 % 60);
    ParseTwo(c % 60);
    ClockParts(c);
  }

  lemma ClockParts(c: nat)
    ensures c == c / 3600 * 3600 + c / 60 % 60 * 60 + c % 60
  {
  }

  // ---------------------------------------------------------------- order

  /** `strcmp(a, b) < 0` */
  predicate TextLess(a: string, b: string) {
    if b == [] then false
    else if a == [] then true
    else if a[0] != b[0] then a[0] < b[0]
    else TextLess(a[1..], b[1..])
  }

  lemma {:induction false} CommonPrefix(p: string, a: string, b: string)
    ensures TextLess(p + a, p + b) <==> TextLess(a, b)
    decreases |p|
  {
    if p == [] {
      assert p + a == a && p + b == b;
    } else {
      assert (p + a)[1..] == p[1..] + a && (p + b)[1..] == p[1..] + b;
      CommonPrefix(p[1..], a, b);
    }
  }

  /** Two-digit fields compare as numbers, and equal fields hand over to what follows. */
  lemma {:induction false} TwoLess(m: nat, n: nat, a: string, b: string)
    requires m < 100 && n < 100
    ensures TextLess(Two(m) + a, Two(n) + b) <==> m < n || (m == n && TextLess(a, b))
  {
    assert (Two(m) + a)[1..] == [Digit(m % 10)] + a && (Two(n) + b)[1..] == [Digit(n % 10)] + b;
    assert (Two(m) + a)[1..][1..] == a && (Two(n) + b)[1..][1..] == b;
  }

  lemma {:induction false} ClockLess(x: nat, y: nat)
    requires x < DAY && y < DAY
    ensures TextLess(ClockText(x), ClockText(y)) <==> x < y
  {
    ClockDigits(x, y);
    hide TextLess, Two;
    var xs, ys := Two(x % 60) + "Z", Two(y % 60) + "Z";
    var xm, ym := Two(x / 60 % 60) + (":" + xs), Two(y / 60 % 60) + (":" + ys);
    assert ClockText(x) == Two(x / 3600) + (":" + xm) && ClockText(y) == Two(y / 3600) + (":" + ym);
    TwoLess(x / 3600, y / 3600, ":" + xm, ":" + ym);
    CommonPrefix(":", xm, ym);
    TwoLess(x / 60 % 60, y / 60 % 60, ":" + xs, ":" + ys);
    CommonPrefix(":", xs, ys);
    TwoLess(x % 60, y % 60, "Z", "Z");
    NotLess("Z");
  }

  lemma {:induction false} NotLess(s: string)
    ensures !TextLess(s, s)
  {
    if s != [] {
      NotLess(s[1..]);
    }
  }

  /** Hours, minutes and seconds, compared in turn, compare the times of day. */
  lemma ClockDigits(x: nat, y: nat)
    requires x < DAY && y < DAY
    ensures x < y <==> x / 3600 < y / 3600
                       || (x / 3600 == y / 3600 && (x / 60 % 60 < y / 60 % 60
                                                    || (x / 60 % 60 == y / 60 % 60 && x % 60 < y % 60)))
  {
    ClockParts(x);
    ClockParts(y);
  }

  // ---------------------------------------------------------------- snapshot keys

  /** `get_snapshot_timestamp`, in seconds: down to the quarter hour. */
  function FloorQuarter(t: nat): nat {
    t - t % QUARTER
  }

  /** Flooring never leaves the day. */
  lemma FloorStays(d: Day, t: nat)
    requires d.Valid() && d.Contains(t)
    ensures d.Contains(FloorQuarter(t)) && FloorQuarter(t) <= t && FloorQuarter(t) % QUARTER == 0
    ensures FloorQuarter(t) == t <==> t % QUARTER == 0
    ensures FloorQuarter(t) % 900 == 0 && 0 <= t - FloorQuarter(t) < 900
  {
    hide DaysFromCivil;
    var quarters := 96 * DaysFromCivil(d.year, d.month, d.day);
    assert d.start == QUARTER * quarters;
    assert t == QUARTER * (t / QUARTER) + t % QUARTER;
    assert quarters <= t / QUARTER;
  }

  function DayPrefix(stock: string, d: Day): string
    requires d.Valid()
  {
    stock + "_orders_snap_" + DateText(d)
  }

  /** `make_snapshot_key` */
  function Key(stock: string, d: Day, when: nat): string
    requires d.Valid() && d.Contains(when)
  {
    stock + "_orders_snap_" + IsoText(d, FloorQuarter(when))
  }

  function At(stock: string, d: Day, t: nat): string
    requires d.Valid() && d.Contains(t)
  {
    DayPrefix(stock, d) + ClockText(t - d.start)
  }

  lemma {:induction false} KeyIsAt(stock: string, d: Day, when: nat)
    requires d.Valid() && d.Contains(when)
    ensures Key(stock, d, when) == At(stock, d, FloorQuarter(when))
    ensures DayPrefix(stock, d) <= Key(stock, d, when)
  {
  }

  /** A key is the stock, a fixed word and the text of its quarter hour; the prefix asked for goes up to the
      letter before the time. */
  lemma {:induction false} KeySpelled(stock: string, d: Day, when: nat)
    requires d.Valid() && d.Contains(when) && d.Contains(FloorQuarter(when))
    ensures Key(stock, d, when) == stock + "_orders_snap_" + IsoText(d, FloorQuarter(when))
    ensures DayPrefix(stock, d) == stock + "_orders_snap_" + IsoText(d, FloorQuarter(when))[..11]
  {
    DateFirst(d, FloorQuarter(when));
    hide IsoText, DateText, FloorQuarter, DaysFromCivil;
  }

  lemma DateFirst(d: Day, t: int)
    requires d.Valid() && d.Contains(t)
    ensures IsoText(d, t)[..11] == DateText(d)
  {
    hide DateText, ClockText, DaysFromCivil;
  }

  /** Within a day, key order is time order. */
  lemma {:induction false} KeyOrder(stock: string, d: Day, t: nat, u: nat)
    requires d.Valid() && d.Contains(t) && d.Contains(u)
    ensures TextLess(At(stock, d, t), At(stock, d, u)) <==> t < u
    ensures At(stock, d, t) == At(stock, d, u) <==> t == u
  {
    hide TextLess, ClockText, DayPrefix;
    CommonPrefix(DayPrefix(stock, d), ClockText(t - d.start), ClockText(u - d.start));
    CommonPrefix(DayPrefix(stock, d), ClockText(u - d.start), ClockText(t - d.start));
    NotLess(At(stock, d, t));
    ClockLess(t - d.start, u - d.start);
    ClockLess(u - d.start, t - d.start);
  }

  /** `rfind('_')`: the last underscore, or the length of the text. */
  function LastUnderscore(s: string): nat {
    if s == [] then 0
    else if s[|s| - 1] == '_' then |s| - 1
    else if LastUnderscore(s[..|s| - 1]) == |s| - 1 then |s|
    else LastUnderscore(s[..|s| - 1])
  }

  lemma {:induction false} UnderscoreBefore(s: string, tail: string)
    requires '_' !in tail
    ensures LastUnderscore(s + "_" + tail) == |s|
    decreases |tail|
  {
    var text := s + "_" + tail;
    if tail == [] {
      assert text == s + "_";
    } else {
      var n := |tail| - 1;
      assert text[..|text| - 1] == s + "_" + tail[..n];
      UnderscoreBefore(s, tail[..n]);
    }
  }

  lemma {:induction false} NoUnderscore(d: Day, t: int)
    requires d.Valid() && d.Contains(t)
    ensures '_' !in IsoText(d, t)
  {
  }

  /** The suffix of a key parses to exactly the instant the key stands for. */
  lemma {:induction false} KeySuffix(stock: string, d: Day, t: nat)
    requires d.Valid() && d.Contains(t)
    ensures var key := At(stock, d, t); var i := LastUnderscore(key);
            i < |key| && ParseIso(key[i + 1..]) == if t == 0 then None else Some(t)
  {
    var key := At(stock, d, t);
    NoUnderscore(d, t);
    assert key == stock + "_orders_snap" + "_" + IsoText(d, t);
    UnderscoreBefore(stock + "_orders_snap", IsoText(d, t));
    ParseFormatted(d, t);
    assert key[|stock + "_orders_snap"| + 1..] == IsoText(d, t);
  }
}
