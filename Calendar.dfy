/**
 * Gregorian calendar dates and wall-clock times of day.
 *
 * The source keeps dates as ISO strings and compares them through JavaScript
 * `Date` values; for well-formed calendar dates that comparison is the
 * lexicographic order on (year, month, day), which is what is modelled here.
 */
module Calendar {

  datatype Date = Date(year: int, month: int, day: int)

  /** A time of day on the wall clock, as the strings "09:00" .. "18:00". */
  datatype Time = Time(hour: int, minute: int)

  predicate IsLeapYear(y: int) {
    y % 4 == 0 && (y % 100 != 0 || y % 400 == 0)
  }

  function DaysInMonth(y: int, m: int): int {
    if m == 2 then (if IsLeapYear(y) then 29 else 28)
    else if m == 4 || m == 6 || m == 9 || m == 11 then 30
    else 31
  }

  /** A real calendar day (any year). */
  predicate WellFormed(d: Date) {
    1 <= d.month <= 12 && 1 <= d.day <= DaysInMonth(d.year, d.month)
  }

  /** A calendar day whose ISO text has a four-digit year, as a date input yields. */
  predicate ValidDate(d: Date) {
    WellFormed(d) && 1 <= d.year <= 9999
  }

  predicate ValidTime(t: Time) {
    0 <= t.hour < 24 && 0 <= t.minute < 60
  }

  /** A date as a date input or `toISOString` writes it. */
  type Day = d: Date | ValidDate(d) witness Date(1970, 1, 1)

  /** A time slot "HH:MM". */
  type ClockTime = t: Time | ValidTime(t) witness Time(0, 0)

  /** `a < b` on dates. */
  predicate DateBefore(a: Date, b: Date) {
    a.year < b.year
    || (a.year == b.year && (a.month < b.month || (a.month == b.month && a.day < b.day)))
  }

  predicate DateAtMost(a: Date, b: Date) {
    a == b || DateBefore(a, b)
  }

  predicate TimeBefore(a: Time, b: Time) {
    a.hour < b.hour || (a.hour == b.hour && a.minute < b.minute)
  }

  /**
   * `new Date(d1 + 'T' + t1) < new Date(d2 + 'T' + t2)` for the page's slots
   * 09:00 .. 18:00, which no daylight-saving change shifts; a local time inside
   * a spring-forward gap would be read an hour later, which this order ignores.
   */
  predicate InstantBefore(d1: Date, t1: Time, d2: Date, t2: Time)
    ensures InstantBefore(d1, t1, d2, t2) ==> DateAtMost(d1, d2)
  {
    DateBefore(d1, d2) || (d1 == d2 && TimeBefore(t1, t2))
  }

  /** The order on instants is transitive. */
  lemma InstantBeforeTransitive(d1: Date, t1: Time, d2: Date, t2: Time, d3: Date, t3: Time)
    requires InstantBefore(d1, t1, d2, t2) && InstantBefore(d2, t2, d3, t3)
    ensures InstantBefore(d1, t1, d3, t3)
  {
    if DateBefore(d1, d2) && DateBefore(d2, d3) {
      DateBeforeTransitive(d1, d2, d3);
    }
  }

  /** The order on instants is total: an instant not after another is before it or the same. */
  lemma InstantBeforeOrAt(d1: Date, t1: Time, d2: Date, t2: Time, d3: Date, t3: Time)
    requires InstantBefore(d1, t1, d2, t2) && !InstantBefore(d3, t3, d2, t2)
    ensures InstantBefore(d1, t1, d3, t3)
  {
    if !(d2 == d3 && t2 == t3) {
      assert InstantBefore(d2, t2, d3, t3);
      InstantBeforeTransitive(d1, t1, d2, t2, d3, t3);
    }
  }

  /** The next calendar day: what `setDate(getDate() + 1)` does to a date. */
  function Succ(d: Date): (r: Date)
    ensures WellFormed(d) ==> WellFormed(r)
    ensures DateBefore(d, r)
  {
    if d.day < DaysInMonth(d.year, d.month) then Date(d.year, d.month, d.day + 1)
    else if d.month < 12 then Date(d.year, d.month + 1, 1)
    else Date(d.year + 1, 1, 1)
  }

  /** No calendar day lies strictly between a day and its successor. */
  lemma SuccIsNext(d: Date, x: Date)
    requires WellFormed(d) && WellFormed(x) && DateBefore(d, x)
    ensures DateAtMost(Succ(d), x)
  {
  }

  lemma DateBeforeTransitive(a: Date, b: Date, c: Date)
    requires DateBefore(a, b) && DateBefore(b, c)
    ensures DateBefore(a, c)
  {
  }

  /** Every day from `start` to `end`, both included, in increasing order. */
  function DateRange(start: Date, end: Date): (r: seq<Date>)
    requires WellFormed(start) && WellFormed(end)
    ensures forall k :: 0 <= k < |r| ==> WellFormed(r[k])
    decreases end.year - start.year, 12 - start.month, 31 - start.day
  {
    if DateBefore(end, start) then [] else [start] + DateRange(Succ(start), end)
  }

  /** The range holds exactly the calendar days between its bounds. */
  lemma {:induction false} DateRangeMembers(start: Date, end: Date, x: Date)
    requires WellFormed(start) && WellFormed(end)
    ensures x in DateRange(start, end) <==> WellFormed(x) && DateAtMost(start, x) && DateAtMost(x, end)
    decreases end.year - start.year, 12 - start.month, 31 - start.day
  {
    if !DateBefore(end, start) {
      var next := Succ(start);
      DateRangeMembers(next, end, x);
      if WellFormed(x) && DateBefore(start, x) {
        SuccIsNext(start, x);
      }
    }
  }

  /** The range starts at `start`, ends at `end` and steps one day at a time. */
  lemma {:induction false} DateRangeSteps(start: Date, end: Date)
    requires WellFormed(start) && WellFormed(end)
    ensures var r := DateRange(start, end);
      && (r == [] <==> DateBefore(end, start))
      && (r != [] ==> r[0] == start && r[|r| - 1] == end)
      && (forall i :: 0 <= i < |r| - 1 ==> r[i + 1] == Succ(r[i]))
    decreases end.year - start.year, 12 - start.month, 31 - start.day
  {
    if !DateBefore(end, start) {
      var next := Succ(start);
      DateRangeSteps(next, end);
      if start != end {
        SuccIsNext(start, end);
      }
    }
  }

  /** The range is strictly increasing, so it never lists a day twice. */
  lemma {:induction false} DateRangeIncreasing(start: Date, end: Date)
    requires WellFormed(start) && WellFormed(end)
    ensures var r := DateRange(start, end);
      forall i, j :: 0 <= i < j < |r| ==> DateBefore(r[i], r[j])
    decreases end.year - start.year, 12 - start.month, 31 - start.day
  {
    if !DateBefore(end, start) {
      var next := Succ(start);
      DateRangeIncreasing(next, end);
      var rest := DateRange(next, end);
      forall k | 0 <= k < |rest|
        ensures DateBefore(start, rest[k])
      {
        DateRangeMembers(next, end, rest[k]);
        if rest[k] != next {
          DateBeforeTransitive(start, next, rest[k]);
        }
      }
    }
  }
}
