/** Naive local timestamps. An `Instant` counts whole seconds and a `Day`
    is Python's proleptic ordinal (`date.toordinal()`: 0001-01-01 is day 1),
    so both the store's text comparisons and the generator's weekday
    arithmetic can be stated on integers. */
module Clock {
  import Text

  type Instant = int
  type Day = int

  const SecondsPerDay: int := 86400

  function DayOf(t: Instant): Day {
    t / SecondsPerDay
  }

  function SecondOfDay(t: Instant): (s: int)
    ensures 0 <= s < SecondsPerDay
  {
    t % SecondsPerDay
  }

  /** The instant `second` seconds after midnight of `day`. */
  function At(day: Day, second: int): (t: Instant)
    requires 0 <= second < SecondsPerDay
    ensures DayOf(t) == day && SecondOfDay(t) == second
    ensures forall u: Instant :: DayOf(u) == day ==> (t <= u <==> second <= SecondOfDay(u))
  {
    day * SecondsPerDay + second
  }

  /** `datetime.strptime(day, '%Y-%m-%d')`: midnight. */
  function StartOfDay(day: Day): Instant {
    At(day, 0)
  }

  /** `d.replace(hour=23, minute=59, second=59)`: the last whole second of
      the day. */
  function EndOfDay(day: Day): (t: Instant)
    ensures forall u: Instant :: DayOf(u) == day ==> u <= t
    ensures forall u: Instant :: u <= t <==> DayOf(u) <= day
  {
    At(day, SecondsPerDay - 1)
  }

  /** `date.weekday()`: Monday is 0, Sunday is 6. */
  function Weekday(day: Day): (w: int)
    ensures 0 <= w < 7
  {
    (day + 6) % 7
  }

  /** Moving forward `k` days moves the weekday forward `k` places. */
  lemma WeekdayShift(day: Day, k: int)
    ensures Weekday(day + k) == (Weekday(day) + k) % 7
  {
  }

  /** A stored `date_time` is "not before now" in the store's queries.
      The column holds `isoformat()` text, `YYYY-MM-DDTHH:MM:SS`, while
      SQLite's `datetime('now', 'localtime')` yields `YYYY-MM-DD HH:MM:SS`;
      the two are compared as text, so on the same date the separator
      decides and `'T'` sorts after `' '` (see `SeparatorDecidesSameDay`).
      Everything dated today therefore counts as upcoming. */
  predicate StoredNotBefore(stored: Instant, now: Instant) {
    DayOf(stored) >= DayOf(now)
  }

  /** `date_time < datetime('now', 'localtime')` under the same text
      comparison: only rows dated before today. */
  predicate StoredBefore(stored: Instant, now: Instant) {
    DayOf(stored) < DayOf(now)
  }

  /** The two SQL comparisons are complementary for any dated row, even
      though neither is the chronological comparison with `now`. */
  lemma StoredComparisonsComplementary(stored: Instant, now: Instant)
    ensures StoredBefore(stored, now) <==> !StoredNotBefore(stored, now)
    ensures stored >= now ==> StoredNotBefore(stored, now)
    ensures StoredBefore(stored, now) ==> stored < now
  {
  }

  /** A timestamp's text: date, one separator character, time of day. */
  function Render(date: string, separator: char, time: string): string {
    date + [separator] + time
  }

  /** The text comparison behind `StoredNotBefore` and `StoredBefore`:
      with date parts of equal width, a stored `'T'` text is at or after an
      SQLite `' '` text exactly when its date is the same or later, and
      before it exactly when its date is earlier; the times never matter. */
  lemma SeparatorDecidesSameDay(storedDate: string, storedTime: string, nowDate: string, nowTime: string)
    requires |storedDate| == |nowDate|
    ensures Text.LessOrEqual(Render(nowDate, ' ', nowTime), Render(storedDate, 'T', storedTime))
        <==> storedDate == nowDate || Text.Less(nowDate, storedDate)
    ensures Text.Less(Render(storedDate, 'T', storedTime), Render(nowDate, ' ', nowTime))
        <==> Text.Less(storedDate, nowDate)
  {
    SeparatorNotBefore(storedDate, storedTime, nowDate, nowTime);
    SeparatorBefore(storedDate, storedTime, nowDate, nowTime);
  }

  /** On the same date the `'T'` text sorts after the `' '` text. */
  lemma SameDateTSortsAfterSpace(date: string, storedTime: string, nowTime: string)
    ensures Text.Less(Render(date, ' ', nowTime), Render(date, 'T', storedTime))
  {
    var sTail, nTail := ['T'] + storedTime, [' '] + nowTime;
    assert Render(date, 'T', storedTime) == date + sTail;
    assert Render(date, ' ', nowTime) == date + nTail;
    Text.LessOfEqualWidthPrefixes(date, nTail, date, sTail);
    assert Text.Less(nTail, sTail);
  }

  /** With differing dates of equal width, the dates decide. */
  lemma DifferentDatesDecide(storedDate: string, storedTime: string, nowDate: string, nowTime: string)
    requires |storedDate| == |nowDate| && storedDate != nowDate
    ensures Text.Less(Render(nowDate, ' ', nowTime), Render(storedDate, 'T', storedTime))
        <==> Text.Less(nowDate, storedDate)
    ensures Text.Less(Render(storedDate, 'T', storedTime), Render(nowDate, ' ', nowTime))
        <==> Text.Less(storedDate, nowDate)
    ensures Render(storedDate, 'T', storedTime) != Render(nowDate, ' ', nowTime)
  {
    var stored, now := Render(storedDate, 'T', storedTime), Render(nowDate, ' ', nowTime);
    var sTail, nTail := ['T'] + storedTime, [' '] + nowTime;
    assert stored == storedDate + sTail;
    assert now == nowDate + nTail;
    Text.LessOfEqualWidthPrefixes(nowDate, nTail, storedDate, sTail);
    Text.LessOfEqualWidthPrefixes(storedDate, sTail, nowDate, nTail);
    assert stored[..|storedDate|] == storedDate && now[..|nowDate|] == nowDate;
  }

  lemma SeparatorNotBefore(storedDate: string, storedTime: string, nowDate: string, nowTime: string)
    requires |storedDate| == |nowDate|
    ensures Text.LessOrEqual(Render(nowDate, ' ', nowTime), Render(storedDate, 'T', storedTime))
        <==> storedDate == nowDate || Text.Less(nowDate, storedDate)
  {
    if storedDate == nowDate {
      SameDateTSortsAfterSpace(storedDate, storedTime, nowTime);
    } else {
      DifferentDatesDecide(storedDate, storedTime, nowDate, nowTime);
    }
  }

  lemma SeparatorBefore(storedDate: string, storedTime: string, nowDate: string, nowTime: string)
    requires |storedDate| == |nowDate|
    ensures Text.Less(Render(storedDate, 'T', storedTime), Render(nowDate, ' ', nowTime))
        <==> Text.Less(storedDate, nowDate)
  {
    if storedDate == nowDate {
      SameDateTSortsAfterSpace(storedDate, storedTime, nowTime);
      Text.LessAsymmetric(Render(nowDate, ' ', nowTime), Render(storedDate, 'T', storedTime));
      Text.LessIrreflexive(storedDate);
    } else {
      DifferentDatesDecide(storedDate, storedTime, nowDate, nowTime);
    }
  }
}
