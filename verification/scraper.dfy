/** The deterministic parts of the event generator: the keyword
    classifier, event times relative to today, the URL slug of food
    events, the weekly and monthly recurrence offsets, the first-Tuesday
    and second-Wednesday searches, and the order in which a scraping pass
    purges and inserts. The clock is the parameter `now`. */
module Scraper {
  import opened Wrappers
  import opened Clock
  import opened Models
  import opened Seqs
  import opened Database
  import Text

  // ---------------------------------------------------------------------
  // categorize_event

  /** One branch of the classifier: its category and its keywords. */
  datatype Rule = Rule(category: string, keywords: seq<string>)

  /** The branches in the order they are tried. */
  const Rules: seq<Rule> := [
    Rule("family", ["family", "kids", "children", "playground"]),
    Rule("music", ["music", "concert", "band", "jazz", "rock"]),
    Rule("outdoors", ["outdoor", "park", "hiking", "nature"]),
    Rule("arts", ["art", "gallery", "exhibition", "museum"]),
    Rule("food", ["food", "restaurant", "dining", "market"]),
    Rule("business", ["business", "networking", "entrepreneur"]),
    Rule("education", ["education", "workshop", "class", "seminar"]),
    Rule("community", ["community", "meeting", "council"]),
    Rule("sports", ["sport", "game", "athletic", "fitness"])
  ]

  /** `any(word in text for word in words)`. */
  predicate AnyKeyword(text: string, words: seq<string>) {
    exists i | 0 <= i < |words| :: Text.Contains(text, words[i])
  }

  /** The category of the first rule with a keyword in `text`, or
      "general". */
  function FirstMatch(text: string, rules: seq<Rule>): (c: string)
    ensures c == "general" || exists k | 0 <= k < |rules| :: c == rules[k].category
  {
    if rules == [] then "general"
    else if AnyKeyword(text, rules[0].keywords) then rules[0].category
    else
      var c := FirstMatch(text, rules[1..]);
      assert forall k :: 0 <= k < |rules[1..]| ==> rules[1..][k] == rules[k + 1];
      c
  }

  /** The text the classifier searches. */
  function ClassifiedText(title: string, description: string): string {
    Text.Lower(title + " " + description)
  }

  /** `categorize_event(title, description)`. */
  function CategorizeEvent(title: string, description: string): (c: string)
    ensures c in EventCategories
  {
    var c := FirstMatch(ClassifiedText(title, description), Rules);
    assert forall k :: 0 <= k < |Rules| ==> Rules[k].category in EventCategories;
    c
  }

  /** The first rule whose keywords occur decides. */
  lemma {:induction false} FirstMatchIsFirst(text: string, rules: seq<Rule>, k: nat)
    requires k < |rules| && AnyKeyword(text, rules[k].keywords)
    requires forall j :: 0 <= j < k ==> !AnyKeyword(text, rules[j].keywords)
    ensures FirstMatch(text, rules) == rules[k].category
  {
    if k > 0 {
      assert !AnyKeyword(text, rules[0].keywords);
      FirstMatchIsFirst(text, rules[1..], k - 1);
    }
  }

  /** "general" comes out exactly when no keyword of any rule occurs,
      provided no rule is itself labelled "general". */
  lemma {:induction false} FirstMatchGeneral(text: string, rules: seq<Rule>)
    requires forall k :: 0 <= k < |rules| ==> rules[k].category != "general"
    ensures FirstMatch(text, rules) == "general" <==>
      forall k :: 0 <= k < |rules| ==> !AnyKeyword(text, rules[k].keywords)
  {
    if rules != [] {
      FirstMatchGeneral(text, rules[1..]);
      assert forall k :: 1 <= k < |rules| ==> rules[k] == rules[1..][k - 1];
    }
  }

  /** The classifier returns the category of the first branch, in source
      order, whose keywords occur in the lower-cased `title + " " +
      description`, and "general" exactly when none does. */
  lemma CategorizeSpec(title: string, description: string)
    ensures var text := ClassifiedText(title, description);
      && (CategorizeEvent(title, description) == "general" <==>
           forall k :: 0 <= k < |Rules| ==> !AnyKeyword(text, Rules[k].keywords))
      && (forall k :: 0 <= k < |Rules| && AnyKeyword(text, Rules[k].keywords)
           && (forall j :: 0 <= j < k ==> !AnyKeyword(text, Rules[j].keywords))
           ==> CategorizeEvent(title, description) == Rules[k].category)
  {
    var text := ClassifiedText(title, description);
    FirstMatchGeneral(text, Rules);
    forall k | 0 <= k < |Rules| && AnyKeyword(text, Rules[k].keywords)
        && (forall j :: 0 <= j < k ==> !AnyKeyword(text, Rules[j].keywords))
      ensures CategorizeEvent(title, description) == Rules[k].category
    {
      FirstMatchIsFirst(text, Rules, k);
    }
  }

  /** A family keyword wins over every other keyword, e.g. a "kids
      concert" is a family event, not a music event. */
  lemma FamilyFirst(title: string, description: string)
    requires Text.Contains(ClassifiedText(title, description), "kids")
    ensures CategorizeEvent(title, description) == "family"
  {
    assert AnyKeyword(ClassifiedText(title, description), Rules[0].keywords) by {
      assert Rules[0].keywords[1] == "kids";
    }
    FirstMatchIsFirst(ClassifiedText(title, description), Rules, 0);
  }

  // ---------------------------------------------------------------------
  // create_event_datetime

  const SecondsPerMinute: int := 60

  /** `create_event_datetime(days, hour, minute)`: today's date plus
      `days`, at `hour:minute:00`. `time.replace` raises for an hour
      outside 0..23 or a minute outside 0..59; that is `None`. */
  function CreateEventDateTime(now: Instant, days: int, hour: int, minute: int): (r: Option<Instant>)
    ensures r.Some? <==> 0 <= hour < 24 && 0 <= minute < 60
    ensures r.Some? ==> DayOf(r.value) == DayOf(now) + days
    ensures r.Some? ==> SecondOfDay(r.value) == hour * SecondsPerHour + minute * SecondsPerMinute
  {
    if 0 <= hour < 24 && 0 <= minute < 60 then
      Some(At(DayOf(now) + days, hour * SecondsPerHour + minute * SecondsPerMinute))
    else None
  }

  /** Only the date of `now` matters, and later days give later times. */
  lemma CreateEventDateTimeOrder(now: Instant, later: Instant, d1: int, d2: int, hour: int, minute: int)
    requires DayOf(now) == DayOf(later)
    requires 0 <= hour < 24 && 0 <= minute < 60 && d1 < d2
    ensures CreateEventDateTime(now, d1, hour, minute) == CreateEventDateTime(later, d1, hour, minute)
    ensures CreateEventDateTime(now, d1, hour, minute).value < CreateEventDateTime(now, d2, hour, minute).value
  {
  }

  /** `if event_datetime < datetime.now(): continue`: an occurrence one or
      more days ahead is never skipped; one today is skipped exactly when
      its time of day has already passed. */
  lemma SkipOnlyToday(now: Instant, days: int, hour: int, minute: int)
    requires 0 <= hour < 24 && 0 <= minute < 60 && 0 <= days
    ensures var t := CreateEventDateTime(now, days, hour, minute).value;
      && (days > 0 ==> t >= now)
      && (days == 0 ==> (t < now <==> hour * SecondsPerHour + minute * SecondsPerMinute < SecondOfDay(now)))
  {
  }

  // ---------------------------------------------------------------------
  // Recurrence offsets

  /** `week * 7 + (day_of_week - today.weekday()) % 7`; Python's `%` with a
      positive divisor never yields a negative value, as Dafny's does not. */
  function DaysAhead(week: int, dow: int, today: Day): (d: int)
    ensures 7 * week <= d <= 7 * week + 6
  {
    week * 7 + (dow - Weekday(today)) % 7
  }

  /** The offset with the source's `if days_ahead < 0: days_ahead += 7`. */
  function WeeklyOffset(week: int, dow: int, today: Day): (d: int)
    ensures 0 <= week ==> d == DaysAhead(week, dow, today)
  {
    var d := DaysAhead(week, dow, today);
    if d < 0 then d + 7 else d
  }

  /** The offset of week `week` lies in that week and lands on the
      requested weekday; so for `week >= 0` the correction for negative
      offsets never applies. */
  lemma DaysAheadSpec(week: int, dow: int, today: Day)
    requires 0 <= dow < 7
    ensures 7 * week <= DaysAhead(week, dow, today) <= 7 * week + 6
    ensures Weekday(today + DaysAhead(week, dow, today)) == dow
    ensures 0 <= week ==> DaysAhead(week, dow, today) >= 0
  {
    var d := DaysAhead(week, dow, today);
    var m := (dow - Weekday(today)) % 7;
    assert d == 7 * week + m;
    WeekdayShift(today, d);
    WholeWeeks(Weekday(today) + m, week);
  }

  lemma WholeWeeks(x: int, weeks: int)
    ensures (x + 7 * weeks) % 7 == x % 7
  {
  }

  /** Different weekdays of the pattern get different offsets. */
  lemma DaysAheadInjective(w1: int, d1: int, w2: int, d2: int, today: Day)
    requires 0 <= d1 < 7 && 0 <= d2 < 7
    requires DaysAhead(w1, d1, today) == DaysAhead(w2, d2, today)
    ensures w1 == w2 && d1 == d2
  {
    DaysAheadSpec(w1, d1, today);
    DaysAheadSpec(w2, d2, today);
  }

  /** The offsets of `weeks` weeks of a weekly pattern, week by week, and
      within a week in pattern order. */
  function WeeklyOffsets(pattern: seq<int>, today: Day, weeks: nat): (r: seq<int>)
    ensures |r| == weeks * |pattern|
  {
    if weeks == 0 then []
    else
      var w := weeks - 1;
      WeeklyOffsets(pattern, today, w)
      + MapSeq(pattern, (dow: int) => WeeklyOffset(w, dow, today))
  }

  predicate Distinct<T(==)>(s: seq<T>) {
    forall i, j :: 0 <= i < j < |s| ==> s[i] != s[j]
  }

  /** A pattern of distinct weekdays never produces the same offset twice,
      and every offset of week `w` lies in `[7w, 7w + 6]`. */
  lemma {:induction false} WeeklyOffsetsDistinct(pattern: seq<int>, today: Day, weeks: nat)
    requires Distinct(pattern)
    requires forall i :: 0 <= i < |pattern| ==> 0 <= pattern[i] < 7
    ensures Distinct(WeeklyOffsets(pattern, today, weeks))
    ensures forall i :: 0 <= i < |WeeklyOffsets(pattern, today, weeks)| ==>
      0 <= WeeklyOffsets(pattern, today, weeks)[i] < 7 * weeks
  {
    if weeks > 0 {
      var w := weeks - 1;
      var prior := WeeklyOffsets(pattern, today, w);
      var last := MapSeq(pattern, (dow: int) => WeeklyOffset(w, dow, today));
      WeeklyOffsetsDistinct(pattern, today, w);
      forall i | 0 <= i < |last| ensures 7 * w <= last[i] <= 7 * w + 6 {
        DaysAheadSpec(w, pattern[i], today);
      }
      forall i, j | 0 <= i < j < |last| ensures last[i] != last[j] {
        if last[i] == last[j] {
          DaysAheadInjective(w, pattern[i], w, pattern[j], today);
        }
      }
      var all := prior + last;
      forall i, j | 0 <= i < j < |all| ensures all[i] != all[j] {
        if j >= |prior| {
          assert all[j] == last[j - |prior|];
          if i < |prior| {
            assert all[i] == prior[i];
          } else {
            assert all[i] == last[i - |prior|];
          }
        }
      }
      forall i | 0 <= i < |all| ensures 0 <= all[i] < 7 * weeks {
        if i >= |prior| {
          assert all[i] == last[i - |prior|];
        }
      }
    }
  }

  /** `days_from_now + month * 30` for the six months of a monthly event. */
  function MonthlyOffsets(daysFromNow: int): (r: seq<int>)
    ensures |r| == 6
  {
    seq(6, m requires 0 <= m < 6 => daysFromNow + 30 * m)
  }

  /** Monthly occurrences are thirty days apart, so never the same day. */
  lemma MonthlyOffsetsSpaced(daysFromNow: int)
    ensures forall i, j :: 0 <= i < j < 6 ==> MonthlyOffsets(daysFromNow)[j] - MonthlyOffsets(daysFromNow)[i] >= 30
    ensures Distinct(MonthlyOffsets(daysFromNow))
  {
  }

  // ---------------------------------------------------------------------
  // The food-event URL slug

  /** `name.lower().replace(' ', '-').replace('&', 'and')`. */
  function SlugName(name: string): (r: string)
    ensures ' ' !in r && '&' !in r
  {
    Text.ReplaceChar(Text.ReplaceChar(Text.Lower(name), ' ', "-"), '&', "and")
  }

  const FoodUrlPrefix: string := "https://waltham-events.local/food-events/"

  /** The `source_url` of a food event: slug, a hyphen, the day offset. */
  function FoodUrl(name: string, days: int): (url: string)
    ensures FoodUrlPrefix < url
  {
    FoodUrlPrefix + SlugName(name) + "-" + Text.IntToString(days)
  }

  /** Occurrences of one food event on different days get different URLs,
      so the upsert keeps each of them. */
  lemma FoodUrlInjective(name: string, d1: int, d2: int)
    requires FoodUrl(name, d1) == FoodUrl(name, d2)
    ensures d1 == d2
  {
    var head := FoodUrlPrefix + SlugName(name) + "-";
    assert FoodUrl(name, d1) == head + Text.IntToString(d1);
    assert FoodUrl(name, d2) == head + Text.IntToString(d2);
    assert Text.IntToString(d1) == FoodUrl(name, d1)[|head|..];
    assert Text.IntToString(d2) == FoodUrl(name, d2)[|head|..];
    Text.IntToStringInjective(d1, d2);
  }

  /** The weekly generator's URLs are pairwise distinct. */
  lemma WeeklyUrlsDistinct(name: string, pattern: seq<int>, today: Day, weeks: nat)
    requires Distinct(pattern)
    requires forall i :: 0 <= i < |pattern| ==> 0 <= pattern[i] < 7
    ensures Distinct(MapSeq(WeeklyOffsets(pattern, today, weeks), (d: int) => FoodUrl(name, d)))
  {
    var offsets := WeeklyOffsets(pattern, today, weeks);
    var urls := MapSeq(offsets, (d: int) => FoodUrl(name, d));
    WeeklyOffsetsDistinct(pattern, today, weeks);
    forall i, j | 0 <= i < j < |urls| ensures urls[i] != urls[j] {
      if urls[i] == urls[j] {
        FoodUrlInjective(name, offsets[i], offsets[j]);
      }
    }
  }

  // ---------------------------------------------------------------------
  // The food-event table

  /** One entry of the food-event table. `None` marks a key the entry
      lacks; the generator's `.get` default then applies. */
  datatype FoodEntry = FoodEntry(
    name: string,
    location: string,
    description: string,
    category: string,
    cost: Option<string>,
    organizer: Option<string>,
    contactInfo: Option<string>,
    registrationRequired: Option<bool>,
    ageRestrictions: Option<string>,
    recurring: Option<string>,
    daysPattern: Option<seq<int>>,
    daysFromNow: Option<int>,
    startHour: Option<int>)

  const FoodSourceName: string := "Waltham Food Events"

  /** `for week in range(24)`. */
  const WeeksAhead: nat := 24

  function StartHour(x: FoodEntry): int {
    x.startHour.GetOr(10)
  }

  function Pattern(x: FoodEntry): seq<int> {
    x.daysPattern.GetOr([5])
  }

  /** The `days_ahead` values an entry yields, in loop order, before the
      weekly skip: weekly, monthly, one-time (no `recurring` key), and
      nothing for any other `recurring` value. */
  function EntryOffsets(x: FoodEntry, now: Instant): seq<int> {
    match x.recurring
    case None => [x.daysFromNow.GetOr(30)]
    case Some(kind) =>
      if kind == "weekly" then WeeklyOffsets(Pattern(x), DayOf(now), WeeksAhead)
      else if kind == "monthly" then MonthlyOffsets(x.daysFromNow.GetOr(15))
      else []
  }

  /** The start of an occurrence. The fallback is never used: an invalid
      hour stops the generator before any occurrence is built. */
  function StartTime(now: Instant, days: int, hour: int): Instant {
    CreateEventDateTime(now, days, hour, 0).GetOr(now)
  }

  /** Weekly occurrences already begun are skipped; others never are. */
  function NotSkipped(x: FoodEntry, now: Instant): int -> bool {
    (d: int) => x.recurring != Some("weekly") || StartTime(now, d, StartHour(x)) >= now
  }

  /** The `Event(...)` built for the occurrence `days` ahead: the entry's
      own fields, the `.get` defaults for the keys it lacks, the food
      source's name, and the creation time `__post_init__` stamps. */
  function FoodEvent(x: FoodEntry, days: int, now: Instant): (e: Event)
    ensures e.id.None? && e.createdAt == Some(now)
    ensures e.name == x.name && e.location == x.location && e.description == x.description
    ensures e.category == x.category && e.sourceName == FoodSourceName
    ensures e.sourceUrl == FoodUrl(x.name, days)
    ensures e.cost == x.cost.GetOr("") && e.organizer == x.organizer.GetOr("")
    ensures e.contactInfo == x.contactInfo.GetOr("") && e.ageRestrictions == x.ageRestrictions.GetOr("")
    ensures e.registrationRequired == x.registrationRequired.GetOr(false)
  {
    PostInit(Event(
      None, x.name, Some(StartTime(now, days, StartHour(x))), x.location, x.description,
      FoodUrl(x.name, days), FoodSourceName, x.category, x.cost.GetOr(""),
      x.organizer.GetOr(""), x.contactInfo.GetOr(""),
      x.registrationRequired.GetOr(false), x.ageRestrictions.GetOr(""), None), now)
  }

  /** The events one entry contributes, or `None` when its start hour makes
      `create_event_datetime` raise: that ends the whole generator. */
  function EntryEvents(x: FoodEntry, now: Instant): (r: Option<seq<Event>>)
    ensures r.None? <==> EntryOffsets(x, now) != [] && !(0 <= StartHour(x) < 24)
    ensures r.Some? ==> |r.value| <= |EntryOffsets(x, now)|
  {
    var days := EntryOffsets(x, now);
    if days == [] then Some([])
    else if !(0 <= StartHour(x) < 24) then None
    else Some(MapSeq(Filter(days, NotSkipped(x, now)), (d: int) => FoodEvent(x, d, now)))
  }

  /** `scrape_food_events`: entries in table order; the first entry that
      raises ends the pass, keeping what the earlier entries produced. */
  function FoodEvents(entries: seq<FoodEntry>, now: Instant): (r: seq<Event>)
    ensures forall e :: e in r ==> e.sourceName == FoodSourceName && FoodUrlPrefix < e.sourceUrl
  {
    if entries == [] then []
    else match EntryEvents(entries[0], now)
      case None => []
      case Some(es) => es + FoodEvents(entries[1..], now)
  }

  /** A `recurring` value other than "weekly" or "monthly" yields nothing. */
  lemma UnknownRecurrenceYieldsNothing(x: FoodEntry, now: Instant)
    requires x.recurring.Some? && x.recurring.value != "weekly" && x.recurring.value != "monthly"
    ensures EntryEvents(x, now) == Some([])
  {
  }

  /** An entry without `recurring` yields one event, `days_from_now` (30 by
      default) days ahead at its start hour, with that number in its URL,
      whether or not that time has passed. */
  lemma OneTimeEntry(x: FoodEntry, now: Instant)
    requires x.recurring.None? && 0 <= StartHour(x) < 24
    ensures var days := x.daysFromNow.GetOr(30);
      var es := EntryEvents(x, now).value;
      && |es| == 1
      && es[0].dateTime == CreateEventDateTime(now, days, StartHour(x), 0)
      && es[0].sourceUrl == FoodUrl(x.name, days)
      && es[0].sourceName == FoodSourceName && es[0].category == x.category
  {
    var days := x.daysFromNow.GetOr(30);
    assert Filter([days], NotSkipped(x, now)) == [days];
  }

  /** A monthly entry yields six events thirty days apart, starting
      `days_from_now` (15 by default) days ahead, with distinct URLs. */
  lemma MonthlyEntry(x: FoodEntry, now: Instant)
    requires x.recurring == Some("monthly") && 0 <= StartHour(x) < 24
    ensures var es := EntryEvents(x, now).value;
      && |es| == 6
      && (forall m :: 0 <= m < 6 ==>
            && es[m].dateTime.Some?
            && DayOf(es[m].dateTime.value) == DayOf(now) + x.daysFromNow.GetOr(15) + 30 * m
            && SecondOfDay(es[m].dateTime.value) == StartHour(x) * SecondsPerHour)
      && (forall i, j :: 0 <= i < j < 6 ==> es[i].sourceUrl != es[j].sourceUrl)
  {
    var days := MonthlyOffsets(x.daysFromNow.GetOr(15));
    MonthlyEventsAreAllOccurrences(x, now);
    var es := EntryEvents(x, now).value;
    forall m | 0 <= m < 6
      ensures es[m].dateTime.Some?
      ensures DayOf(es[m].dateTime.value) == DayOf(now) + x.daysFromNow.GetOr(15) + 30 * m
      ensures SecondOfDay(es[m].dateTime.value) == StartHour(x) * SecondsPerHour
    {
      FoodEventTime(x, days[m], now);
    }
    forall i, j | 0 <= i < j < 6 ensures es[i].sourceUrl != es[j].sourceUrl {
      if es[i].sourceUrl == es[j].sourceUrl {
        assert es[i] == FoodEvent(x, days[i], now) && es[j] == FoodEvent(x, days[j], now);
        FoodUrlInjective(x.name, days[i], days[j]);
      }
    }
  }

  /** No monthly occurrence is skipped: event `m` is built for month `m`. */
  lemma MonthlyEventsAreAllOccurrences(x: FoodEntry, now: Instant)
    requires x.recurring == Some("monthly") && 0 <= StartHour(x) < 24
    ensures var days := MonthlyOffsets(x.daysFromNow.GetOr(15));
      var es := EntryEvents(x, now).value;
      |es| == 6 && forall m :: 0 <= m < 6 ==> es[m] == FoodEvent(x, days[m], now)
  {
    var days := MonthlyOffsets(x.daysFromNow.GetOr(15));
    FilterAll(days, NotSkipped(x, now));
  }

  /** An occurrence `days` ahead starts on that day at the start hour. */
  lemma FoodEventTime(x: FoodEntry, days: int, now: Instant)
    requires 0 <= StartHour(x) < 24
    ensures var t := FoodEvent(x, days, now).dateTime;
      && t.Some?
      && DayOf(t.value) == DayOf(now) + days
      && SecondOfDay(t.value) == StartHour(x) * SecondsPerHour
  {
  }

  /** Every offset of a weekly pattern is `DaysAhead` of some week and some
      weekday of the pattern. */
  lemma {:induction false} WeeklyOffsetsMembers(pattern: seq<int>, today: Day, weeks: nat)
    ensures forall d :: d in WeeklyOffsets(pattern, today, weeks) ==>
      exists w, j :: 0 <= w < weeks && 0 <= j < |pattern| && d == WeeklyOffset(w, pattern[j], today)
  {
    if weeks > 0 {
      WeeklyOffsetsMembers(pattern, today, weeks - 1);
      var prior := WeeklyOffsets(pattern, today, weeks - 1);
      var last := MapSeq(pattern, (dow: int) => WeeklyOffset(weeks - 1, dow, today));
      forall d | d in prior + last
        ensures exists w, j :: 0 <= w < weeks && 0 <= j < |pattern| && d == WeeklyOffset(w, pattern[j], today)
      {
        if d !in prior {
          var j :| 0 <= j < |last| && last[j] == d;
          assert d == WeeklyOffset(weeks - 1, pattern[j], today);
        }
      }
    }
  }

  /** Every weekly event starts at or after `now`, on a weekday of the
      pattern, at the start hour, within the 24 weeks. */
  lemma WeeklyEntryTimes(x: FoodEntry, now: Instant)
    requires x.recurring == Some("weekly") && 0 <= StartHour(x) < 24
    requires forall i :: 0 <= i < |Pattern(x)| ==> 0 <= Pattern(x)[i] < 7
    ensures EntryEvents(x, now).Some?
    ensures var es := EntryEvents(x, now).value;
      forall i :: 0 <= i < |es| ==>
        && es[i].dateTime.Some?
        && es[i].dateTime.value >= now
        && Weekday(DayOf(es[i].dateTime.value)) in Pattern(x)
        && SecondOfDay(es[i].dateTime.value) == StartHour(x) * SecondsPerHour
        && DayOf(now) <= DayOf(es[i].dateTime.value) < DayOf(now) + 7 * WeeksAhead
  {
    var today := DayOf(now);
    var days := WeeklyOffsets(Pattern(x), today, WeeksAhead);
    if days != [] {
      var kept := Filter(days, NotSkipped(x, now));
      var es := EntryEvents(x, now).value;
      FilterSatisfies(days, NotSkipped(x, now));
      WeeklyOffsetsMembers(Pattern(x), today, WeeksAhead);
      forall i | 0 <= i < |es|
        ensures es[i].dateTime.Some? && es[i].dateTime.value >= now
        ensures Weekday(DayOf(es[i].dateTime.value)) in Pattern(x)
        ensures SecondOfDay(es[i].dateTime.value) == StartHour(x) * SecondsPerHour
        ensures DayOf(now) <= DayOf(es[i].dateTime.value) < DayOf(now) + 7 * WeeksAhead
      {
        var d := kept[i];
        assert es[i] == FoodEvent(x, d, now);
        assert d in days;
        var w, j :| 0 <= w < WeeksAhead && 0 <= j < |Pattern(x)| && d == WeeklyOffset(w, Pattern(x)[j], today);
        WeeklyEventDay(x, now, w, Pattern(x)[j]);
        assert Pattern(x)[j] in Pattern(x);
      }
    }
  }

  /** The event of week `w` on weekday `dow` falls on that weekday of that
      week, at the start hour. */
  lemma WeeklyEventDay(x: FoodEntry, now: Instant, w: int, dow: int)
    requires 0 <= StartHour(x) < 24 && 0 <= dow < 7 && 0 <= w
    ensures var t := FoodEvent(x, WeeklyOffset(w, dow, DayOf(now)), now).dateTime;
      && t.Some?
      && Weekday(DayOf(t.value)) == dow
      && SecondOfDay(t.value) == StartHour(x) * SecondsPerHour
      && DayOf(now) + 7 * w <= DayOf(t.value) <= DayOf(now) + 7 * w + 6
  {
    DaysAheadSpec(w, dow, DayOf(now));
  }

  /** With distinct weekdays in the pattern, the weekly events have
      pairwise distinct URLs, so the upsert keeps every one of them. */
  lemma WeeklyEntryUrlsDistinct(x: FoodEntry, now: Instant)
    requires x.recurring == Some("weekly") && 0 <= StartHour(x) < 24
    requires Distinct(Pattern(x))
    requires forall i :: 0 <= i < |Pattern(x)| ==> 0 <= Pattern(x)[i] < 7
    ensures EntryEvents(x, now).Some?
    ensures var es := EntryEvents(x, now).value;
      forall i, j :: 0 <= i < j < |es| ==> es[i].sourceUrl != es[j].sourceUrl
  {
    var days := WeeklyOffsets(Pattern(x), DayOf(now), WeeksAhead);
    if days != [] {
      var kept := Filter(days, NotSkipped(x, now));
      var es := EntryEvents(x, now).value;
      WeeklyOffsetsDistinct(Pattern(x), DayOf(now), WeeksAhead);
      assert Pairwise(days, (a: int, b: int) => a != b);
      FilterKeepsPairwise(days, NotSkipped(x, now), (a: int, b: int) => a != b);
      forall i, j | 0 <= i < j < |es| ensures es[i].sourceUrl != es[j].sourceUrl {
        assert kept[i] != kept[j];
        if es[i].sourceUrl == es[j].sourceUrl {
          FoodUrlInjective(x.name, kept[i], kept[j]);
        }
      }
    }
  }

  /** Removing the elements that fail `p`, all of which equal `v`, from a
      sequence without repeats removes at most one element. */
  lemma {:induction false} FilterDropsAtMostOne(s: seq<int>, p: int -> bool, v: int)
    requires Distinct(s)
    requires forall i :: 0 <= i < |s| && !p(s[i]) ==> s[i] == v
    ensures |Filter(s, p)| + 1 >= |s|
    ensures v !in s ==> Filter(s, p) == s
  {
    if s != [] {
      assert Distinct(s[1..]);
      if !p(s[0]) {
        assert s[0] == v;
        assert forall i :: 0 <= i < |s[1..]| ==> p(s[1..][i]);
        FilterAll(s[1..], p);
      } else {
        FilterDropsAtMostOne(s[1..], p, v);
        if v !in s {
          assert v !in s[1..];
          assert s == [s[0]] + s[1..];
        }
      }
    }
  }

  /** With distinct weekdays in the pattern, the skip drops at most one
      occurrence (today's, if its hour has passed): a weekly entry yields
      at least `24 * |pattern| - 1` events. */
  lemma WeeklyEntrySkipsAtMostOne(x: FoodEntry, now: Instant)
    requires x.recurring == Some("weekly") && 0 <= StartHour(x) < 24
    requires Distinct(Pattern(x))
    requires forall i :: 0 <= i < |Pattern(x)| ==> 0 <= Pattern(x)[i] < 7
    ensures EntryEvents(x, now).Some?
    ensures |EntryEvents(x, now).value| + 1 >= WeeksAhead * |Pattern(x)|
  {
    var today := DayOf(now);
    var days := WeeklyOffsets(Pattern(x), today, WeeksAhead);
    if days != [] {
      WeeklyOffsetsDistinct(Pattern(x), today, WeeksAhead);
      forall i | 0 <= i < |days| && !NotSkipped(x, now)(days[i]) ensures days[i] == 0 {
        var d := days[i];
        SkipOnlyToday(now, d, StartHour(x), 0);
      }
      FilterDropsAtMostOne(days, NotSkipped(x, now), 0);
    }
  }

  /** An entry whose start hour raises ends the generator: nothing after it
      is produced, and what came before is kept. */
  lemma {:induction false} FoodEventsStopAtError(before: seq<FoodEntry>, bad: FoodEntry, after: seq<FoodEntry>, now: Instant)
    requires EntryEvents(bad, now).None?
    ensures FoodEvents(before + [bad] + after, now) == FoodEvents(before, now)
  {
    if before == [] {
      assert before + [bad] + after == [bad] + after;
    } else {
      assert (before + [bad] + after)[1..] == before[1..] + [bad] + after;
      FoodEventsStopAtError(before[1..], bad, after, now);
    }
  }

  // ---------------------------------------------------------------------
  // First Tuesday, second Wednesday

  const Tuesday: int := 1
  const Wednesday: int := 2

  /** Stepping `(target - w) % 7` days from weekday `w` reaches `target`. */
  lemma GapReachesTarget(w: int, target: int)
    requires 0 <= w < 7 && 0 <= target < 7
    ensures 0 <= (target - w) % 7 <= 6
    ensures (w + (target - w) % 7) % 7 == target
  {
    if target < w {
      assert (target - w) % 7 == target - w + 7;
    } else {
      assert (target - w) % 7 == target - w;
    }
  }

  /** `while d.weekday() != target: d += timedelta(days=1)`. */
  method AdvanceToWeekday(start: Day, target: int) returns (d: Day)
    requires 0 <= target < 7
    ensures Weekday(d) == target
    ensures start <= d <= start + 6
    ensures forall k :: start <= k < d ==> Weekday(k) != target
  {
    var gap := (target - Weekday(start)) % 7;
    GapReachesTarget(Weekday(start), target);
    d := start;
    while Weekday(d) != target
      invariant start <= d <= start + gap
      invariant Weekday(d) == (Weekday(start) + (d - start)) % 7
      invariant forall k :: start <= k < d ==> Weekday(k) != target
      decreases start + gap - d
    {
      d := d + 1;
      WeekdayShift(start, d - start);
    }
  }

  /** The City Council date: the first Tuesday of the month whose first
      day is `first`. Its day of the month is between 1 and 7. */
  method CouncilDay(first: Day) returns (d: Day)
    ensures Weekday(d) == Tuesday
    ensures 1 <= d - first + 1 <= 7
    ensures forall k :: first <= k < d ==> Weekday(k) != Tuesday
  {
    d := AdvanceToWeekday(first, Tuesday);
  }

  /** The Planning Board date: searched from the 8th, it is the second
      Wednesday of the month. Its day of the month is between 8 and 14 and
      the Wednesday one week earlier is the month's first. */
  method PlanningDay(first: Day) returns (d: Day)
    ensures Weekday(d) == Wednesday
    ensures 8 <= d - first + 1 <= 14
    ensures first <= d - 7 && Weekday(d - 7) == Wednesday
    ensures forall k :: first <= k < d - 7 ==> Weekday(k) != Wednesday
  {
    d := AdvanceToWeekday(first + 7, Wednesday);
    WeekdayShift(d - 7, 7);
    forall k | first <= k < d - 7 ensures Weekday(k) != Wednesday {
      WeekdayShift(k, 7);
    }
  }

  // ---------------------------------------------------------------------
  // Inserting a batch

  /** `for event in events: if self.db.insert_event(event): ...`, in order. */
  function InsertAll(st: Store, events: seq<Event>, now: Instant): (r: Store)
    ensures r.nextId == st.nextId + |events|
    decreases |events|
  {
    if events == [] then st else InsertAll(InsertEvent(st, events[0], now).store, events[1..], now)
  }

  /** An insert under another URL leaves the rows of `url` as they were. */
  lemma InsertKeepsOtherUrl(st: Store, e: Event, now: Instant, url: string)
    requires e.sourceUrl != url
    ensures RowsWithUrl(InsertEvent(st, e, now).store, url) == RowsWithUrl(st, url)
  {
    var kept := Filter(st.rows, OtherUrl(e.sourceUrl));
    var row := Row(st.nextId, now, Columns(e));
    FilterOfConcat(kept, [row], HasUrl(url));
    assert [row][1..] == [];
    FilterFilter(st.rows, OtherUrl(e.sourceUrl), HasUrl(url), HasUrl(url));
  }

  /** After a batch, a URL that occurs in it has exactly one row, holding
      the fields of the LAST event of the batch with that URL; earlier
      events with the same URL leave no trace. */
  lemma {:induction false} LastInsertWins(st: Store, events: seq<Event>, now: Instant, url: string, k: nat)
    requires k < |events| && events[k].sourceUrl == url
    requires forall j :: k < j < |events| ==> events[j].sourceUrl != url
    ensures |RowsWithUrl(InsertAll(st, events, now), url)| == 1
    ensures RowsWithUrl(InsertAll(st, events, now), url)[0].data == Columns(events[k])
    decreases |events|
  {
    var next := InsertEvent(st, events[0], now).store;
    if k > 0 {
      LastInsertWins(next, events[1..], now, url, k - 1);
    } else {
      OtherUrlsKeepRows(next, events[1..], now, url);
    }
  }

  /** Inserting events that all have other URLs leaves the rows of `url`. */
  lemma {:induction false} OtherUrlsKeepRows(st: Store, events: seq<Event>, now: Instant, url: string)
    requires forall j :: 0 <= j < |events| ==> events[j].sourceUrl != url
    ensures RowsWithUrl(InsertAll(st, events, now), url) == RowsWithUrl(st, url)
    decreases |events|
  {
    if events != [] {
      InsertKeepsOtherUrl(st, events[0], now, url);
      OtherUrlsKeepRows(InsertEvent(st, events[0], now).store, events[1..], now, url);
    }
  }

  /** The Waltham Common generator gives every farmers' market date one
      URL (and likewise every Zumba date and every special event): a
      non-empty batch sharing one URL leaves a single row, the last event. */
  lemma SharedUrlCollapses(st: Store, events: seq<Event>, now: Instant, url: string)
    requires events != []
    requires forall j :: 0 <= j < |events| ==> events[j].sourceUrl == url
    ensures |RowsWithUrl(InsertAll(st, events, now), url)| == 1
    ensures RowsWithUrl(InsertAll(st, events, now), url)[0].data == Columns(events[|events| - 1])
  {
    LastInsertWins(st, events, now, url, |events| - 1);
  }

  // ---------------------------------------------------------------------
  // scrape_all_sources

  /** A pass: purge first, then insert every source's events in the order
      the sources are listed (`events` is their concatenation). */
  function ScrapeAllSources(st: Store, events: seq<Event>, now: Instant): (r: Store)
    ensures r.nextId == st.nextId + |events|
  {
    InsertAll(ClearOldEvents(st, now).store, events, now)
  }

  /** Every row of a store is either newer than `since` or not past. */
  ghost predicate OldRowsNotPast(st: Store, since: nat, now: Instant) {
    forall r :: r in st.rows && r.id < since ==> !Past(r, now)
  }

  lemma {:induction false} InsertAllKeepsOldRowsNotPast(st: Store, events: seq<Event>, now: Instant, since: nat)
    requires since <= st.nextId && OldRowsNotPast(st, since, now)
    ensures OldRowsNotPast(InsertAll(st, events, now), since, now)
    decreases |events|
  {
    if events != [] {
      var next := InsertEvent(st, events[0], now).store;
      assert OldRowsNotPast(next, since, now) by {
        FilterMembers(st.rows, OtherUrl(events[0].sourceUrl));
        forall r | r in next.rows && r.id < since ensures !Past(r, now) {
          var kept := Filter(st.rows, OtherUrl(events[0].sourceUrl));
          assert next.rows == kept + [Row(st.nextId, now, Columns(events[0]))];
          assert r in kept;
        }
      }
      InsertAllKeepsOldRowsNotPast(next, events[1..], now, since);
    }
  }

  /** Because the purge runs before any insert, every past row left after
      a pass was inserted by that pass: none survives from before. And
      every URL of the batch keeps exactly one row, holding the last event
      with that URL, even when that event is already past; a purge after
      the inserts would have deleted it. */
  lemma PurgeRunsFirst(st: Store, events: seq<Event>, now: Instant)
    ensures forall r :: r in ScrapeAllSources(st, events, now).rows && Past(r, now) ==> r.id >= st.nextId
    ensures forall k :: LastWithUrl(events, k) ==>
      && |RowsWithUrl(ScrapeAllSources(st, events, now), events[k].sourceUrl)| == 1
      && RowsWithUrl(ScrapeAllSources(st, events, now), events[k].sourceUrl)[0].data == Columns(events[k])
  {
    var purged := ClearOldEvents(st, now).store;
    InsertAllKeepsOldRowsNotPast(purged, events, now, st.nextId);
    forall k | LastWithUrl(events, k)
      ensures |RowsWithUrl(ScrapeAllSources(st, events, now), events[k].sourceUrl)| == 1
      ensures RowsWithUrl(ScrapeAllSources(st, events, now), events[k].sourceUrl)[0].data == Columns(events[k])
    {
      LastInsertWins(purged, events, now, events[k].sourceUrl, k);
    }
  }

  /** `events[k]` is the last event of the batch with its URL. */
  predicate LastWithUrl(events: seq<Event>, k: int) {
    && 0 <= k < |events|
    && forall j :: k < j < |events| ==> events[j].sourceUrl != events[k].sourceUrl
  }
}
