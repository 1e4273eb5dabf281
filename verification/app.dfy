/** The web layer: the filter pipeline of the index page and of
    `/api/events`, the list of sources offered for filtering, and the
    per-category counts of `/api/stats`. Request parameters arrive as
    strings; dates arrive already parsed (`None` when absent or when
    `strptime` rejected them). */
module App {
  import opened Wrappers
  import opened Clock
  import opened Models
  import opened Seqs
  import opened Database
  import Text

  // ---------------------------------------------------------------------
  // Filter stages

  /** The query-string values the pages read; a missing value is "". */
  datatype Params = Params(search: string, category: string, source: string)

  /** One list comprehension of the pipeline. `Search` carries the needle
      already stripped and lower-cased. */
  datatype Stage =
    | Search(needle: string)
    | Category(category: string)
    | Source(name: string)
    | StartDate(day: Day)
    | EndDate(day: Day)

  /** The search test: the needle occurs in the lower-cased name, location,
      description or source name. */
  predicate Matches(e: Event, needle: string) {
    || Text.Contains(Text.Lower(e.name), needle)
    || Text.Contains(Text.Lower(e.location), needle)
    || Text.Contains(Text.Lower(e.description), needle)
    || Text.Contains(Text.Lower(e.sourceName), needle)
  }

  /** Whether one stage keeps an event. The date stages drop undated
      events (`e.date_time and ...`); the end date covers its whole day. */
  predicate Keeps(s: Stage, e: Event) {
    match s
    case Search(needle) => Matches(e, needle)
    case Category(c) => e.category == c
    case Source(name) => e.sourceName == name
    case StartDate(d) => e.dateTime.Some? && e.dateTime.value >= StartOfDay(d)
    case EndDate(d) => e.dateTime.Some? && e.dateTime.value <= EndOfDay(d)
  }

  function KeptBy(s: Stage): Event -> bool {
    (e: Event) => Keeps(s, e)
  }

  /** Every stage of `stages` keeps `e`. */
  predicate KeepsAll(stages: seq<Stage>, e: Event) {
    stages == [] || (Keeps(stages[0], e) && KeepsAll(stages[1..], e))
  }

  function KeptByAll(stages: seq<Stage>): Event -> bool {
    (e: Event) => KeepsAll(stages, e)
  }

  /** The comprehensions applied one after the other. */
  function Run(events: seq<Event>, stages: seq<Stage>): seq<Event>
    decreases |stages|
  {
    if stages == [] then events else Run(Filter(events, KeptBy(stages[0])), stages[1..])
  }

  lemma {:induction false} KeepsAllEach(stages: seq<Stage>, e: Event)
    ensures KeepsAll(stages, e) <==> forall i :: 0 <= i < |stages| ==> Keeps(stages[i], e)
  {
    if stages != [] {
      KeepsAllEach(stages[1..], e);
      assert forall i :: 1 <= i < |stages| ==> stages[i] == stages[1..][i - 1];
    }
  }

  /** A chain of filters is one filter by the conjunction of the stages. */
  lemma {:induction false} RunIsOneFilter(events: seq<Event>, stages: seq<Stage>)
    ensures Run(events, stages) == Filter(events, KeptByAll(stages))
    decreases |stages|
  {
    if stages == [] {
      FilterAll(events, KeptByAll(stages));
    } else {
      var rest := stages[1..];
      RunIsOneFilter(Filter(events, KeptBy(stages[0])), rest);
      FilterFilter(events, KeptBy(stages[0]), KeptByAll(rest), KeptByAll(stages));
    }
  }

  /** The order of the stages, and repeating one, make no difference: any
      two pipelines built from the same stages keep the same events in the
      same order. */
  lemma StageOrderIrrelevant(events: seq<Event>, a: seq<Stage>, b: seq<Stage>)
    requires forall s :: s in a <==> s in b
    ensures Run(events, a) == Run(events, b)
  {
    forall e ensures KeepsAll(a, e) == KeepsAll(b, e) {
      KeepsAllEach(a, e);
      KeepsAllEach(b, e);
      if KeepsAll(a, e) {
        forall i | 0 <= i < |b| ensures Keeps(b[i], e) {
          assert b[i] in a;
        }
      }
      if KeepsAll(b, e) {
        forall i | 0 <= i < |a| ensures Keeps(a[i], e) {
          assert a[i] in b;
        }
      }
    }
    RunIsOneFilter(events, a);
    RunIsOneFilter(events, b);
    FilterCongruent(events, KeptByAll(a), KeptByAll(b));
  }

  // ---------------------------------------------------------------------
  // The stages each page applies

  /** The search, category and source stages, in the order the handlers
      apply them. A search that strips to nothing, an empty or unknown
      category and an empty source add no stage. */
  function TextStages(p: Params): seq<Stage> {
    var query := Text.Strip(p.search);
    (if query != [] then [Search(Text.Lower(query))] else [])
    + (if p.category != [] && p.category in EventCategories then [Category(p.category)] else [])
    + (if p.source != [] then [Source(p.source)] else [])
  }

  /** The index page adds the date stages after the text stages. */
  function IndexStages(p: Params, start: Option<Day>, end: Option<Day>): seq<Stage> {
    TextStages(p)
    + (if start.Some? then [StartDate(start.value)] else [])
    + (if end.Some? then [EndDate(end.value)] else [])
  }

  /** The index page's selection, stated directly on one event. */
  predicate Wanted(e: Event, p: Params, start: Option<Day>, end: Option<Day>) {
    var query := Text.Strip(p.search);
    && (query == [] || Matches(e, Text.Lower(query)))
    && (p.category == [] || p.category !in EventCategories || e.category == p.category)
    && (p.source == [] || e.sourceName == p.source)
    && (start.None? || (e.dateTime.Some? && StartOfDay(start.value) <= e.dateTime.value))
    && (end.None? || (e.dateTime.Some? && e.dateTime.value <= EndOfDay(end.value)))
  }

  function WantedBy(p: Params, start: Option<Day>, end: Option<Day>): Event -> bool {
    (e: Event) => Wanted(e, p, start, end)
  }

  lemma KeepsAllOfConcat(a: seq<Stage>, b: seq<Stage>, e: Event)
    ensures KeepsAll(a + b, e) <==> KeepsAll(a, e) && KeepsAll(b, e)
  {
    KeepsAllEach(a + b, e);
    KeepsAllEach(a, e);
    KeepsAllEach(b, e);
    if KeepsAll(a, e) && KeepsAll(b, e) {
      forall i | 0 <= i < |a + b| ensures Keeps((a + b)[i], e) {
        if i >= |a| {
          assert (a + b)[i] == b[i - |a|];
        }
      }
    }
    if KeepsAll(a + b, e) {
      forall i | 0 <= i < |a| ensures Keeps(a[i], e) {
        assert (a + b)[i] == a[i];
      }
      forall i | 0 <= i < |b| ensures Keeps(b[i], e) {
        assert (a + b)[|a| + i] == b[i];
      }
    }
  }

  lemma KeepsAllSingle(st: Stage, e: Event)
    ensures KeepsAll([st], e) == Keeps(st, e)
    ensures KeepsAll([], e)
  {
    assert [st][1..] == [];
  }

  /** The stages the index page builds keep exactly the wanted events. */
  lemma IndexStagesMeanWanted(p: Params, start: Option<Day>, end: Option<Day>, e: Event)
    ensures KeepsAll(IndexStages(p, start, end), e) <==> Wanted(e, p, start, end)
  {
    var text := TextStages(p);
    var s4 := if start.Some? then [StartDate(start.value)] else [];
    var s5 := if end.Some? then [EndDate(end.value)] else [];
    KeepsAllOfConcat(text + s4, s5, e);
    KeepsAllOfConcat(text, s4, e);
    TextStagesMeanWanted(p, e);
    if start.Some? {
      KeepsAllSingle(StartDate(start.value), e);
    }
    if end.Some? {
      KeepsAllSingle(EndDate(end.value), e);
    }
    assert KeepsAll(s4, e) == (start.None? || (e.dateTime.Some? && StartOfDay(start.value) <= e.dateTime.value));
    assert KeepsAll(s5, e) == (end.None? || (e.dateTime.Some? && e.dateTime.value <= EndOfDay(end.value)));
  }

  /** The text stages keep an event exactly when the search, category and
      source conditions of `Wanted` hold. */
  lemma TextStagesMeanWanted(p: Params, e: Event)
    ensures var query := Text.Strip(p.search);
      KeepsAll(TextStages(p), e) <==>
        && (query == [] || Matches(e, Text.Lower(query)))
        && (p.category == [] || p.category !in EventCategories || e.category == p.category)
        && (p.source == [] || e.sourceName == p.source)
  {
    var query := Text.Strip(p.search);
    var s1 := if query != [] then [Search(Text.Lower(query))] else [];
    var s2 := if p.category != [] && p.category in EventCategories then [Category(p.category)] else [];
    var s3 := if p.source != [] then [Source(p.source)] else [];
    assert TextStages(p) == s1 + s2 + s3;
    KeepsAllOfConcat(s1 + s2, s3, e);
    KeepsAllOfConcat(s1, s2, e);
    KeepsAllSingle(Search(Text.Lower(query)), e);
    KeepsAllSingle(Category(p.category), e);
    KeepsAllSingle(Source(p.source), e);
  }

  /** The events `index()` shows. */
  function IndexEvents(st: Store, now: Instant, p: Params, start: Option<Day>, end: Option<Day>): (r: seq<Event>)
    ensures |r| <= GetEventCount(st, now)
  {
    RunIsOneFilter(GetAllEvents(st, now, None), IndexStages(p, start, end));
    Run(GetAllEvents(st, now, None), IndexStages(p, start, end))
  }

  /** The index page lists exactly the upcoming events that every active
      filter accepts, in the order `get_all_events()` returns them. */
  lemma IndexSelectsWanted(st: Store, now: Instant, p: Params, start: Option<Day>, end: Option<Day>)
    ensures IndexEvents(st, now, p, start, end) == Filter(GetAllEvents(st, now, None), WantedBy(p, start, end))
    ensures IsSubsequence(IndexEvents(st, now, p, start, end), GetAllEvents(st, now, None))
  {
    var all := GetAllEvents(st, now, None);
    var stages := IndexStages(p, start, end);
    RunIsOneFilter(all, stages);
    forall e ensures KeptByAll(stages)(e) == WantedBy(p, start, end)(e) {
      IndexStagesMeanWanted(p, start, end, e);
    }
    FilterCongruent(all, KeptByAll(stages), WantedBy(p, start, end));
    FilterIsSubsequence(all, WantedBy(p, start, end));
  }

  /** With no parameters at all the index page shows every upcoming event. */
  lemma NoFiltersShowsEverything(st: Store, now: Instant)
    ensures IndexEvents(st, now, Params("", "", ""), None, None) == GetAllEvents(st, now, None)
  {
    assert Text.Strip("") == [];
    assert IndexStages(Params("", "", ""), None, None) == [];
  }

  /** A search of nothing but whitespace and a category outside the fixed
      list are ignored, as if they had not been given. */
  lemma IgnoredParameters(st: Store, now: Instant, p: Params, start: Option<Day>, end: Option<Day>)
    requires forall k :: 0 <= k < |p.search| ==> Text.IsSpace(p.search[k])
    requires p.category !in EventCategories
    ensures IndexEvents(st, now, p, start, end) == IndexEvents(st, now, Params("", "", p.source), start, end)
  {
    Text.StripEmptyIffBlank(p.search);
    assert Text.Strip("") == [];
    assert TextStages(p) == TextStages(Params("", "", p.source));
  }

  /** An event dated at any time of the chosen start or end day passes that
      date filter: the start is midnight and the end is 23:59:59. */
  lemma DateBoundsCoverWholeDays(e: Event, d: Day)
    requires e.dateTime.Some? && DayOf(e.dateTime.value) == d
    ensures Keeps(StartDate(d), e) && Keeps(EndDate(d), e)
  {
  }

  /** An event dated after the end day fails the end filter, and one dated
      before the start day fails the start filter. */
  lemma DateBoundsExcludeOtherDays(e: Event, start: Day, end: Day)
    requires e.dateTime.Some?
    ensures DayOf(e.dateTime.value) > end ==> !Keeps(EndDate(end), e)
    ensures DayOf(e.dateTime.value) < start ==> !Keeps(StartDate(start), e)
  {
  }

  /** Lower-casing preserves an occurrence. */
  lemma ContainsLower(hay: string, needle: string)
    requires Text.Contains(hay, needle)
    ensures Text.Contains(Text.Lower(hay), Text.Lower(needle))
  {
    var i :| 0 <= i <= |hay| - |needle| && Text.OccursAt(hay, needle, i);
    var lh, ln := Text.Lower(hay), Text.Lower(needle);
    assert forall k :: 0 <= k < |needle| ==> lh[i + k] == ln[k] by {
      forall k | 0 <= k < |needle| ensures lh[i + k] == ln[k] {
        assert hay[i + k] == hay[i..i + |needle|][k] == needle[k];
      }
    }
    assert lh[i..i + |ln|] == ln;
    assert Text.OccursAt(lh, ln, i);
  }

  /** The search finds an event whose name contains the query as typed,
      once surrounding whitespace is removed, whatever the case of its
      ASCII letters. */
  lemma SearchFindsName(e: Event, search: string)
    requires Text.Strip(search) != [] && Text.Contains(e.name, Text.Strip(search))
    ensures Keeps(Search(Text.Lower(Text.Strip(search))), e)
  {
    ContainsLower(e.name, Text.Strip(search));
  }

  // ---------------------------------------------------------------------
  // /api/events

  /** `events[:n]` for a Python list: a negative `n` drops the last `-n`
      elements, and a bound beyond the length is clamped. */
  function PySlice<T>(s: seq<T>, n: int): (r: seq<T>)
    ensures |r| <= |s| && r == s[..|r|]
    ensures 0 <= n ==> |r| == if n < |s| then n else |s|
    ensures n < 0 ==> |r| == if |s| + n < 0 then 0 else |s| + n
  {
    if 0 <= n then (if n < |s| then s[..n] else s)
    else if |s| + n < 0 then []
    else s[..|s| + n]
  }

  /** The events `api_events()` serialises, before `to_dict`. A missing,
      unparsable or zero `limit` is `None`-or-falsy and leaves the list
      whole. */
  function ApiSelection(st: Store, now: Instant, p: Params, limit: Option<int>): (r: seq<Event>)
    ensures limit.None? || limit.value == 0 ==> r == Run(GetAllEvents(st, now, None), TextStages(p))
  {
    var events := Run(GetAllEvents(st, now, None), TextStages(p));
    if limit.Some? && limit.value != 0 then PySlice(events, limit.value) else events
  }

  /** `api_events()`: the selection as a JSON list of `to_dict()` objects. */
  function ApiEvents(st: Store, now: Instant, p: Params, limit: Option<int>): (r: seq<map<string, Json>>)
    ensures |r| == |ApiSelection(st, now, p, limit)|
    ensures forall i :: 0 <= i < |r| ==> r[i].Keys == DictKeys
  {
    MapSeq(ApiSelection(st, now, p, limit), ToDict)
  }

  /** Without a limit the API returns the index page's events for the same
      text filters and no dates. */
  lemma ApiMatchesIndex(st: Store, now: Instant, p: Params)
    ensures ApiSelection(st, now, p, None) == IndexEvents(st, now, p, None, None)
  {
    assert IndexStages(p, None, None) == TextStages(p);
  }

  /** A positive limit keeps the first `n` selected events; a negative one
      drops the last `-n`, unlike the store's `LIMIT`, which ignores a
      negative value. */
  lemma ApiLimit(st: Store, now: Instant, p: Params, n: int)
    requires n != 0
    ensures var all := ApiSelection(st, now, p, None);
      var r := ApiSelection(st, now, p, Some(n));
      && r == all[..|r|]
      && (0 < n ==> |r| == if n < |all| then n else |all|)
      && (n < 0 ==> |r| == if |all| + n < 0 then 0 else |all| + n)
  {
  }

  /** The store's limit ignores a negative value while the API's slice
      does not: with at least one upcoming event, `limit=-1` returns one
      event fewer from the API than from `get_all_events(-1)`. */
  lemma NegativeLimitsDisagree(st: Store, now: Instant)
    requires GetEventCount(st, now) > 0
    ensures |ApiSelection(st, now, Params("", "", ""), Some(-1))| + 1 == |GetAllEvents(st, now, Some(-1))|
  {
    NoFiltersShowsEverything(st, now);
    ApiMatchesIndex(st, now, Params("", "", ""));
  }

  function DecodeAll(ds: seq<map<string, Json>>): seq<Option<Event>> {
    MapSeq(ds, FromDict)
  }

  /** Every object the API returns decodes back to the event it came from. */
  lemma ApiRoundTrip(st: Store, now: Instant, p: Params, limit: Option<int>)
    ensures DecodeAll(ApiEvents(st, now, p, limit))
         == MapSeq(ApiSelection(st, now, p, limit), (e: Event) => Some(e))
  {
    var sel := ApiSelection(st, now, p, limit);
    forall i | 0 <= i < |sel| ensures FromDict(ToDict(sel[i])) == Some(sel[i]) {
      ToDictRoundTrip(sel[i]);
    }
  }

  // ---------------------------------------------------------------------
  // The source list

  /** Strictly ascending in code-point order: sorted and without repeats. */
  predicate StrictlySorted(s: seq<string>) {
    forall i, j :: 0 <= i < j < |s| ==> Text.Less(s[i], s[j])
  }

  /** Inserts a name into a strictly sorted list unless already present. */
  function InsertName(x: string, s: seq<string>): seq<string> {
    if s == [] then [x]
    else if x == s[0] then s
    else if Text.Less(x, s[0]) then [x] + s
    else [s[0]] + InsertName(x, s[1..])
  }

  /** `sorted(set(names))`. */
  function SortedNames(names: seq<string>): seq<string> {
    if names == [] then [] else InsertName(names[0], SortedNames(names[1..]))
  }

  lemma ConsStrictlySorted(h: string, t: seq<string>)
    requires StrictlySorted(t)
    requires forall k :: 0 <= k < |t| ==> Text.Less(h, t[k])
    ensures StrictlySorted([h] + t)
  {
    var s := [h] + t;
    forall i, j | 0 <= i < j < |s| ensures Text.Less(s[i], s[j]) {
      assert s[j] == t[j - 1];
      if i > 0 {
        assert s[i] == t[i - 1];
      }
    }
  }

  lemma {:induction false} InsertNameSpec(x: string, s: seq<string>)
    requires StrictlySorted(s)
    ensures StrictlySorted(InsertName(x, s))
    ensures forall y :: y in InsertName(x, s) <==> y == x || y in s
  {
    if s != [] {
      assert s == [s[0]] + s[1..];
      if x == s[0] {
      } else if Text.Less(x, s[0]) {
        forall k | 0 <= k < |s| ensures Text.Less(x, s[k]) {
          if k > 0 {
            Text.LessTransitive(x, s[0], s[k]);
          }
        }
        ConsStrictlySorted(x, s);
      } else {
        Text.LessTotal(x, s[0]);
        var rest := InsertName(x, s[1..]);
        InsertNameSpec(x, s[1..]);
        forall k | 0 <= k < |rest| ensures Text.Less(s[0], rest[k]) {
          assert rest[k] in rest;
          if rest[k] != x {
            var m :| 0 <= m < |s[1..]| && s[1..][m] == rest[k];
            assert s[m + 1] == rest[k];
          }
        }
        ConsStrictlySorted(s[0], rest);
      }
    }
  }

  /** The sorted names are strictly ascending and hold each name once. */
  lemma {:induction false} SortedNamesSpec(names: seq<string>)
    ensures StrictlySorted(SortedNames(names))
    ensures forall y :: y in SortedNames(names) <==> y in names
  {
    if names != [] {
      SortedNamesSpec(names[1..]);
      InsertNameSpec(names[0], SortedNames(names[1..]));
      assert names == [names[0]] + names[1..];
    }
  }

  /** A strictly sorted list is determined by its elements, so the result
      of `sorted(set(...))` does not depend on the order of the input. */
  lemma {:induction false} StrictlySortedUnique(a: seq<string>, b: seq<string>)
    requires StrictlySorted(a) && StrictlySorted(b)
    requires forall y :: y in a <==> y in b
    ensures a == b
  {
    SameMembersSameEmptiness(a, b);
    if a != [] {
      assert a[0] in b && b[0] in a;
      var i :| 0 <= i < |b| && b[i] == a[0];
      var j :| 0 <= j < |a| && a[j] == b[0];
      if a[0] != b[0] {
        assert i > 0 && j > 0;
        Text.LessAsymmetric(b[0], a[0]);
      }
      forall y ensures y in a[1..] <==> y in b[1..] {
        if y in a[1..] {
          var k :| 0 <= k < |a[1..]| && a[1..][k] == y;
          assert a[k + 1] == y;
          Text.LessIrreflexive(y);
          assert y in b;
          assert y != b[0];
          var m :| 0 <= m < |b| && b[m] == y;
        }
        if y in b[1..] {
          var k :| 0 <= k < |b[1..]| && b[1..][k] == y;
          assert b[k + 1] == y;
          Text.LessIrreflexive(y);
          assert y in a;
          assert y != a[0];
          var m :| 0 <= m < |a| && a[m] == y;
        }
      }
      SortedTailStrict(a);
      SortedTailStrict(b);
      StrictlySortedUnique(a[1..], b[1..]);
      assert a == [a[0]] + a[1..] && b == [b[0]] + b[1..];
    }
  }

  lemma SameMembersSameEmptiness(a: seq<string>, b: seq<string>)
    requires forall y :: y in a <==> y in b
    ensures a == [] <==> b == []
  {
    if a != [] {
      assert a[0] in b;
    }
    if b != [] {
      assert b[0] in a;
    }
  }

  lemma SortedTailStrict(s: seq<string>)
    requires s != [] && StrictlySorted(s)
    ensures StrictlySorted(s[1..])
  {
    assert forall k :: 0 <= k < |s[1..]| ==> s[1..][k] == s[k + 1];
  }

  function SourceName(e: Event): string {
    e.sourceName
  }

  /** `sorted(list(set(e.source_name for e in db.get_all_events())))`. */
  function Sources(st: Store, now: Instant): (r: seq<string>)
    ensures StrictlySorted(r)
  {
    var names := MapSeq(GetAllEvents(st, now, None), SourceName);
    SortedNamesSpec(names);
    SortedNames(names)
  }

  /** The source list is strictly ascending and names exactly the sources
      of the upcoming rows. */
  lemma SourcesSpec(st: Store, now: Instant)
    ensures StrictlySorted(Sources(st, now))
    ensures forall name :: name in Sources(st, now) <==>
      exists row :: row in st.rows && Upcoming(row, now) && row.data.sourceName == name
  {
    var all := GetAllEvents(st, now, None);
    var names := MapSeq(all, SourceName);
    SortedNamesSpec(names);
    GetAllEventsListsUpcoming(st, now, None);
    GetAllEventsComplete(st, now, None);
    ListedSourceNames(st, now, all, names);
  }

  /** The source names of events drawn from the upcoming rows, with every
      upcoming row represented, are exactly those of the upcoming rows. */
  lemma ListedSourceNames(st: Store, now: Instant, all: seq<Event>, names: seq<string>)
    requires forall e :: e in all ==> exists row :: row in st.rows && Upcoming(row, now) && e == RowToEvent(row)
    requires forall row :: row in st.rows && Upcoming(row, now) ==> RowToEvent(row) in all
    requires |names| == |all| && forall i :: 0 <= i < |all| ==> names[i] == all[i].sourceName
    ensures forall name :: name in names <==>
      exists row :: row in st.rows && Upcoming(row, now) && row.data.sourceName == name
  {
    forall name ensures name in names <==> exists row :: row in st.rows && Upcoming(row, now) && row.data.sourceName == name {
      if name in names {
        var i :| 0 <= i < |names| && names[i] == name;
        assert all[i] in all;
        var row :| row in st.rows && Upcoming(row, now) && all[i] == RowToEvent(row);
      }
      if exists row :: row in st.rows && Upcoming(row, now) && row.data.sourceName == name {
        var row :| row in st.rows && Upcoming(row, now) && row.data.sourceName == name;
        var i :| 0 <= i < |all| && all[i] == RowToEvent(row);
        assert names[i] == name;
      }
    }
  }

  // ---------------------------------------------------------------------
  // /api/stats

  datatype Stats = Stats(totalEvents: nat, categories: map<string, nat>)

  function CategoryCount(st: Store, now: Instant, c: string): nat {
    |GetEventsByCategory(st, now, c)|
  }

  /** The loop of `api_stats()`: for each category in turn, record its
      count when it is positive. */
  function CountInto(st: Store, now: Instant, cats: seq<string>, acc: map<string, nat>): (m: map<string, nat>)
    ensures forall c :: c in m <==> c in acc || (c in cats && CategoryCount(st, now, c) > 0)
    ensures forall c :: c in cats && CategoryCount(st, now, c) > 0 ==> m[c] == CategoryCount(st, now, c)
    ensures forall c :: c in acc && !(c in cats && CategoryCount(st, now, c) > 0) ==> m[c] == acc[c]
    decreases |cats|
  {
    if cats == [] then acc
    else
      var n := CategoryCount(st, now, cats[0]);
      var m := CountInto(st, now, cats[1..], if n > 0 then acc[cats[0] := n] else acc);
      assert forall c :: c in cats <==> c == cats[0] || c in cats[1..];
      m
  }

  /** `api_stats()` without its `last_updated` clock reading. */
  function ApiStats(st: Store, now: Instant): (s: Stats)
    ensures s.totalEvents == |GetAllEvents(st, now, None)|
    ensures forall c :: c in s.categories <==> c in EventCategories && CategoryCount(st, now, c) > 0
    ensures forall c :: c in s.categories ==> s.categories[c] == CategoryCount(st, now, c)
  {
    Stats(GetEventCount(st, now), CountInto(st, now, EventCategories, map[]))
  }

  /** Each category count is the number of listed events of that category. */
  lemma StatsCountListing(st: Store, now: Instant, c: string)
    requires c in ApiStats(st, now).categories
    ensures ApiStats(st, now).categories[c] == |Filter(GetAllEvents(st, now, None), EventInCategory(c))|
  {
    CategoryIsFilteredListing(st, now, c);
  }

  function InAnyCategory(cats: seq<string>): Event -> bool {
    (e: Event) => e.category in cats
  }

  /** The counts of a list of categories, added up. */
  function SumCounts(st: Store, now: Instant, cats: seq<string>): nat {
    if cats == [] then 0 else CategoryCount(st, now, cats[0]) + SumCounts(st, now, cats[1..])
  }

  /** For distinct categories, the counts add up to the number of listed
      events in any of them. */
  lemma {:induction false} SumCountsIsUnion(st: Store, now: Instant, cats: seq<string>)
    requires forall i, j :: 0 <= i < j < |cats| ==> cats[i] != cats[j]
    ensures SumCounts(st, now, cats) == |Filter(GetAllEvents(st, now, None), InAnyCategory(cats))|
  {
    var all := GetAllEvents(st, now, None);
    if cats == [] {
      FilterNone(all, InAnyCategory(cats));
    } else {
      var rest := cats[1..];
      assert forall i, j :: 0 <= i < j < |rest| ==> rest[i] != rest[j] by {
        assert forall k :: 0 <= k < |rest| ==> rest[k] == cats[k + 1];
      }
      SumCountsIsUnion(st, now, rest);
      CategoryIsFilteredListing(st, now, cats[0]);
      assert cats[0] !in rest by {
        assert forall k :: 0 <= k < |rest| ==> rest[k] == cats[k + 1];
      }
      assert forall c :: c in cats <==> c == cats[0] || c in rest;
      FilterCountSplit(all, EventInCategory(cats[0]), InAnyCategory(rest), InAnyCategory(cats));
    }
  }

  /** The per-category counts never add up to more than the total, since
      the ten categories are distinct and each event has one category. */
  lemma StatsWithinTotal(st: Store, now: Instant)
    ensures SumCounts(st, now, EventCategories) <= ApiStats(st, now).totalEvents
  {
    Models.CategoriesShape();
    SumCountsIsUnion(st, now, EventCategories);
  }
}
