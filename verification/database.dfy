/** The `events` table and the operations of `EventDatabase`: upsert by
    `source_url`, the upcoming-events queries, the date-range query, the
    count, the point lookup, the purge of past events and the freshness
    heuristic. The table is a sequence of rows in rowid order; the wall
    clock is the explicit parameter `now`. */
module Database {
  import opened Wrappers
  import opened Clock
  import opened Models
  import opened Seqs

  // ---------------------------------------------------------------------
  // Schema

  /** The columns `CREATE TABLE IF NOT EXISTS events` declares. */
  const TableColumns: set<string> := {
    "id", "name", "date_time", "location", "description", "source_url",
    "source_name", "category", "cost", "organizer", "contact_info",
    "registration_required", "age_restrictions", "created_at"
  }

  /** The columns `init_database` adds with `ALTER TABLE` for tables made by
      older versions, in the order it tries them. */
  const AddedColumns: seq<string> := [
    "cost", "organizer", "contact_info", "registration_required", "age_restrictions"
  ]

  /** `ALTER TABLE events ADD COLUMN c`; the error for an existing column is
      swallowed, so adding an existing column changes nothing. */
  function AddColumn(columns: set<string>, c: string): set<string> {
    columns + {c}
  }

  function AddColumns(columns: set<string>, cs: seq<string>): (r: set<string>)
    ensures forall c :: c in r <==> c in columns || c in cs
    decreases |cs|
  {
    if cs == [] then columns else AddColumns(AddColumn(columns, cs[0]), cs[1..])
  }

  /** `init_database` on a database with no `events` table (`None`) or with
      a table holding the given columns. */
  function InitSchema(existing: Option<set<string>>): (columns: set<string>)
    ensures existing.None? ==> columns == TableColumns
    ensures existing.Some? ==> columns == existing.value + set c | c in AddedColumns
  {
    var created := if existing.None? then TableColumns else existing.value;
    AddColumns(created, AddedColumns)
  }

  /** Initialising twice is the same as initialising once. */
  lemma InitSchemaIdempotent(existing: Option<set<string>>)
    ensures InitSchema(Some(InitSchema(existing))) == InitSchema(existing)
  {
  }

  // ---------------------------------------------------------------------
  // Rows and the store

  /** One row: the AUTOINCREMENT `id`, the `CURRENT_TIMESTAMP` default of
      `created_at`, and the twelve columns `insert_event` writes, carried as
      an `Event` whose `id` and `createdAt` are absent. */
  datatype Row = Row(id: nat, createdAt: Instant, data: Event)

  /** The table in rowid order, and the id the next insert receives
      (one more than the largest id ever handed out). */
  datatype Store = Store(rows: seq<Row>, nextId: nat)

  const EmptyStore: Store := Store([], 1)

  /** The twelve values `insert_event` binds: everything but `id` and
      `created_at`, which the statement leaves to the table's defaults. */
  function Columns(e: Event): Event {
    e.(id := None, createdAt := None)
  }

  /** `_row_to_event`: the stored columns, with the row's own id and
      `created_at`. */
  function RowToEvent(r: Row): (e: Event)
    ensures e.id == Some(r.id) && e.createdAt == Some(r.createdAt)
    ensures Columns(e) == Columns(r.data)
    ensures Columns(r.data) == r.data ==> Row(r.id, r.createdAt, Columns(e)) == r
  {
    r.data.(id := Some(r.id), createdAt := Some(r.createdAt))
  }

  predicate IdsIncrease(a: Row, b: Row) {
    a.id < b.id
  }

  predicate UrlsDiffer(a: Row, b: Row) {
    a.data.sourceUrl != b.data.sourceUrl
  }

  /** What the table's constraints and AUTOINCREMENT guarantee: ids are
      positive, below the counter and increasing in rowid order, and
      `source_url` is UNIQUE. */
  ghost predicate Valid(st: Store) {
    && st.nextId >= 1
    && (forall i :: 0 <= i < |st.rows| ==> 1 <= st.rows[i].id < st.nextId)
    && (forall i :: 0 <= i < |st.rows| ==> Columns(st.rows[i].data) == st.rows[i].data)
    && Pairwise(st.rows, IdsIncrease)
    && Pairwise(st.rows, UrlsDiffer)
  }

  lemma EmptyStoreValid()
    ensures Valid(EmptyStore)
  {
  }

  function HasUrl(url: string): Row -> bool {
    (r: Row) => r.data.sourceUrl == url
  }

  function OtherUrl(url: string): Row -> bool {
    (r: Row) => r.data.sourceUrl != url
  }

  /** The rows whose `source_url` is `url`. */
  function RowsWithUrl(st: Store, url: string): seq<Row> {
    Filter(st.rows, HasUrl(url))
  }

  // ---------------------------------------------------------------------
  // insert_event

  datatype Inserted = Inserted(store: Store, id: nat)

  /** `INSERT OR REPLACE INTO events (...twelve columns...)`. A row holding
      the same `source_url` is deleted; the new row is appended with the
      next AUTOINCREMENT id and `created_at` = now, whatever `e.id` and
      `e.createdAt` say. Returns the new row's id (`cursor.lastrowid`). */
  function InsertEvent(st: Store, e: Event, now: Instant): (res: Inserted)
    ensures res.id == st.nextId && res.store.nextId == st.nextId + 1
    ensures RowsWithUrl(res.store, e.sourceUrl) == [Row(res.id, now, Columns(e))]
    ensures RowToEvent(Row(res.id, now, Columns(e))) == e.(id := Some(res.id), createdAt := Some(now))
    ensures forall r :: r in st.rows && r.data.sourceUrl != e.sourceUrl ==> r in res.store.rows
    ensures forall r :: r in res.store.rows && r.data.sourceUrl != e.sourceUrl ==> r in st.rows
    ensures IsSubsequence(Filter(st.rows, OtherUrl(e.sourceUrl)), res.store.rows)
  {
    var kept := Filter(st.rows, OtherUrl(e.sourceUrl));
    var row := Row(st.nextId, now, Columns(e));
    FilterSatisfies(st.rows, OtherUrl(e.sourceUrl));
    FilterMembers(st.rows, OtherUrl(e.sourceUrl));
    AppendedRowIsOnlyMatch(kept, row, e.sourceUrl);
    PrefixIsSubsequence(kept, [row]);
    Inserted(Store(kept + [row], st.nextId + 1), st.nextId)
  }

  lemma AppendedRowIsOnlyMatch(kept: seq<Row>, row: Row, url: string)
    requires forall i :: 0 <= i < |kept| ==> kept[i].data.sourceUrl != url
    requires row.data.sourceUrl == url
    ensures Filter(kept + [row], HasUrl(url)) == [row]
  {
    FilterOfConcat(kept, [row], HasUrl(url));
    FilterNone(kept, HasUrl(url));
    assert [row][1..] == [];
  }

  lemma {:induction false} PrefixIsSubsequence<T>(a: seq<T>, b: seq<T>)
    ensures IsSubsequence(a, a + b)
  {
    if a != [] {
      assert (a + b)[1..] == a[1..] + b;
      PrefixIsSubsequence(a[1..], b);
    }
  }

  /** An insert keeps the table's constraints, and the id it hands out is
      larger than every id still stored. */
  lemma InsertPreservesValid(st: Store, e: Event, now: Instant)
    requires Valid(st)
    ensures Valid(InsertEvent(st, e, now).store)
    ensures forall r :: r in st.rows ==> r.id < InsertEvent(st, e, now).id
  {
    var kept := Filter(st.rows, OtherUrl(e.sourceUrl));
    FilterSatisfies(st.rows, OtherUrl(e.sourceUrl));
    FilterKeepsPairwise(st.rows, OtherUrl(e.sourceUrl), IdsIncrease);
    FilterKeepsPairwise(st.rows, OtherUrl(e.sourceUrl), UrlsDiffer);
    AppendKeepsValid(kept, Row(st.nextId, now, Columns(e)), st.nextId);
  }

  lemma AppendKeepsValid(kept: seq<Row>, row: Row, nextId: nat)
    requires nextId >= 1 && row.id == nextId
    requires forall i :: 0 <= i < |kept| ==> 1 <= kept[i].id < nextId
    requires forall i :: 0 <= i < |kept| ==> Columns(kept[i].data) == kept[i].data
    requires forall i :: 0 <= i < |kept| ==> kept[i].data.sourceUrl != row.data.sourceUrl
    requires Columns(row.data) == row.data
    requires Pairwise(kept, IdsIncrease) && Pairwise(kept, UrlsDiffer)
    ensures Valid(Store(kept + [row], nextId + 1))
  {
    var rows := kept + [row];
    assert forall i :: 0 <= i < |kept| ==> rows[i] == kept[i];
  }

  /** Re-inserting an existing `source_url` replaces the row: the prior row
      and its id are gone, and the single row for that URL carries a fresh,
      larger id and the new insertion time. */
  lemma ReinsertReplacesRow(st: Store, e: Event, now: Instant, prior: Row)
    requires Valid(st)
    requires prior in st.rows && prior.data.sourceUrl == e.sourceUrl
    ensures var res := InsertEvent(st, e, now);
      && prior !in res.store.rows
      && (forall r :: r in res.store.rows ==> r.id != prior.id)
      && res.id > prior.id
      && RowsWithUrl(res.store, e.sourceUrl) == [Row(res.id, now, Columns(e))]
  {
    InsertPreservesValid(st, e, now);
    var res := InsertEvent(st, e, now);
    FilterMembers(res.store.rows, HasUrl(e.sourceUrl));
    forall r | r in res.store.rows ensures r.id != prior.id {
      if r.data.sourceUrl == e.sourceUrl {
        assert r in RowsWithUrl(res.store, e.sourceUrl);
      } else {
        StoredRowsHaveDistinctIds(st, r, prior);
      }
    }
  }

  /** Two different stored rows never share an id. */
  lemma StoredRowsHaveDistinctIds(st: Store, a: Row, b: Row)
    requires Valid(st)
    requires a in st.rows && b in st.rows && a != b
    ensures a.id != b.id
  {
    var i :| 0 <= i < |st.rows| && st.rows[i] == a;
    var j :| 0 <= j < |st.rows| && st.rows[j] == b;
    if i < j {
      assert IdsIncrease(st.rows[i], st.rows[j]);
    } else {
      assert IdsIncrease(st.rows[j], st.rows[i]);
    }
  }


  /** Two inserts under one URL leave one row, holding the second insert's
      fields. */
  lemma SecondInsertWins(st: Store, a: Event, b: Event, t1: Instant, t2: Instant)
    requires a.sourceUrl == b.sourceUrl
    ensures var s1 := InsertEvent(st, a, t1);
      var s2 := InsertEvent(s1.store, b, t2);
      && |RowsWithUrl(s2.store, b.sourceUrl)| == 1
      && RowToEvent(RowsWithUrl(s2.store, b.sourceUrl)[0]) == b.(id := Some(s2.id), createdAt := Some(t2))
  {
  }

  // ---------------------------------------------------------------------
  // Ordering by date_time

  /** `ORDER BY date_time ASC`, with NULL before every date as in SQLite. */
  predicate TimeLe(a: Option<Instant>, b: Option<Instant>) {
    a.None? || (b.Some? && a.value <= b.value)
  }

  predicate RowTimeLe(a: Row, b: Row) {
    TimeLe(a.data.dateTime, b.data.dateTime)
  }

  ghost predicate SortedByTime(s: seq<Row>) {
    Pairwise(s, RowTimeLe)
  }

  /** Places `x` before the first row not earlier than it. */
  function InsertByTime(x: Row, s: seq<Row>): seq<Row> {
    if s == [] then [x]
    else if TimeLe(x.data.dateTime, s[0].data.dateTime) then [x] + s
    else [s[0]] + InsertByTime(x, s[1..])
  }

  /** A stable insertion sort by `date_time`. */
  function SortByTime(s: seq<Row>): seq<Row> {
    if s == [] then [] else InsertByTime(s[0], SortByTime(s[1..]))
  }

  /** Inserting adds exactly `x`. */
  lemma {:induction false} InsertByTimePermutes(x: Row, s: seq<Row>)
    ensures multiset(InsertByTime(x, s)) == multiset(s) + multiset{x}
  {
    if s != [] {
      assert s == [s[0]] + s[1..];
      if !TimeLe(x.data.dateTime, s[0].data.dateTime) {
        InsertByTimePermutes(x, s[1..]);
      }
    }
  }

  /** A row not later than every row of a sorted sequence can lead it. */
  lemma ConsSorted(h: Row, t: seq<Row>)
    requires SortedByTime(t)
    requires forall k :: 0 <= k < |t| ==> RowTimeLe(h, t[k])
    ensures SortedByTime([h] + t)
  {
    var s := [h] + t;
    forall i, j | 0 <= i < j < |s| ensures RowTimeLe(s[i], s[j]) {
      if i > 0 {
        assert s[i] == t[i - 1] && s[j] == t[j - 1];
      } else {
        assert s[j] == t[j - 1];
      }
    }
  }

  /** Inserting into a sorted sequence keeps it sorted. */
  lemma {:induction false} InsertByTimeSorted(x: Row, s: seq<Row>)
    requires SortedByTime(s)
    ensures SortedByTime(InsertByTime(x, s))
  {
    if s != [] {
      if TimeLe(x.data.dateTime, s[0].data.dateTime) {
        forall k | 0 <= k < |s| ensures RowTimeLe(x, s[k]) {
          if k > 0 {
            assert RowTimeLe(s[0], s[k]);
          }
        }
        ConsSorted(x, s);
      } else {
        SortedTail(s);
        InsertByTimeSorted(x, s[1..]);
        InsertByTimePermutes(x, s[1..]);
        var rest := InsertByTime(x, s[1..]);
        forall k | 0 <= k < |rest| ensures RowTimeLe(s[0], rest[k]) {
          assert rest[k] in multiset(rest);
          if rest[k] != x {
            assert rest[k] in multiset(s[1..]);
          }
        }
        ConsSorted(s[0], rest);
      }
    }
  }

  /** The sort returns a sorted permutation of its input. */
  lemma {:induction false} SortByTimeSorted(s: seq<Row>)
    ensures SortedByTime(SortByTime(s))
    ensures multiset(SortByTime(s)) == multiset(s)
    ensures |SortByTime(s)| == |s|
  {
    if s != [] {
      assert s == [s[0]] + s[1..];
      SortByTimeSorted(s[1..]);
      InsertByTimeSorted(s[0], SortByTime(s[1..]));
      InsertByTimePermutes(s[0], SortByTime(s[1..]));
    }
    assert |multiset(SortByTime(s))| == |multiset(s)|;
  }

  lemma SortedTail(s: seq<Row>)
    requires s != [] && SortedByTime(s)
    ensures SortedByTime(s[1..])
    ensures forall k :: 0 <= k < |s[1..]| ==> RowTimeLe(s[0], s[1..][k])
  {
    assert forall k :: 0 <= k < |s[1..]| ==> s[1..][k] == s[k + 1];
  }

  /** Filtering commutes with inserting into a sorted sequence. */
  lemma {:induction false} FilterInsertByTime(x: Row, s: seq<Row>, q: Row -> bool)
    requires SortedByTime(s)
    ensures SortedByTime(Filter(s, q))
    ensures Filter(InsertByTime(x, s), q)
         == if q(x) then InsertByTime(x, Filter(s, q)) else Filter(s, q)
  {
    FilterKeepsPairwise(s, q, RowTimeLe);
    if s != [] {
      if TimeLe(x.data.dateTime, s[0].data.dateTime) {
        FilterInsertBefore(x, s, q);
      } else {
        SortedTail(s);
        FilterInsertByTime(x, s[1..], q);
        FilterInsertAfterHead(x, s, q);
      }
    }
  }

  lemma FilterInsertBefore(x: Row, s: seq<Row>, q: Row -> bool)
    requires SortedByTime(s)
    requires s != [] && TimeLe(x.data.dateTime, s[0].data.dateTime)
    ensures Filter(InsertByTime(x, s), q)
         == if q(x) then InsertByTime(x, Filter(s, q)) else Filter(s, q)
  {
    var fs := Filter(s, q);
    assert InsertByTime(x, s) == [x] + s;
    FilterOfConcat([x], s, q);
    assert [x][1..] == [];
    assert Filter([x], q) == if q(x) then [x] else [];
    if q(x) && fs != [] {
      FilterSatisfies(s, q);
      var m :| 0 <= m < |s| && s[m] == fs[0];
      if m > 0 {
        assert RowTimeLe(s[0], s[m]);
      }
      assert TimeLe(x.data.dateTime, fs[0].data.dateTime);
      assert InsertByTime(x, fs) == [x] + fs;
    }
  }

  lemma FilterInsertAfterHead(x: Row, s: seq<Row>, q: Row -> bool)
    requires s != [] && !TimeLe(x.data.dateTime, s[0].data.dateTime)
    requires Filter(InsertByTime(x, s[1..]), q)
         == if q(x) then InsertByTime(x, Filter(s[1..], q)) else Filter(s[1..], q)
    ensures Filter(InsertByTime(x, s), q)
         == if q(x) then InsertByTime(x, Filter(s, q)) else Filter(s, q)
  {
    var h, t := s[0], s[1..];
    assert s == [h] + t;
    FilterInsertCons(x, h, t, q);
  }

  lemma FilterInsertCons(x: Row, h: Row, t: seq<Row>, q: Row -> bool)
    requires !TimeLe(x.data.dateTime, h.data.dateTime)
    requires Filter(InsertByTime(x, t), q)
         == if q(x) then InsertByTime(x, Filter(t, q)) else Filter(t, q)
    ensures Filter(InsertByTime(x, [h] + t), q)
         == if q(x) then InsertByTime(x, Filter([h] + t, q)) else Filter([h] + t, q)
  {
    InsertAfter(x, h, t);
    FilterCons(h, InsertByTime(x, t), q);
    FilterCons(h, t, q);
    if q(x) {
      FilterInsertConsKept(x, h, t, q);
    }
  }

  lemma FilterInsertConsKept(x: Row, h: Row, t: seq<Row>, q: Row -> bool)
    requires !TimeLe(x.data.dateTime, h.data.dateTime)
    requires Filter(InsertByTime(x, [h] + t), q) == (if q(h) then [h] else []) + InsertByTime(x, Filter(t, q))
    ensures Filter(InsertByTime(x, [h] + t), q) == InsertByTime(x, (if q(h) then [h] else []) + Filter(t, q))
  {
    if q(h) {
      InsertAfter(x, h, Filter(t, q));
    } else {
      assert [] + Filter(t, q) == Filter(t, q);
    }
  }

  lemma FilterCons<T>(h: T, t: seq<T>, q: T -> bool)
    ensures Filter([h] + t, q) == (if q(h) then [h] else []) + Filter(t, q)
  {
    assert ([h] + t)[0] == h && ([h] + t)[1..] == t;
  }

  lemma FilterInsertIntoSorted(x: Row, t: seq<Row>, q: Row -> bool)
    ensures Filter(InsertByTime(x, SortByTime(t)), q)
         == if q(x) then InsertByTime(x, Filter(SortByTime(t), q)) else Filter(SortByTime(t), q)
  {
    SortByTimeSorted(t);
    FilterInsertByTime(x, SortByTime(t), q);
  }

  lemma SortCons(h: Row, t: seq<Row>)
    ensures SortByTime([h] + t) == InsertByTime(h, SortByTime(t))
  {
    assert ([h] + t)[0] == h && ([h] + t)[1..] == t;
  }

  lemma InsertAfter(x: Row, h: Row, t: seq<Row>)
    requires !TimeLe(x.data.dateTime, h.data.dateTime)
    ensures InsertByTime(x, [h] + t) == [h] + InsertByTime(x, t)
  {
    assert ([h] + t)[0] == h && ([h] + t)[1..] == t;
  }

  /** Sorting and filtering commute: the rows of a category, sorted, are
      the sorted rows restricted to that category, in the same order. */
  lemma {:induction false} FilterSortByTime(s: seq<Row>, q: Row -> bool)
    ensures Filter(SortByTime(s), q) == SortByTime(Filter(s, q))
  {
    if s != [] {
      var h, t := s[0], s[1..];
      assert s == [h] + t;
      calc {
        Filter(SortByTime(s), q);
        Filter(InsertByTime(h, SortByTime(t)), q);
        { FilterInsertIntoSorted(h, t, q); }
        if q(h) then InsertByTime(h, Filter(SortByTime(t), q)) else Filter(SortByTime(t), q);
        { FilterSortByTime(t, q); }
        if q(h) then InsertByTime(h, SortByTime(Filter(t, q))) else SortByTime(Filter(t, q));
        { SortCons(h, Filter(t, q)); }
        if q(h) then SortByTime([h] + Filter(t, q)) else SortByTime(Filter(t, q));
        { FilterCons(h, t, q); assert [] + Filter(t, q) == Filter(t, q); }
        SortByTime(Filter(s, q));
      }
    }
  }

  /** `SELECT * ... WHERE p ORDER BY date_time ASC` over the table. */
  function SelectRows(rows: seq<Row>, p: Row -> bool): (t: seq<Row>)
    ensures |t| == |Filter(rows, p)|
  {
    SortByTimeSorted(Filter(rows, p));
    SortByTime(Filter(rows, p))
  }

  /** The selected rows are sorted and are exactly the rows satisfying `p`,
      each as often as it occurs in the table. */
  lemma SelectRowsSpec(rows: seq<Row>, p: Row -> bool)
    ensures SortedByTime(SelectRows(rows, p))
    ensures multiset(SelectRows(rows, p)) == multiset(Filter(rows, p))
    ensures forall r :: r in SelectRows(rows, p) <==> r in rows && p(r)
  {
    var f := Filter(rows, p);
    var t := SelectRows(rows, p);
    SortByTimeSorted(f);
    FilterMembers(rows, p);
    forall r ensures r in t <==> r in rows && p(r) {
      assert r in t <==> r in multiset(t);
      assert r in f <==> r in multiset(f);
    }
  }

  /** The selected rows, converted with `_row_to_event`. */
  function SelectEvents(rows: seq<Row>, p: Row -> bool): (r: seq<Event>)
    ensures |r| == |Filter(rows, p)|
  {
    MapSeq(SelectRows(rows, p), RowToEvent)
  }

  /** A query returns only events of rows satisfying its condition. */
  lemma SelectEventsSound(rows: seq<Row>, p: Row -> bool)
    ensures forall e :: e in SelectEvents(rows, p) ==> exists row :: row in rows && p(row) && e == RowToEvent(row)
  {
    var t := SelectRows(rows, p);
    var r := SelectEvents(rows, p);
    SelectRowsSpec(rows, p);
    forall e | e in r ensures exists row :: row in rows && p(row) && e == RowToEvent(row) {
      var i :| 0 <= i < |r| && r[i] == e;
      var row := t[i];
      assert row in t;
      assert row in rows && p(row) && e == RowToEvent(row);
    }
  }

  /** A query's events come in ascending `date_time` order, undated first. */
  lemma SelectEventsOrdered(rows: seq<Row>, p: Row -> bool)
    ensures var r := SelectEvents(rows, p);
      forall i, j :: 0 <= i < j < |r| ==> TimeLe(r[i].dateTime, r[j].dateTime)
  {
    var t := SelectRows(rows, p);
    var r := SelectEvents(rows, p);
    SelectRowsSpec(rows, p);
    forall i, j | 0 <= i < j < |r| ensures TimeLe(r[i].dateTime, r[j].dateTime) {
      assert RowTimeLe(t[i], t[j]);
    }
  }

  /** Every row satisfying a query's condition appears in its result. */
  lemma SelectEventsComplete(rows: seq<Row>, p: Row -> bool)
    ensures forall row :: row in rows && p(row) ==> RowToEvent(row) in SelectEvents(rows, p)
  {
    var t := SelectRows(rows, p);
    var r := SelectEvents(rows, p);
    SelectRowsSpec(rows, p);
    forall row | row in rows && p(row) ensures RowToEvent(row) in r {
      var i :| 0 <= i < |t| && t[i] == row;
      assert r[i] == RowToEvent(row);
    }
  }

  // ---------------------------------------------------------------------
  // Queries

  /** `date_time >= datetime('now', 'localtime')`: dated and not before
      today (see `Clock.StoredNotBefore`). */
  predicate Upcoming(r: Row, now: Instant) {
    r.data.dateTime.Some? && StoredNotBefore(r.data.dateTime.value, now)
  }

  /** `date_time < datetime('now', 'localtime')`: dated before today. */
  predicate Past(r: Row, now: Instant) {
    r.data.dateTime.Some? && StoredBefore(r.data.dateTime.value, now)
  }

  function UpcomingAt(now: Instant): Row -> bool {
    r => Upcoming(r, now)
  }

  function UpcomingIn(category: string, now: Instant): Row -> bool {
    (r: Row) => r.data.category == category && Upcoming(r, now)
  }

  function InCategory(category: string): Row -> bool {
    (r: Row) => r.data.category == category
  }

  function EventInCategory(category: string): Event -> bool {
    (e: Event) => e.category == category
  }

  /** `if limit:` picks the `LIMIT ?` statement. SQLite treats a negative
      limit as no limit, and a falsy one (absent or zero) skips the clause. */
  function SqlLimit<T>(s: seq<T>, limit: Option<int>): (r: seq<T>)
    ensures limit.Some? && 0 < limit.value ==> |r| == if limit.value < |s| then limit.value else |s|
    ensures !(limit.Some? && 0 < limit.value) ==> r == s
    ensures r == s[..|r|]
  {
    if limit.Some? && 0 < limit.value < |s| then s[..limit.value] else s
  }

  /** The number of upcoming rows. */
  function UpcomingCount(st: Store, now: Instant): nat {
    |Filter(st.rows, UpcomingAt(now))|
  }

  /** `get_all_events(limit)`: the upcoming rows by date, cut to `limit`
      when it is positive. */
  function GetAllEvents(st: Store, now: Instant, limit: Option<int>): (r: seq<Event>)
    ensures |r| == if limit.Some? && 0 < limit.value < UpcomingCount(st, now) then limit.value else UpcomingCount(st, now)
  {
    var all := SelectEvents(st.rows, UpcomingAt(now));
    assert |all| == UpcomingCount(st, now);
    SqlLimit(all, limit)
  }

  /** Every listed event is dated, not before today and stored in the
      table; the listing is in ascending date order. */
  lemma GetAllEventsListsUpcoming(st: Store, now: Instant, limit: Option<int>)
    ensures var r := GetAllEvents(st, now, limit);
      && (forall i :: 0 <= i < |r| ==> r[i].dateTime.Some? && StoredNotBefore(r[i].dateTime.value, now))
      && (forall i, j :: 0 <= i < j < |r| ==> r[i].dateTime.value <= r[j].dateTime.value)
      && (forall e :: e in r ==> exists row :: row in st.rows && Upcoming(row, now) && e == RowToEvent(row))
  {
    GetAllEventsFromUpcomingRows(st, now, limit);
    GetAllEventsAscending(st, now, limit);
  }

  lemma GetAllEventsFromUpcomingRows(st: Store, now: Instant, limit: Option<int>)
    ensures forall e :: e in GetAllEvents(st, now, limit) ==>
      exists row :: row in st.rows && Upcoming(row, now) && e == RowToEvent(row)
  {
    var all := SelectEvents(st.rows, UpcomingAt(now));
    var r := GetAllEvents(st, now, limit);
    assert r == all[..|r|];
    SelectEventsSound(st.rows, UpcomingAt(now));
    forall e | e in r ensures exists row :: row in st.rows && Upcoming(row, now) && e == RowToEvent(row) {
      var i :| 0 <= i < |r| && r[i] == e;
      assert r[i] == all[i] && all[i] in all;
      var row :| row in st.rows && UpcomingAt(now)(row) && all[i] == RowToEvent(row);
      assert Upcoming(row, now);
    }
  }

  lemma GetAllEventsAscending(st: Store, now: Instant, limit: Option<int>)
    ensures var r := GetAllEvents(st, now, limit);
      && (forall i :: 0 <= i < |r| ==> r[i].dateTime.Some? && StoredNotBefore(r[i].dateTime.value, now))
      && (forall i, j :: 0 <= i < j < |r| ==> r[i].dateTime.value <= r[j].dateTime.value)
  {
    var r := GetAllEvents(st, now, limit);
    GetAllEventsFromUpcomingRows(st, now, limit);
    forall i | 0 <= i < |r| ensures r[i].dateTime.Some? && StoredNotBefore(r[i].dateTime.value, now) {
      assert r[i] in r;
      var row :| row in st.rows && Upcoming(row, now) && r[i] == RowToEvent(row);
    }
    var all := SelectEvents(st.rows, UpcomingAt(now));
    assert r == all[..|r|];
    SelectEventsOrdered(st.rows, UpcomingAt(now));
    forall i, j | 0 <= i < j < |r| ensures r[i].dateTime.value <= r[j].dateTime.value {
      assert r[i] == all[i] && r[j] == all[j];
      assert TimeLe(all[i].dateTime, all[j].dateTime);
    }
  }

  /** Without a positive limit every upcoming row is listed. */
  lemma GetAllEventsComplete(st: Store, now: Instant, limit: Option<int>)
    requires !(limit.Some? && 0 < limit.value)
    ensures forall row :: row in st.rows && Upcoming(row, now) ==> RowToEvent(row) in GetAllEvents(st, now, limit)
  {
    SelectEventsComplete(st.rows, UpcomingAt(now));
  }

  /** A positive limit returns the first `limit` rows of the unlimited
      query. */
  lemma LimitIsPrefix(st: Store, now: Instant, n: int)
    requires 0 < n
    ensures var all := GetAllEvents(st, now, None);
      GetAllEvents(st, now, Some(n)) == all[..if n < |all| then n else |all|]
  {
  }

  /** `get_events_by_category(category)`. */
  function GetEventsByCategory(st: Store, now: Instant, category: string): (r: seq<Event>)
    ensures |r| <= UpcomingCount(st, now)
  {
    FilterCountMono(st.rows, UpcomingIn(category, now), UpcomingAt(now));
    SelectEvents(st.rows, UpcomingIn(category, now))
  }

  /** The category query is exactly `get_all_events()` restricted to the
      category, in the same order. */
  lemma CategoryIsFilteredListing(st: Store, now: Instant, category: string)
    ensures GetEventsByCategory(st, now, category) == Filter(GetAllEvents(st, now, None), EventInCategory(category))
  {
    var up := Filter(st.rows, UpcomingAt(now));
    FilterFilter(st.rows, UpcomingAt(now), InCategory(category), UpcomingIn(category, now));
    FilterSortByTime(up, InCategory(category));
    FilterOfMap(SortByTime(up), RowToEvent, EventInCategory(category), InCategory(category));
  }

  function InRange(start: Instant, end: Instant): Row -> bool {
    (r: Row) => r.data.dateTime.Some? && start <= r.data.dateTime.value <= end
  }

  /** `get_events_by_date_range(start, end)`: `BETWEEN` is inclusive at both
      ends; both sides are `isoformat()` text, so this compares timestamps.
      Not restricted to upcoming rows. */
  function GetEventsByDateRange(st: Store, start: Instant, end: Instant): (r: seq<Event>)
    ensures start > end ==> r == []
  {
    if start > end then
      FilterNone(st.rows, InRange(start, end));
      SelectEvents(st.rows, InRange(start, end))
    else
      SelectEvents(st.rows, InRange(start, end))
  }

  /** The range query returns exactly the table's events dated within
      `[start, end]`, in ascending date order. */
  lemma DateRangeSpec(st: Store, start: Instant, end: Instant)
    ensures var r := GetEventsByDateRange(st, start, end);
      && (forall i :: 0 <= i < |r| ==> r[i].dateTime.Some? && start <= r[i].dateTime.value <= end)
      && (forall i, j :: 0 <= i < j < |r| ==> r[i].dateTime.value <= r[j].dateTime.value)
      && (forall i :: 0 <= i < |r| ==> exists row :: row in st.rows && r[i] == RowToEvent(row))
      && (forall row :: row in st.rows && InRange(start, end)(row) ==> RowToEvent(row) in r)
  {
    var r := GetEventsByDateRange(st, start, end);
    assert r == SelectEvents(st.rows, InRange(start, end));
    SelectEventsSound(st.rows, InRange(start, end));
    SelectEventsOrdered(st.rows, InRange(start, end));
    SelectEventsComplete(st.rows, InRange(start, end));
    forall i | 0 <= i < |r|
      ensures r[i].dateTime.Some? && start <= r[i].dateTime.value <= end
      ensures exists row :: row in st.rows && r[i] == RowToEvent(row)
    {
      var sel := SelectEvents(st.rows, InRange(start, end));
      assert r[i] == sel[i] && sel[i] in sel;
      var row :| row in st.rows && InRange(start, end)(row) && sel[i] == RowToEvent(row);
    }
    forall i, j | 0 <= i < j < |r| ensures r[i].dateTime.value <= r[j].dateTime.value {
      var sel := SelectEvents(st.rows, InRange(start, end));
      assert r[i] == sel[i] && r[j] == sel[j];
      assert TimeLe(sel[i].dateTime, sel[j].dateTime);
    }
  }


  /** `get_event_count()`: the same set `get_all_events()` returns. */
  function GetEventCount(st: Store, now: Instant): (n: nat)
    ensures n == |GetAllEvents(st, now, None)|
  {
    UpcomingCount(st, now)
  }

  /** `SELECT * FROM events WHERE id = ?`. */
  function FindById(rows: seq<Row>, id: int): (r: Option<Row>)
    ensures r.None? <==> forall k :: 0 <= k < |rows| ==> rows[k].id != id
    ensures r.Some? ==> r.value in rows && r.value.id == id
  {
    if rows == [] then None
    else if rows[0].id == id then Some(rows[0])
    else
      var r := FindById(rows[1..], id);
      assert forall k :: 1 <= k < |rows| ==> rows[k] == rows[1..][k - 1];
      r
  }

  /** `get_event_by_id(id)`. */
  function GetEventById(st: Store, id: int): (r: Option<Event>)
    ensures r.None? <==> forall row :: row in st.rows ==> row.id != id
    ensures r.Some? ==> exists row :: row in st.rows && row.id == id && r.value == RowToEvent(row)
  {
    match FindById(st.rows, id)
    case None => None
    case Some(row) => Some(RowToEvent(row))
  }

  // ---------------------------------------------------------------------
  // clear_old_events

  datatype Purged = Purged(store: Store, deleted: nat)

  function NotPastAt(now: Instant): Row -> bool {
    r => !Past(r, now)
  }

  /** `DELETE FROM events WHERE date_time < datetime('now', 'localtime')`.
      Undated rows never compare as past and are kept. `deleted` is the
      `rowcount` the method reports. */
  function ClearOldEvents(st: Store, now: Instant): (res: Purged)
    ensures res.store.nextId == st.nextId
    ensures forall r :: r in res.store.rows <==> r in st.rows && !Past(r, now)
    ensures forall r :: r in st.rows && r.data.dateTime.None? ==> r in res.store.rows
    ensures IsSubsequence(res.store.rows, st.rows)
    ensures res.deleted == |st.rows| - |res.store.rows|
  {
    var kept := Filter(st.rows, NotPastAt(now));
    FilterIsSubsequence(st.rows, NotPastAt(now));
    FilterMembers(st.rows, NotPastAt(now));
    Purged(Store(kept, st.nextId), |st.rows| - |kept|)
  }

  /** Purging twice with the same `now` deletes nothing the second time. */
  lemma PurgeIdempotent(st: Store, now: Instant)
    ensures var once := ClearOldEvents(st, now).store;
      ClearOldEvents(once, now) == Purged(once, 0)
  {
    var once := ClearOldEvents(st, now).store;
    FilterAll(once.rows, NotPastAt(now));
  }

  /** The purge keeps the table's constraints. */
  lemma PurgePreservesValid(st: Store, now: Instant)
    requires Valid(st)
    ensures Valid(ClearOldEvents(st, now).store)
  {
    var kept := ClearOldEvents(st, now).store.rows;
    assert kept == Filter(st.rows, NotPastAt(now));
    FilterKeepsPairwise(st.rows, NotPastAt(now), IdsIncrease);
    FilterKeepsPairwise(st.rows, NotPastAt(now), UrlsDiffer);
    FilterSatisfies(st.rows, NotPastAt(now));
    forall i | 0 <= i < |kept|
      ensures 1 <= kept[i].id < st.nextId && Columns(kept[i].data) == kept[i].data
    {
      var k :| 0 <= k < |st.rows| && st.rows[k] == kept[i];
    }
  }

  /** No upcoming row is ever purged: the count, and the upcoming listing
      itself, are the same before and after. */
  lemma PurgeKeepsUpcoming(st: Store, now: Instant)
    ensures GetEventCount(ClearOldEvents(st, now).store, now) == GetEventCount(st, now)
    ensures GetAllEvents(ClearOldEvents(st, now).store, now, None) == GetAllEvents(st, now, None)
  {
    var notPast := NotPastAt(now);
    var up := UpcomingAt(now);
    FilterFilter(st.rows, notPast, up, up);
  }

  /** An event dated earlier today is past by the clock but is listed as
      upcoming and survives the purge, because the store compares the
      `'T'`-separated text with SQLite's `' '`-separated `now`. */
  lemma EarlierTodayStillUpcoming(st: Store, now: Instant, r: Row)
    requires r in st.rows && r.data.dateTime.Some?
    requires r.data.dateTime.value < now && DayOf(r.data.dateTime.value) == DayOf(now)
    ensures RowToEvent(r) in GetAllEvents(st, now, None)
    ensures r in ClearOldEvents(st, now).store.rows
  {
    GetAllEventsComplete(st, now, None);
  }

  // ---------------------------------------------------------------------
  // has_recent_events

  const SecondsPerHour: int := 3600

  /** `created_at >= datetime('now', '-N hours', 'localtime')` and upcoming. */
  function RecentAt(now: Instant, hours: nat): Row -> bool {
    (r: Row) => r.createdAt >= now - hours * SecondsPerHour && Upcoming(r, now)
  }

  /** `has_recent_events(hours)`: some upcoming row was inserted within the
      last `hours` hours, or more than ten rows are upcoming. A heuristic,
      not a guarantee of freshness. */
  function HasRecentEvents(st: Store, now: Instant, hours: nat): (recent: bool)
    ensures recent <==>
      (exists row :: row in st.rows && Upcoming(row, now) && row.createdAt >= now - hours * SecondsPerHour)
      || |GetAllEvents(st, now, None)| > 10
  {
    var rows := Filter(st.rows, RecentAt(now, hours));
    FilterMembers(st.rows, RecentAt(now, hours));
    assert |rows| > 0 ==> rows[0] in rows;
    |rows| > 0 || GetEventCount(st, now) > 10
  }

  /** Right after inserting an upcoming event the store counts as fresh. */
  lemma FreshAfterUpcomingInsert(st: Store, e: Event, now: Instant, hours: nat)
    requires e.dateTime.Some? && StoredNotBefore(e.dateTime.value, now)
    ensures HasRecentEvents(InsertEvent(st, e, now).store, now, hours)
  {
    var res := InsertEvent(st, e, now);
    var row := Row(res.id, now, Columns(e));
    assert row in RowsWithUrl(res.store, e.sourceUrl);
    assert row in res.store.rows;
  }

  /** Once every row is older than the window and at most ten are upcoming,
      the store is not fresh. */
  lemma StaleWhenOldAndFew(st: Store, now: Instant, hours: nat)
    requires forall row :: row in st.rows ==> row.createdAt < now - hours * SecondsPerHour
    requires GetEventCount(st, now) <= 10
    ensures !HasRecentEvents(st, now, hours)
  {
  }

  // ---------------------------------------------------------------------
  // A worked scenario

  /** Insert an event dated tomorrow and one dated yesterday under different
      URLs into an empty store: only the first is listed; the purge leaves
      the count unchanged and removes the second, so looking up its id
      finds nothing. */
  lemma TomorrowAndYesterday(a: Event, b: Event, now: Instant)
    requires a.dateTime == Some(now + SecondsPerDay)
    requires b.dateTime == Some(now - SecondsPerDay)
    requires a.sourceUrl != b.sourceUrl
    ensures var s1 := InsertEvent(EmptyStore, a, now);
      var s2 := InsertEvent(s1.store, b, now);
      var purged := ClearOldEvents(s2.store, now).store;
      && GetAllEvents(s2.store, now, None) == [a.(id := Some(s1.id), createdAt := Some(now))]
      && GetEventCount(purged, now) == GetEventCount(s2.store, now)
      && GetEventById(purged, s2.id) == None
  {
    var s1 := InsertEvent(EmptyStore, a, now);
    var s2 := InsertEvent(s1.store, b, now);
    var ra, rb := Row(1, now, Columns(a)), Row(2, now, Columns(b));
    TwoInserts(a, b, now);
    assert Upcoming(ra, now) && Past(rb, now);
    ListingOfTwoRows(s2.store, ra, rb, now);
    PurgeKeepsUpcoming(s2.store, now);
    PurgeOfTwoRows(s2.store, ra, rb, now);
  }

  /** A table of an upcoming row followed by a past one lists only the
      first. */
  lemma ListingOfTwoRows(st: Store, ra: Row, rb: Row, now: Instant)
    requires st.rows == [ra, rb] && Upcoming(ra, now) && Past(rb, now)
    ensures GetAllEvents(st, now, None) == [RowToEvent(ra)]
  {
    assert Filter(st.rows, UpcomingAt(now)) == [ra] by {
      assert st.rows == [ra] + [rb];
      FilterOfConcat([ra], [rb], UpcomingAt(now));
    }
    assert SortByTime([ra]) == [ra];
  }

  /** Purging a table of an upcoming row and a past one drops the past
      row's id. */
  lemma PurgeOfTwoRows(st: Store, ra: Row, rb: Row, now: Instant)
    requires st.rows == [ra, rb] && Upcoming(ra, now) && Past(rb, now) && ra.id != rb.id
    ensures GetEventById(ClearOldEvents(st, now).store, rb.id) == None
  {
    var purged := ClearOldEvents(st, now).store;
    assert forall row :: row in purged.rows ==> row == ra;
  }


  /** Two inserts under different URLs into the empty store give rows 1
      and 2, in that order. */
  lemma TwoInserts(a: Event, b: Event, now: Instant)
    requires a.sourceUrl != b.sourceUrl
    ensures var s1 := InsertEvent(EmptyStore, a, now);
      && s1.id == 1
      && InsertEvent(s1.store, b, now).id == 2
      && InsertEvent(s1.store, b, now).store.rows == [Row(1, now, Columns(a)), Row(2, now, Columns(b))]
  {
    var s1 := InsertEvent(EmptyStore, a, now);
    var ra := Row(1, now, Columns(a));
    assert s1.store.rows == [ra];
    assert Filter(s1.store.rows, OtherUrl(b.sourceUrl)) == [ra] by {
      assert [ra][1..] == [];
    }
  }

}
