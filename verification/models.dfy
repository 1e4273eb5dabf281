/** The `Event` record, its defaults, its JSON mapping and the fixed list
    of categories offered for filtering. */
module Models {
  import opened Wrappers
  import opened Clock

  /** One event. `id` is assigned by the store; `createdAt` is filled in at
      construction and reset by the store on every insert. */
  datatype Event = Event(
    id: Option<int>,
    name: string,
    dateTime: Option<Instant>,
    location: string,
    description: string,
    sourceUrl: string,
    sourceName: string,
    category: string,
    cost: string,
    organizer: string,
    contactInfo: string,
    registrationRequired: bool,
    ageRestrictions: string,
    createdAt: Option<Instant>)

  /** The dataclass field defaults, before `__post_init__` runs. */
  const Defaults: Event :=
    Event(None, "", None, "", "", "", "", "general", "", "", "", false, "", None)

  /** `__post_init__`: a missing `created_at` becomes the construction time;
      a supplied one is kept. Nothing else is touched, and in particular
      `category` is not checked against `EventCategories`. */
  function PostInit(e: Event, now: Instant): (r: Event)
    ensures r.createdAt.Some?
    ensures e.createdAt.Some? ==> r == e
    ensures e.createdAt.None? ==> r.createdAt == Some(now)
    ensures r.(createdAt := e.createdAt) == e
  {
    if e.createdAt.None? then e.(createdAt := Some(now)) else e
  }

  /** `Event()` constructed at time `now`. */
  function NewEvent(now: Instant): Event {
    PostInit(Defaults, now)
  }

  /** A fresh event has empty text fields, category "general", no
      registration requirement, no id, no date, and was created now. */
  lemma FreshEventDefaults(now: Instant)
    ensures var e := NewEvent(now);
      && e.id == None && e.dateTime == None && e.createdAt == Some(now)
      && e.name == "" && e.location == "" && e.description == ""
      && e.sourceUrl == "" && e.sourceName == "" && e.cost == ""
      && e.organizer == "" && e.contactInfo == "" && e.ageRestrictions == ""
      && e.category == "general" && !e.registrationRequired
  {
  }

  /** Running `__post_init__` again changes nothing. */
  lemma PostInitIdempotent(e: Event, first: Instant, later: Instant)
    ensures PostInit(PostInit(e, first), later) == PostInit(e, first)
  {
  }

  /** The primitive values `to_dict` produces. `JTime(t)` stands for the
      ISO-8601 text `t.isoformat()`. */
  datatype Json = JNull | JInt(i: int) | JBool(b: bool) | JStr(s: string) | JTime(t: Instant)

  const DictKeys: set<string> := {
    "id", "name", "date_time", "location", "description", "source_url",
    "source_name", "category", "cost", "organizer", "contact_info",
    "registration_required", "age_restrictions", "created_at"
  }

  function IdJson(id: Option<int>): Json {
    match id
    case None => JNull
    case Some(n) => JInt(n)
  }

  /** `t.isoformat() if t else None`; a `datetime` is always truthy. */
  function TimeJson(t: Option<Instant>): Json {
    match t
    case None => JNull
    case Some(v) => JTime(v)
  }

  /** `Event.to_dict`. */
  function ToDict(e: Event): (d: map<string, Json>)
    ensures d.Keys == DictKeys
    ensures d["date_time"] == JNull <==> e.dateTime.None?
    ensures d["created_at"] == JNull <==> e.createdAt.None?
    ensures e.dateTime.Some? ==> d["date_time"] == JTime(e.dateTime.value)
    ensures e.createdAt.Some? ==> d["created_at"] == JTime(e.createdAt.value)
  {
    map[
      "id" := IdJson(e.id),
      "name" := JStr(e.name),
      "date_time" := TimeJson(e.dateTime),
      "location" := JStr(e.location),
      "description" := JStr(e.description),
      "source_url" := JStr(e.sourceUrl),
      "source_name" := JStr(e.sourceName),
      "category" := JStr(e.category),
      "cost" := JStr(e.cost),
      "organizer" := JStr(e.organizer),
      "contact_info" := JStr(e.contactInfo),
      "registration_required" := JBool(e.registrationRequired),
      "age_restrictions" := JStr(e.ageRestrictions),
      "created_at" := TimeJson(e.createdAt)
    ]
  }

  predicate IsOptionalInt(j: Json) { j.JNull? || j.JInt? }
  predicate IsOptionalTime(j: Json) { j.JNull? || j.JTime? }

  function OptionalInt(j: Json): Option<int> {
    if j.JInt? then Some(j.i) else None
  }

  function OptionalTime(j: Json): Option<Instant> {
    if j.JTime? then Some(j.t) else None
  }

  /** Reads an event back from the shape `to_dict` produces; the reference
      against which `ToDict` is checked field by field. */
  function FromDict(d: map<string, Json>): Option<Event> {
    if && DictKeys <= d.Keys
       && IsOptionalInt(d["id"]) && IsOptionalTime(d["date_time"]) && IsOptionalTime(d["created_at"])
       && d["name"].JStr? && d["location"].JStr? && d["description"].JStr?
       && d["source_url"].JStr? && d["source_name"].JStr? && d["category"].JStr?
       && d["cost"].JStr? && d["organizer"].JStr? && d["contact_info"].JStr?
       && d["registration_required"].JBool? && d["age_restrictions"].JStr?
    then
      Some(Event(
        OptionalInt(d["id"]), d["name"].s, OptionalTime(d["date_time"]),
        d["location"].s, d["description"].s, d["source_url"].s, d["source_name"].s,
        d["category"].s, d["cost"].s, d["organizer"].s, d["contact_info"].s,
        d["registration_required"].b, d["age_restrictions"].s,
        OptionalTime(d["created_at"])))
    else None
  }

  /** `to_dict` loses nothing: every field, including an absent id, date or
      creation time, is recovered from the dictionary unchanged. */
  lemma ToDictRoundTrip(e: Event)
    ensures FromDict(ToDict(e)) == Some(e)
  {
    var d := ToDict(e);
    ToDictTextFields(e);
    ToDictOtherFields(e);
    assert OptionalInt(d["id"]) == e.id;
    assert OptionalTime(d["date_time"]) == e.dateTime;
    assert OptionalTime(d["created_at"]) == e.createdAt;
  }

  lemma ToDictTextFields(e: Event)
    ensures var d := ToDict(e);
      && d["name"] == JStr(e.name) && d["location"] == JStr(e.location)
      && d["description"] == JStr(e.description) && d["source_url"] == JStr(e.sourceUrl)
      && d["source_name"] == JStr(e.sourceName) && d["category"] == JStr(e.category)
  {
  }

  lemma ToDictOtherFields(e: Event)
    ensures var d := ToDict(e);
      && d["id"] == IdJson(e.id) && d["created_at"] == TimeJson(e.createdAt)
      && d["cost"] == JStr(e.cost) && d["organizer"] == JStr(e.organizer)
      && d["contact_info"] == JStr(e.contactInfo) && d["age_restrictions"] == JStr(e.ageRestrictions)
      && d["registration_required"] == JBool(e.registrationRequired)
  {
  }

  /** `EVENT_CATEGORIES`, in the order the web page lists them. */
  const EventCategories: seq<string> := [
    "general", "family", "music", "outdoors", "sports",
    "arts", "food", "business", "education", "community"
  ]

  /** Ten distinct categories, one of them the default "general". */
  lemma CategoriesShape()
    ensures |EventCategories| == 10
    ensures forall i, j :: 0 <= i < j < |EventCategories| ==> EventCategories[i] != EventCategories[j]
    ensures Defaults.category in EventCategories
  {
  }
}
