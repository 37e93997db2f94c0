/** The watcher's bookkeeping (notify.py): which listings deserve a mail, the
    diff of a fresh scrape against the stored snapshot, the field-map form in
    which the snapshot is stored, the subject line of a mail, and one run of
    the whole cycle. Mail delivery, file access and JSON text stay outside. */
module Notify {
  import opened Results
  import opened Text
  import opened Sssb

  // ---------------------------------------------------------------------------
  // is_relevant

  /** `is_relevant`: a one-room flat that is not a corridor room and is
      larger than 25 square metres, judged on the lower-cased type. */
  function IsRelevant(l: Listing): (relevant: bool)
    ensures IsSubstring("korridor", Lower(l.apartmentType)) ==> !relevant
    ensures l.squareMeters <= 25 ==> !relevant
    ensures relevant <==>
      && !IsSubstring("korridor", Lower(l.apartmentType))
      && l.squareMeters > 25
      && IsSubstring("1 rum", Lower(l.apartmentType))
  {
    if IsSubstring("korridor", Lower(l.apartmentType)) then false
    else if l.squareMeters <= 25 then false
    else if !IsSubstring("1 rum", Lower(l.apartmentType)) then false
    else true
  }

  /** The relevance examples: a corridor room, a small flat and a two-room
      flat are left out; a large one-room flat is kept. */
  lemma RelevanceExamples(l: Listing)
    ensures l.apartmentType == "Korridorrum 1 rum" && l.squareMeters == 30 ==> !IsRelevant(l)
    ensures l.apartmentType == "1 rum och k\U{F6}k" && l.squareMeters == 20 ==> !IsRelevant(l)
    ensures l.apartmentType == "2 rum och k\U{F6}k" && l.squareMeters == 40 ==> !IsRelevant(l)
    ensures l.apartmentType == "1 rum och k\U{F6}k" && l.squareMeters == 30 ==> IsRelevant(l)
  {
    if l.apartmentType == "Korridorrum 1 rum" {
      CorridorExample();
    } else if l.apartmentType == "2 rum och k\U{F6}k" {
      TwoRoomExample();
    } else if l.apartmentType == "1 rum och k\U{F6}k" {
      OneRoomExample();
    }
  }

  lemma CorridorExample()
    ensures IsSubstring("korridor", Lower("Korridorrum 1 rum"))
  {
    var low := Lower("Korridorrum 1 rum");
    assert low[..8] == "korridor";
  }

  lemma TwoRoomExample()
    ensures !IsSubstring("1 rum", Lower("2 rum och k\U{F6}k"))
  {
    var low := Lower("2 rum och k\U{F6}k");
    assert forall k :: 0 <= k < |low| ==> low[k] != '1';
    NotSubstringWithoutHead("1 rum", low);
  }

  lemma OneRoomExample()
    ensures !IsSubstring("korridor", Lower("1 rum och k\U{F6}k"))
    ensures IsSubstring("1 rum", Lower("1 rum och k\U{F6}k"))
  {
    var low := Lower("1 rum och k\U{F6}k");
    assert low[..5] == "1 rum";
    assert forall i :: 0 <= i <= |low| - 8 ==> low[i] != 'k';
    NotSubstringTooLate("korridor", low);
  }

  /** A text whose positions that leave room for `sub` never hold the first
      character of `sub` does not contain `sub`. */
  lemma NotSubstringTooLate(sub: string, s: string)
    requires sub != []
    requires forall i :: 0 <= i <= |s| - |sub| ==> s[i] != sub[0]
    ensures !IsSubstring(sub, s)
  {
    SubstringIsSlice(sub, s);
  }

  // ---------------------------------------------------------------------------
  // The diff in main

  function ToSet(s: seq<Listing>): set<Listing> {
    set l | l in s
  }

  /** What one run derives from the fresh and the stored listings. */
  datatype Diff = Diff(allListings: set<Listing>, newListings: set<Listing>, relevantListings: set<Listing>)

  /** `all_listings`, `new_listings` and `relevant_listings` of `main`. */
  function ComputeDiff(current: seq<Listing>, previous: seq<Listing>): (d: Diff)
    ensures forall l :: l in d.newListings <==> l in current && l !in previous
    ensures forall l :: l in d.allListings <==> l in current || l in previous
    ensures forall l :: l in d.relevantListings <==> l in d.newListings && IsRelevant(l)
  {
    var added := ToSet(current) - ToSet(previous);
    Diff(ToSet(current) + ToSet(previous), added, set l | l in added && IsRelevant(l))
  }

  /** How the three sets of a run relate: the new listings are current and
      were not stored, the snapshot covers both inputs and splits into the new
      listings and the stored ones, and relevant listings are new ones. */
  lemma DiffShape(current: seq<Listing>, previous: seq<Listing>)
    ensures var d := ComputeDiff(current, previous);
      && d.newListings <= ToSet(current)
      && d.newListings !! ToSet(previous)
      && ToSet(current) <= d.allListings
      && ToSet(previous) <= d.allListings
      && d.newListings <= d.allListings
      && d.allListings == d.newListings + ToSet(previous)
      && d.relevantListings <= d.newListings
  {
  }

  /** The snapshot is a fixed point: diffing the same scrape against it finds
      nothing new, and the snapshot it would save is the same one. */
  lemma DiffIdempotent(current: seq<Listing>, previous: seq<Listing>, stored: seq<Listing>)
    requires ToSet(stored) == ComputeDiff(current, previous).allListings
    ensures ComputeDiff(current, stored).newListings == {}
    ensures ComputeDiff(current, stored).relevantListings == {}
    ensures ComputeDiff(current, stored).allListings == ComputeDiff(current, previous).allListings
  {
    var d := ComputeDiff(current, previous);
    var d' := ComputeDiff(current, stored);
    assert forall l :: l in stored <==> l in d.allListings;
  }

  /** A sequence has at least as many elements as the set of its elements. */
  lemma {:induction false} ToSetSize(s: seq<Listing>)
    ensures |ToSet(s)| <= |s|
  {
    if s != [] {
      ToSetSize(s[1..]);
      assert ToSet(s) == ToSet(s[1..]) + {s[0]};
    }
  }

  /** A run sends at most one mail per scraped block. */
  lemma NotificationBound(current: seq<Listing>, previous: seq<Listing>)
    ensures |ComputeDiff(current, previous).relevantListings| <= |ComputeDiff(current, previous).newListings|
    ensures |ComputeDiff(current, previous).newListings| <= |current|
  {
    var d := ComputeDiff(current, previous);
    DiffShape(current, previous);
    SubsetSize(d.relevantListings, d.newListings);
    SubsetSize(d.newListings, ToSet(current));
    ToSetSize(current);
  }

  lemma {:induction false} SubsetSize(a: set<Listing>, b: set<Listing>)
    requires a <= b
    ensures |a| <= |b|
  {
    if a != {} {
      var x :| x in a;
      SubsetSize(a - {x}, b - {x});
    }
  }

  // ---------------------------------------------------------------------------
  // The snapshot: asdict and Listing(**d)

  /** A JSON value as `json.load` returns it; `JOther` stands for every value
      that is neither a string nor an integer. */
  datatype JsonValue = JString(str: string) | JInt(num: int) | JOther

  /** One stored listing: a JSON object. */
  type FieldMap = map<string, JsonValue>

  /** The dataclass's field names, the keys of `asdict`. */
  const FieldNames: set<string> :=
    {"url", "apartment_type", "adress", "apartment_number", "region", "floor", "square_meters", "rent", "move_in_date"}

  /** Why a stored record does not become a listing. */
  datatype LoadError =
    | FieldsDiffer(keys: set<string>) // missing or unexpected keyword argument: TypeError
    | FieldType(field: string)        // a value of the wrong JSON type

  /** `Listing.asdict`: one entry per field, under the field's name. */
  function AsDict(l: Listing): (m: FieldMap)
    ensures m.Keys == FieldNames
  {
    map[
      "url" := JString(l.url),
      "apartment_type" := JString(l.apartmentType),
      "adress" := JString(l.adress),
      "apartment_number" := JString(l.apartmentNumber),
      "region" := JString(l.region),
      "floor" := JInt(l.floor),
      "square_meters" := JInt(l.squareMeters),
      "rent" := JInt(l.rent),
      "move_in_date" := JString(l.moveInDate)]
  }

  predicate IsText(m: FieldMap, key: string) {
    key in m && m[key].JString?
  }

  predicate IsNumber(m: FieldMap, key: string) {
    key in m && m[key].JInt?
  }

  /** The records `Listing(**d)` accepts here: exactly the nine keys, texts
      where the dataclass declares `str` and integers where it declares `int`. */
  predicate IsListingRecord(m: FieldMap) {
    && m.Keys == FieldNames
    && IsText(m, "url") && IsText(m, "apartment_type") && IsText(m, "adress")
    && IsText(m, "apartment_number") && IsText(m, "region")
    && IsNumber(m, "floor") && IsNumber(m, "square_meters") && IsNumber(m, "rent")
    && IsText(m, "move_in_date")
  }

  /** `Listing(**d)`. */
  function FromDict(m: FieldMap): (r: Result<Listing, LoadError>)
    ensures r.Ok? <==> IsListingRecord(m)
  {
    if m.Keys != FieldNames then Err(FieldsDiffer(m.Keys))
    else if !IsText(m, "url") then Err(FieldType("url"))
    else if !IsText(m, "apartment_type") then Err(FieldType("apartment_type"))
    else if !IsText(m, "adress") then Err(FieldType("adress"))
    else if !IsText(m, "apartment_number") then Err(FieldType("apartment_number"))
    else if !IsText(m, "region") then Err(FieldType("region"))
    else if !IsNumber(m, "floor") then Err(FieldType("floor"))
    else if !IsNumber(m, "square_meters") then Err(FieldType("square_meters"))
    else if !IsNumber(m, "rent") then Err(FieldType("rent"))
    else if !IsText(m, "move_in_date") then Err(FieldType("move_in_date"))
    else
      Ok(Listing(m["url"].str, m["apartment_type"].str, m["adress"].str, m["apartment_number"].str,
        m["region"].str, m["floor"].num, m["square_meters"].num, m["rent"].num, m["move_in_date"].str))
  }

  /** Rebuilding a listing from its field map gives the same listing. */
  lemma DictRoundTrip(l: Listing)
    ensures FromDict(AsDict(l)) == Ok(l)
  {
  }

  /** A record that rebuilds into a listing is that listing's field map, so
      no two different records load as the same listing. */
  lemma DictRoundTripBack(m: FieldMap)
    requires FromDict(m).Ok?
    ensures AsDict(FromDict(m).value) == m
  {
    var m' := AsDict(FromDict(m).value);
    assert m'.Keys == m.Keys;
    forall key | key in m ensures m'[key] == m[key] {
    }
  }

  /** `save_listings`, up to the JSON text: one field map per listing, in the
      order given. */
  function SaveListings(listings: seq<Listing>): (records: seq<FieldMap>)
    ensures |records| == |listings|
    ensures forall k :: 0 <= k < |listings| ==> FromDict(records[k]) == Ok(listings[k])
  {
    seq(|listings|, k requires 0 <= k < |listings| => AsDict(listings[k]))
  }

  /** `load_previous_listings`, up to the JSON text. `file` is `None` when the
      file is missing or is not a JSON array of objects; on any failure the
      previous listings are empty. */
  function LoadPreviousListings(file: Option<seq<FieldMap>>): (listings: seq<Listing>)
    ensures file.None? ==> listings == []
    ensures file.Some? && (exists k :: 0 <= k < |file.value| && !IsListingRecord(file.value[k])) ==> listings == []
    ensures file.Some? && (forall k :: 0 <= k < |file.value| ==> IsListingRecord(file.value[k])) ==>
      |listings| == |file.value| && forall k :: 0 <= k < |listings| ==> AsDict(listings[k]) == file.value[k]
  {
    match file
    case None => []
    case Some(records) =>
      var loaded := MapAll(FromDict, records);
      if loaded.Ok? then
        assert forall k :: 0 <= k < |records| ==> AsDict(loaded.value[k]) == records[k] by {
          forall k | 0 <= k < |records| ensures AsDict(loaded.value[k]) == records[k] {
            DictRoundTripBack(records[k]);
          }
        }
        loaded.value
      else
        []
  }

  /** Loading what was saved gives back the same listings, in the same
      order. */
  lemma LoadSaveRoundTrip(listings: seq<Listing>)
    ensures LoadPreviousListings(Some(SaveListings(listings))) == listings
  {
    var records := SaveListings(listings);
    var loaded := MapAll(FromDict, records);
    assert loaded.Ok?;
    assert forall k :: 0 <= k < |listings| ==> loaded.value[k] == listings[k];
  }

  // ---------------------------------------------------------------------------
  // send_notification

  /** The subject line `[<number>] <type> @ <adress>`; it ends with the
      address. */
  function Subject(l: Listing): (subject: string)
    ensures var tail := " @ " + l.adress;
      |tail| <= |subject| && subject[|subject| - |tail|..] == tail
  {
    var head := "[" + l.apartmentNumber + "] " + l.apartmentType;
    head + (" @ " + l.adress)
  }

  /** The text between a subject's opening bracket and its first closing
      bracket. */
  function BracketedPart(subject: string): Option<string> {
    if subject != [] && subject[0] == '[' && ']' in subject[1..] then Some(Before(subject[1..], ']')) else None
  }

  /** The subject names the apartment: it opens with the bracketed number,
      which can be read back unless the number itself holds a closing
      bracket, and the apartment type sits between that opening and the
      address tail. */
  lemma SubjectNamesApartment(l: Listing)
    ensures ']' !in l.apartmentNumber ==> BracketedPart(Subject(l)) == Some(l.apartmentNumber)
    ensures var head, tail := "[" + l.apartmentNumber + "] ", " @ " + l.adress;
      && |head| + |tail| <= |Subject(l)|
      && Subject(l)[..|head|] == head
      && Subject(l)[|head|..|Subject(l)| - |tail|] == l.apartmentType
  {
    var s := Subject(l);
    var head, tail := "[" + l.apartmentNumber + "] ", " @ " + l.adress;
    assert s == head + l.apartmentType + tail;
    assert s[..|head|] == head;
    assert s[|head|..|s| - |tail|] == l.apartmentType;
    var rest := " " + l.apartmentType + " @ " + l.adress;
    assert s == "[" + l.apartmentNumber + "]" + rest;
    assert s[1..] == l.apartmentNumber + [']'] + rest;
    if ']' !in l.apartmentNumber {
      BeforeJoin(l.apartmentNumber, ']', rest);
      assert s[1..][|l.apartmentNumber|] == ']';
    }
  }

  /** The subject of the mail sent when a run raises. */
  const ErrorSubject: string := "SSSB Notification ran into an error"

  // ---------------------------------------------------------------------------
  // main

  /** What a run does: mail each of the new relevant listings and store the
      snapshot, or report the error that a scrape raised by mail. */
  datatype RunResult =
    | Completed(notified: set<Listing>, snapshot: set<Listing>)
    | Reported(subject: string, error: ParseError)

  /** One run of `main` on the listing blocks of the page and the stored
      snapshot. */
  function RunOnce(page: seq<RawListing>, stored: Option<seq<FieldMap>>): (r: RunResult)
    ensures r.Reported? <==> exists k :: 0 <= k < |page| && !WellFormed(page[k])
    ensures r.Reported? ==> r.subject == ErrorSubject
    ensures r.Completed? ==>
      var current := CurrentListings(page).value;
      var previous := LoadPreviousListings(stored);
      && (forall l :: l in r.notified <==> l in current && l !in previous && IsRelevant(l))
      && (forall l :: l in r.snapshot <==> l in current || l in previous)
  {
    match CurrentListings(page)
    case Err(e) => Reported(ErrorSubject, e)
    case Ok(current) =>
      var d := ComputeDiff(current, LoadPreviousListings(stored));
      Completed(d.relevantListings, d.allListings)
  }

  /** Running again on the same page after storing the snapshot, in any
      order, mails nothing and stores the same snapshot. */
  lemma RerunNotifiesNothing(page: seq<RawListing>, stored: Option<seq<FieldMap>>, order: seq<Listing>)
    requires RunOnce(page, stored).Completed?
    requires ToSet(order) == RunOnce(page, stored).snapshot
    ensures RunOnce(page, Some(SaveListings(order))) == Completed({}, RunOnce(page, stored).snapshot)
  {
    var current := CurrentListings(page).value;
    LoadSaveRoundTrip(order);
    DiffIdempotent(current, LoadPreviousListings(stored), order);
  }
}
