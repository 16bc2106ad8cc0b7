/** The payload normalisation, validation and one-to-one greedy assignment of
    the Flask optimizer service (`streamlit/app.py`). Distances are a
    parameter: `distance(storeLat, storeLon, auditorLat, auditorLon)`. */
module FlaskOptimizer {
  import opened Wrappers
  import opened Seqs
  import opened PyValues
  import opened DistanceOrder

  // ---------------------------------------------------------------------
  // Status normalisation
  // ---------------------------------------------------------------------

  const AUDITOR_STATUS_MAP: map<string, string> := map[
    "AVAILABLE" := "Available",
    "ON_LEAVE" := "Unavailable",
    "UNAVAILABLE" := "Unavailable",
    "AVAILABLE_PART_TIME" := "Available"]

  const STORE_STATUS_MAP: map<string, string> := map[
    "OPEN" := "Open",
    "CLOSED" := "Closed",
    "OWNERSHIP_CHANGE" := "Closed",
    "UNDER_MAINTENANCE" := "Closed"]

  /** The characters `str.isspace()` accepts, which `str.strip()` removes. */
  predicate IsPySpace(c: char)
  {
    || ('\t' <= c <= '\r')
    || ('\U{1C}' <= c <= '\U{1F}')
    || c == ' ' || c == '\U{85}' || c == '\U{A0}' || c == '\U{1680}'
    || ('\U{2000}' <= c <= '\U{200A}')
    || c == '\U{2028}' || c == '\U{2029}' || c == '\U{202F}' || c == '\U{205F}' || c == '\U{3000}'
  }

  function StripStart(s: string): (r: string)
    ensures |r| <= |s| && r == s[|s| - |r|..]
    ensures forall i :: 0 <= i < |s| - |r| ==> IsPySpace(s[i])
    ensures r == [] || !IsPySpace(r[0])
    decreases |s|
  {
    if s != [] && IsPySpace(s[0]) then StripStart(s[1..]) else s
  }

  function StripEnd(s: string): (r: string)
    ensures |r| <= |s| && r == s[..|r|]
    ensures forall i :: |r| <= i < |s| ==> IsPySpace(s[i])
    ensures r == [] || !IsPySpace(r[|r| - 1])
    decreases |s|
  {
    if s != [] && IsPySpace(s[|s| - 1]) then StripEnd(s[..|s| - 1]) else s
  }

  /** `str.strip()`. */
  function Strip(s: string): string
  {
    StripEnd(StripStart(s))
  }

  /** A stripped string is left alone by a second strip. */
  lemma StripIdempotent(s: string)
    ensures Strip(Strip(s)) == Strip(s)
  {
    var t := StripStart(s);
    var r := StripEnd(t);
    if r != [] {
      assert r[0] == t[0];
      assert StripStart(r) == r;
    }
    assert StripEnd(r) == r;
  }

  /** The upper-case mapping of one character as far as it decides a lookup
      in the status maps: ASCII letters, the dotless i and the long s are
      the only characters whose upper case is a single ASCII letter. */
  function UpperChar(c: char): char
  {
    if 'a' <= c <= 'z' then (c as int - 32) as char
    else if c == '\U{131}' then 'I'
    else if c == '\U{17F}' then 'S'
    else c
  }

  /** `str.upper()`, character by character. */
  function Upper(s: string): (r: string)
    ensures |r| == |s|
    ensures forall i :: 0 <= i < |s| ==> r[i] == UpperChar(s[i])
  {
    seq(|s|, i requires 0 <= i < |s| => UpperChar(s[i]))
  }

  /** `AUDITOR_STATUS_MAP.get(s.upper(), s or "Unavailable")` for the
      stripped status `s`. */
  function LookupAuditorStatus(s: string): string
  {
    var key := Upper(s);
    if key in AUDITOR_STATUS_MAP then AUDITOR_STATUS_MAP[key]
    else if s != "" then s
    else "Unavailable"
  }

  /** `STORE_STATUS_MAP.get(s.upper(), s or "Closed")` for the stripped
      status `s`. */
  function LookupStoreStatus(s: string): string
  {
    var key := Upper(s);
    if key in STORE_STATUS_MAP then STORE_STATUS_MAP[key]
    else if s != "" then s
    else "Closed"
  }

  /** The auditor status as the payload adapter normalises it. */
  function NormalizeAuditorStatus(raw: string): string
  {
    LookupAuditorStatus(Strip(raw))
  }

  /** The store status as the payload adapter normalises it. */
  function NormalizeStoreStatus(raw: string): string
  {
    LookupStoreStatus(Strip(raw))
  }

  lemma UpperOfLabels()
    ensures Upper("Available") == "AVAILABLE"
    ensures Upper("Unavailable") == "UNAVAILABLE"
    ensures Upper("Open") == "OPEN"
    ensures Upper("Closed") == "CLOSED"
  {
  }

  /** A string with no white space at either end is its own strip. */
  lemma StripOfTrimmed(s: string)
    requires s == [] || (!IsPySpace(s[0]) && !IsPySpace(s[|s| - 1]))
    ensures Strip(s) == s
  {
    assert StripStart(s) == s;
  }

  lemma StripOfLabels()
    ensures Strip("Available") == "Available"
    ensures Strip("Unavailable") == "Unavailable"
    ensures Strip("Open") == "Open"
    ensures Strip("Closed") == "Closed"
  {
    LetterEnds("Available");
    LetterEnds("Unavailable");
    LetterEnds("Open");
    LetterEnds("Closed");
  }

  /** A string that starts and ends with an ASCII letter is its own strip. */
  lemma LetterEnds(s: string)
    requires s != [] && 'A' <= s[0] <= 'z' && 'A' <= s[|s| - 1] <= 'z'
    ensures Strip(s) == s
  {
    StripOfTrimmed(s);
  }

  /** What the auditor map holds: two keys give "Available", two give
      "Unavailable". */
  lemma AuditorMapEntries(key: string)
    ensures key in AUDITOR_STATUS_MAP <==>
      key == "AVAILABLE" || key == "AVAILABLE_PART_TIME" || key == "UNAVAILABLE" || key == "ON_LEAVE"
    ensures key in AUDITOR_STATUS_MAP ==>
      (AUDITOR_STATUS_MAP[key] == "Available" <==> key == "AVAILABLE" || key == "AVAILABLE_PART_TIME")
    ensures key in AUDITOR_STATUS_MAP ==>
      (AUDITOR_STATUS_MAP[key] == "Unavailable" <==> key == "UNAVAILABLE" || key == "ON_LEAVE")
  {
  }

  /** What the store map holds: one key gives "Open", three give "Closed". */
  lemma StoreMapEntries(key: string)
    ensures key in STORE_STATUS_MAP <==>
      key == "OPEN" || key == "CLOSED" || key == "OWNERSHIP_CHANGE" || key == "UNDER_MAINTENANCE"
    ensures key in STORE_STATUS_MAP ==> (STORE_STATUS_MAP[key] == "Open" <==> key == "OPEN")
    ensures key in STORE_STATUS_MAP ==>
      (STORE_STATUS_MAP[key] == "Closed" <==> key == "CLOSED" || key == "OWNERSHIP_CHANGE" || key == "UNDER_MAINTENANCE")
  {
  }

  /** The lookup on a stripped auditor status `s`. */
  lemma AuditorLookupCases(s: string)
    ensures LookupAuditorStatus(s) == "Available" <==> Upper(s) == "AVAILABLE" || Upper(s) == "AVAILABLE_PART_TIME"
    ensures LookupAuditorStatus(s) == "Unavailable" <==> Upper(s) == "UNAVAILABLE" || Upper(s) == "ON_LEAVE" || s == ""
    ensures Upper(s) !in AUDITOR_STATUS_MAP && s != "" ==> LookupAuditorStatus(s) == s
  {
    var key := Upper(s);
    AuditorMapEntries(key);
    if key !in AUDITOR_STATUS_MAP && s != "" {
      UpperOfLabels();
      assert s != "Available" && s != "Unavailable";
    }
  }

  /** The lookup on a stripped store status `s`. */
  lemma StoreLookupCases(s: string)
    ensures LookupStoreStatus(s) == "Open" <==> Upper(s) == "OPEN"
    ensures LookupStoreStatus(s) == "Closed"
      <==> (|| Upper(s) == "CLOSED" || Upper(s) == "OWNERSHIP_CHANGE" || Upper(s) == "UNDER_MAINTENANCE" || s == "")
    ensures Upper(s) !in STORE_STATUS_MAP && s != "" ==> LookupStoreStatus(s) == s
  {
    var key := Upper(s);
    StoreMapEntries(key);
    if key !in STORE_STATUS_MAP && s != "" {
      UpperOfLabels();
      assert s != "Open" && s != "Closed";
    }
  }

  /** An auditor status is "Available" exactly for AVAILABLE and
      AVAILABLE_PART_TIME in any letter case, "Unavailable" exactly for
      UNAVAILABLE, ON_LEAVE and a blank status, and any other status is kept
      as sent, without its surrounding white space. */
  lemma AuditorStatusCases(raw: string)
    ensures NormalizeAuditorStatus(raw) == "Available"
      <==> Upper(Strip(raw)) == "AVAILABLE" || Upper(Strip(raw)) == "AVAILABLE_PART_TIME"
    ensures NormalizeAuditorStatus(raw) == "Unavailable"
      <==> Upper(Strip(raw)) == "UNAVAILABLE" || Upper(Strip(raw)) == "ON_LEAVE" || Strip(raw) == ""
    ensures Upper(Strip(raw)) !in AUDITOR_STATUS_MAP && Strip(raw) != ""
      ==> NormalizeAuditorStatus(raw) == Strip(raw)
  {
    AuditorLookupCases(Strip(raw));
  }

  /** A store status is "Open" exactly for OPEN in any letter case, "Closed"
      exactly for CLOSED, OWNERSHIP_CHANGE, UNDER_MAINTENANCE and a blank
      status, and any other status is kept as sent, stripped. */
  lemma StoreStatusCases(raw: string)
    ensures NormalizeStoreStatus(raw) == "Open" <==> Upper(Strip(raw)) == "OPEN"
    ensures NormalizeStoreStatus(raw) == "Closed"
      <==> (|| Upper(Strip(raw)) == "CLOSED" || Upper(Strip(raw)) == "OWNERSHIP_CHANGE"
            || Upper(Strip(raw)) == "UNDER_MAINTENANCE" || Strip(raw) == "")
    ensures Upper(Strip(raw)) !in STORE_STATUS_MAP && Strip(raw) != ""
      ==> NormalizeStoreStatus(raw) == Strip(raw)
  {
    StoreLookupCases(Strip(raw));
  }

  lemma LabelsAreNormal()
    ensures NormalizeAuditorStatus("Available") == "Available"
    ensures NormalizeAuditorStatus("Unavailable") == "Unavailable"
    ensures NormalizeStoreStatus("Open") == "Open"
    ensures NormalizeStoreStatus("Closed") == "Closed"
  {
    UpperOfLabels();
    StripOfLabels();
    AuditorMapEntries("AVAILABLE");
    AuditorMapEntries("UNAVAILABLE");
    StoreMapEntries("OPEN");
    StoreMapEntries("CLOSED");
  }

  /** Normalising a normalised auditor status changes nothing. */
  lemma AuditorStatusIdempotent(raw: string)
    ensures NormalizeAuditorStatus(NormalizeAuditorStatus(raw)) == NormalizeAuditorStatus(raw)
  {
    var s := Strip(raw);
    if Upper(s) in AUDITOR_STATUS_MAP || s == "" {
      AuditorMapEntries(Upper(s));
      LabelsAreNormal();
    } else {
      StripIdempotent(raw);
    }
  }

  /** Normalising a normalised store status changes nothing. */
  lemma StoreStatusIdempotent(raw: string)
    ensures NormalizeStoreStatus(NormalizeStoreStatus(raw)) == NormalizeStoreStatus(raw)
  {
    var s := Strip(raw);
    if Upper(s) in STORE_STATUS_MAP || s == "" {
      StoreMapEntries(Upper(s));
      LabelsAreNormal();
    } else {
      StripIdempotent(raw);
    }
  }

  // ---------------------------------------------------------------------
  // Fallback identifiers
  // ---------------------------------------------------------------------

  datatype IdKind = AuditorIds | StoreIds

  const AUTO_ID_START_AUDITOR: int := 1000
  const AUTO_ID_START_STORE: int := 2000

  /** The module-level `_id_counters` dict: the last identifier handed out
      for each kind. */
  class IdCounters {
    var auditor: int
    var store: int

    function Counter(kind: IdKind): int
      reads this
    {
      if kind == AuditorIds then auditor else store
    }

    ghost predicate Valid()
      reads this
    {
      auditor >= AUTO_ID_START_AUDITOR && store >= AUTO_ID_START_STORE
    }

    constructor ()
      ensures Valid()
      ensures auditor == AUTO_ID_START_AUDITOR && store == AUTO_ID_START_STORE
    {
      auditor := AUTO_ID_START_AUDITOR;
      store := AUTO_ID_START_STORE;
    }

    /** `_next_id(kind)`: one more than the last identifier of that kind,
        so identifiers of one kind strictly increase from 1001 (auditors) or
        2001 (stores); the other kind's counter is untouched. */
    method NextId(kind: IdKind) returns (id: int)
      requires Valid()
      modifies this
      ensures Valid()
      ensures id == old(Counter(kind)) + 1 && Counter(kind) == id
      ensures kind == AuditorIds ==> id > AUTO_ID_START_AUDITOR && store == old(store)
      ensures kind == StoreIds ==> id > AUTO_ID_START_STORE && auditor == old(auditor)
    {
      if kind == AuditorIds {
        auditor := auditor + 1;
        id := auditor;
      } else {
        store := store + 1;
        id := store;
      }
    }
  }

  // ---------------------------------------------------------------------
  // Validators
  // ---------------------------------------------------------------------

  const AUDITOR_REQUIRED: seq<string> := ["auditor_id", "latitude", "longitude",
    "availability_status", "workloadCapacityHours", "currentAssignedHours"]
  const STORE_REQUIRED: seq<string> := ["store_id", "latitude", "longitude", "store_status"]

  /** Position of the first required field the dict lacks, if any. */
  function FirstMissing(required: seq<string>, d: map<string, Json>): (r: Option<nat>)
    ensures r.Some? ==> r.value < |required| && required[r.value] !in d
    ensures r.Some? ==> forall j :: 0 <= j < r.value ==> required[j] in d
    ensures r.None? <==> forall j :: 0 <= j < |required| ==> required[j] in d
    decreases |required|
  {
    if required == [] then None
    else if required[0] !in d then Some(0)
    else match FirstMissing(required[1..], d)
      case None => None
      case Some(i) => Some(i + 1)
  }

  predicate LatitudeOk(v: Json)
  {
    IsNumber(v) && -90.0 <= NumberValue(v) <= 90.0
  }

  predicate LongitudeOk(v: Json)
  {
    IsNumber(v) && -180.0 <= NumberValue(v) <= 180.0
  }

  /** What a valid auditor dict is, independent of the order of the checks. */
  predicate AuditorDictValid(a: map<string, Json>)
  {
    && (forall k :: k in AUDITOR_REQUIRED ==> k in a)
    && IsInt(a["auditor_id"])
    && LatitudeOk(a["latitude"])
    && LongitudeOk(a["longitude"])
    && a["availability_status"].JStr?
    && IsNumber(a["workloadCapacityHours"])
    && IsNumber(a["currentAssignedHours"])
  }

  /** What a valid store dict is. */
  predicate StoreDictValid(s: map<string, Json>)
  {
    && (forall k :: k in STORE_REQUIRED ==> k in s)
    && IsInt(s["store_id"])
    && LatitudeOk(s["latitude"])
    && LongitudeOk(s["longitude"])
    && s["store_status"].JStr?
  }

  /** `validate_auditor`: passes exactly the valid dicts; a dict lacking a
      required field is rejected naming the first one it lacks, in the order
      the fields are listed. */
  function ValidateAuditor(a: map<string, Json>): (r: Result<(), string>)
    ensures r.Ok? <==> AuditorDictValid(a)
    ensures forall i ::
      (0 <= i < |AUDITOR_REQUIRED| && AUDITOR_REQUIRED[i] !in a && (forall j :: 0 <= j < i ==> AUDITOR_REQUIRED[j] in a))
      ==> r == Err("Auditor missing required field: " + AUDITOR_REQUIRED[i])
  {
    match FirstMissing(AUDITOR_REQUIRED, a)
    case Some(i) => Err("Auditor missing required field: " + AUDITOR_REQUIRED[i])
    case None =>
      assert forall k :: k in AUDITOR_REQUIRED ==> k in a;
      if !IsInt(a["auditor_id"]) then Err("auditor_id must be an integer")
      else if !LatitudeOk(a["latitude"]) then Err("Invalid auditor latitude")
      else if !LongitudeOk(a["longitude"]) then Err("Invalid auditor longitude")
      else if !a["availability_status"].JStr? then Err("availability_status must be a string")
      else if !IsNumber(a["workloadCapacityHours"]) then Err("workloadCapacityHours must be numeric")
      else if !IsNumber(a["currentAssignedHours"]) then Err("currentAssignedHours must be numeric")
      else Ok(())
  }

  /** `validate_store`: passes exactly the valid dicts; a dict lacking a
      required field is rejected naming the first one it lacks. */
  function ValidateStore(s: map<string, Json>): (r: Result<(), string>)
    ensures r.Ok? <==> StoreDictValid(s)
    ensures forall i ::
      (0 <= i < |STORE_REQUIRED| && STORE_REQUIRED[i] !in s && (forall j :: 0 <= j < i ==> STORE_REQUIRED[j] in s))
      ==> r == Err("Store missing required field: " + STORE_REQUIRED[i])
  {
    match FirstMissing(STORE_REQUIRED, s)
    case Some(i) => Err("Store missing required field: " + STORE_REQUIRED[i])
    case None =>
      assert forall k :: k in STORE_REQUIRED ==> k in s;
      if !IsInt(s["store_id"]) then Err("store_id must be an integer")
      else if !LatitudeOk(s["latitude"]) then Err("Invalid store latitude")
      else if !LongitudeOk(s["longitude"]) then Err("Invalid store longitude")
      else if !s["store_status"].JStr? then Err("store_status must be a string")
      else Ok(())
  }
}
