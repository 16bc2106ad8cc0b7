/** `validate_request_data` of the OpenAI optimizer (`streamlit/openapp.py`):
    the checks a request body must pass before any assignment is attempted.
    The body is whatever JSON the client sent, so each check is taken with
    Python's own meaning: `not data` is falsiness, `'auditors' in data` is a
    key, element or substring test depending on what `data` is, and indexing
    anything but a dict with a string raises `TypeError`. */
module RequestValidation {
  import opened Wrappers
  import opened PyValues

  const AUDITOR_FIELDS: seq<string> := ["auditor_id", "latitude", "longitude", "availability_status"]
  const STORE_FIELDS: seq<string> := ["store_id", "latitude", "longitude", "store_status"]

  /** `(True, None)`, `(False, message)`, or a `TypeError` escaping the
      function. */
  datatype Verdict = Accepted | Rejected(message: string) | Raises

  /** The outcome of testing required fields against items, in order. */
  datatype Scan = AllPresent | Missing(field: string) | ScanRaises

  /** `for field in fields: if field not in item: ...` for one item. */
  function ScanItem(fields: seq<string>, item: Json): Scan
    decreases |fields|
  {
    if fields == [] then AllPresent
    else match PyIn(fields[0], item)
      case None => ScanRaises
      case Some(present) => if !present then Missing(fields[0]) else ScanItem(fields[1..], item)
  }

  /** The same test over every item of a list, stopping at the first item
      that fails it. */
  function ScanItems(fields: seq<string>, items: seq<Json>): Scan
    decreases |items|
  {
    if items == [] then AllPresent
    else
      var s := ScanItem(fields, items[0]);
      if s != AllPresent then s else ScanItems(fields, items[1..])
  }

  /** What `validate_request_data(data)` does. */
  function RequestVerdict(data: Json): Verdict
  {
    if !Truthy(data) then Rejected("Request body is empty")
    else match PyIn("auditors", data)
      case None => Raises
      case Some(hasAuditors) =>
        if !hasAuditors then Rejected("Missing 'auditors' field in request")
        else match PyIn("stores", data)
          case None => Raises
          case Some(hasStores) =>
            if !hasStores then Rejected("Missing 'stores' field in request")
            // a list or a string holding both words gets this far, and then
            // cannot be indexed by a string
            else if !data.JObject? then Raises
            else
              var auditors := data.fields["auditors"];
              var stores := data.fields["stores"];
              if !auditors.JList? then Rejected("'auditors' must be a list")
              else if !stores.JList? then Rejected("'stores' must be a list")
              else if |auditors.items| == 0 then Rejected("Auditors list is empty")
              else if |stores.items| == 0 then Rejected("Stores list is empty")
              else match ScanItems(AUDITOR_FIELDS, auditors.items)
                case ScanRaises => Raises
                case Missing(f) => Rejected("Auditor missing required field: " + f)
                case AllPresent =>
                  match ScanItems(STORE_FIELDS, stores.items)
                  case ScanRaises => Raises
                  case Missing(f) => Rejected("Store missing required field: " + f)
                  case AllPresent => Accepted
  }

  // ---------------------------------------------------------------------
  // The declarative reading
  // ---------------------------------------------------------------------

  /** `item` contains every field of `fields`, in Python's sense of `in`. */
  predicate HasFields(fields: seq<string>, item: Json)
  {
    forall f :: f in fields ==> PyIn(f, item) == Some(true)
  }

  predicate AllHaveFields(fields: seq<string>, items: seq<Json>)
  {
    forall i :: 0 <= i < |items| ==> HasFields(fields, items[i])
  }

  /** A body the optimizer accepts: a dict with non-empty `auditors` and
      `stores` lists whose every entry carries the required fields. */
  predicate RequestWellFormed(data: Json)
  {
    && data.JObject?
    && "auditors" in data.fields && "stores" in data.fields
    && data.fields["auditors"].JList? && data.fields["stores"].JList?
    && data.fields["auditors"].items != [] && data.fields["stores"].items != []
    && AllHaveFields(AUDITOR_FIELDS, data.fields["auditors"].items)
    && AllHaveFields(STORE_FIELDS, data.fields["stores"].items)
  }

  /** Containers are the only values `in` can be applied to. */
  predicate IsContainer(v: Json)
  {
    v.JObject? || v.JList? || v.JStr?
  }

  /** One item passes exactly when it has every field; it fails on the first
      field it lacks, after every earlier field was found; it raises only
      when it is not a container. */
  lemma {:induction false} ScanItemMeaning(fields: seq<string>, item: Json)
    ensures ScanItem(fields, item) == AllPresent <==> HasFields(fields, item)
    ensures ScanItem(fields, item) == ScanRaises <==> fields != [] && !IsContainer(item)
    ensures ScanItem(fields, item).Missing? ==>
      exists j :: 0 <= j < |fields| && fields[j] == ScanItem(fields, item).field
        && PyIn(fields[j], item) == Some(false)
        && forall k :: 0 <= k < j ==> PyIn(fields[k], item) == Some(true)
    decreases |fields|
  {
    if fields != [] {
      ScanItemMeaning(fields[1..], item);
      var r := ScanItem(fields, item);
      if PyIn(fields[0], item) == Some(true) {
        assert fields == [fields[0]] + fields[1..];
        if r.Missing? {
          var j :| 0 <= j < |fields[1..]| && fields[1..][j] == r.field
            && PyIn(fields[1..][j], item) == Some(false)
            && forall k :: 0 <= k < j ==> PyIn(fields[1..][k], item) == Some(true);
          assert fields[j + 1] == r.field;
        }
      } else if PyIn(fields[0], item) == Some(false) {
        assert fields[0] in fields;
        assert !HasFields(fields, item);
      }
    }
  }

  /** Over a list: all items pass exactly when all have their fields, and a
      failure names the first failing item. */
  lemma {:induction false} ScanItemsMeaning(fields: seq<string>, items: seq<Json>)
    ensures ScanItems(fields, items) == AllPresent <==> AllHaveFields(fields, items)
    ensures ScanItems(fields, items) != AllPresent ==>
      exists i :: 0 <= i < |items| && ScanItem(fields, items[i]) == ScanItems(fields, items)
        && AllHaveFields(fields, items[..i])
    decreases |items|
  {
    if items != [] {
      ScanItemMeaning(fields, items[0]);
      ScanItemsMeaning(fields, items[1..]);
      var r := ScanItems(fields, items);
      if ScanItem(fields, items[0]) == AllPresent {
        assert AllHaveFields(fields, items) <==> AllHaveFields(fields, items[1..]) by {
          assert forall i :: 0 < i < |items| ==> items[i] == items[1..][i - 1];
        }
        if r != AllPresent {
          var i :| 0 <= i < |items[1..]| && ScanItem(fields, items[1..][i]) == r
            && AllHaveFields(fields, items[1..][..i]);
          assert items[1..][..i] == items[1..i + 1];
          assert AllHaveFields(fields, items[..i + 1]) by {
            assert items[..i + 1] == [items[0]] + items[1..][..i];
          }
        }
      } else {
        assert !HasFields(fields, items[0]);
        assert items[..0] == [];
      }
    }
  }

  /** The body is accepted exactly when it is well formed. */
  lemma VerdictAcceptedIff(data: Json)
    ensures RequestVerdict(data) == Accepted <==> RequestWellFormed(data)
  {
    if data.JObject? && "auditors" in data.fields && "stores" in data.fields
      && data.fields["auditors"].JList? && data.fields["stores"].JList?
    {
      ScanItemsMeaning(AUDITOR_FIELDS, data.fields["auditors"].items);
      ScanItemsMeaning(STORE_FIELDS, data.fields["stores"].items);
      if RequestWellFormed(data) {
        assert Truthy(data);
      }
    }
  }

  /** A `TypeError` escapes only for a body that is not a dict, or when some
      entry of the lists is neither a dict, a list nor a string. */
  lemma VerdictRaises(data: Json)
    requires RequestVerdict(data) == Raises
    ensures !data.JObject?
      || (exists i :: 0 <= i < |data.fields["auditors"].items| && !IsContainer(data.fields["auditors"].items[i]))
      || (exists i :: 0 <= i < |data.fields["stores"].items| && !IsContainer(data.fields["stores"].items[i]))
  {
    if data.JObject? {
      var au := data.fields["auditors"].items;
      var st := data.fields["stores"].items;
      ScanItemsMeaning(AUDITOR_FIELDS, au);
      if ScanItems(AUDITOR_FIELDS, au) == ScanRaises {
        var i :| 0 <= i < |au| && ScanItem(AUDITOR_FIELDS, au[i]) == ScanRaises && AllHaveFields(AUDITOR_FIELDS, au[..i]);
        ScanItemMeaning(AUDITOR_FIELDS, au[i]);
      } else {
        ScanItemsMeaning(STORE_FIELDS, st);
        var i :| 0 <= i < |st| && ScanItem(STORE_FIELDS, st[i]) == ScanRaises && AllHaveFields(STORE_FIELDS, st[..i]);
        ScanItemMeaning(STORE_FIELDS, st[i]);
      }
    }
  }

  // ---------------------------------------------------------------------
  // The procedure
  // ---------------------------------------------------------------------

  /** The two nested loops over items and required fields. */
  method FindMissingField(fields: seq<string>, items: seq<Json>) returns (s: Scan)
    ensures s == ScanItems(fields, items)
  {
    var i := 0;
    while i < |items|
      invariant 0 <= i <= |items|
      invariant ScanItems(fields, items) == ScanItems(fields, items[i..])
    {
      var item := items[i];
      var j := 0;
      while j < |fields|
        invariant 0 <= j <= |fields|
        invariant ScanItem(fields, item) == ScanItem(fields[j..], item)
      {
        var present := PyIn(fields[j], item);
        if present.None? {
          return ScanRaises;
        }
        if !present.value {
          return Missing(fields[j]);
        }
        assert fields[j..][1..] == fields[j + 1..];
        j := j + 1;
      }
      assert items[i..][1..] == items[i + 1..];
      i := i + 1;
    }
    return AllPresent;
  }

  /** `validate_request_data(data)`. */
  method ValidateRequestData(data: Json) returns (r: Verdict)
    ensures r == RequestVerdict(data)
    ensures r == Accepted <==> RequestWellFormed(data)
  {
    VerdictAcceptedIff(data);
    if !Truthy(data) {
      return Rejected("Request body is empty");
    }
    var hasAuditors := PyIn("auditors", data);
    if hasAuditors.None? {
      return Raises;
    }
    if !hasAuditors.value {
      return Rejected("Missing 'auditors' field in request");
    }
    var hasStores := PyIn("stores", data);
    if hasStores.None? {
      return Raises;
    }
    if !hasStores.value {
      return Rejected("Missing 'stores' field in request");
    }
    if !data.JObject? {
      return Raises;
    }
    var auditors := data.fields["auditors"];
    var stores := data.fields["stores"];
    if !auditors.JList? {
      return Rejected("'auditors' must be a list");
    }
    if !stores.JList? {
      return Rejected("'stores' must be a list");
    }
    if |auditors.items| == 0 {
      return Rejected("Auditors list is empty");
    }
    if |stores.items| == 0 {
      return Rejected("Stores list is empty");
    }
    var scan := FindMissingField(AUDITOR_FIELDS, auditors.items);
    if scan.ScanRaises? {
      return Raises;
    }
    if scan.Missing? {
      return Rejected("Auditor missing required field: " + scan.field);
    }
    scan := FindMissingField(STORE_FIELDS, stores.items);
    if scan.ScanRaises? {
      return Raises;
    }
    if scan.Missing? {
      return Rejected("Store missing required field: " + scan.field);
    }
    return Accepted;
  }
}
