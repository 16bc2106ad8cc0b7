/** Where the Spring service and the Flask optimizer meet: the labels the
    service sends for its statuses, and the enum names it stores, are read
    back by the optimizer's status normalisation as the same status, and an
    auditor the service calls AVAILABLE is exactly one the optimizers treat
    as Available. */
module LabelBridge {
  import opened Entities
  import opened PlanMapping
  import opened FlaskOptimizer

  /** The name of an availability status as the database stores it. */
  function AvailabilityName(s: AvailabilityStatus): string
  {
    match s
    case AVAILABLE => "AVAILABLE"
    case UNAVAILABLE => "UNAVAILABLE"
    case ON_LEAVE => "ON_LEAVE"
  }

  function StoreStatusName(s: StoreStatus): string
  {
    match s
    case OPEN => "OPEN"
    case CLOSED => "CLOSED"
  }

  /** The labels the service sends come through normalisation unchanged, so
      an auditor the service calls AVAILABLE, and only such an auditor, is
      "Available" to the optimizer; likewise for OPEN stores. */
  lemma SentLabelsAreKept(a: AvailabilityStatus, s: StoreStatus)
    ensures NormalizeAuditorStatus(AvailabilityLabel(a)) == AvailabilityLabel(a)
    ensures NormalizeAuditorStatus(AvailabilityLabel(a)) == "Available" <==> a == AVAILABLE
    ensures NormalizeStoreStatus(StoreStatusLabel(s)) == StoreStatusLabel(s)
    ensures NormalizeStoreStatus(StoreStatusLabel(s)) == "Open" <==> s == OPEN
  {
    LabelsAreNormal();
  }

  /** A string of capitals and underscores is its own strip and its own
      upper case. */
  lemma KeyOfName(n: string)
    requires n != [] && forall i :: 0 <= i < |n| ==> 'A' <= n[i] <= 'Z' || n[i] == '_'
    ensures Strip(n) == n && Upper(n) == n
  {
    StripOfTrimmed(n);
    assert Upper(n) == n;
  }

  /** An availability status sent by its enum name is normalised to the
      label the service itself would have sent for it. */
  lemma AvailabilityNameNormalises(a: AvailabilityStatus)
    ensures NormalizeAuditorStatus(AvailabilityName(a)) == AvailabilityLabel(a)
  {
    var n := AvailabilityName(a);
    KeyOfName(n);
    AuditorMapEntries(n);
  }

  /** The same for a store status. */
  lemma StoreStatusNameNormalises(s: StoreStatus)
    ensures NormalizeStoreStatus(StoreStatusName(s)) == StoreStatusLabel(s)
  {
    var n := StoreStatusName(s);
    KeyOfName(n);
    StoreMapEntries(n);
  }
}
