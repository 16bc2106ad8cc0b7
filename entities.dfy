/** The three persisted entities of the assignment engine and their enums:
    Auditors, Store and AuditPlan. An AuditPlan refers to its auditor and its
    store by id (the JPA many-to-one references); the name of an enum constant
    is the string Jackson and `Enum.name()` produce. */
module Entities {
  import opened Wrappers

  datatype AvailabilityStatus = AVAILABLE | UNAVAILABLE | ON_LEAVE

  datatype StoreStatus = OPEN | CLOSED

  datatype AuditPriority = HIGH | MEDIUM | LOW

  datatype AuditStatus = PLANNED | IN_PROGRESS | DISRUPTED | REASSIGNED | COMPLETED

  /** A persisted auditor. Its name was checked non-blank when it was saved. */
  datatype Auditor = Auditor(
    id: int,
    name: string,
    homeLat: real,
    homeLon: real,
    workLoadCapacityHours: real,
    currentAssignedHours: real,
    availabilityStatus: AvailabilityStatus)

  /** A persisted store; name and address are nullable columns. */
  datatype Store = Store(
    id: int,
    name: Option<string>,
    address: Option<string>,
    locationLat: real,
    locationLon: real,
    storeStatus: StoreStatus)

  /** A persisted plan binding one auditor to one store. */
  datatype AuditPlan = AuditPlan(
    id: int,
    auditorId: int,
    storeId: int,
    auditPriority: AuditPriority,
    auditStatus: AuditStatus)

  function AuditorKey(a: Auditor): int { a.id }
  function StoreKey(s: Store): int { s.id }
  function PlanKey(p: AuditPlan): int { p.id }

  /** The status a plan gets when it is constructed without one. */
  const DEFAULT_AUDIT_STATUS: AuditStatus := PLANNED

  /** The status a store gets when it is constructed without one. */
  const DEFAULT_STORE_STATUS: StoreStatus := OPEN

  function AuditStatusName(s: AuditStatus): string
  {
    match s
    case PLANNED => "PLANNED"
    case IN_PROGRESS => "IN_PROGRESS"
    case DISRUPTED => "DISRUPTED"
    case REASSIGNED => "REASSIGNED"
    case COMPLETED => "COMPLETED"
  }

  /** `AuditStatus.valueOf`, total: an unknown name gives None. */
  function ParseAuditStatus(name: string): (r: Option<AuditStatus>)
    ensures r.Some? ==> AuditStatusName(r.value) == name
  {
    if name == "PLANNED" then Some(PLANNED)
    else if name == "IN_PROGRESS" then Some(IN_PROGRESS)
    else if name == "DISRUPTED" then Some(DISRUPTED)
    else if name == "REASSIGNED" then Some(REASSIGNED)
    else if name == "COMPLETED" then Some(COMPLETED)
    else None
  }

  function AuditPriorityName(p: AuditPriority): string
  {
    match p
    case HIGH => "HIGH"
    case MEDIUM => "MEDIUM"
    case LOW => "LOW"
  }

  /** `AuditPriority.valueOf`, total: an unknown name gives None. */
  function ParseAuditPriority(name: string): (r: Option<AuditPriority>)
    ensures r.Some? ==> AuditPriorityName(r.value) == name
  {
    if name == "HIGH" then Some(HIGH)
    else if name == "MEDIUM" then Some(MEDIUM)
    else if name == "LOW" then Some(LOW)
    else None
  }

  /** The names in a plan projection identify the enum constants: parsing a
      name gives back the constant it was produced from. */
  lemma NamesRoundTrip(s: AuditStatus, p: AuditPriority)
    ensures ParseAuditStatus(AuditStatusName(s)) == Some(s)
    ensures ParseAuditPriority(AuditPriorityName(p)) == Some(p)
  {
    match s {
      case PLANNED =>
      case IN_PROGRESS =>
        assert AuditStatusName(s) != "PLANNED" by { assert AuditStatusName(s)[0] != 'P'; }
      case DISRUPTED =>
        assert AuditStatusName(s) != "PLANNED" by { assert AuditStatusName(s)[0] != 'P'; }
        assert AuditStatusName(s) != "IN_PROGRESS" by { assert AuditStatusName(s)[0] != 'I'; }
      case REASSIGNED =>
        assert AuditStatusName(s) != "PLANNED" by { assert AuditStatusName(s)[0] != 'P'; }
        assert AuditStatusName(s) != "IN_PROGRESS" by { assert AuditStatusName(s)[0] != 'I'; }
        assert AuditStatusName(s) != "DISRUPTED" by { assert AuditStatusName(s)[0] != 'D'; }
      case COMPLETED =>
        assert AuditStatusName(s) != "PLANNED" by { assert AuditStatusName(s)[0] != 'P'; }
        assert AuditStatusName(s) != "IN_PROGRESS" by { assert AuditStatusName(s)[0] != 'I'; }
        assert AuditStatusName(s) != "DISRUPTED" by { assert AuditStatusName(s)[0] != 'D'; }
        assert AuditStatusName(s) != "REASSIGNED" by { assert AuditStatusName(s)[0] != 'R'; }
    }
    match p {
      case HIGH =>
      case MEDIUM =>
        assert AuditPriorityName(p) != "HIGH" by { assert AuditPriorityName(p)[0] != 'H'; }
      case LOW =>
        assert AuditPriorityName(p) != "HIGH" by { assert AuditPriorityName(p)[0] != 'H'; }
        assert AuditPriorityName(p) != "MEDIUM" by { assert AuditPriorityName(p)[0] != 'M'; }
    }
  }
}
