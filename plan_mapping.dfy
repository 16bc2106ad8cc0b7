/** The adapter boundary of AuditPlanServiceImpl: entities become request
    DTOs with human-readable labels, and persisted plans become response
    projections. All of it is field copying onto fresh objects. */
module PlanMapping {
  import opened Wrappers
  import opened Seqs
  import opened Entities
  import opened Repository
  import opened OptimizerWire

  /** AVAILABLE is rendered "Available"; every other status "Unavailable". */
  function AvailabilityLabel(s: AvailabilityStatus): (r: string)
    ensures r == "Available" <==> s == AVAILABLE
    ensures r == "Available" || r == "Unavailable"
  {
    if s == AVAILABLE then "Available" else "Unavailable"
  }

  /** OPEN is rendered "Open"; every other status "Closed". */
  function StoreStatusLabel(s: StoreStatus): (r: string)
    ensures r == "Open" <==> s == OPEN
    ensures r == "Open" || r == "Closed"
  {
    if s == OPEN then "Open" else "Closed"
  }

  function ToAuditorDto(a: Auditor): AuditorDto
  {
    AuditorDto(a.id, a.homeLat, a.homeLon, AvailabilityLabel(a.availabilityStatus))
  }

  function ToStoreDto(s: Store): StoreDto
  {
    StoreDto(s.id, s.locationLat, s.locationLon, StoreStatusLabel(s.storeStatus))
  }

  /** `mapEntitiesToRequestDTO`: one DTO per entity, same order, same ids and
      coordinates, and a label that is "Available" ("Open") exactly for the
      AVAILABLE auditors (OPEN stores). */
  function MapEntitiesToRequestDTO(auditors: seq<Auditor>, stores: seq<Store>): (r: AssignmentRequest)
    ensures |r.auditors| == |auditors| && |r.stores| == |stores|
    ensures forall i :: 0 <= i < |auditors| ==>
      && r.auditors[i].auditorId == auditors[i].id
      && r.auditors[i].latitude == auditors[i].homeLat
      && r.auditors[i].longitude == auditors[i].homeLon
      && (r.auditors[i].availabilityStatus == "Available" <==> auditors[i].availabilityStatus == AVAILABLE)
    ensures forall i :: 0 <= i < |stores| ==>
      && r.stores[i].storeId == stores[i].id
      && r.stores[i].latitude == stores[i].locationLat
      && r.stores[i].longitude == stores[i].locationLon
      && (r.stores[i].storeStatus == "Open" <==> stores[i].storeStatus == OPEN)
  {
    AssignmentRequest(
      seq(|auditors|, i requires 0 <= i < |auditors| => ToAuditorDto(auditors[i])),
      seq(|stores|, i requires 0 <= i < |stores| => ToStoreDto(stores[i])))
  }

  /** `mapSingleStoreToRequestDTO`: exactly one store, labelled "Open" whatever
      its status, and every candidate labelled "Available" whatever its
      status, in candidate order. */
  function MapSingleStoreToRequestDTO(store: Store, auditors: seq<Auditor>): (r: AssignmentRequest)
    ensures r.stores == [StoreDto(store.id, store.locationLat, store.locationLon, "Open")]
    ensures |r.auditors| == |auditors|
    ensures forall i :: 0 <= i < |auditors| ==>
      r.auditors[i] == AuditorDto(auditors[i].id, auditors[i].homeLat, auditors[i].homeLon, "Available")
  {
    AssignmentRequest(
      seq(|auditors|, i requires 0 <= i < |auditors| =>
        AuditorDto(auditors[i].id, auditors[i].homeLat, auditors[i].homeLon, "Available")),
      [StoreDto(store.id, store.locationLat, store.locationLon, "Open")])
  }

  /** `convertToDTO`: the projection carries the plan's id, the names of its
      status and priority (which parse back to the same constants), and, when
      the references resolve, the referenced auditor's and store's ids and
      current names. */
  function ConvertToDTO(plan: AuditPlan, auditors: seq<Auditor>, stores: seq<Store>): (r: AuditPlanView)
    ensures r.auditId == plan.id
    ensures ParseAuditStatus(r.auditStatus) == Some(plan.auditStatus)
    ensures ParseAuditPriority(r.auditPriority) == Some(plan.auditPriority)
    ensures HasAuditor(auditors, plan.auditorId) ==> r.auditorId == plan.auditorId
    ensures HasStore(stores, plan.storeId) ==> r.storeId == plan.storeId
    ensures forall a :: a in auditors && a.id == plan.auditorId && KeysUnique(auditors, AuditorKey) ==> r.auditorName == Some(a.name)
    ensures forall s :: s in stores && s.id == plan.storeId && KeysUnique(stores, StoreKey) ==> r.storeName == s.name
  {
    NamesRoundTrip(plan.auditStatus, plan.auditPriority);
    var a := FindAuditorById(auditors, plan.auditorId);
    var s := FindStoreById(stores, plan.storeId);
    AuditPlanView(
      plan.id,
      AuditStatusName(plan.auditStatus),
      AuditPriorityName(plan.auditPriority),
      if a.Some? then a.value.id else 0,
      if a.Some? then Some(a.value.name) else None,
      if s.Some? then s.value.id else 0,
      if s.Some? then s.value.name else None)
  }

  /** The plan list projected in order (`stream().map(convertToDTO)`). */
  function ConvertAll(plans: seq<AuditPlan>, auditors: seq<Auditor>, stores: seq<Store>): (r: seq<AuditPlanView>)
    ensures |r| == |plans|
    ensures forall i :: 0 <= i < |plans| ==> r[i] == ConvertToDTO(plans[i], auditors, stores)
  {
    seq(|plans|, i requires 0 <= i < |plans| => ConvertToDTO(plans[i], auditors, stores))
  }

  /** The batch request built from the candidate queries labels every auditor
      "Available" and every store "Open". */
  lemma CandidateRequestLabels(st: State)
    ensures var r := MapEntitiesToRequestDTO(FindAvailableAndUnassignedAuditors(st), FindOpenAndUnassignedStores(st));
      && (forall i :: 0 <= i < |r.auditors| ==> r.auditors[i].availabilityStatus == "Available")
      && (forall i :: 0 <= i < |r.stores| ==> r.stores[i].storeStatus == "Open")
  {
    var auds := FindAvailableAndUnassignedAuditors(st);
    var sts := FindOpenAndUnassignedStores(st);
    var r := MapEntitiesToRequestDTO(auds, sts);
    forall i | 0 <= i < |r.auditors| ensures r.auditors[i].availabilityStatus == "Available" {
      assert auds[i] in auds;
    }
    forall i | 0 <= i < |r.stores| ensures r.stores[i].storeStatus == "Open" {
      assert sts[i] in sts;
    }
  }
}
