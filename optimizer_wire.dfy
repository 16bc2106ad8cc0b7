/** The wire shapes exchanged with the external optimizer and returned to
    clients: the request DTOs (snake_case keys `auditor_id`, `store_id`,
    `availability_status`, `store_status`), the untrusted response envelope,
    whose every level may be null and whose entries may omit either id, and
    the plan projection. */
module OptimizerWire {
  import opened Wrappers

  datatype AuditorDto = AuditorDto(auditorId: int, latitude: real, longitude: real, availabilityStatus: string)

  datatype StoreDto = StoreDto(storeId: int, latitude: real, longitude: real, storeStatus: string)

  datatype AssignmentRequest = AssignmentRequest(auditors: seq<AuditorDto>, stores: seq<StoreDto>)

  /** One `data.stores` entry: the `store_id` and `assigned_auditor_id` keys,
      either of which may be missing or null. */
  datatype ProposalEntry = ProposalEntry(storeId: Option<int>, assignedAuditorId: Option<int>)

  /** `data`; its `stores` list may be null. */
  datatype ResponseData = ResponseData(stores: Option<seq<ProposalEntry>>)

  /** The response envelope; its `data` may be null. */
  datatype AssignmentResponse = AssignmentResponse(data: Option<ResponseData>)

  /** What one optimizer call gives back: a transport or protocol failure
      (thrown by the HTTP client), or a body, which may itself be null. */
  datatype OptimizerReply = TransportFailure | Reply(body: Option<AssignmentResponse>)

  /** `prediction.getData().getStores()` guarded against null at each level. */
  function StoreResults(prediction: Option<AssignmentResponse>): (r: Option<seq<ProposalEntry>>)
    ensures r.Some? <==> prediction.Some? && prediction.value.data.Some? && prediction.value.data.value.stores.Some?
  {
    match prediction
    case None => None
    case Some(resp) =>
      match resp.data
      case None => None
      case Some(d) => d.stores
  }

  /** The plan projection returned to callers (AuditPlanResponseDTO). */
  datatype AuditPlanView = AuditPlanView(
    auditId: int,
    auditStatus: string,
    auditPriority: string,
    auditorId: int,
    auditorName: Option<string>,
    storeId: int,
    storeName: Option<string>)
}
