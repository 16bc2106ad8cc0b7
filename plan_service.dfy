/** AuditPlanServiceImpl: batch generation from the optimizer's proposal, the
    validation loop that saves plans, single-store reassignment (rebind the
    store's plan in place, or delete it), and the partial status update.

    Each operation is a method over the shared `Database`, whose contract
    ties the new table contents and the result to a specification function
    of the old contents; the properties are proved about those functions.
    The optimizer is a parameter from request to reply. */
module AuditPlanService {
  import opened Wrappers
  import opened Seqs
  import opened Entities
  import opened Repository
  import opened OptimizerWire
  import opened PlanMapping
  import opened PlanValidator
  import opened Persistence

  /** The exceptions the services raise, by kind. */
  datatype ServiceError =
    | NotFound                  // `orElseThrow` on a missing id
    | NonUniqueResult           // an `Optional` query that matched several rows
    | ExternalServiceFailure    // the optimizer call threw
    | InvalidArgument(message: string)

  /** What a service call leaves behind: the new table contents, the value
      returned or the exception raised, and the optimizer requests sent. */
  datatype Outcome<T> = Outcome(state: State, result: Result<T, ServiceError>, sent: seq<AssignmentRequest>)

  // ------------------------------------------------- processAndSaveAuditPlans

  /** Walks the proposal entries once, saving a plan for each accepted one. */
  method ProcessAndSaveAuditPlans(db: Database, prediction: Option<AssignmentResponse>)
    returns (saved: seq<AuditPlan>)
    modifies db
    ensures (db.Snapshot(), saved) == ProcessSpec(old(db.Snapshot()), prediction)
  {
    saved := [];
    var results := StoreResults(prediction);
    if results.None? {
      return;
    }
    var entries := results.value;
    ghost var st0 := db.Snapshot();
    ghost var accepted: seq<Pair> := [];
    var seen: set<int> := {};
    var i := 0;
    while i < |entries|
      invariant 0 <= i <= |entries|
      invariant db.Snapshot() == WithPlansSaved(st0, saved)
      invariant saved == PlansFrom(accepted, st0.nextPlanId) && |saved| == |accepted|
      invariant Validate(st0, entries, {}) == accepted + Validate(st0, entries[i..], seen)
    {
      ValidateStep(st0, entries, i, seen, accepted);
      assert db.auditors == st0.auditors && db.stores == st0.stores;
      var e := entries[i];
      if e.assignedAuditorId.Some? && e.storeId.Some? {
        var storeId, auditorId := e.storeId.value, e.assignedAuditorId.value;
        if auditorId !in seen {
          var auditor := FindAuditorById(db.auditors, auditorId);
          var store := FindStoreById(db.stores, storeId);
          if auditor.Some? && store.Some? {
            var plan := db.InsertPlan(auditor.value.id, store.value.id, MEDIUM, PLANNED);
            SaveOneMore(st0, saved, auditorId, storeId);
            PlansFromSnoc(saved, accepted, Pair(storeId, auditorId), plan, st0.nextPlanId);
            saved := saved + [plan];
            accepted := accepted + [Pair(storeId, auditorId)];
            seen := seen + {auditorId};
          }
        }
      }
      i := i + 1;
    }
    assert entries[|entries|..] == [];
    assert accepted + [] == accepted;
  }

  /** One step of the validation loop, at position `i`. */
  lemma ValidateStep(st: State, entries: seq<ProposalEntry>, i: int, seen: set<int>, accepted: seq<Pair>)
    requires 0 <= i < |entries|
    requires Validate(st, entries, {}) == accepted + Validate(st, entries[i..], seen)
    ensures var e := entries[i];
      if Complete(e) && e.assignedAuditorId.value !in seen && Resolves(st, e)
      then Validate(st, entries, {}) == (accepted + [PairOf(e)]) + Validate(st, entries[i + 1..], seen + {e.assignedAuditorId.value})
      else Validate(st, entries, {}) == accepted + Validate(st, entries[i + 1..], seen)
  {
    assert entries[i..][1..] == entries[i + 1..];
    assert entries[i..][0] == entries[i];
    var e := entries[i];
    if Complete(e) && e.assignedAuditorId.value !in seen && Resolves(st, e) {
      var rest := Validate(st, entries[i + 1..], seen + {e.assignedAuditorId.value});
      assert accepted + ([PairOf(e)] + rest) == (accepted + [PairOf(e)]) + rest;
    }
  }

  /** Saving one more plan after `saved` is appending it to `saved`. */
  lemma SaveOneMore(st: State, saved: seq<AuditPlan>, auditorId: int, storeId: int)
    ensures var plan := AuditPlan(st.nextPlanId + |saved|, auditorId, storeId, MEDIUM, PLANNED);
      WithPlanInserted(WithPlansSaved(st, saved), auditorId, storeId, MEDIUM, PLANNED)
        == (WithPlansSaved(st, saved + [plan]), plan)
  {
    var plan := AuditPlan(st.nextPlanId + |saved|, auditorId, storeId, MEDIUM, PLANNED);
    assert st.plans + saved + [plan] == st.plans + (saved + [plan]);
  }

  /** Accepting one more pair saves one more plan, with the next id. */
  lemma PlansFromSnoc(saved: seq<AuditPlan>, pairs: seq<Pair>, p: Pair, plan: AuditPlan, firstId: int)
    requires saved == PlansFrom(pairs, firstId)
    requires plan == AuditPlan(firstId + |pairs|, p.auditorId, p.storeId, MEDIUM, PLANNED)
    ensures saved + [plan] == PlansFrom(pairs + [p], firstId)
  {
  }

  // ------------------------------------------------- generateAndSaveAuditPlan

  /** No AVAILABLE unassigned auditor, or no OPEN unassigned store. */
  predicate NothingToPlan(st: State)
  {
    |FindAvailableAndUnassignedAuditors(st)| == 0 || |FindOpenAndUnassignedStores(st)| == 0
  }

  /** `generateAndSaveAuditPlan`: with candidates on both sides, one request
      built from them goes to the optimizer, and its answer is processed;
      the saved plans are returned as projections. */
  function GenerateSpec(st: State, optimizer: AssignmentRequest -> OptimizerReply): (r: Outcome<seq<AuditPlanView>>)
  {
    if NothingToPlan(st) then Outcome(st, Ok([]), [])
    else
      var req := MapEntitiesToRequestDTO(FindAvailableAndUnassignedAuditors(st), FindOpenAndUnassignedStores(st));
      match optimizer(req)
      case TransportFailure => Outcome(st, Err(ExternalServiceFailure), [req])
      case Reply(body) =>
        var (st', saved) := ProcessSpec(st, body);
        Outcome(st', Ok(ConvertAll(saved, st'.auditors, st'.stores)), [req])
  }

  method GenerateAndSaveAuditPlan(db: Database, optimizer: AssignmentRequest -> OptimizerReply)
    returns (result: Result<seq<AuditPlanView>, ServiceError>, sent: seq<AssignmentRequest>)
    modifies db
    ensures var r := GenerateSpec(old(db.Snapshot()), optimizer);
      db.Snapshot() == r.state && result == r.result && sent == r.sent
  {
    var auditors := FindAvailableAndUnassignedAuditors(db.Snapshot());
    var stores := FindOpenAndUnassignedStores(db.Snapshot());
    if |stores| == 0 || |auditors| == 0 {
      return Ok([]), [];
    }
    var request := MapEntitiesToRequestDTO(auditors, stores);
    sent := [request];
    var reply := optimizer(request);
    if reply.TransportFailure? {
      return Err(ExternalServiceFailure), sent;
    }
    var saved := ProcessAndSaveAuditPlans(db, reply.body);
    return Ok(ConvertAll(saved, db.auditors, db.stores)), sent;
  }

  /** Generation keeps the tables well formed and only appends PLANNED /
      MEDIUM plans; it sends at most one request, labelling every auditor
      "Available" and every store "Open"; with nothing to plan, or a null
      answer, it returns an empty list and saves nothing, and with nothing to
      plan it sends nothing; a failed call changes nothing. */
  lemma GenerateSpecProperties(st: State, optimizer: AssignmentRequest -> OptimizerReply)
    requires WellFormed(st)
    ensures var r := GenerateSpec(st, optimizer);
      && WellFormed(r.state)
      && r.state.auditors == st.auditors && r.state.stores == st.stores
      && st.plans <= r.state.plans
      && (forall k :: |st.plans| <= k < |r.state.plans| ==>
            r.state.plans[k].auditStatus == PLANNED && r.state.plans[k].auditPriority == MEDIUM)
      && (r.result.Ok? ==> |r.result.value| == |r.state.plans| - |st.plans|)
      && (r.result.Err? ==> r.state == st && r.result.error == ExternalServiceFailure)
      && |r.sent| <= 1
      && (forall q :: q in r.sent ==>
            (forall i :: 0 <= i < |q.auditors| ==> q.auditors[i].availabilityStatus == "Available")
            && (forall i :: 0 <= i < |q.stores| ==> q.stores[i].storeStatus == "Open"))
      && (NothingToPlan(st) ==> r == Outcome(st, Ok([]), []))
      && (!NothingToPlan(st) ==> |r.sent| == 1)
  {
    if !NothingToPlan(st) {
      CandidateRequestLabels(st);
      var req := MapEntitiesToRequestDTO(FindAvailableAndUnassignedAuditors(st), FindOpenAndUnassignedStores(st));
      if optimizer(req).Reply? {
        ProcessSpecProperties(st, optimizer(req).body);
      }
    }
  }

  /** A null answer at any level (null body, null `data`, null `stores`)
      leaves the tables as they were and returns an empty list. */
  lemma GenerateNullAnswerSavesNothing(st: State, optimizer: AssignmentRequest -> OptimizerReply)
    requires !NothingToPlan(st)
    requires var req := MapEntitiesToRequestDTO(FindAvailableAndUnassignedAuditors(st), FindOpenAndUnassignedStores(st));
      optimizer(req).Reply? && StoreResults(optimizer(req).body).None?
    ensures GenerateSpec(st, optimizer).state == st
    ensures GenerateSpec(st, optimizer).result == Ok([])
  {
  }

  /** The validator bounds auditors, not stores: one answer naming an
      already planned store makes that store carry two plans. */
  lemma ProcessMayDoubleBookAStore()
    ensures var st := State(
        [Auditor(1, "A", 0.0, 0.0, 40.0, 0.0, AVAILABLE), Auditor(2, "B", 0.0, 0.0, 40.0, 0.0, AVAILABLE)],
        [Store(7, None, None, 0.0, 0.0, OPEN)],
        [AuditPlan(1, 1, 7, MEDIUM, PLANNED)], 3, 8, 2);
      var prediction := Some(AssignmentResponse(Some(ResponseData(Some([ProposalEntry(Some(7), Some(2))])))));
      && WellFormed(st) && AtMostOnePlanPerStore(st.plans)
      && !AtMostOnePlanPerStore(ProcessSpec(st, prediction).0.plans)
  {
    var st := State(
        [Auditor(1, "A", 0.0, 0.0, 40.0, 0.0, AVAILABLE), Auditor(2, "B", 0.0, 0.0, 40.0, 0.0, AVAILABLE)],
        [Store(7, None, None, 0.0, 0.0, OPEN)],
        [AuditPlan(1, 1, 7, MEDIUM, PLANNED)], 3, 8, 2);
    var entries := [ProposalEntry(Some(7), Some(2))];
    assert st.auditors[0].id == 1 && st.auditors[1].id == 2 && st.stores[0].id == 7;
    assert Resolves(st, entries[0]);
    assert entries[1..] == [];
    var plans' := ProcessSpec(st, Some(AssignmentResponse(Some(ResponseData(Some(entries)))))).0.plans;
    assert plans'[0].storeId == plans'[1].storeId;
  }

  // ------------------------------------------------------------- reassignStore

  /** `findByStore(store).ifPresent(delete)`; several plans for the store make
      the lookup throw. Returns null. */
  function UnassignSpec(st: State, storeId: int, sent: seq<AssignmentRequest>): (r: Outcome<Option<AuditPlan>>)
  {
    match FindByStore(st.plans, storeId)
    case NoPlan => Outcome(st, Ok(None), sent)
    case OnePlan(p) => Outcome(WithPlanDeleted(st, p.id), Ok(None), sent)
    case NotUnique => Outcome(st, Err(NonUniqueResult), sent)
  }

  /** `assigned_auditor_id` of the FIRST entry of the answer, whatever store
      that entry names, when the answer, `data`, the list and the key are all
      present. */
  function FirstProposedAuditor(body: Option<AssignmentResponse>): (r: Option<int>)
    ensures r.Some? <==> StoreResults(body).Some? && |StoreResults(body).value| > 0
                         && StoreResults(body).value[0].assignedAuditorId.Some?
    ensures r.Some? ==> r == StoreResults(body).value[0].assignedAuditorId
  {
    match StoreResults(body)
    case None => None
    case Some(entries) => if |entries| == 0 then None else entries[0].assignedAuditorId
  }

  /** `reassignStore(store, candidates)`: no candidates, or no usable answer,
      deletes the store's plan; an answer naming an existing auditor rebinds
      the store's plan to that auditor and returns it. */
  function ReassignSpec(st: State, store: Store, candidates: seq<Auditor>,
                        optimizer: AssignmentRequest -> OptimizerReply): (r: Outcome<Option<AuditPlan>>)
  {
    if |candidates| == 0 then UnassignSpec(st, store.id, [])
    else
      var req := MapSingleStoreToRequestDTO(store, candidates);
      match optimizer(req)
      case TransportFailure => Outcome(st, Err(ExternalServiceFailure), [req])
      case Reply(body) =>
        var proposed := FirstProposedAuditor(body);
        if proposed.Some? && HasAuditor(st.auditors, proposed.value) then
          match FindByStore(st.plans, store.id)
          case OnePlan(p) =>
            var rebound := p.(auditorId := proposed.value);
            Outcome(WithPlanReplaced(st, rebound), Ok(Some(rebound)), [req])
          case NoPlan => Outcome(st, Ok(None), [req])
          case NotUnique => Outcome(st, Err(NonUniqueResult), [req])
        else UnassignSpec(st, store.id, [req])
  }

  method ReassignStore(db: Database, store: Store, candidates: seq<Auditor>,
                       optimizer: AssignmentRequest -> OptimizerReply)
    returns (result: Result<Option<AuditPlan>, ServiceError>, sent: seq<AssignmentRequest>)
    modifies db
    ensures var r := ReassignSpec(old(db.Snapshot()), store, candidates, optimizer);
      db.Snapshot() == r.state && result == r.result && sent == r.sent
  {
    sent := [];
    if |candidates| == 0 {
      result := Unassign(db, store.id);
      return;
    }
    var request := MapSingleStoreToRequestDTO(store, candidates);
    sent := [request];
    var reply := optimizer(request);
    if reply.TransportFailure? {
      return Err(ExternalServiceFailure), sent;
    }
    var proposed := FirstProposedAuditor(reply.body);
    if proposed.Some? {
      var auditor := FindAuditorById(db.auditors, proposed.value);
      if auditor.Some? {
        var existing := FindByStore(db.plans, store.id);
        if existing.NotUnique? {
          return Err(NonUniqueResult), sent;
        }
        if existing.OnePlan? {
          var rebound := existing.plan.(auditorId := auditor.value.id);
          db.UpdatePlan(rebound);
          return Ok(Some(rebound)), sent;
        }
      }
    }
    result := Unassign(db, store.id);
  }

  method Unassign(db: Database, storeId: int) returns (result: Result<Option<AuditPlan>, ServiceError>)
    modifies db
    ensures var r := UnassignSpec(old(db.Snapshot()), storeId, []);
      db.Snapshot() == r.state && result == r.result
  {
    var existing := FindByStore(db.plans, storeId);
    match existing
    case NoPlan => result := Ok(None);
    case OnePlan(p) =>
      db.DeletePlan(p.id);
      result := Ok(None);
    case NotUnique => result := Err(NonUniqueResult);
  }

  /** The plans of `plans` other than the one with id `q.id`, which becomes `q`. */
  predicate ReboundIn(before: seq<AuditPlan>, after: seq<AuditPlan>, q: AuditPlan)
  {
    |after| == |before| &&
    forall i :: 0 <= i < |before| ==> after[i] == (if before[i].id == q.id then q else before[i])
  }

  /** A reassignment never touches the auditor and store tables, and changes
      nothing when it raises (only a failed call or a non-unique plan lookup
      raise). It sends no request without candidates and otherwise exactly
      one: the single-store request. */
  lemma ReassignFrame(st: State, store: Store, candidates: seq<Auditor>,
                      optimizer: AssignmentRequest -> OptimizerReply)
    ensures var r := ReassignSpec(st, store, candidates, optimizer);
      && r.state.auditors == st.auditors && r.state.stores == st.stores
      && (r.result.Err? ==> r.state == st && r.result.error in {NonUniqueResult, ExternalServiceFailure})
      && (|candidates| == 0 ==> r.sent == [])
      && (|candidates| > 0 ==> r.sent == [MapSingleStoreToRequestDTO(store, candidates)])
  {
  }

  /** A reassignment keeps the tables well formed: a rebound plan names an
      existing auditor. */
  lemma ReassignKeepsWellFormed(st: State, store: Store, candidates: seq<Auditor>,
                                optimizer: AssignmentRequest -> OptimizerReply)
    requires WellFormed(st)
    ensures WellFormed(ReassignSpec(st, store, candidates, optimizer).state)
  {
  }

  /** When a plan is returned, the store had exactly that plan, which keeps
      its id, store, status and priority, is now bound to an existing auditor,
      and is the only plan that changed; that auditor is the one the first
      entry of the optimizer's answer to the single-store request proposed. */
  lemma ReassignRebinds(st: State, store: Store, candidates: seq<Auditor>,
                        optimizer: AssignmentRequest -> OptimizerReply)
    requires WellFormed(st)
    ensures var r := ReassignSpec(st, store, candidates, optimizer);
      r.result.Ok? && r.result.value.Some? ==>
        var q := r.result.value.value;
        && (exists p :: FindByStore(st.plans, store.id) == OnePlan(p) && q == p.(auditorId := q.auditorId))
        && HasAuditor(st.auditors, q.auditorId)
        && ReboundIn(st.plans, r.state.plans, q)
        && |candidates| > 0
        && optimizer(MapSingleStoreToRequestDTO(store, candidates)).Reply?
        && FirstProposedAuditor(optimizer(MapSingleStoreToRequestDTO(store, candidates)).body) == Some(q.auditorId)
  {
    var r := ReassignSpec(st, store, candidates, optimizer);
    if r.result.Ok? && r.result.value.Some? {
      assert FindByStore(st.plans, store.id).OnePlan?;
    }
  }

  /** An answer that proposes nobody (no entries, or a first entry without
      `assigned_auditor_id`), or proposes an id `findById` does not find,
      takes the unassign path: the store's plan, if it has one, is deleted
      and null returned, after the one request. */
  lemma ReassignUnusableAnswerUnassigns(st: State, store: Store, candidates: seq<Auditor>,
                                        optimizer: AssignmentRequest -> OptimizerReply)
    requires |candidates| > 0
    requires optimizer(MapSingleStoreToRequestDTO(store, candidates)).Reply?
    requires var proposed := FirstProposedAuditor(optimizer(MapSingleStoreToRequestDTO(store, candidates)).body);
      proposed.None? || !HasAuditor(st.auditors, proposed.value)
    ensures ReassignSpec(st, store, candidates, optimizer)
              == UnassignSpec(st, store.id, [MapSingleStoreToRequestDTO(store, candidates)])
  {
  }

  /** When null is returned, the store has no plan left and every plan of
      another store is kept. */
  lemma ReassignUnassigns(st: State, store: Store, candidates: seq<Auditor>,
                          optimizer: AssignmentRequest -> OptimizerReply)
    requires KeysUnique(st.plans, PlanKey)
    ensures var r := ReassignSpec(st, store, candidates, optimizer);
      r.result.Ok? && r.result.value.None? ==>
        forall x :: x in r.state.plans <==> x in st.plans && x.storeId != store.id
  {
    var r := ReassignSpec(st, store, candidates, optimizer);
    if r.result.Ok? && r.result.value.None? {
      match FindByStore(st.plans, store.id)
      case NoPlan =>
      case OnePlan(p) =>
        forall x ensures x in r.state.plans <==> x in st.plans && x.storeId != store.id {
          if x in st.plans && x.id == p.id {
            var i :| 0 <= i < |st.plans| && st.plans[i] == x;
            var j :| 0 <= j < |st.plans| && st.plans[j] == p;
            assert i == j;
          }
        }
      case NotUnique =>
    }
  }

  /** With no candidates the store's plan is deleted without a call, and
      null is returned, whenever the store had at most one plan. */
  lemma ReassignWithoutCandidatesUnassigns(st: State, store: Store, optimizer: AssignmentRequest -> OptimizerReply)
    requires KeysUnique(st.plans, PlanKey) && AtMostOnePlanPerStore(st.plans)
    ensures var r := ReassignSpec(st, store, [], optimizer);
      && r.result == Ok(None) && r.sent == []
      && (forall x :: x in r.state.plans <==> x in st.plans && x.storeId != store.id)
      && r.state.auditors == st.auditors && r.state.stores == st.stores
      && KeysUnique(r.state.plans, PlanKey) && AtMostOnePlanPerStore(r.state.plans)
  {
    ReassignUnassigns(st, store, [], optimizer);
  }

  /** The answer is trusted for any existing auditor: the store is rebound to
      auditor 3, who was not among the candidates and is ON_LEAVE. */
  lemma ReassignAcceptsAuditorOutsidePool()
    ensures var st := State(
        [Auditor(1, "A", 0.0, 0.0, 40.0, 0.0, AVAILABLE), Auditor(2, "B", 0.0, 0.0, 40.0, 0.0, AVAILABLE),
         Auditor(3, "C", 0.0, 0.0, 40.0, 0.0, ON_LEAVE)],
        [Store(7, None, None, 0.0, 0.0, OPEN)],
        [AuditPlan(1, 1, 7, HIGH, IN_PROGRESS)], 4, 8, 2);
      var optimizer := (q: AssignmentRequest) =>
        Reply(Some(AssignmentResponse(Some(ResponseData(Some([ProposalEntry(Some(7), Some(3))]))))));
      var r := ReassignSpec(st, st.stores[0], [st.auditors[1]], optimizer);
      r.result == Ok(Some(AuditPlan(1, 3, 7, HIGH, IN_PROGRESS)))
  {
    var st := State(
        [Auditor(1, "A", 0.0, 0.0, 40.0, 0.0, AVAILABLE), Auditor(2, "B", 0.0, 0.0, 40.0, 0.0, AVAILABLE),
         Auditor(3, "C", 0.0, 0.0, 40.0, 0.0, ON_LEAVE)],
        [Store(7, None, None, 0.0, 0.0, OPEN)],
        [AuditPlan(1, 1, 7, HIGH, IN_PROGRESS)], 4, 8, 2);
    assert st.auditors[2].id == 3;
    assert HasAuditor(st.auditors, 3);
    assert st.plans[0].storeId == 7;
  }

  // ----------------------------------------------------- updateAuditPlanStatus

  /** `updateAuditPlanStatus(id, dto)`: an unknown id raises; otherwise the
      non-null fields of the update overwrite the plan's status and priority
      and the saved plan's projection is returned. */
  function UpdatePlanStatusSpec(st: State, planId: int, status: Option<AuditStatus>, priority: Option<AuditPriority>)
    : (r: (State, Result<AuditPlanView, ServiceError>))
  {
    match FindPlanById(st.plans, planId)
    case None => (st, Err(NotFound))
    case Some(p) =>
      var updated := p.(auditStatus := if status.Some? then status.value else p.auditStatus,
                        auditPriority := if priority.Some? then priority.value else p.auditPriority);
      var st' := WithPlanReplaced(st, updated);
      (st', Ok(ConvertToDTO(updated, st'.auditors, st'.stores)))
  }

  method UpdateAuditPlanStatus(db: Database, planId: int, status: Option<AuditStatus>, priority: Option<AuditPriority>)
    returns (result: Result<AuditPlanView, ServiceError>)
    modifies db
    ensures (db.Snapshot(), result) == UpdatePlanStatusSpec(old(db.Snapshot()), planId, status, priority)
  {
    var existing := FindPlanById(db.plans, planId);
    if existing.None? {
      return Err(NotFound);
    }
    var plan := existing.value;
    if status.Some? {
      plan := plan.(auditStatus := status.value);
    }
    if priority.Some? {
      plan := plan.(auditPriority := priority.value);
    }
    db.UpdatePlan(plan);
    result := Ok(ConvertToDTO(plan, db.auditors, db.stores));
  }

  /** An unknown id raises NotFound and changes nothing. Otherwise only that
      plan changes, and only in the fields the update supplies; the result
      projects it, with the new status and priority. */
  lemma UpdatePlanStatusProperties(st: State, planId: int, status: Option<AuditStatus>, priority: Option<AuditPriority>)
    requires WellFormed(st)
    ensures var (st', r) := UpdatePlanStatusSpec(st, planId, status, priority);
      && WellFormed(st')
      && (r.Err? <==> !HasKey(st.plans, PlanKey, planId))
      && (r.Err? ==> st' == st && r.error == NotFound)
      && (r.Ok? ==>
            && st'.auditors == st.auditors && st'.stores == st.stores && |st'.plans| == |st.plans|
            && r.value.auditId == planId
            && (forall i :: 0 <= i < |st.plans| ==>
                  var p, p' := st.plans[i], st'.plans[i];
                  if p.id != planId then p' == p
                  else
                    && p'.id == p.id && p'.auditorId == p.auditorId && p'.storeId == p.storeId
                    && p'.auditStatus == (if status.Some? then status.value else p.auditStatus)
                    && p'.auditPriority == (if priority.Some? then priority.value else p.auditPriority)
                    && ParseAuditStatus(r.value.auditStatus) == Some(p'.auditStatus)
                    && ParseAuditPriority(r.value.auditPriority) == Some(p'.auditPriority)
                    && r.value == ConvertToDTO(p', st.auditors, st.stores)
                    && r.value.auditorId == p.auditorId && r.value.storeId == p.storeId))
  {
    var (st', r) := UpdatePlanStatusSpec(st, planId, status, priority);
    if r.Ok? {
      var p := FindPlanById(st.plans, planId).value;
      forall i | 0 <= i < |st.plans| && st.plans[i].id == planId ensures st.plans[i] == p {
        var j :| 0 <= j < |st.plans| && st.plans[j] == p;
        assert i == j;
      }
    }
  }
}
