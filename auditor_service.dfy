/** AuditorServiceImpl: saving a new auditor (status defaulted, name
    required) and the availability update whose AVAILABLE -> not AVAILABLE
    edge triggers one `reassignStore` per plan of the auditor, all with the
    same candidate pool taken once before the loop. */
module AuditorService {
  import opened Wrappers
  import opened Seqs
  import opened Entities
  import opened Repository
  import opened OptimizerWire
  import opened PlanMapping
  import opened AuditPlanService
  import opened Persistence

  // ------------------------------------------------------------ saveAuditors

  /** `String.trim()` drops leading code units up to and including ' '. */
  function TrimStart(s: string): (r: string)
    ensures |r| <= |s|
    ensures r == s[|s| - |r|..]
    ensures forall i :: 0 <= i < |s| - |r| ==> s[i] <= ' '
    ensures |r| > 0 ==> r[0] > ' '
    ensures |r| == 0 <==> forall i :: 0 <= i < |s| ==> s[i] <= ' '
    decreases |s|
  {
    if |s| > 0 && s[0] <= ' ' then TrimStart(s[1..]) else s
  }

  /** ... and trailing ones. */
  function TrimEnd(s: string): (r: string)
    ensures |r| <= |s|
    ensures r == s[..|r|]
    ensures forall i :: |r| <= i < |s| ==> s[i] <= ' '
    ensures |r| > 0 ==> r[|r| - 1] > ' '
    ensures |s| > 0 && s[0] > ' ' ==> |r| > 0
    decreases |s|
  {
    if |s| > 0 && s[|s| - 1] <= ' ' then TrimEnd(s[..|s| - 1]) else s
  }

  function Trim(s: string): string
  {
    TrimEnd(TrimStart(s))
  }

  /** `name.trim().isEmpty()` holds exactly for names made only of control
      characters and spaces (including the empty name). */
  lemma TrimEmptyIffBlank(s: string)
    ensures |Trim(s)| == 0 <==> forall i :: 0 <= i < |s| ==> s[i] <= ' '
  {
  }

  /** An auditor as submitted for creation; status and name may be null. */
  datatype AuditorDraft = AuditorDraft(
    name: Option<string>,
    homeLat: real,
    homeLon: real,
    workLoadCapacityHours: real,
    currentAssignedHours: real,
    availabilityStatus: Option<AvailabilityStatus>)

  const NAME_REQUIRED_MESSAGE := "Auditor name must be provided."

  /** `saveAuditors(draft)`: a null status becomes AVAILABLE; a null or blank
      name is rejected before anything is saved. */
  function SaveAuditorSpec(st: State, draft: AuditorDraft): (r: (State, Result<Auditor, ServiceError>))
  {
    var status := if draft.availabilityStatus.Some? then draft.availabilityStatus.value else AVAILABLE;
    if draft.name.None? || |Trim(draft.name.value)| == 0 then
      (st, Err(InvalidArgument(NAME_REQUIRED_MESSAGE)))
    else
      var (st', row) := WithAuditorInserted(st, Auditor(0, draft.name.value, draft.homeLat, draft.homeLon,
                                                       draft.workLoadCapacityHours, draft.currentAssignedHours, status));
      (st', Ok(row))
  }

  method SaveAuditors(db: Database, draft: AuditorDraft) returns (result: Result<Auditor, ServiceError>)
    modifies db
    ensures (db.Snapshot(), result) == SaveAuditorSpec(old(db.Snapshot()), draft)
  {
    var status := AVAILABLE;
    if draft.availabilityStatus.Some? {
      status := draft.availabilityStatus.value;
    }
    if draft.name.None? || |Trim(draft.name.value)| == 0 {
      return Err(InvalidArgument(NAME_REQUIRED_MESSAGE));
    }
    var row := db.InsertAuditor(Auditor(0, draft.name.value, draft.homeLat, draft.homeLon,
                                        draft.workLoadCapacityHours, draft.currentAssignedHours, status));
    result := Ok(row);
  }

  /** Saving fails, changing nothing, exactly when the name is null or made
      only of characters up to ' '. Otherwise one auditor is appended with a
      fresh id, the submitted name and coordinates, and the submitted status
      or AVAILABLE when none was given; plans and stores are untouched. */
  lemma SaveAuditorProperties(st: State, draft: AuditorDraft)
    requires WellFormed(st)
    ensures var (st', r) := SaveAuditorSpec(st, draft);
      && WellFormed(st')
      && (r.Err? <==> draft.name.None? || forall i :: 0 <= i < |draft.name.value| ==> draft.name.value[i] <= ' ')
      && (r.Err? ==> st' == st && r.error == InvalidArgument(NAME_REQUIRED_MESSAGE))
      && (r.Ok? ==>
            && st'.auditors == st.auditors + [r.value]
            && st'.plans == st.plans && st'.stores == st.stores
            && !HasAuditor(st.auditors, r.value.id)
            && Some(r.value.name) == draft.name
            && r.value.homeLat == draft.homeLat && r.value.homeLon == draft.homeLon
            && r.value.availabilityStatus == (if draft.availabilityStatus.Some? then draft.availabilityStatus.value else AVAILABLE))
  {
    if draft.name.Some? {
      TrimEmptyIffBlank(draft.name.value);
    }
  }

  // ------------------------------------------------- updateAvailabilityStatus

  /** The store row of an affected plan (the plan's many-to-one reference). */
  function StoreOf(stores: seq<Store>, plan: AuditPlan): (r: Store)
    requires HasStore(stores, plan.storeId)
    ensures r in stores && r.id == plan.storeId
  {
    FindStoreById(stores, plan.storeId).value
  }

  predicate StoresResolve(st: State, affected: seq<AuditPlan>)
  {
    forall k :: 0 <= k < |affected| ==> HasStore(st.stores, affected[k].storeId)
  }

  /** The reassignment loop: `reassignStore` for each affected plan's store,
      in order, always with the same pool; an exception ends the loop, and
      the changes made before it stay. */
  function CascadeSpec(st: State, affected: seq<AuditPlan>, pool: seq<Auditor>,
                       optimizer: AssignmentRequest -> OptimizerReply): (r: Outcome<()>)
    requires StoresResolve(st, affected)
    ensures r.state.auditors == st.auditors && r.state.stores == st.stores
    ensures r.result.Err? ==> r.result.error in {NonUniqueResult, ExternalServiceFailure}
    ensures |r.sent| <= |affected|
    decreases |affected|
  {
    if affected == [] then Outcome(st, Ok(()), [])
    else
      var store := StoreOf(st.stores, affected[0]);
      var step := ReassignSpec(st, store, pool, optimizer);
      ReassignFrame(st, store, pool, optimizer);
      assert StoresResolve(step.state, affected[1..]) by {
        forall k | 0 <= k < |affected| - 1 ensures HasStore(st.stores, affected[1..][k].storeId) {
          assert affected[1..][k] == affected[k + 1];
        }
      }
      if step.result.Err? then Outcome(step.state, Err(step.result.error), step.sent)
      else
        var rest := CascadeSpec(step.state, affected[1..], pool, optimizer);
        Outcome(rest.state, rest.result, step.sent + rest.sent)
  }

  /** One turn of the loop, for the first affected plan. */
  lemma CascadeStep(st: State, affected: seq<AuditPlan>, pool: seq<Auditor>,
                    optimizer: AssignmentRequest -> OptimizerReply)
    requires StoresResolve(st, affected) && |affected| > 0
    ensures var step := ReassignSpec(st, StoreOf(st.stores, affected[0]), pool, optimizer);
      && step.state.stores == st.stores && StoresResolve(step.state, affected[1..])
      && CascadeSpec(st, affected, pool, optimizer) ==
           if step.result.Err? then Outcome(step.state, Err(step.result.error), step.sent)
           else
             var rest := CascadeSpec(step.state, affected[1..], pool, optimizer);
             Outcome(rest.state, rest.result, step.sent + rest.sent)
  {
    var store := StoreOf(st.stores, affected[0]);
    ReassignFrame(st, store, pool, optimizer);
    var rest := affected[1..];
    forall k | 0 <= k < |rest| ensures HasStore(st.stores, rest[k].storeId) {
      assert rest[k] == affected[k + 1];
    }
  }

  /** The loop keeps the tables well formed. */
  lemma {:induction false} CascadeKeepsWellFormed(st: State, affected: seq<AuditPlan>, pool: seq<Auditor>,
                                                  optimizer: AssignmentRequest -> OptimizerReply)
    requires WellFormed(st) && StoresResolve(st, affected)
    ensures WellFormed(CascadeSpec(st, affected, pool, optimizer).state)
    decreases |affected|
  {
    if affected != [] {
      CascadeStep(st, affected, pool, optimizer);
      var store := StoreOf(st.stores, affected[0]);
      ReassignKeepsWellFormed(st, store, pool, optimizer);
      CascadeKeepsWellFormed(ReassignSpec(st, store, pool, optimizer).state, affected[1..], pool, optimizer);
    }
  }

  /** The auditor's new status, saved before any cascade. */
  function WithStatusSaved(st: State, a: Auditor, newStatus: AvailabilityStatus): State
  {
    WithAuditorReplaced(st, a.(availabilityStatus := newStatus))
  }

  /** `updateAvailabilityStatus(id, newStatus)`. The status is saved
      unconditionally; only the edge AVAILABLE -> not AVAILABLE, for an
      auditor that has plans, runs the cascade, with the pool of the other
      AVAILABLE auditors. The call is not transactional. */
  function UpdateAvailabilitySpec(st: State, id: int, newStatus: AvailabilityStatus,
                                  optimizer: AssignmentRequest -> OptimizerReply): (r: Outcome<Auditor>)
    requires WellFormed(st)
    ensures WellFormed(r.state)
  {
    match FindAuditorById(st.auditors, id)
    case None => Outcome(st, Err(NotFound), [])
    case Some(a) =>
      var saved := a.(availabilityStatus := newStatus);
      var st1 := WithStatusSaved(st, a, newStatus);
      if a.availabilityStatus == AVAILABLE && newStatus != AVAILABLE then
        var affected := FindByAuditors(st1.plans, id);
        if |affected| == 0 then Outcome(st1, Ok(saved), [])
        else
          var pool := FindByIdNotAndAvailabilityStatus(st1.auditors, id, AVAILABLE);
          AffectedStoresResolve(st1, id);
          var c := CascadeSpec(st1, affected, pool, optimizer);
          CascadeKeepsWellFormed(st1, affected, pool, optimizer);
          Outcome(c.state, if c.result.Err? then Err(c.result.error) else Ok(saved), c.sent)
      else Outcome(st1, Ok(saved), [])
  }

  lemma AffectedStoresResolve(st: State, id: int)
    requires WellFormed(st)
    ensures StoresResolve(st, FindByAuditors(st.plans, id))
  {
    var affected := FindByAuditors(st.plans, id);
    forall k | 0 <= k < |affected| ensures HasStore(st.stores, affected[k].storeId) {
      assert affected[k] in st.plans;
    }
  }

  /** The reassignment loop over the shared database. */
  method RunCascade(db: Database, affected: seq<AuditPlan>, pool: seq<Auditor>,
                    optimizer: AssignmentRequest -> OptimizerReply)
    returns (result: Result<(), ServiceError>, sent: seq<AssignmentRequest>)
    requires StoresResolve(db.Snapshot(), affected)
    modifies db
    ensures var c := CascadeSpec(old(db.Snapshot()), affected, pool, optimizer);
      db.Snapshot() == c.state && result == c.result && sent == c.sent
  {
    ghost var final := CascadeSpec(db.Snapshot(), affected, pool, optimizer);
    sent := [];
    var i := 0;
    while i < |affected|
      invariant 0 <= i <= |affected|
      invariant StoresResolve(db.Snapshot(), affected[i..])
      invariant CascadeSpec(db.Snapshot(), affected[i..], pool, optimizer).state == final.state
      invariant CascadeSpec(db.Snapshot(), affected[i..], pool, optimizer).result == final.result
      invariant sent + CascadeSpec(db.Snapshot(), affected[i..], pool, optimizer).sent == final.sent
    {
      CascadeStep(db.Snapshot(), affected[i..], pool, optimizer);
      assert affected[i..][0] == affected[i];
      assert affected[i..][1..] == affected[i + 1..];
      var store := FindStoreById(db.stores, affected[i].storeId).value;
      var step, stepSent := ReassignStore(db, store, pool, optimizer);
      sent := sent + stepSent;
      if step.Err? {
        return Err(step.error), sent;
      }
      i := i + 1;
    }
    assert affected[i..] == [];
    result := Ok(());
  }

  method UpdateAvailabilityStatus(db: Database, id: int, newStatus: AvailabilityStatus,
                                  optimizer: AssignmentRequest -> OptimizerReply)
    returns (result: Result<Auditor, ServiceError>, sent: seq<AssignmentRequest>)
    requires db.Valid()
    modifies db
    ensures var r := UpdateAvailabilitySpec(old(db.Snapshot()), id, newStatus, optimizer);
      db.Snapshot() == r.state && result == r.result && sent == r.sent
  {
    sent := [];
    var found := FindAuditorById(db.auditors, id);
    if found.None? {
      return Err(NotFound), sent;
    }
    var auditor := found.value;
    var oldStatus := auditor.availabilityStatus;
    var saved := auditor.(availabilityStatus := newStatus);
    db.UpdateAuditor(saved);
    if oldStatus == AVAILABLE && newStatus != AVAILABLE {
      var affected := FindByAuditors(db.plans, id);
      if |affected| > 0 {
        var pool := FindByIdNotAndAvailabilityStatus(db.auditors, id, AVAILABLE);
        AffectedStoresResolve(db.Snapshot(), id);
        var cascade;
        cascade, sent := RunCascade(db, affected, pool, optimizer);
        if cascade.Err? {
          return Err(cascade.error), sent;
        }
      }
    }
    result := Ok(saved);
  }

  // ------------------------------------------------------------------ lemmas

  /** The stores of a list of plans. */
  function StoreIdsOf(plans: seq<AuditPlan>): set<int>
  {
    set k | 0 <= k < |plans| :: plans[k].storeId
  }

  /** The requests the loop sends when every call goes through: one per
      affected plan, in order, each offering the whole pool for that plan's
      store. */
  function CascadeRequests(stores: seq<Store>, affected: seq<AuditPlan>, pool: seq<Auditor>): seq<AssignmentRequest>
    requires forall k :: 0 <= k < |affected| ==> HasStore(stores, affected[k].storeId)
  {
    seq(|affected|, k requires 0 <= k < |affected| => MapSingleStoreToRequestDTO(StoreOf(stores, affected[k]), pool))
  }

  /** With a non-empty pool, a loop that raises nothing called `reassignStore`
      exactly once per affected plan, in list order, with the same pool. */
  lemma {:induction false} CascadeSendsOneRequestPerPlan(st: State, affected: seq<AuditPlan>, pool: seq<Auditor>,
                                                         optimizer: AssignmentRequest -> OptimizerReply)
    requires StoresResolve(st, affected) && |pool| > 0
    ensures var c := CascadeSpec(st, affected, pool, optimizer);
      c.result.Ok? ==> c.sent == CascadeRequests(st.stores, affected, pool)
    decreases |affected|
  {
    if affected != [] {
      CascadeStep(st, affected, pool, optimizer);
      var store := StoreOf(st.stores, affected[0]);
      ReassignFrame(st, store, pool, optimizer);
      var step := ReassignSpec(st, store, pool, optimizer);
      if step.result.Ok? {
        var rest := affected[1..];
        CascadeSendsOneRequestPerPlan(step.state, rest, pool, optimizer);
        CascadeRequestsCons(st.stores, affected, pool);
      }
    }
  }

  /** The first request is for the first plan's store; the rest are those of
      the remaining plans. */
  lemma CascadeRequestsCons(stores: seq<Store>, affected: seq<AuditPlan>, pool: seq<Auditor>)
    requires forall k :: 0 <= k < |affected| ==> HasStore(stores, affected[k].storeId)
    requires affected != []
    ensures CascadeRequests(stores, affected, pool)
      == [MapSingleStoreToRequestDTO(StoreOf(stores, affected[0]), pool)] + CascadeRequests(stores, affected[1..], pool)
  {
    var want := CascadeRequests(stores, affected, pool);
    var tail := CascadeRequests(stores, affected[1..], pool);
    forall k | 1 <= k < |want| ensures want[k] == tail[k - 1] {
      assert affected[1..][k - 1] == affected[k];
    }
  }

  /** With an empty pool and at most one plan per store, the loop raises
      nothing, sends nothing, and deletes exactly the plans of the affected
      stores. */
  lemma {:induction false} CascadeWithEmptyPool(st: State, affected: seq<AuditPlan>,
                                                optimizer: AssignmentRequest -> OptimizerReply)
    requires StoresResolve(st, affected) && KeysUnique(st.plans, PlanKey) && AtMostOnePlanPerStore(st.plans)
    ensures var c := CascadeSpec(st, affected, [], optimizer);
      && c.result.Ok? && c.sent == []
      && forall x :: x in c.state.plans <==> x in st.plans && x.storeId !in StoreIdsOf(affected)
    decreases |affected|
  {
    if affected != [] {
      CascadeStep(st, affected, [], optimizer);
      var store := StoreOf(st.stores, affected[0]);
      ReassignWithoutCandidatesUnassigns(st, store, optimizer);
      var step := ReassignSpec(st, store, [], optimizer);
      var rest := affected[1..];
      CascadeWithEmptyPool(step.state, rest, optimizer);
      assert StoreIdsOf(affected) == {affected[0].storeId} + StoreIdsOf(rest) by {
        forall y | y in StoreIdsOf(affected) ensures y in {affected[0].storeId} + StoreIdsOf(rest) {
          var k :| 0 <= k < |affected| && affected[k].storeId == y;
          if k > 0 { assert rest[k - 1] == affected[k]; }
        }
        forall y | y in StoreIdsOf(rest) ensures y in StoreIdsOf(affected) {
          var k :| 0 <= k < |rest| && rest[k].storeId == y;
          assert affected[k + 1] == rest[k];
        }
      }
    }
  }

  /** Not found: NotFound is raised and nothing changes. Found: the auditor's
      row, and only it, now has the new status, whatever the cascade did;
      stores are untouched; the saved auditor is returned unless the cascade
      raised. */
  lemma UpdateAvailabilityProperties(st: State, id: int, newStatus: AvailabilityStatus,
                                     optimizer: AssignmentRequest -> OptimizerReply)
    requires WellFormed(st)
    ensures var r := UpdateAvailabilitySpec(st, id, newStatus, optimizer);
      && (r.result == Err(NotFound) <==> !HasAuditor(st.auditors, id))
      && (!HasAuditor(st.auditors, id) ==> r.state == st && r.sent == [])
      && r.state.stores == st.stores
      && |r.state.auditors| == |st.auditors|
      && (forall i :: 0 <= i < |st.auditors| ==>
            r.state.auditors[i] == if st.auditors[i].id == id then st.auditors[i].(availabilityStatus := newStatus) else st.auditors[i])
      && (r.result.Ok? ==> r.result.value.id == id && r.result.value.availabilityStatus == newStatus
                           && r.result.value in r.state.auditors)
  {
    match FindAuditorById(st.auditors, id)
    case None =>
    case Some(a) =>
      AvailabilitySaved(st, a, newStatus);
      UpdateAvailabilityFrame(st, a, newStatus, optimizer);
  }

  /** For a known auditor, whatever the cascade does leaves the auditor and
      store tables as the status save left them, and a result that is not
      an exception is the saved auditor. */
  lemma UpdateAvailabilityFrame(st: State, a: Auditor, newStatus: AvailabilityStatus,
                                optimizer: AssignmentRequest -> OptimizerReply)
    requires WellFormed(st) && FindAuditorById(st.auditors, a.id) == Some(a)
    ensures var r := UpdateAvailabilitySpec(st, a.id, newStatus, optimizer);
      && r.state.auditors == WithStatusSaved(st, a, newStatus).auditors
      && r.state.stores == st.stores
      && r.result != Err(NotFound)
      && (r.result.Ok? ==> r.result.value == a.(availabilityStatus := newStatus))
  {
    var st1 := WithStatusSaved(st, a, newStatus);
    if a.availabilityStatus == AVAILABLE && newStatus != AVAILABLE {
      if |FindByAuditors(st1.plans, a.id)| > 0 {
        AffectedStoresResolve(st1, a.id);
      }
    }
  }

  /** Saving a known auditor with a new status changes that row, and only
      it, in place. */
  lemma AvailabilitySaved(st: State, a: Auditor, newStatus: AvailabilityStatus)
    requires WellFormed(st) && a in st.auditors
    ensures var st1 := WithStatusSaved(st, a, newStatus);
      && st1.stores == st.stores && st1.plans == st.plans
      && |st1.auditors| == |st.auditors| && a.(availabilityStatus := newStatus) in st1.auditors
      && forall i :: 0 <= i < |st.auditors| ==>
           st1.auditors[i] == if st.auditors[i].id == a.id then st.auditors[i].(availabilityStatus := newStatus) else st.auditors[i]
  {
    var k :| 0 <= k < |st.auditors| && st.auditors[k] == a;
    var st1 := WithStatusSaved(st, a, newStatus);
    assert st1.auditors[k] == a.(availabilityStatus := newStatus);
    forall i | 0 <= i < |st.auditors| && st.auditors[i].id == a.id ensures st.auditors[i] == a {
      assert AuditorKey(st.auditors[i]) == AuditorKey(st.auditors[k]);
    }
  }

  /** Only the edge AVAILABLE -> not AVAILABLE can touch plans: in every
      other case the plans stay as they were and no request is sent. */
  lemma CascadeOnlyOnEdge(st: State, id: int, newStatus: AvailabilityStatus,
                          optimizer: AssignmentRequest -> OptimizerReply)
    requires WellFormed(st) && HasAuditor(st.auditors, id)
    requires !(FindAuditorById(st.auditors, id).value.availabilityStatus == AVAILABLE && newStatus != AVAILABLE)
    ensures var r := UpdateAvailabilitySpec(st, id, newStatus, optimizer);
      r.state.plans == st.plans && r.sent == [] && r.result.Ok?
  {
  }

  /** On the edge, the pool offered is exactly the other AVAILABLE auditors,
      and a cascade that raises nothing sends one request per plan of the
      auditor, in table order, each offering that same pool. */
  lemma CascadePoolAndRequests(st: State, id: int, newStatus: AvailabilityStatus,
                               optimizer: AssignmentRequest -> OptimizerReply)
    requires WellFormed(st) && HasAuditor(st.auditors, id)
    requires FindAuditorById(st.auditors, id).value.availabilityStatus == AVAILABLE && newStatus != AVAILABLE
    ensures var a := FindAuditorById(st.auditors, id).value;
      var st1 := WithStatusSaved(st, a, newStatus);
      var pool := FindByIdNotAndAvailabilityStatus(st1.auditors, id, AVAILABLE);
      var affected := FindByAuditors(st.plans, id);
      var r := UpdateAvailabilitySpec(st, id, newStatus, optimizer);
      && (forall x :: x in pool <==> x in st.auditors && x.id != id && x.availabilityStatus == AVAILABLE)
      && (|pool| > 0 && r.result.Ok? ==> r.sent == CascadeRequests(st.stores, affected, pool))
  {
    var a := FindAuditorById(st.auditors, id).value;
    var st1 := WithStatusSaved(st, a, newStatus);
    var pool := FindByIdNotAndAvailabilityStatus(st1.auditors, id, AVAILABLE);
    forall x ensures x in st1.auditors && x.id != id <==> x in st.auditors && x.id != id {
      if x in st.auditors && x.id != id {
        var i :| 0 <= i < |st.auditors| && st.auditors[i] == x;
        assert st1.auditors[i] == x;
      }
    }
    AffectedStoresResolve(st1, id);
    if |pool| > 0 {
      CascadeSendsOneRequestPerPlan(st1, FindByAuditors(st.plans, id), pool, optimizer);
    }
  }

  /** With at most one plan per store, the plans whose store is not one of
      an auditor's plan stores are exactly the plans of other auditors. */
  lemma OtherStoresAreOtherAuditors(plans: seq<AuditPlan>, id: int)
    requires AtMostOnePlanPerStore(plans)
    ensures forall x :: x in plans && x.storeId !in StoreIdsOf(FindByAuditors(plans, id)) <==> x in plans && x.auditorId != id
  {
    var affected := FindByAuditors(plans, id);
    forall x | x in plans
      ensures x.storeId !in StoreIdsOf(affected) <==> x.auditorId != id
    {
      if x.auditorId == id {
        assert x in affected;
        var k :| 0 <= k < |affected| && affected[k] == x;
      }
      if x.storeId in StoreIdsOf(affected) {
        var k :| 0 <= k < |affected| && affected[k].storeId == x.storeId;
        assert affected[k] in plans;
        var i :| 0 <= i < |plans| && plans[i] == x;
        var j :| 0 <= j < |plans| && plans[j] == affected[k];
        assert i == j;
        assert x.auditorId == id;
      }
    }
  }

  /** With no other AVAILABLE auditor and at most one plan per store, taking
      an AVAILABLE auditor out deletes every plan that referenced it, keeps
      every other plan, and sends nothing. */
  lemma EmptyPoolDeletesAuditorPlans(st: State, id: int, newStatus: AvailabilityStatus,
                                     optimizer: AssignmentRequest -> OptimizerReply)
    requires WellFormed(st) && AtMostOnePlanPerStore(st.plans) && HasAuditor(st.auditors, id)
    requires FindAuditorById(st.auditors, id).value.availabilityStatus == AVAILABLE && newStatus != AVAILABLE
    requires forall x :: x in st.auditors && x.id != id ==> x.availabilityStatus != AVAILABLE
    ensures var r := UpdateAvailabilitySpec(st, id, newStatus, optimizer);
      && r.result.Ok? && r.sent == []
      && forall x :: x in r.state.plans <==> x in st.plans && x.auditorId != id
  {
    var r := UpdateAvailabilitySpec(st, id, newStatus, optimizer);
    var a := FindAuditorById(st.auditors, id).value;
    var st1 := WithStatusSaved(st, a, newStatus);
    assert st1.plans == st.plans;
    var pool := FindByIdNotAndAvailabilityStatus(st1.auditors, id, AVAILABLE);
    var affected := FindByAuditors(st.plans, id);
    forall i | 0 <= i < |st1.auditors|
      ensures !(st1.auditors[i].id != id && st1.auditors[i].availabilityStatus == AVAILABLE)
    {
      if st.auditors[i].id != id {
        assert st1.auditors[i] == st.auditors[i];
      }
    }
    FilterNone(st1.auditors, (x: Auditor) => x.id != id && x.availabilityStatus == AVAILABLE);
    OtherStoresAreOtherAuditors(st.plans, id);
    if |affected| > 0 {
      AffectedStoresResolve(st1, id);
      CascadeWithEmptyPool(st1, affected, optimizer);
      var c := CascadeSpec(st1, affected, pool, optimizer);
      assert r == Outcome(c.state, Ok(a.(availabilityStatus := newStatus)), c.sent);
    } else {
      assert r.state == st1;
      assert StoreIdsOf(affected) == {};
    }
  }

  /** Auditor 1, already saved as ON_LEAVE, holds the plans of stores 7 and
      8; auditor 2 is AVAILABLE. */
  function TwoPlansOfOneAuditor(): State
  {
    State(
      [Auditor(1, "A", 0.0, 0.0, 40.0, 0.0, ON_LEAVE), Auditor(2, "B", 0.0, 0.0, 40.0, 0.0, AVAILABLE)],
      [Store(7, None, None, 0.0, 0.0, OPEN), Store(8, None, None, 0.0, 0.0, OPEN)],
      [AuditPlan(1, 1, 7, MEDIUM, PLANNED), AuditPlan(2, 1, 8, MEDIUM, PLANNED)], 3, 9, 3)
  }

  /** An optimizer that answers "auditor 2" to every request. */
  function AlwaysAuditorTwo(): AssignmentRequest -> OptimizerReply
  {
    (q: AssignmentRequest) => Reply(Some(AssignmentResponse(Some(ResponseData(Some([ProposalEntry(None, Some(2))]))))))
  }

  /** The pool is not shrunk as stores are handed out: with the pool
      [auditor 2], the answer "auditor 2" for each store binds both stores
      to auditor 2. */
  lemma CascadeMayBindOneAuditorToSeveralStores()
    ensures var st := TwoPlansOfOneAuditor();
      && StoresResolve(st, st.plans)
      && CascadeSpec(st, st.plans, [st.auditors[1]], AlwaysAuditorTwo()).state.plans
         == [AuditPlan(1, 2, 7, MEDIUM, PLANNED), AuditPlan(2, 2, 8, MEDIUM, PLANNED)]
  {
    var st := TwoPlansOfOneAuditor();
    var pool := [st.auditors[1]];
    assert HasStore(st.stores, 7) by { assert st.stores[0].id == 7; }
    assert HasStore(st.stores, 8) by { assert st.stores[1].id == 8; }
    var affected := st.plans;
    assert StoreOf(st.stores, affected[0]) == st.stores[0];
    CascadeStep(st, affected, pool, AlwaysAuditorTwo());
    var s1 := FirstStoreRebound();
    var rest := affected[1..];
    assert StoreOf(s1.stores, rest[0]) == st.stores[1];
    CascadeStep(s1, rest, pool, AlwaysAuditorTwo());
    SecondStoreRebound(s1);
    assert rest[1..] == [];
  }

  /** The first `reassignStore` of that cascade rebinds store 7's plan. */
  lemma FirstStoreRebound() returns (s1: State)
    ensures var st := TwoPlansOfOneAuditor();
      && s1 == ReassignSpec(st, st.stores[0], [st.auditors[1]], AlwaysAuditorTwo()).state
      && ReassignSpec(st, st.stores[0], [st.auditors[1]], AlwaysAuditorTwo()).result.Ok?
      && s1 == st.(plans := [AuditPlan(1, 2, 7, MEDIUM, PLANNED), AuditPlan(2, 1, 8, MEDIUM, PLANNED)])
  {
    var st := TwoPlansOfOneAuditor();
    assert HasAuditor(st.auditors, 2) by { assert st.auditors[1].id == 2; }
    assert FindByStore(st.plans, 7) == OnePlan(st.plans[0]);
    CascadeReassignRebinds(st, st.stores[0], [st.auditors[1]], AlwaysAuditorTwo(), 2, 0);
    s1 := ReassignSpec(st, st.stores[0], [st.auditors[1]], AlwaysAuditorTwo()).state;
  }

  /** The second one rebinds store 8's plan to the same auditor. */
  lemma SecondStoreRebound(s1: State)
    requires s1 == TwoPlansOfOneAuditor().(plans := [AuditPlan(1, 2, 7, MEDIUM, PLANNED), AuditPlan(2, 1, 8, MEDIUM, PLANNED)])
    ensures var st := TwoPlansOfOneAuditor();
      && ReassignSpec(s1, st.stores[1], [st.auditors[1]], AlwaysAuditorTwo()).result.Ok?
      && ReassignSpec(s1, st.stores[1], [st.auditors[1]], AlwaysAuditorTwo()).state.plans
         == [AuditPlan(1, 2, 7, MEDIUM, PLANNED), AuditPlan(2, 2, 8, MEDIUM, PLANNED)]
  {
    var st := TwoPlansOfOneAuditor();
    assert HasAuditor(s1.auditors, 2) by { assert s1.auditors[1].id == 2; }
    assert FindByStore(s1.plans, 8) == OnePlan(s1.plans[1]);
    CascadeReassignRebinds(s1, st.stores[1], [st.auditors[1]], AlwaysAuditorTwo(), 2, 1);
  }

  /** When the optimizer names a known auditor for a store with exactly one
      plan, `reassignStore` succeeds and rebinds that plan, and only it. */
  lemma CascadeReassignRebinds(st: State, store: Store, pool: seq<Auditor>,
                               optimizer: AssignmentRequest -> OptimizerReply, proposed: int, k: nat)
    requires |pool| > 0 && k < |st.plans| && KeysUnique(st.plans, PlanKey)
    requires optimizer(MapSingleStoreToRequestDTO(store, pool)).Reply?
    requires FirstProposedAuditor(optimizer(MapSingleStoreToRequestDTO(store, pool)).body) == Some(proposed)
    requires HasAuditor(st.auditors, proposed)
    requires FindByStore(st.plans, store.id) == OnePlan(st.plans[k])
    ensures var r := ReassignSpec(st, store, pool, optimizer);
      && r.result.Ok? && r.state == st.(plans := st.plans[k := st.plans[k].(auditorId := proposed)])
  {
    var plans := ReassignSpec(st, store, pool, optimizer).state.plans;
    forall i | 0 <= i < |st.plans| ensures plans[i] == st.plans[k := st.plans[k].(auditorId := proposed)][i] {
      if i != k {
        assert PlanKey(st.plans[i]) != PlanKey(st.plans[k]);
      }
    }
  }
}
