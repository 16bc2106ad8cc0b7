/** StoreServiceImpl: saving a store (status defaults to OPEN), listing the
    OPEN stores, and the transactional status update whose CLOSED case
    deletes the store's plan. */
module StoreService {
  import opened Wrappers
  import opened Seqs
  import opened Entities
  import opened Repository
  import opened AuditPlanService
  import opened Persistence

  /** A store as submitted for creation; the status may be left unset. */
  datatype StoreDraft = StoreDraft(
    name: Option<string>,
    address: Option<string>,
    locationLat: real,
    locationLon: real,
    storeStatus: Option<StoreStatus>)

  /** `saveStore(draft)`: the field initializer gives an unset status OPEN. */
  function SaveStoreSpec(st: State, draft: StoreDraft): (r: (State, Store))
  {
    var status := if draft.storeStatus.Some? then draft.storeStatus.value else DEFAULT_STORE_STATUS;
    WithStoreInserted(st, Store(0, draft.name, draft.address, draft.locationLat, draft.locationLon, status))
  }

  method SaveStore(db: Database, draft: StoreDraft) returns (saved: Store)
    modifies db
    ensures (db.Snapshot(), saved) == SaveStoreSpec(old(db.Snapshot()), draft)
  {
    var status := DEFAULT_STORE_STATUS;
    if draft.storeStatus.Some? {
      status := draft.storeStatus.value;
    }
    saved := db.InsertStore(Store(0, draft.name, draft.address, draft.locationLat, draft.locationLon, status));
  }

  /** Saving appends one store with a fresh id, the submitted fields, and
      OPEN when no status was given; auditors and plans are untouched. */
  lemma SaveStoreProperties(st: State, draft: StoreDraft)
    requires WellFormed(st)
    ensures var (st', s) := SaveStoreSpec(st, draft);
      && WellFormed(st')
      && st'.stores == st.stores + [s] && !HasStore(st.stores, s.id)
      && st'.auditors == st.auditors && st'.plans == st.plans
      && s.name == draft.name && s.address == draft.address
      && s.locationLat == draft.locationLat && s.locationLon == draft.locationLon
      && (draft.storeStatus.None? ==> s.storeStatus == OPEN)
      && (draft.storeStatus.Some? ==> s.storeStatus == draft.storeStatus.value)
  {
  }

  /** `findByStoreStatus()` of the service: the OPEN stores, in table order. */
  method FindOpenStores(db: Database) returns (r: seq<Store>)
    ensures forall s :: s in r <==> s in db.stores && s.storeStatus == OPEN
  {
    r := FindByStoreStatus(db.stores, OPEN);
  }

  /** `updateStoreStatus(id, newStatus)`, in one transaction: an unknown id
      raises NotFound; otherwise the status is saved, and when the new
      status is CLOSED the store's plan, if any, is deleted. Several plans
      for the store make the lookup throw, and the transaction is rolled
      back. */
  function UpdateStoreStatusSpec(st: State, storeId: int, newStatus: StoreStatus): (r: (State, Result<Store, ServiceError>))
  {
    match FindStoreById(st.stores, storeId)
    case None => (st, Err(NotFound))
    case Some(s) =>
      var updated := s.(storeStatus := newStatus);
      var st1 := WithStoreReplaced(st, updated);
      if newStatus == CLOSED then
        match FindByStore(st1.plans, storeId)
        case NoPlan => (st1, Ok(updated))
        case OnePlan(p) => (WithPlanDeleted(st1, p.id), Ok(updated))
        case NotUnique => (st, Err(NonUniqueResult))
      else (st1, Ok(updated))
  }

  method UpdateStoreStatus(db: Database, storeId: int, newStatus: StoreStatus)
    returns (result: Result<Store, ServiceError>)
    modifies db
    ensures (db.Snapshot(), result) == UpdateStoreStatusSpec(old(db.Snapshot()), storeId, newStatus)
  {
    var begin := db.Snapshot();
    var found := FindStoreById(db.stores, storeId);
    if found.None? {
      return Err(NotFound);
    }
    var updated := found.value.(storeStatus := newStatus);
    db.UpdateStore(updated);
    if newStatus == CLOSED {
      var existing := FindByStore(db.plans, storeId);
      match existing
      case NoPlan =>
      case OnePlan(p) => db.DeletePlan(p.id);
      case NotUnique =>
        db.Rollback(begin);
        return Err(NonUniqueResult);
    }
    result := Ok(updated);
  }

  /** An unknown id raises NotFound and changes nothing. Otherwise the store
      row, and only it, takes the new status and is returned; auditors are
      untouched; OPEN touches no plan; CLOSED removes exactly the store's
      plan when it has at most one, and keeps every other plan. */
  lemma UpdateStoreStatusProperties(st: State, storeId: int, newStatus: StoreStatus)
    requires WellFormed(st)
    ensures var (st', r) := UpdateStoreStatusSpec(st, storeId, newStatus);
      && WellFormed(st')
      && st'.auditors == st.auditors
      && (r == Err(NotFound) <==> !HasStore(st.stores, storeId))
      && (r.Err? ==> st' == st)
      && (r.Ok? ==>
            && r.value.id == storeId && r.value.storeStatus == newStatus && r.value in st'.stores
            && |st'.stores| == |st.stores|
            && (forall i :: 0 <= i < |st.stores| ==>
                  st'.stores[i] == if st.stores[i].id == storeId then st.stores[i].(storeStatus := newStatus) else st.stores[i]))
      && (newStatus == OPEN ==> st'.plans == st.plans)
      && (newStatus == CLOSED && AtMostOnePlanPerStore(st.plans) ==>
            r.Ok? == HasStore(st.stores, storeId)
            && forall x :: x in st'.plans <==> x in st.plans && (r.Ok? ==> x.storeId != storeId))
  {
    match FindStoreById(st.stores, storeId)
    case None =>
    case Some(s) =>
      StatusReplaced(st, s, newStatus);
      var st1 := WithStoreReplaced(st, s.(storeStatus := newStatus));
      if newStatus == CLOSED {
        match FindByStore(st1.plans, storeId)
        case NoPlan =>
        case OnePlan(p) => OnlyPlanOfStoreDeleted(st1, storeId, p);
        case NotUnique =>
      }
  }

  /** Saving a known store with a new status changes that row, and only
      it, in place. */
  lemma StatusReplaced(st: State, s: Store, newStatus: StoreStatus)
    requires WellFormed(st) && s in st.stores
    ensures var st1 := WithStoreReplaced(st, s.(storeStatus := newStatus));
      && WellFormed(st1)
      && st1.auditors == st.auditors && st1.plans == st.plans
      && |st1.stores| == |st.stores| && s.(storeStatus := newStatus) in st1.stores
      && forall i :: 0 <= i < |st.stores| ==>
           st1.stores[i] == if st.stores[i].id == s.id then st.stores[i].(storeStatus := newStatus) else st.stores[i]
  {
    var k :| 0 <= k < |st.stores| && st.stores[k] == s;
    assert HasStore(st.stores, s.id);
    var st1 := WithStoreReplaced(st, s.(storeStatus := newStatus));
    assert st1.stores[k] == s.(storeStatus := newStatus);
    forall i | 0 <= i < |st.stores| && st.stores[i].id == s.id ensures st.stores[i] == s {
      assert StoreKey(st.stores[i]) == StoreKey(st.stores[k]);
    }
  }

  /** Deleting the one plan the store lookup found leaves exactly the plans
      of other stores, when plan ids are unique. */
  lemma OnlyPlanOfStoreDeleted(st: State, storeId: int, p: AuditPlan)
    requires KeysUnique(st.plans, PlanKey) && FindByStore(st.plans, storeId) == OnePlan(p)
    ensures forall x :: x in WithPlanDeleted(st, p.id).plans <==> x in st.plans && x.storeId != storeId
  {
    forall x | x in st.plans && x.id == p.id ensures x == p {
      var k :| 0 <= k < |st.plans| && st.plans[k] == x;
      var j :| 0 <= j < |st.plans| && st.plans[j] == p;
      assert PlanKey(st.plans[k]) == PlanKey(st.plans[j]);
    }
    forall x | x in st.plans && x.storeId == storeId ensures x == p {
      var k :| 0 <= k < |st.plans| && st.plans[k] == x;
    }
  }
}
