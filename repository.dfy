/** The backing store as a value: the auditors, store and audit_plan tables
    (rows in insertion order, ids unique) plus the IDENTITY counters, and the
    derived queries of AuditorRepository, StoreRepository and
    AuditPlanRepository as order-preserving filters over those tables. */
module Repository {
  import opened Wrappers
  import opened Seqs
  import opened Entities

  datatype State = State(
    auditors: seq<Auditor>,
    stores: seq<Store>,
    plans: seq<AuditPlan>,
    nextAuditorId: int,
    nextStoreId: int,
    nextPlanId: int)

  function PlanStoreKey(p: AuditPlan): int { p.storeId }
  function PlanAuditorKey(p: AuditPlan): int { p.auditorId }

  predicate HasAuditor(auditors: seq<Auditor>, id: int) { HasKey(auditors, AuditorKey, id) }
  predicate HasStore(stores: seq<Store>, id: int) { HasKey(stores, StoreKey, id) }

  /** Primary keys are unique and below the next generated value, and every
      plan's two non-null foreign keys resolve. */
  predicate WellFormed(st: State)
  {
    && KeysUnique(st.auditors, AuditorKey)
    && KeysUnique(st.stores, StoreKey)
    && KeysUnique(st.plans, PlanKey)
    && st.nextAuditorId > 0 && st.nextStoreId > 0 && st.nextPlanId > 0
    && (forall i :: 0 <= i < |st.auditors| ==> 0 < st.auditors[i].id < st.nextAuditorId)
    && (forall i :: 0 <= i < |st.stores| ==> 0 < st.stores[i].id < st.nextStoreId)
    && (forall i :: 0 <= i < |st.plans| ==> 0 < st.plans[i].id < st.nextPlanId)
    && (forall i :: 0 <= i < |st.plans| ==>
          HasAuditor(st.auditors, st.plans[i].auditorId) && HasStore(st.stores, st.plans[i].storeId))
  }

  /** The design invariant "at most one live plan per store". It is not
      enforced by the schema; some operations keep it, some do not. */
  predicate AtMostOnePlanPerStore(plans: seq<AuditPlan>)
  {
    KeysUnique(plans, PlanStoreKey)
  }

  // ---------------------------------------------------------------- findById

  function FindAuditorById(auditors: seq<Auditor>, id: int): (r: Option<Auditor>)
    ensures r.Some? ==> r.value in auditors && r.value.id == id
    ensures r.None? <==> !HasAuditor(auditors, id)
  {
    match IndexOfKey(auditors, AuditorKey, id)
    case None => None
    case Some(i) => Some(auditors[i])
  }

  function FindStoreById(stores: seq<Store>, id: int): (r: Option<Store>)
    ensures r.Some? ==> r.value in stores && r.value.id == id
    ensures r.None? <==> !HasStore(stores, id)
  {
    match IndexOfKey(stores, StoreKey, id)
    case None => None
    case Some(i) => Some(stores[i])
  }

  function FindPlanById(plans: seq<AuditPlan>, id: int): (r: Option<AuditPlan>)
    ensures r.Some? ==> r.value in plans && r.value.id == id
    ensures r.None? <==> !HasKey(plans, PlanKey, id)
  {
    match IndexOfKey(plans, PlanKey, id)
    case None => None
    case Some(i) => Some(plans[i])
  }

  // ------------------------------------------------------ AuditorRepository

  /** `findByAvailabilityStatus(status)`: exactly the auditors with that status. */
  function FindByAvailabilityStatus(auditors: seq<Auditor>, status: AvailabilityStatus): (r: seq<Auditor>)
    ensures forall a :: a in r <==> a in auditors && a.availabilityStatus == status
  {
    Filter(auditors, (a: Auditor) => a.availabilityStatus == status)
  }

  /** `findByIdNotAndAvailabilityStatus(id, status)`: every auditor with that
      status except the one with that id. */
  function FindByIdNotAndAvailabilityStatus(auditors: seq<Auditor>, id: int, status: AvailabilityStatus): (r: seq<Auditor>)
    ensures forall a :: a in r <==> a in auditors && a.id != id && a.availabilityStatus == status
  {
    Filter(auditors, (a: Auditor) => a.id != id && a.availabilityStatus == status)
  }

  /** Ids of the auditors some plan references (the JPQL sub-query). */
  function PlannedAuditorIds(plans: seq<AuditPlan>): set<int>
  {
    set p | p in plans :: p.auditorId
  }

  /** Ids of the stores some plan references (the JPQL sub-query). */
  function PlannedStoreIds(plans: seq<AuditPlan>): set<int>
  {
    set p | p in plans :: p.storeId
  }

  /** `findAvailableAndUnassignedAuditors()`: sound and complete — an auditor
      is returned exactly when it is AVAILABLE and no plan references it. */
  function FindAvailableAndUnassignedAuditors(st: State): (r: seq<Auditor>)
    ensures forall a :: a in r <==>
      a in st.auditors && a.availabilityStatus == AVAILABLE && forall p :: p in st.plans ==> p.auditorId != a.id
  {
    var planned := PlannedAuditorIds(st.plans);
    Filter(st.auditors, (a: Auditor) => a.availabilityStatus == AVAILABLE && a.id !in planned)
  }

  // -------------------------------------------------------- StoreRepository

  /** `findByStoreStatus(status)`: exactly the stores with that status. */
  function FindByStoreStatus(stores: seq<Store>, status: StoreStatus): (r: seq<Store>)
    ensures forall s :: s in r <==> s in stores && s.storeStatus == status
  {
    Filter(stores, (s: Store) => s.storeStatus == status)
  }

  /** `findOpenAndUnassignedStores()`: sound and complete — a store is
      returned exactly when it is OPEN and no plan references it. */
  function FindOpenAndUnassignedStores(st: State): (r: seq<Store>)
    ensures forall s :: s in r <==>
      s in st.stores && s.storeStatus == OPEN && forall p :: p in st.plans ==> p.storeId != s.id
  {
    var planned := PlannedStoreIds(st.plans);
    Filter(st.stores, (s: Store) => s.storeStatus == OPEN && s.id !in planned)
  }

  // ---------------------------------------------------- AuditPlanRepository

  /** `findByAuditors(auditor)`: the plans bound to that auditor, in table order. */
  function FindByAuditors(plans: seq<AuditPlan>, auditorId: int): (r: seq<AuditPlan>)
    ensures forall p :: p in r <==> p in plans && p.auditorId == auditorId
  {
    Filter(plans, (p: AuditPlan) => p.auditorId == auditorId)
  }

  /** Outcome of `findByStore(store)`, an `Optional` query: more than one
      matching row makes Spring throw instead of answering. */
  datatype PlanLookup = NoPlan | OnePlan(plan: AuditPlan) | NotUnique

  function FindByStore(plans: seq<AuditPlan>, storeId: int): (r: PlanLookup)
    ensures r.NoPlan? <==> forall i :: 0 <= i < |plans| ==> plans[i].storeId != storeId
    ensures r.OnePlan? ==> r.plan in plans && r.plan.storeId == storeId
    ensures r.OnePlan? ==> forall i :: 0 <= i < |plans| && plans[i].storeId == storeId ==> plans[i] == r.plan
    ensures r.NotUnique? ==> !AtMostOnePlanPerStore(plans)
  {
    match IndexOfKey(plans, PlanStoreKey, storeId)
    case None => NoPlan
    case Some(i) =>
      match IndexOfKey(plans[i + 1..], PlanStoreKey, storeId)
      case None =>
        assert forall j :: i < j < |plans| ==> plans[j].storeId != storeId by {
          forall j | i < j < |plans| ensures plans[j].storeId != storeId {
            assert plans[i + 1..][j - i - 1] == plans[j];
          }
        }
        OnePlan(plans[i])
      case Some(k) =>
        assert plans[i + 1..][k] == plans[i + 1 + k];
        NotUnique
  }

  // --------------------------------------------------------------- writes

  /** `save` of a new plan: the IDENTITY column hands out the next id. */
  function WithPlanInserted(st: State, auditorId: int, storeId: int, priority: AuditPriority, status: AuditStatus): (r: (State, AuditPlan))
    ensures r.1 == AuditPlan(st.nextPlanId, auditorId, storeId, priority, status)
    ensures r.0.plans == st.plans + [r.1] && r.0.nextPlanId == st.nextPlanId + 1
    ensures r.0.auditors == st.auditors && r.0.stores == st.stores
    ensures WellFormed(st) && HasAuditor(st.auditors, auditorId) && HasStore(st.stores, storeId) ==> WellFormed(r.0)
  {
    var plan := AuditPlan(st.nextPlanId, auditorId, storeId, priority, status);
    (st.(plans := st.plans + [plan], nextPlanId := st.nextPlanId + 1), plan)
  }

  /** `save` of an existing plan: its row is overwritten in place. */
  function WithPlanReplaced(st: State, p: AuditPlan): (r: State)
    ensures r == st.(plans := ReplaceByKey(st.plans, PlanKey, p))
    ensures (WellFormed(st) && HasKey(st.plans, PlanKey, p.id)
             && HasAuditor(st.auditors, p.auditorId) && HasStore(st.stores, p.storeId)) ==> WellFormed(r)
  {
    st.(plans := ReplaceByKey(st.plans, PlanKey, p))
  }

  /** `delete` of a plan: its row disappears, the others keep their order. */
  function WithPlanDeleted(st: State, id: int): (r: State)
    ensures r == st.(plans := Filter(st.plans, (q: AuditPlan) => q.id != id))
    ensures forall q :: q in r.plans <==> q in st.plans && q.id != id
    ensures WellFormed(st) ==> WellFormed(r)
    ensures KeysUnique(st.plans, PlanKey) ==> KeysUnique(r.plans, PlanKey)
    ensures AtMostOnePlanPerStore(st.plans) ==> AtMostOnePlanPerStore(r.plans)
  {
    var keep := (q: AuditPlan) => q.id != id;
    var r := st.(plans := Filter(st.plans, keep));
    assert WellFormed(st) ==> WellFormed(r) by {
      if WellFormed(st) {
        FilterKeepsKeysUnique(st.plans, keep, PlanKey);
        forall i | 0 <= i < |r.plans|
          ensures 0 < r.plans[i].id < r.nextPlanId
          ensures HasAuditor(r.auditors, r.plans[i].auditorId) && HasStore(r.stores, r.plans[i].storeId)
        {
          var k :| 0 <= k < |st.plans| && st.plans[k] == r.plans[i];
        }
      }
    }
    assert KeysUnique(st.plans, PlanKey) ==> KeysUnique(r.plans, PlanKey) by {
      if KeysUnique(st.plans, PlanKey) {
        FilterKeepsKeysUnique(st.plans, keep, PlanKey);
      }
    }
    assert AtMostOnePlanPerStore(st.plans) ==> AtMostOnePlanPerStore(r.plans) by {
      if AtMostOnePlanPerStore(st.plans) {
        FilterKeepsKeysUnique(st.plans, keep, PlanStoreKey);
      }
    }
    r
  }

  /** `save` of an existing auditor. */
  function WithAuditorReplaced(st: State, a: Auditor): (r: State)
    ensures r == st.(auditors := ReplaceByKey(st.auditors, AuditorKey, a))
    ensures WellFormed(st) && HasAuditor(st.auditors, a.id) ==> WellFormed(r)
  {
    var r := st.(auditors := ReplaceByKey(st.auditors, AuditorKey, a));
    assert WellFormed(st) && HasAuditor(st.auditors, a.id) ==> WellFormed(r) by {
      if WellFormed(st) && HasAuditor(st.auditors, a.id) {
        ReplaceKeepsKeys(st.auditors, AuditorKey, a);
      }
    }
    r
  }

  /** `save` of an existing store. */
  function WithStoreReplaced(st: State, s: Store): (r: State)
    ensures r == st.(stores := ReplaceByKey(st.stores, StoreKey, s))
    ensures WellFormed(st) && HasStore(st.stores, s.id) ==> WellFormed(r)
  {
    var r := st.(stores := ReplaceByKey(st.stores, StoreKey, s));
    assert WellFormed(st) && HasStore(st.stores, s.id) ==> WellFormed(r) by {
      if WellFormed(st) && HasStore(st.stores, s.id) {
        ReplaceKeepsKeys(st.stores, StoreKey, s);
      }
    }
    r
  }

  /** `save` of a new auditor: the IDENTITY column hands out the next id. */
  function WithAuditorInserted(st: State, a: Auditor): (r: (State, Auditor))
    ensures r.1 == a.(id := st.nextAuditorId)
    ensures r.0 == st.(auditors := st.auditors + [r.1], nextAuditorId := st.nextAuditorId + 1)
    ensures WellFormed(st) ==> WellFormed(r.0)
  {
    var row := a.(id := st.nextAuditorId);
    var r := st.(auditors := st.auditors + [row], nextAuditorId := st.nextAuditorId + 1);
    assert WellFormed(st) ==> WellFormed(r) by {
      if WellFormed(st) {
        forall i | 0 <= i < |r.plans|
          ensures HasAuditor(r.auditors, r.plans[i].auditorId)
        {
          assert r.plans[i] == st.plans[i];
          var k :| 0 <= k < |st.auditors| && AuditorKey(st.auditors[k]) == st.plans[i].auditorId;
          assert r.auditors[k] == st.auditors[k];
        }
      }
    }
    (r, row)
  }

  /** `save` of a new store: the IDENTITY column hands out the next id. */
  function WithStoreInserted(st: State, s: Store): (r: (State, Store))
    ensures r.1 == s.(id := st.nextStoreId)
    ensures r.0 == st.(stores := st.stores + [r.1], nextStoreId := st.nextStoreId + 1)
    ensures WellFormed(st) ==> WellFormed(r.0)
  {
    var row := s.(id := st.nextStoreId);
    var r := st.(stores := st.stores + [row], nextStoreId := st.nextStoreId + 1);
    assert WellFormed(st) ==> WellFormed(r) by {
      if WellFormed(st) {
        forall i | 0 <= i < |r.plans|
          ensures HasStore(r.stores, r.plans[i].storeId)
        {
          assert r.plans[i] == st.plans[i];
          var k :| 0 <= k < |st.stores| && StoreKey(st.stores[k]) == st.plans[i].storeId;
          assert r.stores[k] == st.stores[k];
        }
      }
    }
    (r, row)
  }

  // --------------------------------------------------------------- lemmas

  /** Overwriting the row that has a row's key keeps the key column unchanged. */
  lemma ReplaceKeepsKeys<T>(s: seq<T>, key: T -> int, x: T)
    ensures forall i :: 0 <= i < |s| ==> key(ReplaceByKey(s, key, x)[i]) == key(s[i])
  {
  }
}
