/** The mutable backing store shared by the three services: one object whose
    fields are the tables and the IDENTITY counters. Each repository write is
    a method whose new state is the corresponding `Repository` function of the
    old state. */
module Persistence {
  import opened Entities
  import opened Repository

  class Database {
    var auditors: seq<Auditor>
    var stores: seq<Store>
    var plans: seq<AuditPlan>
    var nextAuditorId: int
    var nextStoreId: int
    var nextPlanId: int

    /** The current contents as a value. */
    function Snapshot(): State
      reads this
    {
      State(auditors, stores, plans, nextAuditorId, nextStoreId, nextPlanId)
    }

    ghost predicate Valid()
      reads this
    {
      WellFormed(Snapshot())
    }

    /** Empty tables; IDENTITY columns start at 1. */
    constructor ()
      ensures Valid()
      ensures Snapshot() == State([], [], [], 1, 1, 1)
    {
      auditors, stores, plans := [], [], [];
      nextAuditorId, nextStoreId, nextPlanId := 1, 1, 1;
    }

    /** `auditPlanRepository.save(new AuditPlan(...))`. */
    method InsertPlan(auditorId: int, storeId: int, priority: AuditPriority, status: AuditStatus)
      returns (plan: AuditPlan)
      modifies this
      ensures (Snapshot(), plan) == WithPlanInserted(old(Snapshot()), auditorId, storeId, priority, status)
    {
      plan := AuditPlan(nextPlanId, auditorId, storeId, priority, status);
      plans := plans + [plan];
      nextPlanId := nextPlanId + 1;
    }

    /** `auditPlanRepository.save(existingPlan)`. */
    method UpdatePlan(plan: AuditPlan)
      modifies this
      ensures Snapshot() == WithPlanReplaced(old(Snapshot()), plan)
    {
      plans := Seqs.ReplaceByKey(plans, PlanKey, plan);
    }

    /** `auditPlanRepository.delete(plan)`. */
    method DeletePlan(id: int)
      modifies this
      ensures Snapshot() == WithPlanDeleted(old(Snapshot()), id)
    {
      plans := Seqs.Filter(plans, (q: AuditPlan) => q.id != id);
    }

    /** `auditorRepository.save(existingAuditor)`. */
    method UpdateAuditor(a: Auditor)
      modifies this
      ensures Snapshot() == WithAuditorReplaced(old(Snapshot()), a)
    {
      auditors := Seqs.ReplaceByKey(auditors, AuditorKey, a);
    }

    /** `storeRepository.save(existingStore)`. */
    method UpdateStore(s: Store)
      modifies this
      ensures Snapshot() == WithStoreReplaced(old(Snapshot()), s)
    {
      stores := Seqs.ReplaceByKey(stores, StoreKey, s);
    }

    /** A `@Transactional` method that throws: every write made since the
        transaction began is undone. */
    method Rollback(begin: State)
      modifies this
      ensures Snapshot() == begin
    {
      auditors, stores, plans := begin.auditors, begin.stores, begin.plans;
      nextAuditorId, nextStoreId, nextPlanId := begin.nextAuditorId, begin.nextStoreId, begin.nextPlanId;
    }

    /** `auditorRepository.save(newAuditor)`. */
    method InsertAuditor(a: Auditor) returns (row: Auditor)
      modifies this
      ensures (Snapshot(), row) == WithAuditorInserted(old(Snapshot()), a)
    {
      row := a.(id := nextAuditorId);
      auditors := auditors + [row];
      nextAuditorId := nextAuditorId + 1;
    }

    /** `storeRepository.save(newStore)`. */
    method InsertStore(s: Store) returns (row: Store)
      modifies this
      ensures (Snapshot(), row) == WithStoreInserted(old(Snapshot()), s)
    {
      row := s.(id := nextStoreId);
      stores := stores + [row];
      nextStoreId := nextStoreId + 1;
    }
  }
}
