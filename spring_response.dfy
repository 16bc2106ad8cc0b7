/** `format_spring_boot_response` of the OpenAI optimizer
    (`streamlit/openapp.py`): the assignment entries are folded into two
    lookups, store to auditor and auditor to stores, and the input auditors
    and stores are echoed in their own order with what the lookups say about
    them. Hours are recomputed from a fixed capacity of 40 and 4 hours per
    store, whatever the auditor's own figures were. */
module SpringResponse {
  import opened Wrappers
  import opened DistanceOrder
  import opened GreedyAssignment

  const AUDITOR_CAPACITY_HOURS: real := 40.0
  const HOURS_PER_STORE_AUDIT: real := 4.0

  datatype FormattedAuditor = FormattedAuditor(
    auditorId: int,
    latitude: real,
    longitude: real,
    availabilityStatus: string,
    workloadCapacityHours: real,
    currentAssignedHours: real,
    remainingHours: real,
    assignedStoreIds: seq<int>,
    raw: AuditorRow)

  datatype FormattedStore = FormattedStore(
    storeId: int,
    latitude: real,
    longitude: real,
    storeStatus: string,
    assignedAuditorId: Option<int>,
    raw: StoreRow)

  datatype Response = Response(status: string, code: string, auditors: seq<FormattedAuditor>, stores: seq<FormattedStore>)

  /** `auditor_to_stores.get(auditor_id, [])` after the loop over `asg`:
      the stores of the entries naming the auditor by a truthy id, in entry
      order. */
  function StoresOf(asg: seq<Assignment>, id: int): seq<int>
    decreases |asg|
  {
    if asg == [] then []
    else
      var e := asg[|asg| - 1];
      StoresOf(asg[..|asg| - 1], id)
        + (if IsTruthyId(e.assignedAuditorId) && e.assignedAuditorId.value == id then [e.storeId] else [])
  }

  /** `store_to_auditor.get(store_id)` after the loop over `asg`: what the
      last entry for the store says, and `None` when there is no entry. */
  function LastAuditorFor(asg: seq<Assignment>, storeId: int): Option<int>
    decreases |asg|
  {
    if asg == [] then None
    else if asg[|asg| - 1].storeId == storeId then asg[|asg| - 1].assignedAuditorId
    else LastAuditorFor(asg[..|asg| - 1], storeId)
  }

  function FormatAuditor(a: AuditorRow, storeIds: seq<int>): FormattedAuditor
  {
    var hours := |storeIds| as real * HOURS_PER_STORE_AUDIT;
    FormattedAuditor(a.auditorId, a.latitude, a.longitude, a.availabilityStatus,
      AUDITOR_CAPACITY_HOURS, hours, AUDITOR_CAPACITY_HOURS - hours, storeIds, a)
  }

  function FormatStore(s: StoreRow, holder: Option<int>): FormattedStore
  {
    FormattedStore(s.storeId, s.latitude, s.longitude, s.storeStatus, holder, s)
  }

  /** What `format_spring_boot_response(auditors, stores, {"assignments": asg})` returns. */
  function FormatSpec(auditors: seq<AuditorRow>, stores: seq<StoreRow>, asg: seq<Assignment>): Response
  {
    Response("success", "SUCCESS",
      seq(|auditors|, i requires 0 <= i < |auditors| => FormatAuditor(auditors[i], StoresOf(asg, auditors[i].auditorId))),
      seq(|stores|, i requires 0 <= i < |stores| => FormatStore(stores[i], LastAuditorFor(asg, stores[i].storeId))))
  }

  // ---------------------------------------------------------------------
  // Properties
  // ---------------------------------------------------------------------

  /** Entry `k` is the last one about `storeId`. */
  predicate LastEntryFor(asg: seq<Assignment>, storeId: int, k: int)
  {
    0 <= k < |asg| && asg[k].storeId == storeId && forall l :: k < l < |asg| ==> asg[l].storeId != storeId
  }

  /** A store's auditor comes from the last entry about it, and is `None`
      when no entry is about it. */
  lemma {:induction false} LastAuditorForMeaning(asg: seq<Assignment>, storeId: int)
    ensures (exists k :: LastEntryFor(asg, storeId, k) && LastAuditorFor(asg, storeId) == asg[k].assignedAuditorId)
         || (LastAuditorFor(asg, storeId).None? && forall k :: 0 <= k < |asg| ==> asg[k].storeId != storeId)
    decreases |asg|
  {
    if asg != [] {
      var n := |asg| - 1;
      if asg[n].storeId == storeId {
        assert LastEntryFor(asg, storeId, n);
      } else {
        LastAuditorForMeaning(asg[..n], storeId);
        if exists k :: LastEntryFor(asg[..n], storeId, k) && LastAuditorFor(asg[..n], storeId) == asg[..n][k].assignedAuditorId {
          var k :| LastEntryFor(asg[..n], storeId, k) && LastAuditorFor(asg[..n], storeId) == asg[..n][k].assignedAuditorId;
          assert LastEntryFor(asg, storeId, k);
        } else {
          forall k | 0 <= k < |asg| ensures asg[k].storeId != storeId {
            if k < n {
              assert asg[..n][k] == asg[k];
            }
          }
        }
      }
    }
  }

  /** Every store listed for an auditor comes from an entry naming that
      auditor by a truthy id, and every such entry is listed. */
  lemma {:induction false} StoresOfMeaning(asg: seq<Assignment>, id: int)
    ensures forall x :: x in StoresOf(asg, id) ==>
      exists k :: 0 <= k < |asg| && asg[k].storeId == x && asg[k].assignedAuditorId == Some(id) && id != 0
    ensures forall k :: 0 <= k < |asg| && asg[k].assignedAuditorId == Some(id) && id != 0 ==>
      asg[k].storeId in StoresOf(asg, id)
    ensures StoresOf(asg, id) != [] ==>
      exists k :: 0 <= k < |asg| && asg[k].assignedAuditorId == Some(id) && id != 0
    decreases |asg|
  {
    if StoresOf(asg, id) != [] {
      assert StoresOf(asg, id)[0] in StoresOf(asg, id);
    }
    if asg != [] {
      var n := |asg| - 1;
      StoresOfMeaning(asg[..n], id);
      forall x | x in StoresOf(asg, id)
        ensures exists k :: 0 <= k < |asg| && asg[k].storeId == x && asg[k].assignedAuditorId == Some(id) && id != 0
      {
        if x in StoresOf(asg[..n], id) {
          var k :| 0 <= k < n && asg[..n][k].storeId == x && asg[..n][k].assignedAuditorId == Some(id) && id != 0;
          assert asg[k] == asg[..n][k];
        }
      }
      forall k | 0 <= k < |asg| && asg[k].assignedAuditorId == Some(id) && id != 0
        ensures asg[k].storeId in StoresOf(asg, id)
      {
        if k < n {
          assert asg[..n][k] == asg[k];
        }
      }
    }
  }

  /** With no truthy auditor id repeated, an auditor is listed with at most
      one store, and with exactly the store of the entry naming it when
      there is one. */
  lemma {:induction false} OneStorePerAuditor(asg: seq<Assignment>, id: int)
    requires NoRepeatedAuditor(AuditorIds(asg))
    ensures |StoresOf(asg, id)| <= MAX_STORES_PER_AUDITOR
    ensures forall k :: 0 <= k < |asg| && asg[k].assignedAuditorId == Some(id) && id != 0 ==>
      StoresOf(asg, id) == [asg[k].storeId]
    decreases |asg|
  {
    if asg != [] {
      var n := |asg| - 1;
      assert AuditorIds(asg[..n]) == AuditorIds(asg)[..n];
      OneStorePerAuditor(asg[..n], id);
      var e := asg[n];
      if IsTruthyId(e.assignedAuditorId) && e.assignedAuditorId.value == id {
        // the last entry names the auditor, so no earlier one does
        forall k | 0 <= k < n ensures asg[..n][k].assignedAuditorId != Some(id) {
          assert asg[..n][k] == asg[k] && AuditorIds(asg)[k] == asg[k].assignedAuditorId;
        }
        StoresOfMeaning(asg[..n], id);
      } else {
        forall k | 0 <= k < |asg| && asg[k].assignedAuditorId == Some(id) && id != 0
          ensures StoresOf(asg, id) == [asg[k].storeId]
        {
          if k < n {
            assert asg[..n][k] == asg[k];
          }
        }
      }
    }
  }

  /** The response echoes the auditors in input order; each lists exactly the
      stores of the entries naming it by a truthy id, and shows 4 hours used
      per listed store, with the rest of the 40 hours left. */
  lemma FormattedAuditorMeaning(auditors: seq<AuditorRow>, stores: seq<StoreRow>, asg: seq<Assignment>, i: nat)
    requires i < |auditors|
    ensures |FormatSpec(auditors, stores, asg).auditors| == |auditors|
    ensures var f := FormatSpec(auditors, stores, asg).auditors[i];
      && f.raw == auditors[i] && f.auditorId == auditors[i].auditorId
      && (forall x :: x in f.assignedStoreIds ==>
            exists k :: 0 <= k < |asg| && asg[k].storeId == x && asg[k].assignedAuditorId == Some(f.auditorId) && f.auditorId != 0)
      && (forall k :: 0 <= k < |asg| && asg[k].assignedAuditorId == Some(f.auditorId) && f.auditorId != 0 ==>
            asg[k].storeId in f.assignedStoreIds)
      && f.currentAssignedHours == |f.assignedStoreIds| as real * HOURS_PER_STORE_AUDIT
      && f.currentAssignedHours + f.remainingHours == AUDITOR_CAPACITY_HOURS
  {
    StoresOfMeaning(asg, auditors[i].auditorId);
  }

  /** The response echoes the stores in input order; each shows the auditor
      of the last entry about it, or `None` when no entry is about it. */
  lemma FormattedStoreMeaning(auditors: seq<AuditorRow>, stores: seq<StoreRow>, asg: seq<Assignment>, j: nat)
    requires j < |stores|
    ensures |FormatSpec(auditors, stores, asg).stores| == |stores|
    ensures var f := FormatSpec(auditors, stores, asg).stores[j];
      && f.raw == stores[j] && f.storeId == stores[j].storeId
      && ((exists k :: LastEntryFor(asg, f.storeId, k) && f.assignedAuditorId == asg[k].assignedAuditorId)
          || (f.assignedAuditorId.None? && forall k :: 0 <= k < |asg| ==> asg[k].storeId != f.storeId))
  {
    LastAuditorForMeaning(asg, stores[j].storeId);
  }

  /** In the response to a greedy answer, an auditor shows 4 hours used
      and 36 left when its id was given a store, and 0 and 40 otherwise. */
  lemma GreedyResponseAuditor(distance: Distance, auditors: seq<AuditorRow>, stores: seq<StoreRow>, i: nat)
    requires i < |auditors|
    ensures ServedHours(FormatSpec(auditors, stores, GreedySpec(distance, auditors, stores)).auditors[i],
                        GreedySpec(distance, auditors, stores))
  {
    GreedyPassesCheck(distance, auditors, stores);
    OneToOneServedHours(auditors, stores, GreedySpec(distance, auditors, stores), i);
  }

  /** The same for any answer that passes the one-to-one check. */
  lemma OneToOneServedHours(auditors: seq<AuditorRow>, stores: seq<StoreRow>, asg: seq<Assignment>, i: nat)
    requires i < |auditors| && NoRepeatedAuditor(AuditorIds(asg))
    ensures ServedHours(FormatSpec(auditors, stores, asg).auditors[i], asg)
  {
    var id := auditors[i].auditorId;
    assert FormatSpec(auditors, stores, asg).auditors[i] == FormatAuditor(auditors[i], StoresOf(asg, id));
    OneStorePerAuditor(asg, id);
    StoresOfMeaning(asg, id);
    if id != 0 && exists k :: 0 <= k < |asg| && asg[k].assignedAuditorId == Some(id) {
      var k :| 0 <= k < |asg| && asg[k].assignedAuditorId == Some(id);
      assert |StoresOf(asg, id)| == 1;
    } else {
      assert StoresOf(asg, id) == [];
    }
  }

  /** In the response to a greedy answer, every auditor a store shows is an
      Available one. */
  lemma GreedyResponseStore(distance: Distance, auditors: seq<AuditorRow>, stores: seq<StoreRow>, j: nat)
    requires j < |stores|
    requires FormatSpec(auditors, stores, GreedySpec(distance, auditors, stores)).stores[j].assignedAuditorId.Some?
    ensures exists a :: (a in auditors && IsAvailable(a)
      && Some(a.auditorId) == FormatSpec(auditors, stores, GreedySpec(distance, auditors, stores)).stores[j].assignedAuditorId)
  {
    var asg := GreedySpec(distance, auditors, stores);
    LastAuditorForMeaning(asg, stores[j].storeId);
    var k :| LastEntryFor(asg, stores[j].storeId, k) && LastAuditorFor(asg, stores[j].storeId) == asg[k].assignedAuditorId;
    GreedyDecides(distance, auditors, stores, k);
  }

  /** The hours shown for an auditor given at most one store. */
  predicate ServedHours(f: FormattedAuditor, asg: seq<Assignment>)
  {
    var served := f.auditorId != 0 && exists k :: 0 <= k < |asg| && asg[k].assignedAuditorId == Some(f.auditorId);
    && f.currentAssignedHours == (if served then HOURS_PER_STORE_AUDIT else 0.0)
    && f.currentAssignedHours + f.remainingHours == AUDITOR_CAPACITY_HOURS
  }

  // ---------------------------------------------------------------------
  // The procedure
  // ---------------------------------------------------------------------

  /** `auditor_to_stores.get(auditor_id, [])`. */
  function StoresLookup(m: map<int, seq<int>>, id: int): seq<int>
  {
    if id in m then m[id] else []
  }

  /** `store_to_auditor.get(store_id)`. */
  function AuditorLookup(m: map<int, Option<int>>, storeId: int): Option<int>
  {
    if storeId in m then m[storeId] else None
  }

  /** The loop over the assignment entries that fills both lookups. */
  method BuildLookups(asg: seq<Assignment>)
    returns (auditorToStores: map<int, seq<int>>, storeToAuditor: map<int, Option<int>>)
    ensures forall id :: StoresLookup(auditorToStores, id) == StoresOf(asg, id)
    ensures forall sid :: AuditorLookup(storeToAuditor, sid) == LastAuditorFor(asg, sid)
  {
    auditorToStores, storeToAuditor := map[], map[];
    for k := 0 to |asg|
      invariant forall id :: StoresLookup(auditorToStores, id) == StoresOf(asg[..k], id)
      invariant forall sid :: AuditorLookup(storeToAuditor, sid) == LastAuditorFor(asg[..k], sid)
    {
      var e := asg[k];
      assert asg[..k + 1][..k] == asg[..k];
      storeToAuditor := storeToAuditor[e.storeId := e.assignedAuditorId];
      if IsTruthyId(e.assignedAuditorId) {
        var id := e.assignedAuditorId.value;
        auditorToStores := auditorToStores[id := StoresLookup(auditorToStores, id) + [e.storeId]];
      }
    }
    assert asg[..|asg|] == asg;
  }

  /** `format_spring_boot_response(auditors, stores, {"assignments": asg})`. */
  method FormatSpringBootResponse(auditors: seq<AuditorRow>, stores: seq<StoreRow>, asg: seq<Assignment>)
    returns (r: Response)
    ensures r == FormatSpec(auditors, stores, asg)
  {
    var auditorToStores, storeToAuditor := BuildLookups(asg);
    var formattedAuditors: seq<FormattedAuditor> := [];
    for i := 0 to |auditors|
      invariant |formattedAuditors| == i
      invariant forall k :: 0 <= k < i ==>
        formattedAuditors[k] == FormatAuditor(auditors[k], StoresOf(asg, auditors[k].auditorId))
    {
      var a := auditors[i];
      var storeIds := StoresLookup(auditorToStores, a.auditorId);
      var hours := |storeIds| as real * HOURS_PER_STORE_AUDIT;
      formattedAuditors := formattedAuditors + [FormattedAuditor(a.auditorId, a.latitude, a.longitude,
        a.availabilityStatus, AUDITOR_CAPACITY_HOURS, hours, AUDITOR_CAPACITY_HOURS - hours, storeIds, a)];
    }
    var formattedStores: seq<FormattedStore> := [];
    for j := 0 to |stores|
      invariant |formattedStores| == j
      invariant forall k :: 0 <= k < j ==>
        formattedStores[k] == FormatStore(stores[k], LastAuditorFor(asg, stores[k].storeId))
    {
      var s := stores[j];
      formattedStores := formattedStores + [FormattedStore(s.storeId, s.latitude, s.longitude, s.storeStatus,
        AuditorLookup(storeToAuditor, s.storeId), s)];
    }
    r := Response("success", "SUCCESS", formattedAuditors, formattedStores);
  }
}
