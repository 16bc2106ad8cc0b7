/** `assign_stores_to_auditors` of the Flask optimizer (`streamlit/app.py`):
    every OPEN store, in turn, goes to the nearest auditor who is Available,
    has hours left and has no store yet; each store visited leaves one
    disruption record. The per-auditor working state of the source (the
    `remaining_hours` and `assigned_store_ids` entries it adds to each
    auditor dict) is a `Slot`. */
module FlaskAssignment {
  import opened Wrappers
  import opened Seqs
  import opened DistanceOrder

  const ESTIMATED_HOURS_PER_STORE: real := 4.0

  /** An auditor dict after adaptation and validation. */
  datatype AuditorIn = AuditorIn(
    auditorId: int,
    latitude: real,
    longitude: real,
    availabilityStatus: string,
    workloadCapacityHours: real,
    currentAssignedHours: real)

  /** A store dict after adaptation and validation. */
  datatype StoreIn = StoreIn(storeId: int, latitude: real, longitude: real, storeStatus: string)

  function AuditorInKey(a: AuditorIn): int { a.auditorId }
  function StoreInKey(s: StoreIn): int { s.storeId }

  function DistanceTo(distance: Distance, store: StoreIn, a: AuditorIn): real
  {
    distance(store.latitude, store.longitude, a.latitude, a.longitude)
  }

  /** `max(0.0, x)`. */
  function Max0(x: real): real
  {
    if x > 0.0 then x else 0.0
  }

  /** `min(a, b)`. */
  function MinReal(a: real, b: real): real
  {
    if a <= b then a else b
  }

  /** Hours an auditor has left before any assignment: capacity minus what
      is already assigned, never below zero. */
  function InitialRemaining(a: AuditorIn): (r: real)
    ensures r >= 0.0
    ensures r > 0.0 <==> a.currentAssignedHours < a.workloadCapacityHours
  {
    Max0(a.workloadCapacityHours - a.currentAssignedHours)
  }

  /** Hours booked for one store: the estimate, or what is left if less. */
  function Allocation(remaining: real): real
  {
    MinReal(ESTIMATED_HOURS_PER_STORE, remaining)
  }

  datatype Slot = Slot(auditor: AuditorIn, remaining: real, assignedStoreIds: seq<int>)

  function SlotKey(s: Slot): int { s.auditor.auditorId }

  predicate Eligible(s: Slot)
  {
    s.auditor.availabilityStatus == "Available" && s.remaining > 0.0 && |s.assignedStoreIds| == 0
  }

  predicate IsOpen(s: StoreIn)
  {
    s.storeStatus == "Open"
  }

  /** A disruption record; its `D001`-style id is `number`, and its
      reassignment status is PENDING for the first kind and IMPLEMENTED for
      the second. */
  datatype Disruption =
    | NoAvailableAuditor(number: nat, storeId: int)
    | StoreAssignment(number: nat, storeId: int, auditorId: int, distanceKm: real, allocatedHours: real)

  /** The state the loop over open stores updates. `assignedTo` holds the
      `assigned_auditor_id` entries written into the store dicts. */
  datatype Progress = Progress(slots: seq<Slot>, assignedTo: map<int, Option<int>>, disruptions: seq<Disruption>)

  function CandidateOf(distance: Distance, store: StoreIn, s: Slot): Candidate
  {
    Candidate(s.auditor.auditorId, DistanceTo(distance, store, s.auditor))
  }

  /** The `distances` list built for one store, before sorting. */
  function CandidatesFor(distance: Distance, store: StoreIn, eligible: seq<Slot>): (r: seq<Candidate>)
    ensures |r| == |eligible|
    ensures forall k :: 0 <= k < |eligible| ==> r[k] == CandidateOf(distance, store, eligible[k])
  {
    seq(|eligible|, k requires 0 <= k < |eligible| => CandidateOf(distance, store, eligible[k]))
  }

  /** `distances.sort(key=...)` then `distances[0]`: the first candidate at
      the least distance, which is what the stable sort puts in front (see
      `SortedHeadIsFirstMinimum`). */
  function Nearest(distance: Distance, store: StoreIn, eligible: seq<Slot>): Candidate
    requires eligible != []
  {
    FirstMinimum(CandidatesFor(distance, store, eligible), CandidateKey)
  }

  /** `c` is the `(id, km)` tuple of some eligible slot. */
  predicate ChosenAmongEligible(distance: Distance, store: StoreIn, slots: seq<Slot>, c: Candidate)
  {
    exists i :: 0 <= i < |slots| && Eligible(slots[i]) && c == CandidateOf(distance, store, slots[i])
  }

  /** No eligible slot is closer to the store than `km`. */
  predicate NoEligibleNearer(distance: Distance, store: StoreIn, slots: seq<Slot>, km: real)
  {
    forall i :: 0 <= i < |slots| && Eligible(slots[i]) ==> km <= DistanceTo(distance, store, slots[i].auditor)
  }

  /** The chosen candidate is an eligible slot, and no eligible slot is
      nearer to the store. */
  lemma NearestIsEligibleMinimum(distance: Distance, store: StoreIn, slots: seq<Slot>)
    requires Filter(slots, Eligible) != []
    ensures ChosenAmongEligible(distance, store, slots, Nearest(distance, store, Filter(slots, Eligible)))
    ensures NoEligibleNearer(distance, store, slots, Nearest(distance, store, Filter(slots, Eligible)).distance)
  {
    var eligible := Filter(slots, Eligible);
    var cands := CandidatesFor(distance, store, eligible);
    var c := Nearest(distance, store, eligible);
    FirstMinimumIsMinimum(cands, CandidateKey);
    var k :| 0 <= k < |cands| && cands[k] == c;
    assert eligible[k] in slots && Eligible(eligible[k]);
    var i :| 0 <= i < |slots| && slots[i] == eligible[k];
    forall j | 0 <= j < |slots| && Eligible(slots[j])
      ensures c.distance <= DistanceTo(distance, store, slots[j].auditor)
    {
      EligibleIsCandidate(distance, store, slots, j);
      assert Le(CandidateKey(c), CandidateKey(CandidateOf(distance, store, slots[j])));
    }
  }

  /** Every eligible slot is among the candidates for the store. */
  lemma EligibleIsCandidate(distance: Distance, store: StoreIn, slots: seq<Slot>, j: nat)
    requires j < |slots| && Eligible(slots[j])
    ensures CandidateOf(distance, store, slots[j]) in CandidatesFor(distance, store, Filter(slots, Eligible))
  {
    var eligible := Filter(slots, Eligible);
    assert slots[j] in eligible;
    var e :| 0 <= e < |eligible| && eligible[e] == slots[j];
    assert CandidatesFor(distance, store, eligible)[e] == CandidateOf(distance, store, slots[j]);
  }

  /** Which auditor a store goes to: none when no slot is eligible,
      otherwise the nearest candidate and the position of its slot
      (`auditors_map[chosen_id]`). */
  datatype Choice = NoneEligible | Chosen(index: nat, candidate: Candidate)

  function Choose(p: Progress, store: StoreIn, distance: Distance): (r: Choice)
    ensures r.Chosen? ==> r.index < |p.slots| && SlotKey(p.slots[r.index]) == r.candidate.auditorId
  {
    var eligible := Filter(p.slots, Eligible);
    if eligible == [] then NoneEligible
    else
      var c := Nearest(distance, store, eligible);
      NearestIsEligibleMinimum(distance, store, p.slots);
      Chosen(IndexOfKey(p.slots, SlotKey, c.auditorId).value, c)
  }

  /** One pass of the loop over open stores. */
  function Place(p: Progress, store: StoreIn, distance: Distance): (r: Progress)
    ensures |r.slots| == |p.slots|
    ensures |r.disruptions| == |p.disruptions| + 1 && r.disruptions[..|p.disruptions|] == p.disruptions
    ensures r.disruptions[|p.disruptions|].number == |p.disruptions| + 1
    ensures r.disruptions[|p.disruptions|].storeId == store.storeId
    ensures r.assignedTo.Keys == p.assignedTo.Keys + {store.storeId}
  {
    match Choose(p, store, distance)
    case NoneEligible =>
      Progress(p.slots, p.assignedTo[store.storeId := None],
        p.disruptions + [NoAvailableAuditor(|p.disruptions| + 1, store.storeId)])
    case Chosen(i, chosen) =>
      var slot := p.slots[i];
      var alloc := Allocation(slot.remaining);
      Progress(
        p.slots[i := slot.(remaining := Max0(slot.remaining - alloc),
                           assignedStoreIds := slot.assignedStoreIds + [store.storeId])],
        p.assignedTo[store.storeId := Some(chosen.auditorId)],
        p.disruptions + [StoreAssignment(|p.disruptions| + 1, store.storeId, chosen.auditorId, chosen.distance, alloc)])
  }

  /** The loop over `open` from state `p0`. */
  function PlaceAll(p0: Progress, open: seq<StoreIn>, distance: Distance): Progress
    decreases |open|
  {
    if open == [] then p0
    else Place(PlaceAll(p0, open[..|open| - 1], distance), open[|open| - 1], distance)
  }

  function InitialSlots(m: seq<AuditorIn>): seq<Slot>
  {
    seq(|m|, i requires 0 <= i < |m| => Slot(m[i], InitialRemaining(m[i]), []))
  }

  /** The loop over `open` from the prepared auditors `m`. */
  function Run(m: seq<AuditorIn>, open: seq<StoreIn>, distance: Distance): Progress
  {
    PlaceAll(Progress(InitialSlots(m), map[], []), open, distance)
  }

  // ---------------------------------------------------------------------
  // What the loop keeps true
  // ---------------------------------------------------------------------

  /** The auditors the records so far name as assigned. */
  function Taken(ds: seq<Disruption>): set<int>
  {
    set k | 0 <= k < |ds| && ds[k].StoreAssignment? :: ds[k].auditorId
  }

  lemma TakenSnoc(ds: seq<Disruption>, d: Disruption)
    ensures Taken(ds + [d]) == Taken(ds) + (if d.StoreAssignment? then {d.auditorId} else {})
  {
    var e := ds + [d];
    assert forall k :: 0 <= k < |ds| ==> e[k] == ds[k];
    assert e[|ds|] == d;
  }

  /** Auditor `m[i]` may still receive a store once the records `ds` exist:
      Available, with hours left before any assignment, and not yet named by
      a record. */
  predicate EligibleAt(m: seq<AuditorIn>, ds: seq<Disruption>, i: int)
    requires 0 <= i < |m|
  {
    m[i].availabilityStatus == "Available" && InitialRemaining(m[i]) > 0.0 && m[i].auditorId !in Taken(ds)
  }

  /** One auditor's working entry: its hours never go below zero, it holds at
      most one store, and a store was only given to an Available auditor
      with hours left, which then lost the hours booked for it. */
  predicate SlotOk(a: AuditorIn, s: Slot)
  {
    && s.auditor == a
    && s.remaining >= 0.0
    && |s.assignedStoreIds| <= 1
    && (s.assignedStoreIds == [] ==> s.remaining == InitialRemaining(a))
    && (s.assignedStoreIds != [] ==>
          && a.availabilityStatus == "Available"
          && InitialRemaining(a) > 0.0
          && s.remaining == InitialRemaining(a) - Allocation(InitialRemaining(a)))
  }

  /** Store `sid`'s recorded auditor holds exactly that store. */
  predicate Backed(m: seq<AuditorIn>, p: Progress, sid: int)
    requires |p.slots| == |m| && sid in p.assignedTo && p.assignedTo[sid].Some?
  {
    exists i :: 0 <= i < |m| && m[i].auditorId == p.assignedTo[sid].value && p.slots[i].assignedStoreIds == [sid]
  }

  predicate Inv(m: seq<AuditorIn>, p: Progress)
  {
    && |p.slots| == |m|
    && (forall i :: 0 <= i < |m| ==> SlotOk(m[i], p.slots[i]))
    && (forall i :: 0 <= i < |m| ==> (p.slots[i].assignedStoreIds != [] <==> m[i].auditorId in Taken(p.disruptions)))
    && (forall sid :: sid in p.assignedTo && p.assignedTo[sid].Some? ==> Backed(m, p, sid))
  }

  lemma EligibleIffEligibleAt(m: seq<AuditorIn>, p: Progress, i: int)
    requires Inv(m, p) && 0 <= i < |m|
    ensures Eligible(p.slots[i]) <==> EligibleAt(m, p.disruptions, i)
  {
  }

  /** A store finds no auditor exactly when no slot is eligible. */
  lemma NoneEligibleIff(p: Progress, store: StoreIn, distance: Distance)
    ensures Choose(p, store, distance).NoneEligible? <==> forall i :: 0 <= i < |p.slots| ==> !Eligible(p.slots[i])
  {
    var eligible := Filter(p.slots, Eligible);
    if eligible != [] {
      assert eligible[0] in p.slots;
    }
  }

  /** With unique ids, the slot found by id for the chosen candidate is the
      eligible slot the candidate came from, and no eligible slot is nearer. */
  lemma ChosenSlot(m: seq<AuditorIn>, p: Progress, store: StoreIn, distance: Distance)
    requires KeysUnique(m, AuditorInKey) && Inv(m, p)
    requires Choose(p, store, distance).Chosen?
    ensures var i := Choose(p, store, distance).index;
      && Eligible(p.slots[i])
      && Choose(p, store, distance).candidate == CandidateOf(distance, store, p.slots[i])
      && NoEligibleNearer(distance, store, p.slots, Choose(p, store, distance).candidate.distance)
  {
    var eligible := Filter(p.slots, Eligible);
    var c := Nearest(distance, store, eligible);
    NearestIsEligibleMinimum(distance, store, p.slots);
    var e :| 0 <= e < |p.slots| && Eligible(p.slots[e]) && c == CandidateOf(distance, store, p.slots[e]);
    SlotKeysUnique(m, p);
    IndexOfUniqueSlot(p.slots, e);
    assert Choose(p, store, distance) == Chosen(e, c);
  }

  /** Under the invariant the slots carry the auditors' ids, so unique ids
      make unique slot keys. */
  lemma SlotKeysUnique(m: seq<AuditorIn>, p: Progress)
    requires KeysUnique(m, AuditorInKey) && Inv(m, p)
    ensures KeysUnique(p.slots, SlotKey)
  {
    forall i, j | 0 <= i < j < |p.slots| ensures SlotKey(p.slots[i]) != SlotKey(p.slots[j]) {
      assert SlotOk(m[i], p.slots[i]) && SlotOk(m[j], p.slots[j]);
      assert AuditorInKey(m[i]) != AuditorInKey(m[j]);
    }
  }

  /** Looking a slot up by its own key finds that slot. */
  lemma IndexOfUniqueSlot(slots: seq<Slot>, e: nat)
    requires e < |slots| && KeysUnique(slots, SlotKey)
    ensures IndexOfKey(slots, SlotKey, SlotKey(slots[e])) == Some(e)
  {
  }

  lemma PlaceNoneKeepsInv(m: seq<AuditorIn>, p: Progress, store: StoreIn, distance: Distance)
    requires Inv(m, p) && Choose(p, store, distance).NoneEligible?
    ensures Inv(m, Place(p, store, distance))
  {
    var q := Place(p, store, distance);
    TakenSnoc(p.disruptions, NoAvailableAuditor(|p.disruptions| + 1, store.storeId));
    assert q.slots == p.slots;
    forall sid | sid in q.assignedTo && q.assignedTo[sid].Some? ensures Backed(m, q, sid) {
      assert sid != store.storeId && q.assignedTo[sid] == p.assignedTo[sid];
      assert Backed(m, p, sid);
    }
  }

  lemma PlaceChosenKeepsSlots(m: seq<AuditorIn>, p: Progress, store: StoreIn, distance: Distance)
    requires KeysUnique(m, AuditorInKey) && Inv(m, p) && Choose(p, store, distance).Chosen?
    ensures var q := Place(p, store, distance);
      && (forall i :: 0 <= i < |m| ==> SlotOk(m[i], q.slots[i]))
      && (forall i :: 0 <= i < |m| ==> (q.slots[i].assignedStoreIds != [] <==> m[i].auditorId in Taken(q.disruptions)))
  {
    var q := Place(p, store, distance);
    var i := Choose(p, store, distance).index;
    var c := Choose(p, store, distance).candidate;
    ChosenSlot(m, p, store, distance);
    var d := StoreAssignment(|p.disruptions| + 1, store.storeId, c.auditorId, c.distance, Allocation(p.slots[i].remaining));
    assert q.disruptions == p.disruptions + [d];
    TakenSnoc(p.disruptions, d);
    assert SlotOk(m[i], q.slots[i]);
    forall j | 0 <= j < |m| && j != i
      ensures q.slots[j] == p.slots[j] && m[j].auditorId != c.auditorId
    {
    }
  }

  lemma PlaceChosenKeepsBacked(m: seq<AuditorIn>, p: Progress, store: StoreIn, distance: Distance)
    requires KeysUnique(m, AuditorInKey) && Inv(m, p) && Choose(p, store, distance).Chosen?
    ensures var q := Place(p, store, distance);
      forall sid :: sid in q.assignedTo && q.assignedTo[sid].Some? ==> Backed(m, q, sid)
  {
    var q := Place(p, store, distance);
    var i := Choose(p, store, distance).index;
    ChosenSlot(m, p, store, distance);
    forall sid | sid in q.assignedTo && q.assignedTo[sid].Some? ensures Backed(m, q, sid) {
      if sid == store.storeId {
        assert m[i].auditorId == q.assignedTo[sid].value && q.slots[i].assignedStoreIds == [sid];
      } else {
        assert q.assignedTo[sid] == p.assignedTo[sid];
        var j :| 0 <= j < |m| && m[j].auditorId == p.assignedTo[sid].value && p.slots[j].assignedStoreIds == [sid];
        assert q.slots[j] == p.slots[j];
      }
    }
  }

  lemma PlaceKeepsInv(m: seq<AuditorIn>, p: Progress, store: StoreIn, distance: Distance)
    requires KeysUnique(m, AuditorInKey) && Inv(m, p)
    ensures Inv(m, Place(p, store, distance))
  {
    if Choose(p, store, distance).NoneEligible? {
      PlaceNoneKeepsInv(m, p, store, distance);
    } else {
      PlaceChosenKeepsSlots(m, p, store, distance);
      PlaceChosenKeepsBacked(m, p, store, distance);
    }
  }

  /** Running the loop keeps the invariant. */
  lemma {:induction false} RunKeepsInv(m: seq<AuditorIn>, open: seq<StoreIn>, distance: Distance)
    requires KeysUnique(m, AuditorInKey)
    ensures Inv(m, Run(m, open, distance))
    decreases |open|
  {
    if open != [] {
      var init := open[..|open| - 1];
      RunKeepsInv(m, init, distance);
      PlaceKeepsInv(m, Run(m, init, distance), open[|open| - 1], distance);
    }
  }

  /** `ds` holds one record per store of `open`, in order, numbered from 1. */
  predicate NumberedFor(ds: seq<Disruption>, open: seq<StoreIn>)
  {
    |ds| == |open| && forall k :: 0 <= k < |open| ==> ds[k].number == k + 1 && ds[k].storeId == open[k].storeId
  }

  lemma NumberedSnoc(ds: seq<Disruption>, open: seq<StoreIn>, d: Disruption, s: StoreIn)
    requires NumberedFor(ds, open) && d.number == |ds| + 1 && d.storeId == s.storeId
    ensures NumberedFor(ds + [d], open + [s])
  {
  }

  /** The run writes one record per store of `open`, in order, numbered
      from 1. */
  lemma {:induction false} RunRecords(m: seq<AuditorIn>, open: seq<StoreIn>, distance: Distance)
    ensures NumberedFor(Run(m, open, distance).disruptions, open)
    decreases |open|
  {
    if open != [] {
      var init := open[..|open| - 1];
      var last := open[|open| - 1];
      RunRecords(m, init, distance);
      PlaceRecords(Run(m, init, distance), last, distance, init);
      assert NumberedFor(Run(m, open, distance).disruptions, open) by {
        assert open == init + [last];
        RunSnoc(m, open, distance);
      }
    }
  }

  /** A pass adds the next numbered record, for its store. */
  lemma PlaceRecords(p: Progress, store: StoreIn, distance: Distance, visited: seq<StoreIn>)
    requires NumberedFor(p.disruptions, visited)
    ensures NumberedFor(Place(p, store, distance).disruptions, visited + [store])
  {
    var ps := p.disruptions;
    var ds := Place(p, store, distance).disruptions;
    assert ds == ps + [ds[|ps|]] by {
      assert ds[..|ps|] == ps;
    }
    NumberedSnoc(ps, visited, ds[|ps|], store);
  }

  /** The run writes an `assigned_auditor_id` into exactly the stores of
      `open`. */
  lemma {:induction false} RunAssignedKeys(m: seq<AuditorIn>, open: seq<StoreIn>, distance: Distance)
    ensures forall sid :: sid in Run(m, open, distance).assignedTo <==> HasKey(open, StoreInKey, sid)
    decreases |open|
  {
    if open != [] {
      var init, last := open[..|open| - 1], open[|open| - 1];
      RunAssignedKeys(m, init, distance);
      assert Run(m, open, distance).assignedTo.Keys == Run(m, init, distance).assignedTo.Keys + {last.storeId} by {
        RunSnoc(m, open, distance);
      }
      assert forall sid :: HasKey(open, StoreInKey, sid) <==> HasKey(init, StoreInKey, sid) || sid == last.storeId by {
        assert open == init + [last];
        forall sid ensures HasKey(open, StoreInKey, sid) <==> HasKey(init, StoreInKey, sid) || sid == last.storeId {
          HasKeySnoc(init, last, StoreInKey, sid);
        }
      }
    }
  }

  /** What the loop writes into a store's `assigned_auditor_id` next to
      the store's record: the auditor a STORE_ASSIGNMENT names, or `None`
      for NO_AVAILABLE_AUDITOR. */
  function RecordedAuditor(d: Disruption): Option<int>
  {
    if d.StoreAssignment? then Some(d.auditorId) else None
  }

  /** A pass writes for its store the auditor its new record names and
      leaves every other store's entry alone. */
  lemma PlaceAssigns(p: Progress, store: StoreIn, distance: Distance)
    ensures var q := Place(p, store, distance);
      && q.assignedTo[store.storeId] == RecordedAuditor(q.disruptions[|p.disruptions|])
      && forall sid :: sid in p.assignedTo && sid != store.storeId ==> q.assignedTo[sid] == p.assignedTo[sid]
  {
    if Choose(p, store, distance).NoneEligible? {
      PlaceNone(p, store, distance);
    } else {
      assert Choose(p, store, distance).Chosen?;
    }
  }

  /** The last pass of a run, stated on the runs themselves. */
  lemma RunAssignsLast(m: seq<AuditorIn>, open: seq<StoreIn>, distance: Distance)
    requires open != []
    ensures var p := Run(m, open[..|open| - 1], distance);
      var q := Run(m, open, distance);
      && |p.disruptions| == |open| - 1 && |q.disruptions| == |open|
      && q.assignedTo[open[|open| - 1].storeId] == RecordedAuditor(q.disruptions[|open| - 1])
      && forall sid :: sid in p.assignedTo && sid != open[|open| - 1].storeId ==> q.assignedTo[sid] == p.assignedTo[sid]
  {
    var init := open[..|open| - 1];
    RunRecords(m, init, distance);
    RunRecords(m, open, distance);
    RunSnoc(m, open, distance);
    PlaceAssigns(Run(m, init, distance), open[|open| - 1], distance);
  }

  /** When the stores have distinct ids, each store of the run ends up
      holding exactly the auditor its record names. */
  lemma {:induction false} RunAssignsAsRecorded(m: seq<AuditorIn>, open: seq<StoreIn>, distance: Distance)
    requires KeysUnique(open, StoreInKey)
    ensures var q := Run(m, open, distance);
      && |q.disruptions| == |open|
      && forall k :: 0 <= k < |open| ==>
           open[k].storeId in q.assignedTo && q.assignedTo[open[k].storeId] == RecordedAuditor(q.disruptions[k])
    decreases |open|
  {
    RunRecords(m, open, distance);
    RunAssignedKeys(m, open, distance);
    if open != [] {
      var n := |open| - 1;
      var init := open[..n];
      assert KeysUnique(init, StoreInKey) by {
        forall i, j | 0 <= i < j < |init| ensures StoreInKey(init[i]) != StoreInKey(init[j]) {
          assert init[i] == open[i] && init[j] == open[j];
        }
      }
      RunAssignsAsRecorded(m, init, distance);
      RunAssignsLast(m, open, distance);
      RunExtends(m, open, distance);
      var p := Run(m, init, distance);
      var q := Run(m, open, distance);
      forall k | 0 <= k < |open|
        ensures open[k].storeId in q.assignedTo && q.assignedTo[open[k].storeId] == RecordedAuditor(q.disruptions[k])
      {
        assert HasKey(open, StoreInKey, open[k].storeId);
        if k < n {
          assert open[k] == init[k];
          assert StoreInKey(open[k]) != StoreInKey(open[n]);
          assert q.disruptions[k] == q.disruptions[..n][k];
        }
      }
    }
  }

  /** The records present before store `k` is visited are the first `k`
      records of the whole run. */
  lemma {:induction false} RunPrefix(m: seq<AuditorIn>, open: seq<StoreIn>, k: nat, distance: Distance)
    requires k <= |open|
    ensures |Run(m, open, distance).disruptions| == |open|
    ensures Run(m, open[..k], distance).disruptions == Run(m, open, distance).disruptions[..k]
    decreases |open|
  {
    RunRecords(m, open, distance);
    if k == |open| {
      assert open[..k] == open;
    } else {
      var init := open[..|open| - 1];
      RunPrefix(m, init, k, distance);
      RunExtends(m, open, distance);
      var ds := Run(m, open, distance).disruptions;
      assert init[..k] == open[..k];
      assert ds[..|open| - 1][..k] == ds[..k];
    }
  }

  /** The records of the loop over all but the last store are the first
      records of the whole loop. */
  lemma RunExtends(m: seq<AuditorIn>, open: seq<StoreIn>, distance: Distance)
    requires open != []
    ensures |Run(m, open, distance).disruptions| == |open|
    ensures Run(m, open[..|open| - 1], distance).disruptions == Run(m, open, distance).disruptions[..|open| - 1]
  {
    var init := open[..|open| - 1];
    RunRecords(m, open, distance);
    RunRecords(m, init, distance);
    RunSnoc(m, open, distance);
  }

  /** The loop over `open` is the loop over all but its last store, then
      one more `Place`. */
  lemma RunSnoc(m: seq<AuditorIn>, open: seq<StoreIn>, distance: Distance)
    requires open != []
    ensures Run(m, open, distance) == Place(Run(m, open[..|open| - 1], distance), open[|open| - 1], distance)
  {
  }

  /** Visiting store `k` is one `Place` step from the state before it. */
  lemma RunStep(m: seq<AuditorIn>, open: seq<StoreIn>, k: nat, distance: Distance)
    requires k < |open|
    ensures Run(m, open[..k + 1], distance) == Place(Run(m, open[..k], distance), open[k], distance)
  {
    assert open[..k + 1][..k] == open[..k];
  }

  /** Record `d`, written for `store` after the records `ds`, follows the
      rule: NO_AVAILABLE_AUDITOR exactly when nobody is eligible, otherwise a
      STORE_ASSIGNMENT naming an eligible auditor no farther from the store
      than any other eligible auditor, with the hours booked for it. */
  predicate Decided(m: seq<AuditorIn>, ds: seq<Disruption>, store: StoreIn, distance: Distance, d: Disruption)
  {
    && (d.NoAvailableAuditor? <==> forall i :: 0 <= i < |m| ==> !EligibleAt(m, ds, i))
    && (d.StoreAssignment? ==> ChoseNearest(m, ds, store, distance, d))
  }

  predicate ChoseNearest(m: seq<AuditorIn>, ds: seq<Disruption>, store: StoreIn, distance: Distance, d: Disruption)
    requires d.StoreAssignment?
  {
    && (exists i :: 0 <= i < |m| && EligibleAt(m, ds, i) && IsRecordOf(m[i], store, distance, d))
    && (forall i :: 0 <= i < |m| && EligibleAt(m, ds, i) ==> d.distanceKm <= DistanceTo(distance, store, m[i]))
  }

  predicate IsRecordOf(a: AuditorIn, store: StoreIn, distance: Distance, d: Disruption)
    requires d.StoreAssignment?
  {
    && d.auditorId == a.auditorId
    && d.distanceKm == DistanceTo(distance, store, a)
    && d.allocatedHours == Allocation(InitialRemaining(a))
  }

  lemma PlaceDecides(m: seq<AuditorIn>, p: Progress, store: StoreIn, distance: Distance)
    requires KeysUnique(m, AuditorInKey) && Inv(m, p)
    ensures Decided(m, p.disruptions, store, distance, Place(p, store, distance).disruptions[|p.disruptions|])
  {
    var d := Place(p, store, distance).disruptions[|p.disruptions|];
    NoneEligibleIff(p, store, distance);
    forall i | 0 <= i < |m| ensures Eligible(p.slots[i]) <==> EligibleAt(m, p.disruptions, i) {
      EligibleIffEligibleAt(m, p, i);
    }
    if Choose(p, store, distance).Chosen? {
      var i := Choose(p, store, distance).index;
      ChosenSlot(m, p, store, distance);
      assert IsRecordOf(m[i], store, distance, d);
    }
  }

  /** Every record of the run follows the rule, judged against the records
      written before it. */
  lemma RunDecides(m: seq<AuditorIn>, open: seq<StoreIn>, k: nat, distance: Distance)
    requires KeysUnique(m, AuditorInKey) && k < |open|
    ensures |Run(m, open, distance).disruptions| == |open|
    ensures var ds := Run(m, open, distance).disruptions;
      Decided(m, ds[..k], open[k], distance, ds[k])
  {
    var ds := Run(m, open, distance).disruptions;
    var p := Run(m, open[..k], distance);
    RunKeepsInv(m, open[..k], distance);
    RunStep(m, open, k, distance);
    RunPrefix(m, open, k, distance);
    RunPrefix(m, open, k + 1, distance);
    RunPrefix(m, open[..k + 1], k, distance);
    PlaceDecides(m, p, open[k], distance);
    assert p.disruptions == ds[..k];
    assert Run(m, open[..k + 1], distance).disruptions[k] == ds[k];
  }

  // ---------------------------------------------------------------------
  // The result
  // ---------------------------------------------------------------------

  datatype AuditorOut = AuditorOut(
    auditorId: int,
    latitude: real,
    longitude: real,
    availabilityStatus: string,
    workloadCapacityHours: real,
    currentAssignedHours: real,
    remainingHours: real,
    assignedStoreIds: seq<int>)

  datatype StoreOut = StoreOut(
    storeId: int,
    latitude: real,
    longitude: real,
    storeStatus: string,
    assignedAuditorId: Option<int>)

  datatype AssignmentResult = AssignmentResult(
    auditors: seq<AuditorOut>,
    stores: seq<StoreOut>,
    disruptions: seq<Disruption>)

  /** The predicted `currentAssignedHours` as the source computes it: the
      current hours plus capacity minus what is left. */
  function PredictedAssignedAsWritten(a: AuditorIn, remaining: real): real
  {
    a.currentAssignedHours + (a.workloadCapacityHours - remaining)
  }

  /** The predicted `currentAssignedHours` as intended: the current hours
      plus the hours this run booked. */
  function PredictedAssigned(a: AuditorIn, remaining: real): real
  {
    a.currentAssignedHours + (InitialRemaining(a) - remaining)
  }

  function AuditorOutOf(s: Slot): AuditorOut
  {
    AuditorOut(s.auditor.auditorId, s.auditor.latitude, s.auditor.longitude, s.auditor.availabilityStatus,
      s.auditor.workloadCapacityHours, PredictedAssigned(s.auditor, s.remaining), s.remaining, s.assignedStoreIds)
  }

  function StoreOutOf(s: StoreIn, assignedTo: map<int, Option<int>>): StoreOut
  {
    StoreOut(s.storeId, s.latitude, s.longitude, s.storeStatus,
      if s.storeId in assignedTo then assignedTo[s.storeId] else None)
  }

  /** `[s for s in stores_map.values() if s["store_status"] == "Open"]`. */
  function OpenStores(stores: seq<StoreIn>): seq<StoreIn>
  {
    Filter(DictOf(stores, StoreInKey), IsOpen)
  }

  /** What `assign_stores_to_auditors` returns. */
  function AssignSpec(auditors: seq<AuditorIn>, stores: seq<StoreIn>, distance: Distance): AssignmentResult
  {
    Outputs(DictOf(stores, StoreInKey), Run(DictOf(auditors, AuditorInKey), OpenStores(stores), distance))
  }

  /** The three output lists built from the loop's final state `q`. */
  function Outputs(sm: seq<StoreIn>, q: Progress): AssignmentResult
  {
    AssignmentResult(
      seq(|q.slots|, i requires 0 <= i < |q.slots| => AuditorOutOf(q.slots[i])),
      seq(|sm|, i requires 0 <= i < |sm| => StoreOutOf(sm[i], q.assignedTo)),
      q.disruptions)
  }

  /** What the result says about one auditor `a`. */
  predicate AuditorOutcome(a: AuditorIn, o: AuditorOut)
  {
    && o.auditorId == a.auditorId && o.latitude == a.latitude && o.longitude == a.longitude
    && o.availabilityStatus == a.availabilityStatus && o.workloadCapacityHours == a.workloadCapacityHours
    && o.remainingHours >= 0.0
    && |o.assignedStoreIds| <= 1
    && (o.assignedStoreIds == [] ==>
          o.remainingHours == InitialRemaining(a) && o.currentAssignedHours == a.currentAssignedHours)
    && (o.assignedStoreIds != [] ==>
          && a.availabilityStatus == "Available"
          && InitialRemaining(a) > 0.0
          && o.currentAssignedHours == a.currentAssignedHours + Allocation(InitialRemaining(a))
          && o.remainingHours == InitialRemaining(a) - Allocation(InitialRemaining(a)))
    && (a.currentAssignedHours <= a.workloadCapacityHours ==>
          o.currentAssignedHours + o.remainingHours == a.workloadCapacityHours)
  }

  /** One output auditor per distinct input id, and each one holds at most
      one store, never has negative hours left, and only holds a store if it
      was Available with hours left; its predicted hours are its current
      hours plus the hours booked, which with what is left make up its
      capacity. */
  lemma AssignSpecAuditors(auditors: seq<AuditorIn>, stores: seq<StoreIn>, distance: Distance)
    ensures var m := DictOf(auditors, AuditorInKey);
      var r := AssignSpec(auditors, stores, distance);
      && |r.auditors| == |m|
      && (forall i :: 0 <= i < |m| ==> AuditorOutcome(m[i], r.auditors[i]))
  {
    var m := DictOf(auditors, AuditorInKey);
    var q := Run(m, OpenStores(stores), distance);
    RunKeepsInv(m, OpenStores(stores), distance);
    forall i | 0 <= i < |m| ensures AuditorOutcome(m[i], AssignSpec(auditors, stores, distance).auditors[i]) {
      SlotOutcome(m[i], q.slots[i]);
    }
  }

  /** The output entry of a working entry that keeps the invariant. */
  lemma SlotOutcome(a: AuditorIn, s: Slot)
    requires SlotOk(a, s)
    ensures AuditorOutcome(a, AuditorOutOf(s))
  {
  }

  /** One output store per distinct input id; a store that received an
      auditor is OPEN and that auditor's output lists exactly that store. */
  lemma AssignSpecStores(auditors: seq<AuditorIn>, stores: seq<StoreIn>, distance: Distance)
    ensures var sm := DictOf(stores, StoreInKey);
      var r := AssignSpec(auditors, stores, distance);
      && |r.stores| == |sm|
      && (forall i :: 0 <= i < |sm| ==> r.stores[i].storeId == sm[i].storeId && r.stores[i].storeStatus == sm[i].storeStatus)
      && (forall i :: 0 <= i < |sm| && r.stores[i].assignedAuditorId.Some? ==> sm[i].storeStatus == "Open")
      && (forall i :: 0 <= i < |sm| && r.stores[i].assignedAuditorId.Some? ==> HoldsStore(r.auditors, r.stores[i]))
  {
    var m := DictOf(auditors, AuditorInKey);
    var sm := DictOf(stores, StoreInKey);
    var open := OpenStores(stores);
    var q := Run(m, open, distance);
    var r := AssignSpec(auditors, stores, distance);
    RunKeepsInv(m, open, distance);
    RunAssignedKeys(m, open, distance);
    forall i | 0 <= i < |sm| && r.stores[i].assignedAuditorId.Some?
      ensures sm[i].storeStatus == "Open" && HoldsStore(r.auditors, r.stores[i])
    {
      assert r.stores[i] == StoreOutOf(sm[i], q.assignedTo);
      StoreGotOpenAuditor(m, sm, open, q, i);
      var a :| 0 <= a < |m| && m[a].auditorId == q.assignedTo[sm[i].storeId].value
        && q.slots[a].assignedStoreIds == [sm[i].storeId];
      assert r.auditors[a] == AuditorOutOf(q.slots[a]);
    }
  }

  /** The two output lists say what the records say. A store that is not
      OPEN has no auditor; an OPEN store's `assigned_auditor_id` is the
      auditor its record names, or `None` when its record is
      NO_AVAILABLE_AUDITOR; the auditor a STORE_ASSIGNMENT names lists
      exactly that store; and an auditor lists a store only if some record
      assigns it. With `AssignSpecDisruptions`, each store's auditor is
      therefore the nearest one eligible at its turn. */
  lemma AssignSpecMatchesRecords(auditors: seq<AuditorIn>, stores: seq<StoreIn>, distance: Distance)
    ensures MatchesRecords(DictOf(auditors, AuditorInKey), DictOf(stores, StoreInKey), OpenStores(stores),
      AssignSpec(auditors, stores, distance))
  {
    var m := DictOf(auditors, AuditorInKey);
    var sm := DictOf(stores, StoreInKey);
    var open := OpenStores(stores);
    var q := Run(m, open, distance);
    FilterKeepsKeysUnique(sm, IsOpen, StoreInKey);
    RunKeepsInv(m, open, distance);
    RunAssignedKeys(m, open, distance);
    RunAssignsAsRecorded(m, open, distance);
    OutputsMatchRecords(m, sm, open, q);
  }

  /** The output lists `r`, for the prepared auditors `m`, the stores `sm`
      and the open stores `open`, agree with the records of `r`. */
  predicate MatchesRecords(m: seq<AuditorIn>, sm: seq<StoreIn>, open: seq<StoreIn>, r: AssignmentResult)
  {
    && |r.disruptions| == |open| && |r.stores| == |sm| && |r.auditors| == |m|
    && (forall j :: 0 <= j < |sm| && !IsOpen(sm[j]) ==> r.stores[j].assignedAuditorId.None?)
    && (forall j, k :: 0 <= j < |sm| && 0 <= k < |open| && sm[j].storeId == open[k].storeId ==>
          r.stores[j].assignedAuditorId == RecordedAuditor(r.disruptions[k]))
    && (forall i, k ::
          (0 <= i < |m| && 0 <= k < |open| && r.disruptions[k].StoreAssignment? && r.disruptions[k].auditorId == m[i].auditorId)
          ==> r.auditors[i].assignedStoreIds == [open[k].storeId])
    && (forall i :: 0 <= i < |m| && r.auditors[i].assignedStoreIds != [] ==>
          exists k :: 0 <= k < |open| && r.disruptions[k].StoreAssignment? && r.disruptions[k].auditorId == m[i].auditorId)
  }

  /** `AssignSpecMatchesRecords` for any final state that keeps the
      invariant and holds, for each visited store, the auditor its record
      names. */
  lemma OutputsMatchRecords(m: seq<AuditorIn>, sm: seq<StoreIn>, open: seq<StoreIn>, q: Progress)
    requires KeysUnique(m, AuditorInKey) && KeysUnique(sm, StoreInKey) && open == Filter(sm, IsOpen)
    requires Inv(m, q) && |q.disruptions| == |open|
    requires forall sid :: sid in q.assignedTo <==> HasKey(open, StoreInKey, sid)
    requires forall k :: 0 <= k < |open| ==>
      open[k].storeId in q.assignedTo && q.assignedTo[open[k].storeId] == RecordedAuditor(q.disruptions[k])
    ensures MatchesRecords(m, sm, open, Outputs(sm, q))
  {
    var r := Outputs(sm, q);
    forall j | 0 <= j < |sm| && !IsOpen(sm[j]) ensures r.stores[j].assignedAuditorId.None? {
      ClosedStoreNotVisited(sm, open, j);
    }
    forall i, k | 0 <= i < |m| && 0 <= k < |open| && r.disruptions[k].StoreAssignment? && r.disruptions[k].auditorId == m[i].auditorId
      ensures r.auditors[i].assignedStoreIds == [open[k].storeId]
    {
      HolderListsStore(m, q, open[k].storeId, i);
    }
    forall i | 0 <= i < |m| && r.auditors[i].assignedStoreIds != []
      ensures exists k :: 0 <= k < |open| && r.disruptions[k].StoreAssignment? && r.disruptions[k].auditorId == m[i].auditorId
    {
      assert m[i].auditorId in Taken(q.disruptions);
    }
  }

  /** Read off the store list: an OPEN store's `assigned_auditor_id` names
      an auditor who was eligible when the store's turn came and no farther
      from it than any other auditor then eligible, and it is `None` exactly
      when no auditor was eligible then. */
  lemma StoreOutputIsNearest(auditors: seq<AuditorIn>, stores: seq<StoreIn>, distance: Distance, j: int, k: int)
    requires 0 <= j < |DictOf(stores, StoreInKey)| && 0 <= k < |OpenStores(stores)|
    requires DictOf(stores, StoreInKey)[j].storeId == OpenStores(stores)[k].storeId
    ensures var r := AssignSpec(auditors, stores, distance);
      && |r.disruptions| == |OpenStores(stores)| && |r.stores| == |DictOf(stores, StoreInKey)|
      && NearestOrNone(DictOf(auditors, AuditorInKey), r.disruptions[..k], OpenStores(stores)[k], distance,
                       r.stores[j].assignedAuditorId)
  {
    var m := DictOf(auditors, AuditorInKey);
    var sm := DictOf(stores, StoreInKey);
    var open := OpenStores(stores);
    var r := AssignSpec(auditors, stores, distance);
    AssignSpecMatchesRecords(auditors, stores, distance);
    AssignSpecDisruptions(auditors, stores, distance);
    assert MatchesRecords(m, sm, open, r);
    assert r.stores[j].assignedAuditorId == RecordedAuditor(r.disruptions[k]);
    assert Decided(m, r.disruptions[..k], open[k], distance, r.disruptions[k]);
    DecidedIsNearestOrNone(m, r.disruptions[..k], open[k], distance, r.disruptions[k]);
  }

  /** `a` is the auditor given to `store` after the records `ds`: `None`
      exactly when nobody was eligible, otherwise an eligible auditor no
      farther from the store than any other eligible one. */
  predicate NearestOrNone(m: seq<AuditorIn>, ds: seq<Disruption>, store: StoreIn, distance: Distance, a: Option<int>)
  {
    && (a.None? <==> forall i :: 0 <= i < |m| ==> !EligibleAt(m, ds, i))
    && (a.Some? ==>
          exists i :: 0 <= i < |m| && EligibleAt(m, ds, i) && m[i].auditorId == a.value
            && forall e :: 0 <= e < |m| && EligibleAt(m, ds, e) ==>
                 DistanceTo(distance, store, m[i]) <= DistanceTo(distance, store, m[e]))
  }

  lemma DecidedIsNearestOrNone(m: seq<AuditorIn>, ds: seq<Disruption>, store: StoreIn, distance: Distance, d: Disruption)
    requires Decided(m, ds, store, distance, d)
    ensures NearestOrNone(m, ds, store, distance, RecordedAuditor(d))
  {
    if d.StoreAssignment? {
      var i :| 0 <= i < |m| && EligibleAt(m, ds, i) && IsRecordOf(m[i], store, distance, d);
      assert forall e :: 0 <= e < |m| && EligibleAt(m, ds, e) ==>
               DistanceTo(distance, store, m[i]) <= DistanceTo(distance, store, m[e]);
    }
  }

  /** A store that is not OPEN is never visited. */
  lemma ClosedStoreNotVisited(sm: seq<StoreIn>, open: seq<StoreIn>, j: int)
    requires KeysUnique(sm, StoreInKey) && open == Filter(sm, IsOpen)
    requires 0 <= j < |sm| && !IsOpen(sm[j])
    ensures !HasKey(open, StoreInKey, sm[j].storeId)
  {
    forall k | 0 <= k < |open| ensures StoreInKey(open[k]) != sm[j].storeId {
      assert open[k] in sm && IsOpen(open[k]);
      var j' :| 0 <= j' < |sm| && sm[j'] == open[k];
      assert j' != j;
      assert StoreInKey(sm[j']) != StoreInKey(sm[j]);
    }
  }

  /** The auditor recorded for a store holds exactly that store. */
  lemma HolderListsStore(m: seq<AuditorIn>, q: Progress, sid: int, i: int)
    requires KeysUnique(m, AuditorInKey) && Inv(m, q)
    requires 0 <= i < |m| && sid in q.assignedTo && q.assignedTo[sid] == Some(m[i].auditorId)
    ensures q.slots[i].assignedStoreIds == [sid]
  {
    assert Backed(m, q, sid);
    var a :| 0 <= a < |m| && m[a].auditorId == q.assignedTo[sid].value && q.slots[a].assignedStoreIds == [sid];
    assert AuditorInKey(m[a]) == AuditorInKey(m[i]);
  }

  lemma StoreGotOpenAuditor(m: seq<AuditorIn>, sm: seq<StoreIn>, open: seq<StoreIn>, q: Progress, i: int)
    requires KeysUnique(sm, StoreInKey) && open == Filter(sm, IsOpen) && Inv(m, q)
    requires forall sid :: sid in q.assignedTo <==> HasKey(open, StoreInKey, sid)
    requires 0 <= i < |sm| && sm[i].storeId in q.assignedTo && q.assignedTo[sm[i].storeId].Some?
    ensures sm[i].storeStatus == "Open"
    ensures Backed(m, q, sm[i].storeId)
  {
    var sid := sm[i].storeId;
    var k :| 0 <= k < |open| && open[k].storeId == sid;
    assert open[k] in sm;
    var j :| 0 <= j < |sm| && sm[j] == open[k];
    assert j == i;
  }

  predicate HoldsStore(auditors: seq<AuditorOut>, s: StoreOut)
    requires s.assignedAuditorId.Some?
  {
    exists j :: 0 <= j < |auditors| && auditors[j].auditorId == s.assignedAuditorId.value
      && auditors[j].assignedStoreIds == [s.storeId]
  }

  /** One disruption record per OPEN store, in store order, numbered from 1,
      each decided by the nearest-eligible-auditor rule at its turn. */
  lemma AssignSpecDisruptions(auditors: seq<AuditorIn>, stores: seq<StoreIn>, distance: Distance)
    ensures var m := DictOf(auditors, AuditorInKey);
      var open := OpenStores(stores);
      var ds := AssignSpec(auditors, stores, distance).disruptions;
      && |ds| == |open|
      && (forall k :: 0 <= k < |open| ==> ds[k].number == k + 1 && ds[k].storeId == open[k].storeId)
      && (forall k :: 0 <= k < |open| ==> Decided(m, ds[..k], open[k], distance, ds[k]))
  {
    var m := DictOf(auditors, AuditorInKey);
    var open := OpenStores(stores);
    RunRecords(m, open, distance);
    forall k | 0 <= k < |open|
      ensures Decided(m, Run(m, open, distance).disruptions[..k], open[k], distance, Run(m, open, distance).disruptions[k])
    {
      RunDecides(m, open, k, distance);
    }
  }

  /** The source's predicted hours count an auditor's existing hours twice:
      an auditor with 40 hours of capacity and 10 already assigned who gets
      no store is reported with 20 assigned hours. */
  lemma PredictedHoursCounterexample()
    ensures var a := AuditorIn(1, 0.0, 0.0, "Available", 40.0, 10.0);
      && PredictedAssignedAsWritten(a, InitialRemaining(a)) == 20.0
      && PredictedAssigned(a, InitialRemaining(a)) == 10.0
  {
  }

  // ---------------------------------------------------------------------
  // The procedure
  // ---------------------------------------------------------------------

  /** The `distances` list of one pass: each eligible auditor with its
      distance to the store, in slot order. */
  method MeasureDistances(eligible: seq<Slot>, store: StoreIn, distance: Distance)
    returns (distances: seq<Candidate>)
    ensures distances == CandidatesFor(distance, store, eligible)
  {
    distances := [];
    var k := 0;
    while k < |eligible|
      invariant 0 <= k <= |eligible| && |distances| == k
      invariant forall e :: 0 <= e < k ==> distances[e] == CandidateOf(distance, store, eligible[e])
    {
      distances := distances + [CandidateOf(distance, store, eligible[k])];
      k := k + 1;
    }
  }

  /** One pass of the loop over open stores, updating the chosen auditor's
      slot in place. */
  method PlaceStore(p: Progress, store: StoreIn, distance: Distance) returns (q: Progress)
    ensures q == Place(p, store, distance)
  {
    var slots, assignedTo, disruptions := p.slots, p.assignedTo, p.disruptions;
    var eligible := Filter(slots, Eligible);
    if eligible == [] {
      PlaceNone(p, store, distance);
      assignedTo := assignedTo[store.storeId := None];
      disruptions := disruptions + [NoAvailableAuditor(|disruptions| + 1, store.storeId)];
    } else {
      var chosen := NearestEligible(eligible, store, distance);
      NearestHasSlot(p, store, distance);
      var idx := IndexOfKey(slots, SlotKey, chosen.auditorId).value;
      PlaceChosen(p, store, distance, idx, chosen);
      var alloc := Allocation(slots[idx].remaining);
      slots := slots[idx := slots[idx].(remaining := Max0(slots[idx].remaining - alloc),
                                        assignedStoreIds := slots[idx].assignedStoreIds + [store.storeId])];
      assignedTo := assignedTo[store.storeId := Some(chosen.auditorId)];
      disruptions := disruptions + [StoreAssignment(|disruptions| + 1, store.storeId, chosen.auditorId, chosen.distance, alloc)];
    }
    q := Progress(slots, assignedTo, disruptions);
  }

  /** The `distances` list of one pass, sorted, and its head. */
  method NearestEligible(eligible: seq<Slot>, store: StoreIn, distance: Distance) returns (chosen: Candidate)
    requires eligible != []
    ensures chosen == Nearest(distance, store, eligible)
  {
    var distances := MeasureDistances(eligible, store, distance);
    var sorted := SortByKey(distances, CandidateKey);
    SortedHeadIsFirstMinimum(distances, CandidateKey);
    chosen := sorted[0];
  }

  /** `auditors_map[chosen_id]` finds the chosen auditor's slot. */
  lemma NearestHasSlot(p: Progress, store: StoreIn, distance: Distance)
    requires Filter(p.slots, Eligible) != []
    ensures IndexOfKey(p.slots, SlotKey, Nearest(distance, store, Filter(p.slots, Eligible)).auditorId).Some?
  {
    NearestIsEligibleMinimum(distance, store, p.slots);
  }

  /** The pass when no slot is eligible. */
  lemma PlaceNone(p: Progress, store: StoreIn, distance: Distance)
    requires Filter(p.slots, Eligible) == []
    ensures Place(p, store, distance)
      == Progress(p.slots, p.assignedTo[store.storeId := None],
                  p.disruptions + [NoAvailableAuditor(|p.disruptions| + 1, store.storeId)])
  {
    assert Choose(p, store, distance) == NoneEligible;
  }

  /** The pass when the nearest candidate is found at slot `i`. */
  lemma PlaceChosen(p: Progress, store: StoreIn, distance: Distance, i: nat, c: Candidate)
    requires Filter(p.slots, Eligible) != [] && c == Nearest(distance, store, Filter(p.slots, Eligible))
    requires IndexOfKey(p.slots, SlotKey, c.auditorId) == Some(i)
    ensures i < |p.slots|
    ensures var slot := p.slots[i];
      var alloc := Allocation(slot.remaining);
      Place(p, store, distance)
      == Progress(
           p.slots[i := slot.(remaining := Max0(slot.remaining - alloc),
                              assignedStoreIds := slot.assignedStoreIds + [store.storeId])],
           p.assignedTo[store.storeId := Some(c.auditorId)],
           p.disruptions + [StoreAssignment(|p.disruptions| + 1, store.storeId, c.auditorId, c.distance, alloc)])
  {
    assert Choose(p, store, distance) == Chosen(i, c);
  }

  /** The `auditors_map` rows turned into working slots: full remaining
      hours and no stores yet. */
  method PrepareSlots(m: seq<AuditorIn>) returns (slots: seq<Slot>)
    ensures slots == InitialSlots(m)
  {
    slots := [];
    var i := 0;
    while i < |m|
      invariant 0 <= i <= |m| && |slots| == i
      invariant forall k :: 0 <= k < i ==> slots[k] == Slot(m[k], InitialRemaining(m[k]), [])
    {
      var a := m[i];
      slots := slots + [Slot(a, Max0(a.workloadCapacityHours - a.currentAssignedHours), [])];
      i := i + 1;
    }
  }

  /** The loop over the open stores, from freshly prepared slots. */
  method PlaceStores(m: seq<AuditorIn>, open: seq<StoreIn>, distance: Distance) returns (p: Progress)
    ensures p == Run(m, open, distance)
  {
    var slots := PrepareSlots(m);
    p := Progress(slots, map[], []);
    var j := 0;
    while j < |open|
      invariant 0 <= j <= |open|
      invariant p == Run(m, open[..j], distance)
    {
      p := PlaceStore(p, open[j], distance);
      RunStep(m, open, j, distance);
      j := j + 1;
    }
    assert open[..j] == open;
  }

  /** The `auditors_output` list. */
  method AuditorsOutput(slots: seq<Slot>) returns (out: seq<AuditorOut>)
    ensures out == seq(|slots|, i requires 0 <= i < |slots| => AuditorOutOf(slots[i]))
  {
    out := [];
    var i := 0;
    while i < |slots|
      invariant 0 <= i <= |slots| && |out| == i
      invariant forall k :: 0 <= k < i ==> out[k] == AuditorOutOf(slots[k])
    {
      var s := slots[i];
      out := out + [AuditorOut(s.auditor.auditorId, s.auditor.latitude, s.auditor.longitude,
        s.auditor.availabilityStatus, s.auditor.workloadCapacityHours,
        PredictedAssigned(s.auditor, s.remaining), s.remaining, s.assignedStoreIds)];
      i := i + 1;
    }
  }

  /** The `stores_output` list. */
  method StoresOutput(sm: seq<StoreIn>, assignedTo: map<int, Option<int>>) returns (out: seq<StoreOut>)
    ensures out == seq(|sm|, i requires 0 <= i < |sm| => StoreOutOf(sm[i], assignedTo))
  {
    out := [];
    var i := 0;
    while i < |sm|
      invariant 0 <= i <= |sm| && |out| == i
      invariant forall k :: 0 <= k < i ==> out[k] == StoreOutOf(sm[k], assignedTo)
    {
      var s := sm[i];
      var holder := if s.storeId in assignedTo then assignedTo[s.storeId] else None;
      out := out + [StoreOut(s.storeId, s.latitude, s.longitude, s.storeStatus, holder)];
      i := i + 1;
    }
  }

  /** `assign_stores_to_auditors`, with the predicted hours of each auditor
      computed as intended (see `PredictedAssigned`). */
  method AssignStoresToAuditors(auditors: seq<AuditorIn>, stores: seq<StoreIn>, distance: Distance)
    returns (result: AssignmentResult)
    ensures result == AssignSpec(auditors, stores, distance)
  {
    var auditorsMap := DictOf(auditors, AuditorInKey);
    var storesMap := DictOf(stores, StoreInKey);
    var openStores := Filter(storesMap, IsOpen);
    var p := PlaceStores(auditorsMap, openStores, distance);
    var outAuditors := AuditorsOutput(p.slots);
    var outStores := StoresOutput(storesMap, p.assignedTo);
    result := AssignmentResult(outAuditors, outStores, p.disruptions);
  }
}
