/** `assign_with_greedy_algorithm` of the OpenAI optimizer
    (`streamlit/openapp.py`), the fallback used when the language model is
    unavailable or misbehaves, and the one-to-one check applied to the
    model's own answer. Every store gets the nearest Available auditor not
    yet given a store; stores are visited by increasing distance to their
    nearest Available auditor. Store status is not consulted. */
module GreedyAssignment {
  import opened Wrappers
  import opened DistanceOrder

  /** One auditor = one store. */
  const MAX_STORES_PER_AUDITOR: nat := 1

  /** The fields of an auditor dict the algorithm reads. */
  datatype AuditorRow = AuditorRow(auditorId: int, latitude: real, longitude: real, availabilityStatus: string)

  /** The fields of a store dict the algorithm reads. */
  datatype StoreRow = StoreRow(storeId: int, latitude: real, longitude: real, storeStatus: string)

  /** One entry of `assignments`; an unassigned store has neither an auditor
      nor a distance. */
  datatype Assignment = Assignment(storeId: int, assignedAuditorId: Option<int>, distanceKm: Option<real>)

  predicate IsAvailable(a: AuditorRow)
  {
    a.availabilityStatus == "Available"
  }

  /** `(auditor_id, distance)` from the store to the auditor. */
  function CandidateFor(distance: Distance, store: StoreRow, a: AuditorRow): Candidate
  {
    Candidate(a.auditorId, distance(store.latitude, store.longitude, a.latitude, a.longitude))
  }

  /** The `distances` list of one store before sorting: one tuple per
      Available auditor, in input order. */
  function Distances(distance: Distance, store: StoreRow, auditors: seq<AuditorRow>): seq<Candidate>
    decreases |auditors|
  {
    if auditors == [] then []
    else
      var a := auditors[|auditors| - 1];
      Distances(distance, store, auditors[..|auditors| - 1])
        + (if IsAvailable(a) then [CandidateFor(distance, store, a)] else [])
  }

  /** The Available auditors, nearest first. */
  function Ranked(distance: Distance, store: StoreRow, auditors: seq<AuditorRow>): seq<Candidate>
  {
    SortByKey(Distances(distance, store, auditors), CandidateKey)
  }

  /** A `(store, sorted_auditors)` entry of `store_distance_pairs`. */
  datatype StoreChoices = StoreChoices(store: StoreRow, ranked: seq<Candidate>)

  /** The key the stores are sorted by: the distance to the nearest
      Available auditor, or infinity when there is none. */
  function ChoicesKey(p: StoreChoices): Dist
  {
    if p.ranked == [] then Infinite else Finite(p.ranked[0].distance)
  }

  function StorePairs(distance: Distance, auditors: seq<AuditorRow>, stores: seq<StoreRow>): (r: seq<StoreChoices>)
    ensures |r| == |stores|
    ensures forall i :: 0 <= i < |stores| ==> r[i] == StoreChoices(stores[i], Ranked(distance, stores[i], auditors))
  {
    seq(|stores|, i requires 0 <= i < |stores| => StoreChoices(stores[i], Ranked(distance, stores[i], auditors)))
  }

  /** The order in which the stores are served. */
  function VisitOrder(distance: Distance, auditors: seq<AuditorRow>, stores: seq<StoreRow>): seq<StoreChoices>
  {
    SortByKey(StorePairs(distance, auditors, stores), ChoicesKey)
  }

  /** The position in `ranked` of the first auditor not in `taken`. */
  function FirstUntaken(ranked: seq<Candidate>, taken: set<int>): (r: Option<nat>)
    ensures r.Some? ==> r.value < |ranked| && ranked[r.value].auditorId !in taken
    ensures r.Some? ==> forall k :: 0 <= k < r.value ==> ranked[k].auditorId in taken
    ensures r.None? ==> forall k :: 0 <= k < |ranked| ==> ranked[k].auditorId in taken
    decreases |ranked|
  {
    if ranked == [] then None
    else if ranked[0].auditorId !in taken then Some(0)
    else match FirstUntaken(ranked[1..], taken)
      case None => None
      case Some(k) => Some(k + 1)
  }

  /** The auditor ids the assignments so far have used: `assigned_auditors`. */
  function Taken(asg: seq<Assignment>): set<int>
    decreases |asg|
  {
    if asg == [] then {}
    else
      var last := asg[|asg| - 1];
      Taken(asg[..|asg| - 1]) + (if last.assignedAuditorId.Some? then {last.assignedAuditorId.value} else {})
  }

  /** The entry appended for one store, given the auditors already taken. */
  function Serve(p: StoreChoices, taken: set<int>): Assignment
  {
    match FirstUntaken(p.ranked, taken)
    case None => Assignment(p.store.storeId, None, None)
    case Some(k) => Assignment(p.store.storeId, Some(p.ranked[k].auditorId), Some(p.ranked[k].distance))
  }

  /** The assignment loop over `order`. */
  function ServeAll(order: seq<StoreChoices>): (r: seq<Assignment>)
    ensures |r| == |order|
    decreases |order|
  {
    if order == [] then []
    else
      var prev := ServeAll(order[..|order| - 1]);
      prev + [Serve(order[|order| - 1], Taken(prev))]
  }

  /** What `assign_with_greedy_algorithm(auditors, stores)["assignments"]` is. */
  function GreedySpec(distance: Distance, auditors: seq<AuditorRow>, stores: seq<StoreRow>): seq<Assignment>
  {
    ServeAll(VisitOrder(distance, auditors, stores))
  }

  // ---------------------------------------------------------------------
  // Properties
  // ---------------------------------------------------------------------

  lemma {:induction false} TakenMembers(asg: seq<Assignment>, id: int)
    ensures id in Taken(asg) <==> exists i :: 0 <= i < |asg| && asg[i].assignedAuditorId == Some(id)
    decreases |asg|
  {
    if asg != [] {
      var n := |asg| - 1;
      TakenMembers(asg[..n], id);
      if id in Taken(asg[..n]) {
        var i :| 0 <= i < n && asg[..n][i].assignedAuditorId == Some(id);
        assert asg[i].assignedAuditorId == Some(id);
      }
      if exists i :: 0 <= i < |asg| && asg[i].assignedAuditorId == Some(id) {
        var i :| 0 <= i < |asg| && asg[i].assignedAuditorId == Some(id);
        if i < n {
          assert asg[..n][i].assignedAuditorId == Some(id);
        }
      }
    }
  }

  /** The tuples for a store are exactly those of the Available auditors. */
  lemma {:induction false} DistancesMembers(distance: Distance, store: StoreRow, auditors: seq<AuditorRow>, c: Candidate)
    ensures c in Distances(distance, store, auditors) <==>
      exists a :: a in auditors && IsAvailable(a) && c == CandidateFor(distance, store, a)
    decreases |auditors|
  {
    if auditors != [] {
      var n := |auditors| - 1;
      DistancesMembers(distance, store, auditors[..n], c);
      assert auditors == auditors[..n] + [auditors[n]];
      if exists a :: a in auditors && IsAvailable(a) && c == CandidateFor(distance, store, a) {
        var a :| a in auditors && IsAvailable(a) && c == CandidateFor(distance, store, a);
        if a != auditors[n] {
          assert a in auditors[..n];
        }
      }
    }
  }

  lemma RankedMembers(distance: Distance, store: StoreRow, auditors: seq<AuditorRow>, c: Candidate)
    ensures c in Ranked(distance, store, auditors) <==>
      exists a :: a in auditors && IsAvailable(a) && c == CandidateFor(distance, store, a)
  {
    DistancesMembers(distance, store, auditors, c);
    var d := Distances(distance, store, auditors);
    assert multiset(Ranked(distance, store, auditors)) == multiset(d);
    assert c in Ranked(distance, store, auditors) <==> c in multiset(d);
  }

  /** The key of a store is infinity exactly when nobody is Available, and
      otherwise the distance to an Available auditor no farther than any
      other Available auditor. */
  lemma ChoicesKeyIsNearest(distance: Distance, store: StoreRow, auditors: seq<AuditorRow>)
    ensures var key := ChoicesKey(StoreChoices(store, Ranked(distance, store, auditors)));
      && (key.Infinite? <==> forall a :: a in auditors ==> !IsAvailable(a))
      && (key.Finite? ==> exists a :: a in auditors && IsAvailable(a) && key.km == CandidateFor(distance, store, a).distance)
      && (key.Finite? ==> forall a :: a in auditors && IsAvailable(a) ==> key.km <= CandidateFor(distance, store, a).distance)
  {
    var ranked := Ranked(distance, store, auditors);
    forall a | a in auditors && IsAvailable(a)
      ensures ranked != [] && ranked[0].distance <= CandidateFor(distance, store, a).distance
    {
      RankedMembers(distance, store, auditors, CandidateFor(distance, store, a));
      SortedHeadIsMinimum(Distances(distance, store, auditors), CandidateKey);
      assert multiset(ranked) == multiset(Distances(distance, store, auditors));
      assert CandidateFor(distance, store, a) in multiset(Distances(distance, store, auditors));
    }
    if ranked != [] {
      RankedMembers(distance, store, auditors, ranked[0]);
    }
  }

  /** The rule for one store: nobody is given when, and only when, every
      Available auditor is taken; otherwise the store gets an untaken
      Available auditor no farther than any other untaken Available
      auditor, with that distance. */
  predicate Decided(distance: Distance, auditors: seq<AuditorRow>, store: StoreRow, taken: set<int>, e: Assignment)
  {
    && e.storeId == store.storeId
    && (e.assignedAuditorId.None? <==> forall a :: a in auditors && IsAvailable(a) ==> a.auditorId in taken)
    && (e.assignedAuditorId.None? ==> e.distanceKm.None?)
    && (e.assignedAuditorId.Some? ==> ChoseNearestUntaken(distance, auditors, store, taken, e.assignedAuditorId.value, e.distanceKm))
  }

  predicate ChoseNearestUntaken(distance: Distance, auditors: seq<AuditorRow>, store: StoreRow, taken: set<int>,
                                id: int, km: Option<real>)
  {
    && id !in taken
    && km.Some?
    && (exists a :: a in auditors && IsAvailable(a) && CandidateFor(distance, store, a) == Candidate(id, km.value))
    && (forall a :: a in auditors && IsAvailable(a) && a.auditorId !in taken ==>
          km.value <= CandidateFor(distance, store, a).distance)
  }

  lemma ServeDecides(distance: Distance, auditors: seq<AuditorRow>, store: StoreRow, taken: set<int>)
    ensures Decided(distance, auditors, store, taken, Serve(StoreChoices(store, Ranked(distance, store, auditors)), taken))
  {
    var ranked := Ranked(distance, store, auditors);
    match FirstUntaken(ranked, taken)
    case None =>
      forall a | a in auditors && IsAvailable(a) ensures a.auditorId in taken {
        RankedMembers(distance, store, auditors, CandidateFor(distance, store, a));
      }
    case Some(k) =>
      var c := ranked[k];
      RankedMembers(distance, store, auditors, c);
      forall a | a in auditors && IsAvailable(a) && a.auditorId !in taken
        ensures c.distance <= CandidateFor(distance, store, a).distance
      {
        var ca := CandidateFor(distance, store, a);
        RankedMembers(distance, store, auditors, ca);
        var m :| 0 <= m < |ranked| && ranked[m] == ca;
        if m != k {
          assert Le(CandidateKey(ranked[k]), CandidateKey(ranked[m]));
        }
      }
  }

  /** Each entry of the loop's output was decided against the auditors taken
      by the entries before it. */
  lemma {:induction false} ServeAllPrefix(order: seq<StoreChoices>, k: nat)
    requires k < |order|
    ensures ServeAll(order)[..k] == ServeAll(order[..k])
    ensures ServeAll(order)[k] == Serve(order[k], Taken(ServeAll(order)[..k]))
    decreases |order|
  {
    var n := |order| - 1;
    assert ServeAll(order)[..n] == ServeAll(order[..n]);
    if k < n {
      ServeAllPrefix(order[..n], k);
      assert order[..n][..k] == order[..k];
    }
  }

  /** Every pair the loop visits carries one of the input stores and its
      ranked Available auditors. */
  lemma VisitOrderEntries(distance: Distance, auditors: seq<AuditorRow>, stores: seq<StoreRow>, k: nat)
    requires k < |VisitOrder(distance, auditors, stores)|
    ensures VisitOrder(distance, auditors, stores)[k].store in stores
    ensures VisitOrder(distance, auditors, stores)[k].ranked
         == Ranked(distance, VisitOrder(distance, auditors, stores)[k].store, auditors)
  {
    var pairs := StorePairs(distance, auditors, stores);
    var p := VisitOrder(distance, auditors, stores)[k];
    assert p in multiset(VisitOrder(distance, auditors, stores));
    assert p in multiset(pairs);
    var i :| 0 <= i < |pairs| && pairs[i] == p;
  }

  /** The store the k-th entry is about. */
  function VisitedStore(distance: Distance, auditors: seq<AuditorRow>, stores: seq<StoreRow>, k: nat): StoreRow
    requires k < |stores|
  {
    VisitOrder(distance, auditors, stores)[k].store
  }

  /** Every entry follows the rule, relative to the auditors used by earlier
      entries. */
  lemma GreedyDecides(distance: Distance, auditors: seq<AuditorRow>, stores: seq<StoreRow>, k: nat)
    requires k < |stores|
    ensures |GreedySpec(distance, auditors, stores)| == |stores|
    ensures VisitedStore(distance, auditors, stores, k) in stores
    ensures Decided(distance, auditors, VisitedStore(distance, auditors, stores, k),
      Taken(GreedySpec(distance, auditors, stores)[..k]), GreedySpec(distance, auditors, stores)[k])
  {
    var order := VisitOrder(distance, auditors, stores);
    VisitOrderEntries(distance, auditors, stores, k);
    ServeAllPrefix(order, k);
    ServeDecides(distance, auditors, order[k].store, Taken(ServeAll(order)[..k]));
  }

  /** No auditor id is given to two stores. */
  lemma GreedyOneToOne(distance: Distance, auditors: seq<AuditorRow>, stores: seq<StoreRow>, i: nat, j: nat)
    requires i < j < |GreedySpec(distance, auditors, stores)|
    requires GreedySpec(distance, auditors, stores)[j].assignedAuditorId.Some?
    ensures GreedySpec(distance, auditors, stores)[i].assignedAuditorId != GreedySpec(distance, auditors, stores)[j].assignedAuditorId
  {
    var asg := GreedySpec(distance, auditors, stores);
    GreedyDecides(distance, auditors, stores, j);
    var id := asg[j].assignedAuditorId.value;
    TakenMembers(asg[..j], id);
    assert asg[..j][i] == asg[i];
  }

  /** The stores are served by increasing distance to their nearest
      Available auditor. */
  lemma GreedyVisitOrder(distance: Distance, auditors: seq<AuditorRow>, stores: seq<StoreRow>)
    ensures |VisitOrder(distance, auditors, stores)| == |stores|
    ensures SortedBy(VisitOrder(distance, auditors, stores), ChoicesKey)
    ensures forall k :: 0 <= k < |stores| ==>
      GreedySpec(distance, auditors, stores)[k].storeId == VisitOrder(distance, auditors, stores)[k].store.storeId
  {
    var order := VisitOrder(distance, auditors, stores);
    forall k | 0 <= k < |stores|
      ensures GreedySpec(distance, auditors, stores)[k].storeId == order[k].store.storeId
    {
      ServeAllPrefix(order, k);
    }
  }

  function StoreIdOf(s: StoreRow): int { s.storeId }
  function EntryStoreId(e: Assignment): int { e.storeId }
  function ChoicesStoreId(p: StoreChoices): int { p.store.storeId }

  /** Every input store appears in the output exactly as often as in the
      input. */
  lemma GreedyCoversStores(distance: Distance, auditors: seq<AuditorRow>, stores: seq<StoreRow>)
    ensures multiset(MapSeq(GreedySpec(distance, auditors, stores), EntryStoreId)) == multiset(MapSeq(stores, StoreIdOf))
  {
    var pairs := StorePairs(distance, auditors, stores);
    var order := VisitOrder(distance, auditors, stores);
    GreedyVisitOrder(distance, auditors, stores);
    assert order == SortByKey(pairs, ChoicesKey);
    SortByKeyMapped(pairs, ChoicesKey, ChoicesStoreId);
    assert MapSeq(GreedySpec(distance, auditors, stores), EntryStoreId) == MapSeq(order, ChoicesStoreId) by {
      assert |GreedySpec(distance, auditors, stores)| == |order|;
    }
    assert MapSeq(pairs, ChoicesStoreId) == MapSeq(stores, StoreIdOf) by {
      assert |pairs| == |stores|;
    }
  }

  // ---------------------------------------------------------------------
  // The check on the language model's answer
  // ---------------------------------------------------------------------

  /** `if auditor_id:` for an id that is an integer or `None`. */
  predicate IsTruthyId(id: Option<int>)
  {
    id.Some? && id.value != 0
  }

  /** No truthy auditor id occurs twice. */
  predicate NoRepeatedAuditor(ids: seq<Option<int>>)
  {
    forall i, j :: 0 <= i < j < |ids| && IsTruthyId(ids[j]) ==> ids[i] != ids[j]
  }

  function AuditorIds(asg: seq<Assignment>): seq<Option<int>>
  {
    MapSeq(asg, (e: Assignment) => e.assignedAuditorId)
  }

  /** The greedy answer always passes the check. */
  lemma GreedyPassesCheck(distance: Distance, auditors: seq<AuditorRow>, stores: seq<StoreRow>)
    ensures NoRepeatedAuditor(AuditorIds(GreedySpec(distance, auditors, stores)))
  {
    var ids := AuditorIds(GreedySpec(distance, auditors, stores));
    forall i, j | 0 <= i < j < |ids| && IsTruthyId(ids[j]) ensures ids[i] != ids[j] {
      GreedyOneToOne(distance, auditors, stores, i, j);
    }
  }

  /** The loop over `result['assignments']` in `assign_with_openai`: false
      where the source raises "AI violated one-to-one constraint". */
  method CheckOneToOne(ids: seq<Option<int>>) returns (ok: bool)
    ensures ok <==> NoRepeatedAuditor(ids)
  {
    var seen: set<int> := {};
    var k := 0;
    while k < |ids|
      invariant 0 <= k <= |ids|
      invariant NoRepeatedAuditor(ids[..k])
      invariant forall x :: x in seen <==> exists i :: 0 <= i < k && IsTruthyId(ids[i]) && ids[i] == Some(x)
    {
      var id := ids[k];
      if IsTruthyId(id) && id.value in seen {
        return false;
      }
      if IsTruthyId(id) {
        seen := seen + {id.value};
      }
      assert forall i, j :: 0 <= i < j < k + 1 ==> ids[..k + 1][i] == ids[i] && ids[..k + 1][j] == ids[j];
      k := k + 1;
    }
    assert ids[..k] == ids;
    return true;
  }

  // ---------------------------------------------------------------------
  // The procedure
  // ---------------------------------------------------------------------

  /** The inner loop for one store, then `distances.sort(key=lambda x: x[1])`. */
  method RankAuditors(auditors: seq<AuditorRow>, store: StoreRow, distance: Distance) returns (ranked: seq<Candidate>)
    ensures ranked == Ranked(distance, store, auditors)
  {
    var distances: seq<Candidate> := [];
    for i := 0 to |auditors|
      invariant distances == Distances(distance, store, auditors[..i])
    {
      assert auditors[..i + 1][..i] == auditors[..i];
      if auditors[i].availabilityStatus != "Available" {
        continue;
      }
      distances := distances + [CandidateFor(distance, store, auditors[i])];
    }
    assert auditors[..|auditors|] == auditors;
    ranked := SortByKey(distances, CandidateKey);
  }

  /** `for auditor_id, distance in sorted_auditors: if auditor_id not in
      assigned_auditors: ... break`. */
  method FindUntaken(ranked: seq<Candidate>, taken: set<int>) returns (r: Option<nat>)
    ensures r == FirstUntaken(ranked, taken)
  {
    for k := 0 to |ranked|
      invariant forall i :: 0 <= i < k ==> ranked[i].auditorId in taken
    {
      if ranked[k].auditorId !in taken {
        return Some(k);
      }
    }
    return None;
  }

  /** The loop building `store_distance_pairs`. */
  method PairStores(auditors: seq<AuditorRow>, stores: seq<StoreRow>, distance: Distance)
    returns (pairs: seq<StoreChoices>)
    ensures pairs == StorePairs(distance, auditors, stores)
  {
    pairs := [];
    for i := 0 to |stores|
      invariant |pairs| == i
      invariant pairs == StorePairs(distance, auditors, stores)[..i]
    {
      var ranked := RankAuditors(auditors, stores[i], distance);
      pairs := pairs + [StoreChoices(stores[i], ranked)];
    }
  }

  /** The loop's specification grows by one entry per visited pair. */
  lemma ServeAllSnoc(order: seq<StoreChoices>, i: nat)
    requires i < |order|
    ensures ServeAll(order[..i + 1]) == ServeAll(order[..i]) + [Serve(order[i], Taken(ServeAll(order[..i])))]
  {
    assert order[..i + 1][..i] == order[..i];
  }

  /** Appending an entry adds its auditor, if any, to the taken ones. */
  lemma TakenSnoc(asg: seq<Assignment>, e: Assignment)
    ensures Taken(asg + [e]) == Taken(asg) + (if e.assignedAuditorId.Some? then {e.assignedAuditorId.value} else {})
  {
    assert (asg + [e])[..|asg|] == asg;
  }

  /** The loop over the sorted pairs, with `assigned_auditors` as `taken`. */
  method ServeInOrder(order: seq<StoreChoices>) returns (assignments: seq<Assignment>)
    ensures assignments == ServeAll(order)
  {
    assignments := [];
    var taken: set<int> := {};
    for i := 0 to |order|
      invariant assignments == ServeAll(order[..i])
      invariant taken == Taken(assignments)
    {
      var p := order[i];
      var before := taken;
      var k := FindUntaken(p.ranked, taken);
      var entry;
      if k.None? {
        entry := Assignment(p.store.storeId, None, None);
      } else {
        var c := p.ranked[k.value];
        taken := taken + {c.auditorId};
        entry := Assignment(p.store.storeId, Some(c.auditorId), Some(c.distance));
      }
      assert entry == Serve(p, before);
      ServeAllSnoc(order, i);
      TakenSnoc(assignments, entry);
      assignments := assignments + [entry];
    }
    assert order[..|order|] == order;
  }

  /** `assign_with_greedy_algorithm(auditors, stores)["assignments"]`. */
  method AssignWithGreedy(auditors: seq<AuditorRow>, stores: seq<StoreRow>, distance: Distance)
    returns (assignments: seq<Assignment>)
    ensures assignments == GreedySpec(distance, auditors, stores)
  {
    var pairs := PairStores(auditors, stores, distance);
    var order := SortByKey(pairs, ChoicesKey);
    assignments := ServeInOrder(order);
  }
}
