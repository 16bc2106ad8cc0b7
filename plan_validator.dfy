/** The validation loop of `processAndSaveAuditPlans`: the optimizer's answer
    is untrusted, so each entry is kept only when both ids are present, its
    auditor has not been accepted earlier in the same response, and both ids
    resolve to existing rows. Accepted entries become PLANNED / MEDIUM plans,
    in response order.

    `Validate` is the loop as its comments and the design describe it (the
    first accepted entry for an auditor wins). `ValidateAsWritten` is the loop
    as the code behaves: the already-accepted set holds `Long`s but is probed
    with an `int`, so the probe never succeeds and duplicates are all kept. */
module PlanValidator {
  import opened Wrappers
  import opened Entities
  import opened Repository
  import opened OptimizerWire

  /** An accepted (store, auditor) pair. */
  datatype Pair = Pair(storeId: int, auditorId: int)

  /** Both keys present and non-null. */
  predicate Complete(e: ProposalEntry)
  {
    e.storeId.Some? && e.assignedAuditorId.Some?
  }

  function PairOf(e: ProposalEntry): Pair
    requires Complete(e)
  {
    Pair(e.storeId.value, e.assignedAuditorId.value)
  }

  /** Both ids present and both `findById` lookups succeed. */
  predicate Resolves(st: State, e: ProposalEntry)
  {
    Complete(e) && HasAuditor(st.auditors, e.assignedAuditorId.value) && HasStore(st.stores, e.storeId.value)
  }

  /** The auditors of a list of pairs. */
  function AuditorsOf(pairs: seq<Pair>): set<int>
  {
    set k | 0 <= k < |pairs| :: pairs[k].auditorId
  }

  /** The intended loop, started with the set `seen` of auditors already
      accepted: every accepted pair resolves, none reuses an auditor from
      `seen`, no two reuse each other's auditor, and at most one pair comes
      from each entry. */
  function Validate(st: State, entries: seq<ProposalEntry>, seen: set<int>): (r: seq<Pair>)
    ensures |r| <= |entries|
    ensures forall k :: 0 <= k < |r| ==>
      HasAuditor(st.auditors, r[k].auditorId) && HasStore(st.stores, r[k].storeId) && r[k].auditorId !in seen
    ensures forall i, j :: 0 <= i < j < |r| ==> r[i].auditorId != r[j].auditorId
    decreases |entries|
  {
    if entries == [] then []
    else
      var e := entries[0];
      if !Complete(e) then Validate(st, entries[1..], seen)
      else if e.assignedAuditorId.value in seen then Validate(st, entries[1..], seen)
      else if Resolves(st, e) then
        [PairOf(e)] + Validate(st, entries[1..], seen + {e.assignedAuditorId.value})
      else Validate(st, entries[1..], seen)
  }

  /** The loop as written. The already-accepted set holds `Long`s and is
      probed with an `int` autoboxed to `Integer`; `Long.equals` is false for
      any argument that is not a `Long`, so the probe never succeeds and the
      duplicate check drops nothing. */
  function ValidateAsWritten(st: State, entries: seq<ProposalEntry>): (r: seq<Pair>)
    ensures |r| <= |entries|
    ensures forall k :: 0 <= k < |r| ==> HasAuditor(st.auditors, r[k].auditorId) && HasStore(st.stores, r[k].storeId)
    decreases |entries|
  {
    if entries == [] then []
    else
      var e := entries[0];
      if !Complete(e) then ValidateAsWritten(st, entries[1..])
      else if Resolves(st, e) then [PairOf(e)] + ValidateAsWritten(st, entries[1..])
      else ValidateAsWritten(st, entries[1..])
  }

  // ------------------------------------------------ reference definition

  /** Reference, stage one: the pairs of the entries that resolve, in order. */
  function ResolvedPairs(st: State, entries: seq<ProposalEntry>): (r: seq<Pair>)
    decreases |entries|
  {
    if entries == [] then []
    else (if Resolves(st, entries[0]) then [PairOf(entries[0])] else []) + ResolvedPairs(st, entries[1..])
  }

  /** Reference, stage two: keep the first pair per auditor not in `seen`. */
  function DedupFirst(pairs: seq<Pair>, seen: set<int>): (r: seq<Pair>)
    decreases |pairs|
  {
    if pairs == [] then []
    else if pairs[0].auditorId in seen then DedupFirst(pairs[1..], seen)
    else [pairs[0]] + DedupFirst(pairs[1..], seen + {pairs[0].auditorId})
  }

  /** Validation is "resolve, then keep the first pair per auditor": the
      order in which the loop makes its three checks does not matter. */
  lemma {:induction false} ValidateIsDedupOfResolved(st: State, entries: seq<ProposalEntry>, seen: set<int>)
    ensures Validate(st, entries, seen) == DedupFirst(ResolvedPairs(st, entries), seen)
    decreases |entries|
  {
    if entries != [] {
      var e := entries[0];
      var rest := ResolvedPairs(st, entries[1..]);
      if Resolves(st, e) {
        var ps := [PairOf(e)] + rest;
        assert ResolvedPairs(st, entries) == ps;
        assert ps[1..] == rest;
        if e.assignedAuditorId.value in seen {
          ValidateIsDedupOfResolved(st, entries[1..], seen);
        } else {
          ValidateIsDedupOfResolved(st, entries[1..], seen + {e.assignedAuditorId.value});
        }
      } else {
        assert ResolvedPairs(st, entries) == [] + rest;
        assert [] + rest == rest;
        ValidateIsDedupOfResolved(st, entries[1..], seen);
      }
    }
  }

  /** As written, nothing is ever deduplicated: the result is every
      resolvable pair. */
  lemma {:induction false} AsWrittenKeepsAllResolved(st: State, entries: seq<ProposalEntry>)
    ensures ValidateAsWritten(st, entries) == ResolvedPairs(st, entries)
    decreases |entries|
  {
    if entries != [] {
      AsWrittenKeepsAllResolved(st, entries[1..]);
    }
  }

  lemma {:induction false} ResolvedPairsAppend(st: State, a: seq<ProposalEntry>, b: seq<ProposalEntry>)
    ensures ResolvedPairs(st, a + b) == ResolvedPairs(st, a) + ResolvedPairs(st, b)
    decreases |a|
  {
    if a != [] {
      assert (a + b)[1..] == a[1..] + b;
      ResolvedPairsAppend(st, a[1..], b);
    } else {
      assert a + b == b;
    }
  }

  /** An entry that is incomplete or does not resolve has no effect: neither
      the outcome for the entries after it nor what was accepted before. */
  lemma DroppedEntryIsInert(st: State, xs: seq<ProposalEntry>, e: ProposalEntry, ys: seq<ProposalEntry>, seen: set<int>)
    requires !Resolves(st, e)
    ensures Validate(st, xs + [e] + ys, seen) == Validate(st, xs + ys, seen)
  {
    ValidateIsDedupOfResolved(st, xs + [e] + ys, seen);
    ValidateIsDedupOfResolved(st, xs + ys, seen);
    ResolvedPairsAppend(st, xs + [e], ys);
    ResolvedPairsAppend(st, xs, [e]);
    ResolvedPairsAppend(st, xs, ys);
    assert ResolvedPairs(st, [e]) == [] by {
      assert [e][1..] == [];
    }
    assert ResolvedPairs(st, xs) + [] == ResolvedPairs(st, xs);
  }

  /** Order: the pairs accepted from a prefix come first, unchanged, and the
      rest of the response is validated against every auditor accepted so far. */
  /** The auditors of a list are its head's and those of its tail. */
  lemma AuditorsOfCons(p: Pair, tail: seq<Pair>)
    ensures AuditorsOf([p] + tail) == {p.auditorId} + AuditorsOf(tail)
  {
    var whole := [p] + tail;
    forall x | x in AuditorsOf(whole) ensures x in {p.auditorId} + AuditorsOf(tail) {
      var k :| 0 <= k < |whole| && whole[k].auditorId == x;
      if k > 0 { assert whole[k] == tail[k - 1]; }
    }
    forall x | x in AuditorsOf(tail) ensures x in AuditorsOf(whole) {
      var k :| 0 <= k < |tail| && tail[k].auditorId == x;
      assert whole[k + 1] == tail[k];
    }
    assert whole[0].auditorId == p.auditorId;
  }

  lemma {:induction false} ValidateAppend(st: State, a: seq<ProposalEntry>, b: seq<ProposalEntry>, seen: set<int>)
    ensures var pa := Validate(st, a, seen);
      Validate(st, a + b, seen) == pa + Validate(st, b, seen + AuditorsOf(pa))
    decreases |a|
  {
    if a == [] {
      assert a + b == b;
      assert seen + AuditorsOf([]) == seen;
    } else {
      var e := a[0];
      assert (a + b)[1..] == a[1..] + b;
      assert (a + b)[0] == e;
      if Complete(e) && e.assignedAuditorId.value !in seen && Resolves(st, e) {
        var s2 := seen + {e.assignedAuditorId.value};
        ValidateAppend(st, a[1..], b, s2);
        var tail := Validate(st, a[1..], s2);
        AuditorsOfCons(PairOf(e), tail);
        assert seen + AuditorsOf([PairOf(e)] + tail) == s2 + AuditorsOf(tail);
        assert [PairOf(e)] + tail + Validate(st, b, s2 + AuditorsOf(tail))
            == [PairOf(e)] + (tail + Validate(st, b, s2 + AuditorsOf(tail)));
      } else {
        ValidateAppend(st, a[1..], b, seen);
      }
    }
  }

  /** Entry `i` proposes `p` and resolves, and no earlier entry proposing the
      same auditor resolves. */
  predicate FirstResolvingFor(st: State, entries: seq<ProposalEntry>, i: int, p: Pair)
  {
    && 0 <= i < |entries| && Resolves(st, entries[i]) && PairOf(entries[i]) == p
    && forall j :: 0 <= j < i ==> !(Resolves(st, entries[j]) && entries[j].assignedAuditorId == Some(p.auditorId))
  }

  /** "First accepted wins", as an exact characterisation: a pair is accepted
      if and only if its auditor is not already in `seen` and it is proposed
      by the first resolving entry for that auditor. */
  lemma {:induction false} ValidateMembership(st: State, entries: seq<ProposalEntry>, seen: set<int>, p: Pair)
    ensures p in Validate(st, entries, seen) <==>
      p.auditorId !in seen && exists i :: FirstResolvingFor(st, entries, i, p)
    decreases |entries|
  {
    if entries != [] {
      var e := entries[0];
      var rest := entries[1..];
      var accepted := Complete(e) && e.assignedAuditorId.value !in seen && Resolves(st, e);
      var seen' := if accepted then seen + {e.assignedAuditorId.value} else seen;
      ValidateMembership(st, rest, seen', p);
      // Witnesses for `rest` and for `entries` correspond, shifted by one.
      forall i | FirstResolvingFor(st, rest, i, p) && p.auditorId !in seen'
        ensures FirstResolvingFor(st, entries, i + 1, p)
      {
        assert entries[i + 1] == rest[i];
        forall j | 0 <= j < i + 1
          ensures !(Resolves(st, entries[j]) && entries[j].assignedAuditorId == Some(p.auditorId))
        {
          if j > 0 { assert entries[j] == rest[j - 1]; }
        }
      }
      forall i | FirstResolvingFor(st, entries, i, p) && p.auditorId !in seen && i > 0
        ensures FirstResolvingFor(st, rest, i - 1, p)
      {
        assert rest[i - 1] == entries[i];
        forall j | 0 <= j < i - 1
          ensures !(Resolves(st, rest[j]) && rest[j].assignedAuditorId == Some(p.auditorId))
        {
          assert rest[j] == entries[j + 1];
        }
      }
      if p.auditorId !in seen && exists i :: FirstResolvingFor(st, entries, i, p) {
        var i :| FirstResolvingFor(st, entries, i, p);
        if i > 0 {
          if accepted {
            assert !(Resolves(st, entries[0]) && entries[0].assignedAuditorId == Some(p.auditorId));
          }
          assert FirstResolvingFor(st, rest, i - 1, p);
        }
      }
      if p in Validate(st, entries, seen) {
        if accepted && p == PairOf(e) {
          assert FirstResolvingFor(st, entries, 0, p);
        } else {
          var i :| FirstResolvingFor(st, rest, i, p);
          assert FirstResolvingFor(st, entries, i + 1, p);
        }
      }
    }
  }

  // -------------------------------------------------------- saved plans

  /** The plans saved for accepted pairs: consecutive fresh ids from
      `firstId`, status PLANNED, priority MEDIUM. */
  function PlansFrom(pairs: seq<Pair>, firstId: int): (r: seq<AuditPlan>)
    ensures |r| == |pairs|
    ensures forall k :: 0 <= k < |r| ==>
      && r[k].id == firstId + k
      && r[k].auditorId == pairs[k].auditorId && r[k].storeId == pairs[k].storeId
      && r[k].auditStatus == PLANNED && r[k].auditPriority == MEDIUM
  {
    seq(|pairs|, k requires 0 <= k < |pairs| => AuditPlan(firstId + k, pairs[k].auditorId, pairs[k].storeId, MEDIUM, PLANNED))
  }

  /** `processAndSaveAuditPlans` on a state: a null answer at any level saves
      nothing; otherwise the validated pairs are appended as new plans. */
  function ProcessSpec(st: State, prediction: Option<AssignmentResponse>): (r: (State, seq<AuditPlan>))
  {
    match StoreResults(prediction)
    case None => (st, [])
    case Some(entries) =>
      var pairs := Validate(st, entries, {});
      var saved := PlansFrom(pairs, st.nextPlanId);
      (WithPlansSaved(st, saved), saved)
  }

  /** The tables after `saved` was appended, one `save` at a time. */
  function WithPlansSaved(st: State, saved: seq<AuditPlan>): State
  {
    st.(plans := st.plans + saved, nextPlanId := st.nextPlanId + |saved|)
  }

  /** Processing keeps the tables well formed, touches only the plan table,
      saves only fresh PLANNED / MEDIUM plans with pairwise distinct auditors,
      at most one per entry, and nothing at all for a null answer. */
  lemma ProcessSpecProperties(st: State, prediction: Option<AssignmentResponse>)
    requires WellFormed(st)
    ensures var (st', saved) := ProcessSpec(st, prediction);
      && WellFormed(st')
      && st'.auditors == st.auditors && st'.stores == st.stores
      && st'.plans == st.plans + saved
      && (forall k :: 0 <= k < |saved| ==>
            saved[k].auditStatus == PLANNED && saved[k].auditPriority == MEDIUM && saved[k].id >= st.nextPlanId)
      && (forall i, j :: 0 <= i < j < |saved| ==> saved[i].auditorId != saved[j].auditorId)
      && (StoreResults(prediction).None? ==> st' == st)
      && (StoreResults(prediction).Some? ==> |saved| <= |StoreResults(prediction).value|)
  {
    var (st', saved) := ProcessSpec(st, prediction);
    if StoreResults(prediction).Some? {
      var pairs := Validate(st, StoreResults(prediction).value, {});
      assert saved == PlansFrom(pairs, st.nextPlanId);
      forall i, j | 0 <= i < j < |st'.plans| ensures st'.plans[i].id != st'.plans[j].id {
        if j >= |st.plans| && i < |st.plans| {
          assert st'.plans[i] == st.plans[i];
        }
      }
      forall i | 0 <= i < |st'.plans|
        ensures 0 < st'.plans[i].id < st'.nextPlanId
        ensures HasAuditor(st'.auditors, st'.plans[i].auditorId) && HasStore(st'.stores, st'.plans[i].storeId)
      {
        if i < |st.plans| {
          assert st'.plans[i] == st.plans[i];
        } else {
          assert st'.plans[i] == saved[i - |st.plans|];
        }
      }
    }
  }

  /** The discrepancy made concrete: one response proposing auditor 10 for
      two stores. As written both plans are saved; as intended only the
      first is. */
  lemma DuplicateAuditorCounterexample()
    ensures var st := State(
        [Auditor(10, "A", 0.0, 0.0, 40.0, 0.0, AVAILABLE)],
        [Store(1, None, None, 0.0, 0.0, OPEN), Store(2, None, None, 0.0, 0.0, OPEN)],
        [], 11, 3, 1);
      var entries := [ProposalEntry(Some(1), Some(10)), ProposalEntry(Some(2), Some(10))];
      && ValidateAsWritten(st, entries) == [Pair(1, 10), Pair(2, 10)]
      && Validate(st, entries, {}) == [Pair(1, 10)]
  {
    var st := State(
        [Auditor(10, "A", 0.0, 0.0, 40.0, 0.0, AVAILABLE)],
        [Store(1, None, None, 0.0, 0.0, OPEN), Store(2, None, None, 0.0, 0.0, OPEN)],
        [], 11, 3, 1);
    var entries := [ProposalEntry(Some(1), Some(10)), ProposalEntry(Some(2), Some(10))];
    assert st.auditors[0].id == 10;
    assert st.stores[0].id == 1 && st.stores[1].id == 2;
    assert Resolves(st, entries[0]) && Resolves(st, entries[1]);
    assert entries[1..][1..] == [];
  }
}
