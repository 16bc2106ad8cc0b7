# Real-time audit reassignment: a verified model of the assignment engine

The system plans store audits. A Spring service keeps three tables:
auditors (with an availability status), stores (open or closed) and audit
plans, each binding one auditor to one store. It asks an external optimizer
which auditor should audit which store.

- It saves the optimizer's proposals as PLANNED / MEDIUM plans, after checking
  that they resolve to real rows.
- When an auditor stops being AVAILABLE, it asks the optimizer to reassign
  each of that auditor's stores.
- When a store closes, it drops the store's plan.

Two Python services play the optimizer:

- a Flask service that normalises incoming statuses, validates the dicts and
  assigns open stores greedily under an hours budget, writing disruption
  records;
- an OpenAI-backed service that validates the request and has a greedy
  one-to-one fallback. It also rejects AI answers that give one auditor two
  stores, and formats the answer for the Spring side.

## How the model is organised

**Tables and queries**

- `Entities`: the three entities and their enums.
- `Repository`: the tables as a value `State` and every derived query as a
  filter over it.
- `Persistence`: a `Database` class whose fields are the tables. Each of its
  methods is one JPA `save`/`delete` on the value state.

**The Spring services**

- `AuditPlanService`, `PlanValidator`, `PlanMapping`, `OptimizerWire`: plan
  generation, processing of a proposal, reassignment, status update, and the
  DTO mappings.
- `AuditorService`: auditor creation and the status-change cascade.
- `StoreService`: store creation, the open-store query and store closing.

Each service operation is a method on the `Database`. Its `ensures` ties the
new tables to a specification function on `State`, and lemmas state what the
source promises about that function. The optimizer is a function parameter
from request to reply. Each method that calls it also returns the requests it
sent, equal to those its specification records.

**The Python services**

- `PyValues`: JSON values with Python truthiness and `in`.
- `FlaskOptimizer`: status normalisation, the id counters and the validators.
- `FlaskAssignment`: `assign_stores_to_auditors`.
- `RequestValidation`: `validate_request_data`.
- `GreedyAssignment`: the greedy fallback and the one-to-one check on AI
  answers.
- `SpringResponse`: `format_spring_boot_response`.
- `DistanceOrder`: the distance type and a stable sort by key.

The loops of these services are methods proved equal to fold-style
specification functions. The haversine distance is an uninterpreted function
parameter. `LabelBridge` connects the two sides: the labels the Java side
sends are the labels the Python normalisation keeps.

## Model

| member | source | states |
|---|---|---|
| `Entities.ParseAuditStatus` | realtimeaudit/src/main/java/com/application/entities/AuditPlan.java:55-61 | `AuditStatus.valueOf` made total: a parsed name is the name of the constant it returns |
| `Entities.ParseAuditPriority` | realtimeaudit/src/main/java/com/application/entities/AuditPlan.java:49-53 | `AuditPriority.valueOf` made total: a parsed name is the name of the constant it returns |
| `Entities.NamesRoundTrip` | realtimeaudit/src/main/java/com/application/entities/AuditPlan.java:49-61 | `name()` then `valueOf` gives back every status and every priority |
| `Repository.FindAuditorById` | realtimeaudit/src/main/java/com/application/repository/AuditorRepository.java:14 | `findById` finds an auditor with that id exactly when one exists |
| `Repository.FindStoreById` | realtimeaudit/src/main/java/com/application/repository/StoreRepository.java:13 | `findById` finds a store with that id exactly when one exists |
| `Repository.FindPlanById` | realtimeaudit/src/main/java/com/application/repository/AuditPlanRepository.java:14 | `findById` finds a plan with that id exactly when one exists |
| `Repository.FindByAvailabilityStatus` | realtimeaudit/src/main/java/com/application/repository/AuditorRepository.java:16 | exactly the auditors with the given status |
| `Repository.FindByIdNotAndAvailabilityStatus` | realtimeaudit/src/main/java/com/application/repository/AuditorRepository.java:20 | never the excluded id; every other auditor with the status |
| `Repository.FindAvailableAndUnassignedAuditors` | realtimeaudit/src/main/java/com/application/repository/AuditorRepository.java:22-23 | an auditor is returned iff it is AVAILABLE and no plan references it |
| `Repository.FindByStoreStatus` | realtimeaudit/src/main/java/com/application/repository/StoreRepository.java:14 | exactly the stores with the given status |
| `Repository.FindOpenAndUnassignedStores` | realtimeaudit/src/main/java/com/application/repository/StoreRepository.java:17-18 | a store is returned iff it is OPEN and no plan references it |
| `Repository.FindByAuditors` | realtimeaudit/src/main/java/com/application/repository/AuditPlanRepository.java:16 | exactly the plans that reference the auditor |
| `Repository.FindByStore` | realtimeaudit/src/main/java/com/application/repository/AuditPlanRepository.java:18 | no plan, the store's unique plan, or a non-unique-result error that can only happen when some store has two plans |
| `Repository.WithPlanInserted` | realtimeaudit/src/main/java/com/application/service/AuditPlanServiceImpl.java:159-165 | saving a new plan appends it under the next plan id, touches no other table, and keeps the tables well formed when its auditor and store exist |
| `Repository.WithPlanReplaced` | realtimeaudit/src/main/java/com/application/service/AuditPlanServiceImpl.java:258-263 | saving an existing plan replaces the row with the same id, nothing else, and keeps the tables well formed when its auditor exists |
| `Repository.WithPlanDeleted` | realtimeaudit/src/main/java/com/application/service/AuditPlanServiceImpl.java:238 | deleting removes exactly the plan with that id and keeps ids unique and stores single-planned |
| `Repository.WithAuditorReplaced` | realtimeaudit/src/main/java/com/application/service/AuditorServiceImpl.java:79-82 | saving an existing auditor replaces exactly its row |
| `Repository.WithStoreReplaced` | realtimeaudit/src/main/java/com/application/service/StoreServiceImpl.java:55-56 | saving an existing store replaces exactly its row |
| `Repository.WithAuditorInserted` | realtimeaudit/src/main/java/com/application/service/AuditorServiceImpl.java:46 | saving a new auditor appends it under a fresh id |
| `Repository.WithStoreInserted` | realtimeaudit/src/main/java/com/application/service/StoreServiceImpl.java:33-35 | saving a new store appends it under a fresh id |
| `Seqs.FilterKeepsKeysUnique` | realtimeaudit/src/main/java/com/application/repository/AuditPlanRepository.java:14 | removing rows never creates a duplicate id |
| `Repository.ReplaceKeepsKeys` | realtimeaudit/src/main/java/com/application/repository/AuditPlanRepository.java:14 | replacing a row by id keeps the set of ids |
| `Persistence.Database.constructor` | realtimeaudit/src/main/java/com/application/repository/AuditPlanRepository.java:14 | empty tables whose identity counters start at 1 |
| `Persistence.Database.InsertPlan` | realtimeaudit/src/main/java/com/application/service/AuditPlanServiceImpl.java:165 | the new tables are `WithPlanInserted` of the old ones |
| `Persistence.Database.UpdatePlan` | realtimeaudit/src/main/java/com/application/service/AuditPlanServiceImpl.java:263 | the new tables are `WithPlanReplaced` of the old ones |
| `Persistence.Database.DeletePlan` | realtimeaudit/src/main/java/com/application/service/AuditPlanServiceImpl.java:271 | the new tables are `WithPlanDeleted` of the old ones |
| `Persistence.Database.UpdateAuditor` | realtimeaudit/src/main/java/com/application/service/AuditorServiceImpl.java:82 | the new tables are `WithAuditorReplaced` of the old ones |
| `Persistence.Database.UpdateStore` | realtimeaudit/src/main/java/com/application/service/StoreServiceImpl.java:56 | the new tables are `WithStoreReplaced` of the old ones |
| `Persistence.Database.Rollback` | realtimeaudit/src/main/java/com/application/service/StoreServiceImpl.java:48 | a failed transaction restores the tables as they were when it began |
| `Persistence.Database.InsertAuditor` | realtimeaudit/src/main/java/com/application/service/AuditorServiceImpl.java:46 | the new tables are `WithAuditorInserted` of the old ones |
| `Persistence.Database.InsertStore` | realtimeaudit/src/main/java/com/application/service/StoreServiceImpl.java:34 | the new tables are `WithStoreInserted` of the old ones |
| `OptimizerWire.StoreResults` | realtimeaudit/src/main/java/com/application/service/AuditPlanServiceImpl.java:127-132 | the entry list is present iff the answer, its `data` and its `stores` are all non-null |
| `PlanMapping.AvailabilityLabel` | realtimeaudit/src/main/java/com/application/service/AuditPlanServiceImpl.java:186-190 | "Available" iff AVAILABLE, otherwise "Unavailable" |
| `PlanMapping.StoreStatusLabel` | realtimeaudit/src/main/java/com/application/service/AuditPlanServiceImpl.java:200-204 | "Open" iff OPEN, otherwise "Closed" |
| `PlanMapping.MapEntitiesToRequestDTO` | realtimeaudit/src/main/java/com/application/service/AuditPlanServiceImpl.java:179-211 | one DTO per entity, same order and length, same ids and coordinates, statuses as labels |
| `PlanMapping.MapSingleStoreToRequestDTO` | realtimeaudit/src/main/java/com/application/service/AuditPlanServiceImpl.java:276-295 | exactly one store labelled "Open"; one DTO per candidate, each labelled "Available" |
| `PlanMapping.ConvertToDTO` | realtimeaudit/src/main/java/com/application/service/AuditPlanServiceImpl.java:215-230 | the projection carries the plan id, enum names that parse back to the plan's status and priority, and the ids and names of its auditor and store |
| `PlanMapping.ConvertAll` | realtimeaudit/src/main/java/com/application/service/AuditPlanServiceImpl.java:116-118 | the projections of the saved plans, in order |
| `PlanMapping.CandidateRequestLabels` | realtimeaudit/src/main/java/com/application/service/AuditPlanServiceImpl.java:100-108 | the batch request built from the candidate queries labels every auditor "Available" and every store "Open" |
| `PlanValidator.Validate` | realtimeaudit/src/main/java/com/application/service/AuditPlanServiceImpl.java:135-173 | the intended loop: every accepted pair resolves to an existing auditor and store, no auditor is accepted twice, the result is no longer than the input |
| `PlanValidator.ValidateAsWritten` | realtimeaudit/src/main/java/com/application/service/AuditPlanServiceImpl.java:125-166 | the loop as written, whose duplicate check never fires; every pair it keeps resolves |
| `PlanValidator.ValidateIsDedupOfResolved` | realtimeaudit/src/main/java/com/application/service/AuditPlanServiceImpl.java:142-166 | validation equals "keep the entries that resolve, then the first pair per auditor", whatever the order of the checks |
| `PlanValidator.AsWrittenKeepsAllResolved` | realtimeaudit/src/main/java/com/application/service/AuditPlanServiceImpl.java:147-150 | as written, every resolving entry is saved, repeated auditors included |
| `PlanValidator.ResolvedPairsAppend` | realtimeaudit/src/main/java/com/application/service/AuditPlanServiceImpl.java:135-173 | entries are resolved independently, in response order |
| `PlanValidator.DroppedEntryIsInert` | realtimeaudit/src/main/java/com/application/service/AuditPlanServiceImpl.java:142-171 | an incomplete or unresolvable entry is skipped without raising and changes nothing before or after it |
| `PlanValidator.ValidateAppend` | realtimeaudit/src/main/java/com/application/service/AuditPlanServiceImpl.java:135-173 | results follow response order: a prefix's pairs come first, and later entries are checked against every auditor accepted so far |
| `PlanValidator.ValidateMembership` | realtimeaudit/src/main/java/com/application/service/AuditPlanServiceImpl.java:147-166 | first accepted wins: a pair is accepted iff its auditor is new and it is the first resolving proposal for that auditor |
| `PlanValidator.PlansFrom` | realtimeaudit/src/main/java/com/application/service/AuditPlanServiceImpl.java:159-165 | one PLANNED / MEDIUM plan per accepted pair, with that pair's auditor and store, under consecutive fresh ids |
| `PlanValidator.ProcessSpecProperties` | realtimeaudit/src/main/java/com/application/service/AuditPlanServiceImpl.java:123-175 | only fresh PLANNED / MEDIUM plans are appended, with pairwise distinct auditors (the intended filter; see Findings) and at most one per entry; a null answer saves nothing; only the plan table changes |
| `PlanValidator.DuplicateAuditorCounterexample` | realtimeaudit/src/main/java/com/application/service/AuditPlanServiceImpl.java:125-166 | one answer giving auditor 10 two stores: two plans as written, one as intended |
| `AuditPlanService.ProcessAndSaveAuditPlans` | realtimeaudit/src/main/java/com/application/service/AuditPlanServiceImpl.java:123-175 | the loop saves exactly the plans of the specification, in order |
| `AuditPlanService.PlansFromSnoc` | realtimeaudit/src/main/java/com/application/service/AuditPlanServiceImpl.java:165-166 | accepting one more pair saves one more plan under the next id |
| `AuditPlanService.GenerateAndSaveAuditPlan` | realtimeaudit/src/main/java/com/application/service/AuditPlanServiceImpl.java:97-119 | the tables, result and requests sent are those of the generation specification |
| `AuditPlanService.GenerateSpecProperties` | realtimeaudit/src/main/java/com/application/service/AuditPlanServiceImpl.java:100-118 | with no candidate on either side: an empty list and no call. Otherwise one call. Only PLANNED / MEDIUM plans are appended; a failed call changes nothing |
| `AuditPlanService.GenerateNullAnswerSavesNothing` | realtimeaudit/src/main/java/com/application/service/AuditPlanServiceImpl.java:127-130 | a null answer, `data` or `stores` returns an empty list and saves nothing |
| `AuditPlanService.ProcessMayDoubleBookAStore` | realtimeaudit/src/main/java/com/application/service/AuditPlanServiceImpl.java:152-165 | the validator does not bound plans per store: a proposal for a planned store gives it a second plan |
| `AuditPlanService.FirstProposedAuditor` | realtimeaudit/src/main/java/com/application/service/AuditPlanServiceImpl.java:245-252 | an auditor is proposed iff the answer's entry list is non-empty and its first entry names an auditor; the proposal is that entry's `assigned_auditor_id`, whatever store the entry names |
| `AuditPlanService.ReassignStore` | realtimeaudit/src/main/java/com/application/service/AuditPlanServiceImpl.java:234-273 | the tables, result and requests sent are those of the reassignment specification |
| `AuditPlanService.Unassign` | realtimeaudit/src/main/java/com/application/service/AuditPlanServiceImpl.java:238-271 | `findByStore(...).ifPresent(delete)`: the store's plan, if any, is deleted and null returned |
| `AuditPlanService.ReassignFrame` | realtimeaudit/src/main/java/com/application/service/AuditPlanServiceImpl.java:236-272 | auditors and stores never change; a raised error changes nothing; no request without candidates, otherwise exactly the single-store request |
| `AuditPlanService.ReassignKeepsWellFormed` | realtimeaudit/src/main/java/com/application/service/AuditPlanServiceImpl.java:255-263 | a rebound plan names an existing auditor, so the tables stay well formed |
| `AuditPlanService.ReassignRebinds` | realtimeaudit/src/main/java/com/application/service/AuditPlanServiceImpl.java:257-263 | a returned plan is the store's only plan, with its id, store, status and priority kept and only its auditor changed; that auditor exists and is the one the first entry of the optimizer's answer to the single-store request proposed; no other plan changes |
| `AuditPlanService.ReassignUnusableAnswerUnassigns` | realtimeaudit/src/main/java/com/application/service/AuditPlanServiceImpl.java:245-272 | with candidates and an answer, an answer proposing nobody (no entries, or a first entry without an auditor id) or an id `findById` misses takes the unassign path: the store's plan, if any, is deleted and null returned, after the one request |
| `AuditPlanService.ReassignUnassigns` | realtimeaudit/src/main/java/com/application/service/AuditPlanServiceImpl.java:236-272 | when null is returned the store has no plan left and every other store's plan is kept |
| `AuditPlanService.ReassignWithoutCandidatesUnassigns` | realtimeaudit/src/main/java/com/application/service/AuditPlanServiceImpl.java:236-240 | with no candidates the plan is deleted, nothing is sent and null is returned |
| `AuditPlanService.ReassignAcceptsAuditorOutsidePool` | realtimeaudit/src/main/java/com/application/service/AuditPlanServiceImpl.java:254-261 | an answer naming an existing ON_LEAVE auditor outside the candidates is accepted |
| `AuditPlanService.UpdateAuditPlanStatus` | realtimeaudit/src/main/java/com/application/service/AuditPlanServiceImpl.java:327-344 | the tables and result are those of the partial-update specification |
| `AuditPlanService.UpdatePlanStatusProperties` | realtimeaudit/src/main/java/com/application/service/AuditPlanServiceImpl.java:327-343 | an unknown id raises and changes nothing. Otherwise only the non-null fields of that plan are overwritten, auditor and store stay, and the returned view is the projection of the updated plan, with its own auditor and store ids |
| `AuditorService.TrimStart` | realtimeaudit/src/main/java/com/application/service/AuditorServiceImpl.java:41 | `trim()` keeps a suffix of the name; every character it drops is at most ' ', the first one it keeps is above ' ', and it keeps nothing only for a name made of such characters |
| `AuditorService.TrimEnd` | realtimeaudit/src/main/java/com/application/service/AuditorServiceImpl.java:41 | `trim()` keeps a prefix of the name; every character it drops is at most ' ', and the last one it keeps is above ' ' |
| `AuditorService.TrimEmptyIffBlank` | realtimeaudit/src/main/java/com/application/service/AuditorServiceImpl.java:41 | `trim().isEmpty()` iff every character is at most ' ' |
| `AuditorService.SaveAuditors` | realtimeaudit/src/main/java/com/application/service/AuditorServiceImpl.java:35-47 | the tables and result are those of the save specification |
| `AuditorService.SaveAuditorProperties` | realtimeaudit/src/main/java/com/application/service/AuditorServiceImpl.java:37-46 | a null or blank name is rejected and nothing is saved; otherwise one auditor is appended, AVAILABLE when no status was given |
| `AuditorService.StoreOf` | realtimeaudit/src/main/java/com/application/service/AuditorServiceImpl.java:102-105 | an affected plan's store row exists and carries the plan's store id |
| `AuditorService.CascadeSpec` | realtimeaudit/src/main/java/com/application/service/AuditorServiceImpl.java:100-106 | the loop reassigns each affected plan's store in order with one pool; an error stops it and earlier changes stay |
| `AuditorService.CascadeStep` | realtimeaudit/src/main/java/com/application/service/AuditorServiceImpl.java:100-106 | one turn of the loop is one `reassignStore` for the first affected plan |
| `AuditorService.CascadeKeepsWellFormed` | realtimeaudit/src/main/java/com/application/service/AuditorServiceImpl.java:100-106 | the loop keeps the tables well formed |
| `AuditorService.UpdateAvailabilitySpec` | realtimeaudit/src/main/java/com/application/service/AuditorServiceImpl.java:66-118 | the saved auditor is the old row with the new status; the cascade runs only on the AVAILABLE edge |
| `AuditorService.AffectedStoresResolve` | realtimeaudit/src/main/java/com/application/service/AuditorServiceImpl.java:91 | every plan `findByAuditors` returns has an existing store |
| `AuditorService.RunCascade` | realtimeaudit/src/main/java/com/application/service/AuditorServiceImpl.java:99-106 | the loop over the database does what the cascade specification says |
| `AuditorService.UpdateAvailabilityStatus` | realtimeaudit/src/main/java/com/application/service/AuditorServiceImpl.java:66-118 | the tables, result and requests sent are those of the specification |
| `AuditorService.CascadeSendsOneRequestPerPlan` | realtimeaudit/src/main/java/com/application/service/AuditorServiceImpl.java:100-106 | with a non-empty pool, a loop that raises nothing sends one request per affected plan, in order, each with the whole pool |
| `AuditorService.CascadeWithEmptyPool` | realtimeaudit/src/main/java/com/application/service/AuditorServiceImpl.java:96-106 | with an empty pool the loop raises nothing, sends nothing and deletes exactly the affected stores' plans |
| `AuditorService.UpdateAvailabilityProperties` | realtimeaudit/src/main/java/com/application/service/AuditorServiceImpl.java:70-117 | unknown id: raises, nothing changes. Otherwise the auditor's row alone takes the new status whatever the cascade did, stores stay, and the saved auditor is returned |
| `AuditorService.CascadeOnlyOnEdge` | realtimeaudit/src/main/java/com/application/service/AuditorServiceImpl.java:86-114 | off the AVAILABLE to non-AVAILABLE edge, no plan changes and nothing is sent |
| `AuditorService.CascadePoolAndRequests` | realtimeaudit/src/main/java/com/application/service/AuditorServiceImpl.java:91-106 | the pool is exactly the other AVAILABLE auditors, taken once; one request per plan of the auditor, in order, each with that pool |
| `AuditorService.OtherStoresAreOtherAuditors` | realtimeaudit/src/main/java/com/application/service/AuditorServiceImpl.java:91 | with one plan per store, plans outside the auditor's stores are exactly other auditors' plans |
| `AuditorService.EmptyPoolDeletesAuditorPlans` | realtimeaudit/src/main/java/com/application/service/AuditorServiceImpl.java:96-105 | with nobody else AVAILABLE, every plan of the auditor is deleted, others stay, nothing is sent |
| `AuditorService.CascadeMayBindOneAuditorToSeveralStores` | realtimeaudit/src/main/java/com/application/service/AuditorServiceImpl.java:96-105 | the pool never shrinks: one auditor can be rebound to two stores in one cascade |
| `AuditorService.CascadeReassignRebinds` | realtimeaudit/src/main/java/com/application/service/AuditPlanServiceImpl.java:245-263 | when the answer proposes an existing auditor for a store with exactly one plan, `reassignStore` succeeds and that plan, and only it, is rebound to the proposed auditor |
| `StoreService.SaveStore` | realtimeaudit/src/main/java/com/application/service/StoreServiceImpl.java:33-35 | the tables and result are those of the save specification |
| `StoreService.SaveStoreProperties` | realtimeaudit/src/main/java/com/application/service/StoreServiceImpl.java:33-35 | one store appended with a fresh id and the given fields, OPEN when no status was given |
| `StoreService.FindOpenStores` | realtimeaudit/src/main/java/com/application/service/StoreServiceImpl.java:43-45 | exactly the OPEN stores |
| `StoreService.UpdateStoreStatus` | realtimeaudit/src/main/java/com/application/service/StoreServiceImpl.java:47-80 | the tables and result are those of the update specification, rolled back on an error |
| `StoreService.UpdateStoreStatusProperties` | realtimeaudit/src/main/java/com/application/service/StoreServiceImpl.java:51-79 | unknown id: raises, nothing changes. Otherwise only that store takes the new status and is returned; OPEN touches no plan; CLOSED deletes exactly its plan; auditors never change |
| `Seqs.DictOf` | streamlit/app.py:221-222 | `{row[key]: row for row in rows}`: unique keys, every input key present, each value the last row with that key |
| `PyValues.PyIn` | streamlit/openapp.py:58-66 | `key in x`: membership for a dict or list, substring for a string, `TypeError` for anything else |
| `PyValues.IsSubstringIff` | streamlit/openapp.py:58-66 | Python's substring test on a string holds exactly when some window of the string equals the key |
| `FlaskOptimizer.StripStart` | streamlit/app.py:123 | drops exactly the leading white space |
| `FlaskOptimizer.StripEnd` | streamlit/app.py:123 | drops exactly the trailing white space |
| `FlaskOptimizer.StripIdempotent` | streamlit/app.py:123 | stripping twice is stripping once |
| `FlaskOptimizer.Upper` | streamlit/app.py:124 | upper-cases each character, keeping the length |
| `FlaskOptimizer.AuditorStatusCases` | streamlit/app.py:123-124 | "Available" iff AVAILABLE or AVAILABLE_PART_TIME in any case; "Unavailable" iff UNAVAILABLE, ON_LEAVE or blank; any other status kept, stripped |
| `FlaskOptimizer.StoreStatusCases` | streamlit/app.py:168-169 | "Open" iff OPEN in any case; "Closed" iff CLOSED, OWNERSHIP_CHANGE, UNDER_MAINTENANCE or blank; any other status kept, stripped |
| `FlaskOptimizer.AuditorMapEntries` | streamlit/app.py:29-34 | the four auditor keys of the map, and which of them mean "Available" and which "Unavailable" |
| `FlaskOptimizer.StoreMapEntries` | streamlit/app.py:35-40 | the four store keys of the map, and that only OPEN means "Open" |
| `FlaskOptimizer.AuditorLookupCases` | streamlit/app.py:124 | the lookup gives "Available" exactly for the upper-cased AVAILABLE keys, "Unavailable" exactly for the other two keys or an empty status, and passes any other status through |
| `FlaskOptimizer.StoreLookupCases` | streamlit/app.py:169 | the lookup gives "Open" exactly for OPEN, "Closed" exactly for the three closing keys or an empty status, and passes any other status through |
| `FlaskOptimizer.LabelsAreNormal` | streamlit/app.py:29-40 | the four labels normalise to themselves |
| `FlaskOptimizer.AuditorStatusIdempotent` | streamlit/app.py:123-124 | normalising an auditor status twice is normalising it once |
| `FlaskOptimizer.StoreStatusIdempotent` | streamlit/app.py:168-169 | normalising a store status twice is normalising it once |
| `FlaskOptimizer.IdCounters.constructor` | streamlit/app.py:66 | the counters start at 1000 and 2000 |
| `FlaskOptimizer.IdCounters.NextId` | streamlit/app.py:67-69 | returns one more than that kind's last id, so ids strictly increase from 1001 or 2001; the other kind is untouched |
| `FlaskOptimizer.FirstMissing` | streamlit/app.py:184-186 | the position of the first required field the dict lacks, after all earlier ones were found |
| `FlaskOptimizer.ValidateAuditor` | streamlit/app.py:182-198 | passes iff all fields are present, the id is an int, latitude in [-90, 90], longitude in [-180, 180], a string status and numeric hours; a missing field is named in list order |
| `FlaskOptimizer.ValidateStore` | streamlit/app.py:200-212 | passes iff all fields are present, the id is an int, latitude and longitude in range and the status a string; a missing field is named in list order |
| `FlaskAssignment.InitialRemaining` | streamlit/app.py:225-227 | remaining hours are never negative and positive iff current hours are below capacity |
| `FlaskAssignment.NearestIsEligibleMinimum` | streamlit/app.py:253-258 | the chosen tuple belongs to an eligible auditor and no eligible auditor is nearer |
| `FlaskAssignment.Choose` | streamlit/app.py:258-259 | a chosen id indexes the working row with that id |
| `FlaskAssignment.Place` | streamlit/app.py:235-281 | one pass appends one record, numbered next, for the store, and gives the store an `assigned_auditor_id` entry |
| `FlaskAssignment.TakenSnoc` | streamlit/app.py:264-278 | a STORE_ASSIGNMENT record adds its auditor to the taken ones |
| `FlaskAssignment.EligibleIffEligibleAt` | streamlit/app.py:236-239 | a row is eligible iff Available, with hours left at the start, and not named by any record so far |
| `FlaskAssignment.NoneEligibleIff` | streamlit/app.py:240 | a store finds nobody iff no row is eligible |
| `FlaskAssignment.ChosenSlot` | streamlit/app.py:258-259 | with unique ids, the row found by the chosen id is the eligible row the tuple came from |
| `FlaskAssignment.PlaceNoneKeepsInv` | streamlit/app.py:240-250 | a store without an auditor keeps the invariant |
| `FlaskAssignment.PlaceChosenKeepsSlots` | streamlit/app.py:262-264 | booking hours keeps every row's hours non-negative and its store count at most one |
| `FlaskAssignment.PlaceChosenKeepsBacked` | streamlit/app.py:264-269 | every recorded store is held by exactly the auditor recorded for it |
| `FlaskAssignment.PlaceKeepsInv` | streamlit/app.py:235-281 | one pass keeps the invariant: at most one store per auditor, hours never negative, only eligible auditors served |
| `FlaskAssignment.RunKeepsInv` | streamlit/app.py:235-281 | the whole loop keeps the invariant |
| `FlaskAssignment.RunRecords` | streamlit/app.py:242-281 | one record per open store, in order, numbered from 1 |
| `FlaskAssignment.RunAssignedKeys` | streamlit/app.py:241-269 | exactly the open stores receive an `assigned_auditor_id` entry |
| `FlaskAssignment.RunPrefix` | streamlit/app.py:235 | the records before store `k` is visited are the first `k` records of the run |
| `FlaskAssignment.RunStep` | streamlit/app.py:235 | visiting store `k` is one pass from the state before it |
| `FlaskAssignment.PlaceDecides` | streamlit/app.py:236-281 | a pass writes NO_AVAILABLE_AUDITOR iff nobody is eligible; otherwise STORE_ASSIGNMENT names an eligible auditor no farther than any other, with the hours booked |
| `FlaskAssignment.RunDecides` | streamlit/app.py:235-281 | every record of the run follows that rule, judged against the records before it |
| `FlaskAssignment.AssignSpecAuditors` | streamlit/app.py:221-298 | one output auditor per distinct id; each holds at most one store, never has negative hours left, holds one only if it was Available with hours left, and its predicted plus remaining hours make up its capacity |
| `FlaskAssignment.AssignSpecStores` | streamlit/app.py:231-310 | one output store per distinct id; a store with an auditor is "Open", and that auditor lists exactly that store |
| `FlaskAssignment.PlaceAssigns` | streamlit/app.py:241-269 | a pass writes the store's `assigned_auditor_id` as the auditor its new record names (None for NO_AVAILABLE_AUDITOR), and leaves earlier entries alone |
| `FlaskAssignment.RunAssignsAsRecorded` | streamlit/app.py:235-281 | after the loop, each open store's `assigned_auditor_id` is the auditor named by its own record |
| `FlaskAssignment.OutputsMatchRecords` | streamlit/app.py:284-310 | the output lists read off a final state agree with its records: a store's auditor is its record's, the auditor named by a record lists exactly that store, and every auditor holding a store is named by some record |
| `FlaskAssignment.AssignSpecMatchesRecords` | streamlit/app.py:235-310 | in the returned result, closed stores have no auditor, each open store's auditor is the one its disruption record names, that auditor's `assigned_store_ids` is exactly that store, and an auditor holds a store only if a record names it |
| `FlaskAssignment.DecidedIsNearestOrNone` | streamlit/app.py:240-269 | a record decided by the rule gives None exactly when nobody was eligible, otherwise an eligible auditor no farther than any other |
| `FlaskAssignment.StoreOutputIsNearest` | streamlit/app.py:235-310 | each open store's output `assigned_auditor_id` is None exactly when no auditor was eligible at its turn, and otherwise names an auditor eligible then and no farther from the store than any other eligible one |
| `FlaskAssignment.AssignSpecDisruptions` | streamlit/app.py:235-281 | one record per open store, in order, numbered from 1, each decided by the nearest-eligible rule at its turn |
| `FlaskAssignment.PredictedHoursCounterexample` | streamlit/app.py:286-287 | as written, an unserved auditor with 10 of 40 hours used is reported with 20; as intended with 10 |
| `FlaskAssignment.MeasureDistances` | streamlit/app.py:253-256 | the loop yields, in eligible order, each eligible auditor's id with its distance to the store |
| `FlaskAssignment.NearestEligible` | streamlit/app.py:253-258 | sorting the eligible auditors' distances and taking the head yields the earliest eligible auditor of least distance |
| `FlaskAssignment.NearestHasSlot` | streamlit/app.py:258-259 | the chosen auditor id is always found among the working slots |
| `FlaskAssignment.PlaceStore` | streamlit/app.py:236-281 | the pass, updating the chosen row in place, gives the specified state |
| `FlaskAssignment.PrepareSlots` | streamlit/app.py:225-228 | every row starts with its initial remaining hours and no store |
| `FlaskAssignment.PlaceStores` | streamlit/app.py:235-281 | the loop over the open stores ends in the specified state |
| `FlaskAssignment.AuditorsOutput` | streamlit/app.py:284-298 | one output entry per working row, in order |
| `FlaskAssignment.StoresOutput` | streamlit/app.py:301-310 | one output entry per store row, with its `assigned_auditor_id` or None |
| `FlaskAssignment.AssignStoresToAuditors` | streamlit/app.py:215-312 | the result is the specification, whose properties are the three `AssignSpec` lemmas |
| `RequestValidation.ScanItemMeaning` | streamlit/openapp.py:80-91 | one item passes iff it has every field; otherwise the first missing field is named, or `TypeError` if it is not a container |
| `RequestValidation.ScanItemsMeaning` | streamlit/openapp.py:80-91 | all items pass iff all have their fields; a failure comes from the first failing item |
| `RequestValidation.VerdictAcceptedIff` | streamlit/openapp.py:51-93 | accepted iff the body is a dict with non-empty `auditors` and `stores` lists whose entries all carry the required fields |
| `RequestValidation.VerdictRaises` | streamlit/openapp.py:58-91 | a `TypeError` escapes only for a non-dict body or an entry that is not a container |
| `RequestValidation.FindMissingField` | streamlit/openapp.py:80-91 | the nested loops, with early exits, give the scan of the specification |
| `RequestValidation.ValidateRequestData` | streamlit/openapp.py:51-93 | the checks run in code order with their exact messages, and accept iff the body is well formed |
| `DistanceOrder.InsertProperties` | streamlit/openapp.py:243-247 | inserting into a sorted list keeps it sorted and adds exactly the element |
| `DistanceOrder.SortByKey` | streamlit/openapp.py:243-247 | `sort(key=...)`: the result is sorted by key and a permutation of the input |
| `DistanceOrder.SortedHeadIsMinimum` | streamlit/openapp.py:247 | `x[1][0]`, the head of a store's sorted distances, is one of them and no farther than any |
| `DistanceOrder.FirstMinimumIsMinimum` | streamlit/app.py:257-258 | the earliest candidate of least distance is a candidate and no other candidate is nearer |
| `DistanceOrder.SortedHeadIsFirstMinimum` | streamlit/app.py:257-258 | because the sort is stable, `distances[0]` is the earliest candidate of least distance, so ties go to the auditor listed first |
| `DistanceOrder.MapSeq` | streamlit/openapp.py:250-276 | `[f(x) for x in s]`: same length, element by element |
| `DistanceOrder.InsertMapped` | streamlit/openapp.py:247 | insertion adds exactly the element's image to any projection |
| `DistanceOrder.SortByKeyMapped` | streamlit/openapp.py:247 | sorting permutes any projection of the elements too |
| `GreedyAssignment.FirstUntaken` | streamlit/openapp.py:254-256 | the position of the first ranked auditor not yet taken, all earlier ones taken; none iff all are taken |
| `GreedyAssignment.ServeAll` | streamlit/openapp.py:250-276 | one entry per visited store |
| `GreedyAssignment.TakenMembers` | streamlit/openapp.py:225-257 | an id is taken iff some earlier entry assigned it |
| `GreedyAssignment.DistancesMembers` | streamlit/openapp.py:232-240 | a store's tuples are exactly those of the Available auditors |
| `GreedyAssignment.RankedMembers` | streamlit/openapp.py:232-243 | sorting keeps exactly the Available auditors' tuples |
| `GreedyAssignment.ChoicesKeyIsNearest` | streamlit/openapp.py:247 | a store's sort key is infinity iff nobody is Available; otherwise the least distance to an Available auditor |
| `GreedyAssignment.ServeDecides` | streamlit/openapp.py:250-276 | a store gets None iff every Available auditor is taken; otherwise the nearest untaken Available auditor with its distance |
| `GreedyAssignment.ServeAllPrefix` | streamlit/openapp.py:250-276 | each entry is decided against the auditors taken by the entries before it |
| `GreedyAssignment.VisitOrderEntries` | streamlit/openapp.py:244-247 | every pair the loop visits is an input store with its ranked auditors |
| `GreedyAssignment.GreedyDecides` | streamlit/openapp.py:242-276 | every output entry follows the nearest-untaken rule for an input store |
| `GreedyAssignment.GreedyOneToOne` | streamlit/openapp.py:225-257 | no auditor id is assigned to two stores |
| `GreedyAssignment.GreedyVisitOrder` | streamlit/openapp.py:247 | stores are served by increasing distance to their nearest Available auditor |
| `GreedyAssignment.GreedyCoversStores` | streamlit/openapp.py:250-276 | every input store appears in the output exactly as often as in the input |
| `GreedyAssignment.GreedyPassesCheck` | streamlit/openapp.py:188-195 | the greedy answer always passes the one-to-one check |
| `GreedyAssignment.CheckOneToOne` | streamlit/openapp.py:188-195 | succeeds iff no truthy auditor id repeats; otherwise the source raises |
| `GreedyAssignment.RankAuditors` | streamlit/openapp.py:231-243 | the inner loop with `continue`, then the sort, gives the ranked Available auditors |
| `GreedyAssignment.FindUntaken` | streamlit/openapp.py:254-266 | the search with `break` finds the first untaken ranked auditor |
| `GreedyAssignment.PairStores` | streamlit/openapp.py:230-244 | the outer loop yields one pair per store, in input order, each holding that store's Available auditors ranked by distance |
| `GreedyAssignment.ServeInOrder` | streamlit/openapp.py:250-276 | the assignment loop with its `assigned_auditors` set gives the specified entries |
| `GreedyAssignment.AssignWithGreedy` | streamlit/openapp.py:209-279 | the result is the specification, whose properties are the `Greedy` lemmas |
| `SpringResponse.LastAuditorForMeaning` | streamlit/openapp.py:318-322 | a store's auditor comes from the last entry about it, None when no entry is about it |
| `SpringResponse.StoresOfMeaning` | streamlit/openapp.py:323-331 | an auditor's listed stores are exactly those of the entries naming it by a truthy id |
| `SpringResponse.OneStorePerAuditor` | streamlit/openapp.py:323-331 | with no repeated truthy id, an auditor lists at most one store, exactly the one naming it |
| `SpringResponse.FormattedAuditorMeaning` | streamlit/openapp.py:334-350 | auditors echoed in order; each lists exactly its entries' stores, 4 hours per store, the rest of 40 remaining |
| `SpringResponse.FormattedStoreMeaning` | streamlit/openapp.py:353-365 | stores echoed in order; each shows the auditor of the last entry about it, or None |
| `SpringResponse.GreedyResponseAuditor` | streamlit/openapp.py:334-350 | after a greedy answer, 4 hours used and 36 left for a served auditor, 0 and 40 otherwise |
| `SpringResponse.GreedyResponseStore` | streamlit/openapp.py:353-365 | after a greedy answer, every auditor a store shows is an Available input auditor |
| `SpringResponse.BuildLookups` | streamlit/openapp.py:318-331 | the loop fills both lookups so that they answer as the specification folds |
| `SpringResponse.FormatSpringBootResponse` | streamlit/openapp.py:305-374 | the response is the specification, with status "success" and code "SUCCESS" |
| `LabelBridge.SentLabelsAreKept` | streamlit/app.py:29-40 | the labels the Java side sends survive normalisation; "Available" iff AVAILABLE, "Open" iff OPEN |
| `LabelBridge.KeyOfName` | streamlit/app.py:123-124 | a non-empty name of capitals and underscores is left unchanged by `.strip()` and by `.upper()` |
| `LabelBridge.AvailabilityNameNormalises` | streamlit/app.py:123-124 | a Java availability enum name normalises to the label the Java side would send |
| `LabelBridge.StoreStatusNameNormalises` | streamlit/app.py:168-169 | a Java store enum name normalises to the label the Java side would send |

## Left out

- HTTP surface: the controllers, CORS configuration, Flask routes, `require_api_key`, status-code mapping and the Streamlit UI (`streamlit/streamapp.py`).
- `getAssignment` (AuditPlanServiceImpl.java:61-92) is a network call. The optimizer is a function parameter; a transport failure is one of its replies.
- The OpenAI call, prompt construction and markdown stripping (openapp.py:97-185), and the AI-to-greedy fallback in `perform_assignment` (openapp.py:281-301). They are foreign calls. Only the one-to-one check on the AI answer is modelled.
- The haversine distance (openapp.py:28-49, app.py:71-78, AuditPlanServiceImpl.java:311-320) is floating-point trigonometry. It is an uninterpreted function to reals.
- `round()` on hours and distances, and floats in general: distances and hours are exact reals, and NaN and infinities are not modelled.
- `adapt_incoming_payload` (app.py:93-179): the `float()`/`int()` coercions, the key aliases and the id fallbacks. Only its status normalisation (app.py:123-124, 168-169) is modelled. The model starts from adapted rows.
- Disruption record fields that carry no decision: the `triggered_on` timestamp, `reported_by`, the status strings, and the `D001`-style id. The id is kept as its number.
- The `reason` strings of greedy entries, and the `raw` copies in app.py's output.
- File I/O in `save_auditplan`, all logging and printing, JPA lazy loading, and Jackson (de)serialisation.
- Narrowing `(int)` casts of ids (AuditPlanServiceImpl.java:144-145, 254): ids are unbounded integers.
- The optimizer's `stores` entries are a `List<Object>` read with unchecked casts (AuditPlanServiceImpl.java:132, 144-145, 254). The model does not capture an exception thrown part-way, after earlier plans were saved: a `ClassCastException`, or a null entry or id being dereferenced. Nor does it capture `longValue()` truncating a fractional id. An entry is a pair of optional integers.
- `saveAuditors` and `saveStore` (AuditorServiceImpl.java:46, StoreServiceImpl.java:34) always insert a new row. The entities' primitive `int` generated ids (Auditors.java:27-30, Store.java:24-27) mean a body carrying a non-zero id would make `save` merge into, or overwrite, an existing row; that path is not modelled.
- `FlaskAssignment.AssignSpecAuditors`: its own contract does not say which store an auditor holds or that it was the nearest. Those facts are stated by `AssignSpecMatchesRecords` (the store each auditor holds is the one whose record names it) and `StoreOutputIsNearest` (that auditor was the nearest eligible at the store's turn).
- `FlaskAssignment.AssignSpecStores`: likewise, the tie between each store's auditor and its disruption record is stated by `AssignSpecMatchesRecords` and `StoreOutputIsNearest`, not by this lemma.
- Concurrency and cross-request double booking. `@Transactional` is modelled only for `updateStoreStatus`, as a rollback on error. The auditor cascade is not atomic, and partial changes stay.
- `FlaskOptimizer.Upper`: only ASCII letters, the dotless i and the long s are mapped, because no other character's upper case can match a status key.
- `GreedyAssignment.CheckOneToOne`: AI ids are `int` or `None`. Other JSON types for an id are not modelled.
- `GreedyAssignment.AssignWithGreedy`: auditor and store rows are typed, with `int` ids and `real` coordinates. The request check (openapp.py:51-93) only tests that keys are present. A `None` or string `auditor_id`/`store_id` therefore reaches the greedy loop in the source (openapp.py:264-275), and a non-numeric latitude raises `TypeError` in the distance call and ends in the error response. Neither is modelled.
- `SpringResponse.FormatSpringBootResponse`: its inputs are typed the same way. Its truthiness tests on ids are modelled only for an `int` id or a missing one (`None`), not for strings or other JSON values.
- `Seqs.DictOf`: the order of the dict's rows (first insertion of each key) is not stated, only which row each key keeps.
- `DistanceOrder.SortByKey`: stability is built into the insertion order; it is stated only for the head of the result (`SortedHeadIsFirstMinimum`), not for the whole list.
- `AuditPlanService.ProcessAndSaveAuditPlans` and `AuditPlanService.GenerateAndSaveAuditPlan`: they use the intended one-plan-per-auditor filter (`PlanValidator.Validate`). The Java check at AuditPlanServiceImpl.java:125-166 never fires, so the code as written also saves later plans for an auditor already planned. That behaviour is kept in `PlanValidator.ValidateAsWritten` (see Findings).
- `FlaskAssignment.AssignStoresToAuditors`: it models the intended predicted hours. The source's double counting is kept in `PredictedAssignedAsWritten` (see Findings).
- `FlaskAssignment.AuditorsOutput`: its `currentAssignedHours` is the intended predicted hours (`PredictedAssigned`, through `AuditorOutOf`), not the double count at app.py:286-287. The as-written formula is `PredictedAssignedAsWritten` (see Findings).
- `FlaskAssignment.Allocation`: app.py:26 reads `ESTIMATED_HOURS_PER_STORE` from the environment. The model fixes it at its default of 4.0 (`ESTIMATED_HOURS_PER_STORE`). Reading the environment is I/O, and no proof depends on the value.
- The greedy fallback does not filter stores by status, and neither does the model. This follows the code.

## Findings

| source | as written | input that shows it | evidently intended | confidence | as-written member | corrected member |
|---|---|---|---|---|---|---|
| realtimeaudit/src/main/java/com/application/service/AuditPlanServiceImpl.java:125-166 | The accepted set is a `Set<Long>`, but it is probed with an autoboxed `Integer`. `Long.equals` never matches an `Integer`, so the repeat check never fires. | an answer `[{store_id: 1, assigned_auditor_id: 10}, {store_id: 2, assigned_auditor_id: 10}]` with auditor 10 and stores 1 and 2 present: both plans are saved | the first plan per auditor wins and later ones are skipped | high, not executed | `PlanValidator.DuplicateAuditorCounterexample` | `PlanValidator.ValidateMembership` |
| streamlit/app.py:286-287 | `used_hours = capacity - remaining` already includes the current hours, and `currentAssignedHours + used_hours` adds them again | an Available auditor with capacity 40 and 10 hours assigned who gets no store is reported with 20 assigned hours | the current hours plus the hours booked in this run (10 here) | medium, not executed | `FlaskAssignment.PredictedHoursCounterexample` | `FlaskAssignment.AssignSpecAuditors` |
