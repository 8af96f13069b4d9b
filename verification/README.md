# Verification of the PKE knowledge store

PKE records what a user says as typed assertions (states, attributes, relations, measurements, events, facts),
corrects them through an append-only ledger, and answers questions from what is left. This project models that
write / correct / read lifecycle as one state machine and proves what it keeps over every run, then joins the
writer's guarantees to the reader's answers. Smaller cores (discourse focus, clarification recovery, retry loops,
ontology walk, completeness schemas, ULID encoder) have modules of their own.

`dafny verify dfyconfig.toml` checks the whole project.

## How it is laid out

- `Prelude`, `Lex`, `Ranking`, `SortedKeys`: filtering, string order, sorting by (rank, stamp, id).
- `Domain`, `RelationMetadata`: the rows, references and times; direction, inverses and symmetry of relations.
- `Store`: the store as a value, and each write, correction and transaction as a function on it. A transaction that is
  denied, or that storage refuses (a taken primary key, a second successor of a fact), leaves the store unchanged.
- `Versions`, `StateLifecycle`, `AttributeLifecycle`, `RelationLifecycle`, `FactLifecycle`, `LedgerLifecycle`,
  `Lineage`, `Runs`, `FactHistories`: what every step keeps and what therefore holds of every reachable store.
- `Utterance`, `RelationClaims`, `Recording`, `Admission`: the writes an utterance comes to, what they leave of each of its
  claims by the claim's own fields, and when they are accepted.
- `ReplacementChoice`, `CorrectionRecording`: what a correction keeps of an utterance, records and links.
- `UnitOfWork`, `Materializer`, `CorrectionService`, `CorrectionIngest`: the same operations as they run, in classes
  whose methods change repositories and result lists in place; each is proved equal to the function of `Store`.
- `EffectivenessResolver`, `Grouping`, `TimeRanking`, `TemporalPartition`, `StateResolver`, `AttributeResolver`,
  `MeasurementResolver`, `RelationResolver`, `FactQueries`, `QueryEngine`, `QueryBuilder`, `CorrectionTarget`: the read side.
- `StateQuestions`, `RelationQuestions`: what a question is answered with, by the fields of rows and question alone.
- `ReadBack`, `AttributeReadBack`, `MeasurementReadBack`, `RelationEnds`, `ToldAnswers`: reader and writer together.
- `Discourse`, `Focusing`, `Recovery`, `Retry`, `Registry`, `Schemas`, `Completeness`, `Ulid`: the smaller cores.

An operation is one function, which the method that runs it is proved equal to. What the function means is then said
apart from it, by the fields of rows, requests and answers.

Time is an integer count (`at`); a `Temporal` keeps what ordering and membership read of temporal knowledge. Random
bits, ids, clocks, text functions, the language model and the capability check are parameters.

## Where the code and its own promises differ

Each entry names the exact condition under which the promise holds and, where it fails, a lemma that builds the input.

- A replacement is to be effective unless later corrected, and a return to an earlier value a new assertion
  (`pke/docs/decisions/0045-correction-ledger-v10-storage-contract.md:32`, `:136`). It is effective exactly when it was
  not targeted before (`LedgerLifecycle.ReplacementCountsExactly`). Re-asserting a relation that is still marked current
  refreshes the stored row (`pke/src/pke/application/materializer.py:809-813`) and that row becomes the replacement, so
  there it depends on the row gone over (`LedgerLifecycle.RelationReplacementCountsExactly`). Correcting a relation and
  then correcting it back closes a loop and leaves neither row counting: `Runs.CorrectingBackClosesALoop`. Chains end
  exactly when no step closes such a loop: `LedgerLifecycle.ChainsEndOverRuns`.
- The replacement is documented as "the intended primitive only"
  (`pke/src/pke/application/correction_ingest.py:96`), but additional claims and automatic ownership links survive
  scrubbing and the last id of a list is taken. When the intended one is linked:
  `ReplacementChoice.MeasurementReplacementExactly`, `AttributeReplacementExactly`, `RelationReplacementExactly`,
  `IntendedRelationAloneExactly`. When it is not: `ReplacementChoice.SecondWeightLinked`, `SecondQualityLinked`,
  `OwnershipLinkedForName`, `SecondRelationLinked`, `OwnershipLinkedForRelation`.
- A relation between two different listed entities is collected once per endpoint, so a described relation target is
  never resolved: `CorrectionTarget.RelationResolvesExactly`, `CorrectionTarget.OnlyRelationIsAmbiguous`.
- A personal concept with a taken id hides the concept that had it: `Registry.PersonalCoherentExactly`,
  `Registry.TakenIdHides`.
- A question about one entity twice is answered by any row of an undirected relation that has it as an end:
  `RelationResolver.SelfQuestionExactly`, `RelationResolver.MarriedToOneself`.
- Among several events none of which has a calendar instant, the latest is the one loaded first
  (`pke/src/pke/query/engine.py:883`), against the rule that row order decides nothing:
  `FactQueries.LatestOrderFreeExactly`, `FactQueries.FirstLoadedIsLatest`.
- Rows are sorted by the ISO text of their time. Days keep the zone they were told in, other instants do not
  (`pke/src/pke/temporal/membership.py:99-106`, `:311-318`), so the order is that of the clock exactly when the texts are
  in the order of the instants: `MeasurementResolver.RangeInTimeOrderExactly`, `StateResolver.LatestByClockExactly`,
  `FactQueries.LatestByClockExactly`; two rows for which they are not: `MeasurementResolver.RangeOutOfOrder`. A state
  known by the start of an interval is preferred to any with an instant: `StateResolver.IntervalOutranksInstant`.
- A fact correction supersedes at most one fact by one of the same concept. A complete one is refused when it states two
  facts, and when it names only an event that has a current amount but corrects anything else, because the amount is
  looked up whatever the concept (`pke/src/pke/application/materializer.py:935-940`):
  `FactLifecycle.CorrectionAcceptedExactly`, `FactLifecycle.TwoFactsRefused`, `FactLifecycle.OtherConceptRefused`.

## Model

| member | source | states |
|---|---|---|
| Runs.RunKeeps | pke/src/pke/application/materializer.py:118-206 | after any run of ingests, fact corrections, retractions and replacements all invariants of states, attributes, relations, facts and ledger hold together |
| Runs.ReachableStates | pke/src/pke/application/materializer.py:364-390 | at most one current state per user, entity and dimension, the one written last; closed exactly when it has an end; `supersedes_id` visits every state of the key once, newest to oldest, and stops |
| Runs.ReachableRelations | pke/src/pke/application/materializer.py:776-832 | over every run a stored link has at most one current row, automatic ownership links included |
| Runs.ReachableFacts | pke/src/pke/query/engine.py:970-972 | over every run the mark `superseded_at` and the successor links agree on which facts are current |
| Runs.CorrectingBackClosesALoop | pke/src/pke/application/materializer.py:806-813 | a run after which two relations replace each other and neither counts, for all entities and relation keys |
| StateLifecycle.PutStateTrail | pke/src/pke/application/materializer.py:364-389 | a state write shuts the current version of its key, appends one naming it, and leaves every other key's trail alone |
| StateLifecycle.SupersessionWalk | pke/src/pke/application/materializer.py:364-382 | from the chain invariant: live rows are the last written, and following the links is the trail reversed for any sufficient fuel |
| Versions.FollowVisitsTrail | pke/src/pke/application/materializer.py:364-382 | following predecessors through the whole table visits exactly the key's versions, once each |
| AttributeLifecycle.PutAttributeTrail | pke/src/pke/application/materializer.py:458-467 | only current assertions of singleton dimensions close rows; all other writes leave every singleton history alone |
| AttributeLifecycle.SingletonWalk | pke/src/pke/application/materializer.py:458-505 | a singleton key has at most one current row, the last asserted as current, with an unbroken history |
| RelationLifecycle.DoRelationKeeps | pke/src/pke/application/materializer.py:761-832 | every assertion mode keeps one current row per canonical link, sorted undirected endpoints and matching concept |
| RelationLifecycle.DoOwnershipKeeps | pke/src/pke/application/materializer.py:507-586 | automatic ownership links keep the relation invariants |
| RelationLifecycle.WriteDecidesItsLink | pke/src/pke/application/materializer.py:776-832 | current assertion makes a link held, termination and denial make it not held, a historical one leaves it; no other link changes |
| RelationLifecycle.TerminationIsRecorded | pke/src/pke/application/materializer.py:777-795 | terminating a stored link leaves evidence of when on a row of that link that is no longer current |
| RelationLifecycle.FindInstanceComplete | pke/src/pke/persist/sqlite/repositories.py:319-339 | a lookup by link misses no row and returns a most recently observed one |
| FactLifecycle.CorrectionKeepsExactly | pke/src/pke/application/materializer.py:913-957 | an accepted fact correction keeps the two notions of a current fact in agreement if and only if it does not supersede without recording a fact |
| FactLifecycle.SupersedeAcceptedExactly | pke/src/pke/persist/sqlite/repositories.py:261-281 | superseding a current fact is accepted if and only if no fact is stated, or a single one with a new id and the concept, anchor and user of the marked one |
| FactLifecycle.CorrectionAcceptedExactly | pke/src/pke/application/materializer.py:913-957 | which fact corrections are accepted, by fact id, by event with a current amount and by event without: both directions |
| FactLifecycle.RecordingAcceptedExactly | pke/src/pke/application/materializer.py:959-996 | facts that supersede nothing are accepted if and only if their ids are new and pairwise different |
| FactLifecycle.TwoFactsRefused | pke/src/pke/application/materializer.py:947-957 | two facts stated of an event with a current amount: complete, and refused |
| FactLifecycle.OtherConceptRefused | pke/src/pke/application/materializer.py:935-940 | one fact of another concept stated of an event with a current amount: complete, and refused |
| FactLifecycle.CorrectionLeavesExactly | pke/src/pke/application/materializer.py:913-957 | what an accepted correction leaves: the named fact, or the latest unmarked amount of the event, marked, and one successor about the same subject, or facts only |
| FactHistories.RunLinear | pke/src/pke/persist/sqlite/repositories.py:261-281 | over every run fact ids are unique, no fact has two successors and every successor follows an earlier fact of its user, subject and concept |
| FactHistories.OneCurrentEntry | pke/src/pke/domain/facts.py:44-52 | over every run each fact's history has exactly one unmarked entry, of the same user, subject and concept |
| FactHistories.AcceptsExactly | pke/src/pke/persist/sqlite/repositories.py:190-214 | storage accepts exactly the facts with which the histories stay linear |
| FactLifecycle.CurrentFactsAgree | pke/src/pke/domain/facts.py:44-52 | for one user's facts both notions name the same facts |
| Completeness.CorrectionGateExactly | pke/src/pke/reasoning/completeness.py:167-176 | the completeness gate passes a fact correction if and only if it has a target and at least one fact |
| Completeness.PickClarification | pke/src/pke/reasoning/completeness.py:235-269 | one question at most, about the first open requirement of the least priority number, the essential ones before the useful ones worth asking, the earliest listed among equals |
| LedgerLifecycle.RunKeepsLedger | pke/src/pke/application/correction_service.py:32-110 | over every run targets and ids of ledger rows are pairwise distinct, rows are well formed and their references exist |
| LedgerLifecycle.IneffectiveForever | pke/src/pke/application/correction_service.py:46-59 | along a run nothing recorded is lost, the ledger only grows, and an ineffective assertion never becomes effective again |
| LedgerLifecycle.EffectiveCount | pke/src/pke/query/effectiveness.py:41-47 | a user's effective assertions number the assertions minus the user's ledger rows, over every run |
| LedgerLifecycle.ChainsEndOverRuns | pke/src/pke/application/correction_service.py:74-81 | all replacement chains of a reachable ledger end if and only if no step replaced an assertion by one whose chain already ends there |
| LedgerLifecycle.NewReplacementsKeepChains | pke/src/pke/application/correction_ingest.py:394-421 | when every replacement is new in its transaction, chains are finite and no assertion replaces two others |
| LedgerLifecycle.ChainsLeadToOneEnd | pke/src/pke/application/correction_ingest.py:394-421 | then every chain leads through ineffective links to one end that is effective or retracted |
| LedgerLifecycle.ReplacementCountsExactly | pke/docs/decisions/0045-correction-ledger-v10-storage-contract.md:31-33 | after any step that replaces P by Q, P is ineffective, Q is there, and Q is effective if and only if no earlier correction targeted it |
| LedgerLifecycle.RelationReplacementCountsExactly | pke/src/pke/application/materializer.py:776-832 | a replacement by one relation write is effective if and only if the row the write goes over, if it goes over one, was not targeted before |
| LedgerLifecycle.NewReplacementCounts | pke/docs/decisions/0045-correction-ledger-v10-storage-contract.md:31-33 | in particular a replacement that is new in its transaction is effective |
| LedgerLifecycle.IngestedReplacementIsNew | pke/src/pke/application/correction_ingest.py:396-417 | an ingested replacement by an event, measurement, state or attribute was not in the store before |
| LedgerLifecycle.RelationReplacementIsNewExactly | pke/src/pke/application/materializer.py:776-832 | a replacement by one relation write is new if and only if the write adds a row rather than rewriting one |
| LedgerLifecycle.ExistsExactly | pke/src/pke/application/knowledge_reference.py:34-63 | a reference resolves if and only if its own user has a row of its kind under its id |
| LedgerLifecycle.CorrectionExactly | pke/src/pke/application/correction_service.py:32-110 | a correction is refused by the first objection that holds, and otherwise appended with nothing else touched |
| LedgerLifecycle.LinkedExactly | pke/src/pke/application/correction_ingest.py:92-118 | linked is the last row of the intended kind, or else of the first kind that has any |
| Lineage.ChainsEndExactly | pke/src/pke/application/correction_service.py:74-91 | appending a correction keeps all chains finite if and only if the replacement's chain does not end at the target |
| Lineage.ChainAnatomy | pke/src/pke/query/effectiveness.py:18-47 | along a finite chain every assertion but the last is ineffective and replaced by the next |
| Lineage.ChainsDoNotMerge | pke/src/pke/domain/corrections.py:70-84 | with single use, two assertions replaced by the same one are the same assertion |
| EffectivenessResolver.ResolverIsScan | pke/src/pke/query/effectiveness.py:21-56 | the index by target and a plain scan of the ledger give the same status and an explanation exactly for targeted references |
| EffectivenessResolver.FilterEffective | pke/src/pke/query/effectiveness.py:58-81 | one pass yields the effective and the unknown rows in order, ineffective ones in neither |
| UnitOfWork.UnitOfWork.Rollback | pke/src/pke/persist/contracts.py:50-141 | a rollback returns to what the last commit made permanent |
| UnitOfWork.UnitOfWork.FindRelation | pke/src/pke/persist/sqlite/repositories.py:319-339 | the lookup by link as a pass over the table |
| UnitOfWork.UnitOfWork.AddFact | pke/src/pke/persist/sqlite/repositories.py:190-214 | the id, predecessor and successor lookups accept a fact exactly when the histories of facts stay linear with it, and keep them so |
| Materializer.KnowledgeMaterializer.State | pke/src/pke/application/materializer.py:332-390 | the closing loop and insertion give the specified table whatever order the entity's rows come in; failure exactly on denial or taken id |
| Materializer.KnowledgeMaterializer.AttributeRecord | pke/src/pke/application/materializer.py:408-505 | intrinsic names write nothing; otherwise the specified table, closing only for current singleton values |
| Materializer.KnowledgeMaterializer.RelationRecord | pke/src/pke/application/materializer.py:731-832 | canonicalisation and the four modes give the specified rows and reported ids |
| Materializer.KnowledgeMaterializer.EnsurePrincipalOwnership | pke/src/pke/application/materializer.py:507-586 | the loop over mentioned objects adds one link per eligible object without a current one |
| Materializer.KnowledgeMaterializer.Correction | pke/src/pke/application/materializer.py:913-957 | finds, marks and supersedes the corrected fact as specified, or denies |
| Materializer.KnowledgeMaterializer.Facts | pke/src/pke/application/materializer.py:959-996 | facts are recorded in order until storage refuses one |
| Materializer.KnowledgeMaterializer.Materialize | pke/src/pke/application/materializer.py:118-206 | the whole transaction equals the specified sequence of writes and reports the same ids |
| Recording.MaterializeRecords | pke/src/pke/application/materializer.py:118-206 | an utterance that is materialized leaves every one of its claims under its own fields: event and obligation with their facts, measurements with number, unit, currency, subject and context, the state that closes the one before, attributes except intrinsic names, each relation in turn, then the ownership links; nothing else appears in any table or in the receipt |
| RelationClaims.RelationWritten | pke/src/pke/application/materializer.py:731-832 | a relation claim, by mode and by the rows that link the two already: which row is ended, denied, refreshed or added, with which fields, and what is reported |
| RelationClaims.OwnershipWritten | pke/src/pke/application/materializer.py:507-586 | one current ownership row for exactly the possessed objects that need one, the first listing of each, in order |
| Admission.MaterializesExactly | pke/src/pke/application/materializer.py:118-206 | with ids of its own an utterance is materialized if and only if each claim can be recorded: times, concepts, subjects and values said claim by claim |
| ToldAnswers.ToldStateIsAnswered | pke/src/pke/application/materializer.py:163-164 | over every run the state told by a materialized utterance is reported and is what the engine answers of its subject in its dimension, and nothing else is |
| ToldAnswers.ToldAttributeIsKnown | pke/src/pke/application/materializer.py:165-180 | over every run the last word of an utterance on a dimension with one value is what the engine knows of it next |
| CorrectionService.CorrectionService.Retract | pke/src/pke/application/correction_service.py:32-59 | accepted if and only if the target exists and is effective, provenance holds and the id is new; appends the retraction, or changes nothing and returns the specified error; commits only when asked |
| CorrectionService.CorrectionService.Replace | pke/src/pke/application/correction_service.py:61-94 | the same for a replacement, accepted only if that exists too and is another assertion |
| CorrectionService.CorrectionService.AssertEffective | pke/src/pke/application/correction_service.py:99-110 | accepts exactly untargeted references, the second check always agreeing with the first |
| CorrectionIngest.CorrectionIngestOrchestrator.Ingest | pke/src/pke/application/correction_ingest.py:195-443 | commits the specified store or rolls back to the committed one; the target resolver is asked exactly once after screening, else never |
| CorrectionIngest.IngestIsAtomic | pke/src/pke/application/correction_ingest.py:268-443 | applied means one new ledger row of the asked operation about the resolved effective target; any other outcome writes nothing |
| CorrectionIngest.IngestIsStep | pke/src/pke/application/correction_ingest.py:291-443 | an applied request is a step of the run machine |
| CorrectionRecording.GuardedExactly | pke/src/pke/application/correction_ingest.py:211-266 | without operation rejected, on a guard that asks or refuses ambiguous or rejected, without target unsupported; nothing is written |
| CorrectionRecording.UnresolvedExactly | pke/src/pke/application/correction_ingest.py:268-290 | a description that fits several or nothing is reported as such and nothing is written |
| CorrectionRecording.RetractionExactly | pke/src/pke/application/correction_ingest.py:291-330 | a retraction of the resolved assertion is one ledger row if and only if the correction's id is free; otherwise rejected |
| CorrectionRecording.ReplacementExactly | pke/src/pke/application/correction_ingest.py:78-157 | of the main claims measurement, attribute, event, state, relation the first given is kept, additional claims stay and the obligation goes; without any unresolved; what is kept is recorded under its own fields and something recorded is linked, or nothing is written |
| CorrectionRecording.StateReplacementExactly | pke/src/pke/application/correction_ingest.py:92-157 | a correction by a state with ids of its own fails exactly when the claims kept cannot be recorded; else it is applied exactly when the correction's id is free, and links that state |
| CorrectionRecording.EventReplacementExactly | pke/src/pke/application/correction_ingest.py:92-157 | the same for a correction by an event |
| CorrectionRecording.CorrectingStateIsAnswered | pke/src/pke/application/correction_ingest.py:394-443 | over every run a correcting state, once applied, is what the engine answers of its subject next |
| ReplacementChoice.MeasurementReplacementExactly | pke/src/pke/application/correction_ingest.py:92-167 | the linked measurement is the intended one if and only if no additional measurement came with it |
| ReplacementChoice.AttributeReplacementExactly | pke/src/pke/application/correction_ingest.py:92-167 | the linked attribute is the intended one if and only if that is no name kept on its entity and every additional attribute is one |
| ReplacementChoice.IntendedRelationAloneExactly | pke/src/pke/application/correction_ingest.py:92-167 | for any utterance: the intended relation alone is reported, and then linked, if and only if it writes, additional relations would only end what is not there, and no possessed object lacks its link, all said of the store before |
| ReplacementChoice.RelationReplacementExactly | pke/src/pke/application/correction_ingest.py:92-167 | under that guard the linked relation is the intended one; without it, it is not, unless an additional relation is about the same link |
| ReplacementChoice.SaidTwiceStaysLinked | pke/src/pke/application/materializer.py:809-813 | the same relation told twice: the second refreshes the row of the first, which stays the one linked |
| ReplacementChoice.SecondWeightLinked | pke/src/pke/application/correction_ingest.py:99-100 | two weights told, the second linked |
| ReplacementChoice.SecondQualityLinked | pke/src/pke/application/correction_ingest.py:97-98 | two attributes told, the second linked |
| ReplacementChoice.OwnershipLinkedForName | pke/src/pke/application/correction_ingest.py:107-116 | a name leaves no row, and the ownership link recorded with it is linked as the replacement |
| ReplacementChoice.SecondRelationLinked | pke/src/pke/application/correction_ingest.py:105-106 | two relations told, the second linked |
| ReplacementChoice.OwnershipLinkedForRelation | pke/src/pke/application/correction_ingest.py:105-106 | a relation told of a possessed object, the ownership link linked |
| CorrectionTarget.AttributeResolvesExactly | pke/src/pke/application/correction_target.py:306-362 | a described attribute resolves if and only if one uncorrected attribute of the user and a listed entity has the described dimension, text, number, year and entity name, and to that one |
| CorrectionTarget.StateResolvesExactly | pke/src/pke/application/correction_target.py:306-362 | the same for states, by dimension, value key and entity name |
| CorrectionTarget.MeasurementResolvesExactly | pke/src/pke/application/correction_target.py:306-362 | the same for measurements, by dimension, number, year and entity name |
| CorrectionTarget.EventResolvesExactly | pke/src/pke/application/correction_target.py:306-362 | the same for events, by action, year and the names they are known by |
| CorrectionTarget.RelationResolvesExactly | pke/src/pke/application/correction_target.py:209-212 | a described relation, by key, ends and names, resolves if and only if exactly one uncorrected one fits and has a single listed end; ambiguous when one that fits joins two listed entities |
| CorrectionTarget.DirectResolvesExactly | pke/src/pke/application/correction_target.py:161-195 | an id given outright is the target if and only if it is allowed and names an uncorrected assertion of the user |
| CorrectionTarget.NoKindExactly | pke/src/pke/application/correction_target.py:82-122 | a description without a kind is of nothing |
| CorrectionTarget.OnlyRelationIsAmbiguous | pke/src/pke/application/correction_target.py:209-212 | the only relation, between the only two entities, matches its description and the target is ambiguous |
| CorrectionTarget.TargetOrderFree | pke/src/pke/application/correction_target.py:75-80 | status and reference do not depend on the order of rows or entities |
| CorrectionTarget.ResolvedIsAccepted | pke/src/pke/application/correction_service.py:99-110 | a resolved reference is always accepted for retraction on the same store |
| CorrectionTarget.SelectEligible | pke/src/pke/application/correction_target.py:125-137 | the eligibility loop keeps exactly matching effective candidates, in order |
| CorrectionTarget.CollectByEntity | pke/src/pke/application/correction_target.py:197-220 | rows are collected entity by entity, once per entity they are filed under |
| RelationMetadata.StoredRelationQuery | pke/src/pke/ontology/relation_metadata.py:116-135 | the search loop yields the stored key and whether endpoints swap |
| RelationMetadata.StoredKeyIsFixed | pke/src/pke/ontology/relation_metadata.py:116-135 | a stored key is stored under itself, unswapped |
| RelationMetadata.CanonicalIsFixed | pke/src/pke/ontology/relation_metadata.py:150-171 | canonicalisation is idempotent |
| RelationMetadata.SameTripleExactly | pke/src/pke/ontology/relation_metadata.py:138-171 | two assertions share a stored triple if and only if stored key and oriented endpoints agree, in either order when undirected |
| RelationMetadata.CoreInverses | pke/src/pke/ontology/relation_metadata.py:28-78 | owned_by is stored as owns turned around, and marriage is stored alike both ways |
| RelationMetadata.StoredQueryExactly | pke/src/pke/ontology/relation_metadata.py:110-135 | a listed key is stored as it is, a bare one as listed with its prefix, any other under the first entry that names it as its inverse, turned around, or else as it is |
| RelationMetadata.CanonicalExactly | pke/src/pke/ontology/relation_metadata.py:150-171 | the stored ends are those asserted, exchanged for an inverse key, the smaller first without a direction |
| RelationMetadata.LearnedRelations.Register | pke/src/pke/ontology/relation_metadata.py:93-97 | only learned keys are accepted, and only their own entry changes |
| RelationMetadata.LearnedRelations.Clear | pke/src/pke/ontology/relation_metadata.py:100-101 | after clearing, lookups see the core table alone |
| QueryBuilder.NormalizeRelationRefs | pke/src/pke/application/query_builder.py:295-310 | stored keys, and a swap exactly when all references are inverses and there is one |
| QueryBuilder.SwapTwice | pke/src/pke/application/query_builder.py:313-326 | swapping twice restores entities and role, save that a plain subject returns as relation subject |
| QueryBuilder.BuildsStoredDirection | pke/src/pke/application/query_builder.py:76-143 | a question through one key about two entities is asked in stored direction |
| QueryBuilder.BuildExactly | pke/src/pke/application/query_builder.py:76-143 | a relation question is built unless a key is stored under none that names a relation; it asks for the stored concepts in order, turned around exactly when every key is an inverse |
| Grouping.GroupByValue | pke/src/pke/query/attribute_resolver.py:107-126 | dictionary and key order give one group per value holding its rows in order |
| Grouping.GroupsPartition | pke/src/pke/query/measurement_resolver.py:82-98 | a row occurs in its value's group as often as in the input and in no other; support is the group's size |
| Grouping.GroupsCover | pke/src/pke/query/measurement_resolver.py:82-98 | every row is in the group of its value |
| Grouping.GroupsOrderFree | pke/src/pke/query/attribute_resolver.py:107-126 | the set of values with their supporting rows does not depend on row order |
| Grouping.GroupsInOrder | pke/src/pke/query/attribute_resolver.py:107-126 | groups stand in the order in which their values are first met, one for each |
| TemporalPartition.PartitionTemporal | pke/src/pke/query/attribute_resolver.py:129-147 | the pass keeps matches and doubtful rows apart and drops the rest |
| TemporalPartition.MembershipExactly | pke/src/pke/temporal/membership.py:196-208 | a window is certainly in a range if and only if all its times are, and certainly out if and only if none is |
| TemporalPartition.UnplacedIsUnknown | pke/src/pke/temporal/membership.py:262-283 | what recurs or is not placed in time is never certain either way |
| StateResolver.CurrentStateOrderFree | pke/src/pke/query/state_resolver.py:19-48 | row order never decides the current state |
| StateResolver.CurrentStateIsLatest | pke/src/pke/query/state_resolver.py:42-48 | the state chosen among timed candidates is one of them, and none of them has a greater sort key |
| StateResolver.LatestByClockExactly | pke/src/pke/query/state_resolver.py:42-48 | among candidates with instants, whichever are stored, the state chosen is one none is later than by the clock if and only if the ISO texts are in the order of the instants |
| StateResolver.IntervalOutranksInstant | pke/src/pke/temporal/membership.py:311-318 | a state known by an interval's start is chosen over any with an instant |
| StateResolver.TieExactly | pke/src/pke/query/state_resolver.py:46-48 | with all times known, indeterminate if and only if another candidate is equally late |
| StateQuestions.CurrentStateExactly | pke/src/pke/query/state_resolver.py:19-48 | by the fields of the rows that hold in a dimension: the newest dated one, unsurely beside undated or equally new ones; without dated ones the only one, or none |
| AttributeResolver.CurrentLookupExactly | pke/src/pke/query/attribute_resolver.py:185-258 | known, ambiguous and temporally unknown, each exactly by what the current rows in range say |
| AttributeResolver.PropositionExactly | pke/src/pke/query/attribute_resolver.py:367-449 | yes if and only if the lookup knows one value and it matches; never no |
| AttributeResolver.ExistenceExactly | pke/src/pke/query/attribute_resolver.py:300-364 | yes if and only if some row in range carries the value; never no |
| AttributeResolver.HistoryExactly | pke/src/pke/query/attribute_resolver.py:261-297 | the history answer is made of exactly the closed rows in range, in the order asked, cut at the limit, whatever is current |
| AttributeResolver.FilterMatchesExactly | pke/src/pke/query/attribute_resolver.py:86-104 | a value matches a filter if and only if they are equal apart from the unit and no two units given differ |
| AttributeResolver.LimitKeepsTheFirst | pke/src/pke/query/attribute_resolver.py:280-283 | a limited history leaves out no row that stands before a kept one |
| AttributeResolver.AttributeQueryOrderFree | pke/src/pke/query/attribute_resolver.py:150-182 | status, proposition and supported values are independent of row order in every mode, sorted and limited history included |
| MeasurementResolver.ResolveLatest | pke/src/pke/query/measurement_resolver.py:199-264 | the pass that separates rows by instant and groups those at the greatest |
| MeasurementResolver.LatestExactly | pke/src/pke/query/measurement_resolver.py:199-264 | by the rows: known if and only if there are some, all have instants and those at the greatest carry one reading; supported by exactly those |
| MeasurementResolver.OlderObservationKeepsLatest | pke/src/pke/query/measurement_resolver.py:243-264 | an observation older than some observation of the pool changes nothing |
| MeasurementResolver.NewestObservationIsLatest | pke/src/pke/query/measurement_resolver.py:243-255 | an observation later than all others is the latest alone |
| MeasurementResolver.AtTimeExactly | pke/src/pke/query/measurement_resolver.py:267-328 | at a time: known if and only if a row lies in it and all that do carry one reading, ambiguous if two of them differ, temporally unknown if none does and one may, else unknown; the candidates are exactly the rows that do |
| MeasurementResolver.NoTimeAsked | pke/src/pke/query/measurement_resolver.py:274-281 | without a time the answer is unknown and names no row |
| MeasurementResolver.InRangeExactly | pke/src/pke/query/measurement_resolver.py:331-384 | in a range: single, multiple, temporally unknown or unknown by how many rows lie in it and whether one may; the rows listed are exactly those, the ones in doubt named apart |
| MeasurementResolver.UnboundedRange | pke/src/pke/query/measurement_resolver.py:331-384 | without a range every row is listed and none is in doubt |
| MeasurementResolver.PropositionExactly | pke/src/pke/query/measurement_resolver.py:387-505 | by the fields of the rows: yes if and only if a comparable row in scope carries the value and no comparable row in scope another |
| MeasurementResolver.RangeIsByText | pke/src/pke/query/measurement_resolver.py:362-367 | rows of a range answer come in the order of their ISO texts |
| MeasurementResolver.RangeInTimeOrderExactly | pke/src/pke/query/measurement_resolver.py:362-367 | rows of a range answer come in time order if and only if the ISO texts of the matched instants are in the order of the instants |
| MeasurementResolver.RangeOutOfOrder | pke/src/pke/temporal/membership.py:99-106 | a day west of Greenwich and an instant in UTC, listed against time order |
| MeasurementResolver.MeasurementQueryOrderFree | pke/src/pke/query/measurement_resolver.py:151-180 | status, proposition and supported readings are independent of row order in every mode |
| RelationResolver.SelfQuestionExactly | pke/src/pke/query/relation_resolver.py:60-86 | whether something is related to itself is denied if and only if no current row runs from it to itself or, without direction, has it at either end |
| RelationResolver.MarriedToOneself | pke/src/pke/query/relation_resolver.py:60-86 | one marriage of a and b stored, a is answered to be married to a |
| RelationResolver.BooleanCurrentExactly | pke/src/pke/query/relation_resolver.py:115-160 | no without a matching current row, unsure when an untimed row stands beside another, else yes |
| RelationResolver.HistoricalExistenceExactly | pke/src/pke/query/relation_resolver.py:189-208 | yes if and only if any row of the triple is stored, current or not |
| RelationResolver.AnswersOrderFree | pke/src/pke/query/relation_resolver.py:163-186 | answer and reported rows are independent of row order |
| RelationQuestions.ReplyExactly | pke/src/pke/query/engine.py:489-593 | a relation question is refused exactly for a wrong kind, role or foreign id; its reply reports only uncorrected rows with the entity asked as subject where they start, as object where they end, at either end without a direction; yes, no and how surely by those rows |
| RelationQuestions.ShownExactly | pke/src/pke/query/engine.py:527-574 | a row asked about is shown unless it is dated and a dated one ranks above it |
| RelationQuestions.TagsExactly | pke/src/pke/query/relation_resolver.py:163-186 | how surely each row is reported: the newest is complete, or indeterminate beside another of its date and no undated one; undated rows partial or indeterminate |
| QueryEngine.ExecuteState | pke/src/pke/query/engine.py:404-487 | the engine's filters and its loop over dimensions give the specified answer |
| StateQuestions.StateQueryExactly | pke/src/pke/query/engine.py:404-487 | a state question is refused exactly for a wrong kind, a missing role or a foreign id; else it is answered dimension by dimension in ascending order from the uncorrected rows of the entities, dimensions and values asked for, the items, completeness and doubts put together |
| StateQuestions.PrimaryExactly | pke/src/pke/query/engine.py:464 | a single item is the answer; several, or none, are not |
| StateQuestions.VisibleExactly | pke/src/pke/query/engine.py:637-649 | a user may ask by the entities given and by the user's own events only |
| StateQuestions.AttributeQueryExactly | pke/src/pke/query/engine.py:172-199 | an attribute question is refused like any other, or resolved from the uncorrected rows of the entities and dimension alone |
| StateQuestions.MeasurementQueryExactly | pke/src/pke/query/engine.py:326-350 | so is a measurement question, contexts included |
| QueryEngine.ExecuteRelation | pke/src/pke/query/engine.py:489-593 | the engine's relation query gives the specified reply |
| QueryEngine.StateQueryOrderFree | pke/src/pke/query/engine.py:412-456 | a state answer does not depend on the order rows are loaded in |
| QueryEngine.AttributeQueryOrderFree | pke/src/pke/query/engine.py:172-199 | nor does an attribute answer |
| QueryEngine.MeasurementQueryOrderFree | pke/src/pke/query/engine.py:326-350 | nor does a measurement answer |
| QueryEngine.RelationQueryOrderFree | pke/src/pke/query/engine.py:489-574 | nor does a relation reply, class constraints on the object included |
| FactQueries.SelectFacts | pke/src/pke/query/engine.py:726-744 | the dictionary of facts by event and the selection loops keep exactly the specified facts, in order |
| FactQueries.SelectedOnce | pke/src/pke/query/engine.py:726-744 | a fact is selected as often as it is stored when its event is listed once, and not otherwise |
| FactQueries.SelectedInOrder | pke/src/pke/query/engine.py:726-744 | selection goes event by event as asked, and takes of each what is wanted in stored order |
| FactQueries.FactReadBack | pke/src/pke/query/engine.py:970-972 | over every run a question about current facts selects exactly the user's unmarked facts of the events and concepts asked for, and one about history all of them |
| FactQueries.LatestOrderFreeExactly | pke/src/pke/query/engine.py:869-883 | which event is the latest is independent of row order if and only if some event has a calendar instant or there is at most one event |
| FactQueries.FirstLoadedIsLatest | pke/src/pke/query/engine.py:869-883 | two events without an instant: whichever is loaded first is the latest |
| FactQueries.LatestEventRanksFirst | pke/src/pke/query/engine.py:869-882 | the event picked has an instant, and no listed event's instant has a greater sort key |
| FactQueries.LatestEventExactly | pke/src/pke/query/engine.py:869-883 | by the fields: the event picked has an instant that none ranks above, or without any instant is the first |
| FactQueries.LatestByClockExactly | pke/src/pke/query/engine.py:869-882 | whichever of the events are listed, the one picked is one none is later than by the clock if and only if the ISO texts are in the order of the instants |
| ReadBack.StateReadBack | pke/src/pke/query/engine.py:404-429 | over every run the engine's current state is the one written last if no correction targets it, and none otherwise |
| ReadBack.CorrectionNeverRevives | pke/src/pke/application/correction_service.py:32-94 | a retraction or bare replacement leaves what is true now, or takes it away |
| ReadBack.WrittenStateIsNow | pke/src/pke/application/materializer.py:370-390 | a recorded state is what is true next |
| ReadBack.AssertedValueIsNow | pke/src/pke/application/materializer.py:458-505 | a value asserted as current is what is known next of its singleton dimension |
| ReadBack.SingletonReadBack | pke/src/pke/query/attribute_resolver.py:185-258 | over every run a singleton lookup is never ambiguous: last asserted value if effective, temporally unknown if other effective rows remain, else unknown |
| ReadBack.RelationReadBack | pke/src/pke/query/relation_resolver.py:134-160 | between distinct entities the current question is yes if and only if a current row of the link counts, for any key of the relation |
| ReadBack.WriteDecidesAnswer | pke/src/pke/application/materializer.py:776-832 | what each mode does to the answer, with the exact exception of refreshing a row already corrected |
| ReadBack.HistoryStays | pke/src/pke/query/relation_resolver.py:189-205 | no relation write, denial and termination included, turns an existence answer of yes into no |
| ReadBack.AssertThenAsk | pke/src/pke/application/query_builder.py:295-326 | over every run, written through one form of a relation and asked through another: yes after a current assertion, no after termination or denial, with that exception |
| RelationEnds.OneEndReadBack | pke/src/pke/query/engine.py:501-527 | over every run a question that names one entity lists exactly the user's uncorrected current rows with it at the end its role and key ask about, of the dated ones only that which none ranks above |
| RelationEnds.ToldThenAsked | pke/src/pke/application/query_builder.py:295-326 | over every run a relation said of now is listed when either of the two is asked about alone, through any key of the relation and in the role that end has there, unless a row ranks above it |
| AttributeReadBack.CurrentReadBack | pke/src/pke/query/engine.py:172-199 | over every run a current attribute answer, in any range, is decided by the uncorrected rows of the key |
| AttributeReadBack.HistoryReadBack | pke/src/pke/query/attribute_resolver.py:261-297 | over every run the history answer is made of exactly the closed uncorrected rows of the key |
| AttributeReadBack.ValueReadBack | pke/src/pke/query/attribute_resolver.py:367-449 | over every run whether a value is the one |
| AttributeReadBack.ExistenceReadBack | pke/src/pke/query/attribute_resolver.py:300-364 | over every run whether it ever was |
| MeasurementReadBack.LatestReadBack | pke/src/pke/query/engine.py:326-350 | over every run the engine's latest observation is known if and only if uncorrected ones asked for exist, all have instants and those at the greatest carry one reading; it is supported by exactly those |
| MeasurementReadBack.TimeReadBack | pke/src/pke/query/measurement_resolver.py:267-328 | over every run the observation at a time, by the uncorrected rows asked for: one outside it is never answered instead |
| MeasurementReadBack.RangeReadBack | pke/src/pke/query/measurement_resolver.py:331-384 | over every run the observations in a range |
| MeasurementReadBack.ValueReadBack | pke/src/pke/query/measurement_resolver.py:387-505 | over every run whether a value is confirmed |
| MeasurementReadBack.MeasuredIsLatest | pke/src/pke/query/measurement_resolver.py:243-255 | over every run an observation later than all effective ones is, once ingested, the engine's latest answer alone |
| MeasurementReadBack.OlderChangesNothing | pke/src/pke/query/measurement_resolver.py:243-264 | over every run an observation older than an effective one leaves the engine's latest answer as it was |
| MeasurementReadBack.RetractionRestoresLatest | pke/src/pke/application/correction_service.py:32-59 | over every run an observation ingested and then retracted leaves the latest answer as before it, whatever its time |
| Discourse.ConversationOk | pke/src/pke/application/discourse.py:407-484 | after any conversation at most eight referents, entities distinct, salience in [0.2, 1] |
| Discourse.AllowedExactly | pke/src/pke/interpretation/discourse.py:73-92 | allowed ids are duplicate-free and exactly the non-empty ids of focus, referents and pending candidates |
| Discourse.AllowedEntityIds | pke/src/pke/interpretation/discourse.py:73-92 | the three passes over focus, referents and pending candidates give those ids in that order |
| Discourse.EighteenIdleTurnsForget | pke/src/pke/application/discourse.py:391-404 | eighteen idle turns after any conversation leave no focus and no referent and keep the pending intent, for any rounding to the nearest thousandth |
| Discourse.SeventeenIdleTurnsRemember | pke/src/pke/application/discourse.py:472-479 | seventeen do not suffice |
| Discourse.RunCommitFocus | pke/src/pke/application/discourse.py:407-469 | the loops that fade, restore the displaced focus and put the new one on top |
| Discourse.FocusIsRemembered | pke/src/pke/application/discourse.py:439-462 | up to eight entities put in focus are all remembered at full salience, the last one first |
| Discourse.StorePendingQuery | pke/src/pke/application/discourse.py:145-182 | the loop over clarification candidates |
| Discourse.AskFocusIds | pke/src/pke/application/discourse.py:266-287 | distinct ids without the principal or the empty one, empty exactly when nothing usable was shown |
| Focusing.AskedExactly | pke/src/pke/application/discourse.py:57-101 | an answered question by its fields: nothing on a clarification, an idle turn when nothing shown is usable, else a focus on the usable ids of the first list that has any, in order, the pending intent cleared exactly when asked |
| Focusing.IngestedExactly | pke/src/pke/application/discourse.py:104-142 | a write: an idle turn unless accepted and naming entities, else a focus on them |
| Focusing.ReferentsExactly | pke/src/pke/application/discourse.py:407-469 | what is remembered after a focus, entry by entry: the new focus on top, the displaced one below at six tenths, then what faded, at most eight |
| Focusing.StoredExactly | pke/src/pke/application/discourse.py:145-182 | a question stored: its candidates are remembered on top and nothing else changes |
| Focusing.AllowedInOrder | pke/src/pke/interpretation/discourse.py:73-92 | allowed ids stand in the order of focus, referents and pending candidates |
| Recovery.RunOk | pke/src/pke/application/clarification_recovery.py:166-236 | over any calls about one question: at most one round and one ingestion, resolved exactly when it committed, and what was ingested differs only in the slot asked about |
| Recovery.NothingAfterIngestion | pke/src/pke/application/clarification_recovery.py:185-214 | once something was ingested no further call changes anything |
| Recovery.SameAnswerReplays | pke/src/pke/application/clarification_recovery.py:189-200 | the same answer again is reported as a replay and ingests nothing |
| Recovery.RecoverExactly | pke/src/pke/application/clarification_recovery.py:422-560 | what one call may do to status, rounds and ingestion |
| Recovery.IngestsExactly | pke/src/pke/application/clarification_recovery.py:166-560 | something is ingested if and only if the question is open, can be taken up and the answer is executable; it is the proposal filled with what the answer means |
| Recovery.StatusExactly | pke/src/pke/application/clarification_recovery.py:166-560 | each result of a call by exactly when it comes |
| Recovery.CommittedExactly | pke/src/pke/application/clarification_recovery.py:478-548 | what a committed call records on the question |
| Recovery.FailedExactly | pke/src/pke/application/clarification_recovery.py:551-560 | a round that fails uses itself up and keeps the answer; a call turned away changes nothing |
| Recovery.FillExactly | pke/src/pke/interpretation/semantic/capability_strategy.py:339-400 | the filler puts the answer in the slot asked about and nowhere else, so the comparison before ingestion refuses it if and only if it asserts a new primitive |
| Recovery.ClarificationRecoveryService.Recover | pke/src/pke/application/clarification_recovery.py:166-420 | the service sends to ingestion exactly the specified request, with no unsafe mutation on its trace |
| Recovery.RecoveryTrace.Compare | pke/src/pke/application/clarification_recovery.py:432-450 | the flags say exactly which comparison failed |
| Retry.MakePolicy | pke/src/pke/interpretation/retry.py:92-97 | attempts are clamped to one or two, the delay to two seconds, and values in bounds are kept |
| Retry.ComplaintExactly | pke/src/pke/interpretation/retry.py:115-163 | the class of a failure by the words of its text, the first list that has one |
| Retry.ClassExactly | pke/src/pke/interpretation/retry.py:115-140 | the class of a typed failure by its type, its retryable mark and the words of its text, each both ways |
| Retry.RetryableExactly | pke/src/pke/interpretation/retry.py:165-196 | an attempt is repeated if and only if attempts remain and its failure is worth repeating under the policy |
| Retry.NotedExactly | pke/src/pke/interpretation/retry.py:66-82 | each failed outcome raises exactly its own counter |
| Retry.PostCounts | pke/src/pke/interpretation/deepseek_interpreter.py:163-346 | only an accepted answer succeeds; any other end of a provider call raises the counter of its post and no other |
| Retry.SettlesExactly | pke/src/pke/llm/deepseek.py:64-87 | a provider call ends with the k-th post exactly when all earlier ones are transient and it is not, or is the last allowed |
| Retry.DeepSeekProvider.GenerateStructured | pke/src/pke/llm/deepseek.py:56-87 | a call of k posts sleeps backoff times 2^(k-1) - 1 and returns the k-th; the code after the loop is unreachable |
| Retry.DeepSeekInterpreter.Interpret | pke/src/pke/interpretation/deepseek_interpreter.py:163-346 | counters and verdict as specified, at most 2 (max_retries + 1) posts per request; the code after the loop is unreachable |
| Retry.BooksBalance | pke/src/pke/interpretation/retry.py:66-82 | after any requests: requests, provider attempts and triggered retries add up |
| Retry.DeliveredExactly | pke/src/pke/interpretation/deepseek_interpreter.py:163-346 | through both layers of retries a request is accepted if and only if its first attempt reaches an acceptable answer after transient posts only, or fails in a way that may be retried and the second one reaches one |
| Retry.UnusableRepliesUseEveryAttempt | pke/src/pke/llm/deepseek.py:76-85 | when attempts open with unusable replies the provider posts once each, the interpreter uses every attempt allowed and the request fails |
| Retry.CredentialsAreNotRepeated | pke/src/pke/llm/deepseek.py:76-85 | refused credentials end the request with one attempt of one post |
| Registry.OntologyRegistry.IsDescendantOf | pke/src/pke/ontology/registry.py:131-149 | true if and only if the target differs and is reached in 1 to 32 parent hops, cyclic parents and hidden concepts included |
| Registry.OntologyRegistry.DescendantIds | pke/src/pke/ontology/registry.py:121-129 | the ids below the ancestor in listing order, itself first when asked; fails exactly when the ancestor is unknown |
| Registry.ShallowAncestry | pke/src/pke/ontology/registry.py:131-149 | without concepts deeper than 32 the walk is the transitive closure and a strict partial order |
| Registry.PutGlobalKeepsCoherent | pke/src/pke/ontology/registry.py:171-214 | core and extended concepts keep ids and keys pointing at the same concepts |
| Registry.PersonalCoherentExactly | pke/src/pke/ontology/registry.py:191-207 | an accepted personal concept keeps the indexes coherent if and only if it was there or its id was free |
| Registry.TakenIdHides | pke/src/pke/ontology/registry.py:191-207 | a personal concept under a core concept's id is accepted and takes its place by id, not by key |
| Registry.PutKeepsFiled | pke/src/pke/ontology/registry.py:171-214 | whatever is put, ids match their concepts and the known ids stay those of listed concepts |
| Registry.RegisteredIsFound | pke/src/pke/ontology/registry.py:51-56 | a registered concept is found under its key, and every other key and owner finds what it found |
| Registry.RegisterExactly | pke/src/pke/ontology/registry.py:181-207 | which concepts are added, which change nothing and which are refused with which error, by scope and by which keys and ids are free |
| Registry.PutCoreExactly | pke/src/pke/ontology/registry.py:171-179 | the same for seeds, by whether the core is frozen |
| Registry.FreshSeedsLoad | pke/src/pke/ontology/registry.py:46-49 | seeds with ids and keys of their own all load into a new registry, in order and under their ids |
| Registry.DescendantsExactly | pke/src/pke/ontology/registry.py:121-129 | the ids below an ancestor are exactly those whose concepts reach it in 1 to 32 hops |
| Registry.TokensExactly | pke/src/pke/ontology/registry.py:216-220 | a token is an id before it is a key |
| Registry.OntologyRegistry.LoadCoreSeeds | pke/src/pke/ontology/registry.py:46-49 | seeds load in order up to the first refused; when all are accepted they are all listed and the core is frozen |
| Registry.OntologyRegistry.RegisterConcept | pke/src/pke/ontology/registry.py:51-56 | core concepts are always refused and a refusal changes nothing; an accepted one is found under its key, all other keys find what they found, ids keep matching, and only a personal concept under a taken id can end coherence |
| Schemas.SchemaExactly | pke/src/pke/reasoning/schemas.py:194-223 | along a duplicate-free walk of parents as far as it goes: the schema is that of the nearest key that has one and requires of each slot what the nearest schema naming it says last, nothing else, each slot once, by ascending priority |
| Schemas.Resolve | pke/src/pke/reasoning/schemas.py:194-223 | the two loops compute that schema and terminate on any parent links |
| Ulid.NewUlid | pke/src/pke/domain/ids.py:11-20 | 26 digits of timestamp and random bits, produced backwards and reversed |
| Ulid.DecodeEncode | pke/src/pke/domain/ids.py:17-20 | decoding an encoding gives the value back |
| Ulid.EncodeInjective | pke/src/pke/domain/ids.py:17-20 | different values that fit have different ids |
| Ulid.OrderPreserved | pke/src/pke/domain/ids.py:8-20 | lexicographic order of ids is numeric order of values |
| Ulid.IdsInTimeOrder | pke/src/pke/domain/ids.py:11-20 | the ids of two moments and their random bits are ordered by the moments first and the bits next, and are equal only when both are |
| Ulid.AlphabetExactly | pke/src/pke/domain/ids.py:8 | the digits are Crockford's, in ascending order |

## Left out

- ReplacementChoice.RelationReplacementExactly: when an additional relation is about the corrected link itself it may go over the same row, and which row it goes over is not traced back to the request; `SaidTwiceStaysLinked` shows that case.
- ReplacementChoice.AttributeReplacementExactly: additional attributes are taken to have ids other than the main one's, as generated ids have.
- Admission.MaterializesExactly: the ids of an utterance are taken to be new and all different, as generated ids are; what is recorded is said for any ids by `Recording.MaterializeRecords`.
- AttributeReadBack.HistoryReadBack: said of keys with a closed row in range; without one `AttributeResolver.HistoryExactly` says which of two statuses is given.
- Entities: creating, resolving and binding entities is not modelled; writes receive resolved ids, and questions the map of the user's entities.
- Foreign keys: storage's existence checks on entities, sources and raw inputs are not modelled; provenance of a correction is one boolean.
- Repositories' row order: `for_entity` lists are taken in any order; a lookup by link among equally recent rows takes the earliest stored, where the database leaves it open.
- Relation intervals: `valid_from`, `valid_to` and confidence of rows are not kept, and HELD_DURING and TERMINATION_DATE questions are not modelled.
- Concepts during a run: learned concepts bound in the middle of a run and personal state dimensions under taken keys; the registry is fixed during a run.
- Event questions: filtering events by type, action, domain and range, their items, and the aggregates COUNT and SUM; of LATEST only which event is chosen.
- Attribute snapshots: the listing of all dimensions of an entity is a loop of lookups already modelled.
- Intervals of validity: `validity_interval_membership` is not used by the modelled primitives; coarse windows are.
- Numbers: parsing decimals and years; numeric values are reals and an unreadable one is an absent one.
- Correction guard: whether an utterance is admissible as a correction is an input.
- Ingestion errors: exceptions other than a rejected correction surface as `None` after the rollback, without their message.
- Target text matching: case folding, trimming and the ontology lookup of actions are parameters.
- Focus choice: which entities a write focuses on is an input of a discourse turn; salience is in integer thousandths.
- Recovery components: entity surface, ambiguity, dimension and value resolvers, capability, IR construction and the filler a call is given are inputs of the call; `Recovery.FillExactly` is about the program's own filler.
- Retry outcomes: a language-model error raised while parsing an accepted answer, failures outside the handled kinds, and wall-clock metrics.
- Notes, warnings, query plans, traces and log lines of results.
- HTTP, prompts, settings, authentication, migrations and presenters.
