/** Measurements written and read back: what the engine's latest observation is over any run. */
module MeasurementReadBack {
  import opened Prelude
  import opened Domain
  import opened Store
  import opened Runs
  import opened LedgerLifecycle
  import opened EffectivenessResolver
  import opened QueryEngine
  import opened ReadBack
  import M = MeasurementResolver

  ghost predicate EffectiveMeasurement(s: Store, key: Key, m: Measurement) {
    && m in s.measurements && m.user == key.user && m.entity == key.entity && m.dimension == key.dimension
    && !Targeted(s.ledger, Ref(key.user, MeasurementKind, m.id))
  }

  /** Of the key, effective, and in one of the contexts, if any is asked for. */
  ghost function Asked(s: Store, key: Key, contexts: seq<Id>): Measurement -> bool {
    (m: Measurement) =>
      && EffectiveMeasurement(s, key, m)
      && (contexts == [] || exists c :: c in contexts && m.context == Some(c))
  }

  /** What the engine answers to a question about an entity. */
  function Ask(s: Store, key: Key, q: M.Query, entities: map<Id, Id>): Result<M.MeasurementAnswer, QueryError> {
    MeasurementQuery(LoadGraph(s, key.user, entities), SubjectSpec(key.entity), q)
  }

  function LatestOf(dimension: string, contexts: seq<Id>): M.Query {
    M.Query(dimension, M.LatestObservation, None, None, contexts)
  }

  function AskLatest(s: Store, key: Key, entities: map<Id, Id>): Result<M.MeasurementAnswer, QueryError> {
    Ask(s, key, LatestOf(key.dimension, []), entities)
  }

  function Pool(s: Store, key: Key, contexts: seq<Id>, entities: map<Id, Id>): seq<Measurement> {
    Filter(M.InPool(key.dimension, contexts), MeasurementPool(LoadGraph(s, key.user, entities), SubjectSpec(key.entity)))
  }

  lemma AnswersFromPool(s: Store, key: Key, q: M.Query, entities: map<Id, Id>)
    requires key.entity in entities && q.dimension == key.dimension
    ensures var pool := Pool(s, key, q.contexts, entities);
      Ask(s, key, q, entities) == Ok(
        match q.mode
        case LatestObservation => M.Latest(pool)
        case ObservationAtTime => M.AtTime(pool, q.range)
        case ObservationsInRange => M.InRange(pool, q.range)
        case ValueProposition => M.PropositionQuery(pool, q.filter, q.range))
  {
    assert Visibility(SubjectSpec(key.entity), LoadGraph(s, key.user, entities)).None?;
  }

  lemma {:induction false} PoolExactly(s: Store, key: Key, contexts: seq<Id>, entities: map<Id, Id>, m: Measurement)
    requires LedgerOk(s)
    ensures m in Pool(s, key, contexts, entities) <==> Asked(s, key, contexts)(m)
  {
    var g, spec := LoadGraph(s, key.user, entities), SubjectSpec(key.entity);
    var ofEntity := OfEntities(spec.entities, MeasurementEntity());
    FilterMember(M.InPool(key.dimension, contexts), MeasurementPool(g, spec), m);
    FilterMember(EffectiveRow(g.corrections, key.user, MeasurementKind, MeasurementId()), Filter(ofEntity, g.measurements), m);
    FilterMember(ofEntity, g.measurements, m);
    FilterMember(MeasurementsOf(key.user), s.measurements, m);
    UserLedger(s, key.user, Ref(key.user, MeasurementKind, m.id));
  }

  /** In every reachable store the latest observation the engine answers is the one of the effective rows asked for. */
  lemma {:induction false} LatestReadBack(env: Env, run: seq<Timed>, key: Key, contexts: seq<Id>, entities: map<Id, Id>)
    requires Deployed(env) && key.entity in entities
    ensures var answer := Ask(Run(env, run), key, LatestOf(key.dimension, contexts), entities);
      answer.Ok? && M.AnswersLatest(answer.value, Asked(Run(env, run), key, contexts))
  {
    var s := Run(env, run);
    RunKeeps(env, run);
    var pool, asked := Pool(s, key, contexts, entities), Asked(s, key, contexts);
    AnswersFromPool(s, key, LatestOf(key.dimension, contexts), entities);
    forall m ensures M.Among(pool)(m) <==> asked(m) { PoolExactly(s, key, contexts, entities, m); }
    M.LatestExactly(pool);
    M.LatestAgrees(M.Latest(pool), M.Among(pool), asked);
  }

  /** So is the observation at a time: an observation outside it is never answered instead. */
  lemma {:induction false} TimeReadBack(
    env: Env, run: seq<Timed>, key: Key, contexts: seq<Id>, w: Window, entities: map<Id, Id>)
    requires Deployed(env) && key.entity in entities
    ensures var q := M.Query(key.dimension, M.ObservationAtTime, None, Some(w), contexts);
      var answer := Ask(Run(env, run), key, q, entities);
      answer.Ok? && M.AnswersTime(answer.value, Asked(Run(env, run), key, contexts), w)
  {
    var s := Run(env, run);
    RunKeeps(env, run);
    var pool, asked := Pool(s, key, contexts, entities), Asked(s, key, contexts);
    AnswersFromPool(s, key, M.Query(key.dimension, M.ObservationAtTime, None, Some(w), contexts), entities);
    forall m ensures M.Among(pool)(m) <==> asked(m) { PoolExactly(s, key, contexts, entities, m); }
    M.AtTimeExactly(pool, w);
    M.AnswersAgree(M.AtTime(pool, Some(w)), M.Among(pool), asked, w);
  }

  /** And the observations in a range. */
  lemma {:induction false} RangeReadBack(
    env: Env, run: seq<Timed>, key: Key, contexts: seq<Id>, w: Window, entities: map<Id, Id>)
    requires Deployed(env) && key.entity in entities
    ensures var q := M.Query(key.dimension, M.ObservationsInRange, None, Some(w), contexts);
      var answer := Ask(Run(env, run), key, q, entities);
      answer.Ok? && M.AnswersRange(answer.value, Asked(Run(env, run), key, contexts), w)
  {
    var s := Run(env, run);
    RunKeeps(env, run);
    var pool, asked := Pool(s, key, contexts, entities), Asked(s, key, contexts);
    AnswersFromPool(s, key, M.Query(key.dimension, M.ObservationsInRange, None, Some(w), contexts), entities);
    forall m ensures M.Among(pool)(m) <==> asked(m) { PoolExactly(s, key, contexts, entities, m); }
    PoolDistinct(env, run, key, contexts, entities);
    M.InRangeExactly(pool, w);
    M.AnswersAgree(M.InRange(pool, Some(w)), M.Among(pool), asked, w);
  }

  /** And whether a value is confirmed. */
  lemma {:induction false} ValueReadBack(
    env: Env, run: seq<Timed>, key: Key, contexts: seq<Id>, f: M.Reading, range: Option<Window>, entities: map<Id, Id>)
    requires Deployed(env) && key.entity in entities
    requires f.unit.None? || f.currency.None?
    ensures var q := M.Query(key.dimension, M.ValueProposition, Some(f), range, contexts);
      var answer := Ask(Run(env, run), key, q, entities);
      answer.Ok? && M.AnswersValue(answer.value, Asked(Run(env, run), key, contexts), f, range)
  {
    var s := Run(env, run);
    RunKeeps(env, run);
    var pool, asked := Pool(s, key, contexts, entities), Asked(s, key, contexts);
    AnswersFromPool(s, key, M.Query(key.dimension, M.ValueProposition, Some(f), range, contexts), entities);
    forall m ensures M.Among(pool)(m) <==> asked(m) { PoolExactly(s, key, contexts, entities, m); }
    M.PropositionExactly(pool, f, range);
    M.ValuesAgree(M.PropositionQuery(pool, Some(f), range), M.Among(pool), asked, f, range);
  }

  // ---------------------------------------------------------------- no observation is stored twice

  ghost predicate DistinctMeasurements(rows: seq<Measurement>) {
    forall i, j :: 0 <= i < j < |rows| ==> rows[i].id != rows[j].id
  }

  lemma {:induction false} WritesKeepDistinct(env: Env, t: Txn, ws: seq<Write>, at: int)
    requires DistinctMeasurements(t.store.measurements)
    requires DoWrites(env, t, ws, at).Some?
    ensures DistinctMeasurements(DoWrites(env, t, ws, at).value.store.measurements)
    decreases |ws|
  {
    if ws != [] {
      var rows := t.store.measurements;
      if ws[0].WriteMeasurement? {
        forall i | 0 <= i < |rows| ensures rows[i].id != ws[0].measurement.id { assert rows[i] in rows; }
      }
      WritesKeepDistinct(env, DoWrite(env, t, ws[0], at).value, ws[1..], at);
    }
  }

  lemma {:induction false} RunKeepsDistinct(env: Env, run: seq<Timed>)
    ensures DistinctMeasurements(Run(env, run).measurements)
  {
    if run != [] {
      var s, step, at := Run(env, run[..|run| - 1]), run[|run| - 1].step, run[|run| - 1].at;
      RunKeepsDistinct(env, run[..|run| - 1]);
      if step.Ingest? {
        if DoWrites(env, Txn(s, NOTHING), step.writes, at).Some? { WritesKeepDistinct(env, Txn(s, NOTHING), step.writes, at); }
      } else if step.IngestReplacement? {
        var q := step.replacing;
        if DoWrites(env, Txn(s, NOTHING), q.writes, at).Some? { WritesKeepDistinct(env, Txn(s, NOTHING), q.writes, at); }
      }
    }
  }

  lemma {:induction false} PoolDistinct(env: Env, run: seq<Timed>, key: Key, contexts: seq<Id>, entities: map<Id, Id>)
    ensures M.NoneTwice(Pool(Run(env, run), key, contexts, entities))
  {
    var s := Run(env, run);
    RunKeepsDistinct(env, run);
    var g, spec := LoadGraph(s, key.user, entities), SubjectSpec(key.entity);
    var ofEntity := OfEntities(spec.entities, MeasurementEntity());
    FilterDistinct(MeasurementsOf(key.user), s.measurements);
    FilterDistinct(ofEntity, g.measurements);
    FilterDistinct(EffectiveRow(g.corrections, key.user, MeasurementKind, MeasurementId()), Filter(ofEntity, g.measurements));
    FilterDistinct(M.InPool(key.dimension, contexts), MeasurementPool(g, spec));
  }

  // ---------------------------------------------------------------- one more observation

  ghost predicate Earlier(m: Measurement, n: Measurement) {
    M.Clock(m).Some? && M.Clock(n).Some? && M.Clock(m).value < M.Clock(n).value
  }

  function KeyOfMeasurement(m: Measurement): Key {
    Key(m.user, m.entity, m.dimension)
  }

  function Measures(m: Measurement, at: int): Timed {
    Timed(Ingest([WriteMeasurement(m)]), at)
  }

  lemma MeasuredStore(env: Env, run: seq<Timed>, m: Measurement, at: int)
    requires !HasMeasurement(Run(env, run).measurements, m.id)
    ensures Run(env, run + [Measures(m, at)]) == Run(env, run).(measurements := Run(env, run).measurements + [m])
  {
    var s := Run(env, run);
    assert (run + [Measures(m, at)])[..|run|] == run;
    assert [WriteMeasurement(m)][1..] == [];
    var t := DoWrite(env, Txn(s, NOTHING), WriteMeasurement(m), at).value;
    assert DoWrites(env, Txn(s, NOTHING), [WriteMeasurement(m)], at) == DoWrites(env, t, [], at) == Some(t);
  }

  /** A new observation joins the pool of its key: its id is new, so no correction can target it. */
  lemma {:induction false} MeasuredPool(s: Store, m: Measurement, entities: map<Id, Id>)
    requires LedgerOk(s) && !HasMeasurement(s.measurements, m.id)
    ensures Pool(s.(measurements := s.measurements + [m]), KeyOfMeasurement(m), [], entities)
         == Pool(s, KeyOfMeasurement(m), [], entities) + [m]
  {
    var key := KeyOfMeasurement(m);
    var g, spec := LoadGraph(s, key.user, entities), SubjectSpec(key.entity);
    var ofEntity := OfEntities(spec.entities, MeasurementEntity());
    var effective := EffectiveRow(g.corrections, key.user, MeasurementKind, MeasurementId());
    assert !Exists(s, Ref(m.user, MeasurementKind, m.id));
    UserLedger(s, key.user, Ref(key.user, MeasurementKind, m.id));
    FilterAppend(MeasurementsOf(key.user), s.measurements, m);
    FilterAppend(ofEntity, g.measurements, m);
    FilterAppend(effective, Filter(ofEntity, g.measurements), m);
    FilterAppend(M.InPool(key.dimension, []), MeasurementPool(g, spec), m);
  }

  /** Over any run: an observation later than all effective ones, once ingested, is the engine's latest, alone. */
  lemma {:induction false} MeasuredIsLatest(env: Env, run: seq<Timed>, m: Measurement, at: int, entities: map<Id, Id>)
    requires Deployed(env) && m.entity in entities
    requires !HasMeasurement(Run(env, run).measurements, m.id) && M.Clock(m).Some?
    requires forall n :: EffectiveMeasurement(Run(env, run), KeyOfMeasurement(m), n) ==> Earlier(n, m)
    ensures var answer := AskLatest(Run(env, run + [Measures(m, at)]), KeyOfMeasurement(m), entities);
      && answer.Ok? && answer.value.status == M.KnownSingle
      && (forall n :: n in answer.value.candidates <==> n == m)
      && (forall g :: g in answer.value.groups ==> g.identity == M.Reading(m.number, m.unit, m.currency))
  {
    var s, key := Run(env, run), KeyOfMeasurement(m);
    RunKeeps(env, run);
    MeasuredStore(env, run, m, at);
    MeasuredPool(s, m, entities);
    AnswersFromPool(Run(env, run + [Measures(m, at)]), key, LatestOf(key.dimension, []), entities);
    forall n | n in Pool(s, key, [], entities)
      ensures M.ObservationInstant(n).Some? && M.ObservationInstant(n).value.epoch < M.ObservationInstant(m).value.epoch
    {
      PoolExactly(s, key, [], entities, n);
      M.ClockIsInstant(n);
    }
    M.ClockIsInstant(m);
    M.NewestObservationIsLatest(Pool(s, key, [], entities), m);
  }

  /** Over any run: an observation older than some effective one changes nothing about the latest, told late or not. */
  lemma {:induction false} OlderChangesNothing(env: Env, run: seq<Timed>, m: Measurement, at: int, entities: map<Id, Id>)
    requires Deployed(env) && m.entity in entities
    requires !HasMeasurement(Run(env, run).measurements, m.id) && M.Clock(m).Some?
    requires forall n :: EffectiveMeasurement(Run(env, run), KeyOfMeasurement(m), n) ==> M.Clock(n).Some?
    requires exists n :: EffectiveMeasurement(Run(env, run), KeyOfMeasurement(m), n) && Earlier(m, n)
    ensures AskLatest(Run(env, run + [Measures(m, at)]), KeyOfMeasurement(m), entities)
         == AskLatest(Run(env, run), KeyOfMeasurement(m), entities)
  {
    var s, key := Run(env, run), KeyOfMeasurement(m);
    RunKeeps(env, run);
    MeasuredStore(env, run, m, at);
    MeasuredPool(s, m, entities);
    AnswersFromPool(s, key, LatestOf(key.dimension, []), entities);
    AnswersFromPool(Run(env, run + [Measures(m, at)]), key, LatestOf(key.dimension, []), entities);
    M.ClockIsInstant(m);
    forall n
      ensures n in Pool(s, key, [], entities) <==> EffectiveMeasurement(s, key, n)
      ensures M.Clock(n) == if M.ObservationInstant(n).Some? then Some(M.ObservationInstant(n).value.epoch) else None
    {
      PoolExactly(s, key, [], entities, n);
      M.ClockIsInstant(n);
    }
    M.OlderObservationKeepsLatest(Pool(s, key, [], entities), m);
  }

  // ---------------------------------------------------------------- measured, then taken back

  function Retracts(id: Id, m: Measurement, at: int): Timed {
    Timed(RetractAssertion(id, m.user, MeasurementKind, m.id, true), at)
  }

  lemma RetractedStore(env: Env, run: seq<Timed>, m: Measurement, id: Id, at: int, later: int)
    requires Deployed(env) && !HasMeasurement(Run(env, run).measurements, m.id) && !HasCorrection(Run(env, run).ledger, id)
    ensures var s := Run(env, run);
      Run(env, run + [Measures(m, at), Retracts(id, m, later)]) ==
        s.(measurements := s.measurements + [m], ledger := s.ledger + [RetractRow(id, m.user, MeasurementKind, m.id)])
  {
    var s, more := Run(env, run), run + [Measures(m, at)];
    RunKeeps(env, run);
    MeasuredStore(env, run, m, at);
    assert run + [Measures(m, at), Retracts(id, m, later)] == more + [Retracts(id, m, later)];
    assert (more + [Retracts(id, m, later)])[..|more|] == more;
    var ref := Ref(m.user, MeasurementKind, m.id);
    assert !Exists(s, ref);
    var t := s.(measurements := s.measurements + [m]);
    assert m in t.measurements && Exists(t, ref) && !Targeted(t.ledger, ref);
  }

  /** Among the rows of a user, a new row and its retraction cancel out. */
  lemma {:induction false} RetractedRow(
    corrections: seq<Correction>, rows: seq<Measurement>, m: Measurement, row: Correction, user: Id)
    requires row.target == Ref(user, MeasurementKind, m.id)
    requires !HasMeasurement(rows, m.id)
    ensures Filter(EffectiveRow(corrections + [row], user, MeasurementKind, MeasurementId()), rows + [m])
         == Filter(EffectiveRow(corrections, user, MeasurementKind, MeasurementId()), rows)
  {
    var before := EffectiveRow(corrections, user, MeasurementKind, MeasurementId());
    var after := EffectiveRow(corrections + [row], user, MeasurementKind, MeasurementId());
    assert row in corrections + [row];
    FilterAppend(after, rows, m);
    forall n | n in rows ensures before(n) <==> after(n) {
      assert forall c :: c in corrections + [row] <==> c in corrections || c == row;
    }
    FilterAgree(before, after, rows);
  }

  lemma {:induction false} RetractedPool(s: Store, m: Measurement, id: Id, entities: map<Id, Id>)
    requires !HasMeasurement(s.measurements, m.id)
    ensures var after := s.(measurements := s.measurements + [m],
                            ledger := s.ledger + [RetractRow(id, m.user, MeasurementKind, m.id)]);
      Pool(after, KeyOfMeasurement(m), [], entities) == Pool(s, KeyOfMeasurement(m), [], entities)
  {
    var row := RetractRow(id, m.user, MeasurementKind, m.id);
    var g := LoadGraph(s, m.user, entities);
    var ofEntity := OfEntities(SubjectSpec(m.entity).entities, MeasurementEntity());
    var rows := Filter(ofEntity, g.measurements);
    FilterAppend(CorrectionsOf(m.user), s.ledger, row);
    FilterAppend(MeasurementsOf(m.user), s.measurements, m);
    FilterAppend(ofEntity, g.measurements, m);
    if n :| n in rows && n.id == m.id {
      FilterMember(ofEntity, g.measurements, n);
      FilterMember(MeasurementsOf(m.user), s.measurements, n);
      assert false;
    }
    RetractedRow(g.corrections, rows, m, row, m.user);
  }

  /** An observation told and then retracted leaves the latest as it was before it was told, whatever its time. */
  lemma {:induction false} RetractionRestoresLatest(
    env: Env, run: seq<Timed>, m: Measurement, id: Id, at: int, later: int, entities: map<Id, Id>)
    requires Deployed(env) && m.entity in entities
    requires !HasMeasurement(Run(env, run).measurements, m.id) && !HasCorrection(Run(env, run).ledger, id)
    ensures AskLatest(Run(env, run + [Measures(m, at), Retracts(id, m, later)]), KeyOfMeasurement(m), entities)
         == AskLatest(Run(env, run), KeyOfMeasurement(m), entities)
  {
    var s, key := Run(env, run), KeyOfMeasurement(m);
    RunKeeps(env, run);
    RetractedStore(env, run, m, id, at, later);
    RetractedPool(s, m, id, entities);
    AnswersFromPool(s, key, LatestOf(key.dimension, []), entities);
    AnswersFromPool(Run(env, run + [Measures(m, at), Retracts(id, m, later)]), key, LatestOf(key.dimension, []), entities);
  }
}
