/** From a correcting utterance to one committed ledger row, or to nothing at all. */
module CorrectionIngest {
  import opened Prelude
  import opened Domain
  import opened Store
  import opened UnitOfWork
  import opened Utterance
  import opened Materializer
  import opened Runs
  import opened LedgerLifecycle
  import opened CorrectionService
  import T = CorrectionTarget

  /** What the acceptance guard decided about the utterance. */
  datatype Guard = Accept | Clarify | Refuse

  datatype Outcome =
    | Applied | TargetAmbiguous | TargetUnresolved | Rejected | Unsupported
    | ReplacementUnresolved | ReplacementNotMaterializable

  /**
   * A correction as interpreted. `timesResolve` and `persistable` are what temporal resolution and the knowledge
   * assessment say of the replacement.
   */
  datatype Request = Request(
    user: Id, correctionId: Id, operation: Option<Operation>, guard: Guard, target: Option<T.Description>,
    ir: Ir, timesResolve: bool, persistable: bool)

  datatype Ingested = Ingested(outcome: Outcome, store: Store)

  /** The primitive the replacement is meant to be, measurement before attribute, event, state and relation. */
  function ReplacementIntent(ir: Ir): Option<Intent> {
    if ir.measurement.Some? then Some(RecordMeasurement)
    else if ir.attribute.Some? then Some(RecordAttribute)
    else if ir.event.Some? then Some(RecordEvent)
    else if ir.state.Some? then Some(RecordState)
    else if ir.relation.Some? then Some(RecordRelation)
    else None
  }

  /** Keeps the intended primitive and drops the other main ones; additional claims stay. */
  function Scrubbed(ir: Ir, intent: Intent): Ir {
    var bare := ir.(event := None, measurement := None, obligation := None, state := None, attribute := None, relation := None);
    match intent
    case RecordAttribute => bare.(attribute := ir.attribute)
    case RecordMeasurement => bare.(measurement := ir.measurement)
    case RecordEvent => bare.(event := ir.event)
    case RecordState => bare.(state := ir.state)
    case RecordRelation => bare.(relation := ir.relation)
  }

  function Resolve(s: Store, x: T.Context, q: Request): T.Resolution
    requires q.target.Some?
  {
    T.ResolveTarget(s, x, q.user, q.target.value, None)
  }

  /** The guards before any target is looked for. */
  function Screen(q: Request): Option<Outcome> {
    if q.operation.None? then Some(Rejected)
    else if q.guard == Clarify then Some(TargetAmbiguous)
    else if q.guard == Refuse then Some(Rejected)
    else if q.target.None? then Some(Unsupported)
    else None
  }

  function Retracting(s: Store, q: Request, target: Ref): Ingested {
    match DoCorrection(s, RetractRow(q.correctionId, q.user, target.kind, target.assertionId), true)
    case Ok(after) => Ingested(Applied, after)
    case Err(_) => Ingested(Rejected, s)
  }

  /** A storage failure while materializing surfaces as an error; it is not an outcome. */
  function Replaces(env: Env, s: Store, q: Request, target: Ref, at: int): Option<Ingested> {
    match ReplacementIntent(q.ir)
    case None => Some(Ingested(ReplacementUnresolved, s))
    case Some(intent) =>
      if !q.timesResolve || !q.persistable then Some(Ingested(ReplacementNotMaterializable, s))
      else match Materialized(env, Txn(s, NOTHING), Scrubbed(q.ir, intent), at)
        case None => None
        case Some(t) =>
          match ReplacementRef(t.receipt, intent)
          case None => Some(Ingested(ReplacementNotMaterializable, s))
          case Some(new_) =>
            match DoCorrection(t.store,
              ReplaceRow(q.correctionId, q.user, target.kind, target.assertionId, new_.0, new_.1), true)
            case Ok(after) => Some(Ingested(Applied, after))
            case Err(_) => Some(Ingested(Rejected, s))
  }

  /** What a request does; None is an error raised after rolling back. */
  function Ingesting(env: Env, s: Store, x: T.Context, q: Request, at: int): Option<Ingested> {
    match Screen(q)
    case Some(outcome) => Some(Ingested(outcome, s))
    case None =>
      var found := Resolve(s, x, q);
      if found.status == T.AmbiguousTarget then Some(Ingested(TargetAmbiguous, s))
      else if found.status == T.Unresolved || found.reference.None? then Some(Ingested(TargetUnresolved, s))
      else if q.operation == Some(Retract) then Some(Retracting(s, q, found.reference.value))
      else Replaces(env, s, q, found.reference.value, at)
  }

  class CorrectionIngestOrchestrator {
    const materializer: KnowledgeMaterializer
    const corrections: CorrectionService
    /** How often the target resolver has been asked. */
    var targetResolverCalls: nat

    constructor (materializer: KnowledgeMaterializer, corrections: CorrectionService)
      ensures this.materializer == materializer && targetResolverCalls == 0
    {
      this.materializer := materializer;
      this.corrections := corrections;
      targetResolverCalls := 0;
    }

    /** Commits everything or rolls everything back, and asks for a target at most once per request. */
    method Ingest(uow: UnitOfWork, x: T.Context, q: Request, at: int) returns (r: Option<Outcome>)
      requires Deployed(materializer.env) && RowsOk(materializer.env, uow.Snapshot())
      requires uow.Snapshot() == uow.committed
      modifies this`targetResolverCalls, uow
      ensures uow.Snapshot() == uow.committed
      ensures var spec := Ingesting(materializer.env, old(uow.Snapshot()), x, q, at);
        && r == (if spec.Some? then Some(spec.value.outcome) else None)
        && uow.committed == (if spec.Some? then spec.value.store else old(uow.committed))
      ensures targetResolverCalls == old(targetResolverCalls) + (if Screen(q).None? then 1 else 0)
    {
      var screened := Screen(q);
      if screened.Some? { return screened; }
      targetResolverCalls := targetResolverCalls + 1;
      var found := Resolve(uow.Snapshot(), x, q);
      if found.status == T.AmbiguousTarget { return Some(TargetAmbiguous); }
      if found.status == T.Unresolved || found.reference.None? { return Some(TargetUnresolved); }
      var target := found.reference.value;
      if q.operation == Some(Retract) {
        var done := corrections.Retract(uow, q.correctionId, q.user, target.kind, target.assertionId, true, false);
        if done.Err? {
          uow.Rollback();
          return Some(Rejected);
        }
        uow.Commit();
        return Some(Applied);
      }
      r := Replace(uow, q, target, at);
    }

    method Replace(uow: UnitOfWork, q: Request, target: Ref, at: int) returns (r: Option<Outcome>)
      requires Deployed(materializer.env) && RowsOk(materializer.env, uow.Snapshot())
      requires uow.Snapshot() == uow.committed
      modifies uow
      ensures uow.Snapshot() == uow.committed
      ensures var spec := Replaces(materializer.env, old(uow.Snapshot()), q, target, at);
        && r == (if spec.Some? then Some(spec.value.outcome) else None)
        && uow.committed == (if spec.Some? then spec.value.store else old(uow.committed))
    {
      var intent := ReplacementIntent(q.ir);
      if intent.None? { return Some(ReplacementUnresolved); }
      if !q.timesResolve || !q.persistable { return Some(ReplacementNotMaterializable); }
      var result := new MaterializationResult();
      var ok := materializer.Materialize(uow, Scrubbed(q.ir, intent.value), at, result);
      if !ok {
        uow.Rollback();
        return None;
      }
      var new_ := ReplacementRef(result.Listed(), intent.value);
      if new_.None? {
        uow.Rollback();
        return Some(ReplacementNotMaterializable);
      }
      var done := corrections.Replace(
        uow, q.correctionId, q.user, target.kind, target.assertionId, new_.value.0, new_.value.1, true, false);
      if done.Err? {
        uow.Rollback();
        return Some(Rejected);
      }
      uow.Commit();
      return Some(Applied);
    }
  }

  // ---------------------------------------------------------------- what ingestion guarantees

  /**
   * One new ledger row, of the operation asked for, about `target`, which was there and effective. A retraction
   * writes nothing else; a replacement links another assertion, new unless it is a relation.
   */
  ghost predicate OneCorrection(s: Store, after: Store, q: Request, target: Ref) {
    && Exists(s, target) && !Targeted(s.ledger, target)
    && |after.ledger| == |s.ledger| + 1
    && var c := after.ledger[|s.ledger|];
    && after.ledger == s.ledger + [c]
    && c.target == target && c.user == q.user && q.operation == Some(c.operation)
    && (c.operation == Retract ==> after == s.(ledger := s.ledger + [c]))
    && (c.operation == Replace ==> c.replacement.Some? && c.replacement.value != target)
    && (c.operation == Replace && c.replacement.value.kind != RelationKind ==> !Exists(s, c.replacement.value))
  }

  lemma {:induction false} RetractingIsOne(s: Store, q: Request, target: Ref)
    requires Exists(s, target) && target.user == q.user && q.operation == Some(Retract)
    requires Retracting(s, q, target).outcome == Applied
    ensures OneCorrection(s, Retracting(s, q, target).store, q, target)
  {
    assert Ref(q.user, target.kind, target.assertionId) == target;
    var c := RetractRow(q.correctionId, q.user, target.kind, target.assertionId);
    assert (s.ledger + [c])[|s.ledger|] == c;
  }

  lemma {:induction false} ReplacingIsOne(env: Env, s: Store, q: Request, target: Ref, at: int)
    requires Exists(s, target) && target.user == q.user && q.operation == Some(Replace)
    requires Replaces(env, s, q, target, at).Some? && Replaces(env, s, q, target, at).value.outcome == Applied
    ensures OneCorrection(s, Replaces(env, s, q, target, at).value.store, q, target)
  {
    assert Ref(q.user, target.kind, target.assertionId) == target;
    var intent := ReplacementIntent(q.ir).value;
    var ws := WritesOf(Scrubbed(q.ir, intent)).value;
    DoWritesGrow(env, s, Txn(s, NOTHING), ws, at);
    var t := DoWrites(env, Txn(s, NOTHING), ws, at).value;
    var new_ := ReplacementRef(t.receipt, intent).value;
    var c := ReplaceRow(q.correctionId, q.user, target.kind, target.assertionId, new_.0, new_.1);
    assert t.store.ledger == s.ledger && (s.ledger + [c])[|s.ledger|] == c;
    ReplacementReported(t.receipt, intent);
  }

  lemma ReplacementReported(r: Receipt, intent: Intent)
    requires ReplacementRef(r, intent).Some?
    ensures Reported(r, ReplacementRef(r, intent).value.0, ReplacementRef(r, intent).value.1)
  {
  }

  /** An applied request is one correction of the assertion the description resolved to; any other writes nothing. */
  lemma {:induction false} IngestIsAtomic(env: Env, s: Store, x: T.Context, q: Request, at: int)
    requires Ingesting(env, s, x, q, at).Some?
    ensures var r := Ingesting(env, s, x, q, at).value;
      if r.outcome != Applied then r.store == s
      else q.target.Some? && Resolve(s, x, q).reference.Some?
           && OneCorrection(s, r.store, q, Resolve(s, x, q).reference.value)
  {
    var r := Ingesting(env, s, x, q, at).value;
    if r.outcome == Applied {
      var target := Resolve(s, x, q).reference.value;
      var d := q.target.value;
      if T.DirectId(d).None? { T.CandidateIsEffective(s, x, q.user, d.kind.value, d, target); }
      match q.operation.value
      case Retract => RetractingIsOne(s, q, target);
      case Replace => ReplacingIsOne(env, s, q, target, at);
    }
  }

  /** The transition of a run that an applied request amounts to. */
  function StepOf(q: Request, target: Ref): Step {
    if q.operation == Some(Retract) || ReplacementIntent(q.ir).None? then
      RetractAssertion(q.correctionId, q.user, target.kind, target.assertionId, true)
    else
      var intent := ReplacementIntent(q.ir).value;
      var ws := WritesOf(Scrubbed(q.ir, intent));
      IngestReplacement(Replacing(q.correctionId, q.user, target.kind, target.assertionId, intent,
        if ws.Some? then ws.value else [], true))
  }

  lemma {:induction false} RetractingIsStep(env: Env, s: Store, q: Request, target: Ref, at: int)
    requires q.operation == Some(Retract) && Retracting(s, q, target).outcome == Applied
    ensures Retracting(s, q, target).store == Apply(env, s, StepOf(q, target), at)
  {
  }

  lemma {:induction false} ReplacingIsStep(env: Env, s: Store, q: Request, target: Ref, at: int)
    requires q.operation == Some(Replace)
    requires Replaces(env, s, q, target, at).Some? && Replaces(env, s, q, target, at).value.outcome == Applied
    ensures Replaces(env, s, q, target, at).value.store == Apply(env, s, StepOf(q, target), at)
  {
    var intent := ReplacementIntent(q.ir).value;
    var ws := WritesOf(Scrubbed(q.ir, intent)).value;
    assert Materialized(env, Txn(s, NOTHING), Scrubbed(q.ir, intent), at) == DoWrites(env, Txn(s, NOTHING), ws, at);
  }

  /** An applied request is a step of the store machine, so every property of runs holds of it. */
  lemma {:induction false} IngestIsStep(env: Env, s: Store, x: T.Context, q: Request, at: int)
    requires Ingesting(env, s, x, q, at).Some? && Ingesting(env, s, x, q, at).value.outcome == Applied
    ensures q.target.Some? && Resolve(s, x, q).reference.Some?
    ensures Ingesting(env, s, x, q, at).value.store == Apply(env, s, StepOf(q, Resolve(s, x, q).reference.value), at)
  {
    var target := Resolve(s, x, q).reference.value;
    match q.operation.value
    case Retract => RetractingIsStep(env, s, q, target, at);
    case Replace => ReplacingIsStep(env, s, q, target, at);
  }
}
