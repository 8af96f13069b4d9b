/** Corrections by a new assertion, by the fields of the request: what is kept of it, written, linked and answered next. */
module CorrectionRecording {
  import opened Prelude
  import opened Domain
  import opened Store
  import opened Utterance
  import opened Runs
  import opened StateLifecycle
  import opened LedgerLifecycle
  import opened Recording
  import opened Admission
  import opened CorrectionIngest
  import opened QueryEngine
  import opened ReadBack
  import opened ToldAnswers
  import T = CorrectionTarget

  // ---------------------------------------------------------------- what is kept

  /**
   * Of the main claims one is kept: the measurement, or without one the attribute, or without either the event, or
   * without these the state, or without all the relation. Every additional claim stays; the obligation goes.
   */
  ghost predicate KeepsOne(ir: Ir, kept: Ir) {
    && kept.user == ir.user && kept.obligation.None?
    && kept.measurement == ir.measurement
    && kept.attribute == (if ir.measurement.None? then ir.attribute else None)
    && kept.event == (if ir.measurement.None? && ir.attribute.None? then ir.event else None)
    && kept.state == (if ir.measurement.None? && ir.attribute.None? && ir.event.None? then ir.state else None)
    && kept.relation ==
         (if ir.measurement.None? && ir.attribute.None? && ir.event.None? && ir.state.None? then ir.relation else None)
    && kept.moreMeasurements == ir.moreMeasurements && kept.moreAttributes == ir.moreAttributes
    && kept.moreRelations == ir.moreRelations && kept.owned == ir.owned
  }

  ghost predicate NoMainClaim(ir: Ir) {
    ir.measurement.None? && ir.attribute.None? && ir.event.None? && ir.state.None? && ir.relation.None?
  }

  lemma KeptExactly(ir: Ir, kept: Ir)
    requires KeepsOne(ir, kept)
    ensures ReplacementIntent(ir).None? <==> NoMainClaim(ir)
    ensures ReplacementIntent(ir).Some? ==> kept == Scrubbed(ir, ReplacementIntent(ir).value)
  {
  }

  // ---------------------------------------------------------------- what becomes of the request

  /** A replacement that passes the guards, of an assertion the description resolves to. */
  ghost predicate AsksToReplace(s: Store, x: T.Context, q: Request, target: Ref) {
    && q.operation == Some(Replace) && q.guard == Accept && q.target.Some?
    && var found := T.ResolveTarget(s, x, q.user, q.target.value, None);
    found.status == T.Resolved && found.reference == Some(target)
  }

  lemma TargetStands(s: Store, x: T.Context, q: Request, target: Ref)
    requires AsksToReplace(s, x, q, target)
    ensures Exists(s, target) && !Targeted(s.ledger, target) && target.user == q.user
  {
    var d := q.target.value;
    if T.DirectId(d).None? { T.CandidateIsEffective(s, x, q.user, d.kind.value, d, target); }
  }

  ghost predicate IdIsFree(s: Store, id: Id) {
    forall c :: c in s.ledger ==> c.id != id
  }

  /** The transaction reports the assertion. */
  ghost predicate InReceipt(r: Receipt, ref: Ref) {
    match ref.kind
    case EventKind => ref.assertionId in r.events
    case MeasurementKind => ref.assertionId in r.measurements
    case RelationKind => ref.assertionId in r.relations
    case StateKind => ref.assertionId in r.states
    case AttributeKind => ref.assertionId in r.attributes
  }

  /** Beside what was recorded there is one new ledger row, which links the target to something recorded. */
  ghost predicate LinkedBy(s: Store, q: Request, target: Ref, t: Txn, new_: Ref, after: Store) {
    && after == t.store.(ledger := s.ledger + [Correction(q.correctionId, q.user, Replace, target, Some(new_))])
    && new_.user == q.user && InReceipt(t.receipt, new_)
  }

  /** The kept claims are recorded and one of them is linked. */
  ghost predicate ReplacesBy(
    env: Env, s: Store, q: Request, target: Ref, kept: Ir, at: int, t: Txn, new_: Ref, after: Store)
  {
    Recorded(env, Txn(s, NOTHING), kept, at, t) && LinkedBy(s, q, target, t, new_, after)
  }

  /** What is left to do once the kept claims are written. */
  ghost function Finished(s: Store, q: Request, target: Ref, t: Txn, intent: Intent): Ingested {
    match ReplacementRef(t.receipt, intent)
    case None => Ingested(ReplacementNotMaterializable, s)
    case Some(new_) =>
      match DoCorrection(t.store, ReplaceRow(q.correctionId, q.user, target.kind, target.assertionId, new_.0, new_.1), true)
      case Ok(after) => Ingested(Applied, after)
      case Err(_) => Ingested(Rejected, s)
  }

  lemma ReplacesInTwo(env: Env, s: Store, q: Request, target: Ref, kept: Ir, at: int)
    requires KeepsOne(q.ir, kept) && !NoMainClaim(q.ir) && q.timesResolve && q.persistable
    ensures ReplacementIntent(q.ir).Some?
    ensures var m := Materialized(env, Txn(s, NOTHING), kept, at);
      Replaces(env, s, q, target, at) ==
        if m.None? then None else Some(Finished(s, q, target, m.value, ReplacementIntent(q.ir).value))
  {
    KeptExactly(q.ir, kept);
  }

  lemma FinishedLinks(s: Store, q: Request, target: Ref, t: Txn, intent: Intent)
    requires target.user == q.user && t.store.ledger == s.ledger
    ensures var r := Finished(s, q, target, t, intent);
      && (r.outcome != Applied ==> r.store == s)
      && (r.outcome == Applied ==> exists new_ :: LinkedBy(s, q, target, t, new_, r.store))
  {
    assert Ref(q.user, target.kind, target.assertionId) == target;
    var r := Finished(s, q, target, t, intent);
    if r.outcome == Applied {
      var new_ := ReplacementRef(t.receipt, intent).value;
      assert LinkedBy(s, q, target, t, Ref(q.user, new_.0, new_.1), r.store);
    }
  }

  lemma {:induction false} Materializing(env: Env, s: Store, q: Request, target: Ref, kept: Ir, at: int)
    requires Deployed(env) && RowsOk(env, s) && KeepsOne(q.ir, kept) && target.user == q.user
    requires !NoMainClaim(q.ir) && q.timesResolve && q.persistable
    ensures var r := Replaces(env, s, q, target, at);
      && (r.None? <==> Materialized(env, Txn(s, NOTHING), kept, at).None?)
      && (r.Some? && r.value.outcome != Applied ==> r.value.store == s)
      && (r.Some? && r.value.outcome == Applied ==>
            exists t, new_ :: ReplacesBy(env, s, q, target, kept, at, t, new_, r.value.store))
  {
    ReplacesInTwo(env, s, q, target, kept, at);
    var m := Materialized(env, Txn(s, NOTHING), kept, at);
    if m.Some? { MaterializedThenLinked(env, s, q, target, kept, at, m.value, ReplacementIntent(q.ir).value); }
  }

  lemma {:induction false} MaterializedThenLinked(
    env: Env, s: Store, q: Request, target: Ref, kept: Ir, at: int, t: Txn, intent: Intent)
    requires Deployed(env) && RowsOk(env, s) && target.user == q.user
    requires Materialized(env, Txn(s, NOTHING), kept, at) == Some(t)
    ensures var r := Finished(s, q, target, t, intent);
      && (r.outcome != Applied ==> r.store == s)
      && (r.outcome == Applied ==> exists t, new_ :: ReplacesBy(env, s, q, target, kept, at, t, new_, r.store))
  {
    MaterializeRecords(env, Txn(s, NOTHING), kept, at, t);
    FinishedLinks(s, q, target, t, intent);
    var r := Finished(s, q, target, t, intent);
    if r.outcome == Applied {
      var new_ :| LinkedBy(s, q, target, t, new_, r.store);
      assert ReplacesBy(env, s, q, target, kept, at, t, new_, r.store);
    }
  }

  /**
   * A replacement with no main claim is unresolved; one whose times or whose knowledge cannot be kept is not
   * materializable; with ids of its own, any other fails only if what is kept of it cannot be recorded. It is applied,
   * or nothing is written at all.
   */
  lemma {:induction false} ReplacementExactly(
    env: Env, s: Store, x: T.Context, q: Request, target: Ref, kept: Ir, at: int)
    requires Deployed(env) && RowsOk(env, s) && AsksToReplace(s, x, q, target) && KeepsOne(q.ir, kept)
    ensures var r := Ingesting(env, s, x, q, at);
      if NoMainClaim(q.ir) then r == Some(Ingested(ReplacementUnresolved, s))
      else if !q.timesResolve || !q.persistable then r == Some(Ingested(ReplacementNotMaterializable, s))
      else
        && (OwnIds(s, kept) ==> (r.Some? <==> CanRecord(env, s, kept)))
        && (r.Some? && r.value.outcome != Applied ==> r.value.store == s)
        && (r.Some? && r.value.outcome == Applied ==>
              exists t, new_ :: ReplacesBy(env, s, q, target, kept, at, t, new_, r.value.store))
  {
    KeptExactly(q.ir, kept);
    TargetStands(s, x, q, target);
    AsksIsReplaces(env, s, x, q, target, at);
    if !NoMainClaim(q.ir) && q.timesResolve && q.persistable {
      Materializing(env, s, q, target, kept, at);
      if OwnIds(s, kept) { MaterializesExactly(env, s, kept, at); }
    }
  }

  // ---------------------------------------------------------------- every other request

  /** The guards before any target is looked for, by the fields of the request. */
  lemma GuardedExactly(env: Env, s: Store, x: T.Context, q: Request, at: int)
    ensures var r := Ingesting(env, s, x, q, at);
      && (q.operation.None? ==> r == Some(Ingested(Rejected, s)))
      && (q.operation.Some? && q.guard == Clarify ==> r == Some(Ingested(TargetAmbiguous, s)))
      && (q.operation.Some? && q.guard == Refuse ==> r == Some(Ingested(Rejected, s)))
      && (q.operation.Some? && q.guard == Accept && q.target.None? ==> r == Some(Ingested(Unsupported, s)))
  {
  }

  /** A description that resolves to nothing, or to no one thing, leaves the store alone. */
  lemma UnresolvedExactly(env: Env, s: Store, x: T.Context, q: Request, at: int)
    requires q.operation.Some? && q.guard == Accept && q.target.Some?
    ensures var found := T.ResolveTarget(s, x, q.user, q.target.value, None);
      var r := Ingesting(env, s, x, q, at);
      && (found.status == T.AmbiguousTarget ==> r == Some(Ingested(TargetAmbiguous, s)))
      && (found.status == T.Unresolved ==> r == Some(Ingested(TargetUnresolved, s)))
  {
  }

  /** A retraction of what the description resolves to is one ledger row, unless the correction's id is taken. */
  lemma RetractionExactly(env: Env, s: Store, x: T.Context, q: Request, target: Ref, at: int)
    requires q.operation == Some(Retract) && q.guard == Accept && q.target.Some?
    requires var found := T.ResolveTarget(s, x, q.user, q.target.value, None);
      found.status == T.Resolved && found.reference == Some(target)
    ensures Ingesting(env, s, x, q, at) == Some(
      if IdIsFree(s, q.correctionId)
      then Ingested(Applied, s.(ledger := s.ledger + [Correction(q.correctionId, q.user, Retract, target, None)]))
      else Ingested(Rejected, s))
  {
    var d := q.target.value;
    if T.DirectId(d).None? { T.CandidateIsEffective(s, x, q.user, d.kind.value, d, target); }
    assert Ref(q.user, target.kind, target.assertionId) == target;
    assert HasCorrection(s.ledger, q.correctionId) <==> !IdIsFree(s, q.correctionId);
  }

  // ---------------------------------------------------------------- linking something new

  /** Linking a new assertion of the user is accepted exactly when the correction's id is free. */
  lemma LinkExactly(s: Store, q: Request, target: Ref, t: Txn, intent: Intent, new_: Ref)
    requires Exists(s, target) && Exists(t.store, target) && !Targeted(s.ledger, target) && target.user == q.user
    requires t.store.ledger == s.ledger && Exists(t.store, new_) && !Exists(s, new_) && new_.user == q.user
    requires ReplacementRef(t.receipt, intent) == Some((new_.kind, new_.assertionId)) && InReceipt(t.receipt, new_)
    ensures var r := Finished(s, q, target, t, intent);
      if IdIsFree(s, q.correctionId) then r.outcome == Applied && LinkedBy(s, q, target, t, new_, r.store)
      else r == Ingested(Rejected, s)
  {
    assert Ref(q.user, target.kind, target.assertionId) == target && Ref(q.user, new_.kind, new_.assertionId) == new_;
    assert HasCorrection(s.ledger, q.correctionId) <==> !IdIsFree(s, q.correctionId);
  }

  /** What becomes of a correction whose replacement is new and the intended one. */
  ghost predicate LinksNew(
    env: Env, s: Store, q: Request, target: Ref, kept: Ir, at: int, new_: Ref, r: Option<Ingested>)
  {
    && (r.Some? <==> CanRecord(env, s, kept))
    && (r.Some? ==> r.value.outcome == if IdIsFree(s, q.correctionId) then Applied else Rejected)
    && (r.Some? && IdIsFree(s, q.correctionId) ==>
          exists t :: ReplacesBy(env, s, q, target, kept, at, t, new_, r.value.store))
    && (r.Some? && !IdIsFree(s, q.correctionId) ==> r.value.store == s)
  }

  lemma {:induction false} NewIsLinked(
    env: Env, s: Store, q: Request, target: Ref, kept: Ir, at: int, t: Txn, new_: Ref)
    requires Deployed(env) && RowsOk(env, s) && Exists(s, target) && !Targeted(s.ledger, target) && target.user == q.user
    requires Materialized(env, Txn(s, NOTHING), kept, at) == Some(t)
    requires KeepsOne(q.ir, kept) && !NoMainClaim(q.ir) && q.timesResolve && q.persistable && CanRecord(env, s, kept)
    requires Exists(t.store, new_) && !Exists(s, new_) && new_.user == q.user && InReceipt(t.receipt, new_)
    requires ReplacementIntent(q.ir).Some?
    requires ReplacementRef(t.receipt, ReplacementIntent(q.ir).value) == Some((new_.kind, new_.assertionId))
    ensures LinksNew(env, s, q, target, kept, at, new_, Replaces(env, s, q, target, at))
  {
    var intent := ReplacementIntent(q.ir).value;
    ReplacesInTwo(env, s, q, target, kept, at);
    MaterializeRecords(env, Txn(s, NOTHING), kept, at, t);
    StaysThere(env, s, kept, at, target);
    LinkExactly(s, q, target, t, intent, new_);
    var r := Finished(s, q, target, t, intent);
    if IdIsFree(s, q.correctionId) { assert ReplacesBy(env, s, q, target, kept, at, t, new_, r.store); }
  }

  lemma AsksIsReplaces(env: Env, s: Store, x: T.Context, q: Request, target: Ref, at: int)
    requires AsksToReplace(s, x, q, target)
    ensures Ingesting(env, s, x, q, at) == Replaces(env, s, q, target, at)
  {
  }

  lemma {:induction false} StaysThere(env: Env, s: Store, ir: Ir, at: int, target: Ref)
    requires Materialized(env, Txn(s, NOTHING), ir, at).Some? && Exists(s, target)
    ensures Exists(Materialized(env, Txn(s, NOTHING), ir, at).value.store, target)
    ensures Materialized(env, Txn(s, NOTHING), ir, at).value.store.ledger == s.ledger
  {
    DoWritesGrow(env, s, Txn(s, NOTHING), WritesOf(ir).value, at);
  }

  // ---------------------------------------------------------------- correcting by a state

  /** A correction by a state alone among the main claims; the state is the correcting user's. */
  ghost predicate CorrectsByState(q: Request) {
    && q.ir.measurement.None? && q.ir.attribute.None? && q.ir.event.None? && q.ir.state.Some?
    && q.ir.state.value.user == q.user && q.timesResolve && q.persistable
  }

  lemma {:induction false} StateIsNew(env: Env, s: Store, kept: Ir, at: int, t: Txn, user: Id)
    requires kept.state.Some? && kept.state.value.user == user && !HasState(s.states, kept.state.value.id)
    requires StateRecorded(env, Txn(s, NOTHING), kept, at, t)
    ensures t.receipt.states == [kept.state.value.id]
    ensures Exists(t.store, Ref(user, StateKind, kept.state.value.id)) && !Exists(s, Ref(user, StateKind, kept.state.value.id))
  {
    var w := kept.state.value;
    assert NOTHING.states + [w.id] == [w.id];
    var d, v :| NamesState(env.catalog, w, d, v) && StateStoredAs(s.states, w, d, v, at, t.store.states);
    var row := t.store.states[|s.states|];
    assert StateRowTold(w, d, v, at, row) && row in t.store.states;
  }

  /**
   * A correction by a state, with ids of its own: it fails exactly when what is kept cannot be recorded; otherwise it
   * is applied exactly when the correction's id is free, and then the state is recorded and linked.
   */
  lemma {:induction false} StateReplacementExactly(
    env: Env, s: Store, x: T.Context, q: Request, target: Ref, kept: Ir, at: int)
    requires Deployed(env) && RowsOk(env, s) && AsksToReplace(s, x, q, target)
    requires CorrectsByState(q) && KeepsOne(q.ir, kept) && OwnIds(s, kept)
    ensures kept.state == q.ir.state
    ensures LinksNew(env, s, q, target, kept, at, Ref(q.user, StateKind, q.ir.state.value.id), Ingesting(env, s, x, q, at))
  {
    TargetStands(s, x, q, target);
    AsksIsReplaces(env, s, x, q, target, at);
    ReplacesInTwo(env, s, q, target, kept, at);
    MaterializesExactly(env, s, kept, at);
    var m := Materialized(env, Txn(s, NOTHING), kept, at);
    if m.Some? { StateLinkedNew(env, s, q, target, kept, at, m.value); }
  }

  lemma {:induction false} StateLinkedNew(env: Env, s: Store, q: Request, target: Ref, kept: Ir, at: int, t: Txn)
    requires Deployed(env) && RowsOk(env, s) && Exists(s, target) && !Targeted(s.ledger, target) && target.user == q.user
    requires CorrectsByState(q) && KeepsOne(q.ir, kept) && OwnIds(s, kept) && CanRecord(env, s, kept)
    requires Materialized(env, Txn(s, NOTHING), kept, at) == Some(t)
    ensures LinksNew(env, s, q, target, kept, at, Ref(q.user, StateKind, q.ir.state.value.id), Replaces(env, s, q, target, at))
  {
    MaterializeRecords(env, Txn(s, NOTHING), kept, at, t);
    assert StateRecorded(env, Txn(s, NOTHING), kept, at, t);
    StateIsNew(env, s, kept, at, t, q.user);
    StateLinked(t.receipt);
    NewIsLinked(env, s, q, target, kept, at, t, Ref(q.user, StateKind, q.ir.state.value.id));
  }

  lemma StateLinked(r: Receipt)
    requires |r.states| == 1
    ensures ReplacementRef(r, RecordState) == Some((StateKind, r.states[0]))
  {
  }

  lemma CorrectedWereThere(s: Store, target: Ref, last: Correction, ledger: seq<Correction>)
    requires LedgerOk(s) && Exists(s, target) && last.target == target && ledger == s.ledger + [last]
    ensures forall c :: c in ledger && c.target.kind == StateKind ==> HasState(s.states, c.target.assertionId)
  {
    forall c | c in ledger && c.target.kind == StateKind ensures HasState(s.states, c.target.assertionId) {
      assert c in s.ledger || c == last;
      assert Exists(s, c.target);
    }
  }

  /** Every corrected state was there before, so the one just told is what is true now. */
  lemma {:induction false} CorrectingStateIsNow(
    env: Env, s: Store, q: Request, target: Ref, kept: Ir, at: int, t: Txn, new_: Ref, after: Store) returns (dimension: Concept)
    requires CatalogOk(env.catalog) && StoreOk(env, s) && StoreOk(env, after) && Exists(s, target)
    requires ReplacesBy(env, s, q, target, kept, at, t, new_, after)
    requires kept.state.Some? && kept.state.value.subject.Some?
    ensures exists value :: NamesState(env.catalog, kept.state.value, dimension, value)
    ensures dimension.id in env.catalog.byId && env.catalog.byId[dimension.id] == dimension
    ensures var w := kept.state.value;
      var now := StateNow(after, Key(w.user, w.subject.value, dimension.key));
      now.Some? && now.value.id == w.id && now.value.valueKey == w.valueKey
  {
    var w := kept.state.value;
    assert StateRecorded(env, Txn(s, NOTHING), kept, at, t);
    var d, value :| NamesState(env.catalog, w, d, value) && StateStoredAs(s.states, w, d, value, at, t.store.states);
    dimension := d;
    CorrectedWereThere(s, target, Correction(q.correctionId, q.user, Replace, target, Some(new_)), after.ledger);
    NewestStateIsNow(env, after, s.states, t.store.states[|s.states|], Key(w.user, w.subject.value, d.key));
  }

  /** Over every run: a state that corrects, once applied, is what the engine answers of its subject next. */
  lemma {:induction false} CorrectingStateIsAnswered(
    env: Env, run: seq<Timed>, x: T.Context, q: Request, target: Ref, kept: Ir, at: int, entities: map<Id, Id>)
    requires Deployed(env) && AsksToReplace(Run(env, run), x, q, target) && CorrectsByState(q)
    requires KeepsOne(q.ir, kept) && OwnIds(Run(env, run), kept)
    requires CanRecord(env, Run(env, run), kept) && IdIsFree(Run(env, run), q.correctionId)
    requires q.ir.state.value.subject.Some? && q.ir.state.value.subject.value in entities
    ensures var r := Ingesting(env, Run(env, run), x, q, at);
      r.Some? && r.value.outcome == Applied && exists dimension, value ::
        NamesState(env.catalog, q.ir.state.value, dimension, value)
        && AnswersTold(env, r.value.store, q.ir.state.value, dimension, entities)
  {
    var s := Run(env, run);
    RunKeeps(env, run);
    StateReplacementExactly(env, s, x, q, target, kept, at);
    var new_ := Ref(q.user, StateKind, q.ir.state.value.id);
    var after := Ingesting(env, s, x, q, at).value.store;
    var t :| ReplacesBy(env, s, q, target, kept, at, t, new_, after);
    var longer := AppliedByRun(env, run, x, q, at);
    TargetStands(s, x, q, target);
    var dimension := CorrectingStateIsNow(env, s, q, target, kept, at, t, new_, after);
    NowIsAnswered(env, longer, q.ir.state.value, dimension, entities);
  }

  /** An applied request carries a run on. */
  lemma {:induction false} AppliedByRun(env: Env, run: seq<Timed>, x: T.Context, q: Request, at: int)
    returns (longer: seq<Timed>)
    requires Deployed(env)
    requires var r := Ingesting(env, Run(env, run), x, q, at); r.Some? && r.value.outcome == Applied
    ensures var after := Ingesting(env, Run(env, run), x, q, at).value.store;
      Run(env, longer) == after && StoreOk(env, after)
  {
    IngestIsStep(env, Run(env, run), x, q, at);
    var step := Timed(StepOf(q, Resolve(Run(env, run), x, q).reference.value), at);
    longer := run + [step];
    assert longer[..|longer| - 1] == run;
    RunKeeps(env, longer);
  }

  // ---------------------------------------------------------------- correcting by an event

  /** A correction by an event: no measurement and no attribute comes before it; the event is the correcting user's. */
  ghost predicate CorrectsByEvent(q: Request) {
    && q.ir.measurement.None? && q.ir.attribute.None? && q.ir.event.Some?
    && q.ir.event.value.event.user == q.user && q.timesResolve && q.persistable
  }

  lemma {:induction false} EventIsNew(env: Env, s: Store, kept: Ir, at: int, t: Txn, user: Id)
    requires OwnIds(s, kept) && kept.event.Some? && kept.obligation.None? && kept.event.value.event.user == user
    requires Recorded(env, Txn(s, NOTHING), kept, at, t)
    ensures t.receipt.events == [kept.event.value.event.id]
    ensures var new_ := Ref(user, EventKind, kept.event.value.event.id); Exists(t.store, new_) && !Exists(s, new_)
  {
    var e := kept.event.value.event;
    assert EventsRecorded(Txn(s, NOTHING), kept, at, t);
    assert [] + [e.id] + [] == [e.id] && t.store.events == s.events + [e] + [];
    assert e in t.store.events;
  }

  /** A correction by an event: as by a state, and the event is recorded with its facts, and linked. */
  lemma {:induction false} EventReplacementExactly(
    env: Env, s: Store, x: T.Context, q: Request, target: Ref, kept: Ir, at: int)
    requires Deployed(env) && RowsOk(env, s) && AsksToReplace(s, x, q, target)
    requires CorrectsByEvent(q) && KeepsOne(q.ir, kept) && OwnIds(s, kept)
    ensures kept.event == q.ir.event
    ensures LinksNew(env, s, q, target, kept, at, Ref(q.user, EventKind, q.ir.event.value.event.id), Ingesting(env, s, x, q, at))
  {
    TargetStands(s, x, q, target);
    AsksIsReplaces(env, s, x, q, target, at);
    ReplacesInTwo(env, s, q, target, kept, at);
    MaterializesExactly(env, s, kept, at);
    var m := Materialized(env, Txn(s, NOTHING), kept, at);
    if m.Some? { EventLinkedNew(env, s, q, target, kept, at, m.value); }
  }

  lemma {:induction false} EventLinkedNew(env: Env, s: Store, q: Request, target: Ref, kept: Ir, at: int, t: Txn)
    requires Deployed(env) && RowsOk(env, s) && Exists(s, target) && !Targeted(s.ledger, target) && target.user == q.user
    requires CorrectsByEvent(q) && KeepsOne(q.ir, kept) && OwnIds(s, kept) && CanRecord(env, s, kept)
    requires Materialized(env, Txn(s, NOTHING), kept, at) == Some(t)
    ensures LinksNew(env, s, q, target, kept, at, Ref(q.user, EventKind, q.ir.event.value.event.id), Replaces(env, s, q, target, at))
  {
    MaterializeRecords(env, Txn(s, NOTHING), kept, at, t);
    EventIsNew(env, s, kept, at, t, q.user);
    EventLinked(t.receipt);
    NewIsLinked(env, s, q, target, kept, at, t, Ref(q.user, EventKind, q.ir.event.value.event.id));
  }

  lemma EventLinked(r: Receipt)
    requires |r.events| == 1
    ensures ReplacementRef(r, RecordEvent) == Some((EventKind, r.events[0]))
  {
  }
}
