/**
 * What the correction ledger keeps over every run: it only grows, each assertion is corrected at most once,
 * its references resolve, and it counts exactly the assertions that stopped being effective.
 */
module LedgerLifecycle {
  import opened Prelude
  import opened Domain
  import opened Store
  import L = Lineage
  import opened RelationLifecycle

  ghost predicate LedgerOk(s: Store) {
    && (forall i, j :: 0 <= i < j < |s.ledger| ==>
          s.ledger[i].target != s.ledger[j].target && s.ledger[i].id != s.ledger[j].id)
    && (forall c :: c in s.ledger ==>
          && WellFormedCorrection(c) && Exists(s, c.target)
          && (c.replacement.Some? ==> Exists(s, c.replacement.value)))
  }

  /** Nothing recorded is lost, and the ledger of `s` is the beginning of the ledger of `t`. */
  ghost predicate Grows(s: Store, t: Store) {
    && s.ledger <= t.ledger
    && forall ref :: Exists(s, ref) ==> Exists(t, ref)
  }

  // ---------------------------------------------------------------- what a reference and a correction are

  /** Row `i` of the kind's table has the id and belongs to the user. */
  ghost predicate RowOf(s: Store, ref: Ref, i: int) {
    match ref.kind
    case EventKind => 0 <= i < |s.events| && s.events[i].id == ref.assertionId && s.events[i].user == ref.user
    case MeasurementKind =>
      0 <= i < |s.measurements| && s.measurements[i].id == ref.assertionId && s.measurements[i].user == ref.user
    case RelationKind => 0 <= i < |s.relations| && s.relations[i].id == ref.assertionId && s.relations[i].user == ref.user
    case StateKind => 0 <= i < |s.states| && s.states[i].id == ref.assertionId && s.states[i].user == ref.user
    case AttributeKind => 0 <= i < |s.attributes| && s.attributes[i].id == ref.assertionId && s.attributes[i].user == ref.user
  }

  /** A reference resolves exactly when its own user has a row of its kind under its id. */
  lemma ExistsExactly(s: Store, ref: Ref)
    ensures Exists(s, ref) <==> exists i :: RowOf(s, ref, i)
  {
    if Exists(s, ref) {
      match ref.kind
      case EventKind =>
        var r :| r in s.events && r.id == ref.assertionId && r.user == ref.user;
        var i :| 0 <= i < |s.events| && s.events[i] == r;
        assert RowOf(s, ref, i);
      case MeasurementKind =>
        var r :| r in s.measurements && r.id == ref.assertionId && r.user == ref.user;
        var i :| 0 <= i < |s.measurements| && s.measurements[i] == r;
        assert RowOf(s, ref, i);
      case RelationKind =>
        var r :| r in s.relations && r.id == ref.assertionId && r.user == ref.user;
        var i :| 0 <= i < |s.relations| && s.relations[i] == r;
        assert RowOf(s, ref, i);
      case StateKind =>
        var r :| r in s.states && r.id == ref.assertionId && r.user == ref.user;
        var i :| 0 <= i < |s.states| && s.states[i] == r;
        assert RowOf(s, ref, i);
      case AttributeKind =>
        var r :| r in s.attributes && r.id == ref.assertionId && r.user == ref.user;
        var i :| 0 <= i < |s.attributes| && s.attributes[i] == r;
        assert RowOf(s, ref, i);
    }
  }

  /** Some user's row stands behind the reference. */
  ghost predicate Stands(s: Store, ref: Ref) {
    exists i :: RowOf(s, ref, i)
  }

  /** What is wrong with a correction, the first of these that applies; none when nothing is. */
  ghost function Objection(s: Store, c: Correction, provenance: bool): Option<CorrectionError> {
    if !Stands(s, c.target) || (c.operation == Replace && c.replacement.Some? && !Stands(s, c.replacement.value))
    then Some(ReferenceNotFound)
    else if c.replacement == Some(c.target) then Some(SelfReplacement)
    else if exists d :: d in s.ledger && d.target == c.target then Some(TargetAlreadyCorrected)
    else if !provenance then Some(ProvenanceInvalid)
    else if exists d :: d in s.ledger && d.id == c.id then Some(DuplicateId)
    else None
  }

  /** A correction to which nothing objects is appended to the ledger and touches nothing else. */
  lemma CorrectionExactly(s: Store, c: Correction, provenance: bool)
    ensures DoCorrection(s, c, provenance) ==
      match Objection(s, c, provenance)
      case Some(e) => Err(e)
      case None => Ok(Store(s.states, s.attributes, s.relations, s.measurements, s.events, s.facts, s.ledger + [c], s.principals))
  {
    ExistsExactly(s, c.target);
    if c.replacement.Some? { ExistsExactly(s, c.replacement.value); }
  }

  /** The last id reported of the kind. */
  ghost predicate LastReported(r: Receipt, kind: Kind, link: Option<(Kind, Id)>) {
    var ids := match kind
      case EventKind => r.events
      case MeasurementKind => r.measurements
      case RelationKind => r.relations
      case StateKind => r.states
      case AttributeKind => r.attributes;
    ids != [] && link == Some((kind, ids[|ids| - 1]))
  }

  /**
   * Linked is the last row of the intended kind, or else, of attributes, measurements, states, relations and events,
   * the last row of the first kind that has any.
   */
  lemma LinkedExactly(r: Receipt, intent: Intent)
    ensures var link := ReplacementRef(r, intent);
      var kind := match intent
        case RecordAttribute => AttributeKind
        case RecordMeasurement => MeasurementKind
        case RecordEvent => EventKind
        case RecordState => StateKind
        case RecordRelation => RelationKind;
      || LastReported(r, kind, link)
      || (&& !Reports(r, kind)
          && (|| LastReported(r, AttributeKind, link)
              || (r.attributes == [] && LastReported(r, MeasurementKind, link))
              || (r.attributes == [] && r.measurements == [] && LastReported(r, StateKind, link))
              || (r.attributes == [] && r.measurements == [] && r.states == [] && LastReported(r, RelationKind, link))
              || (r.attributes == [] && r.measurements == [] && r.states == [] && r.relations == []
                  && LastReported(r, EventKind, link))
              || (r == NOTHING && link.None?)))
  {
  }

  ghost predicate Reports(r: Receipt, kind: Kind) {
    match kind
    case EventKind => r.events != []
    case MeasurementKind => r.measurements != []
    case RelationKind => r.relations != []
    case StateKind => r.states != []
    case AttributeKind => r.attributes != []
  }

  // ---------------------------------------------------------------- writes

  lemma StatesGrow(env: Env, s: Store, w: StateWrite, at: int)
    requires DoState(env, s.states, w, at).Some?
    ensures Grows(s, s.(states := DoState(env, s.states, w, at).value))
  {
    var t := s.(states := DoState(env, s.states, w, at).value);
    forall r | r in s.states ensures exists q :: q in t.states && q.id == r.id && q.user == r.user {
      var i :| 0 <= i < |s.states| && s.states[i] == r;
      assert t.states[i] in t.states;
    }
  }

  lemma AttributesGrow(env: Env, s: Store, w: AttributeWrite, at: int)
    requires DoAttribute(env, s.attributes, w, at).Some?
    ensures Grows(s, s.(attributes := DoAttribute(env, s.attributes, w, at).value))
  {
    var t := s.(attributes := DoAttribute(env, s.attributes, w, at).value);
    forall r | r in s.attributes ensures exists q :: q in t.attributes && q.id == r.id && q.user == r.user {
      var i :| 0 <= i < |s.attributes| && s.attributes[i] == r;
      assert t.attributes[i] in t.attributes;
    }
  }

  lemma RelationsGrow(s: Store, after: seq<Relation>)
    requires RowsStay(s.relations, after)
    ensures Grows(s, s.(relations := after))
  {
    forall r | r in s.relations ensures exists q :: q in after && q.id == r.id && q.user == r.user {
      var i :| 0 <= i < |s.relations| && s.relations[i] == r;
      assert after[i] in after;
      assert LinkOf(after[i]) == LinkOf(s.relations[i]);
    }
  }

  lemma {:induction false} OwnershipStays(
    rows: seq<Relation>, user: Id, principal: Id, targets: seq<OwnedTarget>, seen: set<Id>, at: int)
    requires DoOwnership(rows, user, principal, targets, seen, at).Some?
    ensures RowsStay(rows, DoOwnership(rows, user, principal, targets, seen, at).value.rows)
    decreases |targets|
  {
    if targets != [] {
      var t, rest := targets[0], targets[1..];
      if t.object_.None? || t.object_.value in seen || t.object_.value == principal || !t.known || !t.eligible {
        OwnershipStays(rows, user, principal, rest, seen, at);
      } else if FindInstance(rows, OwnsLink(user, principal, t.object_.value), true).Some? {
        OwnershipStays(rows, user, principal, rest, seen + {t.object_.value}, at);
      } else {
        var row := Relation(t.id, user, principal, t.object_.value, OWNS_ID, OWNS_KEY, NO_TIME, at, true, None);
        OwnershipStays(rows + [row], user, principal, rest, seen + {t.object_.value}, at);
      }
    }
  }

  predicate Reported(r: Receipt, kind: Kind, id: Id) {
    match kind
    case EventKind => id in r.events
    case MeasurementKind => id in r.measurements
    case StateKind => id in r.states
    case AttributeKind => id in r.attributes
    case RelationKind => id in r.relations
  }

  /** Every reported id except a relation's names a row that was not there in `s`. */
  ghost predicate ReportsNewRows(s: Store, r: Receipt) {
    forall ref: Ref :: ref.kind != RelationKind && Reported(r, ref.kind, ref.assertionId) ==> !Exists(s, ref)
  }

  lemma {:induction false} WriteGrows(env: Env, t: Txn, w: Write, at: int)
    requires DoWrite(env, t, w, at).Some?
    ensures var u := DoWrite(env, t, w, at).value;
      u.store.ledger == t.store.ledger && Grows(t.store, u.store)
  {
    var u := DoWrite(env, t, w, at).value;
    if w.WriteState? {
      StatesGrow(env, t.store, w.state, at);
    } else if w.WriteAttribute? {
      if !IntrinsicName(t.store.principals, w.attribute) { AttributesGrow(env, t.store, w.attribute, at); }
    } else if w.WriteRelation? {
      RelationsGrow(t.store, u.store.relations);
    } else if w.WriteOwnership? {
      if w.user in t.store.principals {
        OwnershipStays(t.store.relations, w.user, t.store.principals[w.user], w.targets, {}, at);
        RelationsGrow(t.store, u.store.relations);
      }
    }
  }

  /** A write adds to the report only ids that were free. */
  lemma {:induction false} WriteReportsNew(env: Env, t: Txn, w: Write, at: int, ref: Ref)
    requires DoWrite(env, t, w, at).Some? && ref.kind != RelationKind
    requires Reported(DoWrite(env, t, w, at).value.receipt, ref.kind, ref.assertionId)
    ensures Reported(t.receipt, ref.kind, ref.assertionId) || !Exists(t.store, ref)
  {
  }

  lemma {:induction false} DoWriteGrows(env: Env, s: Store, t: Txn, w: Write, at: int)
    requires DoWrite(env, t, w, at).Some?
    requires Grows(s, t.store) && ReportsNewRows(s, t.receipt)
    ensures var u := DoWrite(env, t, w, at).value;
      u.store.ledger == t.store.ledger && Grows(s, u.store) && ReportsNewRows(s, u.receipt)
  {
    var u := DoWrite(env, t, w, at).value;
    WriteGrows(env, t, w, at);
    forall ref: Ref | ref.kind != RelationKind && Reported(u.receipt, ref.kind, ref.assertionId)
      ensures !Exists(s, ref)
    {
      WriteReportsNew(env, t, w, at, ref);
    }
  }

  lemma {:induction false} DoWritesGrow(env: Env, s: Store, t: Txn, ws: seq<Write>, at: int)
    requires DoWrites(env, t, ws, at).Some?
    requires Grows(s, t.store) && ReportsNewRows(s, t.receipt)
    ensures var u := DoWrites(env, t, ws, at).value;
      u.store.ledger == t.store.ledger && Grows(s, u.store) && ReportsNewRows(s, u.receipt)
    decreases |ws|
  {
    if ws != [] {
      DoWriteGrows(env, s, t, ws[0], at);
      DoWritesGrow(env, s, DoWrite(env, t, ws[0], at).value, ws[1..], at);
    }
  }

  lemma WritesKeepLedger(s: Store, t: Store)
    requires LedgerOk(s) && Grows(s, t) && t.ledger == s.ledger
    ensures LedgerOk(t)
  {
  }

  // ---------------------------------------------------------------- corrections

  /** An accepted correction appends one row whose target was effective; nothing else of the store changes. */
  lemma DoCorrectionKeeps(s: Store, c: Correction, provenance: bool)
    requires LedgerOk(s) && DoCorrection(s, c, provenance).Ok?
    requires c.target.user == c.user && (c.operation == Retract ==> c.replacement == None)
    requires c.operation == Replace ==> c.replacement.Some? && c.replacement.value.user == c.user
    ensures LedgerOk(DoCorrection(s, c, provenance).value)
  {
    var t := DoCorrection(s, c, provenance).value;
    forall i | 0 <= i < |s.ledger| ensures s.ledger[i].target != c.target && s.ledger[i].id != c.id {
      assert s.ledger[i] in s.ledger;
    }
  }

  /** `t` keeps everything of `s` and has the same ledger, or one more correction of an assertion that was effective. */
  ghost predicate OneMoreAtMost(s: Store, t: Store) {
    && Grows(s, t)
    && (t.ledger == s.ledger
        || (|t.ledger| == |s.ledger| + 1 && t.ledger == s.ledger + [t.ledger[|s.ledger|]]
            && !Targeted(s.ledger, t.ledger[|s.ledger|].target)))
  }

  lemma CorrectionAddsOne(s: Store, t: Store, c: Correction, provenance: bool)
    requires Grows(s, t) && t.ledger == s.ledger && DoCorrection(t, c, provenance).Ok?
    ensures OneMoreAtMost(s, DoCorrection(t, c, provenance).value)
  {
    var u := DoCorrection(t, c, provenance).value;
    assert u.ledger[|s.ledger|] == c;
    assert forall ref :: Exists(u, ref) <==> Exists(t, ref);
  }

  lemma {:induction false} ReplacingAddsOne(env: Env, s: Store, q: Replacing, at: int)
    requires DoReplacing(env, s, q, at).Some?
    ensures OneMoreAtMost(s, DoReplacing(env, s, q, at).value)
  {
    DoWritesGrow(env, s, Txn(s, NOTHING), q.writes, at);
    var t := DoWrites(env, Txn(s, NOTHING), q.writes, at).value;
    var new_ := ReplacementRef(t.receipt, q.intent).value;
    CorrectionAddsOne(s, t.store, ReplaceRow(q.correctionId, q.user, q.kind, q.target, new_.0, new_.1), q.provenance);
  }

  /** What a step does to the ledger: nothing, or one more correction of an assertion that was effective. */
  lemma {:induction false} ApplyLedger(env: Env, s: Store, step: Step, at: int)
    ensures OneMoreAtMost(s, Apply(env, s, step, at))
  {
    match step
    case Ingest(writes) =>
      if DoWrites(env, Txn(s, NOTHING), writes, at).Some? { DoWritesGrow(env, s, Txn(s, NOTHING), writes, at); }
    case RetractAssertion(id, user, kind, target, provenance) =>
      var c := RetractRow(id, user, kind, target);
      if DoCorrection(s, c, provenance).Ok? { CorrectionAddsOne(s, s, c, provenance); }
    case ReplaceAssertion(id, user, kind, target, newKind, newId, provenance) =>
      var c := ReplaceRow(id, user, kind, target, newKind, newId);
      if DoCorrection(s, c, provenance).Ok? { CorrectionAddsOne(s, s, c, provenance); }
    case IngestReplacement(q) =>
      if DoReplacing(env, s, q, at).Some? { ReplacingAddsOne(env, s, q, at); }
    case _ =>
  }

  lemma {:induction false} ApplyKeepsLedger(env: Env, s: Store, step: Step, at: int)
    requires LedgerOk(s)
    ensures LedgerOk(Apply(env, s, step, at))
  {
    ApplyLedger(env, s, step, at);
    if step.RetractAssertion? {
      var c := RetractRow(step.correctionId, step.user, step.kind, step.target);
      if DoCorrection(s, c, step.provenance).Ok? { DoCorrectionKeeps(s, c, step.provenance); }
    } else if step.ReplaceAssertion? {
      var c := ReplaceRow(step.correctionId, step.user, step.kind, step.target, step.newKind, step.newId);
      if DoCorrection(s, c, step.provenance).Ok? { DoCorrectionKeeps(s, c, step.provenance); }
    } else if step.IngestReplacement? {
      if DoReplacing(env, s, step.replacing, at).Some? { ReplacingKeepsLedger(env, s, step.replacing, at); }
    } else {
      if step.Ingest? && DoWrites(env, Txn(s, NOTHING), step.writes, at).Some? {
        DoWritesGrow(env, s, Txn(s, NOTHING), step.writes, at);
      }
      WritesKeepLedger(s, Apply(env, s, step, at));
    }
  }

  lemma {:induction false} ReplacingKeepsLedger(env: Env, s: Store, q: Replacing, at: int)
    requires LedgerOk(s) && DoReplacing(env, s, q, at).Some?
    ensures LedgerOk(DoReplacing(env, s, q, at).value)
  {
    var t := DoWrites(env, Txn(s, NOTHING), q.writes, at).value;
    DoWritesGrow(env, s, Txn(s, NOTHING), q.writes, at);
    WritesKeepLedger(s, t.store);
    var new_ := ReplacementRef(t.receipt, q.intent).value;
    var c := ReplaceRow(q.correctionId, q.user, q.kind, q.target, new_.0, new_.1);
    DoCorrectionKeeps(t.store, c, q.provenance);
  }

  lemma {:induction false} RunKeepsLedger(env: Env, run: seq<Timed>)
    ensures LedgerOk(Run(env, run))
  {
    if run != [] {
      RunKeepsLedger(env, run[..|run| - 1]);
      ApplyKeepsLedger(env, Run(env, run[..|run| - 1]), run[|run| - 1].step, run[|run| - 1].at);
    }
  }

  /** What was recorded stays recorded, and what became ineffective never becomes effective again. */
  lemma {:induction false} IneffectiveForever(env: Env, run: seq<Timed>, n: nat, ref: Ref)
    requires n <= |run|
    ensures Grows(Run(env, run[..n]), Run(env, run))
    ensures Targeted(Run(env, run[..n]).ledger, ref) ==> Targeted(Run(env, run).ledger, ref)
  {
    if n == |run| {
      assert run[..n] == run;
    } else {
      var front := run[..|run| - 1];
      assert front[..n] == run[..n];
      IneffectiveForever(env, front, n, ref);
      ApplyLedger(env, Run(env, front), run[|run| - 1].step, run[|run| - 1].at);
    }
  }

  // ---------------------------------------------------------------- counting

  /** Every assertion of a user, by typed identity. */
  function Assertions(s: Store, user: Id): set<Ref> {
    (set r | r in s.events && r.user == user :: Ref(user, EventKind, r.id))
    + (set r | r in s.measurements && r.user == user :: Ref(user, MeasurementKind, r.id))
    + (set r | r in s.relations && r.user == user :: Ref(user, RelationKind, r.id))
    + (set r | r in s.states && r.user == user :: Ref(user, StateKind, r.id))
    + (set r | r in s.attributes && r.user == user :: Ref(user, AttributeKind, r.id))
  }

  ghost function EffectiveAssertions(s: Store, user: Id): set<Ref> {
    set ref | ref in Assertions(s, user) && !Targeted(s.ledger, ref)
  }

  function OfUser(user: Id): Correction -> bool {
    (c: Correction) => c.user == user
  }

  lemma AssertionsExist(s: Store, user: Id, ref: Ref)
    ensures ref in Assertions(s, user) <==> ref.user == user && Exists(s, ref)
  {
  }

  /** The assertions a user's corrections target. */
  function TargetsOf(ledger: seq<Correction>, user: Id): set<Ref> {
    if ledger == [] then {}
    else
      TargetsOf(ledger[..|ledger| - 1], user)
      + (if ledger[|ledger| - 1].user == user then {ledger[|ledger| - 1].target} else {})
  }

  lemma {:induction false} TargetsOfMember(ledger: seq<Correction>, user: Id, ref: Ref)
    ensures ref in TargetsOf(ledger, user) <==> exists c :: c in ledger && c.user == user && c.target == ref
  {
    if ledger != [] {
      var front, last := ledger[..|ledger| - 1], ledger[|ledger| - 1];
      TargetsOfMember(front, user, ref);
      assert ledger == front + [last];
      if last.user == user && last.target == ref { assert last in ledger; }
      if ref in TargetsOf(front, user) {
        var c :| c in front && c.user == user && c.target == ref;
        assert c in ledger;
      }
    }
  }

  lemma {:induction false} TargetsCounted(ledger: seq<Correction>, user: Id)
    requires forall i, j :: 0 <= i < j < |ledger| ==> ledger[i].target != ledger[j].target
    ensures |TargetsOf(ledger, user)| == |Filter(OfUser(user), ledger)|
  {
    if ledger != [] {
      var front, last := ledger[..|ledger| - 1], ledger[|ledger| - 1];
      TargetsCounted(front, user);
      TargetsOfMember(front, user, last.target);
    }
  }

  /** A user's effective assertions are as many as the assertions recorded less the corrections recorded. */
  lemma {:induction false} EffectiveCount(env: Env, run: seq<Timed>, user: Id)
    ensures var s := Run(env, run);
      |EffectiveAssertions(s, user)| == |Assertions(s, user)| - |Filter(OfUser(user), s.ledger)|
  {
    var s := Run(env, run);
    RunKeepsLedger(env, run);
    var targets := TargetsOf(s.ledger, user);
    TargetsCounted(s.ledger, user);
    forall ref ensures ref in targets <==> ref in Assertions(s, user) && Targeted(s.ledger, ref) {
      AssertionsExist(s, user, ref);
      TargetsOfMember(s.ledger, user, ref);
    }
    assert EffectiveAssertions(s, user) == Assertions(s, user) - targets;
  }

  // ---------------------------------------------------------------- replacement chains over runs

  /** The step corrects an assertion by one whose own chain of replacements already ends there. */
  ghost predicate ClosesLoop(env: Env, s: Store, step: Step, at: int) {
    var after := Apply(env, s, step, at).ledger;
    && |after| == |s.ledger| + 1
    && var c := after[|s.ledger|]; c.replacement.Some? && !L.LeadsElsewhere(s.ledger, c.replacement.value, c.target)
  }

  ghost predicate NoLoops(env: Env, run: seq<Timed>) {
    run == [] || (var front, last := run[..|run| - 1], run[|run| - 1];
      NoLoops(env, front) && !ClosesLoop(env, Run(env, front), last.step, last.at))
  }

  /** Every replacement chain of a reachable ledger ends exactly when no step of the run closed a loop. */
  lemma {:induction false} ChainsEndOverRuns(env: Env, run: seq<Timed>)
    ensures L.ChainsEnd(Run(env, run).ledger) <==> NoLoops(env, run)
  {
    if run == [] {
      forall ref ensures L.Finite([], ref) { assert L.Ends([], ref, 0); }
    } else {
      var front, last := run[..|run| - 1], run[|run| - 1];
      ChainsEndOverRuns(env, front);
      var before, after := Run(env, front).ledger, Run(env, run).ledger;
      ApplyLedger(env, Run(env, front), last.step, last.at);
      if after != before {
        var c := after[|before|];
        if L.ChainsEnd(before) {
          L.ChainsEndExactly(before, c);
        } else {
          var ref :| !L.Finite(before, ref);
          L.EndlessForever(before, c, ref);
        }
      }
    }
  }

  /** The assertion a step records as a replacement was not in the store before the step. */
  ghost predicate ReplacesByNew(env: Env, s: Store, step: Step, at: int) {
    var after := Apply(env, s, step, at).ledger;
    |after| == |s.ledger| + 1 && after[|s.ledger|].replacement.Some? ==> !Exists(s, after[|s.ledger|].replacement.value)
  }

  /** The step recorded a replacement as its last ledger row. */
  ghost predicate Replaced(env: Env, s: Store, step: Step, at: int) {
    var after := Apply(env, s, step, at).ledger;
    |after| == |s.ledger| + 1 && after[|s.ledger|].replacement.Some?
  }

  /** The assertion the step recorded as a replacement. */
  ghost function Replacement(env: Env, s: Store, step: Step, at: int): Ref
    requires Replaced(env, s, step, at)
  {
    Apply(env, s, step, at).ledger[|s.ledger|].replacement.value
  }

  /**
   * Whatever step replaces an assertion, the replacement counts afterwards exactly when no earlier correction had
   * targeted it: replacing by an assertion that stopped counting does not bring that one back.
   */
  lemma {:induction false} ReplacementCountsExactly(env: Env, s: Store, step: Step, at: int)
    requires LedgerOk(s) && Replaced(env, s, step, at)
    ensures var t, new_ := Apply(env, s, step, at), Replacement(env, s, step, at);
      && Exists(t, new_)
      && (!Targeted(t.ledger, new_) <==> !Targeted(s.ledger, new_))
      && Targeted(t.ledger, t.ledger[|s.ledger|].target)
  {
    ApplyLedger(env, s, step, at);
    ApplyKeepsLedger(env, s, step, at);
    var t := Apply(env, s, step, at);
    var c := t.ledger[|s.ledger|];
    assert c in t.ledger && WellFormedCorrection(c);
    assert forall d :: d in t.ledger <==> d in s.ledger || d == c;
  }

  /** A new assertion that replaces another counts from then on. */
  lemma {:induction false} NewReplacementCounts(env: Env, s: Store, step: Step, at: int)
    requires LedgerOk(s) && Replaced(env, s, step, at) && ReplacesByNew(env, s, step, at)
    ensures var t, new_ := Apply(env, s, step, at), Replacement(env, s, step, at);
      && Exists(t, new_) && !Targeted(t.ledger, new_)
      && Targeted(t.ledger, t.ledger[|s.ledger|].target)
  {
    ReplacementCountsExactly(env, s, step, at);
  }

  /** Ingested replacements by an event, measurement, state or attribute are always new assertions. */
  lemma {:induction false} IngestedReplacementIsNew(env: Env, s: Store, q: Replacing, at: int)
    requires DoReplacing(env, s, q, at).Some?
    requires ReplacementRef(DoWrites(env, Txn(s, NOTHING), q.writes, at).value.receipt, q.intent).value.0 != RelationKind
    ensures ReplacesByNew(env, s, IngestReplacement(q), at)
  {
    DoWritesGrow(env, s, Txn(s, NOTHING), q.writes, at);
  }

  /** What a single relation write reports: the row it goes over, or else the row it adds. */
  lemma {:induction false} RelationReports(env: Env, s: Store, w: RelationWrite, at: int)
    requires DoRelation(env, s.relations, w, at).Some?
    ensures var o := DoRelation(env, s.relations, w, at).value;
      var link := LinkFor(env, w.user, w.key, w.subject.value, w.object_.value).value;
      match Rewritten(s.relations, link, w.mode, RelationTime(w).value)
      case Some(i) => o.reported == [s.relations[i].id] && Exists(s, Ref(w.user, RelationKind, s.relations[i].id))
      case None =>
        if w.mode == Assert || w.mode == Historical then
          o.reported == [w.id] && !Exists(s, Ref(w.user, RelationKind, w.id))
        else o.reported == []
  {
    var link := LinkFor(env, w.user, w.key, w.subject.value, w.object_.value).value;
    WriteShape(env, s.relations, w, at);
    var found := Rewritten(s.relations, link, w.mode, RelationTime(w).value);
    if found.Some? { assert s.relations[found.value] in s.relations; }
  }

  /** A replacement by a relation write alone is new exactly when the write does not go over a stored row. */
  lemma {:induction false} RelationReplacementIsNewExactly(env: Env, s: Store, q: Replacing, w: RelationWrite, at: int)
    requires q.writes == [WriteRelation(w)] && q.intent == RecordRelation && w.user == q.user
    requires DoReplacing(env, s, q, at).Some?
    ensures ReplacesByNew(env, s, IngestReplacement(q), at) <==>
      var link := LinkFor(env, w.user, w.key, w.subject.value, w.object_.value).value;
      Rewritten(s.relations, link, w.mode, RelationTime(w).value).None?
  {
    RelationReplacement(env, s, q, w, at);
    RelationReports(env, s, w, at);
  }

  /**
   * A replacement by a relation write alone counts afterwards exactly when the row the write goes over, if it goes
   * over one, was not corrected before. For a current assertion that row is the current one of its link.
   */
  lemma {:induction false} RelationReplacementCountsExactly(env: Env, s: Store, q: Replacing, w: RelationWrite, at: int)
    requires LedgerOk(s)
    requires q.writes == [WriteRelation(w)] && q.intent == RecordRelation && w.user == q.user
    requires DoReplacing(env, s, q, at).Some?
    ensures Replaced(env, s, IngestReplacement(q), at)
    ensures var link := LinkFor(env, w.user, w.key, w.subject.value, w.object_.value).value;
      var found := Rewritten(s.relations, link, w.mode, RelationTime(w).value);
      !Targeted(Apply(env, s, IngestReplacement(q), at).ledger, Replacement(env, s, IngestReplacement(q), at)) <==>
        (found.Some? ==> !Targeted(s.ledger, Ref(w.user, RelationKind, s.relations[found.value].id)))
  {
    RelationReplacement(env, s, q, w, at);
    RelationReports(env, s, w, at);
    ReplacementCountsExactly(env, s, IngestReplacement(q), at);
  }

  /** The ledger row a replacement by one relation write appends. */
  lemma {:induction false} RelationReplacement(env: Env, s: Store, q: Replacing, w: RelationWrite, at: int)
    requires q.writes == [WriteRelation(w)] && q.intent == RecordRelation && w.user == q.user
    requires DoReplacing(env, s, q, at).Some?
    ensures DoRelation(env, s.relations, w, at).Some? && DoRelation(env, s.relations, w, at).value.reported != []
    ensures var reported := DoRelation(env, s.relations, w, at).value.reported;
      Apply(env, s, IngestReplacement(q), at).ledger == s.ledger +
        [ReplaceRow(q.correctionId, q.user, q.kind, q.target, RelationKind, reported[|reported| - 1])]
  {
    var t := Txn(s, NOTHING);
    assert q.writes[1..] == [];
    var u := DoWrite(env, t, q.writes[0], at).value;
    assert DoWrites(env, t, q.writes, at) == Some(u);
    OneRelationWritten(env, s, w, at);
  }

  lemma OneRelationWritten(env: Env, s: Store, w: RelationWrite, at: int)
    requires DoWrite(env, Txn(s, NOTHING), WriteRelation(w), at).Some?
    ensures DoRelation(env, s.relations, w, at).Some?
    ensures var u := DoWrite(env, Txn(s, NOTHING), WriteRelation(w), at).value;
      var o := DoRelation(env, s.relations, w, at).value;
      u.store == s.(relations := o.rows)
      && ReplacementRef(u.receipt, RecordRelation) == LastOf(RelationKind, o.reported)
  {
    var o := DoRelation(env, s.relations, w, at).value;
    assert [] + o.reported == o.reported;
  }

  ghost predicate AllReplaceByNew(env: Env, run: seq<Timed>) {
    run == [] || (var front, last := run[..|run| - 1], run[|run| - 1];
      AllReplaceByNew(env, front) && ReplacesByNew(env, Run(env, front), last.step, last.at))
  }

  /** When every replacement is a new assertion, chains are finite and never share an assertion. */
  lemma {:induction false} NewReplacementsKeepChains(env: Env, run: seq<Timed>)
    requires AllReplaceByNew(env, run)
    ensures L.ChainsEnd(Run(env, run).ledger) && L.SingleUse(Run(env, run).ledger)
  {
    if run == [] {
      forall ref ensures L.Finite([], ref) { assert L.Ends([], ref, 0); }
    } else {
      var front, last := run[..|run| - 1], run[|run| - 1];
      NewReplacementsKeepChains(env, front);
      RunKeepsLedger(env, front);
      RunKeepsLedger(env, run);
      var before, after := Run(env, front).ledger, Run(env, run).ledger;
      ApplyLedger(env, Run(env, front), last.step, last.at);
      if after != before {
        var c := after[|before|];
        assert c in after && WellFormedCorrection(c);
        L.FreshReplacementKeeps(before, c);
      }
    }
  }

  /** In such runs every assertion's chain leads to one end: effective, or retracted and not replaced. */
  lemma {:induction false} ChainsLeadToOneEnd(env: Env, run: seq<Timed>, ref: Ref) returns (n: nat)
    requires AllReplaceByNew(env, run)
    ensures var ledger := Run(env, run).ledger;
      && L.Ends(ledger, ref, n)
      && (forall m: nat :: L.Ends(ledger, ref, m) ==> L.End(ledger, ref, m) == L.End(ledger, ref, n))
      && L.Linked(ledger, L.Chain(ledger, ref, n))
      && (!Targeted(ledger, L.End(ledger, ref, n))
          || exists c :: c in ledger && c.target == L.End(ledger, ref, n) && c.operation == Retract)
  {
    var ledger := Run(env, run).ledger;
    NewReplacementsKeepChains(env, run);
    RunKeepsLedger(env, run);
    assert L.Finite(ledger, ref);
    n :| L.Ends(ledger, ref, n);
    forall m: nat | L.Ends(ledger, ref, m) ensures L.End(ledger, ref, m) == L.End(ledger, ref, n) {
      L.EndIsUnique(ledger, ref, m, n);
    }
    L.ChainAnatomy(ledger, ref, n);
  }
}
