/** When an utterance is recorded at all: exactly when every one of its claims can be, given ids of its own. */
module Admission {
  import opened Prelude
  import opened Domain
  import opened Store
  import opened Utterance
  import opened Runs
  import opened RelationClaims
  import opened RelationLifecycle
  import opened Recording
  import R = RelationMetadata

  // ---------------------------------------------------------------- ids of its own

  ghost predicate Distinct<T>(xs: seq<T>, id: T -> Id) {
    forall i, j :: 0 <= i < j < |xs| ==> id(xs[i]) != id(xs[j])
  }

  function FactInputId(): FactInput -> Id { (x: FactInput) => x.id }
  function RelationWriteId(): RelationWrite -> Id { (w: RelationWrite) => w.id }
  function TargetId(): OwnedTarget -> Id { (t: OwnedTarget) => t.id }

  ghost function FactInputs(e: Option<EventInput>): seq<FactInput> {
    if e.Some? then e.value.facts else []
  }

  /** The ids are new and no two are the same, family by family; the program draws them for the purpose. */
  ghost predicate OwnIds(s: Store, ir: Ir) {
    && (ir.event.Some? ==> !HasEvent(s.events, ir.event.value.event.id))
    && (ir.obligation.Some? ==> !HasEvent(s.events, ir.obligation.value.event.id))
    && (ir.event.Some? && ir.obligation.Some? ==> ir.event.value.event.id != ir.obligation.value.event.id)
    && Distinct(FactInputs(ir.event) + FactInputs(ir.obligation), FactInputId())
    && (forall x :: x in FactInputs(ir.event) + FactInputs(ir.obligation) ==> !HasFact(s.facts, x.id))
    && Distinct(Measured(ir), InputId()) && (forall m :: m in Measured(ir) ==> !HasMeasurement(s.measurements, m.id))
    && (ir.state.Some? ==> !HasState(s.states, ir.state.value.id))
    && Distinct(Described(ir), ClaimId()) && (forall x :: x in Described(ir) ==> !HasAttribute(s.attributes, x.id))
    && OwnRelationIds(s.relations, Related(ir), ir.owned)
  }

  ghost predicate OwnRelationIds(rows: seq<Relation>, ws: seq<RelationWrite>, owned: seq<OwnedTarget>) {
    && Distinct(ws, RelationWriteId()) && Distinct(owned, TargetId())
    && (forall w :: w in ws ==> !HasRelation(rows, w.id))
    && (forall t :: t in owned ==> !HasRelation(rows, t.id))
    && (forall w, t :: w in ws && t in owned ==> w.id != t.id)
  }

  // ---------------------------------------------------------------- what can be recorded

  ghost predicate StateCan(env: Env, w: StateWrite) {
    && w.temporal.Some? && w.persistable && w.subject.Some?
    && exists dimension, value :: NamesState(env.catalog, w, dimension, value)
  }

  /** One slot is filled, the one its kind says; a unit goes with a number alone, and a year has four digits. */
  ghost predicate OneSlot(v: Value) {
    match v.kind
    case TextValue =>
      v.text.Some? && v.number.None? && v.unit.None? && v.year.None? && v.date.None? && v.concept.None?
    case NumberValue => v.number.Some? && v.text.None? && v.year.None? && v.date.None? && v.concept.None?
    case YearValue =>
      v.year.Some? && 1000 <= v.year.value <= 9999
      && v.text.None? && v.number.None? && v.unit.None? && v.date.None? && v.concept.None?
    case DateValue =>
      v.date.Some? && v.text.None? && v.number.None? && v.unit.None? && v.year.None? && v.concept.None?
    case ConceptValue =>
      v.concept.Some? && v.text.None? && v.number.None? && v.unit.None? && v.year.None? && v.date.None?
  }

  ghost predicate AttributeCan(x: AttributeWrite) {
    (x.subject.Some? || x.fallback.Some?) && OneSlot(x.value)
  }

  ghost predicate RelationCan(env: Env, w: RelationWrite) {
    && Names(w) && NamesRelation(env.catalog, R.StoredQuery(env.relations, w.key).0)
    && exists t :: TimeTold(w, t)
  }

  /** Each claim can be recorded; beside an event a measurement need not be. */
  ghost predicate CanRecord(env: Env, s: Store, ir: Ir) {
    && (ir.event.Some? ==> ir.event.value.persistable)
    && (ir.event.None? ==> forall m :: m in Measured(ir) ==> Usable(m, false))
    && (ir.state.Some? ==> StateCan(env, ir.state.value))
    && (forall x :: x in Described(ir) && LeavesRow(s.principals, x) ==> AttributeCan(x))
    && (forall w :: w in Related(ir) ==> RelationCan(env, w))
  }

  // ---------------------------------------------------------------- events

  lemma {:induction false} FactsAdmitted(rows: seq<Fact>, user: Id, event: Id, xs: seq<FactInput>, at: int)
    requires Distinct(xs, FactInputId()) && forall x :: x in xs ==> !HasFact(rows, x.id)
    ensures DoFacts(rows, user, Anchor(EventAnchor, event), xs, None, at).Some?
    decreases |xs|
  {
    if xs != [] {
      var f := Fact(xs[0].id, user, Anchor(EventAnchor, event), xs[0].concept, xs[0].value, None, at, None);
      assert xs[0] in xs;
      forall x | x in xs[1..] ensures !HasFact(rows + [f], x.id) {
        var k :| 0 <= k < |xs[1..]| && xs[1..][k] == x;
        assert xs[k + 1] == x && FactInputId()(xs[0]) != FactInputId()(xs[k + 1]);
      }
      forall i, j | 0 <= i < j < |xs[1..]| ensures FactInputId()(xs[1..][i]) != FactInputId()(xs[1..][j]) {
        assert xs[1..][i] == xs[i + 1] && xs[1..][j] == xs[j + 1];
      }
      FactsAdmitted(rows + [f], user, event, xs[1..], at);
    }
  }

  lemma EventAdmitted(env: Env, t: Txn, e: Option<EventInput>, gated: bool, at: int)
    requires e.Some? ==> !HasEvent(t.store.events, e.value.event.id)
    requires Distinct(FactInputs(e), FactInputId()) && forall x :: x in FactInputs(e) ==> !HasFact(t.store.facts, x.id)
    ensures Via(env, Some(t), EventWrites(e, gated), at).Some? <==> (e.Some? && gated ==> e.value.persistable)
  {
    if e.Some? {
      OneWrite(env, t, WriteEvent(e.value.event, e.value.facts), at);
      FactsAdmitted(t.store.facts, e.value.event.user, e.value.event.id, e.value.facts, at);
    } else {
      ViaNone(env, Some(t), at);
    }
  }

  // ---------------------------------------------------------------- measurements

  lemma OneMeasurementAdmitted(env: Env, t: Txn, m: MeasurementInput, withEvent: bool, at: int)
    requires !HasMeasurement(t.store.measurements, m.id)
    ensures Via(env, Some(t), MeasurementWrites(m, withEvent), at).Some? <==> withEvent || Usable(m, false)
  {
    if Usable(m, withEvent) {
      var r := MeasurementWriteIs(m, withEvent);
      OneWrite(env, t, WriteMeasurement(r), at);
    } else if withEvent {
      ViaNone(env, Some(t), at);
    }
  }

  lemma {:induction false} MeasurementsAdmitted(env: Env, t: Txn, ms: seq<MeasurementInput>, withEvent: bool, at: int)
    requires Distinct(ms, InputId()) && forall m :: m in ms ==> !HasMeasurement(t.store.measurements, m.id)
    ensures Via(env, Some(t), AllMeasurements(ms, withEvent), at).Some? <==> withEvent || forall m :: m in ms ==> Usable(m, false)
    decreases |ms|
  {
    if ms == [] {
      NothingMeasured(env, t, withEvent, at);
    } else {
      var m, rest := ms[0], ms[1..];
      assert m in ms;
      ViaJoined(env, Some(t), MeasurementWrites(m, withEvent), AllMeasurements(rest, withEvent), at);
      OneMeasurementAdmitted(env, t, m, withEvent, at);
      var u := Via(env, Some(t), MeasurementWrites(m, withEvent), at);
      if u.Some? {
        OneMeasured(env, t, m, withEvent, at, u.value);
        MeasurementIdsAfter(t, u.value, ms, withEvent);
        MeasurementsAdmitted(env, u.value, rest, withEvent, at);
        assert ms == [m] + rest;
      }
    }
  }

  lemma MeasurementIdsAfter(t: Txn, u: Txn, ms: seq<MeasurementInput>, withEvent: bool)
    requires ms != [] && MeasurementsTold(t, [ms[0]], withEvent, u)
    requires Distinct(ms, InputId()) && forall m :: m in ms ==> !HasMeasurement(t.store.measurements, m.id)
    ensures Distinct(ms[1..], InputId()) && forall m :: m in ms[1..] ==> !HasMeasurement(u.store.measurements, m.id)
  {
    var rest, before, after := ms[1..], t.store.measurements, u.store.measurements;
    FilterAppend(UsableBeside(withEvent), [], ms[0]);
    assert [] + [ms[0]] == [ms[0]];
    forall m | m in rest ensures !HasMeasurement(after, m.id) {
      var k :| 0 <= k < |rest| && rest[k] == m;
      assert ms[k + 1] == m && InputId()(ms[0]) != InputId()(ms[k + 1]);
      forall r | r in after ensures r.id != m.id {
        var i :| 0 <= i < |after| && after[i] == r;
        if i < |before| { assert after[..|before|][i] == before[i] && before[i] in before; }
      }
    }
    forall i, j | 0 <= i < j < |rest| ensures InputId()(rest[i]) != InputId()(rest[j]) {
      assert rest[i] == ms[i + 1] && rest[j] == ms[j + 1];
    }
  }

  // ---------------------------------------------------------------- states

  lemma StateAdmitted(env: Env, t: Txn, x: Option<StateWrite>, at: int)
    requires x.Some? ==> !HasState(t.store.states, x.value.id)
    ensures Via(env, Some(t), Some(StateWrites(x)), at).Some? <==> (x.Some? ==> StateCan(env, x.value))
  {
    if x.Some? {
      var w := x.value;
      OneWrite(env, t, WriteState(w), at);
      if ResolveState(env.catalog, w).Some? {
        var (dimension, value) := ResolveState(env.catalog, w).value;
        assert NamesState(env.catalog, w, dimension, value);
      }
      if dimension, value :| NamesState(env.catalog, w, dimension, value) {
        assert ResolveState(env.catalog, w) == Some((dimension, value));
      }
    } else {
      ViaNone(env, Some(t), at);
    }
  }

  // ---------------------------------------------------------------- attributes

  lemma ValueIsOneSlot(v: Value)
    ensures ValidValue(v) <==> OneSlot(v)
  {
  }

  lemma {:induction false} AttributesAdmitted(env: Env, t: Txn, xs: seq<AttributeWrite>, at: int)
    requires Distinct(xs, ClaimId()) && forall x :: x in xs ==> !HasAttribute(t.store.attributes, x.id)
    ensures DoWrites(env, t, AttributeWrites(xs), at).Some? <==>
      forall x :: x in xs && LeavesRow(t.store.principals, x) ==> AttributeCan(x)
    decreases |xs|
  {
    if xs != [] {
      var x, rest := xs[0], xs[1..];
      assert xs == [x] + rest && x in xs;
      assert AttributeWrites(xs)[1..] == AttributeWrites(rest) && AttributeWrites(xs)[0] == WriteAttribute(x);
      ValueIsOneSlot(x.value);
      var u := DoWrite(env, t, WriteAttribute(x), at);
      assert u.Some? <==> (LeavesRow(t.store.principals, x) ==> AttributeCan(x));
      if u.Some? {
        AttributeIdsAfter(env, t, u.value, xs, at);
        AttributesAdmitted(env, u.value, rest, at);
      }
    }
  }

  lemma AttributeIdsAfter(env: Env, t: Txn, u: Txn, xs: seq<AttributeWrite>, at: int)
    requires xs != [] && DoWrite(env, t, WriteAttribute(xs[0]), at) == Some(u)
    requires Distinct(xs, ClaimId()) && forall x :: x in xs ==> !HasAttribute(t.store.attributes, x.id)
    ensures u.store.principals == t.store.principals
    ensures Distinct(xs[1..], ClaimId()) && forall x :: x in xs[1..] ==> !HasAttribute(u.store.attributes, x.id)
  {
    var rest, before, after := xs[1..], t.store.attributes, u.store.attributes;
    forall x | x in rest ensures !HasAttribute(after, x.id) {
      var k :| 0 <= k < |rest| && rest[k] == x;
      assert xs[k + 1] == x && ClaimId()(xs[0]) != ClaimId()(xs[k + 1]);
      forall r | r in after ensures r.id != x.id {
        var i :| 0 <= i < |after| && after[i] == r;
        if i < |before| { assert before[i] in before && after[i].id == before[i].id; }
      }
    }
    forall i, j | 0 <= i < j < |rest| ensures ClaimId()(rest[i]) != ClaimId()(rest[j]) {
      assert rest[i] == xs[i + 1] && rest[j] == xs[j + 1];
    }
  }

  // ---------------------------------------------------------------- relations

  /** The table has no ids but those it had and this one. */
  ghost predicate OnlyAdds(rows: seq<Relation>, id: Id, after: seq<Relation>) {
    forall r :: r in after ==> r.id == id || HasRelation(rows, r.id)
  }

  lemma RelationAdmitted(env: Env, rows: seq<Relation>, w: RelationWrite, at: int)
    requires CatalogOk(env.catalog) && !HasRelation(rows, w.id)
    ensures DoRelation(env, rows, w, at).Some? <==> RelationCan(env, w)
    ensures DoRelation(env, rows, w, at).Some? ==> OnlyAdds(rows, w.id, DoRelation(env, rows, w, at).value.rows)
  {
    if RelationTime(w).Some? { TimeIsTold(w, RelationTime(w).value); }
    if t :| TimeTold(w, t) { TimeIsTold(w, t); }
    if DoRelation(env, rows, w, at).Some? {
      WriteShape(env, rows, w, at);
      var after := DoRelation(env, rows, w, at).value.rows;
      forall r | r in after ensures r.id == w.id || HasRelation(rows, r.id) {
        var i :| 0 <= i < |after| && after[i] == r;
        if i < |rows| { assert rows[i] in rows; }
      }
    }
  }

  lemma OwnIdsAfter(rows: seq<Relation>, ws: seq<RelationWrite>, owned: seq<OwnedTarget>, after: seq<Relation>)
    requires ws != [] && OwnRelationIds(rows, ws, owned) && OnlyAdds(rows, ws[0].id, after)
    ensures OwnRelationIds(after, ws[1..], owned)
  {
    var rest := ws[1..];
    assert ws[0] in ws;
    forall w | w in rest ensures w in ws && !HasRelation(after, w.id) {
      var k :| 0 <= k < |rest| && rest[k] == w;
      assert ws[k + 1] == w && RelationWriteId()(ws[0]) != RelationWriteId()(ws[k + 1]);
    }
    forall i, j | 0 <= i < j < |rest| ensures RelationWriteId()(rest[i]) != RelationWriteId()(rest[j]) {
      assert rest[i] == ws[i + 1] && rest[j] == ws[j + 1];
    }
  }

  lemma {:induction false} RelationsAdmitted(env: Env, t: Txn, ws: seq<RelationWrite>, owned: seq<OwnedTarget>, at: int)
    requires CatalogOk(env.catalog) && OwnRelationIds(t.store.relations, ws, owned)
    ensures var v := DoWrites(env, t, RelationWrites(ws), at);
      && (v.Some? <==> forall w :: w in ws ==> RelationCan(env, w))
      && (v.Some? ==> OwnRelationIds(v.value.store.relations, [], owned))
    decreases |ws|
  {
    if ws != [] {
      var w, rest := ws[0], ws[1..];
      assert ws == [w] + rest && w in ws;
      assert RelationWrites(ws)[1..] == RelationWrites(rest) && RelationWrites(ws)[0] == WriteRelation(w);
      RelationAdmitted(env, t.store.relations, w, at);
      var u := DoWrite(env, t, WriteRelation(w), at);
      if u.Some? {
        OwnIdsAfter(t.store.relations, ws, owned, u.value.store.relations);
        RelationsAdmitted(env, u.value, rest, owned, at);
      }
    }
  }

  lemma {:induction false} OwnershipAdmitted(
    rows: seq<Relation>, user: Id, principal: Id, targets: seq<OwnedTarget>, seen: set<Id>, at: int)
    requires Distinct(targets, TargetId()) && forall t :: t in targets ==> !HasRelation(rows, t.id)
    ensures DoOwnership(rows, user, principal, targets, seen, at).Some?
    decreases |targets|
  {
    if targets != [] {
      var t, rest := targets[0], targets[1..];
      assert t in targets && forall x :: x in rest ==> x in targets;
      forall i, j | 0 <= i < j < |rest| ensures TargetId()(rest[i]) != TargetId()(rest[j]) {
        assert rest[i] == targets[i + 1] && rest[j] == targets[j + 1];
      }
      OwnershipAdmitted(rows, user, principal, rest, seen, at);
      if t.object_.Some? {
        var more := seen + {t.object_.value};
        OwnershipAdmitted(rows, user, principal, rest, more, at);
        var row := Relation(t.id, user, principal, t.object_.value, OWNS_ID, OWNS_KEY, NO_TIME, at, true, None);
        forall x | x in rest ensures !HasRelation(rows + [row], x.id) {
          var k :| 0 <= k < |rest| && rest[k] == x;
          assert targets[k + 1] == x && TargetId()(targets[0]) != TargetId()(targets[k + 1]);
        }
        OwnershipAdmitted(rows + [row], user, principal, rest, more, at);
      }
    }
  }

  lemma PossessionsAdmitted(env: Env, t: Txn, ir: Ir, at: int)
    requires OwnRelationIds(t.store.relations, [], ir.owned)
    ensures Via(env, Some(t), Some(OwnershipWrites(ir)), at).Some?
  {
    if OwnershipWrites(ir) == [] {
      ViaNone(env, Some(t), at);
    } else {
      OneWrite(env, t, WriteOwnership(ir.user, ir.owned), at);
      if ir.user in t.store.principals {
        OwnershipAdmitted(t.store.relations, ir.user, t.store.principals[ir.user], ir.owned, {}, at);
      }
    }
  }

  // ---------------------------------------------------------------- the whole utterance

  /** Nothing but events, facts and measurements differs. */
  ghost predicate EarlyOnly(t: Txn, o: Txn) {
    o.store == t.store.(events := o.store.events, facts := o.store.facts, measurements := o.store.measurements)
  }

  /** What was recorded of the event leaves the obligation's ids free. */
  lemma {:induction false} ObligationFree(s: Store, ir: Ir, facts: seq<Fact>, at: int)
    requires OwnIds(s, ir) && FactsOf(ir.event, s.facts, at, facts)
    ensures Distinct(FactInputs(ir.event), FactInputId()) && Distinct(FactInputs(ir.obligation), FactInputId())
    ensures forall x :: x in FactInputs(ir.obligation) ==> !HasFact(facts, x.id)
  {
    var a, b := FactInputs(ir.event), FactInputs(ir.obligation);
    forall i, j | 0 <= i < j < |a| ensures FactInputId()(a[i]) != FactInputId()(a[j]) {
      assert (a + b)[i] == a[i] && (a + b)[j] == a[j];
    }
    forall i, j | 0 <= i < j < |b| ensures FactInputId()(b[i]) != FactInputId()(b[j]) {
      assert (a + b)[|a| + i] == b[i] && (a + b)[|a| + j] == b[j];
    }
    forall x | x in b ensures !HasFact(facts, x.id) {
      var j :| 0 <= j < |b| && b[j] == x;
      assert (a + b)[|a| + j] == x && x in a + b;
      forall f | f in facts ensures f.id != x.id {
        var i :| 0 <= i < |facts| && facts[i] == f;
        if i < |s.facts| {
          assert facts[..|s.facts|][i] == s.facts[i] && s.facts[i] in s.facts;
        } else {
          var k := i - |s.facts|;
          assert FactTold(a[k], ir.event.value.event.user, ir.event.value.event.id, at, facts[|s.facts| + k]);
          assert (a + b)[k] == a[k] && FactInputId()((a + b)[k]) != FactInputId()((a + b)[|a| + j]);
        }
      }
    }
  }

  lemma EarlyAdmitted(env: Env, t: Txn, ir: Ir, at: int) returns (o: Option<Txn>)
    requires Deployed(env) && RowsOk(env, t.store) && OwnIds(t.store, ir)
    ensures o == Via(env, Via(env, Via(env, Some(t), EventWrites(ir.event, true), at),
      AllMeasurements(Measured(ir), ir.event.Some?), at), EventWrites(ir.obligation, false), at)
    ensures o.Some? <==>
      && (ir.event.Some? ==> ir.event.value.persistable)
      && (ir.event.None? ==> forall m :: m in Measured(ir) ==> Usable(m, false))
    ensures o.Some? ==> EarlyOnly(t, o.value) && RowsOk(env, o.value.store)
  {
    var e := Via(env, Some(t), EventWrites(ir.event, true), at);
    var m := Via(env, e, AllMeasurements(Measured(ir), ir.event.Some?), at);
    o := Via(env, m, EventWrites(ir.obligation, false), at);
    EventFactsFree(t.store, ir);
    EventAdmitted(env, t, ir.event, true, at);
    if e.Some? {
      EventStored(env, t, ir.event, true, at);
      ViaKeeps(env, t, EventWrites(ir.event, true), at);
      MeasurementsAdmitted(env, e.value, Measured(ir), ir.event.Some?, at);
    }
    if m.Some? {
      MeasurementsStored(env, e.value, Measured(ir), ir.event.Some?, at, m.value);
      ViaKeeps(env, e.value, AllMeasurements(Measured(ir), ir.event.Some?), at);
      ObligationFree(t.store, ir, m.value.store.facts, at);
      EventAdmitted(env, m.value, ir.obligation, false, at);
      EventStored(env, m.value, ir.obligation, false, at);
      ViaKeeps(env, m.value, EventWrites(ir.obligation, false), at);
    }
  }

  lemma EventFactsFree(s: Store, ir: Ir)
    requires OwnIds(s, ir)
    ensures Distinct(FactInputs(ir.event), FactInputId())
    ensures forall x :: x in FactInputs(ir.event) ==> !HasFact(s.facts, x.id)
  {
    var a, b := FactInputs(ir.event), FactInputs(ir.obligation);
    forall i, j | 0 <= i < j < |a| ensures FactInputId()(a[i]) != FactInputId()(a[j]) {
      assert (a + b)[i] == a[i] && (a + b)[j] == a[j];
    }
    forall x | x in a ensures x in a + b {}
  }

  lemma LaterAdmitted(env: Env, t: Txn, ir: Ir, at: int)
    requires Deployed(env) && RowsOk(env, t.store)
    requires ir.state.Some? ==> !HasState(t.store.states, ir.state.value.id)
    requires Distinct(Described(ir), ClaimId()) && forall x :: x in Described(ir) ==> !HasAttribute(t.store.attributes, x.id)
    requires OwnRelationIds(t.store.relations, Related(ir), ir.owned)
    ensures LaterInParts(env, Some(t), ir, at).Some? <==>
      && (ir.state.Some? ==> StateCan(env, ir.state.value))
      && (forall x :: x in Described(ir) && LeavesRow(t.store.principals, x) ==> AttributeCan(x))
      && (forall w :: w in Related(ir) ==> RelationCan(env, w))
  {
    assert AttributesOf(ir) == Described(ir) && RelationsOf(ir) == Related(ir);
    var s := Via(env, Some(t), Some(StateWrites(ir.state)), at);
    var a := Via(env, s, Some(AttributeWrites(Described(ir))), at);
    var r := Via(env, a, Some(RelationWrites(Related(ir))), at);
    StateAdmitted(env, t, ir.state, at);
    if s.Some? {
      StateStored(env, t, ir.state, at);
      AttributesAdmitted(env, s.value, Described(ir), at);
    }
    if a.Some? {
      AttributesStored(env, s.value, Described(ir), at);
      RelationsAdmitted(env, a.value, Related(ir), ir.owned, at);
    }
    if r.Some? { PossessionsAdmitted(env, r.value, ir, at); }
  }

  /** With ids of its own, an utterance is materialized exactly when each of its claims can be recorded. */
  lemma {:induction false} MaterializesExactly(env: Env, s: Store, ir: Ir, at: int)
    requires Deployed(env) && RowsOk(env, s) && OwnIds(s, ir)
    ensures Materialized(env, Txn(s, NOTHING), ir, at).Some? <==> CanRecord(env, s, ir)
  {
    MaterializedInParts(env, Txn(s, NOTHING), ir, at);
    assert OneOrNone(ir.measurement) + ir.moreMeasurements == Measured(ir);
    var o := EarlyAdmitted(env, Txn(s, NOTHING), ir, at);
    if o.Some? { LaterAdmitted(env, o.value, ir, at); }
  }
}
