/** What a materialized utterance leaves behind: every claim under its own fields, and nothing else. */
module Recording {
  import opened Prelude
  import opened Domain
  import opened Store
  import opened Utterance
  import opened Runs
  import opened StateLifecycle
  import opened AttributeLifecycle
  import opened RelationClaims
  import opened RelationLifecycle
  import V = Versions

  /** `after` is `before` with `n` more at the end. */
  ghost predicate Grown<T>(before: seq<T>, after: seq<T>, n: nat) {
    |after| == |before| + n && after[..|before|] == before
  }

  /** The ids of what was told are listed in order after those before. */
  ghost predicate Lists<T>(before: seq<Id>, told: seq<T>, id: T -> Id, after: seq<Id>) {
    && Grown(before, after, |told|)
    && forall k :: 0 <= k < |told| ==> after[|before| + k] == id(told[k])
  }

  lemma GrownTwice<T>(before: seq<T>, mid: seq<T>, after: seq<T>, m: nat, n: nat)
    requires Grown(before, mid, m) && Grown(mid, after, n)
    ensures Grown(before, after, m + n)
    ensures forall i :: 0 <= i < |mid| ==> after[i] == mid[i]
  {
    assert after[..|before|] == after[..|mid|][..|before|];
    forall i | 0 <= i < |mid| ensures after[i] == mid[i] { assert after[i] == after[..|mid|][i]; }
  }

  lemma ListsJoin<T>(before: seq<Id>, mid: seq<Id>, after: seq<Id>, a: seq<T>, b: seq<T>, id: T -> Id)
    requires Lists(before, a, id, mid) && Lists(mid, b, id, after)
    ensures Lists(before, a + b, id, after)
  {
    GrownTwice(before, mid, after, |a|, |b|);
    forall k | 0 <= k < |a + b| ensures after[|before| + k] == id((a + b)[k]) {
      if k >= |a| { assert after[|mid| + (k - |a|)] == id(b[k - |a|]); }
    }
  }

  // ---------------------------------------------------------------- events

  ghost predicate FactTold(x: FactInput, user: Id, event: Id, at: int, f: Fact) {
    && f.id == x.id && f.user == user && f.about == Anchor(EventAnchor, event)
    && f.concept == x.concept && f.value == x.value
    && f.createdAt == at && f.supersedes.None? && f.supersededAt.None?
  }

  ghost predicate FactsTold(before: seq<Fact>, xs: seq<FactInput>, user: Id, event: Id, at: int, after: seq<Fact>) {
    && Grown(before, after, |xs|)
    && forall i :: 0 <= i < |xs| ==> FactTold(xs[i], user, event, at, after[|before| + i])
  }

  /** The event is stored after those before it, with each of its facts, and its id is reported. */
  ghost predicate EventTold(t: Txn, e: Option<EventInput>, at: int, u: Txn) {
    match e
    case None => u == t
    case Some(x) =>
      && u.store.events == t.store.events + [x.event]
      && u.receipt == t.receipt.(events := t.receipt.events + [x.event.id])
      && FactsTold(t.store.facts, x.facts, x.event.user, x.event.id, at, u.store.facts)
      && u.store == t.store.(events := u.store.events, facts := u.store.facts)
  }

  lemma {:induction false} FactsStored(rows: seq<Fact>, user: Id, event: Id, xs: seq<FactInput>, at: int)
    requires DoFacts(rows, user, Anchor(EventAnchor, event), xs, None, at).Some?
    ensures FactsTold(rows, xs, user, event, at, DoFacts(rows, user, Anchor(EventAnchor, event), xs, None, at).value)
    decreases |xs|
  {
    if xs != [] {
      var f := Fact(xs[0].id, user, Anchor(EventAnchor, event), xs[0].concept, xs[0].value, None, at, None);
      FactsStored(rows + [f], user, event, xs[1..], at);
      var after := DoFacts(rows, user, Anchor(EventAnchor, event), xs, None, at).value;
      assert after[..|rows|] == after[..|rows| + 1][..|rows|];
      assert after[|rows|] == after[..|rows| + 1][|rows|];
      forall i | 0 <= i < |xs| ensures FactTold(xs[i], user, event, at, after[|rows| + i]) {
        if i > 0 { assert xs[i] == xs[1..][i - 1]; }
      }
    }
  }

  lemma ViaNone(env: Env, t: Option<Txn>, at: int)
    ensures Via(env, t, Some([]), at) == t
  {
  }

  lemma EventStored(env: Env, t: Txn, e: Option<EventInput>, gated: bool, at: int)
    requires Via(env, Some(t), EventWrites(e, gated), at).Some?
    ensures EventTold(t, e, at, Via(env, Some(t), EventWrites(e, gated), at).value)
    ensures e.Some? && gated ==> e.value.persistable
  {
    if e.Some? {
      var x := e.value;
      OneWrite(env, t, WriteEvent(x.event, x.facts), at);
      FactsStored(t.store.facts, x.event.user, x.event.id, x.facts, at);
    } else {
      ViaNone(env, Some(t), at);
    }
  }

  // ---------------------------------------------------------------- measurements

  /** It says of what and how much; a context given but not found is let pass only beside an event. */
  predicate Usable(m: MeasurementInput, withEvent: bool) {
    m.subject.Some? && m.number.Some? && (m.contextGiven && m.context.None? ==> withEvent)
  }

  function UsableBeside(withEvent: bool): MeasurementInput -> bool {
    (m: MeasurementInput) => Usable(m, withEvent)
  }

  /** The row has every field of the claim; it is observed at its instant only when that is exact. */
  ghost predicate MeasuredAs(m: MeasurementInput, r: Measurement) {
    && r.id == m.id && r.user == m.user && m.subject == Some(r.entity) && r.context == m.context
    && r.dimension == m.dimension && m.number == Some(r.number) && r.unit == m.unit && r.currency == m.currency
    && r.temporal == m.temporal && r.observedAt == (if m.temporal.exact.Some? then m.temporal.instant else None)
  }

  function InputId(): MeasurementInput -> Id {
    (m: MeasurementInput) => m.id
  }

  ghost predicate RowsMeasured(before: seq<Measurement>, told: seq<MeasurementInput>, after: seq<Measurement>) {
    && Grown(before, after, |told|)
    && forall i :: 0 <= i < |told| ==> MeasuredAs(told[i], after[|before| + i])
  }

  /** The usable claims are stored and reported in order; without an event every claim is usable. */
  ghost predicate MeasurementsTold(t: Txn, ms: seq<MeasurementInput>, withEvent: bool, u: Txn) {
    var told := Filter(UsableBeside(withEvent), ms);
    && (!withEvent ==> told == ms)
    && RowsMeasured(t.store.measurements, told, u.store.measurements)
    && Lists(t.receipt.measurements, told, InputId(), u.receipt.measurements)
    && u.store == t.store.(measurements := u.store.measurements)
    && u.receipt == t.receipt.(measurements := u.receipt.measurements)
  }

  lemma NoneMeasured(t: Txn, withEvent: bool)
    ensures MeasurementsTold(t, [], withEvent, t)
  {
  }

  /** A usable claim is one row with its fields; any other writes nothing, beside an event. */
  lemma MeasurementWriteIs(m: MeasurementInput, withEvent: bool) returns (r: Measurement)
    requires Usable(m, withEvent)
    ensures MeasurementWrites(m, withEvent) == Some([WriteMeasurement(r)]) && MeasuredAs(m, r)
  {
    r := MeasurementWrites(m, withEvent).value[0].measurement;
  }

  lemma RowAppended(t: Txn, m: MeasurementInput, withEvent: bool, r: Measurement)
    requires Usable(m, withEvent) && MeasuredAs(m, r)
    ensures MeasurementsTold(t, [m], withEvent,
      Txn(t.store.(measurements := t.store.measurements + [r]), t.receipt.(measurements := t.receipt.measurements + [r.id])))
  {
    FilterAppend(UsableBeside(withEvent), [], m);
    assert [] + [m] == [m];
  }

  lemma OneMeasured(env: Env, t: Txn, m: MeasurementInput, withEvent: bool, at: int, u: Txn)
    requires Via(env, Some(t), MeasurementWrites(m, withEvent), at) == Some(u)
    ensures MeasurementsTold(t, [m], withEvent, u)
  {
    if Usable(m, withEvent) {
      var r := MeasurementWriteIs(m, withEvent);
      OneWrite(env, t, WriteMeasurement(r), at);
      RowAppended(t, m, withEvent, r);
    } else {
      ViaNone(env, Some(t), at);
      FilterAppend(UsableBeside(withEvent), [], m);
      NoneMeasured(t, withEvent);
      assert Filter(UsableBeside(withEvent), [m]) == [] by { assert [] + [m] == [m]; }
    }
  }

  lemma RowsMeasuredJoin(
    before: seq<Measurement>, mid: seq<Measurement>, after: seq<Measurement>, a: seq<MeasurementInput>, b: seq<MeasurementInput>)
    requires RowsMeasured(before, a, mid) && RowsMeasured(mid, b, after)
    ensures RowsMeasured(before, a + b, after)
  {
    GrownTwice(before, mid, after, |a|, |b|);
    forall i | 0 <= i < |a + b| ensures MeasuredAs((a + b)[i], after[|before| + i]) {
      if i >= |a| { assert MeasuredAs(b[i - |a|], after[|mid| + (i - |a|)]); }
    }
  }

  lemma {:induction false} MeasuredJoin(
    t: Txn, u: Txn, v: Txn, m: MeasurementInput, rest: seq<MeasurementInput>, all: seq<MeasurementInput>, withEvent: bool)
    requires MeasurementsTold(t, [m], withEvent, u) && MeasurementsTold(u, rest, withEvent, v)
    requires all == [m] + rest
    ensures MeasurementsTold(t, all, withEvent, v)
  {
    var a, b := Filter(UsableBeside(withEvent), [m]), Filter(UsableBeside(withEvent), rest);
    FilterConcat(UsableBeside(withEvent), [m], rest);
    RowsMeasuredJoin(t.store.measurements, u.store.measurements, v.store.measurements, a, b);
    ListsJoin(t.receipt.measurements, u.receipt.measurements, v.receipt.measurements, a, b, InputId());
  }

  /** The first measurement, then the others. */
  lemma FirstMeasured(env: Env, t: Txn, ms: seq<MeasurementInput>, withEvent: bool, at: int) returns (u: Txn, v: Txn)
    requires ms != [] && Via(env, Some(t), AllMeasurements(ms, withEvent), at).Some?
    ensures Via(env, Some(t), MeasurementWrites(ms[0], withEvent), at) == Some(u)
    ensures Via(env, Some(u), AllMeasurements(ms[1..], withEvent), at) == Some(v)
    ensures Via(env, Some(t), AllMeasurements(ms, withEvent), at) == Some(v)
  {
    var first, rest := MeasurementWrites(ms[0], withEvent), AllMeasurements(ms[1..], withEvent);
    ViaJoined(env, Some(t), first, rest, at);
    u := Via(env, Some(t), first, at).value;
    v := Via(env, Some(u), rest, at).value;
  }

  lemma NothingMeasured(env: Env, t: Txn, withEvent: bool, at: int)
    ensures AllMeasurements([], withEvent) == Some([]) && Via(env, Some(t), AllMeasurements([], withEvent), at) == Some(t)
  {
    ViaNone(env, Some(t), at);
  }

  lemma {:induction false} MeasurementsStored(env: Env, t: Txn, ms: seq<MeasurementInput>, withEvent: bool, at: int, v: Txn)
    requires Via(env, Some(t), AllMeasurements(ms, withEvent), at) == Some(v)
    ensures MeasurementsTold(t, ms, withEvent, v)
    decreases |ms|
  {
    if |ms| == 0 {
      assert ms == [];
      NothingMeasured(env, t, withEvent, at);
      NoneMeasured(t, withEvent);
    } else {
      var u, w := FirstMeasured(env, t, ms, withEvent, at);
      assert w == v;
      MeasurementsStored(env, u, ms[1..], withEvent, at, v);
      FirstThenRest(env, t, ms, withEvent, at, u, v);
    }
  }

  lemma {:induction false} FirstThenRest(
    env: Env, t: Txn, ms: seq<MeasurementInput>, withEvent: bool, at: int, u: Txn, v: Txn)
    requires ms != [] && Via(env, Some(t), MeasurementWrites(ms[0], withEvent), at) == Some(u)
    requires MeasurementsTold(u, ms[1..], withEvent, v)
    ensures MeasurementsTold(t, ms, withEvent, v)
  {
    OneMeasured(env, t, ms[0], withEvent, at, u);
    MeasuredJoin(t, u, v, ms[0], ms[1..], ms, withEvent);
  }

  // ---------------------------------------------------------------- states

  /** The value is one of the dimension's, and the dimension is the one given, or else the value's own. */
  ghost predicate NamesState(c: Catalog, w: StateWrite, dimension: Concept, value: Concept) {
    && w.valueKey in c.byKey && value == c.byKey[w.valueKey] && value.kind == StateValue
    && dimension.kind == StateDimension && value.parent == Some(dimension.id)
    && (w.dimensionKey.Some? ==> w.dimensionKey.value in c.byKey && dimension == c.byKey[w.dimensionKey.value])
    && (w.dimensionKey.None? ==> value.parent.Some? && value.parent.value in c.byId && dimension == c.byId[value.parent.value])
  }

  ghost predicate StateRowTold(w: StateWrite, dimension: Concept, value: Concept, at: int, r: State) {
    && r.id == w.id && r.user == w.user && w.subject == Some(r.entity)
    && r.dimensionId == dimension.id && r.dimensionKey == dimension.key && r.valueId == value.id && r.valueKey == value.key
    && w.temporal == Some(r.temporal) && r.observedAt == at && r.validTo.None? && r.isCurrent
  }

  /** The row is what held of the subject in the dimension. */
  ghost predicate HeldBefore(w: StateWrite, dimension: Concept, r: State) {
    r.isCurrent && r.user == w.user && w.subject == Some(r.entity) && r.dimensionKey == dimension.key
  }

  /** What held is closed and named as the predecessor; every other row stays; the told state comes after them. */
  ghost predicate StateStoredAs(before: seq<State>, w: StateWrite, dimension: Concept, value: Concept, at: int, after: seq<State>) {
    && |after| == |before| + 1 && StateRowTold(w, dimension, value, at, after[|before|])
    && (forall i :: 0 <= i < |before| ==>
          after[i] == if HeldBefore(w, dimension, before[i]) then before[i].(validTo := Some(at), isCurrent := false) else before[i])
    && (forall i :: 0 <= i < |before| && HeldBefore(w, dimension, before[i]) ==> after[|before|].supersedes == Some(before[i].id))
    && ((forall i :: 0 <= i < |before| ==> !HeldBefore(w, dimension, before[i])) ==> after[|before|].supersedes.None?)
  }

  ghost predicate StateTold(env: Env, t: Txn, x: Option<StateWrite>, at: int, u: Txn) {
    match x
    case None => u == t
    case Some(w) =>
      && w.persistable
      && (exists dimension, value ::
            NamesState(env.catalog, w, dimension, value) && StateStoredAs(t.store.states, w, dimension, value, at, u.store.states))
      && u.receipt == t.receipt.(states := t.receipt.states + [w.id])
      && u.store == t.store.(states := u.store.states)
  }

  lemma {:induction false} LastLiveExactly<T>(live: T -> bool, view: T -> V.Version, rows: seq<T>)
    ensures V.LastLive(live, view, rows).None? <==> forall i :: 0 <= i < |rows| ==> !live(rows[i])
    ensures V.LastLive(live, view, rows).Some? ==>
      exists i :: 0 <= i < |rows| && live(rows[i]) && V.LastLive(live, view, rows) == Some(view(rows[i]).id)
  {
    if rows != [] && !live(rows[|rows| - 1]) { LastLiveExactly(live, view, rows[..|rows| - 1]); }
  }

  /** Of one key at most one row is current. */
  lemma {:induction false} OneHeld(c: Catalog, rows: seq<State>, key: Key, i: int, j: int)
    requires StatesOk(c, rows) && 0 <= i < |rows| && 0 <= j < |rows|
    requires LiveState(key)(rows[i]) && LiveState(key)(rows[j])
    ensures rows[i].id == rows[j].id
  {
    SupersessionWalk(c, rows, key, |StateTrail(rows, key)|);
    FilterMember(LiveState(key), rows, rows[i]);
    FilterMember(LiveState(key), rows, rows[j]);
  }

  lemma {:induction false} StatePut(env: Env, rows: seq<State>, w: StateWrite, at: int)
    requires StatesOk(env.catalog, rows) && DoState(env, rows, w, at).Some?
    ensures w.persistable
    ensures exists dimension, value ::
      NamesState(env.catalog, w, dimension, value) && StateStoredAs(rows, w, dimension, value, at, DoState(env, rows, w, at).value)
  {
    var (dimension, value) := ResolveState(env.catalog, w).value;
    var key := Key(w.user, w.subject.value, dimension.key);
    var after := DoState(env, rows, w, at).value;
    LastLiveExactly(LiveState(key), StateVersion(), rows);
    forall i | 0 <= i < |rows| ensures LiveState(key)(rows[i]) <==> HeldBefore(w, dimension, rows[i]) {}
    forall i | 0 <= i < |rows| && HeldBefore(w, dimension, rows[i])
      ensures after[|rows|].supersedes == Some(rows[i].id)
    {
      var j :| 0 <= j < |rows| && LiveState(key)(rows[j]) && V.LastLive(LiveState(key), StateVersion(), rows) == Some(StateVersion()(rows[j]).id);
      OneHeld(env.catalog, rows, key, i, j);
    }
    assert NamesState(env.catalog, w, dimension, value);
    assert StateStoredAs(rows, w, dimension, value, at, after);
  }

  lemma StateStored(env: Env, t: Txn, x: Option<StateWrite>, at: int)
    requires RowsOk(env, t.store) && Via(env, Some(t), Some(StateWrites(x)), at).Some?
    ensures StateTold(env, t, x, at, Via(env, Some(t), Some(StateWrites(x)), at).value)
  {
    if x.Some? {
      OneWrite(env, t, WriteState(x.value), at);
      StatePut(env, t.store.states, x.value, at);
    } else {
      ViaNone(env, Some(t), at);
    }
  }

  // ---------------------------------------------------------------- attributes

  /** A name said of somebody else than the principal is kept on the entity and leaves no attribute. */
  predicate LeavesRow(principals: map<Id, Id>, x: AttributeWrite) {
    || x.dimension != "name" || x.isSelf || x.user !in principals || x.subject.None?
    || x.subject.value == principals[x.user]
  }

  function LeavingRow(principals: map<Id, Id>): AttributeWrite -> bool {
    (x: AttributeWrite) => LeavesRow(principals, x)
  }

  ghost predicate AttributeRowTold(x: AttributeWrite, at: int, r: Attribute) {
    && r.id == x.id && r.user == x.user && Some(r.entity) == (if x.subject.Some? then x.subject else x.fallback)
    && r.dimension == x.dimension && r.value == x.value && r.temporal == x.temporal
    && r.observedAt == at && r.validTo.None? && r.isCurrent == x.isCurrent
  }

  /** A current claim about the row's entity in its dimension, which holds one value at a time. */
  ghost predicate Overtakes(env: Env, x: AttributeWrite, r: Attribute) {
    && x.isCurrent && x.dimension in env.singleton
    && r.user == x.user && Some(r.entity) == (if x.subject.Some? then x.subject else x.fallback) && r.dimension == x.dimension
  }

  /** A current row overtaken by a later claim is closed, and any other is as it was. */
  ghost predicate LeftAs(env: Env, told: seq<AttributeWrite>, from: nat, was: Attribute, at: int, r: Attribute) {
    if was.isCurrent && exists j :: from <= j < |told| && Overtakes(env, told[j], was)
    then r == was.(validTo := Some(at), isCurrent := false)
    else r == was
  }

  /** Of the claims that leave a row, each is stored in order; rows before and among them are closed as overtaken. */
  ghost predicate AttributesStoredAs(env: Env, before: seq<Attribute>, told: seq<AttributeWrite>, at: int, after: seq<Attribute>) {
    && |after| == |before| + |told|
    && (forall i :: 0 <= i < |before| ==> LeftAs(env, told, 0, before[i], at, after[i]))
    && (forall k :: 0 <= k < |told| ==> ToldAs(env, told, k, at, |before|, after))
  }

  /** Claim `k` stands `n` rows further on, as it was told or closed by a later claim. */
  ghost predicate ToldAs(env: Env, told: seq<AttributeWrite>, k: nat, at: int, n: nat, after: seq<Attribute>)
    requires k < |told| && n + k < |after|
  {
    exists was :: AttributeRowTold(told[k], at, was) && LeftAs(env, told, k + 1, was, at, after[n + k])
  }

  function ClaimId(): AttributeWrite -> Id {
    (x: AttributeWrite) => x.id
  }

  ghost predicate AttributesTold(env: Env, t: Txn, xs: seq<AttributeWrite>, at: int, u: Txn) {
    var told := Filter(LeavingRow(t.store.principals), xs);
    && AttributesStoredAs(env, t.store.attributes, told, at, u.store.attributes)
    && Lists(t.receipt.attributes, told, ClaimId(), u.receipt.attributes)
    && u.store == t.store.(attributes := u.store.attributes)
    && u.receipt == t.receipt.(attributes := u.receipt.attributes)
  }

  lemma AttributePut(env: Env, rows: seq<Attribute>, x: AttributeWrite, at: int)
    requires DoAttribute(env, rows, x, at).Some?
    ensures AttributesStoredAs(env, rows, [x], at, DoAttribute(env, rows, x, at).value)
  {
    var after := DoAttribute(env, rows, x, at).value;
    var entity := AttributeSubject(x).value;
    var key := Key(x.user, entity, x.dimension);
    forall i | 0 <= i < |rows| ensures LeftAs(env, [x], 0, rows[i], at, after[i]) {
      if Overtakes(env, x, rows[i]) { assert Overtakes(env, [x][0], rows[i]); }
    }
    assert AttributeRowTold([x][0], at, after[|rows|]);
    assert LeftAs(env, [x], 1, after[|rows|], at, after[|rows|]);
    assert ToldAs(env, [x], 0, at, |rows|, after);
  }

  /** Left as it is by the first claim and then by the others is left as it is by all of them. */
  lemma LeftJoins(env: Env, x: AttributeWrite, rest: seq<AttributeWrite>, was: Attribute, at: int, mid: Attribute, r: Attribute)
    requires LeftAs(env, [x], 0, was, at, mid) && LeftAs(env, rest, 0, mid, at, r)
    ensures LeftAs(env, [x] + rest, 0, was, at, r)
  {
    var all := [x] + rest;
    assert all[0] == x && forall j :: 0 <= j < |rest| ==> all[j + 1] == rest[j];
    if j :| 0 <= j < |rest| && Overtakes(env, rest[j], was) { assert Overtakes(env, all[j + 1], was); }
    if Overtakes(env, x, was) { assert Overtakes(env, [x][0], was) && Overtakes(env, all[0], was); }
    if j :| 0 <= j < |all| && Overtakes(env, all[j], was) {
      if j == 0 { assert Overtakes(env, [x][0], was); } else { assert Overtakes(env, rest[j - 1], was); }
    }
  }

  lemma LeftLater(env: Env, x: AttributeWrite, rest: seq<AttributeWrite>, from: nat, was: Attribute, at: int, r: Attribute)
    requires LeftAs(env, rest, from, was, at, r)
    ensures LeftAs(env, [x] + rest, from + 1, was, at, r)
  {
    var all := [x] + rest;
    if j :| from <= j < |rest| && Overtakes(env, rest[j], was) { assert Overtakes(env, all[j + 1], was); }
    if j :| from + 1 <= j < |all| && Overtakes(env, all[j], was) { assert Overtakes(env, rest[j - 1], was); }
  }

  lemma AttributesJoin(
    env: Env, before: seq<Attribute>, mid: seq<Attribute>, after: seq<Attribute>, x: AttributeWrite, rest: seq<AttributeWrite>, at: int)
    requires AttributesStoredAs(env, before, [x], at, mid) && AttributesStoredAs(env, mid, rest, at, after)
    ensures AttributesStoredAs(env, before, [x] + rest, at, after)
  {
    var all := [x] + rest;
    forall i | 0 <= i < |before| ensures LeftAs(env, all, 0, before[i], at, after[i]) {
      LeftJoins(env, x, rest, before[i], at, mid[i], after[i]);
    }
    forall k | 0 <= k < |all| ensures ToldAs(env, all, k, at, |before|, after) {
      if k == 0 {
        assert ToldAs(env, [x], 0, at, |before|, mid);
        var was :| AttributeRowTold([x][0], at, was) && LeftAs(env, [x], 1, was, at, mid[|before|]);
        assert LeftAs(env, rest, 0, mid[|before|], at, after[|before|]);
        LeftLater(env, x, rest, 0, was, at, after[|before|]);
        assert all[0] == x && AttributeRowTold(all[0], at, was);
      } else {
        assert ToldAs(env, rest, k - 1, at, |mid|, after);
        var was :| AttributeRowTold(rest[k - 1], at, was) && LeftAs(env, rest, k, was, at, after[|mid| + (k - 1)]);
        LeftLater(env, x, rest, k, was, at, after[|before| + k]);
        assert all[k] == rest[k - 1] && AttributeRowTold(all[k], at, was);
      }
    }
  }

  lemma {:induction false} AttributesStored(env: Env, t: Txn, xs: seq<AttributeWrite>, at: int)
    requires DoWrites(env, t, AttributeWrites(xs), at).Some?
    ensures AttributesTold(env, t, xs, at, DoWrites(env, t, AttributeWrites(xs), at).value)
    decreases |xs|
  {
    if xs != [] {
      var x, rest := xs[0], xs[1..];
      assert AttributeWrites(xs)[1..] == AttributeWrites(rest);
      assert AttributeWrites(xs)[0] == WriteAttribute(x);
      var u := DoWrite(env, t, WriteAttribute(x), at).value;
      AttributesStored(env, u, rest, at);
      OneAttribute(env, t, x, at);
      AttributesToldJoin(env, t, u, DoWrites(env, u, AttributeWrites(rest), at).value, x, rest, at);
      assert [x] + rest == xs;
    }
  }

  lemma LeftAlone(env: Env, rows: seq<Attribute>, at: int)
    ensures AttributesStoredAs(env, rows, [], at, rows)
  {
  }

  lemma OneAttribute(env: Env, t: Txn, x: AttributeWrite, at: int)
    requires DoWrite(env, t, WriteAttribute(x), at).Some?
    ensures AttributesTold(env, t, [x], at, DoWrite(env, t, WriteAttribute(x), at).value)
  {
    var u := DoWrite(env, t, WriteAttribute(x), at).value;
    var told := Filter(LeavingRow(t.store.principals), [x]);
    FilterAppend(LeavingRow(t.store.principals), [], x);
    assert [] + [x] == [x];
    if LeavesRow(t.store.principals, x) {
      assert told == [x] && u.receipt.attributes == t.receipt.attributes + [x.id];
      AttributePut(env, t.store.attributes, x, at);
    } else {
      assert told == [] && u == t;
      LeftAlone(env, t.store.attributes, at);
    }
  }

  lemma {:induction false} AttributesToldJoin(
    env: Env, t: Txn, u: Txn, v: Txn, x: AttributeWrite, rest: seq<AttributeWrite>, at: int)
    requires AttributesTold(env, t, [x], at, u) && AttributesTold(env, u, rest, at, v)
    ensures AttributesTold(env, t, [x] + rest, at, v)
  {
    var leaving := LeavingRow(t.store.principals);
    FilterConcat(leaving, [x], rest);
    FilterAppend(leaving, [], x);
    assert [] + [x] == [x];
    var a, b := Filter(leaving, [x]), Filter(leaving, rest);
    ListsJoin(t.receipt.attributes, u.receipt.attributes, v.receipt.attributes, a, b, ClaimId());
    if LeavesRow(t.store.principals, x) {
      AttributesJoin(env, t.store.attributes, u.store.attributes, v.store.attributes, x, b, at);
    } else {
      assert [] + b == b;
      NoneStored(env, t.store.attributes, u.store.attributes, at);
    }
  }

  lemma NoneStored(env: Env, before: seq<Attribute>, after: seq<Attribute>, at: int)
    requires AttributesStoredAs(env, before, [], at, after)
    ensures after == before
  {
    forall i | 0 <= i < |before| ensures after[i] == before[i] { assert LeftAs(env, [], 0, before[i], at, after[i]); }
  }

  // ---------------------------------------------------------------- relations and ownership

  /** The transaction goes on from `t` to `v` by relation rows and the reported ids alone. */
  ghost predicate RelatesOn(t: Txn, reported: seq<Id>, v: Txn) {
    && v.store == t.store.(relations := v.store.relations)
    && v.receipt == t.receipt.(relations := t.receipt.relations + reported)
  }

  lemma RelatesFurther(t: Txn, first: seq<Id>, u: Txn, others: seq<Id>, v: Txn)
    requires RelatesOn(t, first, u) && RelatesOn(u, others, v)
    ensures RelatesOn(t, first + others, v)
  {
    assert t.receipt.relations + first + others == t.receipt.relations + (first + others);
  }

  lemma OneRelated(env: Env, t: Txn, w: RelationWrite, at: int, u: Txn) returns (first: seq<Id>)
    requires CatalogOk(env.catalog) && RelationsOk(env, t.store.relations)
    requires DoWrite(env, t, WriteRelation(w), at) == Some(u)
    ensures RelatesOn(t, first, u) && RelationsOk(env, u.store.relations)
    ensures RelationTold(env, t.store.relations, w, at, u.store.relations, first)
  {
    RelationWritten(env, t.store.relations, w, at);
    DoRelationKeeps(env, t.store.relations, w, at);
    first := DoRelation(env, t.store.relations, w, at).value.reported;
  }

  lemma FirstRelated(env: Env, t: Txn, ws: seq<RelationWrite>, at: int, v: Txn) returns (u: Txn)
    requires ws != [] && DoWrites(env, t, RelationWrites(ws), at) == Some(v)
    ensures DoWrite(env, t, WriteRelation(ws[0]), at) == Some(u)
    ensures DoWrites(env, u, RelationWrites(ws[1..]), at) == Some(v)
  {
    assert RelationWrites(ws)[1..] == RelationWrites(ws[1..]) && RelationWrites(ws)[0] == WriteRelation(ws[0]);
    u := DoWrite(env, t, WriteRelation(ws[0]), at).value;
  }

  lemma {:induction false} RelationsStored(env: Env, t: Txn, ws: seq<RelationWrite>, at: int, v: Txn)
    returns (reported: seq<Id>)
    requires CatalogOk(env.catalog) && RelationsOk(env, t.store.relations)
    requires DoWrites(env, t, RelationWrites(ws), at) == Some(v)
    ensures RelationsTold(env, t.store.relations, ws, at, v.store.relations, reported) && RelatesOn(t, reported, v)
    decreases |ws|
  {
    if ws == [] {
      reported := [];
      assert t.receipt.relations + [] == t.receipt.relations;
    } else {
      var u := FirstRelated(env, t, ws, at, v);
      var first := OneRelated(env, t, ws[0], at, u);
      var others := RelationsStored(env, u, ws[1..], at, v);
      RelationsJoin(env, t.store.relations, u.store.relations, v.store.relations, ws[0], ws[1..], at, first, others);
      RelatesFurther(t, first, u, others, v);
      assert [ws[0]] + ws[1..] == ws;
      reported := first + others;
    }
  }

  /** A user with a principal is linked to what needs it, if anything is claimed of attributes or relations. */
  ghost predicate PossessionsTold(
    rows: seq<Relation>, principals: map<Id, Id>, ir: Ir, claims: bool, at: int, after: seq<Relation>, reported: seq<Id>)
  {
    if claims && ir.user in principals
    then OwnershipTold(rows, ir.user, principals[ir.user], ir.owned, {}, at, after, reported)
    else after == rows && reported == []
  }

  lemma PossessionsStored(env: Env, t: Txn, ir: Ir, at: int, v: Txn) returns (reported: seq<Id>)
    requires Via(env, Some(t), Some(OwnershipWrites(ir)), at) == Some(v)
    ensures PossessionsTold(t.store.relations, t.store.principals, ir, Described(ir) != [] || Related(ir) != [],
      at, v.store.relations, reported)
    ensures RelatesOn(t, reported, v)
  {
    reported := [];
    assert t.receipt.relations + [] == t.receipt.relations;
    if OwnershipWrites(ir) == [] {
      ViaNone(env, Some(t), at);
    } else {
      OneWrite(env, t, WriteOwnership(ir.user, ir.owned), at);
      if ir.user in t.store.principals {
        OwnershipWritten(t.store.relations, ir.user, t.store.principals[ir.user], ir.owned, {}, at);
        reported := DoOwnership(t.store.relations, ir.user, t.store.principals[ir.user], ir.owned, {}, at).value.reported;
      }
    }
  }

  // ---------------------------------------------------------------- the whole utterance

  ghost function Measured(ir: Ir): seq<MeasurementInput> {
    (if ir.measurement.Some? then [ir.measurement.value] else []) + ir.moreMeasurements
  }

  ghost function Described(ir: Ir): seq<AttributeWrite> {
    (if ir.attribute.Some? then [ir.attribute.value] else []) + ir.moreAttributes
  }

  ghost function Related(ir: Ir): seq<RelationWrite> {
    (if ir.relation.Some? then [ir.relation.value] else []) + ir.moreRelations
  }

  ghost function EventRows(e: Option<EventInput>): seq<Event> {
    if e.Some? then [e.value.event] else []
  }

  ghost function EventIds(e: Option<EventInput>): seq<Id> {
    if e.Some? then [e.value.event.id] else []
  }

  ghost predicate FactsOf(e: Option<EventInput>, before: seq<Fact>, at: int, after: seq<Fact>) {
    if e.Some? then FactsTold(before, e.value.facts, e.value.event.user, e.value.event.id, at, after) else after == before
  }

  /** The event, kept only with a time that can be, and the obligation are stored and reported with their facts. */
  ghost predicate EventsRecorded(t: Txn, ir: Ir, at: int, u: Txn) {
    && (ir.event.Some? ==> ir.event.value.persistable)
    && u.store.events == t.store.events + EventRows(ir.event) + EventRows(ir.obligation)
    && u.receipt.events == t.receipt.events + EventIds(ir.event) + EventIds(ir.obligation)
    && exists mid :: FactsOf(ir.event, t.store.facts, at, mid) && FactsOf(ir.obligation, mid, at, u.store.facts)
  }

  ghost predicate MeasurementsRecorded(t: Txn, ir: Ir, u: Txn) {
    var told := Filter(UsableBeside(ir.event.Some?), Measured(ir));
    && (ir.event.None? ==> told == Measured(ir))
    && RowsMeasured(t.store.measurements, told, u.store.measurements)
    && Lists(t.receipt.measurements, told, InputId(), u.receipt.measurements)
  }

  ghost predicate StateRecorded(env: Env, t: Txn, ir: Ir, at: int, u: Txn) {
    match ir.state
    case None => u.store.states == t.store.states && u.receipt.states == t.receipt.states
    case Some(w) =>
      && w.persistable && u.receipt.states == t.receipt.states + [w.id]
      && exists dimension, value ::
           NamesState(env.catalog, w, dimension, value) && StateStoredAs(t.store.states, w, dimension, value, at, u.store.states)
  }

  ghost predicate AttributesRecorded(env: Env, t: Txn, ir: Ir, at: int, u: Txn) {
    var told := Filter(LeavingRow(t.store.principals), Described(ir));
    && AttributesStoredAs(env, t.store.attributes, told, at, u.store.attributes)
    && Lists(t.receipt.attributes, told, ClaimId(), u.receipt.attributes)
  }

  /** The relation claims in turn, then the possessions. */
  ghost predicate RelationsThenLinks(
    env: Env, t: Txn, ir: Ir, at: int, mid: seq<Relation>, reported: seq<Id>, linked: seq<Id>, u: Txn)
  {
    && RelationsTold(env, t.store.relations, Related(ir), at, mid, reported)
    && PossessionsTold(mid, t.store.principals, ir, Described(ir) != [] || Related(ir) != [],
         at, u.store.relations, linked)
    && u.receipt.relations == t.receipt.relations + reported + linked
  }

  ghost predicate RelationsRecorded(env: Env, t: Txn, ir: Ir, at: int, u: Txn) {
    exists mid, reported, linked :: RelationsThenLinks(env, t, ir, at, mid, reported, linked, u)
  }

  /** Every claim of the utterance is recorded under its own fields; what corrects or owns is not touched. */
  ghost predicate Recorded(env: Env, t: Txn, ir: Ir, at: int, u: Txn) {
    && EventsRecorded(t, ir, at, u) && MeasurementsRecorded(t, ir, u) && StateRecorded(env, t, ir, at, u)
    && AttributesRecorded(env, t, ir, at, u) && RelationsRecorded(env, t, ir, at, u)
    && u.store.ledger == t.store.ledger && u.store.principals == t.store.principals
  }

  /** The stations of a transaction that records an utterance. */
  datatype Stations = Stations(event: Txn, measured: Txn, obligation: Txn, state: Txn, attributes: Txn, relations: Txn)

  /** Each station is what the one before it was carried on to. */
  ghost predicate Carries(env: Env, t: Txn, ir: Ir, at: int, v: Stations, u: Txn) {
    && Via(env, Some(t), EventWrites(ir.event, true), at) == Some(v.event)
    && Via(env, Some(v.event), AllMeasurements(Measured(ir), ir.event.Some?), at) == Some(v.measured)
    && Via(env, Some(v.measured), EventWrites(ir.obligation, false), at) == Some(v.obligation)
    && Via(env, Some(v.obligation), Some(StateWrites(ir.state)), at) == Some(v.state)
    && Via(env, Some(v.state), Some(AttributeWrites(Described(ir))), at) == Some(v.attributes)
    && Via(env, Some(v.attributes), Some(RelationWrites(Related(ir))), at) == Some(v.relations)
    && Via(env, Some(v.relations), Some(OwnershipWrites(ir)), at) == Some(u)
  }

  lemma PassesThrough(env: Env, t: Txn, ir: Ir, at: int, u: Txn) returns (v: Stations)
    requires Materialized(env, t, ir, at) == Some(u)
    ensures Carries(env, t, ir, at, v, u)
  {
    MaterializedInParts(env, t, ir, at);
    assert OneOrNone(ir.measurement) + ir.moreMeasurements == Measured(ir);
    assert AttributesOf(ir) == Described(ir) && RelationsOf(ir) == Related(ir);
    var e := Via(env, Some(t), EventWrites(ir.event, true), at);
    var m := Via(env, e, AllMeasurements(Measured(ir), ir.event.Some?), at);
    var o := Via(env, m, EventWrites(ir.obligation, false), at);
    var s := Via(env, o, Some(StateWrites(ir.state)), at);
    var a := Via(env, s, Some(AttributeWrites(Described(ir))), at);
    var r := Via(env, a, Some(RelationWrites(Related(ir))), at);
    v := Stations(e.value, m.value, o.value, s.value, a.value, r.value);
  }

  /** What the stations up to the attributes are told. */
  ghost predicate Told(env: Env, t: Txn, ir: Ir, at: int, v: Stations) {
    && (ir.event.Some? ==> ir.event.value.persistable) && EventTold(t, ir.event, at, v.event)
    && MeasurementsTold(v.event, Measured(ir), ir.event.Some?, v.measured)
    && EventTold(v.measured, ir.obligation, at, v.obligation)
    && StateTold(env, v.obligation, ir.state, at, v.state)
    && AttributesTold(env, v.state, Described(ir), at, v.attributes)
  }

  lemma ViaKeeps(env: Env, t: Txn, ws: Option<seq<Write>>, at: int)
    requires Deployed(env) && RowsOk(env, t.store) && Via(env, Some(t), ws, at).Some?
    ensures RowsOk(env, Via(env, Some(t), ws, at).value.store)
  {
    DoWritesKeep(env, t, ws.value, at);
  }

  lemma KeptThrough(env: Env, t: Txn, ir: Ir, at: int, v: Stations, u: Txn)
    requires Deployed(env) && RowsOk(env, t.store) && Carries(env, t, ir, at, v, u)
    ensures RowsOk(env, v.obligation.store) && RowsOk(env, v.attributes.store)
  {
    ViaKeeps(env, t, EventWrites(ir.event, true), at);
    ViaKeeps(env, v.event, AllMeasurements(Measured(ir), ir.event.Some?), at);
    ViaKeeps(env, v.measured, EventWrites(ir.obligation, false), at);
    ViaKeeps(env, v.obligation, Some(StateWrites(ir.state)), at);
    ViaKeeps(env, v.state, Some(AttributeWrites(Described(ir))), at);
  }

  lemma ToldThrough(env: Env, t: Txn, ir: Ir, at: int, v: Stations, u: Txn)
    requires RowsOk(env, v.obligation.store) && Carries(env, t, ir, at, v, u)
    ensures Told(env, t, ir, at, v)
  {
    EventStored(env, t, ir.event, true, at);
    MeasurementsStored(env, v.event, Measured(ir), ir.event.Some?, at, v.measured);
    EventStored(env, v.measured, ir.obligation, false, at);
    StateStored(env, v.obligation, ir.state, at);
    AttributesStored(env, v.state, Described(ir), at);
  }

  lemma RelatedThrough(env: Env, t: Txn, ir: Ir, at: int, v: Stations, u: Txn)
    requires Deployed(env) && RowsOk(env, v.attributes.store) && Carries(env, t, ir, at, v, u)
    ensures RelationsRecorded(env, v.attributes, ir, at, u)
    ensures u.store == v.attributes.store.(relations := u.store.relations)
    ensures u.receipt == v.attributes.receipt.(relations := u.receipt.relations)
  {
    var reported := RelationsStored(env, v.attributes, Related(ir), at, v.relations);
    var linked := PossessionsStored(env, v.relations, ir, at, u);
    assert RelationsThenLinks(env, v.attributes, ir, at, v.relations.store.relations, reported, linked, u);
  }

  lemma RelationsFrom(env: Env, t: Txn, s: Txn, ir: Ir, at: int, u: Txn)
    requires RelationsRecorded(env, s, ir, at, u)
    requires s.store.relations == t.store.relations && s.store.principals == t.store.principals
    requires s.receipt.relations == t.receipt.relations
    ensures RelationsRecorded(env, t, ir, at, u)
  {
    var mid, reported, linked :| RelationsThenLinks(env, s, ir, at, mid, reported, linked, u);
    assert RelationsThenLinks(env, t, ir, at, mid, reported, linked, u);
  }

  /** The tables of each family are touched at its own stations alone. */
  lemma FamiliesApart(env: Env, t: Txn, ir: Ir, at: int, v: Stations, u: Txn)
    requires Told(env, t, ir, at, v)
    requires u.store == v.attributes.store.(relations := u.store.relations)
    requires u.receipt == v.attributes.receipt.(relations := u.receipt.relations)
    ensures v.attributes.store.relations == t.store.relations && v.attributes.store.principals == t.store.principals
    ensures v.attributes.receipt.relations == t.receipt.relations
    ensures u.store.ledger == t.store.ledger && u.store.principals == t.store.principals
    ensures MeasurementsRecorded(t, ir, u)
    ensures StateRecorded(env, t, ir, at, u)
    ensures AttributesRecorded(env, t, ir, at, u)
  {
  }

  lemma EventsApart(env: Env, t: Txn, ir: Ir, at: int, v: Stations, u: Txn)
    requires Told(env, t, ir, at, v)
    requires u.store == v.attributes.store.(relations := u.store.relations)
    requires u.receipt == v.attributes.receipt.(relations := u.receipt.relations)
    ensures EventsRecorded(t, ir, at, u)
  {
    assert FactsOf(ir.event, t.store.facts, at, v.event.store.facts);
    assert FactsOf(ir.obligation, v.event.store.facts, at, u.store.facts);
  }

  /**
   * An utterance that is materialized leaves every one of its claims, under its own fields, in the tables and in the
   * receipt, and nothing else in either.
   */
  lemma {:induction false} MaterializeRecords(env: Env, t: Txn, ir: Ir, at: int, u: Txn)
    requires Deployed(env) && RowsOk(env, t.store)
    requires Materialized(env, t, ir, at) == Some(u)
    ensures Recorded(env, t, ir, at, u)
  {
    var v := PassesThrough(env, t, ir, at, u);
    KeptThrough(env, t, ir, at, v, u);
    ToldThrough(env, t, ir, at, v, u);
    RelatedThrough(env, t, ir, at, v, u);
    FamiliesApart(env, t, ir, at, v, u);
    EventsApart(env, t, ir, at, v, u);
    RelationsFrom(env, t, v.attributes, ir, at, u);
  }
}
