/**
 * Which of the rows written for a correction is linked as the replacement. The last id of the intended kind is
 * taken, so additional claims and automatic links of the same kind compete with the one intended.
 */
module ReplacementChoice {
  import opened Prelude
  import opened Domain
  import opened Store
  import opened Utterance
  import opened CorrectionIngest
  import opened RelationLifecycle
  import opened LedgerLifecycle
  import opened Runs
  import R = RelationMetadata

  /** What materializing the scrubbed utterance comes to. */
  function Written(env: Env, s: Store, ir: Ir, intent: Intent, at: int): Option<Txn> {
    Materialized(env, Txn(s, NOTHING), Scrubbed(ir, intent), at)
  }

  /** The kind and id linked as the replacement, if any. */
  function Linked(env: Env, s: Store, ir: Ir, intent: Intent, at: int): Option<(Kind, Id)> {
    match Written(env, s, ir, intent, at)
    case None => None
    case Some(t) => ReplacementRef(t.receipt, intent)
  }

  // ---------------------------------------------------------------- ids reported by writes that always add a row

  function Listing(kind: Kind, r: Receipt): seq<Id> {
    match kind
    case EventKind => r.events
    case MeasurementKind => r.measurements
    case StateKind => r.states
    case AttributeKind => r.attributes
    case RelationKind => r.relations
  }

  /** The id a write reports of a kind; relation writes are looked at separately. */
  function Adds(kind: Kind, principals: map<Id, Id>, w: Write): seq<Id> {
    match w
    case WriteEvent(e, _) => if kind == EventKind then [e.id] else []
    case WriteMeasurement(m) => if kind == MeasurementKind then [m.id] else []
    case WriteState(x) => if kind == StateKind then [x.id] else []
    case WriteAttribute(x) => if kind == AttributeKind && !IntrinsicName(principals, x) then [x.id] else []
    case WriteRelation(_) => []
    case WriteOwnership(_, _) => []
  }

  function AddsAll(kind: Kind, principals: map<Id, Id>, ws: seq<Write>): seq<Id> {
    if ws == [] then [] else Adds(kind, principals, ws[0]) + AddsAll(kind, principals, ws[1..])
  }

  lemma {:induction false} AddsConcat(kind: Kind, principals: map<Id, Id>, a: seq<Write>, b: seq<Write>)
    ensures AddsAll(kind, principals, a + b) == AddsAll(kind, principals, a) + AddsAll(kind, principals, b)
  {
    if a == [] {
      assert a + b == b;
    } else {
      assert (a + b)[0] == a[0] && (a + b)[1..] == a[1..] + b;
      AddsConcat(kind, principals, a[1..], b);
    }
  }

  lemma {:induction false} OneAdded(env: Env, t: Txn, w: Write, at: int, kind: Kind)
    requires DoWrite(env, t, w, at).Some? && kind != RelationKind
    ensures var u := DoWrite(env, t, w, at).value;
      && u.store.principals == t.store.principals
      && Listing(kind, u.receipt) == Listing(kind, t.receipt) + Adds(kind, t.store.principals, w)
  {
  }

  lemma {:induction false} AllAdded(env: Env, t: Txn, ws: seq<Write>, at: int, kind: Kind)
    requires DoWrites(env, t, ws, at).Some? && kind != RelationKind
    ensures var u := DoWrites(env, t, ws, at).value;
      Listing(kind, u.receipt) == Listing(kind, t.receipt) + AddsAll(kind, t.store.principals, ws)
    decreases |ws|
  {
    if ws != [] {
      OneAdded(env, t, ws[0], at, kind);
      AllAdded(env, DoWrite(env, t, ws[0], at).value, ws[1..], at, kind);
    }
  }

  lemma {:induction false} NoneAdded(kind: Kind, principals: map<Id, Id>, ws: seq<Write>)
    requires forall w :: w in ws ==> Adds(kind, principals, w) == []
    ensures AddsAll(kind, principals, ws) == []
  {
    if ws != [] {
      assert ws == [ws[0]] + ws[1..];
      NoneAdded(kind, principals, ws[1..]);
    }
  }

  // ---------------------------------------------------------------- the writes of a scrubbed utterance

  /** What is left of an utterance after scrubbing: additional claims, and the intended primitive among them. */
  lemma ScrubbedWrites(ir: Ir, intent: Intent)
    requires intent == RecordMeasurement || intent == RecordAttribute || intent == RecordRelation
    ensures var x := Scrubbed(ir, intent);
      var ms := AllMeasurements(OneOrNone(x.measurement) + ir.moreMeasurements, false);
      WritesOf(x) == Joined(ms, Some(LaterWrites(x)))
  {
    var x := Scrubbed(ir, intent);
    var ms := AllMeasurements(OneOrNone(x.measurement) + ir.moreMeasurements, false);
    NothingFirst(LaterWrites(x));
    if ms.Some? { NothingFirst(ms.value + LaterWrites(x)); }
  }

  lemma NothingFirst(ws: seq<Write>)
    ensures [] + ws == ws
  {
  }

  // ---------------------------------------------------------------- measurements

  function InputIds(ms: seq<MeasurementInput>): (r: seq<Id>)
    ensures |r| == |ms|
    ensures forall i :: 0 <= i < |ms| ==> r[i] == ms[i].id
  {
    seq(|ms|, i requires 0 <= i < |ms| => ms[i].id)
  }

  lemma {:induction false} StandaloneMeasurements(ms: seq<MeasurementInput>, principals: map<Id, Id>)
    requires AllMeasurements(ms, false).Some?
    ensures AddsAll(MeasurementKind, principals, AllMeasurements(ms, false).value) == InputIds(ms)
    ensures forall w :: w in AllMeasurements(ms, false).value ==> w.WriteMeasurement?
  {
    if ms != [] {
      StandaloneMeasurements(ms[1..], principals);
      var a, b := MeasurementWrites(ms[0], false).value, AllMeasurements(ms[1..], false).value;
      AddsConcat(MeasurementKind, principals, a, b);
      assert a[1..] == [] && AddsAll(MeasurementKind, principals, a) == [ms[0].id] + [];
      assert InputIds(ms) == [ms[0].id] + InputIds(ms[1..]);
    }
  }

  lemma LaterWritesAddNoMeasurement(ir: Ir, principals: map<Id, Id>)
    ensures AddsAll(MeasurementKind, principals, LaterWrites(ir)) == []
  {
    var s, a, r, o := StateWrites(ir.state), AttributeWrites(AttributesOf(ir)), RelationWrites(RelationsOf(ir)), OwnershipWrites(ir);
    NoneAdded(MeasurementKind, principals, s);
    NoneAdded(MeasurementKind, principals, a);
    NoneAdded(MeasurementKind, principals, r);
    NoneAdded(MeasurementKind, principals, o);
    AddsConcat(MeasurementKind, principals, s, a + (r + o));
    AddsConcat(MeasurementKind, principals, a, r + o);
    AddsConcat(MeasurementKind, principals, r, o);
  }

  /** A written measurement had a free id. */
  lemma {:induction false} MeasurementIdsFree(env: Env, t: Txn, ws: seq<Write>, at: int, id: Id)
    requires DoWrites(env, t, ws, at).Some?
    requires id in AddsAll(MeasurementKind, t.store.principals, ws)
    ensures !HasMeasurement(t.store.measurements, id)
    decreases |ws|
  {
    var u := DoWrite(env, t, ws[0], at).value;
    OneAdded(env, t, ws[0], at, MeasurementKind);
    if id !in Adds(MeasurementKind, t.store.principals, ws[0]) {
      MeasurementIdsFree(env, u, ws[1..], at, id);
      assert forall m :: m in t.store.measurements ==> m in u.store.measurements;
    }
  }

  /** The main measurement is stored before the additional ones, so none of them shares its id. */
  lemma {:induction false} MainMeasurementFirst(env: Env, s: Store, ws: seq<Write>, at: int, id: Id)
    requires ws != [] && ws[0].WriteMeasurement?
    requires DoWrites(env, Txn(s, NOTHING), ws, at).Some?
    requires id in AddsAll(MeasurementKind, s.principals, ws[1..])
    ensures ws[0].measurement.id != id
  {
    var t := Txn(s, NOTHING);
    var u := DoWrite(env, t, ws[0], at).value;
    OneAdded(env, t, ws[0], at, MeasurementKind);
    MeasurementIdsFree(env, u, ws[1..], at, id);
    assert ws[0].measurement in u.store.measurements;
  }

  /**
   * A measurement replacement links the last measurement of the utterance, so it is the intended one exactly when
   * no additional measurement came with it.
   */
  lemma {:induction false} MeasurementReplacementExactly(env: Env, s: Store, ir: Ir, at: int)
    requires ir.measurement.Some? && Written(env, s, ir, RecordMeasurement, at).Some?
    ensures Linked(env, s, ir, RecordMeasurement, at) == Some((MeasurementKind, ir.measurement.value.id)) <==>
      ir.moreMeasurements == []
    ensures ir.moreMeasurements != [] ==>
      Linked(env, s, ir, RecordMeasurement, at)
      == Some((MeasurementKind, ir.moreMeasurements[|ir.moreMeasurements| - 1].id))
  {
    var main, more := ir.measurement.value, ir.moreMeasurements;
    var x := Scrubbed(ir, RecordMeasurement);
    ScrubbedWrites(ir, RecordMeasurement);
    var ws := WritesOf(x).value;
    var all := AllMeasurements([main] + more, false).value;
    LaterWritesAddNoMeasurement(x, s.principals);
    MeasurementsOnly([main] + more, LaterWrites(x), s.principals);
    var ids := InputIds([main] + more);
    MeasurementsReported(env, s, ws, at, ids);
    assert ids[|ids| - 1] == if more == [] then main.id else more[|more| - 1].id;
    if more != [] {
      assert all[0] == MeasurementWrites(main, false).value[0] && ws[0] == all[0];
      MainMeasurementFirst(env, s, ws, at, more[|more| - 1].id);
    }
  }

  lemma {:induction false} MeasurementsReported(env: Env, s: Store, ws: seq<Write>, at: int, ids: seq<Id>)
    requires DoWrites(env, Txn(s, NOTHING), ws, at).Some?
    requires AddsAll(MeasurementKind, s.principals, ws) == ids
    ensures DoWrites(env, Txn(s, NOTHING), ws, at).value.receipt.measurements == ids
  {
    AllAdded(env, Txn(s, NOTHING), ws, at, MeasurementKind);
    assert [] + ids == ids;
  }

  lemma ThenNone(kind: Kind, principals: map<Id, Id>, a: seq<Write>, rest: seq<Write>)
    requires AddsAll(kind, principals, rest) == []
    ensures AddsAll(kind, principals, a + rest) == AddsAll(kind, principals, a)
  {
    AddsConcat(kind, principals, a, rest);
    assert AddsAll(kind, principals, a) + [] == AddsAll(kind, principals, a);
  }

  lemma {:induction false} MeasurementsOnly(ms: seq<MeasurementInput>, rest: seq<Write>, principals: map<Id, Id>)
    requires ms != [] && AllMeasurements(ms, false).Some?
    requires AddsAll(MeasurementKind, principals, rest) == []
    ensures var ws := AllMeasurements(ms, false).value + rest;
      && AddsAll(MeasurementKind, principals, ws) == InputIds(ms)
      && ws != [] && AddsAll(MeasurementKind, principals, ws[1..]) == InputIds(ms[1..])
  {
    var all, later := AllMeasurements(ms, false).value, AllMeasurements(ms[1..], false).value;
    StandaloneMeasurements(ms, principals);
    StandaloneMeasurements(ms[1..], principals);
    ThenNone(MeasurementKind, principals, all, rest);
    ThenNone(MeasurementKind, principals, later, rest);
    assert all == MeasurementWrites(ms[0], false).value + later;
    RestOf(MeasurementWrites(ms[0], false).value, later, rest);
  }

  lemma RestOf(first: seq<Write>, later: seq<Write>, rest: seq<Write>)
    requires |first| == 1
    ensures (first + later + rest)[1..] == later + rest
  {
  }

  // ---------------------------------------------------------------- attributes

  /** Attribute writes that leave a row: names that live on the entity itself do not. */
  function Leaves(principals: map<Id, Id>): AttributeWrite -> bool {
    (x: AttributeWrite) => !IntrinsicName(principals, x)
  }

  function AttributeIds(xs: seq<AttributeWrite>): (r: seq<Id>)
    ensures |r| == |xs|
    ensures forall i :: 0 <= i < |xs| ==> r[i] == xs[i].id
  {
    seq(|xs|, i requires 0 <= i < |xs| => xs[i].id)
  }

  lemma {:induction false} AttributesAdd(xs: seq<AttributeWrite>, principals: map<Id, Id>)
    ensures AddsAll(AttributeKind, principals, AttributeWrites(xs)) == AttributeIds(Filter(Leaves(principals), xs))
  {
    if xs != [] {
      var front, last := xs[..|xs| - 1], xs[|xs| - 1];
      AttributesAdd(front, principals);
      assert AttributeWrites(xs) == AttributeWrites(front) + [WriteAttribute(last)];
      AddsConcat(AttributeKind, principals, AttributeWrites(front), [WriteAttribute(last)]);
      assert [WriteAttribute(last)][1..] == [];
      assert AddsAll(AttributeKind, principals, [WriteAttribute(last)]) == Adds(AttributeKind, principals, WriteAttribute(last)) + [];
    }
  }

  lemma {:induction false} LaterAttributesAdd(x: Ir, principals: map<Id, Id>)
    requires x.state.None?
    ensures AddsAll(AttributeKind, principals, LaterWrites(x)) == AttributeIds(Filter(Leaves(principals), AttributesOf(x)))
  {
    var xs, tail := AttributesOf(x), RelationWrites(RelationsOf(x)) + OwnershipWrites(x);
    AttributesAdd(xs, principals);
    NoneAdded(AttributeKind, principals, tail);
    ThenNone(AttributeKind, principals, AttributeWrites(xs), tail);
    assert LaterWrites(x) == [] + (AttributeWrites(xs) + tail);
    NothingFirst(AttributeWrites(xs) + tail);
  }

  lemma {:induction false} ScrubbedAttributesAdd(ir: Ir, principals: map<Id, Id>)
    requires ir.attribute.Some? && WritesOf(Scrubbed(ir, RecordAttribute)).Some?
    ensures AddsAll(AttributeKind, principals, WritesOf(Scrubbed(ir, RecordAttribute)).value)
         == AttributeIds(Filter(Leaves(principals), [ir.attribute.value] + ir.moreAttributes))
  {
    var x := Scrubbed(ir, RecordAttribute);
    ScrubbedWrites(ir, RecordAttribute);
    var ms := AllMeasurements(OneOrNone(x.measurement) + ir.moreMeasurements, false).value;
    StandaloneMeasurements(OneOrNone(x.measurement) + ir.moreMeasurements, principals);
    NoneAdded(AttributeKind, principals, ms);
    AddsConcat(AttributeKind, principals, ms, LaterWrites(x));
    assert AttributesOf(x) == [ir.attribute.value] + ir.moreAttributes;
    LaterAttributesAdd(x, principals);
  }

  /** The id of the last attribute that leaves a row. */
  lemma {:induction false} LastThatLeaves(main: AttributeWrite, more: seq<AttributeWrite>, principals: map<Id, Id>)
    requires forall x :: x in more ==> x.id != main.id
    ensures var ids := AttributeIds(Filter(Leaves(principals), [main] + more));
      (ids != [] && ids[|ids| - 1] == main.id) <==>
        !IntrinsicName(principals, main) && forall x :: x in more ==> IntrinsicName(principals, x)
  {
    var p := Leaves(principals);
    FilterConcat(p, [main], more);
    FilterAppend(p, [], main);
    assert [] + [main] == [main];
    var kept := Filter(p, more);
    if kept != [] {
      var last := kept[|kept| - 1];
      FilterMember(p, more, last);
      assert Filter(p, [main] + more)[|Filter(p, [main] + more)| - 1] == last;
    } else {
      forall x | x in more ensures IntrinsicName(principals, x) { FilterMember(p, more, x); }
    }
  }

  /**
   * An attribute replacement links the intended attribute exactly when that one is not a name kept on its entity,
   * and every additional attribute is.
   */
  lemma {:induction false} AttributeReplacementExactly(env: Env, s: Store, ir: Ir, at: int)
    requires ir.attribute.Some? && Written(env, s, ir, RecordAttribute, at).Some?
    requires forall x :: x in ir.moreAttributes ==> x.id != ir.attribute.value.id
    ensures Linked(env, s, ir, RecordAttribute, at) == Some((AttributeKind, ir.attribute.value.id)) <==>
      && !IntrinsicName(s.principals, ir.attribute.value)
      && forall x :: x in ir.moreAttributes ==> IntrinsicName(s.principals, x)
  {
    AttributesReported(env, s, ir, at);
    LastThatLeaves(ir.attribute.value, ir.moreAttributes, s.principals);
    OnlyListedKind(Written(env, s, ir, RecordAttribute, at).value.receipt);
  }

  lemma {:induction false} AttributesReported(env: Env, s: Store, ir: Ir, at: int)
    requires ir.attribute.Some? && Written(env, s, ir, RecordAttribute, at).Some?
    ensures Written(env, s, ir, RecordAttribute, at).value.receipt.attributes
         == AttributeIds(Filter(Leaves(s.principals), [ir.attribute.value] + ir.moreAttributes))
  {
    var ws := WritesOf(Scrubbed(ir, RecordAttribute)).value;
    ScrubbedAttributesAdd(ir, s.principals);
    AllAdded(env, Txn(s, NOTHING), ws, at, AttributeKind);
    var ids := AttributeIds(Filter(Leaves(s.principals), [ir.attribute.value] + ir.moreAttributes));
    assert [] + ids == ids;
  }

  /** Without attribute ids, the fallback links another kind. */
  lemma OnlyListedKind(r: Receipt)
    ensures r.attributes != [] ==> ReplacementRef(r, RecordAttribute) == Some((AttributeKind, r.attributes[|r.attributes| - 1]))
    ensures r.attributes == [] && ReplacementRef(r, RecordAttribute).Some? ==>
      ReplacementRef(r, RecordAttribute).value.0 != AttributeKind
  {
  }

  // ---------------------------------------------------------------- relations

  /** The link a resolved relation write is about. */
  function LinkOfWrite(env: Env, w: RelationWrite): Option<Link> {
    if w.subject.None? || w.object_.None? then None else LinkFor(env, w.user, w.key, w.subject.value, w.object_.value)
  }

  predicate Stored(rows: seq<Relation>, link: Link) {
    exists r :: r in rows && LinkOf(r) == link
  }

  /** The write reports a row: it always does, unless it would end something that is not there. */
  predicate Speaks(env: Env, rows: seq<Relation>, w: RelationWrite) {
    LinkOfWrite(env, w).Some? &&
    match w.mode
    case Terminate => Stored(rows, LinkOfWrite(env, w).value)
    case DenyCurrent => HoldsCurrently(rows, LinkOfWrite(env, w).value)
    case Assert => true
    case Historical => true
  }

  /** A row with this id is of this link. */
  predicate Carries(rows: seq<Relation>, id: Id, link: Link) {
    exists r :: r in rows && r.id == id && LinkOf(r) == link
  }

  lemma {:induction false} SpeaksExactly(env: Env, rows: seq<Relation>, w: RelationWrite, at: int)
    requires DoRelation(env, rows, w, at).Some?
    ensures LinkOfWrite(env, w).Some?
    ensures var o := DoRelation(env, rows, w, at).value;
      && (o.reported != [] <==> Speaks(env, rows, w))
      && (o.reported == [] ==> o.rows == rows)
      && |o.reported| <= 1
      && RowsStay(rows, o.rows)
      && (o.reported != [] ==> Carries(o.rows, o.reported[0], LinkOfWrite(env, w).value))
  {
    var link := LinkOfWrite(env, w).value;
    WriteShape(env, rows, w, at);
    FoundWhenStored(rows, link);
    var o := DoRelation(env, rows, w, at).value;
    var found := Rewritten(rows, link, w.mode, RelationTime(w).value);
    if found.Some? {
      assert o.rows[found.value] in o.rows;
    } else if o.reported != [] {
      assert o.rows[|rows|] in o.rows;
    }
  }

  lemma FoundWhenStored(rows: seq<Relation>, link: Link)
    ensures FindInstance(rows, link, false).Some? <==> Stored(rows, link)
    ensures FindInstance(rows, link, true).Some? <==> HoldsCurrently(rows, link)
  {
    FindInstanceComplete(rows, link, false);
    HeldIffFound(rows, link);
    var found := FindInstance(rows, link, false);
    if found.Some? { assert rows[found.value] in rows; }
  }

  /** Rows that stay keep carrying their links. */
  lemma CarriesOn(rows: seq<Relation>, after: seq<Relation>, id: Id, link: Link)
    requires RowsStay(rows, after) && Carries(rows, id, link)
    ensures Carries(after, id, link)
  {
    var r :| r in rows && r.id == id && LinkOf(r) == link;
    var i :| 0 <= i < |rows| && rows[i] == r;
    assert after[i] in after && LinkOf(after[i]) == LinkOf(rows[i]);
  }

  lemma TakenOn(rows: seq<Relation>, after: seq<Relation>, id: Id)
    requires RowsStay(rows, after)
    ensures HasRelation(rows, id) ==> HasRelation(after, id)
  {
    if r :| r in rows && r.id == id {
      var i :| 0 <= i < |rows| && rows[i] == r;
      assert after[i] in after;
    }
  }

  lemma CarriesOneLink(rows: seq<Relation>, id: Id, a: Link, b: Link)
    requires DistinctRelations(rows) && Carries(rows, id, a) && Carries(rows, id, b)
    ensures a == b
  {
    var r :| r in rows && r.id == id && LinkOf(r) == a;
    var q :| q in rows && q.id == id && LinkOf(q) == b;
    var i :| 0 <= i < |rows| && rows[i] == r;
    var j :| 0 <= j < |rows| && rows[j] == q;
  }

  /** The row with this id is of the link of one of the writes. */
  ghost predicate SomeCarries(env: Env, xs: seq<RelationWrite>, rows: seq<Relation>, id: Id) {
    exists x :: x in xs && LinkOfWrite(env, x).Some? && Carries(rows, id, LinkOfWrite(env, x).value)
  }

  /** What a sequence of relation writes adds to the report. */
  ghost predicate Extends(env: Env, t: Txn, xs: seq<RelationWrite>, u: Txn, extra: seq<Id>) {
    && u.receipt == t.receipt.(relations := t.receipt.relations + extra)
    && u.store.principals == t.store.principals
    && RowsStay(t.store.relations, u.store.relations)
    && (extra == [] <==> forall x :: x in xs ==> !Speaks(env, t.store.relations, x))
    && (extra == [] ==> u.store.relations == t.store.relations)
    && (extra != [] ==> SomeCarries(env, xs, u.store.relations, extra[|extra| - 1]))
  }

  lemma {:induction false} OneRelation(env: Env, t: Txn, w: RelationWrite, at: int)
    requires DoWrite(env, t, WriteRelation(w), at).Some?
    ensures DoRelation(env, t.store.relations, w, at).Some?
    ensures var o := DoRelation(env, t.store.relations, w, at).value;
      DoWrite(env, t, WriteRelation(w), at).value ==
        Txn(t.store.(relations := o.rows), t.receipt.(relations := t.receipt.relations + o.reported))
  {
  }

  lemma {:induction false} RelationsRun(env: Env, t: Txn, xs: seq<RelationWrite>, at: int) returns (extra: seq<Id>)
    requires DoWrites(env, t, RelationWrites(xs), at).Some?
    ensures Extends(env, t, xs, DoWrites(env, t, RelationWrites(xs), at).value, extra)
    decreases |xs|
  {
    if xs == [] {
      extra := [];
      assert t.receipt.relations + [] == t.receipt.relations;
    } else {
      assert RelationWrites(xs)[0] == WriteRelation(xs[0]) && RelationWrites(xs)[1..] == RelationWrites(xs[1..]);
      OneRelation(env, t, xs[0], at);
      SpeaksExactly(env, t.store.relations, xs[0], at);
      var u := DoWrite(env, t, WriteRelation(xs[0]), at).value;
      var rest := RelationsRun(env, u, xs[1..], at);
      var first := DoRelation(env, t.store.relations, xs[0], at).value.reported;
      extra := first + rest;
      ExtendsBoth(env, t, xs, u, first, DoWrites(env, u, RelationWrites(xs[1..]), at).value, rest);
    }
  }

  lemma ExtendsBoth(
    env: Env, t: Txn, xs: seq<RelationWrite>, u: Txn, first: seq<Id>, v: Txn, rest: seq<Id>)
    requires xs != [] && Extends(env, u, xs[1..], v, rest)
    requires u.receipt == t.receipt.(relations := t.receipt.relations + first)
    requires u.store.principals == t.store.principals && RowsStay(t.store.relations, u.store.relations)
    requires |first| <= 1 && (first != [] <==> Speaks(env, t.store.relations, xs[0]))
    requires first == [] ==> u.store.relations == t.store.relations
    requires LinkOfWrite(env, xs[0]).Some?
    requires first != [] ==> Carries(u.store.relations, first[0], LinkOfWrite(env, xs[0]).value)
    ensures Extends(env, t, xs, v, first + rest)
  {
    assert t.receipt.relations + first + rest == t.receipt.relations + (first + rest);
    assert forall x :: x in xs <==> x == xs[0] || x in xs[1..];
    StaysTwice(t.store.relations, u.store.relations, v.store.relations);
    if rest == [] && first != [] {
      assert first + rest == first;
      assert xs[0] in xs;
    }
  }

  lemma StaysTwice(a: seq<Relation>, b: seq<Relation>, c: seq<Relation>)
    requires RowsStay(a, b) && RowsStay(b, c)
    ensures RowsStay(a, c)
  {
  }

  /** The possessed object still needs its link: it may be linked, and no current link is there. */
  predicate NeedsLink(user: Id, principal: Id, t: OwnedTarget, rows: seq<Relation>) {
    && t.object_.Some? && t.object_.value != principal && t.known && t.eligible
    && !HoldsCurrently(rows, OwnsLink(user, principal, t.object_.value))
  }

  /** Ownership reports nothing exactly when no listed object needs its link; what it reports is new. */
  lemma {:induction false} OwnershipSilentExactly(
    rows: seq<Relation>, user: Id, principal: Id, targets: seq<OwnedTarget>, seen: set<Id>, at: int)
    requires DoOwnership(rows, user, principal, targets, seen, at).Some?
    requires forall o :: o in seen ==> HoldsCurrently(rows, OwnsLink(user, principal, o))
    ensures var o := DoOwnership(rows, user, principal, targets, seen, at).value;
      && (o.reported == [] <==> forall t :: t in targets ==> !NeedsLink(user, principal, t, rows))
      && (forall id :: id in o.reported ==> !HasRelation(rows, id))
    decreases |targets|
  {
    if targets != [] {
      var t, rest := targets[0], targets[1..];
      assert targets == [t] + rest;
      if t.object_.None? || t.object_.value in seen || t.object_.value == principal || !t.known || !t.eligible {
        OwnershipSilentExactly(rows, user, principal, rest, seen, at);
      } else {
        var link := OwnsLink(user, principal, t.object_.value);
        HeldIffFound(rows, link);
        if FindInstance(rows, link, true).Some? {
          OwnershipSilentExactly(rows, user, principal, rest, seen + {t.object_.value}, at);
        } else {
          var row := Relation(t.id, user, principal, t.object_.value, OWNS_ID, OWNS_KEY, NO_TIME, at, true, None);
          forall other ensures HoldsCurrently(rows + [row], other) <==> HoldsCurrently(rows, other) || other == link {
            AppendDecides(rows, row, other);
          }
          OwnershipSilentExactly(rows + [row], user, principal, rest, seen + {t.object_.value}, at);
          assert NeedsLink(user, principal, t, rows) && t in targets;
          assert forall r :: r in rows ==> r in rows + [row];
        }
      }
    }
  }

  /** Whether a link holds after the intended relation is written, said of the store before. */
  predicate HeldAfter(env: Env, rows: seq<Relation>, main: RelationWrite, link: Link) {
    if LinkOfWrite(env, main) != Some(link) then HoldsCurrently(rows, link)
    else match main.mode
      case Terminate => false
      case DenyCurrent => false
      case _ => (RelationTime(main).Some? && AssertsCurrent(main.mode, RelationTime(main).value)) || HoldsCurrently(rows, link)
  }

  predicate StoredAfter(env: Env, rows: seq<Relation>, main: RelationWrite, link: Link) {
    Stored(rows, link) || (LinkOfWrite(env, main) == Some(link) && (main.mode == Assert || main.mode == Historical))
  }

  /** An additional relation that ends something which is not there once the intended one is written. */
  predicate Silent(env: Env, rows: seq<Relation>, main: RelationWrite, x: RelationWrite) {
    LinkOfWrite(env, x).Some? ==>
    match x.mode
    case Terminate => !StoredAfter(env, rows, main, LinkOfWrite(env, x).value)
    case DenyCurrent => !HeldAfter(env, rows, main, LinkOfWrite(env, x).value)
    case Assert => false
    case Historical => false
  }

  /** The possessed object has, or is given by the intended relation, the link ownership would add. */
  predicate NeedsNoLink(env: Env, s: Store, user: Id, main: RelationWrite, t: OwnedTarget) {
    user in s.principals && t.object_.Some? && t.object_.value != s.principals[user] && t.known && t.eligible ==>
      HeldAfter(env, s.relations, main, OwnsLink(user, s.principals[user], t.object_.value))
  }

  /**
   * Said of the request and the store before it: the intended relation reports a row, every additional one would end
   * something that is not there, and no possessed object needs an ownership link.
   */
  predicate IntendedAlone(env: Env, s: Store, ir: Ir)
    requires ir.relation.Some?
  {
    && Speaks(env, s.relations, ir.relation.value)
    && (forall x :: x in ir.moreRelations ==> Silent(env, s.relations, ir.relation.value, x))
    && (forall t :: t in ir.owned ==> NeedsNoLink(env, s, ir.user, ir.relation.value, t))
  }

  lemma {:induction false} StoredDecides(env: Env, rows: seq<Relation>, main: RelationWrite, at: int, link: Link)
    requires DoRelation(env, rows, main, at).Some?
    ensures Stored(DoRelation(env, rows, main, at).value.rows, link) <==> StoredAfter(env, rows, main, link)
  {
    var own := LinkOfWrite(env, main).value;
    WriteShape(env, rows, main, at);
    var after := DoRelation(env, rows, main, at).value.rows;
    var found := Rewritten(rows, own, main.mode, RelationTime(main).value);
    if found.Some? { assert rows[found.value] in rows; }
    if Stored(rows, link) { StoredOn(rows, after, link); }
    if |after| > |rows| { assert after[|rows|] in after; }
    if r :| r in after && LinkOf(r) == link {
      var i :| 0 <= i < |after| && after[i] == r;
      if i < |rows| { assert rows[i] in rows; }
    }
  }

  lemma StoredOn(rows: seq<Relation>, after: seq<Relation>, link: Link)
    requires RowsStay(rows, after) && Stored(rows, link)
    ensures Stored(after, link)
  {
    var r :| r in rows && LinkOf(r) == link;
    var i :| 0 <= i < |rows| && rows[i] == r;
    assert after[i] in after && LinkOf(after[i]) == LinkOf(rows[i]);
  }

  /** Silence, said of the store before, is silence once the intended relation is written. */
  lemma {:induction false} SilentExactly(env: Env, rows: seq<Relation>, main: RelationWrite, at: int, x: RelationWrite)
    requires RelationsOk(env, rows) && DoRelation(env, rows, main, at).Some?
    ensures Silent(env, rows, main, x) <==> !Speaks(env, DoRelation(env, rows, main, at).value.rows, x)
  {
    if LinkOfWrite(env, x).Some? {
      WriteDecidesItsLink(env, rows, main, at, LinkOfWrite(env, x).value);
      StoredDecides(env, rows, main, at, LinkOfWrite(env, x).value);
    }
  }

  lemma {:induction false} NeedsNoLinkExactly(env: Env, s: Store, user: Id, main: RelationWrite, at: int, t: OwnedTarget)
    requires RelationsOk(env, s.relations) && DoRelation(env, s.relations, main, at).Some?
    ensures NeedsNoLink(env, s, user, main, t) <==>
      (user in s.principals ==> !NeedsLink(user, s.principals[user], t, DoRelation(env, s.relations, main, at).value.rows))
  {
    if user in s.principals && t.object_.Some? {
      WriteDecidesItsLink(env, s.relations, main, at, OwnsLink(user, s.principals[user], t.object_.value));
    }
  }

  // ---------------------------------------------------------------- the relations a scrubbed utterance reports

  /** Writes that have nothing to do with relations. */
  predicate Aside(w: Write) {
    w.WriteMeasurement? || w.WriteAttribute?
  }

  lemma {:induction false} AsideTouchesNoRelation(env: Env, t: Txn, ws: seq<Write>, at: int)
    requires DoWrites(env, t, ws, at).Some? && forall w :: w in ws ==> Aside(w)
    ensures var u := DoWrites(env, t, ws, at).value;
      && u.store.relations == t.store.relations && u.store.principals == t.store.principals
      && u.receipt.relations == t.receipt.relations
    decreases |ws|
  {
    if ws != [] {
      assert Aside(ws[0]) && ws == [ws[0]] + ws[1..];
      AsideTouchesNoRelation(env, DoWrite(env, t, ws[0], at).value, ws[1..], at);
    }
  }

  /** What ownership adds to the report. */
  ghost predicate AddsLinks(t: Txn, user: Id, owned: seq<OwnedTarget>, u: Txn, added: seq<Id>) {
    && u.receipt == t.receipt.(relations := t.receipt.relations + added)
    && RowsStay(t.store.relations, u.store.relations)
    && (added == [] <==> user in t.store.principals ==>
          forall x :: x in owned ==> !NeedsLink(user, t.store.principals[user], x, t.store.relations))
    && (forall id :: id in added ==> !HasRelation(t.store.relations, id))
  }

  lemma {:induction false} OwnershipRun(env: Env, t: Txn, user: Id, owned: seq<OwnedTarget>, at: int)
    returns (added: seq<Id>)
    requires DoWrites(env, t, [WriteOwnership(user, owned)], at).Some?
    ensures AddsLinks(t, user, owned, DoWrites(env, t, [WriteOwnership(user, owned)], at).value, added)
  {
    var w := WriteOwnership(user, owned);
    assert [w][0] == w && [w][1..] == [];
    var u := DoWrite(env, t, w, at).value;
    assert DoWrites(env, u, [], at) == Some(u);
    if user in t.store.principals {
      var principal := t.store.principals[user];
      OwnershipSilentExactly(t.store.relations, user, principal, owned, {}, at);
      OwnershipStays(t.store.relations, user, principal, owned, {}, at);
      added := DoOwnership(t.store.relations, user, principal, owned, {}, at).value.reported;
    } else {
      added := [];
      assert t.receipt.relations + [] == t.receipt.relations;
    }
  }

  /** The intended relation, then what the additional ones and ownership add. */
  ghost predicate RelationReport(env: Env, s: Store, ir: Ir, at: int, t: Txn, extra: seq<Id>, added: seq<Id>)
    requires ir.relation.Some?
  {
    && DoRelation(env, s.relations, ir.relation.value, at).Some?
    && var o := DoRelation(env, s.relations, ir.relation.value, at).value;
    && t.receipt.relations == o.reported + extra + added
    && (extra == [] <==> forall x :: x in ir.moreRelations ==> !Speaks(env, o.rows, x))
    && (extra != [] ==> SomeCarries(env, ir.moreRelations, t.store.relations, extra[|extra| - 1]))
    && (extra == [] ==> (added == [] <==> ir.user in s.principals ==>
          forall x :: x in ir.owned ==> !NeedsLink(ir.user, s.principals[ir.user], x, o.rows)))
    && RowsStay(o.rows, t.store.relations)
    && (forall id :: id in added ==> !HasRelation(o.rows, id))
  }

  lemma {:induction false} ReportOfRelations(env: Env, s: Store, ir: Ir, at: int) returns (extra: seq<Id>, added: seq<Id>)
    requires ir.relation.Some? && Written(env, s, ir, RecordRelation, at).Some?
    ensures RelationReport(env, s, ir, at, Written(env, s, ir, RecordRelation, at).value, extra, added)
  {
    var main := ir.relation.value;
    var u := BeforeRelations(env, s, ir, at);
    FirstRelation(env, u, main, ir.moreRelations, at);
    OneRelation(env, u, main, at);
    var v := DoWrite(env, u, WriteRelation(main), at).value;
    extra := RelationsRun(env, v, ir.moreRelations, at);
    var z := DoWrites(env, v, RelationWrites(ir.moreRelations), at).value;
    added := OwnershipRun(env, z, ir.user, ir.owned, at);
    var o := DoRelation(env, s.relations, main, at).value;
    assert [] + o.reported == o.reported;
    ReportJoined(env, s, ir, at, v, z, DoWrites(env, z, [WriteOwnership(ir.user, ir.owned)], at).value, extra, added);
  }

  lemma FirstRelation(env: Env, t: Txn, main: RelationWrite, more: seq<RelationWrite>, at: int)
    requires DoWrites(env, t, RelationWrites([main] + more), at).Some?
    ensures DoWrite(env, t, WriteRelation(main), at).Some?
    ensures DoWrites(env, t, RelationWrites([main] + more), at)
         == DoWrites(env, DoWrite(env, t, WriteRelation(main), at).value, RelationWrites(more), at)
  {
    var ws := RelationWrites([main] + more);
    assert ws[0] == WriteRelation(main) && ws[1..] == RelationWrites(more);
  }

  lemma {:induction false} ReportJoined(
    env: Env, s: Store, ir: Ir, at: int, v: Txn, z: Txn, t: Txn, extra: seq<Id>, added: seq<Id>)
    requires ir.relation.Some? && DoRelation(env, s.relations, ir.relation.value, at).Some?
    requires var o := DoRelation(env, s.relations, ir.relation.value, at).value;
      v.store.relations == o.rows && v.receipt.relations == o.reported && v.store.principals == s.principals
    requires Extends(env, v, ir.moreRelations, z, extra)
    requires AddsLinks(z, ir.user, ir.owned, t, added)
    ensures RelationReport(env, s, ir, at, t, extra, added)
  {
    StaysTwice(v.store.relations, z.store.relations, t.store.relations);
    if extra != [] {
      var x :| x in ir.moreRelations && LinkOfWrite(env, x).Some?
               && Carries(z.store.relations, extra[|extra| - 1], LinkOfWrite(env, x).value);
      CarriesOn(z.store.relations, t.store.relations, extra[|extra| - 1], LinkOfWrite(env, x).value);
    }
    forall id | id in added ensures !HasRelation(v.store.relations, id) {
      TakenOn(v.store.relations, z.store.relations, id);
    }
  }

  /** Up to the relations nothing has touched them; after them comes ownership. */
  lemma {:induction false} BeforeRelations(env: Env, s: Store, ir: Ir, at: int) returns (u: Txn)
    requires ir.relation.Some? && Written(env, s, ir, RecordRelation, at).Some?
    ensures u.store.relations == s.relations && u.store.principals == s.principals && u.receipt.relations == []
    ensures DoWrites(env, u, RelationWrites([ir.relation.value] + ir.moreRelations), at).Some?
    ensures var r := DoWrites(env, u, RelationWrites([ir.relation.value] + ir.moreRelations), at).value;
      Written(env, s, ir, RecordRelation, at) == DoWrites(env, r, [WriteOwnership(ir.user, ir.owned)], at)
  {
    var x, t0 := Scrubbed(ir, RecordRelation), Txn(s, NOTHING);
    MaterializedInParts(env, t0, x, at);
    var ms := OneOrNone(x.measurement) + x.moreMeasurements;
    assert RelationsOf(x) == [ir.relation.value] + ir.moreRelations;
    assert RelationsOf(x) != [] && OwnershipWrites(x) == [WriteOwnership(ir.user, ir.owned)];
    var m := DoWrites(env, t0, AllMeasurements(ms, false).value, at).value;
    StandaloneMeasurements(ms, s.principals);
    AsideTouchesNoRelation(env, t0, AllMeasurements(ms, false).value, at);
    AsideTouchesNoRelation(env, m, AttributeWrites(AttributesOf(x)), at);
    u := DoWrites(env, m, AttributeWrites(AttributesOf(x)), at).value;
  }

  /**
   * For any utterance that corrects by a relation: the intended relation is the only one reported exactly when the
   * guard on the request and the store before it holds. Then it is the one linked.
   */
  lemma {:induction false} IntendedRelationAloneExactly(env: Env, s: Store, ir: Ir, at: int)
    requires RelationsOk(env, s.relations)
    requires ir.relation.Some? && Written(env, s, ir, RecordRelation, at).Some?
    ensures DoRelation(env, s.relations, ir.relation.value, at).Some?
    ensures var reported := DoRelation(env, s.relations, ir.relation.value, at).value.reported;
      && (IntendedAlone(env, s, ir) <==>
            reported != [] && Written(env, s, ir, RecordRelation, at).value.receipt.relations == reported)
      && (IntendedAlone(env, s, ir) ==>
            Linked(env, s, ir, RecordRelation, at) == Some((RelationKind, reported[|reported| - 1])))
  {
    var main, t := ir.relation.value, Written(env, s, ir, RecordRelation, at).value;
    var extra, added := ReportOfRelations(env, s, ir, at);
    var o := DoRelation(env, s.relations, main, at).value;
    SpeaksExactly(env, s.relations, main, at);
    forall x ensures Silent(env, s.relations, main, x) <==> !Speaks(env, o.rows, x) {
      SilentExactly(env, s.relations, main, at, x);
    }
    forall x ensures NeedsNoLink(env, s, ir.user, main, x) <==>
      (ir.user in s.principals ==> !NeedsLink(ir.user, s.principals[ir.user], x, o.rows))
    {
      NeedsNoLinkExactly(env, s, ir.user, main, at, x);
    }
    assert o.reported + extra + added == o.reported <==> extra == [] && added == [] by {
      assert |o.reported + extra + added| == |o.reported| + |extra| + |added|;
      assert o.reported + [] + [] == o.reported;
    }
  }

  /**
   * Under the guard the intended relation is linked. Without it, an additional relation or an ownership link is taken
   * for it, or nothing of it was written, unless an additional relation is about the very link that is corrected.
   */
  lemma {:induction false} RelationReplacementExactly(env: Env, s: Store, ir: Ir, at: int)
    requires Deployed(env) && RowsOk(env, s)
    requires ir.relation.Some? && Written(env, s, ir, RecordRelation, at).Some?
    ensures DoRelation(env, s.relations, ir.relation.value, at).Some?
    ensures var reported := DoRelation(env, s.relations, ir.relation.value, at).value.reported;
      var linked := reported != [] && Linked(env, s, ir, RecordRelation, at) == Some((RelationKind, reported[|reported| - 1]));
      && (IntendedAlone(env, s, ir) ==> linked)
      && (linked ==> IntendedAlone(env, s, ir) || SameLinkAgain(env, ir))
  {
    IntendedRelationAloneExactly(env, s, ir, at);
    var reported := DoRelation(env, s.relations, ir.relation.value, at).value.reported;
    if reported != [] && !IntendedAlone(env, s, ir) && !SameLinkAgain(env, ir) {
      var extra, added := ReportOfRelations(env, s, ir, at);
      WrittenKeeps(env, s, ir, at);
      NotAloneLinksAnother(env, s, ir, at, Written(env, s, ir, RecordRelation, at).value, extra, added);
    }
  }

  /** An additional relation is about the link of the intended one. */
  predicate SameLinkAgain(env: Env, ir: Ir)
    requires ir.relation.Some?
  {
    exists x :: x in ir.moreRelations && LinkOfWrite(env, x) == LinkOfWrite(env, ir.relation.value)
  }

  lemma {:induction false} NotAloneLinksAnother(
    env: Env, s: Store, ir: Ir, at: int, t: Txn, extra: seq<Id>, added: seq<Id>)
    requires ir.relation.Some? && RelationReport(env, s, ir, at, t, extra, added)
    requires DistinctRelations(t.store.relations) && !SameLinkAgain(env, ir)
    requires var reported := DoRelation(env, s.relations, ir.relation.value, at).value.reported;
      reported != [] && reported != t.receipt.relations
    ensures var reported := DoRelation(env, s.relations, ir.relation.value, at).value.reported;
      ReplacementRef(t.receipt, RecordRelation) != Some((RelationKind, reported[|reported| - 1]))
  {
    var main := ir.relation.value;
    var o := DoRelation(env, s.relations, main, at).value;
    SpeaksExactly(env, s.relations, main, at);
    AnotherIsLast(env, o.rows, t.store.relations, o.reported[0], main, ir.moreRelations, extra, added);
    LinksAnother(t.receipt, o.reported, extra, added);
  }

  lemma {:induction false} WrittenKeeps(env: Env, s: Store, ir: Ir, at: int)
    requires Deployed(env) && RowsOk(env, s) && Written(env, s, ir, RecordRelation, at).Some?
    ensures DistinctRelations(Written(env, s, ir, RecordRelation, at).value.store.relations)
  {
    DoWritesKeep(env, Txn(s, NOTHING), WritesOf(Scrubbed(ir, RecordRelation)).value, at);
  }

  lemma LastOfThree(a: seq<Id>, b: seq<Id>, c: seq<Id>)
    requires a != a + b + c
    ensures b != [] || c != []
    ensures var all := a + b + c; all[|all| - 1] == if c != [] then c[|c| - 1] else b[|b| - 1]
  {
    assert b == [] && c == [] ==> a + b + c == a;
  }

  lemma LinksAnother(r: Receipt, a: seq<Id>, b: seq<Id>, c: seq<Id>)
    requires r.relations == a + b + c && r.relations != a && |a| == 1
    requires (c != [] ==> c[|c| - 1] != a[0]) && (b != [] ==> b[|b| - 1] != a[0])
    ensures ReplacementRef(r, RecordRelation) != Some((RelationKind, a[0]))
  {
    LastOfThree(a, b, c);
    LinksLastRelation(r);
  }

  lemma LinksLastRelation(r: Receipt)
    ensures r.relations != [] ==> ReplacementRef(r, RecordRelation) == Some((RelationKind, r.relations[|r.relations| - 1]))
  {
  }

  lemma AnotherIsLast(
    env: Env, rows: seq<Relation>, after: seq<Relation>, id: Id, main: RelationWrite, more: seq<RelationWrite>,
    extra: seq<Id>, added: seq<Id>)
    requires RowsStay(rows, after) && DistinctRelations(after)
    requires LinkOfWrite(env, main).Some? && Carries(rows, id, LinkOfWrite(env, main).value)
    requires forall x :: x in more ==> LinkOfWrite(env, x) != LinkOfWrite(env, main)
    requires extra != [] ==> SomeCarries(env, more, after, extra[|extra| - 1])
    requires forall i :: i in added ==> !HasRelation(rows, i)
    ensures added != [] ==> added[|added| - 1] != id
    ensures extra != [] ==> extra[|extra| - 1] != id
  {
    CarriesOn(rows, after, id, LinkOfWrite(env, main).value);
    assert HasRelation(rows, id);
    assert added != [] ==> added[|added| - 1] in added;
    if extra != [] {
      var x :| x in more && LinkOfWrite(env, x).Some? && Carries(after, extra[|extra| - 1], LinkOfWrite(env, x).value);
      if extra[|extra| - 1] == id { CarriesOneLink(after, id, LinkOfWrite(env, x).value, LinkOfWrite(env, main).value); }
    }
  }

  // ---------------------------------------------------------------- utterances whose replacement is another claim

  const NO_CLAIM := Ir("", None, None, [], None, None, None, [], None, [], [])

  function Weighs(id: Id, user: Id, entity: Id, kilograms: real): MeasurementInput {
    MeasurementInput(id, user, Some(entity), false, None, "weight", Some(kilograms), Some("kg"), None, NO_TIME)
  }

  /** The weight is this, and on another occasion it was that. */
  function TwoWeights(user: Id, entity: Id): Ir {
    NO_CLAIM.(user := user, measurement := Some(Weighs("m1", user, entity, 80.0)),
              moreMeasurements := [Weighs("m2", user, entity, 75.0)])
  }

  /** The second weight is linked, not the one that corrects. */
  lemma {:induction false} SecondWeightLinked(env: Env, user: Id, entity: Id, at: int)
    ensures Written(env, EMPTY, TwoWeights(user, entity), RecordMeasurement, at).Some?
    ensures Linked(env, EMPTY, TwoWeights(user, entity), RecordMeasurement, at) == Some((MeasurementKind, "m2"))
  {
    var ir := TwoWeights(user, entity);
    var ms := [ir.measurement.value] + ir.moreMeasurements;
    var a, b := MeasurementWrites(ms[0], false).value, MeasurementWrites(ms[1], false).value;
    assert ms[1..] == [ms[1]] && ms[1..][1..] == [];
    assert AllMeasurements(ms[1..], false) == Some(b + []) && b + [] == b;
    assert AllMeasurements(ms, false) == Some(a + b);
    ScrubbedWrites(ir, RecordMeasurement);
    assert LaterWrites(Scrubbed(ir, RecordMeasurement)) == [];
    assert a + b + [] == [a[0], b[0]];
    TwoMeasurementsStored(env, a[0], b[0], at);
    MeasurementReplacementExactly(env, EMPTY, ir, at);
  }

  lemma TwoMeasurementsStored(env: Env, a: Write, b: Write, at: int)
    requires a.WriteMeasurement? && b.WriteMeasurement? && a.measurement.id != b.measurement.id
    ensures DoWrites(env, Txn(EMPTY, NOTHING), [a, b], at).Some?
  {
    assert [a, b][1..] == [b] && [b][1..] == [];
    var u := DoWrite(env, Txn(EMPTY, NOTHING), a, at).value;
    assert u.store.measurements == [a.measurement];
    var v := DoWrite(env, u, b, at);
    assert v.Some? && DoWrites(env, v.value, [], at).Some?;
    assert DoWrites(env, u, [b], at) == v;
  }

  function Quality(id: Id, user: Id, entity: Id, dimension: string, text: string): AttributeWrite {
    AttributeWrite(id, user, Some(entity), None, false, dimension,
      Value(TextValue, Some(text), None, None, None, None, None), true, NO_TIME)
  }

  /** The colour is this, and the size is that. */
  function TwoQualities(user: Id, entity: Id): Ir {
    NO_CLAIM.(user := user, attribute := Some(Quality("a1", user, entity, "color", "red")),
              moreAttributes := [Quality("a2", user, entity, "size", "large")])
  }

  lemma InTurn(env: Env, t: Txn, w: Write, ws: seq<Write>, at: int)
    requires DoWrite(env, t, w, at).Some?
    ensures DoWrites(env, t, [w] + ws, at) == DoWrites(env, DoWrite(env, t, w, at).value, ws, at)
  {
    assert ([w] + ws)[0] == w && ([w] + ws)[1..] == ws;
  }

  /** The writes of an utterance of attributes or relations only. */
  lemma ClaimsOnly(ir: Ir, intent: Intent)
    requires intent == RecordAttribute || intent == RecordRelation
    requires ir.moreMeasurements == []
    ensures WritesOf(Scrubbed(ir, intent)) == Some(LaterWrites(Scrubbed(ir, intent)))
  {
    var x := Scrubbed(ir, intent);
    ScrubbedWrites(ir, intent);
    assert OneOrNone(x.measurement) + ir.moreMeasurements == [];
    assert AllMeasurements([], false) == Some([]);
    NothingFirst(LaterWrites(x));
  }

  /** The size is linked, not the colour that corrects. */
  lemma {:induction false} SecondQualityLinked(env: Env, user: Id, entity: Id, at: int)
    ensures Written(env, EMPTY, TwoQualities(user, entity), RecordAttribute, at).Some?
    ensures Linked(env, EMPTY, TwoQualities(user, entity), RecordAttribute, at) == Some((AttributeKind, "a2"))
  {
    var ir := TwoQualities(user, entity);
    var a, b, o := WriteAttribute(ir.attribute.value), WriteAttribute(ir.moreAttributes[0]), WriteOwnership(user, []);
    ClaimsOnly(ir, RecordAttribute);
    assert LaterWrites(Scrubbed(ir, RecordAttribute)) == [a] + ([b] + ([o] + []));
    QualitiesStored(env, ir.attribute.value, ir.moreAttributes[0], user, at);
  }

  lemma {:induction false} QualitiesStored(env: Env, x: AttributeWrite, y: AttributeWrite, user: Id, at: int)
    requires x.subject.Some? && ValidValue(x.value) && y.subject.Some? && ValidValue(y.value) && x.id != y.id
    ensures var r := DoWrites(env, Txn(EMPTY, NOTHING),
                       [WriteAttribute(x)] + ([WriteAttribute(y)] + ([WriteOwnership(user, [])] + [])), at);
      r.Some? && r.value.receipt == NOTHING.(attributes := [x.id, y.id])
  {
    var a, b, o := WriteAttribute(x), WriteAttribute(y), WriteOwnership(user, []);
    var t := Txn(EMPTY, NOTHING);
    NewAttribute(env, t, x, at);
    InTurn(env, t, a, [b] + ([o] + []), at);
    var u := DoWrite(env, t, a, at).value;
    NewAttribute(env, u, y, at);
    InTurn(env, u, b, [o] + [], at);
    var v := DoWrite(env, u, b, at).value;
    assert DoWrite(env, v, o, at) == Some(v);
    InTurn(env, v, o, [], at);
    assert [] + [x.id] + [y.id] == [x.id, y.id];
  }

  /** A text attribute under a new id is written and reported. */
  lemma NewAttribute(env: Env, t: Txn, x: AttributeWrite, at: int)
    requires x.subject.Some? && ValidValue(x.value) && !HasAttribute(t.store.attributes, x.id)
    requires t.store.principals == map[]
    ensures DoWrite(env, t, WriteAttribute(x), at).Some?
    ensures var u := DoWrite(env, t, WriteAttribute(x), at).value;
      && u.receipt == t.receipt.(attributes := t.receipt.attributes + [x.id])
      && u.store.principals == map[]
      && |u.store.attributes| == |t.store.attributes| + 1
      && (forall i :: 0 <= i < |t.store.attributes| ==> u.store.attributes[i].id == t.store.attributes[i].id)
      && u.store.attributes[|t.store.attributes|].id == x.id
  {
  }

  /** Its name is Rex, said of a possessed object. */
  function NamedObject(user: Id, entity: Id): Ir {
    NO_CLAIM.(user := user, attribute := Some(Quality("a1", user, entity, "name", "Rex")),
              owned := [OwnedTarget("o1", Some(entity), true, true)])
  }

  /** The name leaves no row, and the ownership link recorded with it is taken for the replacement. */
  lemma {:induction false} OwnershipLinkedForName(env: Env, user: Id, principal: Id, entity: Id, at: int)
    requires entity != principal
    ensures var s := EMPTY.(principals := map[user := principal]);
      && Written(env, s, NamedObject(user, entity), RecordAttribute, at).Some?
      && Linked(env, s, NamedObject(user, entity), RecordAttribute, at) == Some((RelationKind, "o1"))
  {
    var s, ir := EMPTY.(principals := map[user := principal]), NamedObject(user, entity);
    var a, o := WriteAttribute(ir.attribute.value), WriteOwnership(user, ir.owned);
    ClaimsOnly(ir, RecordAttribute);
    assert LaterWrites(Scrubbed(ir, RecordAttribute)) == [a] + ([o] + []);
    var t := Txn(s, NOTHING);
    assert DoWrite(env, t, a, at) == Some(t);
    InTurn(env, t, a, [o] + [], at);
    OneOwned(env, t, user, principal, entity, "o1", at);
    InTurn(env, t, o, [], at);
    assert [] + ["o1"] == ["o1"];
  }

  /** One possessed object without a link gets one, under the given id. */
  lemma OneOwned(env: Env, t: Txn, user: Id, principal: Id, entity: Id, id: Id, at: int)
    requires user in t.store.principals && t.store.principals[user] == principal && entity != principal
    requires FindInstance(t.store.relations, OwnsLink(user, principal, entity), true).None?
    requires !HasRelation(t.store.relations, id)
    ensures var w := WriteOwnership(user, [OwnedTarget(id, Some(entity), true, true)]);
      && DoWrite(env, t, w, at).Some?
      && DoWrite(env, t, w, at).value.receipt == t.receipt.(relations := t.receipt.relations + [id])
  {
    var targets := [OwnedTarget(id, Some(entity), true, true)];
    assert targets[1..] == [];
    var row := Relation(id, user, principal, entity, OWNS_ID, OWNS_KEY, NO_TIME, at, true, None);
    assert DoOwnership(t.store.relations + [row], user, principal, [], {entity}, at)
      == Some(RelationOutcome(t.store.relations + [row], []));
    assert {} + {entity} == {entity} && [id] + [] == [id];
  }

  function Relates(id: Id, user: Id, key: string, a: Id, b: Id): RelationWrite {
    RelationWrite(id, user, key, Some(a), Some(b), Assert, Some(NO_TIME), true, false, NO_TIME)
  }

  /** A stored, directed relation type. */
  ghost predicate Plain(env: Env, key: string) {
    && RelationConcept(env.catalog, key).Some?
    && R.StoredQuery(env.relations, key) == (key, false) && !R.OrderInsensitive(env.relations, key)
  }

  lemma NewRelation(env: Env, t: Txn, x: RelationWrite, at: int)
    requires x.subject.Some? && x.object_.Some?
    requires Plain(env, x.key) && x == Relates(x.id, x.user, x.key, x.subject.value, x.object_.value)
    requires var link := Link(x.user, x.subject.value, RelationConcept(env.catalog, x.key).value.id, x.object_.value);
      FindInstance(t.store.relations, link, true).None?
    requires !HasRelation(t.store.relations, x.id)
    ensures var row := Relation(x.id, x.user, x.subject.value, x.object_.value,
                                RelationConcept(env.catalog, x.key).value.id, x.key, NO_TIME, at, true, None);
      DoWrite(env, t, WriteRelation(x), at) ==
        Some(Txn(t.store.(relations := t.store.relations + [row]),
                 t.receipt.(relations := t.receipt.relations + [x.id])))
  {
  }

  /** It is at `b`; and it is at `c`. */
  function TwoRelations(user: Id, key: string, a: Id, b: Id, c: Id): Ir {
    NO_CLAIM.(user := user, relation := Some(Relates("r1", user, key, a, b)),
              moreRelations := [Relates("r2", user, key, a, c)])
  }

  /** The second relation is linked, not the one that corrects. */
  lemma {:induction false} SecondRelationLinked(env: Env, user: Id, key: string, a: Id, b: Id, c: Id, at: int)
    requires Plain(env, key) && b != c
    ensures Written(env, EMPTY, TwoRelations(user, key, a, b, c), RecordRelation, at).Some?
    ensures Linked(env, EMPTY, TwoRelations(user, key, a, b, c), RecordRelation, at) == Some((RelationKind, "r2"))
  {
    var ir := TwoRelations(user, key, a, b, c);
    var first, second, o := WriteRelation(ir.relation.value), WriteRelation(ir.moreRelations[0]), WriteOwnership(user, []);
    ClaimsOnly(ir, RecordRelation);
    assert LaterWrites(Scrubbed(ir, RecordRelation)) == [first] + ([second] + ([o] + []));
    RelationsStored(env, user, key, a, b, c, at);
  }

  lemma {:induction false} RelationsStored(env: Env, user: Id, key: string, a: Id, b: Id, c: Id, at: int)
    requires Plain(env, key) && b != c
    ensures var x, y := Relates("r1", user, key, a, b), Relates("r2", user, key, a, c);
      var r := DoWrites(env, Txn(EMPTY, NOTHING),
                        [WriteRelation(x)] + ([WriteRelation(y)] + ([WriteOwnership(user, [])] + [])), at);
      r.Some? && r.value.receipt == NOTHING.(relations := ["r1", "r2"])
  {
    var x := Relates("r1", user, key, a, b);
    var first, rest := WriteRelation(x), [WriteRelation(Relates("r2", user, key, a, c))] + ([WriteOwnership(user, [])] + []);
    var t := Txn(EMPTY, NOTHING);
    NewRelation(env, t, x, at);
    InTurn(env, t, first, rest, at);
    var row := Relation("r1", user, a, b, RelationConcept(env.catalog, key).value.id, key, NO_TIME, at, true, None);
    var u := DoWrite(env, t, first, at).value;
    assert [] + [row] == [row] && [] + ["r1"] == ["r1"];
    SecondStored(env, u, row, user, key, a, c, at);
  }

  lemma {:induction false} SecondStored(env: Env, u: Txn, row: Relation, user: Id, key: string, a: Id, c: Id, at: int)
    requires Plain(env, key) && u.store.relations == [row] && row.id == "r1" && row.toId != c && row.fromId == a
    requires u.receipt == NOTHING.(relations := ["r1"]) && u.store.principals == map[]
    ensures var y := Relates("r2", user, key, a, c);
      var r := DoWrites(env, u, [WriteRelation(y)] + ([WriteOwnership(user, [])] + []), at);
      r.Some? && r.value.receipt == NOTHING.(relations := ["r1", "r2"])
  {
    var y := Relates("r2", user, key, a, c);
    var second, o := WriteRelation(y), WriteOwnership(user, []);
    assert u.store.relations[..0] == [];
    NewRelation(env, u, y, at);
    InTurn(env, u, second, [o] + [], at);
    var v := DoWrite(env, u, second, at).value;
    assert DoWrite(env, v, o, at) == Some(v);
    InTurn(env, v, o, [], at);
    assert ["r1"] + ["r2"] == ["r1", "r2"];
  }

  /** Said twice, the relation is linked although it is not the only one reported: the second time refreshes its row. */
  lemma {:induction false} SaidTwiceStaysLinked(env: Env, user: Id, key: string, a: Id, b: Id, at: int)
    requires Plain(env, key)
    ensures !IntendedAlone(env, EMPTY, TwoRelations(user, key, a, b, b))
    ensures Written(env, EMPTY, TwoRelations(user, key, a, b, b), RecordRelation, at).Some?
    ensures Linked(env, EMPTY, TwoRelations(user, key, a, b, b), RecordRelation, at) == Some((RelationKind, "r1"))
  {
    var ir := TwoRelations(user, key, a, b, b);
    var x, y, o := WriteRelation(ir.relation.value), WriteRelation(ir.moreRelations[0]), WriteOwnership(user, []);
    ClaimsOnly(ir, RecordRelation);
    assert LaterWrites(Scrubbed(ir, RecordRelation)) == [x] + ([y] + ([o] + []));
    SaidTwiceStored(env, user, key, a, b, at);
    assert ir.moreRelations[0] in ir.moreRelations;
    assert !Silent(env, EMPTY.relations, ir.relation.value, ir.moreRelations[0]);
  }

  lemma {:induction false} SaidTwiceStored(env: Env, user: Id, key: string, a: Id, b: Id, at: int)
    requires Plain(env, key)
    ensures var x, y := Relates("r1", user, key, a, b), Relates("r2", user, key, a, b);
      var r := DoWrites(env, Txn(EMPTY, NOTHING),
                        [WriteRelation(x)] + ([WriteRelation(y)] + ([WriteOwnership(user, [])] + [])), at);
      r.Some? && r.value.receipt == NOTHING.(relations := ["r1", "r1"])
  {
    var x, t := Relates("r1", user, key, a, b), Txn(EMPTY, NOTHING);
    var rest := [WriteRelation(Relates("r2", user, key, a, b))] + ([WriteOwnership(user, [])] + []);
    NewRelation(env, t, x, at);
    InTurn(env, t, WriteRelation(x), rest, at);
    var row := Relation("r1", user, a, b, RecordConcept(env, key), key, NO_TIME, at, true, None);
    assert [] + [row] == [row] && [] + ["r1"] == ["r1"];
    Refreshed(env, DoWrite(env, t, WriteRelation(x), at).value, row, user, key, a, b, at);
  }

  function RecordConcept(env: Env, key: string): Id
    requires RelationConcept(env.catalog, key).Some?
  {
    RelationConcept(env.catalog, key).value.id
  }

  lemma {:induction false} Refreshed(env: Env, u: Txn, row: Relation, user: Id, key: string, a: Id, b: Id, at: int)
    requires Plain(env, key) && row == Relation("r1", user, a, b, RecordConcept(env, key), key, NO_TIME, at, true, None)
    requires u.store == EMPTY.(relations := [row]) && u.receipt == NOTHING.(relations := ["r1"])
    ensures var y := Relates("r2", user, key, a, b);
      var r := DoWrites(env, u, [WriteRelation(y)] + ([WriteOwnership(user, [])] + []), at);
      r.Some? && r.value.receipt == NOTHING.(relations := ["r1", "r1"])
  {
    var y, o := WriteRelation(Relates("r2", user, key, a, b)), WriteOwnership(user, []);
    assert u.store.relations[..0] == [];
    assert FindInstance(u.store.relations, Link(user, a, RecordConcept(env, key), b), true) == Some(0);
    assert [row][0 := row] == [row] && ["r1"] + ["r1"] == ["r1", "r1"];
    assert DoWrite(env, u, y, at) == Some(Txn(u.store, NOTHING.(relations := ["r1", "r1"])));
    InTurn(env, u, y, [o] + [], at);
    var v := DoWrite(env, u, y, at).value;
    assert DoWrite(env, v, o, at) == Some(v);
    InTurn(env, v, o, [], at);
  }

  /** Something is said of a possessed object that no link shows yet. */
  function OfPossession(user: Id, key: string, a: Id, b: Id): Ir {
    NO_CLAIM.(user := user, relation := Some(Relates("r1", user, key, a, b)),
              owned := [OwnedTarget("o1", Some(b), true, true)])
  }

  /** The ownership link is linked, not the relation that corrects. */
  lemma {:induction false} OwnershipLinkedForRelation(env: Env, user: Id, principal: Id, key: string, a: Id, b: Id, at: int)
    requires Plain(env, key) && RelationConcept(env.catalog, key).value.id != OWNS_ID && b != principal
    ensures var s := EMPTY.(principals := map[user := principal]);
      && Written(env, s, OfPossession(user, key, a, b), RecordRelation, at).Some?
      && Linked(env, s, OfPossession(user, key, a, b), RecordRelation, at) == Some((RelationKind, "o1"))
  {
    var s, ir := EMPTY.(principals := map[user := principal]), OfPossession(user, key, a, b);
    var first, o := WriteRelation(ir.relation.value), WriteOwnership(user, ir.owned);
    ClaimsOnly(ir, RecordRelation);
    assert LaterWrites(Scrubbed(ir, RecordRelation)) == [first] + ([o] + []);
    PossessionStored(env, s, user, principal, key, a, b, at);
  }

  lemma {:induction false} PossessionStored(
    env: Env, s: Store, user: Id, principal: Id, key: string, a: Id, b: Id, at: int)
    requires Plain(env, key) && RelationConcept(env.catalog, key).value.id != OWNS_ID && b != principal
    requires s == EMPTY.(principals := map[user := principal])
    ensures var first, o := WriteRelation(Relates("r1", user, key, a, b)), WriteOwnership(user, [OwnedTarget("o1", Some(b), true, true)]);
      var r := DoWrites(env, Txn(s, NOTHING), [first] + ([o] + []), at);
      r.Some? && r.value.receipt == NOTHING.(relations := ["r1", "o1"])
  {
    var first, o := WriteRelation(Relates("r1", user, key, a, b)), WriteOwnership(user, [OwnedTarget("o1", Some(b), true, true)]);
    var t := Txn(s, NOTHING);
    NewRelation(env, t, Relates("r1", user, key, a, b), at);
    InTurn(env, t, first, [o] + [], at);
    var u := DoWrite(env, t, first, at).value;
    assert u.store.relations[..0] == [];
    OneOwned(env, u, user, principal, b, "o1", at);
    InTurn(env, u, o, [], at);
    assert [] + ["r1"] + ["o1"] == ["r1", "o1"];
  }
}
