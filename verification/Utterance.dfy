/** What one utterance asks to record, and the writes that come of it, in order. */
module Utterance {
  import opened Prelude
  import opened Domain
  import opened Store

  datatype EventInput = EventInput(event: Event, facts: seq<FactInput>, persistable: bool)

  datatype MeasurementInput = MeasurementInput(
    id: Id, user: Id, subject: Option<Id>, contextGiven: bool, context: Option<Id>, dimension: string,
    number: Option<real>, unit: Option<string>, currency: Option<string>, temporal: Temporal)

  /** The resolved intermediate form: at most one of each family, plus additional claims. */
  datatype Ir = Ir(
    user: Id, event: Option<EventInput>, measurement: Option<MeasurementInput>, moreMeasurements: seq<MeasurementInput>,
    obligation: Option<EventInput>, state: Option<StateWrite>, attribute: Option<AttributeWrite>,
    moreAttributes: seq<AttributeWrite>, relation: Option<RelationWrite>, moreRelations: seq<RelationWrite>,
    owned: seq<OwnedTarget>)

  function Joined(a: Option<seq<Write>>, b: Option<seq<Write>>): Option<seq<Write>> {
    if a.Some? && b.Some? then Some(a.value + b.value) else None
  }

  function EventWrites(e: Option<EventInput>, gated: bool): Option<seq<Write>> {
    if e.None? then Some([])
    else if gated && !e.value.persistable then None
    else Some([WriteEvent(e.value.event, e.value.facts)])
  }

  /** An unusable measurement is skipped beside an event and denied on its own. */
  function MeasurementWrites(m: MeasurementInput, withEvent: bool): Option<seq<Write>> {
    if m.subject.None? || m.number.None? || (m.contextGiven && m.context.None? && !withEvent) then
      if withEvent then Some([]) else None
    else
      var observed := if m.temporal.exact.Some? then m.temporal.instant else None;
      Some([WriteMeasurement(Measurement(m.id, m.user, m.subject.value, m.context, m.dimension,
        m.number.value, m.unit, m.currency, m.temporal, observed))])
  }

  function AllMeasurements(ms: seq<MeasurementInput>, withEvent: bool): Option<seq<Write>> {
    if ms == [] then Some([])
    else Joined(MeasurementWrites(ms[0], withEvent), AllMeasurements(ms[1..], withEvent))
  }

  function AttributeWrites(xs: seq<AttributeWrite>): seq<Write> {
    seq(|xs|, i requires 0 <= i < |xs| => WriteAttribute(xs[i]))
  }

  function RelationWrites(xs: seq<RelationWrite>): seq<Write> {
    seq(|xs|, i requires 0 <= i < |xs| => WriteRelation(xs[i]))
  }

  function OneOrNone<T>(x: Option<T>): seq<T> {
    if x.Some? then [x.value] else []
  }

  function StateWrites(x: Option<StateWrite>): seq<Write> {
    if x.Some? then [WriteState(x.value)] else []
  }

  function AttributesOf(ir: Ir): seq<AttributeWrite> {
    OneOrNone(ir.attribute) + ir.moreAttributes
  }

  function RelationsOf(ir: Ir): seq<RelationWrite> {
    OneOrNone(ir.relation) + ir.moreRelations
  }

  /** Ownership links follow attributes and relations only. */
  function OwnershipWrites(ir: Ir): seq<Write> {
    if AttributesOf(ir) != [] || RelationsOf(ir) != [] then [WriteOwnership(ir.user, ir.owned)] else []
  }

  /** Everything after events and measurements: state, attributes, relations, ownership links. */
  function LaterWrites(ir: Ir): seq<Write> {
    StateWrites(ir.state) + (AttributeWrites(AttributesOf(ir)) + (RelationWrites(RelationsOf(ir)) + OwnershipWrites(ir)))
  }

  /** The order of persistence: event, measurements, obligation, then the rest. */
  function WritesOf(ir: Ir): Option<seq<Write>> {
    Joined(EventWrites(ir.event, true),
      Joined(AllMeasurements(OneOrNone(ir.measurement) + ir.moreMeasurements, ir.event.Some?),
        Joined(EventWrites(ir.obligation, false), Some(LaterWrites(ir)))))
  }

  function Materialized(env: Env, t: Txn, ir: Ir, at: int): Option<Txn> {
    match WritesOf(ir)
    case None => None
    case Some(ws) => DoWrites(env, t, ws, at)
  }

  // ---------------------------------------------------------------- transactions in parts

  /** Carrying a transaction on by some writes, if it got this far and they are not denied. */
  function Via(env: Env, t: Option<Txn>, ws: Option<seq<Write>>, at: int): Option<Txn> {
    if t.Some? && ws.Some? then DoWrites(env, t.value, ws.value, at) else None
  }

  lemma {:induction false} DoWritesConcat(env: Env, t: Txn, a: seq<Write>, b: seq<Write>, at: int)
    ensures DoWrites(env, t, a + b, at) == Via(env, DoWrites(env, t, a, at), Some(b), at)
    decreases |a|
  {
    if a == [] {
      assert a + b == b;
    } else {
      assert (a + b)[0] == a[0] && (a + b)[1..] == a[1..] + b;
      var u := DoWrite(env, t, a[0], at);
      if u.Some? { DoWritesConcat(env, u.value, a[1..], b, at); }
    }
  }

  lemma ViaJoined(env: Env, t: Option<Txn>, a: Option<seq<Write>>, b: Option<seq<Write>>, at: int)
    ensures Via(env, t, Joined(a, b), at) == Via(env, Via(env, t, a, at), b, at)
  {
    if t.Some? && a.Some? && b.Some? { DoWritesConcat(env, t.value, a.value, b.value, at); }
  }

  lemma OneWrite(env: Env, t: Txn, w: Write, at: int)
    ensures Via(env, Some(t), Some([w]), at) == DoWrite(env, t, w, at)
  {
    var u := DoWrite(env, t, w, at);
    assert [w][0] == w && [w][1..] == [];
    if u.Some? { assert DoWrites(env, u.value, [w][1..], at) == u; }
  }

  /** The transaction family by family. */
  lemma MaterializedInParts(env: Env, t: Txn, ir: Ir, at: int)
    ensures var e := Via(env, Some(t), EventWrites(ir.event, true), at);
      var m := Via(env, e, AllMeasurements(OneOrNone(ir.measurement) + ir.moreMeasurements, ir.event.Some?), at);
      var o := Via(env, m, EventWrites(ir.obligation, false), at);
      Materialized(env, t, ir, at) == LaterInParts(env, o, ir, at)
  {
    var ms := AllMeasurements(OneOrNone(ir.measurement) + ir.moreMeasurements, ir.event.Some?);
    var e := Via(env, Some(t), EventWrites(ir.event, true), at);
    var m := Via(env, e, ms, at);
    var later := Joined(EventWrites(ir.obligation, false), Some(LaterWrites(ir)));
    ViaJoined(env, Some(t), EventWrites(ir.event, true), Joined(ms, later), at);
    ViaJoined(env, e, ms, later, at);
    ViaJoined(env, m, EventWrites(ir.obligation, false), Some(LaterWrites(ir)), at);
    LaterParts(env, Via(env, m, EventWrites(ir.obligation, false), at), ir, at);
  }

  function LaterInParts(env: Env, t: Option<Txn>, ir: Ir, at: int): Option<Txn> {
    var s := Via(env, t, Some(StateWrites(ir.state)), at);
    var a := Via(env, s, Some(AttributeWrites(AttributesOf(ir))), at);
    var r := Via(env, a, Some(RelationWrites(RelationsOf(ir))), at);
    Via(env, r, Some(OwnershipWrites(ir)), at)
  }

  lemma LaterParts(env: Env, t: Option<Txn>, ir: Ir, at: int)
    ensures Via(env, t, Some(LaterWrites(ir)), at) == LaterInParts(env, t, ir, at)
  {
    var s, a, r, o := StateWrites(ir.state), AttributeWrites(AttributesOf(ir)), RelationWrites(RelationsOf(ir)), OwnershipWrites(ir);
    var u := Via(env, t, Some(s), at);
    ViaJoined(env, t, Some(s), Some(a + (r + o)), at);
    ViaJoined(env, u, Some(a), Some(r + o), at);
    ViaJoined(env, Via(env, u, Some(a), at), Some(r), Some(o), at);
  }
}
