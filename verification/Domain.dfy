/** The rows the knowledge store keeps, and the identities and times they carry. */
module Domain {
  import opened Prelude

  // ---------------------------------------------------------------- time

  /** A point in time with the ISO text the program sorts by; `epoch` is what it compares instants by. */
  datatype Instant = Instant(epoch: int, iso: string)

  /** A half-open interval [start, end). */
  datatype Window = Window(start: int, end: int)

  datatype Occurrence = Happened | Ongoing | Planned | Habitual | Unspecified

  /**
   * Temporal knowledge, reduced to what ordering and membership read of it: the display instant,
   * the interval start, the original wording, and the coarse window of possible occurrence.
   */
  datatype Temporal = Temporal(
    instant: Option<Instant>,
    intervalStart: Option<string>,
    text: string,
    occurrence: Option<Occurrence>,
    periodic: bool,
    exact: Option<int>,
    instantGranularity: bool,
    window: Option<Window>)

  datatype Membership = Match | NoMatch | UnknownMembership

  /** Known times sort by instant, then by interval start; everything else is rank 2, "no known time". */
  function SortKey(t: Temporal): (nat, string) {
    match t.instant
    case Some(i) => (0, i.iso)
    case None =>
      match t.intervalStart
      case Some(s) => (1, s)
      case None => (2, t.text)
  }

  predicate KnownTime(t: Temporal) {
    SortKey(t).0 < 2
  }

  /** Ternary membership of an occurrence, observation or assertion in a query range. */
  function CoarseMembership(t: Temporal, range: Window): Membership {
    if t.periodic then UnknownMembership
    else if t.exact.Some? then
      if range.start <= t.exact.value < range.end then Match else NoMatch
    else if t.instantGranularity || t.window.None? then UnknownMembership
    else
      var w := t.window.value;
      if w.start >= range.start && w.end <= range.end then Match
      else if w.end <= range.start || w.start >= range.end then NoMatch
      else UnknownMembership
  }

  // ---------------------------------------------------------------- references and corrections

  datatype Kind = EventKind | MeasurementKind | RelationKind | StateKind | AttributeKind

  /** A typed assertion identity: its owner, its primitive kind and the row id. */
  datatype Ref = Ref(user: Id, kind: Kind, assertionId: Id)

  datatype Operation = Retract | Replace

  /** One committed row of the correction ledger. */
  datatype Correction = Correction(
    id: Id, user: Id, operation: Operation, target: Ref, replacement: Option<Ref>)

  /** What the ledger row's own validator enforces on construction. */
  predicate WellFormedCorrection(c: Correction) {
    && c.target.user == c.user
    && (c.operation == Retract ==> c.replacement == None)
    && (c.operation == Replace ==>
          c.replacement.Some? && c.replacement.value.user == c.user && c.replacement.value != c.target)
  }

  datatype Effectiveness = Effective | Ineffective | UnknownEffectiveness

  // ---------------------------------------------------------------- rows

  datatype State = State(
    id: Id, user: Id, entity: Id, dimensionId: Id, dimensionKey: string, valueId: Id, valueKey: string,
    temporal: Temporal, observedAt: int, validTo: Option<int>, supersedes: Option<Id>, isCurrent: bool)

  datatype ValueKind = TextValue | NumberValue | YearValue | DateValue | ConceptValue

  /** The semantic value of an attribute row; equal values of equal kind are one value. */
  datatype Value = Value(
    kind: ValueKind, text: Option<string>, number: Option<real>, unit: Option<string>,
    year: Option<int>, date: Option<int>, concept: Option<Id>)

  /** Exactly the slot of the declared kind is filled; only numbers carry a unit. */
  predicate ValidValue(v: Value) {
    && (v.text.Some? <==> v.kind == TextValue)
    && (v.number.Some? <==> v.kind == NumberValue)
    && (v.year.Some? <==> v.kind == YearValue)
    && (v.date.Some? <==> v.kind == DateValue)
    && (v.concept.Some? <==> v.kind == ConceptValue)
    && (v.unit.Some? ==> v.kind == NumberValue)
    && (v.year.Some? ==> 1000 <= v.year.value <= 9999)
  }

  datatype Attribute = Attribute(
    id: Id, user: Id, entity: Id, dimension: string, value: Value, temporal: Temporal,
    observedAt: int, validTo: Option<int>, supersedes: Option<Id>, isCurrent: bool)

  datatype Termination = Termination(temporal: Temporal, observedAt: int)

  datatype Relation = Relation(
    id: Id, user: Id, fromId: Id, toId: Id, conceptId: Id, key: string,
    temporal: Temporal, observedAt: int, isCurrent: bool, termination: Option<Termination>)

  datatype Measurement = Measurement(
    id: Id, user: Id, entity: Id, context: Option<Id>, dimension: string,
    number: real, unit: Option<string>, currency: Option<string>,
    temporal: Temporal, observedAt: Option<Instant>)

  datatype Event = Event(id: Id, user: Id, action: Option<Id>, temporal: Temporal)

  datatype AnchorKind = EntityAnchor | EventAnchor | RelationAnchor

  datatype Anchor = Anchor(kind: AnchorKind, id: Id)

  datatype Fact = Fact(
    id: Id, user: Id, about: Anchor, concept: Id, value: string,
    supersedes: Option<Id>, createdAt: int, supersededAt: Option<int>)

  function StateId(): State -> Id { (r: State) => r.id }
  function AttributeId(): Attribute -> Id { (r: Attribute) => r.id }
  function RelationId(): Relation -> Id { (r: Relation) => r.id }
  function MeasurementId(): Measurement -> Id { (r: Measurement) => r.id }
  function EventId(): Event -> Id { (r: Event) => r.id }
  function FactId(): Fact -> Id { (r: Fact) => r.id }

  predicate CurrentFact(f: Fact) {
    f.supersededAt.None?
  }

  // ---------------------------------------------------------------- concepts

  datatype ConceptKind =
    | EntityType | EventType | StateDimension | StateValue | RelationType
    | ActionConcept | AttributeConcept | DomainConcept | RoleConcept

  datatype Scope = Core | Extended | Personal

  datatype Concept = Concept(
    id: Id, key: string, kind: ConceptKind, scope: Scope, status: string,
    parent: Option<Id>, owner: Option<Id>)
}
