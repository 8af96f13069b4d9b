/** A user's view of the store and the structured queries over it: effective rows first, then the resolvers. */
module QueryEngine {
  import opened Prelude
  import opened Domain
  import opened TimeRanking
  import opened SortedKeys
  import opened EffectivenessResolver
  import T = Store
  import R = RelationMetadata
  import S = StateResolver
  import A = AttributeResolver
  import M = MeasurementResolver
  import Rel = RelationResolver

  /** The rows of one user; `entities` gives the type of each entity of that user. */
  datatype Graph = Graph(
    user: Id, entities: map<Id, Id>, events: seq<Event>, relations: seq<Relation>, states: seq<State>,
    attributes: seq<Attribute>, measurements: seq<Measurement>, corrections: seq<Correction>)

  function EventsOf(user: Id): Event -> bool { (r: Event) => r.user == user }
  function RelationsOf(user: Id): Relation -> bool { (r: Relation) => r.user == user }
  function StatesOf(user: Id): State -> bool { (r: State) => r.user == user }
  function AttributesOf(user: Id): Attribute -> bool { (r: Attribute) => r.user == user }
  function MeasurementsOf(user: Id): Measurement -> bool { (r: Measurement) => r.user == user }
  function CorrectionsOf(user: Id): Correction -> bool { (c: Correction) => c.user == user }

  function LoadGraph(s: T.Store, user: Id, entities: map<Id, Id>): Graph {
    Graph(user, entities, Filter(EventsOf(user), s.events), Filter(RelationsOf(user), s.relations),
          Filter(StatesOf(user), s.states), Filter(AttributesOf(user), s.attributes),
          Filter(MeasurementsOf(user), s.measurements), Filter(CorrectionsOf(user), s.ledger))
  }

  datatype Association = Actor | Subject | RelationEndpoint | RelationSubject | RelationObject | EventContext

  datatype RelationKind = CurrentBoolean | HistoricalExistence

  datatype Spec = Spec(
    entities: seq<Id>, association: Option<Association>, eventIds: seq<Id>, actions: seq<Id>,
    dimensions: seq<Id>, values: seq<Id>,
    relationTypes: seq<Id>, objectTypes: seq<Id>, scope: Rel.Scope, relationKind: Option<RelationKind>)

  datatype QueryError = SpecError | IsolationError

  /** Entities need an association, and everything named must belong to the user. */
  function Visibility(spec: Spec, g: Graph): Option<QueryError> {
    if spec.entities != [] && spec.association.None?
       && !(spec.relationTypes != [] && |spec.entities| >= 2) && spec.actions == [] then Some(SpecError)
    else if exists e :: e in spec.entities && e !in g.entities then Some(IsolationError)
    else if exists e :: e in spec.eventIds && forall r :: r in g.events ==> r.id != e then Some(IsolationError)
    else None
  }

  predicate OfKind(c: T.Catalog, ids: seq<Id>, kind: ConceptKind) {
    forall id :: id in ids ==> id in c.byId && c.byId[id].kind == kind
  }

  // ---------------------------------------------------------------- states

  function StateDimensionKey(): State -> string { (r: State) => r.dimensionKey }

  function SelectsState(spec: Spec): State -> bool {
    (r: State) =>
      && (spec.entities != [] ==> r.entity in spec.entities)
      && (spec.dimensions != [] ==> r.dimensionId in spec.dimensions)
      && (spec.values != [] ==> r.valueId in spec.values)
  }

  function StatePool(g: Graph, spec: Spec): seq<State> {
    Filter(EffectiveRow(g.corrections, g.user, StateKind, StateId()), Filter(SelectsState(spec), g.states))
  }

  function AskedKey(c: T.Catalog, dimensions: seq<Id>): string -> bool {
    (k: string) => dimensions != [] ==> exists d :: d in dimensions && d in c.byId && c.byId[d].key == k
  }

  /** The dimensions present in the pool, ascending, restricted to those asked for. */
  function StateDimensions(c: T.Catalog, spec: Spec, pool: seq<State>): seq<string> {
    Filter(AskedKey(c, spec.dimensions), KeysOf(StateDimensionKey(), pool))
  }

  datatype StateItem = StateItem(stateId: Id, dimensionKey: string, valueKey: string)

  datatype StateAnswer = StateAnswer(
    items: seq<StateItem>, completeness: Completeness, indeterminate: nat, matched: nat)

  /** The single current state, when there is exactly one. */
  function Primary(a: StateAnswer): Option<StateItem> {
    if |a.items| == 1 then Some(a.items[0]) else None
  }

  /** The worse of the two: indeterminate, then partial, then complete. */
  function Worse(overall: Completeness, next: Completeness): Completeness {
    if next == Indeterminate then Indeterminate
    else if next == Partial && overall != Indeterminate then Partial
    else overall
  }

  predicate CountsAsMatch(c: T.Catalog, spec: Spec, item: StateItem) {
    && item.valueKey in c.byKey
    && (spec.values != [] ==> c.byKey[item.valueKey].id in spec.values)
  }

  function AddDimension(c: T.Catalog, spec: Spec, a: StateAnswer, key: string, r: S.CurrentStateResult): StateAnswer {
    var b := a.(completeness := Worse(a.completeness, r.completeness), indeterminate := a.indeterminate + r.indeterminate);
    match r.state
    case None => b
    case Some(state) =>
      var item := StateItem(state.id, key, state.valueKey);
      b.(items := a.items + [item], matched := a.matched + (if CountsAsMatch(c, spec, item) then 1 else 0))
  }

  const NO_STATES := StateAnswer([], Complete, 0, 0)

  function ByDimension(c: T.Catalog, spec: Spec, pool: seq<State>, keys: seq<string>): StateAnswer {
    if keys == [] then NO_STATES
    else
      var key := keys[|keys| - 1];
      AddDimension(c, spec, ByDimension(c, spec, pool, keys[..|keys| - 1]), key, S.CurrentState(pool, key, true))
  }

  function StateQuery(c: T.Catalog, g: Graph, spec: Spec): Result<StateAnswer, QueryError> {
    if !OfKind(c, spec.dimensions, StateDimension) || !OfKind(c, spec.values, StateValue) then Err(SpecError)
    else match Visibility(spec, g)
      case Some(e) => Err(e)
      case None =>
        var pool := StatePool(g, spec);
        Ok(ByDimension(c, spec, pool, StateDimensions(c, spec, pool)))
  }

  /** The engine's own pass: filter, then one loop over the dimensions accumulating the answer. */
  method ExecuteState(c: T.Catalog, g: Graph, spec: Spec) returns (answer: Result<StateAnswer, QueryError>)
    ensures answer == StateQuery(c, g, spec)
  {
    if !OfKind(c, spec.dimensions, StateDimension) || !OfKind(c, spec.values, StateValue) { return Err(SpecError); }
    var denied := Visibility(spec, g);
    if denied.Some? { return Err(denied.value); }
    var pool := EffectiveStates(g, spec);
    var a := FoldDimensions(c, spec, pool, StateDimensions(c, spec, pool));
    answer := Ok(a);
  }

  method EffectiveStates(g: Graph, spec: Spec) returns (pool: seq<State>)
    ensures pool == StatePool(g, spec)
  {
    var resolver := new AssertionEffectivenessResolver(g.corrections, {});
    var selected := Filter(SelectsState(spec), g.states);
    var effective, _ := FilterEffective(selected, StateKind, g.user, resolver, g.corrections, StateId());
    NothingUnknown(g.corrections, g.user, StateKind, StateId(), selected);
    pool := effective;
  }

  method FoldDimensions(c: T.Catalog, spec: Spec, pool: seq<State>, keys: seq<string>) returns (a: StateAnswer)
    ensures a == ByDimension(c, spec, pool, keys)
  {
    a := NO_STATES;
    for i := 0 to |keys|
      invariant a == ByDimension(c, spec, pool, keys[..i])
    {
      assert keys[..i + 1][..i] == keys[..i];
      var r := S.ResolveCurrent(pool, keys[i], true);
      a := AddDimension(c, spec, a, keys[i], r);
    }
    assert keys[..|keys|] == keys;
  }

  // ---------------------------------------------------------------- attributes and measurements

  function OfEntities<X>(entities: seq<Id>, entity: X -> Id): X -> bool {
    (x: X) => entities != [] ==> entity(x) in entities
  }

  function AttributeEntity(): Attribute -> Id { (a: Attribute) => a.entity }
  function MeasurementEntity(): Measurement -> Id { (m: Measurement) => m.entity }

  function AttributePool(g: Graph, spec: Spec, dimension: string): seq<Attribute> {
    Filter(EffectiveRow(g.corrections, g.user, AttributeKind, AttributeId()),
      Filter(A.OfDimension(dimension), Filter(OfEntities(spec.entities, AttributeEntity()), g.attributes)))
  }

  function AttributeQuery(g: Graph, spec: Spec, q: A.Query): Result<A.AttributeAnswer, QueryError> {
    match Visibility(spec, g)
    case Some(e) => Err(e)
    case None => Ok(A.AttributeQuery(AttributePool(g, spec, q.dimension), q))
  }

  function MeasurementPool(g: Graph, spec: Spec): seq<Measurement> {
    Filter(EffectiveRow(g.corrections, g.user, MeasurementKind, MeasurementId()),
      Filter(OfEntities(spec.entities, MeasurementEntity()), g.measurements))
  }

  function MeasurementQuery(g: Graph, spec: Spec, q: M.Query): Result<M.MeasurementAnswer, QueryError> {
    match Visibility(spec, g)
    case Some(e) => Err(e)
    case None => Ok(M.MeasurementQuery(MeasurementPool(g, spec), q))
  }

  // ---------------------------------------------------------------- relations

  /** Which end each entity of the query stands for. */
  function Endpoints(spec: Spec): (Option<Id>, Option<Id>) {
    var first := if spec.entities != [] then Some(spec.entities[0]) else None;
    if |spec.entities| >= 2 then (first, Some(spec.entities[1]))
    else if spec.association == Some(RelationSubject) then (first, None)
    else if spec.association == Some(RelationObject) then (None, first)
    else (first, None)
  }

  function Concepts(ids: seq<Id>): set<Id> {
    set i | i in ids
  }

  function EffectiveRelations(g: Graph): seq<Relation> {
    Filter(EffectiveRow(g.corrections, g.user, RelationKind, RelationId()), g.relations)
  }

  function ToType(types: seq<Id>, entities: map<Id, Id>): Relation -> bool {
    (r: Relation) => types != [] ==> r.toId in entities && entities[r.toId] in types
  }

  function IsCurrentRow(): Relation -> bool { (r: Relation) => r.isCurrent }

  function RowsOf(matches: seq<Rel.RelationMatch>): (r: seq<Relation>)
    ensures |r| == |matches|
    ensures forall i :: 0 <= i < |matches| ==> r[i] == matches[i].relation
  {
    if matches == [] then [] else RowsOf(matches[..|matches| - 1]) + [matches[|matches| - 1].relation]
  }

  datatype RelationReply = RelationReply(
    items: seq<Relation>, answer: Option<Rel.Answer>, completeness: Completeness, indeterminate: nat)

  /** A class constraint on the object filters the items and, for the current question, decides anew. */
  function Reply(g: Graph, spec: Spec, a: Rel.RelationAnswer): RelationReply {
    var items := Filter(ToType(spec.objectTypes, g.entities), RowsOf(a.matches));
    var answer :=
      if spec.objectTypes != [] && spec.relationKind != Some(HistoricalExistence) then
        Some(if Filter(IsCurrentRow(), items) != [] then Rel.Yes else Rel.No)
      else a.answer;
    RelationReply(items, answer, a.completeness, a.indeterminate)
  }

  function RelationQuery(t: R.Table, c: T.Catalog, g: Graph, spec: Spec): Result<RelationReply, QueryError> {
    if !OfKind(c, spec.relationTypes, RelationType) then Err(SpecError)
    else match Visibility(spec, g)
      case Some(e) => Err(e)
      case None =>
        var (subject, object_) := Endpoints(spec);
        var pattern := Rel.Pattern(subject, object_, Concepts(spec.relationTypes));
        var rows := EffectiveRelations(g);
        var answer :=
          if spec.relationKind == Some(HistoricalExistence) then Rel.HistoricalExistence(t, rows, pattern)
          else Rel.RelationQuery(t, rows, pattern, spec.scope, subject.Some? && object_.Some?);
        Ok(Reply(g, spec, answer))
  }

  method ExecuteRelation(t: R.Table, c: T.Catalog, g: Graph, spec: Spec)
    returns (reply: Result<RelationReply, QueryError>)
    ensures reply == RelationQuery(t, c, g, spec)
  {
    if !OfKind(c, spec.relationTypes, RelationType) { return Err(SpecError); }
    var denied := Visibility(spec, g);
    if denied.Some? { return Err(denied.value); }
    var resolver := new AssertionEffectivenessResolver(g.corrections, {});
    var rows, _ := FilterEffective(g.relations, RelationKind, g.user, resolver, g.corrections, RelationId());
    NothingUnknown(g.corrections, g.user, RelationKind, RelationId(), g.relations);
    var (subject, object_) := Endpoints(spec);
    var pattern := Rel.Pattern(subject, object_, Concepts(spec.relationTypes));
    var answer;
    if spec.relationKind == Some(HistoricalExistence) {
      answer := Rel.HistoricalExistence(t, rows, pattern);
    } else {
      answer := Rel.ResolveRelationQuery(t, rows, pattern, spec.scope, subject.Some? && object_.Some?);
    }
    reply := Ok(Reply(g, spec, answer));
  }

  // ---------------------------------------------------------------- row order never decides

  /** Two loads of the same rows in different orders. */
  ghost predicate SameRows(g: Graph, h: Graph) {
    && g.user == h.user && g.entities == h.entities
    && multiset(g.events) == multiset(h.events)
    && multiset(g.relations) == multiset(h.relations)
    && multiset(g.states) == multiset(h.states)
    && multiset(g.attributes) == multiset(h.attributes)
    && multiset(g.measurements) == multiset(h.measurements)
    && multiset(g.corrections) == multiset(h.corrections)
  }

  lemma VisibilityOrderFree(spec: Spec, g: Graph, h: Graph)
    requires SameRows(g, h)
    ensures Visibility(spec, g) == Visibility(spec, h)
  {
    forall r ensures r in g.events <==> r in h.events { PermutationMember(g.events, h.events, r); }
  }

  lemma EffectiveOrderFree<X(!new)>(g: Graph, h: Graph, kind: Kind, id: X -> Id, rows: seq<X>)
    requires SameRows(g, h)
    ensures Filter(EffectiveRow(g.corrections, g.user, kind, id), rows)
         == Filter(EffectiveRow(h.corrections, h.user, kind, id), rows)
  {
    forall c ensures c in g.corrections <==> c in h.corrections { PermutationMember(g.corrections, h.corrections, c); }
    FilterAgree(EffectiveRow(g.corrections, g.user, kind, id), EffectiveRow(h.corrections, h.user, kind, id), rows);
  }

  lemma {:induction false} ByDimensionAgree(
    c: T.Catalog, spec: Spec, s: seq<State>, t: seq<State>, keys: seq<string>)
    requires multiset(s) == multiset(t) && IdsIdentify(StateId(), s)
    ensures ByDimension(c, spec, s, keys) == ByDimension(c, spec, t, keys)
  {
    if keys != [] {
      ByDimensionAgree(c, spec, s, t, keys[..|keys| - 1]);
      S.CurrentStateOrderFree(s, t, keys[|keys| - 1], true);
    }
  }

  lemma {:induction false} StateQueryOrderFree(c: T.Catalog, g: Graph, h: Graph, spec: Spec)
    requires SameRows(g, h) && IdsIdentify(StateId(), g.states)
    ensures StateQuery(c, g, spec) == StateQuery(c, h, spec)
  {
    VisibilityOrderFree(spec, g, h);
    var p := SelectsState(spec);
    var a, b := Filter(p, g.states), Filter(p, h.states);
    FilterPermutation(p, g.states, h.states);
    EffectiveOrderFree(g, h, StateKind, StateId(), b);
    var effective := EffectiveRow(g.corrections, g.user, StateKind, StateId());
    FilterPermutation(effective, a, b);
    forall x | x in StatePool(g, spec) ensures x in g.states {
      FilterMember(effective, a, x);
      FilterMember(p, g.states, x);
    }
    KeysOrderFree(StateDimensionKey(), StatePool(g, spec), StatePool(h, spec));
    ByDimensionAgree(c, spec, StatePool(g, spec), StatePool(h, spec), StateDimensions(c, spec, StatePool(g, spec)));
  }

  lemma {:induction false} AttributeQueryOrderFree(g: Graph, h: Graph, spec: Spec, q: A.Query)
    requires SameRows(g, h) && IdsIdentify(AttributeId(), g.attributes)
    ensures var a, b := AttributeQuery(g, spec, q), AttributeQuery(h, spec, q);
      if a.Err? then a == b else b.Ok? && A.SaySame(a.value, b.value)
  {
    VisibilityOrderFree(spec, g, h);
    var p, d := OfEntities(spec.entities, AttributeEntity()), A.OfDimension(q.dimension);
    var effective := EffectiveRow(g.corrections, g.user, AttributeKind, AttributeId());
    FilterPermutation(p, g.attributes, h.attributes);
    FilterPermutation(d, Filter(p, g.attributes), Filter(p, h.attributes));
    EffectiveOrderFree(g, h, AttributeKind, AttributeId(), Filter(d, Filter(p, h.attributes)));
    FilterPermutation(effective, Filter(d, Filter(p, g.attributes)), Filter(d, Filter(p, h.attributes)));
    var x, y := AttributePool(g, spec, q.dimension), AttributePool(h, spec, q.dimension);
    forall r | r in x ensures r in g.attributes {
      FilterMember(effective, Filter(d, Filter(p, g.attributes)), r);
      FilterMember(d, Filter(p, g.attributes), r);
      FilterMember(p, g.attributes, r);
    }
    A.AttributeQueryOrderFree(x, y, q);
  }

  lemma {:induction false} MeasurementQueryOrderFree(g: Graph, h: Graph, spec: Spec, q: M.Query)
    requires SameRows(g, h)
    ensures var a, b := MeasurementQuery(g, spec, q), MeasurementQuery(h, spec, q);
      if a.Err? then a == b else b.Ok? && M.SaySame(a.value, b.value)
  {
    VisibilityOrderFree(spec, g, h);
    var p := OfEntities(spec.entities, MeasurementEntity());
    var effective := EffectiveRow(g.corrections, g.user, MeasurementKind, MeasurementId());
    FilterPermutation(p, g.measurements, h.measurements);
    EffectiveOrderFree(g, h, MeasurementKind, MeasurementId(), Filter(p, h.measurements));
    FilterPermutation(effective, Filter(p, g.measurements), Filter(p, h.measurements));
    M.MeasurementQueryOrderFree(MeasurementPool(g, spec), MeasurementPool(h, spec), q);
  }

  function ShowsRow(r: Relation): Rel.RelationMatch -> bool { (m: Rel.RelationMatch) => m.relation == r }

  lemma {:induction false} RowsOfCount(matches: seq<Rel.RelationMatch>, r: Relation)
    ensures multiset(RowsOf(matches))[r] == |Filter(ShowsRow(r), matches)|
  {
    if matches != [] { RowsOfCount(matches[..|matches| - 1], r); }
  }

  lemma {:induction false} RowsOfPermutation(a: seq<Rel.RelationMatch>, b: seq<Rel.RelationMatch>)
    requires multiset(a) == multiset(b)
    ensures multiset(RowsOf(a)) == multiset(RowsOf(b))
  {
    forall r ensures multiset(RowsOf(a))[r] == multiset(RowsOf(b))[r] {
      RowsOfCount(a, r);
      RowsOfCount(b, r);
      FilterPermutation(ShowsRow(r), a, b);
      PermutationLength(Filter(ShowsRow(r), a), Filter(ShowsRow(r), b));
    }
  }

  lemma {:induction false} RelationQueryOrderFree(t: R.Table, c: T.Catalog, g: Graph, h: Graph, spec: Spec)
    requires SameRows(g, h) && IdsIdentify(RelationId(), g.relations)
    ensures var a, b := RelationQuery(t, c, g, spec), RelationQuery(t, c, h, spec);
      if a.Err? then a == b
      else b.Ok? && a.value.answer == b.value.answer && multiset(a.value.items) == multiset(b.value.items)
  {
    VisibilityOrderFree(spec, g, h);
    var effective := EffectiveRow(g.corrections, g.user, RelationKind, RelationId());
    EffectiveOrderFree(g, h, RelationKind, RelationId(), h.relations);
    FilterPermutation(effective, g.relations, h.relations);
    var x, y := EffectiveRelations(g), EffectiveRelations(h);
    forall r | r in x ensures r in g.relations { FilterMember(effective, g.relations, r); }
    var (subject, object_) := Endpoints(spec);
    var pattern := Rel.Pattern(subject, object_, Concepts(spec.relationTypes));
    Rel.AnswersOrderFree(t, x, y, pattern, spec.scope, subject.Some? && object_.Some?);
    Rel.ExistenceOrderFree(t, x, y, pattern);
    var a, b :=
      if spec.relationKind == Some(HistoricalExistence) then Rel.HistoricalExistence(t, x, pattern)
      else Rel.RelationQuery(t, x, pattern, spec.scope, subject.Some? && object_.Some?),
      if spec.relationKind == Some(HistoricalExistence) then Rel.HistoricalExistence(t, y, pattern)
      else Rel.RelationQuery(t, y, pattern, spec.scope, subject.Some? && object_.Some?);
    ReplyOrderFree(g, h, spec, a, b);
  }

  lemma {:induction false} ReplyOrderFree(g: Graph, h: Graph, spec: Spec, a: Rel.RelationAnswer, b: Rel.RelationAnswer)
    requires g.entities == h.entities
    requires a.answer == b.answer && multiset(a.matches) == multiset(b.matches)
    ensures Reply(g, spec, a).answer == Reply(h, spec, b).answer
    ensures multiset(Reply(g, spec, a).items) == multiset(Reply(h, spec, b).items)
  {
    RowsOfPermutation(a.matches, b.matches);
    var p := ToType(spec.objectTypes, g.entities);
    FilterPermutation(p, RowsOf(a.matches), RowsOf(b.matches));
    var i, j := Filter(p, RowsOf(a.matches)), Filter(p, RowsOf(b.matches));
    FilterPermutation(IsCurrentRow(), i, j);
    PermutationLength(Filter(IsCurrentRow(), i), Filter(IsCurrentRow(), j));
  }
}
