/** Writers and readers together: what a query over any reachable store answers about what was written. */
module ReadBack {
  import opened Prelude
  import opened Domain
  import opened Store
  import opened TimeRanking
  import opened Runs
  import opened LedgerLifecycle
  import opened StateLifecycle
  import opened AttributeLifecycle
  import opened RelationLifecycle
  import opened EffectivenessResolver
  import opened QueryEngine
  import opened SortedKeys
  import V = Versions
  import R = RelationMetadata
  import S = StateResolver
  import A = AttributeResolver
  import G = Grouping
  import Rel = RelationResolver
  import Lex
  import B = QueryBuilder

  /** A user's corrections decide the effectiveness of the user's assertions. */
  lemma UserLedger(s: Store, user: Id, ref: Ref)
    requires LedgerOk(s) && ref.user == user
    ensures Targeted(Filter(CorrectionsOf(user), s.ledger), ref) <==> Targeted(s.ledger, ref)
  {
    forall c ensures c in Filter(CorrectionsOf(user), s.ledger) <==> c in s.ledger && c.user == user {
      FilterMember(CorrectionsOf(user), s.ledger, c);
    }
  }

  // ---------------------------------------------------------------- states

  /** What is true now of a key: the state written last, unless a correction targets it. */
  ghost function StateNow(s: Store, key: Key): Option<State> {
    match LastState(s.states, key)
    case None => None
    case Some(r) => if Targeted(s.ledger, Ref(key.user, StateKind, r.id)) then None else Some(r)
  }

  function StateSpec(entity: Id, dimension: Id): Spec {
    Spec([entity], Some(Subject), [], [], [dimension], [], [], [], Rel.CurrentScope, None)
  }

  ghost predicate EffectiveState(s: Store, key: Key, r: State) {
    r in s.states && StateOf(key)(r) && !Targeted(s.ledger, Ref(key.user, StateKind, r.id))
  }

  /** Asking by dimension id selects the rows with the dimension's key. */
  lemma SelectsKey(env: Env, s: Store, key: Key, dimension: Id, r: State)
    requires CatalogOk(env.catalog) && StatesOk(env.catalog, s.states) && r in s.states
    requires dimension in env.catalog.byId && env.catalog.byId[dimension].kind == StateDimension
    requires env.catalog.byId[dimension].key == key.dimension
    ensures SelectsState(StateSpec(key.entity, dimension))(r) <==> r.entity == key.entity && r.dimensionKey == key.dimension
  {
    assert StateDimensionOk(env.catalog, r);
  }

  /** The pool of the question holds exactly the effective states of the key. */
  lemma {:induction false} StatePoolExactly(env: Env, s: Store, key: Key, dimension: Id, entities: map<Id, Id>, r: State)
    requires CatalogOk(env.catalog) && StoreOk(env, s)
    requires dimension in env.catalog.byId && env.catalog.byId[dimension].kind == StateDimension
    requires env.catalog.byId[dimension].key == key.dimension
    ensures r in StatePool(LoadGraph(s, key.user, entities), StateSpec(key.entity, dimension)) <==>
      EffectiveState(s, key, r)
  {
    var g, spec := LoadGraph(s, key.user, entities), StateSpec(key.entity, dimension);
    FilterMember(EffectiveRow(g.corrections, key.user, StateKind, StateId()), Filter(SelectsState(spec), g.states), r);
    FilterMember(SelectsState(spec), g.states, r);
    FilterMember(StatesOf(key.user), s.states, r);
    UserLedger(s, key.user, Ref(key.user, StateKind, r.id));
    if r in s.states { SelectsKey(env, s, key, dimension, r); }
  }

  function EffectiveNow(s: Store, key: Key): State -> bool {
    (r: State) => !Targeted(s.ledger, Ref(key.user, StateKind, r.id))
  }

  /** Among the effective states of the key, the current ones are what is true now. */
  lemma {:induction false} CurrentPool(env: Env, s: Store, key: Key, dimension: Id, entities: map<Id, Id>)
    requires CatalogOk(env.catalog) && StoreOk(env, s)
    requires dimension in env.catalog.byId && env.catalog.byId[dimension].kind == StateDimension
    requires env.catalog.byId[dimension].key == key.dimension
    ensures Filter(S.InPool(key.dimension, true), StatePool(LoadGraph(s, key.user, entities), StateSpec(key.entity, dimension)))
         == V.AsList(StateNow(s, key))
  {
    var g, spec := LoadGraph(s, key.user, entities), StateSpec(key.entity, dimension);
    var effective := EffectiveRow(g.corrections, key.user, StateKind, StateId());
    var now := Both(LiveState(key), EffectiveNow(s, key));
    forall r | r in s.states
      ensures StatesOf(key.user)(r) && SelectsState(spec)(r) && effective(r) && S.InPool(key.dimension, true)(r) <==> now(r)
    {
      UserLedger(s, key.user, Ref(key.user, StateKind, r.id));
      SelectsKey(env, s, key, dimension, r);
    }
    FilterFour(StatesOf(key.user), SelectsState(spec), effective, S.InPool(key.dimension, true), now, s.states);
    LiveAndEffective(env, s, key);
  }

  lemma {:induction false} LiveAndEffective(env: Env, s: Store, key: Key)
    requires StatesOk(env.catalog, s.states)
    ensures Filter(Both(LiveState(key), EffectiveNow(s, key)), s.states) == V.AsList(StateNow(s, key))
  {
    FilterTwice(LiveState(key), EffectiveNow(s, key), s.states);
    assert V.Chain(StateTrail(s.states, key));
    V.LiveIsLast(StateOf(key), StateVersion(), LiveState(key), s.states);
    if LastState(s.states, key).Some? {
      FilterAppend(EffectiveNow(s, key), [], LastState(s.states, key).value);
      assert [] + [LastState(s.states, key).value] == [LastState(s.states, key).value];
    }
  }

  /**
   * In every reachable store, asking for the current state of an entity in a dimension answers the state written
   * last, if no correction targets it, and no state otherwise: an older state never comes back.
   */
  lemma {:induction false} StateReadBack(env: Env, run: seq<Timed>, key: Key, dimension: Id, entities: map<Id, Id>)
    requires Deployed(env)
    requires dimension in env.catalog.byId && env.catalog.byId[dimension].kind == StateDimension
    requires env.catalog.byId[dimension].key == key.dimension
    requires key.entity in entities
    ensures var s := Run(env, run);
      var answer := StateQuery(env.catalog, LoadGraph(s, key.user, entities), StateSpec(key.entity, dimension));
      && answer.Ok?
      && match StateNow(s, key)
         case None => answer.value.items == [] && answer.value.completeness == Complete
         case Some(r) =>
           && answer.value.items == [StateItem(r.id, key.dimension, r.valueKey)]
           && Primary(answer.value) == Some(StateItem(r.id, key.dimension, r.valueKey))
           && answer.value.completeness == (if KnownTime(r.temporal) then Complete else Partial)
  {
    var s := Run(env, run);
    RunKeeps(env, run);
    var g, spec := LoadGraph(s, key.user, entities), StateSpec(key.entity, dimension);
    AnswersFromPool(env.catalog, g, spec);
    AskedDimension(env, s, key, dimension, entities);
    CurrentPool(env, s, key, dimension, entities);
    PoolAnswer(env.catalog, spec, StatePool(g, spec), key.dimension, StateNow(s, key));
  }

  lemma AnswersFromPool(c: Catalog, g: Graph, spec: Spec)
    requires OfKind(c, spec.dimensions, StateDimension) && spec.values == [] && spec.eventIds == []
    requires spec.association.Some? && forall e :: e in spec.entities ==> e in g.entities
    ensures var pool := StatePool(g, spec);
      StateQuery(c, g, spec) == Ok(ByDimension(c, spec, pool, StateDimensions(c, spec, pool)))
  {
    assert Visibility(spec, g).None?;
  }

  /** A pool whose current rows are `now` answers `now`, and says how well its time is known. */
  lemma {:induction false} PoolAnswer(c: Catalog, spec: Spec, pool: seq<State>, dimension: string, now: Option<State>)
    requires Filter(S.InPool(dimension, true), pool) == V.AsList(now)
    ensures var keys := if pool == [] then [] else [dimension];
      var answer := ByDimension(c, spec, pool, keys);
      match now
      case None => answer.items == [] && answer.completeness == Complete
      case Some(r) =>
        && answer.items == [StateItem(r.id, dimension, r.valueKey)]
        && answer.completeness == (if KnownTime(r.temporal) then Complete else Partial)
  {
    S.CurrentStateOfOne(pool, dimension, true);
    if pool != [] {
      var keys := [dimension];
      assert keys[..0] == [];
      assert ByDimension(c, spec, pool, keys) ==
        AddDimension(c, spec, NO_STATES, dimension, S.CurrentState(pool, dimension, true));
    }
  }

  /** The only dimension the answer can speak of is the one asked for, and it does when the pool has rows. */
  lemma {:induction false} AskedDimension(env: Env, s: Store, key: Key, dimension: Id, entities: map<Id, Id>)
    requires CatalogOk(env.catalog) && StoreOk(env, s)
    requires dimension in env.catalog.byId && env.catalog.byId[dimension].kind == StateDimension
    requires env.catalog.byId[dimension].key == key.dimension
    ensures var spec := StateSpec(key.entity, dimension);
      var pool := StatePool(LoadGraph(s, key.user, entities), spec);
      StateDimensions(env.catalog, spec, pool) == if pool == [] then [] else [key.dimension]
  {
    var spec := StateSpec(key.entity, dimension);
    var pool := StatePool(LoadGraph(s, key.user, entities), spec);
    var keys := KeysOf(StateDimensionKey(), pool);
    KeysOfExactly(StateDimensionKey(), pool);
    forall r | r in pool ensures r.dimensionKey == key.dimension {
      StatePoolExactly(env, s, key, dimension, entities, r);
    }
    var asked := StateDimensions(env.catalog, spec, pool);
    assert [dimension][0] in [dimension];
    if pool == [] {
      assert keys == [];
    } else {
      assert pool[0] in pool && StateDimensionKey()(pool[0]) == key.dimension;
      assert key.dimension in keys;
      AscendingUnique(keys, [key.dimension]);
      FilterAppend(AskedKey(env.catalog, [dimension]), [], key.dimension);
      assert [] + [key.dimension] == [key.dimension];
    }
  }

  /** A retraction or a bare replacement leaves what is true now as it was, or takes it away. */
  lemma CorrectionNeverRevives(env: Env, s: Store, step: Step, at: int, key: Key)
    requires step.RetractAssertion? || step.ReplaceAssertion?
    ensures StateNow(Apply(env, s, step, at), key) in {StateNow(s, key), None}
  {
    ApplyLedger(env, s, step, at);
  }

  /** A state write is read back at once: its id is new, so no correction can target it. */
  lemma {:induction false} WrittenStateIsNow(env: Env, s: Store, w: StateWrite, at: int)
    requires CatalogOk(env.catalog) && StoreOk(env, s)
    requires DoState(env, s.states, w, at).Some?
    ensures var (dimension, value) := ResolveState(env.catalog, w).value;
      var now := StateNow(s.(states := DoState(env, s.states, w, at).value), Key(w.user, w.subject.value, dimension.key));
      && now.Some? && now.value.id == w.id && now.value.isCurrent
      && now.value.entity == w.subject.value && now.value.dimensionId == dimension.id
      && now.value.valueId == value.id && now.value.valueKey == value.key
      && Some(now.value.temporal) == w.temporal && now.value.observedAt == at
  {
    var ref := Ref(w.user, StateKind, w.id);
    assert !Exists(s, ref);
    assert !Targeted(s.ledger, ref);
  }

  // ---------------------------------------------------------------- singleton attributes

  /** A question about one entity, with no further filter. */
  function SubjectSpec(entity: Id): Spec {
    Spec([entity], Some(Subject), [], [], [], [], [], [], Rel.CurrentScope, None)
  }

  function Lookup(dimension: string): A.Query {
    A.Query(dimension, A.ValueLookupMode, None, None, A.CurrentPolicy, false, None)
  }

  ghost predicate EffectiveAttribute(s: Store, key: Key, r: Attribute) {
    r in s.attributes && AttributeOf(key)(r) && !Targeted(s.ledger, Ref(key.user, AttributeKind, r.id))
  }

  function EffectiveAttributeNow(s: Store, key: Key): Attribute -> bool {
    (r: Attribute) => !Targeted(s.ledger, Ref(key.user, AttributeKind, r.id))
  }

  lemma {:induction false} AttributePoolExactly(env: Env, s: Store, key: Key, entities: map<Id, Id>, r: Attribute)
    requires StoreOk(env, s)
    ensures r in AttributePool(LoadGraph(s, key.user, entities), SubjectSpec(key.entity), key.dimension) <==>
      EffectiveAttribute(s, key, r)
  {
    var g, spec := LoadGraph(s, key.user, entities), SubjectSpec(key.entity);
    var p := OfEntities(spec.entities, AttributeEntity());
    FilterMember(EffectiveRow(g.corrections, key.user, AttributeKind, AttributeId()),
      Filter(A.OfDimension(key.dimension), Filter(p, g.attributes)), r);
    FilterMember(A.OfDimension(key.dimension), Filter(p, g.attributes), r);
    FilterMember(p, g.attributes, r);
    FilterMember(AttributesOf(key.user), s.attributes, r);
    UserLedger(s, key.user, Ref(key.user, AttributeKind, r.id));
  }

  /** The value last asserted as current, unless a correction targets it. */
  ghost function AttributeNow(s: Store, key: Key): Option<Attribute> {
    match LastAsserted(s.attributes, key)
    case None => None
    case Some(r) => if Targeted(s.ledger, Ref(key.user, AttributeKind, r.id)) then None else Some(r)
  }

  /** A value asserted as current is what is known next of its singleton dimension. */
  lemma {:induction false} AssertedValueIsNow(env: Env, s: Store, w: AttributeWrite, at: int)
    requires StoreOk(env, s) && w.isCurrent && w.dimension in env.singleton
    requires DoAttribute(env, s.attributes, w, at).Some?
    ensures var entity := AttributeSubject(w).value;
      var now := AttributeNow(s.(attributes := DoAttribute(env, s.attributes, w, at).value), Key(w.user, entity, w.dimension));
      && now.Some? && now.value.id == w.id && now.value.isCurrent
      && now.value.value == w.value && now.value.temporal == w.temporal && now.value.observedAt == at
  {
    var ref := Ref(w.user, AttributeKind, w.id);
    assert !Exists(s, ref);
    assert !Targeted(s.ledger, ref);
  }

  lemma {:induction false} CurrentAttributes(env: Env, s: Store, key: Key, entities: map<Id, Id>)
    requires StoreOk(env, s) && key.dimension in env.singleton
    ensures Filter(A.IsCurrent(), Filter(A.OfDimension(key.dimension),
              AttributePool(LoadGraph(s, key.user, entities), SubjectSpec(key.entity), key.dimension)))
         == V.AsList(AttributeNow(s, key))
  {
    var g, spec := LoadGraph(s, key.user, entities), SubjectSpec(key.entity);
    var ofUser, ofEntity, ofDimension :=
      AttributesOf(key.user), OfEntities(spec.entities, AttributeEntity()), A.OfDimension(key.dimension);
    var effective := EffectiveRow(g.corrections, key.user, AttributeKind, AttributeId());
    var now := Both(LiveAttribute(key), EffectiveAttributeNow(s, key));
    forall r | r in s.attributes
      ensures AttributeOf(key)(r) && effective(r) && ofDimension(r) && A.IsCurrent()(r) <==> now(r)
    {
      UserLedger(s, key.user, Ref(key.user, AttributeKind, r.id));
    }
    FilterThree(ofUser, ofEntity, ofDimension, AttributeOf(key), s.attributes);
    FilterFour(AttributeOf(key), effective, ofDimension, A.IsCurrent(), now, s.attributes);
    LiveAndEffectiveAttribute(env, s, key);
  }

  lemma {:induction false} LiveAndEffectiveAttribute(env: Env, s: Store, key: Key)
    requires AttributesOk(env.singleton, s.attributes) && key.dimension in env.singleton
    ensures Filter(Both(LiveAttribute(key), EffectiveAttributeNow(s, key)), s.attributes) == V.AsList(AttributeNow(s, key))
  {
    FilterTwice(LiveAttribute(key), EffectiveAttributeNow(s, key), s.attributes);
    V.LiveIsLast(AssertedAttribute(key), AttributeVersion(), LiveAttribute(key), s.attributes);
    if LastAsserted(s.attributes, key).Some? {
      var r := LastAsserted(s.attributes, key).value;
      FilterAppend(EffectiveAttributeNow(s, key), [], r);
      assert [] + [r] == [r];
    }
  }

  /**
   * For a singleton dimension the lookup on one entity is never ambiguous: it knows the value last asserted as
   * current if that row is effective; it knows nothing current if other effective rows remain; else it knows nothing.
   */
  lemma {:induction false} SingletonReadBack(env: Env, run: seq<Timed>, key: Key, entities: map<Id, Id>)
    requires Deployed(env) && key.dimension in env.singleton && key.entity in entities
    ensures var s := Run(env, run);
      var answer := AttributeQuery(LoadGraph(s, key.user, entities), SubjectSpec(key.entity), Lookup(key.dimension));
      && answer.Ok?
      && match AttributeNow(s, key)
         case Some(r) =>
           && answer.value.status == A.KnownSingle
           && answer.value.candidates == [r]
           && answer.value.groups == [G.Group(r.value, [r], 1)]
         case None =>
           answer.value.status ==
             if exists r :: EffectiveAttribute(s, key, r) then A.TemporallyUnknown else A.Unknown
  {
    var s := Run(env, run);
    RunKeeps(env, run);
    var g, spec := LoadGraph(s, key.user, entities), SubjectSpec(key.entity);
    var pool := AttributePool(g, spec, key.dimension);
    var again := Filter(A.OfDimension(key.dimension), pool);
    assert Visibility(spec, g).None?;
    CurrentAttributes(env, s, key, entities);
    LookupOfCurrent(again, AttributeNow(s, key));
    forall r ensures r in again <==> EffectiveAttribute(s, key, r) {
      AttributePoolExactly(env, s, key, entities, r);
      FilterMember(A.OfDimension(key.dimension), pool, r);
    }
    if again != [] { assert again[0] in again; }
  }

  lemma {:induction false} LookupOfCurrent(pool: seq<Attribute>, now: Option<Attribute>)
    requires Filter(A.IsCurrent(), pool) == V.AsList(now)
    ensures var answer := A.ValueLookup(pool, None, A.CurrentPolicy, false, None);
      match now
      case Some(r) => answer == A.AttributeAnswer(A.KnownSingle, [G.Group(r.value, [r], 1)], [r], false, None)
      case None => answer.status == if pool != [] then A.TemporallyUnknown else A.Unknown
  {
    if now.Some? { OneRowGroups(now.value); }
  }

  lemma OneRowGroups(r: Attribute)
    ensures A.GroupsOf([r]) == [G.Group(r.value, [r], 1)]
  {
    assert [r][..0] == [];
    FilterAppend(G.HasIdentity(A.ValueOf(), r.value), [], r);
    assert [] + [r] == [r] && [] + [r.value] == [r.value];
    assert G.Identities(A.ValueOf(), [r]) == [r.value];
  }

  // ---------------------------------------------------------------- relations

  /** Some current row of the link counts. */
  ghost predicate EffectivelyHolds(s: Store, link: Link) {
    exists r :: r in s.relations && r.isCurrent && LinkOf(r) == link && !Targeted(s.ledger, Ref(link.user, RelationKind, r.id))
  }

  ghost function EffectiveLink(s: Store, link: Link): Relation -> bool {
    (r: Relation) => r.isCurrent && LinkOf(r) == link && !Targeted(s.ledger, Ref(link.user, RelationKind, r.id))
  }

  /** A stored row matches a question between two distinct entities exactly when it is a row of their link. */
  lemma {:induction false} MatchesIsLink(env: Env, r: Relation, user: Id, key: string, x: Id, y: Id)
    requires CatalogOk(env.catalog) && RelationRowOk(env, r) && r.user == user && x != y
    requires LinkFor(env, user, key, x, y).Some?
    ensures var (a, b) := R.Oriented(env.relations, x, y, key);
      var concept := RelationConcept(env.catalog, R.StoredQuery(env.relations, key).0).value.id;
      Rel.MatchesTriple(env.relations, Rel.Pattern(Some(a), Some(b), {concept}), Rel.CurrentScope, r) <==>
        r.isCurrent && LinkOf(r) == LinkFor(env, user, key, x, y).value
  {
    var (a, b) := R.Oriented(env.relations, x, y, key);
    var stored := R.StoredQuery(env.relations, key).0;
    var concept := RelationConcept(env.catalog, stored).value.id;
    if r.conceptId == concept { assert r.key == stored; }
    Lex.Total(a, b);
    if Lex.Less(a, b) { Lex.Asymmetric(a, b); }
    if Lex.Less(b, a) { Lex.Asymmetric(b, a); }
  }

  lemma {:induction false} FoundRows(env: Env, s: Store, user: Id, key: string, x: Id, y: Id, entities: map<Id, Id>)
    requires CatalogOk(env.catalog) && StoreOk(env, s) && x != y
    requires LinkFor(env, user, key, x, y).Some?
    ensures var (a, b) := R.Oriented(env.relations, x, y, key);
      var concept := RelationConcept(env.catalog, R.StoredQuery(env.relations, key).0).value.id;
      var f := Rel.Matching(env.relations, Rel.Pattern(Some(a), Some(b), {concept}), Rel.CurrentScope);
      var found := Filter(f, EffectiveRelations(LoadGraph(s, user, entities)));
      |found| <= 1 && (found != [] <==> EffectivelyHolds(s, LinkFor(env, user, key, x, y).value))
  {
    var (a, b) := R.Oriented(env.relations, x, y, key);
    var concept := RelationConcept(env.catalog, R.StoredQuery(env.relations, key).0).value.id;
    var f := Rel.Matching(env.relations, Rel.Pattern(Some(a), Some(b), {concept}), Rel.CurrentScope);
    var g, link := LoadGraph(s, user, entities), LinkFor(env, user, key, x, y).value;
    var effective := EffectiveRow(g.corrections, user, RelationKind, RelationId());
    var counts := EffectiveLink(s, link);
    forall r | r in s.relations
      ensures RelationsOf(user)(r) && effective(r) && f(r) <==> counts(r)
    {
      UserLedger(s, user, Ref(user, RelationKind, r.id));
      var i :| 0 <= i < |s.relations| && s.relations[i] == r;
      assert RelationRowOk(env, s.relations[i]);
      if r.user == user { MatchesIsLink(env, r, user, key, x, y); }
    }
    FilterThree(RelationsOf(user), effective, f, counts, s.relations);
    FilterAtMostOne(counts, s.relations);
    var found := Filter(counts, s.relations);
    if found != [] {
      FilterMember(counts, s.relations, found[0]);
    } else if EffectivelyHolds(s, link) {
      var r :| r in s.relations && r.isCurrent && LinkOf(r) == link && !Targeted(s.ledger, Ref(user, RelationKind, r.id));
      FilterMember(counts, s.relations, r);
    }
  }

  /**
   * In every reachable store the current question about two distinct entities, asked through any key of the
   * relation, is answered yes exactly when a current row of their link counts, and no otherwise.
   */
  lemma {:induction false} RelationReadBack(
    env: Env, s: Store, user: Id, key: string, x: Id, y: Id,
    association: Option<Association>, kind: Option<RelationKind>, entities: map<Id, Id>)
    requires CatalogOk(env.catalog) && StoreOk(env, s)
    requires x != y && x in entities && y in entities
    requires LinkFor(env, user, key, x, y).Some?
    requires kind != Some(HistoricalExistence)
    ensures var spec := B.BuildRelationSpec(env, [key], [x, y], association, Rel.CurrentScope, kind);
      spec.Some? &&
      var reply := RelationQuery(env.relations, env.catalog, LoadGraph(s, user, entities), spec.value);
      reply.Ok? && reply.value.answer == Some(
        if EffectivelyHolds(s, LinkFor(env, user, key, x, y).value) then Rel.Yes else Rel.No)
  {
    B.BuildsStoredDirection(env, key, x, y, association, kind);
    var spec := B.BuildRelationSpec(env, [key], [x, y], association, Rel.CurrentScope, kind).value;
    var (a, b) := R.Oriented(env.relations, x, y, key);
    var concept := RelationConcept(env.catalog, R.StoredQuery(env.relations, key).0).value.id;
    var g := LoadGraph(s, user, entities);
    AsksCurrent(env, g, spec, a, b, concept);
    FoundRows(env, s, user, key, x, y, entities);
    Rel.BooleanCurrentExactly(env.relations, EffectiveRelations(g), Rel.Pattern(Some(a), Some(b), {concept}));
  }

  /** A question naming two visible entities and one relation type is put to the relation resolver as it is. */
  lemma AsksCurrent(env: Env, g: Graph, spec: Spec, a: Id, b: Id, concept: Id)
    requires concept in env.catalog.byId && env.catalog.byId[concept].kind == RelationType
    requires spec.entities == [a, b] && a in g.entities && b in g.entities
    requires spec.relationTypes == [concept] && spec.objectTypes == [] && spec.eventIds == []
    requires spec.scope == Rel.CurrentScope && spec.relationKind != Some(HistoricalExistence)
    ensures var reply := RelationQuery(env.relations, env.catalog, g, spec);
      reply.Ok? && reply.value.answer == Rel.RelationQuery(
        env.relations, EffectiveRelations(g), Rel.Pattern(Some(a), Some(b), {concept}), Rel.CurrentScope, true).answer
  {
    assert Concepts(spec.relationTypes) == {concept};
    assert Endpoints(spec) == (Some(a), Some(b));
    assert Visibility(spec, g).None?;
  }

  /**
   * What a relation write does to the answer: a current assertion makes it yes, unless it only refreshed a row a
   * correction already targets; termination and denial make it no; a historical assertion leaves it.
   */
  lemma {:induction false} WriteDecidesAnswer(env: Env, s: Store, w: RelationWrite, at: int)
    requires StoreOk(env, s)
    requires DoRelation(env, s.relations, w, at).Some?
    ensures var link := LinkFor(env, w.user, w.key, w.subject.value, w.object_.value).value;
      var after := s.(relations := DoRelation(env, s.relations, w, at).value.rows);
      EffectivelyHolds(after, link) <==>
        if w.mode == Terminate || w.mode == DenyCurrent then false
        else if AssertsCurrent(w.mode, RelationTime(w).value) then
          HoldsCurrently(s.relations, link) ==> EffectivelyHolds(s, link)
        else EffectivelyHolds(s, link)
  {
    var link := LinkFor(env, w.user, w.key, w.subject.value, w.object_.value).value;
    var after := DoRelation(env, s.relations, w, at).value.rows;
    var t := RelationTime(w).value;
    var current := FindInstance(s.relations, link, true);
    WriteDecidesItsLink(env, s.relations, w, at, link);
    HeldIffFound(s.relations, link);
    if w.mode == Terminate || w.mode == DenyCurrent {
      assert !HoldsCurrently(after, link);
    } else if current.Some? && AssertsCurrent(w.mode, t) {
      RefreshKeepsEffect(s, current.value, at);
    } else {
      var key := R.StoredQuery(env.relations, w.key).0;
      var row := Relation(w.id, w.user, link.fromId, link.toId, link.conceptId, key, t, at, AssertsCurrent(w.mode, t), None);
      assert !Exists(s, Ref(w.user, RelationKind, w.id));
      assert !Targeted(s.ledger, Ref(w.user, RelationKind, w.id));
      forall x ensures x in s.relations + [row] <==> x in s.relations || x == row {}
    }
  }

  lemma EffectiveRelationMember(s: Store, user: Id, entities: map<Id, Id>, r: Relation)
    ensures r in EffectiveRelations(LoadGraph(s, user, entities)) <==>
      && r in s.relations && r.user == user
      && !Targeted(Filter(CorrectionsOf(user), s.ledger), Ref(user, RelationKind, r.id))
  {
    var g := LoadGraph(s, user, entities);
    FilterMember(EffectiveRow(g.corrections, user, RelationKind, RelationId()), g.relations, r);
    FilterMember(RelationsOf(user), s.relations, r);
  }

  lemma RelationWriteStays(env: Env, rows: seq<Relation>, w: RelationWrite, at: int)
    requires DoRelation(env, rows, w, at).Some?
    ensures RowsStay(rows, DoRelation(env, rows, w, at).value.rows)
  {
  }

  /** A row written over in place, and its old self, match the same questions about history. */
  lemma SameHistory(t: R.Table, p: Rel.Pattern, r: Relation, q: Relation)
    requires LinkOf(r) == LinkOf(q) && r.key == q.key
    ensures Rel.MatchesTriple(t, p, Rel.AnyScope, r) <==> Rel.MatchesTriple(t, p, Rel.AnyScope, q)
  {
  }

  /** No relation write takes history back: what could be shown to have held can still be shown. */
  lemma {:induction false} HistoryStays(
    env: Env, s: Store, w: RelationWrite, at: int, user: Id, entities: map<Id, Id>, p: Rel.Pattern)
    requires DoRelation(env, s.relations, w, at).Some?
    requires Rel.HistoricalExistence(env.relations, EffectiveRelations(LoadGraph(s, user, entities)), p).answer == Some(Rel.Yes)
    ensures var after := s.(relations := DoRelation(env, s.relations, w, at).value.rows);
      Rel.HistoricalExistence(env.relations, EffectiveRelations(LoadGraph(after, user, entities)), p).answer == Some(Rel.Yes)
  {
    var after := s.(relations := DoRelation(env, s.relations, w, at).value.rows);
    var g, h := EffectiveRelations(LoadGraph(s, user, entities)), EffectiveRelations(LoadGraph(after, user, entities));
    Rel.HistoricalExistenceExactly(env.relations, g, p);
    var r :| r in g && Rel.MatchesTriple(env.relations, p, Rel.AnyScope, r);
    EffectiveRelationMember(s, user, entities, r);
    var i :| 0 <= i < |s.relations| && s.relations[i] == r;
    RelationWriteStays(env, s.relations, w, at);
    var q := after.relations[i];
    assert LinkOf(q) == LinkOf(r) && q.key == r.key && q.id == r.id;
    EffectiveRelationMember(after, user, entities, q);
    SameHistory(env.relations, p, r, q);
    Rel.HistoricalExistenceExactly(env.relations, h, p);
  }

  lemma RefreshKeepsEffect(s: Store, i: nat, at: int)
    requires i < |s.relations|
    ensures var after := s.(relations := s.relations[i := s.relations[i].(observedAt := at)]);
      forall link :: EffectivelyHolds(after, link) <==> EffectivelyHolds(s, link)
  {
    var rows := s.relations[i := s.relations[i].(observedAt := at)];
    var after := s.(relations := rows);
    forall link ensures EffectivelyHolds(after, link) <==> EffectivelyHolds(s, link) {
      if EffectivelyHolds(s, link) {
        var r :| r in s.relations && r.isCurrent && LinkOf(r) == link
                 && !Targeted(s.ledger, Ref(link.user, RelationKind, r.id));
        var k :| 0 <= k < |s.relations| && s.relations[k] == r;
        assert rows[k] in rows;
      }
      if EffectivelyHolds(after, link) {
        var r :| r in rows && r.isCurrent && LinkOf(r) == link
                 && !Targeted(s.ledger, Ref(link.user, RelationKind, r.id));
        var k :| 0 <= k < |rows| && rows[k] == r;
        assert s.relations[k] in s.relations;
      }
    }
  }

  /**
   * Written through one key and read through another form of the same relation: the forward key, its inverse with
   * the entities exchanged, or, where the relation has no direction, the entities in either order.
   */
  lemma {:induction false} AssertThenAsk(
    env: Env, run: seq<Timed>, w: RelationWrite, at: int, key: string, x: Id, y: Id,
    association: Option<Association>, kind: Option<RelationKind>, entities: map<Id, Id>)
    requires Deployed(env)
    requires DoRelation(env, Run(env, run).relations, w, at).Some?
    requires x != y && x in entities && y in entities && kind != Some(HistoricalExistence)
    requires R.StoredQuery(env.relations, key).0 == R.StoredQuery(env.relations, w.key).0
    requires var (a, b) := R.Oriented(env.relations, x, y, key);
      var (c, d) := R.Oriented(env.relations, w.subject.value, w.object_.value, w.key);
      (a, b) == (c, d) || (R.OrderInsensitive(env.relations, R.StoredQuery(env.relations, key).0) && (a, b) == (d, c))
    ensures var s := Run(env, run);
      var link := LinkFor(env, w.user, w.key, w.subject.value, w.object_.value).value;
      var after := Run(env, run + [Timed(Ingest([WriteRelation(w)]), at)]);
      var spec := B.BuildRelationSpec(env, [key], [x, y], association, Rel.CurrentScope, kind);
      spec.Some? &&
      var reply := RelationQuery(env.relations, env.catalog, LoadGraph(after, w.user, entities), spec.value);
      reply.Ok? && reply.value.answer == Some(
        if w.mode == Terminate || w.mode == DenyCurrent then Rel.No
        else if AssertsCurrent(w.mode, RelationTime(w).value) then
          if HoldsCurrently(s.relations, link) && !EffectivelyHolds(s, link) then Rel.No else Rel.Yes
        else if EffectivelyHolds(s, link) then Rel.Yes else Rel.No)
  {
    var s := Run(env, run);
    var step := Timed(Ingest([WriteRelation(w)]), at);
    var ws := [WriteRelation(w)];
    assert (run + [step])[..|run|] == run && ws[1..] == [];
    var t := DoWrite(env, Txn(s, NOTHING), ws[0], at).value;
    assert DoWrites(env, Txn(s, NOTHING), ws, at) == Some(t);
    var after := Run(env, run + [step]);
    assert after == s.(relations := DoRelation(env, s.relations, w, at).value.rows);
    RunKeeps(env, run);
    RunKeeps(env, run + [step]);
    R.SameTripleExactly(env.relations, x, y, key, w.subject.value, w.object_.value, w.key);
    assert LinkFor(env, w.user, key, x, y) == LinkFor(env, w.user, w.key, w.subject.value, w.object_.value);
    WriteDecidesAnswer(env, s, w, at);
    RelationReadBack(env, after, w.user, key, x, y, association, kind, entities);
  }
}
