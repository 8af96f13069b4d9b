/** Attributes written and read back: what the engine answers about an entity's values over any run. */
module AttributeReadBack {
  import opened Prelude
  import opened Domain
  import opened Store
  import opened Runs
  import opened LedgerLifecycle
  import opened EffectivenessResolver
  import opened QueryEngine
  import opened ReadBack
  import A = AttributeResolver

  ghost function Effectively(s: Store, key: Key): Attribute -> bool {
    (r: Attribute) => EffectiveAttribute(s, key, r)
  }

  /** What the engine answers to a question about an entity. */
  function Ask(s: Store, key: Key, q: A.Query, entities: map<Id, Id>): Result<A.AttributeAnswer, QueryError> {
    AttributeQuery(LoadGraph(s, key.user, entities), SubjectSpec(key.entity), q)
  }

  function Pool(s: Store, key: Key, entities: map<Id, Id>): seq<Attribute> {
    Filter(A.OfDimension(key.dimension),
      AttributePool(LoadGraph(s, key.user, entities), SubjectSpec(key.entity), key.dimension))
  }

  lemma AnswersFromPool(s: Store, key: Key, q: A.Query, entities: map<Id, Id>)
    requires key.entity in entities && q.dimension == key.dimension
    ensures var pool := Pool(s, key, entities);
      Ask(s, key, q, entities) == Ok(
        match q.mode
        case HistoricalExistenceMode => A.Existence(pool, q.filter, q.range)
        case PropositionMode => A.PropositionQuery(pool, q.filter, q.range)
        case ValueLookupMode => A.ValueLookup(pool, q.range, q.policy, q.ascending, q.limit))
  {
    assert Visibility(SubjectSpec(key.entity), LoadGraph(s, key.user, entities)).None?;
  }

  lemma {:induction false} PoolExactly(env: Env, s: Store, key: Key, entities: map<Id, Id>)
    requires StoreOk(env, s)
    ensures forall r :: A.Among(Pool(s, key, entities))(r) <==> Effectively(s, key)(r)
  {
    var pool := AttributePool(LoadGraph(s, key.user, entities), SubjectSpec(key.entity), key.dimension);
    forall r ensures A.Among(Pool(s, key, entities))(r) <==> Effectively(s, key)(r) {
      AttributePoolExactly(env, s, key, entities, r);
      FilterMember(A.OfDimension(key.dimension), pool, r);
    }
  }

  /** In every reachable store the current value the engine answers is decided by the effective rows of the key. */
  lemma {:induction false} CurrentReadBack(
    env: Env, run: seq<Timed>, key: Key, range: Option<Window>, ascending: bool, limit: Option<int>, entities: map<Id, Id>)
    requires Deployed(env) && key.entity in entities
    ensures var q := A.Query(key.dimension, A.ValueLookupMode, None, range, A.CurrentPolicy, ascending, limit);
      var answer := Ask(Run(env, run), key, q, entities);
      answer.Ok? && A.AnswersCurrent(answer.value, Effectively(Run(env, run), key), range)
  {
    var s := Run(env, run);
    RunKeeps(env, run);
    var pool := Pool(s, key, entities);
    AnswersFromPool(s, key, A.Query(key.dimension, A.ValueLookupMode, None, range, A.CurrentPolicy, ascending, limit), entities);
    PoolExactly(env, s, key, entities);
    A.CurrentLookupExactly(pool, range, A.CurrentPolicy, ascending, limit);
    A.CurrentAgrees(A.ValueLookup(pool, range, A.CurrentPolicy, ascending, limit), A.Among(pool), Effectively(s, key), range);
  }

  /** So is whether a value is the one. */
  lemma {:induction false} ValueReadBack(
    env: Env, run: seq<Timed>, key: Key, f: Value, range: Option<Window>, entities: map<Id, Id>)
    requires Deployed(env) && key.entity in entities
    ensures var q := A.Query(key.dimension, A.PropositionMode, Some(f), range, A.CurrentPolicy, false, None);
      var answer := Ask(Run(env, run), key, q, entities);
      answer.Ok? && A.AnswersValue(answer.value, Effectively(Run(env, run), key), f, range)
  {
    var s := Run(env, run);
    RunKeeps(env, run);
    var pool := Pool(s, key, entities);
    AnswersFromPool(s, key, A.Query(key.dimension, A.PropositionMode, Some(f), range, A.CurrentPolicy, false, None), entities);
    PoolExactly(env, s, key, entities);
    A.PropositionExactly(pool, f, range);
    A.ValueAgrees(A.PropositionQuery(pool, Some(f), range), A.Among(pool), Effectively(s, key), f, range);
  }

  /** And whether it ever was. */
  lemma {:induction false} ExistenceReadBack(
    env: Env, run: seq<Timed>, key: Key, f: Value, range: Option<Window>, entities: map<Id, Id>)
    requires Deployed(env) && key.entity in entities
    ensures var q := A.Query(key.dimension, A.HistoricalExistenceMode, Some(f), range, A.CurrentPolicy, false, None);
      var answer := Ask(Run(env, run), key, q, entities);
      answer.Ok? && A.AnswersExistence(answer.value, Effectively(Run(env, run), key), f, range)
  {
    var s := Run(env, run);
    RunKeeps(env, run);
    var pool := Pool(s, key, entities);
    AnswersFromPool(
      s, key, A.Query(key.dimension, A.HistoricalExistenceMode, Some(f), range, A.CurrentPolicy, false, None), entities);
    PoolExactly(env, s, key, entities);
    A.ExistenceExactly(pool, f, range);
    A.ExistenceAgrees(A.Existence(pool, Some(f), range), A.Among(pool), Effectively(s, key), f, range);
  }

  /** The user's closed rows of the key in scope that no correction targets. */
  ghost function PreviousValues(s: Store, key: Key, range: Option<Window>): seq<Attribute> {
    Filter((r: Attribute) => EffectiveClosed(s, key, range, r), s.attributes)
  }

  ghost predicate EffectiveClosed(s: Store, key: Key, range: Option<Window>, r: Attribute) {
    EffectiveAttribute(s, key, r) && !r.isCurrent && A.InScope(r, range)
  }

  /** The history of a value is made of exactly those, in order, cut at the limit. */
  lemma {:induction false} HistoryReadBack(
    env: Env, run: seq<Timed>, key: Key, range: Option<Window>, ascending: bool, limit: Option<int>, entities: map<Id, Id>)
    returns (rest: seq<Attribute>)
    requires Deployed(env) && key.entity in entities
    requires PreviousValues(Run(env, run), key, range) != []
    ensures var q := A.Query(key.dimension, A.ValueLookupMode, None, range, A.HistoryPolicy, ascending, limit);
      var answer := Ask(Run(env, run), key, q, entities);
      answer.Ok? && A.AnswersHistory(answer.value, PreviousValues(Run(env, run), key, range), ascending, limit, rest)
  {
    var s := Run(env, run);
    RunKeeps(env, run);
    AnswersFromPool(s, key, A.Query(key.dimension, A.ValueLookupMode, None, range, A.HistoryPolicy, ascending, limit), entities);
    ClosedPool(env, s, key, range, entities);
    rest := A.HistoryExactly(Pool(s, key, entities), range, ascending, limit);
  }

  lemma {:induction false} ClosedPool(env: Env, s: Store, key: Key, range: Option<Window>, entities: map<Id, Id>)
    requires StoreOk(env, s)
    ensures Filter(A.ClosedInScope(range), Pool(s, key, entities)) == PreviousValues(s, key, range)
  {
    var g, spec := LoadGraph(s, key.user, entities), SubjectSpec(key.entity);
    var ofDimension := A.OfDimension(key.dimension);
    var effective := EffectiveRow(g.corrections, key.user, AttributeKind, AttributeId());
    var previous := (r: Attribute) => EffectiveClosed(s, key, range, r);
    forall r | r in s.attributes
      ensures AttributeOf(key)(r) && effective(r) && ofDimension(r) && A.ClosedInScope(range)(r) <==> previous(r)
    {
      UserLedger(s, key.user, Ref(key.user, AttributeKind, r.id));
    }
    FilterThree(AttributesOf(key.user), OfEntities(spec.entities, AttributeEntity()), ofDimension, AttributeOf(key), s.attributes);
    FilterFour(AttributeOf(key), effective, ofDimension, A.ClosedInScope(range), previous, s.attributes);
  }
}
