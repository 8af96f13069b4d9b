/** Questions by the fields of rows: which rows are considered, which state of a dimension is answered, how surely. */
module StateQuestions {
  import opened Prelude
  import opened Domain
  import opened TimeRanking
  import opened SortedKeys
  import opened EffectivenessResolver
  import opened QueryEngine
  import Lex
  import Ranking
  import T = Store
  import S = StateResolver
  import A = AttributeResolver
  import M = MeasurementResolver

  // ---------------------------------------------------------------- what may be asked

  /** Entities have a role, or stand for the two ends of a relation or the participants of an action. */
  ghost predicate RoleGiven(spec: Spec) {
    || spec.entities == [] || spec.association.Some?
    || (spec.relationTypes != [] && |spec.entities| >= 2) || spec.actions != []
  }

  ghost predicate AllVisible(g: Graph, spec: Spec) {
    && (forall e :: e in spec.entities ==> e in g.entities)
    && (forall e :: e in spec.eventIds ==> exists r :: r in g.events && r.id == e)
  }

  /** Every question is refused without a role for its entities, and then when it names what is not the user's. */
  lemma VisibilityExactly(spec: Spec, g: Graph)
    ensures Visibility(spec, g) ==
      if !RoleGiven(spec) then Some(SpecError) else if !AllVisible(g, spec) then Some(IsolationError) else None
  {
    if Visibility(spec, g).None? {
      forall e | e in spec.eventIds ensures exists r :: r in g.events && r.id == e {}
    }
  }

  /** What a user may ask about: the entities given, and the user's own events. */
  lemma VisibleExactly(s: T.Store, user: Id, entities: map<Id, Id>, spec: Spec)
    ensures AllVisible(LoadGraph(s, user, entities), spec) <==>
      && (forall e :: e in spec.entities ==> e in entities)
      && (forall e :: e in spec.eventIds ==> exists r :: r in s.events && r.user == user && r.id == e)
  {
    forall r: Event ensures r in Filter(EventsOf(user), s.events) <==> r in s.events && r.user == user {
      FilterMember(EventsOf(user), s.events, r);
    }
  }

  ghost predicate KindsFit(c: T.Catalog, spec: Spec) {
    && (forall d :: d in spec.dimensions ==> d in c.byId && c.byId[d].kind == StateDimension)
    && (forall v :: v in spec.values ==> v in c.byId && c.byId[v].kind == StateValue)
  }

  // ---------------------------------------------------------------- which states are considered

  /** No correction targets the state, and it is of the entities, dimensions and values asked for. */
  ghost predicate Considered(g: Graph, spec: Spec, r: State) {
    && (forall c :: c in g.corrections ==> c.target != Ref(g.user, StateKind, r.id))
    && (spec.entities == [] || r.entity in spec.entities)
    && (spec.dimensions == [] || r.dimensionId in spec.dimensions)
    && (spec.values == [] || r.valueId in spec.values)
  }

  ghost function ConsideredIn(g: Graph, spec: Spec): State -> bool {
    (r: State) => Considered(g, spec, r)
  }

  lemma {:induction false} PoolExactly(g: Graph, spec: Spec)
    ensures StatePool(g, spec) == Filter(ConsideredIn(g, spec), g.states)
  {
    var effective := EffectiveRow(g.corrections, g.user, StateKind, StateId());
    FilterTwice(SelectsState(spec), effective, g.states);
    forall r | r in g.states ensures Both(SelectsState(spec), effective)(r) <==> ConsideredIn(g, spec)(r) {
      assert StateId()(r) == r.id;
      assert T.Targeted(g.corrections, Ref(g.user, StateKind, r.id)) <==>
        exists c :: c in g.corrections && c.target == Ref(g.user, StateKind, r.id);
    }
    FilterAgree(Both(SelectsState(spec), effective), ConsideredIn(g, spec), g.states);
  }

  // ---------------------------------------------------------------- one dimension

  predicate Holds(key: string, r: State) {
    r.dimensionKey == key && r.isCurrent
  }

  function HoldsIn(key: string): State -> bool {
    (r: State) => Holds(key, r)
  }

  /** Another row has the same instant text, or both lack an instant and have the same interval start. */
  ghost predicate Tied(rows: seq<State>, top: State)
    requires Dated(top.temporal)
  {
    exists x :: x in rows && x != top && SameDate(x.temporal, top.temporal)
  }

  /** The newest dated row, or else the only one there is; less surely so beside undated rows or an equally new one. */
  ghost predicate AnswersDimension(rows: seq<State>, newest: seq<State>, r: S.CurrentStateResult) {
    var undated := Filter(Undated(S.StateTime()), rows);
    && Newest(S.StateTime(), StateId(), rows, newest)
    && (newest == [] ==>
          r == if undated == [] then S.CurrentStateResult(None, Complete, 0)
               else if |undated| == 1 then S.CurrentStateResult(Some(undated[0]), Partial, 0)
               else S.CurrentStateResult(None, Indeterminate, |undated|))
    && (newest != [] && undated != [] ==> r == S.CurrentStateResult(Some(newest[0]), Partial, |undated|))
    && (newest != [] && undated == [] && Dated(newest[0].temporal) ==>
          r == if Tied(rows, newest[0]) then S.CurrentStateResult(Some(newest[0]), Indeterminate, 1)
               else S.CurrentStateResult(Some(newest[0]), Complete, 0))
  }

  lemma {:induction false} PoolOfKey(states: seq<State>, key: string)
    ensures Filter(S.InPool(key, true), states) == Filter(HoldsIn(key), states)
  {
    FilterAgree(S.InPool(key, true), HoldsIn(key), states);
  }

  lemma {:induction false} TiedExactly(states: seq<State>, key: string)
    requires forall i, j :: 0 <= i < j < |states| ==> states[i] != states[j]
    requires var rows := Filter(HoldsIn(key), states); rows != [] && Filter(Undated(S.StateTime()), rows) == []
    ensures var rows, r := Filter(HoldsIn(key), states), S.CurrentState(states, key, true);
      r.state.Some? && Dated(r.state.value.temporal) && (r.completeness == Indeterminate <==> Tied(rows, r.state.value))
  {
    var time, rows := S.StateTime(), Filter(HoldsIn(key), states);
    PoolOfKey(states, key);
    FilterDistinct(HoldsIn(key), states);
    SplitExactly(time, StateId(), rows);
    FilterMember(Undated(time), rows, rows[0]);
    assert rows[0] in rows;
    FirstTied(time, StateId(), rows);
  }

  /** The first in rank, if any row is dated. */
  ghost function NewestOf(rows: seq<State>): seq<State> {
    var ranked := Ranked(S.StateTime(), StateId(), rows);
    if ranked == [] then [] else [ranked[0].row]
  }

  /** The current state of a dimension is settled by the fields of the rows that hold in it. */
  lemma {:induction false} CurrentStateExactly(states: seq<State>, key: string)
    requires forall i, j :: 0 <= i < j < |states| ==> states[i] != states[j]
    ensures var rows := Filter(HoldsIn(key), states);
      AnswersDimension(rows, NewestOf(rows), S.CurrentState(states, key, true))
  {
    var rows := Filter(HoldsIn(key), states);
    PoolOfKey(states, key);
    SplitExactly(S.StateTime(), StateId(), rows);
    if NewestOf(rows) != [] && Filter(Undated(S.StateTime()), rows) == [] {
      assert NewestOf(rows)[0] in rows;
      TiedExactly(states, key);
    }
  }

  // ---------------------------------------------------------------- all dimensions

  /** The items of the dimensions that have an answer, in order. */
  ghost function ItemsOf(keys: seq<string>, results: seq<S.CurrentStateResult>): seq<StateItem>
    requires |keys| == |results|
  {
    if keys == [] then []
    else
      var n := |keys| - 1;
      ItemsOf(keys[..n], results[..n])
      + (if results[n].state.Some? then [StateItem(results[n].state.value.id, keys[n], results[n].state.value.valueKey)] else [])
  }

  ghost function SumOf(results: seq<S.CurrentStateResult>): nat {
    if results == [] then 0 else SumOf(results[..|results| - 1]) + results[|results| - 1].indeterminate
  }

  /** The value is known, and one of those asked for. */
  predicate ValueFits(c: T.Catalog, spec: Spec, item: StateItem) {
    item.valueKey in c.byKey && (spec.values == [] || c.byKey[item.valueKey].id in spec.values)
  }

  function ValueFitsIn(c: T.Catalog, spec: Spec): StateItem -> bool {
    (item: StateItem) => ValueFits(c, spec, item)
  }

  /** The answers of the dimensions put together: items in order, the worst completeness, the doubts added up. */
  ghost predicate Assembles(
    c: T.Catalog, spec: Spec, keys: seq<string>, results: seq<S.CurrentStateResult>, a: StateAnswer)
  {
    && |keys| == |results| && a.items == ItemsOf(keys, results) && a.indeterminate == SumOf(results)
    && a.matched == |Filter(ValueFitsIn(c, spec), a.items)|
    && (a.completeness == Indeterminate <==> exists r :: r in results && r.completeness == Indeterminate)
    && (a.completeness == Complete <==> forall r :: r in results ==> r.completeness == Complete)
  }

  lemma OneMoreAssembled(
    c: T.Catalog, spec: Spec, keys: seq<string>, results: seq<S.CurrentStateResult>, a: StateAnswer, key: string,
    r: S.CurrentStateResult, ks: seq<string>, rs: seq<S.CurrentStateResult>)
    requires Assembles(c, spec, keys, results, a) && ks == keys + [key] && rs == results + [r]
    ensures Assembles(c, spec, ks, rs, AddDimension(c, spec, a, key, r))
  {
    assert ks[..|keys|] == keys && rs[..|keys|] == results;
    assert forall x :: x in rs <==> x in results || x == r;
    if r.state.Some? {
      FilterAppend(ValueFitsIn(c, spec), a.items, StateItem(r.state.value.id, key, r.state.value.valueKey));
    }
  }

  lemma NothingAssembled(c: T.Catalog, spec: Spec)
    ensures Assembles(c, spec, [], [], NO_STATES)
  {
  }

  lemma {:induction false} AssembledExactly(
    c: T.Catalog, spec: Spec, pool: seq<State>, keys: seq<string>, results: seq<S.CurrentStateResult>)
    requires |results| == |keys| && forall i :: 0 <= i < |keys| ==> results[i] == S.CurrentState(pool, keys[i], true)
    ensures Assembles(c, spec, keys, results, ByDimension(c, spec, pool, keys))
  {
    if |keys| == 0 {
      NothingAssembled(c, spec);
      assert keys == [] && results == [];
    } else {
      var n := |keys| - 1;
      var ks, rs := keys[..n], results[..n];
      assert keys == ks + [keys[n]] && results == rs + [results[n]];
      AssembledExactly(c, spec, pool, ks, rs);
      LastDimension(c, spec, pool, keys);
      var before := ByDimension(c, spec, pool, ks);
      assert Assembles(c, spec, ks, rs, before);
      OneMoreAssembled(c, spec, ks, rs, before, keys[n], results[n], keys, results);
    }
  }

  lemma LastDimension(c: T.Catalog, spec: Spec, pool: seq<State>, keys: seq<string>)
    requires keys != []
    ensures var n := |keys| - 1;
      ByDimension(c, spec, pool, keys) ==
        AddDimension(c, spec, ByDimension(c, spec, pool, keys[..n]), keys[n], S.CurrentState(pool, keys[n], true))
  {
  }

  /** The key is that of a dimension asked for, if any are, and some considered state has it. */
  ghost predicate Concerned(c: T.Catalog, spec: Spec, pool: seq<State>, key: string) {
    && (exists r :: r in pool && r.dimensionKey == key)
    && (spec.dimensions == [] || exists d :: d in spec.dimensions && d in c.byId && c.byId[d].key == key)
  }

  lemma {:induction false} ConcernedExactly(c: T.Catalog, spec: Spec, pool: seq<State>)
    ensures var keys := StateDimensions(c, spec, pool);
      Ascending(keys) && forall k :: k in keys <==> Concerned(c, spec, pool, k)
  {
    var all, keys := KeysOf(StateDimensionKey(), pool), StateDimensions(c, spec, pool);
    KeysOfExactly(StateDimensionKey(), pool);
    AscendingFilter(AskedKey(c, spec.dimensions), all);
    forall k ensures k in keys <==> Concerned(c, spec, pool, k) {
      FilterMember(AskedKey(c, spec.dimensions), all, k);
      if r :| r in pool && r.dimensionKey == k { assert StateDimensionKey()(r) == k; }
    }
  }

  lemma {:induction false} AscendingFilter(p: string -> bool, keys: seq<string>)
    requires Ascending(keys)
    ensures Ascending(Filter(p, keys))
  {
    if keys != [] {
      var front, last := keys[..|keys| - 1], keys[|keys| - 1];
      AscendingFilter(p, front);
      forall k | k in Filter(p, front) ensures Lex.Less(k, last) {
        FilterMember(p, front, k);
        var i :| 0 <= i < |front| && front[i] == k;
      }
    }
  }

  /** Each key is answered from the considered states that hold in it. */
  ghost predicate AnswersEach(
    pool: seq<State>, keys: seq<string>, newest: seq<seq<State>>, results: seq<S.CurrentStateResult>)
  {
    && |results| == |newest| == |keys|
    && forall i :: 0 <= i < |keys| ==> AnswersDimension(Filter(HoldsIn(keys[i]), pool), newest[i], results[i])
  }

  lemma {:induction false} EachDimension(pool: seq<State>, keys: seq<string>)
    returns (results: seq<S.CurrentStateResult>, newest: seq<seq<State>>)
    requires forall i, j :: 0 <= i < j < |pool| ==> pool[i] != pool[j]
    ensures AnswersEach(pool, keys, newest, results)
    ensures |results| == |keys| && forall i :: 0 <= i < |keys| ==> results[i] == S.CurrentState(pool, keys[i], true)
  {
    results := seq(|keys|, i requires 0 <= i < |keys| => S.CurrentState(pool, keys[i], true));
    newest := seq(|keys|, i requires 0 <= i < |keys| => NewestOf(Filter(HoldsIn(keys[i]), pool)));
    forall i | 0 <= i < |keys| ensures AnswersDimension(Filter(HoldsIn(keys[i]), pool), newest[i], results[i]) {
      CurrentStateExactly(pool, keys[i]);
    }
  }

  /**
   * A state question is refused for a concept of the wrong kind, a missing role or something not the user's; any other
   * is answered dimension by dimension, in ascending order of those concerned, from the considered states alone.
   */
  lemma {:induction false} StateQueryExactly(c: T.Catalog, g: Graph, spec: Spec)
    returns (keys: seq<string>, results: seq<S.CurrentStateResult>, newest: seq<seq<State>>)
    requires forall i, j :: 0 <= i < j < |g.states| ==> g.states[i] != g.states[j]
    ensures var pool := Filter(ConsideredIn(g, spec), g.states);
      && Ascending(keys) && (forall k :: k in keys <==> Concerned(c, spec, pool, k))
      && AnswersEach(pool, keys, newest, results)
    ensures var answer := StateQuery(c, g, spec);
      if !KindsFit(c, spec) || !RoleGiven(spec) then answer == Err(SpecError)
      else if !AllVisible(g, spec) then answer == Err(IsolationError)
      else answer.Ok? && Assembles(c, spec, keys, results, answer.value)
  {
    var pool := StatePool(g, spec);
    PoolExactly(g, spec);
    FilterDistinct(ConsideredIn(g, spec), g.states);
    keys := StateDimensions(c, spec, pool);
    ConcernedExactly(c, spec, pool);
    results, newest := EachDimension(pool, keys);
    AssembledExactly(c, spec, pool, keys, results);
    AnsweredOrRefused(c, g, spec);
  }

  lemma AnsweredOrRefused(c: T.Catalog, g: Graph, spec: Spec)
    ensures StateQuery(c, g, spec) ==
      if !KindsFit(c, spec) || !RoleGiven(spec) then Err(SpecError)
      else if !AllVisible(g, spec) then Err(IsolationError)
      else Ok(ByDimension(c, spec, StatePool(g, spec), StateDimensions(c, spec, StatePool(g, spec))))
  {
    VisibilityExactly(spec, g);
  }

  /** A single item is the answer; several, or none, are not. */
  lemma PrimaryExactly(a: StateAnswer, item: StateItem)
    ensures Primary(a) == Some(item) <==> a.items == [item]
  {
  }

  // ---------------------------------------------------------------- attribute and measurement questions

  ghost predicate AttributeConsidered(g: Graph, spec: Spec, dimension: string, r: Attribute) {
    && (forall c :: c in g.corrections ==> c.target != Ref(g.user, AttributeKind, r.id))
    && (spec.entities == [] || r.entity in spec.entities) && r.dimension == dimension
  }

  ghost function AttributeConsideredIn(g: Graph, spec: Spec, dimension: string): Attribute -> bool {
    (r: Attribute) => AttributeConsidered(g, spec, dimension, r)
  }

  /** An attribute question is refused like any other, or resolved from the considered attributes alone. */
  lemma {:induction false} AttributeQueryExactly(g: Graph, spec: Spec, q: A.Query)
    ensures AttributeQuery(g, spec, q) ==
      if !RoleGiven(spec) then Err(SpecError) else if !AllVisible(g, spec) then Err(IsolationError)
      else Ok(A.AttributeQuery(Filter(AttributeConsideredIn(g, spec, q.dimension), g.attributes), q))
  {
    VisibilityExactly(spec, g);
    var p, d := OfEntities(spec.entities, AttributeEntity()), A.OfDimension(q.dimension);
    var effective := EffectiveRow(g.corrections, g.user, AttributeKind, AttributeId());
    var all := AttributeConsideredIn(g, spec, q.dimension);
    forall r | r in g.attributes ensures p(r) && d(r) && effective(r) <==> all(r) {
      assert AttributeId()(r) == r.id && AttributeEntity()(r) == r.entity;
      assert T.Targeted(g.corrections, Ref(g.user, AttributeKind, r.id)) <==>
        exists c :: c in g.corrections && c.target == Ref(g.user, AttributeKind, r.id);
    }
    FilterThree(p, d, effective, all, g.attributes);
  }

  ghost predicate MeasurementConsidered(g: Graph, spec: Spec, r: Measurement) {
    && (forall c :: c in g.corrections ==> c.target != Ref(g.user, MeasurementKind, r.id))
    && (spec.entities == [] || r.entity in spec.entities)
  }

  ghost function MeasurementConsideredIn(g: Graph, spec: Spec): Measurement -> bool {
    (r: Measurement) => MeasurementConsidered(g, spec, r)
  }

  lemma {:induction false} MeasurementQueryExactly(g: Graph, spec: Spec, q: M.Query)
    ensures MeasurementQuery(g, spec, q) ==
      if !RoleGiven(spec) then Err(SpecError) else if !AllVisible(g, spec) then Err(IsolationError)
      else Ok(M.MeasurementQuery(Filter(MeasurementConsideredIn(g, spec), g.measurements), q))
  {
    VisibilityExactly(spec, g);
    var p := OfEntities(spec.entities, MeasurementEntity());
    var effective := EffectiveRow(g.corrections, g.user, MeasurementKind, MeasurementId());
    var all := MeasurementConsideredIn(g, spec);
    FilterTwice(p, effective, g.measurements);
    forall r | r in g.measurements ensures Both(p, effective)(r) <==> all(r) {
      assert MeasurementId()(r) == r.id && MeasurementEntity()(r) == r.entity;
      assert T.Targeted(g.corrections, Ref(g.user, MeasurementKind, r.id)) <==>
        exists c :: c in g.corrections && c.target == Ref(g.user, MeasurementKind, r.id);
    }
    FilterAgree(Both(p, effective), all, g.measurements);
  }
}
