/** From an utterance to the engine's answer: what was told is what the next question is answered with. */
module ToldAnswers {
  import opened Prelude
  import opened Domain
  import opened Store
  import opened Utterance
  import opened Runs
  import opened StateLifecycle
  import opened AttributeLifecycle
  import opened LedgerLifecycle
  import opened Recording
  import opened QueryEngine
  import opened ReadBack
  import V = Versions
  import A = AttributeResolver
  import G = Grouping

  /** What a run leaves when the utterance is its last step. */
  lemma MaterializedIsStep(env: Env, run: seq<Timed>, ir: Ir, at: int, t: Txn) returns (longer: seq<Timed>)
    requires Materialized(env, Txn(Run(env, run), NOTHING), ir, at) == Some(t)
    ensures Run(env, longer) == t.store
  {
    var step := Timed(Ingest(WritesOf(ir).value), at);
    longer := run + [step];
    assert longer[..|longer| - 1] == run;
  }

  lemma {:induction false} LastMemberAt<T>(member: T -> bool, rows: seq<T>, i: int)
    requires 0 <= i < |rows| && member(rows[i]) && forall j :: i < j < |rows| ==> !member(rows[j])
    ensures V.LastMember(member, rows) == Some(rows[i])
  {
    if i < |rows| - 1 { LastMemberAt(member, rows[..|rows| - 1], i); }
  }

  /** A state at the end of the table of a reachable store, newer than any correction, is what is true now. */
  lemma NewestStateIsNow(env: Env, s: Store, before: seq<State>, row: State, key: Key)
    requires StoreOk(env, s) && |s.states| == |before| + 1 && s.states[|before|] == row && StateOf(key)(row)
    requires forall i :: 0 <= i < |before| ==> s.states[i].id == before[i].id
    requires forall c :: c in s.ledger && c.target.kind == StateKind ==> HasState(before, c.target.assertionId)
    ensures StateNow(s, key) == Some(row)
  {
    LastMemberAt(StateOf(key), s.states, |before|);
    forall r | r in before ensures r.id != row.id {
      var i :| 0 <= i < |before| && before[i] == r;
      assert StateVersion()(s.states[i]).id != StateVersion()(s.states[|before|]).id;
    }
  }

  /** The run goes on to the store with the utterance recorded; both stores are well formed. */
  lemma {:induction false} RecordedByRun(env: Env, run: seq<Timed>, ir: Ir, at: int, t: Txn) returns (longer: seq<Timed>)
    requires Deployed(env) && Materialized(env, Txn(Run(env, run), NOTHING), ir, at) == Some(t)
    ensures Run(env, longer) == t.store && StoreOk(env, Run(env, run)) && StoreOk(env, t.store)
    ensures Recorded(env, Txn(Run(env, run), NOTHING), ir, at, t)
  {
    RunKeeps(env, run);
    MaterializeRecords(env, Txn(Run(env, run), NOTHING), ir, at, t);
    longer := MaterializedIsStep(env, run, ir, at, t);
    RunKeeps(env, longer);
  }

  /** The told state is the last of its key, and nothing can have corrected it. */
  lemma ToldStateIsNow(env: Env, s: Store, ir: Ir, at: int, t: Txn) returns (dimension: Concept)
    requires CatalogOk(env.catalog) && StoreOk(env, s) && StoreOk(env, t.store)
    requires Recorded(env, Txn(s, NOTHING), ir, at, t) && ir.state.Some? && ir.state.value.subject.Some?
    ensures t.receipt.states == [ir.state.value.id]
    ensures exists value :: NamesState(env.catalog, ir.state.value, dimension, value)
    ensures dimension.id in env.catalog.byId && env.catalog.byId[dimension.id] == dimension
    ensures var w := ir.state.value;
      var now := StateNow(t.store, Key(w.user, w.subject.value, dimension.key));
      now.Some? && now.value.id == w.id && now.value.valueKey == w.valueKey
  {
    var w := ir.state.value;
    assert StateRecorded(env, Txn(s, NOTHING), ir, at, t);
    var d, value :| NamesState(env.catalog, w, d, value) && StateStoredAs(s.states, w, d, value, at, t.store.states);
    dimension := d;
    NewestStateIsNow(env, t.store, s.states, t.store.states[|s.states|], Key(w.user, w.subject.value, d.key));
    assert [] + [w.id] == [w.id];
  }

  /**
   * Over every run: the state an utterance tells, once materialized, is what the engine answers of its subject in its
   * dimension, and the only one.
   */
  lemma {:induction false} ToldStateIsAnswered(env: Env, run: seq<Timed>, ir: Ir, at: int, t: Txn, entities: map<Id, Id>)
    requires Deployed(env) && Materialized(env, Txn(Run(env, run), NOTHING), ir, at) == Some(t)
    requires ir.state.Some? && ir.state.value.subject.Some? && ir.state.value.subject.value in entities
    ensures t.receipt.states == [ir.state.value.id]
    ensures exists dimension, value ::
      NamesState(env.catalog, ir.state.value, dimension, value) && AnswersTold(env, t.store, ir.state.value, dimension, entities)
  {
    var longer := RecordedByRun(env, run, ir, at, t);
    var dimension := ToldStateIsNow(env, Run(env, run), ir, at, t);
    NowIsAnswered(env, longer, ir.state.value, dimension, entities);
  }

  /** What is true now of the subject of a state is what the engine answers. */
  lemma {:induction false} NowIsAnswered(env: Env, run: seq<Timed>, w: StateWrite, dimension: Concept, entities: map<Id, Id>)
    requires Deployed(env) && w.subject.Some? && w.subject.value in entities
    requires dimension.id in env.catalog.byId && env.catalog.byId[dimension.id] == dimension && dimension.kind == StateDimension
    requires var now := StateNow(Run(env, run), Key(w.user, w.subject.value, dimension.key));
      now.Some? && now.value.id == w.id && now.value.valueKey == w.valueKey
    ensures AnswersTold(env, Run(env, run), w, dimension, entities)
  {
    StateReadBack(env, run, Key(w.user, w.subject.value, dimension.key), dimension.id, entities);
  }

  ghost predicate AnswersTold(env: Env, s: Store, w: StateWrite, dimension: Concept, entities: map<Id, Id>)
    requires w.subject.Some?
  {
    var answer := StateQuery(env.catalog, LoadGraph(s, w.user, entities), StateSpec(w.subject.value, dimension.id));
    answer.Ok? && answer.value.items == [StateItem(w.id, dimension.key, w.valueKey)]
  }

  // ---------------------------------------------------------------- attributes

  /** Claim `k` is current, of a dimension with one value at a time, and no later one overtakes it. */
  ghost predicate LastWord(env: Env, told: seq<AttributeWrite>, k: nat, entity: Id) {
    && k < |told| && told[k].isCurrent && told[k].dimension in env.singleton
    && Some(entity) == (if told[k].subject.Some? then told[k].subject else told[k].fallback)
    && forall j :: k < j < |told| ==>
         !(told[j].isCurrent && told[j].user == told[k].user && told[j].dimension == told[k].dimension
           && Some(entity) == (if told[j].subject.Some? then told[j].subject else told[j].fallback))
  }

  /** The row of the last word is the one asserted last under its key. */
  lemma LastWordIsAsserted(
    env: Env, before: seq<Attribute>, told: seq<AttributeWrite>, at: int, after: seq<Attribute>, k: nat, entity: Id)
    requires AttributesStoredAs(env, before, told, at, after) && LastWord(env, told, k, entity)
    ensures AttributeRowTold(told[k], at, after[|before| + k])
    ensures LastAsserted(after, Key(told[k].user, entity, told[k].dimension)) == Some(after[|before| + k])
  {
    var key := Key(told[k].user, entity, told[k].dimension);
    assert ToldAs(env, told, k, at, |before|, after);
    var was :| AttributeRowTold(told[k], at, was) && LeftAs(env, told, k + 1, was, at, after[|before| + k]);
    forall j | k + 1 <= j < |told| ensures !Overtakes(env, told[j], was) {}
    forall i | |before| + k < i < |after| ensures !AssertedAttribute(key)(after[i]) {
      var j := i - |before|;
      assert ToldAs(env, told, j, at, |before|, after);
      var x :| AttributeRowTold(told[j], at, x) && LeftAs(env, told, j + 1, x, at, after[|before| + j]);
    }
    LastMemberAt(AssertedAttribute(key), after, |before| + k);
  }

  /** Over every run: the last word of an utterance on a dimension with one value is what is known of it next. */
  lemma {:induction false} ToldAttributeIsKnown(
    env: Env, run: seq<Timed>, ir: Ir, at: int, t: Txn, k: nat, entity: Id, entities: map<Id, Id>)
    requires Deployed(env) && Materialized(env, Txn(Run(env, run), NOTHING), ir, at) == Some(t)
    requires LastWord(env, Filter(LeavingRow(Run(env, run).principals), Described(ir)), k, entity) && entity in entities
    ensures var x := Filter(LeavingRow(Run(env, run).principals), Described(ir))[k];
      var answer := AttributeQuery(LoadGraph(t.store, x.user, entities), SubjectSpec(entity), Lookup(x.dimension));
      && answer.Ok? && answer.value.status == A.KnownSingle
      && |answer.value.candidates| == 1 && AttributeRowTold(x, at, answer.value.candidates[0])
  {
    var s := Run(env, run);
    var longer := RecordedByRun(env, run, ir, at, t);
    LastWordIsNow(env, s, t.store, Filter(LeavingRow(s.principals), Described(ir)), at, k, entity);
    var x := Filter(LeavingRow(s.principals), Described(ir))[k];
    SingletonReadBack(env, longer, Key(x.user, entity, x.dimension), entities);
  }

  lemma LastWordIsNow(env: Env, s: Store, after: Store, told: seq<AttributeWrite>, at: int, k: nat, entity: Id)
    requires StoreOk(env, s) && StoreOk(env, after) && after.ledger == s.ledger
    requires AttributesStoredAs(env, s.attributes, told, at, after.attributes) && LastWord(env, told, k, entity)
    ensures AttributeNow(after, Key(told[k].user, entity, told[k].dimension)).Some?
    ensures AttributeRowTold(told[k], at, AttributeNow(after, Key(told[k].user, entity, told[k].dimension)).value)
  {
    LastWordIsAsserted(env, s.attributes, told, at, after.attributes, k, entity);
    NewAttributeCounts(env, s, after, told, at, k);
  }

  lemma NewAttributeCounts(env: Env, s: Store, after: Store, told: seq<AttributeWrite>, at: int, k: nat)
    requires StoreOk(env, s) && StoreOk(env, after) && after.ledger == s.ledger && k < |told|
    requires AttributesStoredAs(env, s.attributes, told, at, after.attributes)
    requires AttributeRowTold(told[k], at, after.attributes[|s.attributes| + k])
    ensures !Targeted(after.ledger, Ref(told[k].user, AttributeKind, told[k].id))
  {
    var row := after.attributes[|s.attributes| + k];
    forall r | r in s.attributes ensures r.id != told[k].id {
      var i :| 0 <= i < |s.attributes| && s.attributes[i] == r;
      assert LeftAs(env, told, 0, s.attributes[i], at, after.attributes[i]);
      assert AttributeVersion()(after.attributes[i]).id != AttributeVersion()(row).id;
    }
    forall c | c in s.ledger ensures c.target != Ref(told[k].user, AttributeKind, told[k].id) {
      assert Exists(s, c.target);
    }
  }
}
