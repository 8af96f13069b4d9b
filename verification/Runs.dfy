/** Safety over whole runs: every reachable store satisfies all the lifecycle invariants at once. */
module Runs {
  import opened Prelude
  import opened Domain
  import opened Store
  import R = RelationMetadata
  import L = Lineage
  import V = Versions
  import opened StateLifecycle
  import opened AttributeLifecycle
  import opened RelationLifecycle
  import opened FactLifecycle
  import F = FactLifecycle
  import opened LedgerLifecycle

  ghost predicate StoreOk(env: Env, s: Store) {
    && StatesOk(env.catalog, s.states)
    && AttributesOk(env.singleton, s.attributes)
    && RelationsOk(env, s.relations)
    && FactsOk(s.facts)
    && LedgerOk(s)
  }

  lemma OwnsSeeded(env: Env)
    requires EnvOk(env)
    requires env.catalog.byKey[OWNS_KEY].kind == RelationType
    ensures OwnsOk(env)
  {
  }

  /** The environment a deployment runs in: the seeded ontology, with ownership as a relation type. */
  ghost predicate Deployed(env: Env) {
    EnvOk(env) && env.catalog.byKey[OWNS_KEY].kind == RelationType
  }

  /** The row invariants, without the ledger. */
  ghost predicate RowsOk(env: Env, s: Store) {
    && StatesOk(env.catalog, s.states)
    && AttributesOk(env.singleton, s.attributes)
    && RelationsOk(env, s.relations)
    && FactsOk(s.facts)
  }

  lemma {:induction false} DoWriteKeeps(env: Env, t: Txn, w: Write, at: int)
    requires Deployed(env) && RowsOk(env, t.store)
    requires DoWrite(env, t, w, at).Some?
    ensures RowsOk(env, DoWrite(env, t, w, at).value.store)
  {
    var s := t.store;
    match w
    case WriteEvent(e, facts) => RecordingKeeps(s.facts, e.user, Anchor(EventAnchor, e.id), facts, at);
    case WriteMeasurement(m) =>
    case WriteState(sw) => DoStateKeeps(env, s.states, sw, at);
    case WriteAttribute(aw) =>
      if !IntrinsicName(s.principals, aw) { DoAttributeKeeps(env, s.attributes, aw, at); }
    case WriteRelation(rw) => DoRelationKeeps(env, s.relations, rw, at);
    case WriteOwnership(user, targets) =>
      OwnsSeeded(env);
      if user in s.principals { DoOwnershipKeeps(env, s.relations, user, s.principals[user], targets, {}, at); }
  }

  lemma {:induction false} DoWritesKeep(env: Env, t: Txn, ws: seq<Write>, at: int)
    requires Deployed(env) && RowsOk(env, t.store)
    requires DoWrites(env, t, ws, at).Some?
    ensures RowsOk(env, DoWrites(env, t, ws, at).value.store)
    decreases |ws|
  {
    if ws != [] {
      DoWriteKeeps(env, t, ws[0], at);
      DoWritesKeep(env, DoWrite(env, t, ws[0], at).value, ws[1..], at);
    }
  }

  lemma {:induction false} ApplyKeeps(env: Env, s: Store, step: Step, at: int)
    requires Deployed(env) && StoreOk(env, s)
    ensures StoreOk(env, Apply(env, s, step, at))
  {
    ApplyKeepsLedger(env, s, step, at);
    if step.Ingest? {
      if DoWrites(env, Txn(s, NOTHING), step.writes, at).Some? { DoWritesKeep(env, Txn(s, NOTHING), step.writes, at); }
    } else if step.CorrectFacts? {
      if CorrectionComplete(step.correction) && DoFactCorrection(s.facts, step.correction, at).Some? {
        CorrectionKeepsExactly(s.facts, step.correction, at);
      }
    } else if step.IngestReplacement? {
      if DoReplacing(env, s, step.replacing, at).Some? { ReplacingKeeps(env, s, step.replacing, at); }
    }
  }

  lemma {:induction false} ReplacingKeeps(env: Env, s: Store, q: Replacing, at: int)
    requires Deployed(env) && RowsOk(env, s)
    requires DoReplacing(env, s, q, at).Some?
    ensures RowsOk(env, DoReplacing(env, s, q, at).value)
  {
    DoWritesKeep(env, Txn(s, NOTHING), q.writes, at);
  }

  /** Every store reachable from the empty one, by any run of accepted and refused steps, is well formed. */
  lemma {:induction false} RunKeeps(env: Env, run: seq<Timed>)
    requires Deployed(env)
    ensures StoreOk(env, Run(env, run))
  {
    if run != [] {
      RunKeeps(env, run[..|run| - 1]);
      ApplyKeeps(env, Run(env, run[..|run| - 1]), run[|run| - 1].step, run[|run| - 1].at);
    }
  }

  /**
   * In every reachable store a state key has at most one current state, the one written last; a state is closed
   * exactly when it has an end; and the links from the current one visit the key's states newest to oldest, once each.
   */
  lemma {:induction false} ReachableStates(env: Env, run: seq<Timed>, key: Key, fuel: nat)
    requires Deployed(env)
    requires fuel >= |StateTrail(Run(env, run).states, key)|
    ensures var rows := Run(env, run).states;
      && Filter(LiveState(key), rows) == V.AsList(LastState(rows, key))
      && (forall r :: r in rows ==> (r.isCurrent <==> r.validTo.None?))
      && var trail := StateTrail(rows, key);
      V.Follow(StateVersion(), rows, V.NewestId(trail), fuel) == V.NewestFirst(trail)
  {
    RunKeeps(env, run);
    SupersessionWalk(env.catalog, Run(env, run).states, key, fuel);
  }

  /** In every reachable store a stored link has at most one current row, whichever way its rows came about. */
  lemma {:induction false} ReachableRelations(env: Env, run: seq<Timed>, r: Relation, q: Relation)
    requires Deployed(env)
    requires r in Run(env, run).relations && q in Run(env, run).relations
    requires r.isCurrent && q.isCurrent && LinkOf(r) == LinkOf(q)
    ensures r == q
  {
    RunKeeps(env, run);
    var rows := Run(env, run).relations;
    var i :| 0 <= i < |rows| && rows[i] == r;
    var j :| 0 <= j < |rows| && rows[j] == q;
  }

  /** In every reachable store a fact is unmarked exactly when, among its user's facts, no successor names it. */
  lemma {:induction false} ReachableFacts(env: Env, run: seq<Timed>, user: Id, f: Fact)
    requires Deployed(env)
    requires f in Run(env, run).facts && f.user == user
    ensures CurrentFact(f) <==> f.id in CurrentFactIds(Filter(F.OfUser(user), Run(env, run).facts))
  {
    RunKeeps(env, run);
    CurrentFactsAgree(Run(env, run).facts, user, f);
  }

  // ---------------------------------------------------------------- correcting back and forth

  function Says(id: Id, user: Id, key: string, a: Id, b: Id): Write {
    WriteRelation(RelationWrite(id, user, key, Some(a), Some(b), Assert, Some(NO_TIME), true, false, NO_TIME))
  }

  function Corrects(id: Id, user: Id, target: Id, w: Write): Step {
    IngestReplacement(Replacing(id, user, RelationKind, target, RecordRelation, [w], true))
  }

  /** `a` relates to `b`; no, to `c`; no, to `b` after all. */
  function BackAndForth(user: Id, key: string, a: Id, b: Id, c: Id): seq<Timed> {
    [Timed(Ingest([Says("r1", user, key, a, b)]), 1),
     Timed(Corrects("c1", user, "r1", Says("r2", user, key, a, c)), 2),
     Timed(Corrects("c2", user, "r2", Says("r3", user, key, a, b)), 3)]
  }

  /**
   * The last correction is accepted but finds the first row still marked current, so it records that ineffective
   * row as the replacement: the chain is a cycle and neither row counts any more.
   */
  lemma {:induction false} CorrectingBackClosesALoop(env: Env, user: Id, key: string, a: Id, b: Id, c: Id)
    requires b != c
    requires RelationConcept(env.catalog, key).Some?
    requires R.StoredQuery(env.relations, key) == (key, false) && !R.OrderInsensitive(env.relations, key)
    ensures var s := Run(env, BackAndForth(user, key, a, b, c));
      && s.ledger == [ReplaceRow("c1", user, RelationKind, "r1", RelationKind, "r2"),
                      ReplaceRow("c2", user, RelationKind, "r2", RelationKind, "r1")]
      && |s.relations| == 2
      && (forall r :: r in s.relations ==> r.isCurrent && Targeted(s.ledger, Ref(user, RelationKind, r.id)))
      && !L.ChainsEnd(s.ledger)
  {
    var run := BackAndForth(user, key, a, b, c);
    var concept := RelationConcept(env.catalog, key).value.id;
    var r1 := Relation("r1", user, a, b, concept, key, NO_TIME, 1, true, None);
    var r2 := Relation("r2", user, a, c, concept, key, NO_TIME, 2, true, None);
    var c1 := ReplaceRow("c1", user, RelationKind, "r1", RelationKind, "r2");
    var c2 := ReplaceRow("c2", user, RelationKind, "r2", RelationKind, "r1");
    var s1 := EMPTY.(relations := [r1]);
    var s2 := s1.(relations := [r1, r2], ledger := [c1]);
    var s3 := s2.(relations := [r1.(observedAt := 3), r2], ledger := [c1, c2]);
    FirstStep(env, user, key, a, b);
    SecondStep(env, user, key, a, b, c);
    ThirdStep(env, user, key, a, b, c);
    assert run[..2] == [run[0], run[1]] && run[..2][..1] == [run[0]] && [run[0]][..0] == [];
    assert Run(env, [run[0]]) == s1;
    assert Run(env, run[..2]) == s2;
    assert Run(env, run) == s3;
    assert c1 in s3.ledger && c2 in s3.ledger;
    TwoCycle(user, c1, c2);
  }

  lemma FirstStep(env: Env, user: Id, key: string, a: Id, b: Id)
    requires RelationConcept(env.catalog, key).Some?
    requires R.StoredQuery(env.relations, key) == (key, false) && !R.OrderInsensitive(env.relations, key)
    ensures Apply(env, EMPTY, Ingest([Says("r1", user, key, a, b)]), 1) == EMPTY.(relations :=
      [Relation("r1", user, a, b, RelationConcept(env.catalog, key).value.id, key, NO_TIME, 1, true, None)])
  {
    var ws := [Says("r1", user, key, a, b)];
    assert ws[1..] == [];
    var t := DoWrite(env, Txn(EMPTY, NOTHING), ws[0], 1).value;
    assert DoWrites(env, Txn(EMPTY, NOTHING), ws, 1) == Some(t);
  }

  lemma SecondStep(env: Env, user: Id, key: string, a: Id, b: Id, c: Id)
    requires b != c
    requires RelationConcept(env.catalog, key).Some?
    requires R.StoredQuery(env.relations, key) == (key, false) && !R.OrderInsensitive(env.relations, key)
    ensures var concept := RelationConcept(env.catalog, key).value.id;
      var r1 := Relation("r1", user, a, b, concept, key, NO_TIME, 1, true, None);
      var r2 := Relation("r2", user, a, c, concept, key, NO_TIME, 2, true, None);
      var s1 := EMPTY.(relations := [r1]);
      Apply(env, s1, Corrects("c1", user, "r1", Says("r2", user, key, a, c)), 2)
      == s1.(relations := [r1, r2], ledger := [ReplaceRow("c1", user, RelationKind, "r1", RelationKind, "r2")])
  {
    var concept := RelationConcept(env.catalog, key).value.id;
    var r1 := Relation("r1", user, a, b, concept, key, NO_TIME, 1, true, None);
    var r2 := Relation("r2", user, a, c, concept, key, NO_TIME, 2, true, None);
    var s1 := EMPTY.(relations := [r1]);
    var w := Says("r2", user, key, a, c);
    assert [r1][..0] == [];
    assert FindInstance([r1], Link(user, a, concept, c), true) == None;
    var t := Txn(s1.(relations := [r1, r2]), NOTHING.(relations := ["r2"]));
    assert [r1] + [r2] == [r1, r2] && [] + ["r2"] == ["r2"];
    assert DoWrite(env, Txn(s1, NOTHING), w, 2) == Some(t);
    assert r1 in t.store.relations && r2 in t.store.relations;
    OneWriteReplaces(env, s1, "c1", user, "r1", w, 2, t, "r2");
  }

  /** A replacement by one relation write, once the write's effect is known. */
  lemma OneWriteReplaces(env: Env, s: Store, id: Id, user: Id, target: Id, w: Write, at: int, t: Txn, new_: Id)
    requires DoWrite(env, Txn(s, NOTHING), w, at) == Some(t)
    requires t.receipt == NOTHING.(relations := [new_])
    requires DoCorrection(t.store, ReplaceRow(id, user, RelationKind, target, RelationKind, new_), true).Ok?
    ensures Apply(env, s, Corrects(id, user, target, w), at) ==
      t.store.(ledger := t.store.ledger + [ReplaceRow(id, user, RelationKind, target, RelationKind, new_)])
  {
    assert [w][1..] == [];
    assert DoWrites(env, Txn(s, NOTHING), [w], at) == Some(t);
    assert ReplacementRef(t.receipt, RecordRelation) == Some((RelationKind, new_));
  }

  lemma ThirdStep(env: Env, user: Id, key: string, a: Id, b: Id, c: Id)
    requires b != c
    requires RelationConcept(env.catalog, key).Some?
    requires R.StoredQuery(env.relations, key) == (key, false) && !R.OrderInsensitive(env.relations, key)
    ensures var concept := RelationConcept(env.catalog, key).value.id;
      var r1 := Relation("r1", user, a, b, concept, key, NO_TIME, 1, true, None);
      var r2 := Relation("r2", user, a, c, concept, key, NO_TIME, 2, true, None);
      var c1 := ReplaceRow("c1", user, RelationKind, "r1", RelationKind, "r2");
      var s2 := EMPTY.(relations := [r1, r2], ledger := [c1]);
      Apply(env, s2, Corrects("c2", user, "r2", Says("r3", user, key, a, b)), 3)
      == s2.(relations := [r1.(observedAt := 3), r2],
             ledger := [c1, ReplaceRow("c2", user, RelationKind, "r2", RelationKind, "r1")])
  {
    var concept := RelationConcept(env.catalog, key).value.id;
    var r1 := Relation("r1", user, a, b, concept, key, NO_TIME, 1, true, None);
    var r2 := Relation("r2", user, a, c, concept, key, NO_TIME, 2, true, None);
    var c1 := ReplaceRow("c1", user, RelationKind, "r1", RelationKind, "r2");
    var s2 := EMPTY.(relations := [r1, r2], ledger := [c1]);
    var w := Says("r3", user, key, a, b);
    var link := Link(user, a, concept, b);
    assert [r1][..0] == [] && [r1, r2][..1] == [r1];
    assert FindInstance([r1], link, true) == Some(0);
    assert FindInstance([r1, r2], link, true) == Some(0);
    assert [r1, r2][0 := r1.(observedAt := 3)] == [r1.(observedAt := 3), r2];
    var t := Txn(s2.(relations := [r1.(observedAt := 3), r2]), NOTHING.(relations := ["r1"]));
    assert [] + ["r1"] == ["r1"];
    assert DoWrite(env, Txn(s2, NOTHING), w, 3) == Some(t);
    assert r1.(observedAt := 3) in t.store.relations && r2 in t.store.relations;
    OneWriteReplaces(env, s2, "c2", user, "r2", w, 3, t, "r1");
  }

  lemma {:induction false} TwoCycle(user: Id, c1: Correction, c2: Correction)
    requires c1 == ReplaceRow("c1", user, RelationKind, "r1", RelationKind, "r2")
    requires c2 == ReplaceRow("c2", user, RelationKind, "r2", RelationKind, "r1")
    ensures !L.ChainsEnd([c1, c2])
  {
    var r1 := Ref(user, RelationKind, "r1");
    assert [c1] + [c2] == [c1, c2];
    assert [c1][..0] == [];
    L.NoNextWhenUntargeted([c1], c2.target);
    assert L.Ends([c1], r1, 1) && L.End([c1], r1, 1) == c2.target;
    forall k: nat ensures !L.Ends([c1, c2], r1, k) { L.CycleNeverEnds([c1], c2, 1, k); }
    assert !L.Finite([c1, c2], r1);
  }
}
