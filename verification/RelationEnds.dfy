/** Relation questions that name one entity, over every run: which rows they list, and that they list what was told. */
module RelationEnds {
  import opened Prelude
  import opened Domain
  import opened Store
  import opened TimeRanking
  import opened Runs
  import opened RelationLifecycle
  import opened QueryEngine
  import opened RelationQuestions
  import opened StateQuestions
  import LedgerLifecycle
  import ReadBack
  import R = RelationMetadata
  import Rel = RelationResolver
  import B = QueryBuilder

  /** The question about one entity in the role, asked through the key. */
  ghost function EndSpec(env: Env, key: string, e: Id, role: Association, kind: Option<RelationKind>): Option<Spec> {
    B.BuildRelationSpec(env, [key], [e], Some(role), Rel.CurrentScope, kind)
  }

  /** The subject of a stored key and the object of an inverse one stand where stored rows start. */
  ghost predicate StandsAtStart(env: Env, key: string, role: Association) {
    (role == Association.RelationSubject) != R.StoredQuery(env.relations, key).1
  }

  /** The user's current row of the relation with the entity at the end asked about, and no correction targets it. */
  ghost predicate HasEnd(env: Env, s: Store, user: Id, key: string, e: Id, role: Association, r: Relation) {
    && r in s.relations && r.user == user && r.isCurrent && r.key == R.StoredQuery(env.relations, key).0
    && (forall c :: c in s.ledger ==> c.target != Ref(user, RelationKind, r.id))
    && (if StandsAtStart(env, key, role) then FromEnd(env.relations, r, e) else ToEnd(env.relations, r, e))
  }

  /** Both rows are dated and `q` ranks above `r`. */
  ghost predicate Outdates(q: Relation, r: Relation) {
    Dated(q.temporal) && Dated(r.temporal) && RanksAbove(q.temporal, q.id, r.temporal, r.id)
  }

  ghost predicate Lists(env: Env, s: Store, user: Id, key: string, e: Id, role: Association, r: Relation) {
    && HasEnd(env, s, user, key, e, role, r)
    && forall q :: HasEnd(env, s, user, key, e, role, q) ==> !Outdates(q, r)
  }

  ghost predicate IsEndSpec(env: Env, key: string, e: Id, role: Association, kind: Option<RelationKind>, spec: Spec)
    requires NamesRelation(env.catalog, R.StoredQuery(env.relations, key).0)
  {
    && spec.entities == [e] && spec.eventIds == [] && spec.objectTypes == []
    && spec.scope == Rel.CurrentScope && spec.relationKind == kind
    && (spec.association == Some(Association.RelationObject) <==> !StandsAtStart(env, key, role))
    && spec.association.Some?
    && |spec.relationTypes| == 1 && spec.relationTypes[0] == env.catalog.byKey[R.StoredQuery(env.relations, key).0].id
  }

  lemma BuildsEnd(env: Env, key: string, e: Id, role: Association, kind: Option<RelationKind>)
    requires NamesRelation(env.catalog, R.StoredQuery(env.relations, key).0)
    requires role in {Association.RelationSubject, Association.RelationObject}
    ensures EndSpec(env, key, e, role, kind).Some?
    ensures IsEndSpec(env, key, e, role, kind, EndSpec(env, key, e, role, kind).value)
  {
    B.BuildExactly(env, [key], [e], Some(role), Rel.CurrentScope, kind);
    assert [key][0] == key;
    assert B.Turned(env.relations, [key]) <==> R.StoredQuery(env.relations, key).1;
  }

  lemma FieldsFit(
    env: Env, key: string, e: Id, role: Association, kind: Option<RelationKind>, spec: Spec, r: Relation)
    requires CatalogOk(env.catalog) && RelationRowOk(env, r)
    requires NamesRelation(env.catalog, R.StoredQuery(env.relations, key).0)
    requires IsEndSpec(env, key, e, role, kind, spec) && kind != Some(HistoricalExistence)
    ensures (spec.relationTypes != [] ==> r.conceptId in spec.relationTypes) && ScopeFits(spec, r) && EndsFit(env.relations, spec, r)
      <==> && r.isCurrent && r.key == R.StoredQuery(env.relations, key).0
           && (if StandsAtStart(env, key, role) then FromEnd(env.relations, r, e) else ToEnd(env.relations, r, e))
  {
    assert spec.relationTypes == [spec.relationTypes[0]];
    if r.conceptId == spec.relationTypes[0] { assert r.key == R.StoredQuery(env.relations, key).0; }
  }

  /** Among the user's stored rows, the question is about those with the entity at its end. */
  lemma {:induction false} StandsIsEnd(
    env: Env, s: Store, user: Id, key: string, e: Id, role: Association, kind: Option<RelationKind>, spec: Spec,
    entities: map<Id, Id>, r: Relation)
    requires CatalogOk(env.catalog) && StoreOk(env, s)
    requires NamesRelation(env.catalog, R.StoredQuery(env.relations, key).0)
    requires IsEndSpec(env, key, e, role, kind, spec) && kind != Some(HistoricalExistence)
    ensures var g := LoadGraph(s, user, entities);
      r in g.relations && Stands(env.relations, g, spec, r) <==> HasEnd(env, s, user, key, e, role, r)
  {
    var g := LoadGraph(s, user, entities);
    FilterMember(RelationsOf(user), s.relations, r);
    if r in s.relations && r.user == user {
      CountsOrNot(g, s, user, r);
      var i :| 0 <= i < |s.relations| && s.relations[i] == r;
      assert RelationRowOk(env, s.relations[i]);
      FieldsFit(env, key, e, role, kind, spec, r);
    }
  }

  lemma CountsOrNot(g: Graph, s: Store, user: Id, r: Relation)
    requires LedgerLifecycle.LedgerOk(s) && g.user == user && g.corrections == Filter(CorrectionsOf(user), s.ledger)
    ensures Counts(g, r) <==> forall c :: c in s.ledger ==> c.target != Ref(user, RelationKind, r.id)
  {
    ReadBack.UserLedger(s, user, Ref(user, RelationKind, r.id));
  }

  lemma {:induction false} RowsIdentified(env: Env, s: Store, user: Id, entities: map<Id, Id>)
    requires RelationsOk(env, s.relations)
    ensures IdsIdentify(RelationId(), LoadGraph(s, user, entities).relations)
  {
    var rows := LoadGraph(s, user, entities).relations;
    forall x, y | x in rows && y in rows && RelationId()(x) == RelationId()(y) ensures x == y {
      FilterMember(RelationsOf(user), s.relations, x);
      FilterMember(RelationsOf(user), s.relations, y);
      var i :| 0 <= i < |s.relations| && s.relations[i] == x;
      var j :| 0 <= j < |s.relations| && s.relations[j] == y;
    }
  }

  lemma EndIsAsked(env: Env, g: Graph, key: string, e: Id, role: Association, kind: Option<RelationKind>, spec: Spec)
    requires CatalogOk(env.catalog) && e in g.entities
    requires NamesRelation(env.catalog, R.StoredQuery(env.relations, key).0)
    requires IsEndSpec(env, key, e, role, kind, spec) && kind != Some(HistoricalExistence)
    ensures var reply := RelationQuery(env.relations, env.catalog, g, spec); reply.Ok? && reply.value.answer.None?
  {
    var _ := ReplyExactly(env.relations, env.catalog, g, spec);
    assert WellAsked(env.catalog, spec) && AllVisible(g, spec);
  }

  /**
   * In every reachable store, a question that names one entity lists exactly the user's uncorrected current rows of
   * the relation with the entity at the end asked about, of the dated ones only that which none ranks above.
   */
  lemma {:induction false} OneEndReadBack(
    env: Env, run: seq<Timed>, user: Id, key: string, e: Id, role: Association, kind: Option<RelationKind>,
    entities: map<Id, Id>, r: Relation)
    requires Deployed(env) && e in entities
    requires NamesRelation(env.catalog, R.StoredQuery(env.relations, key).0)
    requires role in {Association.RelationSubject, Association.RelationObject} && kind != Some(HistoricalExistence)
    ensures var s := Run(env, run);
      var spec := EndSpec(env, key, e, role, kind);
      spec.Some? &&
      var reply := RelationQuery(env.relations, env.catalog, LoadGraph(s, user, entities), spec.value);
      reply.Ok? && (r in reply.value.items <==> Lists(env, s, user, key, e, role, r)) && reply.value.answer.None?
  {
    var s := Run(env, run);
    RunKeeps(env, run);
    BuildsEnd(env, key, e, role, kind);
    var g, spec := LoadGraph(s, user, entities), EndSpec(env, key, e, role, kind).value;
    EndIsAsked(env, g, key, e, role, kind, spec);
    RowsIdentified(env, s, user, entities);
    ShownExactly(env.relations, env.catalog, g, spec, r);
    forall q ensures q in g.relations && Stands(env.relations, g, spec, q) <==> HasEnd(env, s, user, key, e, role, q) {
      StandsIsEnd(env, s, user, key, e, role, kind, spec, entities, q);
    }
  }

  // ---------------------------------------------------------------- told, then asked about one end

  /** Said to hold now, and of a time that is not over and not still to come. */
  ghost predicate SaidOfNow(w: RelationWrite) {
    && w.mode == Assert && w.subject.Some? && w.object_.Some?
    && (if w.temporal.Some? && w.persistable then w.temporal.value.occurrence !in {Some(Happened), Some(Planned)}
        else !w.required && w.fallback.occurrence !in {Some(Happened), Some(Planned)})
  }

  /** The end the told subject or object has in a question through the key: its own, unless one key inverts the other. */
  ghost function EndAsked(env: Env, w: RelationWrite, key: string, role: Association): Id
    requires w.subject.Some? && w.object_.Some?
  {
    if (role == Association.RelationSubject) == (R.StoredQuery(env.relations, key).1 == R.StoredQuery(env.relations, w.key).1)
    then w.subject.value else w.object_.value
  }

  lemma ToldRowHasEnd(env: Env, s: Store, w: RelationWrite, key: string, role: Association, r: Relation)
    requires w.subject.Some? && w.object_.Some? && LinksAsTold(env, w, r)
    requires R.StoredQuery(env.relations, key).0 == R.StoredQuery(env.relations, w.key).0
    requires r in s.relations && r.isCurrent && forall c :: c in s.ledger ==> c.target != Ref(w.user, RelationKind, r.id)
    ensures HasEnd(env, s, w.user, key, EndAsked(env, w, key, role), role, r)
  {
  }

  /** Nothing of what was said before was corrected. */
  ghost predicate NotCorrected(env: Env, s: Store, w: RelationWrite)
    requires w.subject.Some? && w.object_.Some?
  {
    forall q, c :: q in s.relations && q.isCurrent && LinksAsTold(env, w, q) && c in s.ledger ==>
      c.target != Ref(w.user, RelationKind, q.id)
  }

  lemma {:induction false} HeldCounts(env: Env, s: Store, w: RelationWrite)
    requires CatalogOk(env.catalog) && RelationsOk(env, s.relations)
    requires w.subject.Some? && w.object_.Some? && NotCorrected(env, s, w)
    requires LinkFor(env, w.user, w.key, w.subject.value, w.object_.value).Some?
    ensures var link := LinkFor(env, w.user, w.key, w.subject.value, w.object_.value).value;
      HoldsCurrently(s.relations, link) ==> ReadBack.EffectivelyHolds(s, link)
  {
    var link := LinkFor(env, w.user, w.key, w.subject.value, w.object_.value).value;
    if HoldsCurrently(s.relations, link) {
      var q :| q in s.relations && q.isCurrent && LinkOf(q) == link;
      var i :| 0 <= i < |s.relations| && s.relations[i] == q;
      assert RelationRowOk(env, s.relations[i]);
      LinkIsAsTold(env, w, q);
      assert !Targeted(s.ledger, Ref(w.user, RelationKind, q.id));
    }
  }

  lemma {:induction false} EffectiveRowOf(env: Env, s: Store, w: RelationWrite) returns (r: Relation)
    requires CatalogOk(env.catalog) && RelationsOk(env, s.relations)
    requires w.subject.Some? && w.object_.Some?
    requires LinkFor(env, w.user, w.key, w.subject.value, w.object_.value).Some?
    requires ReadBack.EffectivelyHolds(s, LinkFor(env, w.user, w.key, w.subject.value, w.object_.value).value)
    ensures r in s.relations && r.isCurrent && LinksAsTold(env, w, r)
    ensures forall c :: c in s.ledger ==> c.target != Ref(w.user, RelationKind, r.id)
  {
    var link := LinkFor(env, w.user, w.key, w.subject.value, w.object_.value).value;
    r :| r in s.relations && r.isCurrent && LinkOf(r) == link && !Targeted(s.ledger, Ref(w.user, RelationKind, r.id));
    var i :| 0 <= i < |s.relations| && s.relations[i] == r;
    assert RelationRowOk(env, s.relations[i]);
    LinkIsAsTold(env, w, r);
  }

  /** Once said of now, and not said before by a corrected row, the link has a current row that counts. */
  lemma {:induction false} ToldLinkHolds(env: Env, s: Store, w: RelationWrite, at: int) returns (r: Relation)
    requires Deployed(env) && StoreOk(env, s) && DoRelation(env, s.relations, w, at).Some?
    requires SaidOfNow(w) && NotCorrected(env, s, w)
    ensures r in DoRelation(env, s.relations, w, at).value.rows && r.isCurrent && LinksAsTold(env, w, r)
    ensures forall c :: c in s.ledger ==> c.target != Ref(w.user, RelationKind, r.id)
  {
    var after := s.(relations := DoRelation(env, s.relations, w, at).value.rows);
    HeldCounts(env, s, w);
    ReadBack.WriteDecidesAnswer(env, s, w, at);
    DoRelationKeeps(env, s.relations, w, at);
    r := EffectiveRowOf(env, after, w);
  }

  /**
   * Over every run: a relation said of now through one key is listed when either of the two is asked about alone,
   * through any key of the relation and in the role that end has there, unless another row outdates it. A lone row
   * of the link already current must not have been corrected: saying it again refreshes that row.
   */
  lemma {:induction false} ToldThenAsked(
    env: Env, run: seq<Timed>, w: RelationWrite, at: int, key: string, role: Association, kind: Option<RelationKind>,
    entities: map<Id, Id>)
    requires Deployed(env) && DoRelation(env, Run(env, run).relations, w, at).Some? && SaidOfNow(w)
    requires NotCorrected(env, Run(env, run), w)
    requires R.StoredQuery(env.relations, key).0 == R.StoredQuery(env.relations, w.key).0
    requires role in {Association.RelationSubject, Association.RelationObject} && kind != Some(HistoricalExistence)
    requires EndAsked(env, w, key, role) in entities
    ensures var after := Run(env, run + [Timed(Ingest([WriteRelation(w)]), at)]);
      var spec := EndSpec(env, key, EndAsked(env, w, key, role), role, kind);
      spec.Some? &&
      var reply := RelationQuery(env.relations, env.catalog, LoadGraph(after, w.user, entities), spec.value);
      reply.Ok? && exists r :: ToldAndListed(env, after, w, key, role, r, reply.value.items)
  {
    var s := Run(env, run);
    var step := Timed(Ingest([WriteRelation(w)]), at);
    var after := Run(env, run + [step]);
    RunKeeps(env, run);
    RunKeeps(env, run + [step]);
    OneRelationWritten(env, run, w, at);
    var r := ToldLinkHolds(env, s, w, at);
    ToldRowHasEnd(env, after, w, key, role, r);
    OneEndReadBack(env, run + [step], w.user, key, EndAsked(env, w, key, role), role, kind, entities, r);
    var reply := RelationQuery(env.relations, env.catalog, LoadGraph(after, w.user, entities),
      EndSpec(env, key, EndAsked(env, w, key, role), role, kind).value);
    assert ToldAndListed(env, after, w, key, role, r, reply.value.items);
  }

  /** A row that links the two as told, counts, and is among the items unless another about that end outdates it. */
  ghost predicate ToldAndListed(env: Env, s: Store, w: RelationWrite, key: string, role: Association, r: Relation, items: seq<Relation>)
    requires w.subject.Some? && w.object_.Some?
  {
    && r in s.relations && r.isCurrent && LinksAsTold(env, w, r)
    && ((forall q :: HasEnd(env, s, w.user, key, EndAsked(env, w, key, role), role, q) ==> !Outdates(q, r)) ==> r in items)
  }

  lemma OneRelationWritten(env: Env, run: seq<Timed>, w: RelationWrite, at: int)
    requires DoRelation(env, Run(env, run).relations, w, at).Some?
    ensures Run(env, run + [Timed(Ingest([WriteRelation(w)]), at)]) ==
      Run(env, run).(relations := DoRelation(env, Run(env, run).relations, w, at).value.rows)
  {
    var s, ws, step := Run(env, run), [WriteRelation(w)], Timed(Ingest([WriteRelation(w)]), at);
    assert (run + [step])[..|run|] == run && ws[1..] == [];
    var t := DoWrite(env, Txn(s, NOTHING), ws[0], at).value;
    assert DoWrites(env, Txn(s, NOTHING), ws, at) == Some(t);
  }
}
