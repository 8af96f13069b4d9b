/** Relation questions by the fields of rows: what is reported, what is answered, and which end an entity stands for. */
module RelationQuestions {
  import opened Prelude
  import opened Domain
  import opened TimeRanking
  import opened EffectivenessResolver
  import opened QueryEngine
  import opened StateQuestions
  import Ranking
  import Lex
  import T = Store
  import R = RelationMetadata
  import Rel = RelationResolver

  // ---------------------------------------------------------------- which rows a question is about

  /** The user's row that no correction targets. */
  ghost predicate Counts(g: Graph, r: Relation) {
    forall c :: c in g.corrections ==> c.target != Ref(g.user, RelationKind, r.id)
  }

  /** The row starts at the entity, or ends there and has no direction. */
  ghost predicate FromEnd(t: R.Table, r: Relation, x: Id) {
    r.fromId == x || (R.NoDirection(t, r.key) && r.toId == x)
  }

  /** The row ends at the entity, or starts there and has no direction. */
  ghost predicate ToEnd(t: R.Table, r: Relation, x: Id) {
    r.toId == x || (R.NoDirection(t, r.key) && r.fromId == x)
  }

  /** A lone entity is the subject, unless it is asked about as relation object; of two the first is the subject. */
  ghost predicate EndsFit(t: R.Table, spec: Spec, r: Relation) {
    && (|spec.entities| == 1 && spec.association != Some(RelationObject) ==> FromEnd(t, r, spec.entities[0]))
    && (|spec.entities| == 1 && spec.association == Some(RelationObject) ==> ToEnd(t, r, spec.entities[0]))
    && (|spec.entities| >= 2 ==> FromEnd(t, r, spec.entities[0]) && ToEnd(t, r, spec.entities[1]))
  }

  /** Whether the row is current decides, except for the question whether the relation ever held. */
  ghost predicate ScopeFits(spec: Spec, r: Relation) {
    spec.relationKind != Some(HistoricalExistence) ==>
      (spec.scope == Rel.CurrentScope ==> r.isCurrent) && (spec.scope == Rel.HistoricalScope ==> !r.isCurrent)
  }

  ghost predicate Stands(t: R.Table, g: Graph, spec: Spec, r: Relation) {
    && Counts(g, r) && (spec.relationTypes != [] ==> r.conceptId in spec.relationTypes)
    && ScopeFits(spec, r) && EndsFit(t, spec, r)
  }

  ghost function Standing(t: R.Table, g: Graph, spec: Spec): Relation -> bool {
    (r: Relation) => Stands(t, g, spec, r)
  }

  predicate EndsInClass(g: Graph, spec: Spec, r: Relation) {
    spec.objectTypes != [] ==> r.toId in g.entities && g.entities[r.toId] in spec.objectTypes
  }

  function InClass(g: Graph, spec: Spec): Relation -> bool {
    (r: Relation) => EndsInClass(g, spec, r)
  }

  /** What is asked about are relation types, and the entities have a role. */
  ghost predicate WellAsked(c: T.Catalog, spec: Spec) {
    (forall id :: id in spec.relationTypes ==> id in c.byId && c.byId[id].kind == RelationType) && RoleGiven(spec)
  }

  // ---------------------------------------------------------------- what the resolver is asked

  ghost function Asked(spec: Spec): Rel.Pattern {
    Rel.Pattern(Endpoints(spec).0, Endpoints(spec).1, Concepts(spec.relationTypes))
  }

  ghost function ScopeOf(spec: Spec): Rel.Scope {
    if spec.relationKind == Some(HistoricalExistence) then Rel.AnyScope else spec.scope
  }

  lemma ConceptsExactly(spec: Spec, id: Id)
    ensures id in Concepts(spec.relationTypes) <==> id in spec.relationTypes
    ensures Concepts(spec.relationTypes) == {} <==> spec.relationTypes == []
  {
    if spec.relationTypes != [] { assert spec.relationTypes[0] in Concepts(spec.relationTypes); }
  }

  lemma MatchExactly(t: R.Table, spec: Spec, r: Relation)
    ensures Rel.MatchesTriple(t, Asked(spec), ScopeOf(spec), r) <==>
      (spec.relationTypes != [] ==> r.conceptId in spec.relationTypes) && ScopeFits(spec, r) && EndsFit(t, spec, r)
  {
    R.OrderInsensitiveExactly(t, r.key);
    ConceptsExactly(spec, r.conceptId);
  }

  lemma CountsExactly(g: Graph, r: Relation)
    ensures EffectiveRow(g.corrections, g.user, RelationKind, RelationId())(r) <==> Counts(g, r)
  {
    assert RelationId()(r) == r.id;
    var ref := Ref(g.user, RelationKind, r.id);
    assert T.Targeted(g.corrections, ref) <==> !Counts(g, r);
  }

  /** The rows the resolver finds are those the question is about, in stored order. */
  lemma {:induction false} FoundExactly(t: R.Table, g: Graph, spec: Spec)
    ensures Filter(Rel.Matching(t, Asked(spec), ScopeOf(spec)), EffectiveRelations(g)) == Filter(Standing(t, g, spec), g.relations)
  {
    var effective := EffectiveRow(g.corrections, g.user, RelationKind, RelationId());
    var f := Rel.Matching(t, Asked(spec), ScopeOf(spec));
    FilterTwice(effective, f, g.relations);
    forall r | r in g.relations ensures Both(effective, f)(r) <==> Standing(t, g, spec)(r) {
      CountsExactly(g, r);
      MatchExactly(t, spec, r);
    }
    FilterAgree(Both(effective, f), Standing(t, g, spec), g.relations);
  }

  /** Reported first is the newest dated row, then every undated one in stored order. */
  lemma {:induction false} RankedExactly(rows: seq<Relation>) returns (newest: seq<Relation>)
    ensures Newest(Rel.RelationTime(), RelationId(), rows, newest)
    ensures RowsOf(Rel.RankMatches(rows)) == newest + Filter(Undated(Rel.RelationTime()), rows)
  {
    var ranked := Ranked(Rel.RelationTime(), RelationId(), rows);
    SplitExactly(Rel.RelationTime(), RelationId(), rows);
    newest := if ranked == [] then [] else [ranked[0].row];
    MatchedRows(ranked, WithoutTime(Rel.RelationTime(), rows));
  }

  lemma MatchedRows(ranked: seq<Ranking.Keyed<Relation>>, unknown: seq<Relation>)
    ensures RowsOf(Rel.Matches(ranked, unknown)) == (if ranked == [] then [] else [ranked[0].row]) + unknown
  {
  }

  /** The newest is sure unless, with no undated row beside it, another has its date; undated rows never are. */
  ghost function SureOf(rows: seq<Relation>, r: Relation): Completeness {
    var undated := Filter(Undated(Rel.RelationTime()), rows);
    if Dated(r.temporal) then
      if undated == [] && exists x :: x in rows && x != r && SameDate(x.temporal, r.temporal) then Indeterminate else Complete
    else if |undated| == 1 || exists x :: x in rows && Dated(x.temporal) then Partial
    else Indeterminate
  }

  /** How surely each row is reported. */
  lemma {:induction false} TagsExactly(rows: seq<Relation>)
    requires forall i, j :: 0 <= i < j < |rows| ==> rows[i] != rows[j]
    ensures forall m :: m in Rel.RankMatches(rows) ==> m.completeness == SureOf(rows, m.relation)
  {
    var time := Rel.RelationTime();
    var ranked, unknown := Ranked(time, RelationId(), rows), WithoutTime(time, rows);
    SplitExactly(time, RelationId(), rows);
    if ranked != [] { FirstTied(time, RelationId(), rows); }
    forall m | m in Rel.RankMatches(rows) ensures m.completeness == SureOf(rows, m.relation) {
      if m.relation in unknown { FilterMember(Undated(time), rows, m.relation); }
    }
  }

  // ---------------------------------------------------------------- the reply

  /** Reported rows: the newest dated and all undated ones about the question, those that end in the class asked. */
  ghost predicate Reports(t: R.Table, g: Graph, spec: Spec, newest: seq<Relation>, items: seq<Relation>) {
    var found := Filter(Standing(t, g, spec), g.relations);
    && Newest(Rel.RelationTime(), RelationId(), found, newest)
    && items == Filter(InClass(g, spec), newest + Filter(Undated(Rel.RelationTime()), found))
  }

  ghost predicate SomeCurrent(items: seq<Relation>) {
    exists r :: r in items && r.isCurrent
  }

  /**
   * A class asked for decides by the reported rows; whether the relation ever held by any row; two entities by
   * whether a row is found, in doubt when an undated current row stands beside another; one entity has no yes or no.
   */
  ghost predicate Answers(t: R.Table, g: Graph, spec: Spec, reply: RelationReply) {
    var found := Filter(Standing(t, g, spec), g.relations);
    var doubt := spec.scope == Rel.CurrentScope && |found| > 1 && Filter(Undated(Rel.RelationTime()), found) != [];
    if spec.relationKind == Some(HistoricalExistence) then reply.answer == Some(if found == [] then Rel.No else Rel.Yes)
    else if spec.objectTypes != [] then reply.answer == Some(if SomeCurrent(reply.items) then Rel.Yes else Rel.No)
    else if |spec.entities| >= 2 then reply.answer == Some(if found == [] then Rel.No else if doubt then Rel.Unsure else Rel.Yes)
    else reply.answer.None?
  }

  /** How sure: indeterminate, with every row reported counted, when two entities are in doubt, and complete otherwise. */
  ghost predicate SaysHowSurely(t: R.Table, g: Graph, spec: Spec, newest: seq<Relation>, reply: RelationReply) {
    var found := Filter(Standing(t, g, spec), g.relations);
    var undated := Filter(Undated(Rel.RelationTime()), found);
    if spec.relationKind != Some(HistoricalExistence) && |spec.entities| >= 2 && spec.scope == Rel.CurrentScope
       && |found| > 1 && undated != []
    then reply.completeness == Indeterminate && reply.indeterminate == |newest| + |undated|
    else reply.completeness == Complete && reply.indeterminate == 0
  }

  lemma DeniedExactly(t: R.Table, c: T.Catalog, g: Graph, spec: Spec)
    ensures RelationQuery(t, c, g, spec).Ok? <==> WellAsked(c, spec) && AllVisible(g, spec)
    ensures RelationQuery(t, c, g, spec) == Err(SpecError) <==> !WellAsked(c, spec)
  {
    VisibilityExactly(spec, g);
  }

  /** The rows of a reply before the class is looked at. */
  ghost function Resolved(t: R.Table, g: Graph, spec: Spec): Rel.RelationAnswer {
    if spec.relationKind == Some(HistoricalExistence) then Rel.HistoricalExistence(t, EffectiveRelations(g), Asked(spec))
    else Rel.RelationQuery(t, EffectiveRelations(g), Asked(spec), spec.scope, Asked(spec).subject.Some? && Asked(spec).object_.Some?)
  }

  lemma {:induction false} ResolvedMatches(t: R.Table, g: Graph, spec: Spec)
    ensures Resolved(t, g, spec).matches == Rel.RankMatches(Filter(Standing(t, g, spec), g.relations))
  {
    FoundExactly(t, g, spec);
    var found := Filter(Standing(t, g, spec), g.relations);
    if found == [] { NothingRanked(); }
  }

  lemma NothingRanked()
    ensures Rel.RankMatches([]) == []
  {
  }

  lemma {:induction false} AnswerExactly(t: R.Table, g: Graph, spec: Spec)
    requires spec.objectTypes == []
    ensures Answers(t, g, spec, Reply(g, spec, Resolved(t, g, spec)))
  {
    FoundExactly(t, g, spec);
    var found := Filter(Standing(t, g, spec), g.relations);
    if spec.relationKind != Some(HistoricalExistence) && |spec.entities| >= 2 {
      if spec.scope == Rel.CurrentScope {
        Rel.BooleanCurrentExactly(t, EffectiveRelations(g), Asked(spec));
        SplitExactly(Rel.RelationTime(), RelationId(), found);
      } else {
        Rel.SplitSizes(found);
      }
    }
  }

  lemma {:induction false} AllFoundCurrent(t: R.Table, rows: seq<Relation>, p: Rel.Pattern)
    ensures var ranked := Rel.RankMatches(Filter(Rel.Matching(t, p, Rel.CurrentScope), rows));
      Filter(Rel.IsCurrentMatch(), ranked) == ranked
  {
    var f := Rel.Matching(t, p, Rel.CurrentScope);
    var found := Filter(f, rows);
    forall m | m in Rel.RankMatches(found) ensures Rel.IsCurrentMatch()(m) {
      Rel.MatchesComeFromRows(found, m);
      FilterMember(f, rows, m.relation);
    }
    FilterAll(Rel.IsCurrentMatch(), Rel.RankMatches(found));
  }

  lemma {:induction false} ResolvedSurely(t: R.Table, g: Graph, spec: Spec)
    ensures var a, ranked := Resolved(t, g, spec), Rel.RankMatches(Filter(Standing(t, g, spec), g.relations));
      if spec.relationKind != Some(HistoricalExistence) && |spec.entities| >= 2 && spec.scope == Rel.CurrentScope && |ranked| > 1
      then a.completeness == Indeterminate && a.indeterminate == |ranked|
      else a.completeness == Complete && a.indeterminate == 0
  {
    FoundExactly(t, g, spec);
    if spec.scope == Rel.CurrentScope { AllFoundCurrent(t, EffectiveRelations(g), Asked(spec)); }
  }

  lemma {:induction false} SurelyExactly(t: R.Table, g: Graph, spec: Spec, newest: seq<Relation>)
    requires var found := Filter(Standing(t, g, spec), g.relations);
      && Newest(Rel.RelationTime(), RelationId(), found, newest)
      && RowsOf(Rel.RankMatches(found)) == newest + Filter(Undated(Rel.RelationTime()), found)
    ensures SaysHowSurely(t, g, spec, newest, Reply(g, spec, Resolved(t, g, spec)))
  {
    ResolvedSurely(t, g, spec);
    var found := Filter(Standing(t, g, spec), g.relations);
    UndatedOrAll(found, newest);
    assert |Rel.RankMatches(found)| == |RowsOf(Rel.RankMatches(found))|;
  }

  /** Beside the newest, more is reported exactly when an undated row stands beside another. */
  lemma {:induction false} UndatedOrAll(found: seq<Relation>, newest: seq<Relation>)
    requires Newest(Rel.RelationTime(), RelationId(), found, newest)
    ensures var undated := Filter(Undated(Rel.RelationTime()), found);
      |newest| + |undated| > 1 <==> |found| > 1 && undated != []
  {
    var undated := Filter(Undated(Rel.RelationTime()), found);
    SplitExactly(Rel.RelationTime(), RelationId(), found);
    Rel.SplitSizes(found);
    if newest == [] {
      forall r | r in found ensures Undated(Rel.RelationTime())(r) {}
      FilterAll(Undated(Rel.RelationTime()), found);
    } else {
      FilterMember(Undated(Rel.RelationTime()), found, newest[0]);
      DatedLeftOut(found, newest[0]);
    }
  }

  lemma {:induction false} DatedLeftOut(found: seq<Relation>, r: Relation)
    requires r in found && Dated(r.temporal)
    ensures |Filter(Undated(Rel.RelationTime()), found)| < |found|
  {
    var undated := Filter(Undated(Rel.RelationTime()), found);
    Rel.SplitSizes(found);
    SplitExactly(Rel.RelationTime(), RelationId(), found);
    FilterMember(Timed(Rel.RelationTime()), found, r);
    RankExactly(Rel.RelationTime(), RelationId(), r, r);
  }

  /** A relation question is refused, or its reply is settled by the fields of the rows and of the question. */
  lemma {:induction false} ReplyExactly(t: R.Table, c: T.Catalog, g: Graph, spec: Spec) returns (newest: seq<Relation>)
    ensures var reply := RelationQuery(t, c, g, spec);
      && (reply.Ok? <==> WellAsked(c, spec) && AllVisible(g, spec))
      && (reply == Err(SpecError) <==> !WellAsked(c, spec))
      && (reply.Ok? ==> Reports(t, g, spec, newest, reply.value.items) && Answers(t, g, spec, reply.value))
      && (reply.Ok? ==> SaysHowSurely(t, g, spec, newest, reply.value))
  {
    DeniedExactly(t, c, g, spec);
    newest := ReportExactly(t, g, spec);
    SurelyExactly(t, g, spec, newest);
    if spec.objectTypes == [] { AnswerExactly(t, g, spec); } else { ClassAnswer(t, g, spec); }
    if RelationQuery(t, c, g, spec).Ok? { RepliesResolved(t, c, g, spec); }
  }

  lemma RepliesResolved(t: R.Table, c: T.Catalog, g: Graph, spec: Spec)
    requires RelationQuery(t, c, g, spec).Ok?
    ensures RelationQuery(t, c, g, spec).value == Reply(g, spec, Resolved(t, g, spec))
  {
  }

  lemma {:induction false} ReportExactly(t: R.Table, g: Graph, spec: Spec) returns (newest: seq<Relation>)
    ensures Reports(t, g, spec, newest, Reply(g, spec, Resolved(t, g, spec)).items)
    ensures var found := Filter(Standing(t, g, spec), g.relations);
      RowsOf(Rel.RankMatches(found)) == newest + Filter(Undated(Rel.RelationTime()), found)
  {
    var found := Filter(Standing(t, g, spec), g.relations);
    ResolvedMatches(t, g, spec);
    newest := RankedExactly(found);
    ClassExactly(g, spec, newest + Filter(Undated(Rel.RelationTime()), found));
  }

  lemma ClassExactly(g: Graph, spec: Spec, rows: seq<Relation>)
    ensures Filter(ToType(spec.objectTypes, g.entities), rows) == Filter(InClass(g, spec), rows)
  {
    FilterAgree(ToType(spec.objectTypes, g.entities), InClass(g, spec), rows);
  }

  lemma {:induction false} ClassAnswer(t: R.Table, g: Graph, spec: Spec)
    requires spec.objectTypes != []
    ensures Answers(t, g, spec, Reply(g, spec, Resolved(t, g, spec)))
  {
    FoundExactly(t, g, spec);
    var items := Reply(g, spec, Resolved(t, g, spec)).items;
    var current := Filter(IsCurrentRow(), items);
    if current != [] {
      FilterMember(IsCurrentRow(), items, current[0]);
    } else {
      forall r | r in items ensures !r.isCurrent { FilterMember(IsCurrentRow(), items, r); }
    }
  }

  // ---------------------------------------------------------------- one entity

  /** A row about the question that is undated, or dated and with none ranking above it, is reported; no other is. */
  ghost predicate Shown(t: R.Table, g: Graph, spec: Spec, r: Relation) {
    && r in g.relations && Stands(t, g, spec, r) && EndsInClass(g, spec, r)
    && (Dated(r.temporal) ==>
          forall q :: q in g.relations && Stands(t, g, spec, q) && Dated(q.temporal) ==>
            !RanksAbove(q.temporal, q.id, r.temporal, r.id))
  }

  lemma {:induction false} NewestIsOne(time: Relation -> Temporal, id: Relation -> Id, rows: seq<Relation>, top: seq<Relation>, r: Relation)
    requires Newest(time, id, rows, top) && IdsIdentify(id, rows)
    ensures r in top <==> r in rows && Dated(time(r)) && forall q :: q in rows && Dated(time(q)) ==> !RanksAbove(time(q), id(q), time(r), id(r))
  {
    if r in rows && Dated(time(r)) && forall q :: q in rows && Dated(time(q)) ==> !RanksAbove(time(q), id(q), time(r), id(r)) {
      var x := top[0];
      Lex.Total(DateText(time(x)), DateText(time(r)));
      Lex.Total(id(x), id(r));
    }
  }

  lemma {:induction false} ShownExactly(t: R.Table, c: T.Catalog, g: Graph, spec: Spec, r: Relation)
    requires IdsIdentify(RelationId(), g.relations) && RelationQuery(t, c, g, spec).Ok?
    ensures r in RelationQuery(t, c, g, spec).value.items <==> Shown(t, g, spec, r)
  {
    var newest := ReplyExactly(t, c, g, spec);
    var found := Filter(Standing(t, g, spec), g.relations);
    var time := Rel.RelationTime();
    forall q ensures q in found <==> q in g.relations && Stands(t, g, spec, q) { FilterMember(Standing(t, g, spec), g.relations, q); }
    NewestIsOne(time, RelationId(), found, newest, r);
    FilterMember(Undated(time), found, r);
    FilterMember(InClass(g, spec), newest + Filter(Undated(time), found), r);
  }
}
