/** Relation queries: triple matching with symmetry, ranking by time, and the boolean answer. */
module RelationResolver {
  import opened Prelude
  import opened Domain
  import opened Ranking
  import opened TimeRanking
  import R = RelationMetadata

  datatype Scope = CurrentScope | HistoricalScope | AnyScope

  datatype Answer = Yes | No | Unsure

  datatype RelationMatch = RelationMatch(relation: Relation, completeness: Completeness)

  datatype RelationAnswer = RelationAnswer(
    matches: seq<RelationMatch>, answer: Option<Answer>, completeness: Completeness, indeterminate: nat)

  datatype Pattern = Pattern(subject: Option<Id>, object_: Option<Id>, concepts: set<Id>)

  predicate InScope(scope: Scope, r: Relation) {
    && (scope == CurrentScope ==> r.isCurrent)
    && (scope == HistoricalScope ==> !r.isCurrent)
  }

  /** The endpoint named as subject or object may be either end of an order-insensitive relation. */
  predicate MatchesTriple(t: R.Table, p: Pattern, scope: Scope, r: Relation) {
    && (p.concepts != {} ==> r.conceptId in p.concepts)
    && InScope(scope, r)
    && (p.subject.Some? ==>
          r.fromId == p.subject.value || (R.OrderInsensitive(t, r.key) && r.toId == p.subject.value))
    && (p.object_.Some? ==>
          r.toId == p.object_.value || (R.OrderInsensitive(t, r.key) && r.fromId == p.object_.value))
  }

  function Matching(t: R.Table, p: Pattern, scope: Scope): Relation -> bool {
    (r: Relation) => MatchesTriple(t, p, scope, r)
  }

  function RelationTime(): Relation -> Temporal { (r: Relation) => r.temporal }

  function Tagged(rows: seq<Relation>, completeness: Completeness): (r: seq<RelationMatch>)
    ensures |r| == |rows|
    ensures forall i :: 0 <= i < |rows| ==> r[i] == RelationMatch(rows[i], completeness)
  {
    seq(|rows|, i requires 0 <= i < |rows| => RelationMatch(rows[i], completeness))
  }

  /** The latest row with a known time, then every row without one. */
  function Matches(ranked: seq<Keyed<Relation>>, unknown: seq<Relation>): seq<RelationMatch> {
    if ranked == [] then Tagged(unknown, if |unknown| == 1 then Partial else Indeterminate)
    else
      var top := ranked[0];
      var tied := unknown == [] && |ranked| > 1 && top.rank == ranked[1].rank && top.stamp == ranked[1].stamp;
      [RelationMatch(top.row, if tied then Indeterminate else Complete)] + Tagged(unknown, Partial)
  }

  function RankMatches(rows: seq<Relation>): seq<RelationMatch> {
    Matches(Ranked(RelationTime(), RelationId(), rows), WithoutTime(RelationTime(), rows))
  }

  function IsCurrentMatch(): RelationMatch -> bool { (m: RelationMatch) => m.relation.isCurrent }

  function BooleanAnswer(ranked: seq<RelationMatch>, scope: Scope): RelationAnswer {
    var current := Filter(IsCurrentMatch(), ranked);
    if ranked == [] then RelationAnswer([], Some(No), Complete, 0)
    else if scope == CurrentScope && |current| > 1 then RelationAnswer(ranked, Some(Unsure), Indeterminate, |current|)
    else RelationAnswer(ranked, Some(Yes), Complete, 0)
  }

  function RelationQuery(t: R.Table, rows: seq<Relation>, p: Pattern, scope: Scope, boolean: bool): RelationAnswer {
    var ranked := RankMatches(Filter(Matching(t, p, scope), rows));
    if !boolean then RelationAnswer(ranked, None, Complete, 0)
    else BooleanAnswer(ranked, scope)
  }

  method ResolveRelationQuery(t: R.Table, rows: seq<Relation>, p: Pattern, scope: Scope, boolean: bool)
    returns (a: RelationAnswer)
    ensures a == RelationQuery(t, rows, p, scope, boolean)
  {
    var matches := Filter(Matching(t, p, scope), rows);
    var ranked, unknown := SplitByTime(RelationTime(), RelationId(), matches);
    var result := Matches(ranked, unknown);
    if !boolean {
      return RelationAnswer(result, None, Complete, 0);
    }
    a := BooleanAnswer(result, scope);
  }

  function HistoricalExistence(t: R.Table, rows: seq<Relation>, p: Pattern): RelationAnswer {
    var matches := Filter(Matching(t, p, AnyScope), rows);
    if matches != [] then RelationAnswer(RankMatches(matches), Some(Yes), Complete, 0)
    else RelationAnswer([], Some(No), Complete, 0)
  }

  /** Retracting currency never retracts history: existence is yes exactly when some row of the triple is stored. */
  lemma HistoricalExistenceExactly(t: R.Table, rows: seq<Relation>, p: Pattern)
    ensures HistoricalExistence(t, rows, p).answer == Some(Yes) <==>
      exists r :: r in rows && MatchesTriple(t, p, AnyScope, r)
  {
    var f := Matching(t, p, AnyScope);
    if Filter(f, rows) != [] {
      FilterMember(f, rows, Filter(f, rows)[0]);
    } else {
      forall r | r in rows ensures !MatchesTriple(t, p, AnyScope, r) { FilterMember(f, rows, r); }
    }
  }

  /**
   * A stored row matches a question about two entities exactly when it links them, in the asked direction or, where
   * the relation has none, in either; but a question about one entity twice matches any row with that end.
   */
  lemma EndpointsMatch(t: R.Table, r: Relation, x: Id, y: Id, concepts: set<Id>, scope: Scope)
    requires InScope(scope, r) && r.conceptId in concepts
    ensures MatchesTriple(t, Pattern(Some(x), Some(y), concepts), scope, r) <==>
      || (r.fromId == x && r.toId == y)
      || (R.OrderInsensitive(t, r.key) && r.fromId == y && r.toId == x)
      || (R.OrderInsensitive(t, r.key) && x == y && (r.fromId == x || r.toId == x))
  {
  }

  lemma {:induction false} SplitSizes(rows: seq<Relation>)
    ensures |Ranked(RelationTime(), RelationId(), rows)| == |Filter(Timed(RelationTime()), rows)|
    ensures |Filter(Timed(RelationTime()), rows)| + |WithoutTime(RelationTime(), rows)| == |rows|
  {
    var keyed := KeyAll(KeyOf(RelationTime(), RelationId()), Filter(Timed(RelationTime()), rows));
    SortPermutes(true, keyed);
    PermutationLength(keyed, Sort(true, keyed));
    if rows != [] { SplitSizes(rows[..|rows| - 1]); }
  }

  /** Every ranked match comes from the rows. */
  lemma {:induction false} MatchesComeFromRows(rows: seq<Relation>, m: RelationMatch)
    requires m in RankMatches(rows)
    ensures m.relation in rows
  {
    var ranked, unknown := Ranked(RelationTime(), RelationId(), rows), WithoutTime(RelationTime(), rows);
    if m.relation in unknown {
      FilterMember(Untimed(RelationTime()), rows, m.relation);
    } else {
      var timed := Filter(Timed(RelationTime()), rows);
      var keyed := KeyAll(KeyOf(RelationTime(), RelationId()), timed);
      SortPermutes(true, keyed);
      PermutationMember(keyed, ranked, ranked[0]);
      FilterMember(Timed(RelationTime()), rows, m.relation);
    }
  }

  /**
   * The current boolean answer exactly: no without a matching current row; unsure when a row without a known
   * time stands beside another match; yes otherwise.
   */
  lemma {:induction false} BooleanCurrentExactly(t: R.Table, rows: seq<Relation>, p: Pattern)
    ensures var found := Filter(Matching(t, p, CurrentScope), rows);
      var untimed := WithoutTime(RelationTime(), found);
      RelationQuery(t, rows, p, CurrentScope, true).answer == Some(
        if found == [] then No
        else if |found| > 1 && untimed != [] then Unsure
        else Yes)
  {
    var f := Matching(t, p, CurrentScope);
    var found := Filter(f, rows);
    var ranked := RankMatches(found);
    SplitSizes(found);
    forall m | m in ranked ensures IsCurrentMatch()(m) {
      MatchesComeFromRows(found, m);
      FilterMember(f, rows, m.relation);
    }
    FilterAll(IsCurrentMatch(), ranked);
  }

  /** The row has a direction and runs from the entity to itself, or has none and the entity at either end. */
  predicate Touches(t: R.Table, r: Relation, x: Id) {
    (r.fromId == x && r.toId == x) || (R.OrderInsensitive(t, r.key) && (r.fromId == x || r.toId == x))
  }

  /**
   * "Is x related to x now?" is denied exactly when no current row of the relation touches x: a relation without
   * direction between x and anybody else already keeps it from being denied.
   */
  lemma {:induction false} SelfQuestionExactly(t: R.Table, rows: seq<Relation>, x: Id, concepts: set<Id>)
    requires concepts != {}
    ensures RelationQuery(t, rows, Pattern(Some(x), Some(x), concepts), CurrentScope, true).answer != Some(No) <==>
      exists r :: r in rows && r.isCurrent && r.conceptId in concepts && Touches(t, r, x)
  {
    var p := Pattern(Some(x), Some(x), concepts);
    var f := Matching(t, p, CurrentScope);
    var found := Filter(f, rows);
    BooleanCurrentExactly(t, rows, p);
    forall r ensures r in found <==> r in rows && r.isCurrent && r.conceptId in concepts && Touches(t, r, x) {
      FilterMember(f, rows, r);
      if InScope(CurrentScope, r) && r.conceptId in concepts { EndpointsMatch(t, r, x, x, concepts, CurrentScope); }
    }
    if found != [] { assert found[0] in found; }
  }

  /** A single row with a known time that touches x answers yes. */
  lemma {:induction false} OneRowTouches(t: R.Table, r: Relation, x: Id)
    requires r.isCurrent && KnownTime(r.temporal) && Touches(t, r, x)
    ensures RelationQuery(t, [r], Pattern(Some(x), Some(x), {r.conceptId}), CurrentScope, true).answer == Some(Yes)
  {
    var p := Pattern(Some(x), Some(x), {r.conceptId});
    var f := Matching(t, p, CurrentScope);
    EndpointsMatch(t, r, x, x, {r.conceptId}, CurrentScope);
    BooleanCurrentExactly(t, [r], p);
    FilterAppend(f, [], r);
    assert [] + [r] == [r];
  }

  /** One current marriage of a and b, and a is said to be married to a. */
  lemma {:induction false} MarriedToOneself(user: Id, a: Id, b: Id, concept: Id, time: Temporal)
    requires a != b && KnownTime(time)
    ensures var marriage := Relation("r1", user, a, b, concept, "relation.married_to", time, 0, true, None);
      RelationQuery(R.CORE, [marriage], Pattern(Some(a), Some(a), {concept}), CurrentScope, true).answer == Some(Yes)
  {
    R.CoreLookups();
    OneRowTouches(R.CORE, Relation("r1", user, a, b, concept, "relation.married_to", time, 0, true, None), a);
  }

  lemma {:induction false} RankMatchesOrderFree(a: seq<Relation>, b: seq<Relation>)
    requires multiset(a) == multiset(b) && IdsIdentify(RelationId(), a)
    ensures multiset(RankMatches(a)) == multiset(RankMatches(b)) && |RankMatches(a)| == |RankMatches(b)|
  {
    RankedOrderFree(RelationTime(), RelationId(), a, b);
    var ua, ub := WithoutTime(RelationTime(), a), WithoutTime(RelationTime(), b);
    PermutationLength(ua, ub);
    TaggedPermutation(ua, ub, Partial);
    TaggedPermutation(ua, ub, Indeterminate);
    PermutationLength(RankMatches(a), RankMatches(b));
  }

  /** Row order never decides a relation answer, nor which rows are reported with it. */
  lemma {:induction false} AnswersOrderFree(
    t: R.Table, s: seq<Relation>, u: seq<Relation>, p: Pattern, scope: Scope, boolean: bool)
    requires multiset(s) == multiset(u) && IdsIdentify(RelationId(), s)
    ensures var a, b := RelationQuery(t, s, p, scope, boolean), RelationQuery(t, u, p, scope, boolean);
      a.answer == b.answer && multiset(a.matches) == multiset(b.matches)
  {
    var f := Matching(t, p, scope);
    var a, b := Filter(f, s), Filter(f, u);
    FilterPermutation(f, s, u);
    forall x | x in a ensures x in s { FilterMember(f, s, x); }
    RankMatchesOrderFree(a, b);
    BooleanOrderFree(RankMatches(a), RankMatches(b), scope);
  }

  lemma BooleanOrderFree(a: seq<RelationMatch>, b: seq<RelationMatch>, scope: Scope)
    requires multiset(a) == multiset(b) && |a| == |b|
    ensures BooleanAnswer(a, scope).answer == BooleanAnswer(b, scope).answer
    ensures multiset(BooleanAnswer(a, scope).matches) == multiset(BooleanAnswer(b, scope).matches)
  {
    FilterPermutation(IsCurrentMatch(), a, b);
    PermutationLength(Filter(IsCurrentMatch(), a), Filter(IsCurrentMatch(), b));
  }

  lemma {:induction false} ExistenceOrderFree(t: R.Table, s: seq<Relation>, u: seq<Relation>, p: Pattern)
    requires multiset(s) == multiset(u) && IdsIdentify(RelationId(), s)
    ensures var a, b := HistoricalExistence(t, s, p), HistoricalExistence(t, u, p);
      a.answer == b.answer && multiset(a.matches) == multiset(b.matches)
  {
    var f := Matching(t, p, AnyScope);
    FilterPermutation(f, s, u);
    PermutationLength(Filter(f, s), Filter(f, u));
    forall x | x in Filter(f, s) ensures x in s { FilterMember(f, s, x); }
    RankMatchesOrderFree(Filter(f, s), Filter(f, u));
  }

  lemma {:induction false} TaggedCount(rows: seq<Relation>, c: Completeness, m: RelationMatch)
    ensures multiset(Tagged(rows, c))[m] == if m.completeness == c then multiset(rows)[m.relation] else 0
  {
    if rows != [] {
      var front, last := rows[..|rows| - 1], rows[|rows| - 1];
      assert rows == front + [last];
      assert Tagged(rows, c) == Tagged(front, c) + [RelationMatch(last, c)];
      TaggedCount(front, c, m);
    }
  }

  lemma TaggedPermutation(s: seq<Relation>, u: seq<Relation>, c: Completeness)
    requires multiset(s) == multiset(u)
    ensures multiset(Tagged(s, c)) == multiset(Tagged(u, c))
  {
    var a, b := multiset(Tagged(s, c)), multiset(Tagged(u, c));
    forall m ensures a[m] == b[m] {
      TaggedCount(s, c, m);
      TaggedCount(u, c, m);
    }
  }
}
