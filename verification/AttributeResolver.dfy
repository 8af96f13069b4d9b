/** Epistemic attribute answers: what the candidate rows support, decided without looking at their order. */
module AttributeResolver {
  import opened Prelude
  import opened Domain
  import opened Ranking
  import opened TimeRanking
  import opened Grouping
  import opened TemporalPartition

  datatype Status = KnownSingle | KnownMultiple | Unknown | TemporallyUnknown | Ambiguous

  datatype Proposition = Yes | No | PropositionUnknown | PropositionAmbiguous | PropositionTimeUnknown

  type ValueGroup = Group<Attribute, Value>

  datatype AttributeAnswer = AttributeAnswer(
    status: Status, groups: seq<ValueGroup>, candidates: seq<Attribute>,
    membershipUnknown: bool, proposition: Option<Proposition>)

  datatype Mode = ValueLookupMode | PropositionMode | HistoricalExistenceMode

  datatype Policy = CurrentPolicy | HistoryPolicy

  datatype Query = Query(
    dimension: string, mode: Mode, filter: Option<Value>, range: Option<Window>,
    policy: Policy, ascending: bool, limit: Option<int>)

  function ValueOf(): Attribute -> Value { (a: Attribute) => a.value }
  function AttributeTime(): Attribute -> Temporal { (a: Attribute) => a.temporal }
  function IsCurrent(): Attribute -> bool { (a: Attribute) => a.isCurrent }
  function IsClosed(): Attribute -> bool { (a: Attribute) => !a.isCurrent }
  function OfDimension(dimension: string): Attribute -> bool { (a: Attribute) => a.dimension == dimension }
  function AssertionMembership(): (Attribute, Window) -> Membership {
    (a: Attribute, w: Window) => CoarseMembership(a.temporal, w)
  }

  /** A filter names one value; a unit only decides between two stated units. */
  predicate FilterMatches(v: Value, f: Value) {
    && v.kind == f.kind
    && match f.kind
       case TextValue => v.text == f.text
       case NumberValue => v.number == f.number && (f.unit.Some? && v.unit.Some? ==> v.unit == f.unit)
       case YearValue => v.year == f.year
       case DateValue => v.date == f.date
       case ConceptValue => v.concept == f.concept
  }

  function HasValue(f: Value): Attribute -> bool { (a: Attribute) => FilterMatches(a.value, f) }
  function GroupMatches(f: Value): ValueGroup -> bool { (g: ValueGroup) => FilterMatches(g.identity, f) }

  function GroupsOf(rows: seq<Attribute>): seq<ValueGroup> {
    Groups(ValueOf(), rows)
  }

  function Counted(groups: seq<ValueGroup>, several: Status): Status {
    if |groups| == 1 then KnownSingle else several
  }

  const NO_ROWS := AttributeAnswer(Unknown, [], [], false, None)

  function CurrentLookup(working: seq<Attribute>, hadUnknown: bool): AttributeAnswer {
    var current := Filter(IsCurrent(), working);
    if current == [] then AttributeAnswer(TemporallyUnknown, [], working, true, None)
    else
      var groups := GroupsOf(current);
      AttributeAnswer(Counted(groups, Ambiguous), groups, current, hadUnknown, None)
  }

  /** A slice `[:limit]`: no limit and limit zero keep everything, a negative one drops from the end. */
  function Slice<T>(s: seq<T>, limit: Option<int>): seq<T> {
    if limit.None? || limit.value == 0 then s
    else if limit.value > 0 then (if limit.value <= |s| then s[..limit.value] else s)
    else if |s| + limit.value > 0 then s[..|s| + limit.value] else []
  }

  /** Closed rows by time and id, newest first unless asked otherwise. */
  function Chronology(rows: seq<Attribute>, ascending: bool): seq<Keyed<Attribute>> {
    Sort(!ascending, KeyAll(KeyOf(AttributeTime(), AttributeId()), rows))
  }

  function HistoryLookup(working: seq<Attribute>, hadUnknown: bool, ascending: bool, limit: Option<int>): AttributeAnswer {
    var historical := Filter(IsClosed(), working);
    if historical == [] then NO_ROWS
    else
      var selected := RowsOf(Slice(Chronology(historical, ascending), limit));
      var groups := GroupsOf(selected);
      AttributeAnswer(Counted(groups, KnownMultiple), groups, selected, hadUnknown, None)
  }

  function ValueLookup(
    pool: seq<Attribute>, range: Option<Window>, policy: Policy, ascending: bool, limit: Option<int>): AttributeAnswer
  {
    var matched := Matched(AssertionMembership(), pool, range);
    var unknown := InDoubt(AssertionMembership(), pool, range);
    if pool == [] then NO_ROWS
    else if range.Some? && matched == [] && unknown != [] then
      AttributeAnswer(TemporallyUnknown, [], unknown, true, None)
    else if range.Some? && matched == [] then NO_ROWS
    else if policy == HistoryPolicy then HistoryLookup(matched, unknown != [], ascending, limit)
    else CurrentLookup(matched, unknown != [])
  }

  function Existence(pool: seq<Attribute>, filter: Option<Value>, range: Option<Window>): AttributeAnswer {
    if filter.None? then NO_ROWS.(proposition := Some(PropositionUnknown))
    else
      var matching := Filter(HasValue(filter.value), pool);
      var matched := Matched(AssertionMembership(), matching, range);
      var unknown := InDoubt(AssertionMembership(), matching, range);
      if matched != [] then
        var groups := GroupsOf(matched);
        AttributeAnswer(Counted(groups, KnownMultiple), groups, matched, false, Some(Yes))
      else if unknown != [] then
        AttributeAnswer(TemporallyUnknown, [], unknown, true, Some(PropositionTimeUnknown))
      else NO_ROWS.(proposition := Some(PropositionUnknown))
  }

  /** What a lookup says about one value. A different value is no evidence for "no". */
  function Judge(lookup: AttributeAnswer, f: Value): AttributeAnswer {
    var matching := Filter(GroupMatches(f), lookup.groups);
    match lookup.status
    case Unknown => NO_ROWS.(proposition := Some(PropositionUnknown))
    case TemporallyUnknown =>
      AttributeAnswer(TemporallyUnknown, [], lookup.candidates, true, Some(PropositionTimeUnknown))
    case Ambiguous =>
      var verdict :=
        if matching != [] && |lookup.groups| > 1 then PropositionAmbiguous
        else if matching != [] then Yes
        else PropositionUnknown;
      AttributeAnswer(Ambiguous, lookup.groups, lookup.candidates, false, Some(verdict))
    case _ =>
      AttributeAnswer(lookup.status, lookup.groups, lookup.candidates, false,
        Some(if matching != [] then Yes else PropositionUnknown))
  }

  function PropositionQuery(pool: seq<Attribute>, filter: Option<Value>, range: Option<Window>): AttributeAnswer {
    if filter.None? then NO_ROWS.(proposition := Some(PropositionUnknown))
    else Judge(ValueLookup(pool, range, CurrentPolicy, false, None), filter.value)
  }

  function AttributeQuery(rows: seq<Attribute>, q: Query): AttributeAnswer {
    var pool := Filter(OfDimension(q.dimension), rows);
    match q.mode
    case HistoricalExistenceMode => Existence(pool, q.filter, q.range)
    case PropositionMode => PropositionQuery(pool, q.filter, q.range)
    case ValueLookupMode => ValueLookup(pool, q.range, q.policy, q.ascending, q.limit)
  }

  // ---------------------------------------------------------------- what the answers mean

  /** Two values the filter cannot tell apart are one value, or one number with a unit left unsaid. */
  lemma FilterMatchesExactly(v: Value, f: Value)
    requires ValidValue(v) && ValidValue(f)
    ensures FilterMatches(v, f) <==> v.(unit := None) == f.(unit := None) && (v.unit.Some? && f.unit.Some? ==> v.unit == f.unit)
  {
  }

  /** The assertion lies in the range for certain, if one is given. */
  ghost predicate InScope(a: Attribute, range: Option<Window>) {
    range.Some? ==> CoarseMembership(a.temporal, range.value) == Match
  }

  ghost predicate MayBeInScope(a: Attribute, range: Option<Window>) {
    range.Some? && CoarseMembership(a.temporal, range.value) == UnknownMembership
  }

  ghost function Among(pool: seq<Attribute>): Attribute -> bool {
    (a: Attribute) => a in pool
  }

  ghost predicate SomeInScope(rows: Attribute -> bool, range: Option<Window>) {
    exists a :: rows(a) && InScope(a, range)
  }

  ghost predicate SomeInDoubt(rows: Attribute -> bool, range: Option<Window>) {
    exists a :: rows(a) && MayBeInScope(a, range)
  }

  ghost predicate Current(rows: Attribute -> bool, range: Option<Window>, a: Attribute) {
    rows(a) && InScope(a, range) && a.isCurrent
  }

  ghost predicate SomeCurrent(rows: Attribute -> bool, range: Option<Window>) {
    exists a :: Current(rows, range, a)
  }

  ghost predicate OneCurrentValue(rows: Attribute -> bool, range: Option<Window>) {
    forall a, b :: Current(rows, range, a) && Current(rows, range, b) ==> a.value == b.value
  }

  /** A group for each value reported: its members are the rows that carry it, and its support their number. */
  ghost predicate Grouped(x: AttributeAnswer) {
    && (forall a :: a in x.candidates ==> exists g :: g in x.groups && a in g.members)
    && (forall g :: g in x.groups ==>
          && g.support == |g.members| > 0
          && forall a :: a in g.members <==> a in x.candidates && a.value == g.identity)
  }

  lemma {:induction false} GroupedByValue(x: AttributeAnswer)
    requires x.groups == GroupsOf(x.candidates)
    ensures Grouped(x)
  {
    forall a | a in x.candidates ensures exists g :: g in x.groups && a in g.members {
      GroupsCover(ValueOf(), x.candidates, a);
    }
    forall g | g in x.groups
      ensures g.support == |g.members| > 0
      ensures forall a :: a in g.members <==> a in x.candidates && a.value == g.identity
    {
      GroupsPartition(ValueOf(), x.candidates, g, x.candidates[0]);
      forall a ensures a in g.members <==> a in x.candidates && a.value == g.identity {
        GroupsPartition(ValueOf(), x.candidates, g, a);
      }
    }
  }

  lemma {:induction false} ScopeExactly(pool: seq<Attribute>, range: Option<Window>)
    ensures forall a :: a in Matched(AssertionMembership(), pool, range) <==> a in pool && InScope(a, range)
    ensures forall a :: a in InDoubt(AssertionMembership(), pool, range) <==> a in pool && MayBeInScope(a, range)
    ensures SomeInScope(Among(pool), range) <==> Matched(AssertionMembership(), pool, range) != []
    ensures SomeInDoubt(Among(pool), range) <==> InDoubt(AssertionMembership(), pool, range) != []
  {
    var matched, doubt := Matched(AssertionMembership(), pool, range), InDoubt(AssertionMembership(), pool, range);
    forall a
      ensures a in matched <==> a in pool && InScope(a, range)
      ensures a in doubt <==> a in pool && MayBeInScope(a, range)
    {
      PartitionMember(AssertionMembership(), pool, range, a);
    }
    if matched != [] { assert matched[0] in matched; }
    if doubt != [] { assert doubt[0] in doubt; }
  }

  /**
   * The current value is known exactly when there are current rows in scope and they carry one value; ambiguous
   * exactly when two of them differ; of unknown time when no row in scope is current, or none is in scope and one may
   * be; unknown when nothing is in scope or may be.
   */
  ghost predicate AnswersCurrent(x: AttributeAnswer, rows: Attribute -> bool, range: Option<Window>) {
    && (x.status == KnownSingle <==> SomeCurrent(rows, range) && OneCurrentValue(rows, range))
    && (x.status == Ambiguous <==> !OneCurrentValue(rows, range))
    && (x.status == TemporallyUnknown <==>
          !SomeCurrent(rows, range) && (SomeInScope(rows, range) || SomeInDoubt(rows, range)))
    && (x.status == Unknown <==> !SomeInScope(rows, range) && !SomeInDoubt(rows, range))
    && (forall a :: a in x.candidates <==>
          if SomeCurrent(rows, range) then Current(rows, range, a)
          else rows(a) && if SomeInScope(rows, range) then InScope(a, range) else MayBeInScope(a, range))
    && (SomeCurrent(rows, range) ==> Grouped(x))
    && (x.membershipUnknown <==> x.status == TemporallyUnknown || SomeInDoubt(rows, range))
  }

  lemma {:induction false} CurrentLookupExactly(
    pool: seq<Attribute>, range: Option<Window>, policy: Policy, ascending: bool, limit: Option<int>)
    requires policy != HistoryPolicy
    ensures AnswersCurrent(ValueLookup(pool, range, policy, ascending, limit), Among(pool), range)
  {
    var rows, matched := Among(pool), Matched(AssertionMembership(), pool, range);
    var current := Filter(IsCurrent(), matched);
    ScopeExactly(pool, range);
    CurrentRows(pool, range, matched);
    var x := ValueLookup(pool, range, policy, ascending, limit);
    if current != [] { GroupedByValue(x); }
  }

  lemma {:induction false} CurrentRows(pool: seq<Attribute>, range: Option<Window>, matched: seq<Attribute>)
    requires forall a :: a in matched <==> a in pool && InScope(a, range)
    ensures var current := Filter(IsCurrent(), matched);
      && (forall a :: a in current <==> Current(Among(pool), range, a))
      && (SomeCurrent(Among(pool), range) <==> current != [])
      && (|GroupsOf(current)| == 1 <==> current != [] && OneCurrentValue(Among(pool), range))
      && (current == [] ==> OneCurrentValue(Among(pool), range))
  {
    var current := Filter(IsCurrent(), matched);
    forall a ensures a in current <==> Current(Among(pool), range, a) { FilterMember(IsCurrent(), matched, a); }
    SingleGroup(ValueOf(), current);
    if current != [] { assert current[0] in current; }
  }

  /** Some current row in scope carries a value the filter matches. */
  ghost predicate SomeCurrentMatches(rows: Attribute -> bool, range: Option<Window>, f: Value) {
    exists a :: Current(rows, range, a) && FilterMatches(a.value, f)
  }

  /**
   * A value is confirmed exactly when it is the one current value, contested exactly when it is one of several,
   * of unknown time exactly when the current value is, and otherwise unknown: a different value never denies it.
   */
  ghost predicate AnswersValue(x: AttributeAnswer, rows: Attribute -> bool, f: Value, range: Option<Window>) {
    && (x.proposition == Some(Yes) <==> OneCurrentValue(rows, range) && SomeCurrentMatches(rows, range, f))
    && (x.proposition == Some(PropositionAmbiguous) <==> !OneCurrentValue(rows, range) && SomeCurrentMatches(rows, range, f))
    && (x.proposition == Some(PropositionTimeUnknown) <==>
          !SomeCurrent(rows, range) && (SomeInScope(rows, range) || SomeInDoubt(rows, range)))
    && x.proposition.Some? && x.proposition != Some(No)
  }

  lemma {:induction false} PropositionExactly(pool: seq<Attribute>, f: Value, range: Option<Window>)
    ensures AnswersValue(PropositionQuery(pool, Some(f), range), Among(pool), f, range)
  {
    var lookup, rows := ValueLookup(pool, range, CurrentPolicy, false, None), Among(pool);
    CurrentLookupExactly(pool, range, CurrentPolicy, false, None);
    JudgedExactly(lookup, f);
    if SomeCurrent(rows, range) {
      CurrentMatches(lookup, rows, f, range);
    } else {
      assert OneCurrentValue(rows, range) && !SomeCurrentMatches(rows, range, f);
    }
  }

  lemma {:induction false} CurrentMatches(lookup: AttributeAnswer, rows: Attribute -> bool, f: Value, range: Option<Window>)
    requires AnswersCurrent(lookup, rows, range) && SomeCurrent(rows, range)
    ensures (exists g :: g in lookup.groups && FilterMatches(g.identity, f)) <==> SomeCurrentMatches(rows, range, f)
    ensures lookup.status == if OneCurrentValue(rows, range) then KnownSingle else Ambiguous
    ensures !OneCurrentValue(rows, range) ==> |lookup.groups| > 1
  {
    ValuesReported(lookup, f);
    assert (exists a :: a in lookup.candidates && FilterMatches(a.value, f)) <==> SomeCurrentMatches(rows, range, f);
    if a, b :| Current(rows, range, a) && Current(rows, range, b) && a.value != b.value {
      SeveralValues(lookup, a, b);
    }
  }

  lemma {:induction false} JudgedExactly(lookup: AttributeAnswer, f: Value)
    ensures var judged := Judge(lookup, f).proposition;
      var matches := exists g :: g in lookup.groups && FilterMatches(g.identity, f);
      match lookup.status
      case Unknown => judged == Some(PropositionUnknown)
      case TemporallyUnknown => judged == Some(PropositionTimeUnknown)
      case Ambiguous =>
        judged == Some(if matches && |lookup.groups| > 1 then PropositionAmbiguous else if matches then Yes else PropositionUnknown)
      case _ => judged == Some(if matches then Yes else PropositionUnknown)
  {
    var matching := Filter(GroupMatches(f), lookup.groups);
    forall g ensures g in matching <==> g in lookup.groups && FilterMatches(g.identity, f) {
      FilterMember(GroupMatches(f), lookup.groups, g);
    }
    assert matching != [] ==> matching[0] in matching;
  }

  /** Values reported are values carried. */
  lemma {:induction false} ValuesReported(x: AttributeAnswer, f: Value)
    requires Grouped(x)
    ensures (exists g :: g in x.groups && FilterMatches(g.identity, f)) <==>
      exists a :: a in x.candidates && FilterMatches(a.value, f)
  {
    if g :| g in x.groups && FilterMatches(g.identity, f) { assert g.members[0] in g.members; }
    if a :| a in x.candidates && FilterMatches(a.value, f) { var g :| g in x.groups && a in g.members; }
  }

  /** Differing values are several groups. */
  lemma {:induction false} SeveralValues(x: AttributeAnswer, a: Attribute, b: Attribute)
    requires Grouped(x) && a in x.candidates && b in x.candidates && a.value != b.value
    ensures |x.groups| > 1
  {
    var g :| g in x.groups && a in g.members;
    var h :| h in x.groups && b in h.members;
  }

  /** Some row in scope, current or closed, carries a value the filter matches. */
  ghost predicate SomeCarries(rows: Attribute -> bool, f: Value, range: Option<Window>) {
    exists a :: rows(a) && FilterMatches(a.value, f) && InScope(a, range)
  }

  ghost predicate SomeMayCarry(rows: Attribute -> bool, f: Value, range: Option<Window>) {
    exists a :: rows(a) && FilterMatches(a.value, f) && MayBeInScope(a, range)
  }

  /** Existence asks for evidence only: current or closed, in scope or in doubt; absence is never a denial. */
  ghost predicate AnswersExistence(x: AttributeAnswer, rows: Attribute -> bool, f: Value, range: Option<Window>) {
    && (x.proposition == Some(Yes) <==> SomeCarries(rows, f, range))
    && (x.proposition == Some(PropositionTimeUnknown) <==> !SomeCarries(rows, f, range) && SomeMayCarry(rows, f, range))
    && (x.proposition == Some(PropositionUnknown) <==> !SomeCarries(rows, f, range) && !SomeMayCarry(rows, f, range))
    && (SomeCarries(rows, f, range) ==>
          Grouped(x) && forall a :: a in x.candidates <==> rows(a) && FilterMatches(a.value, f) && InScope(a, range))
  }

  lemma {:induction false} ExistenceExactly(pool: seq<Attribute>, f: Value, range: Option<Window>)
    ensures AnswersExistence(Existence(pool, Some(f), range), Among(pool), f, range)
  {
    var matching, x := Filter(HasValue(f), pool), Existence(pool, Some(f), range);
    forall a ensures a in matching <==> a in pool && FilterMatches(a.value, f) { FilterMember(HasValue(f), pool, a); }
    ScopeExactly(matching, range);
    assert SomeCarries(Among(pool), f, range) <==> SomeInScope(Among(matching), range);
    assert SomeMayCarry(Among(pool), f, range) <==> SomeInDoubt(Among(matching), range);
    if Matched(AssertionMembership(), matching, range) != [] { GroupedByValue(x); }
  }

  lemma NoValueAsked(pool: seq<Attribute>, range: Option<Window>)
    ensures PropositionQuery(pool, None, range).proposition == Some(PropositionUnknown)
    ensures Existence(pool, None, range).proposition == Some(PropositionUnknown)
  {
  }

  // ---------------------------------------------------------------- the history of a value

  function ClosedInScope(range: Option<Window>): Attribute -> bool {
    (a: Attribute) => !a.isCurrent && (range.Some? ==> CoarseMembership(a.temporal, range.value) == Match)
  }

  /** By time and id: none stands after a later one, or before one when the newest come first. */
  ghost predicate InOrder(rows: seq<Attribute>, ascending: bool) {
    forall i, j :: 0 <= i < j < |rows| ==>
      !Before(!ascending, KeyOf(AttributeTime(), AttributeId())(rows[j]), KeyOf(AttributeTime(), AttributeId())(rows[i]))
  }

  /** How many of `n` rows a limit lets through. */
  function Cut(limit: Option<int>, n: nat): nat {
    match limit
    case None => n
    case Some(k) => if k == 0 || k >= n then n else if k > 0 then k else if n + k > 0 then n + k else 0
  }

  /** The rows reported, with those the limit leaves out, are the closed rows in scope, in order. */
  ghost predicate AnswersHistory(
    x: AttributeAnswer, closed: seq<Attribute>, ascending: bool, limit: Option<int>, rest: seq<Attribute>)
  {
    && multiset(x.candidates + rest) == multiset(closed) && InOrder(x.candidates + rest, ascending)
    && |x.candidates| == Cut(limit, |closed|)
    && Grouped(x)
    && x.status in {KnownSingle, KnownMultiple}
    && (x.status == KnownSingle <==>
          x.candidates != [] && forall a, b :: a in x.candidates && b in x.candidates ==> a.value == b.value)
  }

  lemma {:induction false} HistoryExactly(pool: seq<Attribute>, range: Option<Window>, ascending: bool, limit: Option<int>)
    returns (rest: seq<Attribute>)
    ensures var x, closed := ValueLookup(pool, range, HistoryPolicy, ascending, limit), Filter(ClosedInScope(range), pool);
      if closed != [] then AnswersHistory(x, closed, ascending, limit, rest)
      else if !SomeInScope(Among(pool), range) && SomeInDoubt(Among(pool), range) then x.status == TemporallyUnknown
      else x.status == Unknown && x.candidates == []
  {
    var closed := Filter(ClosedInScope(range), pool);
    rest := [];
    if closed != [] {
      rest := ChronologyCut(closed, ascending, limit);
      HistoryListed(pool, range, ascending, limit, rest);
    } else {
      ScopeExactly(pool, range);
      ClosedRows(pool, range);
    }
  }

  lemma {:induction false} HistoryListed(
    pool: seq<Attribute>, range: Option<Window>, ascending: bool, limit: Option<int>, rest: seq<Attribute>)
    requires var closed := Filter(ClosedInScope(range), pool);
      var selected := RowsOf(Slice(Chronology(closed, ascending), limit));
      && closed != [] && multiset(selected + rest) == multiset(closed) && InOrder(selected + rest, ascending)
      && |selected| == Cut(limit, |closed|)
    ensures AnswersHistory(
      ValueLookup(pool, range, HistoryPolicy, ascending, limit), Filter(ClosedInScope(range), pool), ascending, limit, rest)
  {
    var x := ValueLookup(pool, range, HistoryPolicy, ascending, limit);
    HistoryShape(pool, range, ascending, limit);
    GroupedByValue(x);
    OneValue(x.candidates);
  }

  lemma {:induction false} OneValue(rows: seq<Attribute>)
    ensures |GroupsOf(rows)| == 1 <==> rows != [] && forall a, b :: a in rows && b in rows ==> a.value == b.value
  {
    SingleGroup(ValueOf(), rows);
  }

  lemma {:induction false} HistoryShape(pool: seq<Attribute>, range: Option<Window>, ascending: bool, limit: Option<int>)
    requires Filter(ClosedInScope(range), pool) != []
    ensures var x := ValueLookup(pool, range, HistoryPolicy, ascending, limit);
      && x.candidates == RowsOf(Slice(Chronology(Filter(ClosedInScope(range), pool), ascending), limit))
      && x.groups == GroupsOf(x.candidates) && x.status == Counted(x.groups, KnownMultiple)
  {
    ClosedRows(pool, range);
  }

  lemma {:induction false} ClosedRows(pool: seq<Attribute>, range: Option<Window>)
    ensures Filter(IsClosed(), Matched(AssertionMembership(), pool, range)) == Filter(ClosedInScope(range), pool)
  {
    SelectMatched(AssertionMembership(), IsClosed(), ClosedInScope(range), pool, range);
  }

  lemma SlicePrefix<T>(s: seq<T>, limit: Option<int>)
    ensures Cut(limit, |s|) <= |s| && Slice(s, limit) == s[..Cut(limit, |s|)]
  {
  }

  lemma {:induction false} ChronologyInOrder(rows: seq<Attribute>, ascending: bool)
    ensures var all := RowsOf(Chronology(rows, ascending));
      |all| == |rows| && multiset(all) == multiset(rows) && InOrder(all, ascending)
  {
    var key := KeyOf(AttributeTime(), AttributeId());
    var ranked := Chronology(rows, ascending);
    SortPermutes(!ascending, KeyAll(key, rows));
    SortSorted(!ascending, KeyAll(key, rows));
    PermutationLength(KeyAll(key, rows), ranked);
    RowsPermute(key, rows, ranked);
  }

  lemma {:induction false} ChronologyCut(rows: seq<Attribute>, ascending: bool, limit: Option<int>)
    returns (rest: seq<Attribute>)
    ensures var selected := RowsOf(Slice(Chronology(rows, ascending), limit));
      && multiset(selected + rest) == multiset(rows) && InOrder(selected + rest, ascending)
      && |selected| == Cut(limit, |rows|)
  {
    var ranked := Chronology(rows, ascending);
    var all, n := RowsOf(ranked), Cut(limit, |ranked|);
    ChronologyInOrder(rows, ascending);
    SlicePrefix(ranked, limit);
    rest := all[n..];
    PrefixRows(ranked, n);
  }

  lemma PrefixRows<T>(ranked: seq<Keyed<T>>, n: nat)
    requires n <= |ranked|
    ensures RowsOf(ranked[..n]) + RowsOf(ranked)[n..] == RowsOf(ranked)
  {
    var front, all := RowsOf(ranked[..n]), RowsOf(ranked);
    forall i | 0 <= i < n ensures front[i] == all[i] { assert ranked[..n][i] == ranked[i]; }
    Rejoined(front, all, n);
  }

  lemma Rejoined<T>(front: seq<T>, all: seq<T>, n: nat)
    requires n <= |all| && |front| == n && forall i :: 0 <= i < n ==> front[i] == all[i]
    ensures front + all[n..] == all
  {
  }

  /** A limited history keeps the rows that come first: none left out stands before one that was kept. */
  lemma {:induction false} LimitKeepsTheFirst(rows: seq<Attribute>, ascending: bool, limit: Option<int>, i: nat, j: nat)
    requires var selected := Slice(Chronology(rows, ascending), limit);
      i < |selected| <= j < |Chronology(rows, ascending)|
    ensures var ranked := Chronology(rows, ascending);
      && Slice(ranked, limit)[i] == ranked[i]
      && !Before(!ascending, ranked[j], Slice(ranked, limit)[i])
  {
    SortSorted(!ascending, KeyAll(KeyOf(AttributeTime(), AttributeId()), rows));
  }

  // ---------------------------------------------------------------- the same rows, said otherwise

  lemma ScopesAgree(p: Attribute -> bool, q: Attribute -> bool, range: Option<Window>)
    requires forall a :: p(a) <==> q(a)
    ensures SomeInScope(p, range) == SomeInScope(q, range) && SomeInDoubt(p, range) == SomeInDoubt(q, range)
    ensures forall a :: Current(p, range, a) == Current(q, range, a)
    ensures SomeCurrent(p, range) == SomeCurrent(q, range) && OneCurrentValue(p, range) == OneCurrentValue(q, range)
  {
    forall a ensures Current(p, range, a) == Current(q, range, a) {}
  }

  lemma CurrentAgrees(x: AttributeAnswer, p: Attribute -> bool, q: Attribute -> bool, range: Option<Window>)
    requires (forall a :: p(a) <==> q(a)) && AnswersCurrent(x, p, range)
    ensures AnswersCurrent(x, q, range)
  {
    ScopesAgree(p, q, range);
  }

  lemma ValueAgrees(x: AttributeAnswer, p: Attribute -> bool, q: Attribute -> bool, f: Value, range: Option<Window>)
    requires (forall a :: p(a) <==> q(a)) && AnswersValue(x, p, f, range)
    ensures AnswersValue(x, q, f, range)
  {
    ScopesAgree(p, q, range);
    assert SomeCurrentMatches(p, range, f) == SomeCurrentMatches(q, range, f);
  }

  lemma ExistenceAgrees(x: AttributeAnswer, p: Attribute -> bool, q: Attribute -> bool, f: Value, range: Option<Window>)
    requires (forall a :: p(a) <==> q(a)) && AnswersExistence(x, p, f, range)
    ensures AnswersExistence(x, q, f, range)
  {
    assert SomeCarries(p, f, range) == SomeCarries(q, f, range);
    assert SomeMayCarry(p, f, range) == SomeMayCarry(q, f, range);
  }

  // ---------------------------------------------------------------- independence of row order

  /** Two answers that say the same: status, proposition, and which rows support which value. */
  ghost predicate SaySame(a: AttributeAnswer, b: AttributeAnswer) {
    && a.status == b.status
    && a.proposition == b.proposition
    && a.membershipUnknown == b.membershipUnknown
    && View(a.groups) == View(b.groups)
    && |a.groups| == |b.groups|
    && multiset(a.candidates) == multiset(b.candidates)
  }

  lemma {:induction false} CurrentOrderFree(s: seq<Attribute>, t: seq<Attribute>, hadUnknown: bool)
    requires multiset(s) == multiset(t)
    ensures SaySame(CurrentLookup(s, hadUnknown), CurrentLookup(t, hadUnknown))
  {
    var a, b := Filter(IsCurrent(), s), Filter(IsCurrent(), t);
    FilterPermutation(IsCurrent(), s, t);
    PermutationLength(a, b);
    GroupsOrderFree(ValueOf(), a, b);
  }

  lemma {:induction false} ChronologyOrderFree(s: seq<Attribute>, t: seq<Attribute>, ascending: bool)
    requires multiset(s) == multiset(t) && IdsIdentify(AttributeId(), s)
    ensures Chronology(s, ascending) == Chronology(t, ascending)
  {
    var key := KeyOf(AttributeTime(), AttributeId());
    KeyAllPermutation(key, s, t);
    forall x, y | x in KeyAll(key, s) && y in KeyAll(key, s) && SameKey(x, y) ensures x == y {
      assert x.row in s && y.row in s;
    }
    SortOrderFree(!ascending, KeyAll(key, s), KeyAll(key, t));
  }

  lemma {:induction false} HistoryOrderFree(
    s: seq<Attribute>, t: seq<Attribute>, hadUnknown: bool, ascending: bool, limit: Option<int>)
    requires multiset(s) == multiset(t) && IdsIdentify(AttributeId(), s)
    ensures HistoryLookup(s, hadUnknown, ascending, limit) == HistoryLookup(t, hadUnknown, ascending, limit)
  {
    var a, b := Filter(IsClosed(), s), Filter(IsClosed(), t);
    FilterPermutation(IsClosed(), s, t);
    PermutationLength(a, b);
    forall x | x in a ensures x in s { FilterMember(IsClosed(), s, x); }
    ChronologyOrderFree(a, b, ascending);
  }

  lemma {:induction false} LookupOrderFree(
    s: seq<Attribute>, t: seq<Attribute>, range: Option<Window>, policy: Policy, ascending: bool, limit: Option<int>)
    requires multiset(s) == multiset(t) && IdsIdentify(AttributeId(), s)
    ensures SaySame(ValueLookup(s, range, policy, ascending, limit), ValueLookup(t, range, policy, ascending, limit))
  {
    PermutationLength(s, t);
    PartitionOrderFree(AssertionMembership(), s, t, range);
    var a, b := Matched(AssertionMembership(), s, range), Matched(AssertionMembership(), t, range);
    var hadUnknown := InDoubt(AssertionMembership(), s, range) != [];
    forall x | x in a ensures x in s { PartitionMember(AssertionMembership(), s, range, x); }
    if s == [] || (range.Some? && a == []) {
    } else if policy == HistoryPolicy {
      HistoryOrderFree(a, b, hadUnknown, ascending, limit);
    } else {
      CurrentOrderFree(a, b, hadUnknown);
    }
  }

  lemma {:induction false} MatchingGroupsOrderFree(a: seq<ValueGroup>, b: seq<ValueGroup>, f: Value)
    requires View(a) == View(b)
    ensures Filter(GroupMatches(f), a) == [] <==> Filter(GroupMatches(f), b) == []
  {
    MatchingGroupIncluded(a, b, f);
    MatchingGroupIncluded(b, a, f);
  }

  lemma MatchingGroupIncluded(a: seq<ValueGroup>, b: seq<ValueGroup>, f: Value)
    requires View(a) == View(b)
    ensures Filter(GroupMatches(f), a) != [] ==> Filter(GroupMatches(f), b) != []
  {
    if Filter(GroupMatches(f), a) != [] {
      var g := Filter(GroupMatches(f), a)[0];
      FilterMember(GroupMatches(f), a, g);
      assert (g.identity, multiset(g.members)) in View(a);
      var h :| h in b && (h.identity, multiset(h.members)) == (g.identity, multiset(g.members));
      FilterMember(GroupMatches(f), b, h);
    }
  }

  lemma {:induction false} JudgeOrderFree(a: AttributeAnswer, b: AttributeAnswer, f: Value)
    requires SaySame(a, b)
    ensures SaySame(Judge(a, f), Judge(b, f))
  {
    MatchingGroupsOrderFree(a.groups, b.groups, f);
  }

  lemma {:induction false} PropositionOrderFree(
    s: seq<Attribute>, t: seq<Attribute>, filter: Option<Value>, range: Option<Window>)
    requires multiset(s) == multiset(t) && IdsIdentify(AttributeId(), s)
    ensures SaySame(PropositionQuery(s, filter, range), PropositionQuery(t, filter, range))
  {
    LookupOrderFree(s, t, range, CurrentPolicy, false, None);
    if filter.Some? {
      var a, b := ValueLookup(s, range, CurrentPolicy, false, None), ValueLookup(t, range, CurrentPolicy, false, None);
      JudgeOrderFree(a, b, filter.value);
    }
  }

  lemma {:induction false} ExistenceOrderFree(
    s: seq<Attribute>, t: seq<Attribute>, filter: Option<Value>, range: Option<Window>)
    requires multiset(s) == multiset(t)
    ensures SaySame(Existence(s, filter, range), Existence(t, filter, range))
  {
    if filter.Some? {
      FilterPermutation(HasValue(filter.value), s, t);
      var c, d := Filter(HasValue(filter.value), s), Filter(HasValue(filter.value), t);
      PartitionOrderFree(AssertionMembership(), c, d, range);
      GroupsOrderFree(ValueOf(), Matched(AssertionMembership(), c, range), Matched(AssertionMembership(), d, range));
    }
  }

  /** Whatever the mode, policy, range, order and limit: row order never decides an attribute answer. */
  lemma {:induction false} AttributeQueryOrderFree(s: seq<Attribute>, t: seq<Attribute>, q: Query)
    requires multiset(s) == multiset(t) && IdsIdentify(AttributeId(), s)
    ensures SaySame(AttributeQuery(s, q), AttributeQuery(t, q))
  {
    var p := OfDimension(q.dimension);
    var a, b := Filter(p, s), Filter(p, t);
    FilterPermutation(p, s, t);
    forall x | x in a ensures x in s { FilterMember(p, s, x); }
    match q.mode
    case HistoricalExistenceMode => ExistenceOrderFree(a, b, q.filter, q.range);
    case PropositionMode => PropositionOrderFree(a, b, q.filter, q.range);
    case ValueLookupMode => LookupOrderFree(a, b, q.range, q.policy, q.ascending, q.limit);
  }
}
