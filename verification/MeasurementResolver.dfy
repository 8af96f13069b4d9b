/** Epistemic measurement answers. The latest observation is the one with the greatest instant, never the last row. */
module MeasurementResolver {
  import opened Prelude
  import opened Domain
  import Lex
  import opened Ranking
  import opened TimeRanking
  import opened Grouping
  import opened TemporalPartition

  datatype Status = KnownSingle | KnownMultiple | Unknown | TemporallyUnknown | Ambiguous

  datatype Proposition = Yes | PropositionUnknown | PropositionAmbiguous | PropositionTimeUnknown

  datatype Reading = Reading(number: real, unit: Option<string>, currency: Option<string>)

  type ReadingGroup = Group<Measurement, Reading>

  datatype MeasurementAnswer = MeasurementAnswer(
    status: Status, groups: seq<ReadingGroup>, candidates: seq<Measurement>,
    membershipUnknown: bool, unknownContributors: seq<Measurement>, proposition: Option<Proposition>)

  datatype Mode = LatestObservation | ObservationAtTime | ObservationsInRange | ValueProposition

  datatype Query = Query(
    dimension: string, mode: Mode, filter: Option<Reading>, range: Option<Window>, contexts: seq<Id>)

  /** The explicit observation time, else the instant of the temporal knowledge. */
  function ObservationInstant(m: Measurement): Option<Instant> {
    if m.observedAt.Some? then m.observedAt else m.temporal.instant
  }

  function ReadingOf(): Measurement -> Reading {
    (m: Measurement) => Reading(m.number, m.unit, m.currency)
  }

  function HasInstant(): Measurement -> bool { (m: Measurement) => ObservationInstant(m).Some? }
  function LacksInstant(): Measurement -> bool { (m: Measurement) => ObservationInstant(m).None? }

  function AtInstant(epoch: int): Measurement -> bool {
    (m: Measurement) => ObservationInstant(m).Some? && ObservationInstant(m).value.epoch == epoch
  }

  function InPool(dimension: string, contexts: seq<Id>): Measurement -> bool {
    (m: Measurement) => m.dimension == dimension && (contexts != [] ==> m.context.Some? && m.context.value in contexts)
  }

  function ObservationMembership(): (Measurement, Window) -> Membership {
    (m: Measurement, w: Window) =>
      if m.observedAt.Some? then
        if w.start <= m.observedAt.value.epoch < w.end then Match else NoMatch
      else CoarseMembership(m.temporal, w)
  }

  /** An empty currency code counts as none. */
  function Currency(c: Option<string>): Option<string> {
    if c == Some("") then None else c
  }

  /** Two readings compare only in the same currency, the same unit, or with neither. */
  predicate UnitsComparable(a: Reading, b: Reading) {
    if Currency(a.currency).Some? || Currency(b.currency).Some? then
      Currency(a.currency) == Currency(b.currency) && a.unit.None? && b.unit.None?
    else a.unit == b.unit
  }

  datatype Comparison = SameValue | OtherValue | Incomparable

  function Compare(m: Measurement, f: Reading): Comparison {
    if !UnitsComparable(ReadingOf()(m), f) then Incomparable
    else if m.number != f.number then OtherValue
    else SameValue
  }

  function Compares(f: Reading, c: Comparison): Measurement -> bool {
    (m: Measurement) => Compare(m, f) == c
  }

  function GroupsOf(rows: seq<Measurement>): seq<ReadingGroup> {
    Groups(ReadingOf(), rows)
  }

  function Counted(groups: seq<ReadingGroup>, several: Status): Status {
    if |groups| == 1 then KnownSingle else several
  }

  const NO_ROWS := MeasurementAnswer(Unknown, [], [], false, [], None)

  /** The greatest observation instant among rows that all have one. */
  function LatestEpoch(rows: seq<Measurement>): (r: int)
    requires rows != [] && forall m :: m in rows ==> ObservationInstant(m).Some?
    ensures exists m :: m in rows && ObservationInstant(m).value.epoch == r
    ensures forall m :: m in rows ==> ObservationInstant(m).value.epoch <= r
  {
    var last := rows[|rows| - 1];
    assert last in rows;
    var e := ObservationInstant(last).value.epoch;
    assert rows == rows[..|rows| - 1] + [last];
    if |rows| == 1 then e
    else
      var before := LatestEpoch(rows[..|rows| - 1]);
      if e > before then e else before
  }

  /** What the rows at the greatest instant say. */
  function AtGreatest(ordered: seq<Measurement>): MeasurementAnswer
    requires ordered != [] && forall m :: m in ordered ==> ObservationInstant(m).Some?
  {
    var atMax := Filter(AtInstant(LatestEpoch(ordered)), ordered);
    var groups := GroupsOf(atMax);
    MeasurementAnswer(Counted(groups, Ambiguous), groups, atMax, false, [], None)
  }

  lemma AllHaveInstants(pool: seq<Measurement>)
    ensures forall m :: m in Filter(HasInstant(), pool) ==> ObservationInstant(m).Some?
  {
    forall m | m in Filter(HasInstant(), pool) ensures ObservationInstant(m).Some? { FilterMember(HasInstant(), pool, m); }
  }

  /** The verdict on rows with and without an instant. */
  function Judged(pool: seq<Measurement>, ordered: seq<Measurement>, unordered: seq<Measurement>): MeasurementAnswer
    requires forall m :: m in ordered ==> ObservationInstant(m).Some?
  {
    if pool == [] then NO_ROWS
    else if unordered != [] && ordered != [] then MeasurementAnswer(Ambiguous, [], pool, true, unordered, None)
    else if ordered == [] then MeasurementAnswer(TemporallyUnknown, [], unordered, true, unordered, None)
    else AtGreatest(ordered)
  }

  function Latest(pool: seq<Measurement>): MeasurementAnswer {
    AllHaveInstants(pool);
    Judged(pool, Filter(HasInstant(), pool), Filter(LacksInstant(), pool))
  }

  /** The single pass that separates rows by whether they have an instant, then the scan for the greatest. */
  method ResolveLatest(pool: seq<Measurement>) returns (answer: MeasurementAnswer)
    ensures answer == Latest(pool)
  {
    if pool == [] { return NO_ROWS; }
    var ordered: seq<Measurement>, unordered: seq<Measurement> := [], [];
    for i := 0 to |pool|
      invariant ordered == Filter(HasInstant(), pool[..i])
      invariant unordered == Filter(LacksInstant(), pool[..i])
      invariant forall m :: m in ordered ==> ObservationInstant(m).Some?
      invariant i > 0 ==> ordered != [] || unordered != []
    {
      assert pool[..i + 1] == pool[..i] + [pool[i]];
      FilterAppend(HasInstant(), pool[..i], pool[i]);
      FilterAppend(LacksInstant(), pool[..i], pool[i]);
      if ObservationInstant(pool[i]).None? {
        unordered := unordered + [pool[i]];
      } else {
        ordered := ordered + [pool[i]];
      }
    }
    assert pool[..|pool|] == pool;
    if unordered != [] && ordered != [] {
      return MeasurementAnswer(Ambiguous, [], pool, true, unordered, None);
    }
    if ordered == [] {
      return MeasurementAnswer(TemporallyUnknown, [], unordered, true, unordered, None);
    }
    var latest := LatestEpoch(ordered);
    var atMax := Filter(AtInstant(latest), ordered);
    var groups := GroupByValue(ReadingOf(), atMax);
    answer := MeasurementAnswer(Counted(groups, Ambiguous), groups, atMax, false, [], None);
  }

  /** An observation at the requested time; never the latest one instead. */
  function AtTime(pool: seq<Measurement>, range: Option<Window>): MeasurementAnswer {
    var matched := Matched(ObservationMembership(), pool, range);
    var unknown := InDoubt(ObservationMembership(), pool, range);
    if range.None? || pool == [] then NO_ROWS else Scoped(matched, unknown)
  }

  function Scoped(matched: seq<Measurement>, unknown: seq<Measurement>): MeasurementAnswer {
    if matched == [] && unknown != [] then MeasurementAnswer(TemporallyUnknown, [], unknown, true, unknown, None)
    else if matched == [] then NO_ROWS
    else Observed(matched, unknown)
  }

  function Observed(matched: seq<Measurement>, unknown: seq<Measurement>): MeasurementAnswer {
    var groups := GroupsOf(matched);
    MeasurementAnswer(Counted(groups, Ambiguous), groups, matched, unknown != [], unknown, None)
  }

  const NO_INSTANT := "0001-01-01T00:00:00+00:00"

  function Chronological(): Measurement -> Keyed<Measurement> {
    (m: Measurement) =>
      Keyed(0, if ObservationInstant(m).Some? then ObservationInstant(m).value.iso else NO_INSTANT, "", m)
  }

  function InOrder(rows: seq<Measurement>): seq<Measurement> {
    RowsOf(Sort(false, KeyAll(Chronological(), rows)))
  }

  function InRange(pool: seq<Measurement>, range: Option<Window>): MeasurementAnswer {
    var matched := Matched(ObservationMembership(), pool, range);
    var unknown := InDoubt(ObservationMembership(), pool, range);
    if pool == [] then NO_ROWS else ListedOrDoubtful(matched, unknown)
  }

  function ListedOrDoubtful(matched: seq<Measurement>, unknown: seq<Measurement>): MeasurementAnswer {
    if matched == [] && unknown != [] then MeasurementAnswer(TemporallyUnknown, [], unknown, true, unknown, None)
    else if matched == [] then NO_ROWS
    else Listed(InOrder(matched), unknown)
  }

  function Listed(known: seq<Measurement>, unknown: seq<Measurement>): MeasurementAnswer {
    var groups := GroupsOf(known);
    MeasurementAnswer(if |groups| == 1 && |known| == 1 then KnownSingle else KnownMultiple,
                      groups, known, unknown != [], unknown, None)
  }

  const SAYS_NOTHING := NO_ROWS.(proposition := Some(PropositionUnknown))

  function PropositionQuery(pool: seq<Measurement>, filter: Option<Reading>, range: Option<Window>): MeasurementAnswer {
    if filter.None? || (filter.value.unit.Some? && filter.value.currency.Some?) then SAYS_NOTHING
    else
      var f := filter.value;
      var matches, incomparable := Filter(Compares(f, SameValue), pool), Filter(Compares(f, Incomparable), pool);
      if matches == [] then SAYS_NOTHING.(candidates := incomparable)
      else if range.None? then
        var groups := GroupsOf(matches);
        MeasurementAnswer(Counted(groups, KnownMultiple), groups, matches, false, [], Some(Yes))
      else InScope(matches, Filter(Compares(f, OtherValue), Matched(ObservationMembership(), pool, range)), range)
  }

  /** The value within a time scope: other comparable values in the same scope make the answer ambiguous. */
  function InScope(matches: seq<Measurement>, others: seq<Measurement>, range: Option<Window>): MeasurementAnswer {
    var matched := Matched(ObservationMembership(), matches, range);
    var unknown := InDoubt(ObservationMembership(), matches, range);
    if matched != [] && others != [] then
      MeasurementAnswer(Ambiguous, GroupsOf(matched + others), matched + others, false, [], Some(PropositionAmbiguous))
    else if matched != [] then
      var groups := GroupsOf(matched);
      MeasurementAnswer(Counted(groups, KnownMultiple), groups, matched, false, [], Some(Yes))
    else if unknown != [] then
      MeasurementAnswer(TemporallyUnknown, [], unknown, true, unknown, Some(PropositionTimeUnknown))
    else SAYS_NOTHING
  }

  function MeasurementQuery(rows: seq<Measurement>, q: Query): MeasurementAnswer {
    var pool := Filter(InPool(q.dimension, q.contexts), rows);
    match q.mode
    case LatestObservation => Latest(pool)
    case ObservationAtTime => AtTime(pool, q.range)
    case ObservationsInRange => InRange(pool, q.range)
    case ValueProposition => PropositionQuery(pool, q.filter, q.range)
  }

  // ---------------------------------------------------------------- what the answers mean

  /** `m` is one of the observations no other observation is later than. */
  ghost predicate AtTheLatest(pool: seq<Measurement>, m: Measurement) {
    && m in pool && ObservationInstant(m).Some?
    && forall n :: n in pool && ObservationInstant(n).Some? ==>
         ObservationInstant(n).value.epoch <= ObservationInstant(m).value.epoch
  }

  lemma {:induction false} LatestRows(pool: seq<Measurement>, m: Measurement)
    requires pool != [] && forall n :: n in pool ==> ObservationInstant(n).Some?
    ensures Filter(HasInstant(), pool) == pool && Filter(LacksInstant(), pool) == []
    ensures m in Filter(AtInstant(LatestEpoch(pool)), pool) <==> AtTheLatest(pool, m)
  {
    FilterNone(LacksInstant(), pool);
    FilterAll(HasInstant(), pool);
    FilterMember(AtInstant(LatestEpoch(pool)), pool, m);
  }

  lemma {:induction false} LatestKnown(pool: seq<Measurement>)
    ensures Latest(pool).status == KnownSingle <==>
      && pool != []
      && (forall m :: m in pool ==> ObservationInstant(m).Some?)
      && (forall m, n :: AtTheLatest(pool, m) && AtTheLatest(pool, n) ==> ReadingOf()(m) == ReadingOf()(n))
    ensures Latest(pool).status == KnownSingle ==>
      forall m :: m in Latest(pool).candidates <==> AtTheLatest(pool, m)
  {
    if pool != [] {
      if forall m :: m in pool ==> ObservationInstant(m).Some? {
        var atMax := Filter(AtInstant(LatestEpoch(pool)), pool);
        forall m ensures m in atMax <==> AtTheLatest(pool, m) { LatestRows(pool, m); }
        LatestRows(pool, pool[0]);
        SingleGroup(ReadingOf(), atMax);
        var top :| top in pool && ObservationInstant(top).value.epoch == LatestEpoch(pool);
        assert AtTheLatest(pool, top);
        assert atMax[0] in atMax;
      } else {
        var m :| m in pool && ObservationInstant(m).None?;
        FilterMember(LacksInstant(), pool, m);
      }
    }
  }

  /** An observation later than all others is the latest, alone, however many readings there were before. */
  lemma {:induction false} NewestObservationIsLatest(pool: seq<Measurement>, newest: Measurement)
    requires ObservationInstant(newest).Some?
    requires forall m :: m in pool ==>
      ObservationInstant(m).Some? && ObservationInstant(m).value.epoch < ObservationInstant(newest).value.epoch
    ensures var answer := Latest(pool + [newest]);
      && answer.status == KnownSingle
      && (forall m :: m in answer.candidates <==> m == newest)
      && forall g :: g in answer.groups ==> g.identity == ReadingOf()(newest)
  {
    var more := pool + [newest];
    assert forall m :: m in more <==> m in pool || m == newest;
    forall m ensures AtTheLatest(more, m) <==> m == newest { assert newest in more; }
    LatestKnown(more);
    LatestIsAtGreatest(more);
    var answer := Latest(more);
    forall g | g in answer.groups ensures g.identity == ReadingOf()(newest) {
      var i :| 0 <= i < |answer.groups| && answer.groups[i] == g;
      var k := Identities(ReadingOf(), answer.candidates)[i];
      IdentitiesPresent(ReadingOf(), answer.candidates, k);
    }
  }

  lemma {:induction false} LatestIsAtGreatest(pool: seq<Measurement>)
    requires pool != [] && forall m :: m in pool ==> ObservationInstant(m).Some?
    ensures Latest(pool) == AtGreatest(pool)
  {
    LatestRows(pool, pool[0]);
  }

  /** A strictly older observation, appended, changes nothing about a known latest answer. */
  lemma {:induction false} OlderObservationKeepsLatest(pool: seq<Measurement>, older: Measurement)
    requires pool != [] && forall m :: m in pool ==> ObservationInstant(m).Some?
    requires ObservationInstant(older).Some?
    requires exists m :: m in pool && ObservationInstant(older).value.epoch < ObservationInstant(m).value.epoch
    ensures Latest(pool + [older]) == Latest(pool)
  {
    var more := pool + [older];
    OlderIsNotGreatest(pool, older);
    LatestIsAtGreatest(pool);
    LatestIsAtGreatest(more);
  }

  lemma OlderIsNotGreatest(pool: seq<Measurement>, older: Measurement)
    requires pool != [] && forall m :: m in pool ==> ObservationInstant(m).Some?
    requires ObservationInstant(older).Some?
    requires exists m :: m in pool && ObservationInstant(older).value.epoch < ObservationInstant(m).value.epoch
    ensures forall m :: m in pool + [older] ==> ObservationInstant(m).Some?
    ensures AtGreatest(pool + [older]) == AtGreatest(pool)
  {
    var more := pool + [older];
    var e := LatestEpoch(pool);
    assert LatestEpoch(more) == e by {
      assert more[..|pool|] == pool && more[|more| - 1] == older;
    }
    FilterAppend(AtInstant(e), pool, older);
    assert Filter(AtInstant(e), more) == Filter(AtInstant(e), pool);
  }

  /** Within a range the rows come in the order of their ISO texts. */
  lemma {:induction false} RangeIsByText(pool: seq<Measurement>, range: Option<Window>, i: nat, j: nat)
    requires Matched(ObservationMembership(), pool, range) != []
    requires i < j < |InRange(pool, range).candidates|
    ensures InRange(pool, range).candidates == InOrder(Matched(ObservationMembership(), pool, range))
    ensures var rows := InRange(pool, range).candidates;
      !Lex.Less(Chronological()(rows[j]).stamp, Chronological()(rows[i]).stamp)
  {
    var matched := Matched(ObservationMembership(), pool, range);
    PartitionMember(ObservationMembership(), pool, range, matched[0]);
    InOrderByText(matched, i, j);
  }

  lemma {:induction false} InOrderByText(rows: seq<Measurement>, i: nat, j: nat)
    requires i < j < |InOrder(rows)|
    ensures !Lex.Less(Chronological()(InOrder(rows)[j]).stamp, Chronological()(InOrder(rows)[i]).stamp)
  {
    var keyed := KeyAll(Chronological(), rows);
    var sorted := Sort(false, keyed);
    SortSorted(false, keyed);
    KeysStay(rows, sorted[i]);
    KeysStay(rows, sorted[j]);
    assert !Before(false, sorted[j], sorted[i]);
  }

  function InstantOfObservation(): Measurement -> Option<Instant> {
    (m: Measurement) => ObservationInstant(m)
  }

  /** No observation is listed after a later one, by the clock. */
  ghost predicate InTimeOrder(rows: seq<Measurement>) {
    forall i, j :: 0 <= i < j < |rows| && ObservationInstant(rows[i]).Some? && ObservationInstant(rows[j]).Some? ==>
      ObservationInstant(rows[i]).value.epoch <= ObservationInstant(rows[j]).value.epoch
  }

  /** A range answer is in time order exactly when the texts of the matched instants are in the instants' order. */
  lemma {:induction false} RangeInTimeOrderExactly(pool: seq<Measurement>, range: Option<Window>)
    requires var matched := Matched(ObservationMembership(), pool, range);
      matched != [] && TextNamesTime(InstantOfObservation(), matched)
    ensures InTimeOrder(InRange(pool, range).candidates) <==>
      TextOrderAgrees(InstantOfObservation(), Matched(ObservationMembership(), pool, range))
  {
    var matched := Matched(ObservationMembership(), pool, range);
    PartitionMember(ObservationMembership(), pool, range, matched[0]);
    assert InRange(pool, range).candidates == InOrder(matched);
    SortedInTimeExactly(matched, InOrder(matched));
  }

  lemma {:induction false} SortedInTimeExactly(rows: seq<Measurement>, sorted: seq<Measurement>)
    requires sorted == InOrder(rows) && TextNamesTime(InstantOfObservation(), rows)
    ensures InTimeOrder(sorted) <==> TextOrderAgrees(InstantOfObservation(), rows)
  {
    InOrderPermutes(rows);
    forall m ensures m in rows <==> m in sorted { PermutationMember(sorted, rows, m); }
    if TextOrderAgrees(InstantOfObservation(), rows) { AgreedIsInOrder(rows, sorted); }
    if InTimeOrder(sorted) { InOrderIsAgreed(rows, sorted); }
  }

  lemma {:induction false} AgreedIsInOrder(rows: seq<Measurement>, sorted: seq<Measurement>)
    requires sorted == InOrder(rows) && forall m :: m in sorted ==> m in rows
    requires TextNamesTime(InstantOfObservation(), rows) && TextOrderAgrees(InstantOfObservation(), rows)
    ensures InTimeOrder(sorted)
  {
    forall i, j | 0 <= i < j < |sorted| && ObservationInstant(sorted[i]).Some? && ObservationInstant(sorted[j]).Some?
      ensures ObservationInstant(sorted[i]).value.epoch <= ObservationInstant(sorted[j]).value.epoch
    {
      InOrderByText(rows, i, j);
      var x, y := sorted[i], sorted[j];
      assert x in rows && y in rows;
      assert InstantOfObservation()(x) == ObservationInstant(x) && InstantOfObservation()(y) == ObservationInstant(y);
      Lex.Total(ObservationInstant(x).value.iso, ObservationInstant(y).value.iso);
    }
  }

  lemma {:induction false} InOrderIsAgreed(rows: seq<Measurement>, sorted: seq<Measurement>)
    requires sorted == InOrder(rows) && forall m :: m in rows ==> m in sorted
    requires InTimeOrder(sorted)
    ensures TextOrderAgrees(InstantOfObservation(), rows)
  {
    forall x, y | x in rows && y in rows && ObservationInstant(x).Some? && ObservationInstant(y).Some?
                  && Lex.Less(ObservationInstant(x).value.iso, ObservationInstant(y).value.iso)
      ensures ObservationInstant(x).value.epoch <= ObservationInstant(y).value.epoch
    {
      var i :| 0 <= i < |sorted| && sorted[i] == x;
      var j :| 0 <= j < |sorted| && sorted[j] == y;
      PairInOrder(rows, i, j);
    }
  }

  lemma PairInOrder(rows: seq<Measurement>, i: nat, j: nat)
    requires i < |InOrder(rows)| && j < |InOrder(rows)|
    requires InTimeOrder(InOrder(rows))
    requires var x, y := ObservationInstant(InOrder(rows)[i]), ObservationInstant(InOrder(rows)[j]);
      x.Some? && y.Some? && Lex.Less(x.value.iso, y.value.iso)
    ensures ObservationInstant(InOrder(rows)[i]).value.epoch <= ObservationInstant(InOrder(rows)[j]).value.epoch
  {
    if j < i { InOrderByText(rows, j, i); }
  }

  // ---------------------------------------------------------------- two zones

  const MIDNIGHT_WEST := Instant(10800, "2024-03-11T00:00:00-03:00")
  const ONE_UTC := Instant(3600, "2024-03-11T01:00:00+00:00")

  /** An observation known by its day, in a zone three hours behind. */
  function ByDay(id: Id, user: Id, entity: Id): Measurement {
    Measurement(id, user, entity, None, "weight", 80.0, Some("kg"), None,
      Temporal(Some(MIDNIGHT_WEST), None, "", None, false, None, false, Some(Window(10800, 97200))), None)
  }

  /** An observation with an exact instant. */
  function ByInstant(id: Id, user: Id, entity: Id): Measurement {
    Measurement(id, user, entity, None, "weight", 81.0, Some("kg"), None,
      Temporal(Some(ONE_UTC), None, "", None, false, Some(3600), false, None), Some(ONE_UTC))
  }

  lemma MidnightBeforeOne()
    ensures Lex.Less(MIDNIGHT_WEST.iso, ONE_UTC.iso)
  {
    var a, b := MIDNIGHT_WEST.iso, ONE_UTC.iso;
    assert a[..12] == b[..12] && a[12] < b[12];
    LessAfterPrefix(a, b, 12);
  }

  lemma {:induction false} LessAfterPrefix(a: string, b: string, n: nat)
    requires n < |a| && n < |b| && a[..n] == b[..n] && a[n] < b[n]
    ensures Lex.Less(a, b)
  {
    if n > 0 {
      assert a[0] == a[..n][0] && b[0] == b[..n][0];
      assert a[1..][..n - 1] == a[..n][1..] && b[1..][..n - 1] == b[..n][1..];
      LessAfterPrefix(a[1..], b[1..], n - 1);
    }
  }

  /** In a range holding both, the answer is not in time order: local midnight, which came later, is listed first. */
  lemma {:induction false} RangeOutOfOrder(user: Id, entity: Id)
    ensures !InTimeOrder(InRange([ByInstant("m1", user, entity), ByDay("m2", user, entity)], Some(Window(0, 200000))).candidates)
  {
    var pool, range := [ByInstant("m1", user, entity), ByDay("m2", user, entity)], Window(0, 200000);
    forall m | m in pool ensures ObservationMembership()(m, range) == Match {}
    AllMatch(ObservationMembership(), pool, range);
    MidnightBeforeOne();
    TwoZonesDisagree(pool[1], pool[0], MIDNIGHT_WEST, ONE_UTC);
    RangeInTimeOrderExactly(pool, Some(range));
  }

  /** Two instants whose texts are in the wrong order. */
  lemma TwoZonesDisagree(x: Measurement, y: Measurement, a: Instant, b: Instant)
    requires ObservationInstant(x) == Some(a) && ObservationInstant(y) == Some(b)
    requires Lex.Less(a.iso, b.iso) && a.epoch > b.epoch
    ensures TextNamesTime(InstantOfObservation(), [y, x]) && !TextOrderAgrees(InstantOfObservation(), [y, x])
  {
    Lex.Irreflexive(a.iso);
    assert [y, x][1] == x && [y, x][0] == y;
    assert InstantOfObservation()(x) == Some(a) && InstantOfObservation()(y) == Some(b);
  }

  lemma {:induction false} KeysStay(rows: seq<Measurement>, k: Keyed<Measurement>)
    requires k in Sort(false, KeyAll(Chronological(), rows))
    ensures k.row in rows && k == Chronological()(k.row)
  {
    var keyed := KeyAll(Chronological(), rows);
    SortPermutes(false, keyed);
    PermutationMember(keyed, Sort(false, keyed), k);
    var i :| 0 <= i < |keyed| && keyed[i] == k;
  }

  // ---------------------------------------------------------------- answers about a time

  /** The observation lies in the window for certain: at its observation time, else by what is known of its time. */
  ghost predicate Inside(m: Measurement, w: Window) {
    match m.observedAt
    case Some(i) => w.start <= i.epoch < w.end
    case None => CoarseMembership(m.temporal, w) == Match
  }

  /** Only what is known coarsely, or not at all, can be in doubt. */
  ghost predicate Doubtful(m: Measurement, w: Window) {
    m.observedAt.None? && CoarseMembership(m.temporal, w) == UnknownMembership
  }

  lemma {:induction false} ScopeExactly(pool: seq<Measurement>, w: Window)
    ensures forall m :: m in Matched(ObservationMembership(), pool, Some(w)) <==> m in pool && Inside(m, w)
    ensures forall m :: m in InDoubt(ObservationMembership(), pool, Some(w)) <==> m in pool && Doubtful(m, w)
  {
    forall m
      ensures m in Matched(ObservationMembership(), pool, Some(w)) <==> m in pool && Inside(m, w)
      ensures m in InDoubt(ObservationMembership(), pool, Some(w)) <==> m in pool && Doubtful(m, w)
    {
      PartitionMember(ObservationMembership(), pool, Some(w), m);
    }
  }

  ghost predicate SameReading(m: Measurement, n: Measurement) {
    m.number == n.number && m.unit == n.unit && m.currency == n.currency
  }

  /** A group for each reading reported: its members are the rows that carry it, and its support their number. */
  ghost predicate Grouped(a: MeasurementAnswer) {
    && (forall m :: m in a.candidates ==> exists g :: g in a.groups && m in g.members)
    && (forall g :: g in a.groups ==>
          && g.support == |g.members| > 0
          && forall m :: m in g.members <==> m in a.candidates && g.identity == Reading(m.number, m.unit, m.currency))
  }

  lemma {:induction false} GroupedByReading(a: MeasurementAnswer)
    requires a.groups == GroupsOf(a.candidates)
    ensures Grouped(a)
  {
    forall m | m in a.candidates ensures exists g :: g in a.groups && m in g.members {
      GroupsCover(ReadingOf(), a.candidates, m);
    }
    forall g | g in a.groups
      ensures g.support == |g.members| > 0
      ensures forall m :: m in g.members <==> m in a.candidates && g.identity == Reading(m.number, m.unit, m.currency)
    {
      GroupsPartition(ReadingOf(), a.candidates, g, a.candidates[0]);
      forall m ensures m in g.members <==> m in a.candidates && g.identity == Reading(m.number, m.unit, m.currency) {
        GroupsPartition(ReadingOf(), a.candidates, g, m);
      }
    }
  }

  ghost function Among(pool: seq<Measurement>): Measurement -> bool {
    (m: Measurement) => m in pool
  }

  ghost predicate SomeInside(rows: Measurement -> bool, w: Window) {
    exists m :: rows(m) && Inside(m, w)
  }

  ghost predicate SomeDoubtful(rows: Measurement -> bool, w: Window) {
    exists m :: rows(m) && Doubtful(m, w)
  }

  /** Reported are the rows inside, or those in doubt when none is; beside them what is in doubt. */
  ghost predicate ReportsScope(a: MeasurementAnswer, rows: Measurement -> bool, w: Window) {
    && (forall m :: m in a.candidates <==> rows(m) && if SomeInside(rows, w) then Inside(m, w) else Doubtful(m, w))
    && (forall m :: m in a.unknownContributors <==> rows(m) && Doubtful(m, w))
    && (a.membershipUnknown <==> SomeDoubtful(rows, w))
    && (SomeInside(rows, w) ==> Grouped(a))
  }

  /**
   * The observation at a time is known exactly when an observation lies inside it and all that do carry one reading;
   * ambiguous exactly when two that do differ; of unknown time exactly when none does and one may; else unknown.
   */
  ghost predicate AnswersTime(a: MeasurementAnswer, rows: Measurement -> bool, w: Window) {
    && (a.status == KnownSingle <==>
          SomeInside(rows, w) && forall m, n :: rows(m) && rows(n) && Inside(m, w) && Inside(n, w) ==> SameReading(m, n))
    && (a.status == Ambiguous <==>
          exists m, n :: rows(m) && rows(n) && Inside(m, w) && Inside(n, w) && !SameReading(m, n))
    && (a.status == TemporallyUnknown <==> !SomeInside(rows, w) && SomeDoubtful(rows, w))
    && (a.status == Unknown <==> !SomeInside(rows, w) && !SomeDoubtful(rows, w))
    && ReportsScope(a, rows, w)
  }

  lemma {:induction false} AtTimeExactly(pool: seq<Measurement>, w: Window)
    ensures AnswersTime(AtTime(pool, Some(w)), Among(pool), w)
  {
    var a, rows := AtTime(pool, Some(w)), Among(pool);
    var matched, doubt := Matched(ObservationMembership(), pool, Some(w)), InDoubt(ObservationMembership(), pool, Some(w));
    ScopeExactly(pool, w);
    SomeExactly(pool, w, matched, doubt);
    ScopeReported(a, pool, w, matched, matched, doubt);
    OneReading(matched);
    forall m, n ensures m in matched && n in matched <==> rows(m) && rows(n) && Inside(m, w) && Inside(n, w) {}
  }

  lemma {:induction false} OneReading(rows: seq<Measurement>)
    ensures |GroupsOf(rows)| == 1 <==> rows != [] && forall m, n :: m in rows && n in rows ==> SameReading(m, n)
    ensures |GroupsOf(rows)| == 0 <==> rows == []
  {
    SingleGroup(ReadingOf(), rows);
    forall m, n ensures SameReading(m, n) <==> ReadingOf()(m) == ReadingOf()(n) {}
  }

  lemma SomeExactly(pool: seq<Measurement>, w: Window, matched: seq<Measurement>, doubt: seq<Measurement>)
    requires forall m :: m in matched <==> m in pool && Inside(m, w)
    requires forall m :: m in doubt <==> m in pool && Doubtful(m, w)
    ensures SomeInside(Among(pool), w) <==> matched != []
    ensures SomeDoubtful(Among(pool), w) <==> doubt != []
  {
    if matched != [] { assert matched[0] in matched; }
    if doubt != [] { assert doubt[0] in doubt; }
  }

  /** Without a time there is no observation at it. */
  lemma NoTimeAsked(pool: seq<Measurement>)
    ensures AtTime(pool, None).status == Unknown && AtTime(pool, None).candidates == []
  {
  }

  /**
   * The observations in a range are a single known one exactly when one row lies inside, several exactly when two do,
   * of unknown time exactly when none does and one may, and unknown otherwise.
   */
  ghost predicate AnswersRange(a: MeasurementAnswer, rows: Measurement -> bool, w: Window) {
    && (a.status == KnownSingle <==>
          SomeInside(rows, w) && forall m, n :: rows(m) && rows(n) && Inside(m, w) && Inside(n, w) ==> m == n)
    && (a.status == KnownMultiple <==> exists m, n :: rows(m) && rows(n) && Inside(m, w) && Inside(n, w) && m != n)
    && (a.status == TemporallyUnknown <==> !SomeInside(rows, w) && SomeDoubtful(rows, w))
    && (a.status == Unknown <==> !SomeInside(rows, w) && !SomeDoubtful(rows, w))
    && ReportsScope(a, rows, w)
  }

  ghost predicate NoneTwice(rows: seq<Measurement>) {
    forall i, j :: 0 <= i < j < |rows| ==> rows[i] != rows[j]
  }

  lemma {:induction false} InRangeExactly(pool: seq<Measurement>, w: Window)
    requires NoneTwice(pool)
    ensures AnswersRange(InRange(pool, Some(w)), Among(pool), w)
  {
    var matched, doubt := Matched(ObservationMembership(), pool, Some(w)), InDoubt(ObservationMembership(), pool, Some(w));
    InRangeCounts(pool, w, matched, doubt);
    MatchedDistinct(ObservationMembership(), pool, Some(w));
    OneOrMore(matched);
    InRangeReports(pool, w);
    ScopeExactly(pool, w);
    SomeExactly(pool, w, matched, doubt);
  }

  lemma {:induction false} InRangeCounts(pool: seq<Measurement>, w: Window, matched: seq<Measurement>, doubt: seq<Measurement>)
    requires matched == Matched(ObservationMembership(), pool, Some(w)) && doubt == InDoubt(ObservationMembership(), pool, Some(w))
    ensures InRange(pool, Some(w)).status ==
      if |matched| == 1 then KnownSingle else if matched != [] then KnownMultiple
      else if doubt != [] then TemporallyUnknown else Unknown
  {
    ListedStatus(matched, doubt);
  }

  lemma OneOrMore(rows: seq<Measurement>)
    requires NoneTwice(rows)
    ensures |rows| == 1 <==> rows != [] && forall m, n :: m in rows && n in rows ==> m == n
    ensures |rows| > 1 <==> exists m, n :: m in rows && n in rows && m != n
  {
    if |rows| > 1 { assert rows[0] in rows && rows[1] in rows && rows[0] != rows[1]; }
  }

  lemma {:induction false} ListedStatus(matched: seq<Measurement>, doubt: seq<Measurement>)
    ensures ListedOrDoubtful(matched, doubt).status ==
      if |matched| == 1 then KnownSingle else if matched != [] then KnownMultiple
      else if doubt != [] then TemporallyUnknown else Unknown
  {
    InOrderPermutes(matched);
    PermutationLength(InOrder(matched), matched);
    SingleGroup(ReadingOf(), InOrder(matched));
  }

  lemma {:induction false} InRangeReports(pool: seq<Measurement>, w: Window)
    ensures ReportsScope(InRange(pool, Some(w)), Among(pool), w)
  {
    var matched, doubt := Matched(ObservationMembership(), pool, Some(w)), InDoubt(ObservationMembership(), pool, Some(w));
    ScopeExactly(pool, w);
    InOrderPermutes(matched);
    forall m ensures m in InOrder(matched) <==> m in matched { PermutationMember(InOrder(matched), matched, m); }
    ScopeReported(InRange(pool, Some(w)), pool, w, matched, InOrder(matched), doubt);
  }

  lemma ScopeReported(
    a: MeasurementAnswer, pool: seq<Measurement>, w: Window,
    matched: seq<Measurement>, listed: seq<Measurement>, doubt: seq<Measurement>)
    requires forall m :: m in matched <==> m in pool && Inside(m, w)
    requires forall m :: m in listed <==> m in matched
    requires forall m :: m in doubt <==> m in pool && Doubtful(m, w)
    requires a.candidates == (if matched != [] then listed else doubt)
    requires a.unknownContributors == doubt && (a.membershipUnknown <==> doubt != [])
    requires matched != [] ==> a.groups == GroupsOf(a.candidates)
    ensures ReportsScope(a, Among(pool), w)
  {
    SomeExactly(pool, w, matched, doubt);
    if matched != [] { GroupedByReading(a); }
    if matched != [] { assert matched[0] in matched; }
    if doubt != [] { assert doubt[0] in doubt; }
  }

  // ---------------------------------------------------------------- the latest observation

  /** When an observation was made: when it was observed, else the instant it is said of. */
  ghost function Clock(m: Measurement): Option<int> {
    match m.observedAt
    case Some(i) => Some(i.epoch)
    case None =>
      match m.temporal.instant
      case Some(i) => Some(i.epoch)
      case None => None
  }

  ghost predicate NoneAfter(rows: Measurement -> bool, m: Measurement) {
    rows(m) && Clock(m).Some? && forall n :: rows(n) && Clock(n).Some? ==> Clock(n).value <= Clock(m).value
  }

  ghost predicate SomeRow(rows: Measurement -> bool) {
    exists m :: rows(m)
  }

  ghost predicate AllDated(rows: Measurement -> bool) {
    forall m :: rows(m) ==> Clock(m).Some?
  }

  ghost predicate NoneDated(rows: Measurement -> bool) {
    forall m :: rows(m) ==> Clock(m).None?
  }

  /** Observations that no other is later than carry one reading. */
  ghost predicate OneLatest(rows: Measurement -> bool) {
    forall m, n :: NoneAfter(rows, m) && NoneAfter(rows, n) ==> SameReading(m, n)
  }

  /**
   * The latest observation is known exactly when there are observations, all dated, and those no other is later than
   * carry one reading. It is ambiguous when these differ, or when only some are dated; of unknown time when none is.
   */
  ghost predicate AnswersLatest(a: MeasurementAnswer, rows: Measurement -> bool) {
    && (a.status == KnownSingle <==> SomeRow(rows) && AllDated(rows) && OneLatest(rows))
    && (a.status == Ambiguous <==> !NoneDated(rows) && (!AllDated(rows) || !OneLatest(rows)))
    && (a.status == TemporallyUnknown <==> SomeRow(rows) && NoneDated(rows))
    && (a.status == Unknown <==> !SomeRow(rows))
    && (forall m :: m in a.candidates <==> if SomeRow(rows) && AllDated(rows) then NoneAfter(rows, m) else rows(m))
    && (SomeRow(rows) && AllDated(rows) ==> Grouped(a))
  }

  lemma {:induction false} LatestExactly(pool: seq<Measurement>)
    ensures AnswersLatest(Latest(pool), Among(pool))
  {
    DatedExactly(pool);
    if pool != [] && Filter(LacksInstant(), pool) == [] {
      LatestOfDated(pool);
    } else {
      LatestOfUndated(pool);
    }
  }

  lemma {:induction false} DatedExactly(pool: seq<Measurement>)
    ensures SomeRow(Among(pool)) <==> pool != []
    ensures AllDated(Among(pool)) <==> Filter(LacksInstant(), pool) == []
    ensures NoneDated(Among(pool)) <==> Filter(HasInstant(), pool) == []
  {
    var ordered, unordered := Filter(HasInstant(), pool), Filter(LacksInstant(), pool);
    forall m
      ensures m in ordered <==> m in pool && Clock(m).Some?
      ensures m in unordered <==> m in pool && Clock(m).None?
    {
      FilterMember(HasInstant(), pool, m);
      FilterMember(LacksInstant(), pool, m);
    }
    if pool != [] { assert Among(pool)(pool[0]); }
    if ordered != [] { assert ordered[0] in ordered; }
    if unordered != [] { assert unordered[0] in unordered; }
  }

  lemma {:induction false} LatestOfUndated(pool: seq<Measurement>)
    requires pool == [] || Filter(LacksInstant(), pool) != []
    ensures Latest(pool).status ==
      if pool == [] then Unknown else if Filter(HasInstant(), pool) == [] then TemporallyUnknown else Ambiguous
    ensures forall m :: m in Latest(pool).candidates <==> m in pool
  {
    if Filter(HasInstant(), pool) == [] {
      forall m ensures m in Filter(LacksInstant(), pool) <==> m in pool {
        FilterMember(HasInstant(), pool, m);
        FilterMember(LacksInstant(), pool, m);
      }
    }
  }

  lemma ClockIsInstant(m: Measurement)
    ensures Clock(m) == if ObservationInstant(m).Some? then Some(ObservationInstant(m).value.epoch) else None
  {
  }

  lemma LatestByClock(pool: seq<Measurement>, m: Measurement)
    ensures NoneAfter(Among(pool), m) <==> AtTheLatest(pool, m)
  {
    forall n { ClockIsInstant(n); }
    if AtTheLatest(pool, m) {
      forall n | n in pool && Clock(n).Some? ensures Clock(n).value <= Clock(m).value { ClockIsInstant(n); }
    }
    if NoneAfter(Among(pool), m) {
      forall n | n in pool && ObservationInstant(n).Some?
        ensures ObservationInstant(n).value.epoch <= ObservationInstant(m).value.epoch
      {
        assert Among(pool)(n);
        ClockIsInstant(n);
      }
    }
  }

  lemma {:induction false} LatestOfDated(pool: seq<Measurement>)
    requires pool != [] && Filter(LacksInstant(), pool) == []
    ensures Latest(pool).status in {KnownSingle, Ambiguous}
    ensures Latest(pool).status == KnownSingle <==> OneLatest(Among(pool))
    ensures forall m :: m in Latest(pool).candidates <==> NoneAfter(Among(pool), m)
    ensures Grouped(Latest(pool))
  {
    var atMax := Latest(pool).candidates;
    GreatestRows(pool);
    GroupedByReading(Latest(pool));
    OneReading(atMax);
    assert forall m :: m in atMax <==> NoneAfter(Among(pool), m);
  }

  lemma {:induction false} GreatestRows(pool: seq<Measurement>)
    requires pool != [] && Filter(LacksInstant(), pool) == []
    ensures var a := Latest(pool);
      && a.candidates != [] && a.groups == GroupsOf(a.candidates)
      && a.status == (if |GroupsOf(a.candidates)| == 1 then KnownSingle else Ambiguous)
      && forall m :: m in a.candidates <==> NoneAfter(Among(pool), m)
  {
    forall m | m in pool ensures ObservationInstant(m).Some? { FilterMember(LacksInstant(), pool, m); }
    LatestIsAtGreatest(pool);
    var atMax := Filter(AtInstant(LatestEpoch(pool)), pool);
    forall m ensures m in atMax <==> NoneAfter(Among(pool), m) {
      LatestRows(pool, m);
      LatestByClock(pool, m);
    }
    var top :| top in pool && ObservationInstant(top).value.epoch == LatestEpoch(pool);
    FilterMember(AtInstant(LatestEpoch(pool)), pool, top);
  }

  lemma LatestAgrees(a: MeasurementAnswer, p: Measurement -> bool, q: Measurement -> bool)
    requires forall m :: p(m) <==> q(m)
    requires AnswersLatest(a, p)
    ensures AnswersLatest(a, q)
  {
    assert SomeRow(p) <==> SomeRow(q);
    assert AllDated(p) <==> AllDated(q);
    assert NoneDated(p) <==> NoneDated(q);
    forall m ensures NoneAfter(p, m) <==> NoneAfter(q, m) {}
    assert OneLatest(p) <==> OneLatest(q);
  }

  // ---------------------------------------------------------------- answers about a value

  /** An amount of the same currency, or else a quantity of the same unit; an empty currency is none. */
  ghost predicate Commensurable(m: Measurement, f: Reading) {
    var had := if m.currency == Some("") then None else m.currency;
    var asked := if f.currency == Some("") then None else f.currency;
    had == asked && if asked.Some? then m.unit.None? && f.unit.None? else m.unit == f.unit
  }

  ghost predicate Carries(m: Measurement, f: Reading) {
    Commensurable(m, f) && m.number == f.number
  }

  ghost predicate Contradicts(m: Measurement, f: Reading) {
    Commensurable(m, f) && m.number != f.number
  }

  lemma CompareExactly(m: Measurement, f: Reading)
    ensures Compare(m, f) == SameValue <==> Carries(m, f)
    ensures Compare(m, f) == OtherValue <==> Contradicts(m, f)
  {
  }

  /** An observation that carries the value within the range, if one is given. */
  ghost predicate SomeCarries(rows: Measurement -> bool, f: Reading, range: Option<Window>) {
    exists m :: rows(m) && Carries(m, f) && (range.Some? ==> Inside(m, range.value))
  }

  ghost predicate SomeContradicts(rows: Measurement -> bool, f: Reading, w: Window) {
    exists m :: rows(m) && Contradicts(m, f) && Inside(m, w)
  }

  ghost predicate SomeMayCarry(rows: Measurement -> bool, f: Reading, w: Window) {
    exists m :: rows(m) && Carries(m, f) && Doubtful(m, w)
  }

  /**
   * The value is confirmed exactly when an observation carries it in the range and none in the range contradicts it;
   * contested exactly when both are there; of unknown time exactly when none carries it there and one may; else it is
   * unknown. It is never denied.
   */
  ghost predicate AnswersValue(a: MeasurementAnswer, rows: Measurement -> bool, f: Reading, range: Option<Window>) {
    && (a.proposition == Some(Yes) <==>
          SomeCarries(rows, f, range) && (range.Some? ==> !SomeContradicts(rows, f, range.value)))
    && (a.proposition == Some(PropositionAmbiguous) <==>
          range.Some? && SomeCarries(rows, f, range) && SomeContradicts(rows, f, range.value))
    && (a.proposition == Some(PropositionTimeUnknown) <==>
          range.Some? && !SomeCarries(rows, f, range) && SomeMayCarry(rows, f, range.value))
    && a.proposition.Some?
    && (a.proposition == Some(Yes) ==> Confirms(a, rows, f, range))
  }

  /** A confirmation reports the observations that carry the value there. */
  ghost predicate Confirms(a: MeasurementAnswer, rows: Measurement -> bool, f: Reading, range: Option<Window>) {
    && (forall m :: m in a.candidates <==> rows(m) && Carries(m, f) && (range.Some? ==> Inside(m, range.value)))
    && Grouped(a)
    && (a.status == KnownSingle <==> forall m, n :: m in a.candidates && n in a.candidates ==> SameReading(m, n))
    && (a.status == KnownMultiple <==> exists m, n :: m in a.candidates && n in a.candidates && !SameReading(m, n))
  }

  lemma {:induction false} PropositionExactly(pool: seq<Measurement>, f: Reading, range: Option<Window>)
    requires f.unit.None? || f.currency.None?
    ensures AnswersValue(PropositionQuery(pool, Some(f), range), Among(pool), f, range)
  {
    var matches := Filter(Compares(f, SameValue), pool);
    forall m ensures m in matches <==> m in pool && Carries(m, f) {
      FilterMember(Compares(f, SameValue), pool, m);
      CompareExactly(m, f);
    }
    if matches != [] { assert matches[0] in matches; }
    if range.Some? { ValueInRange(pool, f, range.value, matches); }
    var a := PropositionQuery(pool, Some(f), range);
    if a.proposition == Some(Yes) { Confirmed(pool, f, range, matches, a); }
  }

  lemma {:induction false} Confirmed(
    pool: seq<Measurement>, f: Reading, range: Option<Window>, matches: seq<Measurement>, a: MeasurementAnswer)
    requires forall m :: m in matches <==> m in pool && Carries(m, f)
    requires a.candidates == Matched(ObservationMembership(), matches, range) != []
    requires a.groups == GroupsOf(a.candidates) && a.status == Counted(a.groups, KnownMultiple)
    ensures Confirms(a, Among(pool), f, range)
  {
    GroupedByReading(a);
    OneReading(a.candidates);
    if range.Some? { ScopeExactly(matches, range.value); }
  }

  lemma {:induction false} ValueInRange(pool: seq<Measurement>, f: Reading, w: Window, matches: seq<Measurement>)
    requires forall m :: m in matches <==> m in pool && Carries(m, f)
    ensures SomeCarries(Among(pool), f, Some(w)) <==> Matched(ObservationMembership(), matches, Some(w)) != []
    ensures SomeMayCarry(Among(pool), f, w) <==> InDoubt(ObservationMembership(), matches, Some(w)) != []
    ensures SomeContradicts(Among(pool), f, w) <==>
      Filter(Compares(f, OtherValue), Matched(ObservationMembership(), pool, Some(w))) != []
    ensures matches == [] ==> !SomeCarries(Among(pool), f, Some(w)) && !SomeMayCarry(Among(pool), f, w)
  {
    var inRange := Matched(ObservationMembership(), pool, Some(w));
    var matched, doubt := Matched(ObservationMembership(), matches, Some(w)), InDoubt(ObservationMembership(), matches, Some(w));
    var others := Filter(Compares(f, OtherValue), inRange);
    ScopeExactly(pool, w);
    ScopeExactly(matches, w);
    forall m ensures m in others <==> m in pool && Contradicts(m, f) && Inside(m, w) {
      FilterMember(Compares(f, OtherValue), inRange, m);
      CompareExactly(m, f);
    }
    if matched != [] { assert matched[0] in matched; }
    if doubt != [] { assert doubt[0] in doubt; }
    if others != [] { assert others[0] in others; }
  }

  /** A question without a value, or for a unit and a currency at once, confirms nothing. */
  lemma NoValueAsked(pool: seq<Measurement>, f: Option<Reading>, range: Option<Window>)
    requires f.None? || (f.value.unit.Some? && f.value.currency.Some?)
    ensures PropositionQuery(pool, f, range).proposition == Some(PropositionUnknown)
  {
  }

  /** Without a range every observation is listed, and none is in doubt. */
  lemma {:induction false} UnboundedRange(pool: seq<Measurement>)
    ensures var a := InRange(pool, None);
      && a.status == (if |pool| == 1 then KnownSingle else if pool != [] then KnownMultiple else Unknown)
      && multiset(a.candidates) == multiset(pool) && !a.membershipUnknown && a.unknownContributors == []
  {
    ListedStatus(pool, []);
    InOrderPermutes(pool);
  }

  /** What is said of the same rows is the same. */
  lemma AnswersAgree(a: MeasurementAnswer, p: Measurement -> bool, q: Measurement -> bool, w: Window)
    requires forall m :: p(m) <==> q(m)
    ensures AnswersTime(a, p, w) ==> AnswersTime(a, q, w)
    ensures AnswersRange(a, p, w) ==> AnswersRange(a, q, w)
    ensures forall f, range :: AnswersValue(a, p, f, range) ==> AnswersValue(a, q, f, range)
  {
    forall f, range | AnswersValue(a, p, f, range) ensures AnswersValue(a, q, f, range) { ValuesAgree(a, p, q, f, range); }
    assert SomeInside(p, w) <==> SomeInside(q, w);
    assert SomeDoubtful(p, w) <==> SomeDoubtful(q, w);
  }

  lemma ValuesAgree(
    a: MeasurementAnswer, p: Measurement -> bool, q: Measurement -> bool, f: Reading, range: Option<Window>)
    requires forall m :: p(m) <==> q(m)
    requires AnswersValue(a, p, f, range)
    ensures AnswersValue(a, q, f, range)
  {
    assert SomeCarries(p, f, range) <==> SomeCarries(q, f, range);
    if range.Some? {
      assert SomeContradicts(p, f, range.value) <==> SomeContradicts(q, f, range.value);
      assert SomeMayCarry(p, f, range.value) <==> SomeMayCarry(q, f, range.value);
    }
    if a.proposition == Some(Yes) { assert Confirms(a, p, f, range) && Confirms(a, q, f, range); }
  }

  // ---------------------------------------------------------------- independence of row order

  ghost predicate SaySame(a: MeasurementAnswer, b: MeasurementAnswer) {
    && a.status == b.status
    && a.proposition == b.proposition
    && a.membershipUnknown == b.membershipUnknown
    && View(a.groups) == View(b.groups)
    && |a.groups| == |b.groups|
    && multiset(a.candidates) == multiset(b.candidates)
    && multiset(a.unknownContributors) == multiset(b.unknownContributors)
  }

  lemma {:induction false} JudgedOrderFree(
    s: seq<Measurement>, a: seq<Measurement>, c: seq<Measurement>,
    t: seq<Measurement>, b: seq<Measurement>, d: seq<Measurement>)
    requires multiset(s) == multiset(t) && multiset(a) == multiset(b) && multiset(c) == multiset(d)
    requires forall m :: m in a ==> ObservationInstant(m).Some?
    requires forall m :: m in b ==> ObservationInstant(m).Some?
    ensures SaySame(Judged(s, a, c), Judged(t, b, d))
  {
    PermutationLength(s, t);
    PermutationLength(a, b);
    PermutationLength(c, d);
    if s != [] && a != [] && c == [] { GreatestOrderFree(a, b); }
  }

  lemma {:induction false} LatestOrderFree(s: seq<Measurement>, t: seq<Measurement>)
    requires multiset(s) == multiset(t)
    ensures SaySame(Latest(s), Latest(t))
  {
    FilterPermutation(HasInstant(), s, t);
    FilterPermutation(LacksInstant(), s, t);
    AllHaveInstants(s);
    AllHaveInstants(t);
    JudgedOrderFree(s, Filter(HasInstant(), s), Filter(LacksInstant(), s),
                    t, Filter(HasInstant(), t), Filter(LacksInstant(), t));
  }

  lemma {:induction false} GreatestOrderFree(a: seq<Measurement>, b: seq<Measurement>)
    requires multiset(a) == multiset(b)
    requires a != [] && forall m :: m in a ==> ObservationInstant(m).Some?
    requires b != [] && forall m :: m in b ==> ObservationInstant(m).Some?
    ensures SaySame(AtGreatest(a), AtGreatest(b))
  {
    forall m ensures m in a <==> m in b { PermutationMember(a, b, m); }
    assert LatestEpoch(a) == LatestEpoch(b);
    var p := AtInstant(LatestEpoch(a));
    FilterPermutation(p, a, b);
    GroupsOrderFree(ReadingOf(), Filter(p, a), Filter(p, b));
  }

  lemma {:induction false} AtTimeOrderFree(s: seq<Measurement>, t: seq<Measurement>, range: Option<Window>)
    requires multiset(s) == multiset(t)
    ensures SaySame(AtTime(s, range), AtTime(t, range))
  {
    PermutationLength(s, t);
    PartitionOrderFree(ObservationMembership(), s, t, range);
    ScopedOrderFree(
      Matched(ObservationMembership(), s, range), Matched(ObservationMembership(), t, range),
      InDoubt(ObservationMembership(), s, range), InDoubt(ObservationMembership(), t, range));
  }

  lemma {:induction false} ScopedOrderFree(
    a: seq<Measurement>, b: seq<Measurement>, u: seq<Measurement>, v: seq<Measurement>)
    requires multiset(a) == multiset(b) && multiset(u) == multiset(v)
    ensures SaySame(Scoped(a, u), Scoped(b, v))
  {
    PermutationLength(a, b);
    PermutationLength(u, v);
    if a != [] { ObservedOrderFree(a, b, u, v); }
  }

  lemma {:induction false} ObservedOrderFree(
    a: seq<Measurement>, b: seq<Measurement>, u: seq<Measurement>, v: seq<Measurement>)
    requires multiset(a) == multiset(b) && multiset(u) == multiset(v)
    ensures SaySame(Observed(a, u), Observed(b, v))
  {
    PermutationLength(u, v);
    GroupsOrderFree(ReadingOf(), a, b);
  }

  /** Sorting into time order neither loses nor repeats a row. */
  lemma {:induction false} InOrderPermutes(rows: seq<Measurement>)
    ensures multiset(InOrder(rows)) == multiset(rows)
  {
    var keyed := KeyAll(Chronological(), rows);
    SortPermutes(false, keyed);
    RowsPermute(Chronological(), rows, Sort(false, keyed));
  }

  lemma {:induction false} InRangeOrderFree(s: seq<Measurement>, t: seq<Measurement>, range: Option<Window>)
    requires multiset(s) == multiset(t)
    ensures SaySame(InRange(s, range), InRange(t, range))
  {
    PermutationLength(s, t);
    PartitionOrderFree(ObservationMembership(), s, t, range);
    DoubtfulOrderFree(
      Matched(ObservationMembership(), s, range), Matched(ObservationMembership(), t, range),
      InDoubt(ObservationMembership(), s, range), InDoubt(ObservationMembership(), t, range));
  }

  lemma {:induction false} DoubtfulOrderFree(
    a: seq<Measurement>, b: seq<Measurement>, u: seq<Measurement>, v: seq<Measurement>)
    requires multiset(a) == multiset(b) && multiset(u) == multiset(v)
    ensures SaySame(ListedOrDoubtful(a, u), ListedOrDoubtful(b, v))
  {
    PermutationLength(a, b);
    PermutationLength(u, v);
    if a != [] {
      InOrderPermutes(a);
      InOrderPermutes(b);
      ListedOrderFree(InOrder(a), InOrder(b), u, v);
    }
  }

  lemma {:induction false} ListedOrderFree(
    a: seq<Measurement>, b: seq<Measurement>, u: seq<Measurement>, v: seq<Measurement>)
    requires multiset(a) == multiset(b) && multiset(u) == multiset(v)
    ensures SaySame(Listed(a, u), Listed(b, v))
  {
    PermutationLength(a, b);
    PermutationLength(u, v);
    GroupsOrderFree(ReadingOf(), a, b);
  }

  lemma {:induction false} ScopeOrderFree(
    s: seq<Measurement>, t: seq<Measurement>, o: seq<Measurement>, u: seq<Measurement>, range: Option<Window>)
    requires multiset(s) == multiset(t) && multiset(o) == multiset(u)
    ensures SaySame(InScope(s, o, range), InScope(t, u, range))
  {
    PermutationLength(o, u);
    PartitionOrderFree(ObservationMembership(), s, t, range);
    var a, b := Matched(ObservationMembership(), s, range), Matched(ObservationMembership(), t, range);
    GroupsOrderFree(ReadingOf(), a, b);
    GroupsOrderFree(ReadingOf(), a + o, b + u);
  }

  lemma {:induction false} PropositionOrderFree(
    s: seq<Measurement>, t: seq<Measurement>, filter: Option<Reading>, range: Option<Window>)
    requires multiset(s) == multiset(t)
    ensures SaySame(PropositionQuery(s, filter, range), PropositionQuery(t, filter, range))
  {
    if filter.Some? {
      var f := filter.value;
      FilterPermutation(Compares(f, SameValue), s, t);
      FilterPermutation(Compares(f, Incomparable), s, t);
      var a, b := Filter(Compares(f, SameValue), s), Filter(Compares(f, SameValue), t);
      PermutationLength(a, b);
      if (f.unit.Some? && f.currency.Some?) || a == [] {
      } else if range.None? {
        GroupsOrderFree(ReadingOf(), a, b);
      } else {
        PartitionOrderFree(ObservationMembership(), s, t, range);
        var c, d := Matched(ObservationMembership(), s, range), Matched(ObservationMembership(), t, range);
        FilterPermutation(Compares(f, OtherValue), c, d);
        ScopeOrderFree(a, b, Filter(Compares(f, OtherValue), c), Filter(Compares(f, OtherValue), d), range);
      }
    }
  }

  /** Row order never decides a measurement answer, in any mode. */
  lemma {:induction false} MeasurementQueryOrderFree(s: seq<Measurement>, t: seq<Measurement>, q: Query)
    requires multiset(s) == multiset(t)
    ensures SaySame(MeasurementQuery(s, q), MeasurementQuery(t, q))
  {
    var p := InPool(q.dimension, q.contexts);
    var a, b := Filter(p, s), Filter(p, t);
    FilterPermutation(p, s, t);
    match q.mode
    case LatestObservation => LatestOrderFree(a, b);
    case ObservationAtTime => AtTimeOrderFree(a, b, q.range);
    case ObservationsInRange => InRangeOrderFree(a, b, q.range);
    case ValueProposition => PropositionOrderFree(a, b, q.filter, q.range);
  }
}
