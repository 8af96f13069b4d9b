/** From a description of what was wrong to the one effective assertion it names, if there is exactly one. */
module CorrectionTarget {
  import opened Prelude
  import opened Domain
  import opened Store
  import opened EffectivenessResolver

  /** What a description may say; an absent field does not constrain. */
  datatype Description = Description(
    kind: Option<Kind>, entityText: Option<string>, objectText: Option<string>, dimension: Option<string>,
    valueText: Option<string>, number: Option<string>, year: Option<int>, relationKey: Option<string>,
    stateValueKey: Option<string>, actionKey: Option<string>,
    explicitId: Option<Id>, conversationId: Option<Id>)

  datatype Candidate = Candidate(
    names: set<string>, dimension: Option<string>, valueText: Option<string>, number: Option<string>,
    year: Option<int>, temporalYear: Option<int>, relationKey: Option<string>, stateValueKey: Option<string>,
    action: Option<Id>, objectNames: set<string>)

  /**
   * The user's entities, in the order they are listed, with their lower-case names, and the text and ontology
   * functions the matching consults.
   */
  datatype Context = Context(
    entities: seq<Id>, names: map<Id, string>, lower: string -> string, normal: string -> string,
    decimal: real -> string, float: string -> Option<real>, year: Temporal -> Option<int>,
    eventYear: Temporal -> Option<int>,
    participants: Event -> set<Id>, sameAction: (Id, string) -> bool)

  function NamesOf(x: Context, ids: set<Id>): set<string> {
    set i | i in ids && i in x.names :: x.names[i]
  }

  function Text(s: string): Option<string> {
    if s == "" then None else Some(s)
  }

  function FromAttribute(x: Context, a: Attribute): Candidate {
    Candidate(NamesOf(x, {a.entity}), Some(a.dimension),
      if a.value.text.Some? then Text(x.lower(a.value.text.value)) else None,
      if a.value.number.Some? then Some(x.decimal(a.value.number.value)) else None,
      a.value.year, None, None, None, None, {})
  }

  function FromMeasurement(x: Context, m: Measurement): Candidate {
    Candidate(NamesOf(x, {m.entity}), Some(m.dimension), None, Some(x.decimal(m.number)), None, x.year(m.temporal),
      None, None, None, {})
  }

  function FromRelation(x: Context, r: Relation): Candidate {
    Candidate(NamesOf(x, {r.fromId, r.toId}), None, None, None, None, None, Some(r.key), None, None, NamesOf(x, {r.toId}))
  }

  function FromState(x: Context, s: State): Candidate {
    Candidate(NamesOf(x, {s.entity}), Some(s.dimensionKey), None, None, None, None, None, Some(s.valueKey), None, {})
  }

  function FromEvent(x: Context, e: Event): Candidate {
    Candidate(NamesOf(x, x.participants(e)), None, None, None, None, x.eventYear(e.temporal), None, None, e.action, {})
  }

  predicate Given(s: Option<string>) {
    s.Some? && s.value != ""
  }

  /** The description holds of the candidate; what the candidate does not say is not held against it, except a year. */
  predicate Matches(x: Context, c: Candidate, d: Description) {
    && (Given(d.entityText) ==> exists n :: n in c.names && Contains(n, x.normal(d.entityText.value)))
    && (Given(d.objectText) ==> exists n :: n in c.objectNames && Contains(n, x.normal(d.objectText.value)))
    && (Given(d.dimension) ==> c.dimension == d.dimension)
    && (d.valueText.Some? && c.valueText.Some? ==> x.normal(d.valueText.value) == c.valueText.value)
    && (d.number.Some? && c.number.Some? ==>
          if x.float(d.number.value).Some? && x.float(c.number.value).Some?
          then x.float(d.number.value) == x.float(c.number.value)
          else d.number == c.number)
    && (d.year.Some? ==>
          && (c.year.Some? ==> c.year == d.year)
          && (c.temporalYear.Some? ==> c.temporalYear == d.year)
          && (c.year.Some? || c.temporalYear.Some?))
    && (Given(d.relationKey) ==> c.relationKey == d.relationKey)
    && (Given(d.stateValueKey) ==> c.stateValueKey == d.stateValueKey)
    && (Given(d.actionKey) && c.action.Some? && c.action.value != "" ==> x.sameAction(c.action.value, d.actionKey.value))
  }

  datatype Status = Resolved | AmbiguousTarget | Unresolved

  datatype Resolution = Resolution(status: Status, reference: Option<Ref>, candidates: seq<Ref>)

  const NOTHING_FOUND := Resolution(Unresolved, None, [])

  // ---------------------------------------------------------------- collecting rows

  /** A row is collected once for every listed entity it is filed under. */
  function Collect<T>(entities: seq<Id>, under: (T, Id) -> bool, rows: seq<T>): seq<T> {
    if entities == [] then []
    else
      Collect(entities[..|entities| - 1], under, rows)
      + Filter(Under(under, entities[|entities| - 1]), rows)
  }

  function Under<T>(under: (T, Id) -> bool, entity: Id): T -> bool {
    (x: T) => under(x, entity)
  }

  method CollectByEntity<T>(entities: seq<Id>, under: (T, Id) -> bool, rows: seq<T>) returns (out: seq<T>)
    ensures out == Collect(entities, under, rows)
  {
    out := [];
    for i := 0 to |entities|
      invariant out == Collect(entities[..i], under, rows)
    {
      assert entities[..i + 1][..i] == entities[..i];
      ghost var before := out;
      var j := 0;
      while j < |rows|
        invariant 0 <= j <= |rows|
        invariant out == before + Filter(Under(under, entities[i]), rows[..j])
      {
        assert rows[..j + 1] == rows[..j] + [rows[j]];
        FilterAppend(Under(under, entities[i]), rows[..j], rows[j]);
        if under(rows[j], entities[i]) {
          out := out + [rows[j]];
        }
        j := j + 1;
      }
      assert rows[..|rows|] == rows;
    }
    assert entities[..|entities|] == entities;
  }

  function AttributeUnder(user: Id): (Attribute, Id) -> bool { (r: Attribute, e: Id) => r.user == user && r.entity == e }
  function StateUnder(user: Id): (State, Id) -> bool { (r: State, e: Id) => r.user == user && r.entity == e }
  function RelationUnder(user: Id): (Relation, Id) -> bool {
    (r: Relation, e: Id) => r.user == user && (r.fromId == e || r.toId == e)
  }
  function MeasurementOwned(user: Id): Measurement -> bool { (r: Measurement) => r.user == user }
  function EventOwned(user: Id): Event -> bool { (r: Event) => r.user == user }

  // ---------------------------------------------------------------- selecting

  /** The rows that match the description and that no correction targets. */
  function PlausibleRow<T>(
    ledger: seq<Correction>, x: Context, user: Id, kind: Kind, d: Description, id: T -> Id, candidate: T -> Candidate)
    : T -> bool
  {
    (r: T) => Matches(x, candidate(r), d) && !Targeted(ledger, Ref(user, kind, id(r)))
  }

  function PlausibleAttribute(s: Store, x: Context, user: Id, d: Description): Attribute -> bool {
    PlausibleRow(s.ledger, x, user, AttributeKind, d, AttributeId(), (r: Attribute) => FromAttribute(x, r))
  }
  function PlausibleState(s: Store, x: Context, user: Id, d: Description): State -> bool {
    PlausibleRow(s.ledger, x, user, StateKind, d, StateId(), (r: State) => FromState(x, r))
  }
  function PlausibleRelation(s: Store, x: Context, user: Id, d: Description): Relation -> bool {
    PlausibleRow(s.ledger, x, user, RelationKind, d, RelationId(), (r: Relation) => FromRelation(x, r))
  }
  function PlausibleMeasurement(s: Store, x: Context, user: Id, d: Description): Measurement -> bool {
    PlausibleRow(s.ledger, x, user, MeasurementKind, d, MeasurementId(), (r: Measurement) => FromMeasurement(x, r))
  }
  function PlausibleEvent(s: Store, x: Context, user: Id, d: Description): Event -> bool {
    PlausibleRow(s.ledger, x, user, EventKind, d, EventId(), (r: Event) => FromEvent(x, r))
  }

  function References<T>(user: Id, kind: Kind, id: T -> Id, rows: seq<T>): (r: seq<Ref>)
    ensures |r| == |rows|
    ensures forall i :: 0 <= i < |rows| ==> r[i] == Ref(user, kind, id(rows[i]))
  {
    seq(|rows|, i requires 0 <= i < |rows| => Ref(user, kind, id(rows[i])))
  }

  /** The eligibility pass: match, then ask the effectiveness resolver. */
  method SelectEligible<T>(
    rows: seq<T>, x: Context, user: Id, kind: Kind, d: Description, id: T -> Id, candidate: T -> Candidate,
    ledger: seq<Correction>)
    returns (refs: seq<Ref>)
    ensures refs == References(user, kind, id, Filter(PlausibleRow(ledger, x, user, kind, d, id, candidate), rows))
  {
    ghost var plausible := PlausibleRow(ledger, x, user, kind, d, id, candidate);
    var resolver := new AssertionEffectivenessResolver(ledger, {});
    refs := [];
    for i := 0 to |rows|
      invariant resolver.incoming == Incoming(ledger)
      invariant refs == References(user, kind, id, Filter(plausible, rows[..i]))
    {
      assert rows[..i + 1] == rows[..i] + [rows[i]];
      FilterAppend(plausible, rows[..i], rows[i]);
      var ref := Ref(user, kind, id(rows[i]));
      ResolverIsScan(resolver, ledger, ref);
      if Matches(x, candidate(rows[i]), d) && resolver.Resolve(ref) == Effective {
        refs := refs + [ref];
      }
    }
    assert rows[..|rows|] == rows;
  }

  function Candidates(s: Store, x: Context, user: Id, kind: Kind, d: Description): seq<Ref> {
    match kind
    case AttributeKind =>
      References(user, kind, AttributeId(),
        Filter(PlausibleAttribute(s, x, user, d), Collect(x.entities, AttributeUnder(user), s.attributes)))
    case StateKind =>
      References(user, kind, StateId(),
        Filter(PlausibleState(s, x, user, d), Collect(x.entities, StateUnder(user), s.states)))
    case RelationKind =>
      References(user, kind, RelationId(),
        Filter(PlausibleRelation(s, x, user, d), Collect(x.entities, RelationUnder(user), s.relations)))
    case MeasurementKind =>
      References(user, kind, MeasurementId(),
        Filter(PlausibleMeasurement(s, x, user, d), Filter(MeasurementOwned(user), s.measurements)))
    case EventKind =>
      References(user, kind, EventId(),
        Filter(PlausibleEvent(s, x, user, d), Filter(EventOwned(user), s.events)))
  }

  function Choose(refs: seq<Ref>): Resolution {
    if refs == [] then NOTHING_FOUND
    else if |refs| > 1 then Resolution(AmbiguousTarget, None, refs)
    else Resolution(Resolved, Some(refs[0]), refs)
  }

  /** An id given outright is trusted only if it names an effective assertion of the user. */
  function ResolveDirect(s: Store, ref: Ref): Resolution {
    if !Exists(s, ref) then NOTHING_FOUND
    else if Targeted(s.ledger, ref) then Resolution(Unresolved, Some(ref), [])
    else Resolution(Resolved, Some(ref), [ref])
  }

  function DirectId(d: Description): Option<Id> {
    if Given(d.explicitId) then d.explicitId else d.conversationId
  }

  function ResolveTarget(s: Store, x: Context, user: Id, d: Description, controlled: Option<set<Id>>): Resolution {
    if d.kind.None? then NOTHING_FOUND
    else if DirectId(d).Some? then
      if d.explicitId.Some? && controlled.Some? && d.explicitId.value !in controlled.value then NOTHING_FOUND
      else ResolveDirect(s, Ref(user, d.kind.value, DirectId(d).value))
    else Choose(Candidates(s, x, user, d.kind.value, d))
  }

  // ---------------------------------------------------------------- counting how often a row is collected

  /** How many of the listed entities the row is filed under. */
  function Listings<T>(entities: seq<Id>, under: (T, Id) -> bool, r: T): nat {
    if entities == [] then 0
    else Listings(entities[..|entities| - 1], under, r) + (if under(r, entities[|entities| - 1]) then 1 else 0)
  }

  /** The number of times rows satisfying `p` are collected. */
  function Weight<T>(entities: seq<Id>, under: (T, Id) -> bool, p: T -> bool, rows: seq<T>): nat {
    if rows == [] then 0
    else
      Weight(entities, under, p, rows[..|rows| - 1])
      + (if p(rows[|rows| - 1]) then Listings(entities, under, rows[|rows| - 1]) else 0)
  }

  lemma {:induction false} WeightOfNone<T>(under: (T, Id) -> bool, p: T -> bool, rows: seq<T>)
    ensures Weight([], under, p, rows) == 0
  {
    if rows != [] { WeightOfNone(under, p, rows[..|rows| - 1]); }
  }

  lemma {:induction false} WeightOneMore<T>(entities: seq<Id>, under: (T, Id) -> bool, p: T -> bool, rows: seq<T>)
    requires entities != []
    ensures Weight(entities, under, p, rows) ==
      Weight(entities[..|entities| - 1], under, p, rows) + |Filter(p, Filter(Under(under, entities[|entities| - 1]), rows))|
  {
    if rows != [] {
      var u := Under(under, entities[|entities| - 1]);
      var front, last := rows[..|rows| - 1], rows[|rows| - 1];
      WeightOneMore(entities, under, p, front);
      if u(last) {
        FilterAppend(p, Filter(u, front), last);
      } else {
        assert Filter(u, rows) == Filter(u, front);
      }
    }
  }

  lemma {:induction false} CollectedIsWeight<T>(entities: seq<Id>, under: (T, Id) -> bool, p: T -> bool, rows: seq<T>)
    ensures |Filter(p, Collect(entities, under, rows))| == Weight(entities, under, p, rows)
  {
    if entities == [] {
      WeightOfNone(under, p, rows);
    } else {
      var front, last := entities[..|entities| - 1], entities[|entities| - 1];
      CollectedIsWeight(front, under, p, rows);
      FilterConcat(p, Collect(front, under, rows), Filter(Under(under, last), rows));
      WeightOneMore(entities, under, p, rows);
    }
  }

  /** Row `i` is the only plausible row filed under a listed entity, and under just one. */
  ghost predicate OnlyListed<T>(entities: seq<Id>, under: (T, Id) -> bool, p: T -> bool, rows: seq<T>, i: int) {
    && 0 <= i < |rows|
    && p(rows[i]) && Listings(entities, under, rows[i]) == 1
    && forall j :: 0 <= j < |rows| && j != i && p(rows[j]) ==> Listings(entities, under, rows[j]) == 0
  }

  lemma {:induction false} WeightZero<T>(entities: seq<Id>, under: (T, Id) -> bool, p: T -> bool, rows: seq<T>)
    ensures Weight(entities, under, p, rows) == 0 <==>
      forall j :: 0 <= j < |rows| && p(rows[j]) ==> Listings(entities, under, rows[j]) == 0
  {
    if rows != [] { WeightZero(entities, under, p, rows[..|rows| - 1]); }
  }

  lemma {:induction false} WeightOne<T>(entities: seq<Id>, under: (T, Id) -> bool, p: T -> bool, rows: seq<T>)
    ensures Weight(entities, under, p, rows) == 1 <==> exists i :: OnlyListed(entities, under, p, rows, i)
  {
    if rows != [] {
      var front, n := rows[..|rows| - 1], |rows| - 1;
      WeightOne(entities, under, p, front);
      WeightZero(entities, under, p, front);
      if Weight(entities, under, p, front) == 1 && Weight(entities, under, p, rows) == 1 {
        var i :| OnlyListed(entities, under, p, front, i);
        assert OnlyListed(entities, under, p, rows, i);
      }
      if Weight(entities, under, p, front) == 0 && Weight(entities, under, p, rows) == 1 {
        assert OnlyListed(entities, under, p, rows, n);
      }
      if exists i :: OnlyListed(entities, under, p, rows, i) {
        var i :| OnlyListed(entities, under, p, rows, i);
        if i < n { assert OnlyListed(entities, under, p, front, i); }
      }
    }
  }

  ghost predicate Distinct(ids: seq<Id>) {
    forall i, j :: 0 <= i < j < |ids| ==> ids[i] != ids[j]
  }

  /** A row filed under one entity is collected once if that entity is listed, else not at all. */
  lemma {:induction false} ListedOnce<T>(entities: seq<Id>, under: (T, Id) -> bool, r: T, home: Id)
    requires Distinct(entities)
    requires forall e :: under(r, e) <==> e == home
    ensures Listings(entities, under, r) == if home in entities then 1 else 0
  {
    if entities != [] {
      var front, last := entities[..|entities| - 1], entities[|entities| - 1];
      ListedOnce(front, under, r, home);
      assert entities == front + [last];
    }
  }

  lemma {:induction false} ListedNever<T>(entities: seq<Id>, under: (T, Id) -> bool, r: T)
    requires forall e :: !under(r, e)
    ensures Listings(entities, under, r) == 0
  {
    if entities != [] { ListedNever(entities[..|entities| - 1], under, r); }
  }

  /** A relation is collected once for each of its distinct listed endpoints. */
  lemma {:induction false} ListedPerEndpoint(entities: seq<Id>, user: Id, r: Relation)
    requires Distinct(entities) && r.user == user
    ensures Listings(entities, RelationUnder(user), r) ==
      (if r.fromId in entities then 1 else 0) + (if r.toId in entities && r.toId != r.fromId then 1 else 0)
  {
    if entities != [] {
      var front, last := entities[..|entities| - 1], entities[|entities| - 1];
      ListedPerEndpoint(front, user, r);
      assert entities == front + [last];
    }
  }

  // ---------------------------------------------------------------- when a description resolves

  predicate ByDescription(d: Description, kind: Kind) {
    d.kind == Some(kind) && DirectId(d).None?
  }

  /** Where no row is filed twice, the plausible collected rows are none, or one and then which, as the rows fit. */
  lemma {:induction false} SingleListing<T(!new)>(
    entities: seq<Id>, under: (T, Id) -> bool, p: T -> bool, fits: T -> bool, rows: seq<T>)
    requires forall r :: r in rows ==> Listings(entities, under, r) <= 1
    requires forall r :: r in rows ==> (fits(r) <==> p(r) && Listings(entities, under, r) == 1)
    ensures var found := Filter(p, Collect(entities, under, rows));
      && (|found| == 1 <==> exists i :: OnlyFit(fits, rows, i))
      && (|found| == 0 <==> forall r :: r in rows ==> !fits(r))
      && (forall i :: OnlyFit(fits, rows, i) ==> found == [rows[i]])
  {
    var found := Filter(p, Collect(entities, under, rows));
    CollectedIsWeight(entities, under, p, rows);
    WeightOne(entities, under, p, rows);
    WeightZero(entities, under, p, rows);
    forall i ensures OnlyListed(entities, under, p, rows, i) <==> OnlyFit(fits, rows, i) {}
    forall i | OnlyFit(fits, rows, i) ensures found == [rows[i]] {
      var r := found[0];
      FilterMember(p, Collect(entities, under, rows), r);
      CollectMember(entities, under, rows, r);
      var e :| e in entities && under(r, e);
      ListedSomewhere(entities, under, r, e);
    }
  }

  lemma {:induction false} ListedSomewhere<T>(entities: seq<Id>, under: (T, Id) -> bool, r: T, e: Id)
    requires e in entities && under(r, e)
    ensures Listings(entities, under, r) > 0
  {
    var front, last := entities[..|entities| - 1], entities[|entities| - 1];
    assert entities == front + [last];
    if e in front { ListedSomewhere(front, under, r, e); }
  }

  /** The same for rows that are looked through without regard to entities. */
  lemma {:induction false} SingleRow<T(!new)>(fits: T -> bool, rows: seq<T>)
    ensures var found := Filter(fits, rows);
      && (|found| == 1 <==> exists i :: OnlyFit(fits, rows, i))
      && (|found| == 0 <==> forall r :: r in rows ==> !fits(r))
      && (forall i :: OnlyFit(fits, rows, i) ==> found == [rows[i]])
  {
    var found := Filter(fits, rows);
    ExactlyOne(fits, rows);
    NoneFit(fits, rows);
    if found == [] { forall r | r in rows ensures !fits(r) { FilterMember(fits, rows, r); } }
    forall i | OnlyFit(fits, rows, i) ensures found == [rows[i]] {
      FilterMember(fits, rows, found[0]);
    }
  }

  // ---------------------------------------------------------------- what a description says of a row

  /** The text, where there is one, occurs in the name of one of the entities. */
  ghost predicate Called(x: Context, text: Option<string>, entities: set<Id>) {
    text != None && text != Some("") ==>
      exists e :: e in entities && e in x.names && Occurs(x.names[e], x.normal(text.value))
  }

  /** A key, where one is given, is the row's; a row without such a key never has it. */
  ghost predicate Keyed(told: Option<string>, kept: Option<string>) {
    told != None && told != Some("") ==> told == kept
  }

  /** Two numbers are compared as numbers if both can be read as one, else as text. */
  ghost predicate SameNumber(x: Context, told: Option<string>, kept: Option<string>) {
    told.Some? && kept.Some? ==>
      match (x.float(told.value), x.float(kept.value))
      case (Some(a), Some(b)) => a == b
      case _ => told == kept
  }

  /** The dimension, text, number and year of the attribute, as far as it has a text or number, and its entity. */
  ghost predicate DescribesAttribute(x: Context, d: Description, r: Attribute) {
    && Called(x, d.entityText, {r.entity}) && Called(x, d.objectText, {})
    && Keyed(d.dimension, Some(r.dimension)) && Keyed(d.relationKey, None) && Keyed(d.stateValueKey, None)
    && (d.valueText.Some? && r.value.text.Some? && x.lower(r.value.text.value) != "" ==>
          x.normal(d.valueText.value) == x.lower(r.value.text.value))
    && SameNumber(x, d.number, if r.value.number.Some? then Some(x.decimal(r.value.number.value)) else None)
    && (d.year.Some? ==> r.value.year == d.year)
  }

  /** The dimension, value and entity of the state; no state is described by a year. */
  ghost predicate DescribesState(x: Context, d: Description, r: State) {
    && Called(x, d.entityText, {r.entity}) && Called(x, d.objectText, {})
    && Keyed(d.dimension, Some(r.dimensionKey)) && Keyed(d.relationKey, None) && Keyed(d.stateValueKey, Some(r.valueKey))
    && d.year.None?
  }

  /** The dimension, number, calendar year and entity of the measurement. */
  ghost predicate DescribesMeasurement(x: Context, d: Description, r: Measurement) {
    && Called(x, d.entityText, {r.entity}) && Called(x, d.objectText, {})
    && Keyed(d.dimension, Some(r.dimension)) && Keyed(d.relationKey, None) && Keyed(d.stateValueKey, None)
    && SameNumber(x, d.number, Some(x.decimal(r.number)))
    && (d.year.Some? ==> x.year(r.temporal) == d.year)
  }

  /** The key of the relation, either end as the entity and its target as the object; none by a year. */
  ghost predicate DescribesRelation(x: Context, d: Description, r: Relation) {
    && Called(x, d.entityText, {r.fromId, r.toId}) && Called(x, d.objectText, {r.toId})
    && Keyed(d.dimension, None) && Keyed(d.relationKey, Some(r.key)) && Keyed(d.stateValueKey, None)
    && d.year.None?
  }

  /** The participants, year and action of the event, as far as it has an action. */
  ghost predicate DescribesEvent(x: Context, d: Description, r: Event) {
    && Called(x, d.entityText, x.participants(r)) && Called(x, d.objectText, {})
    && Keyed(d.dimension, None) && Keyed(d.relationKey, None) && Keyed(d.stateValueKey, None)
    && (d.year.Some? ==> x.eventYear(r.temporal) == d.year)
    && (d.actionKey != None && d.actionKey != Some("") && r.action != None && r.action != Some("") ==>
          x.sameAction(r.action.value, d.actionKey.value))
  }

  lemma {:induction false} NamesExactly(x: Context, text: Option<string>, entities: set<Id>)
    ensures Called(x, text, entities) <==>
      (Given(text) ==> exists n :: n in NamesOf(x, entities) && Contains(n, x.normal(text.value)))
  {
    if Given(text) {
      var needle := x.normal(text.value);
      forall n ensures Contains(n, needle) <==> Occurs(n, needle) { ContainsExactly(n, needle); }
      if e :| e in entities && e in x.names && Occurs(x.names[e], needle) {
        assert x.names[e] in NamesOf(x, entities);
      }
    }
  }

  lemma {:induction false} AttributeMatches(x: Context, d: Description, r: Attribute)
    ensures Matches(x, FromAttribute(x, r), d) <==> DescribesAttribute(x, d, r)
  {
    NamesExactly(x, d.entityText, {r.entity});
    NamesExactly(x, d.objectText, {});
    assert NamesOf(x, {}) == {};
  }

  lemma {:induction false} StateMatches(x: Context, d: Description, r: State)
    ensures Matches(x, FromState(x, r), d) <==> DescribesState(x, d, r)
  {
    NamesExactly(x, d.entityText, {r.entity});
    NamesExactly(x, d.objectText, {});
    assert NamesOf(x, {}) == {};
  }

  lemma {:induction false} MeasurementMatches(x: Context, d: Description, r: Measurement)
    ensures Matches(x, FromMeasurement(x, r), d) <==> DescribesMeasurement(x, d, r)
  {
    NamesExactly(x, d.entityText, {r.entity});
    NamesExactly(x, d.objectText, {});
    assert NamesOf(x, {}) == {};
  }

  lemma {:induction false} RelationMatches(x: Context, d: Description, r: Relation)
    ensures Matches(x, FromRelation(x, r), d) <==> DescribesRelation(x, d, r)
  {
    NamesExactly(x, d.entityText, {r.fromId, r.toId});
    NamesExactly(x, d.objectText, {r.toId});
  }

  lemma {:induction false} EventMatches(x: Context, d: Description, r: Event)
    ensures Matches(x, FromEvent(x, r), d) <==> DescribesEvent(x, d, r)
  {
    NamesExactly(x, d.entityText, x.participants(r));
    NamesExactly(x, d.objectText, {});
    assert NamesOf(x, {}) == {};
  }

  // ---------------------------------------------------------------- when a description resolves, and to what

  /** The one row that fits is the target; without one there is no target, with several it is not decided. */
  ghost predicate ResolvesTo<T(!new)>(r: Resolution, user: Id, kind: Kind, id: T -> Id, fits: T -> bool, rows: seq<T>) {
    && (r.status == Resolved <==> exists i :: OnlyFit(fits, rows, i))
    && (r.status == Unresolved <==> forall x :: x in rows ==> !fits(x))
    && (r.reference.Some? <==> r.status == Resolved)
    && (forall i :: OnlyFit(fits, rows, i) ==> r.reference == Some(Ref(user, kind, id(rows[i]))))
  }

  /** The user's attribute of a listed entity, effective and described. */
  ghost function AttributeFits(s: Store, x: Context, user: Id, d: Description): Attribute -> bool {
    (r: Attribute) =>
      && r.user == user && r.entity in x.entities && DescribesAttribute(x, d, r)
      && forall c :: c in s.ledger ==> c.target != Ref(user, AttributeKind, r.id)
  }

  /** A described attribute resolves exactly when one effective attribute is described, and to that one. */
  lemma {:induction false} AttributeResolvesExactly(
    s: Store, x: Context, user: Id, d: Description, controlled: Option<set<Id>>)
    requires ByDescription(d, AttributeKind) && Distinct(x.entities)
    ensures ResolvesTo(ResolveTarget(s, x, user, d, controlled), user, AttributeKind, AttributeId(),
                       AttributeFits(s, x, user, d), s.attributes)
  {
    var p, under := PlausibleAttribute(s, x, user, d), AttributeUnder(user);
    forall r: Attribute
      ensures Listings(x.entities, under, r) == if r.user == user && r.entity in x.entities then 1 else 0
      ensures p(r) <==> DescribesAttribute(x, d, r) && !Targeted(s.ledger, Ref(user, AttributeKind, r.id))
    {
      if r.user == user { ListedOnce(x.entities, under, r, r.entity); } else { ListedNever(x.entities, under, r); }
      AttributeMatches(x, d, r);
    }
    SingleListing(x.entities, under, p, AttributeFits(s, x, user, d), s.attributes);
  }

  ghost function StateFits(s: Store, x: Context, user: Id, d: Description): State -> bool {
    (r: State) =>
      && r.user == user && r.entity in x.entities && DescribesState(x, d, r)
      && forall c :: c in s.ledger ==> c.target != Ref(user, StateKind, r.id)
  }

  lemma {:induction false} StateResolvesExactly(
    s: Store, x: Context, user: Id, d: Description, controlled: Option<set<Id>>)
    requires ByDescription(d, StateKind) && Distinct(x.entities)
    ensures ResolvesTo(ResolveTarget(s, x, user, d, controlled), user, StateKind, StateId(),
                       StateFits(s, x, user, d), s.states)
  {
    var p, under := PlausibleState(s, x, user, d), StateUnder(user);
    forall r: State
      ensures Listings(x.entities, under, r) == if r.user == user && r.entity in x.entities then 1 else 0
      ensures p(r) <==> DescribesState(x, d, r) && !Targeted(s.ledger, Ref(user, StateKind, r.id))
    {
      if r.user == user { ListedOnce(x.entities, under, r, r.entity); } else { ListedNever(x.entities, under, r); }
      StateMatches(x, d, r);
    }
    SingleListing(x.entities, under, p, StateFits(s, x, user, d), s.states);
  }

  ghost function MeasurementFits(s: Store, x: Context, user: Id, d: Description): Measurement -> bool {
    (r: Measurement) =>
      && r.user == user && DescribesMeasurement(x, d, r)
      && forall c :: c in s.ledger ==> c.target != Ref(user, MeasurementKind, r.id)
  }

  lemma {:induction false} MeasurementResolvesExactly(
    s: Store, x: Context, user: Id, d: Description, controlled: Option<set<Id>>)
    requires ByDescription(d, MeasurementKind)
    ensures ResolvesTo(ResolveTarget(s, x, user, d, controlled), user, MeasurementKind, MeasurementId(),
                       MeasurementFits(s, x, user, d), s.measurements)
  {
    var p, fits := PlausibleMeasurement(s, x, user, d), MeasurementFits(s, x, user, d);
    FilterTwice(MeasurementOwned(user), p, s.measurements);
    forall r: Measurement ensures Both(MeasurementOwned(user), p)(r) <==> fits(r) {
      MeasurementMatches(x, d, r);
      assert p(r) <==> DescribesMeasurement(x, d, r) && !Targeted(s.ledger, Ref(user, MeasurementKind, r.id));
    }
    FilterAgree(Both(MeasurementOwned(user), p), fits, s.measurements);
    SingleRow(fits, s.measurements);
  }

  ghost function EventFits(s: Store, x: Context, user: Id, d: Description): Event -> bool {
    (r: Event) =>
      && r.user == user && DescribesEvent(x, d, r)
      && forall c :: c in s.ledger ==> c.target != Ref(user, EventKind, r.id)
  }

  lemma {:induction false} EventResolvesExactly(
    s: Store, x: Context, user: Id, d: Description, controlled: Option<set<Id>>)
    requires ByDescription(d, EventKind)
    ensures ResolvesTo(ResolveTarget(s, x, user, d, controlled), user, EventKind, EventId(),
                       EventFits(s, x, user, d), s.events)
  {
    var p, fits := PlausibleEvent(s, x, user, d), EventFits(s, x, user, d);
    FilterTwice(EventOwned(user), p, s.events);
    forall r: Event ensures Both(EventOwned(user), p)(r) <==> fits(r) {
      EventMatches(x, d, r);
      assert p(r) <==> DescribesEvent(x, d, r) && !Targeted(s.ledger, Ref(user, EventKind, r.id));
    }
    FilterAgree(Both(EventOwned(user), p), fits, s.events);
    SingleRow(fits, s.events);
  }

  /** A description without a kind is of nothing. */
  lemma NoKindExactly(s: Store, x: Context, user: Id, d: Description, controlled: Option<set<Id>>)
    requires d.kind.None?
    ensures var r := ResolveTarget(s, x, user, d, controlled); r.status == Unresolved && r.reference.None?
  {
  }

  /** An id given outright is the target exactly when it is allowed and names an effective assertion of the user. */
  lemma {:induction false} DirectResolvesExactly(
    s: Store, x: Context, user: Id, d: Description, controlled: Option<set<Id>>, kind: Kind, id: Id)
    requires d.kind == Some(kind)
    requires if d.explicitId != None && d.explicitId != Some("") then d.explicitId == Some(id) else d.conversationId == Some(id)
    ensures var r, ref := ResolveTarget(s, x, user, d, controlled), Ref(user, kind, id);
      && r.status != AmbiguousTarget
      && (r.status == Resolved <==>
            && Exists(s, ref) && (forall c :: c in s.ledger ==> c.target != ref)
            && (d.explicitId.None? || controlled.None? || d.explicitId.value in controlled.value))
      && (r.status == Resolved ==> r.reference == Some(ref))
  {
  }

  /**
   * A described relation resolves only if its row has a single listed endpoint: a fitting relation between two
   * different listed entities is collected twice, and then the target is never resolved.
   */
  lemma {:induction false} RelationResolvesExactly(
    s: Store, x: Context, user: Id, d: Description, controlled: Option<set<Id>>)
    requires ByDescription(d, RelationKind) && Distinct(x.entities)
    ensures ResolveTarget(s, x, user, d, controlled).status == Resolved <==>
      exists i :: OnlyEnd(s, x, user, d, i)
    ensures (exists r :: RelationFits(s, x, user, d)(r) && r in s.relations && Ends(x.entities, r) == 2)
      ==> ResolveTarget(s, x, user, d, controlled).status == AmbiguousTarget
    ensures forall i :: OnlyEnd(s, x, user, d, i) ==>
      ResolveTarget(s, x, user, d, controlled).reference == Some(Ref(user, RelationKind, s.relations[i].id))
  {
    var p, under := PlausibleRelation(s, x, user, d), RelationUnder(user);
    CollectedIsWeight(x.entities, under, p, s.relations);
    WeightOne(x.entities, under, p, s.relations);
    forall i
      ensures OnlyEnd(s, x, user, d, i) <==> OnlyListed(x.entities, under, p, s.relations, i)
      ensures OnlyEnd(s, x, user, d, i) ==>
        ResolveTarget(s, x, user, d, controlled).reference == Some(Ref(user, RelationKind, s.relations[i].id))
    {
      OnlyEndIsListed(s, x, user, d, i);
      if OnlyEnd(s, x, user, d, i) { OnlyOneCollected(x.entities, under, p, s.relations, i); }
    }
    forall r | RelationFits(s, x, user, d)(r) && r in s.relations && Ends(x.entities, r) == 2
      ensures ResolveTarget(s, x, user, d, controlled).status == AmbiguousTarget
    {
      ListedTwice(s, x, user, d, controlled, r);
    }
  }

  lemma {:induction false} ListedTwice(
    s: Store, x: Context, user: Id, d: Description, controlled: Option<set<Id>>, r: Relation)
    requires ByDescription(d, RelationKind) && Distinct(x.entities)
    requires RelationFits(s, x, user, d)(r) && r in s.relations && Ends(x.entities, r) == 2
    ensures ResolveTarget(s, x, user, d, controlled).status == AmbiguousTarget
  {
    var p, under := PlausibleRelation(s, x, user, d), RelationUnder(user);
    CollectedIsWeight(x.entities, under, p, s.relations);
    RelationListed(s, x, user, d, r);
    var i :| 0 <= i < |s.relations| && s.relations[i] == r;
    WeightAtLeast(x.entities, under, p, s.relations, i);
  }

  /** A fitting relation is collected once for each of its listed ends. */
  lemma {:induction false} RelationListed(s: Store, x: Context, user: Id, d: Description, r: Relation)
    requires Distinct(x.entities)
    ensures var p, n := PlausibleRelation(s, x, user, d), Listings(x.entities, RelationUnder(user), r);
      && (RelationFits(s, x, user, d)(r) <==> r.user == user && p(r))
      && n == if r.user == user then Ends(x.entities, r) else 0
  {
    RelationMatches(x, d, r);
    if r.user == user {
      ListedPerEndpoint(x.entities, user, r);
    } else {
      ListedNever(x.entities, RelationUnder(user), r);
    }
  }

  lemma {:induction false} OnlyEndIsListed(s: Store, x: Context, user: Id, d: Description, i: int)
    requires Distinct(x.entities)
    ensures OnlyEnd(s, x, user, d, i) <==>
      OnlyListed(x.entities, RelationUnder(user), PlausibleRelation(s, x, user, d), s.relations, i)
  {
    forall r { RelationListed(s, x, user, d, r); }
  }

  lemma {:induction false} OnlyOneCollected<T>(
    entities: seq<Id>, under: (T, Id) -> bool, p: T -> bool, rows: seq<T>, i: int)
    requires OnlyListed(entities, under, p, rows, i)
    ensures Filter(p, Collect(entities, under, rows)) == [rows[i]]
  {
    var found := Filter(p, Collect(entities, under, rows));
    CollectedIsWeight(entities, under, p, rows);
    WeightOne(entities, under, p, rows);
    FilterMember(p, Collect(entities, under, rows), found[0]);
    CollectMember(entities, under, rows, found[0]);
    var e :| e in entities && under(found[0], e);
    ListedSomewhere(entities, under, found[0], e);
  }

  /** The user's relation, effective and described. */
  ghost function RelationFits(s: Store, x: Context, user: Id, d: Description): Relation -> bool {
    (r: Relation) =>
      && r.user == user && DescribesRelation(x, d, r)
      && forall c :: c in s.ledger ==> c.target != Ref(user, RelationKind, r.id)
  }

  /** How many of the relation's different ends are listed. */
  function Ends(entities: seq<Id>, r: Relation): nat {
    (if r.fromId in entities then 1 else 0) + (if r.toId in entities && r.toId != r.fromId then 1 else 0)
  }

  /** Row `i` fits with one listed end, and no other row that fits has any. */
  ghost predicate OnlyEnd(s: Store, x: Context, user: Id, d: Description, i: int) {
    && 0 <= i < |s.relations| && RelationFits(s, x, user, d)(s.relations[i]) && Ends(x.entities, s.relations[i]) == 1
    && forall j :: 0 <= j < |s.relations| && j != i && RelationFits(s, x, user, d)(s.relations[j]) ==>
         Ends(x.entities, s.relations[j]) == 0
  }

  /** A store whose only row is one relation. */
  function OneRelation(user: Id, from: Id, to: Id, concept: Id, key: string): Store {
    EMPTY.(relations := [Relation("r1", user, from, to, concept, key, NO_TIME, 0, true, None)])
  }

  /** "The relation was wrong", said of the only relation of that key. */
  function OfKey(key: string): Description {
    Description(Some(RelationKind), None, None, None, None, None, None, Some(key), None, None, None, None)
  }

  /** The only relation there is, between the only two entities, cannot be corrected by describing it. */
  lemma {:induction false} OnlyRelationIsAmbiguous(x: Context, user: Id, a: Id, b: Id, concept: Id, key: string)
    requires x.entities == [a, b] && a != b
    ensures var s := OneRelation(user, a, b, concept, key);
      && RelationFits(s, x, user, OfKey(key))(s.relations[0])
      && ResolveTarget(s, x, user, OfKey(key), None).status == AmbiguousTarget
  {
    var s := OneRelation(user, a, b, concept, key);
    assert s.relations[0] in s.relations;
    assert x.entities[0] in x.entities && x.entities[1] in x.entities;
    RelationResolvesExactly(s, x, user, OfKey(key), None);
  }

  lemma {:induction false} WeightAtLeast<T>(entities: seq<Id>, under: (T, Id) -> bool, p: T -> bool, rows: seq<T>, i: nat)
    requires i < |rows| && p(rows[i])
    ensures Weight(entities, under, p, rows) >= Listings(entities, under, rows[i])
  {
    if i < |rows| - 1 { WeightAtLeast(entities, under, p, rows[..|rows| - 1], i); }
  }

  // ---------------------------------------------------------------- order, and what a resolution is worth

  lemma {:induction false} CollectMember<T>(entities: seq<Id>, under: (T, Id) -> bool, rows: seq<T>, r: T)
    requires r in Collect(entities, under, rows)
    ensures r in rows && exists e :: e in entities && under(r, e)
  {
    var front, last := entities[..|entities| - 1], entities[|entities| - 1];
    assert entities == front + [last];
    if r in Collect(front, under, rows) {
      CollectMember(front, under, rows, r);
      var e :| e in front && under(r, e);
      assert e in entities;
    } else {
      FilterMember(Under(under, last), rows, r);
      assert last in entities;
    }
  }

  lemma {:induction false} CollectConcat<T>(a: seq<Id>, b: seq<Id>, under: (T, Id) -> bool, rows: seq<T>)
    ensures Collect(a + b, under, rows) == Collect(a, under, rows) + Collect(b, under, rows)
  {
    if b == [] {
      assert a + b == a;
    } else {
      assert (a + b)[..|a + b| - 1] == a + b[..|b| - 1];
      CollectConcat(a, b[..|b| - 1], under, rows);
    }
  }

  lemma {:induction false} CollectRows<T(!new)>(entities: seq<Id>, under: (T, Id) -> bool, s: seq<T>, t: seq<T>)
    requires multiset(s) == multiset(t)
    ensures multiset(Collect(entities, under, s)) == multiset(Collect(entities, under, t))
  {
    if entities != [] {
      CollectRows(entities[..|entities| - 1], under, s, t);
      FilterPermutation(Under(under, entities[|entities| - 1]), s, t);
    }
  }

  lemma {:induction false} CollectEntities<T>(a: seq<Id>, b: seq<Id>, under: (T, Id) -> bool, rows: seq<T>)
    requires multiset(a) == multiset(b)
    ensures multiset(Collect(a, under, rows)) == multiset(Collect(b, under, rows))
  {
    PermutationLength(a, b);
    if a != [] {
      var front, last := a[..|a| - 1], a[|a| - 1];
      assert a == front + [last];
      PermutationMember(a, b, last);
      var i :| 0 <= i < |b| && b[i] == last;
      WithoutOne(b, i);
      assert multiset(front) == multiset(a) - multiset{last};
      CollectEntities(front, b[..i] + b[i + 1..], under, rows);
      CollectWithout(b, i, under, rows);
    }
  }

  lemma WithoutOne<T>(s: seq<T>, i: nat)
    requires i < |s|
    ensures multiset(s[..i] + s[i + 1..]) == multiset(s) - multiset{s[i]}
  {
    assert s == s[..i] + [s[i]] + s[i + 1..];
  }

  lemma {:induction false} CollectWithout<T>(entities: seq<Id>, i: nat, under: (T, Id) -> bool, rows: seq<T>)
    requires i < |entities|
    ensures multiset(Collect(entities, under, rows)) ==
      multiset(Collect(entities[..i] + entities[i + 1..], under, rows)) + multiset(Filter(Under(under, entities[i]), rows))
  {
    var before, e, after := entities[..i], entities[i], entities[i + 1..];
    assert entities == (before + [e]) + after;
    assert (before + [e])[..i] == before;
    CollectConcat(before + [e], after, under, rows);
    CollectConcat(before, after, under, rows);
  }

  lemma {:induction false} CollectOrderFree<T(!new)>(
    a: seq<Id>, b: seq<Id>, under: (T, Id) -> bool, p: T -> bool, s: seq<T>, t: seq<T>)
    requires multiset(a) == multiset(b) && multiset(s) == multiset(t)
    ensures multiset(Filter(p, Collect(a, under, s))) == multiset(Filter(p, Collect(b, under, t)))
  {
    CollectRows(a, under, s, t);
    CollectEntities(a, b, under, t);
    FilterPermutation(p, Collect(a, under, s), Collect(b, under, t));
  }

  /** Fewer than two rows that are permutations of each other are the same rows. */
  lemma ChooseOrderFree<T>(user: Id, kind: Kind, id: T -> Id, a: seq<T>, b: seq<T>)
    requires multiset(a) == multiset(b)
    ensures Choose(References(user, kind, id, a)).status == Choose(References(user, kind, id, b)).status
    ensures Choose(References(user, kind, id, a)).reference == Choose(References(user, kind, id, b)).reference
  {
    PermutationLength(a, b);
    if |a| == 1 { PermutationSingleton(a, b); }
  }

  lemma {:induction false} ListedOrderFree<T(!new)>(
    a: seq<Id>, b: seq<Id>, under: (T, Id) -> bool, p: T -> bool, q: T -> bool, s: seq<T>, t: seq<T>,
    user: Id, kind: Kind, id: T -> Id)
    requires multiset(a) == multiset(b) && multiset(s) == multiset(t)
    requires forall r :: p(r) <==> q(r)
    ensures var c, e := Choose(References(user, kind, id, Filter(p, Collect(a, under, s)))),
                        Choose(References(user, kind, id, Filter(q, Collect(b, under, t))));
      c.status == e.status && c.reference == e.reference
  {
    CollectOrderFree(a, b, under, p, s, t);
    FilterAgree(p, q, Collect(b, under, t));
    ChooseOrderFree(user, kind, id, Filter(p, Collect(a, under, s)), Filter(q, Collect(b, under, t)));
  }

  lemma {:induction false} OwnedOrderFree<T(!new)>(
    owned: T -> bool, p: T -> bool, q: T -> bool, s: seq<T>, t: seq<T>, user: Id, kind: Kind, id: T -> Id)
    requires multiset(s) == multiset(t)
    requires forall r :: p(r) <==> q(r)
    ensures var c, e := Choose(References(user, kind, id, Filter(p, Filter(owned, s)))),
                        Choose(References(user, kind, id, Filter(q, Filter(owned, t))));
      c.status == e.status && c.reference == e.reference
  {
    FilterPermutation(owned, s, t);
    FilterPermutation(p, Filter(owned, s), Filter(owned, t));
    FilterAgree(p, q, Filter(owned, t));
    ChooseOrderFree(user, kind, id, Filter(p, Filter(owned, s)), Filter(q, Filter(owned, t)));
  }

  /** The same rows and entities in another order. */
  ghost predicate Reordered(s: Store, t: Store) {
    && multiset(s.attributes) == multiset(t.attributes)
    && multiset(s.states) == multiset(t.states)
    && multiset(s.relations) == multiset(t.relations)
    && multiset(s.measurements) == multiset(t.measurements)
    && multiset(s.events) == multiset(t.events)
    && s.ledger == t.ledger
  }

  /** Which target a description resolves to does not depend on the order of rows or entities. */
  lemma {:induction false} TargetOrderFree(
    s: Store, t: Store, x: Context, entities: seq<Id>, user: Id, kind: Kind, d: Description, controlled: Option<set<Id>>)
    requires Reordered(s, t) && multiset(x.entities) == multiset(entities)
    requires ByDescription(d, kind)
    ensures var a, b := ResolveTarget(s, x, user, d, controlled),
                        ResolveTarget(t, x.(entities := entities), user, d, controlled);
      a.status == b.status && a.reference == b.reference
  {
    var y := x.(entities := entities);
    match kind
    case AttributeKind =>
      ListedOrderFree(x.entities, entities, AttributeUnder(user), PlausibleAttribute(s, x, user, d),
        PlausibleAttribute(t, y, user, d), s.attributes, t.attributes, user, kind, AttributeId());
    case StateKind =>
      ListedOrderFree(x.entities, entities, StateUnder(user), PlausibleState(s, x, user, d),
        PlausibleState(t, y, user, d), s.states, t.states, user, kind, StateId());
    case RelationKind =>
      ListedOrderFree(x.entities, entities, RelationUnder(user), PlausibleRelation(s, x, user, d),
        PlausibleRelation(t, y, user, d), s.relations, t.relations, user, kind, RelationId());
    case MeasurementKind =>
      OwnedOrderFree(MeasurementOwned(user), PlausibleMeasurement(s, x, user, d),
        PlausibleMeasurement(t, y, user, d), s.measurements, t.measurements, user, kind, MeasurementId());
    case EventKind =>
      OwnedOrderFree(EventOwned(user), PlausibleEvent(s, x, user, d),
        PlausibleEvent(t, y, user, d), s.events, t.events, user, kind, EventId());
  }

  /** Every candidate is an effective assertion of the user. */
  lemma {:induction false} CandidateIsEffective(s: Store, x: Context, user: Id, kind: Kind, d: Description, ref: Ref)
    requires ref in Candidates(s, x, user, kind, d)
    ensures ref.user == user && ref.kind == kind && Exists(s, ref) && !Targeted(s.ledger, ref)
  {
    var refs := Candidates(s, x, user, kind, d);
    var i :| 0 <= i < |refs| && refs[i] == ref;
    match kind
    case AttributeKind =>
      var rows := Collect(x.entities, AttributeUnder(user), s.attributes);
      var r := Filter(PlausibleAttribute(s, x, user, d), rows)[i];
      FilterMember(PlausibleAttribute(s, x, user, d), rows, r);
      CollectMember(x.entities, AttributeUnder(user), s.attributes, r);
    case StateKind =>
      var rows := Collect(x.entities, StateUnder(user), s.states);
      var r := Filter(PlausibleState(s, x, user, d), rows)[i];
      FilterMember(PlausibleState(s, x, user, d), rows, r);
      CollectMember(x.entities, StateUnder(user), s.states, r);
    case RelationKind =>
      var rows := Collect(x.entities, RelationUnder(user), s.relations);
      var r := Filter(PlausibleRelation(s, x, user, d), rows)[i];
      FilterMember(PlausibleRelation(s, x, user, d), rows, r);
      CollectMember(x.entities, RelationUnder(user), s.relations, r);
    case MeasurementKind =>
      var rows := Filter(MeasurementOwned(user), s.measurements);
      var r := Filter(PlausibleMeasurement(s, x, user, d), rows)[i];
      FilterMember(PlausibleMeasurement(s, x, user, d), rows, r);
      FilterMember(MeasurementOwned(user), s.measurements, r);
    case EventKind =>
      var rows := Filter(EventOwned(user), s.events);
      var r := Filter(PlausibleEvent(s, x, user, d), rows)[i];
      FilterMember(PlausibleEvent(s, x, user, d), rows, r);
      FilterMember(EventOwned(user), s.events, r);
  }

  /** A resolved target, described or given by id, is always accepted for retraction on the same store. */
  lemma {:induction false} ResolvedIsAccepted(
    s: Store, x: Context, user: Id, d: Description, controlled: Option<set<Id>>, id: Id)
    requires ResolveTarget(s, x, user, d, controlled).status == Resolved
    requires !HasCorrection(s.ledger, id)
    ensures var r := ResolveTarget(s, x, user, d, controlled);
      && r.reference.Some? && r.reference.value.user == user && d.kind == Some(r.reference.value.kind)
      && DoCorrection(s, RetractRow(id, user, r.reference.value.kind, r.reference.value.assertionId), true).Ok?
  {
    if DirectId(d).None? {
      CandidateIsEffective(s, x, user, d.kind.value, d, ResolveTarget(s, x, user, d, controlled).reference.value);
    }
  }
}
