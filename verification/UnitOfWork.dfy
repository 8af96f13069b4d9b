/** One transaction over the repositories: rows are read, added and saved in place, then committed or rolled back. */
module UnitOfWork {
  import opened Prelude
  import opened Domain
  import opened Store
  import H = FactHistories

  function StatesUnder(user: Id, entity: Id): State -> bool {
    (r: State) => r.user == user && r.entity == entity
  }

  /** Saving writes a row over the one with its id. */
  function Saved<T>(id: T -> Id, rows: seq<T>, row: T): (r: seq<T>)
    ensures |r| == |rows|
    ensures forall i :: 0 <= i < |rows| ==> r[i] == if id(rows[i]) == id(row) then row else rows[i]
  {
    seq(|rows|, i requires 0 <= i < |rows| => if id(rows[i]) == id(row) then row else rows[i])
  }

  /** `p` is the fact the row supersedes, of the same owner and about the same subject under the same concept. */
  predicate Follows(row: Fact, p: Fact) {
    row.supersedes == Some(p.id) && p.user == row.user && p.about == row.about && p.concept == row.concept
  }

  class UnitOfWork {
    var states: seq<State>
    var attributes: seq<Attribute>
    var relations: seq<Relation>
    var measurements: seq<Measurement>
    var events: seq<Event>
    var facts: seq<Fact>
    var ledger: seq<Correction>
    var principals: map<Id, Id>
    /** What the last commit made permanent. */
    var committed: Store

    constructor (s: Store)
      ensures Snapshot() == s && committed == s
    {
      states, attributes, relations, measurements := s.states, s.attributes, s.relations, s.measurements;
      events, facts, ledger, principals := s.events, s.facts, s.ledger, s.principals;
      committed := s;
    }

    /** What the transaction sees. */
    function Snapshot(): Store
      reads this
    {
      Store(states, attributes, relations, measurements, events, facts, ledger, principals)
    }

    method Commit()
      modifies this`committed
      ensures committed == Snapshot()
    {
      committed := Snapshot();
    }

    method Rollback()
      modifies this
      ensures Snapshot() == old(committed) && committed == old(committed)
    {
      states, attributes, relations, measurements :=
        committed.states, committed.attributes, committed.relations, committed.measurements;
      events, facts, ledger, principals := committed.events, committed.facts, committed.ledger, committed.principals;
    }

    // ---------------------------------------------------------------- states

    /** An entity's states; callers may rely on which rows come, not on their order. */
    method StatesForEntity(user: Id, entity: Id) returns (rows: seq<State>)
      ensures multiset(rows) == multiset(Filter(StatesUnder(user, entity), states))
    {
      rows := Filter(StatesUnder(user, entity), states);
    }

    method SaveState(row: State)
      modifies this`states
      ensures states == Saved(StateId(), old(states), row)
    {
      states := Saved(StateId(), states, row);
    }

    /** A taken id violates the primary key and nothing is added. */
    method AddState(row: State) returns (ok: bool)
      modifies this`states
      ensures ok <==> !HasState(old(states), row.id)
      ensures states == if ok then old(states) + [row] else old(states)
    {
      ok := forall r :: r in states ==> r.id != row.id;
      if ok { states := states + [row]; }
    }

    // ---------------------------------------------------------------- attributes

    method AttributesForDimension(user: Id, entity: Id, dimension: string) returns (rows: seq<Attribute>)
      ensures multiset(rows) == multiset(Filter(AttributeOf(Key(user, entity, dimension)), attributes))
    {
      rows := Filter(AttributeOf(Key(user, entity, dimension)), attributes);
    }

    method SaveAttribute(row: Attribute)
      modifies this`attributes
      ensures attributes == Saved(AttributeId(), old(attributes), row)
    {
      attributes := Saved(AttributeId(), attributes, row);
    }

    method AddAttribute(row: Attribute) returns (ok: bool)
      modifies this`attributes
      ensures ok <==> !HasAttribute(old(attributes), row.id)
      ensures attributes == if ok then old(attributes) + [row] else old(attributes)
    {
      ok := forall r :: r in attributes ==> r.id != row.id;
      if ok { attributes := attributes + [row]; }
    }

    // ---------------------------------------------------------------- relations

    /** The most recently observed row of a link, by one pass over the table. */
    method FindRelation(link: Link, currentOnly: bool) returns (r: Option<Relation>)
      ensures var at := FindInstance(relations, link, currentOnly);
        r == if at.Some? then Some(relations[at.value]) else None
    {
      r := None;
      for i := 0 to |relations|
        invariant var at := FindInstance(relations[..i], link, currentOnly);
          r == if at.Some? then Some(relations[at.value]) else None
      {
        assert relations[..i + 1][..i] == relations[..i];
        var row := relations[i];
        if LinkOf(row) == link && (currentOnly ==> row.isCurrent) && (r.None? || r.value.observedAt < row.observedAt) {
          r := Some(row);
        }
      }
      assert relations[..|relations|] == relations;
    }

    method SaveRelation(row: Relation)
      modifies this`relations
      ensures relations == Saved(RelationId(), old(relations), row)
    {
      relations := Saved(RelationId(), relations, row);
    }

    method AddRelation(row: Relation) returns (ok: bool)
      modifies this`relations
      ensures ok <==> !HasRelation(old(relations), row.id)
      ensures relations == if ok then old(relations) + [row] else old(relations)
    {
      ok := forall r :: r in relations ==> r.id != row.id;
      if ok { relations := relations + [row]; }
    }

    // ---------------------------------------------------------------- measurements, events, facts

    method AddMeasurement(row: Measurement) returns (ok: bool)
      modifies this`measurements
      ensures ok <==> !HasMeasurement(old(measurements), row.id)
      ensures measurements == if ok then old(measurements) + [row] else old(measurements)
    {
      ok := forall r :: r in measurements ==> r.id != row.id;
      if ok { measurements := measurements + [row]; }
    }

    method AddEvent(row: Event) returns (ok: bool)
      modifies this`events
      ensures ok <==> !HasEvent(old(events), row.id)
      ensures events == if ok then old(events) + [row] else old(events)
    {
      ok := forall r :: r in events ==> r.id != row.id;
      if ok { events := events + [row]; }
    }

    /** A fact is added exactly when the histories of facts stay linear; a refused one leaves the table alone. */
    method AddFact(row: Fact) returns (ok: bool)
      modifies this`facts
      ensures ok <==> AcceptsFact(old(facts), row)
      ensures facts == if ok then old(facts) + [row] else old(facts)
      ensures H.Linear(old(facts)) ==> H.Linear(facts) && (ok <==> H.Linear(old(facts) + [row]))
    {
      if H.Linear(facts) { H.AcceptsExactly(facts, row); }
      var taken, follows, succeeded := false, false, false;
      for i := 0 to |facts|
        invariant taken <==> HasFact(facts[..i], row.id)
        invariant follows <==> exists p :: p in facts[..i] && Follows(row, p)
        invariant succeeded <==> row.supersedes.Some? && exists r :: r in facts[..i] && r.supersedes == row.supersedes
      {
        assert facts[..i + 1] == facts[..i] + [facts[i]];
        assert facts[i] in facts[..i + 1];
        if facts[i].id == row.id { taken := true; }
        if Follows(row, facts[i]) { follows := true; }
        if row.supersedes.Some? && facts[i].supersedes == row.supersedes { succeeded := true; }
      }
      assert facts[..|facts|] == facts;
      ok := !taken && (row.supersedes.None? || (row.supersedes != Some(row.id) && follows && !succeeded));
      if ok { facts := facts + [row]; }
    }

    method GetFact(user: Id, id: Id) returns (f: Option<Fact>)
      ensures var at := FactAt(facts, user, id);
        f == if at.Some? then Some(facts[at.value]) else None
    {
      f := None;
      for i := 0 to |facts|
        invariant var at := FactAt(facts[..i], user, id);
          f == if at.Some? then Some(facts[at.value]) else None
      {
        assert facts[..i + 1][..i] == facts[..i];
        if facts[i].id == id && facts[i].user == user { f := Some(facts[i]); }
      }
      assert facts[..|facts|] == facts;
    }

    /** The history of a concept about an event, read from its latest entry back to a current one. */
    method LatestCurrent(user: Id, event: Id, concept: Id) returns (f: Option<Fact>)
      ensures var at := LatestCurrentFact(facts, user, event, concept);
        f == if at.Some? then Some(facts[at.value]) else None
    {
      f := None;
      for i := 0 to |facts|
        invariant var at := LatestCurrentFact(facts[..i], user, event, concept);
          f == if at.Some? then Some(facts[at.value]) else None
      {
        assert facts[..i + 1][..i] == facts[..i];
        var row := facts[i];
        if row.user == user && row.about.id == event && row.concept == concept && CurrentFact(row)
           && (f.None? || RecordedBefore(f.value, row))
        {
          f := Some(row);
        }
      }
      assert facts[..|facts|] == facts;
    }

    method SaveFact(row: Fact)
      modifies this`facts
      ensures facts == Saved(FactId(), old(facts), row)
    {
      facts := Saved(FactId(), facts, row);
    }

    // ---------------------------------------------------------------- corrections

    method FindByTarget(target: Ref) returns (c: Option<Correction>)
      ensures c.Some? <==> Targeted(ledger, target)
    {
      c := None;
      for i := 0 to |ledger|
        invariant c.Some? <==> Targeted(ledger[..i], target)
      {
        assert ledger[..i + 1] == ledger[..i] + [ledger[i]];
        assert ledger[i] in ledger[..i + 1];
        if ledger[i].target == target { c := Some(ledger[i]); }
      }
      assert ledger[..|ledger|] == ledger;
    }

    method AddCorrection(row: Correction) returns (ok: bool)
      modifies this`ledger
      ensures ok <==> !HasCorrection(old(ledger), row.id)
      ensures ledger == if ok then old(ledger) + [row] else old(ledger)
    {
      ok := forall r :: r in ledger ==> r.id != row.id;
      if ok { ledger := ledger + [row]; }
    }
  }
}
