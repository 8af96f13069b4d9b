/** The write path as it runs: methods that change the repositories of a unit of work and list what they wrote. */
module Materializer {
  import opened Prelude
  import opened Domain
  import opened Store
  import opened UnitOfWork
  import opened Utterance
  import opened StateLifecycle
  import opened AttributeLifecycle
  import opened RelationLifecycle
  import opened FactLifecycle
  import opened Runs
  import R = RelationMetadata
  import V = Versions

  /** The ids written so far, per primitive. */
  class MaterializationResult {
    var eventIds: seq<Id>
    var measurementIds: seq<Id>
    var stateIds: seq<Id>
    var attributeIds: seq<Id>
    var relationIds: seq<Id>

    constructor ()
      ensures Listed() == NOTHING
    {
      eventIds, measurementIds, stateIds, attributeIds, relationIds := [], [], [], [], [];
    }

    function Listed(): Receipt
      reads this
    {
      Receipt(eventIds, measurementIds, stateIds, attributeIds, relationIds)
    }
  }

  class KnowledgeMaterializer {
    const env: Env

    constructor (env: Env)
      ensures this.env == env
    {
      this.env := env;
    }

    /** Closes the current states of the key, then adds the new one pointing at the one it closed. */
    method State(uow: UnitOfWork, w: StateWrite, at: int, result: MaterializationResult) returns (ok: bool)
      requires StatesOk(env.catalog, uow.states)
      modifies uow`states, result`stateIds
      ensures ok <==> DoState(env, old(uow.states), w, at).Some?
      ensures ok ==> uow.states == DoState(env, old(uow.states), w, at).value
      ensures ok ==> result.stateIds == old(result.stateIds) + [w.id]
    {
      var concepts := ResolveState(env.catalog, w);
      if w.temporal.None? || !w.persistable || w.subject.None? || concepts.None? { return false; }
      var (dimension, value) := concepts.value;
      ghost var before := uow.states;
      var supersedes := CloseStates(uow, w.user, w.subject.value, dimension.key, at);
      SameStateIds(before, uow.states, w.id);
      var row := StateRow(w, w.subject.value, dimension, value, w.temporal.value, at).(supersedes := supersedes);
      ok := uow.AddState(row);
      if ok { result.stateIds := result.stateIds + [w.id]; }
    }

    method CloseStates(uow: UnitOfWork, user: Id, entity: Id, dimension: string, at: int)
      returns (supersedes: Option<Id>)
      requires StatesOk(env.catalog, uow.states)
      modifies uow`states
      ensures var key := Key(user, entity, dimension);
        && uow.states == V.CloseAll(LiveState(key), CloseState(at), old(uow.states))
        && supersedes == V.LastLive(LiveState(key), StateVersion(), old(uow.states))
      ensures forall k :: 0 <= k < |uow.states| ==> uow.states[k].id == old(uow.states)[k].id
    {
      ghost var before := uow.states;
      ghost var key := Key(user, entity, dimension);
      var rows := uow.StatesForEntity(user, entity);
      EntityRows(before, rows, user, entity);
      supersedes := None;
      V.NothingClosed(LiveState(key), StateVersion(), CloseState(at), before);
      for i := 0 to |rows|
        invariant V.Closing(LiveState(key), StateVersion(), CloseState(at), before, rows[..i], uow.states, supersedes)
      {
        assert rows[..i + 1] == rows[..i] + [rows[i]];
        var row := rows[i];
        assert row in rows;
        ghost var now, met := uow.states, supersedes;
        if row.dimensionKey == dimension && row.isCurrent {
          uow.SaveState(row.(validTo := Some(at), isCurrent := false));
          supersedes := Some(row.id);
        }
        StateClosed(before, rows[..i], now, uow.states, row, met, key, at);
      }
      assert rows[..|rows|] == rows;
      StatesClosed(env.catalog, before, rows, uow.states, supersedes, key, at);
    }

    /** A singleton dimension closes its current rows first; any other dimension just gains a row. */
    method AttributeRecord(uow: UnitOfWork, w: AttributeWrite, at: int, result: MaterializationResult) returns (ok: bool)
      requires AttributesOk(env.singleton, uow.attributes)
      modifies uow`attributes, result`attributeIds
      ensures IntrinsicName(uow.principals, w) ==>
        ok && uow.attributes == old(uow.attributes) && result.attributeIds == old(result.attributeIds)
      ensures !IntrinsicName(uow.principals, w) ==>
        && (ok <==> DoAttribute(env, old(uow.attributes), w, at).Some?)
        && (ok ==> uow.attributes == DoAttribute(env, old(uow.attributes), w, at).value)
        && (ok ==> result.attributeIds == old(result.attributeIds) + [w.id])
    {
      if IntrinsicName(uow.principals, w) { return true; }
      var subject := AttributeSubject(w);
      if subject.None? || !ValidValue(w.value) { return false; }
      ghost var before := uow.attributes;
      ghost var key := Key(w.user, subject.value, w.dimension);
      var supersedes: Option<Id> := None;
      if w.isCurrent && w.dimension in env.singleton {
        supersedes := CloseAttributes(uow, w.user, subject.value, w.dimension, at);
      }
      assert forall k :: 0 <= k < |before| ==> uow.attributes[k].id == before[k].id;
      SameAttributeIds(before, uow.attributes, w.id);
      var row := AttributeRow(w, subject.value, at).(supersedes := supersedes);
      ok := uow.AddAttribute(row);
      if ok { result.attributeIds := result.attributeIds + [w.id]; }
    }

    method CloseAttributes(uow: UnitOfWork, user: Id, entity: Id, dimension: string, at: int)
      returns (supersedes: Option<Id>)
      requires AttributesOk(env.singleton, uow.attributes) && dimension in env.singleton
      modifies uow`attributes
      ensures var key := Key(user, entity, dimension);
        && uow.attributes == V.CloseAll(LiveAttribute(key), CloseAttribute(at), old(uow.attributes))
        && supersedes == V.LastLive(LiveAttribute(key), AttributeVersion(), old(uow.attributes))
      ensures forall k :: 0 <= k < |uow.attributes| ==> uow.attributes[k].id == old(uow.attributes)[k].id
    {
      ghost var before := uow.attributes;
      ghost var key := Key(user, entity, dimension);
      var rows := uow.AttributesForDimension(user, entity, dimension);
      DimensionRows(before, rows, key);
      supersedes := None;
      V.NothingClosed(LiveAttribute(key), AttributeVersion(), CloseAttribute(at), before);
      for i := 0 to |rows|
        invariant V.Closing(
          LiveAttribute(key), AttributeVersion(), CloseAttribute(at), before, rows[..i], uow.attributes, supersedes)
      {
        assert rows[..i + 1] == rows[..i] + [rows[i]];
        var row := rows[i];
        assert row in rows;
        ghost var now, met := uow.attributes, supersedes;
        if row.isCurrent {
          uow.SaveAttribute(row.(isCurrent := false, validTo := Some(at)));
          supersedes := Some(row.id);
        }
        AttributeClosed(env.singleton, before, rows[..i], now, uow.attributes, row, met, key, at);
      }
      assert rows[..|rows|] == rows;
      AttributesClosed(env, before, rows, uow.attributes, supersedes, key, at);
    }

    /** Terminates, denies, refreshes or adds, on the canonical link. */
    method RelationRecord(uow: UnitOfWork, w: RelationWrite, at: int, result: MaterializationResult) returns (ok: bool)
      requires DistinctRelations(uow.relations)
      modifies uow`relations, result`relationIds
      ensures ok <==> DoRelation(env, old(uow.relations), w, at).Some?
      ensures ok ==> uow.relations == DoRelation(env, old(uow.relations), w, at).value.rows
      ensures ok ==> result.relationIds == old(result.relationIds) + DoRelation(env, old(uow.relations), w, at).value.reported
    {
      var temporal := RelationTime(w);
      if temporal.None? || w.subject.None? || w.object_.None? { return false; }
      var key, inverted := R.StoredRelationQuery(env.relations, w.key);
      var subject, object_ := w.subject.value, w.object_.value;
      if inverted { subject, object_ := object_, subject; }
      var concept := RelationConcept(env.catalog, key);
      if concept.None? { return false; }
      var (fromId, toId) := R.CanonicalEndpoints(env.relations, subject, object_, key);
      var link := Link(w.user, fromId, concept.value.id, toId);
      ok := PutLink(uow, link, key, w, temporal.value, at, result);
    }

    method PutLink(
      uow: UnitOfWork, link: Link, key: string, w: RelationWrite, t: Temporal, at: int, result: MaterializationResult)
      returns (ok: bool)
      requires DistinctRelations(uow.relations)
      modifies uow`relations, result`relationIds
      ensures ok <==> PutRelation(old(uow.relations), link, w, key, t, at).Some?
      ensures ok ==> uow.relations == PutRelation(old(uow.relations), link, w, key, t, at).value.rows
      ensures ok ==>
        result.relationIds == old(result.relationIds) + PutRelation(old(uow.relations), link, w, key, t, at).value.reported
    {
      ghost var before := uow.relations;
      var existing := uow.FindRelation(link, true);
      ok := true;
      if w.mode == Terminate {
        if existing.None? { existing := uow.FindRelation(link, false); }
        if existing.Some? {
          var terminated := Terminated(existing.value, t, at);
          uow.SaveRelation(terminated);
          SavedOnce(before, terminated);
          result.relationIds := result.relationIds + [terminated.id];
        }
      } else if w.mode == DenyCurrent {
        if existing.Some? {
          var closed := existing.value.(isCurrent := false);
          uow.SaveRelation(closed);
          SavedOnce(before, closed);
          result.relationIds := result.relationIds + [closed.id];
        }
      } else if existing.Some? && AssertsCurrent(w.mode, t) {
        var refreshed := existing.value.(observedAt := at);
        uow.SaveRelation(refreshed);
        SavedOnce(before, refreshed);
        result.relationIds := result.relationIds + [refreshed.id];
      } else {
        var isCurrent := AssertsCurrent(w.mode, t);
        ok := uow.AddRelation(
          Relation(w.id, w.user, link.fromId, link.toId, link.conceptId, key, t, at, isCurrent, None));
        if ok { result.relationIds := result.relationIds + [w.id]; }
      }
    }

    /** Links the principal to the possessed objects mentioned, each once. */
    method EnsurePrincipalOwnership(
      uow: UnitOfWork, user: Id, targets: seq<OwnedTarget>, at: int, result: MaterializationResult) returns (ok: bool)
      modifies uow`relations, result`relationIds
      ensures user !in uow.principals ==>
        ok && uow.relations == old(uow.relations) && result.relationIds == old(result.relationIds)
      ensures user in uow.principals ==>
        var spec := DoOwnership(old(uow.relations), user, uow.principals[user], targets, {}, at);
        && (ok <==> spec.Some?)
        && (ok ==> uow.relations == spec.value.rows && result.relationIds == old(result.relationIds) + spec.value.reported)
    {
      if user !in uow.principals { return true; }
      var principal := uow.principals[user];
      var seen: set<Id> := {};
      ghost var listed := result.relationIds;
      ghost var spec := DoOwnership(uow.relations, user, principal, targets, {}, at);
      ghost var added: seq<Id> := [];
      assert targets[0..] == targets;
      assert spec.Some? ==> [] + spec.value.reported == spec.value.reported;
      for i := 0 to |targets|
        invariant result.relationIds == listed + added
        invariant uow.principals == old(uow.principals)
        invariant spec == Resume(added, DoOwnership(uow.relations, user, principal, targets[i..], seen, at))
      {
        var t := targets[i];
        assert targets[i..][0] == t && targets[i..][1..] == targets[i + 1..];
        if t.object_.Some? && t.object_.value !in seen && t.object_.value != principal && t.known && t.eligible {
          var existing := uow.FindRelation(OwnsLink(user, principal, t.object_.value), true);
          if existing.None? {
            ok := uow.AddRelation(
              Relation(t.id, user, principal, t.object_.value, OWNS_ID, OWNS_KEY, NO_TIME, at, true, None));
            if !ok { return; }
            result.relationIds := result.relationIds + [t.id];
            ResumeOneMore(added, t.id, DoOwnership(uow.relations, user, principal, targets[i + 1..], seen + {t.object_.value}, at));
            added := added + [t.id];
          }
          seen := seen + {t.object_.value};
        }
      }
      ok := true;
    }

    /** Records the facts in order, stopping at the first that storage refuses. */
    method Facts(
      uow: UnitOfWork, user: Id, about: Anchor, inputs: seq<FactInput>, supersedes: Option<Id>, at: int)
      returns (ok: bool)
      modifies uow`facts
      ensures ok <==> DoFacts(old(uow.facts), user, about, inputs, supersedes, at).Some?
      ensures ok ==> uow.facts == DoFacts(old(uow.facts), user, about, inputs, supersedes, at).value
    {
      var i := 0;
      while i < |inputs|
        invariant 0 <= i <= |inputs|
        invariant DoFacts(old(uow.facts), user, about, inputs, supersedes, at)
               == DoFacts(uow.facts, user, about, inputs[i..], supersedes, at)
      {
        assert inputs[i..][0] == inputs[i] && inputs[i..][1..] == inputs[i + 1..];
        ok := uow.AddFact(Fact(inputs[i].id, user, about, inputs[i].concept, inputs[i].value, supersedes, at, None));
        if !ok { return; }
        i := i + 1;
      }
      ok := true;
    }

    method EventRecord(uow: UnitOfWork, e: Event, facts: seq<FactInput>, at: int, result: MaterializationResult)
      returns (ok: bool)
      modifies uow`events, uow`facts, result`eventIds
      ensures var recorded := DoFacts(old(uow.facts), e.user, Anchor(EventAnchor, e.id), facts, None, at);
        && (ok <==> !HasEvent(old(uow.events), e.id) && recorded.Some?)
        && (ok ==> uow.events == old(uow.events) + [e] && uow.facts == recorded.value)
        && (ok ==> result.eventIds == old(result.eventIds) + [e.id])
    {
      ok := uow.AddEvent(e);
      if !ok { return; }
      result.eventIds := result.eventIds + [e.id];
      ok := Facts(uow, e.user, Anchor(EventAnchor, e.id), facts, None, at);
    }

    /** Persists one primitive through its own pass. */
    method Persist(uow: UnitOfWork, w: Write, at: int, result: MaterializationResult) returns (ok: bool)
      requires Deployed(env) && RowsOk(env, uow.Snapshot())
      modifies uow, result
      ensures uow.committed == old(uow.committed)
      ensures var spec := DoWrite(env, Txn(old(uow.Snapshot()), old(result.Listed())), w, at);
        && (ok <==> spec.Some?)
        && (ok ==> Txn(uow.Snapshot(), result.Listed()) == spec.value)
    {
      if w.WriteEvent? || w.WriteMeasurement? {
        ok := PersistOccurrence(uow, w, at, result);
      } else if w.WriteRelation? || w.WriteOwnership? {
        ok := PersistRelation(uow, w, at, result);
      } else {
        ok := PersistVersion(uow, w, at, result);
      }
    }

    method PersistOccurrence(uow: UnitOfWork, w: Write, at: int, result: MaterializationResult) returns (ok: bool)
      requires w.WriteEvent? || w.WriteMeasurement?
      modifies uow`events, uow`facts, uow`measurements, result
      ensures var spec := DoWrite(env, Txn(old(uow.Snapshot()), old(result.Listed())), w, at);
        && (ok <==> spec.Some?)
        && (ok ==> Txn(uow.Snapshot(), result.Listed()) == spec.value)
    {
      if w.WriteEvent? {
        ok := EventRecord(uow, w.event, w.facts, at, result);
      } else {
        ok := uow.AddMeasurement(w.measurement);
        if ok { result.measurementIds := result.measurementIds + [w.measurement.id]; }
      }
    }

    method PersistRelation(uow: UnitOfWork, w: Write, at: int, result: MaterializationResult) returns (ok: bool)
      requires w.WriteRelation? || w.WriteOwnership?
      requires DistinctRelations(uow.relations)
      modifies uow`relations, result`relationIds
      ensures var spec := DoWrite(env, Txn(old(uow.Snapshot()), old(result.Listed())), w, at);
        && (ok <==> spec.Some?)
        && (ok ==> Txn(uow.Snapshot(), result.Listed()) == spec.value)
    {
      if w.WriteRelation? {
        ok := RelationRecord(uow, w.relation, at, result);
      } else {
        ok := EnsurePrincipalOwnership(uow, w.user, w.targets, at, result);
      }
    }

    method PersistVersion(uow: UnitOfWork, w: Write, at: int, result: MaterializationResult) returns (ok: bool)
      requires w.WriteState? || w.WriteAttribute?
      requires StatesOk(env.catalog, uow.states) && AttributesOk(env.singleton, uow.attributes)
      modifies uow`states, uow`attributes, result`stateIds, result`attributeIds
      ensures var spec := DoWrite(env, Txn(old(uow.Snapshot()), old(result.Listed())), w, at);
        && (ok <==> spec.Some?)
        && (ok ==> Txn(uow.Snapshot(), result.Listed()) == spec.value)
    {
      if w.WriteState? {
        ok := State(uow, w.state, at, result);
      } else {
        ok := AttributeRecord(uow, w.attribute, at, result);
      }
    }

    /** One more write, leaving the rows fit for the next. */
    method PersistNext(uow: UnitOfWork, w: Write, at: int, result: MaterializationResult) returns (ok: bool)
      requires Deployed(env) && RowsOk(env, uow.Snapshot())
      modifies uow, result
      ensures uow.committed == old(uow.committed)
      ensures var spec := DoWrite(env, Txn(old(uow.Snapshot()), old(result.Listed())), w, at);
        && (ok <==> spec.Some?)
        && (ok ==> Txn(uow.Snapshot(), result.Listed()) == spec.value)
      ensures ok ==> RowsOk(env, uow.Snapshot())
    {
      ghost var t := Txn(uow.Snapshot(), result.Listed());
      ok := Persist(uow, w, at, result);
      if ok { DoWriteKeeps(env, t, w, at); }
    }

    /** An event with its facts; one whose time cannot be kept is denied. */
    method PersistEvent(uow: UnitOfWork, e: Option<EventInput>, gated: bool, at: int, result: MaterializationResult)
      returns (ok: bool)
      requires Deployed(env) && RowsOk(env, uow.Snapshot())
      modifies uow, result
      ensures uow.committed == old(uow.committed)
      ensures Carried(env, Txn(old(uow.Snapshot()), old(result.Listed())), EventWrites(e, gated), at,
        ok, Txn(uow.Snapshot(), result.Listed()))
    {
      if e.None? { return true; }
      if gated && !e.value.persistable { return false; }
      ghost var t := Txn(uow.Snapshot(), result.Listed());
      ok := PersistNext(uow, WriteEvent(e.value.event, e.value.facts), at, result);
      OneWrite(env, t, WriteEvent(e.value.event, e.value.facts), at);
    }

    /** The measurements in turn: unusable ones are skipped beside an event and denied on their own. */
    method PersistMeasurements(
      uow: UnitOfWork, ms: seq<MeasurementInput>, withEvent: bool, at: int, result: MaterializationResult)
      returns (ok: bool)
      requires Deployed(env) && RowsOk(env, uow.Snapshot())
      modifies uow, result
      ensures uow.committed == old(uow.committed)
      ensures Carried(env, Txn(old(uow.Snapshot()), old(result.Listed())), AllMeasurements(ms, withEvent), at,
        ok, Txn(uow.Snapshot(), result.Listed()))
    {
      ghost var spec := Via(env, Some(Txn(uow.Snapshot(), result.Listed())), AllMeasurements(ms, withEvent), at);
      assert ms[0..] == ms;
      for i := 0 to |ms|
        invariant RowsOk(env, uow.Snapshot())
        invariant uow.committed == old(uow.committed)
        invariant spec == Via(env, Some(Txn(uow.Snapshot(), result.Listed())), AllMeasurements(ms[i..], withEvent), at)
      {
        ghost var t := Txn(uow.Snapshot(), result.Listed());
        assert ms[i..][0] == ms[i] && ms[i..][1..] == ms[i + 1..];
        ViaJoined(env, Some(t), MeasurementWrites(ms[i], withEvent), AllMeasurements(ms[i + 1..], withEvent), at);
        ok := PersistMeasurement(uow, ms[i], withEvent, at, result);
        if !ok { return; }
      }
      ok := true;
    }

    method PersistMeasurement(
      uow: UnitOfWork, m: MeasurementInput, withEvent: bool, at: int, result: MaterializationResult)
      returns (ok: bool)
      requires Deployed(env) && RowsOk(env, uow.Snapshot())
      modifies uow, result
      ensures uow.committed == old(uow.committed)
      ensures Carried(env, Txn(old(uow.Snapshot()), old(result.Listed())), MeasurementWrites(m, withEvent), at,
        ok, Txn(uow.Snapshot(), result.Listed()))
    {
      if m.subject.None? { return withEvent; }
      if m.contextGiven && m.context.None? && !withEvent { return false; }
      if m.number.None? { return withEvent; }
      var observed := if m.temporal.exact.Some? then m.temporal.instant else None;
      var row := Measurement(
        m.id, m.user, m.subject.value, m.context, m.dimension, m.number.value, m.unit, m.currency, m.temporal, observed);
      ghost var t := Txn(uow.Snapshot(), result.Listed());
      ok := PersistNext(uow, WriteMeasurement(row), at, result);
      OneWrite(env, t, WriteMeasurement(row), at);
    }

    method PersistAttributes(uow: UnitOfWork, xs: seq<AttributeWrite>, at: int, result: MaterializationResult)
      returns (ok: bool)
      requires Deployed(env) && RowsOk(env, uow.Snapshot())
      modifies uow, result
      ensures uow.committed == old(uow.committed)
      ensures Carried(env, Txn(old(uow.Snapshot()), old(result.Listed())), Some(AttributeWrites(xs)), at,
        ok, Txn(uow.Snapshot(), result.Listed()))
    {
      ghost var spec := DoWrites(env, Txn(uow.Snapshot(), result.Listed()), AttributeWrites(xs), at);
      assert xs[0..] == xs;
      for i := 0 to |xs|
        invariant RowsOk(env, uow.Snapshot())
        invariant uow.committed == old(uow.committed)
        invariant spec == DoWrites(env, Txn(uow.Snapshot(), result.Listed()), AttributeWrites(xs[i..]), at)
      {
        assert AttributeWrites(xs[i..])[0] == WriteAttribute(xs[i]);
        assert AttributeWrites(xs[i..])[1..] == AttributeWrites(xs[i + 1..]);
        ok := PersistNext(uow, WriteAttribute(xs[i]), at, result);
        if !ok { return; }
      }
      ok := true;
    }

    method PersistRelations(uow: UnitOfWork, xs: seq<RelationWrite>, at: int, result: MaterializationResult)
      returns (ok: bool)
      requires Deployed(env) && RowsOk(env, uow.Snapshot())
      modifies uow, result
      ensures uow.committed == old(uow.committed)
      ensures Carried(env, Txn(old(uow.Snapshot()), old(result.Listed())), Some(RelationWrites(xs)), at,
        ok, Txn(uow.Snapshot(), result.Listed()))
    {
      ghost var spec := DoWrites(env, Txn(uow.Snapshot(), result.Listed()), RelationWrites(xs), at);
      assert xs[0..] == xs;
      for i := 0 to |xs|
        invariant RowsOk(env, uow.Snapshot())
        invariant uow.committed == old(uow.committed)
        invariant spec == DoWrites(env, Txn(uow.Snapshot(), result.Listed()), RelationWrites(xs[i..]), at)
      {
        assert RelationWrites(xs[i..])[0] == WriteRelation(xs[i]);
        assert RelationWrites(xs[i..])[1..] == RelationWrites(xs[i + 1..]);
        ok := PersistNext(uow, WriteRelation(xs[i]), at, result);
        if !ok { return; }
      }
      ok := true;
    }

    /** State, attributes, relations and, after those two, ownership links. */
    method PersistLater(uow: UnitOfWork, ir: Ir, at: int, result: MaterializationResult) returns (ok: bool)
      requires Deployed(env) && RowsOk(env, uow.Snapshot())
      modifies uow, result
      ensures uow.committed == old(uow.committed)
      ensures var spec := LaterInParts(env, Some(Txn(old(uow.Snapshot()), old(result.Listed()))), ir, at);
        && (ok <==> spec.Some?)
        && (ok ==> Txn(uow.Snapshot(), result.Listed()) == spec.value)
    {
      if ir.state.Some? {
        ghost var t := Txn(uow.Snapshot(), result.Listed());
        ok := PersistNext(uow, WriteState(ir.state.value), at, result);
        OneWrite(env, t, WriteState(ir.state.value), at);
        if !ok { return; }
      }
      var attributes := (if ir.attribute.Some? then [ir.attribute.value] else []) + ir.moreAttributes;
      ok := PersistAttributes(uow, attributes, at, result);
      if !ok { return; }
      var relations := (if ir.relation.Some? then [ir.relation.value] else []) + ir.moreRelations;
      ok := PersistRelations(uow, relations, at, result);
      if !ok { return; }
      if attributes != [] || relations != [] {
        ghost var t := Txn(uow.Snapshot(), result.Listed());
        ok := PersistNext(uow, WriteOwnership(ir.user, ir.owned), at, result);
        OneWrite(env, t, WriteOwnership(ir.user, ir.owned), at);
      }
    }

    /** Persists every family present, in order, in one transaction; the first denial stops the pass. */
    method Materialize(uow: UnitOfWork, ir: Ir, at: int, result: MaterializationResult) returns (ok: bool)
      requires Deployed(env) && RowsOk(env, uow.Snapshot())
      modifies uow, result
      ensures uow.committed == old(uow.committed)
      ensures var spec := Materialized(env, Txn(old(uow.Snapshot()), old(result.Listed())), ir, at);
        && (ok <==> spec.Some?)
        && (ok ==> Txn(uow.Snapshot(), result.Listed()) == spec.value)
    {
      MaterializedInParts(env, Txn(uow.Snapshot(), result.Listed()), ir, at);
      ok := PersistEvent(uow, ir.event, true, at, result);
      if !ok { return; }
      var measurements := (if ir.measurement.Some? then [ir.measurement.value] else []) + ir.moreMeasurements;
      ok := PersistMeasurements(uow, measurements, ir.event.Some?, at, result);
      if !ok { return; }
      ok := PersistEvent(uow, ir.obligation, false, at, result);
      if !ok { return; }
      ok := PersistLater(uow, ir, at, result);
    }

    /** Marks the corrected fact, found by id or as the latest current amount, then records its successor. */
    method Correction(uow: UnitOfWork, c: FactCorrection, at: int) returns (ok: bool)
      requires FactLinksOk(uow.facts)
      modifies uow`facts
      ensures ok <==> DoFactCorrection(old(uow.facts), c, at).Some?
      ensures ok ==> uow.facts == DoFactCorrection(old(uow.facts), c, at).value
    {
      if c.eventId.None? && c.factId.None? { return false; }
      ghost var before := uow.facts;
      var previous: Option<Fact>;
      var about: Anchor;
      if c.factId.Some? {
        previous := uow.GetFact(c.user, c.factId.value);
        if previous.None? || !CurrentFact(previous.value) { return false; }
        about := previous.value.about;
      } else {
        previous := uow.LatestCurrent(c.user, c.eventId.value, AMOUNT_ID);
        about := Anchor(EventAnchor, c.eventId.value);
      }
      if previous.Some? {
        var marked := previous.value.(supersededAt := Some(at));
        uow.SaveFact(marked);
        MarkedOnce(before, marked);
      }
      ok := Facts(uow, c.user, about, c.facts, if previous.Some? then Some(previous.value.id) else None, at);
    }
  }

  /** A pass carried the transaction on by the given writes, keeping the rows fit for the next, or was denied. */
  ghost predicate Carried(env: Env, t: Txn, ws: Option<seq<Write>>, at: int, ok: bool, u: Txn) {
    && (ok <==> Via(env, Some(t), ws, at).Some?)
    && (ok ==> Some(u) == Via(env, Some(t), ws, at) && RowsOk(env, u.store))
  }

  /** The outcome of a pass that has already reported `added`. */
  function Resume(added: seq<Id>, rest: Option<RelationOutcome>): Option<RelationOutcome> {
    match rest
    case None => None
    case Some(o) => Some(RelationOutcome(o.rows, added + o.reported))
  }

  lemma ResumeOneMore(added: seq<Id>, id: Id, rest: Option<RelationOutcome>)
    ensures Resume(added + [id], rest) == Resume(added, Resume([id], rest))
  {
    if rest.Some? { assert added + ([id] + rest.value.reported) == added + [id] + rest.value.reported; }
  }

  // ---------------------------------------------------------------- why the passes meet the specification

  lemma SameStateIds(a: seq<State>, b: seq<State>, id: Id)
    requires |a| == |b| && forall k :: 0 <= k < |a| ==> b[k].id == a[k].id
    ensures HasState(a, id) <==> HasState(b, id)
  {
    if HasState(a, id) {
      var k :| 0 <= k < |a| && a[k].id == id;
      assert b[k] in b;
    }
    if HasState(b, id) {
      var k :| 0 <= k < |b| && b[k].id == id;
      assert a[k] in a;
    }
  }

  lemma SameAttributeIds(a: seq<Attribute>, b: seq<Attribute>, id: Id)
    requires |a| == |b| && forall k :: 0 <= k < |a| ==> b[k].id == a[k].id
    ensures HasAttribute(a, id) <==> HasAttribute(b, id)
  {
    if HasAttribute(a, id) {
      var k :| 0 <= k < |a| && a[k].id == id;
      assert b[k] in b;
    }
    if HasAttribute(b, id) {
      var k :| 0 <= k < |b| && b[k].id == id;
      assert a[k] in a;
    }
  }

  lemma {:induction false} EntityRows(before: seq<State>, rows: seq<State>, user: Id, entity: Id)
    requires multiset(rows) == multiset(Filter(StatesUnder(user, entity), before))
    ensures forall r :: r in rows <==> r in before && StatesUnder(user, entity)(r)
  {
    forall r ensures r in rows <==> r in before && StatesUnder(user, entity)(r) {
      PermutationMember(rows, Filter(StatesUnder(user, entity), before), r);
      FilterMember(StatesUnder(user, entity), before, r);
    }
  }

  lemma {:induction false} DimensionRows(before: seq<Attribute>, rows: seq<Attribute>, key: Key)
    requires multiset(rows) == multiset(Filter(AttributeOf(key), before))
    ensures forall r :: r in rows <==> r in before && AttributeOf(key)(r)
  {
    forall r ensures r in rows <==> r in before && AttributeOf(key)(r) {
      PermutationMember(rows, Filter(AttributeOf(key), before), r);
      FilterMember(AttributeOf(key), before, r);
    }
  }

  lemma StateClosed(
    before: seq<State>, done: seq<State>, now: seq<State>, next: seq<State>, row: State, met: Option<Id>, key: Key, at: int)
    requires V.DistinctIds(StateVersion(), before) && row in before && StatesUnder(key.user, key.entity)(row)
    requires V.Closing(LiveState(key), StateVersion(), CloseState(at), before, done, now, met)
    requires next == if LiveState(key)(row) then Saved(StateId(), now, CloseState(at)(row)) else now
    ensures V.Closing(LiveState(key), StateVersion(), CloseState(at), before, done + [row], next,
      if LiveState(key)(row) then Some(row.id) else met)
  {
    V.CloseOneMore(LiveState(key), StateVersion(), CloseState(at), before, done, now, next, row, met);
  }

  lemma StatesClosed(
    c: Catalog, before: seq<State>, rows: seq<State>, now: seq<State>, supersedes: Option<Id>, key: Key, at: int)
    requires StatesOk(c, before)
    requires forall r :: r in rows <==> r in before && StatesUnder(key.user, key.entity)(r)
    requires V.Closing(LiveState(key), StateVersion(), CloseState(at), before, rows, now, supersedes)
    ensures now == V.CloseAll(LiveState(key), CloseState(at), before)
    ensures supersedes == V.LastLive(LiveState(key), StateVersion(), before)
    ensures forall k :: 0 <= k < |before| ==> now[k].id == before[k].id
  {
    SupersessionWalk(c, before, key, |StateTrail(before, key)|);
    V.PassDone(LiveState(key), StateVersion(), CloseState(at), before, rows, now, supersedes);
  }

  lemma AttributeClosed(
    singleton: set<string>, before: seq<Attribute>, done: seq<Attribute>, now: seq<Attribute>, next: seq<Attribute>,
    row: Attribute, met: Option<Id>, key: Key, at: int)
    requires AttributesOk(singleton, before) && row in before && AttributeOf(key)(row)
    requires V.Closing(LiveAttribute(key), AttributeVersion(), CloseAttribute(at), before, done, now, met)
    requires next == if LiveAttribute(key)(row) then Saved(AttributeId(), now, CloseAttribute(at)(row)) else now
    ensures V.Closing(LiveAttribute(key), AttributeVersion(), CloseAttribute(at), before, done + [row], next,
      if LiveAttribute(key)(row) then Some(row.id) else met)
  {
    V.CloseOneMore(LiveAttribute(key), AttributeVersion(), CloseAttribute(at), before, done, now, next, row, met);
  }

  lemma AttributesClosed(
    env: Env, before: seq<Attribute>, rows: seq<Attribute>, now: seq<Attribute>, supersedes: Option<Id>, key: Key, at: int)
    requires AttributesOk(env.singleton, before) && key.dimension in env.singleton
    requires forall r :: r in rows <==> r in before && AttributeOf(key)(r)
    requires V.Closing(LiveAttribute(key), AttributeVersion(), CloseAttribute(at), before, rows, now, supersedes)
    ensures now == V.CloseAll(LiveAttribute(key), CloseAttribute(at), before)
    ensures supersedes == V.LastLive(LiveAttribute(key), AttributeVersion(), before)
    ensures forall k :: 0 <= k < |before| ==> now[k].id == before[k].id
  {
    SingletonWalk(env, before, key, |AttributeTrail(before, key)|);
    V.PassDone(LiveAttribute(key), AttributeVersion(), CloseAttribute(at), before, rows, now, supersedes);
  }

  /** Saving a row whose id occurs once rewrites that row alone. */
  lemma SavedOnce(rows: seq<Relation>, row: Relation)
    requires DistinctRelations(rows)
    ensures forall i :: 0 <= i < |rows| && rows[i].id == row.id ==> Saved(RelationId(), rows, row) == rows[i := row]
  {
  }

  lemma MarkedOnce(rows: seq<Fact>, row: Fact)
    requires FactLinksOk(rows)
    ensures forall i :: 0 <= i < |rows| && rows[i].id == row.id ==> Saved(FactId(), rows, row) == rows[i := row]
  {
  }
}
