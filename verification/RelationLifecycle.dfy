/** What relation writes keep: one current row per stored link, canonical endpoints, keys that match concepts. */
module RelationLifecycle {
  import opened Prelude
  import opened Domain
  import opened Store
  import Lex
  import R = RelationMetadata

  ghost predicate DistinctRelations(rows: seq<Relation>) {
    forall i, j :: 0 <= i < j < |rows| ==> rows[i].id != rows[j].id
  }

  /** No link has two current rows. */
  ghost predicate OneCurrent(rows: seq<Relation>) {
    forall i, j :: 0 <= i < j < |rows| && rows[i].isCurrent && rows[j].isCurrent ==> LinkOf(rows[i]) != LinkOf(rows[j])
  }

  /** The stored key names the stored concept, and order-insensitive endpoints are sorted. */
  ghost predicate RelationRowOk(env: Env, r: Relation) {
    && RelationConcept(env.catalog, r.key).Some?
    && r.conceptId == RelationConcept(env.catalog, r.key).value.id
    && !(R.OrderInsensitive(env.relations, r.key) && Lex.Less(r.toId, r.fromId))
  }

  ghost predicate RelationsOk(env: Env, rows: seq<Relation>) {
    && DistinctRelations(rows)
    && OneCurrent(rows)
    && (forall i :: 0 <= i < |rows| ==> RelationRowOk(env, rows[i]))
  }

  lemma {:induction false} FindInstanceComplete(rows: seq<Relation>, link: Link, currentOnly: bool)
    ensures FindInstance(rows, link, currentOnly).None? ==>
      forall i :: 0 <= i < |rows| ==> !(LinkOf(rows[i]) == link && (currentOnly ==> rows[i].isCurrent))
    ensures var found := FindInstance(rows, link, currentOnly);
      found.Some? ==> forall i :: 0 <= i < |rows| && LinkOf(rows[i]) == link && (currentOnly ==> rows[i].isCurrent) ==>
        rows[i].observedAt <= rows[found.value].observedAt
  {
    if rows != [] { FindInstanceComplete(rows[..|rows| - 1], link, currentOnly); }
  }

  /** Ownership is a stored, directed relation type under its fixed id. */
  ghost predicate OwnsOk(env: Env) {
    && RelationConcept(env.catalog, OWNS_KEY).Some?
    && RelationConcept(env.catalog, OWNS_KEY).value.id == OWNS_ID
    && !R.OrderInsensitive(env.relations, OWNS_KEY)
  }

  lemma RewriteKeeps(env: Env, rows: seq<Relation>, i: nat, r: Relation)
    requires RelationsOk(env, rows) && i < |rows|
    requires r.id == rows[i].id && LinkOf(r) == LinkOf(rows[i]) && r.key == rows[i].key
    requires r.isCurrent ==> rows[i].isCurrent
    ensures RelationsOk(env, rows[i := r])
  {
  }

  lemma AppendKeeps(env: Env, rows: seq<Relation>, r: Relation)
    requires RelationsOk(env, rows) && !HasRelation(rows, r.id) && RelationRowOk(env, r)
    requires r.isCurrent ==> FindInstance(rows, LinkOf(r), true).None?
    ensures RelationsOk(env, rows + [r])
  {
    FindInstanceComplete(rows, LinkOf(r), true);
    forall i | 0 <= i < |rows| ensures rows[i].id != r.id { assert rows[i] in rows; }
  }

  lemma {:induction false} DoRelationKeeps(env: Env, rows: seq<Relation>, w: RelationWrite, at: int)
    requires CatalogOk(env.catalog) && RelationsOk(env, rows)
    requires DoRelation(env, rows, w, at).Some?
    ensures RelationsOk(env, DoRelation(env, rows, w, at).value.rows)
  {
    var link := LinkFor(env, w.user, w.key, w.subject.value, w.object_.value).value;
    var t := RelationTime(w).value;
    var current := FindInstance(rows, link, true);
    if w.mode == Terminate {
      var found := if current.Some? then current else FindInstance(rows, link, false);
      if found.Some? { RewriteKeeps(env, rows, found.value, Terminated(rows[found.value], t, at)); }
    } else if current.Some? && w.mode == DenyCurrent {
      RewriteKeeps(env, rows, current.value, rows[current.value].(isCurrent := false));
    } else if current.Some? && AssertsCurrent(w.mode, t) {
      RewriteKeeps(env, rows, current.value, rows[current.value].(observedAt := at));
    } else if w.mode != DenyCurrent {
      var key := R.StoredQuery(env.relations, w.key).0;
      var isCurrent := AssertsCurrent(w.mode, t);
      var row := Relation(w.id, w.user, link.fromId, link.toId, link.conceptId, key, t, at, isCurrent, None);
      CanonicalOrder(env.relations, w.subject.value, w.object_.value, w.key);
      AppendKeeps(env, rows, row);
    }
  }

  lemma CanonicalOrder(t: R.Table, subject: Id, object_: Id, key: string)
    ensures var c := R.Canonicalize(t, subject, object_, key);
      !(R.OrderInsensitive(t, c.key) && Lex.Less(c.toId, c.fromId))
  {
    var (s, o) := R.Oriented(t, subject, object_, key);
    if Lex.Less(o, s) { Lex.Asymmetric(o, s); }
  }

  lemma {:induction false} DoOwnershipKeeps(
    env: Env, rows: seq<Relation>, user: Id, principal: Id, targets: seq<OwnedTarget>, seen: set<Id>, at: int)
    requires OwnsOk(env) && RelationsOk(env, rows)
    requires DoOwnership(rows, user, principal, targets, seen, at).Some?
    ensures RelationsOk(env, DoOwnership(rows, user, principal, targets, seen, at).value.rows)
    decreases |targets|
  {
    if targets != [] {
      var t, rest := targets[0], targets[1..];
      if t.object_.None? || t.object_.value in seen || t.object_.value == principal || !t.known || !t.eligible {
        DoOwnershipKeeps(env, rows, user, principal, rest, seen, at);
      } else if FindInstance(rows, OwnsLink(user, principal, t.object_.value), true).Some? {
        DoOwnershipKeeps(env, rows, user, principal, rest, seen + {t.object_.value}, at);
      } else {
        var row := Relation(t.id, user, principal, t.object_.value, OWNS_ID, OWNS_KEY, NO_TIME, at, true, None);
        AppendKeeps(env, rows, row);
        DoOwnershipKeeps(env, rows + [row], user, principal, rest, seen + {t.object_.value}, at);
      }
    }
  }

  // ---------------------------------------------------------------- which row a write is about

  /** The row links the two as told: in stored direction, exchanged for an inverse key, in any without a direction. */
  ghost predicate LinksAsTold(env: Env, w: RelationWrite, r: Relation)
    requires w.subject.Some? && w.object_.Some?
  {
    && r.user == w.user && r.key == R.StoredQuery(env.relations, w.key).0
    && var (a, b) := if R.StoredQuery(env.relations, w.key).1 then (w.object_.value, w.subject.value)
                     else (w.subject.value, w.object_.value);
    || (r.fromId == a && r.toId == b)
    || (R.NoDirection(env.relations, r.key) && r.fromId == b && r.toId == a)
  }

  lemma {:induction false} LinkIsAsTold(env: Env, w: RelationWrite, r: Relation)
    requires CatalogOk(env.catalog) && w.subject.Some? && w.object_.Some? && RelationRowOk(env, r)
    requires LinkFor(env, w.user, w.key, w.subject.value, w.object_.value).Some?
    ensures LinkOf(r) == LinkFor(env, w.user, w.key, w.subject.value, w.object_.value).value <==> LinksAsTold(env, w, r)
  {
    var stored := R.StoredQuery(env.relations, w.key).0;
    R.CanonicalExactly(env.relations, w.subject.value, w.object_.value, w.key);
    R.OrderInsensitiveExactly(env.relations, stored);
    R.OrderInsensitiveExactly(env.relations, r.key);
    var link := LinkFor(env, w.user, w.key, w.subject.value, w.object_.value).value;
    if r.conceptId == link.conceptId { assert r.key == stored; }
    Lex.Irreflexive(r.fromId);
    Lex.Total(w.subject.value, w.object_.value);
    if Lex.Less(w.subject.value, w.object_.value) { Lex.Asymmetric(w.subject.value, w.object_.value); }
    if Lex.Less(w.object_.value, w.subject.value) { Lex.Asymmetric(w.object_.value, w.subject.value); }
  }

  // ---------------------------------------------------------------- the shape of a write

  /** Relation rows keep their position, id, link and key; new ones come after. */
  ghost predicate RowsStay(rows: seq<Relation>, after: seq<Relation>) {
    && |rows| <= |after|
    && forall i :: 0 <= i < |rows| ==>
         after[i].id == rows[i].id && LinkOf(after[i]) == LinkOf(rows[i]) && after[i].key == rows[i].key
  }

  /** The stored row a relation write goes over; None when the write adds a row or does nothing. */
  function Rewritten(rows: seq<Relation>, link: Link, mode: Mode, t: Temporal): (r: Option<nat>)
    ensures r.Some? ==> r.value < |rows| && LinkOf(rows[r.value]) == link
  {
    var current := FindInstance(rows, link, true);
    match mode
    case Terminate => if current.Some? then current else FindInstance(rows, link, false)
    case DenyCurrent => current
    case Assert => if AssertsCurrent(mode, t) then current else None
    case Historical => None
  }

  /** A relation write goes over one row of its link, or adds one, or does nothing. */
  lemma {:induction false} WriteShape(env: Env, rows: seq<Relation>, w: RelationWrite, at: int)
    requires DoRelation(env, rows, w, at).Some?
    ensures var o := DoRelation(env, rows, w, at).value;
      var link := LinkFor(env, w.user, w.key, w.subject.value, w.object_.value).value;
      && RowsStay(rows, o.rows)
      && match Rewritten(rows, link, w.mode, RelationTime(w).value)
         case Some(i) =>
           && o.reported == [rows[i].id]
           && |o.rows| == |rows| && o.rows == rows[i := o.rows[i]]
         case None =>
           if w.mode == Assert || w.mode == Historical then
             && o.reported == [w.id] && !HasRelation(rows, w.id)
             && |o.rows| == |rows| + 1 && o.rows == rows + [o.rows[|rows|]]
             && o.rows[|rows|].id == w.id && LinkOf(o.rows[|rows|]) == link
           else o.reported == [] && o.rows == rows
  {
  }

  // ---------------------------------------------------------------- what a write decides about its link

  /** Whether the link has a current row. */
  predicate HoldsCurrently(rows: seq<Relation>, link: Link) {
    exists r :: r in rows && r.isCurrent && LinkOf(r) == link
  }

  /**
   * After a current assertion the link is held, after a termination or a denial it is not, a historical
   * assertion leaves it as it was, and no write changes whether any other link is held.
   */
  lemma {:induction false} WriteDecidesItsLink(env: Env, rows: seq<Relation>, w: RelationWrite, at: int, other: Link)
    requires RelationsOk(env, rows)
    requires DoRelation(env, rows, w, at).Some?
    ensures var link := LinkFor(env, w.user, w.key, w.subject.value, w.object_.value).value;
      var after := DoRelation(env, rows, w, at).value.rows;
      HoldsCurrently(after, other) ==
        if other != link then HoldsCurrently(rows, other)
        else if w.mode == Terminate || w.mode == DenyCurrent then false
        else if AssertsCurrent(w.mode, RelationTime(w).value) then true
        else HoldsCurrently(rows, link)
  {
    var link := LinkFor(env, w.user, w.key, w.subject.value, w.object_.value).value;
    var t := RelationTime(w).value;
    var current := FindInstance(rows, link, true);
    HeldIffFound(rows, link);
    if w.mode == Terminate {
      var found := if current.Some? then current else FindInstance(rows, link, false);
      if found.Some? { RewriteDecides(rows, found.value, Terminated(rows[found.value], t, at), other); }
      FindInstanceComplete(rows, link, false);
    } else if w.mode == DenyCurrent {
      if current.Some? { RewriteDecides(rows, current.value, rows[current.value].(isCurrent := false), other); }
    } else if current.Some? && AssertsCurrent(w.mode, t) {
      RewriteDecides(rows, current.value, rows[current.value].(observedAt := at), other);
    } else {
      var key := R.StoredQuery(env.relations, w.key).0;
      var isCurrent := AssertsCurrent(w.mode, t);
      AppendDecides(rows,
        Relation(w.id, w.user, link.fromId, link.toId, link.conceptId, key, t, at, isCurrent, None), other);
    }
  }

  /** Terminating a stored link leaves evidence of when on a row of that link, which is no longer current. */
  lemma {:induction false} TerminationIsRecorded(env: Env, rows: seq<Relation>, w: RelationWrite, at: int)
    requires DoRelation(env, rows, w, at).Some? && w.mode == Terminate
    requires var link := LinkFor(env, w.user, w.key, w.subject.value, w.object_.value).value;
      exists r :: r in rows && LinkOf(r) == link
    ensures var link := LinkFor(env, w.user, w.key, w.subject.value, w.object_.value).value;
      var after := DoRelation(env, rows, w, at).value.rows;
      exists r :: r in after && LinkOf(r) == link && !r.isCurrent
                  && r.termination == Some(Termination(RelationTime(w).value, at))
  {
    var link := LinkFor(env, w.user, w.key, w.subject.value, w.object_.value).value;
    var current := FindInstance(rows, link, true);
    var found := if current.Some? then current else FindInstance(rows, link, false);
    FindInstanceComplete(rows, link, false);
    var r :| r in rows && LinkOf(r) == link;
    var i :| 0 <= i < |rows| && rows[i] == r;
    var after := DoRelation(env, rows, w, at).value.rows;
    assert after[found.value] in after;
  }

  lemma HeldIffFound(rows: seq<Relation>, link: Link)
    ensures HoldsCurrently(rows, link) <==> FindInstance(rows, link, true).Some?
    ensures FindInstance(rows, link, false).None? ==> !HoldsCurrently(rows, link)
  {
    FindInstanceComplete(rows, link, true);
    FindInstanceComplete(rows, link, false);
    var found := FindInstance(rows, link, true);
    if found.Some? { assert rows[found.value] in rows; }
  }

  /** Rewriting the current row of a link, or any row of a link that has none, decides that link alone. */
  lemma RewriteDecides(rows: seq<Relation>, i: nat, r: Relation, other: Link)
    requires i < |rows| && OneCurrent(rows) && LinkOf(r) == LinkOf(rows[i])
    requires rows[i].isCurrent || !HoldsCurrently(rows, LinkOf(r))
    ensures HoldsCurrently(rows[i := r], other) == if other == LinkOf(r) then r.isCurrent else HoldsCurrently(rows, other)
  {
    var after := rows[i := r];
    assert after[i] in after;
    if other == LinkOf(r) {
      forall k | 0 <= k < |after| && k != i ensures !(after[k].isCurrent && LinkOf(after[k]) == other) {
        assert after[k] == rows[k] && rows[k] in rows;
      }
    } else {
      forall k | 0 <= k < |after| && LinkOf(after[k]) == other ensures after[k] in rows && rows[k] in after {
        assert after[k] == rows[k];
      }
      if HoldsCurrently(rows, other) {
        var x :| x in rows && x.isCurrent && LinkOf(x) == other;
        var k :| 0 <= k < |rows| && rows[k] == x;
        assert after[k] == x;
      }
    }
  }

  lemma AppendDecides(rows: seq<Relation>, r: Relation, other: Link)
    ensures HoldsCurrently(rows + [r], other) <==> HoldsCurrently(rows, other) || (r.isCurrent && LinkOf(r) == other)
  {
    forall x ensures x in rows + [r] <==> x in rows || x == r {}
  }
}
