/** What relation claims and ownership links leave in the table, by the fields of the claim and of the rows. */
module RelationClaims {
  import opened Prelude
  import opened Domain
  import opened Store
  import opened RelationLifecycle
  import Lex
  import R = RelationMetadata

  // ---------------------------------------------------------------- one relation claim

  /** The time the claim is recorded with: its own when it can be kept, else the fallback, unless one is required. */
  ghost predicate TimeTold(w: RelationWrite, t: Temporal) {
    if w.temporal.Some? && w.persistable then t == w.temporal.value else !w.required && t == w.fallback
  }

  /** Said to hold at a time that is not over and not still to come. */
  ghost predicate OfNow(w: RelationWrite, t: Temporal) {
    w.mode == Assert && t.occurrence !in {Some(Happened), Some(Planned)}
  }

  ghost predicate Names(w: RelationWrite) {
    w.subject.Some? && w.object_.Some?
  }

  /** Row `i` links the two, and is current if that is asked. */
  ghost predicate Fitting(env: Env, rows: seq<Relation>, w: RelationWrite, currentOnly: bool, i: int)
    requires Names(w)
  {
    0 <= i < |rows| && LinksAsTold(env, w, rows[i]) && (currentOnly ==> rows[i].isCurrent)
  }

  ghost predicate AnyFitting(env: Env, rows: seq<Relation>, w: RelationWrite, currentOnly: bool)
    requires Names(w)
  {
    exists i :: Fitting(env, rows, w, currentOnly, i)
  }

  /** Row `i` fits, none that fits was observed later, and none as late stands before it. */
  ghost predicate Chosen(env: Env, rows: seq<Relation>, w: RelationWrite, currentOnly: bool, i: int)
    requires Names(w)
  {
    && Fitting(env, rows, w, currentOnly, i)
    && forall j :: Fitting(env, rows, w, currentOnly, j) ==>
         rows[j].observedAt <= rows[i].observedAt && (j < i ==> rows[j].observedAt < rows[i].observedAt)
  }

  ghost predicate RowAdded(env: Env, w: RelationWrite, t: Temporal, at: int, r: Relation)
    requires Names(w)
  {
    && r.id == w.id && LinksAsTold(env, w, r) && r.temporal == t && r.observedAt == at
    && r.isCurrent == OfNow(w, t) && r.termination.None?
    && r.key in env.catalog.byKey && r.conceptId == env.catalog.byKey[r.key].id
    && (R.NoDirection(env.relations, r.key) ==> r.fromId == r.toId || Lex.Less(r.fromId, r.toId))
  }

  /** Row `i` is written over by `row` and reported; everything else stays. */
  ghost predicate Rewrites(rows: seq<Relation>, i: int, row: Relation, after: seq<Relation>, reported: seq<Id>) {
    0 <= i < |rows| && after == rows[i := row] && reported == [rows[i].id]
  }

  /** The current row, or else any row, is ended with its time; with no row at all nothing happens. */
  ghost predicate Ends(env: Env, rows: seq<Relation>, w: RelationWrite, t: Temporal, at: int, after: seq<Relation>, reported: seq<Id>)
    requires Names(w)
  {
    if AnyFitting(env, rows, w, false) then
      exists i :: Chosen(env, rows, w, AnyFitting(env, rows, w, true), i)
        && Rewrites(rows, i, rows[i].(termination := Some(Termination(t, at)), isCurrent := false), after, reported)
    else after == rows && reported == []
  }

  /** The current row is no longer current; with none nothing happens. */
  ghost predicate Denies(env: Env, rows: seq<Relation>, w: RelationWrite, after: seq<Relation>, reported: seq<Id>)
    requires Names(w)
  {
    if AnyFitting(env, rows, w, true) then
      exists i :: Chosen(env, rows, w, true, i) && Rewrites(rows, i, rows[i].(isCurrent := false), after, reported)
    else after == rows && reported == []
  }

  /** A claim of now refreshes the current row; otherwise a new row is added. */
  ghost predicate Claims(env: Env, rows: seq<Relation>, w: RelationWrite, t: Temporal, at: int, after: seq<Relation>, reported: seq<Id>)
    requires Names(w)
  {
    if OfNow(w, t) && AnyFitting(env, rows, w, true) then
      exists i :: Chosen(env, rows, w, true, i) && Rewrites(rows, i, rows[i].(observedAt := at), after, reported)
    else |after| == |rows| + 1 && after[..|rows|] == rows && RowAdded(env, w, t, at, after[|rows|]) && reported == [w.id]
  }

  /** One relation claim, decided by its mode and by the rows that link the two already. */
  ghost predicate RelationTold(env: Env, rows: seq<Relation>, w: RelationWrite, at: int, after: seq<Relation>, reported: seq<Id>) {
    && Names(w) && NamesRelation(env.catalog, R.StoredQuery(env.relations, w.key).0)
    && exists t :: TimeTold(w, t) && Does(env, rows, w, t, at, after, reported)
  }

  ghost predicate Does(env: Env, rows: seq<Relation>, w: RelationWrite, t: Temporal, at: int, after: seq<Relation>, reported: seq<Id>)
    requires Names(w)
  {
    match w.mode
    case Terminate => Ends(env, rows, w, t, at, after, reported)
    case DenyCurrent => Denies(env, rows, w, after, reported)
    case _ => Claims(env, rows, w, t, at, after, reported)
  }

  // ---------------------------------------------------------------- why a write does that

  lemma {:induction false} FindInstanceFirst(rows: seq<Relation>, link: Link, currentOnly: bool)
    ensures var found := FindInstance(rows, link, currentOnly);
      found.Some? ==> forall j :: 0 <= j < found.value && LinkOf(rows[j]) == link && (currentOnly ==> rows[j].isCurrent) ==>
        rows[j].observedAt < rows[found.value].observedAt
  {
    if rows != [] {
      FindInstanceFirst(rows[..|rows| - 1], link, currentOnly);
      FindInstanceComplete(rows[..|rows| - 1], link, currentOnly);
    }
  }

  /** The row the lookup finds is the one chosen. */
  lemma {:induction false} FoundIsChosen(env: Env, rows: seq<Relation>, w: RelationWrite, currentOnly: bool)
    requires CatalogOk(env.catalog) && RelationsOk(env, rows) && Names(w)
    requires LinkFor(env, w.user, w.key, w.subject.value, w.object_.value).Some?
    ensures var found := FindInstance(rows, LinkFor(env, w.user, w.key, w.subject.value, w.object_.value).value, currentOnly);
      && (found.Some? <==> AnyFitting(env, rows, w, currentOnly))
      && (found.Some? ==> Chosen(env, rows, w, currentOnly, found.value))
  {
    var link := LinkFor(env, w.user, w.key, w.subject.value, w.object_.value).value;
    var found := FindInstance(rows, link, currentOnly);
    FindInstanceComplete(rows, link, currentOnly);
    FindInstanceFirst(rows, link, currentOnly);
    forall i | 0 <= i < |rows| ensures LinkOf(rows[i]) == link <==> LinksAsTold(env, w, rows[i]) {
      assert RelationRowOk(env, rows[i]);
      LinkIsAsTold(env, w, rows[i]);
    }
    if found.Some? { assert Fitting(env, rows, w, currentOnly, found.value); }
  }

  lemma TimeIsTold(w: RelationWrite, t: Temporal)
    ensures RelationTime(w) == Some(t) <==> TimeTold(w, t)
  {
  }

  lemma {:induction false} NewRowIsTold(env: Env, w: RelationWrite, t: Temporal, at: int)
    requires CatalogOk(env.catalog) && Names(w)
    requires LinkFor(env, w.user, w.key, w.subject.value, w.object_.value).Some?
    ensures var link := LinkFor(env, w.user, w.key, w.subject.value, w.object_.value).value;
      RowAdded(env, w, t, at, Relation(w.id, w.user, link.fromId, link.toId, link.conceptId,
        R.StoredQuery(env.relations, w.key).0, t, at, AssertsCurrent(w.mode, t), None))
  {
    R.CanonicalExactly(env.relations, w.subject.value, w.object_.value, w.key);
  }

  /** An accepted relation write does to the table what its claim says. */
  lemma {:induction false} RelationWritten(env: Env, rows: seq<Relation>, w: RelationWrite, at: int)
    requires CatalogOk(env.catalog) && RelationsOk(env, rows) && DoRelation(env, rows, w, at).Some?
    ensures RelationTold(env, rows, w, at, DoRelation(env, rows, w, at).value.rows, DoRelation(env, rows, w, at).value.reported)
  {
    var t := RelationTime(w).value;
    var o := DoRelation(env, rows, w, at).value;
    TimeIsTold(w, t);
    FoundIsChosen(env, rows, w, true);
    FoundIsChosen(env, rows, w, false);
    NewRowIsTold(env, w, t, at);
    CurrentFits(env, rows, w);
    assert Does(env, rows, w, t, at, o.rows, o.reported);
  }

  lemma CurrentFits(env: Env, rows: seq<Relation>, w: RelationWrite)
    requires Names(w)
    ensures AnyFitting(env, rows, w, true) ==> AnyFitting(env, rows, w, false)
  {
    if i :| Fitting(env, rows, w, true, i) { assert Fitting(env, rows, w, false, i); }
  }

  // ---------------------------------------------------------------- relation claims in turn

  /** Each claim in turn does what it says to the table the one before it left. */
  ghost predicate RelationsTold(
    env: Env, rows: seq<Relation>, ws: seq<RelationWrite>, at: int, after: seq<Relation>, reported: seq<Id>)
    decreases |ws|, 1
  {
    if ws == [] then after == rows && reported == []
    else exists mid, n: nat :: InTurn(env, rows, ws, at, mid, n, after, reported)
  }

  /** The first claim leaves `mid` and reports the first `n` ids; the others go on from there. */
  ghost predicate InTurn(
    env: Env, rows: seq<Relation>, ws: seq<RelationWrite>, at: int, mid: seq<Relation>, n: nat, after: seq<Relation>,
    reported: seq<Id>)
    requires ws != []
    decreases |ws|, 0
  {
    && n <= |reported| && RelationTold(env, rows, ws[0], at, mid, reported[..n])
    && RelationsTold(env, mid, ws[1..], at, after, reported[n..])
  }

  lemma {:induction false} RelationsJoin(
    env: Env, rows: seq<Relation>, mid: seq<Relation>, after: seq<Relation>, w: RelationWrite, rest: seq<RelationWrite>,
    at: int, first: seq<Id>, others: seq<Id>)
    requires RelationTold(env, rows, w, at, mid, first) && RelationsTold(env, mid, rest, at, after, others)
    ensures RelationsTold(env, rows, [w] + rest, at, after, first + others)
  {
    var reported := first + others;
    assert reported[..|first|] == first && reported[|first|..] == others;
    assert ([w] + rest)[1..] == rest;
    assert InTurn(env, rows, [w] + rest, at, mid, |first|, after, reported);
  }

  // ---------------------------------------------------------------- ownership

  /** The object may be linked: known, possessed, and not the principal. */
  ghost predicate MayOwn(principal: Id, t: OwnedTarget) {
    t.object_.Some? && t.object_.value != principal && t.known && t.eligible
  }

  ghost predicate Owns(user: Id, principal: Id, object_: Id, r: Relation) {
    r.user == user && r.fromId == principal && r.toId == object_ && r.conceptId == "core:relation.owns"
  }

  ghost predicate Owned(rows: seq<Relation>, user: Id, principal: Id, object_: Id) {
    exists i :: 0 <= i < |rows| && rows[i].isCurrent && Owns(user, principal, object_, rows[i])
  }

  /** The target is the first listed for its object, which may be linked, was not seen, and has no current link. */
  ghost predicate NeedsLink(rows: seq<Relation>, user: Id, principal: Id, targets: seq<OwnedTarget>, seen: set<Id>, i: int) {
    && 0 <= i < |targets| && MayOwn(principal, targets[i])
    && targets[i].object_.value !in seen && !Owned(rows, user, principal, targets[i].object_.value)
    && forall j :: 0 <= j < i && MayOwn(principal, targets[j]) ==> targets[j].object_ != targets[i].object_
  }

  ghost predicate OwnershipRow(user: Id, principal: Id, t: OwnedTarget, at: int, r: Relation) {
    && r.id == t.id && t.object_.Some? && Owns(user, principal, t.object_.value, r) && r.key == "relation.owns"
    && r.isCurrent && r.observedAt == at && r.termination.None? && r.temporal == NO_TIME
  }

  /** The positions of exactly the targets that need a link, in order. */
  ghost predicate PicksThose(
    rows: seq<Relation>, user: Id, principal: Id, targets: seq<OwnedTarget>, seen: set<Id>, picked: seq<int>)
  {
    && (forall a, b :: 0 <= a < b < |picked| ==> picked[a] < picked[b])
    && (forall i :: i in picked <==> NeedsLink(rows, user, principal, targets, seen, i))
  }

  /** One current ownership row for each of them, reported in order; nothing else changes. */
  ghost predicate LinksPicked(
    rows: seq<Relation>, user: Id, principal: Id, targets: seq<OwnedTarget>, picked: seq<int>, at: int,
    after: seq<Relation>, reported: seq<Id>)
  {
    && |after| == |rows| + |picked| && after[..|rows|] == rows && |reported| == |picked|
    && forall k :: 0 <= k < |picked| ==>
         && 0 <= picked[k] < |targets| && reported[k] == targets[picked[k]].id
         && OwnershipRow(user, principal, targets[picked[k]], at, after[|rows| + k])
  }

  ghost predicate OwnershipTold(
    rows: seq<Relation>, user: Id, principal: Id, targets: seq<OwnedTarget>, seen: set<Id>, at: int,
    after: seq<Relation>, reported: seq<Id>)
  {
    exists picked :: PicksThose(rows, user, principal, targets, seen, picked)
      && LinksPicked(rows, user, principal, targets, picked, at, after, reported)
  }

  lemma OwnedIsFound(rows: seq<Relation>, user: Id, principal: Id, object_: Id)
    ensures FindInstance(rows, OwnsLink(user, principal, object_), true).Some? <==> Owned(rows, user, principal, object_)
  {
    FindInstanceComplete(rows, OwnsLink(user, principal, object_), true);
  }

  function Later(picked: seq<int>): (r: seq<int>)
    ensures |r| == |picked|
    ensures forall k :: 0 <= k < |picked| ==> r[k] == picked[k] + 1
  {
    seq(|picked|, k requires 0 <= k < |picked| => picked[k] + 1)
  }

  lemma InLater(picked: seq<int>, i: int)
    ensures i in Later(picked) <==> i - 1 in picked
  {
    if i - 1 in picked {
      var k :| 0 <= k < |picked| && picked[k] == i - 1;
      assert Later(picked)[k] == i;
    }
  }

  /** The first target needs no link: the picks are those among the rest. */
  lemma PicksSkip(
    rows: seq<Relation>, user: Id, principal: Id, targets: seq<OwnedTarget>, seen: set<Id>, more: set<Id>, picked: seq<int>)
    requires targets != [] && !NeedsLink(rows, user, principal, targets, seen, 0)
    requires PicksThose(rows, user, principal, targets[1..], more, picked)
    requires seen <= more && forall o :: o in more && o !in seen ==> Owned(rows, user, principal, o)
    ensures PicksThose(rows, user, principal, targets, seen, Later(picked))
  {
    forall i ensures i in Later(picked) <==> NeedsLink(rows, user, principal, targets, seen, i) {
      InLater(picked, i);
      if i >= 1 { SameNeed(rows, user, principal, targets, seen, more, i); }
    }
  }

  lemma SameNeed(
    rows: seq<Relation>, user: Id, principal: Id, targets: seq<OwnedTarget>, seen: set<Id>, more: set<Id>, i: int)
    requires targets != [] && !NeedsLink(rows, user, principal, targets, seen, 0) && 1 <= i
    requires seen <= more && forall o :: o in more && o !in seen ==> Owned(rows, user, principal, o)
    ensures NeedsLink(rows, user, principal, targets, seen, i) <==> NeedsLink(rows, user, principal, targets[1..], more, i - 1)
  {
    if i < |targets| {
      assert targets[i] == targets[1..][i - 1];
      if NeedsLink(rows, user, principal, targets[1..], more, i - 1) {
        forall j | 0 <= j < i && MayOwn(principal, targets[j]) ensures targets[j].object_ != targets[i].object_ {
          if j > 0 { assert targets[j] == targets[1..][j - 1]; }
        }
      }
      if NeedsLink(rows, user, principal, targets, seen, i) {
        forall j | 0 <= j < i - 1 && MayOwn(principal, targets[1..][j]) ensures targets[1..][j].object_ != targets[i].object_ {
          assert targets[1..][j] == targets[j + 1];
        }
      }
    }
  }

  /** The first target gets its link: the picks are it and those the rest still need. */
  lemma PicksFirst(
    rows: seq<Relation>, user: Id, principal: Id, targets: seq<OwnedTarget>, seen: set<Id>, row: Relation, picked: seq<int>)
    requires targets != [] && NeedsLink(rows, user, principal, targets, seen, 0)
    requires row.isCurrent && Owns(user, principal, targets[0].object_.value, row)
    requires PicksThose(rows + [row], user, principal, targets[1..], seen + {targets[0].object_.value}, picked)
    ensures PicksThose(rows, user, principal, targets, seen, [0] + Later(picked))
  {
    forall i ensures i in [0] + Later(picked) <==> NeedsLink(rows, user, principal, targets, seen, i) {
      InLater(picked, i);
      if i >= 1 { NeedAfter(rows, user, principal, targets, seen, row, i); }
    }
    forall k | 0 <= k < |picked| ensures picked[k] >= 0 { assert picked[k] in picked; }
  }

  lemma NeedAfter(
    rows: seq<Relation>, user: Id, principal: Id, targets: seq<OwnedTarget>, seen: set<Id>, row: Relation, i: int)
    requires targets != [] && NeedsLink(rows, user, principal, targets, seen, 0) && 1 <= i
    requires row.isCurrent && Owns(user, principal, targets[0].object_.value, row)
    ensures NeedsLink(rows, user, principal, targets, seen, i)
      <==> NeedsLink(rows + [row], user, principal, targets[1..], seen + {targets[0].object_.value}, i - 1)
  {
    if i < |targets| {
      var o := targets[0].object_.value;
      assert targets[i] == targets[1..][i - 1];
      if targets[i].object_.Some? && targets[i].object_.value != o { OwnedOther(rows, user, principal, targets[i].object_.value, row); }
      if NeedsLink(rows + [row], user, principal, targets[1..], seen + {o}, i - 1) {
        forall j | 0 <= j < i && MayOwn(principal, targets[j]) ensures targets[j].object_ != targets[i].object_ {
          if j > 0 { assert targets[j] == targets[1..][j - 1]; }
        }
      }
      if NeedsLink(rows, user, principal, targets, seen, i) {
        forall j | 0 <= j < i - 1 && MayOwn(principal, targets[1..][j]) ensures targets[1..][j].object_ != targets[i].object_ {
          assert targets[1..][j] == targets[j + 1];
        }
      }
    }
  }

  lemma OwnedOther(rows: seq<Relation>, user: Id, principal: Id, object_: Id, row: Relation)
    requires row.toId != object_
    ensures Owned(rows + [row], user, principal, object_) <==> Owned(rows, user, principal, object_)
  {
    if i :| 0 <= i < |rows| && rows[i].isCurrent && Owns(user, principal, object_, rows[i]) {
      assert (rows + [row])[i] == rows[i];
    }
    if i :| 0 <= i < |rows + [row]| && (rows + [row])[i].isCurrent && Owns(user, principal, object_, (rows + [row])[i]) {
      assert (rows + [row])[i] == rows[i];
    }
  }

  lemma LinksSkip(
    rows: seq<Relation>, user: Id, principal: Id, targets: seq<OwnedTarget>, picked: seq<int>, at: int,
    after: seq<Relation>, reported: seq<Id>)
    requires targets != [] && LinksPicked(rows, user, principal, targets[1..], picked, at, after, reported)
    ensures LinksPicked(rows, user, principal, targets, Later(picked), at, after, reported)
  {
  }

  lemma LinksFirst(
    rows: seq<Relation>, user: Id, principal: Id, targets: seq<OwnedTarget>, row: Relation, picked: seq<int>, at: int,
    after: seq<Relation>, reported: seq<Id>)
    requires targets != [] && OwnershipRow(user, principal, targets[0], at, row)
    requires LinksPicked(rows + [row], user, principal, targets[1..], picked, at, after, reported)
    ensures LinksPicked(rows, user, principal, targets, [0] + Later(picked), at, after, [targets[0].id] + reported)
  {
    var all := [0] + Later(picked);
    assert after[..|rows|] == after[..|rows| + 1][..|rows|];
    assert after[|rows|] == after[..|rows| + 1][|rows|];
    forall k | 0 <= k < |all|
      ensures 0 <= all[k] < |targets| && ([targets[0].id] + reported)[k] == targets[all[k]].id
      ensures OwnershipRow(user, principal, targets[all[k]], at, after[|rows| + k])
    {
      if k > 0 {
        assert all[k] == picked[k - 1] + 1 && targets[all[k]] == targets[1..][picked[k - 1]];
        assert after[|rows + [row]| + (k - 1)] == after[|rows| + k];
      }
    }
  }

  /** The automatic links are one for each listed object that needs one. */
  lemma {:induction false} OwnershipWritten(
    rows: seq<Relation>, user: Id, principal: Id, targets: seq<OwnedTarget>, seen: set<Id>, at: int)
    requires DoOwnership(rows, user, principal, targets, seen, at).Some?
    ensures var o := DoOwnership(rows, user, principal, targets, seen, at).value;
      OwnershipTold(rows, user, principal, targets, seen, at, o.rows, o.reported)
    decreases |targets|
  {
    var o := DoOwnership(rows, user, principal, targets, seen, at).value;
    if targets == [] {
      assert PicksThose(rows, user, principal, targets, seen, []);
      assert LinksPicked(rows, user, principal, targets, [], at, o.rows, o.reported);
    } else {
      var t, rest := targets[0], targets[1..];
      if !MayOwn(principal, t) || t.object_.value in seen {
        OwnershipWritten(rows, user, principal, rest, seen, at);
        OwnershipSkips(rows, user, principal, targets, seen, seen, at, o);
      } else {
        var more := seen + {t.object_.value};
        OwnedIsFound(rows, user, principal, t.object_.value);
        if Owned(rows, user, principal, t.object_.value) {
          OwnershipWritten(rows, user, principal, rest, more, at);
          OwnershipSkips(rows, user, principal, targets, seen, more, at, o);
        } else {
          var row := Relation(t.id, user, principal, t.object_.value, OWNS_ID, OWNS_KEY, NO_TIME, at, true, None);
          OwnershipWritten(rows + [row], user, principal, rest, more, at);
          var p := DoOwnership(rows + [row], user, principal, rest, more, at).value;
          OwnershipLinks(rows, user, principal, targets, seen, row, at, p);
        }
      }
    }
  }

  lemma OwnershipSkips(
    rows: seq<Relation>, user: Id, principal: Id, targets: seq<OwnedTarget>, seen: set<Id>, more: set<Id>, at: int, o: RelationOutcome)
    requires targets != [] && !NeedsLink(rows, user, principal, targets, seen, 0)
    requires OwnershipTold(rows, user, principal, targets[1..], more, at, o.rows, o.reported)
    requires seen <= more && forall x :: x in more && x !in seen ==> Owned(rows, user, principal, x)
    ensures OwnershipTold(rows, user, principal, targets, seen, at, o.rows, o.reported)
  {
    var picked :| PicksThose(rows, user, principal, targets[1..], more, picked)
      && LinksPicked(rows, user, principal, targets[1..], picked, at, o.rows, o.reported);
    PicksSkip(rows, user, principal, targets, seen, more, picked);
    LinksSkip(rows, user, principal, targets, picked, at, o.rows, o.reported);
  }

  lemma OwnershipLinks(
    rows: seq<Relation>, user: Id, principal: Id, targets: seq<OwnedTarget>, seen: set<Id>, row: Relation, at: int, o: RelationOutcome)
    requires targets != [] && NeedsLink(rows, user, principal, targets, seen, 0)
    requires OwnershipRow(user, principal, targets[0], at, row)
    requires OwnershipTold(rows + [row], user, principal, targets[1..], seen + {targets[0].object_.value}, at, o.rows, o.reported)
    ensures OwnershipTold(rows, user, principal, targets, seen, at, o.rows, [targets[0].id] + o.reported)
  {
    var more := seen + {targets[0].object_.value};
    var picked :| PicksThose(rows + [row], user, principal, targets[1..], more, picked)
      && LinksPicked(rows + [row], user, principal, targets[1..], picked, at, o.rows, o.reported);
    PicksFirst(rows, user, principal, targets, seen, row, picked);
    LinksFirst(rows, user, principal, targets, row, picked, at, o.rows, o.reported);
  }
}
