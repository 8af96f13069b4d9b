/**
 * Supersession: a write closes the live rows of its key and points at the row it replaces.
 * States and singleton attributes share this shape, so it is stated once over any row type.
 */
module Versions {
  import opened Prelude

  /** What supersession reads of a row. */
  datatype Version = Version(id: Id, supersedes: Option<Id>, isCurrent: bool, validTo: Option<int>)

  /** Applies `close` to the rows that are `live`, leaving the others as they were. */
  function CloseAll<T>(live: T -> bool, close: T -> T, rows: seq<T>): (r: seq<T>)
    ensures |r| == |rows|
    ensures forall i :: 0 <= i < |rows| ==> r[i] == if live(rows[i]) then close(rows[i]) else rows[i]
  {
    if rows == [] then []
    else
      var last := rows[|rows| - 1];
      CloseAll(live, close, rows[..|rows| - 1]) + [if live(last) then close(last) else last]
  }

  /** The id of the last live row. */
  function LastLive<T>(live: T -> bool, view: T -> Version, rows: seq<T>): Option<Id> {
    if rows == [] then None
    else if live(rows[|rows| - 1]) then Some(view(rows[|rows| - 1]).id)
    else LastLive(live, view, rows[..|rows| - 1])
  }

  /** The versions of the rows under one key, oldest first. */
  function Trail<T>(member: T -> bool, view: T -> Version, rows: seq<T>): seq<Version> {
    if rows == [] then []
    else
      Trail(member, view, rows[..|rows| - 1])
      + (if member(rows[|rows| - 1]) then [view(rows[|rows| - 1])] else [])
  }

  function Shut(v: Version, at: int): Version {
    if v.isCurrent then v.(isCurrent := false, validTo := Some(at)) else v
  }

  function ShutAll(vs: seq<Version>, at: int): (r: seq<Version>)
    ensures |r| == |vs|
    ensures forall i :: 0 <= i < |vs| ==> r[i] == Shut(vs[i], at)
  {
    if vs == [] then [] else ShutAll(vs[..|vs| - 1], at) + [Shut(vs[|vs| - 1], at)]
  }

  /** Exactly the newest version is current, the others are closed, and each names its predecessor. */
  ghost predicate Chain(vs: seq<Version>) {
    && (forall i :: 0 <= i < |vs| ==>
          (vs[i].isCurrent <==> i == |vs| - 1) && (vs[i].isCurrent <==> vs[i].validTo.None?))
    && (vs != [] ==> vs[0].supersedes.None?)
    && (forall i, j :: 0 <= i && j == i + 1 && j < |vs| ==> vs[j].supersedes == Some(vs[i].id))
  }

  function NewestId(vs: seq<Version>): Option<Id> {
    if vs == [] then None else Some(vs[|vs| - 1].id)
  }

  lemma ChainExtends(vs: seq<Version>, at: int, v: Version)
    requires Chain(vs)
    requires v.isCurrent && v.validTo.None? && v.supersedes == NewestId(vs)
    ensures Chain(ShutAll(vs, at) + [v])
  {
    var r := ShutAll(vs, at) + [v];
    forall i, j | 0 <= i && j == i + 1 && j < |r| ensures r[j].supersedes == Some(r[i].id) {
      assert r[i] == Shut(vs[i], at);
    }
  }

  lemma {:induction false} TrailAppend<T>(member: T -> bool, view: T -> Version, rows: seq<T>, x: T)
    ensures Trail(member, view, rows + [x]) == Trail(member, view, rows) + (if member(x) then [view(x)] else [])
  {
    assert (rows + [x])[..|rows|] == rows;
  }

  /** Closing the live rows of a key shuts the current versions of its trail. */
  lemma {:induction false} TrailOfClosed<T(!new)>(
    member: T -> bool, view: T -> Version, live: T -> bool, close: T -> T, rows: seq<T>, at: int)
    requires forall x :: live(x) ==> member(close(x)) == member(x)
    requires forall x :: member(x) ==> (live(x) <==> view(x).isCurrent)
    requires forall x :: live(x) ==> view(close(x)) == Shut(view(x), at)
    ensures Trail(member, view, CloseAll(live, close, rows)) == ShutAll(Trail(member, view, rows), at)
  {
    if rows != [] {
      TrailOfClosed(member, view, live, close, rows[..|rows| - 1], at);
      var r := CloseAll(live, close, rows);
      assert r[..|r| - 1] == CloseAll(live, close, rows[..|rows| - 1]);
    }
  }

  /** Closing rows of another key leaves this trail alone. */
  lemma {:induction false} TrailUntouched<T(!new)>(
    member: T -> bool, view: T -> Version, live: T -> bool, close: T -> T, rows: seq<T>)
    requires forall x :: live(x) ==> !member(x) && !member(close(x))
    ensures Trail(member, view, CloseAll(live, close, rows)) == Trail(member, view, rows)
  {
    if rows != [] {
      TrailUntouched(member, view, live, close, rows[..|rows| - 1]);
      var r := CloseAll(live, close, rows);
      assert r[..|r| - 1] == CloseAll(live, close, rows[..|rows| - 1]);
    }
  }

  lemma {:induction false} TrailMember<T>(member: T -> bool, view: T -> Version, rows: seq<T>, i: int)
    requires 0 <= i < |rows| && member(rows[i])
    ensures view(rows[i]) in Trail(member, view, rows)
  {
    if i < |rows| - 1 { TrailMember(member, view, rows[..|rows| - 1], i); }
  }

  lemma {:induction false} TrailOrigin<T>(member: T -> bool, view: T -> Version, rows: seq<T>, v: Version)
    returns (i: nat)
    requires v in Trail(member, view, rows)
    ensures i < |rows| && member(rows[i]) && view(rows[i]) == v
  {
    if member(rows[|rows| - 1]) && view(rows[|rows| - 1]) == v {
      i := |rows| - 1;
    } else {
      i := TrailOrigin(member, view, rows[..|rows| - 1], v);
    }
  }

  /** In a chain the last live row is the newest version. */
  lemma {:induction false} LastLiveIsNewest<T(!new)>(
    member: T -> bool, view: T -> Version, live: T -> bool, rows: seq<T>)
    requires forall x :: live(x) <==> member(x) && view(x).isCurrent
    requires var vs := Trail(member, view, rows); vs == [] || vs[|vs| - 1].isCurrent
    ensures LastLive(live, view, rows) == NewestId(Trail(member, view, rows))
  {
    if rows != [] && !member(rows[|rows| - 1]) {
      LastLiveIsNewest(member, view, live, rows[..|rows| - 1]);
    }
  }

  lemma {:induction false} LastLiveRow<T(!new)>(live: T -> bool, view: T -> Version, rows: seq<T>)
    ensures LastLive(live, view, rows).None? <==> forall r :: r in rows ==> !live(r)
    ensures LastLive(live, view, rows).Some? ==>
      exists r :: r in rows && live(r) && LastLive(live, view, rows) == Some(view(r).id)
  {
    if rows != [] {
      var front, last := rows[..|rows| - 1], rows[|rows| - 1];
      LastLiveRow(live, view, front);
      assert forall r :: r in rows <==> r in front || r == last;
    }
  }

  /** The row of the key written last. */
  function LastMember<T>(member: T -> bool, rows: seq<T>): Option<T> {
    if rows == [] then None
    else if member(rows[|rows| - 1]) then Some(rows[|rows| - 1])
    else LastMember(member, rows[..|rows| - 1])
  }

  function AsList<T>(x: Option<T>): seq<T> {
    match x
    case None => []
    case Some(y) => [y]
  }

  /** In a chain the live rows of the key are the row written last, and nothing else. */
  lemma {:induction false} LiveIsLast<T(!new)>(
    member: T -> bool, view: T -> Version, live: T -> bool, rows: seq<T>)
    requires forall x :: live(x) <==> member(x) && view(x).isCurrent
    requires Chain(Trail(member, view, rows))
    ensures Filter(live, rows) == AsList(LastMember(member, rows))
  {
    if rows != [] {
      var front, last := rows[..|rows| - 1], rows[|rows| - 1];
      if member(last) {
        forall x | x in front ensures !live(x) {
          if member(x) {
            var i :| 0 <= i < |front| && front[i] == x;
            TrailMember(member, view, front, i);
            var vs := Trail(member, view, front);
            var j :| 0 <= j < |vs| && vs[j] == view(x);
            assert Trail(member, view, rows)[j] == view(x);
          }
        }
        FilterNone(live, front);
        assert Trail(member, view, rows)[|Trail(member, view, front)|] == view(last);
      } else {
        assert Trail(member, view, rows) == Trail(member, view, front);
        LiveIsLast(member, view, live, front);
      }
    }
  }

  // ---------------------------------------------------------------- closing one row at a time

  /** `now` is `before` with the live rows among `done` closed. */
  ghost predicate ClosedThrough<T>(live: T -> bool, close: T -> T, before: seq<T>, done: seq<T>, now: seq<T>) {
    && |now| == |before|
    && forall k :: 0 <= k < |before| ==>
         now[k] == (if live(before[k]) && before[k] in done then close(before[k]) else before[k])
  }

  /** `id` is that of a live row among `done`, if there is one. */
  ghost predicate NamesLive<T(!new)>(live: T -> bool, view: T -> Version, done: seq<T>, id: Option<Id>) {
    && (id.None? <==> forall r :: r in done ==> !live(r))
    && (id.Some? ==> exists r :: r in done && live(r) && id == Some(view(r).id))
  }

  /** The closing pass part-way: the rows it has met, the table as it stands, and the id it would supersede. */
  ghost predicate Closing<T(!new)>(
    live: T -> bool, view: T -> Version, close: T -> T, before: seq<T>, done: seq<T>, now: seq<T>, id: Option<Id>)
  {
    ClosedThrough(live, close, before, done, now) && NamesLive(live, view, done, id)
  }

  lemma NothingClosed<T(!new)>(live: T -> bool, view: T -> Version, close: T -> T, before: seq<T>)
    ensures Closing(live, view, close, before, [], before, None)
  {
  }

  /** Closing one more row, found in the table by its id. */
  lemma CloseOneMore<T(!new)>(
    live: T -> bool, view: T -> Version, close: T -> T, before: seq<T>, done: seq<T>, now: seq<T>, next: seq<T>, r: T,
    id: Option<Id>)
    requires DistinctIds(view, before) && r in before
    requires Closing(live, view, close, before, done, now, id)
    requires |next| == |now|
    requires forall k :: 0 <= k < |now| ==>
      next[k] == (if live(r) && view(before[k]).id == view(r).id then close(r) else now[k])
    ensures Closing(live, view, close, before, done + [r], next, if live(r) then Some(view(r).id) else id)
  {
    var i :| 0 <= i < |before| && before[i] == r;
    forall k | 0 <= k < |before|
      ensures next[k] == (if live(before[k]) && before[k] in done + [r] then close(before[k]) else before[k])
    {
      if view(before[k]).id == view(r).id { assert k == i; }
    }
    assert r in done + [r];
    assert forall x :: x in done + [r] <==> x in done || x == r;
  }

  /** With at most one live row, a pass that met every live row closed them all and names the last. */
  lemma PassDone<T(!new)>(
    live: T -> bool, view: T -> Version, close: T -> T, before: seq<T>, done: seq<T>, now: seq<T>, id: Option<Id>)
    requires Closing(live, view, close, before, done, now, id)
    requires forall r :: r in before && live(r) ==> r in done
    requires forall r :: r in done ==> r in before
    requires |Filter(live, before)| <= 1
    ensures now == CloseAll(live, close, before)
    ensures id == LastLive(live, view, before)
  {
    LastLiveRow(live, view, before);
    forall r ensures r in Filter(live, before) <==> r in before && live(r) { FilterMember(live, before, r); }
  }

  // ---------------------------------------------------------------- following the links

  ghost predicate DistinctIds<T>(view: T -> Version, rows: seq<T>) {
    forall i, j :: 0 <= i < j < |rows| ==> view(rows[i]).id != view(rows[j]).id
  }

  function FindVersion<T>(view: T -> Version, rows: seq<T>, id: Id): Option<Version> {
    if rows == [] then None
    else if view(rows[|rows| - 1]).id == id then Some(view(rows[|rows| - 1]))
    else FindVersion(view, rows[..|rows| - 1], id)
  }

  /** The ids met when following `supersedes` from `start` through the whole table, at most `fuel` of them. */
  function Follow<T>(view: T -> Version, rows: seq<T>, start: Option<Id>, fuel: nat): seq<Id>
    decreases fuel
  {
    if fuel == 0 || start.None? then []
    else match FindVersion(view, rows, start.value)
      case None => []
      case Some(v) => [v.id] + Follow(view, rows, v.supersedes, fuel - 1)
  }

  /** The ids of a trail, newest first. */
  function NewestFirst(vs: seq<Version>): seq<Id> {
    if vs == [] then [] else [vs[|vs| - 1].id] + NewestFirst(vs[..|vs| - 1])
  }

  lemma {:induction false} FindsItsRow<T>(view: T -> Version, rows: seq<T>, i: int)
    requires 0 <= i < |rows| && DistinctIds(view, rows)
    ensures FindVersion(view, rows, view(rows[i]).id) == Some(view(rows[i]))
  {
    if i < |rows| - 1 { FindsItsRow(view, rows[..|rows| - 1], i); }
  }

  /**
   * From the newest version, the links visit every version of the key exactly once, newest to oldest,
   * and stop: any fuel from the number of versions up gives the same walk.
   */
  lemma {:induction false} FollowVisitsTrail<T>(
    member: T -> bool, view: T -> Version, rows: seq<T>, vs: seq<Version>, n: nat, fuel: nat)
    requires DistinctIds(view, rows)
    requires vs == Trail(member, view, rows) && Chain(vs)
    requires n <= |vs| && n <= fuel
    ensures Follow(view, rows, NewestId(vs[..n]), fuel) == NewestFirst(vs[..n])
  {
    if n > 0 {
      var i := TrailOrigin(member, view, rows, vs[n - 1]);
      FindsItsRow(view, rows, i);
      assert vs[..n][..n - 1] == vs[..n - 1];
      assert n > 1 ==> vs[n - 1].supersedes == Some(vs[n - 2].id);
      FollowVisitsTrail(member, view, rows, vs, n - 1, fuel - 1);
    }
  }
}
