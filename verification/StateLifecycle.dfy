/** What state writes keep over every run: one current version per key and an unbroken supersession chain. */
module StateLifecycle {
  import opened Prelude
  import opened Domain
  import opened Store
  import V = Versions

  /** The versions written under one key, oldest first. */
  function StateTrail(rows: seq<State>, key: Key): seq<V.Version> {
    V.Trail(StateOf(key), StateVersion(), rows)
  }

  ghost predicate StateDimensionOk(c: Catalog, r: State) {
    && r.dimensionId in c.byId
    && c.byId[r.dimensionId].kind == StateDimension
    && c.byId[r.dimensionId].key == r.dimensionKey
  }

  ghost predicate StatesOk(c: Catalog, rows: seq<State>) {
    && V.DistinctIds(StateVersion(), rows)
    && (forall key: Key :: V.Chain(StateTrail(rows, key)))
    && (forall r :: r in rows ==> StateDimensionOk(c, r))
  }

  /** A write appends one version to the trail of its key, shutting the others, and touches no other trail. */
  lemma {:induction false} PutStateTrail(rows: seq<State>, key: Key, row: State, at: int, other: Key)
    requires StateOf(key)(row) && row.isCurrent && row.validTo.None?
    requires V.Chain(StateTrail(rows, key))
    ensures StateTrail(PutState(rows, key, row, at), other) ==
      if other == key then
        V.ShutAll(StateTrail(rows, key), at) + [V.Version(row.id, V.NewestId(StateTrail(rows, key)), true, None)]
      else StateTrail(rows, other)
  {
    var member, view, live, close := StateOf(other), StateVersion(), LiveState(key), CloseState(at);
    var closed := V.CloseAll(live, close, rows);
    var supersedes := V.LastLive(live, view, rows);
    V.TrailAppend(member, view, closed, row.(supersedes := supersedes));
    if other == key {
      V.TrailOfClosed(member, view, live, close, rows, at);
      V.LastLiveIsNewest(member, view, live, rows);
    } else {
      V.TrailUntouched(member, view, live, close, rows);
    }
  }

  lemma {:induction false} PutStateKeepsChains(rows: seq<State>, key: Key, row: State, at: int)
    requires StateOf(key)(row) && row.isCurrent && row.validTo.None?
    requires forall other: Key :: V.Chain(StateTrail(rows, other))
    ensures forall other: Key :: V.Chain(StateTrail(PutState(rows, key, row, at), other))
  {
    forall other: Key ensures V.Chain(StateTrail(PutState(rows, key, row, at), other)) {
      PutStateTrail(rows, key, row, at, other);
      if other == key {
        V.ChainExtends(StateTrail(rows, key), at,
          V.Version(row.id, V.NewestId(StateTrail(rows, key)), true, None));
      }
    }
  }

  lemma PutStateKeepsRows(c: Catalog, rows: seq<State>, key: Key, row: State, at: int)
    requires V.DistinctIds(StateVersion(), rows) && !HasState(rows, row.id)
    requires (forall r :: r in rows ==> StateDimensionOk(c, r)) && StateDimensionOk(c, row)
    ensures V.DistinctIds(StateVersion(), PutState(rows, key, row, at))
    ensures forall r :: r in PutState(rows, key, row, at) ==> StateDimensionOk(c, r)
  {
    var after := PutState(rows, key, row, at);
    forall r | r in after ensures StateDimensionOk(c, r) {
      var i :| 0 <= i < |after| && after[i] == r;
      if i < |rows| { assert rows[i] in rows; }
    }
    forall i | 0 <= i < |rows| ensures rows[i].id != row.id { assert rows[i] in rows; }
  }

  lemma {:induction false} DoStateKeeps(env: Env, rows: seq<State>, w: StateWrite, at: int)
    requires CatalogOk(env.catalog) && StatesOk(env.catalog, rows)
    requires DoState(env, rows, w, at).Some?
    ensures StatesOk(env.catalog, DoState(env, rows, w, at).value)
  {
    var (dimension, value) := ResolveState(env.catalog, w).value;
    var key := Key(w.user, w.subject.value, dimension.key);
    var row := StateRow(w, w.subject.value, dimension, value, w.temporal.value, at);
    PutStateKeepsChains(rows, key, row, at);
    PutStateKeepsRows(env.catalog, rows, key, row, at);
  }

  /** The state written last under a key. */
  function LastState(rows: seq<State>, key: Key): Option<State> {
    V.LastMember(StateOf(key), rows)
  }

  /**
   * In every store the write path can reach, a key has at most one current state, the one written last; a state
   * is closed exactly when it has an end; and following `supersedes` from the current one visits every state
   * ever written under the key exactly once, newest to oldest, and stops.
   */
  lemma {:induction false} SupersessionWalk(c: Catalog, rows: seq<State>, key: Key, fuel: nat)
    requires StatesOk(c, rows)
    requires fuel >= |StateTrail(rows, key)|
    ensures Filter(LiveState(key), rows) == V.AsList(LastState(rows, key))
    ensures forall r :: r in rows ==> (r.isCurrent <==> r.validTo.None?)
    ensures var trail := StateTrail(rows, key);
      V.Follow(StateVersion(), rows, V.NewestId(trail), fuel) == V.NewestFirst(trail)
  {
    V.LiveIsLast(StateOf(key), StateVersion(), LiveState(key), rows);
    forall r | r in rows ensures r.isCurrent <==> r.validTo.None? {
      var own := Key(r.user, r.entity, r.dimensionKey);
      var i :| 0 <= i < |rows| && rows[i] == r;
      V.TrailMember(StateOf(own), StateVersion(), rows, i);
      var vs := StateTrail(rows, own);
      var j :| 0 <= j < |vs| && vs[j] == StateVersion()(r);
    }
    var trail := StateTrail(rows, key);
    V.FollowVisitsTrail(StateOf(key), StateVersion(), rows, trail, |trail|, fuel);
    assert trail[..|trail|] == trail;
  }
}
