/** What attribute writes keep: singleton dimensions have one current value, the one asserted last. */
module AttributeLifecycle {
  import opened Prelude
  import opened Domain
  import opened Store
  import V = Versions

  /** The versions once asserted as current under one key, oldest first. */
  function AttributeTrail(rows: seq<Attribute>, key: Key): seq<V.Version> {
    V.Trail(AssertedAttribute(key), AttributeVersion(), rows)
  }

  ghost predicate AttributesOk(singleton: set<string>, rows: seq<Attribute>) {
    && V.DistinctIds(AttributeVersion(), rows)
    && (forall key: Key :: key.dimension in singleton ==> V.Chain(AttributeTrail(rows, key)))
    && (forall r :: r in rows && r.isCurrent ==> r.validTo.None?)
  }

  lemma {:induction false} PutAttributeTrail(
    env: Env, rows: seq<Attribute>, key: Key, row: Attribute, at: int, other: Key)
    requires AttributeOf(key)(row) && row.validTo.None?
    requires key.dimension in env.singleton ==> V.Chain(AttributeTrail(rows, key))
    requires other.dimension in env.singleton
    ensures AttributeTrail(PutAttribute(env, rows, key, row, at), other) ==
      if other == key && row.isCurrent then
        V.ShutAll(AttributeTrail(rows, key), at)
        + [V.Version(row.id, V.NewestId(AttributeTrail(rows, key)), true, None)]
      else AttributeTrail(rows, other)
  {
    var member, view, live, close := AssertedAttribute(other), AttributeVersion(), LiveAttribute(key), CloseAttribute(at);
    if row.isCurrent && key.dimension in env.singleton {
      var closed := V.CloseAll(live, close, rows);
      V.TrailAppend(member, view, closed, row.(supersedes := V.LastLive(live, view, rows)));
      if other == key {
        V.TrailOfClosed(member, view, live, close, rows, at);
        V.LastLiveIsNewest(member, view, live, rows);
      } else {
        V.TrailUntouched(member, view, live, close, rows);
      }
    } else {
      V.TrailAppend(member, view, rows, row);
    }
  }

  lemma {:induction false} DoAttributeKeeps(env: Env, rows: seq<Attribute>, w: AttributeWrite, at: int)
    requires AttributesOk(env.singleton, rows)
    requires DoAttribute(env, rows, w, at).Some?
    ensures AttributesOk(env.singleton, DoAttribute(env, rows, w, at).value)
  {
    var entity := AttributeSubject(w).value;
    var key := Key(w.user, entity, w.dimension);
    var row := AttributeRow(w, entity, at);
    var after := PutAttribute(env, rows, key, row, at);
    forall other: Key | other.dimension in env.singleton ensures V.Chain(AttributeTrail(after, other)) {
      PutAttributeTrail(env, rows, key, row, at, other);
      if other == key && row.isCurrent {
        V.ChainExtends(AttributeTrail(rows, key), at,
          V.Version(row.id, V.NewestId(AttributeTrail(rows, key)), true, None));
      }
    }
    forall r | r in after && r.isCurrent ensures r.validTo.None? {
      var i :| 0 <= i < |after| && after[i] == r;
      if i < |rows| { assert rows[i] in rows; }
    }
    forall i | 0 <= i < |rows| ensures rows[i].id != w.id { assert rows[i] in rows; }
  }

  /** The row last written as current under a key. */
  function LastAsserted(rows: seq<Attribute>, key: Key): Option<Attribute> {
    V.LastMember(AssertedAttribute(key), rows)
  }

  /** A singleton key has at most one current row, the one asserted as current last, and an unbroken history. */
  lemma {:induction false} SingletonWalk(env: Env, rows: seq<Attribute>, key: Key, fuel: nat)
    requires AttributesOk(env.singleton, rows) && key.dimension in env.singleton
    requires fuel >= |AttributeTrail(rows, key)|
    ensures Filter(LiveAttribute(key), rows) == V.AsList(LastAsserted(rows, key))
    ensures var trail := AttributeTrail(rows, key);
      V.Follow(AttributeVersion(), rows, V.NewestId(trail), fuel) == V.NewestFirst(trail)
  {
    V.LiveIsLast(AssertedAttribute(key), AttributeVersion(), LiveAttribute(key), rows);
    var trail := AttributeTrail(rows, key);
    V.FollowVisitsTrail(AssertedAttribute(key), AttributeVersion(), rows, trail, |trail|, fuel);
    assert trail[..|trail|] == trail;
  }
}
