/** Every turn of a conversation by the fields it leaves, and the order in which referents are remembered. */
module Focusing {
  import opened Prelude
  import opened Discourse

  // ---------------------------------------------------------------- ids once each

  /** Each id once, where it first stands. */
  function Once(ids: seq<Id>): seq<Id> {
    if ids == [] then []
    else
      var before := Once(ids[..|ids| - 1]);
      if ids[|ids| - 1] in before then before else before + [ids[|ids| - 1]]
  }

  /** The first of two ids in `once` stands before every place the second has in `ids`. */
  ghost predicate StandsBefore(ids: seq<Id>, a: Id, b: Id) {
    exists p :: 0 <= p < |ids| && ids[p] == a && b !in ids[..p + 1]
  }

  ghost predicate InOrderOf(once: seq<Id>, ids: seq<Id>) {
    forall i, j :: 0 <= i < j < |once| ==> StandsBefore(ids, once[i], once[j])
  }

  lemma StandsBeforeLonger(ids: seq<Id>, e: Id, a: Id, b: Id)
    requires StandsBefore(ids, a, b)
    ensures StandsBefore(ids + [e], a, b)
  {
    var p :| 0 <= p < |ids| && ids[p] == a && b !in ids[..p + 1];
    assert (ids + [e])[p] == a && (ids + [e])[..p + 1] == ids[..p + 1];
  }

  lemma StandsBeforeNew(ids: seq<Id>, a: Id, e: Id)
    requires a in ids && e !in ids
    ensures StandsBefore(ids + [e], a, e)
  {
    var p :| 0 <= p < |ids| && ids[p] == a;
    assert (ids + [e])[p] == a && (ids + [e])[..p + 1] == ids[..p + 1];
  }

  lemma {:induction false} OnceExactly(ids: seq<Id>)
    ensures NoDuplicates(Once(ids)) && InOrderOf(Once(ids), ids)
    ensures forall e :: e in Once(ids) <==> e in ids
  {
    if ids != [] {
      var front, last := ids[..|ids| - 1], ids[|ids| - 1];
      assert ids == front + [last];
      OnceExactly(front);
      forall i, j | 0 <= i < j < |Once(ids)| ensures StandsBefore(ids, Once(ids)[i], Once(ids)[j]) {
        if j < |Once(front)| {
          StandsBeforeLonger(front, last, Once(front)[i], Once(front)[j]);
        } else {
          StandsBeforeNew(front, Once(front)[i], last);
        }
      }
    }
  }

  predicate Unlike(e: Id, x: Id) {
    x != e
  }

  function Except(e: Id): Id -> bool {
    (x: Id) => Unlike(e, x)
  }

  lemma OnceStep(ids: seq<Id>, e: Id)
    ensures Once(ids + [e]) == if e in Once(ids) then Once(ids) else Once(ids) + [e]
  {
    assert (ids + [e])[..|ids|] == ids;
  }

  lemma {:induction false} OnceFront(e: Id, ids: seq<Id>)
    ensures Once([e] + ids) == [e] + Filter(Except(e), Once(ids))
  {
    if ids == [] {
      assert [e] + ids == [e] && [e][..0] == [];
    } else {
      var front, last := ids[..|ids| - 1], ids[|ids| - 1];
      OnceFront(e, front);
      assert [e] + ids == ([e] + front) + [last];
      OnceStep([e] + front, last);
      FilterMember(Except(e), Once(front), last);
      if last !in Once(front) { FilterAppend(Except(e), Once(front), last); }
    }
  }

  function Backwards(ids: seq<Id>): (r: seq<Id>)
    ensures |r| == |ids|
    ensures forall i :: 0 <= i < |ids| ==> r[i] == ids[|ids| - 1 - i]
  {
    seq(|ids|, i requires 0 <= i < |ids| => ids[|ids| - 1 - i])
  }

  // ---------------------------------------------------------------- what stands on top

  function Each(f: Id -> Referent, ids: seq<Id>): (r: seq<Referent>)
    ensures |r| == |ids|
    ensures forall i :: 0 <= i < |ids| ==> r[i] == f(ids[i])
  {
    seq(|ids|, i requires 0 <= i < |ids| => f(ids[i]))
  }

  lemma {:induction false} EachExcept(f: Id -> Referent, ids: seq<Id>, e: Id)
    requires forall x :: f(x).entityId == x
    ensures Filter(OtherThan(e), Each(f, ids)) == Each(f, Filter(Except(e), ids))
  {
    if ids != [] {
      EachExcept(f, ids[..|ids| - 1], e);
      assert Each(f, ids)[..|ids| - 1] == Each(f, ids[..|ids| - 1]);
    }
  }

  lemma PutOnTop(f: Id -> Referent, ids: seq<Id>, e: Id)
    requires forall x :: f(x).entityId == x
    ensures Upsert(Each(f, ids), f(e)) == Each(f, [e] + Filter(Except(e), ids))
  {
    EachExcept(f, ids, e);
  }

  /** Referents put in one by one stand once each, the last one first. */
  lemma {:induction false} PutInOrder(f: Id -> Referent, ids: seq<Id>)
    requires forall x :: f(x).entityId == x
    ensures UpsertAll([], Each(f, ids)) == Each(f, Once(Backwards(ids)))
  {
    if ids == [] {
    } else {
      var front, last := ids[..|ids| - 1], ids[|ids| - 1];
      PutInOrder(f, front);
      assert Each(f, ids)[..|ids| - 1] == Each(f, front);
      assert Backwards(ids) == [last] + Backwards(front);
      OnceFront(last, Backwards(front));
      PutOnTop(f, Once(Backwards(front)), last);
    }
  }

  predicate NotNamedIn(items: seq<Referent>, r: Referent) {
    forall i :: 0 <= i < |items| ==> items[i].entityId != r.entityId
  }

  function NotNamed(items: seq<Referent>): Referent -> bool {
    (r: Referent) => NotNamedIn(items, r)
  }

  lemma NotNamedStep(front: seq<Referent>, last: Referent, r: Referent)
    ensures Both(NotNamed(front), OtherThan(last.entityId))(r) <==> NotNamed(front + [last])(r)
  {
    var all := front + [last];
    assert all[|front|] == last;
    if NotNamedIn(all, r) {
      forall i | 0 <= i < |front| ensures front[i].entityId != r.entityId { assert all[i] == front[i]; }
    }
  }

  lemma {:induction false} LeftAfter(items: seq<Referent>, front: seq<Referent>, last: Referent)
    ensures Filter(OtherThan(last.entityId), Filter(NotNamed(front), items)) == Filter(NotNamed(front + [last]), items)
  {
    FilterTwice(NotNamed(front), OtherThan(last.entityId), items);
    forall r | r in items ensures Both(NotNamed(front), OtherThan(last.entityId))(r) <==> NotNamed(front + [last])(r) {
      NotNamedStep(front, last, r);
    }
    FilterAgree(Both(NotNamed(front), OtherThan(last.entityId)), NotNamed(front + [last]), items);
  }

  /** What was there keeps its order below what is put in, except what that names. */
  lemma {:induction false} UpsertsSplit(items: seq<Referent>, incoming: seq<Referent>)
    ensures UpsertAll(items, incoming) == UpsertAll([], incoming) + Filter(NotNamed(incoming), items)
  {
    if incoming == [] {
      FilterAll(NotNamed(incoming), items);
      assert UpsertAll(items, incoming) == items;
    } else {
      var front, last := incoming[..|incoming| - 1], incoming[|incoming| - 1];
      UpsertsSplit(items, front);
      UpsertBelow(UpsertAll([], front), Filter(NotNamed(front), items), last);
      LeftAfter(items, front, last);
      assert incoming == front + [last];
    }
  }

  lemma UpsertBelow(top: seq<Referent>, below: seq<Referent>, last: Referent)
    ensures Upsert(top + below, last) == Upsert(top, last) + Filter(OtherThan(last.entityId), below)
  {
    FilterConcat(OtherThan(last.entityId), top, below);
  }

  // ---------------------------------------------------------------- fading

  /** Fading goes referent by referent, in order; what falls below a fifth is forgotten, the rest only loses salience. */
  lemma {:induction false} FadeExactly(round: int -> int, a: seq<Referent>, b: seq<Referent>, item: Referent)
    ensures Fade(round, a + b) == Fade(round, a) + Fade(round, b)
    ensures Fade(round, [item]) ==
      if round(item.salience) < 200 then []
      else [Referent(item.entityId, item.typeKey, item.displayName, item.role, round(item.salience))]
    ensures Fade(round, []) == []
  {
    assert [item][..0] == [];
    if b == [] {
      assert a + b == a;
    } else {
      FadeExactly(round, a, b[..|b| - 1], item);
      assert (a + b)[..|a + b| - 1] == a + b[..|b| - 1];
    }
  }

  // ---------------------------------------------------------------- types and names

  /** Row `i` is the first about the entity. */
  ghost predicate KnownAs(items: seq<Referent>, e: Id, i: int) {
    0 <= i < |items| && items[i].entityId == e && forall j :: 0 <= j < i ==> items[j].entityId != e
  }

  ghost predicate Calls(r: Referent, e: Id) {
    r.entityId == e && r.displayName.Some? && r.displayName.value != ""
  }

  /** Row `i` is the first with a name for the entity. */
  ghost predicate NamedAs(items: seq<Referent>, e: Id, i: int) {
    0 <= i < |items| && Calls(items[i], e) && forall j :: 0 <= j < i ==> !Calls(items[j], e)
  }

  ghost predicate InFocus(s: State, e: Id) {
    s.focus.Some? && e in s.focus.value.entityIds
  }

  /** The caller's label, or else that of the first referent about the entity, or else the type of the focus. */
  ghost predicate TypeIs(s: State, labels: Labels, e: Id, t: Option<string>) {
    if e in labels.types then t == Some(labels.types[e])
    else if exists r :: r in s.referents && r.entityId == e then
      exists i :: KnownAs(s.referents, e, i) && t == s.referents[i].typeKey
    else t == if InFocus(s, e) then s.focus.value.targetType else None
  }

  /** The caller's name, or else the first a referent gives the entity, or else that of the focus, unless empty. */
  ghost predicate NameIs(s: State, labels: Labels, e: Id, name: Option<string>) {
    if e in labels.names then name == Some(labels.names[e])
    else if exists r :: r in s.referents && Calls(r, e) then
      exists i :: NamedAs(s.referents, e, i) && name == s.referents[i].displayName
    else name == if InFocus(s, e) && s.focus.value.displayName != Some("") then s.focus.value.displayName else None
  }

  lemma {:induction false} FoundFirst(items: seq<Referent>, e: Id)
    ensures FindReferent(items, e).Some? <==> exists r :: r in items && r.entityId == e
    ensures FindReferent(items, e).Some? ==>
      exists i :: KnownAs(items, e, i) && FindReferent(items, e).value == items[i]
  {
    if items != [] {
      var first, rest := items[0], items[1..];
      FoundFirst(rest, e);
      assert items == [first] + rest;
      if first.entityId == e {
        assert KnownAs(items, e, 0);
      } else if FindReferent(rest, e).Some? {
        var i :| KnownAs(rest, e, i) && FindReferent(rest, e).value == rest[i];
        assert KnownAs(items, e, i + 1);
      }
    }
  }

  lemma {:induction false} NamedFirst(items: seq<Referent>, e: Id)
    ensures FindNamed(items, e).Some? <==> exists r :: r in items && Calls(r, e)
    ensures FindNamed(items, e).Some? ==>
      exists i :: NamedAs(items, e, i) && FindNamed(items, e) == items[i].displayName
  {
    if items != [] {
      var first, rest := items[0], items[1..];
      NamedFirst(rest, e);
      assert items == [first] + rest;
      if Calls(first, e) {
        assert NamedAs(items, e, 0);
      } else if FindNamed(rest, e).Some? {
        var i :| NamedAs(rest, e, i) && FindNamed(rest, e) == rest[i].displayName;
        assert NamedAs(items, e, i + 1);
      }
    }
  }

  lemma LabelsExactly(s: State, labels: Labels, e: Id)
    ensures TypeIs(s, labels, e, TypeOf(s, labels, e)) && NameIs(s, labels, e, NameOf(s, labels, e))
  {
    FoundFirst(s.referents, e);
    NamedFirst(s.referents, e);
  }

  // ---------------------------------------------------------------- what a focus leaves

  ghost predicate Puts(r: Referent, e: Id, role: Role, salience: int) {
    r.entityId == e && r.role == role && r.salience == salience
  }

  /** An entity in focus: full salience, the caller's type unless empty, or else the type of the focus. */
  ghost predicate PutInFocus(s: State, labels: Labels, targetType: Option<string>, e: Id, r: Referent) {
    && Puts(r, e, ActiveFocus, 1000)
    && r.typeKey == (if e in labels.types && labels.types[e] != "" then Some(labels.types[e]) else targetType)
    && NameIs(s, labels, e, r.displayName)
  }

  ghost predicate PutAside(s: State, labels: Labels, role: Role, salience: int, e: Id, r: Referent) {
    Puts(r, e, role, salience) && TypeIs(s, labels, e, r.typeKey) && NameIs(s, labels, e, r.displayName)
  }

  predicate NotAmong(ids: seq<Id>, e: Id) {
    e !in ids
  }

  function Outside(ids: seq<Id>): Id -> bool {
    (e: Id) => NotAmong(ids, e)
  }

  function About(ids: seq<Id>): Referent -> bool {
    (r: Referent) => NotAmong(ids, r.entityId)
  }

  /**
   * The list is the first eight of: the focus, last id first; what was in focus and is not now, in its order; and
   * everything else that has not faded.
   */
  ghost predicate Remembers(round: int -> int, s: State, labels: Labels, targetType: Option<string>, ids: seq<Id>, list: seq<Referent>) {
    var top := Once(Backwards(ids));
    var aside := Once(Filter(Outside(ids), FocusIds(s)));
    var rest := Filter(About(ids + FocusIds(s)), Fade(round, s.referents));
    var all := |top| + |aside| + |rest|;
    && |list| == (if all < 8 then all else 8)
    && forall k :: 0 <= k < |list| ==> StandsAt(s, labels, targetType, top, aside, rest, k, list[k])
  }

  ghost predicate StandsAt(s: State, labels: Labels, targetType: Option<string>, top: seq<Id>, aside: seq<Id>,
                           rest: seq<Referent>, k: nat, r: Referent)
    requires k < |top| + |aside| + |rest|
  {
    if k < |top| then PutInFocus(s, labels, targetType, top[k], r)
    else if k < |top| + |aside| then PutAside(s, labels, PreviousFocus, 600, aside[k - |top|], r)
    else r == rest[k - |top| - |aside|]
  }

  function OnFocus(s: State, labels: Labels, targetType: Option<string>): Id -> Referent {
    (e: Id) =>
      Referent(e, if e in labels.types && labels.types[e] != "" then Some(labels.types[e]) else targetType,
               NameOf(s, labels, e), ActiveFocus, FULL)
  }

  function OnAside(s: State, labels: Labels): Id -> Referent {
    (e: Id) => Displacing(s, labels, e)
  }

  lemma {:induction false} DisplacedBackwards(s: State, labels: Labels, previous: seq<Id>, ids: seq<Id>)
    ensures Displaced(s, labels, previous, ids) == Each(OnAside(s, labels), Backwards(Filter(Outside(ids), previous)))
  {
    if previous != [] { DisplacedBackwards(s, labels, previous[..|previous| - 1], ids); }
  }

  /** Put in by id, the named ones are those ids. */
  lemma NamedByIds(f: Id -> Referent, ids: seq<Id>, r: Referent)
    requires forall x :: f(x).entityId == x
    ensures NotNamedIn(Each(f, ids), r) <==> r.entityId !in ids
  {
    if r.entityId in ids {
      var i :| 0 <= i < |ids| && ids[i] == r.entityId;
      assert Each(f, ids)[i].entityId == r.entityId;
    }
  }

  lemma InBackwards(ids: seq<Id>, e: Id)
    ensures e in Backwards(ids) <==> e in ids
  {
    if e in ids {
      var i :| 0 <= i < |ids| && ids[i] == e;
      assert Backwards(ids)[|ids| - 1 - i] == e;
    }
  }

  lemma BackAgain(ids: seq<Id>)
    ensures Backwards(Backwards(ids)) == ids
  {
  }

  /** What the displaced and the focused leave of the rest. */
  lemma {:induction false} RestBelow(f: Id -> Referent, ids: seq<Id>, g: Id -> Referent, previous: seq<Id>, items: seq<Referent>)
    requires forall x :: f(x).entityId == x
    requires forall x :: g(x).entityId == x
    ensures Filter(NotNamed(Each(f, ids)), Filter(NotNamed(Each(g, Backwards(Filter(Outside(ids), previous)))), items))
         == Filter(About(ids + previous), items)
  {
    var aside := Backwards(Filter(Outside(ids), previous));
    FilterTwice(NotNamed(Each(g, aside)), NotNamed(Each(f, ids)), items);
    forall r | r in items
      ensures Both(NotNamed(Each(g, aside)), NotNamed(Each(f, ids)))(r) <==> About(ids + previous)(r)
    {
      NamedByIds(f, ids, r);
      NamedByIds(g, aside, r);
      InBackwards(Filter(Outside(ids), previous), r.entityId);
      FilterMember(Outside(ids), previous, r.entityId);
    }
    FilterAgree(Both(NotNamed(Each(g, aside)), NotNamed(Each(f, ids))), About(ids + previous), items);
  }

  /** Nothing displaced is in the new focus. */
  lemma {:induction false} AsideStays(f: Id -> Referent, ids: seq<Id>, g: Id -> Referent, previous: seq<Id>)
    requires forall x :: f(x).entityId == x
    requires forall x :: g(x).entityId == x
    ensures var aside := Each(g, Once(Filter(Outside(ids), previous)));
      Filter(NotNamed(Each(f, ids)), aside) == aside
  {
    var kept := Filter(Outside(ids), previous);
    OnceExactly(kept);
    forall r | r in Each(g, Once(kept)) ensures NotNamed(Each(f, ids))(r) {
      var i :| 0 <= i < |Once(kept)| && Each(g, Once(kept))[i] == r;
      assert Once(kept)[i] in kept;
      FilterMember(Outside(ids), previous, r.entityId);
      NamedByIds(f, ids, r);
    }
    FilterAll(NotNamed(Each(f, ids)), Each(g, Once(kept)));
  }

  /** The whole list before it is cut. */
  lemma {:induction false} StackedExactly(round: int -> int, s: State, labels: Labels, c: Commit)
    ensures var f := OnFocus(s, labels, c.targetType); var g := OnAside(s, labels);
      UpsertAll(UpsertAll(Fade(round, s.referents), Displaced(s, labels, FocusIds(s), c.ids)), Focused(s, labels, c, c.ids))
      == Each(f, Once(Backwards(c.ids))) + (Each(g, Once(Filter(Outside(c.ids), FocusIds(s))))
         + Filter(About(c.ids + FocusIds(s)), Fade(round, s.referents)))
  {
    var f, g, faded, previous := OnFocus(s, labels, c.targetType), OnAside(s, labels), Fade(round, s.referents), FocusIds(s);
    var kept := Filter(Outside(c.ids), previous);
    var named := NotNamed(Each(f, c.ids));
    assert Focused(s, labels, c, c.ids) == Each(f, c.ids);
    DisplacedBackwards(s, labels, previous, c.ids);
    UpsertsSplit(faded, Each(g, Backwards(kept)));
    PutInOrder(g, Backwards(kept));
    BackAgain(kept);
    var below := Filter(NotNamed(Each(g, Backwards(kept))), faded);
    UpsertsSplit(Each(g, Once(kept)) + below, Each(f, c.ids));
    PutInOrder(f, c.ids);
    FilterConcat(named, Each(g, Once(kept)), below);
    AsideStays(f, c.ids, g, previous);
    RestBelow(f, c.ids, g, previous, faded);
  }

  lemma OnFocusPuts(s: State, labels: Labels, targetType: Option<string>, e: Id)
    ensures PutInFocus(s, labels, targetType, e, OnFocus(s, labels, targetType)(e))
  {
    LabelsExactly(s, labels, e);
  }

  lemma OnAsidePuts(s: State, labels: Labels, e: Id)
    ensures PutAside(s, labels, PreviousFocus, 600, e, OnAside(s, labels)(e))
  {
    LabelsExactly(s, labels, e);
  }

  lemma InThree<T>(a: seq<T>, b: seq<T>, c: seq<T>, k: nat)
    requires k < |a| + |b| + |c|
    ensures (a + (b + c))[k] == if k < |a| then a[k] else if k < |a| + |b| then b[k - |a|] else c[k - |a| - |b|]
  {
  }

  lemma EntryStands(s: State, labels: Labels, targetType: Option<string>, top: seq<Id>, aside: seq<Id>, rest: seq<Referent>, k: nat)
    requires k < |top| + |aside| + |rest|
    ensures StandsAt(s, labels, targetType, top, aside, rest, k,
      (Each(OnFocus(s, labels, targetType), top) + (Each(OnAside(s, labels), aside) + rest))[k])
  {
    var f, g := Each(OnFocus(s, labels, targetType), top), Each(OnAside(s, labels), aside);
    InThree(f, g, rest, k);
    if k < |top| {
      assert f[k] == OnFocus(s, labels, targetType)(top[k]);
      OnFocusPuts(s, labels, targetType, top[k]);
    } else if k < |top| + |aside| {
      var e := aside[k - |top|];
      assert g[k - |top|] == OnAside(s, labels)(e);
      OnAsidePuts(s, labels, e);
    }
  }

  /** What is remembered after a focus is committed, entry by entry. */
  lemma ReferentsExactly(round: int -> int, s: State, labels: Labels, c: Commit)
    ensures Remembers(round, s, labels, c.targetType, c.ids, CommitFocus(round, s, labels, c).referents)
  {
    var top, aside := Once(Backwards(c.ids)), Once(Filter(Outside(c.ids), FocusIds(s)));
    var rest := Filter(About(c.ids + FocusIds(s)), Fade(round, s.referents));
    var list := CommitFocus(round, s, labels, c).referents;
    StackedExactly(round, s, labels, c);
    var whole := Each(OnFocus(s, labels, c.targetType), top) + (Each(OnAside(s, labels), aside) + rest);
    assert list == Recent(whole);
    assert |whole| == |top| + |aside| + |rest|;
    forall k | 0 <= k < |list| ensures StandsAt(s, labels, c.targetType, top, aside, rest, k, list[k]) {
      EntryStands(s, labels, c.targetType, top, aside, rest, k);
    }
  }

  ghost predicate SharesNone(a: seq<Id>, b: seq<Id>) {
    forall i, j :: 0 <= i < |a| && 0 <= j < |b| ==> a[i] != b[j]
  }

  /** The fields a committed focus leaves. */
  ghost predicate Commits(round: int -> int, s: State, labels: Labels, c: Commit, t: State) {
    && t.focus.Some? && t.focus.value.entityIds == c.ids
    && t.focus.value.primitive == c.primitive == t.primitive
    && t.focus.value.relationType == c.relationType == t.relationType
    && t.focus.value.targetType == c.targetType && t.resultKind == c.resultKind
    && (if |c.ids| == 1 then NameIs(s, labels, c.ids[0], t.focus.value.displayName) else t.focus.value.displayName.None?)
    && t.idleTurns == 0 && t.pending == (if c.clearPending then None else s.pending)
    && t.reason == (if s.focus.Some? && s.focus.value.entityIds != [] && SharesNone(s.focus.value.entityIds, c.ids)
                    then Some(TopicSwitch) else if c.reason.Some? then c.reason else Some(NewFocus))
    && Remembers(round, s, labels, c.targetType, c.ids, t.referents)
  }

  lemma CommitExactly(round: int -> int, s: State, labels: Labels, c: Commit)
    ensures Commits(round, s, labels, c, CommitFocus(round, s, labels, c))
  {
    ReferentsExactly(round, s, labels, c);
    if |c.ids| == 1 { LabelsExactly(s, labels, c.ids[0]); }
    var previous := FocusIds(s);
    if Disjoint(previous, c.ids) {
      forall i, j | 0 <= i < |previous| && 0 <= j < |c.ids| ensures previous[i] != c.ids[j] {
        assert previous[i] in previous && c.ids[j] in c.ids;
      }
    } else {
      var x :| x in previous && x in c.ids;
      var i :| 0 <= i < |previous| && previous[i] == x;
      var j :| 0 <= j < |c.ids| && c.ids[j] == x;
    }
  }

  // ---------------------------------------------------------------- turns

  /** The ninth turn without a focus and every one after it drops the focus and lets referents fade. */
  ghost predicate Idles(round: int -> int, s: State, t: State) {
    && t.idleTurns == s.idleTurns + 1 && t.pending == s.pending
    && t.primitive == s.primitive && t.relationType == s.relationType && t.resultKind == s.resultKind
    && (s.idleTurns >= 8 ==> t.focus.None? && t.referents == Fade(round, s.referents) && t.reason == Some(IdleCleared))
    && (s.idleTurns < 8 ==> t.focus == s.focus && t.referents == s.referents && t.reason == s.reason)
  }

  ghost predicate Usable(a: Ask, e: Id) {
    e != "" && a.principal != Some(e)
  }

  ghost predicate AnyUsable(a: Ask, ids: seq<Id>) {
    exists e :: e in ids && Usable(a, e)
  }

  /** Related objects if any can be used, or else resolved entities if any can, or else the listed ones. */
  ghost function Shown(a: Ask): seq<Id> {
    if AnyUsable(a, a.objects) then a.objects else if AnyUsable(a, a.resolved) then a.resolved else a.items
  }

  /** The usable ids of the list, each once, in the order in which they first stand there. */
  ghost predicate Picked(a: Ask, from: seq<Id>, ids: seq<Id>) {
    && NoDuplicates(ids) && (forall e :: e in ids <==> e in from && Usable(a, e)) && InOrderOf(ids, from)
  }

  ghost predicate Typed(labels: Labels, e: Id) {
    e in labels.types && labels.types[e] != ""
  }

  /** The type of the first id that has one. */
  ghost predicate TypesFocus(labels: Labels, ids: seq<Id>, t: Option<string>) {
    if exists e :: e in ids && Typed(labels, e) then
      exists i :: 0 <= i < |ids| && Typed(labels, ids[i]) && t == Some(labels.types[ids[i]])
        && forall j :: 0 <= j < i ==> !Typed(labels, ids[j])
    else t.None?
  }

  lemma {:induction false} TargetTypeExactly(ids: seq<Id>, labels: Labels)
    ensures TypesFocus(labels, ids, TargetType(ids, labels))
  {
    if ids != [] {
      var first, rest := ids[0], ids[1..];
      TargetTypeExactly(rest, labels);
      assert ids == [first] + rest;
      if !Typed(labels, first) && exists e :: e in rest && Typed(labels, e) {
        var i :| 0 <= i < |rest| && Typed(labels, rest[i]) && TargetType(rest, labels) == Some(labels.types[rest[i]])
          && forall j :: 0 <= j < i ==> !Typed(labels, rest[j]);
        assert ids[i + 1] == rest[i];
        forall j | 0 <= j < i + 1 ensures !Typed(labels, ids[j]) {
          if j > 0 { assert ids[j] == rest[j - 1]; }
        }
      }
    }
  }

  lemma {:induction false} AddAllInOrder(more: seq<Id>, except: set<Id>)
    ensures InOrderOf(AddAll([], more, except), more)
  {
    if more != [] {
      var front, last := more[..|more| - 1], more[|more| - 1];
      assert more == front + [last];
      AddAllInOrder(front, except);
      AddAllExactly([], front, except);
      var before, after := AddAll([], front, except), AddAll([], more, except);
      forall i, j | 0 <= i < j < |after| ensures StandsBefore(more, after[i], after[j]) {
        if j < |before| {
          StandsBeforeLonger(front, last, before[i], before[j]);
        } else {
          assert before[i] in before;
          StandsBeforeNew(front, before[i], last);
        }
      }
    }
  }

  lemma PickedExactly(a: Ask, from: seq<Id>)
    ensures Picked(a, from, AddAll([], from, Principal(a.principal)))
    ensures AddAll([], from, Principal(a.principal)) == [] <==> !AnyUsable(a, from)
  {
    AddAllInOrder(from, Principal(a.principal));
    AddAllExactly([], from, Principal(a.principal));
    var ids := AddAll([], from, Principal(a.principal));
    assert ids != [] ==> ids[0] in ids;
  }

  lemma AskFocusExactly(a: Ask)
    ensures Picked(a, Shown(a), AskFocus(a))
    ensures AskFocus(a) == [] <==> !AnyUsable(a, Shown(a))
  {
    PickedExactly(a, a.objects);
    PickedExactly(a, a.resolved);
    PickedExactly(a, a.items);
    var objects := AddAll([], a.objects, Principal(a.principal));
    NothingAdded(objects, Principal(a.principal));
    NothingAdded(AddAll(objects, if objects == [] then a.resolved else [], Principal(a.principal)), Principal(a.principal));
  }

  lemma NothingAdded(ids: seq<Id>, except: set<Id>)
    ensures AddAll(ids, [], except) == ids
  {
  }

  /** An answered question: nothing on a clarification, an idle turn when it shows nothing usable, or a new focus. */
  lemma AskedExactly(round: int -> int, s: State, a: Ask, labels: Labels)
    ensures var t := Next(round, s, Asked(a, labels));
      && (a.needsClarification ==> t == s)
      && (!a.needsClarification && !AnyUsable(a, Shown(a)) ==> Idles(round, s, t))
      && (!a.needsClarification && AnyUsable(a, Shown(a)) ==>
            && t.focus.Some? && Picked(a, Shown(a), t.focus.value.entityIds)
            && TypesFocus(labels, t.focus.value.entityIds, t.focus.value.targetType)
            && Commits(round, s, labels,
                 Commit(t.focus.value.entityIds, a.primitive, a.relationType, t.focus.value.targetType, a.resultKind,
                        Some(SuccessfulQuery), a.clearPending), t))
  {
    AskFocusExactly(a);
    var ids := AskFocus(a);
    TargetTypeExactly(ids, labels);
    CommitExactly(round, s, labels,
      Commit(ids, a.primitive, a.relationType, TargetType(ids, labels), a.resultKind, Some(SuccessfulQuery), a.clearPending));
  }

  /** A write: an idle turn unless it was accepted and names entities, or a focus on them. */
  lemma IngestedExactly(round: int -> int, s: State, w: Written, labels: Labels)
    ensures var t := Next(round, s, Ingested(w, labels));
      && (!w.accepted || w.ids == [] ==> Idles(round, s, t))
      && (w.accepted && w.ids != [] ==>
            && t.focus.Some? && TypesFocus(labels, w.ids, t.focus.value.targetType)
            && Commits(round, s, labels,
                 Commit(w.ids, Some("ingest"), w.relationType, t.focus.value.targetType, Some("write"),
                        Some(if w.attributeLike then SuccessfulAttributeWrite else SuccessfulWrite), w.clearPending), t))
  {
    TargetTypeExactly(w.ids, labels);
    CommitExactly(round, s, labels,
      Commit(w.ids, Some("ingest"), w.relationType, TargetType(w.ids, labels), Some("write"),
        Some(if w.attributeLike then SuccessfulAttributeWrite else SuccessfulWrite), w.clearPending));
  }

  function OnCandidate(s: State, labels: Labels): Id -> Referent {
    (e: Id) => Referent(e, TypeOf(s, labels, e), NameOf(s, labels, e), ClarificationCandidate, CANDIDATE)
  }

  /** The candidates on top, the last one first, above what was remembered; at most eight. */
  ghost predicate PutsCandidates(s: State, labels: Labels, candidates: seq<Id>, list: seq<Referent>) {
    var top := Once(Backwards(candidates));
    var rest := Filter(About(candidates), s.referents);
    && |list| == (if |top| + |rest| < 8 then |top| + |rest| else 8)
    && forall k :: 0 <= k < |list| ==> CandidateAt(s, labels, top, rest, k, list[k])
  }

  ghost predicate CandidateAt(s: State, labels: Labels, top: seq<Id>, rest: seq<Referent>, k: nat, r: Referent)
    requires k < |top| + |rest|
  {
    if k < |top| then PutAside(s, labels, ClarificationCandidate, 900, top[k], r) else r == rest[k - |top|]
  }

  lemma CandidateStands(s: State, labels: Labels, top: seq<Id>, rest: seq<Referent>, k: nat)
    requires k < |top| + |rest|
    ensures CandidateAt(s, labels, top, rest, k, (Each(OnCandidate(s, labels), top) + rest)[k])
  {
    if k < |top| { LabelsExactly(s, labels, top[k]); }
  }

  lemma CandidatesExactly(s: State, labels: Labels, candidates: seq<Id>)
    ensures PutsCandidates(s, labels, candidates, Recent(UpsertAll(s.referents, Candidates(s, labels, candidates))))
  {
    CandidatesStacked(s, labels, candidates);
    var top, rest := Once(Backwards(candidates)), Filter(About(candidates), s.referents);
    var whole := Each(OnCandidate(s, labels), top) + rest;
    assert |whole| == |top| + |rest|;
    forall k | 0 <= k < |Recent(whole)| ensures CandidateAt(s, labels, top, rest, k, Recent(whole)[k]) {
      CandidateStands(s, labels, top, rest, k);
    }
  }

  lemma CandidatesStacked(s: State, labels: Labels, candidates: seq<Id>)
    ensures UpsertAll(s.referents, Candidates(s, labels, candidates))
         == Each(OnCandidate(s, labels), Once(Backwards(candidates))) + Filter(About(candidates), s.referents)
  {
    var f := OnCandidate(s, labels);
    assert Candidates(s, labels, candidates) == Each(f, candidates);
    UpsertsSplit(s.referents, Each(f, candidates));
    PutInOrder(f, candidates);
    forall r | r in s.referents ensures NotNamed(Each(f, candidates))(r) <==> About(candidates)(r) {
      NamedByIds(f, candidates, r);
    }
    FilterAgree(NotNamed(Each(f, candidates)), About(candidates), s.referents);
  }

  /** A question stored: its candidates are remembered, and nothing else changes. */
  lemma StoredExactly(round: int -> int, s: State, pending: PendingIntent, labels: Labels)
    ensures var t := Next(round, s, PendingStored(pending, labels));
      && t.pending == Some(pending) && t.reason == Some(PendingQueryStored) && t.idleTurns == s.idleTurns
      && t.focus == s.focus && t.primitive == s.primitive && t.relationType == s.relationType && t.resultKind == s.resultKind
      && PutsCandidates(s, labels, pending.candidates, t.referents)
  {
    CandidatesExactly(s, labels, pending.candidates);
  }

  // ---------------------------------------------------------------- what may be referred to

  lemma {:induction false} AddAllJoins(a: seq<Id>, b: seq<Id>, c: seq<Id>, except: set<Id>)
    ensures AddAll(AddAll(a, b, except), c, except) == AddAll(a, b + c, except)
  {
    if c == [] {
      assert b + c == b;
    } else {
      AddAllJoins(a, b, c[..|c| - 1], except);
      assert (b + c)[..|b + c| - 1] == b + c[..|c| - 1];
    }
  }

  /** The allowed ids stand in the order of focus, referents and pending candidates. */
  lemma AllowedInOrder(s: State)
    ensures InOrderOf(Allowed(s), FocusIds(s) + IdsOf(s.referents) + PendingIds(s))
  {
    AddAllJoins([], FocusIds(s), IdsOf(s.referents), {});
    AddAllJoins([], FocusIds(s) + IdsOf(s.referents), PendingIds(s), {});
    AddAllInOrder(FocusIds(s) + IdsOf(s.referents) + PendingIds(s), {});
  }
}
