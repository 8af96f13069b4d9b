/** Conversation focus: a bounded list of fading referents, a current focus, and a query waiting for its subject. */
module Discourse {
  import opened Prelude

  const MAX_RECENT_REFERENTS := 8
  const MAX_IDLE_TURNS := 8

  /** Salience is counted in thousandths. */
  const FULL := 1000
  const CANDIDATE := 900
  const PREVIOUS := 600
  const FAINTEST := 200

  datatype Role = ClarificationCandidate | PreviousFocus | ActiveFocus

  datatype Referent = Referent(
    entityId: Id, typeKey: Option<string>, displayName: Option<string>, role: Role, salience: int)

  datatype Focus = Focus(
    primitive: Option<string>, relationType: Option<string>, targetType: Option<string>,
    entityIds: seq<Id>, displayName: Option<string>)

  datatype PendingIntent = PendingIntent(dimension: Option<string>, candidates: seq<Id>, query: string)

  datatype Reason = NewFocus | TopicSwitch | SuccessfulQuery | SuccessfulWrite | SuccessfulAttributeWrite
                  | PendingQueryStored | IdleCleared

  datatype State = State(
    focus: Option<Focus>, referents: seq<Referent>, primitive: Option<string>, relationType: Option<string>,
    resultKind: Option<string>, reason: Option<Reason>, pending: Option<PendingIntent>, idleTurns: nat)

  const SILENCE := State(None, [], None, None, None, None, None, 0)

  /** Labels the caller knows: type keys and display names by entity. */
  datatype Labels = Labels(types: map<Id, string>, names: map<Id, string>)

  /** Any rounding of 0.85 x to the nearest thousandth, however it breaks ties. */
  ghost predicate NearestThousandth(round: int -> int) {
    forall x :: x >= 0 ==> -50 <= 100 * round(x) - 85 * x <= 50
  }

  // ---------------------------------------------------------------- lists of ids

  predicate NoDuplicates(ids: seq<Id>) {
    forall i, j :: 0 <= i < j < |ids| ==> ids[i] != ids[j]
  }

  /** Appends the ids not yet present, leaving out the empty one and those in `except`. */
  function AddAll(ids: seq<Id>, more: seq<Id>, except: set<Id>): seq<Id> {
    if more == [] then ids
    else
      var before := AddAll(ids, more[..|more| - 1], except);
      var e := more[|more| - 1];
      if e == "" || e in except || e in before then before else before + [e]
  }

  method Add(ids: seq<Id>, more: seq<Id>, except: set<Id>) returns (r: seq<Id>)
    ensures r == AddAll(ids, more, except)
  {
    r := ids;
    var seen := set i | i in ids;
    for k := 0 to |more|
      invariant r == AddAll(ids, more[..k], except)
      invariant seen == set i | i in r
    {
      assert more[..k + 1][..k] == more[..k];
      var e := more[k];
      if e != "" && e !in except && e !in seen {
        seen := seen + {e};
        r := r + [e];
      }
    }
    assert more[..|more|] == more;
  }

  lemma {:induction false} AddAllExactly(ids: seq<Id>, more: seq<Id>, except: set<Id>)
    requires NoDuplicates(ids)
    ensures NoDuplicates(AddAll(ids, more, except))
    ensures forall e :: e in AddAll(ids, more, except) <==> e in ids || (e in more && e != "" && e !in except)
  {
    if more != [] {
      AddAllExactly(ids, more[..|more| - 1], except);
      assert more == more[..|more| - 1] + [more[|more| - 1]];
    }
  }

  function IdsOf(items: seq<Referent>): (r: seq<Id>)
    ensures |r| == |items|
    ensures forall i :: 0 <= i < |items| ==> r[i] == items[i].entityId
  {
    seq(|items|, i requires 0 <= i < |items| => items[i].entityId)
  }

  function FocusIds(s: State): seq<Id> {
    if s.focus.Some? then s.focus.value.entityIds else []
  }

  function PendingIds(s: State): seq<Id> {
    if s.pending.Some? then s.pending.value.candidates else []
  }

  /** The entities the interpreter may refer to: focus, then referents, then pending candidates. */
  function Allowed(s: State): seq<Id> {
    AddAll(AddAll(AddAll([], FocusIds(s), {}), IdsOf(s.referents), {}), PendingIds(s), {})
  }

  method AllowedEntityIds(s: State) returns (ids: seq<Id>)
    ensures ids == Allowed(s)
  {
    ids := Add([], FocusIds(s), {});
    ids := Add(ids, IdsOf(s.referents), {});
    ids := Add(ids, PendingIds(s), {});
  }

  /** Each allowed id once, and exactly the non-empty ids of focus, referents and pending candidates. */
  lemma AllowedExactly(s: State)
    ensures NoDuplicates(Allowed(s))
    ensures forall e :: e in Allowed(s) <==>
      e != "" && (e in FocusIds(s) || (exists r :: r in s.referents && r.entityId == e) || e in PendingIds(s))
  {
    var a := AddAll([], FocusIds(s), {});
    var b := AddAll(a, IdsOf(s.referents), {});
    AddAllExactly([], FocusIds(s), {});
    AddAllExactly(a, IdsOf(s.referents), {});
    AddAllExactly(b, PendingIds(s), {});
    forall e ensures e in IdsOf(s.referents) <==> exists r :: r in s.referents && r.entityId == e {
      if e in IdsOf(s.referents) {
        var i :| 0 <= i < |s.referents| && IdsOf(s.referents)[i] == e;
        assert s.referents[i] in s.referents;
      }
    }
  }

  // ---------------------------------------------------------------- referents

  /** Every referent loses 15 per cent; those below the threshold are forgotten. */
  function Fade(round: int -> int, items: seq<Referent>): seq<Referent> {
    if items == [] then []
    else
      var item := items[|items| - 1];
      var salience := round(item.salience);
      Fade(round, items[..|items| - 1]) + (if salience < FAINTEST then [] else [item.(salience := salience)])
  }

  method FadeAll(round: int -> int, items: seq<Referent>) returns (faded: seq<Referent>)
    ensures faded == Fade(round, items)
  {
    faded := [];
    for i := 0 to |items|
      invariant faded == Fade(round, items[..i])
    {
      assert items[..i + 1][..i] == items[..i];
      var salience := round(items[i].salience);
      if salience >= FAINTEST {
        faded := faded + [items[i].(salience := salience)];
      }
    }
    assert items[..|items|] == items;
  }

  function OtherThan(id: Id): Referent -> bool {
    (r: Referent) => r.entityId != id
  }

  /** The incoming referent first, and once. */
  function Upsert(items: seq<Referent>, incoming: Referent): seq<Referent> {
    [incoming] + Filter(OtherThan(incoming.entityId), items)
  }

  function UpsertAll(items: seq<Referent>, incoming: seq<Referent>): seq<Referent> {
    if incoming == [] then items
    else Upsert(UpsertAll(items, incoming[..|incoming| - 1]), incoming[|incoming| - 1])
  }

  function Recent(items: seq<Referent>): seq<Referent> {
    if |items| <= MAX_RECENT_REFERENTS then items else items[..MAX_RECENT_REFERENTS]
  }

  function FindReferent(items: seq<Referent>, id: Id): Option<Referent> {
    if items == [] then None else if items[0].entityId == id then Some(items[0]) else FindReferent(items[1..], id)
  }

  function FindNamed(items: seq<Referent>, id: Id): Option<string> {
    if items == [] then None
    else if items[0].entityId == id && items[0].displayName.Some? && items[0].displayName.value != "" then items[0].displayName
    else FindNamed(items[1..], id)
  }

  function TypeOf(s: State, labels: Labels, id: Id): Option<string> {
    if id in labels.types then Some(labels.types[id])
    else if FindReferent(s.referents, id).Some? then FindReferent(s.referents, id).value.typeKey
    else if id in FocusIds(s) then s.focus.value.targetType
    else None
  }

  function NameOf(s: State, labels: Labels, id: Id): Option<string> {
    if id in labels.names then Some(labels.names[id])
    else if FindNamed(s.referents, id).Some? then FindNamed(s.referents, id)
    else if id in FocusIds(s) && s.focus.value.displayName != Some("") then s.focus.value.displayName
    else None
  }

  // ---------------------------------------------------------------- transitions

  /** A turn without a focus: after eight of them the focus goes and the referents fade. */
  function Idle(round: int -> int, s: State): State {
    var next := s.idleTurns + 1;
    if next > MAX_IDLE_TURNS then
      s.(focus := None, referents := Fade(round, s.referents), reason := Some(IdleCleared), idleTurns := next)
    else s.(idleTurns := next)
  }

  datatype Commit = Commit(
    ids: seq<Id>, primitive: Option<string>, relationType: Option<string>, targetType: Option<string>,
    resultKind: Option<string>, reason: Option<Reason>, clearPending: bool)

  function Displacing(s: State, labels: Labels, id: Id): Referent {
    Referent(id, TypeOf(s, labels, id), NameOf(s, labels, id), PreviousFocus, PREVIOUS)
  }

  /** The old focus, last id first, except what stays in focus. */
  function Displaced(s: State, labels: Labels, previous: seq<Id>, ids: seq<Id>): seq<Referent> {
    if previous == [] then []
    else
      var e := previous[|previous| - 1];
      (if e in ids then [] else [Displacing(s, labels, e)])
      + Displaced(s, labels, previous[..|previous| - 1], ids)
  }

  function Focused(s: State, labels: Labels, c: Commit, ids: seq<Id>): (r: seq<Referent>)
    ensures |r| == |ids|
    ensures forall i :: 0 <= i < |ids| ==> r[i].entityId == ids[i] && r[i].salience == FULL
  {
    seq(|ids|, i requires 0 <= i < |ids| =>
      Referent(ids[i], if ids[i] in labels.types && labels.types[ids[i]] != "" then Some(labels.types[ids[i]]) else c.targetType,
               NameOf(s, labels, ids[i]), ActiveFocus, FULL))
  }

  predicate Disjoint(a: seq<Id>, b: seq<Id>) {
    forall x :: x in a ==> x !in b
  }

  function ReasonFor(previous: seq<Id>, c: Commit): Reason {
    if previous != [] && Disjoint(previous, c.ids) then TopicSwitch
    else if c.reason.Some? then c.reason.value
    else NewFocus
  }

  function CommitFocus(round: int -> int, s: State, labels: Labels, c: Commit): State {
    var previous := FocusIds(s);
    var referents :=
      UpsertAll(UpsertAll(Fade(round, s.referents), Displaced(s, labels, previous, c.ids)), Focused(s, labels, c, c.ids));
    var display := if |c.ids| == 1 then NameOf(s, labels, c.ids[0]) else None;
    State(Some(Focus(c.primitive, c.relationType, c.targetType, c.ids, display)), Recent(referents),
      c.primitive, c.relationType, c.resultKind, Some(ReasonFor(previous, c)),
      if c.clearPending then None else s.pending, 0)
  }

  method RestoreDisplaced(s: State, labels: Labels, ids: seq<Id>, faded: seq<Referent>) returns (referents: seq<Referent>)
    ensures referents == UpsertAll(faded, Displaced(s, labels, FocusIds(s), ids))
  {
    var previous := FocusIds(s);
    referents := faded;
    var i := |previous|;
    assert previous[..i] == previous;
    while i > 0
      invariant 0 <= i <= |previous|
      invariant UpsertAll(referents, Displaced(s, labels, previous[..i], ids))
             == UpsertAll(faded, Displaced(s, labels, previous, ids))
    {
      i := i - 1;
      var e := previous[i];
      DisplacedStep(s, labels, previous, i, ids);
      if e !in ids {
        UpsertAllFirst(referents, Displacing(s, labels, e), Displaced(s, labels, previous[..i], ids));
        referents := Upsert(referents, Displacing(s, labels, e));
      }
    }
  }

  lemma {:induction false} UpsertAllFirst(items: seq<Referent>, x: Referent, rest: seq<Referent>)
    ensures UpsertAll(items, [x] + rest) == UpsertAll(Upsert(items, x), rest)
  {
    if rest == [] {
      assert [x] + rest == [x] && [x][..0] == [];
    } else {
      UpsertAllFirst(items, x, rest[..|rest| - 1]);
      assert ([x] + rest)[..|rest|] == [x] + rest[..|rest| - 1];
    }
  }

  lemma DisplacedStep(s: State, labels: Labels, previous: seq<Id>, i: nat, ids: seq<Id>)
    requires i < |previous|
    ensures Displaced(s, labels, previous[..i + 1], ids) ==
      if previous[i] in ids then Displaced(s, labels, previous[..i], ids)
      else [Displacing(s, labels, previous[i])] + Displaced(s, labels, previous[..i], ids)
  {
    assert previous[..i + 1][..i] == previous[..i];
  }

  method PutFocus(s: State, labels: Labels, c: Commit, base: seq<Referent>) returns (referents: seq<Referent>)
    ensures referents == UpsertAll(base, Focused(s, labels, c, c.ids))
  {
    referents := base;
    ghost var focused := Focused(s, labels, c, c.ids);
    for i := 0 to |c.ids|
      invariant referents == UpsertAll(base, focused[..i])
    {
      assert focused[..i + 1][..i] == focused[..i];
      var e := c.ids[i];
      var typeKey := if e in labels.types && labels.types[e] != "" then Some(labels.types[e]) else c.targetType;
      referents := Upsert(referents, Referent(e, typeKey, NameOf(s, labels, e), ActiveFocus, FULL));
    }
    assert focused[..|c.ids|] == focused;
  }

  /** The focus as the program commits it: fade, put the displaced focus back, put the new focus on top. */
  method RunCommitFocus(round: int -> int, s: State, labels: Labels, c: Commit) returns (r: State)
    ensures r == CommitFocus(round, s, labels, c)
  {
    var referents := FadeAll(round, s.referents);
    referents := RestoreDisplaced(s, labels, c.ids, referents);
    referents := PutFocus(s, labels, c, referents);
    var display := if |c.ids| == 1 then NameOf(s, labels, c.ids[0]) else None;
    r := State(Some(Focus(c.primitive, c.relationType, c.targetType, c.ids, display)), Recent(referents),
      c.primitive, c.relationType, c.resultKind, Some(ReasonFor(FocusIds(s), c)),
      if c.clearPending then None else s.pending, 0);
  }

  /** What an answered question showed: related objects, resolved entities, entities of the listed items. */
  datatype Ask = Ask(
    needsClarification: bool, objects: seq<Id>, resolved: seq<Id>, items: seq<Id>, principal: Option<Id>,
    primitive: Option<string>, relationType: Option<string>, resultKind: Option<string>, clearPending: bool)

  function Principal(p: Option<Id>): set<Id> {
    if p.Some? then {p.value} else {}
  }

  /** Related objects, or else resolved entities, or else listed ones; never the principal, each once. */
  function AskFocus(a: Ask): seq<Id> {
    var objects := AddAll([], a.objects, Principal(a.principal));
    var resolved := AddAll(objects, if objects == [] then a.resolved else [], Principal(a.principal));
    AddAll(resolved, if resolved == [] then a.items else [], Principal(a.principal))
  }

  method AskFocusIds(a: Ask) returns (ids: seq<Id>)
    ensures ids == AskFocus(a)
    ensures NoDuplicates(ids) && "" !in ids && (a.principal.Some? ==> a.principal.value !in ids)
    ensures ids == [] <==> forall e :: e in a.objects + a.resolved + a.items ==> e == "" || a.principal == Some(e)
  {
    ids := Add([], a.objects, Principal(a.principal));
    AddAllExactly([], a.objects, Principal(a.principal));
    assert ids != [] ==> ids[0] in ids;
    assert forall e :: e in a.objects + a.resolved + a.items <==> e in a.objects || e in a.resolved || e in a.items;
    if ids == [] {
      ids := Add(ids, a.resolved, Principal(a.principal));
      AddAllExactly([], a.resolved, Principal(a.principal));
      assert ids != [] ==> ids[0] in ids;
    }
    if ids == [] {
      ids := Add(ids, a.items, Principal(a.principal));
      AddAllExactly([], a.items, Principal(a.principal));
      assert ids != [] ==> ids[0] in ids;
    }
  }

  /** The first id with a known, non-empty type gives the focus its type. */
  function TargetType(ids: seq<Id>, labels: Labels): Option<string> {
    if ids == [] then None
    else if ids[0] in labels.types && labels.types[ids[0]] != "" then Some(labels.types[ids[0]])
    else TargetType(ids[1..], labels)
  }

  /** What was written: the entities it focuses on, and whether anything was. */
  datatype Written = Written(
    accepted: bool, ids: seq<Id>, relationType: Option<string>, attributeLike: bool, clearPending: bool)

  datatype Turn =
    | Asked(ask: Ask, labels: Labels)
    | Ingested(written: Written, labels: Labels)
    | PendingStored(pending: PendingIntent, labels: Labels)

  function Candidates(s: State, labels: Labels, ids: seq<Id>): (r: seq<Referent>)
    ensures |r| == |ids|
    ensures forall i :: 0 <= i < |ids| ==> r[i].entityId == ids[i] && r[i].salience == CANDIDATE
  {
    seq(|ids|, i requires 0 <= i < |ids| =>
      Referent(ids[i], TypeOf(s, labels, ids[i]), NameOf(s, labels, ids[i]), ClarificationCandidate, CANDIDATE))
  }

  function StorePending(s: State, labels: Labels, pending: PendingIntent): State {
    s.(pending := Some(pending),
       referents := Recent(UpsertAll(s.referents, Candidates(s, labels, pending.candidates))),
       reason := Some(PendingQueryStored))
  }

  method StorePendingQuery(s: State, labels: Labels, pending: PendingIntent) returns (r: State)
    ensures r == StorePending(s, labels, pending)
  {
    var referents := s.referents;
    ghost var all := Candidates(s, labels, pending.candidates);
    for i := 0 to |pending.candidates|
      invariant referents == UpsertAll(s.referents, all[..i])
    {
      assert all[..i + 1][..i] == all[..i];
      var e := pending.candidates[i];
      referents := Upsert(referents,
        Referent(e, TypeOf(s, labels, e), NameOf(s, labels, e), ClarificationCandidate, CANDIDATE));
    }
    assert all[..|pending.candidates|] == all;
    r := s.(pending := Some(pending), referents := Recent(referents), reason := Some(PendingQueryStored));
  }

  function Next(round: int -> int, s: State, turn: Turn): State {
    match turn
    case Asked(a, labels) =>
      if a.needsClarification then s
      else
        var ids := AskFocus(a);
        if ids == [] then Idle(round, s)
        else CommitFocus(round, s, labels,
          Commit(ids, a.primitive, a.relationType, TargetType(ids, labels), a.resultKind, Some(SuccessfulQuery), a.clearPending))
    case Ingested(w, labels) =>
      if !w.accepted || w.ids == [] then Idle(round, s)
      else CommitFocus(round, s, labels,
        Commit(w.ids, Some("ingest"), w.relationType, TargetType(w.ids, labels), Some("write"),
          Some(if w.attributeLike then SuccessfulAttributeWrite else SuccessfulWrite), w.clearPending))
    case PendingStored(pending, labels) => StorePending(s, labels, pending)
  }

  function After(round: int -> int, turns: seq<Turn>): State {
    if turns == [] then SILENCE else Next(round, After(round, turns[..|turns| - 1]), turns[|turns| - 1])
  }

  // ---------------------------------------------------------------- what every conversation keeps

  ghost predicate Distinct(items: seq<Referent>) {
    forall i, j :: 0 <= i < j < |items| ==> items[i].entityId != items[j].entityId
  }

  ghost predicate Salient(items: seq<Referent>) {
    forall r :: r in items ==> FAINTEST <= r.salience <= FULL
  }

  ghost predicate Ok(s: State) {
    |s.referents| <= MAX_RECENT_REFERENTS && Distinct(s.referents) && Salient(s.referents)
  }

  lemma {:induction false} FadeKeeps(round: int -> int, items: seq<Referent>)
    requires NearestThousandth(round) && Distinct(items) && Salient(items)
    ensures Distinct(Fade(round, items)) && Salient(Fade(round, items)) && |Fade(round, items)| <= |items|
    ensures forall r :: r in Fade(round, items) ==> exists q :: q in items && q.entityId == r.entityId
  {
    if items != [] {
      var front, last := items[..|items| - 1], items[|items| - 1];
      assert items == front + [last];
      assert last in items;
      FadeKeeps(round, front);
      forall r | r in Fade(round, front) ensures r.entityId != last.entityId {
        var q :| q in front && q.entityId == r.entityId;
      }
    }
  }

  lemma {:induction false} UpsertKeeps(items: seq<Referent>, incoming: Referent)
    requires Distinct(items) && Salient(items) && FAINTEST <= incoming.salience <= FULL
    ensures Distinct(Upsert(items, incoming)) && Salient(Upsert(items, incoming))
  {
    var rest := Filter(OtherThan(incoming.entityId), items);
    FilterKeepsDistinct(OtherThan(incoming.entityId), items);
    forall r | r in rest ensures r in items && r.entityId != incoming.entityId {
      FilterMember(OtherThan(incoming.entityId), items, r);
    }
  }

  lemma {:induction false} FilterKeepsDistinct(p: Referent -> bool, items: seq<Referent>)
    requires Distinct(items)
    ensures Distinct(Filter(p, items))
  {
    if items != [] {
      var front, last := items[..|items| - 1], items[|items| - 1];
      FilterKeepsDistinct(p, front);
      forall r | r in Filter(p, front) ensures r.entityId != last.entityId {
        FilterMember(p, front, r);
        var i :| 0 <= i < |front| && front[i] == r;
      }
    }
  }

  lemma {:induction false} UpsertAllKeeps(items: seq<Referent>, incoming: seq<Referent>)
    requires Distinct(items) && Salient(items) && Salient(incoming)
    ensures Distinct(UpsertAll(items, incoming)) && Salient(UpsertAll(items, incoming))
  {
    if incoming != [] {
      var front, last := incoming[..|incoming| - 1], incoming[|incoming| - 1];
      assert incoming == front + [last];
      assert last in incoming;
      UpsertAllKeeps(items, front);
      UpsertKeeps(UpsertAll(items, front), last);
    }
  }

  lemma {:induction false} DisplacedSalient(s: State, labels: Labels, previous: seq<Id>, ids: seq<Id>)
    ensures Salient(Displaced(s, labels, previous, ids))
  {
    if previous != [] { DisplacedSalient(s, labels, previous[..|previous| - 1], ids); }
  }

  lemma {:induction false} CommitKeeps(round: int -> int, s: State, labels: Labels, c: Commit)
    requires NearestThousandth(round) && Ok(s)
    ensures Ok(CommitFocus(round, s, labels, c))
  {
    FadeKeeps(round, s.referents);
    DisplacedSalient(s, labels, FocusIds(s), c.ids);
    var base := UpsertAll(Fade(round, s.referents), Displaced(s, labels, FocusIds(s), c.ids));
    UpsertAllKeeps(Fade(round, s.referents), Displaced(s, labels, FocusIds(s), c.ids));
    UpsertAllKeeps(base, Focused(s, labels, c, c.ids));
  }

  lemma {:induction false} NextKeeps(round: int -> int, s: State, turn: Turn)
    requires NearestThousandth(round) && Ok(s)
    ensures Ok(Next(round, s, turn))
  {
    FadeKeeps(round, s.referents);
    match turn
    case Asked(a, labels) =>
      var ids := AskFocus(a);
      CommitKeeps(round, s, labels,
        Commit(ids, a.primitive, a.relationType, TargetType(ids, labels), a.resultKind, Some(SuccessfulQuery), a.clearPending));
    case Ingested(w, labels) =>
      CommitKeeps(round, s, labels,
        Commit(w.ids, Some("ingest"), w.relationType, TargetType(w.ids, labels), Some("write"),
          Some(if w.attributeLike then SuccessfulAttributeWrite else SuccessfulWrite), w.clearPending));
    case PendingStored(pending, labels) =>
      UpsertAllKeeps(s.referents, Candidates(s, labels, pending.candidates));
  }

  /** After any conversation: at most eight referents, each entity once, salience between 0.2 and 1. */
  lemma {:induction false} ConversationOk(round: int -> int, turns: seq<Turn>)
    requires NearestThousandth(round)
    ensures Ok(After(round, turns))
  {
    if turns != [] {
      ConversationOk(round, turns[..|turns| - 1]);
      NextKeeps(round, After(round, turns[..|turns| - 1]), turns[|turns| - 1]);
    }
  }

  lemma {:induction false} FilterKeepsPrefix(p: Referent -> bool, items: seq<Referent>, k: nat)
    requires k <= |items| && forall i :: 0 <= i < k ==> p(items[i])
    ensures |Filter(p, items)| >= k && Filter(p, items)[..k] == items[..k]
  {
    assert items == items[..k] + items[k..];
    FilterConcat(p, items[..k], items[k..]);
    FilterAll(p, items[..k]);
  }

  /** Inserted one by one, the incoming referents stand on top, the last one first. */
  lemma {:induction false} IncomingOnTop(items: seq<Referent>, incoming: seq<Referent>)
    requires Distinct(incoming)
    ensures |UpsertAll(items, incoming)| >= |incoming|
    ensures forall i :: 0 <= i < |incoming| ==> UpsertAll(items, incoming)[|incoming| - 1 - i] == incoming[i]
  {
    if incoming != [] {
      var front, last := incoming[..|incoming| - 1], incoming[|incoming| - 1];
      IncomingOnTop(items, front);
      var below := UpsertAll(items, front);
      forall i | 0 <= i < |front| ensures OtherThan(last.entityId)(below[i]) {
        assert below[i] == front[|front| - 1 - i];
        assert incoming[|front| - 1 - i].entityId != incoming[|incoming| - 1].entityId;
      }
      FilterKeepsPrefix(OtherThan(last.entityId), below, |front|);
      var rest := Filter(OtherThan(last.entityId), below);
      forall i | 0 <= i < |incoming| ensures UpsertAll(items, incoming)[|incoming| - 1 - i] == incoming[i] {
        if i < |front| { assert rest[..|front|][|front| - 1 - i] == below[..|front|][|front| - 1 - i]; }
      }
    }
  }

  /** Up to eight entities in focus are all remembered, with full salience, the last one first. */
  lemma {:induction false} FocusIsRemembered(round: int -> int, s: State, labels: Labels, c: Commit, i: nat)
    requires NoDuplicates(c.ids) && |c.ids| <= MAX_RECENT_REFERENTS && i < |c.ids|
    ensures var r := CommitFocus(round, s, labels, c).referents;
      |r| >= |c.ids| && r[|c.ids| - 1 - i].entityId == c.ids[i] && r[|c.ids| - 1 - i].salience == FULL
  {
    var base := UpsertAll(Fade(round, s.referents), Displaced(s, labels, FocusIds(s), c.ids));
    IncomingOnTop(base, Focused(s, labels, c, c.ids));
  }

  // ---------------------------------------------------------------- forgetting

  function IdleTimes(round: int -> int, s: State, n: nat): State
    decreases n
  {
    if n == 0 then s else Idle(round, IdleTimes(round, s, n - 1))
  }

  /** An upper bound on what is left of full salience after `n` fades, whatever the rounding. */
  function Remaining(n: nat): int {
    if n == 0 then FULL else (85 * Remaining(n - 1) + 50) / 100
  }

  lemma {:induction false} FadeLowers(round: int -> int, items: seq<Referent>, bound: int)
    requires NearestThousandth(round)
    requires forall r :: r in items ==> 0 <= r.salience <= bound
    ensures forall r :: r in Fade(round, items) ==> 0 <= r.salience <= (85 * bound + 50) / 100
  {
    if items != [] {
      var front, last := items[..|items| - 1], items[|items| - 1];
      assert items == front + [last];
      assert last in items;
      FadeLowers(round, front, bound);
      assert 100 * round(last.salience) - 85 * last.salience <= 50;
    }
  }

  /** How many of `n` idle turns clear and fade. */
  function Clearings(idleTurns: nat, n: nat): nat {
    if idleTurns + n <= MAX_IDLE_TURNS then 0
    else if idleTurns >= MAX_IDLE_TURNS then n
    else idleTurns + n - MAX_IDLE_TURNS
  }

  lemma {:induction false} IdleLowers(round: int -> int, s: State, n: nat)
    requires NearestThousandth(round) && Ok(s)
    ensures var t := IdleTimes(round, s, n);
      && t.idleTurns == s.idleTurns + n && t.pending == s.pending
      && (forall r :: r in t.referents ==> 0 <= r.salience <= Remaining(Clearings(s.idleTurns, n)))
      && (Clearings(s.idleTurns, n) > 0 ==>
            t.focus.None? && forall r :: r in t.referents ==> FAINTEST <= r.salience)
    decreases n
  {
    if n > 0 {
      IdleLowers(round, s, n - 1);
      IdleOnce(round, IdleTimes(round, s, n - 1), Remaining(Clearings(s.idleTurns, n - 1)));
    }
  }

  lemma IdleOnce(round: int -> int, t: State, bound: int)
    requires NearestThousandth(round)
    requires forall r :: r in t.referents ==> 0 <= r.salience <= bound
    ensures var u := Idle(round, t);
      && u.idleTurns == t.idleTurns + 1 && u.pending == t.pending
      && (t.idleTurns < MAX_IDLE_TURNS ==> u.focus == t.focus && u.referents == t.referents)
      && (t.idleTurns >= MAX_IDLE_TURNS ==> u.focus.None?)
      && (t.idleTurns >= MAX_IDLE_TURNS ==>
            forall r :: r in u.referents ==> FAINTEST <= r.salience <= (85 * bound + 50) / 100)
  {
    FadeLowers(round, t.referents, bound);
    FadeAboveThreshold(round, t.referents);
  }

  lemma {:induction false} FadeAboveThreshold(round: int -> int, items: seq<Referent>)
    ensures forall r :: r in Fade(round, items) ==> FAINTEST <= r.salience
  {
    if items != [] { FadeAboveThreshold(round, items[..|items| - 1]); }
  }

  lemma TenFadesForget()
    ensures Remaining(9) == 232 && Remaining(10) == 197
  {
    assert Remaining(1) == 850;
    assert Remaining(2) == 723;
    assert Remaining(3) == 615;
    assert Remaining(4) == 523;
    assert Remaining(5) == 445;
    assert Remaining(6) == 378;
    assert Remaining(7) == 321;
    assert Remaining(8) == 273;
    assert Remaining(9) == 232;
  }

  lemma {:induction false} RemainingFalls(n: nat, m: nat)
    requires n <= m
    ensures 0 <= Remaining(m) <= Remaining(n)
    decreases m
  {
    if m > 0 {
      RemainingFalls(if n < m then n else n - 1, m - 1);
      AtLeastThree(m - 1);
    }
  }

  lemma {:induction false} AtLeastThree(n: nat)
    ensures Remaining(n) >= 3
    decreases n
  {
    if n > 0 { AtLeastThree(n - 1); }
  }

  lemma EmptyOrNot(items: seq<Referent>)
    ensures items == [] || exists r :: r in items
  {
    assert items == [] || items[0] in items;
  }

  /** Eighteen idle turns after any conversation leave no focus and no referent; only the pending query stays. */
  lemma {:induction false} EighteenIdleTurnsForget(round: int -> int, turns: seq<Turn>)
    requires NearestThousandth(round)
    ensures var s := After(round, turns);
      var t := IdleTimes(round, s, 18);
      t.focus.None? && t.referents == [] && t.pending == s.pending
  {
    var s := After(round, turns);
    ConversationOk(round, turns);
    IdleLowers(round, s, 18);
    TenFadesForget();
    RemainingFalls(10, Clearings(s.idleTurns, 18));
    var t := IdleTimes(round, s, 18);
    EmptyOrNot(t.referents);
  }

  // ---------------------------------------------------------------- eighteen is the least

  /** A lower bound on what is left of full salience after `n` fades. */
  function AtLeast(n: nat): int {
    if n == 0 then FULL else (85 * AtLeast(n - 1) - 50 + 99) / 100
  }

  lemma NineFadesStay()
    ensures forall n :: 0 <= n <= 9 ==> AtLeast(n) >= 231
  {
    assert AtLeast(1) == 850;
    assert AtLeast(2) == 722;
    assert AtLeast(3) == 614;
    assert AtLeast(4) == 522;
    assert AtLeast(5) == 444;
    assert AtLeast(6) == 377;
    assert AtLeast(7) == 320;
    assert AtLeast(8) == 272;
    assert AtLeast(9) == 231;
  }

  lemma {:induction false} FadesOne(round: int -> int, s: State, n: nat)
    requires NearestThousandth(round)
    requires |s.referents| == 1 && s.referents[0].salience == FULL && s.idleTurns == 0
    requires n <= 17
    ensures var t := IdleTimes(round, s, n);
      t.idleTurns == n && |t.referents| == 1 && t.referents[0].salience >= AtLeast(Clearings(0, n))
    decreases n
  {
    if n > 0 {
      FadesOne(round, s, n - 1);
      var t := IdleTimes(round, s, n - 1);
      if n > MAX_IDLE_TURNS { OneStays(round, t.referents, n - MAX_IDLE_TURNS); }
    }
  }

  /** A lone referent survives the `k`-th fade, for `k` up to nine. */
  lemma OneStays(round: int -> int, items: seq<Referent>, k: nat)
    requires NearestThousandth(round) && 1 <= k <= 9
    requires |items| == 1 && items[0].salience >= AtLeast(k - 1)
    ensures var r := Fade(round, items); |r| == 1 && r[0].salience >= AtLeast(k)
  {
    NineFadesStay();
    var item := items[0];
    assert items == [item] && items[..0] == [];
    assert item.salience >= AtLeast(k - 1) >= 231;
    assert 100 * round(item.salience) - 85 * item.salience >= -50;
    assert round(item.salience) >= AtLeast(k) >= 231;
  }

  /** Seventeen idle turns after naming one entity still leave it among the referents. */
  lemma {:induction false} SeventeenIdleTurnsRemember(round: int -> int, id: Id, labels: Labels, c: Commit)
    requires NearestThousandth(round) && c.ids == [id]
    ensures IdleTimes(round, CommitFocus(round, SILENCE, labels, c), 17).referents != []
  {
    var s := CommitFocus(round, SILENCE, labels, c);
    var focused := Focused(SILENCE, labels, c, c.ids);
    assert focused[..0] == [];
    assert UpsertAll([], focused) == Upsert([], focused[0]);
    FadesOne(round, s, 17);
  }
}
