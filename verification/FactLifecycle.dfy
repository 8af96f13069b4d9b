/** The two notions of a current fact: not marked as superseded, and not named by a successor. */
module FactLifecycle {
  import opened Prelude
  import opened Domain
  import opened Store

  function OfUser(user: Id): Fact -> bool {
    (f: Fact) => f.user == user
  }

  /** The query engine's notion: the ids no successor names. */
  function CurrentFactIds(rows: seq<Fact>): set<Id> {
    var superseded := set f | f in rows && f.supersedes.Some? :: f.supersedes.value;
    set f | f in rows && f.id !in superseded :: f.id
  }

  ghost predicate Named(rows: seq<Fact>, f: Fact) {
    exists g :: g in rows && g.supersedes == Some(f.id)
  }

  /** Every fact is marked as superseded exactly when a successor names it. */
  ghost predicate NotionsAgree(rows: seq<Fact>) {
    forall f :: f in rows ==> (CurrentFact(f) <==> !Named(rows, f))
  }

  ghost predicate FactLinksOk(rows: seq<Fact>) {
    && (forall i, j :: 0 <= i < j < |rows| ==> rows[i].id != rows[j].id)
    && (forall g :: g in rows && g.supersedes.Some? ==>
          exists p :: p in rows && p.id == g.supersedes.value && p.user == g.user)
  }

  ghost predicate FactsOk(rows: seq<Fact>) {
    FactLinksOk(rows) && NotionsAgree(rows)
  }

  lemma {:induction false} RecordingKeeps(
    rows: seq<Fact>, user: Id, about: Anchor, inputs: seq<FactInput>, at: int)
    requires FactsOk(rows)
    requires DoFacts(rows, user, about, inputs, None, at).Some?
    ensures FactsOk(DoFacts(rows, user, about, inputs, None, at).value)
    decreases |inputs|
  {
    if inputs != [] {
      var f := Fact(inputs[0].id, user, about, inputs[0].concept, inputs[0].value, None, at, None);
      AppendFact(rows, f);
      RecordingKeeps(rows + [f], user, about, inputs[1..], at);
    }
  }

  lemma AppendFact(rows: seq<Fact>, f: Fact)
    requires FactLinksOk(rows) && AcceptsFact(rows, f)
    ensures FactLinksOk(rows + [f])
    ensures !Named(rows + [f], f)
    ensures forall g :: g in rows ==> (Named(rows + [f], g) <==> Named(rows, g) || f.supersedes == Some(g.id))
  {
    forall i | 0 <= i < |rows| ensures rows[i].id != f.id { assert rows[i] in rows; }
    var after := rows + [f];
    assert f in after;
    forall g ensures g in after <==> g in rows || g == f {}
  }

  /** The table with one fact marked as superseded. */
  function Marked(rows: seq<Fact>, i: nat, at: int): seq<Fact>
    requires i < |rows|
  {
    rows[i := rows[i].(supersededAt := Some(at))]
  }

  /** Marking changes no identity and no link. */
  lemma MarkedRow(rows: seq<Fact>, i: nat, at: int, k: nat)
    requires i < |rows| && k < |rows|
    ensures var m := Marked(rows, i, at);
      && |m| == |rows| && m[k] in m && rows[k] in rows
      && m[k].id == rows[k].id && m[k].user == rows[k].user && m[k].supersedes == rows[k].supersedes
      && (k != i ==> m[k] == rows[k])
  {
  }

  lemma MarkedNamed(rows: seq<Fact>, i: nat, at: int, f: Fact)
    requires i < |rows|
    ensures Named(Marked(rows, i, at), f) <==> Named(rows, f)
  {
    var m := Marked(rows, i, at);
    if g :| g in rows && g.supersedes == Some(f.id) {
      var k :| 0 <= k < |rows| && rows[k] == g;
      MarkedRow(rows, i, at, k);
    }
    if g :| g in m && g.supersedes == Some(f.id) {
      var k :| 0 <= k < |m| && m[k] == g;
      MarkedRow(rows, i, at, k);
    }
  }

  lemma MarkedLinksOk(rows: seq<Fact>, i: nat, at: int)
    requires FactLinksOk(rows) && i < |rows|
    ensures FactLinksOk(Marked(rows, i, at))
  {
    var m := Marked(rows, i, at);
    forall g | g in m && g.supersedes.Some?
      ensures exists p :: p in m && p.id == g.supersedes.value && p.user == g.user
    {
      var k :| 0 <= k < |m| && m[k] == g;
      MarkedRow(rows, i, at, k);
      var p :| p in rows && p.id == g.supersedes.value && p.user == g.user;
      var j :| 0 <= j < |rows| && rows[j] == p;
      MarkedRow(rows, i, at, j);
    }
  }

  /** Marking a current fact breaks the agreement for that fact only. */
  lemma MarkedLinks(rows: seq<Fact>, i: nat, at: int)
    requires FactsOk(rows) && i < |rows| && CurrentFact(rows[i])
    ensures var marked := Marked(rows, i, at);
      && FactLinksOk(marked)
      && (forall f :: f in marked && f.id != rows[i].id ==> (CurrentFact(f) <==> !Named(marked, f)))
      && (forall f :: f in marked && f.id == rows[i].id ==> !CurrentFact(f) && !Named(marked, f))
      && marked[i] in marked
  {
    var marked := Marked(rows, i, at);
    MarkedLinksOk(rows, i, at);
    MarkedRow(rows, i, at, i);
    forall f | f in marked
      ensures if f.id == rows[i].id then !CurrentFact(f) && !Named(marked, f) else CurrentFact(f) <==> !Named(marked, f)
    {
      var k :| 0 <= k < |marked| && marked[k] == f;
      MarkedRow(rows, i, at, k);
      MarkedNamed(rows, i, at, f);
      MarkedNamed(rows, i, at, rows[i]);
      assert Named(rows, f) <==> Named(rows, rows[k]);
    }
  }

  /** The previous fact a correction finds, if any. */
  function Corrected(rows: seq<Fact>, c: FactCorrection): Option<nat> {
    if c.factId.Some? then FactAt(rows, c.user, c.factId.value)
    else if c.eventId.Some? then LatestCurrentFact(rows, c.user, c.eventId.value, AMOUNT_ID)
    else None
  }

  /**
   * Accepting a correction keeps the two notions in agreement exactly when it does not supersede a fact without
   * recording a successor: the case the completeness gate refuses.
   */
  lemma {:induction false} CorrectionKeepsExactly(rows: seq<Fact>, c: FactCorrection, at: int)
    requires FactsOk(rows)
    requires DoFactCorrection(rows, c, at).Some?
    ensures var after := DoFactCorrection(rows, c, at).value;
      && FactLinksOk(after)
      && (NotionsAgree(after) <==> !(Corrected(rows, c).Some? && c.facts == []))
  {
    if Corrected(rows, c).None? {
      RecordingKeeps(rows, c.user, Anchor(EventAnchor, c.eventId.value), c.facts, at);
    } else {
      var i := Corrected(rows, c).value;
      SupersedingKeepsExactly(rows, i, if c.factId.Some? then rows[i].about else Anchor(EventAnchor, c.eventId.value), c, at);
    }
  }

  lemma {:induction false} SupersedingKeepsExactly(rows: seq<Fact>, i: nat, about: Anchor, c: FactCorrection, at: int)
    requires FactsOk(rows) && i < |rows| && CurrentFact(rows[i])
    requires Supersede(rows, i, about, c, at).Some?
    ensures var after := Supersede(rows, i, about, c, at).value;
      FactLinksOk(after) && (NotionsAgree(after) <==> c.facts != [])
  {
    var marked := Marked(rows, i, at);
    MarkedLinks(rows, i, at);
    if c.facts == [] {
      assert marked[i] in marked && !NotionsAgree(marked);
    } else {
      var f := Fact(c.facts[0].id, c.user, about, c.facts[0].concept, c.facts[0].value, Some(rows[i].id), at, None);
      AppendFact(marked, f);
      assert f in marked + [f] && f.supersedes == Some(rows[i].id);
      if |c.facts| > 1 { SecondSuccessorRefused(marked + [f], c, about, rows[i].id, at); }
      assert DoFacts(marked + [f], c.user, about, c.facts[1..], Some(rows[i].id), at) == Some(marked + [f]);
    }
  }

  // ---------------------------------------------------------------- which corrections storage accepts

  predicate NewFactId(rows: seq<Fact>, input: FactInput) {
    !HasFact(rows, input.id)
  }

  predicate DifferentIds(inputs: seq<FactInput>) {
    forall i, j :: 0 <= i < j < |inputs| ==> inputs[i].id != inputs[j].id
  }

  lemma DifferentFromRest(inputs: seq<FactInput>)
    requires inputs != []
    ensures DifferentIds(inputs) <==> DifferentIds(inputs[1..]) && forall x :: x in inputs[1..] ==> x.id != inputs[0].id
  {
    var rest := inputs[1..];
    if DifferentIds(inputs) {
      forall x | x in rest ensures x.id != inputs[0].id {
        var k :| 0 <= k < |rest| && rest[k] == x;
        assert inputs[k + 1] == x;
      }
      forall i, j | 0 <= i < j < |rest| ensures rest[i].id != rest[j].id {
        assert inputs[i + 1].id != inputs[j + 1].id;
      }
    }
    if DifferentIds(rest) && forall x :: x in rest ==> x.id != inputs[0].id {
      forall i, j | 0 <= i < j < |inputs| ensures inputs[i].id != inputs[j].id {
        assert inputs[j] == rest[j - 1] && rest[j - 1] in rest;
        if i > 0 { assert inputs[i] == rest[i - 1]; }
      }
    }
  }

  /** Facts that supersede nothing are accepted exactly when their ids are new and different. */
  lemma {:induction false} RecordingAcceptedExactly(
    rows: seq<Fact>, user: Id, about: Anchor, inputs: seq<FactInput>, at: int)
    ensures DoFacts(rows, user, about, inputs, None, at).Some? <==>
      DifferentIds(inputs) && forall x :: x in inputs ==> NewFactId(rows, x)
    decreases |inputs|
  {
    if inputs != [] {
      var first, rest := inputs[0], inputs[1..];
      assert forall x :: x in inputs <==> x == first || x in rest;
      var f := Fact(first.id, user, about, first.concept, first.value, None, at, None);
      RecordingAcceptedExactly(rows + [f], user, about, rest, at);
      DifferentFromRest(inputs);
      forall x ensures NewFactId(rows + [f], x) <==> NewFactId(rows, x) && x.id != first.id { OneMoreId(rows, f, x); }
    }
  }

  lemma OneMoreId(rows: seq<Fact>, f: Fact, x: FactInput)
    ensures NewFactId(rows + [f], x) <==> NewFactId(rows, x) && x.id != f.id
  {
    assert forall g :: g in rows + [f] <==> g in rows || g == f;
  }

  /** One new fact of the concept, the anchor and the user of the fact it supersedes. */
  predicate Succeeds(rows: seq<Fact>, i: nat, about: Anchor, c: FactCorrection)
    requires i < |rows|
  {
    && |c.facts| == 1
    && NewFactId(rows, c.facts[0])
    && c.facts[0].concept == rows[i].concept
    && about == rows[i].about
    && c.user == rows[i].user
  }

  /**
   * Superseding a current fact is accepted exactly when the correction states no fact, or a single new one of the
   * same concept, anchor and user.
   */
  lemma {:induction false} SupersedeAcceptedExactly(rows: seq<Fact>, i: nat, about: Anchor, c: FactCorrection, at: int)
    requires FactsOk(rows) && i < |rows| && CurrentFact(rows[i])
    ensures Supersede(rows, i, about, c, at).Some? <==> c.facts == [] || Succeeds(rows, i, about, c)
  {
    if c.facts != [] {
      var marked := Marked(rows, i, at);
      var f := Fact(c.facts[0].id, c.user, about, c.facts[0].concept, c.facts[0].value, Some(rows[i].id), at, None);
      FirstSuccessorExactly(rows, i, f, at);
      if AcceptsFact(marked, f) {
        assert f in marked + [f] && f.supersedes == Some(rows[i].id);
        if |c.facts| > 1 {
          SecondSuccessorRefused(marked + [f], c, about, rows[i].id, at);
        } else {
          assert DoFacts(marked + [f], c.user, about, c.facts[1..], Some(rows[i].id), at) == Some(marked + [f]);
        }
      }
    }
  }

  /** A second successor of the same fact is refused. */
  lemma SecondSuccessorRefused(rows: seq<Fact>, c: FactCorrection, about: Anchor, id: Id, at: int)
    requires |c.facts| > 1 && exists g :: g in rows && g.supersedes == Some(id)
    ensures DoFacts(rows, c.user, about, c.facts[1..], Some(id), at).None?
  {
  }

  lemma MarkedIds(rows: seq<Fact>, i: nat, at: int, id: Id)
    requires i < |rows|
    ensures HasFact(Marked(rows, i, at), id) <==> HasFact(rows, id)
  {
    var m := Marked(rows, i, at);
    if g :| g in m && g.id == id {
      var k :| 0 <= k < |m| && m[k] == g;
      MarkedRow(rows, i, at, k);
    }
    if g :| g in rows && g.id == id {
      var k :| 0 <= k < |rows| && rows[k] == g;
      MarkedRow(rows, i, at, k);
    }
  }

  /** The marked row is the only one a successor of it can follow. */
  lemma OnlyPredecessor(rows: seq<Fact>, i: nat, at: int, f: Fact)
    requires FactLinksOk(rows) && i < |rows|
    ensures var m := Marked(rows, i, at);
      (exists p :: p in m && p.id == rows[i].id && p.user == f.user && p.about == f.about && p.concept == f.concept) <==>
        f.user == rows[i].user && f.about == rows[i].about && f.concept == rows[i].concept
  {
    var m := Marked(rows, i, at);
    MarkedLinksOk(rows, i, at);
    MarkedRow(rows, i, at, i);
    if p :| p in m && p.id == rows[i].id && p.user == f.user && p.about == f.about && p.concept == f.concept {
      SameFact(m, p, m[i]);
    }
  }

  /** Storage's checks on the first successor, said of the table before the mark. */
  lemma FirstSuccessorExactly(rows: seq<Fact>, i: nat, f: Fact, at: int)
    requires FactsOk(rows) && i < |rows| && CurrentFact(rows[i])
    requires f.supersedes == Some(rows[i].id)
    ensures AcceptsFact(Marked(rows, i, at), f) <==>
      !HasFact(rows, f.id) && f.user == rows[i].user && f.about == rows[i].about && f.concept == rows[i].concept
  {
    assert rows[i] in rows;
    MarkedIds(rows, i, at, f.id);
    OnlyPredecessor(rows, i, at, f);
    MarkedNamed(rows, i, at, rows[i]);
  }

  /**
   * A fact correction is accepted exactly in these cases. By fact id: the fact is the user's and current, and none
   * or one new fact of its concept is stated. By event, when that has a current amount: none, or one new amount about
   * the same anchor. By event without a current amount: any facts with new, different ids.
   */
  lemma {:induction false} CorrectionAcceptedExactly(rows: seq<Fact>, c: FactCorrection, at: int)
    requires FactsOk(rows)
    ensures DoFactCorrection(rows, c, at).Some? <==>
      if c.factId.Some? then
        var found := FactAt(rows, c.user, c.factId.value);
        && found.Some? && CurrentFact(rows[found.value])
        && (c.facts == [] || Succeeds(rows, found.value, rows[found.value].about, c))
      else if c.eventId.None? then false
      else
        match LatestCurrentFact(rows, c.user, c.eventId.value, AMOUNT_ID)
        case Some(i) => c.facts == [] || Succeeds(rows, i, Anchor(EventAnchor, c.eventId.value), c)
        case None =>
          DifferentIds(c.facts) && forall x :: x in c.facts ==> NewFactId(rows, x)
  {
    if c.factId.Some? {
      var found := FactAt(rows, c.user, c.factId.value);
      if found.Some? && CurrentFact(rows[found.value]) {
        SupersedeAcceptedExactly(rows, found.value, rows[found.value].about, c, at);
      }
    } else if c.eventId.Some? {
      var about := Anchor(EventAnchor, c.eventId.value);
      var found := LatestCurrentFact(rows, c.user, c.eventId.value, AMOUNT_ID);
      if found.Some? {
        SupersedeAcceptedExactly(rows, found.value, about, c, at);
      } else {
        RecordingAcceptedExactly(rows, c.user, about, c.facts, at);
      }
    }
  }

  /** A correction that names an event only. */
  function OfEvent(user: Id, event: Id, facts: seq<FactInput>): FactCorrection {
    FactCorrection(user, Some(event), None, facts)
  }

  /** One current amount recorded about an event. */
  function OneAmount(user: Id, event: Id): seq<Fact> {
    [Fact("f1", user, Anchor(EventAnchor, event), AMOUNT_ID, "10", None, 1, None)]
  }

  lemma OneAmountOk(user: Id, event: Id)
    ensures FactsOk(OneAmount(user, event))
    ensures LatestCurrentFact(OneAmount(user, event), user, event, AMOUNT_ID) == Some(0)
  {
    assert OneAmount(user, event)[..0] == [];
  }

  /** Two facts stated about an event with a current amount: the correction is refused. */
  lemma {:induction false} TwoFactsRefused(user: Id, event: Id, at: int)
    ensures var c := OfEvent(user, event, [FactInput("f2", AMOUNT_ID, "12"), FactInput("f3", AMOUNT_ID, "13")]);
      CorrectionComplete(c) && DoFactCorrection(OneAmount(user, event), c, at).None?
  {
    OneAmountOk(user, event);
    CorrectionAcceptedExactly(OneAmount(user, event),
      OfEvent(user, event, [FactInput("f2", AMOUNT_ID, "12"), FactInput("f3", AMOUNT_ID, "13")]), at);
  }

  /** One fact of another concept, stated of an event that has a current amount: the correction is refused too. */
  lemma {:induction false} OtherConceptRefused(user: Id, event: Id, concept: Id, value: string, at: int)
    requires concept != AMOUNT_ID
    ensures var c := OfEvent(user, event, [FactInput("f2", concept, value)]);
      CorrectionComplete(c) && DoFactCorrection(OneAmount(user, event), c, at).None?
  {
    OneAmountOk(user, event);
    CorrectionAcceptedExactly(OneAmount(user, event), OfEvent(user, event, [FactInput("f2", concept, value)]), at);
  }

  /** For one user's facts, being current by mark and being current by links are the same thing. */
  lemma CurrentFactsAgree(rows: seq<Fact>, user: Id, f: Fact)
    requires FactsOk(rows) && f in rows && f.user == user
    ensures CurrentFact(f) <==> f.id in CurrentFactIds(Filter(OfUser(user), rows))
  {
    var own := Filter(OfUser(user), rows);
    forall g ensures g in own <==> g in rows && g.user == user { FilterMember(OfUser(user), rows, g); }
    if Named(rows, f) {
      var g :| g in rows && g.supersedes == Some(f.id);
      var p :| p in rows && p.id == f.id && p.user == g.user;
      SameFact(rows, p, f);
      assert g in own;
    }
  }

  lemma SameFact(rows: seq<Fact>, p: Fact, q: Fact)
    requires FactLinksOk(rows) && p in rows && q in rows && p.id == q.id
    ensures p == q
  {
    var i :| 0 <= i < |rows| && rows[i] == p;
    var j :| 0 <= j < |rows| && rows[j] == q;
  }

  // ---------------------------------------------------------------- which fact is corrected, and what is left

  ghost predicate IsFact(f: Fact, user: Id, id: Id) {
    f.id == id && f.user == user
  }

  lemma {:induction false} FactAtExactly(rows: seq<Fact>, user: Id, id: Id)
    ensures FactAt(rows, user, id).None? <==> forall i :: 0 <= i < |rows| ==> !IsFact(rows[i], user, id)
    ensures var found := FactAt(rows, user, id);
      found.Some? ==> IsFact(rows[found.value], user, id) && forall j :: found.value < j < |rows| ==> !IsFact(rows[j], user, id)
  {
    if rows != [] { FactAtExactly(rows[..|rows| - 1], user, id); }
  }

  /** An unmarked fact of the user about the event under the concept. */
  ghost predicate StandsFor(f: Fact, user: Id, event: Id, concept: Id) {
    f.user == user && f.about.id == event && f.concept == concept && f.supersededAt.None?
  }

  /** Recorded after the other, or as late and under the greater id. */
  ghost predicate Later(a: Fact, b: Fact) {
    a.createdAt > b.createdAt || (a.createdAt == b.createdAt && Lex.Less(b.id, a.id))
  }

  lemma LaterOrNot(a: Fact, b: Fact)
    ensures !(Later(a, b) && Later(b, a))
  {
    if Lex.Less(a.id, b.id) { Lex.Asymmetric(a.id, b.id); }
  }

  lemma NotLaterThan(a: Fact, b: Fact, c: Fact)
    requires !Later(a, b) && Later(c, b)
    ensures Later(c, a)
  {
    Lex.Total(a.id, b.id);
    if Lex.Less(a.id, b.id) && a.createdAt == b.createdAt == c.createdAt { Lex.Transitive(a.id, b.id, c.id); }
  }

  /** The latest one, or none when there is none. */
  lemma {:induction false} LatestCurrentExactly(rows: seq<Fact>, user: Id, event: Id, concept: Id)
    ensures var found := LatestCurrentFact(rows, user, event, concept);
      && (found.None? <==> forall i :: 0 <= i < |rows| ==> !StandsFor(rows[i], user, event, concept))
      && (found.Some? ==>
            && StandsFor(rows[found.value], user, event, concept)
            && forall j :: 0 <= j < |rows| && StandsFor(rows[j], user, event, concept) ==> !Later(rows[j], rows[found.value]))
  {
    if rows != [] {
      var n := |rows| - 1;
      LatestCurrentExactly(rows[..n], user, event, concept);
      var earlier := LatestCurrentFact(rows[..n], user, event, concept);
      if StandsFor(rows[n], user, event, concept) && earlier.Some? {
        var i := earlier.value;
        LaterOrNot(rows[n], rows[n]);
        if Later(rows[n], rows[i]) {
          forall j | 0 <= j < n && StandsFor(rows[j], user, event, concept) ensures !Later(rows[j], rows[n]) {
            assert rows[j] == rows[..n][j];
            NotLaterThan(rows[j], rows[i], rows[n]);
            LaterOrNot(rows[j], rows[n]);
          }
        }
      } else if StandsFor(rows[n], user, event, concept) {
        LaterOrNot(rows[n], rows[n]);
      }
    }
  }

  /** The fact at `i` is marked, and one new fact of the correction follows as its successor. */
  ghost predicate Succeeded(rows: seq<Fact>, i: nat, about: Anchor, c: FactCorrection, at: int, after: seq<Fact>)
    requires i < |rows|
  {
    && |c.facts| == 1
    && after == rows[i := rows[i].(supersededAt := Some(at))]
         + [Fact(c.facts[0].id, c.user, about, c.facts[0].concept, c.facts[0].value, Some(rows[i].id), at, None)]
  }

  lemma {:induction false} SupersedeLeaves(rows: seq<Fact>, i: nat, about: Anchor, c: FactCorrection, at: int)
    requires i < |rows| && c.facts != [] && FactsOk(rows) && CurrentFact(rows[i])
    requires Supersede(rows, i, about, c, at).Some?
    ensures Succeeded(rows, i, about, c, at, Supersede(rows, i, about, c, at).value)
  {
    var marked := Marked(rows, i, at);
    MarkedLinks(rows, i, at);
    var f := Fact(c.facts[0].id, c.user, about, c.facts[0].concept, c.facts[0].value, Some(rows[i].id), at, None);
    AppendFact(marked, f);
    assert f in marked + [f] && f.supersedes == Some(rows[i].id);
    if |c.facts| > 1 { SecondSuccessorRefused(marked + [f], c, about, rows[i].id, at); }
    assert DoFacts(marked + [f], c.user, about, c.facts[1..], Some(rows[i].id), at) == Some(marked + [f]);
  }

  /**
   * A complete correction, once accepted: by fact id it marks that unmarked fact and records its one successor about
   * the same subject; by event it does so with the latest unmarked amount of the event, or without one only records.
   */
  lemma {:induction false} CorrectionLeavesExactly(rows: seq<Fact>, c: FactCorrection, at: int)
    requires FactsOk(rows) && CorrectionComplete(c) && DoFactCorrection(rows, c, at).Some?
    ensures var after := DoFactCorrection(rows, c, at).value;
      if c.factId.Some? then
        exists i :: 0 <= i < |rows| && IsFact(rows[i], c.user, c.factId.value) && rows[i].supersededAt.None?
          && Succeeded(rows, i, rows[i].about, c, at, after)
      else if exists i :: 0 <= i < |rows| && StandsFor(rows[i], c.user, c.eventId.value, "core:attribute.amount") then
        exists i :: LatestAmount(rows, c, i) && Succeeded(rows, i, Anchor(EventAnchor, c.eventId.value), c, at, after)
      else after == rows + Recorded(c, at)
  {
    if c.factId.Some? {
      FactAtExactly(rows, c.user, c.factId.value);
      var i := FactAt(rows, c.user, c.factId.value).value;
      SupersedeLeaves(rows, i, rows[i].about, c, at);
    } else {
      LatestCurrentExactly(rows, c.user, c.eventId.value, "core:attribute.amount");
      var found := LatestCurrentFact(rows, c.user, c.eventId.value, AMOUNT_ID);
      if found.Some? {
        assert LatestAmount(rows, c, found.value);
        SupersedeLeaves(rows, found.value, Anchor(EventAnchor, c.eventId.value), c, at);
      } else {
        RecordedLeaves(rows, c.user, c.eventId.value, c.facts, at);
      }
    }
  }

  ghost predicate LatestAmount(rows: seq<Fact>, c: FactCorrection, i: int)
    requires c.eventId.Some?
  {
    && 0 <= i < |rows| && StandsFor(rows[i], c.user, c.eventId.value, "core:attribute.amount")
    && forall j :: 0 <= j < |rows| && StandsFor(rows[j], c.user, c.eventId.value, "core:attribute.amount") ==>
         !Later(rows[j], rows[i])
  }

  function NewFacts(user: Id, event: Id, inputs: seq<FactInput>, at: int): (r: seq<Fact>)
    ensures |r| == |inputs|
    ensures forall k :: 0 <= k < |inputs| ==>
      r[k] == Fact(inputs[k].id, user, Anchor(EventAnchor, event), inputs[k].concept, inputs[k].value, None, at, None)
  {
    seq(|inputs|, k requires 0 <= k < |inputs| =>
      Fact(inputs[k].id, user, Anchor(EventAnchor, event), inputs[k].concept, inputs[k].value, None, at, None))
  }

  /** The facts of a correction that finds nothing to mark. */
  function Recorded(c: FactCorrection, at: int): seq<Fact>
    requires c.eventId.Some?
  {
    NewFacts(c.user, c.eventId.value, c.facts, at)
  }

  lemma {:induction false} RecordedLeaves(rows: seq<Fact>, user: Id, event: Id, inputs: seq<FactInput>, at: int)
    requires DoFacts(rows, user, Anchor(EventAnchor, event), inputs, None, at).Some?
    ensures DoFacts(rows, user, Anchor(EventAnchor, event), inputs, None, at) == Some(rows + NewFacts(user, event, inputs, at))
    decreases |inputs|
  {
    if inputs == [] {
      assert rows + NewFacts(user, event, inputs, at) == rows;
    } else {
      var f := Fact(inputs[0].id, user, Anchor(EventAnchor, event), inputs[0].concept, inputs[0].value, None, at, None);
      RecordedLeaves(rows + [f], user, event, inputs[1..], at);
      assert rows + [f] + NewFacts(user, event, inputs[1..], at) == rows + NewFacts(user, event, inputs, at);
    }
  }
}
