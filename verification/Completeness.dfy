/** Judging a candidate against its schema: what is missing, whether that blocks, and what to ask about. */
module Completeness {
  import opened Prelude
  import opened Schemas
  import T = Store

  datatype Presence = Present | Missing | Invalid | NotApplicable

  datatype Evaluation = Evaluation(slot: string, importance: Importance, status: Presence)

  /** The correction slots are judged here; `other` says how every other kind of slot stands. */
  function PresenceOf(r: Requirement, correction: Option<T.FactCorrection>, other: Requirement -> Presence): Presence {
    match r.check
    case CorrectionTargetSlot =>
      if correction.None? then NotApplicable
      else if correction.value.eventId.Some? || correction.value.factId.Some? then Present
      else Missing
    case CorrectionFactSlot =>
      if correction.None? then NotApplicable else if correction.value.facts != [] then Present else Missing
    case _ => other(r)
  }

  function Evaluate(
    rs: seq<Requirement>, correction: Option<T.FactCorrection>, other: Requirement -> Presence): (es: seq<Evaluation>)
    ensures |es| == |rs|
    ensures forall i :: 0 <= i < |rs| ==>
      es[i] == Evaluation(rs[i].slot, rs[i].importance, PresenceOf(rs[i], correction, other))
  {
    seq(|rs|, i requires 0 <= i < |rs| => Evaluation(rs[i].slot, rs[i].importance, PresenceOf(rs[i], correction, other)))
  }

  function EssentialMissing(es: seq<Evaluation>): seq<string> {
    if es == [] then []
    else
      var e := es[|es| - 1];
      EssentialMissing(es[..|es| - 1]) + (if e.importance == Essential && e.status == Missing then [e.slot] else [])
  }

  predicate Blocking(es: seq<Evaluation>) {
    EssentialMissing(es) != []
  }

  lemma {:induction false} BlockingExactly(es: seq<Evaluation>)
    ensures Blocking(es) <==> exists e :: e in es && e.importance == Essential && e.status == Missing
  {
    if es != [] {
      BlockingExactly(es[..|es| - 1]);
      assert es == es[..|es| - 1] + [es[|es| - 1]];
      assert es[|es| - 1] in es;
    }
  }

  // ---------------------------------------------------------------- the correction gate

  const CORRECTION_SCHEMA := Schema("intent.correct", None, [
      Requirement("target", "slot.correction_target", Essential, CorrectionTargetSlot, 10,
        Some("clarify.correction.target"), false),
      Requirement("fact", "slot.correction_fact", Essential, CorrectionFactSlot, 20,
        Some("clarify.correction.fact"), false)], "1")

  /** A fact correction passes the gate exactly when it names a target and states at least one fact. */
  lemma CorrectionGateExactly(c: T.FactCorrection, other: Requirement -> Presence)
    ensures !Blocking(Evaluate(CORRECTION_SCHEMA.requirements, Some(c), other)) <==> T.CorrectionComplete(c)
  {
    var es := Evaluate(CORRECTION_SCHEMA.requirements, Some(c), other);
    BlockingExactly(es);
    assert es[0] in es && es[1] in es;
    assert forall e :: e in es ==> e == es[0] || e == es[1];
  }

  // ---------------------------------------------------------------- what to ask

  datatype Clarification = Clarification(requirement: Requirement, blocking: bool)

  /** Requirement `i` is missing, of the importance, and worth asking if it is only useful. */
  ghost predicate Open(rs: seq<Requirement>, importance: Importance, status: Requirement -> Presence, i: int) {
    0 <= i < |rs| && rs[i].importance == importance && status(rs[i]) == Missing && (importance == Useful ==> rs[i].askIfMissing)
  }

  ghost predicate AnyOpen(rs: seq<Requirement>, importance: Importance, status: Requirement -> Presence) {
    exists i :: Open(rs, importance, status, i)
  }

  /** It is open, none open has a lower priority number, and none before it an equal one. */
  ghost predicate First(rs: seq<Requirement>, importance: Importance, status: Requirement -> Presence, i: int) {
    && Open(rs, importance, status, i)
    && forall j :: Open(rs, importance, status, j) ==>
         rs[i].priority <= rs[j].priority && (j < i ==> rs[i].priority < rs[j].priority)
  }

  /** It is asked about if it has a question. */
  ghost predicate AsksAbout(r: Requirement, blocking: bool, c: Option<Clarification>) {
    c == if r.clarificationKey.None? then None else Some(Clarification(r, blocking))
  }

  /**
   * One question at most: about the first essential requirement that is open, or without one about the first useful
   * one; none when that has no question or nothing is open.
   */
  method PickClarification(rs: seq<Requirement>, status: Requirement -> Presence) returns (c: Option<Clarification>)
    ensures AnyOpen(rs, Essential, status) ==> exists i :: First(rs, Essential, status, i) && AsksAbout(rs[i], true, c)
    ensures !AnyOpen(rs, Essential, status) && AnyOpen(rs, Useful, status) ==>
      exists i :: First(rs, Useful, status, i) && AsksAbout(rs[i], false, c)
    ensures !AnyOpen(rs, Essential, status) && !AnyOpen(rs, Useful, status) ==> c.None?
  {
    var essential, e := Least(rs, Essential, status);
    var useful, u := Least(rs, Useful, status);
    if essential {
      c := if rs[e].clarificationKey.None? then None else Some(Clarification(rs[e], true));
      assert First(rs, Essential, status, e) && AsksAbout(rs[e], true, c);
    } else if useful {
      c := if rs[u].clarificationKey.None? then None else Some(Clarification(rs[u], false));
      assert First(rs, Useful, status, u) && AsksAbout(rs[u], false, c);
    } else {
      c := None;
    }
  }

  method Least(rs: seq<Requirement>, importance: Importance, status: Requirement -> Presence)
    returns (found: bool, least: nat)
    ensures found <==> AnyOpen(rs, importance, status)
    ensures found ==> First(rs, importance, status, least)
  {
    found, least := false, 0;
    for i := 0 to |rs|
      invariant found <==> exists j :: 0 <= j < i && Open(rs, importance, status, j)
      invariant found ==> least < i && Open(rs, importance, status, least)
      invariant found ==> forall j :: 0 <= j < i && Open(rs, importance, status, j) ==>
        rs[least].priority <= rs[j].priority && (j < least ==> rs[least].priority < rs[j].priority)
    {
      var open := rs[i].importance == importance && status(rs[i]) == Missing && (importance == Useful ==> rs[i].askIfMissing);
      assert open <==> Open(rs, importance, status, i);
      if open && (!found || rs[i].priority < rs[least].priority) {
        found, least := true, i;
      }
    }
  }
}
