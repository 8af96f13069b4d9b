/** Current state by dimension, with its epistemic completeness. */
module StateResolver {
  import opened Prelude
  import opened Domain
  import Lex
  import opened Ranking
  import opened TimeRanking

  datatype CurrentStateResult = CurrentStateResult(state: Option<State>, completeness: Completeness, indeterminate: nat)

  function StateTime(): State -> Temporal { (s: State) => s.temporal }

  function InPool(dimensionKey: string, onlyCurrent: bool): State -> bool {
    (s: State) => s.dimensionKey == dimensionKey && (onlyCurrent ==> s.isCurrent)
  }

  function Verdict(ranked: seq<Keyed<State>>, unknown: seq<State>): CurrentStateResult {
    if ranked == [] then
      if unknown == [] then CurrentStateResult(None, Complete, 0)
      else if |unknown| == 1 then CurrentStateResult(Some(unknown[0]), Partial, 0)
      else CurrentStateResult(None, Indeterminate, |unknown|)
    else
      var chosen := ranked[0];
      if unknown != [] then CurrentStateResult(Some(chosen.row), Partial, |unknown|)
      else if |ranked| > 1 && chosen.rank == ranked[1].rank && chosen.stamp == ranked[1].stamp then
        CurrentStateResult(Some(chosen.row), Indeterminate, 1)
      else CurrentStateResult(Some(chosen.row), Complete, 0)
  }

  function CurrentState(states: seq<State>, dimensionKey: string, onlyCurrent: bool): CurrentStateResult {
    var pool := Filter(InPool(dimensionKey, onlyCurrent), states);
    Verdict(Ranked(StateTime(), StateId(), pool), WithoutTime(StateTime(), pool))
  }

  method ResolveCurrent(states: seq<State>, dimensionKey: string, onlyCurrent: bool) returns (r: CurrentStateResult)
    ensures r == CurrentState(states, dimensionKey, onlyCurrent)
  {
    var pool := Filter(InPool(dimensionKey, onlyCurrent), states);
    var ranked, unknown := SplitByTime(StateTime(), StateId(), pool);
    r := Verdict(ranked, unknown);
  }

  /** Row order never decides the current state. */
  lemma {:induction false} CurrentStateOrderFree(s: seq<State>, t: seq<State>, dimensionKey: string, onlyCurrent: bool)
    requires multiset(s) == multiset(t) && IdsIdentify(StateId(), s)
    ensures CurrentState(s, dimensionKey, onlyCurrent) == CurrentState(t, dimensionKey, onlyCurrent)
  {
    var p := InPool(dimensionKey, onlyCurrent);
    FilterPermutation(p, s, t);
    forall x | x in Filter(p, s) ensures x in s { FilterMember(p, s, x); }
    RankedOrderFree(StateTime(), StateId(), Filter(p, s), Filter(p, t));
    var a, b := WithoutTime(StateTime(), Filter(p, s)), WithoutTime(StateTime(), Filter(p, t));
    PermutationLength(a, b);
    if |a| == 1 { PermutationSingleton(a, b); }
  }

  /** The state chosen among timed candidates is one of them, and none of them has a greater sort key. */
  lemma {:induction false} CurrentStateIsLatest(states: seq<State>, dimensionKey: string, onlyCurrent: bool)
    requires exists x :: x in states && InPool(dimensionKey, onlyCurrent)(x) && KnownTime(x.temporal)
    ensures var r := CurrentState(states, dimensionKey, onlyCurrent);
      && r.state.Some?
      && r.state.value in states && InPool(dimensionKey, onlyCurrent)(r.state.value) && KnownTime(r.state.value.temporal)
      && forall x :: x in states && InPool(dimensionKey, onlyCurrent)(x) && KnownTime(x.temporal) ==>
           !KeyLess(KeyOf(StateTime(), StateId())(r.state.value), KeyOf(StateTime(), StateId())(x))
  {
    var p := InPool(dimensionKey, onlyCurrent);
    var pool := Filter(p, states);
    forall x ensures x in pool <==> x in states && p(x) { FilterMember(p, states, x); }
    RankedTop(StateTime(), StateId(), pool);
  }

  /** The answer is a state no candidate with an instant is later than, by the clock. */
  ghost predicate LatestByClock(states: seq<State>, dimensionKey: string) {
    var r := CurrentState(states, dimensionKey, true);
    states != [] ==>
      && r.state.Some? && r.state.value.temporal.instant.Some?
      && forall x :: x in states && x.temporal.instant.Some? ==>
           x.temporal.instant.value.epoch <= r.state.value.temporal.instant.value.epoch
  }

  /** With every state a candidate that has an instant, the answer is the first in rank. */
  lemma {:induction false} FirstInRank(states: seq<State>, dimensionKey: string)
    requires states != [] && forall x :: x in states ==> InPool(dimensionKey, true)(x) && KnownTime(x.temporal)
    ensures Ranked(StateTime(), StateId(), states) != []
    ensures CurrentState(states, dimensionKey, true).state == Some(Ranked(StateTime(), StateId(), states)[0].row)
  {
    FilterAll(InPool(dimensionKey, true), states);
    assert states[0] in states;
    RankedTop(StateTime(), StateId(), states);
    FilterNone(Untimed(StateTime()), states);
  }

  lemma {:induction false} AllInPool(states: seq<State>, dimensionKey: string)
    requires forall x :: x in states ==> InPool(dimensionKey, true)(x) && x.temporal.instant.Some?
    ensures LatestByClock(states, dimensionKey) <==> TopIsLatest(StateTime(), StateId(), states)
  {
    if states != [] { FirstInRank(states, dimensionKey); }
  }

  /**
   * Among candidates with instants, whichever of them are stored, the current state is the latest by the clock
   * exactly when the ISO texts are in the order of the instants.
   */
  lemma {:induction false} LatestByClockExactly(states: seq<State>, dimensionKey: string)
    requires forall x :: x in states ==> InPool(dimensionKey, true)(x) && x.temporal.instant.Some?
    requires TextNamesTime(InstantOf(StateTime()), states)
    ensures (forall some: seq<State> :: Within(some, states) ==> LatestByClock(some, dimensionKey))
      <==> TextOrderAgrees(InstantOf(StateTime()), states)
  {
    TopIsLatestExactly(StateTime(), StateId(), states);
    forall some: seq<State> | Within(some, states)
      ensures LatestByClock(some, dimensionKey) <==> TopIsLatest(StateTime(), StateId(), some)
    {
      AllInPool(some, dimensionKey);
    }
  }

  /** A state known only by the start of an interval is preferred to any state with an instant, however late. */
  lemma {:induction false} IntervalOutranksInstant(a: State, b: State, dimensionKey: string)
    requires InPool(dimensionKey, true)(a) && a.temporal.instant.None? && a.temporal.intervalStart.Some?
    requires InPool(dimensionKey, true)(b) && b.temporal.instant.Some?
    ensures CurrentState([a, b], dimensionKey, true).state == Some(a)
  {
    var states := [a, b];
    assert states[0] == a && a in states && KnownTime(a.temporal);
    FirstInRank(states, dimensionKey);
    RankedTop(StateTime(), StateId(), states);
  }

  /** With every candidate's time known, the answer is indeterminate exactly when another one is just as late. */
  lemma {:induction false} TieExactly(states: seq<State>, dimensionKey: string, onlyCurrent: bool)
    requires forall i, j :: 0 <= i < j < |states| ==> states[i] != states[j]
    requires Filter(InPool(dimensionKey, onlyCurrent), states) != []
    requires forall x :: x in states && InPool(dimensionKey, onlyCurrent)(x) ==> KnownTime(x.temporal)
    ensures var r := CurrentState(states, dimensionKey, onlyCurrent);
      r.completeness == Indeterminate <==>
        exists x :: x in Filter(InPool(dimensionKey, onlyCurrent), states) && r.state.Some? && x != r.state.value
                    && SortKey(x.temporal) == SortKey(r.state.value.temporal)
  {
    var p := InPool(dimensionKey, onlyCurrent);
    var pool := Filter(p, states);
    FilterDistinct(p, states);
    RankedRows(StateTime(), StateId(), pool);
    forall x | x in pool ensures KnownTime(x.temporal) { FilterMember(p, states, x); }
    FilterNone(Untimed(StateTime()), pool);
    var key, ranked := KeyOf(StateTime(), StateId()), Ranked(StateTime(), StateId(), pool);
    assert key(pool[0]) in ranked;
    assert ranked[0] in ranked;
    TieInRanking(StateTime(), StateId(), pool, ranked);
  }

  /** With at most one candidate row, that row is the answer: complete when its time is known, partial when not. */
  lemma {:induction false} CurrentStateOfOne(states: seq<State>, dimensionKey: string, onlyCurrent: bool)
    requires |Filter(InPool(dimensionKey, onlyCurrent), states)| <= 1
    ensures var pool := Filter(InPool(dimensionKey, onlyCurrent), states);
      CurrentState(states, dimensionKey, onlyCurrent) ==
        if pool == [] then CurrentStateResult(None, Complete, 0)
        else CurrentStateResult(Some(pool[0]), if KnownTime(pool[0].temporal) then Complete else Partial, 0)
  {
    var pool := Filter(InPool(dimensionKey, onlyCurrent), states);
    if pool != [] {
      assert pool == [pool[0]];
      SplitOfOne(StateTime(), StateId(), pool[0]);
    }
  }
}
