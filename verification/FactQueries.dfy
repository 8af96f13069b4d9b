/** Facts of events: selecting them by version policy, and which event counts as the latest. */
module FactQueries {
  import opened Prelude
  import opened Domain
  import opened Ranking
  import opened TimeRanking
  import T = Store
  import F = FactLifecycle
  import Runs

  datatype Policy = CurrentPolicy | HistoryPolicy

  function AboutEvent(id: Id): Fact -> bool { (f: Fact) => f.about.id == id }

  function Keeps(concepts: seq<Id>, policy: Policy, current: set<Id>): Fact -> bool {
    (f: Fact) => f.concept in concepts && (policy == CurrentPolicy ==> f.id in current)
  }

  /** Event by event, the facts about it under the concepts asked for; superseded ones only for history. */
  function Selected(events: seq<Id>, facts: seq<Fact>, concepts: seq<Id>, policy: Policy, current: set<Id>): seq<Fact> {
    if events == [] || concepts == [] then []
    else
      Selected(events[..|events| - 1], facts, concepts, policy, current)
      + Filter(Keeps(concepts, policy, current), Filter(AboutEvent(events[|events| - 1]), facts))
  }

  /** The dictionary from event to facts, as it is filled. */
  method FactsForEvents(facts: seq<Fact>, events: set<Id>) returns (grouped: map<Id, seq<Fact>>)
    ensures grouped.Keys == events
    ensures forall e :: e in events ==> grouped[e] == Filter(AboutEvent(e), facts)
  {
    grouped := map e | e in events :: [];
    for i := 0 to |facts|
      invariant grouped.Keys == events
      invariant forall e :: e in events ==> grouped[e] == Filter(AboutEvent(e), facts[..i])
    {
      assert facts[..i + 1] == facts[..i] + [facts[i]];
      forall e ensures Filter(AboutEvent(e), facts[..i + 1])
        == Filter(AboutEvent(e), facts[..i]) + (if facts[i].about.id == e then [facts[i]] else [])
      {
        FilterAppend(AboutEvent(e), facts[..i], facts[i]);
      }
      var about := facts[i].about.id;
      if about in grouped { grouped := grouped[about := grouped[about] + [facts[i]]]; }
    }
    assert facts[..|facts|] == facts;
  }

  method KeepFacts(kept: seq<Fact>, about: seq<Fact>, concepts: seq<Id>, policy: Policy, current: set<Id>)
    returns (selected: seq<Fact>)
    ensures selected == kept + Filter(Keeps(concepts, policy, current), about)
  {
    selected := kept;
    for j := 0 to |about|
      invariant selected == kept + Filter(Keeps(concepts, policy, current), about[..j])
    {
      assert about[..j + 1] == about[..j] + [about[j]];
      FilterAppend(Keeps(concepts, policy, current), about[..j], about[j]);
      if about[j].concept in concepts && (policy == CurrentPolicy ==> about[j].id in current) {
        selected := selected + [about[j]];
      }
    }
    assert about[..|about|] == about;
  }

  method SelectFacts(events: seq<Id>, facts: seq<Fact>, concepts: seq<Id>, policy: Policy, current: set<Id>)
    returns (selected: seq<Fact>)
    ensures selected == Selected(events, facts, concepts, policy, current)
  {
    if concepts == [] { return []; }
    var grouped := FactsForEvents(facts, set e | e in events);
    selected := [];
    for i := 0 to |events|
      invariant selected == Selected(events[..i], facts, concepts, policy, current)
    {
      assert events[..i + 1][..i] == events[..i];
      assert events[i] in events;
      selected := KeepFacts(selected, grouped[events[i]], concepts, policy, current);
    }
    assert events[..|events|] == events;
  }

  lemma {:induction false} SelectedMember(
    events: seq<Id>, facts: seq<Fact>, concepts: seq<Id>, policy: Policy, current: set<Id>, f: Fact)
    ensures f in Selected(events, facts, concepts, policy, current) <==>
      f in facts && f.about.id in events && f.concept in concepts && (policy == CurrentPolicy ==> f.id in current)
  {
    if events != [] && concepts != [] {
      var front, last := events[..|events| - 1], events[|events| - 1];
      assert events == front + [last];
      SelectedMember(front, facts, concepts, policy, current, f);
      FilterMember(AboutEvent(last), facts, f);
      FilterMember(Keeps(concepts, policy, current), Filter(AboutEvent(last), facts), f);
    }
  }

  /** A fact is selected once if its event is listed once. */
  lemma {:induction false} SelectedOnce(
    events: seq<Id>, facts: seq<Fact>, concepts: seq<Id>, policy: Policy, current: set<Id>, f: Fact)
    requires forall i, j :: 0 <= i < j < |events| ==> events[i] != events[j]
    ensures multiset(Selected(events, facts, concepts, policy, current))[f] ==
      if f.about.id in events && Keeps(concepts, policy, current)(f) then multiset(facts)[f] else 0
  {
    if events != [] && concepts != [] {
      var front, last := events[..|events| - 1], events[|events| - 1];
      assert events == front + [last];
      assert last !in front by {
        forall i | 0 <= i < |front| ensures front[i] != last { assert events[i] != events[|events| - 1]; }
      }
      SelectedOnce(front, facts, concepts, policy, current, f);
      FilterCount(AboutEvent(last), facts, f);
      FilterCount(Keeps(concepts, policy, current), Filter(AboutEvent(last), facts), f);
    }
  }

  /** Selection goes event by event, in the order asked, and takes of each event what is wanted, in the order stored. */
  lemma {:induction false} SelectedInOrder(
    events: seq<Id>, e: Id, facts: seq<Fact>, concepts: seq<Id>, policy: Policy, current: set<Id>)
    ensures Selected([], facts, concepts, policy, current) == []
    ensures Selected(events + [e], facts, concepts, policy, current) ==
      Selected(events, facts, concepts, policy, current) + Filter(Wanted(e, concepts, policy, current), facts)
  {
    assert (events + [e])[..|events|] == events;
    FilterTwice(AboutEvent(e), Keeps(concepts, policy, current), facts);
    FilterAgree(Both(AboutEvent(e), Keeps(concepts, policy, current)), Wanted(e, concepts, policy, current), facts);
    if concepts == [] { FilterNone(Wanted(e, concepts, policy, current), facts); }
  }

  function Wanted(e: Id, concepts: seq<Id>, policy: Policy, current: set<Id>): Fact -> bool {
    (f: Fact) => f.about.id == e && f.concept in concepts && (policy == CurrentPolicy ==> f.id in current)
  }

  /**
   * In every reachable store a question about the current facts of events selects exactly the user's unmarked
   * facts, and a question about their history all of them.
   */
  lemma {:induction false} FactReadBack(
    env: T.Env, run: seq<T.Timed>, user: Id, events: seq<Id>, concepts: seq<Id>, policy: Policy, f: Fact)
    requires Runs.Deployed(env)
    ensures var facts := Filter(F.OfUser(user), T.Run(env, run).facts);
      f in Selected(events, facts, concepts, policy, F.CurrentFactIds(facts)) <==>
        && f in T.Run(env, run).facts && f.user == user
        && f.about.id in events && f.concept in concepts
        && (policy == CurrentPolicy ==> CurrentFact(f))
  {
    var facts := Filter(F.OfUser(user), T.Run(env, run).facts);
    SelectedMember(events, facts, concepts, policy, F.CurrentFactIds(facts), f);
    FilterMember(F.OfUser(user), T.Run(env, run).facts, f);
    if f in facts { Runs.ReachableFacts(env, run, user, f); }
  }

  // ---------------------------------------------------------------- the latest event

  function EventTime(): Event -> Temporal { (e: Event) => e.temporal }
  function HasInstant(): Event -> bool { (e: Event) => e.temporal.instant.Some? }

  function KnownEvents(events: seq<Event>): seq<Keyed<Event>> {
    Sort(true, KeyAll(KeyOf(EventTime(), EventId()), Filter(HasInstant(), events)))
  }

  /** The latest event with a calendar instant; without one, the first event there is. */
  function LatestEvent(events: seq<Event>): Option<Event> {
    if events == [] then None
    else if KnownEvents(events) != [] then Some(KnownEvents(events)[0].row)
    else Some(events[0])
  }

  lemma {:induction false} KnownEventsExactly(events: seq<Event>)
    ensures KnownEvents(events) == [] <==> forall e :: e in events ==> e.temporal.instant.None?
  {
    var known := Filter(HasInstant(), events);
    var keyed := KeyAll(KeyOf(EventTime(), EventId()), known);
    SortPermutes(true, keyed);
    PermutationLength(keyed, Sort(true, keyed));
    if known != [] {
      FilterMember(HasInstant(), events, known[0]);
    } else {
      forall e | e in events ensures e.temporal.instant.None? { FilterMember(HasInstant(), events, e); }
    }
  }

  lemma {:induction false} KnownEventsOrderFree(s: seq<Event>, t: seq<Event>)
    requires multiset(s) == multiset(t) && IdsIdentify(EventId(), s)
    ensures KnownEvents(s) == KnownEvents(t)
  {
    var key, a, b := KeyOf(EventTime(), EventId()), Filter(HasInstant(), s), Filter(HasInstant(), t);
    FilterPermutation(HasInstant(), s, t);
    KeyAllPermutation(key, a, b);
    forall x, y | x in KeyAll(key, a) && y in KeyAll(key, a) && SameKey(x, y) ensures x == y {
      FilterMember(HasInstant(), s, x.row);
      FilterMember(HasInstant(), s, y.row);
    }
    SortOrderFree(true, KeyAll(key, a), KeyAll(key, b));
  }

  /** The known events are the ranking of those with an instant. */
  lemma {:induction false} KnownIsRanked(events: seq<Event>)
    ensures KnownEvents(events) == Ranked(EventTime(), EventId(), Filter(HasInstant(), events))
  {
    var known := Filter(HasInstant(), events);
    forall e | e in known ensures Timed(EventTime())(e) { FilterMember(HasInstant(), events, e); }
    FilterAll(Timed(EventTime()), known);
  }

  /** The event picked has an instant, and no listed event's instant ranks above its own. */
  lemma {:induction false} LatestEventRanksFirst(events: seq<Event>)
    requires exists e :: e in events && e.temporal.instant.Some?
    ensures var latest := LatestEvent(events);
      && latest.Some? && latest.value in events && latest.value.temporal.instant.Some?
      && forall e :: e in events && e.temporal.instant.Some? ==>
           !KeyLess(KeyOf(EventTime(), EventId())(latest.value), KeyOf(EventTime(), EventId())(e))
  {
    var known := Filter(HasInstant(), events);
    forall e ensures e in known <==> e in events && e.temporal.instant.Some? { FilterMember(HasInstant(), events, e); }
    KnownIsRanked(events);
    var e :| e in events && e.temporal.instant.Some?;
    assert e in known && KnownTime(e.temporal);
    RankedTop(EventTime(), EventId(), known);
  }

  /** By the fields: the event picked has an instant that none ranks above, or, without any instant, is the first. */
  lemma {:induction false} LatestEventExactly(events: seq<Event>)
    ensures var latest := LatestEvent(events);
      if exists e :: e in events && e.temporal.instant.Some? then
        && latest.Some? && latest.value in events && latest.value.temporal.instant.Some?
        && forall e :: e in events && e.temporal.instant.Some? ==>
             !RanksAbove(e.temporal, e.id, latest.value.temporal, latest.value.id)
      else latest == if events == [] then None else Some(events[0])
  {
    KnownEventsExactly(events);
    if exists e :: e in events && e.temporal.instant.Some? {
      LatestEventRanksFirst(events);
      forall e | e in events && e.temporal.instant.Some?
        ensures !RanksAbove(e.temporal, e.id, LatestEvent(events).value.temporal, LatestEvent(events).value.id)
      {
        RankExactly(EventTime(), EventId(), e, LatestEvent(events).value);
      }
    }
  }

  /** The event picked is one no listed event is later than, by the clock. */
  ghost predicate LatestByClock(events: seq<Event>) {
    (exists e :: e in events && e.temporal.instant.Some?) ==>
      && LatestEvent(events).Some? && LatestEvent(events).value.temporal.instant.Some?
      && forall e :: e in events && e.temporal.instant.Some? ==>
           e.temporal.instant.value.epoch <= LatestEvent(events).value.temporal.instant.value.epoch
  }

  lemma {:induction false} LatestOfKnown(events: seq<Event>)
    ensures LatestByClock(events) <==> TopIsLatest(EventTime(), EventId(), Filter(HasInstant(), events))
  {
    var known := Filter(HasInstant(), events);
    forall e ensures e in known <==> e in events && e.temporal.instant.Some? { FilterMember(HasInstant(), events, e); }
    KnownIsRanked(events);
    KnownEventsExactly(events);
    assert known != [] ==> known[0] in known;
  }

  /**
   * Whichever of the events are listed, the one picked is the latest by the clock exactly when the ISO texts are in
   * the order of the instants.
   */
  lemma {:induction false} LatestByClockExactly(events: seq<Event>)
    requires TextNamesTime(InstantOf(EventTime()), events)
    ensures (forall some: seq<Event> :: Within(some, events) ==> LatestByClock(some))
      <==> TextOrderAgrees(InstantOf(EventTime()), events)
  {
    var known := Filter(HasInstant(), events);
    forall e ensures e in known <==> e in events && e.temporal.instant.Some? { FilterMember(HasInstant(), events, e); }
    TopIsLatestExactly(EventTime(), EventId(), known);
    forall some: seq<Event> ensures LatestByClock(some) <==> TopIsLatest(EventTime(), EventId(), Filter(HasInstant(), some)) {
      LatestOfKnown(some);
    }
    if TextOrderAgrees(InstantOf(EventTime()), known) {
      forall some: seq<Event> | Within(some, events) ensures LatestByClock(some) {
        forall e | e in Filter(HasInstant(), some) ensures e in known { FilterMember(HasInstant(), some, e); }
        assert Within(Filter(HasInstant(), some), known);
      }
    }
    if forall some: seq<Event> :: Within(some, events) ==> LatestByClock(some) {
      forall some: seq<Event> | Within(some, known) ensures TopIsLatest(EventTime(), EventId(), some) {
        FilterAll(HasInstant(), some);
        assert Within(some, events);
      }
    }
  }

  /** Whatever order the events are loaded in, the latest is the same. */
  ghost predicate LatestOrderFree(events: seq<Event>) {
    forall other: seq<Event> :: multiset(other) == multiset(events) ==> LatestEvent(other) == LatestEvent(events)
  }

  lemma SwappedPermutes(a: Event, b: Event, rest: seq<Event>)
    ensures multiset([b, a] + rest) == multiset([a, b] + rest)
  {
  }

  lemma {:induction false} SwappedLatest(a: Event, b: Event, rest: seq<Event>)
    requires a != b && a.temporal.instant.None? && b.temporal.instant.None?
    requires forall e :: e in rest ==> e.temporal.instant.None?
    ensures !LatestOrderFree([a, b] + rest)
  {
    var events, other := [a, b] + rest, [b, a] + rest;
    KnownEventsExactly(events);
    KnownEventsExactly(other);
    SwappedPermutes(a, b, rest);
    assert events[0] == a && other[0] == b;
    assert LatestEvent(events) == Some(a) && LatestEvent(other) == Some(b);
  }

  /**
   * The choice is independent of row order exactly when some event has a calendar instant or there is at most one
   * event: several events without an instant leave it to the order in which they are loaded.
   */
  lemma {:induction false} LatestOrderFreeExactly(events: seq<Event>)
    requires forall i, j :: 0 <= i < j < |events| ==> events[i].id != events[j].id
    ensures LatestOrderFree(events) <==> |events| <= 1 || exists e :: e in events && e.temporal.instant.Some?
  {
    KnownEventsExactly(events);
    if |events| > 1 && KnownEvents(events) == [] {
      var rest := events[2..];
      assert events == [events[0], events[1]] + rest;
      SwappedLatest(events[0], events[1], rest);
    } else {
      forall other: seq<Event> | multiset(other) == multiset(events) ensures LatestEvent(other) == LatestEvent(events) {
        KnownEventsOrderFree(events, other);
        PermutationLength(events, other);
        if |events| == 1 { PermutationSingleton(events, other); }
      }
    }
  }

  /** Two events told without an instant: the one loaded first is "the latest". */
  lemma {:induction false} FirstLoadedIsLatest(user: Id, action: Option<Id>, time: Temporal)
    requires time.instant.None?
    ensures var bought, sold := Event("e1", user, action, time), Event("e2", user, action, time);
      LatestEvent([bought, sold]) == Some(bought) && LatestEvent([sold, bought]) == Some(sold)
  {
    var bought, sold := Event("e1", user, action, time), Event("e2", user, action, time);
    KnownEventsExactly([bought, sold]);
    KnownEventsExactly([sold, bought]);
  }
}
