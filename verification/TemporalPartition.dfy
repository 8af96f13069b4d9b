/** Ternary range membership over rows: certain matches, rows in doubt, and the rest, which is dropped. */
module TemporalPartition {
  import opened Prelude
  import opened Domain

  /** The times an occurrence may have had, where they are known: its exact time, else its coarse window. */
  ghost predicate Possible(t: Temporal, time: int) {
    if t.exact.Some? then time == t.exact.value
    else t.window.Some? && t.window.value.start <= time < t.window.value.end
  }

  /** Something is known of when it was: not a recurrence, and an exact time or a window of days or longer. */
  ghost predicate Placed(t: Temporal) {
    !t.periodic && (t.exact.Some? || (!t.instantGranularity && t.window.Some? && t.window.value.start < t.window.value.end))
  }

  /** Membership is certain exactly when every possible time is in the range, and excluded exactly when none is. */
  lemma MembershipExactly(t: Temporal, range: Window)
    requires Placed(t) && range.start < range.end
    ensures CoarseMembership(t, range) == Match <==> forall time :: Possible(t, time) ==> range.start <= time < range.end
    ensures CoarseMembership(t, range) == NoMatch <==> forall time :: Possible(t, time) ==> !(range.start <= time < range.end)
  {
    if t.exact.None? {
      var w := t.window.value;
      assert Possible(t, w.start) && Possible(t, w.end - 1);
      assert w.start < range.start < w.end ==> Possible(t, range.start);
    } else {
      assert Possible(t, t.exact.value);
    }
  }

  /** What is not placed in time is never certain either way. */
  lemma UnplacedIsUnknown(t: Temporal, range: Window)
    requires t.periodic || (t.exact.None? && (t.instantGranularity || t.window.None?))
    ensures CoarseMembership(t, range) == UnknownMembership
  {
  }

  function Is<T>(membership: T -> Membership, verdict: Membership): T -> bool {
    (x: T) => membership(x) == verdict
  }

  /** Without a range every row matches and none is in doubt. */
  function Matched<T>(membership: (T, Window) -> Membership, rows: seq<T>, range: Option<Window>): seq<T> {
    match range
    case None => rows
    case Some(w) => Filter(Is((x: T) => membership(x, w), Match), rows)
  }

  function InDoubt<T>(membership: (T, Window) -> Membership, rows: seq<T>, range: Option<Window>): seq<T> {
    match range
    case None => []
    case Some(w) => Filter(Is((x: T) => membership(x, w), UnknownMembership), rows)
  }

  method PartitionTemporal<T>(membership: (T, Window) -> Membership, rows: seq<T>, range: Option<Window>)
    returns (matched: seq<T>, unknown: seq<T>, hadUnknown: bool)
    ensures matched == Matched(membership, rows, range)
    ensures unknown == InDoubt(membership, rows, range)
    ensures hadUnknown <==> unknown != []
  {
    if range.None? { return rows, [], false; }
    var w := range.value;
    matched, unknown := [], [];
    ghost var verdict := (x: T) => membership(x, w);
    for i := 0 to |rows|
      invariant matched == Filter(Is(verdict, Match), rows[..i])
      invariant unknown == Filter(Is(verdict, UnknownMembership), rows[..i])
    {
      assert rows[..i + 1] == rows[..i] + [rows[i]];
      FilterAppend(Is(verdict, Match), rows[..i], rows[i]);
      FilterAppend(Is(verdict, UnknownMembership), rows[..i], rows[i]);
      var m := membership(rows[i], w);
      if m == Match {
        matched := matched + [rows[i]];
      } else if m == UnknownMembership {
        unknown := unknown + [rows[i]];
      }
    }
    assert rows[..|rows|] == rows;
    hadUnknown := unknown != [];
  }

  lemma {:induction false} PartitionMember<T>(
    membership: (T, Window) -> Membership, rows: seq<T>, range: Option<Window>, x: T)
    ensures x in Matched(membership, rows, range) <==>
      x in rows && (range.Some? ==> membership(x, range.value) == Match)
    ensures x in InDoubt(membership, rows, range) <==>
      x in rows && range.Some? && membership(x, range.value) == UnknownMembership
  {
    if range.Some? {
      var verdict := (y: T) => membership(y, range.value);
      FilterMember(Is(verdict, Match), rows, x);
      FilterMember(Is(verdict, UnknownMembership), rows, x);
    }
  }

  lemma {:induction false} AllMatch<T(!new)>(membership: (T, Window) -> Membership, rows: seq<T>, range: Window)
    requires forall x :: x in rows ==> membership(x, range) == Match
    ensures Matched(membership, rows, Some(range)) == rows
  {
    var verdict := (x: T) => membership(x, range);
    FilterAll(Is(verdict, Match), rows);
  }

  lemma {:induction false} MatchedDistinct<T(!new)>(
    membership: (T, Window) -> Membership, rows: seq<T>, range: Option<Window>)
    requires forall i, j :: 0 <= i < j < |rows| ==> rows[i] != rows[j]
    ensures var m := Matched(membership, rows, range); forall i, j :: 0 <= i < j < |m| ==> m[i] != m[j]
  {
    if range.Some? {
      var verdict := (x: T) => membership(x, range.value);
      FilterDistinct(Is(verdict, Match), rows);
    }
  }

  /** Selecting among the rows that match is selecting by both conditions. */
  lemma {:induction false} SelectMatched<T(!new)>(
    membership: (T, Window) -> Membership, p: T -> bool, both: T -> bool, rows: seq<T>, range: Option<Window>)
    requires forall x :: both(x) <==> p(x) && (range.Some? ==> membership(x, range.value) == Match)
    ensures Filter(p, Matched(membership, rows, range)) == Filter(both, rows)
  {
    if range.Some? {
      var verdict := (y: T) => membership(y, range.value);
      FilterTwice(Is(verdict, Match), p, rows);
      FilterAgree(Both(Is(verdict, Match), p), both, rows);
    } else {
      FilterAgree(p, both, rows);
    }
  }

  lemma {:induction false} PartitionOrderFree<T(!new)>(
    membership: (T, Window) -> Membership, s: seq<T>, t: seq<T>, range: Option<Window>)
    requires multiset(s) == multiset(t)
    ensures multiset(Matched(membership, s, range)) == multiset(Matched(membership, t, range))
    ensures multiset(InDoubt(membership, s, range)) == multiset(InDoubt(membership, t, range))
    ensures |Matched(membership, s, range)| == |Matched(membership, t, range)|
    ensures |InDoubt(membership, s, range)| == |InDoubt(membership, t, range)|
  {
    if range.Some? {
      var verdict := (y: T) => membership(y, range.value);
      FilterPermutation(Is(verdict, Match), s, t);
      FilterPermutation(Is(verdict, UnknownMembership), s, t);
    }
    PermutationLength(Matched(membership, s, range), Matched(membership, t, range));
    PermutationLength(InDoubt(membership, s, range), InDoubt(membership, t, range));
  }
}
