/** Splitting rows into those with a known time, newest first, and those without: shared by state and relation reads. */
module TimeRanking {
  import opened Prelude
  import opened Domain
  import Lex
  import opened Ranking

  datatype Completeness = Complete | Partial | Indeterminate

  function Timed<T>(time: T -> Temporal): T -> bool {
    (x: T) => KnownTime(time(x))
  }

  function Untimed<T>(time: T -> Temporal): T -> bool {
    (x: T) => !KnownTime(time(x))
  }

  function KeyOf<T>(time: T -> Temporal, id: T -> Id): T -> Keyed<T> {
    (x: T) => Keyed(SortKey(time(x)).0, SortKey(time(x)).1, id(x), x)
  }

  function KeyAll<T>(key: T -> Keyed<T>, rows: seq<T>): (r: seq<Keyed<T>>)
    ensures |r| == |rows|
    ensures forall i :: 0 <= i < |rows| ==> r[i] == key(rows[i])
  {
    if rows == [] then [] else KeyAll(key, rows[..|rows| - 1]) + [key(rows[|rows| - 1])]
  }

  /** Rows with a known time, by time and then id, newest first. */
  function Ranked<T>(time: T -> Temporal, id: T -> Id, rows: seq<T>): (r: seq<Keyed<T>>) {
    Sort(true, KeyAll(KeyOf(time, id), Filter(Timed(time), rows)))
  }

  function WithoutTime<T>(time: T -> Temporal, rows: seq<T>): seq<T> {
    Filter(Untimed(time), rows)
  }

  /** The split as the resolvers run it: one pass, then an in-place sort of the timed rows. */
  method SplitByTime<T>(time: T -> Temporal, id: T -> Id, rows: seq<T>)
    returns (ranked: seq<Keyed<T>>, unknown: seq<T>)
    ensures ranked == Ranked(time, id, rows)
    ensures unknown == WithoutTime(time, rows)
  {
    ranked, unknown := [], [];
    for i := 0 to |rows|
      invariant ranked == KeyAll(KeyOf(time, id), Filter(Timed(time), rows[..i]))
      invariant unknown == WithoutTime(time, rows[..i])
    {
      assert rows[..i + 1] == rows[..i] + [rows[i]];
      FilterAppend(Timed(time), rows[..i], rows[i]);
      FilterAppend(Untimed(time), rows[..i], rows[i]);
      var rank := SortKey(time(rows[i]));
      if rank.0 >= 2 {
        unknown := unknown + [rows[i]];
      } else {
        ranked := ranked + [Keyed(rank.0, rank.1, id(rows[i]), rows[i])];
      }
    }
    assert rows[..|rows|] == rows;
    ranked := Sort(true, ranked);
  }

  lemma {:induction false} KeyAllCount<T>(key: T -> Keyed<T>, rows: seq<T>, k: Keyed<T>)
    requires forall x :: key(x).row == x
    ensures multiset(KeyAll(key, rows))[k] == if key(k.row) == k then multiset(rows)[k.row] else 0
  {
    if rows != [] {
      var front, last := rows[..|rows| - 1], rows[|rows| - 1];
      assert rows == front + [last];
      KeyAllCount(key, front, k);
    }
  }

  lemma {:induction false} RowsCount<T>(key: T -> Keyed<T>, s: seq<Keyed<T>>, x: T)
    requires forall y :: key(y).row == y
    requires forall k :: k in s ==> k == key(k.row)
    ensures multiset(RowsOf(s))[x] == multiset(s)[key(x)]
  {
    if s != [] {
      assert s == s[..|s| - 1] + [s[|s| - 1]];
      RowsCount(key, s[..|s| - 1], x);
    }
  }

  /** Keying rows, arranging the keys and taking the rows back neither loses nor repeats a row. */
  lemma {:induction false} RowsPermute<T(!new)>(key: T -> Keyed<T>, rows: seq<T>, ranked: seq<Keyed<T>>)
    requires forall y :: key(y).row == y
    requires multiset(ranked) == multiset(KeyAll(key, rows))
    ensures multiset(RowsOf(ranked)) == multiset(rows)
    ensures forall i :: 0 <= i < |ranked| ==> ranked[i] == key(ranked[i].row)
  {
    forall i | 0 <= i < |ranked| ensures ranked[i] == key(ranked[i].row) {
      PermutationMember(KeyAll(key, rows), ranked, ranked[i]);
    }
    forall x ensures multiset(RowsOf(ranked))[x] == multiset(rows)[x] {
      KeyAllCount(key, rows, key(x));
      RowsCount(key, ranked, x);
    }
  }

  lemma KeyAllPermutation<T(!new)>(key: T -> Keyed<T>, s: seq<T>, t: seq<T>)
    requires forall x :: key(x).row == x
    requires multiset(s) == multiset(t)
    ensures multiset(KeyAll(key, s)) == multiset(KeyAll(key, t))
  {
    var a, b := multiset(KeyAll(key, s)), multiset(KeyAll(key, t));
    forall k ensures a[k] == b[k] {
      KeyAllCount(key, s, k);
      KeyAllCount(key, t, k);
    }
  }

  /** Ids identify rows. */
  ghost predicate IdsIdentify<T(!new)>(id: T -> Id, rows: seq<T>) {
    forall x, y :: x in rows && y in rows && id(x) == id(y) ==> x == y
  }

  /** The ranking does not depend on the order rows arrive in. */
  lemma {:induction false} RankedOrderFree<T(!new)>(time: T -> Temporal, id: T -> Id, s: seq<T>, t: seq<T>)
    requires multiset(s) == multiset(t) && IdsIdentify(id, s)
    ensures Ranked(time, id, s) == Ranked(time, id, t)
    ensures multiset(WithoutTime(time, s)) == multiset(WithoutTime(time, t))
  {
    FilterPermutation(Timed(time), s, t);
    FilterPermutation(Untimed(time), s, t);
    var key, fs, ft := KeyOf(time, id), Filter(Timed(time), s), Filter(Timed(time), t);
    KeyAllPermutation(key, fs, ft);
    forall x, y | x in KeyAll(key, fs) && y in KeyAll(key, fs) && SameKey(x, y) ensures x == y {
      assert x.row in fs && y.row in fs;
      FilterMember(Timed(time), s, x.row);
      FilterMember(Timed(time), s, y.row);
    }
    SortOrderFree(true, KeyAll(key, fs), KeyAll(key, ft));
  }

  /** The top of the ranking is one of the timed rows, and no timed row is later. */
  lemma {:induction false} RankedTop<T(!new)>(time: T -> Temporal, id: T -> Id, rows: seq<T>)
    requires exists x :: x in rows && KnownTime(time(x))
    ensures var r := Ranked(time, id, rows);
      && r != [] && r[0].row in rows && KnownTime(time(r[0].row))
      && forall x :: x in rows && KnownTime(time(x)) ==>
           !KeyLess(KeyOf(time, id)(r[0].row), KeyOf(time, id)(x))
  {
    var timed := Filter(Timed(time), rows);
    var keyed, ranked := KeyAll(KeyOf(time, id), timed), Ranked(time, id, rows);
    SortPermutes(true, keyed);
    SortSorted(true, keyed);
    forall x | x in rows && KnownTime(time(x)) ensures KeyOf(time, id)(x) in ranked {
      FilterMember(Timed(time), rows, x);
      var i :| 0 <= i < |timed| && timed[i] == x;
      PermutationMember(keyed, ranked, keyed[i]);
    }
    PermutationMember(keyed, ranked, ranked[0]);
    var i :| 0 <= i < |keyed| && keyed[i] == ranked[0];
    FilterMember(Timed(time), rows, timed[i]);
    KeyIrreflexive(ranked[0]);
  }

  /** Between the first of a descending ranking and an equally late one, the second is equally late too. */
  lemma TiedNext<T>(ranked: seq<Keyed<T>>, j: nat)
    requires Sorted(true, ranked) && 1 <= j < |ranked|
    requires ranked[j].rank == ranked[0].rank && ranked[j].stamp == ranked[0].stamp
    ensures ranked[1].rank == ranked[0].rank && ranked[1].stamp == ranked[0].stamp
  {
    assert !Before(true, ranked[1], ranked[0]);
    assert j > 1 ==> !Before(true, ranked[j], ranked[1]);
    Lex.Total(ranked[0].stamp, ranked[1].stamp);
  }

  /** The entries of the ranking are the timed rows, each with its own key, none repeated. */
  lemma {:induction false} RankedRows<T(!new)>(time: T -> Temporal, id: T -> Id, rows: seq<T>)
    requires forall i, j :: 0 <= i < j < |rows| ==> rows[i] != rows[j]
    ensures var r := Ranked(time, id, rows);
      && Sorted(true, r)
      && (forall i, j :: 0 <= i < j < |r| ==> r[i] != r[j])
      && (forall k :: k in r <==> k == KeyOf(time, id)(k.row) && k.row in rows && KnownTime(time(k.row)))
  {
    var key, timed := KeyOf(time, id), Filter(Timed(time), rows);
    var keyed := KeyAll(key, timed);
    SortSorted(true, keyed);
    SortPermutes(true, keyed);
    FilterDistinct(Timed(time), rows);
    DistinctPermutation(keyed, Sort(true, keyed));
    forall k ensures k in keyed <==> k == key(k.row) && k.row in rows && KnownTime(time(k.row)) {
      FilterMember(Timed(time), rows, k.row);
      if k == key(k.row) && k.row in timed {
        var i :| 0 <= i < |timed| && timed[i] == k.row;
        assert keyed[i] == k;
      }
    }
    forall k ensures k in keyed <==> k in Sort(true, keyed) { PermutationMember(keyed, Sort(true, keyed), k); }
  }

  lemma {:induction false} TieInRanking<T(!new)>(time: T -> Temporal, id: T -> Id, pool: seq<T>, ranked: seq<Keyed<T>>)
    requires ranked != [] && Sorted(true, ranked)
    requires forall i, j :: 0 <= i < j < |ranked| ==> ranked[i] != ranked[j]
    requires forall k :: k in ranked <==> k == KeyOf(time, id)(k.row) && k.row in pool && KnownTime(time(k.row))
    ensures (|ranked| > 1 && ranked[0].rank == ranked[1].rank && ranked[0].stamp == ranked[1].stamp) <==>
      exists x :: x in pool && x != ranked[0].row && SortKey(time(x)) == SortKey(time(ranked[0].row))
  {
    var key := KeyOf(time, id);
    assert ranked[0] in ranked;
    if x :| x in pool && x != ranked[0].row && SortKey(time(x)) == SortKey(time(ranked[0].row)) {
      assert key(x).row in pool && key(x) in ranked;
      var j :| 0 <= j < |ranked| && ranked[j] == key(x);
      TiedNext(ranked, j);
    }
    if |ranked| > 1 {
      assert ranked[1] in ranked && ranked[1] != ranked[0];
    }
  }

  /** A single row is either the whole ranking or the whole remainder. */
  lemma {:induction false} SplitOfOne<T>(time: T -> Temporal, id: T -> Id, x: T)
    ensures KnownTime(time(x)) ==> Ranked(time, id, [x]) == [KeyOf(time, id)(x)] && WithoutTime(time, [x]) == []
    ensures !KnownTime(time(x)) ==> Ranked(time, id, [x]) == [] && WithoutTime(time, [x]) == [x]
  {
    FilterAppend(Timed(time), [], x);
    FilterAppend(Untimed(time), [], x);
    assert [] + [x] == [x];
    if KnownTime(time(x)) {
      var keyed := KeyAll(KeyOf(time, id), [x]);
      assert keyed[..0] == [] && Sort(true, keyed) == Insert(true, Sort(true, keyed[..0]), keyed[0]);
    }
  }

  // ---------------------------------------------------------------- the ranking by the fields of a time

  /** Something is known of when: an instant, or at least the start of an interval. */
  predicate Dated(t: Temporal) {
    t.instant.Some? || t.intervalStart.Some?
  }

  /** What a dated time is sorted by: the text of its instant, or else of the start of its interval. */
  ghost function DateText(t: Temporal): string
    requires Dated(t)
  {
    if t.instant.Some? then t.instant.value.iso else t.intervalStart.value
  }

  /** Interval starts rank above instants; within each the greater text does, and of equal texts the greater id. */
  ghost predicate RanksAbove(a: Temporal, aId: Id, b: Temporal, bId: Id)
    requires Dated(a) && Dated(b)
  {
    if a.instant.Some? != b.instant.Some? then a.instant.None?
    else Lex.Less(DateText(b), DateText(a)) || (DateText(a) == DateText(b) && Lex.Less(bId, aId))
  }

  lemma RankExactly<T>(time: T -> Temporal, id: T -> Id, x: T, y: T)
    ensures KnownTime(time(x)) <==> Dated(time(x))
    ensures Dated(time(x)) && Dated(time(y)) ==>
      (KeyLess(KeyOf(time, id)(y), KeyOf(time, id)(x)) <==> RanksAbove(time(x), id(x), time(y), id(y)))
  {
  }

  predicate IsUndated<T>(time: T -> Temporal, x: T) {
    !Dated(time(x))
  }

  function Undated<T>(time: T -> Temporal): T -> bool {
    (x: T) => IsUndated(time, x)
  }

  /** `top` holds the dated row that none ranks above, or nothing when no row is dated. */
  ghost predicate Newest<T(!new)>(time: T -> Temporal, id: T -> Id, rows: seq<T>, top: seq<T>) {
    if exists x :: x in rows && Dated(time(x)) then
      && |top| == 1 && top[0] in rows && Dated(time(top[0]))
      && forall x :: x in rows && Dated(time(x)) ==> !RanksAbove(time(x), id(x), time(top[0]), id(top[0]))
    else top == []
  }

  /** The same instant text, or the same interval start where both lack an instant. */
  ghost predicate SameDate(a: Temporal, b: Temporal) {
    Dated(a) && Dated(b) && a.instant.Some? == b.instant.Some? && DateText(a) == DateText(b)
  }

  /** The first in rank has another row's key next to it exactly when another row has its date. */
  lemma {:induction false} FirstTied<T(!new)>(time: T -> Temporal, id: T -> Id, rows: seq<T>)
    requires forall i, j :: 0 <= i < j < |rows| ==> rows[i] != rows[j]
    requires Ranked(time, id, rows) != []
    ensures var ranked := Ranked(time, id, rows);
      (|ranked| > 1 && ranked[0].rank == ranked[1].rank && ranked[0].stamp == ranked[1].stamp) <==>
        exists x :: x in rows && x != ranked[0].row && SameDate(time(x), time(ranked[0].row))
  {
    var ranked := Ranked(time, id, rows);
    RankedRows(time, id, rows);
    TieInRanking(time, id, rows, ranked);
    assert ranked[0] in ranked;
    forall x ensures SortKey(time(x)) == SortKey(time(ranked[0].row)) <==> SameDate(time(x), time(ranked[0].row)) {}
  }

  lemma {:induction false} SplitExactly<T(!new)>(time: T -> Temporal, id: T -> Id, rows: seq<T>)
    ensures var ranked := Ranked(time, id, rows);
      Newest(time, id, rows, if ranked == [] then [] else [ranked[0].row])
    ensures WithoutTime(time, rows) == Filter(Undated(time), rows)
  {
    forall x, y
      ensures KnownTime(time(x)) <==> Dated(time(x))
      ensures Dated(time(x)) && Dated(time(y)) ==>
        (KeyLess(KeyOf(time, id)(y), KeyOf(time, id)(x)) <==> RanksAbove(time(x), id(x), time(y), id(y)))
    {
      RankExactly(time, id, x, y);
    }
    FilterAgree(Untimed(time), Undated(time), rows);
    if exists x :: x in rows && Dated(time(x)) {
      RankedTop(time, id, rows);
    } else {
      FilterNone(Timed(time), rows);
    }
  }

  // ---------------------------------------------------------------- text order and time order

  function InstantOf<T>(time: T -> Temporal): T -> Option<Instant> {
    (x: T) => time(x).instant
  }

  /** Equal texts name the same instant. */
  ghost predicate TextNamesTime<T(!new)>(instant: T -> Option<Instant>, rows: seq<T>) {
    forall x, y | x in rows && y in rows && instant(x).Some? && instant(y).Some? ::
      instant(x).value.iso == instant(y).value.iso ==> instant(x).value.epoch == instant(y).value.epoch
  }

  /** Of two instants the one with the smaller text is not the later one: what holds within one time zone. */
  ghost predicate TextOrderAgrees<T(!new)>(instant: T -> Option<Instant>, rows: seq<T>) {
    forall x, y | x in rows && y in rows && instant(x).Some? && instant(y).Some? ::
      Lex.Less(instant(x).value.iso, instant(y).value.iso) ==> instant(x).value.epoch <= instant(y).value.epoch
  }

  ghost predicate Within<T(!new)>(some: seq<T>, rows: seq<T>) {
    forall x :: x in some ==> x in rows
  }

  /** The row ranked first is one no row is later than, by the clock. */
  ghost predicate TopIsLatest<T(!new)>(time: T -> Temporal, id: T -> Id, rows: seq<T>) {
    rows != [] ==>
      && Ranked(time, id, rows) != []
      && var top := Ranked(time, id, rows)[0].row;
      && time(top).instant.Some?
      && forall x :: x in rows && time(x).instant.Some? ==> time(x).instant.value.epoch <= time(top).instant.value.epoch
  }

  lemma {:induction false} TopIsLatestWhenAgreed<T(!new)>(time: T -> Temporal, id: T -> Id, rows: seq<T>)
    requires forall x :: x in rows ==> time(x).instant.Some?
    requires TextNamesTime(InstantOf(time), rows) && TextOrderAgrees(InstantOf(time), rows)
    ensures TopIsLatest(time, id, rows)
  {
    if rows != [] {
      assert rows[0] in rows && KnownTime(time(rows[0]));
      RankedTop(time, id, rows);
      var top := Ranked(time, id, rows)[0].row;
      forall x | x in rows ensures time(x).instant.value.epoch <= time(top).instant.value.epoch {
        assert !KeyLess(KeyOf(time, id)(top), KeyOf(time, id)(x));
        Lex.Total(time(x).instant.value.iso, time(top).instant.value.iso);
        assert InstantOf(time)(x) == time(x).instant && InstantOf(time)(top) == time(top).instant;
      }
    }
  }

  lemma {:induction false} TopOfPair<T(!new)>(time: T -> Temporal, id: T -> Id, x: T, y: T)
    requires time(x).instant.Some? && time(y).instant.Some?
    requires Lex.Less(time(x).instant.value.iso, time(y).instant.value.iso)
    ensures Ranked(time, id, [x, y]) != [] && Ranked(time, id, [x, y])[0].row == y
  {
    assert [x, y][1] in [x, y] && KnownTime(time(y));
    RankedTop(time, id, [x, y]);
    var top := Ranked(time, id, [x, y])[0].row;
    assert KeyLess(KeyOf(time, id)(x), KeyOf(time, id)(y));
    assert top == x || top == y;
  }

  /**
   * Among rows with instants, whichever of them are looked at, the first in rank is the latest by the clock exactly
   * when the texts of the instants are in the order of the instants.
   */
  lemma {:induction false} TopIsLatestExactly<T(!new)>(time: T -> Temporal, id: T -> Id, rows: seq<T>)
    requires forall x :: x in rows ==> time(x).instant.Some?
    requires TextNamesTime(InstantOf(time), rows)
    ensures (forall some: seq<T> :: Within(some, rows) ==> TopIsLatest(time, id, some))
      <==> TextOrderAgrees(InstantOf(time), rows)
  {
    if TextOrderAgrees(InstantOf(time), rows) {
      forall some: seq<T> | Within(some, rows) ensures TopIsLatest(time, id, some) {
        TopIsLatestWhenAgreed(time, id, some);
      }
    }
    if forall some: seq<T> :: Within(some, rows) ==> TopIsLatest(time, id, some) {
      forall x, y | x in rows && y in rows && Lex.Less(InstantOf(time)(x).value.iso, InstantOf(time)(y).value.iso)
        ensures InstantOf(time)(x).value.epoch <= InstantOf(time)(y).value.epoch
      {
        assert Within([x, y], rows);
        TopOfPair(time, id, x, y);
        assert [x, y][0] in [x, y];
      }
    }
  }
}
