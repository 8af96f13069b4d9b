/** Shared vocabulary: optional values, filtering, and the string order used for identifiers. */
module Prelude {

  type Id = string

  datatype Option<+T> = None | Some(value: T)

  datatype Result<+T, +E> = Ok(value: T) | Err(error: E)

  /** The rows satisfying `p`, in their original order. Recursion is on the last row, the way tables grow. */
  function Filter<T>(p: T -> bool, s: seq<T>): seq<T> {
    if s == [] then []
    else Filter(p, s[..|s| - 1]) + (if p(s[|s| - 1]) then [s[|s| - 1]] else [])
  }

  lemma {:induction false} FilterAppend<T>(p: T -> bool, s: seq<T>, x: T)
    ensures Filter(p, s + [x]) == Filter(p, s) + (if p(x) then [x] else [])
  {
    assert (s + [x])[..|s|] == s;
  }

  lemma {:induction false} FilterConcat<T>(p: T -> bool, a: seq<T>, b: seq<T>)
    ensures Filter(p, a + b) == Filter(p, a) + Filter(p, b)
  {
    if b == [] {
      assert a + b == a;
    } else {
      var front, last := b[..|b| - 1], b[|b| - 1];
      assert a + b == (a + front) + [last];
      FilterConcat(p, a, front);
      FilterAppend(p, a + front, last);
    }
  }

  lemma {:induction false} FilterMember<T>(p: T -> bool, s: seq<T>, x: T)
    ensures x in Filter(p, s) <==> x in s && p(x)
  {
    if s != [] {
      assert s == s[..|s| - 1] + [s[|s| - 1]];
      FilterMember(p, s[..|s| - 1], x);
    }
  }

  lemma {:induction false} FilterCount<T>(p: T -> bool, s: seq<T>, x: T)
    ensures multiset(Filter(p, s))[x] == if p(x) then multiset(s)[x] else 0
  {
    if s != [] {
      assert s == s[..|s| - 1] + [s[|s| - 1]];
      FilterCount(p, s[..|s| - 1], x);
    }
  }

  /** Filtering forgets order exactly as much as its input does. */
  lemma {:induction false} FilterPermutation<T(!new)>(p: T -> bool, s: seq<T>, t: seq<T>)
    requires multiset(s) == multiset(t)
    ensures multiset(Filter(p, s)) == multiset(Filter(p, t))
  {
    var a, b := multiset(Filter(p, s)), multiset(Filter(p, t));
    forall x ensures a[x] == b[x] {
      FilterCount(p, s, x);
      FilterCount(p, t, x);
    }
  }

  lemma {:induction false} FilterNone<T(!new)>(p: T -> bool, s: seq<T>)
    requires forall x :: x in s ==> !p(x)
    ensures Filter(p, s) == []
  {
    if s != [] { FilterNone(p, s[..|s| - 1]); }
  }

  lemma {:induction false} FilterAll<T(!new)>(p: T -> bool, s: seq<T>)
    requires forall x :: x in s ==> p(x)
    ensures Filter(p, s) == s
  {
    if s != [] {
      FilterAll(p, s[..|s| - 1]);
      assert s[|s| - 1] in s;
      assert s == s[..|s| - 1] + [s[|s| - 1]];
    }
  }

  /** A predicate that no two positions satisfy selects at most one row. */
  lemma {:induction false} FilterAtMostOne<T(!new)>(p: T -> bool, s: seq<T>)
    requires forall i, j :: 0 <= i < j < |s| ==> !(p(s[i]) && p(s[j]))
    ensures |Filter(p, s)| <= 1
  {
    if s != [] {
      var front, last := s[..|s| - 1], s[|s| - 1];
      FilterAtMostOne(p, front);
      if p(last) {
        forall x | x in front ensures !p(x) {
          var i :| 0 <= i < |front| && front[i] == x;
          assert p(s[i]) ==> !p(last);
        }
        FilterNone(p, front);
      }
    }
  }

  lemma {:induction false} FilterDistinct<T(!new)>(p: T -> bool, s: seq<T>)
    requires forall i, j :: 0 <= i < j < |s| ==> s[i] != s[j]
    ensures forall i, j :: 0 <= i < j < |Filter(p, s)| ==> Filter(p, s)[i] != Filter(p, s)[j]
  {
    if s != [] {
      var front, last := s[..|s| - 1], s[|s| - 1];
      FilterDistinct(p, front);
      assert last !in Filter(p, front) by {
        FilterMember(p, front, last);
        forall i | 0 <= i < |front| ensures front[i] != last { assert s[i] != s[|s| - 1]; }
      }
    }
  }

  /** Row `i` is the only one that fits. */
  ghost predicate OnlyFit<T>(p: T -> bool, rows: seq<T>, i: int) {
    0 <= i < |rows| && p(rows[i]) && forall j :: 0 <= j < |rows| && j != i ==> !p(rows[j])
  }

  lemma {:induction false} NoneFit<T>(p: T -> bool, rows: seq<T>)
    ensures Filter(p, rows) == [] <==> forall i :: 0 <= i < |rows| ==> !p(rows[i])
  {
    if rows != [] { NoneFit(p, rows[..|rows| - 1]); }
  }

  lemma {:induction false} ExactlyOne<T>(p: T -> bool, rows: seq<T>)
    ensures |Filter(p, rows)| == 1 <==> exists i :: OnlyFit(p, rows, i)
  {
    if rows != [] {
      var front, n := rows[..|rows| - 1], |rows| - 1;
      ExactlyOne(p, front);
      NoneFit(p, front);
      if p(rows[n]) {
        if Filter(p, front) == [] { assert OnlyFit(p, rows, n); }
      } else {
        if i :| OnlyFit(p, front, i) { assert OnlyFit(p, rows, i); }
        if i :| OnlyFit(p, rows, i) { assert OnlyFit(p, front, i); }
      }
    }
  }

  function Both<T>(p: T -> bool, q: T -> bool): T -> bool {
    (x: T) => p(x) && q(x)
  }

  /** Filtering in two stages is filtering by both conditions. */
  lemma {:induction false} FilterTwice<T>(p: T -> bool, q: T -> bool, s: seq<T>)
    ensures Filter(q, Filter(p, s)) == Filter(Both(p, q), s)
  {
    if s != [] {
      var front, last := s[..|s| - 1], s[|s| - 1];
      FilterTwice(p, q, front);
      if p(last) {
        FilterAppend(q, Filter(p, front), last);
      } else {
        assert Filter(p, s) == Filter(p, front);
      }
    }
  }

  /** Two predicates that agree on the rows select the same rows. */
  lemma {:induction false} FilterAgree<T(!new)>(p: T -> bool, q: T -> bool, s: seq<T>)
    requires forall x :: x in s ==> p(x) == q(x)
    ensures Filter(p, s) == Filter(q, s)
  {
    if s != [] { FilterAgree(p, q, s[..|s| - 1]); }
  }

  lemma {:induction false} FilterThree<T(!new)>(p: T -> bool, q: T -> bool, r: T -> bool, all: T -> bool, s: seq<T>)
    requires forall x :: x in s ==> (p(x) && q(x) && r(x) <==> all(x))
    ensures Filter(r, Filter(q, Filter(p, s))) == Filter(all, s)
  {
    FilterTwice(p, q, s);
    FilterTwice(Both(p, q), r, s);
    FilterAgree(Both(Both(p, q), r), all, s);
  }

  lemma {:induction false} FilterFour<T(!new)>(
    p: T -> bool, q: T -> bool, r: T -> bool, n: T -> bool, all: T -> bool, s: seq<T>)
    requires forall x :: x in s ==> (p(x) && q(x) && r(x) && n(x) <==> all(x))
    ensures Filter(n, Filter(r, Filter(q, Filter(p, s)))) == Filter(all, s)
  {
    FilterTwice(p, q, s);
    FilterThree(Both(p, q), r, n, all, s);
  }

  lemma PermutationMember<T>(s: seq<T>, t: seq<T>, x: T)
    requires multiset(s) == multiset(t)
    ensures x in s <==> x in t
  {
    assert x in s <==> x in multiset(s);
    assert x in t <==> x in multiset(t);
  }

  lemma PermutationLength<T>(s: seq<T>, t: seq<T>)
    requires multiset(s) == multiset(t)
    ensures |s| == |t|
  {
    assert |s| == |multiset(s)| && |t| == |multiset(t)|;
  }

  lemma {:induction false} CountedOnce<T>(s: seq<T>, x: T)
    requires forall i, j :: 0 <= i < j < |s| ==> s[i] != s[j]
    ensures multiset(s)[x] <= 1
  {
    if s != [] {
      var front, last := s[..|s| - 1], s[|s| - 1];
      assert s == front + [last];
      CountedOnce(front, x);
      assert last !in front by {
        forall i | 0 <= i < |front| ensures front[i] != last { assert s[i] != s[|s| - 1]; }
      }
    }
  }

  lemma CountedTwice<T>(s: seq<T>, i: int, j: int)
    requires 0 <= i < j < |s| && s[i] == s[j]
    ensures multiset(s)[s[i]] >= 2
  {
    assert s == s[..j] + s[j..];
    assert s[..j][i] in s[..j] && s[j..][0] in s[j..];
  }

  /** A permutation repeats nothing if the original does not. */
  lemma DistinctPermutation<T>(s: seq<T>, t: seq<T>)
    requires forall i, j :: 0 <= i < j < |s| ==> s[i] != s[j]
    requires multiset(s) == multiset(t)
    ensures forall i, j :: 0 <= i < j < |t| ==> t[i] != t[j]
  {
    forall i, j | 0 <= i < j < |t| ensures t[i] != t[j] {
      CountedOnce(s, t[i]);
      if t[i] == t[j] { CountedTwice(t, i, j); }
    }
  }

  /** A sequence that is a permutation of a singleton is that singleton. */
  lemma PermutationSingleton<T>(s: seq<T>, t: seq<T>)
    requires multiset(s) == multiset(t) && |s| == 1
    ensures s == t
  {
    PermutationLength(s, t);
    PermutationMember(s, t, s[0]);
  }

  predicate Contains(hay: string, needle: string) {
    needle <= hay || (hay != [] && Contains(hay[1..], needle))
  }

  ghost predicate Occurs(hay: string, needle: string) {
    exists before: string, after: string :: hay == before + needle + after
  }

  lemma {:induction false} ContainsExactly(hay: string, needle: string)
    ensures Contains(hay, needle) <==> Occurs(hay, needle)
  {
    if needle <= hay {
      assert hay == [] + needle + hay[|needle|..];
    } else if hay != [] {
      ContainsExactly(hay[1..], needle);
      if before: string, after: string :| hay[1..] == before + needle + after {
        assert hay == ([hay[0]] + before) + needle + after;
      }
      if before: string, after: string :| hay == before + needle + after {
        assert before == [] ==> needle <= hay;
        assert hay[1..] == before[1..] + needle + after;
      }
    }
  }
}

/** Code-point lexicographic order on strings: the order the program compares identifiers with. */
module Lex {

  predicate Less(a: string, b: string) {
    b != [] && (a == [] || a[0] < b[0] || (a[0] == b[0] && Less(a[1..], b[1..])))
  }

  /** The first `n` characters agree, and then the first text ends or has the smaller character. */
  ghost predicate DecidedAt(a: string, b: string, n: nat) {
    && n <= |a| && n < |b| && a[..n] == b[..n]
    && (n == |a| || a[n] < b[n])
  }

  lemma {:induction false} LessExactly(a: string, b: string)
    ensures Less(a, b) <==> exists n: nat :: DecidedAt(a, b, n)
  {
    if a == [] {
      if b != [] { assert DecidedAt(a, b, 0); }
    } else if b != [] {
      LessExactly(a[1..], b[1..]);
      if a[0] < b[0] { assert DecidedAt(a, b, 0); }
      if a[0] == b[0] && Less(a[1..], b[1..]) {
        var n: nat :| DecidedAt(a[1..], b[1..], n);
        assert a == [a[0]] + a[1..] && b == [b[0]] + b[1..];
        assert a[..n + 1] == [a[0]] + a[1..][..n] && b[..n + 1] == [b[0]] + b[1..][..n];
        assert DecidedAt(a, b, n + 1);
      }
      if n: nat :| DecidedAt(a, b, n) {
        if n > 0 {
          assert a[..n][0] == b[..n][0];
          assert a[1..][..n - 1] == a[..n][1..] && b[1..][..n - 1] == b[..n][1..];
          assert DecidedAt(a[1..], b[1..], n - 1);
        }
      }
    }
  }

  lemma {:induction false} Irreflexive(a: string)
    ensures !Less(a, a)
  {
    if a != [] { Irreflexive(a[1..]); }
  }

  lemma {:induction false} Transitive(a: string, b: string, c: string)
    requires Less(a, b) && Less(b, c)
    ensures Less(a, c)
  {
    if a != [] && a[0] == b[0] && b[0] == c[0] { Transitive(a[1..], b[1..], c[1..]); }
  }

  lemma {:induction false} Total(a: string, b: string)
    ensures a == b || Less(a, b) || Less(b, a)
  {
    if a != [] && b != [] && a[0] == b[0] {
      Total(a[1..], b[1..]);
      if a[1..] == b[1..] {
        assert a == [a[0]] + a[1..] && b == [b[0]] + b[1..];
      }
    }
  }

  lemma {:induction false} Asymmetric(a: string, b: string)
    requires Less(a, b)
    ensures !Less(b, a)
  {
    if Less(b, a) {
      Transitive(a, b, a);
      Irreflexive(a);
    }
  }
}

/** Sorting rows by a (rank, stamp, id) key, as the query layer does. */
module Ranking {
  import Lex
  import opened Prelude

  datatype Keyed<T> = Keyed(rank: int, stamp: string, id: string, row: T)

  predicate KeyLess<T>(a: Keyed<T>, b: Keyed<T>) {
    || a.rank < b.rank
    || (a.rank == b.rank && (Lex.Less(a.stamp, b.stamp) || (a.stamp == b.stamp && Lex.Less(a.id, b.id))))
  }

  /** `a` must stand strictly before `b` in the requested direction. */
  predicate Before<T>(descending: bool, a: Keyed<T>, b: Keyed<T>) {
    if descending then KeyLess(b, a) else KeyLess(a, b)
  }

  predicate SameKey<T>(a: Keyed<T>, b: Keyed<T>) {
    a.rank == b.rank && a.stamp == b.stamp && a.id == b.id
  }

  lemma KeyIrreflexive<T>(a: Keyed<T>)
    ensures !KeyLess(a, a)
  {
    Lex.Irreflexive(a.stamp);
    Lex.Irreflexive(a.id);
  }

  lemma KeyTransitive<T>(a: Keyed<T>, b: Keyed<T>, c: Keyed<T>)
    requires KeyLess(a, b) && KeyLess(b, c)
    ensures KeyLess(a, c)
  {
    if Lex.Less(a.stamp, b.stamp) && Lex.Less(b.stamp, c.stamp) { Lex.Transitive(a.stamp, b.stamp, c.stamp); }
    if Lex.Less(a.id, b.id) && Lex.Less(b.id, c.id) { Lex.Transitive(a.id, b.id, c.id); }
  }

  lemma KeyTotal<T>(a: Keyed<T>, b: Keyed<T>)
    ensures SameKey(a, b) || KeyLess(a, b) || KeyLess(b, a)
  {
    Lex.Total(a.stamp, b.stamp);
    Lex.Total(a.id, b.id);
  }

  predicate Sorted<T>(descending: bool, s: seq<Keyed<T>>) {
    forall i, j :: 0 <= i < j < |s| ==> !Before(descending, s[j], s[i])
  }

  /** No two different rows share a key. */
  ghost predicate KeysIdentify<T(!new)>(s: seq<Keyed<T>>) {
    forall x, y :: x in s && y in s && SameKey(x, y) ==> x == y
  }

  /** Puts `x` after every row it does not have to precede: a stable insertion. */
  function Insert<T>(descending: bool, s: seq<Keyed<T>>, x: Keyed<T>): seq<Keyed<T>> {
    if s == [] || !Before(descending, x, s[|s| - 1]) then s + [x]
    else Insert(descending, s[..|s| - 1], x) + [s[|s| - 1]]
  }

  function Sort<T>(descending: bool, s: seq<Keyed<T>>): seq<Keyed<T>> {
    if s == [] then [] else Insert(descending, Sort(descending, s[..|s| - 1]), s[|s| - 1])
  }

  lemma {:induction false} InsertPermutes<T>(descending: bool, s: seq<Keyed<T>>, x: Keyed<T>)
    ensures multiset(Insert(descending, s, x)) == multiset(s) + multiset{x}
  {
    if !(s == [] || !Before(descending, x, s[|s| - 1])) {
      InsertPermutes(descending, s[..|s| - 1], x);
      assert s == s[..|s| - 1] + [s[|s| - 1]];
    }
  }

  lemma {:induction false} SortPermutes<T>(descending: bool, s: seq<Keyed<T>>)
    ensures multiset(Sort(descending, s)) == multiset(s)
  {
    if s != [] {
      SortPermutes(descending, s[..|s| - 1]);
      InsertPermutes(descending, Sort(descending, s[..|s| - 1]), s[|s| - 1]);
      assert s == s[..|s| - 1] + [s[|s| - 1]];
    }
  }

  lemma {:induction false} InsertSorted<T>(descending: bool, s: seq<Keyed<T>>, x: Keyed<T>)
    requires Sorted(descending, s)
    ensures Sorted(descending, Insert(descending, s, x))
  {
    if s == [] {
    } else if !Before(descending, x, s[|s| - 1]) {
      forall i | 0 <= i < |s| ensures !Before(descending, x, s[i]) {
        if Before(descending, x, s[i]) && i < |s| - 1 {
          assert !Before(descending, s[|s| - 1], s[i]);
          NotBeforeTransfer(descending, s[i], s[|s| - 1], x);
        }
      }
    } else {
      var front, last := s[..|s| - 1], s[|s| - 1];
      InsertSorted(descending, front, x);
      InsertPermutes(descending, front, x);
      var r := Insert(descending, front, x);
      forall i | 0 <= i < |r| ensures !Before(descending, last, r[i]) {
        assert r[i] in multiset(r);
        if r[i] == x {
          if Before(descending, last, x) {
            if descending { KeyTransitive(x, last, x); } else { KeyTransitive(x, last, x); }
            KeyIrreflexive(x);
          }
        } else {
          assert r[i] in front;
        }
      }
    }
  }

  /** If the last row need not precede `a`, and `x` must precede `a`, then `x` must precede the last row too. */
  lemma NotBeforeTransfer<T>(descending: bool, a: Keyed<T>, last: Keyed<T>, x: Keyed<T>)
    requires !Before(descending, last, a) && Before(descending, x, a)
    ensures Before(descending, x, last)
  {
    KeyTotal(a, last);
    if SameKey(a, last) {
    } else if descending {
      KeyTransitive(last, a, x);
    } else {
      KeyTransitive(x, a, last);
    }
  }

  lemma {:induction false} SortSorted<T>(descending: bool, s: seq<Keyed<T>>)
    ensures Sorted(descending, Sort(descending, s))
  {
    if s != [] {
      SortSorted(descending, s[..|s| - 1]);
      InsertSorted(descending, Sort(descending, s[..|s| - 1]), s[|s| - 1]);
    }
  }

  lemma HeadFirst<T>(descending: bool, s: seq<Keyed<T>>, x: Keyed<T>)
    requires Sorted(descending, s) && x in s
    ensures s[0] == x || !Before(descending, x, s[0])
  {
  }

  lemma SameHead<T(!new)>(descending: bool, s: seq<Keyed<T>>, t: seq<Keyed<T>>)
    requires Sorted(descending, s) && Sorted(descending, t)
    requires KeysIdentify(s)
    requires multiset(s) == multiset(t) && s != [] && t != []
    ensures s[0] == t[0]
  {
    PermutationMember(s, t, s[0]);
    PermutationMember(s, t, t[0]);
    HeadFirst(descending, s, t[0]);
    HeadFirst(descending, t, s[0]);
    KeyTotal(s[0], t[0]);
  }

  /** Sorted sequences of the same rows are equal when keys identify rows. */
  lemma {:induction false} SortedUnique<T(!new)>(descending: bool, s: seq<Keyed<T>>, t: seq<Keyed<T>>)
    requires Sorted(descending, s) && Sorted(descending, t)
    requires KeysIdentify(s)
    requires multiset(s) == multiset(t)
    ensures s == t
  {
    PermutationLength(s, t);
    if s != [] {
      SameHead(descending, s, t);
      assert s == [s[0]] + s[1..] && t == [t[0]] + t[1..];
      assert multiset(s[1..]) == multiset(s) - multiset{s[0]};
      assert multiset(t[1..]) == multiset(t) - multiset{t[0]};
      SortedUnique(descending, s[1..], t[1..]);
    }
  }

  /** Sorting by a key that identifies rows does not depend on the order the rows arrive in. */
  lemma {:induction false} SortOrderFree<T(!new)>(descending: bool, s: seq<Keyed<T>>, t: seq<Keyed<T>>)
    requires multiset(s) == multiset(t) && KeysIdentify(s)
    ensures Sort(descending, s) == Sort(descending, t)
  {
    SortSorted(descending, s);
    SortSorted(descending, t);
    SortPermutes(descending, s);
    SortPermutes(descending, t);
    forall x ensures x in s <==> x in Sort(descending, s) {
      PermutationMember(s, Sort(descending, s), x);
    }
    SortedUnique(descending, Sort(descending, s), Sort(descending, t));
  }

  /** The rows of a keyed sequence, in its order. */
  function RowsOf<T>(s: seq<Keyed<T>>): (r: seq<T>)
    ensures |r| == |s|
    ensures forall i :: 0 <= i < |s| ==> r[i] == s[i].row
  {
    if s == [] then [] else RowsOf(s[..|s| - 1]) + [s[|s| - 1].row]
  }
}
