/** Grouping rows by semantic value identity: equal evidence becomes one value with a support count. */
module Grouping {
  import opened Prelude

  datatype Group<R, K> = Group(identity: K, members: seq<R>, support: nat)

  /** The identities present, in order of first occurrence. */
  function Identities<R, K(==)>(identity: R -> K, rows: seq<R>): seq<K> {
    if rows == [] then []
    else
      var earlier := Identities(identity, rows[..|rows| - 1]);
      var k := identity(rows[|rows| - 1]);
      if k in earlier then earlier else earlier + [k]
  }

  function HasIdentity<R, K(==)>(identity: R -> K, k: K): R -> bool {
    (r: R) => identity(r) == k
  }

  function GroupOf<R, K(==)>(identity: R -> K, rows: seq<R>, k: K): Group<R, K> {
    var members := Filter(HasIdentity(identity, k), rows);
    Group(k, members, |members|)
  }

  /** One group per identity, holding exactly the rows of that identity, in row order. */
  function Groups<R, K(==)>(identity: R -> K, rows: seq<R>): (groups: seq<Group<R, K>>)
    ensures |groups| == |Identities(identity, rows)|
  {
    var ks := Identities(identity, rows);
    seq(|ks|, i requires 0 <= i < |ks| => GroupOf(identity, rows, ks[i]))
  }

  /** The buckets, with the row added to the one of its identity. */
  function WithRow<R, K(==)>(buckets: map<K, seq<R>>, k: K, row: R): map<K, seq<R>> {
    if k in buckets then buckets[k := buckets[k] + [row]] else buckets[k := [row]]
  }

  /** The dictionary after all rows. */
  function Buckets<R, K(==)>(identity: R -> K, rows: seq<R>): map<K, seq<R>> {
    if rows == [] then map[]
    else WithRow(Buckets(identity, rows[..|rows| - 1]), identity(rows[|rows| - 1]), rows[|rows| - 1])
  }

  /** The dictionary holds, under each identity present, its rows in order. */
  lemma {:induction false} BucketsHold<R, K>(identity: R -> K, rows: seq<R>, k: K)
    ensures k in Buckets(identity, rows) <==> k in Identities(identity, rows)
    ensures Filter(HasIdentity(identity, k), rows) ==
      if k in Buckets(identity, rows) then Buckets(identity, rows)[k] else []
  {
    if rows != [] { BucketsHold(identity, rows[..|rows| - 1], k); }
  }

  method AddToBucket<R, K(==)>(order: seq<K>, buckets: map<K, seq<R>>, key: K, row: R)
    returns (keys: seq<K>, filled: map<K, seq<R>>)
    ensures keys == if key in buckets then order else order + [key]
    ensures filled == WithRow(buckets, key, row)
  {
    keys, filled := order, buckets;
    if key !in filled {
      keys, filled := keys + [key], filled[key := []];
      assert filled[key] + [row] == [row];
      assert filled[key := [row]] == buckets[key := [row]];
    }
    filled := filled[key := filled[key] + [row]];
  }

  method FillBuckets<R, K(==)>(identity: R -> K, rows: seq<R>) returns (order: seq<K>, buckets: map<K, seq<R>>)
    ensures order == Identities(identity, rows) && buckets == Buckets(identity, rows)
  {
    order, buckets := [], map[];
    for i := 0 to |rows|
      invariant order == Identities(identity, rows[..i]) && buckets == Buckets(identity, rows[..i])
    {
      assert rows[..i + 1][..i] == rows[..i];
      BucketsHold(identity, rows[..i], identity(rows[i]));
      order, buckets := AddToBucket(order, buckets, identity(rows[i]), rows[i]);
    }
    assert rows[..|rows|] == rows;
  }

  /** The grouping as the resolvers compute it: a dictionary of buckets and the order of their keys. */
  method GroupByValue<R, K(==)>(identity: R -> K, rows: seq<R>) returns (groups: seq<Group<R, K>>)
    ensures groups == Groups(identity, rows)
  {
    var order, buckets := FillBuckets(identity, rows);
    groups := [];
    for j := 0 to |order|
      invariant groups == Groups(identity, rows)[..j]
    {
      BucketsHold(identity, rows, order[j]);
      groups := groups + [Group(order[j], buckets[order[j]], |buckets[order[j]]|)];
    }
  }

  lemma {:induction false} IdentitiesPresent<R, K>(identity: R -> K, rows: seq<R>, k: K)
    ensures k in Identities(identity, rows) <==> exists r :: r in rows && identity(r) == k
  {
    if rows != [] {
      var front, last := rows[..|rows| - 1], rows[|rows| - 1];
      IdentitiesPresent(identity, front, k);
      assert rows == front + [last];
      if exists r :: r in front && identity(r) == k {
        var r :| r in front && identity(r) == k;
        assert r in rows;
      }
      if identity(last) == k { assert last in rows; }
    }
  }

  ghost predicate NoDuplicates<K>(ks: seq<K>) {
    forall i, j :: 0 <= i < j < |ks| ==> ks[i] != ks[j]
  }

  lemma {:induction false} IdentitiesDistinct<R, K>(identity: R -> K, rows: seq<R>)
    ensures NoDuplicates(Identities(identity, rows))
  {
    if rows != [] { IdentitiesDistinct(identity, rows[..|rows| - 1]); }
  }

  lemma {:induction false} DistinctCardinality<K>(ks: seq<K>)
    requires NoDuplicates(ks)
    ensures |set k | k in ks| == |ks|
  {
    if ks != [] {
      var front, last := ks[..|ks| - 1], ks[|ks| - 1];
      DistinctCardinality(front);
      assert ks == front + [last];
      assert (set k | k in ks) == (set k | k in front) + {last};
      assert last !in front;
    }
  }

  /** What a group says, without its order: the value and the rows that support it. */
  ghost function View<R, K>(groups: seq<Group<R, K>>): set<(K, multiset<R>)> {
    set g | g in groups :: (g.identity, multiset(g.members))
  }

  /**
   * The groups partition the rows: a row of identity k occurs in the group of k as often as in the input and
   * in no other group, and every group is supported by exactly the rows it holds.
   */
  lemma {:induction false} GroupsPartition<R, K>(identity: R -> K, rows: seq<R>, g: Group<R, K>, r: R)
    requires g in Groups(identity, rows)
    ensures multiset(g.members)[r] == if identity(r) == g.identity then multiset(rows)[r] else 0
    ensures g.support == |g.members| > 0
  {
    var groups := Groups(identity, rows);
    var i :| 0 <= i < |groups| && groups[i] == g;
    var k := Identities(identity, rows)[i];
    assert g == GroupOf(identity, rows, k);
    FilterCount(HasIdentity(identity, k), rows, r);
    IdentitiesPresent(identity, rows, k);
    var witness_ :| witness_ in rows && identity(witness_) == k;
    FilterMember(HasIdentity(identity, k), rows, witness_);
  }

  /** Every row is in the group of its identity. */
  lemma GroupsCover<R, K>(identity: R -> K, rows: seq<R>, r: R)
    requires r in rows
    ensures exists g :: g in Groups(identity, rows) && g.identity == identity(r) && r in g.members
  {
    var k := identity(r);
    IdentitiesPresent(identity, rows, k);
    var ks := Identities(identity, rows);
    var i :| 0 <= i < |ks| && ks[i] == k;
    FilterMember(HasIdentity(identity, k), rows, r);
    assert Groups(identity, rows)[i] == GroupOf(identity, rows, k);
  }

  /** How many values there are, and which rows support each, do not depend on row order. */
  lemma {:induction false} GroupsOrderFree<R(!new), K(!new)>(identity: R -> K, s: seq<R>, t: seq<R>)
    requires multiset(s) == multiset(t)
    ensures View(Groups(identity, s)) == View(Groups(identity, t))
    ensures |Groups(identity, s)| == |Groups(identity, t)|
  {
    ViewIncluded(identity, s, t);
    ViewIncluded(identity, t, s);
    var a, b := Identities(identity, s), Identities(identity, t);
    forall k ensures k in a <==> k in b { SameIdentities(identity, s, t, k); }
    IdentitiesDistinct(identity, s);
    IdentitiesDistinct(identity, t);
    DistinctCardinality(a);
    DistinctCardinality(b);
    assert (set k | k in a) == (set k | k in b);
  }

  lemma SameIdentities<R(!new), K>(identity: R -> K, s: seq<R>, t: seq<R>, k: K)
    requires multiset(s) == multiset(t)
    ensures k in Identities(identity, s) <==> k in Identities(identity, t)
  {
    IdentitiesPresent(identity, s, k);
    IdentitiesPresent(identity, t, k);
    forall r ensures r in s <==> r in t { PermutationMember(s, t, r); }
  }

  lemma ViewIncluded<R(!new), K(!new)>(identity: R -> K, s: seq<R>, t: seq<R>)
    requires multiset(s) == multiset(t)
    ensures View(Groups(identity, s)) <= View(Groups(identity, t))
  {
    forall p | p in View(Groups(identity, s)) ensures p in View(Groups(identity, t)) {
      var g :| g in Groups(identity, s) && p == (g.identity, multiset(g.members));
      var gs := Groups(identity, s);
      var i :| 0 <= i < |gs| && gs[i] == g;
      var k := Identities(identity, s)[i];
      SameIdentities(identity, s, t, k);
      var ks := Identities(identity, t);
      var j :| 0 <= j < |ks| && ks[j] == k;
      FilterPermutation(HasIdentity(identity, k), s, t);
      assert Groups(identity, t)[j] == GroupOf(identity, t, k);
    }
  }

  /** There is one group exactly when there are rows and they all have one identity. */
  lemma {:induction false} SingleGroup<R, K>(identity: R -> K, rows: seq<R>)
    ensures |Groups(identity, rows)| == 1 <==>
      rows != [] && forall r :: r in rows ==> identity(r) == identity(rows[0])
    ensures |Groups(identity, rows)| == 0 <==> rows == []
  {
    var ks := Identities(identity, rows);
    if rows != [] {
      IdentitiesPresent(identity, rows, identity(rows[0]));
      assert identity(rows[0]) in ks;
      forall r | r in rows ensures identity(r) in ks { IdentitiesPresent(identity, rows, identity(r)); }
      if |ks| > 1 {
        IdentitiesDistinct(identity, rows);
        IdentitiesPresent(identity, rows, ks[0]);
        IdentitiesPresent(identity, rows, ks[1]);
      }
    }
  }

  /** The first row of identity `a` stands before every row of identity `b`. */
  ghost predicate MetBefore<R, K>(identity: R -> K, rows: seq<R>, a: K, b: K) {
    exists p :: 0 <= p < |rows| && identity(rows[p]) == a && forall i :: 0 <= i <= p ==> identity(rows[i]) != b
  }

  lemma MetBeforeLonger<R, K>(identity: R -> K, front: seq<R>, last: R, a: K, b: K)
    requires MetBefore(identity, front, a, b)
    ensures MetBefore(identity, front + [last], a, b)
  {
    var p :| 0 <= p < |front| && identity(front[p]) == a && forall i :: 0 <= i <= p ==> identity(front[i]) != b;
    assert (front + [last])[p] == front[p];
  }

  lemma {:induction false} MetFirst<R, K>(identity: R -> K, front: seq<R>, last: R, a: K)
    requires a in Identities(identity, front) && identity(last) !in Identities(identity, front)
    ensures MetBefore(identity, front + [last], a, identity(last))
  {
    IdentitiesPresent(identity, front, a);
    IdentitiesPresent(identity, front, identity(last));
    var r :| r in front && identity(r) == a;
    var p :| 0 <= p < |front| && front[p] == r;
    assert (front + [last])[p] == r;
    forall i | 0 <= i <= p ensures identity((front + [last])[i]) != identity(last) { assert front[i] in front; }
  }

  /** Groups stand in the order in which their identities are first met; no identity has two. */
  lemma {:induction false} GroupsInOrder<R, K>(identity: R -> K, rows: seq<R>)
    ensures var ks := Identities(identity, rows);
      && NoDuplicates(ks) && |Groups(identity, rows)| == |ks|
      && (forall i :: 0 <= i < |ks| ==> Groups(identity, rows)[i].identity == ks[i])
      && forall i, j :: 0 <= i < j < |ks| ==> MetBefore(identity, rows, ks[i], ks[j])
  {
    IdentitiesDistinct(identity, rows);
    if rows != [] {
      var front, last := rows[..|rows| - 1], rows[|rows| - 1];
      assert rows == front + [last];
      GroupsInOrder(identity, front);
      var before, ks := Identities(identity, front), Identities(identity, rows);
      forall i, j | 0 <= i < j < |ks| ensures MetBefore(identity, rows, ks[i], ks[j]) {
        if j < |before| {
          MetBeforeLonger(identity, front, last, before[i], before[j]);
        } else {
          assert before[i] in before;
          MetFirst(identity, front, last, before[i]);
        }
      }
    }
  }
}
