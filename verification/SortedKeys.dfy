/** Distinct keys in ascending order: what `sorted` of a set yields. */
module SortedKeys {
  import opened Prelude
  import Lex

  /** The ascending keys with `k` among them. */
  function InsertKey(ks: seq<string>, k: string): seq<string> {
    if ks == [] || Lex.Less(ks[|ks| - 1], k) then ks + [k]
    else if ks[|ks| - 1] == k then ks
    else InsertKey(ks[..|ks| - 1], k) + [ks[|ks| - 1]]
  }

  function KeysOf<T>(key: T -> string, rows: seq<T>): seq<string> {
    if rows == [] then [] else InsertKey(KeysOf(key, rows[..|rows| - 1]), key(rows[|rows| - 1]))
  }

  predicate Ascending(ks: seq<string>) {
    forall i, j :: 0 <= i < j < |ks| ==> Lex.Less(ks[i], ks[j])
  }

  lemma {:induction false} InsertKeyMember(ks: seq<string>, k: string, x: string)
    ensures x in InsertKey(ks, k) <==> x in ks || x == k
  {
    if !(ks == [] || Lex.Less(ks[|ks| - 1], k) || ks[|ks| - 1] == k) {
      InsertKeyMember(ks[..|ks| - 1], k, x);
      assert ks == ks[..|ks| - 1] + [ks[|ks| - 1]];
    }
  }

  lemma {:induction false} InsertKeyAscending(ks: seq<string>, k: string)
    requires Ascending(ks)
    ensures Ascending(InsertKey(ks, k))
  {
    if ks == [] {
    } else if Lex.Less(ks[|ks| - 1], k) {
      forall i | 0 <= i < |ks| ensures Lex.Less(ks[i], k) {
        if i < |ks| - 1 { Lex.Transitive(ks[i], ks[|ks| - 1], k); }
      }
    } else if ks[|ks| - 1] != k {
      var front, last := ks[..|ks| - 1], ks[|ks| - 1];
      Lex.Total(last, k);
      InsertKeyAscending(front, k);
      var r := InsertKey(front, k);
      forall i | 0 <= i < |r| ensures Lex.Less(r[i], last) {
        InsertKeyMember(front, k, r[i]);
      }
    }
  }

  /** Ascending, and exactly the keys of the rows. */
  lemma {:induction false} KeysOfExactly<T>(key: T -> string, rows: seq<T>)
    ensures Ascending(KeysOf(key, rows))
    ensures forall k :: k in KeysOf(key, rows) <==> exists x :: x in rows && key(x) == k
  {
    if rows != [] {
      var front, last := rows[..|rows| - 1], rows[|rows| - 1];
      KeysOfExactly(key, front);
      InsertKeyAscending(KeysOf(key, front), key(last));
      forall k ensures k in KeysOf(key, rows) <==> exists x :: x in rows && key(x) == k {
        InsertKeyMember(KeysOf(key, front), key(last), k);
        assert last in rows;
        assert forall x :: x in rows <==> x in front || x == last;
      }
    }
  }

  lemma {:induction false} AscendingUnique(a: seq<string>, b: seq<string>)
    requires Ascending(a) && Ascending(b)
    requires forall k :: k in a <==> k in b
    ensures a == b
  {
    assert a != [] ==> a[0] in b;
    assert b != [] ==> b[0] in a;
    if a != [] && b != [] {
      if Lex.Less(a[0], b[0]) { Lex.Asymmetric(a[0], b[0]); }
      assert a == [a[0]] + a[1..] && b == [b[0]] + b[1..];
      forall k ensures k in a[1..] <==> k in b[1..] {
        Lex.Irreflexive(a[0]);
        if k in a[1..] { assert k in b && k != a[0]; }
        if k in b[1..] { assert k in a && k != b[0]; }
      }
      AscendingUnique(a[1..], b[1..]);
    }
  }

  lemma {:induction false} KeysOrderFree<T(!new)>(key: T -> string, s: seq<T>, t: seq<T>)
    requires multiset(s) == multiset(t)
    ensures KeysOf(key, s) == KeysOf(key, t)
  {
    KeysOfExactly(key, s);
    KeysOfExactly(key, t);
    forall x ensures x in s <==> x in t { PermutationMember(s, t, x); }
    AscendingUnique(KeysOf(key, s), KeysOf(key, t));
  }
}
