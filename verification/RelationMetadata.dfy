/** Direction, inverses and symmetry of relation concepts; how a key and its endpoints become a stored triple. */
module RelationMetadata {
  import opened Prelude
  import Lex

  datatype Directionality = Directed | Symmetric | Undirected

  datatype Metadata = Metadata(inverse: Option<string>, symmetric: bool, directionality: Directionality)

  /** One entry of the ordered metadata table. */
  datatype Entry = Entry(key: string, meta: Metadata)

  type Table = seq<Entry>

  const CORE: Table := [
    Entry("relation.employed_by", Metadata(Some("relation.employs"), false, Directed)),
    Entry("relation.resides_at", Metadata(None, false, Directed)),
    Entry("relation.owns", Metadata(Some("relation.owned_by"), false, Directed)),
    Entry("relation.likes", Metadata(None, false, Directed)),
    Entry("relation.married_to", Metadata(None, true, Symmetric)),
    Entry("relation.parent_of", Metadata(Some("relation.child_of"), false, Directed)),
    Entry("relation.provider_for", Metadata(Some("relation.client_of"), false, Directed))
  ]

  /** The process-wide overlay of learned relation metadata. */
  class LearnedRelations {
    var entries: Table

    constructor ()
      ensures entries == []
    {
      entries := [];
    }

    /** The core table followed by the overlay: what a lookup sees. */
    function Table(): Table
      reads this
    {
      CORE + entries
    }

    /** Registers metadata for a learned key, replacing an earlier registration in place. */
    method Register(key: string, meta: Metadata) returns (accepted: bool)
      modifies this
      ensures accepted <==> "relation.learned." <= key
      ensures !accepted ==> entries == old(entries)
      ensures accepted ==> Lookup(entries, key) == Some(meta)
      ensures accepted ==> forall k :: k != key ==> Lookup(entries, k) == Lookup(old(entries), k)
    {
      accepted := "relation.learned." <= key;
      if accepted {
        Put(entries, key, meta);
        entries := WithEntry(entries, key, meta);
      }
    }

    /** Forgets what was learned: lookups see the core table again. */
    method Clear()
      modifies this
      ensures Table() == CORE
    {
      entries := [];
    }
  }

  function Lookup(t: Table, key: string): Option<Metadata> {
    if t == [] then None
    else if t[0].key == key then Some(t[0].meta)
    else Lookup(t[1..], key)
  }

  predicate Has(t: Table, key: string) {
    Lookup(t, key).Some?
  }

  function WithEntry(t: Table, key: string, meta: Metadata): Table {
    if t == [] then [Entry(key, meta)]
    else if t[0].key == key then [Entry(key, meta)] + t[1..]
    else [t[0]] + WithEntry(t[1..], key, meta)
  }

  lemma {:induction false} Put(t: Table, key: string, meta: Metadata)
    ensures Lookup(WithEntry(t, key, meta), key) == Some(meta)
    ensures forall k :: k != key ==> Lookup(WithEntry(t, key, meta), k) == Lookup(t, k)
  {
    if t != [] { Put(t[1..], key, meta); }
  }

  // ---------------------------------------------------------------- stored keys

  /** A bare key may be written without its `relation.` prefix. */
  function Candidates(key: string): seq<string> {
    if "relation." <= key then [key] else [key, "relation." + key]
  }

  /** The part after the last dot; the whole key when there is none. */
  function LastSegment(key: string): string {
    if key == [] || key[|key| - 1] == '.' then []
    else LastSegment(key[..|key| - 1]) + [key[|key| - 1]]
  }

  predicate NamesInverse(meta: Metadata, key: string) {
    && meta.inverse.Some?
    && meta.inverse.value != []
    && (meta.inverse.value in Candidates(key) || LastSegment(meta.inverse.value) == LastSegment(key))
  }

  /** The first entry, in table order, whose inverse the key names. */
  function FirstInverse(t: Table, key: string): Option<string> {
    if t == [] then None
    else if NamesInverse(t[0].meta, key) then Some(t[0].key)
    else FirstInverse(t[1..], key)
  }

  /** The key a relation is stored under, and whether the endpoints swap. */
  function StoredQuery(t: Table, key: string): (string, bool) {
    if Has(t, key) then (key, false)
    else if !("relation." <= key) && Has(t, "relation." + key) then ("relation." + key, false)
    else match FirstInverse(t, key)
      case Some(stored) => (stored, true)
      case None => (key, false)
  }

  /** The table search as the program runs it: one pass over the entries. */
  method StoredRelationQuery(t: Table, key: string) returns (stored: string, swapped: bool)
    ensures (stored, swapped) == StoredQuery(t, key)
  {
    var candidates := Candidates(key);
    var c := 0;
    while c < |candidates|
      invariant 0 <= c <= |candidates|
      invariant forall k :: 0 <= k < c ==> !Has(t, candidates[k])
    {
      if Has(t, candidates[c]) {
        assert c == 0 || !Has(t, candidates[0]);
        return candidates[c], false;
      }
      c := c + 1;
    }
    assert !Has(t, candidates[0]) && (|candidates| == 2 ==> !Has(t, candidates[1]));
    var i := 0;
    while i < |t|
      invariant 0 <= i <= |t|
      invariant FirstInverse(t, key) == FirstInverse(t[i..], key)
    {
      assert t[i..][0] == t[i];
      if NamesInverse(t[i].meta, key) {
        return t[i].key, true;
      }
      assert t[i..][1..] == t[i + 1..];
      i := i + 1;
    }
    return key, false;
  }

  lemma {:induction false} FirstInverseStored(t: Table, key: string)
    requires FirstInverse(t, key).Some?
    ensures Has(t, FirstInverse(t, key).value)
  {
    if !NamesInverse(t[0].meta, key) {
      FirstInverseStored(t[1..], key);
    }
  }

  /** A stored key is stored under itself: rewriting twice changes nothing more. */
  lemma StoredKeyIsFixed(t: Table, key: string)
    ensures StoredQuery(t, StoredQuery(t, key).0) == (StoredQuery(t, key).0, false)
  {
    if FirstInverse(t, key).Some? { FirstInverseStored(t, key); }
  }

  // ---------------------------------------------------------------- endpoints

  predicate OrderInsensitive(t: Table, key: string) {
    match Lookup(t, key)
    case None => false
    case Some(meta) => meta.symmetric || meta.directionality != Directed
  }

  /** Stored endpoint order: order-insensitive relations put the smaller id first. */
  function CanonicalEndpoints(t: Table, subject: Id, object_: Id, key: string): (Id, Id) {
    if OrderInsensitive(t, key) && Lex.Less(object_, subject) then (object_, subject) else (subject, object_)
  }

  datatype Triple = Triple(fromId: Id, toId: Id, key: string)

  function Canonicalize(t: Table, subject: Id, object_: Id, key: string): Triple {
    var (stored, swapped) := StoredQuery(t, key);
    var (s, o) := if swapped then (object_, subject) else (subject, object_);
    var (f, e) := CanonicalEndpoints(t, s, o, stored);
    Triple(f, e, stored)
  }

  /** The stored form is its own stored form. */
  lemma CanonicalIsFixed(t: Table, subject: Id, object_: Id, key: string)
    ensures var c := Canonicalize(t, subject, object_, key);
      Canonicalize(t, c.fromId, c.toId, c.key) == c
  {
    StoredKeyIsFixed(t, key);
    var c := Canonicalize(t, subject, object_, key);
    if Lex.Less(c.toId, c.fromId) && Lex.Less(c.fromId, c.toId) {
      Lex.Asymmetric(c.toId, c.fromId);
    }
  }

  // ---------------------------------------------------------------- what the table says, entry by entry

  /** Entry `i` is the first under the key. */
  ghost predicate EntryOf(t: Table, key: string, i: int) {
    0 <= i < |t| && t[i].key == key && forall j :: 0 <= j < i ==> t[j].key != key
  }

  ghost predicate Listed(t: Table, key: string) {
    exists i :: 0 <= i < |t| && t[i].key == key
  }

  lemma {:induction false} LookupExactly(t: Table, key: string)
    ensures Lookup(t, key).Some? <==> Listed(t, key)
    ensures Lookup(t, key).Some? ==> exists i :: EntryOf(t, key, i) && Lookup(t, key) == Some(t[i].meta)
  {
    if t != [] {
      var rest := t[1..];
      LookupExactly(rest, key);
      if t[0].key == key {
        assert EntryOf(t, key, 0);
      } else {
        if Listed(rest, key) {
          var i :| 0 <= i < |rest| && rest[i].key == key;
          assert t[i + 1] == rest[i];
          var k :| EntryOf(rest, key, k) && Lookup(rest, key) == Some(rest[k].meta);
          assert EntryOf(t, key, k + 1);
        }
        if Listed(t, key) {
          var i :| 0 <= i < |t| && t[i].key == key;
          assert rest[i - 1] == t[i];
        }
      }
    }
  }

  /** The relation holds of its two ends alike: its entry says symmetric, or that it is not directed. */
  ghost predicate NoDirection(t: Table, key: string) {
    exists i :: EntryOf(t, key, i) && (t[i].meta.symmetric || t[i].meta.directionality in {Symmetric, Undirected})
  }

  lemma OrderInsensitiveExactly(t: Table, key: string)
    ensures OrderInsensitive(t, key) <==> NoDirection(t, key)
  {
    LookupExactly(t, key);
    if i :| EntryOf(t, key, i) {
      forall j | EntryOf(t, key, j) ensures i == j {}
    }
  }

  /** `end` is the key itself when it has no dot, and else what follows its last dot. */
  ghost predicate EndsIn(key: string, end: string) {
    '.' !in end && (key == end || exists before: string :: key == before + "." + end)
  }

  lemma {:induction false} LastSegmentExactly(key: string)
    ensures EndsIn(key, LastSegment(key))
  {
    if key != [] {
      var front, last := key[..|key| - 1], key[|key| - 1];
      assert key == front + [last];
      if last == '.' {
        assert key == front + "." + [];
      } else {
        LastSegmentExactly(front);
        var end := LastSegment(front);
        if front != end {
          var before: string :| front == before + "." + end;
          assert key == before + "." + (end + [last]);
        }
      }
    }
  }

  /** An ending longer than what follows the last dot has a dot in it. */
  lemma LongerHasDot(key: string, end: string, n: nat)
    requires EndsIn(key, end) && |end| < n <= |key|
    ensures '.' in key[|key| - n..]
  {
    var before: string :| key == before + "." + end;
    assert key[|before|] == '.';
    assert key[|key| - n..][|before| - (|key| - n)] == '.';
  }

  lemma EndIsOne(key: string, a: string, b: string)
    requires EndsIn(key, a) && EndsIn(key, b)
    ensures a == b
  {
    assert a == key[|key| - |a|..] && b == key[|key| - |b|..];
    if |a| < |b| { LongerHasDot(key, a, |b|); }
    if |b| < |a| { LongerHasDot(key, b, |a|); }
  }

  /** The entry's inverse is the key, or the key with its prefix, or ends like it. */
  ghost predicate SaysInverse(meta: Metadata, key: string) {
    && meta.inverse.Some? && meta.inverse.value != ""
    && (|| meta.inverse.value == key
        || (!("relation." <= key) && meta.inverse.value == "relation." + key)
        || exists end :: EndsIn(meta.inverse.value, end) && EndsIn(key, end))
  }

  lemma NamesInverseExactly(meta: Metadata, key: string)
    ensures NamesInverse(meta, key) <==> SaysInverse(meta, key)
  {
    if meta.inverse.Some? {
      LastSegmentExactly(meta.inverse.value);
      LastSegmentExactly(key);
      if end :| EndsIn(meta.inverse.value, end) && EndsIn(key, end) {
        EndIsOne(key, end, LastSegment(key));
        EndIsOne(meta.inverse.value, end, LastSegment(meta.inverse.value));
      }
    }
  }

  /** Entry `i` is the first whose inverse is the key. */
  ghost predicate InvertedBy(t: Table, key: string, i: int) {
    0 <= i < |t| && SaysInverse(t[i].meta, key) && forall j :: 0 <= j < i ==> !SaysInverse(t[j].meta, key)
  }

  ghost predicate NoneInverts(t: Table, key: string) {
    forall i :: 0 <= i < |t| ==> !SaysInverse(t[i].meta, key)
  }

  lemma {:induction false} FirstInverseExactly(t: Table, key: string)
    ensures FirstInverse(t, key).None? <==> NoneInverts(t, key)
    ensures FirstInverse(t, key).Some? ==> exists i :: InvertedBy(t, key, i) && FirstInverse(t, key) == Some(t[i].key)
  {
    if t != [] {
      var rest := t[1..];
      NamesInverseExactly(t[0].meta, key);
      FirstInverseExactly(rest, key);
      if SaysInverse(t[0].meta, key) {
        assert InvertedBy(t, key, 0);
      } else if FirstInverse(rest, key).Some? {
        var i :| InvertedBy(rest, key, i) && FirstInverse(rest, key) == Some(rest[i].key);
        assert InvertedBy(t, key, i + 1);
      } else {
        forall i | 0 <= i < |t| ensures !SaysInverse(t[i].meta, key) {
          if i > 0 { assert t[i] == rest[i - 1]; }
        }
      }
    }
  }

  /**
   * A listed key is stored as it is, and so is a bare one that is listed with its prefix; any other key that some
   * entry names as its inverse is stored under the first such entry with the ends exchanged; any other as it is.
   */
  lemma StoredQueryExactly(t: Table, key: string)
    ensures var bare := !("relation." <= key) && Listed(t, "relation." + key);
      var (stored, swapped) := StoredQuery(t, key);
      && (Listed(t, key) ==> stored == key && !swapped)
      && (!Listed(t, key) && bare ==> stored == "relation." + key && !swapped)
      && (!Listed(t, key) && !bare && NoneInverts(t, key) ==> stored == key && !swapped)
      && (!Listed(t, key) && !bare && !NoneInverts(t, key) ==>
            swapped && exists i :: InvertedBy(t, key, i) && stored == t[i].key)
  {
    LookupExactly(t, key);
    LookupExactly(t, "relation." + key);
    FirstInverseExactly(t, key);
  }

  /** The stored ends are those asserted, exchanged for an inverse key, and the smaller first without a direction. */
  lemma CanonicalExactly(t: Table, subject: Id, object_: Id, key: string)
    ensures var c := Canonicalize(t, subject, object_, key);
      var (stored, swapped) := StoredQuery(t, key);
      && c.key == stored
      && (!NoDirection(t, stored) ==> c == (if swapped then Triple(object_, subject, stored) else Triple(subject, object_, stored)))
      && (NoDirection(t, stored) ==>
            && (c == Triple(subject, object_, stored) || c == Triple(object_, subject, stored))
            && (c.fromId == c.toId || Lex.Less(c.fromId, c.toId)))
  {
    OrderInsensitiveExactly(t, StoredQuery(t, key).0);
    Lex.Total(subject, object_);
    if Lex.Less(subject, object_) { Lex.Asymmetric(subject, object_); }
    if Lex.Less(object_, subject) { Lex.Asymmetric(object_, subject); }
  }

  /** The endpoints in stored direction, before sorting. */
  function Oriented(t: Table, subject: Id, object_: Id, key: string): (Id, Id) {
    if StoredQuery(t, key).1 then (object_, subject) else (subject, object_)
  }

  /**
   * Two assertions have the same stored triple exactly when they use the same stored key and, once each is
   * turned to the stored direction, name the same endpoints, in either order when the relation has none.
   */
  lemma SameTripleExactly(t: Table, a: Id, b: Id, key: string, x: Id, y: Id, other: string)
    ensures Canonicalize(t, a, b, key) == Canonicalize(t, x, y, other) <==>
      && StoredQuery(t, key).0 == StoredQuery(t, other).0
      && (|| Oriented(t, a, b, key) == Oriented(t, x, y, other)
          || (&& OrderInsensitive(t, StoredQuery(t, key).0)
              && Oriented(t, a, b, key) == (Oriented(t, x, y, other).1, Oriented(t, x, y, other).0)))
  {
    var (p, q) := Oriented(t, a, b, key);
    Lex.Total(p, q);
    Lex.Irreflexive(p);
    if Lex.Less(p, q) { Lex.Asymmetric(p, q); }
    if Lex.Less(q, p) { Lex.Asymmetric(q, p); }
  }

  /** The core inverses read backwards: `x owned_by y` is stored as `y owns x`, and marriage has no direction. */
  lemma CoreInverses(x: Id, y: Id)
    ensures Canonicalize(CORE, x, y, "relation.owned_by") == Triple(y, x, "relation.owns")
    ensures Canonicalize(CORE, x, y, "relation.married_to") == Canonicalize(CORE, y, x, "relation.married_to")
  {
    CoreOwnedBy();
    CoreLookups();
    SameTripleExactly(CORE, x, y, "relation.married_to", y, x, "relation.married_to");
  }

  lemma CoreLookups()
    ensures Lookup(CORE, "relation.owns") == Some(Metadata(Some("relation.owned_by"), false, Directed))
    ensures Lookup(CORE, "relation.married_to") == Some(Metadata(None, true, Symmetric))
    ensures Lookup(CORE, "relation.owned_by") == None
  {
  }

  lemma CoreOwnedBy()
    ensures StoredQuery(CORE, "relation.owned_by") == ("relation.owns", true)
  {
    CoreLookups();
    var employs, ownedBy := LastSegment("relation.employs"), LastSegment("relation.owned_by");
    assert employs[|employs| - 1] == 's' && ownedBy[|ownedBy| - 1] == 'y';
    assert FirstInverse(CORE, "relation.owned_by") == FirstInverse(CORE[1..], "relation.owned_by");
    assert CORE[1..][1..] == CORE[2..];
    assert FirstInverse(CORE[1..], "relation.owned_by") == FirstInverse(CORE[2..], "relation.owned_by");
  }
}
