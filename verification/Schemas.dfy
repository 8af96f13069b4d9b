/** Completeness schemas: what a kind of statement must say, inherited up the concept hierarchy. */
module Schemas {
  import opened Prelude
  import opened Domain
  import opened Ranking

  datatype Importance = Essential | Useful | OptionalSlot

  datatype SlotKind =
    | TimeSlot | SubjectSlot | EventTypeSlot | ActionSlot | FactSlot | RecurrenceSlot | DueSlot | EntitySlot
    | CorrectionTargetSlot | CorrectionFactSlot

  datatype Requirement = Requirement(
    slot: string, concept: string, importance: Importance, check: SlotKind, priority: int,
    clarificationKey: Option<string>, askIfMissing: bool)

  datatype Schema = Schema(appliesTo: string, parentKey: Option<string>, requirements: seq<Requirement>, version: string)

  /** Schemas by the key they apply to, and the ontology's two lookups. */
  datatype Sources = Sources(schemas: map<string, Schema>, byKey: map<string, Concept>, byId: map<Id, Concept>)

  // ---------------------------------------------------------------- the upward walk

  function SchemaParent(x: Sources, key: string): Option<string> {
    if key in x.schemas then x.schemas[key].parentKey else None
  }

  /** The concept's parent where the ontology has one, else the parent the schema names. */
  function Parent(x: Sources, key: string): Option<string> {
    if key !in x.byKey || x.byKey[key].parent.None? then SchemaParent(x, key)
    else if x.byKey[key].parent.value in x.byId then Some(x.byId[x.byKey[key].parent.value].key)
    else SchemaParent(x, key)
  }

  function Up(x: Sources): string -> Option<string> {
    (key: string) => Parent(x, key)
  }

  /** Every key the walk from `start` can come to. */
  function Keys(x: Sources, start: string): set<string> {
    {start}
    + (set k | k in x.schemas && x.schemas[k].parentKey.Some? :: x.schemas[k].parentKey.value)
    + (set i | i in x.byId :: x.byId[i].key)
  }

  ghost predicate Closed(up: string -> Option<string>, keys: set<string>) {
    forall k :: up(k).Some? ==> up(k).value in keys
  }

  lemma KeysClosed(x: Sources, start: string)
    ensures Closed(Up(x), Keys(x, start)) && start in Keys(x, start)
  {
  }

  /** The keys visited from `current`, stopping at the end, at an empty key or at one already seen. */
  function Walk(up: string -> Option<string>, keys: set<string>, current: Option<string>, seen: set<string>): seq<string>
    requires Closed(up, keys) && (current.Some? ==> current.value in keys)
    decreases |keys - seen|
  {
    if current.None? || current.value == "" || current.value in seen then []
    else
      SeesOneMore(keys, seen, current.value);
      [current.value] + Walk(up, keys, up(current.value), seen + {current.value})
  }

  lemma SeesOneMore(keys: set<string>, seen: set<string>, key: string)
    requires key in keys && key !in seen
    ensures |keys - (seen + {key})| < |keys - seen|
  {
    assert keys - (seen + {key}) == (keys - seen) - {key};
  }

  /** The walk from a concept: finite whatever the parent links, since every key is visited at most once. */
  function WalkFrom(x: Sources, key: string): seq<string> {
    KeysClosed(x, key);
    Walk(Up(x), Keys(x, key), Some(key), {})
  }

  /** The schemas along the walk, nearest first. */
  function ChainOf(x: Sources, keys: seq<string>): seq<Schema> {
    if keys == [] then []
    else ChainOf(x, keys[..|keys| - 1]) + (if keys[|keys| - 1] in x.schemas then [x.schemas[keys[|keys| - 1]]] else [])
  }

  // ---------------------------------------------------------------- merging

  /** A dictionary assignment: an existing slot keeps its place, a new one goes to the end. */
  function Assign(merged: seq<Requirement>, r: Requirement): seq<Requirement> {
    if merged == [] then [r]
    else if merged[0].slot == r.slot then [r] + merged[1..]
    else [merged[0]] + Assign(merged[1..], r)
  }

  function AssignAll(merged: seq<Requirement>, rs: seq<Requirement>): seq<Requirement> {
    if rs == [] then merged else Assign(AssignAll(merged, rs[..|rs| - 1]), rs[|rs| - 1])
  }

  /** Ancestors first, so that nearer schemas overwrite them. */
  function Merge(chain: seq<Schema>): seq<Requirement> {
    if chain == [] then [] else AssignAll(Merge(chain[1..]), chain[0].requirements)
  }

  function ByPriority(): Requirement -> Keyed<Requirement> {
    (r: Requirement) => Keyed(r.priority, "", "", r)
  }

  function Keyeds(rs: seq<Requirement>): (r: seq<Keyed<Requirement>>)
    ensures |r| == |rs|
    ensures forall i :: 0 <= i < |rs| ==> r[i] == ByPriority()(rs[i])
  {
    seq(|rs|, i requires 0 <= i < |rs| => ByPriority()(rs[i]))
  }

  /** Stable sorting by priority. */
  function Prioritized(rs: seq<Requirement>): seq<Requirement> {
    RowsOf(Sort(false, Keyeds(rs)))
  }

  function ResolveFor(x: Sources, key: string): Option<Schema> {
    var chain := ChainOf(x, WalkFrom(x, key));
    if chain == [] then None
    else Some(Schema(chain[0].appliesTo, chain[0].parentKey, Prioritized(Merge(chain)), chain[0].version))
  }

  /** The resolution as it runs: a loop up the parents, then a loop down the schemas found. */
  method Resolve(x: Sources, key: string) returns (r: Option<Schema>)
    ensures r == ResolveFor(x, key)
  {
    var chain := CollectChain(x, key);
    if chain == [] { return None; }
    var merged := MergeChain(chain);
    r := Some(Schema(chain[0].appliesTo, chain[0].parentKey, Prioritized(merged), chain[0].version));
  }

  method CollectChain(x: Sources, key: string) returns (chain: seq<Schema>)
    ensures chain == ChainOf(x, WalkFrom(x, key))
  {
    KeysClosed(x, key);
    chain := ClimbFrom(x, Up(x), Keys(x, key), key);
  }

  method ClimbFrom(x: Sources, up: string -> Option<string>, ghost keys: set<string>, key: string)
    returns (chain: seq<Schema>)
    requires Closed(up, keys) && key in keys
    ensures chain == ChainOf(x, Walk(up, keys, Some(key), {}))
  {
    chain := [];
    var current := Some(key);
    var seen: set<string> := {};
    ghost var visited: seq<string> := [];
    assert visited + Walk(up, keys, current, seen) == Walk(up, keys, Some(key), {});
    while current.Some? && current.value != "" && current.value !in seen
      invariant current.Some? ==> current.value in keys
      invariant chain == ChainOf(x, visited)
      invariant visited + Walk(up, keys, current, seen) == Walk(up, keys, Some(key), {})
      decreases |keys - seen|
    {
      var k := current.value;
      WalkStep(up, keys, k, seen, visited);
      assert (visited + [k])[..|visited|] == visited;
      seen := seen + {k};
      if k in x.schemas { chain := chain + [x.schemas[k]]; }
      visited := visited + [k];
      current := up(k);
    }
    assert visited + [] == visited;
  }

  lemma WalkStep(up: string -> Option<string>, keys: set<string>, k: string, seen: set<string>, visited: seq<string>)
    requires Closed(up, keys) && k in keys && k !in seen && k != ""
    ensures visited + Walk(up, keys, Some(k), seen) == (visited + [k]) + Walk(up, keys, up(k), seen + {k})
    ensures |keys - (seen + {k})| < |keys - seen|
  {
    SeesOneMore(keys, seen, k);
    assert visited + ([k] + Walk(up, keys, up(k), seen + {k})) == (visited + [k]) + Walk(up, keys, up(k), seen + {k});
  }

  method MergeChain(chain: seq<Schema>) returns (merged: seq<Requirement>)
    ensures merged == Merge(chain)
  {
    merged := [];
    var i := |chain|;
    assert chain[i..] == [];
    while i > 0
      invariant 0 <= i <= |chain|
      invariant merged == Merge(chain[i..])
    {
      i := i - 1;
      assert chain[i..][0] == chain[i] && chain[i..][1..] == chain[i + 1..];
      var rs := chain[i].requirements;
      ghost var above := merged;
      for j := 0 to |rs|
        invariant merged == AssignAll(above, rs[..j])
      {
        assert rs[..j + 1][..j] == rs[..j];
        merged := Assign(merged, rs[j]);
      }
      assert rs[..|rs|] == rs;
    }
    assert chain[0..] == chain;
  }

  // ---------------------------------------------------------------- what the merge means

  /** No key is visited twice, and each key after the first is the parent of the one before. */
  ghost predicate Path(up: string -> Option<string>, w: seq<string>) {
    && (forall i, j :: 0 <= i < j < |w| ==> w[i] != w[j])
    && (forall i, j :: 0 <= i && j == i + 1 && j < |w| ==> up(w[i]) == Some(w[j]))
  }

  lemma {:induction false} WalkIsPath(
    up: string -> Option<string>, keys: set<string>, current: Option<string>, seen: set<string>)
    requires Closed(up, keys) && (current.Some? ==> current.value in keys)
    ensures var w := Walk(up, keys, current, seen);
      && Path(up, w)
      && (forall k :: k in w ==> k !in seen)
      && (w != [] ==> current == Some(w[0]))
    decreases |keys - seen|
  {
    if !(current.None? || current.value == "" || current.value in seen) {
      var key := current.value;
      SeesOneMore(keys, seen, key);
      WalkIsPath(up, keys, up(key), seen + {key});
      var rest := Walk(up, keys, up(key), seen + {key});
      var w := Walk(up, keys, current, seen);
      assert w == [key] + rest;
      forall j | 0 < j < |w| ensures w[j] != w[0] { assert w[j] == rest[j - 1] && rest[j - 1] in rest; }
      forall i, j | 0 <= i && j == i + 1 && j < |w| ensures up(w[i]) == Some(w[j]) {
        if i > 0 { assert w[i] == rest[i - 1] && w[j] == rest[i]; }
      }
    }
  }

  function FindSlot(rs: seq<Requirement>, slot: string): Option<Requirement> {
    if rs == [] then None
    else if rs[|rs| - 1].slot == slot then Some(rs[|rs| - 1])
    else FindSlot(rs[..|rs| - 1], slot)
  }

  /** The requirement of the nearest schema that names the slot. */
  function Nearest(chain: seq<Schema>, slot: string): Option<Requirement> {
    if chain == [] then None
    else if FindSlot(chain[0].requirements, slot).Some? then FindSlot(chain[0].requirements, slot)
    else Nearest(chain[1..], slot)
  }

  ghost predicate SlotsOnce(rs: seq<Requirement>) {
    forall i, j :: 0 <= i < j < |rs| ==> rs[i].slot != rs[j].slot
  }

  lemma {:induction false} AssignKeeps(merged: seq<Requirement>, r: Requirement)
    requires SlotsOnce(merged)
    ensures SlotsOnce(Assign(merged, r))
    ensures forall q :: q in Assign(merged, r) <==> q == r || (q in merged && q.slot != r.slot)
  {
    if merged != [] {
      assert merged == [merged[0]] + merged[1..];
      if merged[0].slot == r.slot {
        forall q ensures q in merged[1..] ==> q.slot != r.slot {}
      } else {
        AssignKeeps(merged[1..], r);
      }
    }
  }

  lemma {:induction false} AssignAllKeeps(merged: seq<Requirement>, rs: seq<Requirement>)
    requires SlotsOnce(merged)
    ensures SlotsOnce(AssignAll(merged, rs))
    ensures forall q :: q in AssignAll(merged, rs) <==>
      FindSlot(rs, q.slot) == Some(q) || (FindSlot(rs, q.slot).None? && q in merged)
  {
    if rs != [] {
      AssignAllKeeps(merged, rs[..|rs| - 1]);
      AssignKeeps(AssignAll(merged, rs[..|rs| - 1]), rs[|rs| - 1]);
    }
  }

  lemma {:induction false} MergeIsNearest(chain: seq<Schema>)
    ensures SlotsOnce(Merge(chain))
    ensures forall q :: q in Merge(chain) <==> Nearest(chain, q.slot) == Some(q)
  {
    if chain != [] {
      MergeIsNearest(chain[1..]);
      AssignAllKeeps(Merge(chain[1..]), chain[0].requirements);
    }
  }

  lemma {:induction false} PrioritizedExactly(rs: seq<Requirement>)
    requires SlotsOnce(rs)
    ensures var p := Prioritized(rs);
      && SlotsOnce(p)
      && (forall q :: q in p <==> q in rs)
      && (forall i, j :: 0 <= i < j < |p| ==> p[i].priority <= p[j].priority)
  {
    var keyed := Keyeds(rs);
    var sorted := Sort(false, keyed);
    SortPermutes(false, keyed);
    SortSorted(false, keyed);
    forall i, j | 0 <= i < j < |keyed| ensures keyed[i] != keyed[j] { assert rs[i].slot != rs[j].slot; }
    DistinctPermutation(keyed, sorted);
    forall k ensures k in sorted <==> k in keyed { PermutationMember(keyed, sorted, k); }
    forall i | 0 <= i < |sorted| ensures sorted[i] == ByPriority()(sorted[i].row) && sorted[i].row in rs {
      assert sorted[i] in keyed;
    }
    SortedSlots(rs, sorted);
  }

  lemma SortedSlots(rs: seq<Requirement>, sorted: seq<Keyed<Requirement>>)
    requires SlotsOnce(rs) && Sorted(false, sorted)
    requires forall i, j :: 0 <= i < j < |sorted| ==> sorted[i] != sorted[j]
    requires forall k :: k in sorted <==> k in Keyeds(rs)
    requires forall i :: 0 <= i < |sorted| ==> sorted[i] == ByPriority()(sorted[i].row) && sorted[i].row in rs
    ensures var p := RowsOf(sorted);
      && SlotsOnce(p)
      && (forall q :: q in p <==> q in rs)
      && (forall i, j :: 0 <= i < j < |p| ==> p[i].priority <= p[j].priority)
  {
    var p := RowsOf(sorted);
    forall i, j | 0 <= i < j < |p| ensures p[i].slot != p[j].slot && p[i].priority <= p[j].priority {
      assert sorted[i] != sorted[j] && !Before(false, sorted[j], sorted[i]);
      SlotIdentifies(rs, p[i], p[j]);
    }
    forall q ensures q in p <==> q in rs {
      if q in rs {
        var i :| 0 <= i < |rs| && rs[i] == q;
        assert Keyeds(rs)[i] in sorted;
      }
    }
  }

  lemma SlotIdentifies(rs: seq<Requirement>, a: Requirement, b: Requirement)
    requires SlotsOnce(rs) && a in rs && b in rs
    ensures a.slot == b.slot ==> a == b
  {
    var i :| 0 <= i < |rs| && rs[i] == a;
    var j :| 0 <= j < |rs| && rs[j] == b;
  }

  /**
   * The schema of a concept holds, for each slot named anywhere on its upward walk, the requirement of the nearest
   * schema naming it, and nothing else; each slot once; by ascending priority.
   */
  lemma {:induction false} ResolvedExactly(x: Sources, key: string)
    ensures Path(Up(x), WalkFrom(x, key))
    ensures var chain := ChainOf(x, WalkFrom(x, key));
      match ResolveFor(x, key)
      case None => chain == []
      case Some(schema) =>
        && (forall q :: q in schema.requirements <==> Nearest(chain, q.slot) == Some(q))
        && SlotsOnce(schema.requirements)
        && (forall i, j :: 0 <= i < j < |schema.requirements| ==>
              schema.requirements[i].priority <= schema.requirements[j].priority)
  {
    var chain := ChainOf(x, WalkFrom(x, key));
    KeysClosed(x, key);
    WalkIsPath(Up(x), Keys(x, key), Some(key), {});
    MergeIsNearest(chain);
    PrioritizedExactly(Merge(chain));
  }

  // ---------------------------------------------------------------- the resolution, field by field

  /** The parent of a key: that of its concept, if the ontology knows both, and else the one its schema names. */
  ghost predicate ClimbsTo(x: Sources, key: string, parent: Option<string>) {
    if key in x.byKey && x.byKey[key].parent.Some? && x.byKey[key].parent.value in x.byId
    then parent == Some(x.byId[x.byKey[key].parent.value].key)
    else parent == if key in x.schemas then x.schemas[key].parentKey else None
  }

  /** From the start, parent by parent, no key twice, until there is no parent, an empty one, or one visited already. */
  ghost predicate WalksUp(x: Sources, start: string, w: seq<string>) {
    && (start == "" ==> w == []) && (start != "" ==> w != [] && w[0] == start)
    && (forall i, j :: 0 <= i < j < |w| ==> w[i] != w[j]) && "" !in w
    && (forall i, j :: 0 <= i && j == i + 1 && j < |w| ==> ClimbsTo(x, w[i], Some(w[j])))
    && (w != [] ==> exists end :: ClimbsTo(x, w[|w| - 1], end) && (end.None? || end.value == "" || end.value in w))
  }

  /** The walk goes as far as it can. */
  lemma {:induction false} WalkEnds(
    up: string -> Option<string>, keys: set<string>, current: Option<string>, seen: set<string>)
    requires Closed(up, keys) && (current.Some? ==> current.value in keys)
    ensures var w := Walk(up, keys, current, seen);
      && "" !in w
      && (w == [] <==> current.None? || current.value == "" || current.value in seen)
      && (w != [] ==> var end := up(w[|w| - 1]); end.None? || end.value == "" || end.value in w || end.value in seen)
    decreases |keys - seen|
  {
    if !(current.None? || current.value == "" || current.value in seen) {
      var key := current.value;
      SeesOneMore(keys, seen, key);
      WalkEnds(up, keys, up(key), seen + {key});
      assert Walk(up, keys, current, seen) == [key] + Walk(up, keys, up(key), seen + {key});
    }
  }

  lemma {:induction false} WalkExactly(x: Sources, key: string)
    ensures WalksUp(x, key, WalkFrom(x, key))
  {
    KeysClosed(x, key);
    WalkIsPath(Up(x), Keys(x, key), Some(key), {});
    WalkEnds(Up(x), Keys(x, key), Some(key), {});
    var w := WalkFrom(x, key);
    forall k ensures ClimbsTo(x, k, Up(x)(k)) {}
    if w != [] { assert ClimbsTo(x, w[|w| - 1], Up(x)(w[|w| - 1])); }
  }

  function HasSchema(x: Sources): string -> bool {
    (key: string) => key in x.schemas
  }

  /** The schemas of the visited keys that have one, nearest first. */
  ghost predicate AlongWalk(x: Sources, w: seq<string>, chain: seq<Schema>) {
    var keys := Filter(HasSchema(x), w);
    |chain| == |keys| && forall i :: 0 <= i < |keys| ==> keys[i] in x.schemas && chain[i] == x.schemas[keys[i]]
  }

  lemma {:induction false} ChainExactly(x: Sources, w: seq<string>)
    ensures AlongWalk(x, w, ChainOf(x, w))
  {
    if w != [] { ChainExactly(x, w[..|w| - 1]); }
  }

  /** The last of the requirements that names its slot. */
  ghost predicate NamesLast(rs: seq<Requirement>, q: Requirement, k: int) {
    0 <= k < |rs| && rs[k] == q && forall l :: k < l < |rs| ==> rs[l].slot != q.slot
  }

  ghost predicate Names(rs: seq<Requirement>, slot: string) {
    exists k :: 0 <= k < |rs| && rs[k].slot == slot
  }

  /** Schema `i` is the first that names the slot, and names it last by this requirement. */
  ghost predicate NearestAt(chain: seq<Schema>, q: Requirement, i: int) {
    && 0 <= i < |chain| && (exists k :: NamesLast(chain[i].requirements, q, k))
    && forall j :: 0 <= j < i ==> !Names(chain[j].requirements, q.slot)
  }

  lemma {:induction false} FindSlotExactly(rs: seq<Requirement>, slot: string)
    ensures FindSlot(rs, slot).Some? <==> Names(rs, slot)
    ensures FindSlot(rs, slot).Some? ==>
      FindSlot(rs, slot).value.slot == slot && exists k :: NamesLast(rs, FindSlot(rs, slot).value, k)
  {
    if rs != [] {
      var n := |rs| - 1;
      FindSlotExactly(rs[..n], slot);
      if rs[n].slot == slot {
        assert NamesLast(rs, rs[n], n);
      } else {
        if k :| 0 <= k < n && rs[..n][k].slot == slot { assert rs[k].slot == slot; }
        if k :| 0 <= k < |rs| && rs[k].slot == slot { assert rs[..n][k].slot == slot; }
        if FindSlot(rs, slot).Some? {
          var k :| NamesLast(rs[..n], FindSlot(rs, slot).value, k);
          assert NamesLast(rs, FindSlot(rs, slot).value, k);
        }
      }
    }
  }

  lemma LastIsOne(rs: seq<Requirement>, a: Requirement, b: Requirement, j: int, k: int)
    requires NamesLast(rs, a, j) && NamesLast(rs, b, k) && a.slot == b.slot
    ensures a == b
  {
  }

  lemma {:induction false} NearestExactly(chain: seq<Schema>, q: Requirement)
    ensures Nearest(chain, q.slot) == Some(q) <==> exists i :: NearestAt(chain, q, i)
  {
    if chain != [] {
      var rs, rest := chain[0].requirements, chain[1..];
      FindSlotExactly(rs, q.slot);
      NearestExactly(rest, q);
      if Names(rs, q.slot) {
        var found := FindSlot(rs, q.slot).value;
        var k :| NamesLast(rs, found, k);
        if found == q { assert NearestAt(chain, q, 0); }
        if i :| NearestAt(chain, q, i) {
          assert i == 0;
          var l :| NamesLast(rs, q, l);
          LastIsOne(rs, found, q, k, l);
        }
      } else {
        if i :| NearestAt(rest, q, i) {
          forall j | 0 <= j < i + 1 ensures !Names(chain[j].requirements, q.slot) {
            if j > 0 { assert chain[j] == rest[j - 1]; }
          }
          assert NearestAt(chain, q, i + 1);
        }
        if i :| NearestAt(chain, q, i) {
          var k :| NamesLast(chain[i].requirements, q, k);
          assert i > 0;
          forall j | 0 <= j < i - 1 ensures !Names(rest[j].requirements, q.slot) { assert rest[j] == chain[j + 1]; }
          assert NearestAt(rest, q, i - 1);
        }
      }
    }
  }

  /**
   * The schema of a concept is that of the nearest key on the upward walk that has one, and requires of each slot what
   * the nearest schema naming it says last, and nothing else; each slot once; by ascending priority.
   */
  lemma {:induction false} SchemaExactly(x: Sources, key: string) returns (w: seq<string>, chain: seq<Schema>)
    ensures WalksUp(x, key, w) && AlongWalk(x, w, chain)
    ensures ResolveFor(x, key).None? <==> chain == []
    ensures ResolveFor(x, key).Some? ==>
      var schema := ResolveFor(x, key).value;
      && schema.appliesTo == chain[0].appliesTo && schema.parentKey == chain[0].parentKey && schema.version == chain[0].version
      && (forall q :: q in schema.requirements <==> exists i :: NearestAt(chain, q, i))
      && SlotsOnce(schema.requirements)
      && (forall i, j :: 0 <= i < j < |schema.requirements| ==>
            schema.requirements[i].priority <= schema.requirements[j].priority)
  {
    w := WalkFrom(x, key);
    chain := ChainOf(x, w);
    WalkExactly(x, key);
    ChainExactly(x, w);
    ResolvedExactly(x, key);
    forall q: Requirement ensures Nearest(chain, q.slot) == Some(q) <==> exists i :: NearestAt(chain, q, i) {
      NearestExactly(chain, q);
    }
  }
}
