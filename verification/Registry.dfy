/** The ontology registry: concepts by id and key, and the bounded walk up their parents. */
module Registry {
  import opened Prelude
  import opened Domain

  const MAX_ANCESTRY := 32

  datatype RegistryError = CoreMutation | Conflict | NotFound

  /** The tables of the registry; keys are looked up among `globals` and, per owner, among `personals`. */
  datatype Index = Index(byId: map<Id, Concept>, globals: seq<Concept>, personals: seq<Concept>, coreFrozen: bool)

  function FindKey(concepts: seq<Concept>, key: string): Option<Concept> {
    if concepts == [] then None
    else if concepts[0].key == key then Some(concepts[0])
    else FindKey(concepts[1..], key)
  }

  function FindPersonal(concepts: seq<Concept>, owner: Id, key: string): Option<Concept> {
    if concepts == [] then None
    else if concepts[0].owner == Some(owner) && concepts[0].key == key then Some(concepts[0])
    else FindPersonal(concepts[1..], owner, key)
  }

  // ---------------------------------------------------------------- putting concepts

  function IndexGlobal(x: Index, c: Concept): Result<Index, RegistryError> {
    if c.id in x.byId then Err(Conflict)
    else Ok(x.(byId := x.byId[c.id := c], globals := x.globals + [c]))
  }

  function PutCore(x: Index, c: Concept): Result<Index, RegistryError> {
    match FindKey(x.globals, c.key)
    case None => if x.coreFrozen then Err(CoreMutation) else IndexGlobal(x, c)
    case Some(existing) => if existing == c then Ok(x) else Err(CoreMutation)
  }

  function PutExtended(x: Index, c: Concept): Result<Index, RegistryError> {
    match FindKey(x.globals, c.key)
    case None => IndexGlobal(x, c)
    case Some(existing) => if existing.scope == Core || existing != c then Err(Conflict) else Ok(x)
  }

  /** A personal concept is stored without asking whether its id is taken. */
  function PutPersonal(x: Index, c: Concept): Result<Index, RegistryError> {
    if c.owner.None? || FindKey(x.globals, c.key).Some? then Err(Conflict)
    else match FindPersonal(x.personals, c.owner.value, c.key)
      case Some(existing) => if existing == c then Ok(x) else Err(Conflict)
      case None => Ok(x.(byId := x.byId[c.id := c], personals := x.personals + [c]))
  }

  function Register(x: Index, c: Concept): Result<Index, RegistryError> {
    match c.scope
    case Core => Err(CoreMutation)
    case Personal => PutPersonal(x, c)
    case Extended => PutExtended(x, c)
  }

  /** Every listed concept is the one found under its id and under its key, and nothing else has an id. */
  ghost predicate Coherent(x: Index) {
    && (forall i :: i in x.byId ==> x.byId[i].id == i && (x.byId[i] in x.globals || x.byId[i] in x.personals))
    && (forall c :: c in x.globals || c in x.personals ==> c.id in x.byId && x.byId[c.id] == c)
    && (forall i, j :: 0 <= i < j < |x.globals| ==> x.globals[i].key != x.globals[j].key)
    && (forall i, j :: 0 <= i < j < |x.personals| ==>
          (x.personals[i].owner, x.personals[i].key) != (x.personals[j].owner, x.personals[j].key))
    && (forall c :: c in x.personals ==> c.owner.Some? && c.scope == Personal)
    && (forall c :: c in x.globals ==> c.scope != Personal)
  }

  /** What every registry keeps, hidden concepts or not: ids match, and the known ids are those of listed concepts. */
  ghost predicate Filed(x: Index) {
    && (forall i :: i in x.byId ==> x.byId[i].id == i && (x.byId[i] in x.globals || x.byId[i] in x.personals))
    && (forall c :: c in x.globals || c in x.personals ==> c.id in x.byId)
  }

  /** Whatever is put, ids keep matching: a personal concept under a taken id hides one, but loses no id. */
  lemma {:induction false} PutKeepsFiled(x: Index, c: Concept)
    requires Filed(x)
    ensures Register(x, c).Ok? ==> Filed(Register(x, c).value)
    ensures PutCore(x, c).Ok? ==> Filed(PutCore(x, c).value)
  {
    forall d ensures d in x.globals + [c] <==> d in x.globals || d == c {}
    forall d ensures d in x.personals + [c] <==> d in x.personals || d == c {}
  }

  lemma {:induction false} FindKeyExactly(concepts: seq<Concept>, key: string)
    ensures FindKey(concepts, key).None? <==> forall c :: c in concepts ==> c.key != key
    ensures FindKey(concepts, key).Some? ==>
      FindKey(concepts, key).value in concepts && FindKey(concepts, key).value.key == key
  {
    if concepts != [] {
      FindKeyExactly(concepts[1..], key);
      assert concepts == [concepts[0]] + concepts[1..];
    }
  }

  lemma {:induction false} FindPersonalExactly(concepts: seq<Concept>, owner: Id, key: string)
    ensures FindPersonal(concepts, owner, key).None? <==>
      forall c :: c in concepts ==> !(c.owner == Some(owner) && c.key == key)
  {
    if concepts != [] {
      FindPersonalExactly(concepts[1..], owner, key);
      assert concepts == [concepts[0]] + concepts[1..];
    }
  }

  lemma {:induction false} GlobalKeepsCoherent(x: Index, c: Concept)
    requires Coherent(x) && FindKey(x.globals, c.key).None? && c.scope != Personal
    requires IndexGlobal(x, c).Ok?
    ensures Coherent(IndexGlobal(x, c).value)
  {
    FindKeyExactly(x.globals, c.key);
    var y := IndexGlobal(x, c).value;
    forall d ensures d in y.globals <==> d in x.globals || d == c {}
    forall i | 0 <= i < |x.globals| ensures x.globals[i].key != c.key { assert x.globals[i] in x.globals; }
  }

  /** Core and extended concepts keep the registry coherent. */
  lemma {:induction false} PutGlobalKeepsCoherent(x: Index, c: Concept)
    requires Coherent(x) && c.scope != Personal
    ensures PutCore(x, c).Ok? ==> Coherent(PutCore(x, c).value)
    ensures PutExtended(x, c).Ok? ==> Coherent(PutExtended(x, c).value)
  {
    if FindKey(x.globals, c.key).None? && IndexGlobal(x, c).Ok? { GlobalKeepsCoherent(x, c); }
  }

  /**
   * An accepted personal concept keeps the registry coherent exactly when it was already there or its id was free:
   * with a taken id it hides the concept that had it.
   */
  lemma {:induction false} PersonalCoherentExactly(x: Index, c: Concept)
    requires Coherent(x) && c.scope == Personal
    requires PutPersonal(x, c).Ok?
    ensures Coherent(PutPersonal(x, c).value) <==> c in x.personals || c.id !in x.byId
  {
    var y := PutPersonal(x, c).value;
    FindPersonalExactly(x.personals, c.owner.value, c.key);
    if FindPersonal(x.personals, c.owner.value, c.key).None? {
      forall d ensures d in y.personals <==> d in x.personals || d == c {}
      forall i | 0 <= i < |x.personals|
        ensures (x.personals[i].owner, x.personals[i].key) != (c.owner, c.key)
      {
        assert x.personals[i] in x.personals;
      }
      if c.id in x.byId {
        var hidden := x.byId[c.id];
        assert hidden in y.globals || hidden in y.personals;
        assert hidden != c;
        assert y.byId[hidden.id] == c;
        assert !Coherent(y);
      } else {
        assert Coherent(y);
      }
    } else {
      PersonalListed(x.personals, c);
    }
  }

  lemma {:induction false} PersonalListed(concepts: seq<Concept>, c: Concept)
    requires c.owner.Some? && FindPersonal(concepts, c.owner.value, c.key) == Some(c)
    ensures c in concepts
  {
    if !(concepts[0].owner == c.owner && concepts[0].key == c.key) { PersonalListed(concepts[1..], c); }
  }

  /** A key is found again where it was appended, unless it was there before. */
  lemma {:induction false} FindKeyAppend(concepts: seq<Concept>, c: Concept, key: string)
    ensures FindKey(concepts + [c], key) ==
      if FindKey(concepts, key).Some? then FindKey(concepts, key) else if c.key == key then Some(c) else None
  {
    if concepts != [] {
      assert (concepts + [c])[0] == concepts[0] && (concepts + [c])[1..] == concepts[1..] + [c];
      FindKeyAppend(concepts[1..], c, key);
    } else {
      assert ([] + [c])[1..] == [];
    }
  }

  lemma {:induction false} FindPersonalAppend(concepts: seq<Concept>, c: Concept, owner: Id, key: string)
    ensures FindPersonal(concepts + [c], owner, key) ==
      if FindPersonal(concepts, owner, key).Some? then FindPersonal(concepts, owner, key)
      else if c.owner == Some(owner) && c.key == key then Some(c) else None
  {
    if concepts != [] {
      assert (concepts + [c])[0] == concepts[0] && (concepts + [c])[1..] == concepts[1..] + [c];
      FindPersonalAppend(concepts[1..], c, owner, key);
    } else {
      assert ([] + [c])[1..] == [];
    }
  }

  /**
   * After a registration the concept is found under its key, personal ones by their owner; every other key, and
   * every key of other owners, finds what it found before.
   */
  lemma {:induction false} RegisteredIsFound(x: Index, c: Concept, owner: Id, key: string)
    requires Register(x, c).Ok?
    ensures var y := Register(x, c).value;
      && (c.scope == Extended ==> FindKey(y.globals, c.key) == Some(c) && y.personals == x.personals)
      && (c.scope == Personal ==>
            c.owner.Some? && FindPersonal(y.personals, c.owner.value, c.key) == Some(c) && y.globals == x.globals)
      && (key != c.key ==> FindKey(y.globals, key) == FindKey(x.globals, key))
      && (c.owner != Some(owner) || key != c.key ==> FindPersonal(y.personals, owner, key) == FindPersonal(x.personals, owner, key))
  {
    FindKeyAppend(x.globals, c, c.key);
    FindKeyAppend(x.globals, c, key);
    FindPersonalAppend(x.personals, c, owner, key);
    if c.owner.Some? { FindPersonalAppend(x.personals, c, c.owner.value, c.key); }
  }

  /** No global concept has the key. */
  ghost predicate KeyFree(x: Index, key: string) {
    forall c :: c in x.globals ==> c.key != key
  }

  /** The first global concept with the key. */
  ghost predicate GlobalUnder(x: Index, key: string, d: Concept) {
    exists i :: 0 <= i < |x.globals| && x.globals[i] == d && d.key == key
      && forall j :: 0 <= j < i ==> x.globals[j].key != key
  }

  ghost predicate OwnKeyFree(x: Index, owner: Id, key: string) {
    forall c :: c in x.personals ==> c.owner != Some(owner) || c.key != key
  }

  ghost predicate PersonalUnder(x: Index, owner: Id, key: string, d: Concept) {
    exists i :: 0 <= i < |x.personals| && x.personals[i] == d && d.owner == Some(owner) && d.key == key
      && forall j :: 0 <= j < i ==> x.personals[j].owner != Some(owner) || x.personals[j].key != key
  }

  lemma {:induction false} FindKeyFirst(x: Index, key: string)
    ensures FindKey(x.globals, key).None? <==> KeyFree(x, key)
    ensures FindKey(x.globals, key).Some? ==> GlobalUnder(x, key, FindKey(x.globals, key).value)
    decreases |x.globals|
  {
    FindKeyExactly(x.globals, key);
    if x.globals != [] && x.globals[0].key != key {
      var rest := x.(globals := x.globals[1..]);
      FindKeyFirst(rest, key);
      if FindKey(rest.globals, key).Some? {
        var d := FindKey(rest.globals, key).value;
        var i :| 0 <= i < |rest.globals| && rest.globals[i] == d && d.key == key
          && forall j :: 0 <= j < i ==> rest.globals[j].key != key;
        assert x.globals[i + 1] == d;
        forall j | 0 <= j < i + 1 ensures x.globals[j].key != key {
          if j > 0 { assert x.globals[j] == rest.globals[j - 1]; }
        }
      }
    } else if x.globals != [] {
      assert x.globals[0] == FindKey(x.globals, key).value;
    }
  }

  lemma {:induction false} FindPersonalFirst(x: Index, owner: Id, key: string)
    ensures FindPersonal(x.personals, owner, key).None? <==> OwnKeyFree(x, owner, key)
    ensures FindPersonal(x.personals, owner, key).Some? ==> PersonalUnder(x, owner, key, FindPersonal(x.personals, owner, key).value)
    decreases |x.personals|
  {
    FindPersonalExactly(x.personals, owner, key);
    if x.personals != [] && !(x.personals[0].owner == Some(owner) && x.personals[0].key == key) {
      var rest := x.(personals := x.personals[1..]);
      FindPersonalFirst(rest, owner, key);
      if FindPersonal(rest.personals, owner, key).Some? {
        var d := FindPersonal(rest.personals, owner, key).value;
        var i :| 0 <= i < |rest.personals| && rest.personals[i] == d && d.owner == Some(owner) && d.key == key
          && forall j :: 0 <= j < i ==> rest.personals[j].owner != Some(owner) || rest.personals[j].key != key;
        assert x.personals[i + 1] == d;
        forall j | 0 <= j < i + 1 ensures x.personals[j].owner != Some(owner) || x.personals[j].key != key {
          if j > 0 { assert x.personals[j] == rest.personals[j - 1]; }
        }
      }
    } else if x.personals != [] {
      assert x.personals[0] == FindPersonal(x.personals, owner, key).value;
    }
  }

  /** The tables with the concept added under its id and at the end of its list. */
  ghost predicate Adds(x: Index, c: Concept, y: Index) {
    && y.byId == x.byId[c.id := c] && y.coreFrozen == x.coreFrozen
    && y.globals == (if c.scope == Personal then x.globals else x.globals + [c])
    && y.personals == (if c.scope == Personal then x.personals + [c] else x.personals)
  }

  /**
   * A core concept is never registered. An extended one is added when its key and id are free, and changes nothing
   * when it is the concept under that key already. A personal one needs an owner and a key no global concept has; it
   * is added, whatever its id, when the owner's key is free, and changes nothing when it is the concept there.
   */
  lemma {:induction false} RegisterExactly(x: Index, c: Concept)
    ensures var r := Register(x, c);
      match c.scope
      case Core => r == Err(CoreMutation)
      case Extended =>
        if KeyFree(x, c.key) then (if c.id in x.byId then r == Err(Conflict) else r.Ok? && Adds(x, c, r.value))
        else r == if GlobalUnder(x, c.key, c) then Ok(x) else Err(Conflict)
      case Personal =>
        if c.owner.None? || !KeyFree(x, c.key) then r == Err(Conflict)
        else if OwnKeyFree(x, c.owner.value, c.key) then r.Ok? && Adds(x, c, r.value)
        else r == if PersonalUnder(x, c.owner.value, c.key, c) then Ok(x) else Err(Conflict)
  {
    FindKeyFirst(x, c.key);
    if c.owner.Some? { FindPersonalFirst(x, c.owner.value, c.key); }
  }

  /** A seed is added while the core is open and its key and id are free, and is fine when it is there already. */
  lemma {:induction false} PutCoreExactly(x: Index, c: Concept)
    requires c.scope != Personal
    ensures var r := PutCore(x, c);
      if !KeyFree(x, c.key) then r == if GlobalUnder(x, c.key, c) then Ok(x) else Err(CoreMutation)
      else if x.coreFrozen then r == Err(CoreMutation)
      else if c.id in x.byId then r == Err(Conflict)
      else r.Ok? && Adds(x, c, r.value)
  {
    FindKeyFirst(x, c.key);
  }

  /** The seeds put one after the other, up to the first that is refused. */
  function LoadAll(x: Index, seeds: seq<Concept>): Result<Index, RegistryError> {
    if seeds == [] then Ok(x)
    else match LoadAll(x, seeds[..|seeds| - 1])
      case Err(e) => Err(e)
      case Ok(y) => PutCore(y, seeds[|seeds| - 1])
  }

  lemma {:induction false} LoadAllStops(x: Index, seeds: seq<Concept>, n: nat)
    requires n <= |seeds| && LoadAll(x, seeds[..n]).Err?
    ensures LoadAll(x, seeds).Err?
    decreases |seeds|
  {
    if n < |seeds| {
      assert seeds[..|seeds| - 1][..n] == seeds[..n];
      LoadAllStops(x, seeds[..|seeds| - 1], n);
    } else {
      assert seeds[..n] == seeds;
    }
  }

  lemma OneMoreLoaded(x: Index, seeds: seq<Concept>, i: nat)
    requires i < |seeds| && LoadAll(x, seeds[..i]).Ok?
    ensures LoadAll(x, seeds[..i + 1]) == PutCore(LoadAll(x, seeds[..i]).value, seeds[i])
  {
    assert seeds[..i + 1][..i] == seeds[..i];
  }

  /** What loads keeps the registry coherent, and is listed. */
  lemma {:induction false} LoadedCoherent(x: Index, seeds: seq<Concept>)
    requires Coherent(x) && LoadAll(x, seeds).Ok? && forall c :: c in seeds ==> c.scope != Personal
    ensures Coherent(LoadAll(x, seeds).value)
    ensures forall c :: c in seeds ==> c in LoadAll(x, seeds).value.globals
  {
    if seeds != [] {
      var front, last := seeds[..|seeds| - 1], seeds[|seeds| - 1];
      assert seeds == front + [last];
      LoadedCoherent(x, front);
      PutGlobalKeepsCoherent(LoadAll(x, front).value, last);
      PutCoreExactly(LoadAll(x, front).value, last);
    }
  }

  /** The tables of a new registry that was given these seeds. */
  ghost predicate Holds(x: Index, seeds: seq<Concept>) {
    && x.globals == seeds && x.personals == [] && !x.coreFrozen
    && (forall i :: i in x.byId ==> exists c :: c in seeds && c.id == i)
    && (forall c :: c in seeds ==> c.id in x.byId && x.byId[c.id] == c)
  }

  lemma HoldsOneMore(x: Index, front: seq<Concept>, last: Concept)
    requires Holds(x, front) && last.scope != Personal
    requires forall c :: c in front ==> c.key != last.key && c.id != last.id
    ensures PutCore(x, last).Ok? && Holds(PutCore(x, last).value, front + [last])
  {
    PutCoreExactly(x, last);
    var seeds := front + [last];
    assert last in seeds && forall c :: c in front ==> c in seeds;
    forall c ensures c in seeds <==> c in front || c == last {}
  }

  /** Seeds with ids and keys of their own all load into a new registry, in order and under their ids. */
  lemma {:induction false} FreshSeedsLoad(seeds: seq<Concept>)
    requires forall c :: c in seeds ==> c.scope != Personal
    requires forall i, j :: 0 <= i < j < |seeds| ==> seeds[i].id != seeds[j].id && seeds[i].key != seeds[j].key
    ensures var r := LoadAll(Index(map[], [], [], false), seeds); r.Ok? && Holds(r.value, seeds)
  {
    if seeds != [] {
      var front, last := seeds[..|seeds| - 1], seeds[|seeds| - 1];
      assert seeds == front + [last];
      FreshSeedsLoad(front);
      forall c | c in front ensures c.key != last.key && c.id != last.id {
        var i :| 0 <= i < |front| && front[i] == c;
        assert seeds[i] == c && seeds[|seeds| - 1] == last;
      }
      HoldsOneMore(LoadAll(Index(map[], [], [], false), front).value, front, last);
    }
  }

  /** A core concept and a personal one under the same id. */
  lemma {:induction false} TakenIdHides(owner: Id, id: Id)
    ensures var core := Concept(id, "state.sold", StateValue, Core, "active", None, None);
      var own := Concept(id, "mine", StateValue, Personal, "active", None, Some(owner));
      var x := Index(map[id := core], [core], [], true);
      && Coherent(x) && PutPersonal(x, own).Ok?
      && !Coherent(PutPersonal(x, own).value)
      && PutPersonal(x, own).value.byId[id] == own && FindKey(PutPersonal(x, own).value.globals, "state.sold") == Some(core)
  {
    var core := Concept(id, "state.sold", StateValue, Core, "active", None, None);
    var own := Concept(id, "mine", StateValue, Personal, "active", None, Some(owner));
    var x := Index(map[id := core], [core], [], true);
    assert "mine" != "state.sold" by { assert "mine"[0] != "state.sold"[0]; }
    assert [core][1..] == [] && FindKey([], "mine") == None;
    assert FindKey(x.globals, own.key) == FindKey([core][1..], own.key);
    PersonalCoherentExactly(x, own);
  }

  // ---------------------------------------------------------------- ancestry

  ghost predicate IdsMatch(byId: map<Id, Concept>) {
    forall i :: i in byId ==> byId[i].id == i
  }

  /** The concept reached after `n` parent hops, if every parent on the way is known. */
  function Hop(byId: map<Id, Concept>, start: Concept, n: nat): Option<Concept>
    decreases n
  {
    if n == 0 then Some(start)
    else match Hop(byId, start, n - 1)
      case None => None
      case Some(c) => if c.parent.Some? && c.parent.value in byId then Some(byId[c.parent.value]) else None
  }

  predicate Reached(byId: map<Id, Concept>, start: Concept, target: Id, n: nat) {
    Hop(byId, start, n).Some? && Hop(byId, start, n).value.id == target
  }

  ghost predicate ReachedWithin(byId: map<Id, Concept>, start: Concept, target: Id, bound: nat) {
    exists n :: 1 <= n <= bound && Reached(byId, start, target, n)
  }

  /** Below the target by one to 32 known parents. */
  ghost predicate Descends(byId: map<Id, Concept>, start: Concept, target: Id) {
    start.id != target && ReachedWithin(byId, start, target, 32)
  }

  lemma {:induction false} HopAdds(byId: map<Id, Concept>, start: Concept, m: nat, n: nat)
    requires Hop(byId, start, m).Some?
    ensures Hop(byId, start, m + n) == Hop(byId, Hop(byId, start, m).value, n)
    decreases n
  {
    if n > 0 { HopAdds(byId, start, m, n - 1); }
  }

  /** After the start, the walk meets concepts under their own ids. */
  lemma {:induction false} HopIsFiled(byId: map<Id, Concept>, start: Concept, n: nat)
    requires IdsMatch(byId) && n >= 1 && Hop(byId, start, n).Some?
    ensures var c := Hop(byId, start, n).value; c.id in byId && byId[c.id] == c
  {
  }

  lemma {:induction false} HopStops(byId: map<Id, Concept>, start: Concept, m: nat, n: nat)
    requires m <= n && Hop(byId, start, m).None?
    ensures Hop(byId, start, n).None?
    decreases n
  {
    if m < n { HopStops(byId, start, m, n - 1); }
  }

  /** Once the walk meets a concept again, it only repeats what it has met. */
  lemma {:induction false} HopRepeats(byId: map<Id, Concept>, start: Concept, j: nat, i: nat, n: nat) returns (k: nat)
    requires 1 <= j <= i && Hop(byId, start, j).Some? && Hop(byId, start, i + 1) == Hop(byId, start, j)
    requires n >= 1
    ensures 1 <= k <= i && Hop(byId, start, n) == Hop(byId, start, k)
    decreases n
  {
    if n <= i {
      k := n;
    } else {
      var back := n - (i + 1);
      HopAdds(byId, start, i + 1, back);
      HopAdds(byId, start, j, back);
      k := HopRepeats(byId, start, j, i, j + back);
    }
  }

  /** `seen` holds exactly the ids reached after one to `i` hops. */
  ghost predicate Met(byId: map<Id, Concept>, start: Concept, i: nat, seen: set<Id>) {
    && (forall n :: 1 <= n <= i && Hop(byId, start, n).Some? ==> Hop(byId, start, n).value.id in seen)
    && (forall x :: x in seen ==> ReachedWithin(byId, start, x, i))
  }

  lemma MetOneMore(byId: map<Id, Concept>, start: Concept, i: nat, bound: nat, seen: set<Id>, parent: Id)
    requires IdsMatch(byId) && Met(byId, start, i, seen) && i < bound
    requires Hop(byId, start, i).Some? && Hop(byId, start, i).value.parent == Some(parent) && parent in byId
    ensures Hop(byId, start, i + 1) == Some(byId[parent])
    ensures Met(byId, start, i + 1, seen + {parent})
    ensures ReachedWithin(byId, start, parent, bound)
  {
    assert Reached(byId, start, parent, i + 1);
    forall x | x in seen ensures ReachedWithin(byId, start, x, i + 1) {
      assert ReachedWithin(byId, start, x, i);
    }
  }

  lemma MetAll(byId: map<Id, Concept>, start: Concept, target: Id, bound: nat, seen: set<Id>)
    requires Met(byId, start, bound, seen) && target !in seen
    ensures !ReachedWithin(byId, start, target, bound)
  {
  }

  class OntologyRegistry {
    var byId: map<Id, Concept>
    var globals: seq<Concept>
    var personals: seq<Concept>
    var coreFrozen: bool

    constructor ()
      ensures Tables() == Index(map[], [], [], false)
    {
      byId, globals, personals, coreFrozen := map[], [], [], false;
    }

    function Tables(): Index
      reads this
    {
      Index(byId, globals, personals, coreFrozen)
    }

    method Store(tables: Index)
      modifies this
      ensures Tables() == tables
    {
      byId, globals, personals, coreFrozen := tables.byId, tables.globals, tables.personals, tables.coreFrozen;
    }

    /** Loads the seeds in order, then refuses any further core concept; the first refused seed ends the loading. */
    method LoadCoreSeeds(seeds: seq<Concept>) returns (ok: bool)
      requires Coherent(Tables()) && forall c :: c in seeds ==> c.scope != Personal
      modifies this
      ensures Coherent(Tables())
      ensures ok <==> LoadAll(old(Tables()), seeds).Ok?
      ensures ok ==> Tables() == LoadAll(old(Tables()), seeds).value.(coreFrozen := true)
      ensures ok ==> forall c :: c in seeds ==> c in globals
    {
      ghost var x := Tables();
      for i := 0 to |seeds|
        invariant LoadAll(x, seeds[..i]) == Ok(Tables())
      {
        OneMoreLoaded(x, seeds, i);
        var put := PutCore(Tables(), seeds[i]);
        if put.Err? {
          LoadedCoherent(x, seeds[..i]);
          LoadAllStops(x, seeds, i + 1);
          return false;
        }
        Store(put.value);
      }
      assert seeds[..|seeds|] == seeds;
      LoadedCoherent(x, seeds);
      coreFrozen := true;
      ok := true;
    }

    /**
     * A refused concept changes nothing, and a core one is always refused. An accepted one is found under its key;
     * all other keys find what they found; ids keep matching; and only a personal concept under a taken id can
     * leave the registry incoherent.
     */
    method RegisterConcept(c: Concept) returns (r: Result<Concept, RegistryError>)
      requires Filed(Tables())
      modifies this
      ensures r == (match Register(old(Tables()), c) case Ok(_) => Ok(c) case Err(e) => Err(e))
      ensures r.Ok? ==> Tables() == Register(old(Tables()), c).value
      ensures r.Err? ==> Tables() == old(Tables())
      ensures c.scope == Core ==> r == Err(CoreMutation)
      ensures r.Ok? ==> r.value == c && coreFrozen == old(coreFrozen) && old(byId.Keys) + {c.id} == byId.Keys
      ensures r.Ok? && c.scope == Extended ==> FindKey(globals, c.key) == Some(c)
      ensures r.Ok? && c.scope == Personal ==> c.owner.Some? && FindPersonal(personals, c.owner.value, c.key) == Some(c)
      ensures forall k :: k != c.key ==> FindKey(globals, k) == FindKey(old(globals), k)
      ensures forall o, k :: k != c.key || c.owner != Some(o) ==>
        FindPersonal(personals, o, k) == FindPersonal(old(personals), o, k)
      ensures Filed(Tables())
      ensures Coherent(old(Tables())) && (c.scope != Personal || c in old(personals) || c.id !in old(byId)) ==>
        Coherent(Tables())
    {
      var put := Register(Tables(), c);
      if put.Err? { return Err(put.error); }
      forall o, k | k != c.key || c.owner != Some(o)
        ensures FindPersonal(put.value.personals, o, k) == FindPersonal(personals, o, k)
      {
        RegisteredIsFound(Tables(), c, o, k);
      }
      forall k | k != c.key ensures FindKey(put.value.globals, k) == FindKey(globals, k) {
        RegisteredIsFound(Tables(), c, "", k);
      }
      RegisteredIsFound(Tables(), c, "", "");
      PutKeepsFiled(Tables(), c);
      RegisteredIds(Tables(), c);
      if Coherent(Tables()) {
        if c.scope == Personal { PersonalCoherentExactly(Tables(), c); } else { PutGlobalKeepsCoherent(Tables(), c); }
      }
      Store(put.value);
      r := Ok(c);
    }

    /** A token names a concept by id, or else by key. */
    function Resolve(token: string): Option<Concept>
      reads this
    {
      if token in byId then Some(byId[token]) else FindKey(globals, token)
    }

    /** Whether one concept is a strict descendant of another, by the walk up at most 32 parents. */
    method IsDescendantOf(concept: string, ancestor: string) returns (r: Result<bool, RegistryError>)
      requires Filed(Tables())
      ensures r.Err? <==> Resolve(concept).None? || Resolve(ancestor).None?
      ensures r.Ok? ==> (r.value <==> Descends(byId, Resolve(concept).value, Resolve(ancestor).value.id))
    {
      var start, target := Resolve(concept), Resolve(ancestor);
      if start.None? || target.None? { return Err(NotFound); }
      var found := Walk(start.value, target.value.id, MAX_ANCESTRY);
      r := Ok(found);
    }

    /** Walks up at most `bound` parents, stopping at a root, an unknown parent or an id met before. */
    method Walk(start: Concept, target: Id, bound: nat) returns (found: bool)
      requires Filed(Tables())
      ensures found <==> start.id != target && ReachedWithin(byId, start, target, bound)
    {
      if start.id == target { return false; }
      var current := start;
      var seen: set<Id> := {};
      for i := 0 to bound
        invariant Hop(byId, start, i) == Some(current)
        invariant Met(byId, start, i, seen)
        invariant target !in seen
      {
        if current.parent.None? {
          WalkEnds(byId, start, target, i, bound, seen);
          return false;
        }
        var parent := current.parent.value;
        if parent in seen {
          WalkRepeats(byId, start, target, i, bound, seen, parent);
          return false;
        }
        if parent !in byId {
          WalkEnds(byId, start, target, i, bound, seen);
          return false;
        }
        MetOneMore(byId, start, i, bound, seen, parent);
        if parent == target { return true; }
        seen := seen + {parent};
        current := byId[parent];
      }
      MetAll(byId, start, target, bound, seen);
      found := false;
    }

    /** The ids of all concepts below the ancestor, itself first when asked for, in listing order. */
    method DescendantIds(ancestor: string, includeSelf: bool) returns (r: Result<seq<Id>, RegistryError>)
      requires Filed(Tables())
      ensures r.Err? <==> Resolve(ancestor).None?
      ensures r.Ok? ==> r.value == Descendants(Tables(), Resolve(ancestor).value.id, includeSelf)
    {
      var root := Resolve(ancestor);
      if root.None? { return Err(NotFound); }
      var target := root.value.id;
      var below := Below(globals + personals, target);
      r := Ok((if includeSelf then [target] else []) + below);
    }

    method Below(listed: seq<Concept>, target: Id) returns (ids: seq<Id>)
      requires Filed(Tables()) && listed == globals + personals
      ensures ids == IdsBelow(byId, target, listed)
    {
      ids := [];
      for i := 0 to |listed|
        invariant ids == IdsBelow(byId, target, listed[..i])
      {
        OneMoreBelow(Tables(), target, listed, i);
        var found := IsBelow(listed[i].id, target);
        if found { ids := ids + [listed[i].id]; }
      }
      assert listed[..|listed|] == listed;
    }

    /** A known id other than the target's, with the target on the walk up. */
    method IsBelow(id: Id, target: Id) returns (found: bool)
      requires Filed(Tables()) && id in byId && byId[id].id == id
      ensures found <==> Descends(byId, byId[id], target)
    {
      if id == target { return false; }
      found := Walk(byId[id], target, MAX_ANCESTRY);
    }
  }

  function Ids(concepts: seq<Concept>): (r: seq<Id>)
    ensures |r| == |concepts|
    ensures forall i :: 0 <= i < |concepts| ==> r[i] == concepts[i].id
  {
    seq(|concepts|, i requires 0 <= i < |concepts| => concepts[i].id)
  }

  /** What is filed under the concept's id is below the target. */
  ghost function BelowIn(byId: map<Id, Concept>, target: Id): Concept -> bool {
    (c: Concept) => c.id in byId && Descends(byId, byId[c.id], target)
  }

  ghost function IdsBelow(byId: map<Id, Concept>, target: Id, listed: seq<Concept>): seq<Id> {
    Ids(Filter(BelowIn(byId, target), listed))
  }

  /** A token is an id before it is a key. */
  lemma TokensExactly(registry: OntologyRegistry, token: string)
    ensures token in registry.byId ==> registry.Resolve(token) == Some(registry.byId[token])
    ensures token !in registry.byId ==>
      && (registry.Resolve(token).None? <==> KeyFree(registry.Tables(), token))
      && (registry.Resolve(token).Some? ==> GlobalUnder(registry.Tables(), token, registry.Resolve(token).value))
  {
    FindKeyFirst(registry.Tables(), token);
  }

  lemma OneMoreBelow(x: Index, target: Id, listed: seq<Concept>, i: nat)
    requires Filed(x) && i < |listed| && listed == x.globals + x.personals
    ensures listed[i].id in x.byId && x.byId[listed[i].id].id == listed[i].id
    ensures IdsBelow(x.byId, target, listed[..i + 1]) == IdsBelow(x.byId, target, listed[..i])
      + (if Descends(x.byId, x.byId[listed[i].id], target) then [listed[i].id] else [])
  {
    assert listed[i] in listed;
    assert listed[..i + 1] == listed[..i] + [listed[i]];
    FilterAppend(BelowIn(x.byId, target), listed[..i], listed[i]);
  }

  ghost function Descendants(x: Index, target: Id, includeSelf: bool): seq<Id> {
    (if includeSelf then [target] else []) + IdsBelow(x.byId, target, x.globals + x.personals)
  }

  /** Where every id is that of a listed concept, the ids below an ancestor are all those whose concepts are. */
  lemma {:induction false} DescendantsExactly(x: Index, target: Id, includeSelf: bool, i: Id)
    requires Filed(x)
    ensures i in Descendants(x, target, includeSelf) <==>
      (includeSelf && i == target) || (i in x.byId && Descends(x.byId, x.byId[i], target))
  {
    var listed := x.globals + x.personals;
    var below := Filter(BelowIn(x.byId, target), listed);
    if i in x.byId && Descends(x.byId, x.byId[i], target) {
      assert x.byId[i] in listed;
      FilterMember(BelowIn(x.byId, target), listed, x.byId[i]);
      var k :| 0 <= k < |below| && below[k] == x.byId[i];
      assert Ids(below)[k] == i;
    }
    if i in Ids(below) {
      var k :| 0 <= k < |below| && Ids(below)[k] == i;
      FilterMember(BelowIn(x.byId, target), listed, below[k]);
    }
  }

  lemma {:induction false} RegisteredIds(x: Index, c: Concept)
    requires Filed(x) && Register(x, c).Ok?
    ensures x.byId.Keys + {c.id} == Register(x, c).value.byId.Keys
    ensures Register(x, c).value.coreFrozen == x.coreFrozen
  {
    FindKeyExactly(x.globals, c.key);
    if c.scope == Personal && FindPersonal(x.personals, c.owner.value, c.key).Some? { PersonalListed(x.personals, c); }
  }

  lemma {:induction false} WalkEnds(byId: map<Id, Concept>, start: Concept, target: Id, i: nat, bound: nat, seen: set<Id>)
    requires Hop(byId, start, i).Some?
    requires var parent := Hop(byId, start, i).value.parent; parent.None? || parent.value !in byId
    requires Met(byId, start, i, seen) && target !in seen
    ensures !ReachedWithin(byId, start, target, bound)
  {
    assert Hop(byId, start, i + 1).None?;
    forall n | 1 <= n <= bound ensures !Reached(byId, start, target, n) {
      if n > i { HopStops(byId, start, i + 1, n); }
    }
  }

  lemma {:induction false} WalkRepeats(
    byId: map<Id, Concept>, start: Concept, target: Id, i: nat, bound: nat, seen: set<Id>, parent: Id)
    requires IdsMatch(byId)
    requires Hop(byId, start, i).Some? && Hop(byId, start, i).value.parent == Some(parent) && parent in seen
    requires Met(byId, start, i, seen) && target !in seen
    ensures !ReachedWithin(byId, start, target, bound)
  {
    assert ReachedWithin(byId, start, parent, i);
    var j :| 1 <= j <= i && Reached(byId, start, parent, j);
    HopIsFiled(byId, start, j);
    assert Hop(byId, start, i + 1) == Some(byId[parent]);
    forall n | 1 <= n <= bound ensures !Reached(byId, start, target, n) {
      var k := HopRepeats(byId, start, j, i, n);
    }
  }

  // ---------------------------------------------------------------- ancestry as an order

  /** Some number of parent hops leads from one concept to the other. */
  ghost predicate Above(byId: map<Id, Concept>, start: Id, target: Id) {
    start in byId && exists n :: n >= 1 && Reached(byId, byId[start], target, n)
  }

  ghost predicate TooDeep(byId: map<Id, Concept>, i: Id) {
    i in byId && Hop(byId, byId[i], MAX_ANCESTRY + 1).Some?
  }

  /** No concept has more than 32 ancestors. */
  ghost predicate Shallow(byId: map<Id, Concept>) {
    forall i :: !TooDeep(byId, i)
  }

  /** A walk that returns to its start never ends. */
  lemma {:induction false} LongWalk(byId: map<Id, Concept>, c: Concept, n: nat, m: nat)
    requires n >= 1 && Hop(byId, c, n) == Some(c)
    ensures Hop(byId, c, m).Some?
    decreases m
  {
    if m < n {
      if Hop(byId, c, m).None? { HopStops(byId, c, m, n); }
    } else {
      HopAdds(byId, c, n, m - n);
      LongWalk(byId, c, n, m - n);
    }
  }

  lemma {:induction false} CycleIsDeep(byId: map<Id, Concept>, i: Id)
    requires IdsMatch(byId)
    ensures Above(byId, i, i) ==> TooDeep(byId, i)
  {
    if Above(byId, i, i) {
      var n :| n >= 1 && Reached(byId, byId[i], i, n);
      HopIsFiled(byId, byId[i], n);
      LongWalk(byId, byId[i], n, MAX_ANCESTRY + 1);
    }
  }

  lemma {:induction false} AboveTransitive(byId: map<Id, Concept>, a: Id, b: Id, c: Id)
    requires IdsMatch(byId)
    ensures Above(byId, a, b) && Above(byId, b, c) ==> Above(byId, a, c)
  {
    if Above(byId, a, b) && Above(byId, b, c) {
      var n :| n >= 1 && Reached(byId, byId[a], b, n);
      var m :| m >= 1 && Reached(byId, byId[b], c, m);
      HopIsFiled(byId, byId[a], n);
      HopAdds(byId, byId[a], n, m);
      assert Reached(byId, byId[a], c, n + m);
    }
  }

  /**
   * Without concepts deeper than 32 the bounded walk is the full ancestry, and ancestry is a strict partial order.
   */
  lemma {:induction false} ShallowAncestry(byId: map<Id, Concept>, a: Id, b: Id, c: Id)
    requires IdsMatch(byId) && Shallow(byId)
    ensures a in byId ==> (Descends(byId, byId[a], b) <==> Above(byId, a, b))
    ensures !Above(byId, a, a)
    ensures Above(byId, a, b) && Above(byId, b, c) ==> Above(byId, a, c)
    ensures Above(byId, a, b) ==> !Above(byId, b, a)
  {
    CycleIsDeep(byId, a);
    AboveTransitive(byId, a, b, c);
    AboveTransitive(byId, a, b, a);
    if Above(byId, a, b) {
      var n :| n >= 1 && Reached(byId, byId[a], b, n);
      assert !TooDeep(byId, a);
      if n > MAX_ANCESTRY { HopStops(byId, byId[a], MAX_ANCESTRY + 1, n); }
    }
  }
}
