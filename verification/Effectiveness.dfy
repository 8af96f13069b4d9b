/** Which assertions count: an assertion is effective iff no committed correction targets it. */
module EffectivenessResolver {
  import opened Prelude
  import opened Domain
  import opened Store

  /** The correction recorded last for each target. */
  function Incoming(ledger: seq<Correction>): map<Ref, Correction> {
    if ledger == [] then map[]
    else Incoming(ledger[..|ledger| - 1])[ledger[|ledger| - 1].target := ledger[|ledger| - 1]]
  }

  /** Effectiveness by a plain scan of the ledger. */
  ghost function Scan(ledger: seq<Correction>, unknown: set<Ref>, ref: Ref): Effectiveness {
    if ref in unknown then UnknownEffectiveness
    else if Targeted(ledger, ref) then Ineffective
    else Effective
  }

  lemma {:induction false} IncomingIsScan(ledger: seq<Correction>, ref: Ref)
    ensures ref in Incoming(ledger) <==> Targeted(ledger, ref)
    ensures ref in Incoming(ledger) ==> Incoming(ledger)[ref] in ledger && Incoming(ledger)[ref].target == ref
  {
    if ledger != [] {
      var front, last := ledger[..|ledger| - 1], ledger[|ledger| - 1];
      IncomingIsScan(front, ref);
      assert ledger == front + [last];
      if Targeted(front, ref) {
        var c :| c in front && c.target == ref;
        assert c in ledger;
      }
      if last.target == ref { assert last in ledger; }
    }
  }

  /** The sole authority on effectiveness: an index of the ledger by target. */
  class AssertionEffectivenessResolver {
    var incoming: map<Ref, Correction>
    const unknown: set<Ref>

    constructor (corrections: seq<Correction>, unknown: set<Ref>)
      ensures incoming == Incoming(corrections)
      ensures this.unknown == unknown
    {
      this.unknown := unknown;
      incoming := map[];
      new;
      var i := 0;
      while i < |corrections|
        invariant 0 <= i <= |corrections|
        invariant incoming == Incoming(corrections[..i])
      {
        assert corrections[..i + 1][..i] == corrections[..i];
        incoming := incoming[corrections[i].target := corrections[i]];
        i := i + 1;
      }
      assert corrections[..i] == corrections;
    }

    function Resolve(ref: Ref): Effectiveness
      reads this
    {
      if ref in unknown then UnknownEffectiveness
      else if ref in incoming then Ineffective
      else Effective
    }

    /** The correction that made a reference ineffective, if any. */
    function Explain(ref: Ref): Option<Correction>
      reads this
    {
      if ref in incoming then Some(incoming[ref]) else None
    }
  }

  /** The indexed resolver and the plain scan agree, and it explains exactly the targeted references. */
  lemma ResolverIsScan(resolver: AssertionEffectivenessResolver, ledger: seq<Correction>, ref: Ref)
    requires resolver.incoming == Incoming(ledger)
    ensures resolver.Resolve(ref) == Scan(ledger, resolver.unknown, ref)
    ensures resolver.Explain(ref).Some? <==> Targeted(ledger, ref)
    ensures resolver.Explain(ref).Some? ==> resolver.Explain(ref).value in ledger
                                            && resolver.Explain(ref).value.target == ref
  {
    IncomingIsScan(ledger, ref);
  }

  /** The rows that no correction targets. */
  function EffectiveRow<T>(ledger: seq<Correction>, user: Id, kind: Kind, id: T -> Id): T -> bool {
    (x: T) => !Targeted(ledger, Ref(user, kind, id(x)))
  }

  /** The rows whose status the plain scan gives. */
  ghost function InStatus<T>(
    ledger: seq<Correction>, unknown: set<Ref>, status: Effectiveness, user: Id, kind: Kind, id: T -> Id): T -> bool
  {
    (x: T) => Scan(ledger, unknown, Ref(user, kind, id(x))) == status
  }

  /** Splits rows by effectiveness in one pass, keeping their order; ineffective rows are in neither result. */
  method FilterEffective<T>(
    items: seq<T>, kind: Kind, user: Id, resolver: AssertionEffectivenessResolver, ghost ledger: seq<Correction>, id: T -> Id)
    returns (effective: seq<T>, unknown: seq<T>)
    requires resolver.incoming == Incoming(ledger)
    ensures effective == Filter(InStatus(ledger, resolver.unknown, Effective, user, kind, id), items)
    ensures unknown == Filter(InStatus(ledger, resolver.unknown, UnknownEffectiveness, user, kind, id), items)
  {
    effective, unknown := [], [];
    ghost var isEffective := InStatus(ledger, resolver.unknown, Effective, user, kind, id);
    ghost var isUnknown := InStatus(ledger, resolver.unknown, UnknownEffectiveness, user, kind, id);
    for i := 0 to |items|
      invariant effective == Filter(isEffective, items[..i])
      invariant unknown == Filter(isUnknown, items[..i])
    {
      assert items[..i + 1] == items[..i] + [items[i]];
      FilterAppend(isEffective, items[..i], items[i]);
      FilterAppend(isUnknown, items[..i], items[i]);
      var ref := Ref(user, kind, id(items[i]));
      ResolverIsScan(resolver, ledger, ref);
      var status := resolver.Resolve(ref);
      if status == Effective {
        effective := effective + [items[i]];
      } else if status == UnknownEffectiveness {
        unknown := unknown + [items[i]];
      }
    }
    assert items[..|items|] == items;
  }

  /** Without unknown references the effective rows are the untargeted ones, and no row is in doubt. */
  lemma NothingUnknown<T(!new)>(ledger: seq<Correction>, user: Id, kind: Kind, id: T -> Id, items: seq<T>)
    ensures Filter(InStatus(ledger, {}, Effective, user, kind, id), items)
         == Filter(EffectiveRow(ledger, user, kind, id), items)
    ensures Filter(InStatus(ledger, {}, UnknownEffectiveness, user, kind, id), items) == []
  {
    FilterAgree(InStatus(ledger, {}, Effective, user, kind, id), EffectiveRow(ledger, user, kind, id), items);
    FilterNone(InStatus(ledger, {}, UnknownEffectiveness, user, kind, id), items);
  }
}
