/** Replacement chains: following target to replacement through the ledger. */
module Lineage {
  import opened Prelude
  import opened Domain
  import opened Store

  /** What replaced the assertion, when something did. */
  function Next(ledger: seq<Correction>, ref: Ref): Option<Ref> {
    if ledger == [] then None
    else if ledger[|ledger| - 1].target == ref then ledger[|ledger| - 1].replacement
    else Next(ledger[..|ledger| - 1], ref)
  }

  /** The chain from `ref` ends within `n` links. */
  predicate Ends(ledger: seq<Correction>, ref: Ref, n: nat)
    decreases n
  {
    Next(ledger, ref).None? || (n > 0 && Ends(ledger, Next(ledger, ref).value, n - 1))
  }

  /** The assertions met along the chain, from `ref` to its end. */
  function Chain(ledger: seq<Correction>, ref: Ref, n: nat): seq<Ref>
    requires Ends(ledger, ref, n)
    decreases n
  {
    if Next(ledger, ref).None? then [ref] else [ref] + Chain(ledger, Next(ledger, ref).value, n - 1)
  }

  function End(ledger: seq<Correction>, ref: Ref, n: nat): Ref
    requires Ends(ledger, ref, n)
    decreases n
  {
    if Next(ledger, ref).None? then ref else End(ledger, Next(ledger, ref).value, n - 1)
  }

  ghost predicate Finite(ledger: seq<Correction>, ref: Ref) {
    exists n: nat :: Ends(ledger, ref, n)
  }

  ghost predicate ChainsEnd(ledger: seq<Correction>) {
    forall ref :: Finite(ledger, ref)
  }

  /** No assertion replaces two others. */
  ghost predicate SingleUse(ledger: seq<Correction>) {
    forall i, j :: 0 <= i < j < |ledger| && ledger[i].replacement.Some? ==> ledger[i].replacement != ledger[j].replacement
  }

  lemma {:induction false} NextSource(ledger: seq<Correction>, ref: Ref)
    requires Next(ledger, ref).Some?
    ensures exists c :: c in ledger && c.target == ref && c.replacement == Next(ledger, ref)
  {
    var last := ledger[|ledger| - 1];
    if last.target == ref {
      assert last in ledger;
    } else {
      NextSource(ledger[..|ledger| - 1], ref);
    }
  }

  lemma {:induction false} NoNextWhenUntargeted(ledger: seq<Correction>, ref: Ref)
    requires !Targeted(ledger, ref)
    ensures Next(ledger, ref).None?
  {
    if Next(ledger, ref).Some? { NextSource(ledger, ref); }
  }

  lemma {:induction false} MoreFuel(ledger: seq<Correction>, ref: Ref, n: nat, m: nat)
    requires Ends(ledger, ref, n) && n <= m
    ensures Ends(ledger, ref, m) && End(ledger, ref, m) == End(ledger, ref, n)
    decreases n
  {
    if Next(ledger, ref).Some? { MoreFuel(ledger, Next(ledger, ref).value, n - 1, m - 1); }
  }

  /** A chain has one end, whatever the fuel. */
  lemma EndIsUnique(ledger: seq<Correction>, ref: Ref, n: nat, m: nat)
    requires Ends(ledger, ref, n) && Ends(ledger, ref, m)
    ensures End(ledger, ref, n) == End(ledger, ref, m)
  {
    if n <= m { MoreFuel(ledger, ref, n, m); } else { MoreFuel(ledger, ref, m, n); }
  }

  // ---------------------------------------------------------------- appending a correction

  lemma NextAfter(ledger: seq<Correction>, c: Correction, ref: Ref)
    ensures Next(ledger + [c], ref) == if ref == c.target then c.replacement else Next(ledger, ref)
  {
    assert (ledger + [c])[..|ledger|] == ledger;
  }

  lemma {:induction false} OtherEndsStay(ledger: seq<Correction>, c: Correction, ref: Ref, n: nat)
    requires !Targeted(ledger, c.target)
    requires Ends(ledger, ref, n) && End(ledger, ref, n) != c.target
    ensures Ends(ledger + [c], ref, n) && End(ledger + [c], ref, n) == End(ledger, ref, n)
    decreases n
  {
    NextAfter(ledger, c, ref);
    NoNextWhenUntargeted(ledger, c.target);
    if Next(ledger, ref).Some? { OtherEndsStay(ledger, c, Next(ledger, ref).value, n - 1); }
  }

  lemma {:induction false} EndsThrough(ledger: seq<Correction>, c: Correction, ref: Ref, n: nat, m: nat)
    requires !Targeted(ledger, c.target)
    requires Ends(ledger, ref, n) && End(ledger, ref, n) == c.target
    requires c.replacement.Some? ==> Ends(ledger + [c], c.replacement.value, m)
    ensures Ends(ledger + [c], ref, n + 1 + m)
    decreases n
  {
    NextAfter(ledger, c, ref);
    NoNextWhenUntargeted(ledger, c.target);
    if Next(ledger, ref).Some? {
      EndsThrough(ledger, c, Next(ledger, ref).value, n - 1, m);
    } else if c.replacement.Some? {
      MoreFuel(ledger + [c], c.replacement.value, m, n + m);
    }
  }

  lemma {:induction false} ReturnsToReplacement(ledger: seq<Correction>, c: Correction, ref: Ref, n: nat, k: nat)
    returns (j: nat)
    requires !Targeted(ledger, c.target) && c.replacement.Some?
    requires Ends(ledger, ref, n) && End(ledger, ref, n) == c.target
    requires Ends(ledger + [c], ref, k)
    ensures j < k && Ends(ledger + [c], c.replacement.value, j)
    decreases n
  {
    NextAfter(ledger, c, ref);
    NoNextWhenUntargeted(ledger, c.target);
    if Next(ledger, ref).Some? {
      j := ReturnsToReplacement(ledger, c, Next(ledger, ref).value, n - 1, k - 1);
    } else {
      j := k - 1;
    }
  }

  lemma {:induction false} CycleNeverEnds(ledger: seq<Correction>, c: Correction, n: nat, k: nat)
    requires !Targeted(ledger, c.target) && c.replacement.Some?
    requires Ends(ledger, c.replacement.value, n) && End(ledger, c.replacement.value, n) == c.target
    ensures !Ends(ledger + [c], c.replacement.value, k)
    decreases k
  {
    if Ends(ledger + [c], c.replacement.value, k) {
      var j := ReturnsToReplacement(ledger, c, c.replacement.value, n, k);
      CycleNeverEnds(ledger, c, n, j);
    }
  }

  /** Following the replacement's own chain does not lead back to the target. */
  ghost predicate LeadsElsewhere(ledger: seq<Correction>, replacement: Ref, target: Ref) {
    forall n: nat :: Ends(ledger, replacement, n) ==> End(ledger, replacement, n) != target
  }

  /**
   * Correcting an effective assertion keeps every chain finite exactly when it is a retraction, or when the
   * replacement's chain does not already end at the target.
   */
  lemma {:induction false} ChainsEndExactly(ledger: seq<Correction>, c: Correction)
    requires ChainsEnd(ledger) && !Targeted(ledger, c.target)
    ensures ChainsEnd(ledger + [c]) <==> (c.replacement.Some? ==> LeadsElsewhere(ledger, c.replacement.value, c.target))
  {
    if c.replacement.Some? && !LeadsElsewhere(ledger, c.replacement.value, c.target) {
      var r := c.replacement.value;
      var n: nat :| Ends(ledger, r, n) && End(ledger, r, n) == c.target;
      forall k: nat ensures !Ends(ledger + [c], r, k) { CycleNeverEnds(ledger, c, n, k); }
      assert !Finite(ledger + [c], r);
    } else {
      var m: nat := 0;
      if c.replacement.Some? {
        assert Finite(ledger, c.replacement.value);
        m :| Ends(ledger, c.replacement.value, m);
        OtherEndsStay(ledger, c, c.replacement.value, m);
      }
      forall ref ensures Finite(ledger + [c], ref) {
        assert Finite(ledger, ref);
        var n: nat :| Ends(ledger, ref, n);
        if End(ledger, ref, n) == c.target {
          EndsThrough(ledger, c, ref, n, m);
        } else {
          OtherEndsStay(ledger, c, ref, n);
        }
      }
    }
  }

  /** Later corrections never make an endless chain finite. */
  lemma EndlessForever(ledger: seq<Correction>, c: Correction, ref: Ref)
    requires !Targeted(ledger, c.target) && !Finite(ledger, ref)
    ensures !Finite(ledger + [c], ref)
  {
    if Finite(ledger + [c], ref) {
      var n: nat :| Ends(ledger + [c], ref, n);
      EndedBefore(ledger, c, ref, n);
    }
  }

  lemma {:induction false} EndedBefore(ledger: seq<Correction>, c: Correction, ref: Ref, n: nat)
    requires !Targeted(ledger, c.target) && Ends(ledger + [c], ref, n)
    ensures Ends(ledger, ref, n)
    decreases n
  {
    NextAfter(ledger, c, ref);
    NoNextWhenUntargeted(ledger, c.target);
    if Next(ledger, ref).Some? { EndedBefore(ledger, c, Next(ledger, ref).value, n - 1); }
  }

  ghost predicate Mentioned(ledger: seq<Correction>, ref: Ref) {
    exists c :: c in ledger && (c.target == ref || c.replacement == Some(ref))
  }

  /** A replacement the ledger has never mentioned keeps chains finite and separate. */
  lemma {:induction false} FreshReplacementKeeps(ledger: seq<Correction>, c: Correction)
    requires ChainsEnd(ledger) && SingleUse(ledger) && !Targeted(ledger, c.target)
    requires c.replacement.Some? ==> !Mentioned(ledger, c.replacement.value) && c.replacement.value != c.target
    ensures ChainsEnd(ledger + [c]) && SingleUse(ledger + [c])
  {
    if c.replacement.Some? {
      var r := c.replacement.value;
      assert !Targeted(ledger, r);
      NoNextWhenUntargeted(ledger, r);
      assert LeadsElsewhere(ledger, r, c.target);
      forall i | 0 <= i < |ledger| ensures ledger[i].replacement != c.replacement { assert ledger[i] in ledger; }
    }
    ChainsEndExactly(ledger, c);
  }

  /** Each assertion but the last was corrected, and replaced by the one after it. */
  ghost predicate Linked(ledger: seq<Correction>, p: seq<Ref>)
    decreases |p|
  {
    |p| > 1 ==> Targeted(ledger, p[0]) && Next(ledger, p[0]) == Some(p[1]) && Linked(ledger, p[1..])
  }

  /**
   * Along a finite chain every assertion but the last is ineffective and was replaced by the next one; the last
   * one is effective, or was retracted.
   */
  lemma {:induction false} ChainAnatomy(ledger: seq<Correction>, ref: Ref, n: nat)
    requires Ends(ledger, ref, n)
    requires forall c :: c in ledger ==> WellFormedCorrection(c)
    ensures var p := Chain(ledger, ref, n);
      && p[0] == ref && p[|p| - 1] == End(ledger, ref, n)
      && Linked(ledger, p)
      && (!Targeted(ledger, p[|p| - 1])
          || exists c :: c in ledger && c.target == p[|p| - 1] && c.operation == Retract)
    decreases n
  {
    var next := Next(ledger, ref);
    if next.Some? {
      NextSource(ledger, ref);
      ChainAnatomy(ledger, next.value, n - 1);
      var q := Chain(ledger, next.value, n - 1);
      var p := Chain(ledger, ref, n);
      assert p == [ref] + q;
      assert p[|p| - 1] == q[|q| - 1];
      assert Linked(ledger, p);
    } else if Targeted(ledger, ref) {
      LastCorrection(ledger, ref);
    }
  }

  lemma {:induction false} LastCorrection(ledger: seq<Correction>, ref: Ref)
    requires Targeted(ledger, ref)
    ensures exists c :: c in ledger && c.target == ref && c.replacement == Next(ledger, ref)
  {
    var front, last := ledger[..|ledger| - 1], ledger[|ledger| - 1];
    assert ledger == front + [last];
    if last.target == ref {
      assert last in ledger;
    } else {
      LastCorrection(front, ref);
    }
  }

  /** Two assertions replaced by the same one are the same assertion: chains do not merge. */
  lemma ChainsDoNotMerge(ledger: seq<Correction>, a: Ref, b: Ref)
    requires SingleUse(ledger)
    requires Next(ledger, a).Some? && Next(ledger, a) == Next(ledger, b)
    ensures a == b
  {
    NextSource(ledger, a);
    NextSource(ledger, b);
    var c :| c in ledger && c.target == a && c.replacement == Next(ledger, a);
    var d :| d in ledger && d.target == b && d.replacement == Next(ledger, b);
    var i :| 0 <= i < |ledger| && ledger[i] == c;
    var j :| 0 <= j < |ledger| && ledger[j] == d;
  }
}
