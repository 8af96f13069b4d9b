/** Facts as histories: each fact follows at most one earlier one of its kind, and each history has one current end. */
module FactHistories {
  import opened Prelude
  import opened Domain
  import opened Store
  import opened FactLifecycle
  import Runs

  /** Fact `j` stands earlier in the table, and `i` is its successor about the same subject under the same concept. */
  predicate Precedes(rows: seq<Fact>, j: int, i: int) {
    && 0 <= j < i < |rows|
    && rows[i].supersedes == Some(rows[j].id)
    && rows[j].user == rows[i].user && rows[j].about == rows[i].about && rows[j].concept == rows[i].concept
  }

  /** Ids are unique, no fact has two successors, and every successor has its predecessor before it. */
  ghost predicate Linear(rows: seq<Fact>) {
    && (forall i, j :: 0 <= i < j < |rows| ==> rows[i].id != rows[j].id)
    && (forall i, j :: 0 <= i < j < |rows| && rows[i].supersedes.Some? ==> rows[i].supersedes != rows[j].supersedes)
    && (forall i :: 0 <= i < |rows| && rows[i].supersedes.Some? ==> exists j :: Precedes(rows, j, i))
  }

  lemma PrecedesEarlier(rows: seq<Fact>, f: Fact, j: int, i: int)
    requires i < |rows|
    ensures Precedes(rows + [f], j, i) <==> Precedes(rows, j, i)
  {
  }

  lemma AcceptedIsLinear(rows: seq<Fact>, f: Fact)
    requires Linear(rows) && AcceptsFact(rows, f)
    ensures Linear(rows + [f])
  {
    var more, n := rows + [f], |rows|;
    forall i | 0 <= i < n ensures more[i].id != f.id && (f.supersedes.Some? ==> more[i].supersedes != f.supersedes) {
      assert rows[i] in rows;
    }
    forall i | 0 <= i < |more| && more[i].supersedes.Some? ensures exists j :: Precedes(more, j, i) {
      if i < n {
        var j :| Precedes(rows, j, i);
        PrecedesEarlier(rows, f, j, i);
      } else {
        var p :| p in rows && p.id == f.supersedes.value && p.user == f.user && p.about == f.about && p.concept == f.concept;
        var j :| 0 <= j < n && rows[j] == p;
        assert Precedes(more, j, n);
      }
    }
  }

  lemma LinearIsAccepted(rows: seq<Fact>, f: Fact)
    requires Linear(rows + [f])
    ensures AcceptsFact(rows, f)
  {
    var more, n := rows + [f], |rows|;
    assert more[n] == f;
    forall r | r in rows ensures r.id != f.id && (f.supersedes.Some? ==> r.supersedes != f.supersedes) {
      var i :| 0 <= i < n && rows[i] == r;
      assert more[i] == r;
    }
    if f.supersedes.Some? {
      var j :| Precedes(more, j, n);
      assert more[j] == rows[j] && rows[j] in rows;
    }
  }

  /** Storage accepts exactly the facts with which the histories stay linear. */
  lemma AcceptsExactly(rows: seq<Fact>, f: Fact)
    requires Linear(rows)
    ensures AcceptsFact(rows, f) <==> Linear(rows + [f])
  {
    if AcceptsFact(rows, f) { AcceptedIsLinear(rows, f); }
    if Linear(rows + [f]) { LinearIsAccepted(rows, f); }
  }

  // ---------------------------------------------------------------- linear over every run

  lemma {:induction false} RecordingLinear(
    rows: seq<Fact>, user: Id, about: Anchor, inputs: seq<FactInput>, supersedes: Option<Id>, at: int)
    requires Linear(rows)
    requires DoFacts(rows, user, about, inputs, supersedes, at).Some?
    ensures Linear(DoFacts(rows, user, about, inputs, supersedes, at).value)
    decreases |inputs|
  {
    if inputs != [] {
      var f := Fact(inputs[0].id, user, about, inputs[0].concept, inputs[0].value, supersedes, at, None);
      AcceptsExactly(rows, f);
      RecordingLinear(rows + [f], user, about, inputs[1..], supersedes, at);
    }
  }

  lemma MarkingLinear(rows: seq<Fact>, i: nat, at: int)
    requires Linear(rows) && i < |rows|
    ensures Linear(Marked(rows, i, at))
  {
    var m := Marked(rows, i, at);
    forall k | 0 <= k < |m| && m[k].supersedes.Some? ensures exists j :: Precedes(m, j, k) {
      var j :| Precedes(rows, j, k);
      assert Precedes(m, j, k);
    }
  }

  lemma {:induction false} CorrectionLinear(rows: seq<Fact>, c: FactCorrection, at: int)
    requires Linear(rows)
    requires DoFactCorrection(rows, c, at).Some?
    ensures Linear(DoFactCorrection(rows, c, at).value)
  {
    var found := Corrected(rows, c);
    if found.None? {
      RecordingLinear(rows, c.user, Anchor(EventAnchor, c.eventId.value), c.facts, None, at);
    } else {
      var i := found.value;
      var about := if c.factId.Some? then rows[i].about else Anchor(EventAnchor, c.eventId.value);
      MarkingLinear(rows, i, at);
      RecordingLinear(Marked(rows, i, at), c.user, about, c.facts, Some(rows[i].id), at);
    }
  }

  lemma {:induction false} WritesLinear(env: Env, t: Txn, ws: seq<Write>, at: int)
    requires Linear(t.store.facts)
    requires DoWrites(env, t, ws, at).Some?
    ensures Linear(DoWrites(env, t, ws, at).value.store.facts)
    decreases |ws|
  {
    if ws != [] {
      if ws[0].WriteEvent? {
        var e := ws[0].event;
        RecordingLinear(t.store.facts, e.user, Anchor(EventAnchor, e.id), ws[0].facts, None, at);
      }
      WritesLinear(env, DoWrite(env, t, ws[0], at).value, ws[1..], at);
    }
  }

  lemma {:induction false} StepLinear(env: Env, s: Store, step: Step, at: int)
    requires Linear(s.facts)
    ensures Linear(Apply(env, s, step, at).facts)
  {
    if step.Ingest? {
      if DoWrites(env, Txn(s, NOTHING), step.writes, at).Some? { WritesLinear(env, Txn(s, NOTHING), step.writes, at); }
    } else if step.CorrectFacts? {
      if DoFactCorrection(s.facts, step.correction, at).Some? { CorrectionLinear(s.facts, step.correction, at); }
    } else if step.IngestReplacement? {
      var q := step.replacing;
      if DoReplacing(env, s, q, at).Some? { WritesLinear(env, Txn(s, NOTHING), q.writes, at); }
    }
  }

  /** Over every run, accepted and refused steps alike, the histories are linear. */
  lemma {:induction false} RunLinear(env: Env, run: seq<Timed>)
    ensures Linear(Run(env, run).facts)
  {
    if run != [] {
      RunLinear(env, run[..|run| - 1]);
      StepLinear(env, Run(env, run[..|run| - 1]), run[|run| - 1].step, run[|run| - 1].at);
    }
  }

  // ---------------------------------------------------------------- one end for each history

  ghost function Previous(rows: seq<Fact>, i: nat): (j: Option<nat>)
    requires Linear(rows) && i < |rows|
    ensures j.Some? <==> rows[i].supersedes.Some?
    ensures j.Some? ==> Precedes(rows, j.value, i)
  {
    if rows[i].supersedes.None? then None
    else
      var j: int :| Precedes(rows, j, i);
      Some(j)
  }

  /** The first entry of the history a fact belongs to. */
  ghost function Root(rows: seq<Fact>, i: nat): (r: nat)
    requires Linear(rows) && i < |rows|
    ensures r <= i && rows[r].supersedes.None?
    ensures rows[r].user == rows[i].user && rows[r].about == rows[i].about && rows[r].concept == rows[i].concept
  {
    match Previous(rows, i)
    case None => i
    case Some(j) => Root(rows, j)
  }

  ghost function Depth(rows: seq<Fact>, i: nat): nat
    requires Linear(rows) && i < |rows|
  {
    match Previous(rows, i)
    case None => 0
    case Some(j) => 1 + Depth(rows, j)
  }

  /** In one history there is one entry at each depth. */
  lemma {:induction false} SameDepth(rows: seq<Fact>, i: nat, j: nat)
    requires Linear(rows) && i < |rows| && j < |rows|
    requires Root(rows, i) == Root(rows, j) && Depth(rows, i) == Depth(rows, j)
    ensures i == j
    decreases i
  {
    if Previous(rows, i).Some? { SameDepth(rows, Previous(rows, i).value, Previous(rows, j).value); }
  }

  /** Every entry above the deepest has a successor. */
  lemma {:induction false} ShallowerIsNamed(rows: seq<Fact>, i: nat, j: nat)
    requires Linear(rows) && i < |rows| && j < |rows|
    requires Root(rows, i) == Root(rows, j) && Depth(rows, i) < Depth(rows, j)
    ensures Named(rows, rows[i])
    decreases j
  {
    var p := Previous(rows, j).value;
    if Depth(rows, p) == Depth(rows, i) {
      SameDepth(rows, i, p);
      assert rows[j] in rows;
    } else {
      ShallowerIsNamed(rows, i, p);
    }
  }

  lemma {:induction false} SuccessorContinues(rows: seq<Fact>, i: nat) returns (k: nat)
    requires Linear(rows) && i < |rows| && Named(rows, rows[i])
    ensures i < k < |rows| && Root(rows, k) == Root(rows, i)
  {
    var g :| g in rows && g.supersedes == Some(rows[i].id);
    k :| 0 <= k < |rows| && rows[k] == g;
    assert rows[Previous(rows, k).value].id == rows[i].id;
  }

  ghost predicate EndOf(rows: seq<Fact>, i: nat, end: nat)
    requires Linear(rows) && i < |rows|
  {
    end < |rows| && Root(rows, end) == Root(rows, i) && !Named(rows, rows[end])
  }

  lemma {:induction false} HistoryEnds(rows: seq<Fact>, i: nat) returns (end: nat)
    requires Linear(rows) && i < |rows|
    ensures EndOf(rows, i, end)
    decreases |rows| - i
  {
    if Named(rows, rows[i]) {
      var k := SuccessorContinues(rows, i);
      end := HistoryEnds(rows, k);
    } else {
      end := i;
    }
  }

  lemma OneEnd(rows: seq<Fact>, i: nat, end: nat, other: nat)
    requires Linear(rows) && i < |rows|
    requires EndOf(rows, i, end) && EndOf(rows, i, other)
    ensures end == other
  {
    if Depth(rows, end) < Depth(rows, other) { ShallowerIsNamed(rows, end, other); }
    else if Depth(rows, other) < Depth(rows, end) { ShallowerIsNamed(rows, other, end); }
    else { SameDepth(rows, end, other); }
  }

  /** The current entry of a fact's history: unmarked, reached from the same first entry, about the same subject. */
  ghost predicate CurrentEntry(rows: seq<Fact>, i: nat, end: nat)
    requires Linear(rows) && i < |rows|
  {
    && end < |rows| && CurrentFact(rows[end]) && Root(rows, end) == Root(rows, i)
    && rows[end].user == rows[i].user && rows[end].about == rows[i].about && rows[end].concept == rows[i].concept
  }

  /** In every reachable store, however often a fact was corrected, its history has one current entry. */
  lemma {:induction false} OneCurrentEntry(env: Env, run: seq<Timed>, i: nat)
    requires Runs.Deployed(env) && i < |Run(env, run).facts|
    ensures Linear(Run(env, run).facts)
    ensures exists end: nat :: CurrentEntry(Run(env, run).facts, i, end)
    ensures forall x: nat, y: nat :: CurrentEntry(Run(env, run).facts, i, x) && CurrentEntry(Run(env, run).facts, i, y) ==> x == y
  {
    var rows := Run(env, run).facts;
    RunLinear(env, run);
    Runs.RunKeeps(env, run);
    var end := HistoryEnds(rows, i);
    assert rows[end] in rows;
    assert CurrentEntry(rows, i, end);
    forall x: nat, y: nat | CurrentEntry(rows, i, x) && CurrentEntry(rows, i, y) ensures x == y {
      assert rows[x] in rows && rows[y] in rows;
      OneEnd(rows, i, x, y);
    }
  }
}
