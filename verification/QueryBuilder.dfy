/** Turning relation references of a question into stored concepts and stored direction. */
module QueryBuilder {
  import opened Prelude
  import opened Domain
  import T = Store
  import R = RelationMetadata
  import opened QueryEngine
  import Rel = RelationResolver

  /** The stored key of every reference. */
  function StoredKeys(t: R.Table, refs: seq<string>): (r: seq<string>)
    ensures |r| == |refs|
    ensures forall i :: 0 <= i < |refs| ==> r[i] == R.StoredQuery(t, refs[i]).0
  {
    seq(|refs|, i requires 0 <= i < |refs| => R.StoredQuery(t, refs[i]).0)
  }

  /** The question is turned around when every reference names an inverse. */
  predicate AllInverted(t: R.Table, refs: seq<string>) {
    refs != [] && forall ref :: ref in refs ==> R.StoredQuery(t, ref).1
  }

  method NormalizeRelationRefs(t: R.Table, refs: seq<string>) returns (stored: seq<string>, swapped: bool)
    ensures stored == StoredKeys(t, refs)
    ensures swapped <==> AllInverted(t, refs)
  {
    stored, swapped := [], true;
    for i := 0 to |refs|
      invariant |stored| == i && forall k :: 0 <= k < i ==> stored[k] == R.StoredQuery(t, refs[k]).0
      invariant swapped <==> forall k :: 0 <= k < i ==> R.StoredQuery(t, refs[k]).1
    {
      var key, inverted := R.StoredRelationQuery(t, refs[i]);
      stored := stored + [key];
      swapped := swapped && inverted;
    }
    swapped := swapped && refs != [];
  }

  /** The first two entities trade places, and so do the roles of a lone one. */
  function Swap(entities: seq<Id>, association: Option<Association>): (seq<Id>, Option<Association>) {
    var ids := if |entities| >= 2 then [entities[1], entities[0]] + entities[2..] else entities;
    var role :=
      if association == Some(RelationSubject) then Some(RelationObject)
      else if association == Some(RelationObject) then Some(RelationSubject)
      else if association == Some(Subject) then Some(RelationObject)
      else association;
    (ids, role)
  }

  /** The ids of relation concepts; None when a key is unknown or names something else. */
  function ConceptIds(c: T.Catalog, keys: seq<string>): Option<seq<Id>> {
    if keys == [] then Some([])
    else
      match (ConceptIds(c, keys[..|keys| - 1]), T.RelationConcept(c, keys[|keys| - 1]))
      case (Some(ids), Some(concept)) => Some(ids + [concept.id])
      case _ => None
  }

  /** The structured form of a relation question about resolved entities. */
  function BuildRelationSpec(
    env: T.Env, refs: seq<string>, entities: seq<Id>, association: Option<Association>,
    scope: Rel.Scope, kind: Option<RelationKind>): Option<Spec>
  {
    var role := if entities == [] then None else association;
    var (ids, end) := if AllInverted(env.relations, refs) then Swap(entities, role) else (entities, role);
    match ConceptIds(env.catalog, StoredKeys(env.relations, refs))
    case None => None
    case Some(concepts) => Some(Spec(ids, end, [], [], [], [], concepts, [], scope, kind))
  }

  /** Turning a question around twice gives it back, except that a plain subject comes back as relation subject. */
  lemma SwapTwice(entities: seq<Id>, association: Option<Association>)
    ensures var (ids, role) := Swap(entities, association);
      Swap(ids, role) == (entities, if association == Some(Subject) then Some(RelationSubject) else association)
  {
    if |entities| >= 2 {
      assert entities == [entities[0], entities[1]] + entities[2..];
    }
  }

  /** For one reference and two entities, the built question asks in stored direction. */
  lemma BuildsStoredDirection(
    env: T.Env, key: string, x: Id, y: Id, association: Option<Association>, kind: Option<RelationKind>)
    requires T.RelationConcept(env.catalog, R.StoredQuery(env.relations, key).0).Some?
    ensures var spec := BuildRelationSpec(env, [key], [x, y], association, Rel.CurrentScope, kind);
      var (a, b) := R.Oriented(env.relations, x, y, key);
      && spec.Some?
      && spec.value.entities == [a, b]
      && spec.value.relationTypes == [T.RelationConcept(env.catalog, R.StoredQuery(env.relations, key).0).value.id]
      && spec.value.objectTypes == [] && spec.value.eventIds == []
      && spec.value.scope == Rel.CurrentScope && spec.value.relationKind == kind
  {
    var keys := StoredKeys(env.relations, [key]);
    assert keys == [R.StoredQuery(env.relations, key).0];
    assert keys[..0] == [];
    assert ConceptIds(env.catalog, keys) ==
      Some([] + [T.RelationConcept(env.catalog, R.StoredQuery(env.relations, key).0).value.id]);
    assert [key][0] in [key];
    assert AllInverted(env.relations, [key]) <==> R.StoredQuery(env.relations, key).1;
    assert [y, x] + [x, y][2..] == [y, x];
  }

  // ---------------------------------------------------------------- the built question, field by field

  lemma {:induction false} ConceptIdsExactly(c: T.Catalog, keys: seq<string>)
    ensures ConceptIds(c, keys).Some? <==> forall i :: 0 <= i < |keys| ==> T.NamesRelation(c, keys[i])
    ensures ConceptIds(c, keys).Some? ==>
      && |ConceptIds(c, keys).value| == |keys|
      && forall i :: 0 <= i < |keys| ==> ConceptIds(c, keys).value[i] == c.byKey[keys[i]].id
  {
    if keys != [] {
      var front := keys[..|keys| - 1];
      ConceptIdsExactly(c, front);
      if ConceptIds(c, front).None? {
        var i :| 0 <= i < |front| && !T.NamesRelation(c, front[i]);
        assert !T.NamesRelation(c, keys[i]);
      }
    }
  }

  /** Every key asked through is an inverse one. */
  ghost predicate Turned(t: R.Table, refs: seq<string>) {
    refs != [] && forall i :: 0 <= i < |refs| ==> R.StoredQuery(t, refs[i]).1
  }

  /** The role a lone entity has once the question is turned around. */
  ghost predicate TurnsInto(was: Option<Association>, is_: Option<Association>) {
    && (was == Some(RelationSubject) || was == Some(Subject) ==> is_ == Some(RelationObject))
    && (was == Some(RelationObject) ==> is_ == Some(RelationSubject))
    && (was !in {Some(RelationSubject), Some(Subject), Some(RelationObject)} ==> is_ == was)
  }

  /**
   * A relation question is built unless a key is stored under none that names a relation; it asks for the stored
   * concepts in order, and is turned around exactly when every key is an inverse.
   */
  lemma BuildExactly(
    env: T.Env, refs: seq<string>, entities: seq<Id>, association: Option<Association>,
    scope: Rel.Scope, kind: Option<RelationKind>)
    ensures var spec := BuildRelationSpec(env, refs, entities, association, scope, kind);
      && (spec.Some? <==> forall i :: 0 <= i < |refs| ==> T.NamesRelation(env.catalog, R.StoredQuery(env.relations, refs[i]).0))
      && (spec.Some? ==>
            var q := spec.value;
            && |q.relationTypes| == |refs|
            && (forall i :: 0 <= i < |refs| ==>
                  q.relationTypes[i] == env.catalog.byKey[R.StoredQuery(env.relations, refs[i]).0].id)
            && q.scope == scope && q.relationKind == kind && q.objectTypes == [] && q.eventIds == [] && q.actions == []
            && |q.entities| == |entities|
            && (if Turned(env.relations, refs) && |entities| >= 2
                then q.entities[0] == entities[1] && q.entities[1] == entities[0] && q.entities[2..] == entities[2..]
                else q.entities == entities)
            && (if entities == [] then q.association.None?
                else if Turned(env.relations, refs) then TurnsInto(association, q.association)
                else q.association == association))
  {
    var keys := StoredKeys(env.relations, refs);
    ConceptIdsExactly(env.catalog, keys);
    TurnedExactly(env.relations, refs);
    if ConceptIds(env.catalog, keys).None? {
      var i :| 0 <= i < |keys| && !T.NamesRelation(env.catalog, keys[i]);
      assert !T.NamesRelation(env.catalog, R.StoredQuery(env.relations, refs[i]).0);
    }
  }

  lemma TurnedExactly(t: R.Table, refs: seq<string>)
    ensures Turned(t, refs) <==> AllInverted(t, refs)
  {
    forall i | 0 <= i < |refs| ensures refs[i] in refs {}
  }
}
