/** Atomic retraction and replacement: one ledger row for a target that was effective, and nothing else. */
module CorrectionService {
  import opened Prelude
  import opened Domain
  import opened Store
  import opened UnitOfWork
  import opened EffectivenessResolver

  class CorrectionService {
    constructor () {}

    /** Appends a retraction of an assertion that exists and still counts; the target's own row is not touched. */
    method Retract(uow: UnitOfWork, id: Id, user: Id, kind: Kind, target: Id, provenance: bool, commit: bool)
      returns (r: Result<Correction, CorrectionError>)
      modifies uow`ledger, uow`committed
      ensures r.Ok? <==>
        && Exists(old(uow.Snapshot()), Ref(user, kind, target)) && !Targeted(old(uow.ledger), Ref(user, kind, target))
        && provenance && !HasCorrection(old(uow.ledger), id)
      ensures var row := RetractRow(id, user, kind, target);
        var spec := DoCorrection(old(uow.Snapshot()), row, provenance);
        && (r.Ok? <==> spec.Ok?)
        && (r.Ok? ==> r.value == row && uow.Snapshot() == spec.value)
        && (r.Err? ==> r.error == spec.error && uow.Snapshot() == old(uow.Snapshot()))
      ensures uow.committed == if r.Ok? && commit then uow.Snapshot() else old(uow.committed)
    {
      var row := RetractRow(id, user, kind, target);
      if !Exists(uow.Snapshot(), row.target) { return Err(ReferenceNotFound); }
      var effective := AssertEffective(uow, row.target);
      if !effective { return Err(TargetAlreadyCorrected); }
      r := Append(uow, row, provenance, commit);
    }

    /** Appends a replacement by an assertion that already exists; whether that one still counts is not asked. */
    method Replace(
      uow: UnitOfWork, id: Id, user: Id, kind: Kind, target: Id, newKind: Kind, newId: Id, provenance: bool, commit: bool)
      returns (r: Result<Correction, CorrectionError>)
      modifies uow`ledger, uow`committed
      ensures r.Ok? <==>
        && Exists(old(uow.Snapshot()), Ref(user, kind, target)) && !Targeted(old(uow.ledger), Ref(user, kind, target))
        && Exists(old(uow.Snapshot()), Ref(user, newKind, newId)) && Ref(user, newKind, newId) != Ref(user, kind, target)
        && provenance && !HasCorrection(old(uow.ledger), id)
      ensures var row := ReplaceRow(id, user, kind, target, newKind, newId);
        var spec := DoCorrection(old(uow.Snapshot()), row, provenance);
        && (r.Ok? <==> spec.Ok?)
        && (r.Ok? ==> r.value == row && uow.Snapshot() == spec.value)
        && (r.Err? ==> r.error == spec.error && uow.Snapshot() == old(uow.Snapshot()))
      ensures uow.committed == if r.Ok? && commit then uow.Snapshot() else old(uow.committed)
    {
      var row := ReplaceRow(id, user, kind, target, newKind, newId);
      if !Exists(uow.Snapshot(), row.target) { return Err(ReferenceNotFound); }
      if !Exists(uow.Snapshot(), row.replacement.value) { return Err(ReferenceNotFound); }
      if row.target == row.replacement.value { return Err(SelfReplacement); }
      var effective := AssertEffective(uow, row.target);
      if !effective { return Err(TargetAlreadyCorrected); }
      r := Append(uow, row, provenance, commit);
    }

    /** The lookup by target already decides; the ledger index, consulted next, always agrees. */
    method AssertEffective(uow: UnitOfWork, target: Ref) returns (effective: bool)
      ensures effective <==> !Targeted(uow.ledger, target)
    {
      var existing := uow.FindByTarget(target);
      if existing.Some? { return false; }
      var resolver := new AssertionEffectivenessResolver(uow.ledger, {});
      ResolverIsScan(resolver, uow.ledger, target);
      effective := resolver.Resolve(target) == Effective;
    }

    method Append(uow: UnitOfWork, row: Correction, provenance: bool, commit: bool)
      returns (r: Result<Correction, CorrectionError>)
      modifies uow`ledger, uow`committed
      ensures r == if !provenance then Err(ProvenanceInvalid)
                   else if HasCorrection(old(uow.ledger), row.id) then Err(DuplicateId)
                   else Ok(row)
      ensures uow.ledger == if r.Ok? then old(uow.ledger) + [row] else old(uow.ledger)
      ensures uow.committed == if r.Ok? && commit then uow.Snapshot() else old(uow.committed)
    {
      if !provenance { return Err(ProvenanceInvalid); }
      var added := uow.AddCorrection(row);
      if !added { return Err(DuplicateId); }
      if commit { uow.Commit(); }
      r := Ok(row);
    }
  }
}
