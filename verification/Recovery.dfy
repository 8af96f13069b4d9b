/**
 * Bounded clarification recovery: one answered question fills one slot of a frozen proposal and is ingested at
 * most once. What fills the slot, and what ingestion decides, are arbitrary and may differ from call to call.
 */
module Recovery {
  import opened Prelude

  // ---------------------------------------------------------------- proposals

  /** The slots a recovery compares before and after filling. */
  datatype SlotKey =
    | Subject | Object | MeasurableDimensionKey | MeasurementNumericValue | MeasurementUnit | ActionExpression
    | RelationExpression | StateExpression | AttributeExpression | EventExpression | MeasurementExpression
    | UtteranceKind | PrimitiveHint | MeasurementSemantics | ChangeSemantics | LinkSemantics | ConditionSemantics
    | StablePropertySemantics | RawInput

  const SNAPSHOT_KEYS: seq<SlotKey> := [
    Subject, Object, MeasurableDimensionKey, MeasurementNumericValue, MeasurementUnit, ActionExpression,
    RelationExpression, StateExpression, AttributeExpression, EventExpression, MeasurementExpression,
    UtteranceKind, PrimitiveHint, MeasurementSemantics, ChangeSemantics, LinkSemantics, ConditionSemantics,
    StablePropertySemantics, RawInput]

  /** Filled slots with their rendering, the primitives asserted, and everything else. */
  datatype Proposal = Proposal(slots: map<SlotKey, string>, primitives: set<string>, rest: string)

  function Read(p: Proposal, key: SlotKey): Option<string> {
    if key in p.slots then Some(p.slots[key]) else None
  }

  datatype Slot =
    | MeasuredEntity | StateEntity | AttributeEntity | RelationSubject | RelationObject
    | MeasurementDimension | AttributeDimension | StateDimension | StateValue | MeasurementValue | OtherSlot

  datatype AnswerKind = EntityReference | Dimension | Value | CorrectionTarget | NoAnswer

  const ENTITY_SLOTS := {MeasuredEntity, RelationSubject, RelationObject, StateEntity, AttributeEntity}
  const DIMENSION_SLOTS := {MeasurementDimension, AttributeDimension}
  const VALUE_SLOTS := {StateValue}
  const MAX_ROUNDS := 1

  function MutableKeys(slot: Slot): set<SlotKey> {
    match slot
    case MeasuredEntity => {Subject}
    case StateEntity => {Subject}
    case AttributeEntity => {Subject}
    case RelationSubject => {Subject}
    case RelationObject => {Object}
    case MeasurementDimension => {MeasurableDimensionKey}
    case AttributeDimension => {AttributeExpression}
    case StateDimension => {StateExpression}
    case StateValue => {StateExpression}
    case MeasurementValue => {MeasurementNumericValue}
    case OtherSlot => {}
  }

  /** Filled and original agree on the slot, or the slot may change. */
  predicate Untouched(original: Proposal, filled: Proposal, slot: Slot, key: SlotKey) {
    key in MutableKeys(slot) || key == RawInput || Read(filled, key) == Read(original, key)
  }

  predicate NoSlotMutated(original: Proposal, filled: Proposal, slot: Slot) {
    forall key: SlotKey :: Untouched(original, filled, slot, key)
  }

  ghost predicate UntouchedThrough(original: Proposal, filled: Proposal, slot: Slot, keys: seq<SlotKey>, n: nat)
    requires n <= |keys|
  {
    forall k :: 0 <= k < n ==> Untouched(original, filled, slot, keys[k])
  }

  lemma ComparedAll(original: Proposal, filled: Proposal, slot: Slot, keys: seq<SlotKey>)
    requires forall key: SlotKey :: key in keys
    ensures UntouchedThrough(original, filled, slot, keys, |keys|) <==> NoSlotMutated(original, filled, slot)
  {
    if UntouchedThrough(original, filled, slot, keys, |keys|) {
      forall key: SlotKey ensures Untouched(original, filled, slot, key) { assert key in keys; }
    }
  }

  lemma SnapshotIsComplete(key: SlotKey)
    ensures key in SNAPSHOT_KEYS
  {
  }

  /** Filling changed only the slot asked about, and asserts nothing new. */
  predicate SafeFill(original: Proposal, filled: Proposal, slot: Slot) {
    NoSlotMutated(original, filled, slot) && filled.primitives <= original.primitives
  }

  // ---------------------------------------------------------------- the pending operation

  datatype PendingStatus = Pending | Answered | ResolvedStatus | Failed | Cancelled

  datatype Committed = Committed(measurements: set<Id>, events: set<Id>, states: set<Id>, attributes: set<Id>)

  datatype PendingOperation = PendingOperation(
    proposal: Proposal, slot: Slot, kind: AnswerKind, status: PendingStatus, roundsUsed: nat,
    answer: Option<string>, committed: Committed)

  predicate Supported(p: PendingOperation) {
    match p.kind
    case EntityReference => p.slot in ENTITY_SLOTS
    case Dimension => p.slot in DIMENSION_SLOTS
    case Value => p.slot in VALUE_SLOTS
    case _ => false
  }

  datatype Capability = Executes | Partially | OtherCapability

  datatype IngestOutcome = IngestCommitted(written: Option<Committed>) | NotCommitted

  /** One call: the answer, the requesting user's isolation, and what the components consulted reply. */
  datatype Call = Call(
    answer: string, stripped: string, token: string, sameUser: bool, replayAllowed: bool,
    surface: Option<string>, ambiguous: bool,
    measurementDimension: Option<string>, attributeDimension: Option<string>, attributePresent: bool,
    stateValue: Option<string>,
    fill: (Proposal, Slot, string) -> Proposal, capability: Proposal -> Capability, materializable: Proposal -> bool,
    ingest: (Proposal, string) -> IngestOutcome)

  datatype RecoveryStatus =
    | ResolvedCommitted | RemainsUnresolved | UnsupportedSlot | Rejected | IdempotentReplay | Closed
    | InvalidAnswer | AlreadyResolved

  /** The filled proposal handed to ingestion with the answer as its raw text. */
  datatype Request = Request(filled: Proposal, raw: string)

  datatype Recovered = Recovered(status: RecoveryStatus, pending: PendingOperation, request: Option<Request>)

  function FailRound(p: PendingOperation, c: Call): PendingOperation {
    p.(status := Failed, roundsUsed := p.roundsUsed + 1, answer := Some(c.stripped))
  }

  function Unresolved(p: PendingOperation, c: Call, status: RecoveryStatus): Recovered {
    Recovered(status, FailRound(p, c), None)
  }

  function Merged(a: Committed, b: Option<Committed>): Committed {
    match b
    case None => a
    case Some(m) =>
      Committed(a.measurements + m.measurements, a.events + m.events, a.states + m.states, a.attributes + m.attributes)
  }

  function Finalizing(p: PendingOperation, c: Call, filled: Proposal): Recovered {
    if !SafeFill(p.proposal, filled, p.slot) then Recovered(Rejected, p, None)
    else if c.capability(filled) == OtherCapability || !c.materializable(filled) then Unresolved(p, c, RemainsUnresolved)
    else
      var request := Request(filled, c.stripped);
      match c.ingest(filled, c.stripped)
      case NotCommitted => Recovered(RemainsUnresolved, FailRound(p, c), Some(request))
      case IngestCommitted(written) =>
        Recovered(ResolvedCommitted,
          p.(status := ResolvedStatus, roundsUsed := p.roundsUsed + 1, answer := Some(c.stripped),
             committed := Merged(p.committed, written)),
          Some(request))
  }

  function RecoverEntity(p: PendingOperation, c: Call): Recovered {
    if c.surface.None? || c.ambiguous then Recovered(RemainsUnresolved, p, None)
    else Finalizing(p, c, c.fill(p.proposal, p.slot, c.surface.value))
  }

  function RecoverMeasurementDimension(p: PendingOperation, c: Call): Recovered {
    var present := Read(p.proposal, MeasurableDimensionKey);
    if present.Some? && present.value != "" then Recovered(AlreadyResolved, p, None)
    else if c.measurementDimension.None? then Unresolved(p, c, RemainsUnresolved)
    else if c.attributeDimension in {Some("color"), Some("model_year")}
            && c.measurementDimension !in {Some("weight"), Some("height")} then Unresolved(p, c, InvalidAnswer)
    else Finalizing(p, c, c.fill(p.proposal, p.slot, c.measurementDimension.value))
  }

  const MEASURED_ONLY := {Some("temperature"), Some("balance"), Some("pressure"), Some("volume"), Some("distance")}
  const MEASURED_OR_STABLE := {Some("weight"), Some("height"), Some("area"), Some("capacity")}

  function RecoverAttributeDimension(p: PendingOperation, c: Call): Recovered {
    if c.attributePresent then Recovered(AlreadyResolved, p, None)
    else if c.measurementDimension in MEASURED_ONLY && c.attributeDimension !in MEASURED_OR_STABLE then
      Unresolved(p, c, InvalidAnswer)
    else if c.attributeDimension.None? then Unresolved(p, c, RemainsUnresolved)
    else Finalizing(p, c, c.fill(p.proposal, p.slot, if c.token != "" then c.token else c.attributeDimension.value))
  }

  function RecoverValue(p: PendingOperation, c: Call): Recovered {
    if Read(p.proposal, ConditionSemantics) in {None, Some(""), Some("false")} then Unresolved(p, c, RemainsUnresolved)
    else if c.stateValue.None? then Unresolved(p, c, RemainsUnresolved)
    else Finalizing(p, c, c.fill(p.proposal, p.slot, c.token))
  }

  function Recovering(p: PendingOperation, c: Call): Recovered {
    if !c.sameUser then Recovered(Rejected, p, None)
    else if p.status == ResolvedStatus || p.status == Cancelled then
      var replay := c.replayAllowed && p.status == ResolvedStatus && p.answer.Some? && p.answer.value != ""
                    && p.answer.value == c.stripped;
      Recovered(if replay then IdempotentReplay else Closed, p, None)
    else if p.roundsUsed >= MAX_ROUNDS then Recovered(Closed, p, None)
    else if !Supported(p) then Recovered(UnsupportedSlot, p, None)
    else match p.kind
      case EntityReference => RecoverEntity(p, c)
      case Dimension => if p.slot == MeasurementDimension then RecoverMeasurementDimension(p, c) else RecoverAttributeDimension(p, c)
      case _ => RecoverValue(p, c)
  }

  // ---------------------------------------------------------------- the service

  /** The write path behind recovery; it remembers what it was asked to ingest. */
  class IngestService {
    var received: seq<Request>

    constructor ()
      ensures received == []
    {
      received := [];
    }

    method IngestFromIr(request: Request, c: Call) returns (outcome: IngestOutcome)
      modifies this
      ensures received == old(received) + [request]
      ensures outcome == c.ingest(request.filled, request.raw)
    {
      received := received + [request];
      outcome := c.ingest(request.filled, request.raw);
    }
  }

  /** Safety instrumentation of one call. */
  class RecoveryTrace {
    var rawReinterpreted: bool
    var nonTargetSlotMutated: bool
    var primitiveAdded: bool
    var primitiveRemoved: bool
    var unrelatedMutation: bool
    var wrongDimensionAccepted: bool
    var duplicateSiblingCommit: bool
    var duplicateTargetCommit: bool

    constructor ()
      ensures !rawReinterpreted && !nonTargetSlotMutated && !primitiveAdded && !primitiveRemoved
      ensures !unrelatedMutation && !wrongDimensionAccepted && !duplicateSiblingCommit && !duplicateTargetCommit
    {
      rawReinterpreted, nonTargetSlotMutated, primitiveAdded, primitiveRemoved := false, false, false, false;
      unrelatedMutation, wrongDimensionAccepted, duplicateSiblingCommit, duplicateTargetCommit := false, false, false, false;
    }

    /** The comparison of slots and primitives before ingestion. */
    method Compare(original: Proposal, filled: Proposal, slot: Slot, keys: seq<SlotKey>)
      requires forall key: SlotKey :: key in keys
      requires !nonTargetSlotMutated && !primitiveAdded && !primitiveRemoved && !unrelatedMutation && !rawReinterpreted
      modifies this`nonTargetSlotMutated, this`primitiveAdded, this`primitiveRemoved
      modifies this`unrelatedMutation, this`rawReinterpreted
      ensures nonTargetSlotMutated <==> !NoSlotMutated(original, filled, slot)
      ensures primitiveAdded <==> !(filled.primitives <= original.primitives)
      ensures primitiveRemoved <==> !(original.primitives <= filled.primitives)
      ensures unrelatedMutation <==> nonTargetSlotMutated || primitiveAdded || primitiveRemoved
      ensures rawReinterpreted <==> Read(filled, RawInput) != Read(original, RawInput)
    {
      for i := 0 to |keys|
        invariant nonTargetSlotMutated <==> !UntouchedThrough(original, filled, slot, keys, i)
        invariant unrelatedMutation == nonTargetSlotMutated
        invariant !primitiveAdded && !primitiveRemoved && !rawReinterpreted
      {
        if !Untouched(original, filled, slot, keys[i]) {
          nonTargetSlotMutated := true;
          unrelatedMutation := true;
        }
      }
      ComparedAll(original, filled, slot, keys);
      primitiveAdded := !(filled.primitives <= original.primitives);
      primitiveRemoved := !(original.primitives <= filled.primitives);
      unrelatedMutation := unrelatedMutation || primitiveAdded || primitiveRemoved;
      rawReinterpreted := Read(filled, RawInput) != Read(original, RawInput);
    }
  }

  class ClarificationRecoveryService {
    const ingest: IngestService

    constructor (ingest: IngestService)
      ensures this.ingest == ingest
    {
      this.ingest := ingest;
    }

    /** One call against the pending operation: at most one request reaches ingestion, the one specified. */
    method Recover(p: PendingOperation, c: Call, trace: RecoveryTrace) returns (r: Recovered)
      requires !trace.rawReinterpreted && !trace.nonTargetSlotMutated && !trace.primitiveAdded
      requires !trace.primitiveRemoved && !trace.unrelatedMutation
      modifies ingest, trace
      ensures r == Recovering(p, c)
      ensures ingest.received == old(ingest.received) + (if r.request.Some? then [r.request.value] else [])
      ensures r.request.Some? ==> !trace.nonTargetSlotMutated && !trace.primitiveAdded
    {
      if !c.sameUser { return Recovered(Rejected, p, None); }
      if p.status == ResolvedStatus || p.status == Cancelled {
        if c.replayAllowed && p.status == ResolvedStatus && p.answer.Some? && p.answer.value != "" {
          if p.answer.value == c.stripped { return Recovered(IdempotentReplay, p, None); }
        }
        return Recovered(Closed, p, None);
      }
      if p.roundsUsed >= MAX_ROUNDS { return Recovered(Closed, p, None); }
      if !Supported(p) { return Recovered(UnsupportedSlot, p, None); }
      var stop, filler := FillingOf(p, c);
      if stop.Some? {
        trace.wrongDimensionAccepted := stop.value.status == InvalidAnswer;
        return stop.value;
      }
      r := Finalize(p, c, c.fill(p.proposal, p.slot, filler), trace);
    }

    /** What to fill the slot with, or the result when there is nothing to fill it with. */
    method FillingOf(p: PendingOperation, c: Call) returns (stop: Option<Recovered>, filler: string)
      requires Supported(p)
      requires c.sameUser && p.status != ResolvedStatus && p.status != Cancelled && p.roundsUsed < MAX_ROUNDS
      ensures stop.Some? ==> stop.value == Recovering(p, c) && stop.value.request.None?
      ensures stop.None? ==> Recovering(p, c) == Finalizing(p, c, c.fill(p.proposal, p.slot, filler))
    {
      filler := "";
      if p.kind == EntityReference {
        if c.surface.None? || c.ambiguous { return Some(Recovered(RemainsUnresolved, p, None)), ""; }
        return None, c.surface.value;
      }
      var failed := p.(status := Failed, roundsUsed := p.roundsUsed + 1, answer := Some(c.stripped));
      if p.kind == Dimension {
        if p.slot == MeasurementDimension {
          var present := Read(p.proposal, MeasurableDimensionKey);
          if present.Some? && present.value != "" { return Some(Recovered(AlreadyResolved, p, None)), ""; }
          if c.measurementDimension.None? { return Some(Recovered(RemainsUnresolved, failed, None)), ""; }
          if c.attributeDimension in {Some("color"), Some("model_year")}
             && c.measurementDimension !in {Some("weight"), Some("height")}
          {
            return Some(Recovered(InvalidAnswer, failed, None)), "";
          }
          return None, c.measurementDimension.value;
        }
        if c.attributePresent { return Some(Recovered(AlreadyResolved, p, None)), ""; }
        if c.measurementDimension in MEASURED_ONLY && c.attributeDimension !in MEASURED_OR_STABLE {
          return Some(Recovered(InvalidAnswer, failed, None)), "";
        }
        if c.attributeDimension.None? { return Some(Recovered(RemainsUnresolved, failed, None)), ""; }
        return None, if c.token != "" then c.token else c.attributeDimension.value;
      }
      if Read(p.proposal, ConditionSemantics) in {None, Some(""), Some("false")} || c.stateValue.None? {
        return Some(Recovered(RemainsUnresolved, failed, None)), "";
      }
      return None, c.token;
    }

    method Finalize(p: PendingOperation, c: Call, filled: Proposal, trace: RecoveryTrace) returns (r: Recovered)
      requires !trace.rawReinterpreted && !trace.nonTargetSlotMutated && !trace.primitiveAdded
      requires !trace.primitiveRemoved && !trace.unrelatedMutation
      modifies ingest, trace
      ensures r == Finalizing(p, c, filled)
      ensures ingest.received == old(ingest.received) + (if r.request.Some? then [r.request.value] else [])
      ensures r.request.Some? ==> !trace.nonTargetSlotMutated && !trace.primitiveAdded
    {
      forall key: SlotKey ensures key in SNAPSHOT_KEYS { SnapshotIsComplete(key); }
      trace.Compare(p.proposal, filled, p.slot, SNAPSHOT_KEYS);
      if trace.nonTargetSlotMutated || trace.primitiveAdded { return Recovered(Rejected, p, None); }
      var failed := p.(status := Failed, roundsUsed := p.roundsUsed + 1, answer := Some(c.stripped));
      if c.capability(filled) == OtherCapability { return Recovered(RemainsUnresolved, failed, None); }
      if !c.materializable(filled) { return Recovered(RemainsUnresolved, failed, None); }
      var request := Request(filled, c.stripped);
      var outcome := ingest.IngestFromIr(request, c);
      if outcome.NotCommitted? { return Recovered(RemainsUnresolved, failed, Some(request)); }
      if outcome.written.Some? {
        var m := outcome.written.value;
        trace.duplicateSiblingCommit := m.events * p.committed.events != {};
        trace.duplicateTargetCommit := m.measurements * p.committed.measurements != {}
          || m.states * p.committed.states != {} || m.attributes * p.committed.attributes != {};
      }
      var resolved := p.(status := ResolvedStatus, roundsUsed := p.roundsUsed + 1, answer := Some(c.stripped),
                         committed := Merged(p.committed, outcome.written));
      r := Recovered(ResolvedCommitted, resolved, Some(request));
    }
  }

  // ---------------------------------------------------------------- conversations about one pending operation

  /** The operation after some calls, what was ingested, and whether that was committed. */
  datatype Progress = Progress(pending: PendingOperation, ingested: seq<Request>, commits: nat)

  function Step(g: Progress, c: Call): Progress {
    var r := Recovering(g.pending, c);
    Progress(r.pending, g.ingested + (if r.request.Some? then [r.request.value] else []),
             g.commits + (if r.status == ResolvedCommitted then 1 else 0))
  }

  function Run(p: PendingOperation, calls: seq<Call>): Progress {
    if calls == [] then Progress(p, [], 0) else Step(Run(p, calls[..|calls| - 1]), calls[|calls| - 1])
  }

  /** A newly stored question: no round used, not resolved. */
  predicate Fresh(p: PendingOperation) {
    p.roundsUsed == 0 && p.status != ResolvedStatus
  }

  ghost predicate Ok(origin: PendingOperation, g: Progress) {
    && g.pending.proposal == origin.proposal && g.pending.slot == origin.slot && g.pending.kind == origin.kind
    && g.pending.roundsUsed <= MAX_ROUNDS
    && |g.ingested| <= g.pending.roundsUsed
    && g.commits <= |g.ingested|
    && (g.pending.status == ResolvedStatus <==> g.commits == 1)
    && (forall q :: q in g.ingested ==> SafeFill(origin.proposal, q.filled, origin.slot))
  }

  /** What one call may do to an operation that is still open. */
  lemma RecoverExactly(p: PendingOperation, c: Call)
    ensures var r := Recovering(p, c);
      && r.pending.proposal == p.proposal && r.pending.slot == p.slot && r.pending.kind == p.kind
      && (r.request.Some? ==> p.roundsUsed == 0 && p.status != ResolvedStatus && r.pending.roundsUsed == 1)
      && (r.request.Some? ==> SafeFill(p.proposal, r.request.value.filled, p.slot) && r.request.value.raw == c.stripped)
      && (r.status == ResolvedCommitted <==>
            r.request.Some? && c.ingest(r.request.value.filled, r.request.value.raw).IngestCommitted?)
      && (r.status == ResolvedCommitted ==> r.pending.status == ResolvedStatus)
      && (r.status != ResolvedCommitted ==> (r.pending.status == ResolvedStatus <==> p.status == ResolvedStatus))
      && (p.roundsUsed >= MAX_ROUNDS ==> r.pending == p && r.request.None?)
      && p.roundsUsed <= r.pending.roundsUsed <= p.roundsUsed + 1
  {
  }

  // ---------------------------------------------------------------- what a call comes to

  /** The question can be taken up: entities for five slots, dimensions for two, a value for a state. */
  ghost predicate CanBeTakenUp(p: PendingOperation) {
    || (p.kind == EntityReference && p.slot in {MeasuredEntity, RelationSubject, RelationObject, StateEntity, AttributeEntity})
    || (p.kind == Dimension && p.slot in {MeasurementDimension, AttributeDimension})
    || (p.kind == Value && p.slot == StateValue)
  }

  ghost predicate Open(p: PendingOperation) {
    p.status in {Pending, Answered, Failed} && p.roundsUsed == 0
  }

  /** The dimension asked for is there already. */
  ghost predicate HasItAlready(p: PendingOperation, c: Call) {
    if p.slot == MeasurementDimension
    then MeasurableDimensionKey in p.proposal.slots && p.proposal.slots[MeasurableDimensionKey] != ""
    else p.slot == AttributeDimension && c.attributePresent
  }

  /** The answer names a dimension of the other family. */
  ghost predicate OtherFamily(p: PendingOperation, c: Call) {
    if p.slot == MeasurementDimension then
      && c.measurementDimension.Some? && c.measurementDimension.value !in {"weight", "height"}
      && (c.attributeDimension == Some("color") || c.attributeDimension == Some("model_year"))
    else
      && p.slot == AttributeDimension
      && c.measurementDimension.Some?
      && c.measurementDimension.value in {"temperature", "balance", "pressure", "volume", "distance"}
      && (c.attributeDimension.None? || c.attributeDimension.value !in {"weight", "height", "area", "capacity"})
  }

  /** What the answer gives to fill the slot with, if anything. */
  ghost function Meant(p: PendingOperation, c: Call): Option<string> {
    match p.kind
    case EntityReference => if c.ambiguous then None else c.surface
    case Dimension =>
      if p.slot == MeasurementDimension || c.attributeDimension.None? || c.token == ""
      then (if p.slot == MeasurementDimension then c.measurementDimension else c.attributeDimension)
      else Some(c.token)
    case _ =>
      if ConditionSemantics in p.proposal.slots && p.proposal.slots[ConditionSemantics] !in {"", "false"} && c.stateValue.Some?
      then Some(c.token) else None
  }

  /** The one key a slot stands for. */
  ghost predicate StandsFor(slot: Slot, key: SlotKey) {
    || (key == Subject && slot in {MeasuredEntity, StateEntity, AttributeEntity, RelationSubject})
    || (key == Object && slot == RelationObject)
    || (key == MeasurableDimensionKey && slot == MeasurementDimension)
    || (key == AttributeExpression && slot == AttributeDimension)
    || (key == StateExpression && slot in {StateDimension, StateValue})
    || (key == MeasurementNumericValue && slot == MeasurementValue)
  }

  /** The key has what it had: the same text, or none. */
  ghost predicate Same(original: Proposal, filled: Proposal, key: SlotKey) {
    && (key in filled.slots <==> key in original.slots)
    && (key in original.slots ==> filled.slots[key] == original.slots[key])
  }

  /** Nothing but the slot asked about changes, the raw text aside, and no primitive is added. */
  ghost predicate ChangesOnly(original: Proposal, filled: Proposal, slot: Slot) {
    && (forall key: SlotKey :: key == RawInput || StandsFor(slot, key) || Same(original, filled, key))
    && forall x :: x in filled.primitives ==> x in original.primitives
  }

  lemma SafeExactly(original: Proposal, filled: Proposal, slot: Slot)
    ensures SafeFill(original, filled, slot) <==> ChangesOnly(original, filled, slot)
  {
    forall key: SlotKey
      ensures Untouched(original, filled, slot, key) <==>
        key == RawInput || StandsFor(slot, key) || Same(original, filled, key)
    {
    }
  }

  /** How the filler reads text: trimming, rendering an entity mention, and whether wording already says a token. */
  datatype Readings = Readings(strip: string -> string, mention: string -> string, says: (string, string) -> bool)

  /** The token, put before what was said unless that says it already. */
  function Worded(k: Readings, said: Option<string>, token: string): string {
    if said.None? || k.strip(said.value) == "" then token
    else if k.says(k.strip(said.value), token) then said.value
    else token + " " + k.strip(said.value)
  }

  /** The program's filler; which primitives the result asserts is read off it by a component outside the model. */
  function Fill(k: Readings, p: Proposal, slot: Slot, text: string, primitives: set<string>): Option<Proposal> {
    var token := k.strip(text);
    if token == "" then None
    else match slot
      case MeasuredEntity => Some(p.(slots := p.slots[Subject := k.mention(token)], primitives := primitives))
      case StateEntity => Some(p.(slots := p.slots[Subject := k.mention(token)], primitives := primitives))
      case AttributeEntity => Some(p.(slots := p.slots[Subject := k.mention(token)], primitives := primitives))
      case RelationSubject => Some(p.(slots := p.slots[Subject := k.mention(token)], primitives := primitives))
      case RelationObject => Some(p.(slots := p.slots[Object := k.mention(token)], primitives := primitives))
      case MeasurementDimension => Some(p.(slots := p.slots[MeasurableDimensionKey := token], primitives := primitives))
      case AttributeDimension =>
        Some(p.(slots := p.slots[AttributeExpression := Worded(k, Read(p, AttributeExpression), token)], primitives := primitives))
      case StateDimension =>
        Some(p.(slots := p.slots[StateExpression := Worded(k, Read(p, StateExpression), token)], primitives := primitives))
      case StateValue => Some(p.(slots := p.slots[StateExpression := token], primitives := primitives))
      case MeasurementValue => Some(p.(slots := p.slots[MeasurementNumericValue := token], primitives := primitives))
      case OtherSlot => None
  }

  /**
   * The filler puts the text in the slot asked about and nothing anywhere else, so the comparison before ingestion
   * turns its result away exactly when a primitive is asserted that the original did not assert.
   */
  lemma FillExactly(k: Readings, p: Proposal, slot: Slot, text: string, primitives: set<string>)
    ensures var r := Fill(k, p, slot, text, primitives); var token := k.strip(text);
      && (r.None? <==> token == "" || slot == OtherSlot)
      && (r.Some? ==>
            && r.value.rest == p.rest
            && (forall key: SlotKey :: StandsFor(slot, key) || Same(p, r.value, key))
            && (forall key: SlotKey :: StandsFor(slot, key) ==> key in r.value.slots && PutIn(k, p, key, token, slot, r.value.slots[key]))
            && (SafeFill(p, r.value, slot) <==> primitives <= p.primitives))
  {
    var r := Fill(k, p, slot, text, primitives);
    if r.Some? { SafeExactly(p, r.value, slot); }
  }

  /** What the key holds once the token is put in: a mention, the token, or the token before what was said. */
  ghost predicate PutIn(k: Readings, p: Proposal, key: SlotKey, token: string, slot: Slot, put: string) {
    && (key in {Subject, Object} ==> put == k.mention(token))
    && (slot in {MeasurementDimension, StateValue, MeasurementValue} ==> put == token)
    && (slot in {AttributeDimension, StateDimension} ==>
          if key !in p.slots || k.strip(p.slots[key]) == "" then put == token
          else if k.says(k.strip(p.slots[key]), token) then put == p.slots[key]
          else put == token + " " + k.strip(p.slots[key]))
  }

  /** The slot is filled with what the answer means, safely, and the result can be executed. */
  ghost predicate Executable(p: PendingOperation, c: Call) {
    && Meant(p, c).Some?
    && var filled := c.fill(p.proposal, p.slot, Meant(p, c).value);
    && ChangesOnly(p.proposal, filled, p.slot)
    && c.capability(filled) in {Executes, Partially} && c.materializable(filled)
  }

  ghost predicate TakenUp(p: PendingOperation, c: Call) {
    && c.sameUser && Open(p) && CanBeTakenUp(p)
    && (p.kind == Dimension ==> !HasItAlready(p, c) && !OtherFamily(p, c))
  }

  /**
   * Something is ingested exactly when the question is open, can be taken up and what the answer means is executable;
   * it is the proposal filled with just that, and the answer as its text.
   */
  lemma IngestsExactly(p: PendingOperation, c: Call)
    ensures Recovering(p, c).request.Some? <==> TakenUp(p, c) && Executable(p, c)
    ensures Recovering(p, c).request.Some? ==>
      Recovering(p, c).request.value == Request(c.fill(p.proposal, p.slot, Meant(p, c).value), c.stripped)
  {
    if Meant(p, c).Some? { SafeExactly(p.proposal, c.fill(p.proposal, p.slot, Meant(p, c).value), p.slot); }
  }

  /** Each result of a call, by exactly when it comes. */
  lemma StatusExactly(p: PendingOperation, c: Call)
    ensures var status := Recovering(p, c).status;
      var unsafe := Meant(p, c).Some? && !ChangesOnly(p.proposal, c.fill(p.proposal, p.slot, Meant(p, c).value), p.slot);
      var settled := p.status in {ResolvedStatus, Cancelled};
      var repeated := p.status == ResolvedStatus && c.replayAllowed && c.stripped != "" && p.answer == Some(c.stripped);
      && (status == Rejected <==> !c.sameUser || (TakenUp(p, c) && unsafe))
      && (status == IdempotentReplay <==> c.sameUser && repeated)
      && (status == Closed <==> c.sameUser && !repeated && (settled || p.roundsUsed >= 1))
      && (status == UnsupportedSlot <==> c.sameUser && Open(p) && !CanBeTakenUp(p))
      && (status == AlreadyResolved <==>
            c.sameUser && Open(p) && CanBeTakenUp(p) && p.kind == Dimension && HasItAlready(p, c))
      && (status == InvalidAnswer <==>
            c.sameUser && Open(p) && CanBeTakenUp(p) && p.kind == Dimension && !HasItAlready(p, c) && OtherFamily(p, c))
      && (status == ResolvedCommitted <==>
            TakenUp(p, c) && Executable(p, c)
            && c.ingest(c.fill(p.proposal, p.slot, Meant(p, c).value), c.stripped).IngestCommitted?)
  {
    if Meant(p, c).Some? { SafeExactly(p.proposal, c.fill(p.proposal, p.slot, Meant(p, c).value), p.slot); }
  }

  /** What a committed call records on the question: the answer, and what was written beside what was. */
  lemma CommittedExactly(p: PendingOperation, c: Call)
    requires Recovering(p, c).status == ResolvedCommitted
    ensures var q := Recovering(p, c).pending;
      var written := c.ingest(Recovering(p, c).request.value.filled, c.stripped).written;
      && q.status == ResolvedStatus && q.roundsUsed == p.roundsUsed + 1 && q.answer == Some(c.stripped)
      && (written.None? ==> q.committed == p.committed)
      && (written.Some? ==>
            && q.committed.measurements == p.committed.measurements + written.value.measurements
            && q.committed.events == p.committed.events + written.value.events
            && q.committed.states == p.committed.states + written.value.states
            && q.committed.attributes == p.committed.attributes + written.value.attributes)
  {
  }

  /** A round that fails uses itself up and keeps the answer; a call that is turned away changes nothing. */
  lemma FailedExactly(p: PendingOperation, c: Call)
    requires Recovering(p, c).status != ResolvedCommitted
    ensures var q := Recovering(p, c).pending;
      q == p || (q == p.(status := Failed, roundsUsed := p.roundsUsed + 1, answer := Some(c.stripped))
                 && TakenUpOrWrong(p, c))
  {
  }

  ghost predicate TakenUpOrWrong(p: PendingOperation, c: Call) {
    TakenUp(p, c) || Recovering(p, c).status == InvalidAnswer
  }

  /**
   * Over any calls about one question: one round and one ingestion at most, resolved exactly when that ingestion
   * committed, and what was ingested differs from the original only in the slot asked about.
   */
  lemma {:induction false} RunOk(p: PendingOperation, calls: seq<Call>)
    requires Fresh(p)
    ensures Ok(p, Run(p, calls))
  {
    if calls != [] {
      RunOk(p, calls[..|calls| - 1]);
      RecoverExactly(Run(p, calls[..|calls| - 1]).pending, calls[|calls| - 1]);
    }
  }

  /** Once something was ingested, no further call changes anything: a repeated answer is only a replay. */
  lemma {:induction false} NothingAfterIngestion(p: PendingOperation, calls: seq<Call>, more: seq<Call>)
    requires Fresh(p) && Run(p, calls).ingested != []
    ensures Run(p, calls + more) == Run(p, calls)
  {
    if more == [] {
      assert calls + more == calls;
    } else {
      var front, last := more[..|more| - 1], more[|more| - 1];
      NothingAfterIngestion(p, calls, front);
      assert (calls + more)[..|calls + more| - 1] == calls + front;
      RunOk(p, calls);
      RecoverExactly(Run(p, calls).pending, last);
    }
  }

  /** The same answer again, after it resolved the question, is reported as a replay and nothing is ingested. */
  lemma {:induction false} SameAnswerReplays(p: PendingOperation, calls: seq<Call>, c: Call)
    requires Fresh(p) && Run(p, calls).pending.status == ResolvedStatus
    requires c.sameUser && c.replayAllowed
    ensures var g := Run(p, calls); var r := Recovering(g.pending, c);
      && r.pending == g.pending && r.request.None?
      && (r.status == IdempotentReplay <==> g.pending.answer == Some(c.stripped) && c.stripped != "")
  {
  }
}
