/**
 * The knowledge store as a value, and what each write, correction and transaction does to it.
 * A transaction that is denied, or that storage refuses, leaves the store as it was.
 */
module Store {
  import opened Prelude
  import opened Domain
  import Lex
  import R = RelationMetadata
  import V = Versions

  // ---------------------------------------------------------------- environment

  /** The concept registry as the write and query paths read it. */
  datatype Catalog = Catalog(byId: map<Id, Concept>, byKey: map<string, Concept>)

  /** What stays fixed during a run: concepts, singleton attribute dimensions, relation metadata. */
  datatype Env = Env(catalog: Catalog, singleton: set<string>, relations: R.Table)

  const OWNS_KEY := "relation.owns"
  const OWNS_ID := "core:relation.owns"

  ghost predicate CatalogOk(c: Catalog) {
    && (forall k :: k in c.byKey ==>
          c.byKey[k].key == k && c.byKey[k].id in c.byId && c.byId[c.byKey[k].id] == c.byKey[k])
    && (forall i :: i in c.byId ==> c.byId[i].id == i)
    && (forall i, j ::
          (i in c.byId && j in c.byId && c.byId[i].kind == c.byId[j].kind == StateDimension
           && c.byId[i].key == c.byId[j].key)
          ==> i == j)
  }

  /** A registry without personal dimensions under taken keys, seeded with the ownership relation. */
  ghost predicate EnvOk(env: Env) {
    && CatalogOk(env.catalog)
    && OWNS_KEY in env.catalog.byKey && env.catalog.byKey[OWNS_KEY].id == OWNS_ID
    && R.StoredQuery(env.relations, OWNS_KEY) == (OWNS_KEY, false)
    && !R.OrderInsensitive(env.relations, OWNS_KEY)
  }

  // ---------------------------------------------------------------- the store

  datatype Store = Store(
    states: seq<State>, attributes: seq<Attribute>, relations: seq<Relation>, measurements: seq<Measurement>,
    events: seq<Event>, facts: seq<Fact>, ledger: seq<Correction>, principals: map<Id, Id>)

  const EMPTY := Store([], [], [], [], [], [], [], map[])

  predicate HasState(rows: seq<State>, id: Id) { exists r :: r in rows && r.id == id }
  predicate HasAttribute(rows: seq<Attribute>, id: Id) { exists r :: r in rows && r.id == id }
  predicate HasRelation(rows: seq<Relation>, id: Id) { exists r :: r in rows && r.id == id }
  predicate HasMeasurement(rows: seq<Measurement>, id: Id) { exists r :: r in rows && r.id == id }
  predicate HasEvent(rows: seq<Event>, id: Id) { exists r :: r in rows && r.id == id }
  predicate HasFact(rows: seq<Fact>, id: Id) { exists r :: r in rows && r.id == id }
  predicate HasCorrection(rows: seq<Correction>, id: Id) { exists r :: r in rows && r.id == id }

  /** A reference resolves when a row of its kind has that id and belongs to that user. */
  predicate Exists(s: Store, ref: Ref) {
    match ref.kind
    case EventKind => exists r :: r in s.events && r.id == ref.assertionId && r.user == ref.user
    case MeasurementKind => exists r :: r in s.measurements && r.id == ref.assertionId && r.user == ref.user
    case RelationKind => exists r :: r in s.relations && r.id == ref.assertionId && r.user == ref.user
    case StateKind => exists r :: r in s.states && r.id == ref.assertionId && r.user == ref.user
    case AttributeKind => exists r :: r in s.attributes && r.id == ref.assertionId && r.user == ref.user
  }

  // ---------------------------------------------------------------- states

  datatype Key = Key(user: Id, entity: Id, dimension: string)

  function StateOf(key: Key): State -> bool {
    (r: State) => r.user == key.user && r.entity == key.entity && r.dimensionKey == key.dimension
  }

  function LiveState(key: Key): State -> bool {
    (r: State) => r.user == key.user && r.entity == key.entity && r.dimensionKey == key.dimension && r.isCurrent
  }

  function CloseState(at: int): State -> State {
    (r: State) => r.(validTo := Some(at), isCurrent := false)
  }

  function StateVersion(): State -> V.Version {
    (r: State) => V.Version(r.id, r.supersedes, r.isCurrent, r.validTo)
  }

  /** Closes the current rows of the key, then appends `row` pointing at the row it replaces. */
  function PutState(rows: seq<State>, key: Key, row: State, at: int): seq<State> {
    V.CloseAll(LiveState(key), CloseState(at), rows)
    + [row.(supersedes := V.LastLive(LiveState(key), StateVersion(), rows))]
  }

  datatype StateWrite = StateWrite(
    id: Id, user: Id, subject: Option<Id>, valueKey: string, dimensionKey: Option<string>,
    temporal: Option<Temporal>, persistable: bool)

  /** The dimension and value concepts, when the value belongs to the (given or implied) dimension. */
  function ResolveState(c: Catalog, w: StateWrite): Option<(Concept, Concept)> {
    if w.valueKey !in c.byKey || c.byKey[w.valueKey].kind != StateValue then None
    else
      var value := c.byKey[w.valueKey];
      var dimension :=
        match w.dimensionKey
        case Some(k) => if k in c.byKey then Some(c.byKey[k]) else None
        case None =>
          if value.parent.Some? && value.parent.value in c.byId then Some(c.byId[value.parent.value]) else None;
      if dimension.None? || dimension.value.kind != StateDimension || value.parent != Some(dimension.value.id) then None
      else Some((dimension.value, value))
  }

  function StateRow(w: StateWrite, entity: Id, dimension: Concept, value: Concept, t: Temporal, at: int): State {
    State(w.id, w.user, entity, dimension.id, dimension.key, value.id, value.key, t, at, None, None, true)
  }

  function DoState(env: Env, rows: seq<State>, w: StateWrite, at: int): Option<seq<State>> {
    var concepts := ResolveState(env.catalog, w);
    if w.temporal.None? || !w.persistable || w.subject.None? || concepts.None? || HasState(rows, w.id) then None
    else
      var (dimension, value) := concepts.value;
      var row := StateRow(w, w.subject.value, dimension, value, w.temporal.value, at);
      Some(PutState(rows, Key(w.user, w.subject.value, dimension.key), row, at))
  }

  // ---------------------------------------------------------------- attributes

  function AttributeOf(key: Key): Attribute -> bool {
    (r: Attribute) => r.user == key.user && r.entity == key.entity && r.dimension == key.dimension
  }

  /** Rows of the key that were written as current: still current, or closed by a later write. */
  function AssertedAttribute(key: Key): Attribute -> bool {
    (r: Attribute) => r.user == key.user && r.entity == key.entity && r.dimension == key.dimension
                      && (r.isCurrent || r.validTo.Some?)
  }

  function LiveAttribute(key: Key): Attribute -> bool {
    (r: Attribute) => r.user == key.user && r.entity == key.entity && r.dimension == key.dimension && r.isCurrent
  }

  function CloseAttribute(at: int): Attribute -> Attribute {
    (r: Attribute) => r.(validTo := Some(at), isCurrent := false)
  }

  function AttributeVersion(): Attribute -> V.Version {
    (r: Attribute) => V.Version(r.id, r.supersedes, r.isCurrent, r.validTo)
  }

  function PutAttribute(env: Env, rows: seq<Attribute>, key: Key, row: Attribute, at: int): seq<Attribute> {
    if row.isCurrent && key.dimension in env.singleton then
      V.CloseAll(LiveAttribute(key), CloseAttribute(at), rows)
      + [row.(supersedes := V.LastLive(LiveAttribute(key), AttributeVersion(), rows))]
    else rows + [row]
  }

  /** `subject` is the mentioned entity, `fallback` the first subject-like binding. */
  datatype AttributeWrite = AttributeWrite(
    id: Id, user: Id, subject: Option<Id>, fallback: Option<Id>, isSelf: bool,
    dimension: string, value: Value, isCurrent: bool, temporal: Temporal)

  /** A name said of somebody else than the principal lives on the entity itself, not on an attribute row. */
  predicate IntrinsicName(principals: map<Id, Id>, w: AttributeWrite) {
    && w.dimension == "name" && !w.isSelf
    && w.user in principals && w.subject.Some? && w.subject.value != principals[w.user]
  }

  function AttributeSubject(w: AttributeWrite): Option<Id> {
    if w.subject.Some? then w.subject else w.fallback
  }

  function AttributeRow(w: AttributeWrite, entity: Id, at: int): Attribute {
    Attribute(w.id, w.user, entity, w.dimension, w.value, w.temporal, at, None, None, w.isCurrent)
  }

  function DoAttribute(env: Env, rows: seq<Attribute>, w: AttributeWrite, at: int): Option<seq<Attribute>> {
    var subject := AttributeSubject(w);
    if subject.None? || !ValidValue(w.value) || HasAttribute(rows, w.id) then None
    else
      Some(PutAttribute(env, rows, Key(w.user, subject.value, w.dimension), AttributeRow(w, subject.value, at), at))
  }

  // ---------------------------------------------------------------- relations

  datatype Mode = Assert | Historical | Terminate | DenyCurrent

  datatype RelationWrite = RelationWrite(
    id: Id, user: Id, key: string, subject: Option<Id>, object_: Option<Id>, mode: Mode,
    temporal: Option<Temporal>, persistable: bool, required: bool, fallback: Temporal)

  /** The stored identity of a relation instance. */
  datatype Link = Link(user: Id, fromId: Id, conceptId: Id, toId: Id)

  function LinkOf(r: Relation): Link {
    Link(r.user, r.fromId, r.conceptId, r.toId)
  }

  /** The most recently observed row of the link; the earliest stored one among equals. */
  function FindInstance(rows: seq<Relation>, link: Link, currentOnly: bool): (r: Option<nat>)
    ensures r.Some? ==> r.value < |rows| && LinkOf(rows[r.value]) == link && (currentOnly ==> rows[r.value].isCurrent)
  {
    if rows == [] then None
    else
      var last := rows[|rows| - 1];
      var earlier := FindInstance(rows[..|rows| - 1], link, currentOnly);
      if LinkOf(last) != link || (currentOnly && !last.isCurrent) then earlier
      else if earlier.None? || rows[earlier.value].observedAt < last.observedAt then Some(|rows| - 1)
      else earlier
  }

  predicate AssertsCurrent(mode: Mode, t: Temporal) {
    mode == Assert && t.occurrence != Some(Happened) && t.occurrence != Some(Planned)
  }

  function RelationTime(w: RelationWrite): Option<Temporal> {
    if w.temporal.Some? && w.persistable then w.temporal
    else if w.required then None
    else Some(w.fallback)
  }

  function RelationConcept(c: Catalog, key: string): Option<Concept> {
    if key in c.byKey && c.byKey[key].kind == RelationType then Some(c.byKey[key]) else None
  }

  /** The key is that of a relation type. */
  ghost predicate NamesRelation(c: Catalog, key: string) {
    key in c.byKey && c.byKey[key].kind == RelationType
  }

  /** The link a write is about: stored key, stored direction, canonical endpoint order. */
  function LinkFor(env: Env, user: Id, key: string, subject: Id, object_: Id): Option<Link> {
    var triple := R.Canonicalize(env.relations, subject, object_, key);
    match RelationConcept(env.catalog, triple.key)
    case None => None
    case Some(concept) => Some(Link(user, triple.fromId, concept.id, triple.toId))
  }

  function Terminated(r: Relation, t: Temporal, at: int): Relation {
    r.(termination := Some(Termination(t, at)), isCurrent := false)
  }

  /** The new rows and the row ids reported. */
  datatype RelationOutcome = RelationOutcome(rows: seq<Relation>, reported: seq<Id>)

  function PutRelation(rows: seq<Relation>, link: Link, w: RelationWrite, key: string, t: Temporal, at: int)
    : Option<RelationOutcome>
  {
    var current := FindInstance(rows, link, true);
    if w.mode == Terminate then
      match if current.Some? then current else FindInstance(rows, link, false)
      case None => Some(RelationOutcome(rows, []))
      case Some(i) => Some(RelationOutcome(rows[i := Terminated(rows[i], t, at)], [rows[i].id]))
    else if w.mode == DenyCurrent then
      match current
      case None => Some(RelationOutcome(rows, []))
      case Some(i) => Some(RelationOutcome(rows[i := rows[i].(isCurrent := false)], [rows[i].id]))
    else if current.Some? && AssertsCurrent(w.mode, t) then
      var i := current.value;
      Some(RelationOutcome(rows[i := rows[i].(observedAt := at)], [rows[i].id]))
    else if HasRelation(rows, w.id) then None
    else
      var isCurrent := AssertsCurrent(w.mode, t);
      var row := Relation(w.id, w.user, link.fromId, link.toId, link.conceptId, key, t, at, isCurrent, None);
      Some(RelationOutcome(rows + [row], [w.id]))
  }

  function DoRelation(env: Env, rows: seq<Relation>, w: RelationWrite, at: int): Option<RelationOutcome> {
    var t := RelationTime(w);
    if t.None? || w.subject.None? || w.object_.None? then None
    else
      match LinkFor(env, w.user, w.key, w.subject.value, w.object_.value)
      case None => None
      case Some(link) =>
        PutRelation(rows, link, w, R.StoredQuery(env.relations, w.key).0, t.value, at)
  }

  /** One candidate for an automatic ownership link: the object, and whether it is known and possessed. */
  datatype OwnedTarget = OwnedTarget(id: Id, object_: Option<Id>, known: bool, eligible: bool)

  const NO_TIME := Temporal(None, None, "", None, false, None, false, None)

  function OwnsLink(user: Id, principal: Id, object_: Id): Link {
    Link(user, principal, OWNS_ID, object_)
  }

  /** Links the principal to each possessed object that has no current link yet. */
  function DoOwnership(
    rows: seq<Relation>, user: Id, principal: Id, targets: seq<OwnedTarget>, seen: set<Id>, at: int)
    : Option<RelationOutcome>
    decreases |targets|
  {
    if targets == [] then Some(RelationOutcome(rows, []))
    else
      var t := targets[0];
      if t.object_.None? || t.object_.value in seen || t.object_.value == principal || !t.known || !t.eligible then
        DoOwnership(rows, user, principal, targets[1..], seen, at)
      else if FindInstance(rows, OwnsLink(user, principal, t.object_.value), true).Some? then
        DoOwnership(rows, user, principal, targets[1..], seen + {t.object_.value}, at)
      else if HasRelation(rows, t.id) then None
      else
        var row := Relation(t.id, user, principal, t.object_.value, OWNS_ID, OWNS_KEY, NO_TIME, at, true, None);
        match DoOwnership(rows + [row], user, principal, targets[1..], seen + {t.object_.value}, at)
        case None => None
        case Some(o) => Some(RelationOutcome(o.rows, [t.id] + o.reported))
  }

  // ---------------------------------------------------------------- facts

  datatype FactInput = FactInput(id: Id, concept: Id, value: string)

  function FactAt(rows: seq<Fact>, user: Id, id: Id): (r: Option<nat>)
    ensures r.Some? ==> r.value < |rows| && rows[r.value].id == id && rows[r.value].user == user
  {
    if rows == [] then None
    else if rows[|rows| - 1].id == id && rows[|rows| - 1].user == user then Some(|rows| - 1)
    else FactAt(rows[..|rows| - 1], user, id)
  }

  /** Storage's own checks on a fact: a fresh id and, when it supersedes, one existing predecessor of its kind. */
  predicate AcceptsFact(rows: seq<Fact>, f: Fact) {
    && !HasFact(rows, f.id)
    && (f.supersedes.Some? ==>
          && f.supersedes.value != f.id
          && (exists p :: p in rows && p.id == f.supersedes.value && p.user == f.user
                          && p.about == f.about && p.concept == f.concept)
          && !(exists r :: r in rows && r.supersedes == f.supersedes))
  }

  function DoFacts(
    rows: seq<Fact>, user: Id, about: Anchor, inputs: seq<FactInput>, supersedes: Option<Id>, at: int)
    : Option<seq<Fact>>
    decreases |inputs|
  {
    if inputs == [] then Some(rows)
    else
      var f := Fact(inputs[0].id, user, about, inputs[0].concept, inputs[0].value, supersedes, at, None);
      if AcceptsFact(rows, f) then DoFacts(rows + [f], user, about, inputs[1..], supersedes, at) else None
  }

  /** `a` was recorded before `b`. */
  predicate RecordedBefore(a: Fact, b: Fact) {
    a.createdAt < b.createdAt || (a.createdAt == b.createdAt && Lex.Less(a.id, b.id))
  }

  /** The latest recorded current fact about the event under the concept. */
  function LatestCurrentFact(rows: seq<Fact>, user: Id, event: Id, concept: Id): (r: Option<nat>)
    ensures r.Some? ==> r.value < |rows| && rows[r.value].user == user && CurrentFact(rows[r.value])
                        && rows[r.value].about.id == event && rows[r.value].concept == concept
  {
    if rows == [] then None
    else
      var last := rows[|rows| - 1];
      var earlier := LatestCurrentFact(rows[..|rows| - 1], user, event, concept);
      if last.user != user || last.about.id != event || last.concept != concept || !CurrentFact(last) then earlier
      else if earlier.None? || RecordedBefore(rows[earlier.value], last) then Some(|rows| - 1)
      else earlier
  }

  const AMOUNT_ID := "core:attribute.amount"

  datatype FactCorrection = FactCorrection(
    user: Id, eventId: Option<Id>, factId: Option<Id>, facts: seq<FactInput>)

  /** The completeness gate of `intent.correct`: an essential target and an essential fact. */
  predicate CorrectionComplete(c: FactCorrection) {
    (c.eventId.Some? || c.factId.Some?) && c.facts != []
  }

  /** Marks the corrected fact as superseded and records its successors. */
  function DoFactCorrection(rows: seq<Fact>, c: FactCorrection, at: int): Option<seq<Fact>> {
    if c.factId.Some? then
      match FactAt(rows, c.user, c.factId.value)
      case None => None
      case Some(i) => if CurrentFact(rows[i]) then Supersede(rows, i, rows[i].about, c, at) else None
    else if c.eventId.None? then None
    else
      match LatestCurrentFact(rows, c.user, c.eventId.value, AMOUNT_ID)
      case None => DoFacts(rows, c.user, Anchor(EventAnchor, c.eventId.value), c.facts, None, at)
      case Some(i) => Supersede(rows, i, Anchor(EventAnchor, c.eventId.value), c, at)
  }

  function Supersede(rows: seq<Fact>, i: nat, about: Anchor, c: FactCorrection, at: int): Option<seq<Fact>>
    requires i < |rows|
  {
    DoFacts(rows[i := rows[i].(supersededAt := Some(at))], c.user, about, c.facts, Some(rows[i].id), at)
  }

  // ---------------------------------------------------------------- transactions of writes

  datatype Write =
    | WriteEvent(event: Event, facts: seq<FactInput>)
    | WriteMeasurement(measurement: Measurement)
    | WriteState(state: StateWrite)
    | WriteAttribute(attribute: AttributeWrite)
    | WriteRelation(relation: RelationWrite)
    | WriteOwnership(user: Id, targets: seq<OwnedTarget>)

  /** Row ids reported by a transaction, per primitive, in write order. */
  datatype Receipt = Receipt(
    events: seq<Id>, measurements: seq<Id>, states: seq<Id>, attributes: seq<Id>, relations: seq<Id>)

  const NOTHING := Receipt([], [], [], [], [])

  datatype Txn = Txn(store: Store, receipt: Receipt)

  function DoWrite(env: Env, t: Txn, w: Write, at: int): Option<Txn> {
    var s, r := t.store, t.receipt;
    match w
    case WriteEvent(e, facts) =>
      if HasEvent(s.events, e.id) then None
      else (match DoFacts(s.facts, e.user, Anchor(EventAnchor, e.id), facts, None, at)
        case None => None
        case Some(fs) => Some(Txn(s.(events := s.events + [e], facts := fs), r.(events := r.events + [e.id]))))
    case WriteMeasurement(m) =>
      if HasMeasurement(s.measurements, m.id) then None
      else Some(Txn(s.(measurements := s.measurements + [m]), r.(measurements := r.measurements + [m.id])))
    case WriteState(sw) =>
      (match DoState(env, s.states, sw, at)
      case None => None
      case Some(rows) => Some(Txn(s.(states := rows), r.(states := r.states + [sw.id]))))
    case WriteAttribute(aw) =>
      if IntrinsicName(s.principals, aw) then Some(t)
      else (match DoAttribute(env, s.attributes, aw, at)
        case None => None
        case Some(rows) => Some(Txn(s.(attributes := rows), r.(attributes := r.attributes + [aw.id]))))
    case WriteRelation(rw) =>
      (match DoRelation(env, s.relations, rw, at)
      case None => None
      case Some(o) => Some(Txn(s.(relations := o.rows), r.(relations := r.relations + o.reported))))
    case WriteOwnership(user, targets) =>
      if user !in s.principals then Some(t)
      else (match DoOwnership(s.relations, user, s.principals[user], targets, {}, at)
        case None => None
        case Some(o) => Some(Txn(s.(relations := o.rows), r.(relations := r.relations + o.reported))))
  }

  function DoWrites(env: Env, t: Txn, ws: seq<Write>, at: int): Option<Txn>
    decreases |ws|
  {
    if ws == [] then Some(t)
    else match DoWrite(env, t, ws[0], at)
      case None => None
      case Some(u) => DoWrites(env, u, ws[1..], at)
  }

  // ---------------------------------------------------------------- corrections

  datatype CorrectionError =
    | ReferenceNotFound | SelfReplacement | TargetAlreadyCorrected | ProvenanceInvalid | DuplicateId

  predicate Targeted(ledger: seq<Correction>, ref: Ref) {
    exists c :: c in ledger && c.target == ref
  }

  /** Appends a ledger row for an existing, so far uncorrected target. The target's own row is not touched. */
  function DoCorrection(s: Store, c: Correction, provenance: bool): Result<Store, CorrectionError> {
    if !Exists(s, c.target) then Err(ReferenceNotFound)
    else if c.operation == Replace && c.replacement.Some? && !Exists(s, c.replacement.value) then Err(ReferenceNotFound)
    else if c.replacement == Some(c.target) then Err(SelfReplacement)
    else if Targeted(s.ledger, c.target) then Err(TargetAlreadyCorrected)
    else if !provenance then Err(ProvenanceInvalid)
    else if HasCorrection(s.ledger, c.id) then Err(DuplicateId)
    else Ok(s.(ledger := s.ledger + [c]))
  }

  function RetractRow(id: Id, user: Id, kind: Kind, target: Id): Correction {
    Correction(id, user, Retract, Ref(user, kind, target), None)
  }

  function ReplaceRow(id: Id, user: Id, kind: Kind, target: Id, newKind: Kind, newId: Id): Correction {
    Correction(id, user, Replace, Ref(user, kind, target), Some(Ref(user, newKind, newId)))
  }

  // ---------------------------------------------------------------- replacement by a new assertion

  datatype Intent = RecordAttribute | RecordMeasurement | RecordEvent | RecordState | RecordRelation

  function LastOf(kind: Kind, ids: seq<Id>): Option<(Kind, Id)> {
    if ids == [] then None else Some((kind, ids[|ids| - 1]))
  }

  function FirstSome(a: Option<(Kind, Id)>, b: Option<(Kind, Id)>): Option<(Kind, Id)> {
    if a.Some? then a else b
  }

  /** The replacement chosen from what was written: the intended primitive, else the first kind that has rows. */
  function ReplacementRef(r: Receipt, intent: Intent): Option<(Kind, Id)> {
    var attribute := LastOf(AttributeKind, r.attributes);
    var measurement := LastOf(MeasurementKind, r.measurements);
    var event := LastOf(EventKind, r.events);
    var state := LastOf(StateKind, r.states);
    var relation := LastOf(RelationKind, r.relations);
    var intended :=
      match intent
      case RecordAttribute => attribute
      case RecordMeasurement => measurement
      case RecordEvent => event
      case RecordState => state
      case RecordRelation => relation;
    FirstSome(intended, FirstSome(attribute, FirstSome(measurement, FirstSome(state, FirstSome(relation, event)))))
  }

  datatype Replacing = Replacing(
    correctionId: Id, user: Id, kind: Kind, target: Id, intent: Intent, writes: seq<Write>, provenance: bool)

  /** Materializes the replacement and links it to the target in one transaction; None is a rollback. */
  function DoReplacing(env: Env, s: Store, q: Replacing, at: int): Option<Store> {
    match DoWrites(env, Txn(s, NOTHING), q.writes, at)
    case None => None
    case Some(t) =>
      match ReplacementRef(t.receipt, q.intent)
      case None => None
      case Some(new_) =>
        match DoCorrection(t.store, ReplaceRow(q.correctionId, q.user, q.kind, q.target, new_.0, new_.1), q.provenance)
        case Err(_) => None
        case Ok(after) => Some(after)
  }

  // ---------------------------------------------------------------- runs

  datatype Step =
    | BindPrincipal(user: Id, entity: Id)
    | Ingest(writes: seq<Write>)
    | CorrectFacts(correction: FactCorrection)
    | RetractAssertion(correctionId: Id, user: Id, kind: Kind, target: Id, provenance: bool)
    | ReplaceAssertion(correctionId: Id, user: Id, kind: Kind, target: Id, newKind: Kind, newId: Id, provenance: bool)
    | IngestReplacement(replacing: Replacing)

  function Apply(env: Env, s: Store, step: Step, at: int): Store {
    match step
    case BindPrincipal(user, entity) => s.(principals := s.principals[user := entity])
    case Ingest(writes) =>
      (match DoWrites(env, Txn(s, NOTHING), writes, at)
      case None => s
      case Some(t) => t.store)
    case CorrectFacts(c) =>
      if !CorrectionComplete(c) then s
      else (match DoFactCorrection(s.facts, c, at)
        case None => s
        case Some(rows) => s.(facts := rows))
    case RetractAssertion(id, user, kind, target, provenance) =>
      (match DoCorrection(s, RetractRow(id, user, kind, target), provenance)
      case Err(_) => s
      case Ok(after) => after)
    case ReplaceAssertion(id, user, kind, target, newKind, newId, provenance) =>
      (match DoCorrection(s, ReplaceRow(id, user, kind, target, newKind, newId), provenance)
      case Err(_) => s
      case Ok(after) => after)
    case IngestReplacement(q) =>
      (match DoReplacing(env, s, q, at)
      case None => s
      case Some(after) => after)
  }

  datatype Timed = Timed(step: Step, at: int)

  /** The store after a run of steps from the empty store. */
  function Run(env: Env, run: seq<Timed>): Store {
    if run == [] then EMPTY
    else Apply(env, Run(env, run[..|run| - 1]), run[|run| - 1].step, run[|run| - 1].at)
  }
}
