/** The PostgreSQL store: three tables and the statements that change them.
    Each statement is one atomic step, so concurrent callers are interleavings
    of steps. */
module Stores {
  import opened Base
  import opened Model

  // ---- Rows ----

  /** TIMESTAMPTZ keeps microseconds; parsing rounds half to even. */
  function ToMicros(t: Time): Time {
    var q, r := t / 1000, t % 1000;
    1000 * (if r < 500 || (r == 500 && q % 2 == 0) then q else q + 1)
  }

  function ToMicrosOption(t: Option<Time>): Option<Time> {
    match t
    case Some(v) => Some(ToMicros(v))
    case None => None
  }

  datatype PhysicalRow = PhysicalRow(
    subjectID: string, eventType: EventType, sourceScope: SourceScope, effectiveTime: Time, endTime: Option<Time>,
    modificationTime: Time, sourceSequence: int, revisionNumber: int, payload: map<string, Value>,
    payloadHash: Envelope, receivedAt: Time)

  datatype FactRow = FactRow(
    eventKey: string, subjectID: string, eventType: EventType, sourceScope: SourceScope, effectiveTime: Time,
    endTime: Option<Time>, modificationTime: Time, sourceSequence: int, revisionNumber: int,
    payload: map<string, Value>, attributes: map<string, string>, payloadHash: Envelope, receivedAt: Time)
  {
    function Freshness(): FreshnessTuple {
      FreshnessTuple(sourceSequence, modificationTime, revisionNumber, eventKey)
    }
  }

  datatype Tables = Tables(
    events: map<string, PhysicalRow>, facts: map<string, FactRow>, state: map<string, IdentityProjection>)

  const EMPTY := Tables(map[], map[], map[])

  function PhysicalRowOf(f: CanonicalFact): PhysicalRow {
    PhysicalRow(
      f.subjectID, f.eventType, f.sourceScope,
      ToMicros(f.effectiveTime), ToMicrosOption(f.endTime), ToMicros(f.modificationTime),
      f.freshness.sourceSequence, f.freshness.revisionNumber, f.payload, f.payloadHash, ToMicros(f.receivedAt))
  }

  function FactRowOf(f: CanonicalFact): FactRow {
    FactRow(
      f.eventKey, f.subjectID, f.eventType, f.sourceScope, ToMicros(f.effectiveTime),
      ToMicrosOption(f.endTime), ToMicros(f.modificationTime),
      f.freshness.sourceSequence, f.freshness.revisionNumber,
      f.payload, f.attributes, f.payloadHash, ToMicros(f.receivedAt))
  }

  function StoredFreshness(f: FreshnessTuple): FreshnessTuple {
    f.(modificationTime := ToMicros(f.modificationTime))
  }

  function StateRowOf(p: IdentityProjection, version: int): IdentityProjection {
    p.(effectiveTime := ToMicros(p.effectiveTime), freshness := StoredFreshness(p.freshness), rowVersion := version)
  }

  /** The CHECK constraints on sequence and revision columns. */
  predicate ChecksHold(f: FreshnessTuple) {
    f.sourceSequence >= 0 && f.revisionNumber >= 0
  }

  // ---- Steps ----

  datatype StoreError =
    | CheckViolation
    | UniqueViolation
    | ForeignKeyViolation
    | EventConflict(eventKey: string)
    | NegativeVersion

  datatype Op =
    | Insert(fact: CanonicalFact)
    | Upsert(fact: CanonicalFact)
    | Cas(expected: int, projection: IdentityProjection)

  type Response = Result<bool, StoreError>

  /** First writer wins; a replay is recognized by everything but its receipt. */
  function InsertStep(t: Tables, f: CanonicalFact): (Tables, Response) {
    var row := PhysicalRowOf(f);
    if !ChecksHold(f.freshness) then (t, Err(CheckViolation))
    else if f.eventKey !in t.events then (t.(events := t.events[f.eventKey := row]), Ok(true))
    else if t.events[f.eventKey] == row.(receivedAt := t.events[f.eventKey].receivedAt) then (t, Ok(false))
    else (t, Err(EventConflict(f.eventKey)))
  }

  predicate SameIdentity(a: FactRow, b: FactRow) {
    && a.subjectID == b.subjectID && a.sourceScope == b.sourceScope
    && a.eventType == b.eventType && a.effectiveTime == b.effectiveTime
  }

  /** The update of a conflicting row leaves its identity columns as they were. */
  function KeepIdentity(stored: FactRow, incoming: FactRow): FactRow {
    incoming.(
      subjectID := stored.subjectID, sourceScope := stored.sourceScope,
      eventType := stored.eventType, effectiveTime := stored.effectiveTime)
  }

  /** Freshest wins. */
  function UpsertStep(t: Tables, f: CanonicalFact): (Tables, Response) {
    var row := FactRowOf(f);
    if !ChecksHold(f.freshness) then (t, Err(CheckViolation))
    else if f.factKey in t.facts then
      if !t.facts[f.factKey].Freshness().OlderThan(row.Freshness()) then (t, Ok(false))
      else if f.eventKey !in t.events then (t, Err(ForeignKeyViolation))
      else (t.(facts := t.facts[f.factKey := KeepIdentity(t.facts[f.factKey], row)]), Ok(true))
    else if exists k :: k in t.facts && SameIdentity(t.facts[k], row) then (t, Err(UniqueViolation))
    else if f.eventKey !in t.events then (t, Err(ForeignKeyViolation))
    else (t.(facts := t.facts[f.factKey := row]), Ok(true))
  }

  /** Whether a compare-and-set applies: bootstrap of a missing row at version
      zero, or a matching version with fresher input. */
  predicate CasApplies(state: map<string, IdentityProjection>, expected: int, p: IdentityProjection) {
    if p.subjectID !in state then expected == 0
    else && state[p.subjectID].rowVersion == expected
         && state[p.subjectID].freshness.OlderThan(StoredFreshness(p.freshness))
  }

  function CasStep(t: Tables, expected: int, p: IdentityProjection): (Tables, Response) {
    if expected < 0 then (t, Err(NegativeVersion))
    else if !ChecksHold(p.freshness) && (expected == 0 || CasApplies(t.state, expected, p))
    then (t, Err(CheckViolation))
    else if !CasApplies(t.state, expected, p) then (t, Ok(false))
    else
      var version := if p.subjectID in t.state then t.state[p.subjectID].rowVersion + 1 else 0;
      (t.(state := t.state[p.subjectID := StateRowOf(p, version)]), Ok(true))
  }

  function Step(t: Tables, op: Op): (Tables, Response) {
    match op
    case Insert(f) => InsertStep(t, f)
    case Upsert(f) => UpsertStep(t, f)
    case Cas(expected, p) => CasStep(t, expected, p)
  }

  // ---- The SQL predicates ----

  /** The OR chain in both ON CONFLICT ... WHERE clauses. */
  predicate OlderByChain(s: FreshnessTuple, e: FreshnessTuple) {
    || s.sourceSequence < e.sourceSequence
    || (s.sourceSequence == e.sourceSequence && s.modificationTime < e.modificationTime)
    || (s.sourceSequence == e.sourceSequence && s.modificationTime == e.modificationTime
        && s.revisionNumber < e.revisionNumber)
    || (s.sourceSequence == e.sourceSequence && s.modificationTime == e.modificationTime
        && s.revisionNumber == e.revisionNumber
        && StrLess(s.physicalEventKey, e.physicalEventKey))
  }

  /** The row comparison in the UPDATE: the first unequal column decides. */
  predicate OlderByRow(s: FreshnessTuple, e: FreshnessTuple) {
    if s.sourceSequence != e.sourceSequence then s.sourceSequence < e.sourceSequence
    else if s.modificationTime != e.modificationTime then s.modificationTime < e.modificationTime
    else if s.revisionNumber != e.revisionNumber then s.revisionNumber < e.revisionNumber
    else StrLess(s.physicalEventKey, e.physicalEventKey)
  }

  /** Both SQL forms order revisions exactly as the engine does. */
  lemma SqlAgreesWithCompare(s: FreshnessTuple, e: FreshnessTuple)
    ensures OlderByChain(s, e) <==> s.OlderThan(e)
    ensures OlderByRow(s, e) <==> s.OlderThan(e)
  {
    StrLessTrichotomy(s.physicalEventKey, e.physicalEventKey);
  }

  class Store {
    var events: map<string, PhysicalRow>
    var facts: map<string, FactRow>
    var state: map<string, IdentityProjection>
    /** Subjects whose state row is locked FOR UPDATE by an open transaction. */
    var locked: set<string>

    constructor ()
      ensures View() == EMPTY && locked == {}
    {
      events, facts, state, locked := map[], map[], map[], {};
    }

    function View(): Tables
      reads this
    {
      Tables(events, facts, state)
    }

    method InsertPhysicalEvent(fact: CanonicalFact) returns (r: Response)
      modifies this`events
      ensures (View(), r) == InsertStep(old(View()), fact)
    {
      var row := PhysicalRowOf(fact);
      if row.sourceSequence < 0 || row.revisionNumber < 0 {
        return Err(CheckViolation);
      }
      if fact.eventKey !in events {
        events := events[fact.eventKey := row];
        return Ok(true);
      }
      var stored := events[fact.eventKey];
      var exactReplay :=
        && stored.subjectID == row.subjectID
        && stored.eventType == row.eventType
        && stored.sourceScope == row.sourceScope
        && stored.effectiveTime == row.effectiveTime
        && stored.endTime == row.endTime
        && stored.modificationTime == row.modificationTime
        && stored.sourceSequence == row.sourceSequence
        && stored.revisionNumber == row.revisionNumber
        && stored.payload == row.payload
        && stored.payloadHash == row.payloadHash;
      if !exactReplay {
        return Err(EventConflict(fact.eventKey));
      }
      return Ok(false);
    }

    method UpsertCanonicalFact(fact: CanonicalFact) returns (r: Response)
      modifies this`facts
      ensures (View(), r) == UpsertStep(old(View()), fact)
    {
      var excluded := FactRowOf(fact);
      if excluded.sourceSequence < 0 || excluded.revisionNumber < 0 {
        return Err(CheckViolation);
      }
      if fact.factKey in facts {
        var stored := facts[fact.factKey];
        SqlAgreesWithCompare(stored.Freshness(), excluded.Freshness());
        if !OlderByChain(stored.Freshness(), excluded.Freshness()) {
          return Ok(false);
        }
        if fact.eventKey !in events {
          return Err(ForeignKeyViolation);
        }
        facts := facts[fact.factKey := stored.(
          eventKey := excluded.eventKey, endTime := excluded.endTime, modificationTime := excluded.modificationTime,
          sourceSequence := excluded.sourceSequence, revisionNumber := excluded.revisionNumber,
          payload := excluded.payload, attributes := excluded.attributes,
          payloadHash := excluded.payloadHash, receivedAt := excluded.receivedAt)];
        return Ok(true);
      }
      if exists k :: k in facts && SameIdentity(facts[k], excluded) {
        return Err(UniqueViolation);
      }
      if fact.eventKey !in events {
        return Err(ForeignKeyViolation);
      }
      facts := facts[fact.factKey := excluded];
      return Ok(true);
    }

    /** A writer waits while another transaction holds the row, so it runs
        only on rows that are not locked. */
    method CompareAndSetProjection(expected: int, projection: IdentityProjection) returns (r: Response)
      requires projection.subjectID !in locked
      modifies this`state
      ensures (View(), r) == CasStep(old(View()), expected, projection)
    {
      if expected < 0 {
        return Err(NegativeVersion);
      }
      if expected > 0 {
        r := UpdateProjection(expected, projection);
      } else {
        r := UpsertProjection(projection);
      }
    }

    /** INSERT ... ON CONFLICT, the version-zero form. */
    method UpsertProjection(projection: IdentityProjection) returns (r: Response)
      modifies this`state
      ensures (View(), r) == CasStep(old(View()), 0, projection)
    {
      var excluded := StateRowOf(projection, 0);
      if excluded.freshness.sourceSequence < 0 || excluded.freshness.revisionNumber < 0 {
        return Err(CheckViolation);
      }
      if projection.subjectID in state {
        var row := state[projection.subjectID];
        SqlAgreesWithCompare(row.freshness, excluded.freshness);
        if !(row.rowVersion == 0 && OlderByChain(row.freshness, excluded.freshness)) {
          return Ok(false);
        }
        excluded := excluded.(rowVersion := row.rowVersion + 1);
      }
      state := state[projection.subjectID := excluded];
      return Ok(true);
    }

    /** UPDATE, the positive-version form: a missing row is never created. */
    method UpdateProjection(expected: int, projection: IdentityProjection) returns (r: Response)
      requires expected > 0
      modifies this`state
      ensures (View(), r) == CasStep(old(View()), expected, projection)
    {
      if projection.subjectID !in state {
        return Ok(false);
      }
      var row, incoming := state[projection.subjectID], StateRowOf(projection, expected + 1);
      SqlAgreesWithCompare(row.freshness, incoming.freshness);
      if !(row.rowVersion == expected && OlderByRow(row.freshness, incoming.freshness)) {
        return Ok(false);
      }
      if incoming.freshness.sourceSequence < 0 || incoming.freshness.revisionNumber < 0 {
        return Err(CheckViolation);
      }
      state := state[projection.subjectID := incoming];
      return Ok(true);
    }

    /** The unlocked read of the preview. */
    method LoadProjection(subject: string) returns (r: Option<IdentityProjection>)
      ensures r == if subject in state then Some(state[subject]) else None
    {
      if subject !in state {
        return None;
      }
      return Some(state[subject]);
    }

    /** SELECT ... FOR UPDATE: no row, no lock. */
    method LockProjection(subject: string) returns (r: Option<IdentityProjection>)
      requires subject !in locked
      modifies this`locked
      ensures r == if subject in state then Some(state[subject]) else None
      ensures locked == if r.Some? then old(locked) + {subject} else old(locked)
    {
      r := LoadProjection(subject);
      if r.Some? {
        locked := locked + {subject};
      }
    }

    /** Commit or rollback of the locking transaction. */
    method Release(subject: string)
      modifies this`locked
      ensures locked == old(locked) - {subject}
    {
      locked := locked - {subject};
    }
  }
}
