/** The engine's values: events, facts, decisions, projections and observations. */
module Model {
  import opened Base
  import Rfc3339

  type Time = Rfc3339.Time

  /** time.Time's zero value is the instant the clock counts from. */
  const ZERO_TIME: Time := 0

  type Duration = d: int | -0x8000_0000_0000_0000 <= d < 0x8000_0000_0000_0000

  const MAX_DURATION: Duration := 0x7fff_ffff_ffff_ffff

  /** Decoded JSON. Numbers keep their spelling, as json.Number does. */
  datatype Value =
    | Null
    | Bool(b: bool)
    | Number(text: string)
    | Str(s: string)
    | Array(items: seq<Value>)
    | Object(fields: map<string, Value>)

  /** The text of a scalar; null, arrays and objects have none. */
  function ScalarString(v: Value): Option<string> {
    match v
    case Str(s) => Some(s)
    case Bool(b) => Some(if b then "true" else "false")
    case Number(text) => Some(text)
    case _ => None
  }

  datatype EventType = Hire | Rehire | DataUpdate | Leave | ReturnFromLeave | Conversion | Transfer | Termination {
    function Name(): string {
      match this
      case Hire => "hire"
      case Rehire => "rehire"
      case DataUpdate => "data_update"
      case Leave => "leave"
      case ReturnFromLeave => "return_from_leave"
      case Conversion => "conversion"
      case Transfer => "transfer"
      case Termination => "termination"
    }

    predicate IsHire() {
      this == Hire || this == Rehire
    }

    /** Data updates, conversions and transfers carry attributes and nothing else. */
    predicate ChangesState() {
      this != DataUpdate && this != Conversion && this != Transfer
    }
  }

  datatype SourceScope = HireSnapshot | Lifecycle {
    function Name(): string {
      match this
      case HireSnapshot => "hire_snapshot"
      case Lifecycle => "lifecycle"
    }
  }

  datatype PhysicalEvent = PhysicalEvent(
    eventKey: string, subjectID: string, eventType: string, sourceScope: string, effectiveTime: Time,
    endTime: Option<Time>, modificationTime: Time, sourceSequence: int, revisionNumber: int,
    payload: map<string, Value>)

  datatype FreshnessTuple = FreshnessTuple(
    sourceSequence: int, modificationTime: Time, revisionNumber: int, physicalEventKey: string)
  {
    /** -1, 0 or 1, most significant part first. */
    function Compare(other: FreshnessTuple): int {
      if sourceSequence < other.sourceSequence then -1
      else if sourceSequence > other.sourceSequence then 1
      else if modificationTime < other.modificationTime then -1
      else if modificationTime > other.modificationTime then 1
      else if revisionNumber < other.revisionNumber then -1
      else if revisionNumber > other.revisionNumber then 1
      else StrCompare(physicalEventKey, other.physicalEventKey)
    }

    predicate OlderThan(other: FreshnessTuple) {
      Compare(other) < 0
    }
  }

  /** What the payload hash digests; SHA-256 is taken to be injective, so the
      envelope stands for its own hash. */
  datatype Envelope = Envelope(
    subjectID: string, eventType: EventType, sourceScope: SourceScope, effectiveTime: string,
    endTime: Option<string>, modificationTime: string, sourceSequence: int, revisionNumber: int,
    payload: map<string, Value>)

  datatype CanonicalFact = CanonicalFact(
    factKey: string, eventKey: string, subjectID: string, eventType: EventType, sourceScope: SourceScope,
    effectiveTime: Time, endTime: Option<Time>, modificationTime: Time, receivedAt: Time, freshness: FreshnessTuple,
    payloadHash: Envelope, payload: map<string, Value>, attributes: map<string, string>)

  /** Unset is the empty string of a projection no lifecycle event has touched. */
  datatype LifecycleState = Unset | Active | OnLeave | Terminated

  datatype IdentityProjection = IdentityProjection(
    subjectID: string, present: bool, enabled: bool, lifecycleState: LifecycleState, attributes: map<string, string>,
    sourceFactKey: string, sourceEventKey: string, effectiveTime: Time, freshness: FreshnessTuple, rowVersion: int)

  datatype ObservedState = ObservedState(present: bool, enabled: bool, attributes: map<string, string>)

  datatype DecisionAction = ProcessNow | Schedule | Skip | NoOp

  datatype ReasonCode =
    | Accepted
    | AcceptedRetroactive
    | ScheduledFutureHire
    | FutureLifecycle
    | DuplicateDelivery
    | DuplicateOrOlder
    | PreCutoff
    | PastEndTime
    | ScopeMismatch

  datatype EventResolution = EventResolution(
    eventKey: string, factKey: string, action: DecisionAction, reason: ReasonCode, fact: CanonicalFact)

  /** Compare is a total order: antisymmetric, transitive, and 0 only on equal tuples. */
  lemma CompareTotal(a: FreshnessTuple, b: FreshnessTuple)
    ensures a.Compare(b) == -b.Compare(a)
    ensures a.Compare(b) == 0 <==> a == b
  {
    StrLessTrichotomy(a.physicalEventKey, b.physicalEventKey);
  }

  lemma CompareTransitive(a: FreshnessTuple, b: FreshnessTuple, c: FreshnessTuple)
    requires a.Compare(b) < 0 && b.Compare(c) < 0
    ensures a.Compare(c) < 0
  {
    var x, y, z := a.physicalEventKey, b.physicalEventKey, c.physicalEventKey;
    if StrLess(x, y) && StrLess(y, z) {
      StrLessTransitive(x, y, z);
      StrLessTrichotomy(x, z);
    }
  }
}
