/** Normalizing a physical event into a canonical fact. */
module Canonicalization {
  import opened Base
  import opened Text
  import opened Model
  import Rfc3339

  datatype AttributeError =
    | EmptyName(key: string)
    | AmbiguousNames(previous: string, key: string, name: string)

  datatype Rejection =
    | SubjectRequired
    | EventKeyRequired
    | UnsupportedEventType(raw: string)
    | UnsupportedSourceScope(raw: string)
    | EffectiveTimeRequired
    | ModificationTimeRequired
    | NegativeSequence
    | NegativeRevision
    | BadAttributes(cause: AttributeError)

  const SEPARATOR := '\U{1f}'

  function MakeFactKey(subjectID: string, scope: SourceScope, eventType: EventType, effective: Time): string {
    subjectID + [SEPARATOR] + scope.Name() + [SEPARATOR] + eventType.Name() + [SEPARATOR] + Rfc3339.Format(effective)
  }

  function ParseEventType(raw: string): Option<EventType> {
    var name := ToLower(TrimSpace(raw));
    if name == "hire" then Some(Hire)
    else if name == "rehire" then Some(Rehire)
    else if name == "data_update" then Some(DataUpdate)
    else if name == "leave" then Some(Leave)
    else if name == "return_from_leave" then Some(ReturnFromLeave)
    else if name == "conversion" then Some(Conversion)
    else if name == "transfer" then Some(Transfer)
    else if name == "termination" then Some(Termination)
    else None
  }

  function ParseSourceScope(raw: string): Option<SourceScope> {
    var name := ToLower(TrimSpace(raw));
    if name == "hire_snapshot" then Some(HireSnapshot)
    else if name == "lifecycle" then Some(Lifecycle)
    else None
  }

  /** Parsing reads the names back: a raw text gives an event type or a scope
      exactly if, trimmed and in lower case, it is that one's name. */
  lemma ParsingInvertsNames(raw: string, t: EventType, scope: SourceScope)
    ensures ParseEventType(raw) == Some(t) <==> ToLower(TrimSpace(raw)) == t.Name()
    ensures ParseSourceScope(raw) == Some(scope) <==> ToLower(TrimSpace(raw)) == scope.Name()
  {
    NamesInjective(HireSnapshot, Lifecycle, t, if ParseEventType(raw).Some? then ParseEventType(raw).value else t);
  }

  // ---- Attribute extraction ----

  /** The raw attributes: nothing unless the payload holds an object under that name. */
  function AttributeValues(payload: map<string, Value>): map<string, Value> {
    if "attributes" in payload && payload["attributes"].Object? then payload["attributes"].fields else map[]
  }

  ghost predicate NamesUnambiguous(values: map<string, Value>) {
    && (forall k :: k in values ==> TrimSpace(k) != "")
    && (forall k, k' :: k in values && k' in values && TrimSpace(k) == TrimSpace(k') ==> k == k')
  }

  ghost function ScalarAttributes(values: map<string, Value>): map<string, string>
    requires NamesUnambiguous(values)
  {
    map k | k in values && ScalarString(values[k]).Some? :: TrimSpace(k) := ScalarString(values[k]).value
  }

  /** A key with an empty name, or one whose name an earlier key already took. */
  ghost predicate Offends(values: map<string, Value>, k: string) {
    && k in values
    && (TrimSpace(k) == "" || exists p :: p in values && StrLess(p, k) && TrimSpace(p) == TrimSpace(k))
  }

  ghost predicate IsFirstOffender(values: map<string, Value>, k: string) {
    Offends(values, k) && forall k' :: Offends(values, k') ==> !StrLess(k', k)
  }

  lemma OffenderExists(values: map<string, Value>)
    requires !NamesUnambiguous(values)
    ensures exists k :: IsFirstOffender(values, k)
  {
    var w: string;
    if k0 :| k0 in values && TrimSpace(k0) == "" {
      w := k0;
    } else {
      var a, b :| a in values && b in values && TrimSpace(a) == TrimSpace(b) && a != b;
      StrLessTrichotomy(a, b);
      w := if StrLess(a, b) then b else a;
    }
    assert Offends(values, w);
    StrLessOrdered();
    var offenders := set k | k in values && Offends(values, k);
    assert w in offenders;
    MaximalExists(offenders, StrGreater);
    var k :| IsMaximal(offenders, StrGreater, k);
    assert forall k' :: Offends(values, k') ==> k' in offenders && !StrGreater(k, k');
    assert IsFirstOffender(values, k);
  }

  ghost function FirstOffender(values: map<string, Value>): (k: string)
    requires !NamesUnambiguous(values)
    ensures IsFirstOffender(values, k)
  {
    OffenderExists(values);
    var k :| IsFirstOffender(values, k);
    k
  }

  ghost function OffenceAt(values: map<string, Value>, k: string): AttributeError
    requires Offends(values, k)
  {
    if TrimSpace(k) == "" then EmptyName(k)
    else
      var p :| p in values && StrLess(p, k) && TrimSpace(p) == TrimSpace(k);
      AmbiguousNames(p, k, TrimSpace(k))
  }

  /** Extraction as the contract states it, without an iteration order. */
  ghost function ExtractedAttributes(payload: map<string, Value>): Result<map<string, string>, AttributeError> {
    var values := AttributeValues(payload);
    if NamesUnambiguous(values) then Ok(ScalarAttributes(values))
    else Err(OffenceAt(values, FirstOffender(values)))
  }

  /** What the loop knows after the sorted keys it has passed. */
  ghost predicate Scanned(
    values: map<string, Value>, done: set<string>, seen: map<string, string>, attributes: map<string, string>)
  {
    && (forall k :: k in done ==> TrimSpace(k) in seen && seen[TrimSpace(k)] == k)
    && (forall n :: n in seen ==> seen[n] in done && TrimSpace(seen[n]) == n && n != "")
    && (forall n :: n in attributes <==> n in seen && seen[n] in values && ScalarString(values[seen[n]]).Some?)
    && (forall n :: n in attributes ==> ScalarString(values[seen[n]]) == Some(attributes[n]))
  }

  lemma ScannedNext(
    values: map<string, Value>, done: set<string>, key: string, seen: map<string, string>,
    attributes: map<string, string>)
    requires Scanned(values, done, seen, attributes)
    requires key in values && TrimSpace(key) != "" && TrimSpace(key) !in seen
    ensures var name, scalar := TrimSpace(key), ScalarString(values[key]);
            Scanned(values, done + {key}, seen[name := key],
                    if scalar.Some? then attributes[name := scalar.value] else attributes)
  {
  }

  lemma ScannedAll(values: map<string, Value>, seen: map<string, string>, attributes: map<string, string>)
    requires Scanned(values, values.Keys, seen, attributes)
    ensures NamesUnambiguous(values) && attributes == ScalarAttributes(values)
  {
    var expected := ScalarAttributes(values);
    forall n | n in expected ensures n in attributes && attributes[n] == expected[n] {
      var k :| k in values && ScalarString(values[k]).Some? && n == TrimSpace(k);
      assert seen[n] == k;
    }
    forall n | n in attributes ensures n in expected {
      assert seen[n] in values;
    }
  }

  /** The scan stops at the first offender: everything before it was clean. */
  lemma NothingOffendsBefore(
    values: map<string, Value>, done: set<string>, key: string, seen: map<string, string>,
    attributes: map<string, string>, k: string)
    requires Scanned(values, done, seen, attributes) && done == set k | k in values && StrLess(k, key)
    requires Offends(values, k)
    ensures !StrLess(k, key)
  {
    if StrLess(k, key) {
      assert k in done && TrimSpace(k) != "";
      var p :| p in values && StrLess(p, k) && TrimSpace(p) == TrimSpace(k);
      StrLessTransitive(p, k, key);
      StrLessTrichotomy(p, k);
      assert false;
    }
  }

  lemma StopsAtFirstOffender(
    values: map<string, Value>, done: set<string>, key: string, seen: map<string, string>,
    attributes: map<string, string>)
    requires key in values && Scanned(values, done, seen, attributes)
    requires done == set k | k in values && StrLess(k, key)
    requires TrimSpace(key) == "" || TrimSpace(key) in seen
    ensures !NamesUnambiguous(values)
    ensures OffenceAt(values, FirstOffender(values))
         == if TrimSpace(key) == "" then EmptyName(key) else AmbiguousNames(seen[TrimSpace(key)], key, TrimSpace(key))
  {
    if TrimSpace(key) != "" {
      var p := seen[TrimSpace(key)];
      assert p in done && TrimSpace(p) == TrimSpace(key);
      StrLessTrichotomy(p, key);
    }
    assert Offends(values, key);
    var first := FirstOffender(values);
    StrLessTrichotomy(first, key);
    NothingOffendsBefore(values, done, key, seen, attributes, first);
    assert first == key;
  }

  method AttributesFromPayload(payload: map<string, Value>) returns (r: Result<map<string, string>, AttributeError>)
    ensures r == ExtractedAttributes(payload)
  {
    var values := AttributeValues(payload);
    var keys := SortedKeys(values);
    var attributes: map<string, string> := map[];
    var seen: map<string, string> := map[];
    for i := 0 to |keys|
      invariant Scanned(values, Elements(keys[..i]), seen, attributes)
    {
      var key := keys[i];
      var name := TrimSpace(key);
      PrefixIsLess(values, keys, i);
      if name == "" {
        StopsAtFirstOffender(values, Elements(keys[..i]), key, seen, attributes);
        return Err(EmptyName(key));
      }
      if name in seen {
        StopsAtFirstOffender(values, Elements(keys[..i]), key, seen, attributes);
        return Err(AmbiguousNames(seen[name], key, name));
      }
      ScannedNext(values, Elements(keys[..i]), key, seen, attributes);
      seen := seen[name := key];
      var scalar := ScalarString(values[key]);
      if scalar.Some? {
        attributes := attributes[name := scalar.value];
      }
      assert Elements(keys[..i + 1]) == Elements(keys[..i]) + {key};
    }
    assert Elements(keys[..|keys|]) == values.Keys;
    ScannedAll(values, seen, attributes);
    return Ok(attributes);
  }

  /** The key slice: filled in map order, then sorted in place. */
  method SortedKeys(values: map<string, Value>) returns (keys: seq<string>)
    ensures SortedBy(keys, StrLess) && Distinct(keys) && Elements(keys) == values.Keys
  {
    var unsorted: seq<string> := [];
    var rest := values.Keys;
    while rest != {}
      invariant rest <= values.Keys && Elements(unsorted) == values.Keys - rest
      invariant Distinct(unsorted)
      decreases rest
    {
      var k :| k in rest;
      assert k !in Elements(unsorted);
      ElementsAppend(unsorted, k);
      unsorted, rest := unsorted + [k], rest - {k};
    }
    var buffer := new string[|unsorted|](i requires 0 <= i < |unsorted| => unsorted[i]);
    assert buffer[..] == unsorted;
    StrLessOrdered();
    SortSlice(buffer, StrLess);
    keys := buffer[..];
    DistinctPermutes(unsorted, keys);
    PermutationElements(unsorted, keys);
  }

  lemma PrefixIsLess(values: map<string, Value>, keys: seq<string>, i: nat)
    requires i < |keys| && SortedBy(keys, StrLess) && Distinct(keys) && Elements(keys) == values.Keys
    ensures Elements(keys[..i]) == set k | k in values && StrLess(k, keys[i])
  {
    forall k | k in values ensures k in keys[..i] <==> StrLess(k, keys[i]) {
      assert k in Elements(keys);
      var j :| 0 <= j < |keys| && keys[j] == k;
      StrLessTrichotomy(k, keys[i]);
    }
  }

  // ---- Canonicalization ----

  /** The hashed envelope and the fact around it. */
  function AssembleFact(
    e: PhysicalEvent, eventType: EventType, scope: SourceScope, attributes: map<string, string>, receivedAt: Time)
    : CanonicalFact
  {
    var subjectID, eventKey := TrimSpace(e.subjectID), TrimSpace(e.eventKey);
    CanonicalFact(
      MakeFactKey(subjectID, scope, eventType, e.effectiveTime), eventKey, subjectID, eventType, scope,
      e.effectiveTime, e.endTime, e.modificationTime,
      if receivedAt == ZERO_TIME then e.modificationTime else receivedAt,
      FreshnessTuple(e.sourceSequence, e.modificationTime, e.revisionNumber, eventKey),
      Envelope(
        subjectID, eventType, scope, Rfc3339.Format(e.effectiveTime),
        if e.endTime.Some? then Some(Rfc3339.Format(e.endTime.value)) else None,
        Rfc3339.Format(e.modificationTime), e.sourceSequence, e.revisionNumber, e.payload),
      e.payload, attributes)
  }

  ghost function EnvelopeOf(f: CanonicalFact): Envelope {
    Envelope(
      f.subjectID, f.eventType, f.sourceScope, Rfc3339.Format(f.effectiveTime),
      if f.endTime.Some? then Some(Rfc3339.Format(f.endTime.value)) else None,
      Rfc3339.Format(f.modificationTime), f.freshness.sourceSequence, f.freshness.revisionNumber, f.payload)
  }

  /** What every canonical fact satisfies. */
  ghost predicate Canonical(f: CanonicalFact) {
    && f.subjectID != "" && Trimmed(f.subjectID)
    && f.eventKey != "" && Trimmed(f.eventKey)
    && f.effectiveTime != ZERO_TIME && f.modificationTime != ZERO_TIME
    && f.factKey == MakeFactKey(f.subjectID, f.sourceScope, f.eventType, f.effectiveTime)
    && f.freshness.modificationTime == f.modificationTime
    && f.freshness.physicalEventKey == f.eventKey
    && f.freshness.sourceSequence >= 0 && f.freshness.revisionNumber >= 0
    && f.payloadHash == EnvelopeOf(f)
    && ExtractedAttributes(f.payload) == Ok(f.attributes)
  }

  /** Why an event is refused, if it is: the first failing check in source order. */
  ghost function RejectionOf(e: PhysicalEvent): Option<Rejection> {
    if TrimSpace(e.subjectID) == "" then Some(SubjectRequired)
    else if TrimSpace(e.eventKey) == "" then Some(EventKeyRequired)
    else if ParseEventType(e.eventType).None? then Some(UnsupportedEventType(e.eventType))
    else if ParseSourceScope(e.sourceScope).None? then Some(UnsupportedSourceScope(e.sourceScope))
    else if e.effectiveTime == ZERO_TIME then Some(EffectiveTimeRequired)
    else if e.modificationTime == ZERO_TIME then Some(ModificationTimeRequired)
    else if e.sourceSequence < 0 then Some(NegativeSequence)
    else if e.revisionNumber < 0 then Some(NegativeRevision)
    else match ExtractedAttributes(e.payload)
      case Err(cause) => Some(BadAttributes(cause))
      case Ok(_) => None
  }

  /** The fact says of its event exactly what the event said. */
  ghost predicate Represents(f: CanonicalFact, e: PhysicalEvent, receivedAt: Time) {
    && Canonical(f)
    && f.eventKey == TrimSpace(e.eventKey)
    && f.subjectID == TrimSpace(e.subjectID)
    && ParseEventType(e.eventType) == Some(f.eventType)
    && ParseSourceScope(e.sourceScope) == Some(f.sourceScope)
    && f.effectiveTime == e.effectiveTime
    && f.endTime == e.endTime
    && f.modificationTime == e.modificationTime
    && f.freshness.sourceSequence == e.sourceSequence
    && f.freshness.revisionNumber == e.revisionNumber
    && f.payload == e.payload
    && f.receivedAt == if receivedAt == ZERO_TIME then e.modificationTime else receivedAt
  }

  lemma RepresentsUnique(f: CanonicalFact, g: CanonicalFact, e: PhysicalEvent, receivedAt: Time)
    requires Represents(f, e, receivedAt) && Represents(g, e, receivedAt)
    ensures f == g
  {
    assert f.freshness == g.freshness;
    assert f.attributes == g.attributes;
  }

  method Canonicalize(event: PhysicalEvent, receivedAt: Time) returns (r: Result<CanonicalFact, Rejection>)
    ensures r == CanonicalForm(event, receivedAt)
  {
    var subjectID := TrimSpace(event.subjectID);
    if subjectID == "" {
      return Err(SubjectRequired);
    }
    var eventKey := TrimSpace(event.eventKey);
    if eventKey == "" {
      return Err(EventKeyRequired);
    }
    var eventType := ParseEventType(event.eventType);
    if eventType.None? {
      return Err(UnsupportedEventType(event.eventType));
    }
    var sourceScope := ParseSourceScope(event.sourceScope);
    if sourceScope.None? {
      return Err(UnsupportedSourceScope(event.sourceScope));
    }
    if event.effectiveTime == ZERO_TIME {
      return Err(EffectiveTimeRequired);
    }
    if event.modificationTime == ZERO_TIME {
      return Err(ModificationTimeRequired);
    }
    if event.sourceSequence < 0 {
      return Err(NegativeSequence);
    }
    if event.revisionNumber < 0 {
      return Err(NegativeRevision);
    }
    var attributes := AttributesFromPayload(event.payload);
    if attributes.Err? {
      return Err(BadAttributes(attributes.error));
    }
    return Ok(AssembleFact(event, eventType.value, sourceScope.value, attributes.value, receivedAt));
  }

  /** Canonicalize as a function, for statements about batches. */
  ghost function CanonicalForm(e: PhysicalEvent, receivedAt: Time): Result<CanonicalFact, Rejection> {
    match RejectionOf(e)
    case Some(reason) => Err(reason)
    case None => Ok(AssembleFact(
      e, ParseEventType(e.eventType).value, ParseSourceScope(e.sourceScope).value,
      ExtractedAttributes(e.payload).value, receivedAt))
  }

  /** Canonicalization succeeds exactly on the events with no reason for
      rejection, and the fact it makes says what the event said. */
  lemma CanonicalFormFaithful(e: PhysicalEvent, receivedAt: Time)
    ensures CanonicalForm(e, receivedAt).Err? <==> RejectionOf(e).Some?
    ensures CanonicalForm(e, receivedAt).Ok? ==> Represents(CanonicalForm(e, receivedAt).value, e, receivedAt)
  {
    TrimSpaceTrims(e.subjectID);
    TrimSpaceTrims(e.eventKey);
  }

  /** A termination with nothing but its keys and times. */
  function TerminationAt(subjectID: string, eventKey: string, effective: Time, modified: Time): PhysicalEvent {
    PhysicalEvent(eventKey, subjectID, "termination", "lifecycle", effective, None, modified, 0, 0, map[])
  }

  lemma TerminationParses()
    ensures ParseEventType("termination") == Some(Termination) && ParseSourceScope("lifecycle") == Some(Lifecycle)
  {
    TrimSpaceTrims("termination");
    TrimSpaceTrims("lifecycle");
    assert ToLower("termination") == "termination" && ToLower("lifecycle") == "lifecycle";
  }

  lemma TerminationIsCanonical(subjectID: string, eventKey: string, effective: Time, modified: Time, now: Time)
    requires subjectID != "" && Trimmed(subjectID) && eventKey != "" && Trimmed(eventKey)
    requires effective != ZERO_TIME && modified != ZERO_TIME
    ensures CanonicalForm(TerminationAt(subjectID, eventKey, effective, modified), now).Ok?
    ensures var f := CanonicalForm(TerminationAt(subjectID, eventKey, effective, modified), now).value;
            && Canonical(f) && f.subjectID == subjectID && f.eventKey == eventKey
            && f.eventType == Termination && f.sourceScope == Lifecycle
            && f.effectiveTime == effective && f.modificationTime == modified && f.endTime.None?
  {
    var e := TerminationAt(subjectID, eventKey, effective, modified);
    TrimSpaceTrims(subjectID);
    TrimSpaceTrims(eventKey);
    TerminationParses();
    assert NamesUnambiguous(AttributeValues(map[]));
    assert RejectionOf(e).None?;
    CanonicalFormFaithful(e, now);
  }

  // ---- Laws ----

  lemma NamesHaveNoSeparator(scope: SourceScope, eventType: EventType)
    ensures SEPARATOR !in scope.Name() && SEPARATOR !in eventType.Name()
  {
  }

  lemma NamesInjective(s: SourceScope, s': SourceScope, t: EventType, t': EventType)
    ensures s.Name() == s'.Name() ==> s == s'
    ensures t.Name() == t'.Name() ==> t == t'
  {
  }

  /** A fact key determines its four parts, whatever the subject ID contains. */
  lemma FactKeyInjective(
    subject: string, scope: SourceScope, eventType: EventType, t: Time, subject': string, scope': SourceScope,
    eventType': EventType, t': Time)
    requires MakeFactKey(subject, scope, eventType, t) == MakeFactKey(subject', scope', eventType', t')
    ensures subject == subject' && scope == scope' && eventType == eventType' && t == t'
  {
    NamesHaveNoSeparator(scope, eventType);
    NamesHaveNoSeparator(scope', eventType');
    Rfc3339.FormatPlain(t);
    Rfc3339.FormatPlain(t');
    var a, a' := subject + [SEPARATOR] + scope.Name(), subject' + [SEPARATOR] + scope'.Name();
    var b, b' := a + [SEPARATOR] + eventType.Name(), a' + [SEPARATOR] + eventType'.Name();
    SplitAtLast(b, Rfc3339.Format(t), b', Rfc3339.Format(t'), SEPARATOR);
    SplitAtLast(a, eventType.Name(), a', eventType'.Name(), SEPARATOR);
    SplitAtLast(subject, scope.Name(), subject', scope'.Name(), SEPARATOR);
    NamesInjective(scope, scope', eventType, eventType');
    Rfc3339.FormatInjective(t, t');
  }

  /** Redelivery is recognizable: the event key and the payload hash fix
      everything about a fact but when it was received. */
  lemma HashDeterminesFact(f: CanonicalFact, g: CanonicalFact)
    requires Canonical(f) && Canonical(g) && f.eventKey == g.eventKey && f.payloadHash == g.payloadHash
    ensures f.(receivedAt := g.receivedAt) == g
  {
    Rfc3339.FormatInjective(f.effectiveTime, g.effectiveTime);
    Rfc3339.FormatInjective(f.modificationTime, g.modificationTime);
    if f.endTime.Some? && g.endTime.Some? {
      Rfc3339.FormatInjective(f.endTime.value, g.endTime.value);
    }
    assert f.freshness == g.freshness;
  }
}
