/** What canonicalization accepts and says, in terms of the event's own text,
    times and payload. */
module CanonicalizationLaws {
  import opened Base
  import opened Text
  import opened Model
  import opened Canonicalization
  import Rfc3339

  // ---- Acceptance ----

  /** The attribute object of a payload, if it has one. */
  predicate HasAttributes(payload: map<string, Value>) {
    "attributes" in payload && payload["attributes"].Object?
  }

  /** An event is accepted exactly if its identifiers are not blank, its type
      and scope are known names in any casing and spacing, its times are set,
      its counters are not negative, and its attribute names are non-blank and
      distinct once trimmed. */
  lemma AcceptedExactly(e: PhysicalEvent, receivedAt: Time)
    ensures CanonicalForm(e, receivedAt).Ok? <==>
      && TrimSpace(e.subjectID) != "" && TrimSpace(e.eventKey) != ""
      && ToLower(TrimSpace(e.eventType)) in {"hire", "rehire", "data_update", "leave", "return_from_leave",
                                             "conversion", "transfer", "termination"}
      && ToLower(TrimSpace(e.sourceScope)) in {"hire_snapshot", "lifecycle"}
      && e.effectiveTime != 0 && e.modificationTime != 0 && e.sourceSequence >= 0 && e.revisionNumber >= 0
      && (HasAttributes(e.payload) ==>
            var fields := e.payload["attributes"].fields;
            && (forall k :: k in fields ==> TrimSpace(k) != "")
            && (forall k, k' :: k in fields && k' in fields && k != k' ==> TrimSpace(k) != TrimSpace(k')))
  {
  }

  /** Otherwise the error names the first thing that is wrong. */
  lemma RefusedForTheFirstReason(e: PhysicalEvent, receivedAt: Time)
    requires CanonicalForm(e, receivedAt).Err?
    ensures var reason := CanonicalForm(e, receivedAt).error;
            var identified := TrimSpace(e.subjectID) != "" && TrimSpace(e.eventKey) != "";
            var named := identified && ParseEventType(e.eventType).Some? && ParseSourceScope(e.sourceScope).Some?;
            var timed := named && e.effectiveTime != 0 && e.modificationTime != 0;
            match reason
            case SubjectRequired => TrimSpace(e.subjectID) == ""
            case EventKeyRequired => TrimSpace(e.subjectID) != "" && TrimSpace(e.eventKey) == ""
            case UnsupportedEventType(raw) => identified && raw == e.eventType && ParseEventType(raw).None?
            case UnsupportedSourceScope(raw) =>
              && identified && ParseEventType(e.eventType).Some?
              && raw == e.sourceScope && ParseSourceScope(raw).None?
            case EffectiveTimeRequired => named && e.effectiveTime == 0
            case ModificationTimeRequired => named && e.effectiveTime != 0 && e.modificationTime == 0
            case NegativeSequence => timed && e.sourceSequence < 0
            case NegativeRevision => timed && e.sourceSequence >= 0 && e.revisionNumber < 0
            case BadAttributes(cause) =>
              && timed && e.sourceSequence >= 0 && e.revisionNumber >= 0
              && HasAttributes(e.payload) && FirstBadName(e.payload["attributes"].fields, cause)
  {
    if !NamesUnambiguous(AttributeValues(e.payload)) {
      FirstOffenceIsBad(AttributeValues(e.payload));
    }
  }

  /** The key an attribute error is about. */
  function BadKey(cause: AttributeError): string {
    match cause
    case EmptyName(key) => key
    case AmbiguousNames(_, key, _) => key
  }

  /** The error is about a key with a blank name, or with the name of an earlier
      key; and up to that key, in lexical order, all names are fine. */
  ghost predicate FirstBadName(fields: map<string, Value>, cause: AttributeError) {
    && BadKey(cause) in fields
    && (match cause
        case EmptyName(key) => TrimSpace(key) == ""
        case AmbiguousNames(previous, key, name) =>
          && previous in fields && StrLess(previous, key)
          && TrimSpace(previous) == name && TrimSpace(key) == name && name != "")
    && NamesFine(fields, set k | k in fields && StrLess(k, BadKey(cause)))
  }

  ghost predicate NamesFine(fields: map<string, Value>, keys: set<string>) {
    && (forall k :: k in keys ==> TrimSpace(k) != "")
    && (forall k, k' :: k in keys && k' in keys && k != k' ==> TrimSpace(k) != TrimSpace(k'))
  }

  lemma FirstOffenceIsBad(values: map<string, Value>)
    requires !NamesUnambiguous(values)
    ensures FirstBadName(values, OffenceAt(values, FirstOffender(values)))
  {
    var key := FirstOffender(values);
    forall k | k in values && StrLess(k, key) ensures !Offends(values, k) {
    }
    forall k, k' | k in values && k' in values && k != k' && StrLess(k, key) && StrLess(k', key)
      ensures TrimSpace(k) != TrimSpace(k')
    {
      StrLessTrichotomy(k, k');
    }
  }

  lemma ScalarsAreAttributes(values: map<string, Value>, k: string)
    requires NamesUnambiguous(values) && k in values
    ensures IsAttribute(values[k], ScalarAttributes(values), TrimSpace(k))
  {
    var attributes := ScalarAttributes(values);
    if TrimSpace(k) in attributes {
      var k' :| k' in values && ScalarString(values[k']).Some? && TrimSpace(k') == TrimSpace(k);
      assert k' == k;
    }
  }

  // ---- Contents ----

  /** Every field of a fact but its attributes, said from the event. */
  lemma FactSaysWhatTheEventSays(e: PhysicalEvent, receivedAt: Time)
    requires CanonicalForm(e, receivedAt).Ok?
    ensures var f := CanonicalForm(e, receivedAt).value;
            var subjectID, eventKey := TrimSpace(e.subjectID), TrimSpace(e.eventKey);
            var scope, eventType := ToLower(TrimSpace(e.sourceScope)), ToLower(TrimSpace(e.eventType));
            && f.subjectID == subjectID && f.eventKey == eventKey
            && f.sourceScope.Name() == scope && f.eventType.Name() == eventType
            && f.effectiveTime == e.effectiveTime && f.endTime == e.endTime
            && f.modificationTime == e.modificationTime
            && f.receivedAt == (if receivedAt == 0 then e.modificationTime else receivedAt)
            && f.freshness == FreshnessTuple(e.sourceSequence, e.modificationTime, e.revisionNumber, eventKey)
            && f.payload == e.payload
            && f.factKey == subjectID + "\U{1f}" + scope + "\U{1f}" + eventType + "\U{1f}"
                            + Rfc3339.Format(e.effectiveTime)
  {
    ParsingInvertsNames(e.eventType, ParseEventType(e.eventType).value, ParseSourceScope(e.sourceScope).value);
    ParsingInvertsNames(e.sourceScope, ParseEventType(e.eventType).value, ParseSourceScope(e.sourceScope).value);
  }

  /** The attributes of a fact are the scalars under "attributes" in its event's
      payload, by their trimmed names: strings as they are, booleans spelled
      out, numbers as they were written. Nothing else is an attribute. */
  lemma AttributesAreThePayloads(e: PhysicalEvent, receivedAt: Time)
    requires CanonicalForm(e, receivedAt).Ok?
    ensures SaysAttributes(e.payload, CanonicalForm(e, receivedAt).value.attributes)
  {
    CanonicalFormFaithful(e, receivedAt);
    ExtractedSay(e.payload, CanonicalForm(e, receivedAt).value.attributes);
  }

  ghost predicate SaysAttributes(payload: map<string, Value>, attributes: map<string, string>) {
    && (!HasAttributes(payload) ==> attributes == map[])
    && (HasAttributes(payload) ==>
          var fields := payload["attributes"].fields;
          && (forall k :: k in fields ==> IsAttribute(fields[k], attributes, TrimSpace(k)))
          && (forall name :: name in attributes ==> exists k :: k in fields && TrimSpace(k) == name))
  }

  lemma ExtractedSay(payload: map<string, Value>, attributes: map<string, string>)
    requires ExtractedAttributes(payload) == Ok(attributes)
    ensures SaysAttributes(payload, attributes)
  {
    if HasAttributes(payload) {
      var fields := payload["attributes"].fields;
      assert AttributeValues(payload) == fields;
      forall k | k in fields ensures IsAttribute(fields[k], attributes, TrimSpace(k)) {
        ScalarsAreAttributes(fields, k);
      }
    }
  }

  /** How a payload value shows among the attributes. */
  predicate IsAttribute(v: Value, attributes: map<string, string>, name: string) {
    match v
    case Str(s) => name in attributes && attributes[name] == s
    case Bool(b) => name in attributes && attributes[name] == (if b then "true" else "false")
    case Number(text) => name in attributes && attributes[name] == text
    case Null => name !in attributes
    case Array(_) => name !in attributes
    case Object(_) => name !in attributes
  }
}
