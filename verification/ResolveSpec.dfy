/** What resolving a batch means, stated on the set of facts a batch delivers
    and so without an order of delivery, of map iteration or of sorting. */
module ResolveSpec {
  import opened Base
  import opened Model
  import opened Canonicalization
  import opened Policies

  datatype BatchError =
    | BadPolicy(cause: PolicyError)
    | BadEvent(eventKey: string, rejection: Rejection)
    | EventKeyReused(eventKey: string)

  datatype BatchResult = BatchResult(decisions: seq<EventResolution>, projections: map<string, IdentityProjection>)

  // ---- The facts of a batch ----

  /** One delivered event: the key it came with and what canonicalization made of it. */
  datatype Delivery = Delivery(rawKey: string, form: Result<CanonicalFact, Rejection>)

  ghost function Deliver(e: PhysicalEvent, now: Time): Delivery {
    Delivery(e.eventKey, CanonicalForm(e, now))
  }

  ghost function Deliveries(events: seq<PhysicalEvent>, now: Time): (ds: seq<Delivery>)
    ensures |ds| == |events|
  {
    if events == [] then []
    else Deliveries(events[..|events| - 1], now) + [Deliver(events[|events| - 1], now)]
  }

  lemma {:induction false} DeliveryAt(events: seq<PhysicalEvent>, now: Time, i: nat)
    requires i < |events|
    ensures Deliveries(events, now)[i] == Deliver(events[i], now)
  {
    if i < |events| - 1 {
      DeliveryAt(events[..|events| - 1], now, i);
    }
  }

  ghost predicate AllCanonicalized(ds: seq<Delivery>) {
    forall d :: d in ds ==> d.form.Ok?
  }

  /** The canonical fact of each delivery, redeliveries included. */
  ghost function FactsOf(ds: seq<Delivery>): (facts: seq<CanonicalFact>)
    requires AllCanonicalized(ds)
    ensures |facts| == |ds|
  {
    seq(|ds|, i requires 0 <= i < |ds| => ds[i].form.value)
  }

  ghost predicate KeysUnique(s: set<CanonicalFact>) {
    forall f, g :: f in s && g in s && f.eventKey == g.eventKey ==> f == g
  }

  /** The batch is resolvable: every event is valid, and no event key is used
      for two different events. */
  ghost predicate BatchOk(ds: seq<Delivery>) {
    AllCanonicalized(ds) && KeysUnique(Elements(FactsOf(ds)))
  }

  ghost predicate Reuses(facts: seq<CanonicalFact>, f: CanonicalFact) {
    exists g :: g in facts && g.eventKey == f.eventKey && g != f
  }

  /** Why the next delivery fails a batch that was fine so far, if it does. */
  ghost function FailureAt(before: seq<Delivery>, d: Delivery): Option<BatchError>
    requires AllCanonicalized(before)
  {
    match d.form
    case Err(rejection) => Some(BadEvent(d.rawKey, rejection))
    case Ok(f) => if Reuses(FactsOf(before), f) then Some(EventKeyReused(f.eventKey)) else None
  }

  /** The first failure in delivery order. */
  ghost function FailureOf(ds: seq<Delivery>): (r: Option<BatchError>)
    ensures r.None? ==> AllCanonicalized(ds)
  {
    if ds == [] then None
    else
      var init, last := ds[..|ds| - 1], ds[|ds| - 1];
      assert ds == init + [last];
      var failed := FailureOf(init);
      if failed.Some? then failed else FailureAt(init, last)
  }

  // ---- Winners ----

  /** No revision of the same logical fact is fresher. */
  ghost predicate Winner(s: set<CanonicalFact>, f: CanonicalFact) {
    f in s && forall g :: g in s && g.factKey == f.factKey ==> g.freshness.Compare(f.freshness) <= 0
  }

  ghost function Winners(s: set<CanonicalFact>): set<CanonicalFact> {
    set f | f in s && Winner(s, f)
  }

  /** Only winners are put to the policy, so an older revision never stands in
      for a winner the policy turned down. */
  ghost function AcceptedFacts(s: set<CanonicalFact>, p: Policy): set<CanonicalFact> {
    set f | f in s && Winner(s, f) && p.Accepts(f)
  }

  // ---- Decisions ----

  function Resolution(f: CanonicalFact, action: DecisionAction, reason: ReasonCode): EventResolution {
    EventResolution(f.eventKey, f.factKey, action, reason, f)
  }

  ghost function DecisionFor(s: set<CanonicalFact>, p: Policy, f: CanonicalFact): EventResolution {
    if Winner(s, f) then Resolution(f, p.Decide(f).0, p.Decide(f).1) else Resolution(f, Skip, DuplicateOrOlder)
  }

  ghost function FactSet(m: multiset<CanonicalFact>): set<CanonicalFact> {
    set f | f in m
  }

  /** How often a decision is recorded: one per distinct fact, and one
      duplicate_delivery for every further delivery of it. */
  ghost function ExpectedCount(d: EventResolution, delivered: multiset<CanonicalFact>, p: Policy): nat {
    if d.fact !in delivered then 0
    else if d == Resolution(d.fact, Skip, DuplicateDelivery) then delivered[d.fact] - 1
    else if d == DecisionFor(FactSet(delivered), p, d.fact) then 1
    else 0
  }

  predicate ResolutionLess(a: EventResolution, b: EventResolution) {
    if a.eventKey != b.eventKey then StrLess(a.eventKey, b.eventKey) else StrLess(a.factKey, b.factKey)
  }

  // ---- Projections ----

  /** Ascending effective time, then freshness, event type and event key. */
  predicate FactLess(a: CanonicalFact, b: CanonicalFact) {
    if a.effectiveTime < b.effectiveTime then true
    else if a.effectiveTime > b.effectiveTime then false
    else if a.freshness.Compare(b.freshness) != 0 then a.freshness.Compare(b.freshness) < 0
    else if a.eventType != b.eventType then StrLess(a.eventType.Name(), b.eventType.Name())
    else StrLess(a.eventKey, b.eventKey)
  }

  /** The lifecycle state a state-changing event leaves behind. */
  function StateAfter(t: EventType): LifecycleState
    requires t.ChangesState()
  {
    match t
    case Leave => OnLeave
    case Termination => Terminated
    case _ => Active
  }

  ghost function OfSubject(s: set<CanonicalFact>, subject: string): set<CanonicalFact> {
    set f | f in s && f.subjectID == subject
  }

  ghost function Carrying(s: set<CanonicalFact>, name: string): set<CanonicalFact> {
    set f | f in s && name in f.attributes
  }

  ghost function StateChanging(s: set<CanonicalFact>): set<CanonicalFact> {
    set f | f in s && f.eventType.ChangesState()
  }

  ghost function Latest(s: set<CanonicalFact>): (f: CanonicalFact)
    requires s != {}
    ensures IsMaximal(s, FactLess, f)
  {
    FactLessOrdered();
    MaximalExists(s, FactLess);
    var f :| IsMaximal(s, FactLess, f);
    f
  }

  ghost function AttributeNames(s: set<CanonicalFact>): set<string> {
    set f, k | f in s && k in f.attributes :: k
  }

  ghost function LatestAttributes(s: set<CanonicalFact>): map<string, string> {
    map k | k in AttributeNames(s) :: LatestValue(s, k)
  }

  ghost function LatestValue(s: set<CanonicalFact>, k: string): string
    requires k in AttributeNames(s)
  {
    var f0 :| f0 in s && k in f0.attributes;
    assert f0 in Carrying(s, k);
    Latest(Carrying(s, k)).attributes[k]
  }

  ghost function LatestState(s: set<CanonicalFact>): LifecycleState {
    if StateChanging(s) == {} then Unset else StateAfter(Latest(StateChanging(s)).eventType)
  }

  /** One subject's projection: every attribute from the last fact that carries
      it, lifecycle from the last fact that changes it, provenance from the last fact. */
  ghost function LastWriter(s: set<CanonicalFact>): IdentityProjection
    requires s != {}
  {
    var last, state := Latest(s), LatestState(s);
    IdentityProjection(
      last.subjectID, state != Unset, state == Active, state, LatestAttributes(s),
      last.factKey, last.eventKey, last.effectiveTime, last.freshness, 0)
  }

  ghost function SubjectsOf(s: set<CanonicalFact>): set<string> {
    set f | f in s :: f.subjectID
  }

  ghost function ProjectionOf(accepted: set<CanonicalFact>, subject: string): IdentityProjection
    requires subject in SubjectsOf(accepted)
  {
    var f0 :| f0 in accepted && f0.subjectID == subject;
    assert f0 in OfSubject(accepted, subject);
    LastWriter(OfSubject(accepted, subject))
  }

  ghost function Projections(accepted: set<CanonicalFact>): map<string, IdentityProjection> {
    map subject | subject in SubjectsOf(accepted) :: ProjectionOf(accepted, subject)
  }

  /** What a result must be for the deliveries it was computed from. */
  ghost predicate Resolves(r: BatchResult, delivered: multiset<CanonicalFact>, p: Policy) {
    && (forall d :: multiset(r.decisions)[d] == ExpectedCount(d, delivered, p))
    && SortedBy(r.decisions, ResolutionLess)
    && r.projections == Projections(AcceptedFacts(FactSet(delivered), p))
  }

  /** The whole contract of ResolveBatch. */
  ghost predicate IsResultOf(r: Result<BatchResult, BatchError>, events: seq<PhysicalEvent>, p: Policy) {
    var ds := Deliveries(events, p.now);
    match r
    case Ok(batch) => p.Validate().None? && BatchOk(ds) && Resolves(batch, multiset(FactsOf(ds)), p)
    case Err(e) => if p.Validate().Some? then e == BadPolicy(p.Validate().value) else FailureOf(ds) == Some(e)
  }

  // ---- Order facts ----

  lemma FactLessOrdered()
    ensures StrictWeakOrder(FactLess)
  {
    forall a: CanonicalFact, b: CanonicalFact ensures FactLess(a, b) ==> !FactLess(b, a) {
      FactLessCases(a, b);
    }
    forall a: CanonicalFact, b: CanonicalFact, c: CanonicalFact
      | !FactLess(a, b) && !FactLess(b, c)
      ensures !FactLess(a, c)
    {
      NotFactLessTransitive(a, b, c);
    }
  }

  lemma FactLessCases(a: CanonicalFact, b: CanonicalFact)
    ensures FactLess(a, b) ==> !FactLess(b, a)
    ensures !FactLess(a, b) && !FactLess(b, a)
            ==> a.effectiveTime == b.effectiveTime && a.freshness == b.freshness && a.eventKey == b.eventKey
  {
    CompareTotal(a.freshness, b.freshness);
    NamesInjective(HireSnapshot, HireSnapshot, a.eventType, b.eventType);
    StrLessTrichotomy(a.eventType.Name(), b.eventType.Name());
    StrLessTrichotomy(a.eventKey, b.eventKey);
  }

  lemma NotFactLessTransitive(a: CanonicalFact, b: CanonicalFact, c: CanonicalFact)
    requires !FactLess(a, b) && !FactLess(b, c)
    ensures !FactLess(a, c)
  {
    if a.effectiveTime == b.effectiveTime == c.effectiveTime {
      CompareTotal(a.freshness, b.freshness);
      CompareTotal(b.freshness, c.freshness);
      CompareTotal(a.freshness, c.freshness);
      if a.freshness != b.freshness && b.freshness != c.freshness {
        CompareTransitive(c.freshness, b.freshness, a.freshness);
      } else if a.freshness == b.freshness == c.freshness {
        NotTieLessTransitive(a, b, c);
      }
    }
  }

  lemma NotTieLessTransitive(a: CanonicalFact, b: CanonicalFact, c: CanonicalFact)
    requires a.effectiveTime == b.effectiveTime == c.effectiveTime && a.freshness == b.freshness == c.freshness
    requires !FactLess(a, b) && !FactLess(b, c)
    ensures !FactLess(a, c)
  {
    NamesInjective(HireSnapshot, HireSnapshot, a.eventType, b.eventType);
    NamesInjective(HireSnapshot, HireSnapshot, b.eventType, c.eventType);
    CompareTotal(a.freshness, a.freshness);
    StrLessOrdered();
    StrLessTrichotomy(a.eventType.Name(), b.eventType.Name());
    StrLessTrichotomy(b.eventType.Name(), c.eventType.Name());
    StrLessTrichotomy(a.eventType.Name(), c.eventType.Name());
  }

  lemma ResolutionLessOrdered()
    ensures StrictWeakOrder(ResolutionLess)
  {
    StrLessOrdered();
    forall a: EventResolution, b: EventResolution, c: EventResolution
      | !ResolutionLess(a, b) && !ResolutionLess(b, c)
      ensures !ResolutionLess(a, c)
    {
      StrLessTrichotomy(a.eventKey, b.eventKey);
      StrLessTrichotomy(b.eventKey, c.eventKey);
      StrLessTrichotomy(a.eventKey, c.eventKey);
    }
  }

  /** Freshness carries the event key, as in every canonical fact. */
  ghost predicate Stamped(s: set<CanonicalFact>) {
    forall f :: f in s ==> f.freshness.physicalEventKey == f.eventKey
  }

  /** Deduplicated facts are totally ordered, so an unstable sort has one result
      and the latest fact is unique. */
  lemma LatestUnique(s: set<CanonicalFact>, f: CanonicalFact)
    requires Stamped(s) && KeysUnique(s) && IsMaximal(s, FactLess, f)
    ensures Latest(s) == f
  {
    FactLessCases(f, Latest(s));
  }

  /** A batch has exactly one freshest revision of each logical fact. */
  lemma WinnerUnique(s: set<CanonicalFact>, f: CanonicalFact, g: CanonicalFact)
    requires Stamped(s) && KeysUnique(s) && Winner(s, f) && Winner(s, g) && f.factKey == g.factKey
    ensures f == g
  {
    CompareTotal(f.freshness, g.freshness);
  }

  // ---- The success condition ----

  lemma FactsAppend(ds: seq<Delivery>, d: Delivery)
    requires AllCanonicalized(ds) && d.form.Ok?
    ensures AllCanonicalized(ds + [d])
    ensures FactsOf(ds + [d]) == FactsOf(ds) + [d.form.value]
    ensures Elements(FactsOf(ds + [d])) == Elements(FactsOf(ds)) + {d.form.value}
  {
  }

  /** The scan fails exactly on batches that are not resolvable. */
  lemma {:induction false} FailsIffNotOk(ds: seq<Delivery>)
    ensures FailureOf(ds).None? <==> BatchOk(ds)
  {
    if ds != [] {
      var init, last := ds[..|ds| - 1], ds[|ds| - 1];
      assert ds == init + [last];
      FailsIffNotOk(init);
      if AllCanonicalized(init) && last.form.Ok? {
        FactsAppend(init, last);
      }
    }
  }

  lemma {:induction false} FailurePersists(ds: seq<Delivery>, n: nat)
    requires n <= |ds| && FailureOf(ds[..n]).Some?
    ensures FailureOf(ds) == FailureOf(ds[..n])
  {
    if n == |ds| {
      assert ds[..n] == ds;
    } else {
      var init := ds[..|ds| - 1];
      assert init[..n] == ds[..n];
      FailurePersists(init, n);
    }
  }

  /** Of two facts delivered in one batch under one event key, either the hash
      differs or they are the same fact. */
  lemma ReuseShowsInTheHash(e: PhysicalEvent, e': PhysicalEvent, now: Time)
    requires CanonicalForm(e, now).Ok? && CanonicalForm(e', now).Ok?
    ensures var f, g := CanonicalForm(e, now).value, CanonicalForm(e', now).value;
            f.eventKey == g.eventKey && f.payloadHash == g.payloadHash <==> f == g
  {
    var f, g := CanonicalForm(e, now).value, CanonicalForm(e', now).value;
    CanonicalFormFaithful(e, now);
    CanonicalFormFaithful(e', now);
    if f.eventKey == g.eventKey && f.payloadHash == g.payloadHash {
      HashDeterminesFact(f, g);
    }
  }

  lemma FactSetOfSeq(facts: seq<CanonicalFact>)
    ensures FactSet(multiset(facts)) == Elements(facts)
  {
  }

  /** What the resolver needs of the facts of a batch. */
  lemma BatchFacts(events: seq<PhysicalEvent>, now: Time)
    requires AllCanonicalized(Deliveries(events, now))
    ensures var s := Elements(FactsOf(Deliveries(events, now)));
            Stamped(s) && forall f :: f in s ==> Canonical(f)
  {
    var ds := Deliveries(events, now);
    forall i | 0 <= i < |ds|
      ensures Canonical(FactsOf(ds)[i]) && FactsOf(ds)[i].freshness.physicalEventKey == FactsOf(ds)[i].eventKey
    {
      DeliveryAt(events, now, i);
      CanonicalFormFaithful(events[i], now);
    }
  }
}
