/** What a batch result says about the events of the batch: one decision for
    each delivery, and projections that follow from the decisions. */
module ProjectionLaws {
  import opened Base
  import opened Model
  import opened Canonicalization
  import opened Policies
  import opened ResolveSpec
  import opened ResolverLaws

  // ---- Success and failure ----

  /** The canonical facts of the events that canonicalize. */
  ghost function DeliveredFacts(events: seq<PhysicalEvent>, now: Time): set<CanonicalFact> {
    set i | 0 <= i < |events| && CanonicalForm(events[i], now).Ok? :: CanonicalForm(events[i], now).value
  }

  /** One event key stands for two different facts. */
  ghost predicate KeyReused(s: set<CanonicalFact>) {
    exists f, g :: f in s && g in s && f.eventKey == g.eventKey && f != g
  }

  lemma CanonicalizedIff(events: seq<PhysicalEvent>, now: Time)
    ensures AllCanonicalized(Deliveries(events, now))
       <==> forall i :: 0 <= i < |events| ==> CanonicalForm(events[i], now).Ok?
  {
    var ds := Deliveries(events, now);
    forall i | 0 <= i < |events| ensures ds[i].form == CanonicalForm(events[i], now) {
      DeliveryAt(events, now, i);
    }
    if AllCanonicalized(ds) {
      forall i | 0 <= i < |events| ensures CanonicalForm(events[i], now).Ok? {
        assert ds[i] in ds;
      }
    }
  }

  lemma FactAt(events: seq<PhysicalEvent>, now: Time, i: nat)
    requires AllCanonicalized(Deliveries(events, now)) && i < |events|
    ensures CanonicalForm(events[i], now) == Ok(FactsOf(Deliveries(events, now))[i])
  {
    DeliveryAt(events, now, i);
    assert Deliveries(events, now)[i] in Deliveries(events, now);
  }

  lemma DeliveredAreTheFacts(events: seq<PhysicalEvent>, now: Time)
    requires AllCanonicalized(Deliveries(events, now))
    ensures DeliveredFacts(events, now) == Elements(FactsOf(Deliveries(events, now)))
  {
    var facts := FactsOf(Deliveries(events, now));
    forall i | 0 <= i < |events| ensures CanonicalForm(events[i], now) == Ok(facts[i]) {
      FactAt(events, now, i);
    }
    assert forall f :: f in facts ==> f in DeliveredFacts(events, now);
  }

  /** A batch is resolved if and only if the clock is set, no window is
      negative, every event canonicalizes, and no event key stands for two
      different facts. */
  lemma ResolvedIff(events: seq<PhysicalEvent>, p: Policy, r: Result<BatchResult, BatchError>)
    requires IsResultOf(r, events, p)
    ensures r.Ok? <==>
      && p.now != 0 && p.retroactiveWindow >= 0 && p.hireWindow >= 0 && p.pastEndGrace >= 0
      && (forall i :: 0 <= i < |events| ==> CanonicalForm(events[i], p.now).Ok?)
      && !KeyReused(DeliveredFacts(events, p.now))
  {
    SucceedsIffOk(events, p, r);
    CanonicalizedIff(events, p.now);
    if AllCanonicalized(Deliveries(events, p.now)) {
      DeliveredAreTheFacts(events, p.now);
    }
  }

  lemma {:induction false} DeliveriesPrefix(events: seq<PhysicalEvent>, now: Time, n: nat)
    requires n <= |events|
    ensures Deliveries(events, now)[..n] == Deliveries(events[..n], now)
  {
    if n == |events| {
      assert events[..n] == events;
    } else {
      var init := events[..|events| - 1];
      assert init[..n] == events[..n];
      DeliveriesPrefix(init, now, n);
    }
  }

  lemma {:induction false} FirstFailure(ds: seq<Delivery>) returns (n: nat)
    requires FailureOf(ds).Some?
    ensures n < |ds| && FailureOf(ds[..n]).None? && FailureAt(ds[..n], ds[n]) == FailureOf(ds)
  {
    var init := ds[..|ds| - 1];
    if FailureOf(init).Some? {
      n := FirstFailure(init);
      assert init[..n] == ds[..n];
    } else {
      n := |init|;
    }
  }

  /** With a valid policy, a batch fails at its first bad event: those before it
      are fine, and it either does not canonicalize or reuses an earlier key. */
  lemma FailsAtTheFirst(events: seq<PhysicalEvent>, p: Policy, e: BatchError) returns (n: nat)
    requires IsResultOf(Err(e), events, p) && p.Validate().None?
    ensures n < |events| && !KeyReused(DeliveredFacts(events[..n], p.now))
    ensures forall i :: 0 <= i < n ==> CanonicalForm(events[i], p.now).Ok?
    ensures FailsWith(DeliveredFacts(events[..n], p.now), events[n].eventKey, CanonicalForm(events[n], p.now), e)
  {
    var ds := Deliveries(events, p.now);
    n := FirstFailure(ds);
    DeliveriesPrefix(events, p.now, n);
    DeliveryAt(events, p.now, n);
    FailsIffNotOk(ds[..n]);
    DeliveredAreTheFacts(events[..n], p.now);
    FailureSays(ds[..n], ds[n], e);
    forall i | 0 <= i < n ensures CanonicalForm(events[i], p.now).Ok? {
      FactAt(events[..n], p.now, i);
    }
  }

  /** Why an event fails a batch whose facts so far are these. */
  ghost predicate FailsWith(
    before: set<CanonicalFact>, rawKey: string, form: Result<CanonicalFact, Rejection>, e: BatchError)
  {
    match form
    case Err(rejection) => e == BadEvent(rawKey, rejection)
    case Ok(g) => e == EventKeyReused(g.eventKey) && exists f :: f in before && f.eventKey == g.eventKey && f != g
  }

  lemma FailureSays(before: seq<Delivery>, d: Delivery, e: BatchError)
    requires AllCanonicalized(before) && FailureAt(before, d) == Some(e)
    ensures FailsWith(Elements(FactsOf(before)), d.rawKey, d.form, e)
  {
  }

  // ---- Decisions ----

  /** What each event canonicalizes to. */
  ghost function Forms(events: seq<PhysicalEvent>, now: Time): seq<Result<CanonicalFact, Rejection>> {
    seq(|events|, i requires 0 <= i < |events| => CanonicalForm(events[i], now))
  }

  /** How many events deliver a fact. */
  ghost function Times(events: seq<PhysicalEvent>, now: Time, f: CanonicalFact): nat {
    multiset(Forms(events, now))[Ok(f)]
  }

  lemma TimesIsCount(events: seq<PhysicalEvent>, now: Time, f: CanonicalFact)
    requires AllCanonicalized(Deliveries(events, now))
    ensures Times(events, now, f) == Bag(events, now)[f]
  {
    forall i | 0 <= i < |events| ensures Forms(events, now)[i] == Ok(FactsOf(Deliveries(events, now))[i]) {
      FactAt(events, now, i);
    }
    SameCounts(Forms(events, now), FactsOf(Deliveries(events, now)), f);
  }

  lemma {:induction false} SameCounts<T, E>(results: seq<Result<T, E>>, values: seq<T>, x: T)
    requires |results| == |values| && forall i :: 0 <= i < |values| ==> results[i] == Ok(values[i])
    ensures multiset(results)[Ok(x)] == multiset(values)[x]
  {
    if values != [] {
      var n := |values| - 1;
      SameCounts(results[..n], values[..n], x);
      assert results == results[..n] + [results[n]] && values == values[..n] + [values[n]];
    }
  }

  /** A revision of the same logical fact, that is of the same subject, scope,
      type and effective time, is fresher. */
  ghost predicate Superseded(s: set<CanonicalFact>, f: CanonicalFact) {
    exists g ::
      && g in s && g.subjectID == f.subjectID && g.sourceScope == f.sourceScope
      && g.eventType == f.eventType && g.effectiveTime == f.effectiveTime
      && f.freshness.OlderThan(g.freshness)
  }

  lemma SameKeyIff(f: CanonicalFact, g: CanonicalFact)
    requires Canonical(f) && Canonical(g)
    ensures g.factKey == f.factKey <==>
            && g.subjectID == f.subjectID && g.sourceScope == f.sourceScope
            && g.eventType == f.eventType && g.effectiveTime == f.effectiveTime
  {
    if g.factKey == f.factKey {
      FactKeyInjective(g.subjectID, g.sourceScope, g.eventType, g.effectiveTime,
                       f.subjectID, f.sourceScope, f.eventType, f.effectiveTime);
    }
  }

  lemma WinsIff(s: set<CanonicalFact>, f: CanonicalFact)
    requires f in s && forall g :: g in s ==> Canonical(g)
    ensures Winner(s, f) <==> !Superseded(s, f)
  {
    forall g | g in s ensures g.freshness.Compare(f.freshness) <= 0 <==> !f.freshness.OlderThan(g.freshness) {
      CompareTotal(f.freshness, g.freshness);
    }
    forall g | g in s
      ensures g.factKey == f.factKey <==>
              && g.subjectID == f.subjectID && g.sourceScope == f.sourceScope
              && g.eventType == f.eventType && g.effectiveTime == f.effectiveTime
    {
      SameKeyIff(f, g);
    }
  }

  /** The decisions of a batch, in key order. For each delivered fact there is
      the policy's answer, or skip/duplicate_or_older if a fresher revision was
      delivered, once; and skip/duplicate_delivery for each further delivery of
      it. There is nothing else. */
  lemma DecisionsSay(events: seq<PhysicalEvent>, p: Policy, batch: BatchResult)
    requires IsResultOf(Ok(batch), events, p)
    ensures var s := DeliveredFacts(events, p.now);
            && (forall f :: f in s ==> DecidedOn(multiset(batch.decisions), s, p, f, Times(events, p.now, f)))
            && (forall d :: d in batch.decisions ==> DecidedFor(s, p, d))
    ensures forall i, j :: 0 <= i < j < |batch.decisions| ==>
              var a, b := batch.decisions[i], batch.decisions[j];
              a.eventKey == b.eventKey || StrLess(a.eventKey, b.eventKey)
  {
    ResultSays(events, p, Ok(batch));
    DeliveredAreTheFacts(events, p.now);
    FactsAreDecided(batch, Bag(events, p.now), p);
    DecisionsHaveFacts(batch, Bag(events, p.now), p);
    InKeyOrder(batch.decisions);
    forall f | f in DeliveredFacts(events, p.now)
      ensures DecidedOn(
                multiset(batch.decisions), DeliveredFacts(events, p.now), p, f, Times(events, p.now, f))
    {
      TimesIsCount(events, p.now, f);
    }
  }

  lemma FactsAreDecided(batch: BatchResult, m: multiset<CanonicalFact>, p: Policy)
    requires Resolves(batch, m, p) && p.Validate().None? && forall g :: g in FactSet(m) ==> Canonical(g)
    ensures forall f :: f in FactSet(m) ==> DecidedOn(multiset(batch.decisions), FactSet(m), p, f, m[f])
  {
    forall f | f in FactSet(m) ensures DecidedOn(multiset(batch.decisions), FactSet(m), p, f, m[f]) {
      WinsIff(FactSet(m), f);
      FactIsDecided(batch, m, p, f);
    }
  }

  lemma DecisionsHaveFacts(batch: BatchResult, m: multiset<CanonicalFact>, p: Policy)
    requires Resolves(batch, m, p) && p.Validate().None? && forall g :: g in FactSet(m) ==> Canonical(g)
    ensures forall d :: d in batch.decisions ==> DecidedFor(FactSet(m), p, d)
  {
    forall d | d in batch.decisions ensures DecidedFor(FactSet(m), p, d) {
      assert multiset(batch.decisions)[d] == ExpectedCount(d, m, p);
      WinsIff(FactSet(m), d.fact);
      DecisionHasAFact(batch, m, p, d);
    }
  }

  ghost predicate DecidedOn(
    counts: multiset<EventResolution>, s: set<CanonicalFact>, p: Policy, f: CanonicalFact, times: nat)
  {
    && counts[EventResolution(f.eventKey, f.factKey, Skip, DuplicateDelivery, f)] == times - 1
    && (if Superseded(s, f) then counts[EventResolution(f.eventKey, f.factKey, Skip, DuplicateOrOlder, f)] == 1
        else && p.Evaluate(f).Ok?
             && counts[EventResolution(f.eventKey, f.factKey, p.Evaluate(f).value.0, p.Evaluate(f).value.1, f)] == 1)
  }

  ghost predicate DecidedFor(s: set<CanonicalFact>, p: Policy, d: EventResolution) {
    && d.fact in s && d.eventKey == d.fact.eventKey && d.factKey == d.fact.factKey
    && ((d.action, d.reason) == (Skip, DuplicateDelivery)
        || (if Superseded(s, d.fact) then (d.action, d.reason) == (Skip, DuplicateOrOlder)
            else p.Evaluate(d.fact) == Ok((d.action, d.reason))))
  }

  lemma FactIsDecided(batch: BatchResult, m: multiset<CanonicalFact>, p: Policy, f: CanonicalFact)
    requires Resolves(batch, m, p) && p.Validate().None? && f in m
    requires Winner(FactSet(m), f) <==> !Superseded(FactSet(m), f)
    ensures DecidedOn(multiset(batch.decisions), FactSet(m), p, f, m[f])
  {
    var s, counts := FactSet(m), multiset(batch.decisions);
    NeverRedelivered(p, f);
    assert counts[DecisionFor(s, p, f)] == ExpectedCount(DecisionFor(s, p, f), m, p);
    assert counts[Resolution(f, Skip, DuplicateDelivery)]
        == ExpectedCount(Resolution(f, Skip, DuplicateDelivery), m, p);
  }

  lemma NeverRedelivered(p: Policy, f: CanonicalFact)
    ensures p.Decide(f) != (Skip, DuplicateDelivery)
  {
  }

  lemma DecisionHasAFact(batch: BatchResult, m: multiset<CanonicalFact>, p: Policy, d: EventResolution)
    requires Resolves(batch, m, p) && p.Validate().None? && d in batch.decisions
    requires Winner(FactSet(m), d.fact) <==> !Superseded(FactSet(m), d.fact)
    ensures DecidedFor(FactSet(m), p, d)
  {
    assert multiset(batch.decisions)[d] == ExpectedCount(d, m, p);
  }

  lemma InKeyOrder(decisions: seq<EventResolution>)
    requires SortedBy(decisions, ResolutionLess)
    ensures forall i, j :: 0 <= i < j < |decisions| ==>
              decisions[i].eventKey == decisions[j].eventKey || StrLess(decisions[i].eventKey, decisions[j].eventKey)
  {
    forall i, j | 0 <= i < j < |decisions|
      ensures decisions[i].eventKey == decisions[j].eventKey || StrLess(decisions[i].eventKey, decisions[j].eventKey)
    {
      StrLessTrichotomy(decisions[i].eventKey, decisions[j].eventKey);
    }
  }

  // ---- Projections ----

  /** The result says the fact is to be processed. */
  predicate Processed(batch: BatchResult, f: CanonicalFact) {
    exists d :: d in batch.decisions && d.fact == f && d.action == ProcessNow
  }

  lemma ProcessedIffAccepted(batch: BatchResult, m: multiset<CanonicalFact>, p: Policy, f: CanonicalFact)
    requires Resolves(batch, m, p)
    ensures Processed(batch, f) <==> f in AcceptedFacts(FactSet(m), p)
  {
    if d :| d in batch.decisions && d.fact == f && d.action == ProcessNow {
      assert multiset(batch.decisions)[d] == ExpectedCount(d, m, p);
    }
    if f in AcceptedFacts(FactSet(m), p) {
      var d := DecisionFor(FactSet(m), p, f);
      NeverRedelivered(p, f);
      assert multiset(batch.decisions)[d] == ExpectedCount(d, m, p);
    }
  }

  /** f takes effect after g: by effective time, and at one time by freshness. */
  predicate After(f: CanonicalFact, g: CanonicalFact) {
    f.effectiveTime > g.effectiveTime || (f.effectiveTime == g.effectiveTime && g.freshness.OlderThan(f.freshness))
  }

  /** Of the processed facts of a subject that matter here, f is the last. */
  ghost predicate LastProcessed(batch: BatchResult, subject: string, f: CanonicalFact, matters: CanonicalFact -> bool) {
    && Processed(batch, f) && f.subjectID == subject && matters(f)
    && forall g :: Processed(batch, g) && g.subjectID == subject && matters(g) && g != f ==> After(f, g)
  }

  /** What a processed event does to the account: existence, enablement and
      lifecycle state, or nothing. */
  function LifecycleOf(t: EventType): Option<(bool, bool, LifecycleState)> {
    match t
    case Hire => Some((true, true, Active))
    case Rehire => Some((true, true, Active))
    case Leave => Some((true, false, OnLeave))
    case ReturnFromLeave => Some((true, true, Active))
    case Termination => Some((true, false, Terminated))
    case DataUpdate => None
    case Conversion => None
    case Transfer => None
  }

  ghost predicate ProvenanceSaid(batch: BatchResult, subject: string, q: IdentityProjection) {
    exists f :: LastProcessed(batch, subject, f, (g: CanonicalFact) => true)
                && q.sourceFactKey == f.factKey && q.sourceEventKey == f.eventKey
                && q.effectiveTime == f.effectiveTime && q.freshness == f.freshness
  }

  ghost predicate AttributeSaid(batch: BatchResult, subject: string, q: IdentityProjection, name: string) {
    if name in q.attributes
    then exists f :: LastProcessed(batch, subject, f, (g: CanonicalFact) => name in g.attributes)
                     && q.attributes[name] == f.attributes[name]
    else forall f :: Processed(batch, f) && f.subjectID == subject ==> name !in f.attributes
  }

  ghost predicate LifecycleSaid(batch: BatchResult, subject: string, q: IdentityProjection) {
    || (exists f :: LastProcessed(batch, subject, f, (g: CanonicalFact) => LifecycleOf(g.eventType).Some?)
                    && LifecycleOf(f.eventType) == Some((q.present, q.enabled, q.lifecycleState)))
    || ((forall f :: Processed(batch, f) && f.subjectID == subject ==> LifecycleOf(f.eventType).None?)
        && !q.present && !q.enabled && q.lifecycleState == Unset)
  }

  ghost predicate ProjectionSaid(batch: BatchResult, subject: string) {
    && (subject in batch.projections <==> exists f :: Processed(batch, f) && f.subjectID == subject)
    && (subject in batch.projections ==>
          var q := batch.projections[subject];
          && q.subjectID == subject && q.rowVersion == 0
          && ProvenanceSaid(batch, subject, q) && LifecycleSaid(batch, subject, q)
          && forall name :: AttributeSaid(batch, subject, q, name))
  }

  /** Projections follow from the decisions. The projected subjects are those
      with a processed fact. Provenance is that of the processed fact that takes
      effect last; each attribute is that of the last one that carries it; and
      existence, enablement and lifecycle state are those of the last one that
      says anything about them. */
  lemma ProjectionsSay(events: seq<PhysicalEvent>, p: Policy, batch: BatchResult, subject: string)
    requires IsResultOf(Ok(batch), events, p)
    ensures ProjectionSaid(batch, subject)
  {
    ResultSays(events, p, Ok(batch));
    BatchFacts(events, p.now);
    ResolvedSays(batch, Bag(events, p.now), p, subject);
  }

  lemma ResolvedSays(batch: BatchResult, m: multiset<CanonicalFact>, p: Policy, subject: string)
    requires Resolves(batch, m, p) && Stamped(FactSet(m)) && KeysUnique(FactSet(m))
    ensures ProjectionSaid(batch, subject)
  {
    var accepted := AcceptedFacts(FactSet(m), p);
    forall f ensures Processed(batch, f) <==> f in accepted {
      ProcessedIffAccepted(batch, m, p, f);
    }
    if subject in batch.projections {
      ProjectionSays(batch, accepted, subject);
    }
  }

  lemma ProjectionSays(batch: BatchResult, accepted: set<CanonicalFact>, subject: string)
    requires forall f :: Processed(batch, f) <==> f in accepted
    requires Stamped(accepted) && KeysUnique(accepted) && subject in SubjectsOf(accepted)
    ensures var q := ProjectionOf(accepted, subject);
            && q.subjectID == subject && q.rowVersion == 0
            && ProvenanceSaid(batch, subject, q) && LifecycleSaid(batch, subject, q)
            && forall name :: AttributeSaid(batch, subject, q, name)
  {
    var q := ProjectionOf(accepted, subject);
    SaysProvenance(batch, accepted, subject);
    SaysLifecycle(batch, accepted, subject);
    forall name ensures AttributeSaid(batch, subject, q, name) {
      SaysAttribute(batch, accepted, subject, name);
    }
  }

  lemma LatestIsAfter(s: set<CanonicalFact>, g: CanonicalFact)
    requires Stamped(s) && KeysUnique(s) && g in s && g != Latest(s)
    ensures After(Latest(s), g)
  {
    FactLessCases(g, Latest(s));
    CompareTotal(g.freshness, Latest(s).freshness);
  }

  lemma LatestIsLast(
    batch: BatchResult, accepted: set<CanonicalFact>, subject: string, s: set<CanonicalFact>,
    matters: CanonicalFact -> bool)
    requires forall f :: Processed(batch, f) <==> f in accepted
    requires Stamped(accepted) && KeysUnique(accepted)
    requires s != {} && s == set f | f in accepted && f.subjectID == subject && matters(f)
    ensures LastProcessed(batch, subject, Latest(s), matters)
  {
    forall g | g in s && g != Latest(s) ensures After(Latest(s), g) {
      LatestIsAfter(s, g);
    }
  }

  lemma SaysProvenance(batch: BatchResult, accepted: set<CanonicalFact>, subject: string)
    requires forall f :: Processed(batch, f) <==> f in accepted
    requires Stamped(accepted) && KeysUnique(accepted) && subject in SubjectsOf(accepted)
    ensures ProvenanceSaid(batch, subject, ProjectionOf(accepted, subject))
    ensures ProjectionOf(accepted, subject).subjectID == subject && ProjectionOf(accepted, subject).rowVersion == 0
  {
    var mine := OfSubject(accepted, subject);
    var f0 :| f0 in accepted && f0.subjectID == subject;
    assert f0 in mine;
    LatestIsLast(batch, accepted, subject, mine, (g: CanonicalFact) => true);
  }

  lemma SaysAttribute(batch: BatchResult, accepted: set<CanonicalFact>, subject: string, name: string)
    requires forall f :: Processed(batch, f) <==> f in accepted
    requires Stamped(accepted) && KeysUnique(accepted) && subject in SubjectsOf(accepted)
    ensures AttributeSaid(batch, subject, ProjectionOf(accepted, subject), name)
  {
    var mine := OfSubject(accepted, subject);
    if f :| f in mine && name in f.attributes {
      var carrying := Carrying(mine, name);
      assert f in carrying;
      LatestIsLast(batch, accepted, subject, carrying, (g: CanonicalFact) => name in g.attributes);
    }
  }

  lemma SaysLifecycle(batch: BatchResult, accepted: set<CanonicalFact>, subject: string)
    requires forall f :: Processed(batch, f) <==> f in accepted
    requires Stamped(accepted) && KeysUnique(accepted) && subject in SubjectsOf(accepted)
    ensures LifecycleSaid(batch, subject, ProjectionOf(accepted, subject))
  {
    var mine := OfSubject(accepted, subject);
    var changing := StateChanging(mine);
    if changing != {} {
      LatestIsLast(batch, accepted, subject, changing, (g: CanonicalFact) => LifecycleOf(g.eventType).Some?);
    } else {
      forall f | f in accepted && f.subjectID == subject ensures LifecycleOf(f.eventType).None? {
        assert f in mine && f !in changing;
      }
    }
  }
}
