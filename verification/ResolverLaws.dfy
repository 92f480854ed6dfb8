/** What follows for callers of ResolveBatch: its result does not depend on
    delivery order, on other subjects, or on stale and repeated input. */
module ResolverLaws {
  import opened Base
  import opened Text
  import opened Model
  import opened Canonicalization
  import opened Policies
  import opened ResolveSpec

  ghost function Bag(events: seq<PhysicalEvent>, now: Time): multiset<CanonicalFact>
    requires AllCanonicalized(Deliveries(events, now))
  {
    multiset(FactsOf(Deliveries(events, now)))
  }

  lemma SucceedsIffOk(events: seq<PhysicalEvent>, p: Policy, r: Result<BatchResult, BatchError>)
    requires IsResultOf(r, events, p)
    ensures r.Ok? <==> p.Validate().None? && BatchOk(Deliveries(events, p.now))
  {
    FailsIffNotOk(Deliveries(events, p.now));
  }

  lemma SameCountsSameDecisions(a: seq<EventResolution>, b: seq<EventResolution>)
    requires forall d :: multiset(a)[d] == multiset(b)[d]
    ensures multiset(a) == multiset(b)
  {
  }

  lemma OneMoreDecision(a: seq<EventResolution>, b: seq<EventResolution>, extra: EventResolution)
    requires forall d :: multiset(b)[d] == multiset(a)[d] + if d == extra then 1 else 0
    ensures multiset(b) == multiset(a) + multiset{extra}
  {
  }

  /** What a successful result says, in terms of the facts delivered. */
  lemma ResultSays(events: seq<PhysicalEvent>, p: Policy, r: Result<BatchResult, BatchError>)
    requires IsResultOf(r, events, p) && r.Ok?
    ensures AllCanonicalized(Deliveries(events, p.now)) && Resolves(r.value, Bag(events, p.now), p)
    ensures var s := FactSet(Bag(events, p.now));
            s == Elements(FactsOf(Deliveries(events, p.now))) && KeysUnique(s) && forall f :: f in s ==> Canonical(f)
  {
    BatchFacts(events, p.now);
    FactSetOfSeq(FactsOf(Deliveries(events, p.now)));
  }

  // ---- Permutation invariance ----

  lemma DeliveriesPermute(events: seq<PhysicalEvent>, events': seq<PhysicalEvent>, now: Time)
    requires multiset(events) == multiset(events')
    ensures multiset(Deliveries(events, now)) == multiset(Deliveries(events', now))
  {
    forall i | 0 <= i < |events| ensures Deliveries(events, now)[i] == Deliver(events[i], now) {
      DeliveryAt(events, now, i);
    }
    forall i | 0 <= i < |events'| ensures Deliveries(events', now)[i] == Deliver(events'[i], now) {
      DeliveryAt(events', now, i);
    }
    MapPermutes(events, events', Deliveries(events, now), Deliveries(events', now), e => Deliver(e, now));
  }

  lemma FactsPermute(ds: seq<Delivery>, ds': seq<Delivery>)
    requires multiset(ds) == multiset(ds')
    ensures AllCanonicalized(ds) <==> AllCanonicalized(ds')
    ensures AllCanonicalized(ds) ==> multiset(FactsOf(ds)) == multiset(FactsOf(ds'))
    ensures BatchOk(ds) <==> BatchOk(ds')
  {
    PermutationElements(ds, ds');
    assert forall d :: d in ds <==> d in Elements(ds);
    assert forall d :: d in ds' <==> d in Elements(ds');
    if AllCanonicalized(ds) && ds != [] {
      var any := FactsOf(ds)[0];
      MapPermutes(ds, ds', FactsOf(ds), FactsOf(ds'), (d: Delivery) => if d.form.Ok? then d.form.value else any);
      PermutationElements(FactsOf(ds), FactsOf(ds'));
    }
  }

  /** Delivery order cannot change the outcome: both orders fail or both
      succeed, with equal projections and the same decisions. */
  lemma PermutationInvariance(
    events: seq<PhysicalEvent>, events': seq<PhysicalEvent>, p: Policy, r: Result<BatchResult, BatchError>,
    r': Result<BatchResult, BatchError>)
    requires multiset(events) == multiset(events')
    requires IsResultOf(r, events, p) && IsResultOf(r', events', p)
    ensures r.Ok? <==> r'.Ok?
    ensures r.Ok? ==> r.value.projections == r'.value.projections
                      && multiset(r.value.decisions) == multiset(r'.value.decisions)
  {
    SucceedsIffOk(events, p, r);
    SucceedsIffOk(events', p, r');
    DeliveriesPermute(events, events', p.now);
    FactsPermute(Deliveries(events, p.now), Deliveries(events', p.now));
    if r.Ok? {
      SameCountsSameDecisions(r.value.decisions, r'.value.decisions);
    }
  }

  // ---- Stale and repeated input ----

  /** One more delivery, at any position. */
  ghost predicate OneMore(events: seq<PhysicalEvent>, e: PhysicalEvent, events': seq<PhysicalEvent>) {
    multiset(events') == multiset(events) + multiset{e}
  }

  lemma OneMoreDelivery(
    events: seq<PhysicalEvent>, e: PhysicalEvent, events': seq<PhysicalEvent>, now: Time, f: CanonicalFact)
    requires OneMore(events, e, events') && CanonicalForm(e, now) == Ok(f) && AllCanonicalized(Deliveries(events, now))
    ensures AllCanonicalized(Deliveries(events', now)) && Bag(events', now) == Bag(events, now) + multiset{f}
    ensures BatchOk(Deliveries(events', now)) <==> KeysUnique(FactSet(Bag(events, now)) + {f})
  {
    var ds, d := Deliveries(events, now), Deliver(e, now);
    assert events + [e][..0] == events && (events + [e])[..|events|] == events;
    assert Deliveries(events + [e], now) == ds + [d];
    DeliveriesPermute(events + [e], events', now);
    FactsPermute(ds + [d], Deliveries(events', now));
    FactsAppend(ds, d);
    FactSetOfSeq(FactsOf(ds));
  }

  /** A redelivery never fails a batch, never changes a projection, and adds
      exactly one skip/duplicate_delivery decision. */
  lemma RedeliveryAddsOneSkip(
    events: seq<PhysicalEvent>, e: PhysicalEvent, events': seq<PhysicalEvent>, p: Policy, f: CanonicalFact,
    r: Result<BatchResult, BatchError>, r': Result<BatchResult, BatchError>)
    requires OneMore(events, e, events') && IsResultOf(r, events, p) && IsResultOf(r', events', p) && r.Ok?
    requires CanonicalForm(e, p.now) == Ok(f) && f in FactsOf(Deliveries(events, p.now))
    ensures r'.Ok? && r'.value.projections == r.value.projections
    ensures multiset(r'.value.decisions)
         == multiset(r.value.decisions) + multiset{Resolution(f, Skip, DuplicateDelivery)}
  {
    SucceedsIffOk(events', p, r');
    ResultSays(events, p, r);
    OneMoreDelivery(events, e, events', p.now, f);
    RedeliveredBag(Bag(events, p.now), f, p);
    ResultSays(events', p, r');
    OneMoreDecision(r.value.decisions, r'.value.decisions, Resolution(f, Skip, DuplicateDelivery));
  }

  lemma RedeliveredBag(m: multiset<CanonicalFact>, f: CanonicalFact, p: Policy)
    requires f in m
    ensures FactSet(m + multiset{f}) == FactSet(m) == FactSet(m) + {f}
    ensures forall d :: ExpectedCount(d, m + multiset{f}, p)
                     == ExpectedCount(d, m, p) + if d == Resolution(f, Skip, DuplicateDelivery) then 1 else 0
  {
  }

  /** Some delivered revision of the same logical fact is fresher. */
  ghost predicate Stale(s: set<CanonicalFact>, f: CanonicalFact) {
    exists g :: g in s && g.factKey == f.factKey && g.freshness.Compare(f.freshness) > 0
  }

  /** A stale fact neither wins nor keeps another from winning, and so changes
      nothing about what is accepted, whatever the policy. */
  lemma StaleNeverWins(s: set<CanonicalFact>, f: CanonicalFact, p: Policy)
    requires Stale(s, f)
    ensures !Winner(s + {f}, f)
    ensures forall g :: g in s && g != f ==> (Winner(s + {f}, g) <==> Winner(s, g))
    ensures f !in s ==> AcceptedFacts(s + {f}, p) == AcceptedFacts(s, p)
  {
    StaleLoses(s, f);
    forall g | g in s && g != f && Winner(s, g) ensures Winner(s + {f}, g) {
      WinnerStays(s, f, g);
    }
  }

  lemma StaleLoses(s: set<CanonicalFact>, f: CanonicalFact)
    requires Stale(s, f)
    ensures !Winner(s + {f}, f)
  {
  }

  lemma WinnerStays(s: set<CanonicalFact>, f: CanonicalFact, g: CanonicalFact)
    requires Stale(s, f) && Winner(s, g)
    ensures Winner(s + {f}, g)
  {
    var h :| h in s && h.factKey == f.factKey && h.freshness.Compare(f.freshness) > 0;
    if g.factKey == f.factKey {
      BelowTheFresher(f.freshness, h.freshness, g.freshness);
    }
  }

  lemma BelowTheFresher(a: FreshnessTuple, b: FreshnessTuple, c: FreshnessTuple)
    requires b.Compare(a) > 0 && b.Compare(c) <= 0
    ensures a.Compare(c) <= 0
  {
    CompareTotal(a, b);
    CompareTotal(b, c);
    if b != c {
      CompareTransitive(a, b, c);
    }
  }

  /** A stale revision, whenever it arrives and whatever the policy makes of
      the fresh one, fails the batch only if its event key is already used, and
      otherwise only adds its own skip/duplicate_or_older decision. */
  lemma StaleAddsOneSkip(
    events: seq<PhysicalEvent>, e: PhysicalEvent, events': seq<PhysicalEvent>, p: Policy, f: CanonicalFact,
    r: Result<BatchResult, BatchError>, r': Result<BatchResult, BatchError>)
    requires OneMore(events, e, events') && IsResultOf(r, events, p) && IsResultOf(r', events', p) && r.Ok?
    requires CanonicalForm(e, p.now) == Ok(f) && f !in FactsOf(Deliveries(events, p.now))
    requires Stale(Elements(FactsOf(Deliveries(events, p.now))), f)
    ensures r'.Ok? <==> forall g :: g in FactsOf(Deliveries(events, p.now)) ==> g.eventKey != f.eventKey
    ensures r'.Ok? ==>
              && r'.value.projections == r.value.projections
              && multiset(r'.value.decisions)
              == multiset(r.value.decisions) + multiset{Resolution(f, Skip, DuplicateOrOlder)}
  {
    NewFactSucceedsIff(events, e, events', p, f, r, r');
    if r'.Ok? {
      ResultSays(events, p, r);
      ResultSays(events', p, r');
      OneMoreDelivery(events, e, events', p.now, f);
      StaleBag(Bag(events, p.now), f, p);
      OneMoreDecision(r.value.decisions, r'.value.decisions, Resolution(f, Skip, DuplicateOrOlder));
    }
  }

  /** One more event that brings a new fact fails a batch exactly if its key is
      in use. */
  lemma NewFactSucceedsIff(
    events: seq<PhysicalEvent>, e: PhysicalEvent, events': seq<PhysicalEvent>, p: Policy, f: CanonicalFact,
    r: Result<BatchResult, BatchError>, r': Result<BatchResult, BatchError>)
    requires OneMore(events, e, events') && IsResultOf(r, events, p) && IsResultOf(r', events', p) && r.Ok?
    requires CanonicalForm(e, p.now) == Ok(f) && f !in FactsOf(Deliveries(events, p.now))
    ensures r'.Ok? <==> forall g :: g in FactsOf(Deliveries(events, p.now)) ==> g.eventKey != f.eventKey
  {
    ResultSays(events, p, r);
    OneMoreDelivery(events, e, events', p.now, f);
    SucceedsIffOk(events', p, r');
    NewKeyIff(FactsOf(Deliveries(events, p.now)), FactSet(Bag(events, p.now)), f);
  }

  lemma NewKeyIff(facts: seq<CanonicalFact>, s: set<CanonicalFact>, f: CanonicalFact)
    requires s == Elements(facts) && KeysUnique(s) && f !in facts
    ensures KeysUnique(s + {f}) <==> forall g :: g in facts ==> g.eventKey != f.eventKey
  {
    if KeysUnique(s + {f}) {
      forall g | g in facts ensures g.eventKey != f.eventKey {
        assert g in s && g in s + {f} && f in s + {f};
      }
    }
  }

  lemma StaleBag(m: multiset<CanonicalFact>, f: CanonicalFact, p: Policy)
    requires f !in m && Stale(FactSet(m), f)
    ensures FactSet(m + multiset{f}) == FactSet(m) + {f}
    ensures AcceptedFacts(FactSet(m + multiset{f}), p) == AcceptedFacts(FactSet(m), p)
    ensures forall d :: ExpectedCount(d, m + multiset{f}, p)
                     == ExpectedCount(d, m, p) + if d == Resolution(f, Skip, DuplicateOrOlder) then 1 else 0
  {
    var s := FactSet(m);
    assert FactSet(m + multiset{f}) == s + {f};
    StaleNeverWins(s, f, p);
    forall d ensures ExpectedCount(d, m + multiset{f}, p)
                  == ExpectedCount(d, m, p) + if d == Resolution(f, Skip, DuplicateOrOlder) then 1 else 0
    {
      assert d.fact in m ==> d.fact in s && DecisionFor(s + {f}, p, d.fact) == DecisionFor(s, p, d.fact);
    }
  }

  // ---- Subject isolation ----

  /** The deliveries about one subject, in order. */
  ghost function SubBatch(events: seq<PhysicalEvent>, subject: string): seq<PhysicalEvent> {
    if events == [] then []
    else
      var init, last := SubBatch(events[..|events| - 1], subject), events[|events| - 1];
      if TrimSpace(last.subjectID) == subject then init + [last] else init
  }

  /** A sub-batch delivers exactly the subject's facts, each as often as before. */
  lemma {:induction false} SubBatchFacts(events: seq<PhysicalEvent>, subject: string, now: Time)
    requires AllCanonicalized(Deliveries(events, now))
    ensures AllCanonicalized(Deliveries(SubBatch(events, subject), now))
    ensures forall f ::
              Bag(SubBatch(events, subject), now)[f] == if f.subjectID == subject then Bag(events, now)[f] else 0
  {
    if events != [] {
      var init, last := events[..|events| - 1], events[|events| - 1];
      var ds, d := Deliveries(init, now), Deliver(last, now);
      assert Deliveries(events, now) == ds + [d];
      assert d in Deliveries(events, now) && forall x :: x in ds ==> x in Deliveries(events, now);
      SubBatchFacts(init, subject, now);
      CanonicalFormFaithful(last, now);
      FactsAppend(ds, d);
      assert Bag(events, now) == Bag(init, now) + multiset{d.form.value};
      var sub := SubBatch(init, subject);
      if TrimSpace(last.subjectID) == subject {
        assert (sub + [last])[..|sub|] == sub;
        FactsAppend(Deliveries(sub, now), d);
        assert Bag(sub + [last], now) == Bag(sub, now) + multiset{d.form.value};
      }
    }
  }

  /** Revisions of one logical fact belong to one subject, so winning, and with
      it acceptance, is decided within the subject. */
  lemma WinnersStayWithin(s: set<CanonicalFact>, subject: string, p: Policy)
    requires forall f :: f in s ==> Canonical(f)
    ensures forall f :: f in s && f.subjectID == subject ==> (Winner(OfSubject(s, subject), f) <==> Winner(s, f))
    ensures AcceptedFacts(OfSubject(s, subject), p) == OfSubject(AcceptedFacts(s, p), subject)
  {
    forall f, g | f in s && g in s && f.factKey == g.factKey ensures f.subjectID == g.subjectID {
      FactKeyInjective(f.subjectID, f.sourceScope, f.eventType, f.effectiveTime,
                       g.subjectID, g.sourceScope, g.eventType, g.effectiveTime);
    }
  }

  /** If a batch succeeds, each subject's own sub-batch succeeds with the same
      projection and the same decisions about that subject. */
  lemma SubjectIsolation(
    events: seq<PhysicalEvent>, subject: string, p: Policy, r: Result<BatchResult, BatchError>,
    r': Result<BatchResult, BatchError>)
    requires IsResultOf(r, events, p) && IsResultOf(r', SubBatch(events, subject), p) && r.Ok?
    ensures r'.Ok? && r'.value.projections.Keys == r.value.projections.Keys * {subject}
    ensures subject in r.value.projections ==> r'.value.projections[subject] == r.value.projections[subject]
    ensures forall d :: multiset(r'.value.decisions)[d]
                     == if d.fact.subjectID == subject then multiset(r.value.decisions)[d] else 0
  {
    var sub := SubBatch(events, subject);
    ResultSays(events, p, r);
    SubBatchFacts(events, subject, p.now);
    var m, m' := Bag(events, p.now), Bag(sub, p.now);
    SubjectBag(m, m', subject, p);
    FactSetOfSeq(FactsOf(Deliveries(sub, p.now)));
    SucceedsIffOk(sub, p, r');
    ResultSays(sub, p, r');
    IsolatedProjection(AcceptedFacts(FactSet(m), p), subject);
  }

  lemma SubjectBag(m: multiset<CanonicalFact>, m': multiset<CanonicalFact>, subject: string, p: Policy)
    requires forall f :: f in FactSet(m) ==> Canonical(f)
    requires forall f :: m'[f] == if f.subjectID == subject then m[f] else 0
    ensures FactSet(m') == OfSubject(FactSet(m), subject)
    ensures AcceptedFacts(FactSet(m'), p) == OfSubject(AcceptedFacts(FactSet(m), p), subject)
    ensures forall d :: ExpectedCount(d, m', p) == if d.fact.subjectID == subject then ExpectedCount(d, m, p) else 0
  {
    var s := FactSet(m);
    assert FactSet(m') == OfSubject(s, subject) by {
      assert forall f :: f in m' <==> m'[f] > 0;
      assert forall f :: f in m <==> m[f] > 0;
    }
    WinnersStayWithin(s, subject, p);
    forall d ensures ExpectedCount(d, m', p) == if d.fact.subjectID == subject then ExpectedCount(d, m, p) else 0 {
      SubjectCount(m, m', subject, p, d);
    }
  }

  lemma SubjectCount(
    m: multiset<CanonicalFact>, m': multiset<CanonicalFact>, subject: string, p: Policy, d: EventResolution)
    requires forall f :: m'[f] == if f.subjectID == subject then m[f] else 0
    requires forall f :: f in FactSet(m) && f.subjectID == subject ==>
               (Winner(FactSet(m'), f) <==> Winner(FactSet(m), f))
    ensures ExpectedCount(d, m', p) == if d.fact.subjectID == subject then ExpectedCount(d, m, p) else 0
  {
  }

  lemma IsolatedProjection(a: set<CanonicalFact>, subject: string)
    ensures Projections(OfSubject(a, subject)).Keys == Projections(a).Keys * {subject}
    ensures subject in Projections(a) ==> Projections(OfSubject(a, subject))[subject] == Projections(a)[subject]
  {
    var mine := OfSubject(a, subject);
    assert OfSubject(mine, subject) == mine;
    if subject in SubjectsOf(a) {
      var f :| f in a && f.subjectID == subject;
      assert f in mine;
    }
  }

  // ---- The clock ----

  /** The same deliveries read at two clock times differ in received time only. */
  lemma {:induction false} ClockChangesReceiptOnly(e: PhysicalEvent, now: Time, later: Time)
    ensures CanonicalForm(e, now).Ok? <==> CanonicalForm(e, later).Ok?
    ensures CanonicalForm(e, now).Ok? && now != ZERO_TIME && later != ZERO_TIME
            ==> CanonicalForm(e, later).value == CanonicalForm(e, now).value.(receivedAt := later)
  {
  }

  ghost function Restamp(s: set<CanonicalFact>, receivedAt: Time): set<CanonicalFact> {
    set f | f in s :: f.(receivedAt := receivedAt)
  }

  lemma SameUpToReceipt(events: seq<PhysicalEvent>, now: Time, later: Time)
    requires now != ZERO_TIME && later != ZERO_TIME && AllCanonicalized(Deliveries(events, now))
    ensures AllCanonicalized(Deliveries(events, later))
    ensures forall i :: 0 <= i < |events| ==>
              FactsOf(Deliveries(events, later))[i] == FactsOf(Deliveries(events, now))[i].(receivedAt := later)
  {
    var ds, es := Deliveries(events, now), Deliveries(events, later);
    forall i | 0 <= i < |events| ensures es[i].form.Ok? && es[i].form.value == ds[i].form.value.(receivedAt := later) {
      DeliveryAt(events, now, i);
      DeliveryAt(events, later, i);
      ClockChangesReceiptOnly(events[i], now, later);
      assert ds[i] in ds;
    }
  }

  lemma Restamped(facts: seq<CanonicalFact>, facts': seq<CanonicalFact>, later: Time)
    requires |facts| == |facts'| && forall i :: 0 <= i < |facts| ==> facts'[i] == facts[i].(receivedAt := later)
    requires KeysUnique(Elements(facts))
    ensures KeysUnique(Elements(facts'))
    ensures Restamp(Winners(Elements(facts)), later) <= Winners(Elements(facts'))
  {
  }

  /** The clock does not choose winners: read at two times, a batch is
      resolvable at both or neither, and the winners are the same facts. */
  lemma ClockKeepsWinners(events: seq<PhysicalEvent>, now: Time, later: Time)
    requires now != ZERO_TIME && later != ZERO_TIME && BatchOk(Deliveries(events, now))
    ensures BatchOk(Deliveries(events, later))
    ensures Winners(Elements(FactsOf(Deliveries(events, later))))
         == Restamp(Winners(Elements(FactsOf(Deliveries(events, now)))), later)
  {
    SameUpToReceipt(events, now, later);
    SameUpToReceipt(events, later, now);
    WinnersRestamp(FactsOf(Deliveries(events, now)), FactsOf(Deliveries(events, later)), now, later);
  }

  lemma WinnersRestamp(facts: seq<CanonicalFact>, facts': seq<CanonicalFact>, now: Time, later: Time)
    requires |facts| == |facts'| && KeysUnique(Elements(facts))
    requires forall i :: 0 <= i < |facts| ==> facts'[i] == facts[i].(receivedAt := later)
    requires forall i :: 0 <= i < |facts| ==> facts[i] == facts'[i].(receivedAt := now)
    ensures KeysUnique(Elements(facts'))
    ensures Winners(Elements(facts')) == Restamp(Winners(Elements(facts)), later)
  {
    Restamped(facts, facts', later);
    Restamped(facts', facts, now);
    forall g | g in Winners(Elements(facts')) ensures g in Restamp(Winners(Elements(facts)), later) {
      var i :| 0 <= i < |facts'| && facts'[i] == g;
      assert g.(receivedAt := now) in Restamp(Winners(Elements(facts')), now);
      assert g == g.(receivedAt := now).(receivedAt := later);
    }
  }

  /** At a later clock time the batch has exactly the same winners, and each of
      them has kept its phase or moved forward through it. */
  lemma ClockMovesForward(events: seq<PhysicalEvent>, p: Policy, later: Time)
    requires p.Validate().None? && p.now <= later && later != ZERO_TIME
    ensures BatchOk(Deliveries(events, later)) <==> BatchOk(Deliveries(events, p.now))
    ensures BatchOk(Deliveries(events, p.now)) ==>
              var winners := Winners(Elements(FactsOf(Deliveries(events, p.now))));
              && Winners(Elements(FactsOf(Deliveries(events, later)))) == Restamp(winners, later)
              && forall f :: f in winners ==>
                   PhaseOf(p.Decide(f).1).Precedes(PhaseOf(p.(now := later).Decide(f.(receivedAt := later)).1))
  {
    if BatchOk(Deliveries(events, p.now)) {
      ClockKeepsWinners(events, p.now, later);
    }
    if BatchOk(Deliveries(events, later)) {
      ClockKeepsWinners(events, later, p.now);
    }
    forall f: CanonicalFact
      ensures PhaseOf(p.Decide(f).1).Precedes(PhaseOf(p.(now := later).Decide(f.(receivedAt := later)).1))
    {
      ClockNeverMovesAFactBack(p, later, f, f.(receivedAt := later));
    }
  }

  // ---- Future changes ----

  /** No instant a fact can have lies between the clock and the cutoff. The zero
      time is no such instant, since canonicalization refuses it. */
  predicate NothingBeforeTheCutoff(p: Policy) {
    p.cutoffTime.None? || p.cutoffTime.value <= p.now + 1 || (p.now + 1 == ZERO_TIME && p.cutoffTime.value == p.now + 2)
  }

  /** The documentation says a future non-hire cannot change current state. That
      holds for every fact canonicalization can produce if and only if no such
      fact can fall between the clock and the cutoff. */
  lemma FutureLifecycleHeldBackIff(p: Policy)
    ensures (forall f :: Canonical(f) && f.eventType !in {Hire, Rehire} && f.effectiveTime > p.now ==> !p.Accepts(f))
       <==> NothingBeforeTheCutoff(p)
  {
    if !NothingBeforeTheCutoff(p) {
      var e, f := EarlyEvent(p, "s", "e");
    }
  }

  /** An instant between the clock and the cutoff. */
  function EarlyTime(p: Policy): Time {
    if p.now + 1 == ZERO_TIME then p.now + 2 else p.now + 1
  }

  /** A modification the retroactive window covers. */
  function RecentTime(p: Policy): Time {
    if p.now - p.retroactiveWindow == ZERO_TIME then 1 else p.now - p.retroactiveWindow
  }

  lemma EarlyTerminationIsAccepted(p: Policy, f: CanonicalFact)
    requires !NothingBeforeTheCutoff(p)
    requires f.eventType == Termination && f.sourceScope == Lifecycle && f.endTime.None?
    requires f.effectiveTime == EarlyTime(p) && f.modificationTime == RecentTime(p)
    ensures f.effectiveTime > p.now && p.Accepts(f)
  {
  }

  /** A termination the code lets through early when a cutoff lies ahead. */
  lemma EarlyEvent(p: Policy, subjectID: string, eventKey: string) returns (e: PhysicalEvent, f: CanonicalFact)
    requires !NothingBeforeTheCutoff(p) && subjectID != "" && Trimmed(subjectID) && eventKey != "" && Trimmed(eventKey)
    ensures CanonicalForm(e, p.now) == Ok(f) && Canonical(f) && f.subjectID == subjectID && f.eventKey == eventKey
    ensures f.eventType == Termination && f.effectiveTime > p.now && p.Accepts(f)
  {
    e := TerminationAt(subjectID, eventKey, EarlyTime(p), RecentTime(p));
    TerminationIsCanonical(subjectID, eventKey, EarlyTime(p), RecentTime(p), p.now);
    f := CanonicalForm(e, p.now).value;
    EarlyTerminationIsAccepted(p, f);
  }

  /** Every result of the one-event batch projects the subject in that state. */
  ghost predicate AlwaysProjects(e: PhysicalEvent, p: Policy, subjectID: string, state: LifecycleState) {
    forall r :: IsResultOf(r, [e], p) ==>
      r.Ok? && subjectID in r.value.projections && r.value.projections[subjectID].lifecycleState == state
  }

  /** Under every other valid policy, and for every subject, there is an event
      that canonicalizes to a termination dated after the clock, and whose
      one-event batch always projects the subject as terminated. */
  lemma FutureTerminationLeaks(
    p: Policy, subjectID: string, eventKey: string) returns (e: PhysicalEvent, f: CanonicalFact)
    requires p.Validate().None? && !NothingBeforeTheCutoff(p)
    requires subjectID != "" && Trimmed(subjectID) && eventKey != "" && Trimmed(eventKey)
    ensures CanonicalForm(e, p.now) == Ok(f) && f.eventType == Termination && f.effectiveTime > p.now
    ensures AlwaysProjects(e, p, subjectID, Terminated)
  {
    e, f := EarlyEvent(p, subjectID, eventKey);
    OneEventAlwaysProjects(e, f, p);
  }

  lemma OneEventAlwaysProjects(e: PhysicalEvent, f: CanonicalFact, p: Policy)
    requires p.Validate().None? && CanonicalForm(e, p.now) == Ok(f) && p.Accepts(f) && f.eventType.ChangesState()
    ensures AlwaysProjects(e, p, f.subjectID, StateAfter(f.eventType))
  {
    forall r | IsResultOf(r, [e], p)
      ensures r.Ok? && f.subjectID in r.value.projections
              && r.value.projections[f.subjectID].lifecycleState == StateAfter(f.eventType)
    {
      OneEventProjects(e, f, p, r);
    }
  }

  /** A batch of one accepted event projects what that event says. */
  lemma OneEventProjects(e: PhysicalEvent, f: CanonicalFact, p: Policy, r: Result<BatchResult, BatchError>)
    requires p.Validate().None? && CanonicalForm(e, p.now) == Ok(f) && p.Accepts(f) && f.eventType.ChangesState()
    requires IsResultOf(r, [e], p)
    ensures r.Ok? && f.subjectID in r.value.projections
    ensures r.value.projections[f.subjectID].lifecycleState == StateAfter(f.eventType)
  {
    OneDelivery(e, p.now, f);
    SucceedsIffOk([e], p, r);
    ResolvedOne(r.value, Bag([e], p.now), f, p);
  }

  lemma ResolvedOne(batch: BatchResult, m: multiset<CanonicalFact>, f: CanonicalFact, p: Policy)
    requires Resolves(batch, m, p) && FactSet(m) == {f} && p.Accepts(f) && f.eventType.ChangesState()
    ensures f.subjectID in batch.projections && batch.projections[f.subjectID].lifecycleState == StateAfter(f.eventType)
  {
    CompareTotal(f.freshness, f.freshness);
    assert AcceptedFacts({f}, p) == {f};
    OneFactProjects(f);
  }

  lemma OneDelivery(e: PhysicalEvent, now: Time, f: CanonicalFact)
    requires CanonicalForm(e, now) == Ok(f)
    ensures BatchOk(Deliveries([e], now)) && FactSet(Bag([e], now)) == {f}
  {
    assert [e][..0] == [];
    assert Deliveries([e], now) == [Deliver(e, now)];
    assert FactsOf(Deliveries([e], now)) == [f];
    FactSetOfSeq([f]);
  }

  lemma OneFactProjects(f: CanonicalFact)
    requires f.eventType.ChangesState()
    ensures f.subjectID in Projections({f}) && Projections({f})[f.subjectID].lifecycleState == StateAfter(f.eventType)
  {
    assert OfSubject({f}, f.subjectID) == {f} && StateChanging({f}) == {f};
    assert Latest({f}) == f;
    assert f.subjectID in SubjectsOf({f});
  }

  // ---- The last writer ----

  /** Every other fact of the set comes strictly before this one. */
  ghost predicate Greatest(s: set<CanonicalFact>, f: CanonicalFact) {
    f in s && forall g :: g in s && g != f ==> FactLess(g, f)
  }

  ghost predicate LastCarrier(mine: set<CanonicalFact>, k: string, f: CanonicalFact) {
    Greatest(Carrying(mine, k), f)
  }

  ghost predicate AttributesWrittenLast(attributes: map<string, string>, mine: set<CanonicalFact>) {
    && (forall k :: k in attributes <==> Carrying(mine, k) != {})
    && (forall k, f :: LastCarrier(mine, k, f) ==> k in attributes && attributes[k] == f.attributes[k])
  }

  ghost predicate StateWrittenLast(state: LifecycleState, mine: set<CanonicalFact>) {
    && (StateChanging(mine) == {} ==> state == Unset)
    && (forall f :: Greatest(StateChanging(mine), f) ==> state == StateAfter(f.eventType))
  }

  ghost predicate ProvenanceWrittenLast(q: IdentityProjection, mine: set<CanonicalFact>) {
    forall f :: Greatest(mine, f) ==>
      && q.sourceFactKey == f.factKey && q.sourceEventKey == f.eventKey
      && q.effectiveTime == f.effectiveTime && q.freshness == f.freshness
  }

  /** What a projection says, fact by fact and without choosing any. */
  ghost predicate WrittenLast(q: IdentityProjection, mine: set<CanonicalFact>) {
    && AttributesWrittenLast(q.attributes, mine) && StateWrittenLast(q.lifecycleState, mine)
    && ProvenanceWrittenLast(q, mine)
  }

  /** Deduplicated facts have a greatest one, so nothing above is vacuous. */
  lemma GreatestExists(s: set<CanonicalFact>)
    requires s != {} && Stamped(s) && KeysUnique(s)
    ensures Greatest(s, Latest(s))
  {
    forall g | g in s && g != Latest(s) ensures FactLess(g, Latest(s)) {
      FactLessCases(g, Latest(s));
    }
  }

  /** The fold is a last-writer register per attribute: each attribute comes
      from the greatest accepted fact that carries it, lifecycle from the
      greatest that changes it, provenance from the greatest of all, and the
      projected subjects are exactly those with an accepted fact. */
  lemma LastWriterWins(events: seq<PhysicalEvent>, p: Policy, r: Result<BatchResult, BatchError>)
    requires IsResultOf(r, events, p) && r.Ok?
    ensures var accepted := AcceptedFacts(FactSet(Bag(events, p.now)), p);
            && Stamped(accepted) && KeysUnique(accepted)
            && r.value.projections.Keys == SubjectsOf(accepted)
            && forall subject :: subject in r.value.projections
                 ==> WrittenLast(r.value.projections[subject], OfSubject(accepted, subject))
  {
    ResultSays(events, p, r);
    var accepted := AcceptedFacts(FactSet(Bag(events, p.now)), p);
    assert Stamped(accepted) && KeysUnique(accepted);
    forall subject | subject in r.value.projections
      ensures WrittenLast(r.value.projections[subject], OfSubject(accepted, subject))
    {
      ProjectedLast(accepted, subject);
    }
  }

  lemma ProjectedLast(accepted: set<CanonicalFact>, subject: string)
    requires Stamped(accepted) && KeysUnique(accepted) && subject in SubjectsOf(accepted)
    ensures WrittenLast(ProjectionOf(accepted, subject), OfSubject(accepted, subject))
  {
  }

  // ---- Lifecycle ----

  /** Every projection a batch can produce is enabled exactly when active and
      present exactly when a lifecycle event has touched it. */
  lemma LifecycleConsistent(events: seq<PhysicalEvent>, p: Policy, r: Result<BatchResult, BatchError>, subject: string)
    requires IsResultOf(r, events, p) && r.Ok? && subject in r.value.projections
    ensures var q := r.value.projections[subject];
            && q.subjectID == subject
            && (q.enabled <==> q.lifecycleState == Active)
            && (q.present <==> q.lifecycleState != Unset)
            && (q.present <==> exists f :: f in AcceptedFacts(FactSet(Bag(events, p.now)), p)
                                        && f.subjectID == subject && f.eventType.ChangesState())
  {
    ResultSays(events, p, r);
    ProjectionConsistent(AcceptedFacts(FactSet(Bag(events, p.now)), p), subject);
  }

  lemma ProjectionConsistent(a: set<CanonicalFact>, subject: string)
    requires subject in SubjectsOf(a)
    ensures var q := ProjectionOf(a, subject);
            && q.subjectID == subject
            && (q.enabled <==> q.lifecycleState == Active)
            && (q.present <==> q.lifecycleState != Unset)
            && (q.present <==> exists f :: f in a && f.subjectID == subject && f.eventType.ChangesState())
  {
    var mine := OfSubject(a, subject);
    var f0 :| f0 in a && f0.subjectID == subject;
    assert f0 in mine;
    assert Latest(mine) in mine;
    if f :| f in a && f.subjectID == subject && f.eventType.ChangesState() {
      assert f in StateChanging(mine);
    }
    if StateChanging(mine) != {} {
      var f :| f in StateChanging(mine);
      assert f in a;
    }
  }

  /** Accepting more facts never withdraws existence. */
  lemma ExistenceNeverWithdrawn(a: set<CanonicalFact>, b: set<CanonicalFact>, subject: string)
    requires a <= b && subject in Projections(a) && Projections(a)[subject].present
    ensures subject in Projections(b) && Projections(b)[subject].present
  {
  }

  /** Facts that only carry attributes leave existence, enablement and lifecycle alone. */
  lemma AttributeFactsKeepLifecycle(a: set<CanonicalFact>, b: set<CanonicalFact>, subject: string)
    requires a <= b && subject in Projections(a)
    requires forall f :: f in b - a && f.subjectID == subject ==> !f.eventType.ChangesState()
    ensures subject in Projections(b)
    ensures var p, q := Projections(a)[subject], Projections(b)[subject];
            p.present == q.present && p.enabled == q.enabled && p.lifecycleState == q.lifecycleState
  {
    var f :| f in a && f.subjectID == subject;
    assert f in b;
    assert StateChanging(OfSubject(a, subject)) == StateChanging(OfSubject(b, subject));
  }
}
