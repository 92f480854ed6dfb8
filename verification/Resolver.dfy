/** ResolveBatch: deduplicate, pick winners, decide, sort, project. */
module Resolver {
  import opened Base
  import opened Model
  import opened Canonicalization
  import opened Policies
  import opened ResolveSpec

  /** A projection held by reference, as applyFact updates it. */
  class ProjectionRef {
    var value: IdentityProjection

    constructor (value: IdentityProjection)
      ensures this.value == value
    {
      this.value := value;
    }
  }

  function Blank(subject: string): IdentityProjection {
    IdentityProjection(subject, false, false, Unset, map[], "", "", ZERO_TIME, FreshnessTuple(0, ZERO_TIME, 0, ""), 0)
  }

  /** One fact written over a projection. */
  function Applied(p: IdentityProjection, f: CanonicalFact): IdentityProjection {
    var q := p.(
      attributes := p.attributes + f.attributes, sourceFactKey := f.factKey, sourceEventKey := f.eventKey,
      effectiveTime := f.effectiveTime, freshness := f.freshness);
    if f.eventType.ChangesState()
    then q.(present := true, enabled := StateAfter(f.eventType) == Active, lifecycleState := StateAfter(f.eventType))
    else q
  }

  method ApplyFact(projection: ProjectionRef, fact: CanonicalFact)
    modifies projection
    ensures projection.value == Applied(old(projection.value), fact)
  {
    ghost var before := projection.value;
    var keys := fact.attributes.Keys;
    while keys != {}
      invariant keys <= fact.attributes.Keys
      invariant projection.value == before.(attributes := before.attributes + (fact.attributes - keys))
      decreases keys
    {
      var key :| key in keys;
      projection.value := projection.value.(attributes := projection.value.attributes[key := fact.attributes[key]]);
      keys := keys - {key};
    }
    match fact.eventType {
      case Hire | Rehire =>
        projection.value := projection.value.(present := true, enabled := true, lifecycleState := Active);
      case Leave =>
        projection.value := projection.value.(present := true, enabled := false, lifecycleState := OnLeave);
      case ReturnFromLeave =>
        projection.value := projection.value.(present := true, enabled := true, lifecycleState := Active);
      case Termination =>
        projection.value := projection.value.(present := true, enabled := false, lifecycleState := Terminated);
      case DataUpdate | Conversion | Transfer =>
    }
    projection.value := projection.value.(
      sourceFactKey := fact.factKey, sourceEventKey := fact.eventKey,
      effectiveTime := fact.effectiveTime, freshness := fact.freshness);
  }

  // ---- Deduplication ----

  /** What the delivery loop has recorded for the deliveries it has passed. */
  ghost predicate Deduplicated(ds: seq<Delivery>, facts: seq<CanonicalFact>, decisions: seq<EventResolution>) {
    && BatchOk(ds)
    && Elements(facts) == Elements(FactsOf(ds))
    && (forall i, j :: 0 <= i < j < |facts| ==> facts[i].eventKey != facts[j].eventKey)
    && (forall d :: multiset(decisions)[d] == DuplicateCount(d, multiset(FactsOf(ds))))
  }

  ghost function DuplicateCount(d: EventResolution, delivered: multiset<CanonicalFact>): nat {
    if d.fact in delivered && d == Resolution(d.fact, Skip, DuplicateDelivery) then delivered[d.fact] - 1 else 0
  }

  ghost predicate SeenIn(seen: map<string, CanonicalFact>, facts: seq<CanonicalFact>) {
    && (forall k :: k in seen ==> seen[k] in facts && seen[k].eventKey == k)
    && (forall f :: f in facts ==> f.eventKey in seen && seen[f.eventKey] == f)
  }

  lemma DeduplicateNew(
    ds: seq<Delivery>, d: Delivery, facts: seq<CanonicalFact>, decisions: seq<EventResolution>,
    seen: map<string, CanonicalFact>)
    requires Deduplicated(ds, facts, decisions) && SeenIn(seen, facts)
    requires d.form.Ok? && d.form.value.eventKey !in seen
    ensures Deduplicated(ds + [d], facts + [d.form.value], decisions)
    ensures SeenIn(seen[d.form.value.eventKey := d.form.value], facts + [d.form.value])
  {
    var f := d.form.value;
    FactsAppend(ds, d);
    ElementsAppend(facts, f);
    assert f !in Elements(facts) && f !in FactsOf(ds);
    assert forall i :: 0 <= i < |facts| ==> facts[i] in facts && facts[i].eventKey in seen;
    NewFactCountsOnce(FactsOf(ds), f, decisions);
  }

  lemma NewFactCountsOnce(delivered: seq<CanonicalFact>, f: CanonicalFact, decisions: seq<EventResolution>)
    requires f !in delivered
    requires forall d :: multiset(decisions)[d] == DuplicateCount(d, multiset(delivered))
    ensures forall d :: multiset(decisions)[d] == DuplicateCount(d, multiset(delivered + [f]))
  {
  }

  lemma DeduplicateAgain(ds: seq<Delivery>, d: Delivery, facts: seq<CanonicalFact>, decisions: seq<EventResolution>)
    requires Deduplicated(ds, facts, decisions)
    requires d.form.Ok? && d.form.value in facts
    ensures Deduplicated(ds + [d], facts, decisions + [Resolution(d.form.value, Skip, DuplicateDelivery)])
  {
    var f := d.form.value;
    FactsAppend(ds, d);
    assert f in Elements(facts) && f in FactsOf(ds);
    assert multiset(FactsOf(ds + [d])) == multiset(FactsOf(ds)) + multiset{f};
    var r := Resolution(f, Skip, DuplicateDelivery);
    assert multiset(decisions + [r]) == multiset(decisions) + multiset{r};
  }

  lemma FailsHere(ds: seq<Delivery>, i: nat, error: BatchError)
    requires i < |ds| && BatchOk(ds[..i]) && FailureAt(ds[..i], ds[i]) == Some(error)
    ensures FailureOf(ds) == Some(error)
  {
    assert ds[..i + 1][..i] == ds[..i];
    FailsIffNotOk(ds[..i]);
    FailurePersists(ds, i + 1);
  }

  /** Within a batch, the payload hash tells whether a key is redelivered or reused. */
  ghost predicate HashTells(done: seq<Delivery>, f: CanonicalFact)
    requires AllCanonicalized(done)
  {
    forall g :: g in FactsOf(done) && g.eventKey == f.eventKey && g.payloadHash == f.payloadHash ==> g == f
  }

  lemma HashTellsInBatch(ds: seq<Delivery>, i: nat, events: seq<PhysicalEvent>, now: Time)
    requires ds == Deliveries(events, now) && i < |ds| && AllCanonicalized(ds[..i]) && ds[i].form.Ok?
    ensures HashTells(ds[..i], ds[i].form.value)
  {
    forall j | 0 <= j < i ensures
      var f, g := ds[i].form.value, FactsOf(ds[..i])[j];
      g.eventKey == f.eventKey && g.payloadHash == f.payloadHash ==> g == f
    {
      DeliveryAt(events, now, i);
      DeliveryAt(events, now, j);
      ReuseShowsInTheHash(events[j], events[i], now);
    }
  }

  /** One turn of the delivery loop for an event that canonicalized. */
  method Admit(fact: CanonicalFact, facts: seq<CanonicalFact>, decisions: seq<EventResolution>,
               seen: map<string, CanonicalFact>, ghost done: seq<Delivery>, ghost d: Delivery)
    returns (ok: bool, facts': seq<CanonicalFact>, decisions': seq<EventResolution>, seen': map<string, CanonicalFact>)
    requires d.form == Ok(fact) && Deduplicated(done, facts, decisions) && SeenIn(seen, facts)
    requires HashTells(done, fact)
    ensures ok ==> Deduplicated(done + [d], facts', decisions') && SeenIn(seen', facts')
    ensures !ok ==> FailureAt(done, d) == Some(EventKeyReused(fact.eventKey))
  {
    facts', decisions', seen' := facts, decisions, seen;
    if fact.eventKey in seen {
      var previous := seen[fact.eventKey];
      assert previous in Elements(facts) && previous in FactsOf(done);
      if previous.payloadHash != fact.payloadHash || previous.factKey != fact.factKey {
        return false, facts', decisions', seen';
      }
      DeduplicateAgain(done, d, facts, decisions);
      decisions' := decisions + [EventResolution(fact.eventKey, fact.factKey, Skip, DuplicateDelivery, fact)];
    } else {
      DeduplicateNew(done, d, facts, decisions, seen);
      seen' := seen[fact.eventKey := fact];
      facts' := facts + [fact];
    }
    return true, facts', decisions', seen';
  }

  method Receive(events: seq<PhysicalEvent>, i: nat, now: Time) returns (form: Result<CanonicalFact, Rejection>)
    requires i < |events|
    ensures Deliveries(events, now)[i] == Delivery(events[i].eventKey, form)
  {
    form := Canonicalize(events[i], now);
    DeliveryAt(events, now, i);
  }

  method Deduplicate(events: seq<PhysicalEvent>, now: Time)
    returns (r: Result<(seq<CanonicalFact>, seq<EventResolution>), BatchError>)
    ensures r.Err? ==> FailureOf(Deliveries(events, now)) == Some(r.error)
    ensures r.Ok? ==> Deduplicated(Deliveries(events, now), r.value.0, r.value.1)
  {
    ghost var ds := Deliveries(events, now);
    var facts: seq<CanonicalFact> := [];
    var decisions: seq<EventResolution> := [];
    var seen: map<string, CanonicalFact> := map[];
    for i := 0 to |events|
      invariant Deduplicated(ds[..i], facts, decisions) && SeenIn(seen, facts)
    {
      var form := Receive(events, i, now);
      if form.Err? {
        FailsHere(ds, i, BadEvent(events[i].eventKey, form.error));
        return Err(BadEvent(events[i].eventKey, form.error));
      }
      HashTellsInBatch(ds, i, events, now);
      var ok;
      ok, facts, decisions, seen := Admit(form.value, facts, decisions, seen, ds[..i], ds[i]);
      if !ok {
        FailsHere(ds, i, EventKeyReused(form.value.eventKey));
        return Err(EventKeyReused(form.value.eventKey));
      }
      assert ds[..i + 1] == ds[..i] + [ds[i]];
    }
    assert ds[..|events|] == ds;
    return Ok((facts, decisions));
  }

  // ---- Winner selection ----

  method Freshest(candidates: seq<CanonicalFact>) returns (winner: CanonicalFact)
    requires candidates != []
    ensures winner in candidates
    ensures forall c :: c in candidates ==> c.freshness.Compare(winner.freshness) <= 0
  {
    winner := candidates[0];
    CompareTotal(winner.freshness, winner.freshness);
    for i := 1 to |candidates|
      invariant winner in candidates
      invariant forall j :: 0 <= j < i ==> candidates[j].freshness.Compare(winner.freshness) <= 0
    {
      var candidate := candidates[i];
      if candidate.freshness.Compare(winner.freshness) > 0 {
        forall j | 0 <= j < i ensures candidates[j].freshness.Compare(candidate.freshness) <= 0 {
          CompareTotal(candidate.freshness, winner.freshness);
          CompareTotal(candidates[j].freshness, winner.freshness);
          if candidates[j].freshness != winner.freshness {
            CompareTransitive(candidates[j].freshness, winner.freshness, candidate.freshness);
          }
        }
        CompareTotal(candidate.freshness, candidate.freshness);
        winner := candidate;
      }
    }
  }

  method GroupByFactKey(facts: seq<CanonicalFact>) returns (grouped: map<string, seq<CanonicalFact>>)
    ensures forall f :: f in facts ==> f.factKey in grouped && f in grouped[f.factKey]
    ensures forall k :: k in grouped ==> grouped[k] != []
    ensures forall k, f :: k in grouped && f in grouped[k] ==> f in facts && f.factKey == k
  {
    grouped := map[];
    for i := 0 to |facts|
      invariant forall j :: 0 <= j < i ==> facts[j].factKey in grouped && facts[j] in grouped[facts[j].factKey]
      invariant forall k :: k in grouped ==> grouped[k] != []
      invariant forall k, f :: k in grouped && f in grouped[k] ==> f in facts && f.factKey == k
    {
      var key := facts[i].factKey;
      grouped := grouped[key := (if key in grouped then grouped[key] else []) + [facts[i]]];
    }
  }

  method SelectWinners(facts: seq<CanonicalFact>) returns (winners: map<string, CanonicalFact>)
    ensures forall f :: f in facts ==> f.factKey in winners
    ensures forall k :: k in winners ==> Winner(Elements(facts), winners[k]) && winners[k].factKey == k
  {
    var grouped := GroupByFactKey(facts);
    winners := map[];
    var keys := grouped.Keys;
    while keys != {}
      invariant keys <= grouped.Keys && winners.Keys == grouped.Keys - keys
      invariant forall k :: k in winners ==> Winner(Elements(facts), winners[k]) && winners[k].factKey == k
      decreases keys
    {
      var key :| key in keys;
      var winner := Freshest(grouped[key]);
      winners := winners[key := winner];
      keys := keys - {key};
    }
  }

  // ---- Decisions ----

  /** Deduplicated facts: stamped, and each under its own event key. */
  ghost predicate KeysDistinct(facts: seq<CanonicalFact>) {
    Stamped(Elements(facts)) && forall i, j :: 0 <= i < j < |facts| ==> facts[i].eventKey != facts[j].eventKey
  }

  /** Every one of these facts has its one decision, and nothing else is recorded. */
  ghost predicate Decided(
    decisions: seq<EventResolution>, s: set<CanonicalFact>, facts: seq<CanonicalFact>, p: Policy)
  {
    forall d :: multiset(decisions)[d] == if d.fact in facts && d == DecisionFor(s, p, d.fact) then 1 else 0
  }

  lemma DecideNext(
    decisions: seq<EventResolution>, s: set<CanonicalFact>, done: seq<CanonicalFact>, f: CanonicalFact, p: Policy)
    requires Decided(decisions, s, done, p) && f !in done
    ensures Decided(decisions + [DecisionFor(s, p, f)], s, done + [f], p)
  {
  }

  method DecideOne(fact: CanonicalFact, winner: CanonicalFact, policy: Policy, ghost s: set<CanonicalFact>)
    returns (r: Result<EventResolution, PolicyError>)
    requires Winner(s, fact) <==> fact.eventKey == winner.eventKey
    ensures r.Err? ==> policy.Validate() == Some(r.error)
    ensures r.Ok? ==> r.value == DecisionFor(s, policy, fact)
  {
    if fact.eventKey != winner.eventKey {
      return Ok(EventResolution(fact.eventKey, fact.factKey, Skip, DuplicateOrOlder, fact));
    }
    var evaluated := policy.Evaluate(fact);
    if evaluated.Err? {
      return Err(evaluated.error);
    }
    return Ok(EventResolution(fact.eventKey, fact.factKey, evaluated.value.0, evaluated.value.1, fact));
  }

  method DecideAll(facts: seq<CanonicalFact>, winners: map<string, CanonicalFact>, policy: Policy)
    returns (r: Result<seq<EventResolution>, PolicyError>)
    requires KeysDistinct(facts)
    requires forall f :: f in facts ==> f.factKey in winners
    requires forall k :: k in winners ==> Winner(Elements(facts), winners[k]) && winners[k].factKey == k
    ensures r.Err? ==> policy.Validate() == Some(r.error)
    ensures r.Ok? ==> Decided(r.value, Elements(facts), facts, policy)
  {
    ghost var s := Elements(facts);
    var decisions: seq<EventResolution> := [];
    for i := 0 to |facts|
      invariant Decided(decisions, s, facts[..i], policy)
    {
      var fact := facts[i];
      var winner := winners[fact.factKey];
      DecideTurn(decisions, facts, i, winner, policy);
      var decision := DecideOne(fact, winner, policy, s);
      if decision.Err? {
        return Err(decision.error);
      }
      decisions := decisions + [decision.value];
    }
    assert facts[..|facts|] == facts;
    return Ok(decisions);
  }

  lemma DecideTurn(decisions: seq<EventResolution>, facts: seq<CanonicalFact>, i: nat, winner: CanonicalFact, p: Policy)
    requires KeysDistinct(facts) && i < |facts| && Decided(decisions, Elements(facts), facts[..i], p)
    requires Winner(Elements(facts), winner) && winner.factKey == facts[i].factKey
    ensures Winner(Elements(facts), facts[i]) <==> facts[i].eventKey == winner.eventKey
    ensures Decided(decisions + [DecisionFor(Elements(facts), p, facts[i])], Elements(facts), facts[..i + 1], p)
  {
    WinnerHasTheKey(facts, facts[i], winner);
    assert facts[i] !in facts[..i];
    DecideNext(decisions, Elements(facts), facts[..i], facts[i], p);
    assert facts[..i + 1] == facts[..i] + [facts[i]];
  }

  /** The loop asks whether a fact carries its winner's event key; on
      deduplicated facts that is asking whether it is the winner. */
  lemma WinnerHasTheKey(facts: seq<CanonicalFact>, fact: CanonicalFact, winner: CanonicalFact)
    requires KeysDistinct(facts)
    requires fact in facts && Winner(Elements(facts), winner) && winner.factKey == fact.factKey
    ensures Winner(Elements(facts), fact) <==> fact.eventKey == winner.eventKey
  {
    var s := Elements(facts);
    assert KeysUnique(s);
    if Winner(s, fact) {
      WinnerUnique(s, fact, winner);
    }
  }

  /** Dedup records and main decisions together are what a batch must record. */
  lemma CountsAdd(
    ds: seq<Delivery>, facts: seq<CanonicalFact>, duplicates: seq<EventResolution>, main: seq<EventResolution>,
    p: Policy)
    requires Deduplicated(ds, facts, duplicates)
    requires Decided(main, Elements(facts), facts, p)
    ensures forall d :: multiset(duplicates + main)[d] == ExpectedCount(d, multiset(FactsOf(ds)), p)
  {
    var m := multiset(FactsOf(ds));
    assert FactSet(m) == Elements(facts) by {
      assert forall f :: f in m <==> f in Elements(FactsOf(ds));
    }
    forall d ensures multiset(duplicates + main)[d] == ExpectedCount(d, m, p) {
      assert d.fact in facts <==> d.fact in Elements(facts);
      assert multiset(duplicates + main)[d] == multiset(duplicates)[d] + multiset(main)[d];
    }
  }

  // ---- Projection ----

  method SortDecisions(unsorted: seq<EventResolution>) returns (sorted: seq<EventResolution>)
    ensures SortedBy(sorted, ResolutionLess) && multiset(sorted) == multiset(unsorted)
  {
    var buffer := new EventResolution[|unsorted|](i requires 0 <= i < |unsorted| => unsorted[i]);
    assert buffer[..] == unsorted;
    ResolutionLessOrdered();
    SortSlice(buffer, ResolutionLess);
    sorted := buffer[..];
  }

  ghost predicate AcceptedOnce(decisions: seq<EventResolution>) {
    forall i, j :: 0 <= i < j < |decisions| && decisions[i].action == ProcessNow && decisions[j].action == ProcessNow
                   ==> decisions[i].fact != decisions[j].fact
  }

  method CollectAccepted(decisions: seq<EventResolution>) returns (accepted: seq<CanonicalFact>)
    ensures forall f :: f in accepted <==> exists d :: d in decisions && d.action == ProcessNow && d.fact == f
    ensures |accepted| <= |decisions|
    ensures AcceptedOnce(decisions) ==> Distinct(accepted)
  {
    accepted := [];
    for i := 0 to |decisions|
      invariant |accepted| <= i
      invariant forall f :: f in accepted <==> exists d :: d in decisions[..i] && d.action == ProcessNow && d.fact == f
      invariant AcceptedOnce(decisions) ==> Distinct(accepted)
      invariant forall f :: f in accepted ==>
                  exists j :: 0 <= j < i && decisions[j].action == ProcessNow && decisions[j].fact == f
    {
      assert decisions[..i + 1] == decisions[..i] + [decisions[i]];
      if decisions[i].action != ProcessNow {
        continue;
      }
      assert AcceptedOnce(decisions) ==> decisions[i].fact !in accepted;
      accepted := accepted + [decisions[i].fact];
    }
    assert decisions[..|decisions|] == decisions;
  }

  /** The last fact of an ordered run is the latest of everything before it. */
  lemma LatestIsNew(s: set<CanonicalFact>, t: set<CanonicalFact>, f: CanonicalFact)
    requires Stamped(s + {f}) && KeysUnique(s + {f}) && t <= s
    requires forall g :: g in s ==> !FactLess(f, g)
    ensures Latest(t + {f}) == f
  {
    FactLessCases(f, f);
    LatestUnique(t + {f}, f);
  }

  /** Applying the next fact in order turns the last-writer projection of what
      came before into the last-writer projection of all of it. */
  lemma FoldStep(s: set<CanonicalFact>, f: CanonicalFact)
    requires Stamped(s + {f}) && KeysUnique(s + {f})
    requires forall g :: g in s ==> !FactLess(f, g) && g.subjectID == f.subjectID
    ensures LastWriter(s + {f}) == Applied(if s == {} then Blank(f.subjectID) else LastWriter(s), f)
  {
    var before := if s == {} then Blank(f.subjectID) else LastWriter(s);
    LatestIsNew(s, s, f);
    FoldAttributes(s, f);
    FoldState(s, f);
    assert s == {} ==> LatestAttributes(s) == map[];
    assert before.attributes == LatestAttributes(s);
    assert s != {} ==> Latest(s).subjectID == f.subjectID;
  }

  lemma FoldAttributes(s: set<CanonicalFact>, f: CanonicalFact)
    requires Stamped(s + {f}) && KeysUnique(s + {f})
    requires forall g :: g in s ==> !FactLess(f, g)
    ensures LatestAttributes(s + {f}) == LatestAttributes(s) + f.attributes
  {
    assert AttributeNames(s + {f}) == AttributeNames(s) + f.attributes.Keys;
    forall k | k in AttributeNames(s + {f})
      ensures LatestAttributes(s + {f})[k] == (LatestAttributes(s) + f.attributes)[k]
    {
      if k in f.attributes {
        assert Carrying(s + {f}, k) == Carrying(s, k) + {f};
        LatestIsNew(s, Carrying(s, k), f);
      } else {
        assert Carrying(s + {f}, k) == Carrying(s, k);
      }
    }
  }

  lemma FoldState(s: set<CanonicalFact>, f: CanonicalFact)
    requires Stamped(s + {f}) && KeysUnique(s + {f})
    requires forall g :: g in s ==> !FactLess(f, g)
    ensures LatestState(s + {f}) == if f.eventType.ChangesState() then StateAfter(f.eventType) else LatestState(s)
  {
    if f.eventType.ChangesState() {
      assert StateChanging(s + {f}) == StateChanging(s) + {f};
      LatestIsNew(s, StateChanging(s), f);
    } else {
      assert StateChanging(s + {f}) == StateChanging(s);
    }
  }

  /** Another fact touches the projection of its own subject only. */
  lemma FoldAll(s: set<CanonicalFact>, f: CanonicalFact)
    ensures f.subjectID in SubjectsOf(s + {f})
    ensures Projections(s + {f}) == Projections(s)[f.subjectID := ProjectionOf(s + {f}, f.subjectID)]
  {
    SubjectsGrow(s, f);
    forall subject | subject in SubjectsOf(s) && subject != f.subjectID
      ensures Projections(s + {f})[subject] == Projections(s)[subject]
    {
      FoldOthers(s, f, subject);
    }
    UpdatedMap(Projections(s), Projections(s + {f}), f.subjectID);
  }

  lemma FoldOthers(s: set<CanonicalFact>, f: CanonicalFact, subject: string)
    requires subject in SubjectsOf(s) && subject != f.subjectID
    ensures subject in SubjectsOf(s + {f}) && ProjectionOf(s + {f}, subject) == ProjectionOf(s, subject)
  {
    SubjectsGrow(s, f);
    assert OfSubject(s + {f}, subject) == OfSubject(s, subject);
  }

  lemma SubjectsGrow(s: set<CanonicalFact>, f: CanonicalFact)
    ensures SubjectsOf(s + {f}) == SubjectsOf(s) + {f.subjectID}
  {
  }

  lemma FoldSubject(s: set<CanonicalFact>, f: CanonicalFact)
    requires Stamped(s + {f}) && KeysUnique(s + {f})
    requires forall g :: g in s ==> !FactLess(f, g)
    ensures f.subjectID in SubjectsOf(s + {f})
    ensures ProjectionOf(s + {f}, f.subjectID)
         == Applied(if f.subjectID in SubjectsOf(s) then ProjectionOf(s, f.subjectID) else Blank(f.subjectID), f)
  {
    var mine := OfSubject(s, f.subjectID);
    SubjectsGrow(s, f);
    assert OfSubject(s + {f}, f.subjectID) == mine + {f};
    FoldStep(mine, f);
    if f.subjectID in SubjectsOf(s) {
      var g :| g in s && g.subjectID == f.subjectID;
      assert g in mine;
    } else {
      assert mine == {};
    }
  }

  lemma FoldNext(accepted: seq<CanonicalFact>, i: nat)
    requires i < |accepted| && SortedBy(accepted, FactLess) && Distinct(accepted)
    requires Stamped(Elements(accepted)) && KeysUnique(Elements(accepted))
    ensures var s, f := Elements(accepted[..i]), accepted[i];
            var before := if f.subjectID in Projections(s) then Projections(s)[f.subjectID] else Blank(f.subjectID);
            Projections(Elements(accepted[..i + 1])) == Projections(s)[f.subjectID := Applied(before, f)]
  {
    var s, f := Elements(accepted[..i]), accepted[i];
    assert accepted[..i + 1] == accepted[..i] + [f];
    ElementsAppend(accepted[..i], f);
    assert s + {f} <= Elements(accepted);
    FoldAll(s, f);
    FoldSubject(s, f);
  }

  method Fold(accepted: seq<CanonicalFact>) returns (projections: map<string, IdentityProjection>)
    requires SortedBy(accepted, FactLess) && Distinct(accepted)
    requires Stamped(Elements(accepted)) && KeysUnique(Elements(accepted))
    ensures projections == Projections(Elements(accepted))
  {
    projections := map[];
    assert Projections(Elements(accepted[..0])) == map[];
    for i := 0 to |accepted|
      invariant projections == Projections(Elements(accepted[..i]))
    {
      var fact := accepted[i];
      var projection := Blank(fact.subjectID);
      if fact.subjectID in projections {
        projection := projections[fact.subjectID];
      }
      var ref := new ProjectionRef(projection);
      ApplyFact(ref, fact);
      projections := projections[fact.subjectID := ref.value];
      FoldNext(accepted, i);
    }
    assert accepted[..|accepted|] == accepted;
  }

  method Project(decisions: seq<EventResolution>, ghost s: set<CanonicalFact>, ghost policy: Policy)
    returns (projections: map<string, IdentityProjection>)
    requires Stamped(s) && KeysUnique(s)
    requires forall d :: d in decisions && d.action == ProcessNow ==> d == DecisionFor(s, policy, d.fact) && d.fact in s
    requires forall f :: f in s ==> multiset(decisions)[DecisionFor(s, policy, f)] == 1
    ensures projections == Projections(AcceptedFacts(s, policy))
  {
    var accepted := CollectAccepted(decisions);
    OneDecisionEach(decisions, s, policy);
    var buffer := new CanonicalFact[|accepted|](i requires 0 <= i < |accepted| => accepted[i]);
    assert buffer[..] == accepted;
    FactLessOrdered();
    SortSlice(buffer, FactLess);
    var sorted := buffer[..];
    DistinctPermutes(accepted, sorted);
    PermutationElements(accepted, sorted);
    CollectedIsAccepted(decisions, accepted, s, policy);
    projections := Fold(sorted);
  }

  lemma OneDecisionEach(decisions: seq<EventResolution>, s: set<CanonicalFact>, p: Policy)
    requires forall d :: d in decisions && d.action == ProcessNow ==> d == DecisionFor(s, p, d.fact) && d.fact in s
    requires forall f :: f in s ==> multiset(decisions)[DecisionFor(s, p, f)] == 1
    ensures AcceptedOnce(decisions)
  {
    forall i, j | 0 <= i < j < |decisions| && decisions[i].action == ProcessNow && decisions[j].action == ProcessNow
      ensures decisions[i].fact != decisions[j].fact
    {
      var front, back := decisions[..j], decisions[j..];
      assert decisions == front + back;
      assert decisions[i] in multiset(front) && decisions[j] in multiset(back);
      var d := DecisionFor(s, p, decisions[j].fact);
      assert multiset(decisions)[d] == multiset(front)[d] + multiset(back)[d];
    }
  }

  lemma CollectedIsAccepted(
    decisions: seq<EventResolution>, accepted: seq<CanonicalFact>, s: set<CanonicalFact>, p: Policy)
    requires forall d :: d in decisions && d.action == ProcessNow ==> d == DecisionFor(s, p, d.fact) && d.fact in s
    requires forall f :: f in s ==> multiset(decisions)[DecisionFor(s, p, f)] == 1
    requires forall f :: f in accepted <==> exists d :: d in decisions && d.action == ProcessNow && d.fact == f
    ensures Elements(accepted) == AcceptedFacts(s, p)
  {
  }

  // ---- The batch ----

  method ResolveBatch(events: seq<PhysicalEvent>, policy: Policy) returns (r: Result<BatchResult, BatchError>)
    ensures IsResultOf(r, events, policy)
  {
    var invalid := policy.Validate();
    if invalid.Some? {
      return Err(BadPolicy(invalid.value));
    }
    ghost var ds := Deliveries(events, policy.now);
    FailsIffNotOk(ds);
    var deduplicated := Deduplicate(events, policy.now);
    if deduplicated.Err? {
      return Err(deduplicated.error);
    }
    var (facts, duplicates) := deduplicated.value;
    BatchFacts(events, policy.now);
    var winners := SelectWinners(facts);
    var main := DecideAll(facts, winners, policy);
    match main {
      case Err(cause) => return Err(BadPolicy(cause));
      case Ok(_) =>
    }
    CountsAdd(ds, facts, duplicates, main.value, policy);
    var decisions := SortDecisions(duplicates + main.value);
    ghost var m := multiset(FactsOf(ds));
    DecisionsAsExpected(decisions, m, policy);
    FactSetOfSeq(FactsOf(ds));
    var projections := Project(decisions, FactSet(m), policy);
    return Ok(BatchResult(decisions, projections));
  }

  lemma DecisionsAsExpected(decisions: seq<EventResolution>, m: multiset<CanonicalFact>, p: Policy)
    requires forall d :: multiset(decisions)[d] == ExpectedCount(d, m, p)
    ensures forall d :: d in decisions && d.action == ProcessNow ==>
              d == DecisionFor(FactSet(m), p, d.fact) && d.fact in FactSet(m)
    ensures forall f :: f in FactSet(m) ==> multiset(decisions)[DecisionFor(FactSet(m), p, f)] == 1
  {
    forall d | d in decisions && d.action == ProcessNow
      ensures d == DecisionFor(FactSet(m), p, d.fact) && d.fact in FactSet(m)
    {
      assert d in multiset(decisions);
      assert ExpectedCount(d, m, p) > 0;
    }
    forall f | f in FactSet(m) ensures multiset(decisions)[DecisionFor(FactSet(m), p, f)] == 1 {
      var d := DecisionFor(FactSet(m), p, f);
      assert d.fact == f && d.reason != DuplicateDelivery;
    }
  }
}
