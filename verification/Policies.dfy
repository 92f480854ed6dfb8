/** The temporal and source-scope policy. */
module Policies {
  import opened Base
  import opened Model

  datatype PolicyError = NowRequired | NegativeRetroactiveWindow | NegativeHireWindow | NegativePastEndGrace

  /** time.Time.Sub: the difference, saturated to what a Duration holds. */
  function Sub(a: Time, b: Time): Duration {
    var d := a - b;
    if d > MAX_DURATION as int then MAX_DURATION
    else if d < -0x8000_0000_0000_0000 then -0x8000_0000_0000_0000
    else d
  }

  datatype Policy = Policy(
    now: Time, cutoffTime: Option<Time>, retroactiveWindow: Duration, hireWindow: Duration, pastEndGrace: Duration)
  {
    function Validate(): Option<PolicyError> {
      if now == ZERO_TIME then Some(NowRequired)
      else if retroactiveWindow < 0 then Some(NegativeRetroactiveWindow)
      else if hireWindow < 0 then Some(NegativeHireWindow)
      else if pastEndGrace < 0 then Some(NegativePastEndGrace)
      else None
    }

    function Evaluate(fact: CanonicalFact): Result<(DecisionAction, ReasonCode), PolicyError> {
      match Validate()
      case Some(e) => Err(e)
      case None => Ok(Decide(fact))
    }

    /** The branches of Evaluate once the policy is known to be valid. */
    function Decide(fact: CanonicalFact): (DecisionAction, ReasonCode) {
      if fact.sourceScope == HireSnapshot && !fact.eventType.IsHire() then (NoOp, ScopeMismatch)
      else if fact.sourceScope == Lifecycle && fact.eventType.IsHire() then (NoOp, ScopeMismatch)
      else if fact.endTime.Some? && fact.endTime.value < now - pastEndGrace then (Skip, PastEndTime)
      else if cutoffTime.Some? && fact.effectiveTime < cutoffTime.value then
        if fact.modificationTime < now - retroactiveWindow then (Skip, PreCutoff)
        else (ProcessNow, AcceptedRetroactive)
      else if fact.effectiveTime > now then
        if !fact.eventType.IsHire() then (Skip, FutureLifecycle)
        else if Sub(fact.effectiveTime, now) <= hireWindow then (ProcessNow, Accepted)
        else (Schedule, ScheduledFutureHire)
      else (ProcessNow, Accepted)
    }

    predicate Accepts(fact: CanonicalFact) {
      Decide(fact).0 == ProcessNow
    }
  }

  const HOUR: Duration := 3_600_000_000_000

  /** The reference policy. */
  function DefaultPolicy(now: Time): Policy {
    Policy(now, None, 48 * HOUR, 72 * HOUR, 72 * HOUR)
  }

  predicate InScope(fact: CanonicalFact) {
    fact.sourceScope == HireSnapshot <==> fact.eventType in {Hire, Rehire}
  }

  /** What the reference policy is documented to do, in exact time: facts out of
      scope and facts that ended over 72 hours ago are left aside, all past and
      current ones are processed, a future hire is processed within 72 hours and
      scheduled beyond, and other future changes are skipped. */
  lemma DefaultPolicyAsDocumented(now: Time, f: CanonicalFact)
    requires now != ZERO_TIME
    ensures DefaultPolicy(now).Validate().None?
    ensures var hours, hire := 3_600 * 1_000_000_000, f.eventType in {Hire, Rehire};
            DefaultPolicy(now).Decide(f) ==
            (if hire != (f.sourceScope == HireSnapshot) then (NoOp, ScopeMismatch)
             else if f.endTime.Some? && now - f.endTime.value > 72 * hours then (Skip, PastEndTime)
             else if f.effectiveTime <= now then (ProcessNow, Accepted)
             else if !hire then (Skip, FutureLifecycle)
             else if f.effectiveTime - now <= 72 * hours then (ProcessNow, Accepted)
             else (Schedule, ScheduledFutureHire))
  {
  }

  /** With a cutoff, it lets a correction cross it for 48 hours. */
  lemma DefaultRetroactiveWindow(now: Time, cutoff: Time, f: CanonicalFact)
    requires now != ZERO_TIME && f.effectiveTime < cutoff && InScope(f) && f.endTime.None?
    ensures DefaultPolicy(now).(cutoffTime := Some(cutoff)).Decide(f)
         == if now - f.modificationTime <= 48 * 3_600 * 1_000_000_000 then (ProcessNow, AcceptedRetroactive)
            else (Skip, PreCutoff)
  {
  }

  /** Exactly which facts a policy with a hire window below the maximum lets
      through to a projection, in exact arithmetic. */
  lemma AcceptedIff(p: Policy, f: CanonicalFact)
    requires p.Validate().None? && p.hireWindow < MAX_DURATION
    ensures p.Accepts(f) <==>
      && InScope(f)
      && (f.endTime.Some? ==> p.now - f.endTime.value <= p.pastEndGrace as int)
      && (if p.cutoffTime.Some? && f.effectiveTime < p.cutoffTime.value
          then p.now - f.modificationTime <= p.retroactiveWindow as int
          else f.effectiveTime <= p.now
               || (f.eventType in {Hire, Rehire} && f.effectiveTime - p.now <= p.hireWindow as int))
  {
  }

  /** When each decision is taken, by the names of types and scopes and in
      exact arithmetic. Hires and rehires belong to hire snapshots, the six
      other types to the lifecycle scope, and no other pairing is looked at. A
      hire window of the largest Duration is unbounded, since the difference
      saturates there. */
  lemma DecisionTable(p: Policy, f: CanonicalFact)
    requires p.Validate().None?
    ensures var hire := f.eventType in {Hire, Rehire};
            var paired := if hire then f.sourceScope == HireSnapshot else f.sourceScope == Lifecycle;
            var ended := f.endTime.Some? && p.now - f.endTime.value > p.pastEndGrace as int;
            var early := p.cutoffTime.Some? && f.effectiveTime < p.cutoffTime.value;
            var corrected := p.now - f.modificationTime <= p.retroactiveWindow as int;
            var near := p.hireWindow == 0x7fff_ffff_ffff_ffff || f.effectiveTime - p.now <= p.hireWindow as int;
            var decision := p.Evaluate(f);
            && (decision == Ok((NoOp, ScopeMismatch)) <==> !paired)
            && (decision == Ok((Skip, PastEndTime)) <==> paired && ended)
            && (decision == Ok((Skip, PreCutoff)) <==> paired && !ended && early && !corrected)
            && (decision == Ok((ProcessNow, AcceptedRetroactive)) <==> paired && !ended && early && corrected)
            && (decision == Ok((Skip, FutureLifecycle))
                <==> paired && !ended && !early && f.effectiveTime > p.now && !hire)
            && (decision == Ok((Schedule, ScheduledFutureHire))
                <==> paired && !ended && !early && f.effectiveTime > p.now && hire && !near)
            && (decision == Ok((ProcessNow, Accepted))
                <==> paired && !ended && !early && (f.effectiveTime <= p.now || (hire && near)))
  {
  }

  /** A policy is refused for the first of four reasons, and for no other. */
  lemma PolicyRefusedFor(p: Policy, f: CanonicalFact)
    ensures p.Evaluate(f) == Err(NowRequired) <==> p.now == 0
    ensures p.Evaluate(f) == Err(NegativeRetroactiveWindow) <==> p.now != 0 && p.retroactiveWindow < 0
    ensures p.Evaluate(f) == Err(NegativeHireWindow)
       <==> p.now != 0 && p.retroactiveWindow >= 0 && p.hireWindow < 0
    ensures p.Evaluate(f) == Err(NegativePastEndGrace)
       <==> p.now != 0 && p.retroactiveWindow >= 0 && p.hireWindow >= 0 && p.pastEndGrace < 0
    ensures p.Evaluate(f).Err? ==> p.Validate() == Some(p.Evaluate(f).error)
  {
  }

  /** Where a fact stands in time. A scope mismatch is timeless. */
  datatype Phase = Mismatched | NotYet | Processed | Expired {
    /** Time moves a fact forward through the last three phases only. */
    predicate Precedes(later: Phase) {
      || this == later
      || (this == NotYet && later != Mismatched)
      || (this == Processed && later == Expired)
    }
  }

  function PhaseOf(reason: ReasonCode): Phase {
    match reason
    case ScopeMismatch => Mismatched
    case FutureLifecycle => NotYet
    case ScheduledFutureHire => NotYet
    case Accepted => Processed
    case AcceptedRetroactive => Processed
    case _ => Expired
  }

  /** As the clock advances, a fact is waiting, then processed, then expired;
      it never goes back. */
  lemma ClockNeverMovesAFactBack(p: Policy, later: Time, f: CanonicalFact, g: CanonicalFact)
    requires p.now <= later && g == f.(receivedAt := g.receivedAt)
    ensures PhaseOf(p.Decide(f).1).Precedes(PhaseOf(p.(now := later).Decide(g).1))
  {
  }

  /** The processed phase is exactly the facts that are projected. */
  lemma ProcessedIsAccepted(p: Policy, f: CanonicalFact)
    ensures p.Accepts(f) <==> PhaseOf(p.Decide(f).1) == Processed
  {
  }

  /** The saturated hire-window test is the exact one for every pair of instants
      if and only if the window is below the largest Duration. */
  lemma SaturationIsExactIff(window: Duration)
    ensures (forall a: Time, b: Time :: Sub(a, b) <= window <==> a - b <= window) <==> window < MAX_DURATION
  {
    if window == MAX_DURATION {
      var a: Time, b: Time := 0x8000_0000_0000_0000, 0;
      assert Sub(a, b) <= window && !(a - b <= window);
    }
  }
}
