/** What the columns hold and what each statement answers, written out. */
module StoreColumns {
  import opened Base
  import opened Model
  import opened Stores
  import opened StoreRuns
  import opened StoreRefinement

  // ---- Time columns ----

  /** A stored time is a whole number of microseconds, the nearest to what was
      sent; of two equally near, the even one. */
  lemma RoundsToNearest(t: Time)
    ensures ToMicros(t) % 1000 == 0
    ensures -500 <= ToMicros(t) - t <= 500
    ensures (ToMicros(t) - t == 500 || t - ToMicros(t) == 500) ==> ToMicros(t) / 1000 % 2 == 0
  {
  }

  /** An optional time column holds a time exactly if one was sent. */
  predicate HoldsOption(stored: Option<Time>, sent: Option<Time>) {
    (stored.Some? <==> sent.Some?) && (sent.Some? ==> stored.value == ToMicros(sent.value))
  }

  /** The freshness columns order strictly before a tuple that is sent: the
      first column that differs decides. */
  predicate ColumnsOlder(sequence: int, modified: Time, revision: int, key: string, sent: FreshnessTuple) {
    || sequence < sent.sourceSequence
    || (sequence == sent.sourceSequence && modified < ToMicros(sent.modificationTime))
    || (sequence == sent.sourceSequence && modified == ToMicros(sent.modificationTime)
        && revision < sent.revisionNumber)
    || (sequence == sent.sourceSequence && modified == ToMicros(sent.modificationTime)
        && revision == sent.revisionNumber && StrLess(key, sent.physicalEventKey))
  }

  // ---- canonical_state ----

  predicate StateHolds(row: IdentityProjection, p: IdentityProjection, version: int) {
    && row.subjectID == p.subjectID && row.rowVersion == version
    && row.present == p.present && row.enabled == p.enabled && row.lifecycleState == p.lifecycleState
    && row.attributes == p.attributes
    && row.sourceFactKey == p.sourceFactKey && row.sourceEventKey == p.sourceEventKey
    && row.effectiveTime == ToMicros(p.effectiveTime)
    && row.freshness.sourceSequence == p.freshness.sourceSequence
    && row.freshness.modificationTime == ToMicros(p.freshness.modificationTime)
    && row.freshness.revisionNumber == p.freshness.revisionNumber
    && row.freshness.physicalEventKey == p.freshness.physicalEventKey
  }

  /** Every row of canonical_state holds, column by column, what the last
      successful call for its subject sent, under the version that counts the
      calls before it. */
  lemma StateRowHoldsTheLastCall(ops: seq<Op>, subject: string) returns (i: nat)
    requires subject in Run(ops).state
    ensures i < |ops| && CasSucceeds(Run(ops[..i]), ops[i], subject)
    ensures forall j :: i < j < |ops| ==> !CasSucceeds(Run(ops[..j]), ops[j], subject)
    ensures StateHolds(Run(ops).state[subject], ops[i].projection, Successes(ops, subject) - 1)
  {
    i := RowIsTheLastSuccess(ops, subject);
  }

  /** What a compare-and-set answers, and what it leaves. */
  lemma CasAnswers(t: Tables, expected: int, p: IdentityProjection)
    ensures var (t', answer) := Step(t, Cas(expected, p));
            var known := p.subjectID in t.state;
            var legal := p.freshness.sourceSequence >= 0 && p.freshness.revisionNumber >= 0;
            var applies := if known
                           then t.state[p.subjectID].rowVersion == expected
                                && Outdated(t.state[p.subjectID], p)
                           else expected == 0;
            && (answer == Err(NegativeVersion) <==> expected < 0)
            && (answer == Err(CheckViolation) <==> expected >= 0 && !legal && (expected == 0 || applies))
            && (answer == Ok(false) <==> expected >= 0 && !applies && (legal || expected > 0))
            && (answer == Ok(true) <==> expected >= 0 && applies && legal)
            && t'.events == t.events && t'.facts == t.facts
            && (answer != Ok(true) ==> t' == t)
            && (answer == Ok(true) ==>
                  && t'.state.Keys == t.state.Keys + {p.subjectID}
                  && StateHolds(t'.state[p.subjectID], p, if known then t.state[p.subjectID].rowVersion + 1 else 0)
                  && forall k :: k in t.state && k != p.subjectID ==> t'.state[k] == t.state[k])
  {
    if p.subjectID in t.state {
      OutdatedIff(t.state[p.subjectID], p);
    }
  }

  predicate Outdated(row: IdentityProjection, p: IdentityProjection) {
    ColumnsOlder(row.freshness.sourceSequence, row.freshness.modificationTime, row.freshness.revisionNumber,
                 row.freshness.physicalEventKey, p.freshness)
  }

  lemma OutdatedIff(row: IdentityProjection, p: IdentityProjection)
    ensures Outdated(row, p) <==> row.freshness.OlderThan(StoredFreshness(p.freshness))
  {
    SqlAgreesWithCompare(row.freshness, StoredFreshness(p.freshness));
  }

  // ---- physical_events ----

  /** Everything but the receipt. */
  predicate EventHolds(row: PhysicalRow, f: CanonicalFact) {
    && row.subjectID == f.subjectID && row.eventType == f.eventType && row.sourceScope == f.sourceScope
    && row.effectiveTime == ToMicros(f.effectiveTime) && HoldsOption(row.endTime, f.endTime)
    && row.modificationTime == ToMicros(f.modificationTime)
    && row.sourceSequence == f.freshness.sourceSequence && row.revisionNumber == f.freshness.revisionNumber
    && row.payload == f.payload && row.payloadHash == f.payloadHash
  }

  /** What an insert answers, and what it leaves. */
  lemma InsertAnswers(t: Tables, f: CanonicalFact)
    ensures var (t', answer) := Step(t, Insert(f));
            var legal := f.freshness.sourceSequence >= 0 && f.freshness.revisionNumber >= 0;
            && (answer == Err(CheckViolation) <==> !legal)
            && (answer == Ok(true) <==> legal && f.eventKey !in t.events)
            && (answer == Ok(false) <==> legal && f.eventKey in t.events && EventHolds(t.events[f.eventKey], f))
            && (answer == Err(EventConflict(f.eventKey))
                <==> legal && f.eventKey in t.events && !EventHolds(t.events[f.eventKey], f))
            && t'.facts == t.facts && t'.state == t.state
            && (answer != Ok(true) ==> t' == t)
            && (answer == Ok(true) ==>
                  && t'.events.Keys == t.events.Keys + {f.eventKey}
                  && EventHolds(t'.events[f.eventKey], f)
                  && t'.events[f.eventKey].receivedAt == ToMicros(f.receivedAt)
                  && forall k :: k in t.events ==> t'.events[k] == t.events[k])
  {
  }

  /** Every row of physical_events holds, column by column, what the first
      legal insert under its key sent. */
  lemma {:induction false} EventRowHoldsTheFirstInsert(ops: seq<Op>, key: string) returns (i: nat)
    requires key in Run(ops).events
    ensures i < |ops| && ops[i].Insert? && ops[i].fact.eventKey == key && ResponseTo(ops, i) == Ok(true)
    ensures key !in Run(ops[..i]).events
    ensures EventHolds(Run(ops).events[key], ops[i].fact)
    ensures Run(ops).events[key].receivedAt == ToMicros(ops[i].fact.receivedAt)
  {
    var n := |ops| - 1;
    var init := ops[..n];
    if key in Run(init).events {
      i := EventRowHoldsTheFirstInsert(init, key);
      assert init[..i] == ops[..i];
      EventsImmutable(ops, n, key);
    } else {
      i := n;
      InsertAnswers(Run(init), ops[n].fact);
    }
  }

  // ---- canonical_facts ----

  /** The columns an upsert writes. */
  predicate RevisionHolds(row: FactRow, f: CanonicalFact) {
    && row.eventKey == f.eventKey && HoldsOption(row.endTime, f.endTime)
    && row.modificationTime == ToMicros(f.modificationTime)
    && row.sourceSequence == f.freshness.sourceSequence && row.revisionNumber == f.freshness.revisionNumber
    && row.payload == f.payload && row.attributes == f.attributes && row.payloadHash == f.payloadHash
    && row.receivedAt == ToMicros(f.receivedAt)
  }

  /** The columns only an insert writes. */
  predicate IdentityHolds(row: FactRow, f: CanonicalFact) {
    && row.subjectID == f.subjectID && row.sourceScope == f.sourceScope && row.eventType == f.eventType
    && row.effectiveTime == ToMicros(f.effectiveTime)
  }

  predicate IdentityTaken(t: Tables, f: CanonicalFact) {
    exists k :: k in t.facts && IdentityHolds(t.facts[k], f)
  }

  /** The stored revision is older than one sent with these columns. */
  predicate Stale(row: FactRow, f: CanonicalFact) {
    ColumnsOlder(row.sourceSequence, row.modificationTime, row.revisionNumber, row.eventKey,
                 FreshnessTuple(f.freshness.sourceSequence, f.modificationTime, f.freshness.revisionNumber, f.eventKey))
  }

  lemma StaleIff(row: FactRow, f: CanonicalFact)
    ensures Stale(row, f) <==> row.Freshness().OlderThan(FactRowOf(f).Freshness())
  {
    SqlAgreesWithCompare(row.Freshness(), FactRowOf(f).Freshness());
  }

  lemma TakenIff(t: Tables, f: CanonicalFact)
    ensures IdentityTaken(t, f) <==> exists k :: k in t.facts && SameIdentity(t.facts[k], FactRowOf(f))
  {
    if k :| k in t.facts && IdentityHolds(t.facts[k], f) {
      assert SameIdentity(t.facts[k], FactRowOf(f));
    }
    if k :| k in t.facts && SameIdentity(t.facts[k], FactRowOf(f)) {
      assert IdentityHolds(t.facts[k], f);
    }
  }

  /** What an upsert answers, and what it leaves. */
  lemma UpsertAnswers(t: Tables, f: CanonicalFact)
    ensures var (t', answer) := Step(t, Upsert(f));
            var legal := f.freshness.sourceSequence >= 0 && f.freshness.revisionNumber >= 0;
            var known := f.factKey in t.facts;
            var stale := known && Stale(t.facts[f.factKey], f);
            var taken := !known && IdentityTaken(t, f);
            && (answer == Err(CheckViolation) <==> !legal)
            && (answer == Ok(false) <==> legal && known && !stale)
            && (answer == Err(UniqueViolation) <==> legal && taken)
            && (answer == Err(ForeignKeyViolation)
                <==> legal && (known ==> stale) && !taken && f.eventKey !in t.events)
            && (answer == Ok(true) <==> legal && (known ==> stale) && !taken && f.eventKey in t.events)
            && t'.events == t.events && t'.state == t.state
            && (answer != Ok(true) ==> t' == t)
            && (answer == Ok(true) ==> Replaced(t, f, t'))
  {
    TakenIff(t, f);
    if f.factKey in t.facts {
      StaleIff(t.facts[f.factKey], f);
    }
  }

  /** The fact has its row: a new one, or the old one with its identity kept. */
  predicate Replaced(t: Tables, f: CanonicalFact, t': Tables) {
    && t'.facts.Keys == t.facts.Keys + {f.factKey}
    && RevisionHolds(t'.facts[f.factKey], f)
    && (if f.factKey in t.facts then SameIdentity(t'.facts[f.factKey], t.facts[f.factKey])
        else IdentityHolds(t'.facts[f.factKey], f))
    && forall k :: k in t.facts && k != f.factKey ==> t'.facts[k] == t.facts[k]
  }

  /** Every row of canonical_facts holds the revision that the last successful
      upsert under its key sent, with the identity the first one sent. */
  lemma {:induction false} FactRowHoldsTheLastUpsert(ops: seq<Op>, key: string) returns (first: nat, last: nat)
    requires key in Run(ops).facts
    ensures first <= last < |ops| && key !in Run(ops[..first]).facts
    ensures Writes(ops, first, key) && Writes(ops, last, key)
    ensures forall j :: last < j < |ops| ==> !Writes(ops, j, key)
    ensures RevisionHolds(Run(ops).facts[key], ops[last].fact) && IdentityHolds(Run(ops).facts[key], ops[first].fact)
  {
    var n := |ops| - 1;
    var init := ops[..n];
    LastUpsert(ops, key);
    if key in Run(init).facts {
      first, last := FactRowHoldsTheLastUpsert(init, key);
      assert init[..first] == ops[..first] && init[..last] == ops[..last];
      forall j | last < j < n ensures !Writes(ops, j, key) {
        assert init[..j] == ops[..j] && !Writes(init, j, key);
      }
      if Writes(ops, n, key) {
        last := n;
      }
    } else {
      first, last := n, n;
    }
  }

  /** What the last statement of a run does to the row of a key. */
  lemma LastUpsert(ops: seq<Op>, key: string)
    requires ops != []
    ensures var n := |ops| - 1;
            var before, after := Run(ops[..n]).facts, Run(ops).facts;
            && (!Writes(ops, n, key) ==>
                  (key in after <==> key in before) && (key in after ==> after[key] == before[key]))
            && (Writes(ops, n, key) ==>
                  && key in after && RevisionHolds(after[key], ops[n].fact)
                  && if key in before then SameIdentity(after[key], before[key])
                     else IdentityHolds(after[key], ops[n].fact))
  {
    var n := |ops| - 1;
    if ops[n].Upsert? {
      UpsertAnswers(Run(ops[..n]), ops[n].fact);
    }
  }

  /** A call that put the row of this key in place. */
  ghost predicate Writes(ops: seq<Op>, i: nat, key: string)
    requires i < |ops|
  {
    ops[i].Upsert? && ops[i].fact.factKey == key && ResponseTo(ops, i) == Ok(true)
  }

  // ---- Constraints ----

  /** What the schema demands of the counters, row by row. */
  ghost predicate CountersLegal(t: Tables) {
    && (forall k :: k in t.events ==> t.events[k].sourceSequence >= 0 && t.events[k].revisionNumber >= 0)
    && (forall k :: k in t.facts ==> t.facts[k].sourceSequence >= 0 && t.facts[k].revisionNumber >= 0)
    && (forall k :: k in t.state ==>
          && t.state[k].subjectID == k && t.state[k].rowVersion >= 0
          && t.state[k].freshness.sourceSequence >= 0 && t.state[k].freshness.revisionNumber >= 0)
  }

  /** The foreign key of canonical_facts. */
  ghost predicate EventsThere(t: Tables) {
    forall k :: k in t.facts ==> t.facts[k].eventKey in t.events
  }

  /** In every run, however its callers behave, counters and versions are never
      negative, every fact row refers to a stored event, and no two fact rows
      share an identity. */
  lemma {:induction false} SchemaAlwaysHolds(ops: seq<Op>)
    ensures CountersLegal(Run(ops)) && EventsThere(Run(ops)) && IdentitiesDistinct(Run(ops))
  {
    IdentitiesAlways(ops);
    if ops != [] {
      SchemaAlwaysHolds(ops[..|ops| - 1]);
      CountersStayLegal(Run(ops[..|ops| - 1]), ops[|ops| - 1]);
      EventsStayThere(Run(ops[..|ops| - 1]), ops[|ops| - 1]);
    }
  }

  lemma CountersStayLegal(t: Tables, op: Op)
    requires CountersLegal(t)
    ensures CountersLegal(Step(t, op).0)
  {
  }

  lemma EventsStayThere(t: Tables, op: Op)
    requires EventsThere(t)
    ensures EventsThere(Step(t, op).0)
  {
  }
}
