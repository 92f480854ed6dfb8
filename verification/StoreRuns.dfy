/** Runs of the store: any number of callers, any interleaving of their
    statements, from empty tables. */
module StoreRuns {
  import opened Base
  import opened Model
  import opened Canonicalization
  import opened ResolveSpec
  import opened Stores

  ghost function Run(ops: seq<Op>): Tables {
    if ops == [] then EMPTY else Step(Run(ops[..|ops| - 1]), ops[|ops| - 1]).0
  }

  ghost function ResponseTo(ops: seq<Op>, i: nat): Response
    requires i < |ops|
  {
    Step(Run(ops[..i]), ops[i]).1
  }

  lemma RunPrefix(ops: seq<Op>, i: nat)
    requires i < |ops|
    ensures Run(ops[..i + 1]) == Step(Run(ops[..i]), ops[i]).0
  {
    assert ops[..i + 1][..i] == ops[..i];
  }

  // ---- Compare-and-set ----

  ghost predicate CasSucceeds(t: Tables, op: Op, subject: string) {
    op.Cas? && op.projection.subjectID == subject && Step(t, op).1 == Ok(true)
  }

  /** Successful compare-and-set calls on a subject. */
  ghost function Successes(ops: seq<Op>, subject: string): nat {
    if ops == [] then 0
    else
      var init := ops[..|ops| - 1];
      Successes(init, subject) + if CasSucceeds(Run(init), ops[|ops| - 1], subject) then 1 else 0
  }

  /** Of these, the ones that expected a given version. */
  ghost function SuccessesAt(ops: seq<Op>, subject: string, version: int): nat {
    if ops == [] then 0
    else
      var init, last := ops[..|ops| - 1], ops[|ops| - 1];
      SuccessesAt(init, subject, version)
      + if CasSucceeds(Run(init), last, subject) && last.expected == version then 1 else 0
  }

  /** The successes one version can have had once the row reached another. */
  ghost function ExpectedSuccesses(row: int, version: int): nat {
    if version == 0 then (if row >= 1 then 2 else 1) else if 0 < version < row then 1 else 0
  }

  /** Over every run, the row version counts the successful calls; each
      positive version was consumed at most once, and version zero at most
      twice, once to insert and once to update. */
  lemma {:induction false} CasSafety(ops: seq<Op>, subject: string)
    ensures subject !in Run(ops).state ==> Successes(ops, subject) == 0 && forall v :: SuccessesAt(ops, subject, v) == 0
    ensures subject in Run(ops).state ==>
              var row := Run(ops).state[subject];
              && row.rowVersion == Successes(ops, subject) - 1
              && forall v :: SuccessesAt(ops, subject, v) == ExpectedSuccesses(row.rowVersion, v)
  {
    if ops != [] {
      CasSafety(ops[..|ops| - 1], subject);
    }
  }

  /** A row never disappears, its version never falls, and it changes only to
      a strictly fresher projection under a larger version. */
  ghost predicate Advanced(before: Tables, after: Tables, subject: string) {
    subject in before.state ==>
      && subject in after.state
      && before.state[subject].rowVersion <= after.state[subject].rowVersion
      && (before.state[subject].rowVersion == after.state[subject].rowVersion
          ==> before.state[subject] == after.state[subject])
      && (before.state[subject].rowVersion < after.state[subject].rowVersion
          ==> before.state[subject].freshness.OlderThan(after.state[subject].freshness))
  }

  lemma {:induction false} StateOnlyAdvances(ops: seq<Op>, n: nat, subject: string)
    requires n <= |ops|
    ensures Advanced(Run(ops[..n]), Run(ops), subject)
  {
    if n == |ops| {
      assert ops[..n] == ops;
    } else {
      var init := ops[..|ops| - 1];
      assert init[..n] == ops[..n];
      StateOnlyAdvances(init, n, subject);
      StepAdvances(Run(init), ops[|ops| - 1], subject);
      AdvancedTransitive(Run(ops[..n]), Run(init), Run(ops), subject);
    }
  }

  lemma StepAdvances(t: Tables, op: Op, subject: string)
    ensures Advanced(t, Step(t, op).0, subject)
  {
  }

  lemma AdvancedTransitive(a: Tables, b: Tables, c: Tables, subject: string)
    requires Advanced(a, b, subject) && Advanced(b, c, subject)
    ensures Advanced(a, c, subject)
  {
    if subject in a.state {
      var x, y, z := a.state[subject], b.state[subject], c.state[subject];
      if x.rowVersion < y.rowVersion < z.rowVersion {
        CompareTransitive(x.freshness, y.freshness, z.freshness);
      }
    }
  }

  /** Every row is what the last successful call for its subject set, as the
      columns hold it, under the version that counts the calls before it. */
  lemma {:induction false} RowIsTheLastSuccess(ops: seq<Op>, subject: string) returns (i: nat)
    requires subject in Run(ops).state
    ensures i < |ops| && CasSucceeds(Run(ops[..i]), ops[i], subject)
    ensures forall j :: i < j < |ops| ==> !CasSucceeds(Run(ops[..j]), ops[j], subject)
    ensures Run(ops).state[subject] == StateRowOf(ops[i].projection, Successes(ops, subject) - 1)
  {
    var n := |ops| - 1;
    var init := ops[..n];
    LastCall(ops, subject);
    if CasSucceeds(Run(init), ops[n], subject) {
      i := n;
    } else {
      i := RowIsTheLastSuccess(init, subject);
      assert init[..i] == ops[..i];
      forall j | i < j < |ops| ensures !CasSucceeds(Run(ops[..j]), ops[j], subject) {
        if j < n {
          assert init[..j] == ops[..j];
        }
      }
    }
  }

  lemma LastCall(ops: seq<Op>, subject: string)
    requires ops != []
    ensures var init, last := ops[..|ops| - 1], ops[|ops| - 1];
            if CasSucceeds(Run(init), last, subject)
            then && subject in Run(ops).state
                 && Run(ops).state[subject] == StateRowOf(last.projection, Successes(ops, subject) - 1)
            else && Successes(ops, subject) == Successes(init, subject)
                 && (subject in Run(ops).state <==> subject in Run(init).state)
                 && (subject in Run(ops).state ==> Run(ops).state[subject] == Run(init).state[subject])
  {
    CasSafety(ops[..|ops| - 1], subject);
    CasEffect(Run(ops[..|ops| - 1]), ops[|ops| - 1], subject);
  }

  lemma CasEffect(t: Tables, op: Op, subject: string)
    ensures var t' := Step(t, op).0;
            if CasSucceeds(t, op, subject)
            then && subject in t'.state
                 && t'.state[subject]
                 == StateRowOf(op.projection, if subject in t.state then t.state[subject].rowVersion + 1 else 0)
            else && (subject in t'.state <==> subject in t.state)
                 && (subject in t'.state ==> t'.state[subject] == t.state[subject])
  {
  }

  // ---- Physical events ----

  /** A stored event is never altered. */
  lemma {:induction false} EventsImmutable(ops: seq<Op>, n: nat, key: string)
    requires n <= |ops| && key in Run(ops[..n]).events
    ensures key in Run(ops).events && Run(ops).events[key] == Run(ops[..n]).events[key]
  {
    if n == |ops| {
      assert ops[..n] == ops;
    } else {
      var init := ops[..|ops| - 1];
      assert init[..n] == ops[..n];
      EventsImmutable(init, n, key);
    }
  }

  // ---- Ingestion ----

  /** Times the database stores exactly. */
  ghost predicate Aligned(f: CanonicalFact) {
    && ToMicros(f.effectiveTime) == f.effectiveTime
    && ToMicros(f.modificationTime) == f.modificationTime
    && ToMicrosOption(f.endTime) == f.endTime
  }

  function Unreceived(f: CanonicalFact): CanonicalFact {
    f.(receivedAt := ZERO_TIME)
  }

  /** What the store needs of the facts it is given: fields that agree with
      each other, fact keys that name identities, hashes that name contents. */
  ghost predicate Coherent(s: set<CanonicalFact>) {
    && Hashed(s)
    && (forall f :: f in s ==>
          f.freshness.modificationTime == f.modificationTime && f.freshness.physicalEventKey == f.eventKey)
    && (forall f, g :: f in s && g in s ==> (f.factKey == g.factKey <==> SameFactIdentity(f, g)))
  }

  /** What inserting needs of them. */
  ghost predicate Hashed(s: set<CanonicalFact>) {
    && (forall f :: f in s ==> ChecksHold(f.freshness))
    && (forall f, g :: f in s && g in s && f.eventKey == g.eventKey && f.payloadHash == g.payloadHash
                       ==> Unreceived(f) == Unreceived(g))
  }

  predicate SameFactIdentity(f: CanonicalFact, g: CanonicalFact) {
    && f.subjectID == g.subjectID && f.sourceScope == g.sourceScope
    && f.eventType == g.eventType && f.effectiveTime == g.effectiveTime
  }

  lemma CanonicalHashed(s: set<CanonicalFact>)
    requires forall f :: f in s ==> Canonical(f)
    ensures Hashed(s)
  {
    forall f, g | f in s && g in s && f.eventKey == g.eventKey && f.payloadHash == g.payloadHash
      ensures Unreceived(f) == Unreceived(g)
    {
      HashDeterminesFact(f, g);
    }
  }

  /** Canonical facts are coherent, at whatever precision. */
  lemma CanonicalCoherent(s: set<CanonicalFact>)
    requires forall f :: f in s ==> Canonical(f)
    ensures Coherent(s)
  {
    forall f, g | f in s && g in s ensures f.factKey == g.factKey <==> SameFactIdentity(f, g) {
      if f.factKey == g.factKey {
        FactKeyInjective(f.subjectID, f.sourceScope, f.eventType, f.effectiveTime,
                         g.subjectID, g.sourceScope, g.eventType, g.effectiveTime);
      }
    }
    CanonicalHashed(s);
  }

  /** A row of canonical_facts says everything about its fact but the receipt. */
  lemma FactRowsFaithful(f: CanonicalFact, g: CanonicalFact)
    requires Canonical(f) && Canonical(g) && Aligned(f) && Aligned(g)
    requires FactRowOf(f) == FactRowOf(g).(receivedAt := FactRowOf(f).receivedAt)
    ensures Unreceived(f) == Unreceived(g)
  {
    assert f.freshness == g.freshness;
    assert f.endTime == g.endTime;
  }

  /** A second insert under a stored key is taken for a replay if and only if it
      brings the same fact, whenever received; anything else is a conflict. */
  lemma ExactReplayIff(t: Tables, f: CanonicalFact, g: CanonicalFact)
    requires Canonical(f) && Canonical(g) && f.eventKey == g.eventKey
    requires f.eventKey in t.events && t.events[f.eventKey] == PhysicalRowOf(g)
    ensures InsertStep(t, f)
         == (t, if Unreceived(f) == Unreceived(g) then Ok(false) else Err(EventConflict(f.eventKey)))
  {
    if f.payloadHash == g.payloadHash {
      HashDeterminesFact(f, g);
    }
  }

  ghost predicate Ingests(ops: seq<Op>) {
    Coherent(Inserted(ops) + Upserted(ops))
  }

  lemma IngestsPrefix(ops: seq<Op>, n: nat)
    requires Ingests(ops) && n <= |ops|
    ensures Ingests(ops[..n])
    ensures Inserted(ops[..n]) <= Inserted(ops) && Upserted(ops[..n]) <= Upserted(ops)
  {
  }

  ghost function Inserted(ops: seq<Op>): set<CanonicalFact> {
    set op | op in ops && op.Insert? :: op.fact
  }

  ghost function Upserted(ops: seq<Op>): set<CanonicalFact> {
    set op | op in ops && op.Upsert? :: op.fact
  }

  predicate Inserts(op: Op, f: CanonicalFact) {
    op.Insert? && Unreceived(op.fact) == Unreceived(f)
  }

  /** A caller upserts a fact only after an insert of it, at whatever clock,
      came back without error. */
  ghost predicate Disciplined(ops: seq<Op>) {
    forall i :: 0 <= i < |ops| && ops[i].Upsert? ==>
      exists j :: 0 <= j < i && Inserts(ops[j], ops[i].fact) && ResponseTo(ops, j).Ok?
  }

  ghost predicate SomeConflict(ops: seq<Op>) {
    exists i :: 0 <= i < |ops| && ops[i].Insert? && ResponseTo(ops, i).Err?
  }

  ghost predicate EventRows(t: Tables, inserted: set<CanonicalFact>) {
    && (forall f :: f in inserted ==> f.eventKey in t.events)
    && (forall k :: k in t.events ==> exists f :: f in inserted && f.eventKey == k && t.events[k] == PhysicalRowOf(f))
  }

  lemma SetsAppend(ops: seq<Op>, op: Op)
    ensures Inserted(ops + [op]) == if op.Insert? then Inserted(ops) + {op.fact} else Inserted(ops)
    ensures Upserted(ops + [op]) == if op.Upsert? then Upserted(ops) + {op.fact} else Upserted(ops)
  {
  }

  lemma {:induction false} EventRowsOfRun(ops: seq<Op>)
    requires Hashed(Inserted(ops))
    ensures EventRows(Run(ops), Inserted(ops))
  {
    if ops != [] {
      var init, last := ops[..|ops| - 1], ops[|ops| - 1];
      assert ops == init + [last];
      SetsAppend(init, last);
      EventRowsOfRun(init);
      assert last.Insert? ==> last.fact in Inserted(ops);
      StepKeepsEventRows(Run(init), last, Inserted(init));
    }
  }

  lemma StepKeepsEventRows(t: Tables, op: Op, inserted: set<CanonicalFact>)
    requires EventRows(t, inserted) && (op.Insert? ==> ChecksHold(op.fact.freshness))
    ensures EventRows(Step(t, op).0, if op.Insert? then inserted + {op.fact} else inserted)
  {
    if op.Insert? {
      EventRowsStep(t, inserted, op.fact);
    }
  }

  lemma EventRowsStep(t: Tables, inserted: set<CanonicalFact>, f: CanonicalFact)
    requires EventRows(t, inserted) && ChecksHold(f.freshness)
    ensures EventRows(InsertStep(t, f).0, inserted + {f})
  {
  }

  lemma CoherentSubset(s: set<CanonicalFact>, t: set<CanonicalFact>)
    requires Coherent(s) && t <= s
    ensures Coherent(t)
  {
  }

  /** The fact of an upsert was inserted before, so its event row is there. */
  lemma UpsertHasEvent(ops: seq<Op>, i: nat)
    requires Ingests(ops) && Disciplined(ops) && i < |ops| && ops[i].Upsert?
    ensures ops[i].fact.eventKey in Run(ops[..i]).events
    ensures Coherent(Upserted(ops[..i]) + {ops[i].fact})
  {
    var j :| 0 <= j < i && Inserts(ops[j], ops[i].fact) && ResponseTo(ops, j).Ok?;
    assert ops[..i][j] in ops[..i] && ops[i] in ops;
    assert ops[j].fact in Inserted(ops[..i]);
    IngestsPrefix(ops, i);
    EventRowsOfRun(ops[..i]);
    CoherentSubset(Inserted(ops) + Upserted(ops), Upserted(ops[..i]) + {ops[i].fact});
  }

  // ---- Conflicts ----

  ghost predicate HashesAgree(s: set<CanonicalFact>) {
    forall f, g :: f in s && g in s && f.eventKey == g.eventKey ==> f.payloadHash == g.payloadHash
  }

  lemma InsertFailsOnAnotherHash(t: Tables, inserted: set<CanonicalFact>, f: CanonicalFact)
    requires EventRows(t, inserted) && Hashed(inserted + {f})
    ensures InsertStep(t, f).1.Err? <==> f.eventKey in t.events && t.events[f.eventKey].payloadHash != f.payloadHash
    ensures InsertStep(t, f).1.Ok?
            ==> f.eventKey in InsertStep(t, f).0.events
                && InsertStep(t, f).0.events[f.eventKey].payloadHash == f.payloadHash
  {
    assert f in inserted + {f};
    if f.eventKey in t.events {
      var g :| g in inserted && g.eventKey == f.eventKey && t.events[f.eventKey] == PhysicalRowOf(g);
      assert g in inserted + {f};
      if g.payloadHash == f.payloadHash {
        assert Unreceived(f) == Unreceived(g);
        assert PhysicalRowOf(g) == PhysicalRowOf(f).(receivedAt := PhysicalRowOf(g).receivedAt);
      }
    }
  }

  lemma InsertResponse(ops: seq<Op>, i: nat)
    requires Hashed(Inserted(ops)) && i < |ops| && ops[i].Insert?
    ensures EventRows(Run(ops[..i]), Inserted(ops[..i])) && Inserted(ops[..i]) + {ops[i].fact} <= Inserted(ops)
    ensures var f, t := ops[i].fact, Run(ops[..i]);
            && (ResponseTo(ops, i).Err?
                <==> f.eventKey in t.events && t.events[f.eventKey].payloadHash != f.payloadHash)
            && (ResponseTo(ops, i).Ok?
                ==> f.eventKey in Run(ops[..i + 1]).events
                    && Run(ops[..i + 1]).events[f.eventKey].payloadHash == f.payloadHash)
  {
    assert ops[i] in ops && Inserted(ops[..i]) <= Inserted(ops);
    EventRowsOfRun(ops[..i]);
    RunPrefix(ops, i);
    InsertFailsOnAnotherHash(Run(ops[..i]), Inserted(ops[..i]), ops[i].fact);
  }

  /** Whatever the order, some insert reports a conflict exactly when two of
      the facts put different content under one event key. */
  lemma ConflictIffHashesDiffer(ops: seq<Op>)
    requires Hashed(Inserted(ops))
    ensures SomeConflict(ops) <==> !HashesAgree(Inserted(ops))
  {
    if i :| 0 <= i < |ops| && ops[i].Insert? && ResponseTo(ops, i).Err? {
      InsertResponse(ops, i);
      var f := ops[i].fact;
      var g :| g in Inserted(ops[..i]) && g.eventKey == f.eventKey
          && Run(ops[..i]).events[f.eventKey] == PhysicalRowOf(g);
      assert f in Inserted(ops) && g in Inserted(ops) && f.payloadHash != g.payloadHash;
    }
    if !SomeConflict(ops) {
      forall f, g | f in Inserted(ops) && g in Inserted(ops) && f.eventKey == g.eventKey
        ensures f.payloadHash == g.payloadHash
      {
        InsertedHashStays(ops, f);
        InsertedHashStays(ops, g);
      }
    }
  }

  lemma InsertedHashStays(ops: seq<Op>, f: CanonicalFact)
    requires Hashed(Inserted(ops)) && f in Inserted(ops) && !SomeConflict(ops)
    ensures f.eventKey in Run(ops).events && Run(ops).events[f.eventKey].payloadHash == f.payloadHash
  {
    var i :| 0 <= i < |ops| && ops[i] == Insert(f);
    InsertResponse(ops, i);
    EventsImmutable(ops, i + 1, f.eventKey);
  }
}
