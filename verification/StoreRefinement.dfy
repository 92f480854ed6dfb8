/** What a store that is fed a batch ends up holding: when it is exactly what
    the batch resolver would pick, and what rounding can do to it. */
module StoreRefinement {
  import opened Base
  import opened Text
  import opened Model
  import opened Canonicalization
  import opened ResolveSpec
  import opened Stores
  import opened StoreRuns

  // ---- Rows and the facts they come from ----

  /** Every row is that of a fact upserted under its key. */
  ghost predicate RowsFrom(t: Tables, upserted: set<CanonicalFact>) {
    forall k :: k in t.facts ==> exists f :: f in upserted && f.factKey == k && t.facts[k] == FactRowOf(f)
  }

  /** And, as stored, none upserted under that key is fresher. */
  ghost predicate FactRows(t: Tables, upserted: set<CanonicalFact>) {
    && RowsFrom(t, upserted)
    && forall f :: f in upserted ==>
         f.factKey in t.facts && FactRowOf(f).Freshness().Compare(t.facts[f.factKey].Freshness()) <= 0
  }

  /** The unique constraint on the identity columns. */
  ghost predicate IdentitiesDistinct(t: Tables) {
    forall k, k' :: k in t.facts && k' in t.facts && k != k' ==> !SameIdentity(t.facts[k], t.facts[k'])
  }

  lemma UpsertKeepsIdentities(t: Tables, g: CanonicalFact)
    requires IdentitiesDistinct(t)
    ensures IdentitiesDistinct(UpsertStep(t, g).0)
  {
    var t' := UpsertStep(t, g).0;
    if g.factKey in t.facts {
      assert forall k :: k in t'.facts ==> k in t.facts && SameIdentity(t.facts[k], t'.facts[k]);
    }
  }

  lemma {:induction false} IdentitiesAlways(ops: seq<Op>)
    ensures IdentitiesDistinct(Run(ops))
  {
    if ops != [] {
      IdentitiesAlways(ops[..|ops| - 1]);
      if ops[|ops| - 1].Upsert? {
        UpsertKeepsIdentities(Run(ops[..|ops| - 1]), ops[|ops| - 1].fact);
      }
    }
  }

  /** Facts with one key have one identity, so replacing a row rewrites it. */
  lemma SameKeySameColumns(s: set<CanonicalFact>, f: CanonicalFact, g: CanonicalFact)
    requires Coherent(s) && f in s && g in s && f.factKey == g.factKey
    ensures SameIdentity(FactRowOf(f), FactRowOf(g)) && KeepIdentity(FactRowOf(f), FactRowOf(g)) == FactRowOf(g)
  {
    assert SameFactIdentity(f, g);
  }

  /** An upsert leaves the table alone or puts the fact's own row in it. */
  lemma UpsertWrites(t: Tables, upserted: set<CanonicalFact>, g: CanonicalFact)
    requires RowsFrom(t, upserted) && Coherent(upserted + {g})
    ensures var t' := UpsertStep(t, g).0; t' == t || t' == t.(facts := t.facts[g.factKey := FactRowOf(g)])
    ensures RowsFrom(UpsertStep(t, g).0, upserted + {g})
  {
    var all := upserted + {g};
    assert g in all;
    if g.factKey in t.facts {
      var h :| h in upserted && h.factKey == g.factKey && t.facts[g.factKey] == FactRowOf(h);
      assert h in all;
      SameKeySameColumns(all, h, g);
    }
    RowsFromGrows(t, upserted, g);
  }

  lemma RowsFromGrows(t: Tables, upserted: set<CanonicalFact>, g: CanonicalFact)
    requires RowsFrom(t, upserted)
    ensures RowsFrom(t, upserted + {g})
    ensures RowsFrom(t.(facts := t.facts[g.factKey := FactRowOf(g)]), upserted + {g})
  {
    var all, facts' := upserted + {g}, t.facts[g.factKey := FactRowOf(g)];
    assert g in all;
    forall k | k in t.facts ensures exists f :: f in all && f.factKey == k && t.facts[k] == FactRowOf(f) {
      var f :| f in upserted && f.factKey == k && t.facts[k] == FactRowOf(f);
      assert f in all;
    }
    forall k | k in facts' ensures exists f :: f in all && f.factKey == k && facts'[k] == FactRowOf(f) {
      if k != g.factKey {
        assert k in t.facts;
      }
    }
  }

  lemma {:induction false} RowsFromAlways(ops: seq<Op>)
    requires Coherent(Upserted(ops))
    ensures RowsFrom(Run(ops), Upserted(ops))
  {
    if ops != [] {
      var init, last := ops[..|ops| - 1], ops[|ops| - 1];
      assert ops == init + [last];
      SetsAppend(init, last);
      CoherentSubset(Upserted(ops), Upserted(init));
      RowsFromAlways(init);
      if last.Upsert? {
        UpsertWrites(Run(init), Upserted(init), last.fact);
      }
    }
  }

  // ---- Upserts that all went through ----

  ghost predicate SomeUpsertFails(ops: seq<Op>) {
    exists i :: 0 <= i < |ops| && ops[i].Upsert? && ResponseTo(ops, i).Err?
  }

  /** Writing the row of a fact fresher than the one it replaces, if any. */
  lemma RowReplaced(t: Tables, upserted: set<CanonicalFact>, g: CanonicalFact)
    requires FactRows(t, upserted)
    requires g.factKey in t.facts ==> t.facts[g.factKey].Freshness().OlderThan(FactRowOf(g).Freshness())
    ensures FactRows(t.(facts := t.facts[g.factKey := FactRowOf(g)]), upserted + {g})
  {
    var facts', all := t.facts[g.factKey := FactRowOf(g)], upserted + {g};
    RowsFromGrows(t, upserted, g);
    CompareTotal(FactRowOf(g).Freshness(), FactRowOf(g).Freshness());
    forall f | f in all
      ensures f.factKey in facts' && FactRowOf(f).Freshness().Compare(facts'[f.factKey].Freshness()) <= 0
    {
      if f != g && f.factKey == g.factKey {
        NotFresher(FactRowOf(f).Freshness(), t.facts[g.factKey].Freshness(), FactRowOf(g).Freshness());
      }
    }
  }

  lemma NotFresher(a: FreshnessTuple, b: FreshnessTuple, c: FreshnessTuple)
    requires a.Compare(b) <= 0 && b.Compare(c) < 0
    ensures a.Compare(c) <= 0
  {
    CompareTotal(a, b);
    if a != b {
      CompareTransitive(a, b, c);
    }
  }

  lemma FactRowsStep(t: Tables, upserted: set<CanonicalFact>, g: CanonicalFact)
    requires FactRows(t, upserted) && Coherent(upserted + {g}) && UpsertStep(t, g).1.Ok?
    ensures FactRows(UpsertStep(t, g).0, upserted + {g})
  {
    UpsertWrites(t, upserted, g);
    if UpsertStep(t, g).1.value {
      UpsertedRow(t, upserted, g);
      RowReplaced(t, upserted, g);
    } else {
      CompareTotal(t.facts[g.factKey].Freshness(), FactRowOf(g).Freshness());
    }
  }

  lemma UpsertedRow(t: Tables, upserted: set<CanonicalFact>, g: CanonicalFact)
    requires RowsFrom(t, upserted) && Coherent(upserted + {g}) && UpsertStep(t, g).1 == Ok(true)
    ensures UpsertStep(t, g).0 == t.(facts := t.facts[g.factKey := FactRowOf(g)])
    ensures g.factKey in t.facts ==> t.facts[g.factKey].Freshness().OlderThan(FactRowOf(g).Freshness())
  {
    if g.factKey in t.facts {
      var h :| h in upserted && h.factKey == g.factKey && t.facts[g.factKey] == FactRowOf(h);
      assert h in upserted + {g} && g in upserted + {g};
      SameKeySameColumns(upserted + {g}, h, g);
    }
  }

  /** If no upsert failed, each fact row is the freshest, as stored, of the
      revisions upserted under its key. */
  lemma {:induction false} FactRowsOfRun(ops: seq<Op>)
    requires Coherent(Upserted(ops)) && !SomeUpsertFails(ops)
    ensures FactRows(Run(ops), Upserted(ops))
  {
    if ops != [] {
      var n := |ops| - 1;
      var init, last := ops[..n], ops[n];
      assert ops == init + [last];
      SetsAppend(init, last);
      CoherentSubset(Upserted(ops), Upserted(init));
      NoFailureBefore(ops, n);
      FactRowsOfRun(init);
      if last.Upsert? {
        assert ResponseTo(ops, n).Ok?;
        FactRowsStep(Run(init), Upserted(init), last.fact);
      }
    }
  }

  lemma NoFailureBefore(ops: seq<Op>, n: nat)
    requires n <= |ops| && !SomeUpsertFails(ops)
    ensures !SomeUpsertFails(ops[..n])
  {
    forall i | 0 <= i < n && ops[i].Upsert? ensures ResponseTo(ops[..n], i).Ok? {
      assert ops[..n][..i] == ops[..i];
      assert ResponseTo(ops, i).Ok?;
    }
  }

  // ---- Exactly when an upsert fails ----

  /** Two logical facts that the columns cannot tell apart. */
  ghost predicate Clash(s: set<CanonicalFact>) {
    exists f, g :: f in s && g in s && f.factKey != g.factKey && SameIdentity(FactRowOf(f), FactRowOf(g))
  }

  /** For callers that insert before they upsert, some upsert fails if and only
      if two of the facts upserted clash. */
  lemma UpsertFailsIffClash(ops: seq<Op>)
    requires Ingests(ops) && Disciplined(ops)
    ensures SomeUpsertFails(ops) <==> Clash(Upserted(ops))
  {
    CoherentSubset(Inserted(ops) + Upserted(ops), Upserted(ops));
    if i :| 0 <= i < |ops| && ops[i].Upsert? && ResponseTo(ops, i).Err? {
      FailedUpsertClashes(ops, i);
    } else {
      FactRowsOfRun(ops);
      IdentitiesAlways(ops);
      NoClashInTable(Run(ops), Upserted(ops));
    }
  }

  lemma FailedUpsertClashes(ops: seq<Op>, i: nat)
    requires Ingests(ops) && Disciplined(ops) && i < |ops| && ops[i].Upsert? && ResponseTo(ops, i).Err?
    ensures Clash(Upserted(ops))
  {
    var t, g := Run(ops[..i]), ops[i].fact;
    IngestsPrefix(ops, i);
    CoherentSubset(Inserted(ops[..i]) + Upserted(ops[..i]), Upserted(ops[..i]));
    RowsFromAlways(ops[..i]);
    UpsertHasEvent(ops, i);
    assert ops[i] in ops && g in Upserted(ops[..i]) + {g};
    var f := ClashingFact(t, Upserted(ops[..i]), g);
    assert f in Upserted(ops) && g in Upserted(ops);
  }

  lemma ClashingFact(t: Tables, upserted: set<CanonicalFact>, g: CanonicalFact) returns (f: CanonicalFact)
    requires RowsFrom(t, upserted) && ChecksHold(g.freshness) && g.eventKey in t.events && UpsertStep(t, g).1.Err?
    ensures f in upserted && f.factKey != g.factKey && SameIdentity(FactRowOf(f), FactRowOf(g))
  {
    var k :| k in t.facts && SameIdentity(t.facts[k], FactRowOf(g));
    f :| f in upserted && f.factKey == k && t.facts[k] == FactRowOf(f);
  }

  lemma NoClashInTable(t: Tables, upserted: set<CanonicalFact>)
    requires FactRows(t, upserted) && IdentitiesDistinct(t) && Coherent(upserted)
    ensures !Clash(upserted)
  {
    if f, g :| f in upserted && g in upserted && f.factKey != g.factKey && SameIdentity(FactRowOf(f), FactRowOf(g)) {
      RowIdentity(t, upserted, f);
      RowIdentity(t, upserted, g);
      assert SameIdentity(t.facts[f.factKey], t.facts[g.factKey]);
    }
  }

  lemma RowIdentity(t: Tables, upserted: set<CanonicalFact>, f: CanonicalFact)
    requires FactRows(t, upserted) && Coherent(upserted) && f in upserted
    ensures f.factKey in t.facts && SameIdentity(t.facts[f.factKey], FactRowOf(f))
  {
    var h :| h in upserted && h.factKey == f.factKey && t.facts[f.factKey] == FactRowOf(h);
    SameKeySameColumns(upserted, h, f);
  }

  /** At stored precision no upsert of such callers ever fails. */
  lemma UpsertsNeverFail(ops: seq<Op>, i: nat)
    requires Ingests(ops) && Disciplined(ops) && i < |ops| && ops[i].Upsert?
    requires forall f :: f in Upserted(ops) ==> ToMicros(f.effectiveTime) == f.effectiveTime
    ensures ResponseTo(ops, i).Ok?
  {
    UpsertFailsIffClash(ops);
    CoherentSubset(Inserted(ops) + Upserted(ops), Upserted(ops));
    StoredTimesNeverClash(Upserted(ops));
  }

  lemma StoredTimesNeverClash(s: set<CanonicalFact>)
    requires Coherent(s) && forall f :: f in s ==> ToMicros(f.effectiveTime) == f.effectiveTime
    ensures !Clash(s)
  {
    forall f, g | f in s && g in s && SameIdentity(FactRowOf(f), FactRowOf(g)) ensures f.factKey == g.factKey {
      assert SameFactIdentity(f, g);
    }
  }

  // ---- The key in the columns ----

  ghost predicate Keyed(t: Tables, key: FactRow -> string) {
    forall k :: k in t.facts ==> k == key(t.facts[k])
  }

  /** The key is read off the identity columns. */
  ghost predicate FromIdentity(key: FactRow -> string) {
    forall a, b :: SameIdentity(a, b) ==> key(a) == key(b)
  }

  function RowKey(row: FactRow): string {
    MakeFactKey(row.subjectID, row.sourceScope, row.eventType, row.effectiveTime)
  }

  /** In every reachable store the identity columns of a fact row rebuild its
      key, although no update ever writes them. */
  lemma IdentityRebuildsTheKey(ops: seq<Op>)
    requires forall f :: f in Upserted(ops) ==> Canonical(f) && ToMicros(f.effectiveTime) == f.effectiveTime
    ensures forall k :: k in Run(ops).facts ==> k == RowKey(Run(ops).facts[k])
  {
    forall f | f in Upserted(ops) ensures f.factKey == RowKey(FactRowOf(f)) {
      StoredKey(f);
    }
    KeyedAlways(ops, row => RowKey(row));
  }

  lemma StoredKey(f: CanonicalFact)
    requires Canonical(f) && ToMicros(f.effectiveTime) == f.effectiveTime
    ensures f.factKey == RowKey(FactRowOf(f))
  {
  }

  lemma {:induction false} KeyedAlways(ops: seq<Op>, key: FactRow -> string)
    requires FromIdentity(key) && forall f :: f in Upserted(ops) ==> f.factKey == key(FactRowOf(f))
    ensures Keyed(Run(ops), key)
  {
    if ops != [] {
      var init, last := ops[..|ops| - 1], ops[|ops| - 1];
      assert ops == init + [last];
      SetsAppend(init, last);
      KeyedAlways(init, key);
      if last.Upsert? {
        assert last.fact in Upserted(ops);
        UpsertKeepsKeys(Run(init), last.fact, key);
      }
    }
  }

  lemma UpsertKeepsKeys(t: Tables, f: CanonicalFact, key: FactRow -> string)
    requires FromIdentity(key) && Keyed(t, key) && f.factKey == key(FactRowOf(f))
    ensures Keyed(UpsertStep(t, f).0, key)
  {
    if f.factKey in t.facts {
      assert SameIdentity(KeepIdentity(t.facts[f.factKey], FactRowOf(f)), t.facts[f.factKey]);
    }
  }

  // ---- Refinement ----

  ghost function Contents(s: set<CanonicalFact>): set<CanonicalFact> {
    set f | f in s :: Unreceived(f)
  }

  /** Every fact that was inserted was upserted too, then or at a retry. */
  ghost predicate Complete(ops: seq<Op>) {
    Contents(Inserted(ops)) <= Contents(Upserted(ops))
  }

  lemma SameContents(s: set<CanonicalFact>, t: set<CanonicalFact>, f: CanonicalFact) returns (g: CanonicalFact)
    requires Contents(s) == Contents(t) && f in s
    ensures g in t && Unreceived(g) == Unreceived(f)
  {
    assert Unreceived(f) in Contents(t);
    g :| g in t && Unreceived(g) == Unreceived(f);
  }

  lemma HashesAgreeOnContents(s: set<CanonicalFact>, t: set<CanonicalFact>)
    requires Contents(s) == Contents(t) && HashesAgree(s)
    ensures HashesAgree(t)
  {
    forall f, g | f in t && g in t && f.eventKey == g.eventKey ensures f.payloadHash == g.payloadHash {
      var f' := SameContents(t, s, f);
      var g' := SameContents(t, s, g);
    }
  }

  /** In a batch, unique keys and agreeing hashes are the same thing. */
  lemma BatchHashesAgree(events: seq<PhysicalEvent>, now: Time)
    requires AllCanonicalized(Deliveries(events, now))
    ensures BatchOk(Deliveries(events, now)) <==> HashesAgree(Elements(FactsOf(Deliveries(events, now))))
  {
    var ds := Deliveries(events, now);
    forall i, j | 0 <= i < |ds| && 0 <= j < |ds|
      ensures var f, g := FactsOf(ds)[i], FactsOf(ds)[j];
              f.eventKey == g.eventKey && f.payloadHash == g.payloadHash ==> f == g
    {
      DeliveryAt(events, now, i);
      DeliveryAt(events, now, j);
      assert ds[i] in ds && ds[j] in ds;
      ReuseShowsInTheHash(events[i], events[j], now);
    }
  }

  lemma ConflictIffNotOk(events: seq<PhysicalEvent>, now: Time, ops: seq<Op>)
    requires AllCanonicalized(Deliveries(events, now))
    requires forall f :: f in Inserted(ops) ==> Canonical(f)
    requires Contents(Inserted(ops)) == Contents(Elements(FactsOf(Deliveries(events, now))))
    ensures SomeConflict(ops) <==> !BatchOk(Deliveries(events, now))
  {
    var s := Elements(FactsOf(Deliveries(events, now)));
    CanonicalHashed(Inserted(ops));
    ConflictIffHashesDiffer(ops);
    BatchHashesAgree(events, now);
    if HashesAgree(s) {
      HashesAgreeOnContents(s, Inserted(ops));
    }
    if HashesAgree(Inserted(ops)) {
      HashesAgreeOnContents(Inserted(ops), s);
    }
  }

  lemma UpsertsWereInserted(ops: seq<Op>)
    requires Disciplined(ops)
    ensures Contents(Upserted(ops)) <= Contents(Inserted(ops))
  {
    forall c | c in Contents(Upserted(ops)) ensures c in Contents(Inserted(ops)) {
      var f :| f in Upserted(ops) && Unreceived(f) == c;
      var i :| 0 <= i < |ops| && ops[i] == Upsert(f);
      var j :| 0 <= j < i && Inserts(ops[j], ops[i].fact) && ResponseTo(ops, j).Ok?;
      assert ops[j].fact in Inserted(ops);
    }
  }

  /** canonical_facts holds the winners and nothing else, up to received time. */
  ghost predicate HoldsWinners(t: Tables, s: set<CanonicalFact>) {
    && t.facts.Keys == (set w | w in Winners(s) :: w.factKey)
    && forall w :: w in Winners(s) ==> t.facts[w.factKey] == FactRowOf(w).(receivedAt := t.facts[w.factKey].receivedAt)
  }

  /** The winners are still the freshest once modification times are rounded. */
  ghost predicate StoredWinners(s: set<CanonicalFact>) {
    forall w, g :: w in Winners(s) && g in s && g.factKey == w.factKey
                   ==> StoredFreshness(g.freshness).Compare(StoredFreshness(w.freshness)) <= 0
  }

  /** The incremental store refines the batch resolver. Let callers ingest the
      facts of a batch in any order, with any redelivery, retry, clock and
      interleaving. Some call reports a conflict exactly when ResolveBatch would
      refuse the batch. Otherwise, once every fact has been upserted at whatever
      attempt, canonical_facts holds exactly the winners if and only if no two
      facts of the batch clash and rounding leaves the winners the freshest; at
      stored precision it always does. */
  lemma StoreRefinesResolver(events: seq<PhysicalEvent>, now: Time, ops: seq<Op>)
    requires AllCanonicalized(Deliveries(events, now))
    requires forall f :: f in Inserted(ops) ==> Canonical(f)
    requires Contents(Inserted(ops)) == Contents(Elements(FactsOf(Deliveries(events, now))))
    ensures SomeConflict(ops) <==> !BatchOk(Deliveries(events, now))
    ensures BatchOk(Deliveries(events, now)) && Disciplined(ops) && Complete(ops) ==>
              var s := Elements(FactsOf(Deliveries(events, now)));
              && (HoldsWinners(Run(ops), s) <==> !Clash(s) && StoredWinners(s))
              && ((forall f :: f in s ==> Aligned(f)) ==> HoldsWinners(Run(ops), s))
  {
    ConflictIffNotOk(events, now, ops);
    if BatchOk(Deliveries(events, now)) && Disciplined(ops) && Complete(ops) {
      var s := Elements(FactsOf(Deliveries(events, now)));
      BatchFacts(events, now);
      CanonicalCoherent(s);
      UpsertsWereInserted(ops);
      CanonicalContents(Inserted(ops), Upserted(ops));
      CanonicalCoherent(Inserted(ops) + Upserted(ops));
      HoldsWinnersIff(ops, s);
      if forall f :: f in s ==> Aligned(f) {
        AlignedIsSafe(s);
      }
    }
  }

  lemma CanonicalContents(s: set<CanonicalFact>, t: set<CanonicalFact>)
    requires Contents(t) <= Contents(s) && forall f :: f in s ==> Canonical(f)
    ensures forall f :: f in s + t ==> Canonical(f)
  {
    forall f | f in t ensures Canonical(f) {
      assert Unreceived(f) in Contents(s);
      var g :| g in s && Unreceived(g) == Unreceived(f);
      CanonicalWhenever(g, f);
    }
  }

  lemma CanonicalWhenever(f: CanonicalFact, g: CanonicalFact)
    requires Canonical(f) && Unreceived(f) == Unreceived(g)
    ensures Canonical(g)
  {
    assert g == f.(receivedAt := g.receivedAt);
  }

  lemma AlignedIsSafe(s: set<CanonicalFact>)
    requires Coherent(s) && forall f :: f in s ==> Aligned(f)
    ensures !Clash(s) && StoredWinners(s)
  {
    StoredTimesNeverClash(s);
    forall f | f in s ensures StoredFreshness(f.freshness) == f.freshness {
    }
  }

  // ---- The exact condition ----

  lemma HoldsWinnersIff(ops: seq<Op>, s: set<CanonicalFact>)
    requires Ingests(ops) && Disciplined(ops) && Complete(ops) && Coherent(s) && KeysUnique(s) && Stamped(s)
    requires Contents(Inserted(ops)) == Contents(s)
    ensures HoldsWinners(Run(ops), s) <==> !Clash(s) && StoredWinners(s)
  {
    UpsertsWereInserted(ops);
    if HoldsWinners(Run(ops), s) {
      IdentitiesAlways(ops);
      HeldWinnersDoNotClash(Run(ops), s);
    }
    if !Clash(s) {
      NoClashNoFailure(ops, s);
      RowsAreWinnersIff(Run(ops), Upserted(ops), s);
    }
  }

  lemma NoClashNoFailure(ops: seq<Op>, s: set<CanonicalFact>)
    requires Ingests(ops) && Disciplined(ops) && Contents(Upserted(ops)) == Contents(s) && !Clash(s)
    ensures FactRows(Run(ops), Upserted(ops))
  {
    if Clash(Upserted(ops)) {
      ClashOnContents(Upserted(ops), s);
    }
    UpsertFailsIffClash(ops);
    CoherentSubset(Inserted(ops) + Upserted(ops), Upserted(ops));
    FactRowsOfRun(ops);
  }

  lemma ClashOnContents(s: set<CanonicalFact>, t: set<CanonicalFact>)
    requires Contents(s) == Contents(t) && Clash(s)
    ensures Clash(t)
  {
    var f, g :| f in s && g in s && f.factKey != g.factKey && SameIdentity(FactRowOf(f), FactRowOf(g));
    var f' := SameContents(s, t, f);
    var g' := SameContents(s, t, g);
    assert SameIdentity(FactRowOf(f'), FactRowOf(g'));
  }

  lemma WinnerExists(s: set<CanonicalFact>, f: CanonicalFact) returns (w: CanonicalFact)
    requires f in s
    ensures w in Winners(s) && w.factKey == f.factKey
  {
    var mine := set g | g in s && g.factKey == f.factKey;
    assert f in mine;
    FresherOrdered();
    MaximalExists(mine, Fresher);
    w :| IsMaximal(mine, Fresher, w);
    forall g | g in s && g.factKey == w.factKey ensures g.freshness.Compare(w.freshness) <= 0 {
      assert g in mine;
      CompareTotal(g.freshness, w.freshness);
    }
  }

  predicate Fresher(a: CanonicalFact, b: CanonicalFact) {
    a.freshness.OlderThan(b.freshness)
  }

  lemma FresherOrdered()
    ensures StrictWeakOrder(Fresher)
  {
    forall a: CanonicalFact, b: CanonicalFact ensures Fresher(a, b) ==> !Fresher(b, a) {
      CompareTotal(a.freshness, b.freshness);
    }
    forall a: CanonicalFact, b: CanonicalFact, c: CanonicalFact | !Fresher(a, b) && !Fresher(b, c)
      ensures !Fresher(a, c)
    {
      CompareTotal(a.freshness, b.freshness);
      CompareTotal(b.freshness, c.freshness);
      CompareTotal(a.freshness, c.freshness);
      if a.freshness != b.freshness && b.freshness != c.freshness {
        CompareTransitive(c.freshness, b.freshness, a.freshness);
      }
    }
  }

  lemma HeldWinnersDoNotClash(t: Tables, s: set<CanonicalFact>)
    requires HoldsWinners(t, s) && IdentitiesDistinct(t) && Coherent(s)
    ensures !Clash(s)
  {
    if f, g :| f in s && g in s && f.factKey != g.factKey && SameIdentity(FactRowOf(f), FactRowOf(g)) {
      var v := WinnerExists(s, f);
      var w := WinnerExists(s, g);
      SameKeySameColumns(s, v, f);
      SameKeySameColumns(s, w, g);
      assert SameIdentity(t.facts[f.factKey], t.facts[g.factKey]);
    }
  }

  /** A table of the freshest revisions, as stored, holds the winners exactly if
      the winners are the freshest as stored. */
  lemma RowsAreWinnersIff(t: Tables, ingested: set<CanonicalFact>, s: set<CanonicalFact>)
    requires FactRows(t, ingested) && Contents(ingested) == Contents(s) && KeysUnique(s) && Stamped(s)
    requires Coherent(s)
    ensures HoldsWinners(t, s) <==> StoredWinners(s)
  {
    if HoldsWinners(t, s) {
      forall w, g | w in Winners(s) && g in s && g.factKey == w.factKey
        ensures StoredFreshness(g.freshness).Compare(StoredFreshness(w.freshness)) <= 0
      {
        var g' := SameContents(s, ingested, g);
        RowFreshness(s, g);
        RowFreshness(s, w);
      }
    }
    if StoredWinners(s) {
      RowsAreWinners(t, ingested, s);
    }
  }

  lemma RowFreshness(s: set<CanonicalFact>, f: CanonicalFact)
    requires Coherent(s) && f in s
    ensures FactRowOf(f).Freshness() == StoredFreshness(f.freshness)
  {
  }

  lemma RowsAreWinners(t: Tables, ingested: set<CanonicalFact>, s: set<CanonicalFact>)
    requires FactRows(t, ingested) && Contents(ingested) == Contents(s) && KeysUnique(s) && Stamped(s)
    requires Coherent(s) && StoredWinners(s)
    ensures HoldsWinners(t, s)
  {
    forall k | k in t.facts ensures exists w :: w in Winners(s) && w.factKey == k {
      var f :| f in ingested && f.factKey == k && t.facts[k] == FactRowOf(f);
      var g := SameContents(ingested, s, f);
      var w := WinnerExists(s, g);
    }
    forall w | w in Winners(s)
      ensures w.factKey in t.facts && t.facts[w.factKey] == FactRowOf(w).(receivedAt := t.facts[w.factKey].receivedAt)
    {
      WinnerIsRow(t, ingested, s, w);
    }
  }

  lemma WinnerIsRow(t: Tables, ingested: set<CanonicalFact>, s: set<CanonicalFact>, w: CanonicalFact)
    requires FactRows(t, ingested) && Contents(ingested) == Contents(s) && KeysUnique(s) && Stamped(s)
    requires Coherent(s) && StoredWinners(s) && w in Winners(s)
    ensures w.factKey in t.facts && t.facts[w.factKey] == FactRowOf(w).(receivedAt := t.facts[w.factKey].receivedAt)
  {
    var w' := SameContents(s, ingested, w);
    var f :| f in ingested && f.factKey == w.factKey && t.facts[w.factKey] == FactRowOf(f);
    var g := SameContents(ingested, s, f);
    RowFreshness(s, g);
    RowFreshness(s, w);
    CompareTotal(StoredFreshness(g.freshness), StoredFreshness(w.freshness));
    assert FactRowOf(w').Freshness() == FactRowOf(w).Freshness()
        && FactRowOf(f).Freshness() == FactRowOf(g).Freshness();
    assert g.eventKey == w.eventKey;
  }

  // ---- What rounding costs ----

  /** Below the modification time: revision number, then event key. */
  predicate TailOlder(a: FreshnessTuple, b: FreshnessTuple) {
    a.revisionNumber < b.revisionNumber
    || (a.revisionNumber == b.revisionNumber && StrLess(a.physicalEventKey, b.physicalEventKey))
  }

  /** The store orders two revisions as the engine does if and only if it is
      not the case that rounding merges their modification times and the tail
      of the tuple then decides otherwise than those times did. */
  lemma StoreOrderAgreesIff(a: FreshnessTuple, b: FreshnessTuple)
    ensures (StoredFreshness(a).OlderThan(StoredFreshness(b)) <==> a.OlderThan(b))
       <==> !(a.sourceSequence == b.sourceSequence && a.modificationTime != b.modificationTime
              && ToMicros(a.modificationTime) == ToMicros(b.modificationTime)
              && (TailOlder(a, b) <==> b.modificationTime < a.modificationTime))
  {
    RoundingMonotone(a.modificationTime, b.modificationTime);
    RoundingMonotone(b.modificationTime, a.modificationTime);
    StrLessTrichotomy(a.physicalEventKey, b.physicalEventKey);
  }

  /** Such a pair: a tenth of a microsecond apart, they fall together, and the
      revision number then puts first what the engine puts last. */
  lemma StoreOrderCanDiffer()
    ensures var a, b := FreshnessTuple(1, 100, 2, "a"), FreshnessTuple(1, 200, 1, "b");
            a.OlderThan(b) && StoredFreshness(b).OlderThan(StoredFreshness(a))
  {
  }

  /** Finer times can also bring two logical facts of one subject to one
      identity in the table. The engine keeps both; whichever is upserted second
      violates the unique constraint and is lost. */
  lemma RoundedFactsClash(t: Tables, f: CanonicalFact, g: CanonicalFact)
    requires Canonical(f) && Canonical(g) && f.effectiveTime != g.effectiveTime
    requires SameIdentity(FactRowOf(f), FactRowOf(g))
    requires f.factKey in t.facts && t.facts[f.factKey] == FactRowOf(f) && g.factKey !in t.facts
    ensures UpsertStep(t, g) == (t, Err(UniqueViolation))
  {
  }

  lemma TimesMakeKeys(f: CanonicalFact, g: CanonicalFact)
    requires Canonical(f) && Canonical(g) && f.effectiveTime != g.effectiveTime
    ensures f.factKey != g.factKey && ChecksHold(f.freshness) && ChecksHold(g.freshness)
  {
    if f.factKey == g.factKey {
      FactKeyInjective(f.subjectID, f.sourceScope, f.eventType, f.effectiveTime,
                       g.subjectID, g.sourceScope, g.eventType, g.effectiveTime);
    }
  }

  /** A run in which that happens, for any two times that round alike (100 and
      200 nanoseconds, say): terminations of one subject, each inserted before
      it is upserted. */
  lemma RoundedFactsClashInARun(
    subjectID: string, key: string, key': string, t: Time, t': Time, modified: Time, now: Time, f: CanonicalFact,
    g: CanonicalFact)
    requires subjectID != "" && Trimmed(subjectID) && key != "" && Trimmed(key) && key' != "" && Trimmed(key')
    requires key != key'
    requires t != ZERO_TIME && t' != ZERO_TIME && modified != ZERO_TIME && t != t' && ToMicros(t) == ToMicros(t')
    requires CanonicalForm(TerminationAt(subjectID, key, t, modified), now) == Ok(f)
    requires CanonicalForm(TerminationAt(subjectID, key', t', modified), now) == Ok(g)
    ensures f.factKey != g.factKey
    ensures ResponseTo([Insert(f), Upsert(f), Insert(g), Upsert(g)], 3) == Err(UniqueViolation)
  {
    TerminationIsCanonical(subjectID, key, t, modified, now);
    TerminationIsCanonical(subjectID, key', t', modified, now);
    TimesMakeKeys(f, g);
    ClashingRun(f, g);
  }

  lemma ClashingRun(f: CanonicalFact, g: CanonicalFact)
    requires f.factKey != g.factKey && f.eventKey != g.eventKey && SameIdentity(FactRowOf(f), FactRowOf(g))
    requires ChecksHold(f.freshness) && ChecksHold(g.freshness)
    ensures ResponseTo([Insert(f), Upsert(f), Insert(g), Upsert(g)], 3) == Err(UniqueViolation)
  {
    var ops := [Insert(f), Upsert(f), Insert(g), Upsert(g)];
    assert ops[..0] == [];
    RunPrefix(ops, 0);
    RunPrefix(ops, 1);
    RunPrefix(ops, 2);
    assert Run(ops[..3]).facts == map[f.factKey := FactRowOf(f)];
  }

  lemma RoundingMonotone(s: Time, t: Time)
    ensures s <= t ==> ToMicros(s) <= ToMicros(t)
  {
  }
}
