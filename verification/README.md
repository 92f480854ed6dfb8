# Deterministic identity reconciliation: a verified model

The engine turns workforce events into desired identities, a PostgreSQL store
keeps events, facts and projections, and a SCIM adapter brings a target in
line with one projection at a time. This project models those three parts and
proves that they do what their documentation promises, apart and together.

- `Base`, `Text`, `Rfc3339`, `Model`: values, Go's string helpers, time
  formatting, and the engine's types.
- `Canonicalization`, `CanonicalizationLaws`, `Policies`: one event at a time.
- `ResolveSpec`, `Resolver`, `ResolverLaws`, `ProjectionLaws`: the batch. The
  specification is stated on the set of delivered facts, so no order of
  delivery, of map iteration or of an unstable sort can appear in it; the
  methods are proved against it, and the laws are proved about it.
- `Stores`, `StoreColumns`, `StoreRuns`, `StoreRefinement`: the tables, each SQL
  statement one atomic step, and what it does column by column; every
  interleaving of callers as a sequence of steps from empty tables; and when
  what they end up holding is what the resolver would pick.
- `Filters`, `Scim`, `AdapterLaws`, `Directories`, `Convergence`, `AttemptLaws`,
  `ConvergenceLaws`: the adapter, the target, one attempt, and any number of
  attempts.
- `Protocol`, `ProtocolLaws`, `SoloRuns`: store writers, convergers under their
  row locks, and other writers of the target, step by step in every
  interleaving; and a converger by itself.
- `ConvergeCommand`: the command that ties row lock, allowlist and attempt.

The specification functions are what the methods are proved against. What they
mean is proved in turn, about raw events, columns, keys and fields and without
them, in `CanonicalizationLaws`, `ProjectionLaws`, `StoreColumns`, `AdapterLaws`,
`AttemptLaws` and `Policies`.

`dafny verify dfyconfig.toml` checks everything.

## Conventions

- Times are integers: nanoseconds since Go's zero time, so 0 is that zero time.
  Durations are int64 and `Sub` saturates. Other counters are unbounded.
- SHA-256 and JSON encoding are taken to be injective: an envelope stands for
  its own hash. JSON numbers keep their spelling.
- A Go map is a `map` whose iteration picks keys arbitrarily; `sort.Slice` is
  an in-place sort that promises nothing about ties.
- TIMESTAMPTZ keeps microseconds, rounding half to even; text columns compare
  in byte order (the C collation). Events may carry nanoseconds, so the refinement
  of the resolver is stated for all times, with the exact condition on rounding.
- `InsertPhysicalEvent` issues two statements but is one step here. That is the
  same thing, because the row the second one reads is never altered.
- A row lock is a guard: steps that would wait are not enabled. A remote write
  takes effect before its converger releases the lock, or never.
- The target stores writes verbatim, gives every write a new version, enforces
  If-Match, and hands out identifiers that are free and have no outer space. A
  fate says whether a request was answered, took effect unanswered or was lost,
  or whether the target could not be reached at all.
- `ToLower` and `EqualFold` are exact where the outcome is compared with ASCII
  text, which covers every attribute name the adapter accepts.

The documentation and the code differ in one place: docs/evaluation-scenarios.md
line 14 says that a future non-hire cannot mutate current state, but the cutoff
branch in pkg/reconcile/policy.go lines 62-68 comes first and processes a
future change when a cutoff lies after it. The model follows the code;
`ResolverLaws.FutureLifecycleHeldBackIff` gives the exact condition, which the
default policy, having no cutoff, meets.

## Model

| member | source | states |
|---|---|---|
| `Resolver.ResolveBatch` | pkg/reconcile/resolve.go:13-135 | the batch resolver (loops, maps, growing slices, two in-place unstable sorts) returns exactly what the order-free specification allows: a policy error, the first failing delivery, or the decisions as a counted multiset in key order together with the last-writer projections of the accepted winners |
| `Resolver.Deduplicate` | pkg/reconcile/resolve.go:18-42 | stops with the first delivery that cannot be canonicalized or that reuses an event key for another event; otherwise one fact a key, and one duplicate_delivery for every further delivery |
| `Resolver.Admit` | pkg/reconcile/resolve.go:27-41 | one turn of the delivery loop: new fact, redelivery, or key reuse, the last told by the payload hash |
| `Resolver.GroupByFactKey` | pkg/reconcile/resolve.go:44-47 | every fact is in the group of its own fact key, and groups hold nothing else |
| `Resolver.Freshest` | pkg/reconcile/resolve.go:51-56 | the scan of a group ends on a member that none of the group is fresher than |
| `Resolver.SelectWinners` | pkg/reconcile/resolve.go:44-58 | one winner for every fact key: a freshest revision of it, whatever order the map is walked in |
| `Resolver.DecideAll` | pkg/reconcile/resolve.go:60-83 | one decision for each distinct fact: the policy is asked about winners only, all others are skipped as duplicate or older |
| `Resolver.SortDecisions` | pkg/reconcile/resolve.go:85-90 | the in-place sort orders decisions by event key and fact key and loses none |
| `Resolver.CollectAccepted` | pkg/reconcile/resolve.go:92-98 | exactly the facts decided process_now, each once |
| `Resolver.ApplyFact` | pkg/reconcile/resolve.go:137-170 | updates one projection in place: attributes overwritten one by one, lifecycle by event type, provenance from the fact |
| `Resolver.FoldStep` | pkg/reconcile/resolve.go:117-129 | applying the next fact in order turns the last-writer projection of the facts before it into that of all of them |
| `Resolver.Fold` | pkg/reconcile/resolve.go:117-129 | folding sorted accepted facts gives every subject its last-writer projection |
| `ResolveSpec.FactLessOrdered` | pkg/reconcile/resolve.go:99-115 | the comparison of accepted facts is what sort.Slice asks for |
| `ResolveSpec.LatestUnique` | pkg/reconcile/resolve.go:99-115 | on deduplicated facts that comparison is total, so the unstable sort has one result |
| `ResolveSpec.WinnerUnique` | pkg/reconcile/resolve.go:49-58 | a logical fact has one freshest revision, so map iteration cannot choose between two |
| `ResolveSpec.FailsIffNotOk` | pkg/reconcile/resolve.go:22-42 | the scan fails if and only if some event is invalid or one event key stands for two different facts |
| `ResolveSpec.ReuseShowsInTheHash` | pkg/reconcile/resolve.go:27-30 | two deliveries under one event key have equal hashes if and only if they are the same fact |
| `ResolverLaws.SucceedsIffOk` | pkg/reconcile/resolve.go:13-42 | a batch succeeds if and only if the policy is valid, all events are, and keys are not reused |
| `ProjectionLaws.ResolvedIff` | pkg/reconcile/resolve.go:13-42 | the same said of the input: the clock is set, no window is negative, every event canonicalizes, and no two delivered facts share an event key |
| `ProjectionLaws.FailsAtTheFirst` | pkg/reconcile/resolve.go:22-42 | otherwise the error is about the first bad event: those before it canonicalize and reuse no key, and it does not canonicalize or reuses the key of one of them |
| `ProjectionLaws.DecisionsSay` | pkg/reconcile/resolve.go:22-90 | for each delivered fact exactly one decision says skip/duplicate_or_older, if some delivered fact of the same subject, scope, type and effective time is fresher, or else what the policy says of it; every further delivery adds one skip/duplicate_delivery; there are no others, and they ascend by event key |
| `ProjectionLaws.ProjectionsSay` | pkg/reconcile/resolve.go:92-170 | of the facts decided process_now, the one with the latest effective time, and at one time the freshest, gives its subject the provenance; the last that carries an attribute gives its value; and the last hire, rehire, leave, return or termination gives existence, enablement and lifecycle state as docs/specification.md section 6 lists them. Nothing else is projected |
| `ResolverLaws.PermutationInvariance` | pkg/reconcile/resolve.go:9-135 | any two delivery orders of one batch both fail or both succeed, with equal projections and equal multisets of decisions |
| `ResolverLaws.RedeliveryAddsOneSkip` | pkg/reconcile/resolve.go:27-39 | a redelivery at any position keeps success and projections and adds exactly one skip/duplicate_delivery decision |
| `ResolverLaws.StaleNeverWins` | pkg/reconcile/resolve.go:49-71 | a revision that some other is fresher than changes no winner and nothing about what is accepted, under every policy |
| `ResolverLaws.NewFactSucceedsIff` | pkg/reconcile/resolve.go:22-42 | a batch with one more event that brings a new fact, at any position, succeeds if and only if no delivered fact has its event key |
| `ResolverLaws.StaleAddsOneSkip` | pkg/reconcile/resolve.go:49-71 | a stale revision at any position, under an event key not yet used, leaves all projections as they are and adds exactly its own duplicate_or_older decision, even when the policy turns the fresh one down; under a used key the batch is refused |
| `ResolverLaws.WinnersStayWithin` | pkg/reconcile/resolve.go:44-83 | winning and acceptance are decided among one subject's own facts |
| `ResolverLaws.SubBatchFacts` | pkg/reconcile/resolve.go:22-42 | the sub-batch of one subject delivers exactly that subject's facts, each as often as before |
| `ResolverLaws.SubjectIsolation` | pkg/reconcile/resolve.go:44-129 | when a batch succeeds, one subject's sub-batch succeeds with the same projection and the same decisions for that subject |
| `ResolverLaws.ClockChangesReceiptOnly` | pkg/reconcile/canonicalize.go:29-120 | read at another clock time, an event gives the same fact up to its received time |
| `ResolverLaws.ClockKeepsWinners` | pkg/reconcile/resolve.go:22-58 | read at any two evaluation times, a batch is resolvable at both or neither and its winners are the same facts up to received time, no fewer and no more |
| `ResolverLaws.ClockMovesForward` | pkg/reconcile/resolve.go:44-83 | at a later evaluation time the batch has exactly the same winners, and each has kept its phase or moved on through not yet, processed, expired |
| `ResolverLaws.GreatestExists` | pkg/reconcile/resolve.go:99-115 | a non-empty set of deduplicated facts has a greatest one |
| `ResolverLaws.LastWriterWins` | pkg/reconcile/resolve.go:92-170 | each attribute comes from the greatest accepted fact carrying it, lifecycle from the greatest that changes it, provenance from the greatest of all; the projected subjects are exactly those with an accepted fact |
| `ResolverLaws.LifecycleConsistent` | pkg/reconcile/resolve.go:117-170 | in every projection enabled holds exactly when active, and existence exactly when an accepted event changed the lifecycle |
| `ResolverLaws.ExistenceNeverWithdrawn` | pkg/reconcile/resolve.go:145-164 | more accepted facts never withdraw existence |
| `ResolverLaws.AttributeFactsKeepLifecycle` | pkg/reconcile/resolve.go:162-164 | data updates, conversions and transfers never change existence, enablement or lifecycle state |
| `Canonicalization.Canonicalize` | pkg/reconcile/canonicalize.go:29-120 | refuses with the first failing check in source order, or builds the fact the specification names |
| `Canonicalization.CanonicalFormFaithful` | pkg/reconcile/canonicalize.go:29-120 | that fact says what the event said, trimmed and parsed, with consistent key, freshness, hash and attributes; refused are exactly the events with a reason |
| `CanonicalizationLaws.AcceptedExactly` | pkg/reconcile/canonicalize.go:29-74 | which events are accepted, said of their raw texts, times, counters and payload |
| `CanonicalizationLaws.RefusedForTheFirstReason` | pkg/reconcile/canonicalize.go:29-74 | any other event is refused for the first thing wrong with it; for attribute names that is the lexically first key with a blank name or the name of an earlier key |
| `CanonicalizationLaws.FactSaysWhatTheEventSays` | pkg/reconcile/canonicalize.go:100-139 | every field of the fact, and the text of its key, said from the raw event |
| `CanonicalizationLaws.AttributesAreThePayloads` | pkg/reconcile/canonicalize.go:148-199 | the attributes are the scalars under "attributes" in the payload by trimmed name: strings as they are, booleans as true or false, numbers as written; null, arrays and objects give none, and nothing else is an attribute |
| `Canonicalization.RepresentsUnique` | pkg/reconcile/canonicalize.go:100-119 | only one fact represents a given event |
| `Canonicalization.ParsingInvertsNames` | pkg/reconcile/canonicalize.go:38-45 | a raw text is an event type or a scope exactly if, trimmed and lower-cased, it is its name |
| `Canonicalization.AttributesFromPayload` | pkg/reconcile/canonicalize.go:148-184 | extraction succeeds exactly when trimmed names are non-empty and pairwise distinct, non-scalars included, and then holds exactly the scalar entries; otherwise the error is that of the lexically first offending key |
| `Canonicalization.SortedKeys` | pkg/reconcile/canonicalize.go:164-168 | the keys of a map, each once, in lexical order, whatever order they were read in |
| `Canonicalization.OffenderExists` | pkg/reconcile/canonicalize.go:169-177 | if names are not acceptable there is a lexically first offending key |
| `Canonicalization.StopsAtFirstOffender` | pkg/reconcile/canonicalize.go:170-177 | the loop stops at that key and at no other, with the earlier key it clashes with |
| `Canonicalization.FactKeyInjective` | pkg/reconcile/canonicalize.go:132-139 | a fact key determines subject, scope, event type and effective time, even when the subject ID contains the separator |
| `Canonicalization.HashDeterminesFact` | pkg/reconcile/canonicalize.go:75-93 | equal event keys and equal payload hashes mean equal facts but for the received time |
| `Rfc3339.FormatInjective` | pkg/reconcile/canonicalize.go:75-88 | different instants are formatted differently |
| `Rfc3339.FormatReads` | pkg/reconcile/canonicalize.go:75-88 | a formatted instant is its year, month, day, hour, minute, second and fraction without trailing zeros, which add up to the instant |
| `Rfc3339.FormatPlain` | pkg/reconcile/canonicalize.go:132-139 | a formatted instant never contains the fact-key separator |
| `Model.CompareTotal` | pkg/reconcile/model.go:103-123 | Compare is antisymmetric and zero on equal tuples only |
| `Model.CompareTransitive` | pkg/reconcile/model.go:103-123 | Compare is transitive |
| `Policies.DefaultPolicyAsDocumented` | pkg/reconcile/policy.go:18-26 | the reference policy does what docs/specification.md lines 91-99 say, in exact hours, for every fact and evaluation time |
| `Policies.DecisionTable` | pkg/reconcile/policy.go:46-81 | for every valid policy, when each action and reason is given, in both directions: hires and rehires belong to hire snapshots, the six other types to the lifecycle scope, any other pairing is a mismatch; then past end, cutoff and correction, future change, near and far hire, in exact arithmetic |
| `Policies.PolicyRefusedFor` | pkg/reconcile/policy.go:28-43 | a policy is refused for the first of its four faults and for nothing else |
| `Policies.DefaultRetroactiveWindow` | pkg/reconcile/policy.go:20-26 | under a cutoff the reference policy takes corrections up to 48 hours old |
| `Policies.AcceptedIff` | pkg/reconcile/policy.go:46-81 | exactly which facts a valid policy with a hire window below the maximum lets through, in exact arithmetic |
| `Policies.ClockNeverMovesAFactBack` | pkg/reconcile/policy.go:46-81 | for fixed windows and cutoff, a later clock never takes a fact back to an earlier phase |
| `Policies.ProcessedIsAccepted` | pkg/reconcile/policy.go:46-81 | the processed phase is exactly the facts that get projected |
| `Policies.SaturationIsExactIff` | pkg/reconcile/policy.go:74-76 | the saturating hire-window test agrees with exact arithmetic on all instants if and only if the window is below the largest Duration |
| `ResolverLaws.FutureLifecycleHeldBackIff` | pkg/reconcile/policy.go:62-73 | future non-hires are never processed, as docs/evaluation-scenarios.md line 14 says of them, if and only if no instant a canonical fact can have lies between the clock and the cutoff; stated over all canonical facts |
| `ResolverLaws.FutureTerminationLeaks` | pkg/reconcile/policy.go:62-68 | under every other valid policy there is a termination, dated after the clock, whose one-event batch succeeds and projects its subject as terminated |
| `Stores.Store.InsertPhysicalEvent` | pkg/store/postgres/postgres.go:57-107 | first writer wins; an exact replay reports false, other content under the key is an error, and nothing stored changes |
| `Stores.Store.UpsertCanonicalFact` | pkg/store/postgres/postgres.go:109-181 | the freshest revision of a fact key stays; identity columns of an existing row are never written; missing events and clashing identities are errors |
| `Stores.Store.CompareAndSetProjection` | pkg/store/postgres/postgres.go:254-294 | a row advances only at the expected version to strictly fresher input; a missing row is created at version zero only |
| `Stores.Store.UpsertProjection` | pkg/store/postgres/postgres.go:183-223 | the version-zero statement: create at zero, or advance a version-zero row |
| `Stores.Store.UpdateProjection` | pkg/store/postgres/postgres.go:225-245 | the positive-version statement never creates a row |
| `Stores.Store.LoadProjection` | pkg/store/postgres/postgres.go:304-307 | the unlocked read returns the current row or its absence |
| `Stores.Store.LockProjection` | pkg/store/postgres/postgres.go:313-325 | the locking read returns the current row, locks it, and locks nothing when there is none |
| `Stores.Store.Release` | pkg/store/postgres/postgres.go:326-333 | the end of the transaction gives up that lock only |
| `Stores.SqlAgreesWithCompare` | pkg/store/postgres/postgres.go:128-143 | the OR chain and the row comparison both order revisions exactly as Compare does |
| `StoreRuns.CasSafety` | pkg/store/postgres/postgres.go:247-294 | in every run of interleaved callers a row version is the number of successful calls minus one; each positive version below it was consumed exactly once, version zero once or twice |
| `StoreRuns.StateOnlyAdvances` | pkg/store/postgres/postgres.go:183-245 | between any two moments of a run a row is the same or strictly fresher under a larger version, and never gone |
| `StoreRuns.RowIsTheLastSuccess` | pkg/store/postgres/postgres.go:254-307 | in every run each row is what the last successful call for its subject set, as the columns hold it, under the version that counts the successes before it; no other caller or statement shows in it |
| `StoreColumns.StateRowHoldsTheLastCall` | pkg/store/postgres/postgres.go:183-245 | in every run each column of a state row is what the last successful call for its subject sent, times to the nearest microsecond, under the version that counts the successes before it |
| `StoreColumns.CasAnswers` | pkg/store/postgres/postgres.go:183-294 | when a compare-and-set answers true, false or an error, by the columns of the row it meets, and what each answer leaves in the tables |
| `StoreRuns.EventsImmutable` | pkg/store/postgres/postgres.go:39-107 | a stored event is never altered or removed |
| `StoreColumns.InsertAnswers` | pkg/store/postgres/postgres.go:39-107 | when an insert answers true, false or an error, by the columns of the row it meets; received_at is not compared |
| `StoreColumns.EventRowHoldsTheFirstInsert` | pkg/store/postgres/postgres.go:39-107 | in every run each column of an event row is what the first legal insert under its key sent |
| `StoreColumns.UpsertAnswers` | pkg/store/postgres/postgres.go:109-181 | when an upsert answers true, false or one of three constraint errors, by the columns of the rows it meets, and what it leaves |
| `StoreColumns.FactRowHoldsTheLastUpsert` | pkg/store/postgres/postgres.go:109-181 | in every run a fact row holds the revision of the last successful upsert under its key with the identity of the first |
| `StoreColumns.SchemaAlwaysHolds` | schema/postgres.sql:4-70 | in every run, however callers behave, counters and versions are not negative, fact rows refer to stored events, and no two fact rows share an identity |
| `StoreColumns.RoundsToNearest` | schema/postgres.sql:4-70 | a stored time is the nearest whole microsecond, the even one of two |
| `StoreRuns.CanonicalCoherent` | schema/postgres.sql:31-49 | canonical facts, at whatever precision, have one fact key for each unrounded identity tuple and one content for each event key and hash |
| `StoreRuns.FactRowsFaithful` | pkg/store/postgres/postgres.go:109-127 | at the precision its columns hold, a fact row says everything about its fact but when it was received |
| `StoreRuns.ExactReplayIff` | pkg/store/postgres/postgres.go:39-107 | an insert under a stored key is taken for a replay if and only if it brings the same fact, whenever received; anything else is a conflict |
| `StoreRuns.EventRowsOfRun` | pkg/store/postgres/postgres.go:57-107 | every event row of a reachable store is that of an inserted fact, and every inserted key has one |
| `StoreRefinement.FactRowsOfRun` | pkg/store/postgres/postgres.go:109-181 | in every run in which no upsert failed, each fact row is that of the freshest revision, as stored, upserted under its key |
| `StoreRefinement.UpsertFailsIffClash` | pkg/store/postgres/postgres.go:146-181 | for callers that insert before they upsert, whatever the precision of times, some upsert fails if and only if two of the facts upserted have different fact keys and, once rounded, one identity |
| `StoreRefinement.UpsertsNeverFail` | pkg/store/postgres/postgres.go:146-181 | so with effective times the column holds exactly, such callers never meet a constraint violation |
| `StoreRefinement.IdentityRebuildsTheKey` | pkg/store/postgres/postgres.go:109-127 | in every reachable store, however its callers behave, the identity columns of a row rebuild its fact key, though updates never write them; asked of the facts is only that the column holds their effective time exactly |
| `StoreRuns.ConflictIffHashesDiffer` | pkg/store/postgres/postgres.go:57-107 | whatever the order and the precision of times, some insert reports a conflict if and only if two inserted facts share an event key and differ in hash |
| `StoreRefinement.HoldsWinnersIff` | pkg/store/postgres/postgres.go:57-181 | what callers that insert before they upsert, and upsert all they inserted, end up with is exactly the winners of the same facts if and only if no two of those clash and rounding leaves every winner the freshest revision of its key |
| `StoreRefinement.RowsAreWinners` | pkg/store/postgres/postgres.go:109-181 | if rounding leaves the winners the freshest, a table of the freshest revisions as stored holds exactly the winners of the same facts |
| `StoreRefinement.StoreRefinesResolver` | pkg/store/postgres/postgres.go:57-181 | the incremental store refines the batch resolver: for any delivery order, redelivery, retry at a later clock and interleaving, and any precision of times, some call reports a conflict exactly when the batch would be refused; otherwise, once every fact was upserted at some attempt, canonical_facts holds exactly the winners, up to received time, if and only if no two facts of the batch clash and rounding leaves the winners the freshest; at microsecond precision it always does |
| `StoreRefinement.StoreOrderAgreesIff` | pkg/store/postgres/postgres.go:128-143 | with finer times, the stored order of two revisions is the engine's if and only if rounding does not merge their modification times against the rest of the tuple |
| `StoreRefinement.StoreOrderCanDiffer` | pkg/store/postgres/postgres.go:128-143 | two revisions a tenth of a microsecond apart that the database orders the other way round |
| `StoreRefinement.RoundedFactsClash` | schema/postgres.sql:31-49 | two facts with different fact keys whose effective times round alike: the second upsert is refused by the unique constraint |
| `StoreRefinement.RoundedFactsClashInARun` | pkg/store/postgres/postgres.go:109-181 | a run of correct callers in which it happens, for any two times that round alike |
| `Filters.EscapeCharwise` | pkg/adapter/scim/scim.go:476-479 | the two replacement passes equal a one-pass escaper |
| `Filters.EscapeRoundTrips` | pkg/adapter/scim/scim.go:476-479 | a quoted-string scanner (section 3.4.2.2 of RFC 7644) stops exactly at the closing quote and gives the subject ID back |
| `Filters.FilterRoundTrips` | pkg/adapter/scim/scim.go:215-219 | a provider reads back exactly the attribute and the subject that were searched for |
| `Scim.New` | pkg/adapter/scim/scim.go:53-124 | accepts exactly the configurations with an absolute HTTP(S) base URL without query and fragment, a usable subject attribute, a known mode and manageable, distinct names; any other is refused with the first failing check |
| `AdapterLaws.AcceptedExactly` | pkg/adapter/scim/scim.go:53-109 | which configurations are accepted, said of their URL, texts and names |
| `AdapterLaws.AdapterIsAsConfigured` | pkg/adapter/scim/scim.go:66-124 | the adapter binds by the trimmed attribute or externalId, deletes only if told to, and manages exactly the trimmed names |
| `AdapterLaws.RefusedForTheFirstReason` | pkg/adapter/scim/scim.go:53-109 | any other configuration is refused for the first thing wrong with it, and of the managed names the first bad one, against those before it |
| `Scim.BuildTable` | pkg/adapter/scim/scim.go:85-109 | the name table of the configured attributes, or the first name refused against those before it |
| `Scim.NamesAcceptableIff` | pkg/adapter/scim/scim.go:86-109 | acceptance name by name: each manageable on its own, and no two the same attribute in another casing |
| `Scim.AcceptedNamesApart` | pkg/adapter/scim/scim.go:85-109 | in an accepted adapter no managed name meets another, the subject attribute or a field that is not the profile's, in any casing |
| `Scim.ResponseAttribute` | pkg/adapter/scim/scim.go:444-458 | the loop returns the one entry under a name in any casing, none, or an error when several match, whatever order it visits them in |
| `Scim.ResourceID` | pkg/adapter/scim/scim.go:394-401 | the trimmed string id, empty when it is missing or no string |
| `Scim.ResourceVersion` | pkg/adapter/scim/scim.go:403-427 | the trimmed meta.version; absent is empty, malformed or ambiguous is an error |
| `AdapterLaws.IdSays` | pkg/adapter/scim/scim.go:394-401 | the id, said of the keys of the resource one by one |
| `AdapterLaws.VersionSays` | pkg/adapter/scim/scim.go:403-427 | the version, said of the keys of the resource and of its meta |
| `AdapterLaws.ObservedSays` | pkg/adapter/scim/scim.go:127-151 | when a resource is readable, and what is then observed of it, said of its keys: enabled unless active is false, and the managed attributes that are scalars |
| `Scim.ScimActive` | pkg/adapter/scim/scim.go:429-442 | absent means active; anything but one boolean is an error |
| `Scim.ManagedValues` | pkg/adapter/scim/scim.go:362-374 | exactly the managed attributes that hold scalars, under their configured spelling, or an error when one is ambiguous |
| `Scim.ManagedDesiredValues` | pkg/adapter/scim/scim.go:376-392 | exactly the desired attributes that are managed, under their configured spelling; an error exactly when one is desired under two spellings |
| `Scim.StringMapsEqual` | pkg/reconcile/resolve.go:214-225 | equal sizes and one-way inclusion decide equality of maps |
| `Scim.StateEquivalent` | pkg/adapter/scim/scim.go:157-167 | equivalence under the deprovision policy: absence is met by a disabled or missing account in disable mode; otherwise existence, enablement and the managed values must all agree |
| `Scim.BuildUser` | pkg/adapter/scim/scim.go:253-270 | the body of a create |
| `Scim.BuildPatch` | pkg/adapter/scim/scim.go:282-295 | one replacement of active, then one for each value, each path once |
| `Scim.BuildRequest` | pkg/adapter/scim/scim.go:173-209 | the request Apply sends for what its lookup found, or the refusal to send one |
| `Scim.PatchShape` | pkg/adapter/scim/scim.go:274-301 | for every accepted configuration and desired state: paths pairwise distinct ignoring case, exactly one of them active, none the subject attribute or an owned field, and no operation too many |
| `Scim.CreateShape` | pkg/adapter/scim/scim.go:253-270 | a create keeps every adapter-owned field at its adapter value and adds exactly the managed values |
| `Scim.OwnedFieldsBind` | pkg/adapter/scim/scim.go:258-267 | a created resource is bound to its subject by userName, externalId and the subject attribute |
| `Directories.ScimTarget.Search` | pkg/adapter/scim/scim.go:211-228 | what the search endpoint answers: the number of matching users and the first two of them |
| `Directories.ScimTarget.Send` | pkg/adapter/scim/scim.go:303-319 | a provider that stores verbatim, versions every write and enforces If-Match, behind a network that may lose request or response |
| `Directories.VersionTagInjective` | pkg/adapter/scim/scim.go:317-319 | version tags name versions |
| `Directories.RenderReads` | pkg/adapter/scim/scim.go:394-427 | the adapter reads back the id and version the provider shows |
| `Directories.RenderKeeps` | pkg/adapter/scim/scim.go:444-458 | and under every other name, in any casing, what is stored |
| `Convergence.Find` | pkg/adapter/scim/scim.go:211-251 | a lookup succeeds exactly when no user matches or one with a usable id does |
| `Convergence.SelectResource` | pkg/adapter/scim/scim.go:229-250 | a page is trusted only when its total equals its length and is at most one |
| `AttemptLaws.PageConfirms` | pkg/adapter/scim/scim.go:229-250 | a page confirms an absence only if it counts and lists none, and a match only if it counts and lists one, with an id; any other is an error |
| `Convergence.Observe` | pkg/adapter/scim/scim.go:127-151 | absence, or the enabled state and managed scalars of the one match |
| `AttemptLaws.ObservationSays` | pkg/adapter/scim/scim.go:127-151 | an observation succeeds exactly if the subject is not blank, at most one user of the target is bound to it, and that one is readable; it then says what is stored |
| `Convergence.Apply` | pkg/adapter/scim/scim.go:173-209 | its own lookup, then at most one request, addressed to what that lookup found |
| `Convergence.Converge` | pkg/reconcile/resolve.go:187-212 | reads before it writes: an error changes nothing, an equivalent target is left alone, any other gets one Apply |
| `AttemptLaws.UnchangedIff` | pkg/reconcile/resolve.go:173-212 | unchanged is reported exactly if the target could be read and agreed with the row field by field: for a present row existence, enabled and each managed value; for an absent one no account, or in disable mode a disabled one |
| `AttemptLaws.AmbiguousRow` | pkg/adapter/scim/scim.go:376-392 | a row with one managed attribute under two spellings: an account is never written from it, a deletion is still carried out |
| `ConvergenceLaws.PatchWrites` | pkg/adapter/scim/scim.go:282-295 | each path of a PATCH with distinct paths ends up with its own value |
| `ConvergenceLaws.PatchKeepsOthers` | pkg/adapter/scim/scim.go:282-295 | a PATCH leaves every name it does not write as it was |
| `ConvergenceLaws.ObserveStored` | pkg/adapter/scim/scim.go:127-151 | observing a user comes to reading what is stored |
| `ConvergenceLaws.CreatedTarget` | pkg/adapter/scim/scim.go:253-272 | a created user is the one its subject finds, and reads back as desired |
| `ConvergenceLaws.PatchedTarget` | pkg/adapter/scim/scim.go:274-301 | a patched user is still the one its subject finds, and reads back as desired on top of what it held |
| `ConvergenceLaws.RemovedTarget` | pkg/adapter/scim/scim.go:205-207 | after a delete the subject is confirmed absent |
| `ConvergenceLaws.AttemptSettles` | pkg/reconcile/resolve.go:187-212 | every attempt leaves the target as it is or brings its subject to the desired state (a disabled account keeps what it held), whether or not the caller learns of it; reported success is real, and an answered attempt that finds a difference always removes it |
| `ConvergenceLaws.SettledIsSatisfiedIff` | pkg/adapter/scim/scim.go:157-167 | a target just written is equivalent if and only if absence is desired or it held no managed scalar beyond the desired ones |
| `ConvergenceLaws.SecondConvergeIff` | pkg/reconcile/resolve.go:187-212 | a second Converge after a success writes nothing and reports unchanged if and only if absence is desired or the target held no managed scalar missing from the desired ones; otherwise it writes again |
| `ConvergenceLaws.LostResponseRecovery` | pkg/reconcile/resolve.go:187-212 | under that condition any sequence of attempts, with requests and responses lost anywhere, mutates the target at most once (create, patch, disable or delete), and once one took effect all that get through report unchanged |
| `ConvergenceLaws.ExtrasNeverSettle` | pkg/adapter/scim/scim.go:274-301 | without the condition every answered attempt writes again, for ever |
| `Protocol.InvKept` | pkg/store/postgres/postgres.go:309-333 | every step of every party keeps: one lock holder a subject, its row unchanged, plans that are the request for that row and name what was read, and a log of requests with the rows they carried |
| `ProtocolLaws.LockedRowIsStable` | pkg/store/postgres/postgres.go:309-333 | in every interleaving the row a converger read stays the row until it ends, and it is alone on its subject |
| `ProtocolLaws.SendCarriesTheRow` | cmd/converge/main.go:83-111 | in every interleaving what a converger sends is the request Apply builds for the row as it is at that moment, and that row holds only allowed attributes |
| `ProtocolLaws.TargetNeverRegresses` | cmd/converge/main.go:83-111 | in every interleaving each mutation a converger has made was the request for the row current at that moment, and the rows carried for a subject only advance in version and freshness |
| `ProtocolLaws.MutationsAreLogged` | pkg/reconcile/resolve.go:187-212 | without foreign clients only a send changes the target, by its own request and one mutation, and the log records that request and the row of that moment |
| `ProtocolLaws.NoLostUpdate` | pkg/adapter/scim/scim.go:173-209 | in every interleaving with other writers a PATCH or DELETE takes effect if and only if the user is still, field for field, the one Apply's own lookup read (section 3.14 of RFC 7644) and otherwise changes nothing; success is reported exactly when it took effect and was answered |
| `ProtocolLaws.TakenSendSettles` | pkg/reconcile/resolve.go:187-212 | among convergers of any configurations none of which manages what another binds its subjects by, and no foreign writers, however they interleave, a send that changes the target leaves its subject as the current row asks, on top of what was there |
| `ProtocolLaws.SparesOthersIff` | pkg/adapter/scim/scim.go:253-301 | exactly when that is so: every request one accepted configuration can send, on any target and with any fate, leaves each other subject of another configuration unmatched by new users and readable if and only if it does not manage, in any casing, that configuration's subject attribute |
| `ProtocolLaws.TakenPatchWritesTheRow` | pkg/adapter/scim/scim.go:274-301 | among any writers a PATCH that is taken leaves the user it names reading as the current row asks, on top of what the lookup had read |
| `ProtocolLaws.UnversionedIsNotProtected` | pkg/adapter/scim/scim.go:317-319 | without a version that guarantee is lost: the PATCH acts on what was read if and only if the user is gone or has not changed since |
| `SoloRuns.ConvergeIsARun` | pkg/reconcile/resolve.go:187-212 | the sequential Converge is one of the interleaved protocol's runs, with the same outcome |
| `SoloRuns.RunIsAConverge` | pkg/reconcile/resolve.go:187-212 | conversely an observation, a lookup and a send with nothing in between are a Converge with the outcome the session ends with |
| `SoloRuns.EndingObservationIsAConverge` | pkg/reconcile/resolve.go:192-205 | and so is an observation that ends the session |
| `ConvergeCommand.SplitJoins` | cmd/converge/main.go:60-66 | the parts of the managed list are what stands between its commas |
| `ConvergeCommand.ParseManaged` | cmd/converge/main.go:58-66 | the slice for the adapter and the allowlist hold the same trimmed names |
| `ConvergeCommand.ManagedNamesSay` | cmd/converge/main.go:58-66 | the managed names are what stands between the commas, trimmed; of a blank flag there are none |
| `ConvergeCommand.FlagsConfigure` | cmd/converge/main.go:39-68 | the flags give the adapter its binding, its mode and exactly the attributes of the allowlist |
| `ConvergeCommand.AllowlistMakesManagedDesiredTheIdentity` | cmd/converge/main.go:58-89 | for rows the allowlist lets through, the managed desired values are the row's attributes, none dropped, renamed or ambiguous |
| `ConvergeCommand.Process` | cmd/converge/main.go:83-108 | an attribute outside the allowlist ends the run before the target is touched |
| `ConvergeCommand.ProcessRow` | cmd/converge/main.go:109-121 | an apply holds the row lock from reading the row to the end of its target work, and gives it up; without a row nothing is locked or touched; a row outside the allowlist ends the run with the target as it was |
| `ConvergeCommand.Run` | cmd/converge/main.go:36-125 | lock, check, converge, release: the store is left as found, a preview changes nothing, and every refusal leaves the target alone |
| `ConvergeCommand.RefusedForTheFirstReason` | cmd/converge/main.go:36-125 | a run that does not get to its target names the first thing in its way |
| `ConvergeCommand.ReportSays` | cmd/converge/main.go:81-125 | what a run reports: the subject, the row version, the mode, and unchanged exactly if the target showed the row field by field; would_update and updated otherwise |
| `ConvergeCommand.PreviewForetellsApply` | cmd/converge/main.go:90-107 | unchanged in a preview means the apply writes nothing, would_update means exactly one write, and one fails when the other does |
| `ConvergeCommand.RerunIff` | cmd/converge/main.go:83-111 | rerunning on the same row is a no-op if and only if the row asks for absence or the target showed no more than the row has |

## Left out

- HTTP, URL parsing and building, JSON decoding, flags, environment, timeouts, report output and the SQL driver are plumbing around the modelled steps.
- SHA-256, JSON marshalling and Go payload values that marshal alike but differ in type (float64 beside json.Number).
- The order of decisions that share an event key is left open by `sort.Slice`; only their multiset is claimed.
- JSONB normalization of numbers in stored payloads, and overflow of BIGINT versions and of `time.Add` at the ends of the calendar.
- Equality of a persisted projection with that of all events ever seen: its freshness is that of the last fact in effective-time order, so a compare-and-set may refuse a changed projection, and docs/evaluation-scenarios.md puts cross-batch history out of scope.
- Concurrent creates of one subject, targets that return no version, remote writes that land after the lock is released, and rows deleted by hand: the code does not protect these (`ProtocolLaws.UnversionedIsNotProtected` shows the second).
- Providers that rewrite what they store, reject a create for uniqueness, or paginate.
- `sort.Slice` and `sort.Strings` are an insertion sort here; only its contract is used.
- Scripts, documentation, schema JSON and the evidence report.
- TargetNeverRegresses: a write that takes effect after its lock is released is excluded: no lock of this database can order it.
- NoLostUpdate: creates are excluded, since they carry no version.
- TakenSendSettles: a converger that manages the attribute another binds its subjects by is excluded, because its requests can make a second user match (`SparesOthersIff`).
