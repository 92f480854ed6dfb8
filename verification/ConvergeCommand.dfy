/** The converge command: one persisted projection, previewed or applied. */
module ConvergeCommand {
  import opened Base
  import opened Text
  import opened Model
  import opened Scim
  import opened Directories
  import opened Convergence
  import opened ConvergenceLaws
  import opened AdapterLaws
  import opened AttemptLaws
  import opened Stores

  /** The flags, and the target's URL from the environment. */
  datatype Options = Options(
    subject: string, subjectAttribute: string, apply: bool, managed: string, mode: string, baseURL: Option<Endpoint>)

  datatype Verdict = VerdictUnchanged | VerdictUpdated | VerdictWouldUpdate

  datatype Report = Report(subjectID: string, rowVersion: int, applied: bool, action: Verdict)

  datatype RunError =
    | SubjectRequired
    | BadConfiguration(cause: ConfigError)
    | NoProjection
    | UnmanagedAttribute(name: string)
    | TargetFailed

  // ---- The managed attributes ----

  /** strings.Split */
  function Split(s: string, sep: char): (parts: seq<string>)
    ensures parts != []
  {
    if s == [] then [""]
    else
      var rest := Split(s[1..], sep);
      if s[0] == sep then [""] + rest else [[s[0]] + rest[0]] + rest[1..]
  }

  function Join(parts: seq<string>, sep: char): string
    requires parts != []
  {
    if |parts| == 1 then parts[0] else parts[0] + [sep] + Join(parts[1..], sep)
  }

  /** The parts are what stands between the separators. */
  lemma {:induction false} SplitJoins(s: string, sep: char)
    ensures Join(Split(s, sep), sep) == s
    ensures forall i :: 0 <= i < |Split(s, sep)| ==> sep !in Split(s, sep)[i]
  {
    if s != [] {
      SplitJoins(s[1..], sep);
      var rest := Split(s[1..], sep);
      if s[0] == sep {
        assert ([""] + rest)[1..] == rest;
      } else {
        assert ([[s[0]] + rest[0]] + rest[1..])[1..] == rest[1..];
      }
    }
  }

  function TrimAll(parts: seq<string>): seq<string> {
    seq(|parts|, i requires 0 <= i < |parts| => TrimSpace(parts[i]))
  }

  function ManagedNames(managed: string): seq<string> {
    if TrimSpace(managed) == "" then [] else TrimAll(Split(managed, ','))
  }

  method ParseManaged(managed: string) returns (attributes: seq<string>, allowed: set<string>)
    ensures attributes == ManagedNames(managed) && allowed == Elements(attributes)
  {
    attributes, allowed := [], {};
    if TrimSpace(managed) != "" {
      var parts := Split(managed, ',');
      for i := 0 to |parts|
        invariant attributes == TrimAll(parts[..i]) && allowed == Elements(attributes)
      {
        var attribute := TrimSpace(parts[i]);
        ElementsAppend(attributes, attribute);
        assert TrimAll(parts[..i + 1]) == attributes + [attribute];
        attributes := attributes + [attribute];
        allowed := allowed + {attribute};
      }
      assert parts[..|parts|] == parts;
    }
  }

  function ConfigOf(options: Options): Config {
    Config(options.baseURL, options.subjectAttribute, ManagedNames(options.managed), options.mode)
  }

  /** With the command's allowlist nothing is dropped, renamed or ambiguous:
      the managed desired values are the desired attributes. */
  lemma AllowlistMakesManagedDesiredTheIdentity(options: Options, attributes: map<string, string>)
    requires Acceptable(ConfigOf(options)) && attributes.Keys <= Elements(ManagedNames(options.managed))
    ensures var a := AdapterFor(ConfigOf(options));
            TableOk(a.managed) && DesiredUnambiguous(a, attributes) && ManagedDesired(a, attributes) == attributes
  {
    var config := ConfigOf(options);
    var names, a := config.managedAttributes, AdapterFor(config);
    AcceptedTable(names, SubjectOf(config));
    forall k | k in attributes ensures ToLower(k) in a.managed && a.managed[ToLower(k)] == k {
      var i :| 0 <= i < |names| && names[i] == k;
      NameIsTrimmed(options.managed, i);
      TableHolds(names, Manageable(SubjectOf(config)), i);
    }
    OwnSpellings(a, attributes);
  }

  lemma NameIsTrimmed(managed: string, i: nat)
    requires i < |ManagedNames(managed)|
    ensures TrimSpace(ManagedNames(managed)[i]) == ManagedNames(managed)[i]
  {
    TrimSpaceTrims(Split(managed, ',')[i]);
  }

  lemma OwnSpellings(a: Adapter, attributes: map<string, string>)
    requires TableOk(a.managed) && forall k :: k in attributes ==> ToLower(k) in a.managed && a.managed[ToLower(k)] == k
    ensures DesiredUnambiguous(a, attributes) && ManagedDesired(a, attributes) == attributes
  {
  }

  /** The managed attributes are what stands between the commas, trimmed; of a
      blank flag there are none. */
  lemma ManagedNamesSay(managed: string) returns (parts: seq<string>)
    ensures TrimSpace(managed) == "" ==> ManagedNames(managed) == []
    ensures TrimSpace(managed) != "" ==>
              && parts != [] && Join(parts, ',') == managed && (forall i :: 0 <= i < |parts| ==> ',' !in parts[i])
              && |ManagedNames(managed)| == |parts|
              && forall i :: 0 <= i < |parts| ==> ManagedNames(managed)[i] == TrimSpace(parts[i])
  {
    parts := Split(managed, ',');
    SplitJoins(managed, ',');
  }

  /** The flags configure the adapter: its binding, its mode, and exactly the
      managed attributes of the allowlist. */
  lemma FlagsConfigure(options: Options)
    requires Acceptable(ConfigOf(options))
    ensures var a := AdapterFor(ConfigOf(options));
            && options.baseURL.Some? && options.baseURL.value.scheme in {"http", "https"}
            && a.subjectAttribute == SubjectNamed(options.subjectAttribute)
            && (a.mode == Delete <==> options.mode == "delete")
            && a.managed.Values == Elements(ManagedNames(options.managed))
  {
    var config := ConfigOf(options);
    var names, managed := config.managedAttributes, AdapterFor(config).managed;
    AdapterIsAsConfigured(config);
    forall name | name in names ensures name in managed.Values {
      var i :| 0 <= i < |names| && names[i] == name;
      NameIsTrimmed(options.managed, i);
      assert managed[ToLower(name)] == name;
    }
    forall name | name in managed.Values ensures name in names {
      var n :| n in managed && managed[n] == name;
      var i :| 0 <= i < |names| && n == ToLower(TrimSpace(names[i]));
      NameIsTrimmed(options.managed, i);
    }
  }

  // ---- One run ----

  function ReportOf(options: Options, desired: IdentityProjection, action: Verdict): Report {
    Report(options.subject, desired.rowVersion, options.apply, action)
  }

  function Reported(options: Options, desired: IdentityProjection, outcome: Outcome): Result<Report, RunError> {
    match outcome
    case Failed => Err(TargetFailed)
    case Unchanged => Ok(ReportOf(options, desired, VerdictUnchanged))
    case Updated => Ok(ReportOf(options, desired, VerdictUpdated))
  }

  ghost predicate Applies(
    options: Options, a: Adapter, desired: IdentityProjection, d: Directory, fate: Fate, d': Directory,
    r: Result<Report, RunError>)
    requires TableOk(a.managed)
  {
    exists outcome :: ConvergeStep(a, d, desired, fate, d', outcome) && r == Reported(options, desired, outcome)
  }

  ghost predicate Previews(
    options: Options, a: Adapter, desired: IdentityProjection, d: Directory, fate: Fate, r: Result<Report, RunError>)
    requires TableOk(a.managed)
  {
    r == if fate.Unreachable? || Observation(a, d, desired.subjectID).None? then Err(TargetFailed)
         else Ok(ReportOf(options, desired, if Satisfied(a, d, desired) then VerdictUnchanged else VerdictWouldUpdate))
  }

  /** Everything before the target is touched went well. */
  ghost predicate Ready(options: Options, state: map<string, IdentityProjection>) {
    && TrimSpace(options.subject) != "" && Acceptable(ConfigOf(options)) && options.subject in state
    && state[options.subject].attributes.Keys <= Elements(ManagedNames(options.managed))
  }

  /** Why a run that is not ready ends. */
  ghost predicate Refuses(options: Options, state: map<string, IdentityProjection>, e: RunError) {
    if TrimSpace(options.subject) == "" then e == SubjectRequired
    else if !Acceptable(ConfigOf(options)) then e.BadConfiguration? && RefusalOf(ConfigOf(options)) == Some(e.cause)
    else if options.subject !in state then e == NoProjection
    else && e.UnmanagedAttribute? && e.name in state[options.subject].attributes
         && e.name !in ManagedNames(options.managed)
  }

  /** How a run ends once its row may be processed; a preview changes nothing. */
  ghost predicate Concludes(
    options: Options, a: Adapter, desired: IdentityProjection, d: Directory, fate: Fate, d': Directory,
    r: Result<Report, RunError>)
    requires TableOk(a.managed)
  {
    if options.apply then Applies(options, a, desired, d, fate, d', r)
    else d' == d && Previews(options, a, desired, d, fate, r)
  }

  method CheckAllowed(attributes: map<string, string>, allowed: set<string>) returns (unknown: Option<string>)
    ensures unknown.None? <==> attributes.Keys <= allowed
    ensures unknown.Some? ==> unknown.value in attributes && unknown.value !in allowed
  {
    var keys := attributes.Keys;
    while keys != {}
      invariant keys <= attributes.Keys && attributes.Keys - keys <= allowed
      decreases keys
    {
      var key :| key in keys;
      if key !in allowed {
        return Some(key);
      }
      keys := keys - {key};
    }
    return None;
  }

  method Process(
    options: Options, a: Adapter, allowed: set<string>, desired: IdentityProjection, target: ScimTarget, fate: Fate)
    returns (r: Result<Report, RunError>)
    requires AdapterOk(a)
    modifies target
    ensures desired.attributes.Keys <= allowed
            ==> Concludes(options, a, desired, old(target.View()), fate, target.View(), r)
    ensures !(desired.attributes.Keys <= allowed) ==>
              && target.View() == old(target.View())
              && r.Err? && r.error.UnmanagedAttribute? && r.error.name in desired.attributes && r.error.name !in allowed
  {
    var unknown := CheckAllowed(desired.attributes, allowed);
    if unknown.Some? {
      return Err(UnmanagedAttribute(unknown.value));
    }
    if options.apply {
      var outcome := Converge(a, target, desired, fate);
      match outcome
      case Failed => return Err(TargetFailed);
      case Unchanged => return Ok(ReportOf(options, desired, VerdictUnchanged));
      case Updated => return Ok(ReportOf(options, desired, VerdictUpdated));
    }
    if fate.Unreachable? {
      return Err(TargetFailed);
    }
    var observed := Observe(a, target, desired.subjectID);
    if observed.None? {
      return Err(TargetFailed);
    }
    var equivalent := StateEquivalent(a, observed.value, desired);
    return Ok(ReportOf(options, desired, if equivalent then VerdictUnchanged else VerdictWouldUpdate));
  }

  method Configure(options: Options) returns (r: Result<Adapter, ConfigError>, allowed: set<string>)
    ensures r.Ok? <==> Acceptable(ConfigOf(options))
    ensures r.Ok? ==> AdapterOk(r.value) && r.value == AdapterFor(ConfigOf(options))
    ensures r.Err? ==> RefusalOf(ConfigOf(options)) == Some(r.error)
    ensures allowed == Elements(ManagedNames(options.managed))
  {
    var attributes;
    attributes, allowed := ParseManaged(options.managed);
    r := New(Config(options.baseURL, options.subjectAttribute, attributes, options.mode));
  }

  /** An apply holds the row lock from reading the row to the end of its target
      work; without a row nothing is locked or touched. */
  method ProcessRow(
    options: Options, a: Adapter, allowed: set<string>, store: Store, target: ScimTarget, fate: Fate)
    returns (r: Result<Report, RunError>)
    requires AdapterOk(a) && options.subject !in store.locked
    modifies store`locked, target
    ensures store.View() == old(store.View()) && store.locked == old(store.locked)
    ensures options.subject !in store.state ==> target.View() == old(target.View()) && r == Err(NoProjection)
    ensures options.subject in store.state ==>
              var desired := store.state[options.subject];
              && (desired.attributes.Keys <= allowed
                  ==> Concludes(options, a, desired, old(target.View()), fate, target.View(), r))
              && (!(desired.attributes.Keys <= allowed) ==>
                    && target.View() == old(target.View()) && r.Err? && r.error.UnmanagedAttribute?
                    && r.error.name in desired.attributes && r.error.name !in allowed)
  {
    if options.apply {
      var row := store.LockProjection(options.subject);
      if row.None? {
        return Err(NoProjection);
      }
      r := Process(options, a, allowed, row.value, target, fate);
      store.Release(options.subject);
    } else {
      var row := store.LoadProjection(options.subject);
      if row.None? {
        return Err(NoProjection);
      }
      r := Process(options, a, allowed, row.value, target, fate);
    }
  }

  /** The command. It leaves the store as it found it, locks included. */
  method Run(options: Options, store: Store, target: ScimTarget, fate: Fate) returns (r: Result<Report, RunError>)
    requires options.subject !in store.locked
    modifies store`locked, target
    ensures store.View() == old(store.View()) && store.locked == old(store.locked)
    ensures !Ready(options, store.state)
            ==> target.View() == old(target.View()) && r.Err? && Refuses(options, store.state, r.error)
    ensures Ready(options, store.state) ==>
              var a, desired := AdapterFor(ConfigOf(options)), store.state[options.subject];
              AdapterOk(a) && Concludes(options, a, desired, old(target.View()), fate, target.View(), r)
  {
    if TrimSpace(options.subject) == "" {
      return Err(SubjectRequired);
    }
    var created, allowed := Configure(options);
    if created.Err? {
      return Err(BadConfiguration(created.error));
    }
    r := ProcessRow(options, created.value, allowed, store, target, fate);
  }

  // ---- Several runs ----

  lemma AdapterForOk(config: Config)
    requires Acceptable(config)
    ensures AdapterOk(AdapterFor(config))
  {
    AcceptedTable(config.managedAttributes, SubjectOf(config));
  }

  /** A run that does not get to its target names the first thing in its way. */
  lemma RefusedForTheFirstReason(options: Options, state: map<string, IdentityProjection>, e: RunError)
    requires !Ready(options, state) && Refuses(options, state, e)
    ensures var named := TrimSpace(options.subject) != "";
            var configured := named && RefusalOf(ConfigOf(options)).None?;
            match e
            case SubjectRequired => !named
            case BadConfiguration(cause) => named && RefusalOf(ConfigOf(options)) == Some(cause)
            case NoProjection => configured && options.subject !in state
            case UnmanagedAttribute(name) =>
              && configured && options.subject in state
              && name in state[options.subject].attributes && name !in ManagedNames(options.managed)
            case TargetFailed => false
  {
    NothingRefusedIff(ConfigOf(options).managedAttributes, SubjectOf(ConfigOf(options)));
  }

  /** The observation shows the row: under the allowlist every attribute of the
      row is managed, so the two attribute maps have to be equal. */
  predicate Shows(a: Adapter, o: ObservedState, desired: IdentityProjection) {
    if desired.present then o == ObservedState(true, desired.enabled, desired.attributes)
    else if a.mode == Disable then !(o.present && o.enabled)
    else !o.present
  }

  lemma ShowsIff(a: Adapter, o: ObservedState, desired: IdentityProjection)
    requires TableOk(a.managed) && DesiredUnambiguous(a, desired.attributes)
    requires ManagedDesired(a, desired.attributes) == desired.attributes
    ensures Shows(a, o, desired) <==> Equivalent(a, o, desired)
  {
    AgreesIff(a, o, desired);
    HoldsManagedIff(a, o.attributes, desired.attributes);
  }

  /** What a run that got to its row reports: the subject asked for, the row's
      version, whether it was an apply, and unchanged exactly if the target
      showed the row. It fails if it could not read the target. A preview writes
      nothing and otherwise reports would_update; an apply may also fail to
      write, and otherwise reports updated. */
  lemma ReportSays(
    options: Options, state: map<string, IdentityProjection>, a: Adapter, desired: IdentityProjection, d: Directory,
    fate: Fate, d': Directory, r: Result<Report, RunError>)
    requires Ready(options, state)
    requires a == AdapterFor(ConfigOf(options)) && desired == state[options.subject] && TableOk(a.managed)
    requires Concludes(options, a, desired, d, fate, d', r)
    ensures var o := Observation(a, d, desired.subjectID);
            var shown := !fate.Unreachable? && o.Some? && Shows(a, o.value, desired);
            && (r.Err? ==> r.error == TargetFailed)
            && (r.Ok? ==> r.value.subjectID == options.subject && r.value.rowVersion == desired.rowVersion
                          && r.value.applied == options.apply)
            && (r.Ok? && r.value.action == VerdictUnchanged <==> shown)
            && (shown || fate.Unreachable? || o.None? ==> d' == d)
            && (fate.Unreachable? || o.None? ==> r.Err?)
            && (!options.apply ==> d' == d && (r.Err? ==> fate.Unreachable? || o.None?))
            && (r.Ok? && !shown ==> r.value.action == if options.apply then VerdictUpdated else VerdictWouldUpdate)
  {
    AllowlistMakesManagedDesiredTheIdentity(options, desired.attributes);
    if Observation(a, d, desired.subjectID).Some? {
      ShowsIff(a, Observation(a, d, desired.subjectID).value, desired);
    }
    if options.apply {
      var outcome := OutcomeOf(options, a, desired, d, fate, d', r);
    }
  }

  /** A preview foretells the apply that follows it on the same row and target:
      unchanged means no write, would_update means exactly one, and one fails
      when the other does. */
  lemma PreviewForetellsApply(
    options: Options, state: map<string, IdentityProjection>, a: Adapter, desired: IdentityProjection, d: Directory,
    d': Directory, preview: Result<Report, RunError>, applied: Result<Report, RunError>)
    requires Ready(options, state) && DirectoryOk(d)
    requires a == AdapterFor(ConfigOf(options)) && desired == state[options.subject] && TableOk(a.managed)
    requires Previews(options, a, desired, d, Answered, preview)
    requires Applies(options, a, desired, d, Answered, d', applied)
    ensures preview.Ok? <==> applied.Ok?
    ensures preview.Ok? ==> (preview.value.action == VerdictUnchanged <==> applied.value.action == VerdictUnchanged)
    ensures preview.Ok? && preview.value.action == VerdictUnchanged ==> d' == d
    ensures preview.Ok? && preview.value.action == VerdictWouldUpdate ==> d'.writes == d.writes + 1
  {
    AdapterForOk(ConfigOf(options));
    AllowlistMakesManagedDesiredTheIdentity(options, desired.attributes);
    var outcome := OutcomeOf(options, a, desired, d, Answered, d', applied);
    AttemptSettles(a, d, desired, Answered, d', outcome);
  }

  /** The target shows no managed scalar that the row does not have. */
  ghost predicate ShowsNoMore(a: Adapter, d: Directory, desired: IdentityProjection) {
    var observed := Observation(a, d, desired.subjectID);
    observed.Some? ==> observed.value.attributes.Keys <= desired.attributes.Keys
  }

  /** Running the command again on an unchanged row: with its allowlist, the
      rerun writes nothing and reports unchanged if and only if the row asks
      for absence or the target showed no more than the row has. */
  lemma RerunIff(
    options: Options, state: map<string, IdentityProjection>, a: Adapter, desired: IdentityProjection, d: Directory,
    fate: Fate, d1: Directory, d2: Directory, first: Result<Report, RunError>, second: Result<Report, RunError>)
    requires Ready(options, state) && DirectoryOk(d)
    requires a == AdapterFor(ConfigOf(options)) && desired == state[options.subject] && TableOk(a.managed)
    requires Applies(options, a, desired, d, fate, d1, first) && first.Ok?
    requires Applies(options, a, desired, d1, Answered, d2, second)
    ensures second == Ok(ReportOf(options, desired, VerdictUnchanged)) && d2 == d1
       <==> !desired.present || ShowsNoMore(a, d, desired)
  {
    AdapterForOk(ConfigOf(options));
    AllowlistMakesManagedDesiredTheIdentity(options, desired.attributes);
    var o1 := OutcomeOf(options, a, desired, d, fate, d1, first);
    var o2 := OutcomeOf(options, a, desired, d1, Answered, d2, second);
    SecondConvergeIff(a, d, desired, fate, d1, o1, d2, o2);
  }

  lemma OutcomeOf(
    options: Options, a: Adapter, desired: IdentityProjection, d: Directory, fate: Fate, d': Directory,
    r: Result<Report, RunError>)
    returns (outcome: Outcome)
    requires TableOk(a.managed) && Applies(options, a, desired, d, fate, d', r)
    ensures ConvergeStep(a, d, desired, fate, d', outcome)
    ensures r == Reported(options, desired, outcome)
  {
    outcome :| ConvergeStep(a, d, desired, fate, d', outcome) && r == Reported(options, desired, outcome);
  }
}
