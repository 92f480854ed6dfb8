/** The SCIM adapter apart from its traffic: configuration, reading of
    responses, the equivalence test, and the requests it builds. */
module Scim {
  import opened Base
  import opened Text
  import opened Model

  type Resource = map<string, Value>

  const CORE_USER_SCHEMA := "urn:ietf:params:scim:schemas:core:2.0:User"

  datatype DeprovisionMode = Disable | Delete

  /** A parsed BaseURL. */
  datatype Endpoint = Endpoint(scheme: string, host: string, query: string, fragment: string)

  /** baseURL is what url.Parse makes of the trimmed text, None when it fails. */
  datatype Config = Config(
    baseURL: Option<Endpoint>, subjectAttribute: string, managedAttributes: seq<string>, deprovisionMode: string)

  datatype ConfigError =
    | NotAbsoluteURL
    | NotHTTP
    | QueryOrFragment
    | InvalidSubjectAttribute
    | UnsafeSubjectAttribute
    | UnsupportedMode
    | InvalidManagedAttribute(name: string)
    | ManagedSubjectAttribute(name: string)
    | OwnedAttribute(name: string)
    | SameAttribute(previous: string, name: string)

  /** managed maps the lower-case name to the configured spelling. */
  datatype Adapter = Adapter(subjectAttribute: string, managed: map<string, string>, mode: DeprovisionMode)

  // ---- Names ----

  predicate IsLetter(c: char) {
    'a' <= c <= 'z' || 'A' <= c <= 'Z'
  }

  predicate ValidAttributeName(s: string) {
    && s != "" && IsLetter(s[0])
    && forall i :: 0 <= i < |s| ==> IsLetter(s[i]) || '0' <= s[i] <= '9' || s[i] in "_-:."
  }

  predicate AdapterOwns(name: string) {
    ToLower(name) in {"schemas", "username", "externalid", "active", "id", "meta"}
  }

  predicate UnsafeSubject(name: string) {
    ToLower(name) in {"schemas", "active", "id", "meta"}
  }

  lemma ValidNameFolds(name: string)
    requires ValidAttributeName(name)
    ensures Fold(name) == ToLower(name) && Trimmed(name) && ' ' !in name
  {
  }

  // ---- Configuration ----

  function SubjectOf(config: Config): string {
    var trimmed := TrimSpace(config.subjectAttribute);
    if trimmed == "" then "externalId" else trimmed
  }

  ghost predicate ManagedNameOk(name: string, subject: string) {
    ValidAttributeName(name) && !EqualFold(name, subject) && !AdapterOwns(name)
  }

  ghost function LowerAt(names: seq<string>, i: nat): string
    requires i < |names|
  {
    ToLower(TrimSpace(names[i]))
  }

  /** The table New builds: the trimmed names under their lower-case form. */
  ghost function ManagedTable(names: seq<string>): map<string, string> {
    if names == [] then map[]
    else
      var name := TrimSpace(names[|names| - 1]);
      ManagedTable(names[..|names| - 1])[ToLower(name) := name]
  }

  /** Every name is one that may be managed, and no two are the same attribute. */
  ghost predicate NamesAcceptable(names: seq<string>, manageable: string -> bool) {
    names != [] ==>
      var init, name := names[..|names| - 1], TrimSpace(names[|names| - 1]);
      NamesAcceptable(init, manageable) && manageable(name) && LowerAt(names, |names| - 1) !in ManagedTable(init)
  }

  ghost function Manageable(subject: string): string -> bool {
    name => ManagedNameOk(name, subject)
  }

  /** An absolute HTTP or HTTPS URL that ends with its path. */
  predicate UsableURL(baseURL: Option<Endpoint>) {
    && baseURL.Some? && baseURL.value.scheme in {"http", "https"} && baseURL.value.host != ""
    && baseURL.value.query == "" && baseURL.value.fragment == ""
  }

  /** The configurations New accepts. */
  ghost predicate Acceptable(config: Config) {
    && UsableURL(config.baseURL)
    && ValidAttributeName(SubjectOf(config)) && !UnsafeSubject(SubjectOf(config))
    && config.deprovisionMode in {"", "disable", "delete"}
    && NamesAcceptable(config.managedAttributes, Manageable(SubjectOf(config)))
  }

  ghost predicate TableOk(managed: map<string, string>) {
    forall n :: n in managed ==> ToLower(managed[n]) == n
  }

  /** What every accepted adapter satisfies. */
  ghost predicate AdapterOk(a: Adapter) {
    && ValidAttributeName(a.subjectAttribute) && !UnsafeSubject(a.subjectAttribute)
    && TableOk(a.managed)
    && forall n :: n in a.managed ==> ManagedNameOk(a.managed[n], a.subjectAttribute)
  }

  /** The checks on one managed attribute, in source order. */
  function Refusal(attribute: string, subjectAttribute: string, managed: map<string, string>): (r: Option<ConfigError>)
    ensures r.None? <==> ManagedNameOk(attribute, subjectAttribute) && ToLower(attribute) !in managed
  {
    if !ValidAttributeName(attribute) then Some(InvalidManagedAttribute(attribute))
    else if EqualFold(attribute, subjectAttribute) then Some(ManagedSubjectAttribute(attribute))
    else if AdapterOwns(attribute) then Some(OwnedAttribute(attribute))
    else if ToLower(attribute) in managed then Some(SameAttribute(managed[ToLower(attribute)], attribute))
    else None
  }

  /** The first managed attribute that is refused, against those before it. */
  ghost function FirstRefusal(
    names: seq<string>, refusal: (string, map<string, string>) -> Option<ConfigError>): Option<ConfigError>
  {
    if names == [] then None
    else
      var init := names[..|names| - 1];
      var before := FirstRefusal(init, refusal);
      if before.Some? then before else refusal(TrimSpace(names[|names| - 1]), ManagedTable(init))
  }

  ghost function RefusedFor(subject: string): (string, map<string, string>) -> Option<ConfigError> {
    (name, managed) => Refusal(name, subject, managed)
  }

  lemma {:induction false} NothingRefusedIff(names: seq<string>, subject: string)
    ensures FirstRefusal(names, RefusedFor(subject)).None? <==> NamesAcceptable(names, Manageable(subject))
  {
    if names != [] {
      NothingRefusedIff(names[..|names| - 1], subject);
    }
  }

  method BuildTable(names: seq<string>, subjectAttribute: string) returns (r: Result<map<string, string>, ConfigError>)
    ensures r == match FirstRefusal(names, RefusedFor(subjectAttribute))
                 case Some(e) => Err(e)
                 case None => Ok(ManagedTable(names))
  {
    var managed: map<string, string> := map[];
    for i := 0 to |names|
      invariant managed == ManagedTable(names[..i]) && FirstRefusal(names[..i], RefusedFor(subjectAttribute)).None?
    {
      assert names[..i + 1][..i] == names[..i];
      var attribute := TrimSpace(names[i]);
      var refused := Refusal(attribute, subjectAttribute, managed);
      if refused.Some? {
        FirstRefusalStands(names, i + 1, RefusedFor(subjectAttribute));
        return Err(refused.value);
      }
      managed := managed[ToLower(attribute) := attribute];
    }
    assert names[..|names|] == names;
    return Ok(managed);
  }

  lemma {:induction false} FirstRefusalStands(
    names: seq<string>, n: nat, refusal: (string, map<string, string>) -> Option<ConfigError>)
    requires n <= |names| && FirstRefusal(names[..n], refusal).Some?
    ensures FirstRefusal(names, refusal) == FirstRefusal(names[..n], refusal)
  {
    if n == |names| {
      assert names[..n] == names;
    } else {
      assert names[..|names| - 1][..n] == names[..n];
      FirstRefusalStands(names[..|names| - 1], n, refusal);
    }
  }

  predicate Absolute(baseURL: Option<Endpoint>) {
    baseURL.Some? && baseURL.value.scheme != "" && baseURL.value.host != ""
  }

  /** Why New refuses a configuration, if it does. */
  ghost function RefusalOf(config: Config): Option<ConfigError> {
    if !Absolute(config.baseURL) then Some(NotAbsoluteURL)
    else if config.baseURL.value.scheme !in {"http", "https"} then Some(NotHTTP)
    else if !UsableURL(config.baseURL) then Some(QueryOrFragment)
    else if !ValidAttributeName(SubjectOf(config)) then Some(InvalidSubjectAttribute)
    else if UnsafeSubject(SubjectOf(config)) then Some(UnsafeSubjectAttribute)
    else if config.deprovisionMode !in {"", "disable", "delete"} then Some(UnsupportedMode)
    else FirstRefusal(config.managedAttributes, RefusedFor(SubjectOf(config)))
  }

  /** The adapter an acceptable configuration gives. */
  ghost function AdapterFor(config: Config): Adapter {
    Adapter(SubjectOf(config), ManagedTable(config.managedAttributes),
            if config.deprovisionMode == "delete" then Delete else Disable)
  }

  method New(config: Config) returns (r: Result<Adapter, ConfigError>)
    ensures r.Ok? <==> Acceptable(config)
    ensures r.Ok? ==> r.value == AdapterFor(config) && AdapterOk(r.value)
    ensures r.Err? ==> RefusalOf(config) == Some(r.error)
  {
    if config.baseURL.None? || config.baseURL.value.scheme == "" || config.baseURL.value.host == "" {
      return Err(NotAbsoluteURL);
    }
    if config.baseURL.value.scheme != "http" && config.baseURL.value.scheme != "https" {
      return Err(NotHTTP);
    }
    if config.baseURL.value.query != "" || config.baseURL.value.fragment != "" {
      return Err(QueryOrFragment);
    }
    var subjectAttribute := SubjectOf(config);
    if !ValidAttributeName(subjectAttribute) {
      return Err(InvalidSubjectAttribute);
    }
    if UnsafeSubject(subjectAttribute) {
      return Err(UnsafeSubjectAttribute);
    }
    var mode := config.deprovisionMode;
    if mode == "" {
      mode := "disable";
    }
    if mode != "disable" && mode != "delete" {
      return Err(UnsupportedMode);
    }
    NothingRefusedIff(config.managedAttributes, subjectAttribute);
    var managed := BuildTable(config.managedAttributes, subjectAttribute);
    if managed.Err? {
      return Err(managed.error);
    }
    AcceptedTable(config.managedAttributes, subjectAttribute);
    return Ok(Adapter(subjectAttribute, managed.value, if mode == "delete" then Delete else Disable));
  }

  lemma {:induction false} AcceptedTable(names: seq<string>, subject: string)
    requires NamesAcceptable(names, Manageable(subject))
    ensures var managed := ManagedTable(names);
            TableOk(managed) && forall n :: n in managed ==> ManagedNameOk(managed[n], subject)
  {
    if names != [] {
      AcceptedTable(names[..|names| - 1], subject);
    }
  }

  /** Acceptance, name by name: each is manageable, and no two trimmed names
      are one attribute in another casing. */
  lemma {:induction false} NamesAcceptableIff(names: seq<string>, manageable: string -> bool)
    ensures NamesAcceptable(names, manageable)
       <==> (forall i :: 0 <= i < |names| ==> manageable(TrimSpace(names[i])))
            && (forall i, j :: 0 <= i < j < |names| ==> LowerAt(names, i) != LowerAt(names, j))
  {
    if names != [] {
      var n := |names| - 1;
      var init := names[..n];
      NamesAcceptableIff(init, manageable);
      LastIsNew(names);
      assert forall i :: 0 <= i < n ==> LowerAt(init, i) == LowerAt(names, i);
      assert forall i :: 0 <= i < n ==> init[i] == names[i];
    }
  }

  lemma LastIsNew(names: seq<string>)
    requires names != []
    ensures LowerAt(names, |names| - 1) !in ManagedTable(names[..|names| - 1])
       <==> forall i :: 0 <= i < |names| - 1 ==> LowerAt(names, i) != LowerAt(names, |names| - 1)
  {
    var n := |names| - 1;
    TableKeys(names[..n]);
    assert forall i :: 0 <= i < n ==> LowerAt(names[..n], i) == LowerAt(names, i);
  }

  lemma {:induction false} TableKeys(names: seq<string>)
    ensures forall n :: n in ManagedTable(names) <==> exists i :: 0 <= i < |names| && n == LowerAt(names, i)
  {
    if names != [] {
      var init := names[..|names| - 1];
      TableKeys(init);
      assert forall i :: 0 <= i < |init| ==> LowerAt(init, i) == LowerAt(names, i);
      assert LowerAt(names, |init|) in ManagedTable(names);
    }
  }

  lemma {:induction false} TableHolds(names: seq<string>, manageable: string -> bool, i: nat)
    requires NamesAcceptable(names, manageable) && i < |names|
    ensures LowerAt(names, i) in ManagedTable(names) && ManagedTable(names)[LowerAt(names, i)] == TrimSpace(names[i])
  {
    var n := |names| - 1;
    if i < n {
      assert LowerAt(names[..n], i) == LowerAt(names, i);
      TableHolds(names[..n], manageable, i);
    }
  }

  // ---- Reading a resource ----

  ghost predicate Ambiguous(resource: Resource, name: string) {
    exists k, k' :: k in resource && k' in resource && k != k' && EqualFold(k, name) && EqualFold(k', name)
  }

  /** The value under a name in any case: None for none, an error for several. */
  ghost function Lookup(resource: Resource, name: string): Result<Option<Value>, string> {
    if Ambiguous(resource, name) then Err(name)
    else if exists k :: k in resource && EqualFold(k, name)
    then
      var k :| k in resource && EqualFold(k, name);
      Ok(Some(resource[k]))
    else Ok(None)
  }

  method ResponseAttribute(resource: Resource, name: string) returns (r: Result<Option<Value>, string>)
    ensures r == Lookup(resource, name)
  {
    var found: Option<Value> := None;
    ghost var at := name;
    var keys := resource.Keys;
    while keys != {}
      invariant keys <= resource.Keys
      invariant found.Some? ==> at in resource.Keys - keys && EqualFold(at, name) && found.value == resource[at]
      invariant forall k :: k in resource.Keys - keys && EqualFold(k, name) ==> found.Some? && k == at
      decreases keys
    {
      var key :| key in keys;
      keys := keys - {key};
      if !EqualFold(key, name) {
        continue;
      }
      if found.Some? {
        assert Ambiguous(resource, name);
        return Err(name);
      }
      found, at := Some(resource[key]), key;
    }
    return Ok(found);
  }

  /** The trimmed id, empty when there is no string; None when ambiguous. */
  ghost function IdOf(resource: Resource): Option<string> {
    match Lookup(resource, "id")
    case Err(_) => None
    case Ok(Some(Str(id))) => Some(TrimSpace(id))
    case Ok(_) => Some("")
  }

  method ResourceID(resource: Resource) returns (r: Option<string>)
    ensures r == IdOf(resource)
  {
    var value := ResponseAttribute(resource, "id");
    match value
    case Err(_) => return None;
    case Ok(Some(Str(id))) => return Some(TrimSpace(id));
    case Ok(_) => return Some("");
  }

  /** meta.version, empty when absent; None when malformed or ambiguous. */
  ghost function VersionOf(resource: Resource): Option<string> {
    match Lookup(resource, "meta")
    case Err(_) => None
    case Ok(None) => Some("")
    case Ok(Some(Object(meta))) =>
      (match Lookup(meta, "version")
       case Err(_) => None
       case Ok(None) => Some("")
       case Ok(Some(Str(version))) => Some(TrimSpace(version))
       case Ok(Some(_)) => None)
    case Ok(Some(_)) => None
  }

  method ResourceVersion(resource: Resource) returns (r: Option<string>)
    ensures r == VersionOf(resource)
  {
    var value := ResponseAttribute(resource, "meta");
    match value {
      case Err(_) => return None;
      case Ok(None) => return Some("");
      case Ok(Some(Object(meta))) =>
        var version := ResponseAttribute(meta, "version");
        match version {
          case Err(_) => return None;
          case Ok(None) => return Some("");
          case Ok(Some(Str(text))) => return Some(TrimSpace(text));
          case Ok(Some(_)) => return None;
        }
      case Ok(Some(_)) => return None;
    }
  }

  /** Absent means active; None when not a boolean or ambiguous. */
  ghost function ActiveOf(resource: Resource): Option<bool> {
    match Lookup(resource, "active")
    case Err(_) => None
    case Ok(None) => Some(true)
    case Ok(Some(Bool(b))) => Some(b)
    case Ok(Some(_)) => None
  }

  method ScimActive(resource: Resource) returns (r: Option<bool>)
    ensures r == ActiveOf(resource)
  {
    var value := ResponseAttribute(resource, "active");
    match value
    case Err(_) => return None;
    case Ok(None) => return Some(true);
    case Ok(Some(Bool(b))) => return Some(b);
    case Ok(Some(_)) => return None;
  }

  /** The scalar text of an attribute that is there once. */
  ghost function ScalarAt(resource: Resource, name: string): Option<string> {
    match Lookup(resource, name)
    case Ok(Some(v)) => ScalarString(v)
    case _ => None
  }

  ghost predicate ReadableNames(a: Adapter, resource: Resource) {
    forall n :: n in a.managed ==> Lookup(resource, a.managed[n]).Ok?
  }

  /** The managed scalars of a resource, under their configured spelling. */
  ghost function ManagedScalars(a: Adapter, resource: Resource): map<string, string> {
    map c | c in a.managed.Values && ScalarAt(resource, c).Some? :: ScalarAt(resource, c).value
  }

  method ManagedValues(a: Adapter, resource: Resource) returns (r: Option<map<string, string>>)
    ensures r == if ReadableNames(a, resource) then Some(ManagedScalars(a, resource)) else None
  {
    var values: map<string, string> := map[];
    var names := a.managed.Keys;
    while names != {}
      invariant names <= a.managed.Keys
      invariant forall n :: n in a.managed.Keys - names ==> Lookup(resource, a.managed[n]).Ok?
      invariant forall n ::
                  n in a.managed.Keys - names && ScalarAt(resource, a.managed[n]).Some? ==> a.managed[n] in values
      invariant forall c :: c in values ==> c in a.managed.Values && ScalarAt(resource, c) == Some(values[c])
      decreases names
    {
      var n :| n in names;
      var attribute := a.managed[n];
      var candidate := ResponseAttribute(resource, attribute);
      if candidate.Err? {
        return None;
      }
      if candidate.value.Some? && ScalarString(candidate.value.value).Some? {
        assert attribute in a.managed.Values;
        values := values[attribute := ScalarString(candidate.value.value).value];
      }
      names := names - {n};
    }
    assert values == ManagedScalars(a, resource) by {
      forall c | c in ManagedScalars(a, resource) ensures c in values {
        var n :| n in a.managed && a.managed[n] == c;
      }
    }
    return Some(values);
  }

  // ---- Desired values ----

  /** No managed attribute is desired under two spellings. */
  ghost predicate DesiredUnambiguous(a: Adapter, attributes: map<string, string>) {
    forall k, k' ::
      k in attributes && k' in attributes && ToLower(k) in a.managed && ToLower(k) == ToLower(k') ==> k == k'
  }

  /** The desired attributes that are managed, under their configured spelling. */
  ghost function ManagedDesired(a: Adapter, attributes: map<string, string>): map<string, string>
    requires TableOk(a.managed) && DesiredUnambiguous(a, attributes)
  {
    map k | k in attributes && ToLower(k) in a.managed :: a.managed[ToLower(k)] := attributes[k]
  }

  /** The loop's two maps after the attributes it has passed. */
  ghost predicate Gathered(
    a: Adapter, attributes: map<string, string>, done: set<string>, seen: map<string, string>,
    values: map<string, string>)
  {
    SeenSpellings(a, attributes, done, seen) && SeenValues(a, attributes, seen, values)
  }

  ghost predicate SeenSpellings(
    a: Adapter, attributes: map<string, string>, done: set<string>, seen: map<string, string>)
  {
    && (forall k :: k in done && ToLower(k) in a.managed ==> ToLower(k) in seen && seen[ToLower(k)] == k)
    && (forall n :: n in seen ==> n in a.managed && seen[n] in done && seen[n] in attributes && ToLower(seen[n]) == n)
  }

  ghost predicate SeenValues(
    a: Adapter, attributes: map<string, string>, seen: map<string, string>, values: map<string, string>)
  {
    && (forall n :: n in seen ==> n in a.managed && seen[n] in attributes
                                  && a.managed[n] in values && values[a.managed[n]] == attributes[seen[n]])
    && (forall c :: c in values ==> ToLower(c) in seen && ToLower(c) in a.managed && a.managed[ToLower(c)] == c)
  }

  lemma SpellingNext(
    a: Adapter, attributes: map<string, string>, done: set<string>, seen: map<string, string>, k: string)
    requires SeenSpellings(a, attributes, done, seen) && k in attributes && ToLower(k) !in seen
    ensures SeenSpellings(a, attributes, done + {k}, if ToLower(k) in a.managed then seen[ToLower(k) := k] else seen)
  {
  }

  lemma ValueNext(
    a: Adapter, attributes: map<string, string>, seen: map<string, string>, values: map<string, string>, k: string)
    requires TableOk(a.managed) && SeenValues(a, attributes, seen, values)
    requires k in attributes && ToLower(k) !in seen && ToLower(k) in a.managed
    ensures SeenValues(a, attributes, seen[ToLower(k) := k], values[a.managed[ToLower(k)] := attributes[k]])
  {
  }

  lemma GatheredAll(a: Adapter, attributes: map<string, string>, seen: map<string, string>, values: map<string, string>)
    requires TableOk(a.managed) && Gathered(a, attributes, attributes.Keys, seen, values)
    ensures DesiredUnambiguous(a, attributes) && values == ManagedDesired(a, attributes)
  {
  }

  method ManagedDesiredValues(a: Adapter, attributes: map<string, string>) returns (r: Option<map<string, string>>)
    requires TableOk(a.managed)
    ensures r.Some? <==> DesiredUnambiguous(a, attributes)
    ensures r.Some? ==> r.value == ManagedDesired(a, attributes)
  {
    var values: map<string, string> := map[];
    var seen: map<string, string> := map[];
    var keys := attributes.Keys;
    while keys != {}
      invariant keys <= attributes.Keys
      invariant Gathered(a, attributes, attributes.Keys - keys, seen, values)
      decreases keys
    {
      var attribute :| attribute in keys;
      var normalized := ToLower(attribute);
      ghost var done := attributes.Keys - keys;
      keys := keys - {attribute};
      assert attributes.Keys - keys == done + {attribute};
      if normalized !in a.managed {
        SpellingNext(a, attributes, done, seen, attribute);
        continue;
      }
      if normalized in seen {
        assert seen[normalized] != attribute;
        return None;
      }
      SpellingNext(a, attributes, done, seen, attribute);
      ValueNext(a, attributes, seen, values, attribute);
      seen := seen[normalized := attribute];
      values := values[a.managed[normalized] := attributes[attribute]];
    }
    assert attributes.Keys - {} == attributes.Keys;
    GatheredAll(a, attributes, seen, values);
    return Some(values);
  }

  // ---- Observation and equivalence ----

  /** What Observe reports of the resource found, or of none; None for an error. */
  ghost function Observed(a: Adapter, resource: Option<Resource>): Option<ObservedState> {
    match resource
    case None => Some(ObservedState(false, false, map[]))
    case Some(r) =>
      if ActiveOf(r).None? || !ReadableNames(a, r) then None
      else Some(ObservedState(true, ActiveOf(r).value, ManagedScalars(a, r)))
  }

  /** Target-observable agreement: existence, and for a present identity its
      enabled state and all attributes. */
  ghost predicate SameState(observed: ObservedState, present: bool, enabled: bool, attributes: map<string, string>) {
    observed.present == present && (present ==> observed.enabled == enabled && observed.attributes == attributes)
  }

  /** Equivalence under the deprovision policy. */
  ghost predicate Equivalent(a: Adapter, observed: ObservedState, desired: IdentityProjection)
    requires TableOk(a.managed)
  {
    if !desired.present && a.mode == Disable then !observed.present || !observed.enabled
    else DesiredUnambiguous(a, desired.attributes)
         && SameState(observed, desired.present, desired.enabled, ManagedDesired(a, desired.attributes))
  }

  /** Two maps are equal exactly when they have as many entries and every entry
      of one is in the other. */
  method StringMapsEqual(left: map<string, string>, right: map<string, string>) returns (equal: bool)
    ensures equal <==> left == right
  {
    if |left| != |right| {
      return false;
    }
    var keys := left.Keys;
    while keys != {}
      invariant keys <= left.Keys
      invariant forall k :: k in left.Keys - keys ==> k in right && right[k] == left[k]
      decreases keys
    {
      var key :| key in keys;
      if key !in right || right[key] != left[key] {
        return false;
      }
      keys := keys - {key};
    }
    SubsetOfSameSize(left.Keys, right.Keys);
    return true;
  }

  lemma {:induction false} SubsetOfSameSize<T>(a: set<T>, b: set<T>)
    requires a <= b && |a| == |b|
    ensures a == b
  {
    if x :| x in b && x !in a {
      SubsetSize(a, b - {x});
    }
  }

  lemma {:induction false} SubsetSize<T>(a: set<T>, b: set<T>)
    requires a <= b
    ensures |a| <= |b|
  {
    if x :| x in a {
      SubsetSize(a - {x}, b - {x});
    }
  }

  method StateEquivalent(a: Adapter, observed: ObservedState, desired: IdentityProjection) returns (equivalent: bool)
    requires TableOk(a.managed)
    ensures equivalent <==> Equivalent(a, observed, desired)
  {
    if !desired.present && a.mode == Disable {
      return !observed.present || !observed.enabled;
    }
    var attributes := ManagedDesiredValues(a, desired.attributes);
    if attributes.None? {
      return false;
    }
    if observed.present != desired.present {
      return false;
    }
    if !desired.present {
      return true;
    }
    if observed.enabled != desired.enabled {
      return false;
    }
    equivalent := StringMapsEqual(observed.attributes, attributes.value);
  }

  // ---- Requests ----

  datatype PatchOp = Replace(path: string, value: Value)

  datatype Request =
    | Nothing
    | Create(user: Resource)
    | Patch(id: string, operations: seq<PatchOp>, version: string)
    | Remove(id: string, version: string)

  /** The body of a create: adapter-owned fields, then managed attributes. */
  ghost function UserFor(a: Adapter, desired: IdentityProjection, values: map<string, string>): Resource {
    OwnedFields(a, desired) + map k | k in values :: Str(values[k])
  }

  function OwnedFields(a: Adapter, desired: IdentityProjection): Resource {
    map["schemas" := Array([Str(CORE_USER_SCHEMA)]),
        "userName" := Str(desired.subjectID),
        "externalId" := Str(desired.subjectID),
        "active" := Bool(desired.enabled)]
    [a.subjectAttribute := Str(desired.subjectID)]
  }

  method BuildUser(a: Adapter, desired: IdentityProjection, values: map<string, string>) returns (user: Resource)
    ensures user == UserFor(a, desired, values)
  {
    user := OwnedFields(a, desired);
    ghost var base := user;
    var keys := values.Keys;
    while keys != {}
      invariant keys <= values.Keys
      invariant user == base + map k | k in values.Keys - keys :: Str(values[k])
      decreases keys
    {
      var key :| key in keys;
      ghost var before := values.Keys - keys;
      user := user[key := Str(values[key])];
      keys := keys - {key};
      assert values.Keys - keys == before + {key};
    }
    assert values.Keys - {} == values.Keys;
  }

  /** One replacement of active, then one per value, in whatever order. */
  ghost predicate IsPatch(operations: seq<PatchOp>, enabled: bool, values: map<string, string>) {
    && operations != [] && operations[0] == Replace("active", Bool(enabled))
    && (forall i :: 1 <= i < |operations|
          ==> operations[i].path in values && operations[i].value == Str(values[operations[i].path]))
    && (forall i, j :: 1 <= i < j < |operations| ==> operations[i].path != operations[j].path)
    && (forall k :: k in values ==> exists i :: 1 <= i < |operations| && operations[i].path == k)
  }

  method BuildPatch(enabled: bool, values: map<string, string>) returns (operations: seq<PatchOp>)
    ensures IsPatch(operations, enabled, values)
  {
    operations := [Replace("active", Bool(enabled))];
    var keys := values.Keys;
    while keys != {}
      invariant keys <= values.Keys
      invariant operations != [] && operations[0] == Replace("active", Bool(enabled))
      invariant forall i :: 1 <= i < |operations|
                  ==> operations[i].path in values.Keys - keys && operations[i].value == Str(values[operations[i].path])
      invariant forall i, j :: 1 <= i < j < |operations| ==> operations[i].path != operations[j].path
      invariant forall k :: k in values.Keys - keys ==> exists i :: 1 <= i < |operations| && operations[i].path == k
      decreases keys
    {
      var key :| key in keys;
      ghost var before := operations;
      ghost var done := values.Keys - keys;
      operations := operations + [Replace(key, Str(values[key]))];
      keys := keys - {key};
      forall k | k in values.Keys - keys ensures exists i :: 1 <= i < |operations| && operations[i].path == k {
        if k == key {
          assert operations[|before|].path == k;
        } else {
          assert k in done;
          var i :| 1 <= i < |before| && before[i].path == k;
          assert operations[i].path == k;
        }
      }
    }
    assert values.Keys - keys == values.Keys;
  }

  /** The values a PATCH for this desired state carries. */
  ghost function PatchValues(a: Adapter, desired: IdentityProjection): map<string, string>
    requires TableOk(a.managed) && (desired.present ==> DesiredUnambiguous(a, desired.attributes))
  {
    if desired.present then ManagedDesired(a, desired.attributes) else map[]
  }

  /** Whether a request is the one Apply sends for what its own lookup found;
      None is a refusal to send anything because of an error. */
  ghost predicate IsRequest(a: Adapter, found: Option<Resource>, desired: IdentityProjection, request: Option<Request>)
    requires TableOk(a.managed)
  {
    match found
    case None =>
      if !desired.present then request == Some(Nothing)
      else if !DesiredUnambiguous(a, desired.attributes) then request.None?
      else request == Some(Create(UserFor(a, desired, ManagedDesired(a, desired.attributes))))
    case Some(resource) =>
      var id, version := IdOf(resource), VersionOf(resource);
      if id.None? || version.None? then request.None?
      else if !desired.present && a.mode == Delete then request == Some(Remove(id.value, version.value))
      else if id.value == "" || (desired.present && !DesiredUnambiguous(a, desired.attributes)) then request.None?
      else
        && request.Some? && request.value.Patch?
        && request.value.id == id.value && request.value.version == version.value
        && IsPatch(request.value.operations, desired.present && desired.enabled, PatchValues(a, desired))
  }

  method BuildRequest(
    a: Adapter, found: Option<Resource>, desired: IdentityProjection) returns (request: Option<Request>)
    requires TableOk(a.managed)
    ensures IsRequest(a, found, desired, request)
  {
    if desired.present && found.None? {
      var attributes := ManagedDesiredValues(a, desired.attributes);
      if attributes.None? {
        return None;
      }
      var user := BuildUser(a, desired, attributes.value);
      return Some(Create(user));
    }
    if found.None? {
      return Some(Nothing);
    }
    var id := ResourceID(found.value);
    if id.None? {
      return None;
    }
    var version := ResourceVersion(found.value);
    if version.None? {
      return None;
    }
    if !desired.present && a.mode == Delete {
      return Some(Remove(id.value, version.value));
    }
    if id.value == "" {
      return None;
    }
    var enabled, attributes := false, map[];
    if desired.present {
      enabled, attributes := desired.enabled, desired.attributes;
    }
    var values := ManagedDesiredValues(a, attributes);
    if values.None? {
      return None;
    }
    var operations := BuildPatch(enabled, values.value);
    return Some(Patch(id.value, operations, version.value));
  }

  // ---- The shape of what is written ----

  /** A managed attribute is its own entry of the table, and in every casing it
      stays clear of what the adapter and the provider own. */
  ghost predicate OwnEntry(managed: map<string, string>, subject: string, c: string) {
    && Fold(c) == ToLower(c) && ToLower(c) in managed && managed[ToLower(c)] == c
    && !EqualFold(c, subject) && Unowned(c)
  }

  ghost predicate Unowned(c: string) {
    && !EqualFold(c, "id") && !EqualFold(c, "meta") && !EqualFold(c, "active")
    && !EqualFold(c, "schemas") && !EqualFold(c, "userName") && !EqualFold(c, "externalId")
  }

  ghost predicate NamesApart(a: Adapter) {
    && TableOk(a.managed)
    && !EqualFold(a.subjectAttribute, "active")
    && forall c :: c in a.managed.Values ==> OwnEntry(a.managed, a.subjectAttribute, c)
  }

  /** What New rejects keeps the names of an accepted adapter apart. */
  lemma AcceptedNamesApart(a: Adapter)
    requires AdapterOk(a)
    ensures NamesApart(a)
  {
    SubjectIsNotActive(a);
    forall c | c in a.managed.Values ensures OwnEntry(a.managed, a.subjectAttribute, c) {
      var n :| n in a.managed && a.managed[n] == c;
      ManagedNameApart(c, a.subjectAttribute);
    }
  }

  lemma ManagedNameApart(c: string, subject: string)
    requires ManagedNameOk(c, subject)
    ensures Fold(c) == ToLower(c) && !EqualFold(c, subject) && Unowned(c)
  {
    ValidNameFolds(c);
    PlainFold("id", "id");
    PlainFold("meta", "meta");
    PlainFold("active", "active");
    PlainFold("schemas", "schemas");
    PlainFold("userName", "username");
    PlainFold("externalId", "externalid");
  }

  /** Folding letter by letter. */
  lemma PlainFold(s: string, t: string)
    requires |s| == |t| && forall i :: 0 <= i < |s| ==> FoldChar(s[i]) == t[i]
    ensures Fold(s) == t
  {
  }

  lemma SubjectIsNotActive(a: Adapter)
    requires AdapterOk(a)
    ensures !EqualFold(a.subjectAttribute, "active")
  {
    ValidNameFolds(a.subjectAttribute);
    PlainFold("active", "active");
  }

  /** Two managed attributes are never one in another casing. */
  lemma ManagedDistinct(a: Adapter, c: string, c': string)
    requires NamesApart(a) && c in a.managed.Values && c' in a.managed.Values && EqualFold(c, c')
    ensures c == c'
  {
  }

  lemma DesiredAreManaged(a: Adapter, attributes: map<string, string>)
    requires TableOk(a.managed) && DesiredUnambiguous(a, attributes)
    ensures ManagedDesired(a, attributes).Keys <= a.managed.Values
  {
  }

  ghost predicate PathsDistinct(ops: seq<PatchOp>) {
    forall i, j :: 0 <= i < j < |ops| ==> !EqualFold(ops[i].path, ops[j].path)
  }

  lemma PathsApart(a: Adapter, ops: seq<PatchOp>, enabled: bool, values: map<string, string>)
    requires NamesApart(a) && IsPatch(ops, enabled, values) && values.Keys <= a.managed.Values
    ensures PathsDistinct(ops)
    ensures forall i :: 0 <= i < |ops| ==> !EqualFold(ops[i].path, a.subjectAttribute)
    ensures forall i :: 1 <= i < |ops| ==> ops[i].path in a.managed.Values && Unowned(ops[i].path)
  {
  }

  /** For every accepted configuration and every desired state, the paths of a
      PATCH are pairwise distinct in every casing, exactly one is active, and
      none is the subject binding or another field that is not the profile's. */
  lemma PatchShape(a: Adapter, desired: IdentityProjection, ops: seq<PatchOp>, enabled: bool)
    requires AdapterOk(a) && (desired.present ==> DesiredUnambiguous(a, desired.attributes))
    requires IsPatch(ops, enabled, PatchValues(a, desired))
    ensures PathsDistinct(ops) && |ops| == 1 + |PatchValues(a, desired)|
    ensures ops[0] == Replace("active", Bool(enabled))
    ensures forall i :: 0 <= i < |ops| ==> !EqualFold(ops[i].path, a.subjectAttribute)
    ensures forall i :: 1 <= i < |ops| ==> Unowned(ops[i].path)
  {
    AcceptedNamesApart(a);
    if desired.present {
      DesiredAreManaged(a, desired.attributes);
    }
    PathsApart(a, ops, enabled, PatchValues(a, desired));
    PatchLength(ops, enabled, PatchValues(a, desired));
  }

  ghost function ProfilePaths(ops: seq<PatchOp>): seq<string>
    requires ops != []
  {
    seq(|ops| - 1, i requires 0 <= i < |ops| - 1 => ops[i + 1].path)
  }

  lemma PatchLength(ops: seq<PatchOp>, enabled: bool, values: map<string, string>)
    requires IsPatch(ops, enabled, values)
    ensures |ops| == 1 + |values|
  {
    var paths := ProfilePaths(ops);
    PatchPaths(ops, enabled, values);
    DistinctSize(paths);
    assert |values| == |values.Keys|;
  }

  lemma PatchPaths(ops: seq<PatchOp>, enabled: bool, values: map<string, string>)
    requires IsPatch(ops, enabled, values)
    ensures Distinct(ProfilePaths(ops)) && Elements(ProfilePaths(ops)) == values.Keys
  {
    PathsDiffer(ops);
    PathsAreKeys(ops, values.Keys);
    KeysArePaths(ops, values.Keys);
  }

  lemma PathsDiffer(ops: seq<PatchOp>)
    requires ops != [] && (forall i, j :: 1 <= i < j < |ops| ==> ops[i].path != ops[j].path)
    ensures Distinct(ProfilePaths(ops))
  {
  }

  lemma PathsAreKeys(ops: seq<PatchOp>, keys: set<string>)
    requires ops != [] && forall i :: 1 <= i < |ops| ==> ops[i].path in keys
    ensures Elements(ProfilePaths(ops)) <= keys
  {
  }

  lemma KeysArePaths(ops: seq<PatchOp>, keys: set<string>)
    requires ops != [] && forall k :: k in keys ==> exists i :: 1 <= i < |ops| && ops[i].path == k
    ensures Elements(ProfilePaths(ops)) >= keys
  {
    forall k | k in keys ensures k in ProfilePaths(ops) {
      var i :| 1 <= i < |ops| && ops[i].path == k;
      assert ProfilePaths(ops)[i - 1] == k;
    }
  }

  ghost predicate Clear(owned: Resource, managed: set<string>) {
    forall k, c :: k in owned && c in managed ==> !EqualFold(c, k)
  }

  lemma OwnedFieldsClear(a: Adapter, desired: IdentityProjection)
    requires NamesApart(a)
    ensures Clear(OwnedFields(a, desired), a.managed.Values)
    ensures OwnedFields(a, desired).Keys == {"schemas", "userName", "externalId", "active", a.subjectAttribute}
  {
  }

  /** A create keeps every adapter-owned field, and the subject binding, at its
      adapter value, and adds the managed values to them. */
  lemma CreateShape(a: Adapter, desired: IdentityProjection)
    requires AdapterOk(a) && DesiredUnambiguous(a, desired.attributes)
    ensures var owned, values := OwnedFields(a, desired), ManagedDesired(a, desired.attributes);
            var user := UserFor(a, desired, values);
            && user.Keys == owned.Keys + values.Keys && owned.Keys !! values.Keys
            && (forall k :: k in owned ==> user[k] == owned[k])
            && (forall k :: k in values ==> user[k] == Str(values[k]))
  {
    var owned, values := OwnedFields(a, desired), ManagedDesired(a, desired.attributes);
    AcceptedNamesApart(a);
    DesiredAreManaged(a, desired.attributes);
    OwnedFieldsClear(a, desired);
    forall c | c in values ensures c !in owned {
    }
    Overlay(owned, values);
  }

  lemma Overlay(owned: Resource, values: map<string, string>)
    requires owned.Keys !! values.Keys
    ensures var user := owned + map k | k in values :: Str(values[k]);
            && user.Keys == owned.Keys + values.Keys
            && (forall k :: k in owned ==> user[k] == owned[k])
            && (forall k :: k in values ==> user[k] == Str(values[k]))
  {
  }

  /** The owned fields bind the resource to its subject. */
  lemma OwnedFieldsBind(a: Adapter, desired: IdentityProjection)
    requires AdapterOk(a)
    ensures var owned := OwnedFields(a, desired);
            && owned["userName"] == Str(desired.subjectID) && owned["externalId"] == Str(desired.subjectID)
            && owned["active"] == Bool(desired.enabled) && owned[a.subjectAttribute] == Str(desired.subjectID)
            && owned["schemas"] == Array([Str("urn:ietf:params:scim:schemas:core:2.0:User")])
  {
    SubjectIsPlain(a.subjectAttribute);
  }

  lemma SubjectIsPlain(subject: string)
    requires !UnsafeSubject(subject)
    ensures subject != "schemas" && subject != "active"
  {
    LowerOf("schemas", "schemas");
    LowerOf("active", "active");
  }

  /** Lower-casing letter by letter. */
  lemma LowerOf(s: string, t: string)
    requires |s| == |t| && forall i :: 0 <= i < |s| ==> LowerChar(s[i]) == t[i]
    ensures ToLower(s) == t
  {
  }
}
