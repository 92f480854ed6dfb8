/** What the adapter accepts as its configuration, and what it reads in a
    response, said of names, keys and values one by one. */
module AdapterLaws {
  import opened Base
  import opened Text
  import opened Model
  import opened Scim

  // ---- Configuration ----

  predicate Letter(c: char) {
    'a' <= c <= 'z' || 'A' <= c <= 'Z'
  }

  /** A letter, then letters, digits, underscores, hyphens, colons and dots. */
  predicate PlainName(s: string) {
    && s != "" && Letter(s[0])
    && forall c :: c in s ==> Letter(c) || '0' <= c <= '9' || c == '_' || c == '-' || c == ':' || c == '.'
  }

  /** In no casing is it one of these. */
  predicate NoneOf(s: string, names: set<string>) {
    forall name :: name in names ==> !EqualFold(s, name)
  }

  const PROTOCOL_FIELDS := {"schemas", "active", "id", "meta"}
  const OWNED_FIELDS := PROTOCOL_FIELDS + {"userName", "externalId"}

  /** The subject attribute that is meant: externalId unless one is named. */
  function SubjectNamed(text: string): string {
    if TrimSpace(text) == "" then "externalId" else TrimSpace(text)
  }

  lemma PlainIsValid(s: string)
    ensures PlainName(s) <==> ValidAttributeName(s)
  {
    if ValidAttributeName(s) {
      forall c | c in s ensures Letter(c) || '0' <= c <= '9' || c == '_' || c == '-' || c == ':' || c == '.' {
        var i :| 0 <= i < |s| && s[i] == c;
      }
    }
    if PlainName(s) {
      forall i | 0 <= i < |s| ensures IsLetter(s[i]) || '0' <= s[i] <= '9' || s[i] in "_-:." {
        assert s[i] in s;
      }
    }
  }

  lemma ReservedFold()
    ensures Fold("schemas") == "schemas" && Fold("active") == "active" && Fold("id") == "id" && Fold("meta") == "meta"
    ensures Fold("userName") == "username" && Fold("externalId") == "externalid"
  {
    PlainFold("schemas", "schemas");
    PlainFold("active", "active");
    PlainFold("id", "id");
    PlainFold("meta", "meta");
    PlainFold("userName", "username");
    PlainFold("externalId", "externalid");
  }

  lemma SubjectUsableIff(s: string)
    ensures PlainName(s) && NoneOf(s, PROTOCOL_FIELDS) <==> ValidAttributeName(s) && !UnsafeSubject(s)
  {
    PlainIsValid(s);
    ReservedFold();
    if PlainName(s) {
      ValidNameFolds(s);
    }
  }

  lemma ManageableIff(name: string, subject: string)
    ensures PlainName(name) && NoneOf(name, OWNED_FIELDS) && !EqualFold(name, subject) <==> ManagedNameOk(name, subject)
  {
    PlainIsValid(name);
    ReservedFold();
    if PlainName(name) {
      ValidNameFolds(name);
    }
  }

  ghost predicate NamesManageable(names: seq<string>, subject: string) {
    && (forall i :: 0 <= i < |names| ==>
          var name := TrimSpace(names[i]);
          PlainName(name) && NoneOf(name, OWNED_FIELDS) && !EqualFold(name, subject))
    && (forall i, j :: 0 <= i < j < |names| ==> !EqualFold(TrimSpace(names[i]), TrimSpace(names[j])))
  }

  lemma NamesManageableIff(names: seq<string>, subject: string)
    ensures NamesManageable(names, subject) <==> NamesAcceptable(names, Manageable(subject))
  {
    NamesAcceptableIff(names, Manageable(subject));
    forall i | 0 <= i < |names|
      ensures var name := TrimSpace(names[i]);
              && (PlainName(name) && NoneOf(name, OWNED_FIELDS) && !EqualFold(name, subject)
                  <==> Manageable(subject)(name))
              && (Manageable(subject)(name) ==> Fold(name) == LowerAt(names, i))
    {
      ManageableIff(TrimSpace(names[i]), subject);
      if ManagedNameOk(TrimSpace(names[i]), subject) {
        ValidNameFolds(TrimSpace(names[i]));
      }
    }
  }

  /** A configuration is accepted exactly if the URL is an HTTP or HTTPS one
      that ends with its path, the subject attribute is a plain name that is not
      the protocol's, the mode is known, and the managed attributes are plain
      names, pairwise different in any casing, that are neither the subject
      attribute nor fields the adapter owns. */
  lemma AcceptedExactly(config: Config)
    ensures Acceptable(config) <==>
      && config.baseURL.Some? && config.baseURL.value.scheme in {"http", "https"}
      && config.baseURL.value.host != "" && config.baseURL.value.query == "" && config.baseURL.value.fragment == ""
      && PlainName(SubjectNamed(config.subjectAttribute))
      && NoneOf(SubjectNamed(config.subjectAttribute), PROTOCOL_FIELDS)
      && config.deprovisionMode in {"", "disable", "delete"}
      && NamesManageable(config.managedAttributes, SubjectNamed(config.subjectAttribute))
  {
    SubjectUsableIff(SubjectOf(config));
    NamesManageableIff(config.managedAttributes, SubjectOf(config));
  }

  /** The adapter is what was configured: accounts are deleted only on demand,
      and each managed name stands under its lower-case form. */
  lemma AdapterIsAsConfigured(config: Config)
    requires Acceptable(config)
    ensures var a, names := AdapterFor(config), config.managedAttributes;
            && a.subjectAttribute == SubjectNamed(config.subjectAttribute)
            && (a.mode == Delete <==> config.deprovisionMode == "delete")
            && (forall i :: 0 <= i < |names| ==>
                  var name := TrimSpace(names[i]);
                  ToLower(name) in a.managed && a.managed[ToLower(name)] == name)
            && (forall n :: n in a.managed ==> exists i :: 0 <= i < |names| && n == ToLower(TrimSpace(names[i])))
  {
    var names := config.managedAttributes;
    TableKeys(names);
    forall i | 0 <= i < |names|
      ensures var name := TrimSpace(names[i]);
              ToLower(name) in ManagedTable(names) && ManagedTable(names)[ToLower(name)] == name
    {
      TableHolds(names, Manageable(SubjectOf(config)), i);
    }
    forall n | n in ManagedTable(names) ensures exists i :: 0 <= i < |names| && n == ToLower(TrimSpace(names[i])) {
      var i :| 0 <= i < |names| && n == LowerAt(names, i);
    }
  }

  /** Otherwise the error names the first thing that is wrong. */
  lemma RefusedForTheFirstReason(config: Config, e: ConfigError)
    requires RefusalOf(config) == Some(e)
    ensures var url, subject := config.baseURL, SubjectNamed(config.subjectAttribute);
            var absolute := url.Some? && url.value.scheme != "" && url.value.host != "";
            var web := absolute && url.value.scheme in {"http", "https"};
            var usable := web && url.value.query == "" && url.value.fragment == "";
            var bound := usable && PlainName(subject) && NoneOf(subject, PROTOCOL_FIELDS);
            match e
            case NotAbsoluteURL => !absolute
            case NotHTTP => absolute && !web
            case QueryOrFragment => web && !usable
            case InvalidSubjectAttribute => usable && !PlainName(subject)
            case UnsafeSubjectAttribute => usable && PlainName(subject) && !bound
            case UnsupportedMode => bound && config.deprovisionMode !in {"", "disable", "delete"}
            case _ =>
              && bound && config.deprovisionMode in {"", "disable", "delete"}
              && NameRefused(config.managedAttributes, subject, e)
  {
    PlainIsValid(SubjectOf(config));
    SubjectUsableIff(SubjectOf(config));
    if FirstRefusal(config.managedAttributes, RefusedFor(SubjectOf(config))) == Some(e) {
      RefusedName(config.managedAttributes, SubjectOf(config), e);
    }
  }

  /** Some name is refused and those before it are fine. */
  ghost predicate NameRefused(names: seq<string>, subject: string, e: ConfigError) {
    exists n :: 0 <= n < |names| && NamesManageable(names[..n], subject) && IsRefused(names, n, subject, e)
  }

  /** Why a name is refused, when those before it are not: the first of four reasons. */
  ghost predicate IsRefused(names: seq<string>, n: nat, subject: string, e: ConfigError)
    requires n < |names|
  {
    var name := TrimSpace(names[n]);
    match e
    case InvalidManagedAttribute(text) => text == name && !PlainName(name)
    case ManagedSubjectAttribute(text) => text == name && PlainName(name) && EqualFold(name, subject)
    case OwnedAttribute(text) =>
      text == name && PlainName(name) && !EqualFold(name, subject) && !NoneOf(name, OWNED_FIELDS)
    case SameAttribute(previous, text) =>
      && text == name && PlainName(name) && !EqualFold(name, subject) && NoneOf(name, OWNED_FIELDS)
      && exists i :: 0 <= i < n && TrimSpace(names[i]) == previous && EqualFold(previous, name)
    case _ => false
  }

  lemma {:induction false} RefusedName(names: seq<string>, subject: string, e: ConfigError)
    requires FirstRefusal(names, RefusedFor(subject)) == Some(e)
    ensures NameRefused(names, subject, e)
  {
    var n := |names| - 1;
    var init := names[..n];
    if FirstRefusal(init, RefusedFor(subject)).Some? {
      RefusedName(init, subject, e);
      var m :| 0 <= m < |init| && NamesManageable(init[..m], subject) && IsRefused(init, m, subject, e);
      assert init[..m] == names[..m];
      RefusedStays(names, n, m, subject, e);
    } else {
      NothingRefusedIff(init, subject);
      NamesManageableIff(init, subject);
      LastRefused(names, subject, e);
    }
  }

  lemma RefusedStays(names: seq<string>, n: nat, m: nat, subject: string, e: ConfigError)
    requires m < n <= |names| && IsRefused(names[..n], m, subject, e)
    ensures IsRefused(names, m, subject, e)
  {
    if e.SameAttribute? {
      var i :| 0 <= i < m && TrimSpace(names[..n][i]) == e.previous && EqualFold(e.previous, TrimSpace(names[m]));
      assert names[i] == names[..n][i];
    }
  }

  lemma LastRefused(names: seq<string>, subject: string, e: ConfigError)
    requires names != [] && NamesAcceptable(names[..|names| - 1], Manageable(subject))
    requires Refusal(TrimSpace(names[|names| - 1]), subject, ManagedTable(names[..|names| - 1])) == Some(e)
    ensures IsRefused(names, |names| - 1, subject, e)
  {
    var n := |names| - 1;
    var init, name := names[..n], TrimSpace(names[n]);
    PlainIsValid(name);
    if PlainName(name) {
      ManageableIff(name, subject);
      ValidNameFolds(name);
    }
    if e.SameAttribute? {
      TableKeys(init);
      var i :| 0 <= i < n && ToLower(name) == LowerAt(init, i);
      TableHolds(init, Manageable(subject), i);
      NamesAcceptableIff(init, Manageable(subject));
      assert Manageable(subject)(TrimSpace(init[i]));
      ValidNameFolds(TrimSpace(init[i]));
      assert TrimSpace(names[i]) == e.previous;
    }
  }

  // ---- Reading a resource ----

  /** At most one key is this name in some casing. */
  ghost predicate AtMostOnce(resource: Resource, name: string) {
    forall k, k' :: k in resource && k' in resource && EqualFold(k, name) && EqualFold(k', name) ==> k == k'
  }

  ghost predicate Missing(resource: Resource, name: string) {
    forall k :: k in resource ==> !EqualFold(k, name)
  }

  /** The id is the trimmed string under that name, blank if there is none, and
      an error if there are several. */
  lemma IdSays(resource: Resource)
    ensures IdOf(resource).Some? <==> AtMostOnce(resource, "id")
    ensures IdOf(resource).Some? && Missing(resource, "id") ==> IdOf(resource).value == ""
    ensures forall k :: IdOf(resource).Some? && k in resource && EqualFold(k, "id") ==>
              IdOf(resource).value == if resource[k].Str? then TrimSpace(resource[k].s) else ""
  {
  }

  /** The version is the trimmed string under meta.version, blank if either is
      missing; anything else there is an error. */
  lemma VersionSays(resource: Resource)
    ensures Missing(resource, "meta") ==> VersionOf(resource) == Some("")
    ensures !AtMostOnce(resource, "meta") ==> VersionOf(resource).None?
    ensures forall k :: AtMostOnce(resource, "meta") && k in resource && EqualFold(k, "meta") ==>
              if resource[k].Object? then VersionIn(resource[k].fields, VersionOf(resource))
              else VersionOf(resource).None?
  {
    forall k | AtMostOnce(resource, "meta") && k in resource && EqualFold(k, "meta")
      ensures if resource[k].Object? then VersionIn(resource[k].fields, VersionOf(resource))
              else VersionOf(resource).None?
    {
      assert Lookup(resource, "meta") == Ok(Some(resource[k]));
    }
  }

  ghost predicate VersionIn(meta: map<string, Value>, version: Option<string>) {
    && (Missing(meta, "version") ==> version == Some(""))
    && (!AtMostOnce(meta, "version") ==> version.None?)
    && (forall k :: AtMostOnce(meta, "version") && k in meta && EqualFold(k, "version") ==>
          version == if meta[k].Str? then Some(TrimSpace(meta[k].s)) else None)
  }

  /** The text a scalar reads as. */
  predicate ReadsAs(v: Value, text: string) {
    match v
    case Str(s) => text == s
    case Bool(b) => text == if b then "true" else "false"
    case Number(n) => text == n
    case Null => false
    case Array(_) => false
    case Object(_) => false
  }

  ghost predicate Readable(a: Adapter, resource: Resource) {
    && AtMostOnce(resource, "active") && (forall k :: k in resource && EqualFold(k, "active") ==> resource[k].Bool?)
    && forall c :: c in a.managed.Values ==> AtMostOnce(resource, c)
  }

  ghost predicate Reads(a: Adapter, resource: Resource, o: ObservedState) {
    && o.present
    && (o.enabled <==> forall k :: k in resource && EqualFold(k, "active") ==> resource[k] == Bool(true))
    && o.attributes.Keys <= a.managed.Values
    && forall c :: c in a.managed.Values ==> ReadsAttribute(resource, c, o.attributes)
  }

  /** The attribute is there exactly if the resource holds a scalar under its
      name, and then it is that scalar's text. */
  ghost predicate ReadsAttribute(resource: Resource, c: string, attributes: map<string, string>) {
    if c in attributes then exists k :: k in resource && EqualFold(k, c) && ReadsAs(resource[k], attributes[c])
    else forall k, text :: k in resource && EqualFold(k, c) ==> !ReadsAs(resource[k], text)
  }

  /** A resource is readable exactly if its active field, if any, is a single
      boolean and no managed attribute is there twice. It is then enabled unless
      active says otherwise, and shows the managed attributes that are scalars. */
  lemma ObservedSays(a: Adapter, resource: Resource)
    ensures Observed(a, Some(resource)).Some? <==> Readable(a, resource)
    ensures Readable(a, resource) ==> Reads(a, resource, Observed(a, Some(resource)).value)
  {
    ActiveSays(resource);
    forall c ensures Lookup(resource, c).Ok? <==> AtMostOnce(resource, c) {
    }
    assert ReadableNames(a, resource) <==> forall c :: c in a.managed.Values ==> AtMostOnce(resource, c);
  }

  lemma ActiveSays(resource: Resource)
    ensures ActiveOf(resource).Some? <==>
      AtMostOnce(resource, "active") && forall k :: k in resource && EqualFold(k, "active") ==> resource[k].Bool?
    ensures ActiveOf(resource).Some? ==>
      (ActiveOf(resource).value <==> forall k :: k in resource && EqualFold(k, "active") ==> resource[k] == Bool(true))
  {
    if k :| AtMostOnce(resource, "active") && k in resource && EqualFold(k, "active") {
      assert Lookup(resource, "active") == Ok(Some(resource[k]));
    }
  }
}
