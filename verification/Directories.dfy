/** The SCIM target: a provider that stores writes verbatim, gives every write a
    new version, and enforces If-Match (section 3.14 of RFC 7644). */
module Directories {
  import opened Base
  import opened Text
  import opened Model
  import opened Filters
  import opened Scim

  datatype User = User(attrs: Resource, version: nat)

  /** next is the version the next write will get; writes counts mutations. */
  datatype Directory = Directory(users: map<string, User>, next: nat, writes: nat)

  datatype ListResponse = ListResponse(totalResults: Option<int>, resources: seq<Resource>)

  /** What becomes of a request: answered, committed with the response lost, or
      lost before it took effect. Unreachable also loses the reads. */
  datatype Fate = Answered | ResponseLost | RequestLost | Unreachable

  function VersionTag(n: nat): string {
    "W/" + Decimal(n, 1)
  }

  function NewID(n: nat): string {
    Decimal(n, 1)
  }

  /** Identifiers are usable, versions are below the counter, and identifiers
      the counter will hand out are still free. */
  ghost predicate DirectoryOk(d: Directory) {
    && (forall id :: id in d.users ==> id != "" && Trimmed(id) && d.users[id].version < d.next)
    && (forall n :: n >= d.next ==> NewID(n) !in d.users)
  }

  /** A user as responses show it: id and meta come from the provider. */
  function Render(id: string, u: User): Resource {
    (map k | k in u.attrs && !EqualFold(k, "id") && !EqualFold(k, "meta") :: u.attrs[k])
    + map["id" := Str(id), "meta" := Object(map["version" := Str(VersionTag(u.version))])]
  }

  // ---- Searching ----

  predicate Matches(u: User, attribute: string, value: string) {
    exists k :: k in u.attrs && EqualFold(k, attribute) && u.attrs[k] == Str(value)
  }

  ghost function Matching(d: Directory, attribute: string, value: string): set<string> {
    set id | id in d.users && Matches(d.users[id], attribute, value)
  }

  ghost predicate IsSearchResult(d: Directory, attribute: string, value: string, response: ListResponse) {
    var ids := Matching(d, attribute, value);
    && response.totalResults == Some(|ids|)
    && |response.resources| == (if |ids| > 2 then 2 else |ids|)
    && forall r :: r in response.resources ==> exists id :: id in ids && r == Render(id, d.users[id])
  }

  // ---- Writing ----

  /** PATCH replace, with attribute names compared in any case. */
  function ReplaceValue(attrs: Resource, op: PatchOp): Resource {
    if exists k :: k in attrs && EqualFold(k, op.path)
    then map k | k in attrs :: if EqualFold(k, op.path) then op.value else attrs[k]
    else attrs[op.path := op.value]
  }

  function Patched(attrs: Resource, ops: seq<PatchOp>): Resource {
    if ops == [] then attrs else ReplaceValue(Patched(attrs, ops[..|ops| - 1]), ops[|ops| - 1])
  }

  predicate VersionAdmits(u: User, ifMatch: string) {
    ifMatch == "" || ifMatch == VersionTag(u.version)
  }

  /** The directory after a request, and whether the provider accepted it. */
  function Execute(d: Directory, request: Request): (Directory, bool) {
    match request
    case Nothing => (d, true)
    case Create(user) =>
      (Directory(d.users[NewID(d.next) := User(user, d.next)], d.next + 1, d.writes + 1), true)
    case Patch(id, operations, version) =>
      if id !in d.users || !VersionAdmits(d.users[id], version) then (d, false)
      else
        var patched := User(Patched(d.users[id].attrs, operations), d.next);
        (Directory(d.users[id := patched], d.next + 1, d.writes + 1), true)
    case Remove(id, version) =>
      if id !in d.users || !VersionAdmits(d.users[id], version) then (d, false)
      else (Directory(d.users - {id}, d.next + 1, d.writes + 1), true)
  }

  /** The same, seen by a caller whose traffic may be lost. */
  function Transmit(d: Directory, request: Request, fate: Fate): (Directory, bool) {
    if request.Nothing? then (d, true)
    else match fate
      case Answered => Execute(d, request)
      case ResponseLost => (Execute(d, request).0, false)
      case RequestLost => (d, false)
      case Unreachable => (d, false)
  }

  ghost function Satisfying<T(!new)>(candidates: set<T>, matches: T -> bool): set<T> {
    set x | x in candidates && matches(x)
  }

  /** How many candidates match, and the first two found. */
  method FirstPage<T(!new, ==)>(candidates: set<T>, matches: T -> bool) returns (total: nat, page: seq<T>)
    ensures var all := Satisfying(candidates, matches);
            && total == |all| && |page| == (if |all| > 2 then 2 else |all|)
            && forall i :: 0 <= i < |page| ==> page[i] in all
  {
    total, page := 0, [];
    ghost var counted: set<T> := {};
    var rest := candidates;
    while rest != {}
      invariant rest <= candidates && total == |counted|
      invariant forall x :: x in counted <==> x in candidates && x !in rest && matches(x)
      invariant |page| == (if total > 2 then 2 else total) && forall i :: 0 <= i < |page| ==> page[i] in counted
      decreases rest
    {
      var x :| x in rest;
      rest := rest - {x};
      if !matches(x) {
        continue;
      }
      counted, total := counted + {x}, total + 1;
      if |page| < 2 {
        page := page + [x];
      }
    }
    assert counted == Satisfying(candidates, matches);
  }

  class ScimTarget {
    var users: map<string, User>
    var next: nat
    var writes: nat

    constructor ()
      ensures View() == Directory(map[], 0, 0)
    {
      users, next, writes := map[], 0, 0;
    }

    function View(): Directory
      reads this
    {
      Directory(users, next, writes)
    }

    /** GET /Users?filter=...&count=2 */
    method Search(filter: string) returns (response: ListResponse)
      ensures ParseFilter(filter).Some? ==>
                IsSearchResult(View(), ParseFilter(filter).value.0, ParseFilter(filter).value.1, response)
    {
      var query := ParseFilter(filter);
      if query.None? {
        return ListResponse(None, []);
      }
      response := List(query.value.0, query.value.1);
    }

    method List(attribute: string, value: string) returns (response: ListResponse)
      ensures IsSearchResult(View(), attribute, value, response)
    {
      var stored := users;
      var matches := id => id in stored && Matches(stored[id], attribute, value);
      var total, page := FirstPage(stored.Keys, matches);
      assert Matching(View(), attribute, value) == Satisfying(stored.Keys, matches);
      var resources := [];
      for i := 0 to |page|
        invariant |resources| == i
        invariant forall r :: r in resources ==>
                    exists id :: id in Matching(View(), attribute, value) && r == Render(id, users[id])
      {
        resources := resources + [Render(page[i], users[page[i]])];
      }
      return ListResponse(Some(total), resources);
    }

    method Send(request: Request, fate: Fate) returns (ok: bool)
      modifies this
      ensures (View(), ok) == Transmit(old(View()), request, fate)
    {
      if request.Nothing? {
        return true;
      }
      if fate == RequestLost || fate == Unreachable {
        return false;
      }
      match request {
        case Nothing => ok := true;
        case Create(user) =>
          users, next, writes := users[NewID(next) := User(user, next)], next + 1, writes + 1;
          ok := true;
        case Patch(id, operations, version) =>
          ok := PatchUser(id, operations, version);
        case Remove(id, version) =>
          ok := id in users && VersionAdmits(users[id], version);
          if ok {
            users, next, writes := users - {id}, next + 1, writes + 1;
          }
      }
      ok := ok && fate == Answered;
    }

    method PatchUser(id: string, operations: seq<PatchOp>, version: string) returns (ok: bool)
      modifies this
      ensures (View(), ok) == Execute(old(View()), Patch(id, operations, version))
    {
      if id !in users || !VersionAdmits(users[id], version) {
        return false;
      }
      var attrs := users[id].attrs;
      for i := 0 to |operations|
        invariant attrs == Patched(users[id].attrs, operations[..i])
      {
        assert operations[..i + 1][..i] == operations[..i];
        attrs := ReplaceValue(attrs, operations[i]);
      }
      assert operations[..|operations|] == operations;
      users, next, writes := users[id := User(attrs, next)], next + 1, writes + 1;
      return true;
    }
  }

  // ---- Reading back ----

  lemma DecimalInjective(m: nat, n: nat)
    ensures Decimal(m, 1) == Decimal(n, 1) ==> m == n
  {
    DecimalParses(m, 1);
    DecimalParses(n, 1);
  }

  lemma VersionTagInjective(m: nat, n: nat)
    ensures VersionTag(m) == VersionTag(n) ==> m == n
  {
    assert VersionTag(m)[2..] == Decimal(m, 1) && VersionTag(n)[2..] == Decimal(n, 1);
    DecimalInjective(m, n);
  }

  lemma TagsTrimmed(n: nat)
    ensures Trimmed(NewID(n)) && NewID(n) != "" && Trimmed(VersionTag(n)) && VersionTag(n) != ""
  {
    DecimalParses(n, 1);
  }

  lemma LookupOne(r: Resource, name: string, k: string)
    requires k in r && EqualFold(k, name) && forall k' :: k' in r && EqualFold(k', name) ==> k' == k
    ensures Lookup(r, name) == Ok(Some(r[k]))
  {
  }

  /** Under id and meta a response holds what the provider put there, once. */
  lemma RenderFixed(id: string, u: User)
    ensures Lookup(Render(id, u), "id") == Ok(Some(Str(id)))
    ensures Lookup(Render(id, u), "meta") == Ok(Some(Object(map["version" := Str(VersionTag(u.version))])))
  {
    var r := Render(id, u);
    PlainFold("id", "id");
    PlainFold("meta", "meta");
    LookupOne(r, "id", "id");
    LookupOne(r, "meta", "meta");
  }

  lemma VersionReads(tag: string)
    requires Trimmed(tag)
    ensures Lookup(map["version" := Str(tag)], "version") == Ok(Some(Str(tag)))
    ensures TrimSpace(tag) == tag
  {
    TrimSpaceTrims(tag);
    LookupOne(map["version" := Str(tag)], "version", "version");
  }

  /** A rendered user reads back with its own id and version, and with the
      stored attributes under every other name. */
  lemma RenderReads(id: string, u: User)
    requires Trimmed(id)
    ensures IdOf(Render(id, u)) == Some(id) && VersionOf(Render(id, u)) == Some(VersionTag(u.version))
  {
    RenderFixed(id, u);
    TrimSpaceTrims(id);
    TagsTrimmed(u.version);
    VersionReads(VersionTag(u.version));
  }

  lemma RenderKeeps(id: string, u: User, name: string)
    requires !EqualFold(name, "id") && !EqualFold(name, "meta")
    ensures Lookup(Render(id, u), name) == Lookup(u.attrs, name)
  {
  }
}
