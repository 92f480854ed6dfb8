/** The read-before-write convergence of one subject with its target. */
module Convergence {
  import opened Base
  import opened Text
  import opened Model
  import opened Filters
  import opened Scim
  import opened Directories

  datatype Outcome = Unchanged | Updated | Failed

  // ---- What each operation does, on directory values ----

  /** The lookup: None is an error, Some(None) a confirmed absence. */
  ghost function Found(a: Adapter, d: Directory, subjectID: string): Option<Option<Resource>> {
    var ids := Matching(d, a.subjectAttribute, subjectID);
    if TrimSpace(subjectID) == "" then None
    else if ids == {} then Some(None)
    else
      var id :| id in ids;
      var resource := Render(id, d.users[id]);
      if ids != {id} || IdOf(resource).None? || IdOf(resource).value == "" then None else Some(Some(resource))
  }

  ghost function Observation(a: Adapter, d: Directory, subjectID: string): Option<ObservedState> {
    match Found(a, d, subjectID)
    case None => None
    case Some(resource) => Observed(a, resource)
  }

  /** Apply: its own lookup, then at most one request. */
  ghost predicate ApplyStep(a: Adapter, d: Directory, desired: IdentityProjection, fate: Fate, d': Directory, ok: bool)
    requires TableOk(a.managed)
  {
    match Found(a, d, desired.subjectID)
    case None => d' == d && !ok
    case Some(found) => exists request :: IsRequest(a, found, desired, request) && (d', ok) == Sent(d, request, fate)
  }

  function Sent(d: Directory, request: Option<Request>, fate: Fate): (Directory, bool) {
    match request
    case None => (d, false)
    case Some(r) => Transmit(d, r, fate)
  }

  /** The target already is as desired. */
  ghost predicate Satisfied(a: Adapter, d: Directory, desired: IdentityProjection)
    requires TableOk(a.managed)
  {
    var observed := Observation(a, d, desired.subjectID);
    observed.Some? && Equivalent(a, observed.value, desired)
  }

  ghost predicate ConvergeStep(
    a: Adapter, d: Directory, desired: IdentityProjection, fate: Fate, d': Directory, outcome: Outcome)
    requires TableOk(a.managed)
  {
    if fate.Unreachable? || Observation(a, d, desired.subjectID).None? then d' == d && outcome == Failed
    else if Satisfied(a, d, desired) then d' == d && outcome == Unchanged
    else outcome != Unchanged && ApplyStep(a, d, desired, fate, d', outcome == Updated)
  }

  // ---- The operations ----

  /** What one page of search results says: a complete page of at most one
      resource with a usable id, or an error. */
  ghost function Selected(response: ListResponse): Option<Option<Resource>> {
    if response.totalResults != Some(|response.resources|) || |response.resources| > 1 then None
    else if response.resources == [] then Some(None)
    else if IdOf(response.resources[0]).None? || IdOf(response.resources[0]).value == "" then None
    else Some(Some(response.resources[0]))
  }

  method SelectResource(response: ListResponse) returns (r: Option<Option<Resource>>)
    ensures r == Selected(response)
  {
    if response.totalResults.None? || response.totalResults.value < 0 {
      return None;
    }
    if response.totalResults.value > 1 {
      return None;
    }
    if response.totalResults.value != |response.resources| {
      return None;
    }
    if |response.resources| == 0 {
      return Some(None);
    }
    var id := ResourceID(response.resources[0]);
    if id.None? || id.value == "" {
      return None;
    }
    return Some(Some(response.resources[0]));
  }

  lemma SearchFinds(a: Adapter, d: Directory, subjectID: string, response: ListResponse)
    requires TrimSpace(subjectID) != "" && IsSearchResult(d, a.subjectAttribute, subjectID, response)
    ensures Found(a, d, subjectID) == Selected(response)
  {
    var ids := Matching(d, a.subjectAttribute, subjectID);
    if ids != {} {
      var id :| id in ids;
      if |ids| == 1 {
        Singleton(ids);
        var r := response.resources[0];
        assert r in response.resources;
      } else {
        assert forall x :: ids != {x} by {
          assert forall x: string :: |{x}| == 1;
        }
      }
    }
  }

  lemma Singleton<T>(s: set<T>)
    requires |s| == 1
    ensures forall x, y :: x in s && y in s ==> x == y
    ensures forall x :: x in s ==> s == {x}
  {
    forall x | x in s ensures s == {x} {
      assert |s - {x}| == 0;
    }
  }

  method Find(a: Adapter, target: ScimTarget, subjectID: string) returns (r: Option<Option<Resource>>)
    requires AdapterOk(a)
    ensures r == Found(a, target.View(), subjectID)
  {
    if TrimSpace(subjectID) == "" {
      return None;
    }
    ValidNameFolds(a.subjectAttribute);
    FilterRoundTrips(a.subjectAttribute, subjectID);
    var response := target.Search(FilterFor(a.subjectAttribute, subjectID));
    SearchFinds(a, target.View(), subjectID, response);
    r := SelectResource(response);
  }

  method Observe(a: Adapter, target: ScimTarget, subjectID: string) returns (r: Option<ObservedState>)
    requires AdapterOk(a)
    ensures r == Observation(a, target.View(), subjectID)
  {
    var found := Find(a, target, subjectID);
    if found.None? {
      return None;
    }
    if found.value.None? {
      return Some(ObservedState(false, false, map[]));
    }
    var active := ScimActive(found.value.value);
    if active.None? {
      return None;
    }
    var attributes := ManagedValues(a, found.value.value);
    if attributes.None? {
      return None;
    }
    return Some(ObservedState(true, active.value, attributes.value));
  }

  method Apply(a: Adapter, target: ScimTarget, desired: IdentityProjection, fate: Fate) returns (ok: bool)
    requires AdapterOk(a)
    modifies target
    ensures ApplyStep(a, old(target.View()), desired, fate, target.View(), ok)
  {
    var found := Find(a, target, desired.subjectID);
    if found.None? {
      return false;
    }
    var request := BuildRequest(a, found.value, desired);
    if request.None? {
      return false;
    }
    ok := target.Send(request.value, fate);
  }

  method Converge(a: Adapter, target: ScimTarget, desired: IdentityProjection, fate: Fate) returns (outcome: Outcome)
    requires AdapterOk(a)
    modifies target
    ensures ConvergeStep(a, old(target.View()), desired, fate, target.View(), outcome)
  {
    if fate.Unreachable? {
      return Failed;
    }
    var observed := Observe(a, target, desired.subjectID);
    if observed.None? {
      return Failed;
    }
    var equivalent := StateEquivalent(a, observed.value, desired);
    if equivalent {
      return Unchanged;
    }
    var ok := Apply(a, target, desired, fate);
    return if ok then Updated else Failed;
  }
}
