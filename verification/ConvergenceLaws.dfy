/** What a sequence of convergence attempts does to a target that has no other
    writer. */
module ConvergenceLaws {
  import opened Base
  import opened Text
  import opened Model
  import opened Scim
  import opened Directories
  import opened Convergence

  // ---- What a PATCH changes ----

  /** Two resources hold the same under every spelling of a name. */
  ghost predicate AgreeOn(r: Resource, r': Resource, name: string) {
    forall k :: EqualFold(k, name) ==> (k in r <==> k in r') && (k in r ==> r'[k] == r[k])
  }

  lemma LookupAgrees(r: Resource, r': Resource, name: string)
    requires AgreeOn(r, r', name)
    ensures Lookup(r, name) == Lookup(r', name)
  {
  }

  lemma ReplaceTouchesItsNameOnly(attrs: Resource, op: PatchOp, name: string)
    requires !EqualFold(op.path, name)
    ensures AgreeOn(attrs, ReplaceValue(attrs, op), name)
  {
  }

  lemma ReplaceWrites(attrs: Resource, op: PatchOp, name: string)
    requires EqualFold(op.path, name) && Lookup(attrs, name).Ok?
    ensures Lookup(ReplaceValue(attrs, op), name) == Ok(Some(op.value))
  {
  }

  ghost predicate Writes(ops: seq<PatchOp>, name: string) {
    exists i :: 0 <= i < |ops| && EqualFold(ops[i].path, name)
  }

  lemma {:induction false} PatchKeepsOthers(attrs: Resource, ops: seq<PatchOp>, name: string)
    requires !Writes(ops, name)
    ensures AgreeOn(attrs, Patched(attrs, ops), name)
  {
    if ops != [] {
      var init, last := ops[..|ops| - 1], ops[|ops| - 1];
      PatchKeepsOthers(attrs, init, name);
      ReplaceTouchesItsNameOnly(Patched(attrs, init), last, name);
    }
  }

  lemma {:induction false} PatchWrites(attrs: Resource, ops: seq<PatchOp>, i: nat, name: string)
    requires i < |ops| && PathsDistinct(ops) && EqualFold(ops[i].path, name) && Lookup(attrs, name).Ok?
    ensures Lookup(Patched(attrs, ops), name) == Ok(Some(ops[i].value))
  {
    var init, last := ops[..|ops| - 1], ops[|ops| - 1];
    if i == |ops| - 1 {
      assert !Writes(init, name);
      PatchKeepsOthers(attrs, init, name);
      LookupAgrees(attrs, Patched(attrs, init), name);
      ReplaceWrites(Patched(attrs, init), last, name);
    } else {
      PatchWrites(attrs, init, i, name);
      ReplaceTouchesItsNameOnly(Patched(attrs, init), last, name);
      LookupAgrees(Patched(attrs, init), Patched(attrs, ops), name);
    }
  }

  // ---- Observing ----

  lemma EntryApart(a: Adapter, c: string)
    requires NamesApart(a) && c in a.managed.Values
    ensures OwnEntry(a.managed, a.subjectAttribute, c)
  {
  }

  lemma ActiveIsNotFixed()
    ensures !EqualFold("active", "id") && !EqualFold("active", "meta")
  {
  }

  /** What observing a rendered user comes to, in terms of what is stored. */
  lemma ObserveStored(a: Adapter, id: string, u: User)
    requires NamesApart(a)
    ensures Observed(a, Some(Render(id, u))) == Observed(a, Some(u.attrs))
  {
    ActiveIsNotFixed();
    RenderKeeps(id, u, "active");
    forall c | c in a.managed.Values ensures Lookup(Render(id, u), c) == Lookup(u.attrs, c) {
      EntryApart(a, c);
      RenderKeeps(id, u, c);
    }
    SameReadings(a, Render(id, u), u.attrs);
  }

  lemma SameReadings(a: Adapter, r: Resource, r': Resource)
    requires forall c :: c in a.managed.Values ==> Lookup(r, c) == Lookup(r', c)
    ensures ReadableNames(a, r) <==> ReadableNames(a, r')
    ensures ManagedScalars(a, r) == ManagedScalars(a, r')
  {
    forall n | n in a.managed ensures Lookup(r, a.managed[n]) == Lookup(r', a.managed[n]) {
      assert a.managed[n] in a.managed.Values;
    }
  }

  /** A successful lookup of a present subject names one user of the directory. */
  lemma FoundUser(a: Adapter, d: Directory, subjectID: string) returns (id: string)
    requires DirectoryOk(d) && Found(a, d, subjectID).Some? && Found(a, d, subjectID).value.Some?
    ensures id in d.users && Matching(d, a.subjectAttribute, subjectID) == {id}
    ensures Found(a, d, subjectID) == Some(Some(Render(id, d.users[id])))
    ensures IdOf(Render(id, d.users[id])) == Some(id) && id != ""
    ensures VersionOf(Render(id, d.users[id])) == Some(VersionTag(d.users[id].version))
  {
    id :| id in Matching(d, a.subjectAttribute, subjectID);
    RenderReads(id, d.users[id]);
  }

  lemma UniqueMatchIsFound(a: Adapter, d: Directory, subjectID: string, id: string)
    requires DirectoryOk(d) && TrimSpace(subjectID) != "" && Matching(d, a.subjectAttribute, subjectID) == {id}
    ensures id in d.users && Found(a, d, subjectID) == Some(Some(Render(id, d.users[id])))
  {
    assert id in Matching(d, a.subjectAttribute, subjectID);
    RenderReads(id, d.users[id]);
  }

  /** The target holds no managed scalar that is not desired. */
  ghost predicate NoExtras(a: Adapter, d: Directory, desired: IdentityProjection)
    requires TableOk(a.managed) && DesiredUnambiguous(a, desired.attributes)
  {
    var observed := Observation(a, d, desired.subjectID);
    observed.Some? ==> observed.value.attributes.Keys <= ManagedDesired(a, desired.attributes).Keys
  }

  // ---- What a written resource reads back as ----

  lemma PatchedAt(attrs: Resource, ops: seq<PatchOp>, enabled: bool, values: map<string, string>, c: string)
    requires IsPatch(ops, enabled, values) && PathsDistinct(ops) && Lookup(attrs, c).Ok?
    requires !EqualFold("active", c) && forall k :: k in values && EqualFold(k, c) ==> k == c
    ensures Lookup(Patched(attrs, ops), c).Ok?
    ensures ScalarAt(Patched(attrs, ops), c) == if c in values then Some(values[c]) else ScalarAt(attrs, c)
  {
    if c in values {
      var i :| 1 <= i < |ops| && ops[i].path == c;
      PatchWrites(attrs, ops, i, c);
    } else {
      PatchKeepsOthers(attrs, ops, c);
      LookupAgrees(attrs, Patched(attrs, ops), c);
    }
  }

  /** What a PATCH leaves under the names the adapter reads. */
  lemma PatchedReads(a: Adapter, attrs: Resource, ops: seq<PatchOp>, enabled: bool, values: map<string, string>)
    requires NamesApart(a) && IsPatch(ops, enabled, values) && values.Keys <= a.managed.Values
    requires Observed(a, Some(attrs)).Some?
    ensures Observed(a, Some(Patched(attrs, ops)))
         == Some(ObservedState(true, enabled, Observed(a, Some(attrs)).value.attributes + values))
  {
    var attrs' := Patched(attrs, ops);
    PathsApart(a, ops, enabled, values);
    PatchWrites(attrs, ops, 0, "active");
    forall c | c in a.managed.Values
      ensures Lookup(attrs', c).Ok?
      ensures ScalarAt(attrs', c) == if c in values then Some(values[c]) else ScalarAt(attrs, c)
    {
      PatchedManaged(a, attrs, ops, enabled, values, c);
    }
    PatchedScalars(a, attrs, attrs', values);
  }

  lemma PatchedManaged(
    a: Adapter, attrs: Resource, ops: seq<PatchOp>, enabled: bool, values: map<string, string>, c: string)
    requires NamesApart(a) && IsPatch(ops, enabled, values) && values.Keys <= a.managed.Values && PathsDistinct(ops)
    requires ReadableNames(a, attrs) && c in a.managed.Values
    ensures Lookup(Patched(attrs, ops), c).Ok?
    ensures ScalarAt(Patched(attrs, ops), c) == if c in values then Some(values[c]) else ScalarAt(attrs, c)
  {
    EntryApart(a, c);
    forall k | k in values && EqualFold(k, c) ensures k == c {
      ManagedDistinct(a, k, c);
    }
    PatchedAt(attrs, ops, enabled, values, c);
  }

  lemma PatchedScalars(a: Adapter, attrs: Resource, attrs': Resource, values: map<string, string>)
    requires values.Keys <= a.managed.Values
    requires forall c :: c in a.managed.Values ==> Lookup(attrs', c).Ok?
    requires forall c :: c in a.managed.Values ==>
               ScalarAt(attrs', c) == if c in values then Some(values[c]) else ScalarAt(attrs, c)
    ensures ReadableNames(a, attrs') && ManagedScalars(a, attrs') == ManagedScalars(a, attrs) + values
  {
  }

  /** A PATCH through one adapter leaves what another reads readable. */
  lemma PatchKeepsReadable(a: Adapter, attrs: Resource, ops: seq<PatchOp>, enabled: bool, values: map<string, string>)
    requires Observed(a, Some(attrs)).Some? && IsPatch(ops, enabled, values) && PathsDistinct(ops)
    ensures Observed(a, Some(Patched(attrs, ops))).Some?
  {
    PatchWrites(attrs, ops, 0, "active");
    forall n | n in a.managed ensures Lookup(Patched(attrs, ops), a.managed[n]).Ok? {
      PatchKeepsLookup(attrs, ops, a.managed[n]);
    }
  }

  lemma PatchKeepsLookup(attrs: Resource, ops: seq<PatchOp>, name: string)
    requires Lookup(attrs, name).Ok? && PathsDistinct(ops)
    ensures Lookup(Patched(attrs, ops), name).Ok?
  {
    if i :| 0 <= i < |ops| && EqualFold(ops[i].path, name) {
      PatchWrites(attrs, ops, i, name);
    } else {
      PatchKeepsOthers(attrs, ops, name);
      LookupAgrees(attrs, Patched(attrs, ops), name);
    }
  }

  /** What a created user holds under the names the adapter reads. */
  lemma CreatedReads(a: Adapter, owned: Resource, values: map<string, string>, enabled: bool)
    requires NamesApart(a) && Clear(owned, a.managed.Values) && values.Keys <= a.managed.Values
    requires ActiveOf(owned) == Some(enabled)
    ensures Observed(a, Some(owned + map k | k in values :: Str(values[k])))
         == Some(ObservedState(true, enabled, values))
  {
    var user := owned + map k | k in values :: Str(values[k]);
    forall c | c in a.managed.Values
      ensures Lookup(user, c) == Ok(if c in values then Some(Str(values[c])) else None)
    {
      CreatedAt(a, owned, values, c);
    }
    CreatedActive(a, owned, values);
    CreatedScalars(a, user, values);
  }

  lemma CreatedActive(a: Adapter, owned: Resource, values: map<string, string>)
    requires NamesApart(a) && values.Keys <= a.managed.Values
    ensures ActiveOf(owned + map k | k in values :: Str(values[k])) == ActiveOf(owned)
  {
  }

  lemma CreatedScalars(a: Adapter, user: Resource, values: map<string, string>)
    requires values.Keys <= a.managed.Values
    requires forall c :: c in a.managed.Values ==>
               Lookup(user, c) == Ok(if c in values then Some(Str(values[c])) else None)
    ensures ReadableNames(a, user) && ManagedScalars(a, user) == values
  {
    forall n | n in a.managed ensures Lookup(user, a.managed[n]).Ok? {
      assert a.managed[n] in a.managed.Values;
    }
  }

  lemma CreatedAt(a: Adapter, owned: Resource, values: map<string, string>, c: string)
    requires NamesApart(a) && Clear(owned, a.managed.Values) && values.Keys <= a.managed.Values && c in a.managed.Values
    ensures Lookup(owned + map k | k in values :: Str(values[k]), c)
         == Ok(if c in values then Some(Str(values[c])) else None)
  {
    var user := owned + map k | k in values :: Str(values[k]);
    forall k | k in user && EqualFold(k, c) ensures k == c && k in values {
      if k in values {
        ManagedDistinct(a, k, c);
      }
    }
    if c in values {
      LookupOne(user, c, c);
    }
  }

  lemma OwnedActive(a: Adapter, desired: IdentityProjection)
    requires NamesApart(a)
    ensures ActiveOf(OwnedFields(a, desired)) == Some(desired.enabled)
  {
    var owned := OwnedFields(a, desired);
    OwnedFieldsClear(a, desired);
    forall k | k in owned && EqualFold(k, "active") ensures k == "active" {
      assert |Fold(k)| == |k| && |Fold("active")| == 6;
    }
    LookupOne(owned, "active", "active");
  }

  // ---- A committed request ----

  lemma ExecuteKeepsOk(d: Directory, request: Request)
    requires DirectoryOk(d)
    ensures DirectoryOk(Execute(d, request).0)
  {
    TagsTrimmed(d.next);
    forall n | n >= d.next + 1 ensures NewID(n) != NewID(d.next) {
      DecimalInjective(n, d.next);
    }
  }

  lemma SubjectMatches(a: Adapter, attrs: Resource, subjectID: string, version: nat)
    requires a.subjectAttribute in attrs && attrs[a.subjectAttribute] == Str(subjectID)
    ensures Matches(User(attrs, version), a.subjectAttribute, subjectID)
  {
  }

  /** A created user is the one its subject finds from then on. */
  lemma CreatedTarget(a: Adapter, d: Directory, desired: IdentityProjection, values: map<string, string>)
    requires NamesApart(a) && DirectoryOk(d) && values.Keys <= a.managed.Values
    requires Found(a, d, desired.subjectID) == Some(None)
    ensures var d' := Execute(d, Create(UserFor(a, desired, values))).0;
            && DirectoryOk(d') && d'.writes == d.writes + 1
            && Observation(a, d', desired.subjectID) == Some(ObservedState(true, desired.enabled, values))
  {
    var user, id := UserFor(a, desired, values), NewID(d.next);
    var d' := Execute(d, Create(user)).0;
    ExecuteKeepsOk(d, Create(user));
    OwnedFieldsClear(a, desired);
    OwnedActive(a, desired);
    CreatedReads(a, OwnedFields(a, desired), values, desired.enabled);
    SubjectMatches(a, user, desired.subjectID, d.next);
    assert Matching(d', a.subjectAttribute, desired.subjectID) == {id} by {
      assert Matching(d, a.subjectAttribute, desired.subjectID) == {};
    }
    ObserveUnique(a, d', desired.subjectID, id);
  }

  /** One user's attributes rewritten by a PATCH, and nothing else. */
  ghost predicate IsPatched(d: Directory, id: string, ops: seq<PatchOp>, d': Directory) {
    && DirectoryOk(d') && d'.writes == d.writes + 1 && id in d.users && d'.users.Keys == d.users.Keys
    && d'.users[id].attrs == Patched(d.users[id].attrs, ops)
    && forall k :: k in d.users && k != id ==> d'.users[k] == d.users[k]
  }

  lemma PatchTakesEffect(d: Directory, id: string, ops: seq<PatchOp>)
    requires DirectoryOk(d) && id in d.users
    ensures IsPatched(d, id, ops, Execute(d, Patch(id, ops, VersionTag(d.users[id].version))).0)
  {
  }

  /** A PATCH leaves the subject's user the one its subject finds. */
  lemma PatchedMatching(
    attribute: string, d: Directory, id: string, ops: seq<PatchOp>, d': Directory, subjectID: string)
    requires IsPatched(d, id, ops, d') && !Writes(ops, attribute)
    ensures Matching(d', attribute, subjectID) == Matching(d, attribute, subjectID)
  {
    PatchKeepsOthers(d.users[id].attrs, ops, attribute);
    assert Matches(d'.users[id], attribute, subjectID) <==> Matches(d.users[id], attribute, subjectID);
  }

  lemma PatchedTarget(
    a: Adapter, d: Directory, d': Directory, subjectID: string, id: string, ops: seq<PatchOp>, enabled: bool,
    values: map<string, string>)
    requires NamesApart(a) && DirectoryOk(d) && TrimSpace(subjectID) != "" && IsPatched(d, id, ops, d')
    requires Matching(d, a.subjectAttribute, subjectID) == {id} && Observation(a, d, subjectID).Some?
    requires values.Keys <= a.managed.Values && IsPatch(ops, enabled, values)
    ensures Observation(a, d', subjectID)
         == Some(ObservedState(true, enabled, Observation(a, d, subjectID).value.attributes + values))
  {
    PathsApart(a, ops, enabled, values);
    PatchedMatching(a.subjectAttribute, d, id, ops, d', subjectID);
    ObserveUnique(a, d, subjectID, id);
    ObserveUnique(a, d', subjectID, id);
    PatchedReads(a, d.users[id].attrs, ops, enabled, values);
  }

  lemma ObserveUnique(a: Adapter, d: Directory, subjectID: string, id: string)
    requires NamesApart(a) && DirectoryOk(d)
    requires TrimSpace(subjectID) != "" && Matching(d, a.subjectAttribute, subjectID) == {id}
    ensures id in d.users && Observation(a, d, subjectID) == Observed(a, Some(d.users[id].attrs))
  {
    UniqueMatchIsFound(a, d, subjectID, id);
    ObserveStored(a, id, d.users[id]);
  }

  lemma RemovedTarget(a: Adapter, d: Directory, subjectID: string, id: string)
    requires DirectoryOk(d) && id in d.users
    requires TrimSpace(subjectID) != "" && Matching(d, a.subjectAttribute, subjectID) == {id}
    ensures var d' := Execute(d, Remove(id, VersionTag(d.users[id].version))).0;
            && DirectoryOk(d') && d'.writes == d.writes + 1
            && Observation(a, d', subjectID) == Some(ObservedState(false, false, map[]))
  {
  }

  // ---- One attempt ----

  /** What a committed attempt leaves behind: the desired state, on top of any
      managed attributes the target held beyond it; or, for a desired absence, no
      account, or a disabled one with all it held. */
  ghost predicate Settled(a: Adapter, d: Directory, desired: IdentityProjection, d': Directory)
    requires TableOk(a.managed) && (desired.present ==> DesiredUnambiguous(a, desired.attributes))
  {
    var before, after := Observation(a, d, desired.subjectID), Observation(a, d', desired.subjectID);
    && before.Some? && after.Some? && DirectoryOk(d') && d'.writes == d.writes + 1
    && after.value == SettledState(a, before.value, desired)
  }

  ghost function SettledState(a: Adapter, before: ObservedState, desired: IdentityProjection): ObservedState
    requires TableOk(a.managed) && (desired.present ==> DesiredUnambiguous(a, desired.attributes))
  {
    if desired.present
    then ObservedState(true, desired.enabled, before.attributes + ManagedDesired(a, desired.attributes))
    else if a.mode == Delete then ObservedState(false, false, map[])
    else ObservedState(true, false, before.attributes)
  }

  lemma RequestSettles(a: Adapter, d: Directory, desired: IdentityProjection, request: Request)
    requires NamesApart(a) && DirectoryOk(d) && (desired.present ==> DesiredUnambiguous(a, desired.attributes))
    requires PatchValues(a, desired).Keys <= a.managed.Values
    requires Observation(a, d, desired.subjectID).Some? && !request.Nothing?
    requires IsRequest(a, Found(a, d, desired.subjectID).value, desired, Some(request))
    ensures Settled(a, d, desired, Execute(d, request).0) && Execute(d, request).1
  {
    if Found(a, d, desired.subjectID).value.None? {
      CreateSettles(a, d, desired, ManagedDesired(a, desired.attributes));
    } else {
      var id := FoundUser(a, d, desired.subjectID);
      RequestToFound(a, Render(id, d.users[id]), id, VersionTag(d.users[id].version), desired, request);
      ExistingSettles(a, d, desired, id, request);
    }
  }

  lemma RequestToFound(
    a: Adapter, resource: Resource, id: string, version: string, desired: IdentityProjection, request: Request)
    requires TableOk(a.managed) && IdOf(resource) == Some(id) && VersionOf(resource) == Some(version)
    requires IsRequest(a, Some(resource), desired, Some(request))
    requires desired.present ==> DesiredUnambiguous(a, desired.attributes)
    ensures IsWriteTo(a, id, version, desired, request)
  {
  }

  ghost predicate IsWriteTo(a: Adapter, id: string, version: string, desired: IdentityProjection, request: Request)
    requires TableOk(a.managed) && (desired.present ==> DesiredUnambiguous(a, desired.attributes))
  {
    if !desired.present && a.mode == Delete then request == Remove(id, version)
    else request.Patch? && request.id == id && request.version == version
         && IsPatch(request.operations, desired.present && desired.enabled, PatchValues(a, desired))
  }

  lemma ExistingSettles(a: Adapter, d: Directory, desired: IdentityProjection, id: string, request: Request)
    requires NamesApart(a) && DirectoryOk(d) && (desired.present ==> DesiredUnambiguous(a, desired.attributes))
    requires PatchValues(a, desired).Keys <= a.managed.Values
    requires TrimSpace(desired.subjectID) != "" && Matching(d, a.subjectAttribute, desired.subjectID) == {id}
    requires id in d.users
    requires Observation(a, d, desired.subjectID).Some?
    requires IsWriteTo(a, id, VersionTag(d.users[id].version), desired, request)
    ensures Settled(a, d, desired, Execute(d, request).0) && Execute(d, request).1
  {
    WriteIsAccepted(d, id, request);
    if request.Remove? {
      RemoveSettles(a, d, desired, id);
    } else {
      assert request == Patch(id, request.operations, VersionTag(d.users[id].version));
      PatchSettles(a, d, desired, id, request.operations);
    }
  }

  lemma WriteIsAccepted(d: Directory, id: string, request: Request)
    requires id in d.users && (request.Patch? || request.Remove?)
    requires request.id == id && request.version == VersionTag(d.users[id].version)
    ensures Execute(d, request).1
  {
  }

  lemma RemoveSettles(a: Adapter, d: Directory, desired: IdentityProjection, id: string)
    requires TableOk(a.managed) && DirectoryOk(d) && (desired.present ==> DesiredUnambiguous(a, desired.attributes))
    requires TrimSpace(desired.subjectID) != "" && Matching(d, a.subjectAttribute, desired.subjectID) == {id}
    requires id in d.users
    requires Observation(a, d, desired.subjectID).Some? && !desired.present && a.mode == Delete
    ensures Settled(a, d, desired, Execute(d, Remove(id, VersionTag(d.users[id].version))).0)
  {
    RemovedTarget(a, d, desired.subjectID, id);
  }

  lemma CreateSettles(a: Adapter, d: Directory, desired: IdentityProjection, values: map<string, string>)
    requires NamesApart(a) && DirectoryOk(d) && DesiredUnambiguous(a, desired.attributes)
    requires values == ManagedDesired(a, desired.attributes) && values.Keys <= a.managed.Values
    requires desired.present && Found(a, d, desired.subjectID) == Some(None)
    ensures Settled(a, d, desired, Execute(d, Create(UserFor(a, desired, values))).0)
  {
    CreatedTarget(a, d, desired, values);
    CreatedState(a, desired, values);
  }

  lemma CreatedState(a: Adapter, desired: IdentityProjection, values: map<string, string>)
    requires TableOk(a.managed) && DesiredUnambiguous(a, desired.attributes) && desired.present
    requires values == ManagedDesired(a, desired.attributes)
    ensures SettledState(a, ObservedState(false, false, map[]), desired)
         == ObservedState(true, desired.enabled, values)
  {
    assert map[] + values == values;
  }

  lemma PatchSettles(a: Adapter, d: Directory, desired: IdentityProjection, id: string, ops: seq<PatchOp>)
    requires NamesApart(a) && DirectoryOk(d) && (desired.present ==> DesiredUnambiguous(a, desired.attributes))
    requires PatchValues(a, desired).Keys <= a.managed.Values
    requires TrimSpace(desired.subjectID) != "" && Matching(d, a.subjectAttribute, desired.subjectID) == {id}
    requires id in d.users
    requires Observation(a, d, desired.subjectID).Some? && (desired.present || a.mode == Disable)
    requires IsPatch(ops, desired.present && desired.enabled, PatchValues(a, desired))
    ensures Settled(a, d, desired, Execute(d, Patch(id, ops, VersionTag(d.users[id].version))).0)
  {
    var d' := Execute(d, Patch(id, ops, VersionTag(d.users[id].version))).0;
    PatchTakesEffect(d, id, ops);
    PatchedTarget(
      a, d, d', desired.subjectID, id, ops, desired.present && desired.enabled, PatchValues(a, desired));
    PatchedState(a, Observation(a, d, desired.subjectID).value, desired);
  }

  lemma PatchedState(a: Adapter, before: ObservedState, desired: IdentityProjection)
    requires TableOk(a.managed) && (desired.present ==> DesiredUnambiguous(a, desired.attributes))
    requires desired.present || a.mode == Disable
    ensures ObservedState(true, desired.present && desired.enabled, before.attributes + PatchValues(a, desired))
         == SettledState(a, before, desired)
  {
    assert before.attributes + map[] == before.attributes;
  }

  /** The request of an attempt on a readable target that is not as desired. */
  lemma SendsRequest(a: Adapter, d: Directory, desired: IdentityProjection, fate: Fate, d': Directory, outcome: Outcome)
    returns (request: Request)
    requires TableOk(a.managed) && DirectoryOk(d) && DesiredUnambiguous(a, desired.attributes)
    requires ConvergeStep(a, d, desired, fate, d', outcome) && !fate.Unreachable?
    requires Observation(a, d, desired.subjectID).Some? && !Satisfied(a, d, desired)
    ensures !request.Nothing? && IsRequest(a, Found(a, d, desired.subjectID).value, desired, Some(request))
    ensures outcome != Unchanged && (d', outcome == Updated) == Transmit(d, request, fate)
  {
    var found := Found(a, d, desired.subjectID).value;
    var sent :| IsRequest(a, found, desired, sent) && (d', outcome == Updated) == Sent(d, sent, fate);
    UnsatisfiedSends(a, d, desired, sent);
    request := sent.value;
  }

  lemma UnsatisfiedSends(a: Adapter, d: Directory, desired: IdentityProjection, request: Option<Request>)
    requires TableOk(a.managed) && DirectoryOk(d) && DesiredUnambiguous(a, desired.attributes)
    requires Observation(a, d, desired.subjectID).Some? && !Satisfied(a, d, desired)
    requires IsRequest(a, Found(a, d, desired.subjectID).value, desired, request)
    ensures request.Some? && !request.value.Nothing?
  {
    if Found(a, d, desired.subjectID).value.Some? {
      var id := FoundUser(a, d, desired.subjectID);
    }
  }

  /** Every attempt either leaves the target as it is or settles its subject,
      whether or not the caller learns of it; an answered attempt on a readable
      target that is not as desired does settle it. */
  lemma AttemptSettles(
    a: Adapter, d: Directory, desired: IdentityProjection, fate: Fate, d': Directory, outcome: Outcome)
    requires AdapterOk(a) && DirectoryOk(d) && DesiredUnambiguous(a, desired.attributes)
    requires ConvergeStep(a, d, desired, fate, d', outcome)
    ensures d' == d || Settled(a, d, desired, d')
    ensures outcome == Updated ==> Settled(a, d, desired, d')
    ensures outcome == Unchanged ==> d' == d && Satisfied(a, d, desired)
    ensures fate.Answered? && Observation(a, d, desired.subjectID).Some? && !Satisfied(a, d, desired)
            ==> outcome == Updated
  {
    if !fate.Unreachable? && Observation(a, d, desired.subjectID).Some? && !Satisfied(a, d, desired) {
      var request := SendsRequest(a, d, desired, fate, d', outcome);
      AcceptedNamesApart(a);
      DesiredAreManaged(a, desired.attributes);
      RequestSettles(a, d, desired, request);
    }
  }

  /** A settled target is as desired unless it holds more than is desired. */
  lemma SettledIsSatisfiedIff(a: Adapter, d: Directory, desired: IdentityProjection, d': Directory)
    requires TableOk(a.managed) && DesiredUnambiguous(a, desired.attributes) && Settled(a, d, desired, d')
    ensures Satisfied(a, d', desired) <==> !desired.present || NoExtras(a, d, desired)
    ensures desired.present ==> (NoExtras(a, d', desired) <==> NoExtras(a, d, desired))
  {
    if desired.present {
      MergeAddsNothingIff(Observation(a, d, desired.subjectID).value.attributes, ManagedDesired(a, desired.attributes));
    }
  }

  lemma MergeAddsNothingIff(held: map<string, string>, values: map<string, string>)
    ensures held + values == values <==> held.Keys <= values.Keys
    ensures (held + values).Keys <= values.Keys <==> held.Keys <= values.Keys
  {
  }

  // ---- Attempts in sequence ----

  /** The condition under which a target comes to rest. */
  ghost predicate CanRest(a: Adapter, d: Directory, desired: IdentityProjection)
    requires TableOk(a.managed) && DesiredUnambiguous(a, desired.attributes)
  {
    !desired.present || NoExtras(a, d, desired)
  }

  lemma SatisfiedCanRest(a: Adapter, d: Directory, desired: IdentityProjection)
    requires TableOk(a.managed) && DesiredUnambiguous(a, desired.attributes) && Satisfied(a, d, desired)
    ensures CanRest(a, d, desired)
  {
  }

  /** A second Converge after a success writes nothing and reports unchanged if
      and only if absence is desired or the target held no managed scalar
      attribute missing from the desired ones; otherwise it writes again. */
  lemma SecondConvergeIff(
    a: Adapter, d: Directory, desired: IdentityProjection, fate: Fate, d1: Directory, first: Outcome, d2: Directory,
    second: Outcome)
    requires AdapterOk(a) && DirectoryOk(d) && DesiredUnambiguous(a, desired.attributes)
    requires ConvergeStep(a, d, desired, fate, d1, first) && first != Failed
    requires ConvergeStep(a, d1, desired, Answered, d2, second)
    ensures (second == Unchanged && d2 == d1) <==> CanRest(a, d, desired)
    ensures !CanRest(a, d, desired) ==> second == Updated && d2.writes == d1.writes + 1
  {
    AttemptSettles(a, d, desired, fate, d1, first);
    if first == Updated {
      SettledIsSatisfiedIff(a, d, desired, d1);
    } else {
      SatisfiedCanRest(a, d, desired);
    }
    AttemptSettles(a, d1, desired, Answered, d2, second);
  }

  /** Any number of attempts for one desired state, each with its own fate. */
  ghost predicate Attempts(
    a: Adapter, desired: IdentityProjection, ds: seq<Directory>, fates: seq<Fate>, outcomes: seq<Outcome>)
    requires TableOk(a.managed)
  {
    && |ds| == |fates| + 1 && |outcomes| == |fates|
    && forall i :: 0 <= i < |fates| ==> ConvergeStep(a, ds[i], desired, fates[i], ds[i + 1], outcomes[i])
  }

  /** From a sound target one write may bring rest; rest is kept, and success
      means rest. */
  ghost predicate ComesToRest(
    d: Directory, fate: Fate, d': Directory, outcome: Outcome, sound: Directory -> bool, rest: Directory -> bool)
  {
    sound(d) ==>
      && sound(d')
      && (d' == d || (d'.writes == d.writes + 1 && rest(d')))
      && (rest(d) ==> d' == d && (outcome == Unchanged || fate.Unreachable?))
      && (outcome != Failed ==> rest(d'))
  }

  ghost function AtRest(a: Adapter, desired: IdentityProjection): Directory -> bool
    requires TableOk(a.managed)
  {
    d => Satisfied(a, d, desired)
  }

  ghost function Sound(a: Adapter, desired: IdentityProjection): Directory -> bool
    requires TableOk(a.managed) && DesiredUnambiguous(a, desired.attributes)
  {
    d => DirectoryOk(d) && CanRest(a, d, desired)
  }

  lemma AttemptComesToRest(
    a: Adapter, d: Directory, desired: IdentityProjection, fate: Fate, d': Directory, outcome: Outcome)
    requires AdapterOk(a) && DesiredUnambiguous(a, desired.attributes)
    requires ConvergeStep(a, d, desired, fate, d', outcome)
    ensures ComesToRest(d, fate, d', outcome, Sound(a, desired), AtRest(a, desired))
  {
    if DirectoryOk(d) && CanRest(a, d, desired) {
      AttemptSettles(a, d, desired, fate, d', outcome);
      if d' != d {
        SettledIsSatisfiedIff(a, d, desired, d');
      }
    }
  }

  lemma {:induction false} RestIsReachedOnce(
    ds: seq<Directory>, fates: seq<Fate>, outcomes: seq<Outcome>, sound: Directory -> bool, rest: Directory -> bool,
    m: nat, n: nat)
    requires |ds| == |fates| + 1 && |outcomes| == |fates| && m <= n <= |fates| && sound(ds[m])
    requires forall i :: 0 <= i < |fates| ==> ComesToRest(ds[i], fates[i], ds[i + 1], outcomes[i], sound, rest)
    ensures sound(ds[n])
    ensures ds[n] == ds[m] || (ds[n].writes == ds[m].writes + 1 && rest(ds[n]))
    ensures rest(ds[m]) ==> ds[n] == ds[m]
  {
    if m < n {
      RestIsReachedOnce(ds, fates, outcomes, sound, rest, m, n - 1);
      assert ComesToRest(ds[n - 1], fates[n - 1], ds[n], outcomes[n - 1], sound, rest);
    }
  }

  /** The attempt changed the target, or reported success. */
  predicate TookEffect(ds: seq<Directory>, outcomes: seq<Outcome>, m: nat)
    requires m < |outcomes| && |ds| == |outcomes| + 1
  {
    ds[m + 1] != ds[m] || outcomes[m] != Failed
  }

  /** A later attempt leaves the target alone and says so, if it can reach it. */
  predicate Stays(ds: seq<Directory>, fates: seq<Fate>, outcomes: seq<Outcome>, m: nat, n: nat)
    requires m < n < |outcomes| && |fates| == |outcomes| && |ds| == |outcomes| + 1
  {
    ds[n + 1] == ds[m + 1] && (outcomes[n] == Unchanged || fates[n].Unreachable?)
  }

  /** At most one mutation, to a target that is then at rest; and after an
      attempt that took effect no other does. */
  ghost predicate OneMutation(ds: seq<Directory>, fates: seq<Fate>, outcomes: seq<Outcome>, rest: Directory -> bool)
    requires |ds| == |fates| + 1 && |outcomes| == |fates|
  {
    && (forall n :: 0 <= n < |ds| ==> ds[n] == ds[0] || (ds[n].writes == ds[0].writes + 1 && rest(ds[n])))
    && (forall m, n :: 0 <= m < n < |fates| && TookEffect(ds, outcomes, m) ==> Stays(ds, fates, outcomes, m, n))
  }

  lemma RestMeansOneMutation(
    ds: seq<Directory>, fates: seq<Fate>, outcomes: seq<Outcome>, sound: Directory -> bool, rest: Directory -> bool)
    requires |ds| == |fates| + 1 && |outcomes| == |fates| && sound(ds[0])
    requires forall i :: 0 <= i < |fates| ==> ComesToRest(ds[i], fates[i], ds[i + 1], outcomes[i], sound, rest)
    ensures OneMutation(ds, fates, outcomes, rest)
  {
    forall n | 0 <= n < |ds| ensures ds[n] == ds[0] || (ds[n].writes == ds[0].writes + 1 && rest(ds[n])) {
      RestIsReachedOnce(ds, fates, outcomes, sound, rest, 0, n);
    }
    forall m, n | 0 <= m < n < |fates| && TookEffect(ds, outcomes, m) ensures Stays(ds, fates, outcomes, m, n) {
      RestIsReachedOnce(ds, fates, outcomes, sound, rest, 0, m);
      EffectThenRest(ds, fates, outcomes, sound, rest, m, n);
    }
  }

  lemma EffectThenRest(
    ds: seq<Directory>, fates: seq<Fate>, outcomes: seq<Outcome>, sound: Directory -> bool, rest: Directory -> bool,
    m: nat, n: nat)
    requires |ds| == |fates| + 1 && |outcomes| == |fates| && m < n < |fates| && TookEffect(ds, outcomes, m)
    requires sound(ds[m])
    requires forall i :: 0 <= i < |fates| ==> ComesToRest(ds[i], fates[i], ds[i + 1], outcomes[i], sound, rest)
    ensures Stays(ds, fates, outcomes, m, n)
  {
    assert ComesToRest(ds[m], fates[m], ds[m + 1], outcomes[m], sound, rest);
    RestIsReachedOnce(ds, fates, outcomes, sound, rest, m + 1, n);
    assert ComesToRest(ds[n], fates[n], ds[n + 1], outcomes[n], sound, rest);
  }

  /** Lost responses cost no second write: over any sequence of attempts in
      which any request or response may be lost, the target receives at most
      one mutation, and once one has taken effect it is as desired for good. */
  lemma LostResponseRecovery(
    a: Adapter, desired: IdentityProjection, ds: seq<Directory>, fates: seq<Fate>, outcomes: seq<Outcome>)
    requires AdapterOk(a) && DesiredUnambiguous(a, desired.attributes) && Attempts(a, desired, ds, fates, outcomes)
    requires DirectoryOk(ds[0]) && CanRest(a, ds[0], desired)
    ensures OneMutation(ds, fates, outcomes, AtRest(a, desired))
  {
    forall i | 0 <= i < |fates|
      ensures ComesToRest(ds[i], fates[i], ds[i + 1], outcomes[i], Sound(a, desired), AtRest(a, desired))
    {
      AttemptComesToRest(a, ds[i], desired, fates[i], ds[i + 1], outcomes[i]);
    }
    RestMeansOneMutation(ds, fates, outcomes, Sound(a, desired), AtRest(a, desired));
  }

  /** Otherwise the target never settles: every answered attempt writes again. */
  lemma ExtrasNeverSettle(
    a: Adapter, desired: IdentityProjection, ds: seq<Directory>, fates: seq<Fate>, outcomes: seq<Outcome>)
    requires AdapterOk(a) && DesiredUnambiguous(a, desired.attributes) && Attempts(a, desired, ds, fates, outcomes)
    requires DirectoryOk(ds[0]) && !CanRest(a, ds[0], desired)
    requires forall i :: 0 <= i < |fates| ==> fates[i] == Answered
    ensures forall n :: 0 <= n < |fates| ==> outcomes[n] == Updated
    ensures forall n :: 0 <= n < |ds| ==> ds[n].writes == ds[0].writes + n
  {
    forall i | 0 <= i < |fates| ensures WritesAgain(ds[i], ds[i + 1], outcomes[i], Restless(a, desired)) {
      AttemptWritesAgain(a, ds[i], desired, ds[i + 1], outcomes[i]);
    }
    WritesEveryTime(ds, outcomes, Restless(a, desired));
  }

  ghost function Restless(a: Adapter, desired: IdentityProjection): Directory -> bool
    requires TableOk(a.managed) && DesiredUnambiguous(a, desired.attributes)
  {
    d => DirectoryOk(d) && !CanRest(a, d, desired)
  }

  ghost predicate WritesAgain(d: Directory, d': Directory, outcome: Outcome, full: Directory -> bool) {
    full(d) ==> full(d') && d'.writes == d.writes + 1 && outcome == Updated
  }

  lemma {:induction false} WritesAddUp(ds: seq<Directory>, outcomes: seq<Outcome>, full: Directory -> bool, n: nat)
    requires |ds| == |outcomes| + 1 && n < |ds| && full(ds[0])
    requires forall i :: 0 <= i < |outcomes| ==> WritesAgain(ds[i], ds[i + 1], outcomes[i], full)
    ensures full(ds[n]) && ds[n].writes == ds[0].writes + n
  {
    if n > 0 {
      WritesAddUp(ds, outcomes, full, n - 1);
      assert WritesAgain(ds[n - 1], ds[n], outcomes[n - 1], full);
    }
  }

  lemma WritesEveryTime(ds: seq<Directory>, outcomes: seq<Outcome>, full: Directory -> bool)
    requires |ds| == |outcomes| + 1 && full(ds[0])
    requires forall i :: 0 <= i < |outcomes| ==> WritesAgain(ds[i], ds[i + 1], outcomes[i], full)
    ensures forall n :: 0 <= n < |outcomes| ==> outcomes[n] == Updated
    ensures forall n :: 0 <= n < |ds| ==> ds[n].writes == ds[0].writes + n
  {
    forall n | 0 <= n < |ds| ensures ds[n].writes == ds[0].writes + n && full(ds[n]) {
      WritesAddUp(ds, outcomes, full, n);
    }
    forall n | 0 <= n < |outcomes| ensures outcomes[n] == Updated {
      assert WritesAgain(ds[n], ds[n + 1], outcomes[n], full);
    }
  }

  lemma AttemptWritesAgain(a: Adapter, d: Directory, desired: IdentityProjection, d': Directory, outcome: Outcome)
    requires AdapterOk(a) && DesiredUnambiguous(a, desired.attributes)
    requires ConvergeStep(a, d, desired, Answered, d', outcome)
    ensures WritesAgain(d, d', outcome, Restless(a, desired))
  {
    if DirectoryOk(d) && !CanRest(a, d, desired) {
      AttemptWithExtras(a, d, desired, d', outcome);
    }
  }

  lemma AttemptWithExtras(a: Adapter, d: Directory, desired: IdentityProjection, d': Directory, outcome: Outcome)
    requires AdapterOk(a) && DirectoryOk(d) && DesiredUnambiguous(a, desired.attributes) && !CanRest(a, d, desired)
    requires ConvergeStep(a, d, desired, Answered, d', outcome)
    ensures DirectoryOk(d') && d'.writes == d.writes + 1 && !CanRest(a, d', desired) && outcome == Updated
  {
    if Satisfied(a, d, desired) {
      SatisfiedCanRest(a, d, desired);
    }
    AttemptSettles(a, d, desired, Answered, d', outcome);
    SettledIsSatisfiedIff(a, d, desired, d');
  }
}
