/** What one attempt sees and answers, said of the users of the target and of
    the fields of the observation. */
module AttemptLaws {
  import opened Base
  import opened Text
  import opened Model
  import opened Scim
  import opened AdapterLaws
  import opened Directories
  import opened Convergence
  import opened ConvergenceLaws

  // ---- Observing ----

  /** The user is bound to the subject by the configured attribute. */
  predicate BoundTo(a: Adapter, u: User, subjectID: string) {
    exists k :: k in u.attrs && EqualFold(k, a.subjectAttribute) && u.attrs[k] == Str(subjectID)
  }

  /** An observation succeeds exactly if the subject ID is not blank, at most
      one user is bound to it, and that one is readable. It says that nobody is,
      or what is stored of the one who is. */
  lemma ObservationSays(a: Adapter, d: Directory, subjectID: string)
    requires NamesApart(a) && DirectoryOk(d)
    ensures Observation(a, d, subjectID).Some? <==>
      && TrimSpace(subjectID) != ""
      && (forall id, id' :: id in d.users && id' in d.users ==>
            BoundTo(a, d.users[id], subjectID) && BoundTo(a, d.users[id'], subjectID) ==> id == id')
      && (forall id :: id in d.users && BoundTo(a, d.users[id], subjectID) ==> Readable(a, d.users[id].attrs))
    ensures Observation(a, d, subjectID).Some? ==>
              var o := Observation(a, d, subjectID).value;
              && (o == ObservedState(false, false, map[])
                  || exists id :: id in d.users && BoundTo(a, d.users[id], subjectID) && Reads(a, d.users[id].attrs, o))
              && (o.present <==> exists id :: id in d.users && BoundTo(a, d.users[id], subjectID))
  {
    var ids := Matching(d, a.subjectAttribute, subjectID);
    forall id | id in d.users ensures id in ids <==> BoundTo(a, d.users[id], subjectID) {
    }
    if TrimSpace(subjectID) != "" && ids != {} {
      var id :| id in ids;
      if ids == {id} {
        ObserveUnique(a, d, subjectID, id);
        ObservedSays(a, d.users[id].attrs);
      }
    }
  }

  /** A page of search results confirms an absence only if it counts none and
      lists none, and a match only if it counts one and lists that one, with an
      id. Any other page is an error, so nothing is written on its account. */
  lemma PageConfirms(response: ListResponse)
    ensures Selected(response) == Some(None) <==> response == ListResponse(Some(0), [])
    ensures forall r ::
              Selected(response) == Some(Some(r)) <==>
                response == ListResponse(Some(1), [r]) && IdOf(r).Some? && IdOf(r).value != ""
  {
    if |response.resources| == 1 {
      assert response.resources == [response.resources[0]];
    }
  }

  // ---- Agreement ----

  /** No two desired attributes are one managed attribute in another casing. */
  predicate SpelledOnce(a: Adapter, attributes: map<string, string>) {
    forall k, k' ::
      k in attributes && k' in attributes && k != k' && ToLower(k) == ToLower(k') ==> ToLower(k) !in a.managed
  }

  /** These are the desired attributes that are managed, as configured. */
  ghost predicate HoldsManaged(a: Adapter, held: map<string, string>, attributes: map<string, string>) {
    && (forall k :: k in attributes && ToLower(k) in a.managed ==>
          var c := a.managed[ToLower(k)]; c in held && held[c] == attributes[k])
    && (forall c :: c in held ==>
          exists k :: k in attributes && ToLower(k) in a.managed && a.managed[ToLower(k)] == c)
  }

  /** The observation agrees with the row. To be absent, an account has to be
      gone, or where accounts are kept, disabled. */
  ghost predicate Agrees(a: Adapter, o: ObservedState, desired: IdentityProjection) {
    if desired.present
    then && SpelledOnce(a, desired.attributes)
         && o.present && o.enabled == desired.enabled && HoldsManaged(a, o.attributes, desired.attributes)
    else if a.mode == Disable then !(o.present && o.enabled)
    else SpelledOnce(a, desired.attributes) && !o.present
  }

  lemma AgreesIff(a: Adapter, o: ObservedState, desired: IdentityProjection)
    requires TableOk(a.managed)
    ensures Agrees(a, o, desired) <==> Equivalent(a, o, desired)
  {
    assert SpelledOnce(a, desired.attributes) <==> DesiredUnambiguous(a, desired.attributes);
    if SpelledOnce(a, desired.attributes) {
      HoldsManagedIff(a, o.attributes, desired.attributes);
    }
  }

  lemma HoldsManagedIff(a: Adapter, held: map<string, string>, attributes: map<string, string>)
    requires TableOk(a.managed) && DesiredUnambiguous(a, attributes)
    ensures HoldsManaged(a, held, attributes) <==> held == ManagedDesired(a, attributes)
  {
    var values := ManagedDesired(a, attributes);
    forall k | k in attributes && ToLower(k) in a.managed
      ensures var c := a.managed[ToLower(k)]; c in values && values[c] == attributes[k]
    {
      var c := a.managed[ToLower(k)];
      assert c in values;
    }
    if HoldsManaged(a, held, attributes) {
      assert held.Keys == values.Keys;
    }
  }

  /** An attempt reports unchanged exactly if it could read the target and that
      agreed with the row, field by field; the target is then left alone. It
      fails without a write if it could not read it. */
  lemma UnchangedIff(a: Adapter, d: Directory, desired: IdentityProjection, fate: Fate, d': Directory, outcome: Outcome)
    requires TableOk(a.managed) && ConvergeStep(a, d, desired, fate, d', outcome)
    ensures var o := Observation(a, d, desired.subjectID);
            && (outcome == Unchanged <==> !fate.Unreachable? && o.Some? && Agrees(a, o.value, desired))
            && (outcome == Unchanged ==> d' == d)
            && (fate.Unreachable? || o.None? ==> outcome == Failed && d' == d)
  {
    if Observation(a, d, desired.subjectID).Some? {
      AgreesIff(a, Observation(a, d, desired.subjectID).value, desired);
    }
  }

  /** A row that desires one managed attribute under two spellings: if it asks
      for an account, the attempt fails and writes nothing; if it asks for a
      deletion, that happens, but it is never reported unchanged. */
  lemma AmbiguousRow(a: Adapter, d: Directory, desired: IdentityProjection, fate: Fate, d': Directory, outcome: Outcome)
    requires NamesApart(a) && DirectoryOk(d) && ConvergeStep(a, d, desired, fate, d', outcome)
    requires !SpelledOnce(a, desired.attributes) && !fate.Unreachable?
    requires Observation(a, d, desired.subjectID).Some?
    ensures desired.present ==> outcome == Failed && d' == d
    ensures !desired.present && a.mode == Delete ==> outcome != Unchanged && (fate.Answered? ==> outcome == Updated)
    ensures !desired.present && a.mode == Delete && fate.Answered? ==>
              var after := Observation(a, d', desired.subjectID);
              after == Some(ObservedState(false, false, map[]))
  {
    AgreesIff(a, Observation(a, d, desired.subjectID).value, desired);
    if desired.present {
      AmbiguousIsNotSent(a, d, desired, fate, d', outcome);
    } else if a.mode == Delete {
      AmbiguousIsDeleted(a, d, desired, fate, d', outcome);
    }
  }

  lemma AmbiguousIsNotSent(
    a: Adapter, d: Directory, desired: IdentityProjection, fate: Fate, d': Directory, outcome: Outcome)
    requires TableOk(a.managed) && DirectoryOk(d) && ConvergeStep(a, d, desired, fate, d', outcome)
    requires !DesiredUnambiguous(a, desired.attributes) && desired.present
    ensures outcome == Failed && d' == d
  {
    if Found(a, d, desired.subjectID).Some? && Found(a, d, desired.subjectID).value.Some? {
      var id := FoundUser(a, d, desired.subjectID);
      AmbiguousRequest(a, Found(a, d, desired.subjectID).value, id, VersionTag(d.users[id].version), desired);
    }
  }

  lemma AmbiguousIsDeleted(
    a: Adapter, d: Directory, desired: IdentityProjection, fate: Fate, d': Directory, outcome: Outcome)
    requires TableOk(a.managed) && DirectoryOk(d) && ConvergeStep(a, d, desired, fate, d', outcome)
    requires !DesiredUnambiguous(a, desired.attributes) && !desired.present && a.mode == Delete
    requires !fate.Unreachable? && Observation(a, d, desired.subjectID).Some?
    ensures outcome != Unchanged
    ensures fate.Answered? ==>
              outcome == Updated && Observation(a, d', desired.subjectID) == Some(ObservedState(false, false, map[]))
  {
    if Found(a, d, desired.subjectID).value.Some? {
      var id := FoundUser(a, d, desired.subjectID);
      FoundIsDeleted(a, d, desired, id, fate, d', outcome);
    }
  }

  lemma FoundIsDeleted(
    a: Adapter, d: Directory, desired: IdentityProjection, id: string, fate: Fate, d': Directory, outcome: Outcome)
    requires TableOk(a.managed) && DirectoryOk(d) && id in d.users
    requires ApplyStep(a, d, desired, fate, d', outcome == Updated)
    requires !DesiredUnambiguous(a, desired.attributes) && !desired.present && a.mode == Delete
    requires TrimSpace(desired.subjectID) != "" && Matching(d, a.subjectAttribute, desired.subjectID) == {id}
    requires Found(a, d, desired.subjectID) == Some(Some(Render(id, d.users[id])))
    requires IdOf(Render(id, d.users[id])) == Some(id)
    requires VersionOf(Render(id, d.users[id])) == Some(VersionTag(d.users[id].version))
    ensures fate.Answered? ==>
              outcome == Updated && Observation(a, d', desired.subjectID) == Some(ObservedState(false, false, map[]))
  {
    var request := Remove(id, VersionTag(d.users[id].version));
    AmbiguousRequest(a, Some(Render(id, d.users[id])), id, VersionTag(d.users[id].version), desired);
    assert (d', outcome == Updated) == Transmit(d, request, fate);
    WriteIsAccepted(d, id, request);
    RemovedTarget(a, d, desired.subjectID, id);
  }

  lemma AmbiguousRequest(
    a: Adapter, found: Option<Resource>, id: string, version: string, desired: IdentityProjection)
    requires TableOk(a.managed) && !DesiredUnambiguous(a, desired.attributes)
    requires found.Some? && IdOf(found.value) == Some(id) && VersionOf(found.value) == Some(version)
    requires desired.present || a.mode == Delete
    ensures forall request :: IsRequest(a, found, desired, request) ==>
              request == if desired.present then None else Some(Remove(id, version))
  {
  }
}
