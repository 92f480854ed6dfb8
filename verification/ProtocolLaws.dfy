/** What holds in every interleaving of store writers, convergers and foreign
    writers. */
module ProtocolLaws {
  import opened Base
  import opened Text
  import opened Model
  import opened Scim
  import opened Directories
  import opened Convergence
  import opened ConvergenceLaws
  import opened Protocol

  // ---- The store's side ----

  /** The target never regresses. Each mutation a converger has made carried the
      row that was current at that moment, in the sense that its request is the
      one Apply sends for that row and for what its lookup read; and the rows
      carried for one subject only ever advance. */
  lemma TargetNeverRegresses(ws: seq<World>, actions: seq<Action>, n: nat)
    requires Trace(ws, actions) && n < |ws|
    ensures forall i :: 0 <= i < |ws[n].log| ==> EntryOk(ws[n].log[i])
    ensures forall i, j :: 0 <= i < j < |ws[n].log| && ws[n].log[i].subject == ws[n].log[j].subject
                           ==> ws[n].log[i].row.rowVersion <= ws[n].log[j].row.rowVersion
                               && RowAdvances(ws[n].log[i].row, ws[n].log[j].row)
  {
    InvAlways(ws, actions, n);
  }

  /** What a converger sends is the request for the row as it is when it is
      sent, and concerns attributes its caller allowed. */
  lemma SendCarriesTheRow(ws: seq<World>, actions: seq<Action>, n: nat, pid: nat, fate: Fate)
    requires Trace(ws, actions) && n < |actions| && actions[n] == Send(pid, fate)
    ensures pid in ws[n].sessions && ws[n].sessions[pid].progress.Planned?
    ensures var s := ws[n].sessions[pid];
            && s.subject in ws[n].tables.state && s.desired == ws[n].tables.state[s.subject]
            && Carries(s.adapter, s.progress.seen, s.progress.request, ws[n].tables.state[s.subject])
            && ws[n].tables.state[s.subject].attributes.Keys <= s.allowed
  {
    assert Next(ws[n], actions[n], ws[n + 1]);
    InvAlways(ws, actions, n);
    assert PlanOk(ws[n].directory, ws[n].sessions[pid]);
  }

  /** Apart from foreign clients only a send changes the target: by its own
      request, by one mutation, and with an entry that records that request
      and the row of that moment. */
  lemma MutationsAreLogged(ws: seq<World>, actions: seq<Action>, n: nat)
    requires Trace(ws, actions) && n < |actions| && !actions[n].Foreign?
    ensures ws[n + 1].directory == ws[n].directory ==> ws[n + 1].log == ws[n].log
    ensures ws[n + 1].directory != ws[n].directory ==>
              && actions[n].Send? && actions[n].pid in ws[n].sessions
              && var s := ws[n].sessions[actions[n].pid];
                 && s.progress.Planned? && s.subject in ws[n].tables.state
                 && ws[n + 1].directory == Execute(ws[n].directory, s.progress.request).0
                 && ws[n + 1].directory.writes == ws[n].directory.writes + 1
                 && ws[n + 1].log == ws[n].log + [EntryFor(s, ws[n].tables.state[s.subject])]
  {
    assert Next(ws[n], actions[n], ws[n + 1]);
  }

  /** A row under a converger's lock cannot change, so what the converger read
      is the row until it ends; and no two convergers hold one subject. */
  lemma LockedRowIsStable(ws: seq<World>, actions: seq<Action>, n: nat, pid: nat)
    requires Trace(ws, actions) && n < |ws| && pid in ws[n].sessions
    ensures var s := ws[n].sessions[pid];
            && s.subject in ws[n].tables.state && ws[n].tables.state[s.subject] == s.desired
            && s.desired.subjectID == s.subject
            && forall q :: q in ws[n].sessions && ws[n].sessions[q].subject == s.subject ==> q == pid
  {
    InvAlways(ws, actions, n);
  }

  // ---- The target's side ----

  predicate SendsToSeen(w: World, pid: nat) {
    && pid in w.sessions && w.sessions[pid].progress.Planned?
    && (w.sessions[pid].progress.request.Patch? || w.sessions[pid].progress.request.Remove?)
  }

  /** A request about one user that takes effect exactly if that user is still
      the one that was read, and otherwise changes nothing. */
  ghost predicate ActsOnWhatWasRead(d: Directory, seen: Seen, request: Request, fate: Fate, d': Directory) {
    && (d' != d <==> fate in {Answered, ResponseLost} && StillThere(d, Some(seen)))
    && (d' != d && request.Patch? ==>
          seen.id in d'.users && d'.users[seen.id].attrs == Patched(seen.user.attrs, request.operations))
    && (d' != d && request.Remove? ==> seen.id !in d'.users)
    && (forall id :: id != seen.id ==>
          (id in d'.users <==> id in d.users) && (id in d.users ==> d'.users[id] == d.users[id]))
  }

  /** No lost update. Whatever happened between a converger's lookup and its
      PATCH or DELETE, the request takes effect only if the user is still,
      field for field, the one that lookup read. It is told of success exactly
      when it then gets an answer, and otherwise reports failure. */
  lemma NoLostUpdate(ws: seq<World>, actions: seq<Action>, n: nat, pid: nat, fate: Fate)
    requires Trace(ws, actions) && n < |actions| && actions[n] == Send(pid, fate) && SendsToSeen(ws[n], pid)
    ensures var p := ws[n].sessions[pid].progress;
            && p.seen.Some?
            && ActsOnWhatWasRead(ws[n].directory, p.seen.value, p.request, fate, ws[n + 1].directory)
            && pid in ws[n + 1].sessions
            && ws[n + 1].sessions[pid].progress
            == Finished(if fate.Answered? && StillThere(ws[n].directory, p.seen) then Updated else Failed)
  {
    InvAlways(ws, actions, n);
    assert Next(ws[n], actions[n], ws[n + 1]);
    assert PlanOk(ws[n].directory, ws[n].sessions[pid]);
    var p := ws[n].sessions[pid].progress;
    VersionedRequestIsExact(ws[n].directory, p.seen.value, p.request, fate);
  }

  lemma VersionedRequestIsExact(d: Directory, seen: Seen, request: Request, fate: Fate)
    requires PlanNames(Some(seen), request) && (request.Patch? || request.Remove?) && Current(d, seen)
    ensures ActsOnWhatWasRead(d, seen, request, fate, Transmit(d, request, fate).0)
    ensures Transmit(d, request, fate).1 <==> fate.Answered? && StillThere(d, Some(seen))
  {
    TagsTrimmed(seen.user.version);
    if seen.id in d.users {
      VersionTagInjective(d.users[seen.id].version, seen.user.version);
    }
  }

  /** Without a version that guarantee holds only where it is not needed: an
      unversioned PATCH acts on what was read if and only if the user has not
      changed since, or is gone. */
  lemma UnversionedIsNotProtected(d: Directory, seen: Seen, ops: seq<PatchOp>)
    ensures ActsOnWhatWasRead(
              d, seen, Patch(seen.id, ops, ""), Answered, Transmit(d, Patch(seen.id, ops, ""), Answered).0)
       <==> seen.id !in d.users || d.users[seen.id] == seen.user
  {
  }

  // ---- What a taken send achieves ----

  /** No managed name of b is, in any casing, what a binds its subjects by. */
  ghost predicate KeepsBinding(b: Adapter, a: Adapter) {
    forall c :: c in b.managed.Values ==> !EqualFold(c, a.subjectAttribute)
  }

  /** Accepted configurations that do not manage one another's bindings. */
  ghost predicate Compatible(adapters: set<Adapter>) {
    && (forall a :: a in adapters ==> NamesApart(a))
    && (forall a, b :: a in adapters && b in adapters ==> KeepsBinding(b, a))
  }

  /** No foreign writers, and convergers configured in one of these ways. */
  predicate Closed(actions: seq<Action>, adapters: set<Adapter>) {
    forall action :: action in actions ==> !action.Foreign? && (action.Begin? ==> action.adapter in adapters)
  }

  lemma ClosedAt(actions: seq<Action>, adapters: set<Adapter>, i: nat)
    requires Closed(actions, adapters) && i < |actions|
    ensures Closed([actions[i]], adapters)
  {
    assert actions[i] in actions;
  }

  /** Past its observation a session's subject stays readable, and as long as
      the user it read is there, a lookup would still show just that. */
  ghost predicate Tracked(d: Directory, s: Session) {
    && (s.progress.Differing? || s.progress.Planned? ==> Observation(s.adapter, d, s.desired.subjectID).Some?)
    && (s.progress.Planned? && StillThere(d, s.progress.seen)
        ==> Found(s.adapter, d, s.desired.subjectID) == Some(Shown(s.progress.seen)))
  }

  ghost predicate AllTracked(adapters: set<Adapter>, w: World) {
    forall p :: p in w.sessions ==> w.sessions[p].adapter in adapters && Tracked(w.directory, w.sessions[p])
  }

  /** What a request for one subject does to another: no user comes to match
      the other, and one that matches it stays readable. */
  ghost predicate Spares(a: Adapter, d: Directory, d': Directory, subjectID: string) {
    && Matching(d', a.subjectAttribute, subjectID) <= Matching(d, a.subjectAttribute, subjectID)
    && forall id :: id in Matching(d', a.subjectAttribute, subjectID) ==>
         d'.users[id] == d.users[id]
         || (Observed(a, Some(d.users[id].attrs)).Some? ==> Observed(a, Some(d'.users[id].attrs)).Some?)
  }

  lemma CreateSpares(
    a: Adapter, b: Adapter, d: Directory, desired: IdentityProjection, values: map<string, string>, subjectID: string)
    requires NamesApart(a) && KeepsBinding(b, a) && DirectoryOk(d) && subjectID != desired.subjectID
    requires values.Keys <= b.managed.Values
    ensures Spares(a, d, Execute(d, Create(UserFor(b, desired, values))).0, subjectID)
  {
    var user := UserFor(b, desired, values);
    assert !Matches(User(user, d.next), a.subjectAttribute, subjectID);
  }

  lemma PatchSpares(
    a: Adapter, b: Adapter, d: Directory, d': Directory, id: string, ops: seq<PatchOp>, enabled: bool,
    values: map<string, string>, subjectID: string)
    requires NamesApart(a) && NamesApart(b) && KeepsBinding(b, a)
    requires IsPatched(d, id, ops, d') && IsPatch(ops, enabled, values) && values.Keys <= b.managed.Values
    ensures Spares(a, d, d', subjectID)
  {
    PathsApart(b, ops, enabled, values);
    forall i | 0 <= i < |ops| ensures !EqualFold(ops[i].path, a.subjectAttribute) {
      if i > 0 {
        assert ops[i].path in b.managed.Values;
      }
    }
    PatchedMatching(a.subjectAttribute, d, id, ops, d', subjectID);
    if Observed(a, Some(d.users[id].attrs)).Some? {
      PatchKeepsReadable(a, d.users[id].attrs, ops, enabled, values);
    }
  }

  lemma RemoveSpares(a: Adapter, d: Directory, id: string, version: string, subjectID: string)
    ensures Spares(a, d, Execute(d, Remove(id, version)).0, subjectID)
  {
  }

  /** A request that a converger through b can have planned for another subject. */
  ghost predicate Plannable(
    b: Adapter, d: Directory, desired: IdentityProjection, seen: Option<Seen>, request: Request, subjectID: string)
  {
    && DirectoryOk(d) && subjectID != desired.subjectID
    && Carries(b, seen, request, desired) && PlanNames(seen, request) && (seen.Some? ==> Current(d, seen.value))
  }

  lemma RequestSpares(
    a: Adapter, b: Adapter, d: Directory, desired: IdentityProjection, seen: Option<Seen>, request: Request,
    fate: Fate, subjectID: string)
    requires NamesApart(a) && NamesApart(b) && KeepsBinding(b, a) && Plannable(b, d, desired, seen, request, subjectID)
    ensures Spares(a, d, Transmit(d, request, fate).0, subjectID)
  {
    if Transmit(d, request, fate).0 != d {
      if desired.present {
        DesiredAreManaged(b, desired.attributes);
      }
      match request
      case Nothing =>
      case Create(user) => CreateSpares(a, b, d, desired, ManagedDesired(b, desired.attributes), subjectID);
      case Remove(id, version) => RemoveSpares(a, d, id, version, subjectID);
      case Patch(id, ops, version) =>
        TagsTrimmed(seen.value.user.version);
        PatchTakesEffect(d, id, ops);
        PatchSpares(a, b, d, Transmit(d, request, fate).0, id, ops,
                    desired.present && desired.enabled, PatchValues(b, desired), subjectID);
    }
  }

  /** Whatever b sends for its subjects spares every other subject of a. */
  ghost predicate SparesOthers(b: Adapter, a: Adapter) {
    forall d, desired, seen, request, fate, subjectID :: Plannable(b, d, desired, seen, request, subjectID)
      ==> Spares(a, d, Transmit(d, request, fate).0, subjectID)
  }

  /** One converger's requests leave the subjects of another alone if and only
      if it does not manage the attribute that one binds them by. Otherwise a
      create for one subject, of a row that gives that attribute the other
      subject's ID, makes a user that answers for both. */
  lemma SparesOthersIff(a: Adapter, b: Adapter)
    requires NamesApart(a) && NamesApart(b)
    ensures SparesOthers(b, a) <==> KeepsBinding(b, a)
  {
    if KeepsBinding(b, a) {
      forall d, desired, seen, request, fate, subjectID | Plannable(b, d, desired, seen, request, subjectID)
        ensures Spares(a, d, Transmit(d, request, fate).0, subjectID)
      {
        RequestSpares(a, b, d, desired, seen, request, fate, subjectID);
      }
    } else {
      var c :| c in b.managed.Values && EqualFold(c, a.subjectAttribute);
      BindingIsTaken(a, b, c);
    }
  }

  /** The desired identity "y" whose attribute c is "x". */
  function Claiming(c: string): IdentityProjection {
    IdentityProjection(
      "y", true, true, Active, map[c := "x"], "", "", ZERO_TIME, FreshnessTuple(0, ZERO_TIME, 0, ""), 0)
  }

  /** Its create, on an empty target, makes a user that "x" finds through a. */
  lemma BindingIsTaken(a: Adapter, b: Adapter, c: string)
    requires NamesApart(b) && c in b.managed.Values && EqualFold(c, a.subjectAttribute)
    ensures !SparesOthers(b, a)
  {
    var d, values := Directory(map[], 0, 0), map[c := "x"];
    var request := Create(UserFor(b, Claiming(c), values));
    ClaimIsPlannable(b, d, c, values);
    CreateClaims(a.subjectAttribute, b, d, Claiming(c), values, c, "x");
    assert Plannable(b, d, Claiming(c), None, request, "x");
    assert !Spares(a, d, Transmit(d, request, Answered).0, "x");
  }

  lemma ClaimIsPlannable(b: Adapter, d: Directory, c: string, values: map<string, string>)
    requires NamesApart(b) && c in b.managed.Values && DirectoryOk(d) && values == map[c := "x"]
    ensures Plannable(b, d, Claiming(c), None, Create(UserFor(b, Claiming(c), values)), "x")
  {
    EntryApart(b, c);
    assert ManagedDesired(b, values) == values;
  }

  lemma CreateClaims(
    attribute: string, b: Adapter, d: Directory, desired: IdentityProjection, values: map<string, string>, c: string,
    subjectID: string)
    requires c in values && values[c] == subjectID && EqualFold(c, attribute)
    ensures NewID(d.next) in Matching(Execute(d, Create(UserFor(b, desired, values))).0, attribute, subjectID)
  {
    var user := UserFor(b, desired, values);
    assert c in user && user[c] == Str(subjectID);
  }

  lemma SparedStaysReadable(a: Adapter, d: Directory, d': Directory, subjectID: string)
    requires NamesApart(a) && DirectoryOk(d) && DirectoryOk(d') && Spares(a, d, d', subjectID)
    requires Observation(a, d, subjectID).Some?
    ensures Observation(a, d', subjectID).Some?
  {
    if id :| id in Matching(d', a.subjectAttribute, subjectID) {
      assert Matching(d, a.subjectAttribute, subjectID) == {id};
      assert Matching(d', a.subjectAttribute, subjectID) == {id};
      ObserveUnique(a, d, subjectID, id);
      ObserveUnique(a, d', subjectID, id);
    }
  }

  /** Versions are not reused, so a user that is there was there before. */
  lemma SeenWasThere(d: Directory, d': Directory, seen: Option<Seen>)
    requires ForeignChange(d, d') && StillThere(d', seen) && (seen.Some? ==> Current(d, seen.value))
    ensures StillThere(d, seen)
  {
  }

  lemma ShownStays(a: Adapter, d: Directory, d': Directory, subjectID: string, seen: Option<Seen>)
    requires DirectoryOk(d) && DirectoryOk(d') && StillThere(d, seen) && StillThere(d', seen)
    requires Matching(d', a.subjectAttribute, subjectID) <= Matching(d, a.subjectAttribute, subjectID)
    requires Found(a, d, subjectID) == Some(Shown(seen))
    ensures Found(a, d', subjectID) == Some(Shown(seen))
  {
    if seen.Some? {
      var id := FoundUser(a, d, subjectID);
      assert Render(id, d.users[id])["id"] == Str(id) && Shown(seen).value["id"] == Str(seen.value.id);
      assert Matching(d', a.subjectAttribute, subjectID) == {id};
      UniqueMatchIsFound(a, d', subjectID, id);
    }
  }

  lemma SparedStaysTracked(d: Directory, d': Directory, s: Session)
    requires NamesApart(s.adapter) && DirectoryOk(d) && ForeignChange(d, d')
    requires Spares(s.adapter, d, d', s.desired.subjectID) && Tracked(d, s) && PlanOk(d, s)
    ensures Tracked(d', s)
  {
    if s.progress.Differing? || s.progress.Planned? {
      SparedStaysReadable(s.adapter, d, d', s.desired.subjectID);
    }
    if s.progress.Planned? && StillThere(d', s.progress.seen) {
      SeenWasThere(d, d', s.progress.seen);
      ShownStays(s.adapter, d, d', s.desired.subjectID, s.progress.seen);
    }
  }

  lemma ProgressKeepsTracked(adapters: set<Adapter>, w: World, pid: nat, progress: Progress)
    requires AllTracked(adapters, w) && pid in w.sessions
    requires Tracked(w.directory, w.sessions[pid].(progress := progress))
    ensures AllTracked(adapters, AtProgress(w, pid, progress))
  {
  }

  lemma SendKeepsTracked(adapters: set<Adapter>, w: World, pid: nat, fate: Fate, w': World, p: nat)
    requires Compatible(adapters) && Inv(w) && AllTracked(adapters, w) && SendStep(w, pid, fate, w') && p in w'.sessions
    ensures w'.sessions[p].adapter in adapters && Tracked(w'.directory, w'.sessions[p])
  {
    var s, other := w.sessions[pid], w.sessions[p];
    assert PlanOk(w.directory, s) && PlanOk(w.directory, other);
    if p != pid {
      TransmitIsAChange(w.directory, s.progress.request, fate);
      RequestSpares(other.adapter, s.adapter, w.directory, s.desired,
                    s.progress.seen, s.progress.request, fate, other.desired.subjectID);
      SparedStaysTracked(w.directory, w'.directory, other);
    }
  }

  lemma TrackedKept(adapters: set<Adapter>, w: World, action: Action, w': World)
    requires Compatible(adapters) && Inv(w) && AllTracked(adapters, w) && Next(w, action, w')
    requires Closed([action], adapters)
    ensures AllTracked(adapters, w')
  {
    assert action in [action];
    match action
    case Permit(pid) => ProgressKeepsTracked(adapters, w, pid, w'.sessions[pid].progress);
    case Observe(pid) => ProgressKeepsTracked(adapters, w, pid, w'.sessions[pid].progress);
    case Lookup(pid) => ProgressKeepsTracked(adapters, w, pid, w'.sessions[pid].progress);
    case Send(pid, fate) =>
      forall p | p in w'.sessions ensures w'.sessions[p].adapter in adapters && Tracked(w'.directory, w'.sessions[p]) {
        SendKeepsTracked(adapters, w, pid, fate, w', p);
      }
    case _ =>
  }

  lemma {:induction false} TrackedAlways(adapters: set<Adapter>, ws: seq<World>, actions: seq<Action>, n: nat)
    requires Compatible(adapters) && Trace(ws, actions) && Closed(actions, adapters) && n < |ws|
    ensures AllTracked(adapters, ws[n])
  {
    if n > 0 {
      TrackedAlways(adapters, ws, actions, n - 1);
      InvAlways(ws, actions, n - 1);
      ClosedAt(actions, adapters, n - 1);
      TrackedKept(adapters, ws[n - 1], actions[n - 1], ws[n]);
    }
  }

  /** Among convergers that do not manage one another's bindings, and without
      foreign writers, however they interleave and however else they are
      configured, a send that changes the target leaves its subject as the
      current row asks, on top of what the target held just before. */
  lemma TakenSendSettles(adapters: set<Adapter>, ws: seq<World>, actions: seq<Action>, n: nat, pid: nat, fate: Fate)
    requires Compatible(adapters) && Trace(ws, actions) && Closed(actions, adapters)
    requires n < |actions| && actions[n] == Send(pid, fate) && ws[n + 1].directory != ws[n].directory
    ensures pid in ws[n].sessions && TableOk(ws[n].sessions[pid].adapter.managed)
    ensures ws[n].sessions[pid].subject in ws[n].tables.state
    ensures var a, row := ws[n].sessions[pid].adapter, ws[n].tables.state[ws[n].sessions[pid].subject];
            && (row.present ==> DesiredUnambiguous(a, row.attributes))
            && Settled(a, ws[n].directory, row, ws[n + 1].directory)
  {
    TrackedAlways(adapters, ws, actions, n);
    InvAlways(ws, actions, n);
    SendCarriesTheRow(ws, actions, n, pid, fate);
    assert Next(ws[n], actions[n], ws[n + 1]);
    var s := ws[n].sessions[pid];
    assert Tracked(ws[n].directory, s) && PlanOk(ws[n].directory, s) && NamesApart(s.adapter);
    SessionSettles(s.adapter, ws[n].directory, s, fate);
  }

  lemma SessionSettles(a: Adapter, d: Directory, s: Session, fate: Fate)
    requires NamesApart(a) && DirectoryOk(d) && s.adapter == a && s.progress.Planned? && PlanOk(d, s) && Tracked(d, s)
    requires Transmit(d, s.progress.request, fate).0 != d
    ensures s.desired.present ==> DesiredUnambiguous(a, s.desired.attributes)
    ensures Settled(a, d, s.desired, Transmit(d, s.progress.request, fate).0)
  {
    var request, seen := s.progress.request, s.progress.seen;
    if request.Patch? || request.Remove? {
      VersionedRequestIsExact(d, seen.value, request, fate);
    }
    if s.desired.present {
      DesiredAreManaged(a, s.desired.attributes);
    }
    RequestSettles(a, d, s.desired, request);
  }

  /** Foreign writers may make other users match the subject, but a PATCH that
      is taken still does its own part: the user it names reads as the row asks,
      on top of what the lookup had read. */
  lemma TakenPatchWritesTheRow(ws: seq<World>, actions: seq<Action>, n: nat, pid: nat, fate: Fate)
    requires Trace(ws, actions) && n < |actions| && actions[n] == Send(pid, fate) && SendsToSeen(ws[n], pid)
    requires ws[n + 1].directory != ws[n].directory && ws[n].sessions[pid].progress.request.Patch?
    requires NamesApart(ws[n].sessions[pid].adapter) && ws[n].sessions[pid].progress.seen.Some?
    requires Observed(ws[n].sessions[pid].adapter, Some(ws[n].sessions[pid].progress.seen.value.user.attrs)).Some?
    ensures var s := ws[n].sessions[pid];
            var seen, row := s.progress.seen.value, s.desired;
            && s.subject in ws[n].tables.state && row == ws[n].tables.state[s.subject]
            && (row.present ==> DesiredUnambiguous(s.adapter, row.attributes))
            && seen.id in ws[n + 1].directory.users
            && Observed(s.adapter, Some(ws[n + 1].directory.users[seen.id].attrs))
            == Some(ObservedState(true, row.present && row.enabled,
                                  Observed(s.adapter, Some(seen.user.attrs)).value.attributes
                                  + PatchValues(s.adapter, row)))
  {
    NoLostUpdate(ws, actions, n, pid, fate);
    SendCarriesTheRow(ws, actions, n, pid, fate);
    var s := ws[n].sessions[pid];
    if s.desired.present {
      DesiredAreManaged(s.adapter, s.desired.attributes);
    }
    PatchedReads(s.adapter, s.progress.seen.value.user.attrs, s.progress.request.operations,
                 s.desired.present && s.desired.enabled, PatchValues(s.adapter, s.desired));
  }
}
