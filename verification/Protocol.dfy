/** Writers of the store, convergers of the target and foreign writers of the
    target, interleaved step by step. */
module Protocol {
  import opened Base
  import opened Model
  import opened Scim
  import opened Directories
  import opened Convergence
  import opened ConvergenceLaws
  import opened Stores

  /** The user a converger's own lookup read. */
  datatype Seen = Seen(id: string, user: User)

  /** How far a converger has come while it holds the row lock. */
  datatype Progress =
    | Holding
    | Permitted
    | Differing
    | Planned(seen: Option<Seen>, request: Request)
    | Finished(outcome: Outcome)

  datatype Session = Session(
    subject: string, adapter: Adapter, allowed: set<string>, desired: IdentityProjection, progress: Progress)

  /** A mutation of the target: the request that made it, what its lookup had
      read, and the subject's row at that moment. */
  datatype Write = Write(
    subject: string, adapter: Adapter, seen: Option<Seen>, request: Request, row: IdentityProjection)

  datatype World = World(tables: Tables, sessions: map<nat, Session>, directory: Directory, log: seq<Write>)

  datatype Action =
    | Statement(op: Op)
    | Begin(pid: nat, subject: string, adapter: Adapter, allowed: set<string>)
    | Permit(pid: nat)
    | Observe(pid: nat)
    | Lookup(pid: nat)
    | Send(pid: nat, fate: Fate)
    | End(pid: nat)
    | Foreign

  // ---- Steps ----

  predicate Locked(w: World, subject: string) {
    exists pid :: pid in w.sessions && w.sessions[pid].subject == subject
  }

  /** A statement of any store client; a compare-and-set waits for the row lock. */
  predicate StatementStep(w: World, op: Op, w': World) {
    && (op.Cas? ==> !Locked(w, op.projection.subjectID))
    && w' == w.(tables := Step(w.tables, op).0)
  }

  /** SELECT ... FOR UPDATE: waits for the lock, and takes it only on a row. */
  predicate BeginStep(w: World, pid: nat, subject: string, adapter: Adapter, allowed: set<string>, w': World) {
    && pid !in w.sessions && !Locked(w, subject) && subject in w.tables.state
    && w' == w.(sessions := w.sessions[pid := Session(subject, adapter, allowed, w.tables.state[subject], Holding)])
  }

  function AtProgress(w: World, pid: nat, progress: Progress): World
    requires pid in w.sessions
  {
    w.(sessions := w.sessions[pid := w.sessions[pid].(progress := progress)])
  }

  predicate PermitStep(w: World, pid: nat, w': World) {
    && pid in w.sessions && w.sessions[pid].progress == Holding
    && w.sessions[pid].desired.attributes.Keys <= w.sessions[pid].allowed
    && w' == AtProgress(w, pid, Permitted)
  }

  ghost predicate ObserveStep(w: World, pid: nat, w': World) {
    && pid in w.sessions && w.sessions[pid].progress == Permitted
    && var s := w.sessions[pid];
       && TableOk(s.adapter.managed)
       && Observation(s.adapter, w.directory, s.desired.subjectID).Some?
       && w' == AtProgress(
                  w, pid, if Satisfied(s.adapter, w.directory, s.desired) then Finished(Unchanged) else Differing)
  }

  /** The user that was read is there, field for field. */
  predicate StillThere(d: Directory, seen: Option<Seen>) {
    seen.Some? ==> seen.value.id in d.users && d.users[seen.value.id] == seen.value.user
  }

  /** What a lookup showed of it. */
  function Shown(seen: Option<Seen>): Option<Resource> {
    match seen
    case None => None
    case Some(s) => Some(Render(s.id, s.user))
  }

  /** The request is the one Apply sends for this projection and what was read. */
  ghost predicate Carries(a: Adapter, seen: Option<Seen>, request: Request, projection: IdentityProjection) {
    TableOk(a.managed) && IsRequest(a, Shown(seen), projection, Some(request))
  }

  /** Apply's own lookup, and the request it leads to. */
  ghost predicate LookupStep(w: World, pid: nat, w': World) {
    && pid in w.sessions && w.sessions[pid].progress == Differing
    && var s := w.sessions[pid];
       exists seen, request ::
         && StillThere(w.directory, seen) && Found(s.adapter, w.directory, s.desired.subjectID) == Some(Shown(seen))
         && Carries(s.adapter, seen, request, s.desired)
         && w' == AtProgress(w, pid, Planned(seen, request))
  }

  /** The request takes effect now or never; the converger learns what it is told. */
  ghost predicate SendStep(w: World, pid: nat, fate: Fate, w': World) {
    && pid in w.sessions && w.sessions[pid].progress.Planned? && !fate.Unreachable?
    && var s := w.sessions[pid];
       var (d', ok) := Transmit(w.directory, s.progress.request, fate);
       && s.subject in w.tables.state
       && w' == AtProgress(w, pid, Finished(if ok then Updated else Failed)).(
                  directory := d',
                  log := if d' == w.directory then w.log else w.log + [EntryFor(s, w.tables.state[s.subject])])
  }

  function EntryFor(s: Session, row: IdentityProjection): Write
    requires s.progress.Planned?
  {
    Write(s.subject, s.adapter, s.progress.seen, s.progress.request, row)
  }

  /** Commit, rollback or crash: at any point, and the lock goes with it. */
  predicate EndStep(w: World, pid: nat, w': World) {
    pid in w.sessions && w' == w.(sessions := w.sessions - {pid})
  }

  /** Other clients of a versioned provider: whatever they change or add gets
      a version that was not in use before. */
  ghost predicate ForeignChange(d: Directory, d': Directory) {
    && d.next <= d'.next && DirectoryOk(d')
    && forall id :: id in d'.users ==> (id in d.users && d'.users[id] == d.users[id]) || d'.users[id].version >= d.next
  }

  ghost predicate ForeignStep(w: World, w': World) {
    ForeignChange(w.directory, w'.directory) && w' == w.(directory := w'.directory)
  }

  ghost predicate Next(w: World, action: Action, w': World) {
    match action
    case Statement(op) => StatementStep(w, op, w')
    case Begin(pid, subject, adapter, allowed) => BeginStep(w, pid, subject, adapter, allowed, w')
    case Permit(pid) => PermitStep(w, pid, w')
    case Observe(pid) => ObserveStep(w, pid, w')
    case Lookup(pid) => LookupStep(w, pid, w')
    case Send(pid, fate) => SendStep(w, pid, fate, w')
    case End(pid) => EndStep(w, pid, w')
    case Foreign => ForeignStep(w, w')
  }

  // ---- What every step keeps ----

  ghost predicate RowsKeyed(t: Tables) {
    forall subject :: subject in t.state ==> t.state[subject].subjectID == subject
  }

  /** One session a subject; and the row it read is still the row. */
  ghost predicate LocksHold(w: World) {
    && (forall p, q :: p in w.sessions && q in w.sessions && p != q ==> w.sessions[p].subject != w.sessions[q].subject)
    && (forall p :: p in w.sessions ==>
          w.sessions[p].subject in w.tables.state && w.tables.state[w.sessions[p].subject] == w.sessions[p].desired)
  }

  /** A user still at the version that was read is still the user that was read. */
  ghost predicate Current(d: Directory, seen: Seen) {
    && seen.user.version < d.next
    && (seen.id in d.users && d.users[seen.id].version == seen.user.version ==> d.users[seen.id] == seen.user)
  }

  /** A plan names the user its lookup read, by id and version. */
  predicate PlanNames(seen: Option<Seen>, request: Request) {
    match request
    case Nothing => true
    case Create(_) => seen.None?
    case Patch(id, _, version) => seen.Some? && id == seen.value.id && version == VersionTag(seen.value.user.version)
    case Remove(id, version) => seen.Some? && id == seen.value.id && version == VersionTag(seen.value.user.version)
  }

  /** A plan carries the session's projection and names what its lookup read. */
  ghost predicate PlanOk(d: Directory, s: Session) {
    s.progress.Planned? ==>
      && Carries(s.adapter, s.progress.seen, s.progress.request, s.desired)
      && PlanNames(s.progress.seen, s.progress.request)
      && (s.progress.seen.Some? ==> Current(d, s.progress.seen.value))
  }

  ghost predicate PlansOk(w: World) {
    forall p :: p in w.sessions ==> PlanOk(w.directory, w.sessions[p])
  }

  /** Only what the caller allowed is ever planned. */
  predicate Allowed(s: Session) {
    s.progress != Holding ==> s.desired.attributes.Keys <= s.allowed
  }

  /** The same row, or a fresher one under a larger version. */
  predicate RowAdvances(x: IdentityProjection, y: IdentityProjection) {
    x == y || (x.rowVersion < y.rowVersion && x.freshness.OlderThan(y.freshness))
  }

  /** The request of a mutation carried the row that was current. */
  ghost predicate EntryOk(e: Write) {
    Carries(e.adapter, e.seen, e.request, e.row) && e.row.subjectID == e.subject
  }

  /** Every mutation carried the current row, and rows only advance. */
  ghost predicate LogOk(t: Tables, log: seq<Write>) {
    && (forall i :: 0 <= i < |log| ==> EntryOk(log[i]))
    && (forall i, j :: 0 <= i < j < |log| && log[i].subject == log[j].subject ==> RowAdvances(log[i].row, log[j].row))
    && (forall i :: 0 <= i < |log| ==> log[i].subject in t.state && RowAdvances(log[i].row, t.state[log[i].subject]))
  }

  ghost predicate Inv(w: World) {
    && RowsKeyed(w.tables) && LocksHold(w) && DirectoryOk(w.directory) && PlansOk(w)
    && (forall p :: p in w.sessions ==> Allowed(w.sessions[p]))
    && LogOk(w.tables, w.log)
  }

  // ---- Statements of store clients ----

  lemma StatementAdvances(t: Tables, op: Op, subject: string)
    requires subject in t.state
    ensures subject in Step(t, op).0.state && RowAdvances(t.state[subject], Step(t, op).0.state[subject])
  {
  }

  lemma StatementKeepsKeys(t: Tables, op: Op)
    requires RowsKeyed(t)
    ensures RowsKeyed(Step(t, op).0)
  {
  }

  lemma RowAdvancesTransitive(x: IdentityProjection, y: IdentityProjection, z: IdentityProjection)
    requires RowAdvances(x, y) && RowAdvances(y, z)
    ensures RowAdvances(x, z)
  {
    if x != y && y != z {
      CompareTransitive(x.freshness, y.freshness, z.freshness);
    }
  }

  lemma StatementKeepsLog(t: Tables, op: Op, log: seq<Write>)
    requires LogOk(t, log)
    ensures LogOk(Step(t, op).0, log)
  {
    var t' := Step(t, op).0;
    forall i | 0 <= i < |log| ensures log[i].subject in t'.state && RowAdvances(log[i].row, t'.state[log[i].subject]) {
      StatementAdvances(t, op, log[i].subject);
      RowAdvancesTransitive(log[i].row, t.state[log[i].subject], t'.state[log[i].subject]);
    }
  }

  lemma StatementKeepsLocks(w: World, op: Op, w': World)
    requires LocksHold(w) && StatementStep(w, op, w')
    ensures LocksHold(w')
  {
  }

  // ---- Steps of convergers ----

  lemma BeginKeepsLocks(w: World, pid: nat, subject: string, adapter: Adapter, allowed: set<string>, w': World)
    requires LocksHold(w) && BeginStep(w, pid, subject, adapter, allowed, w')
    ensures LocksHold(w')
  {
  }

  lemma ProgressKeepsLocks(w: World, pid: nat, progress: Progress)
    requires LocksHold(w) && pid in w.sessions
    ensures LocksHold(AtProgress(w, pid, progress))
  {
  }

  lemma ProgressKeepsPlans(w: World, pid: nat, progress: Progress)
    requires PlansOk(w) && pid in w.sessions && PlanOk(w.directory, w.sessions[pid].(progress := progress))
    ensures PlansOk(AtProgress(w, pid, progress))
  {
  }

  lemma PlanFromLookup(d: Directory, s: Session)
    requires DirectoryOk(d) && s.progress.Planned? && StillThere(d, s.progress.seen)
    requires Carries(s.adapter, s.progress.seen, s.progress.request, s.desired)
    ensures PlanOk(d, s)
  {
    if s.progress.seen.Some? {
      RenderReads(s.progress.seen.value.id, s.progress.seen.value.user);
    }
  }

  // ---- Changes of the target ----

  lemma PlansKept(w: World, d': Directory)
    requires PlansOk(w) && ForeignChange(w.directory, d')
    ensures PlansOk(w.(directory := d'))
  {
  }

  /** To everyone else a converger's own request is a foreign change. */
  lemma TransmitIsAChange(d: Directory, request: Request, fate: Fate)
    requires DirectoryOk(d)
    ensures ForeignChange(d, Transmit(d, request, fate).0)
  {
    ExecuteKeepsOk(d, request);
  }

  lemma LogGrows(t: Tables, log: seq<Write>, e: Write)
    requires LogOk(t, log) && EntryOk(e) && e.subject in t.state && e.row == t.state[e.subject]
    ensures LogOk(t, log + [e])
  {
  }

  lemma SendKeeps(w: World, pid: nat, fate: Fate, w': World)
    requires Inv(w) && SendStep(w, pid, fate, w')
    ensures Inv(w')
  {
    var s := w.sessions[pid];
    TransmitIsAChange(w.directory, s.progress.request, fate);
    ProgressKeepsLocks(w, pid, w'.sessions[pid].progress);
    ProgressKeepsPlans(w, pid, w'.sessions[pid].progress);
    PlansKept(AtProgress(w, pid, w'.sessions[pid].progress), w'.directory);
    assert PlanOk(w.directory, s);
    LogGrows(w.tables, w.log, EntryFor(s, w.tables.state[s.subject]));
  }

  lemma ProgressKeeps(w: World, pid: nat, progress: Progress)
    requires Inv(w) && pid in w.sessions
    requires PlanOk(w.directory, w.sessions[pid].(progress := progress))
    requires Allowed(w.sessions[pid].(progress := progress))
    ensures Inv(AtProgress(w, pid, progress))
  {
    ProgressKeepsLocks(w, pid, progress);
    ProgressKeepsPlans(w, pid, progress);
  }

  lemma LookupKeeps(w: World, pid: nat, w': World)
    requires Inv(w) && LookupStep(w, pid, w')
    ensures Inv(w')
  {
    PlanFromLookup(w.directory, w'.sessions[pid]);
    ProgressKeeps(w, pid, w'.sessions[pid].progress);
  }

  lemma StatementKeeps(w: World, op: Op, w': World)
    requires Inv(w) && StatementStep(w, op, w')
    ensures Inv(w')
  {
    StatementKeepsLocks(w, op, w');
    StatementKeepsKeys(w.tables, op);
    StatementKeepsLog(w.tables, op, w.log);
  }

  /** Every step of every party keeps the invariant. */
  lemma InvKept(w: World, action: Action, w': World)
    requires Inv(w) && Next(w, action, w')
    ensures Inv(w')
  {
    match action
    case Statement(op) => StatementKeeps(w, op, w');
    case Begin(pid, subject, adapter, allowed) => BeginKeepsLocks(w, pid, subject, adapter, allowed, w');
    case Permit(pid) => ProgressKeeps(w, pid, Permitted);
    case Observe(pid) => ProgressKeeps(w, pid, w'.sessions[pid].progress);
    case Lookup(pid) => LookupKeeps(w, pid, w');
    case Send(pid, fate) => SendKeeps(w, pid, fate, w');
    case End(pid) =>
    case Foreign => PlansKept(w, w'.directory);
  }

  // ---- Every interleaving ----

  /** Any tables a run can have left, any target, and nobody at work yet. */
  ghost predicate Initial(w: World) {
    RowsKeyed(w.tables) && DirectoryOk(w.directory) && w.sessions == map[] && w.log == []
  }

  ghost predicate Trace(ws: seq<World>, actions: seq<Action>) {
    && |ws| == |actions| + 1 && Initial(ws[0])
    && forall i :: 0 <= i < |actions| ==> Next(ws[i], actions[i], ws[i + 1])
  }

  lemma {:induction false} InvAlways(ws: seq<World>, actions: seq<Action>, n: nat)
    requires Trace(ws, actions) && n < |ws|
    ensures Inv(ws[n])
  {
    if n > 0 {
      InvAlways(ws, actions, n - 1);
      InvKept(ws[n - 1], actions[n - 1], ws[n]);
    }
  }
}
