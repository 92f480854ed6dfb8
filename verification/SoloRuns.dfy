/** One converger by itself: the uninterleaved runs of the protocol are exactly
    what the sequential Converge does. */
module SoloRuns {
  import opened Base
  import opened Scim
  import opened Directories
  import opened Convergence
  import opened ConvergenceLaws
  import opened Protocol

  ghost predicate Steps(ws: seq<World>, actions: seq<Action>) {
    |ws| == |actions| + 1 && forall i :: 0 <= i < |actions| ==> Next(ws[i], actions[i], ws[i + 1])
  }

  predicate Ended(w: World, pid: nat, outcome: Outcome) {
    pid in w.sessions && w.sessions[pid].progress == Finished(outcome)
  }

  /** A run of one converger's own steps, as far as it gets, to this target and
      this outcome. */
  ghost predicate SoloRun(
    w: World, pid: nat, fate: Fate, d': Directory, outcome: Outcome, ws: seq<World>, actions: seq<Action>)
  {
    && Steps(ws, actions) && ws[0] == w && actions <= [Observe(pid), Lookup(pid), Send(pid, fate)]
    && ws[|ws| - 1].directory == d' && ws[|ws| - 1].tables == w.tables
    && (outcome != Failed ==> Ended(ws[|ws| - 1], pid, outcome))
  }

  /** A converger that is never interleaved with does what Converge does: the
      sequential operation is one of the protocol's runs. */
  lemma ConvergeIsARun(w: World, pid: nat, s: Session, fate: Fate, d': Directory, outcome: Outcome)
    returns (ws: seq<World>, actions: seq<Action>)
    requires DirectoryOk(w.directory) && pid in w.sessions && w.sessions[pid] == s && s.progress == Permitted
    requires s.subject in w.tables.state && TableOk(s.adapter.managed)
    requires ConvergeStep(s.adapter, w.directory, s.desired, fate, d', outcome)
    ensures SoloRun(w, pid, fate, d', outcome, ws, actions)
  {
    if fate.Unreachable? || Observation(s.adapter, w.directory, s.desired.subjectID).None? {
      ws, actions := NothingDone(w, pid, fate);
    } else if Satisfied(s.adapter, w.directory, s.desired) {
      ws, actions := SatisfiedIsARun(w, pid, s, fate);
    } else {
      ws, actions := DifferingIsARun(w, pid, s, fate, d', outcome);
    }
  }

  lemma NothingDone(w: World, pid: nat, fate: Fate) returns (ws: seq<World>, actions: seq<Action>)
    ensures SoloRun(w, pid, fate, w.directory, Failed, ws, actions)
  {
    ws, actions := [w], [];
  }

  lemma SatisfiedIsARun(w: World, pid: nat, s: Session, fate: Fate) returns (ws: seq<World>, actions: seq<Action>)
    requires pid in w.sessions && w.sessions[pid] == s && s.progress == Permitted && TableOk(s.adapter.managed)
    requires Observation(s.adapter, w.directory, s.desired.subjectID).Some?
    requires Satisfied(s.adapter, w.directory, s.desired)
    ensures SoloRun(w, pid, fate, w.directory, Unchanged, ws, actions)
  {
    var w1 := ObserveIsAStep(w, pid, s);
    ws, actions := StepBefore(w, Observe(pid), [w1], [], [Lookup(pid), Send(pid, fate)]);
  }

  lemma DifferingIsARun(w: World, pid: nat, s: Session, fate: Fate, d': Directory, outcome: Outcome)
    returns (ws: seq<World>, actions: seq<Action>)
    requires DirectoryOk(w.directory) && pid in w.sessions && w.sessions[pid] == s && s.progress == Permitted
    requires s.subject in w.tables.state && TableOk(s.adapter.managed) && outcome != Unchanged && !fate.Unreachable?
    requires Observation(s.adapter, w.directory, s.desired.subjectID).Some?
    requires !Satisfied(s.adapter, w.directory, s.desired)
    requires ApplyStep(s.adapter, w.directory, s.desired, fate, d', outcome == Updated)
    ensures SoloRun(w, pid, fate, d', outcome, ws, actions)
  {
    var w1 := ObserveIsAStep(w, pid, s);
    var rest, later := ApplyIsARun(w1, pid, s.(progress := Differing), fate, d', outcome == Updated);
    ws, actions := StepBefore(w, Observe(pid), rest, later, [Lookup(pid), Send(pid, fate)]);
  }

  lemma ObserveIsAStep(w: World, pid: nat, s: Session) returns (w': World)
    requires pid in w.sessions && w.sessions[pid] == s && s.progress == Permitted && TableOk(s.adapter.managed)
    requires Observation(s.adapter, w.directory, s.desired.subjectID).Some?
    ensures Next(w, Observe(pid), w')
    ensures w' == AtProgress(
                    w, pid, if Satisfied(s.adapter, w.directory, s.desired) then Finished(Unchanged) else Differing)
  {
    w' := AtProgress(w, pid, if Satisfied(s.adapter, w.directory, s.desired) then Finished(Unchanged) else Differing);
  }

  lemma StepBefore(w: World, action: Action, ws: seq<World>, actions: seq<Action>, all: seq<Action>)
    returns (ws': seq<World>, actions': seq<Action>)
    requires Steps(ws, actions) && Next(w, action, ws[0]) && actions <= all
    ensures Steps(ws', actions') && ws'[0] == w && ws'[|ws'| - 1] == ws[|ws| - 1] && actions' <= [action] + all
  {
    ws', actions' := [w] + ws, [action] + actions;
    forall i | 0 <= i < |actions'| ensures Next(ws'[i], actions'[i], ws'[i + 1]) {
      if i > 0 {
        assert Next(ws[i - 1], actions[i - 1], ws[i]);
      }
    }
  }

  lemma ApplyIsARun(w: World, pid: nat, s: Session, fate: Fate, d': Directory, ok: bool)
    returns (ws: seq<World>, actions: seq<Action>)
    requires DirectoryOk(w.directory) && pid in w.sessions && w.sessions[pid] == s && s.progress == Differing
    requires s.subject in w.tables.state && TableOk(s.adapter.managed)
    requires ApplyStep(s.adapter, w.directory, s.desired, fate, d', ok) && !fate.Unreachable?
    ensures Steps(ws, actions) && ws[0] == w && ws[|ws| - 1].directory == d' && ws[|ws| - 1].tables == w.tables
    ensures actions <= [Lookup(pid), Send(pid, fate)]
    ensures ok ==> Ended(ws[|ws| - 1], pid, Updated)
  {
    var read := Found(s.adapter, w.directory, s.desired.subjectID);
    ws, actions := [w], [];
    if read.Some? {
      var request :| IsRequest(s.adapter, read.value, s.desired, request)
          && (d', ok) == Sent(w.directory, request, fate);
      if request.Some? {
        var seen := LookupSees(s.adapter, w.directory, s.desired.subjectID);
        LookupIsAStep(w, pid, s, seen, request.value);
        ws, actions := LookupThenSend(w, pid, seen, request.value, fate);
      }
    }
  }

  lemma TwoSteps(w: World, first: Action, w1: World, second: Action, w2: World)
    requires Next(w, first, w1) && Next(w1, second, w2)
    ensures Steps([w, w1, w2], [first, second])
  {
  }

  lemma LookupIsAStep(w: World, pid: nat, s: Session, seen: Option<Seen>, request: Request)
    requires pid in w.sessions && w.sessions[pid] == s && s.progress == Differing
    requires Found(s.adapter, w.directory, s.desired.subjectID) == Some(Shown(seen))
    requires StillThere(w.directory, seen) && Carries(s.adapter, seen, request, s.desired)
    ensures LookupStep(w, pid, AtProgress(w, pid, Planned(seen, request)))
  {
  }

  lemma LookupThenSend(w: World, pid: nat, seen: Option<Seen>, request: Request, fate: Fate)
    returns (ws: seq<World>, actions: seq<Action>)
    requires pid in w.sessions && w.sessions[pid].subject in w.tables.state && !fate.Unreachable?
    requires LookupStep(w, pid, AtProgress(w, pid, Planned(seen, request)))
    ensures Steps(ws, actions) && ws[0] == w && actions == [Lookup(pid), Send(pid, fate)]
    ensures ws[|ws| - 1].directory == Transmit(w.directory, request, fate).0 && ws[|ws| - 1].tables == w.tables
    ensures Ended(ws[|ws| - 1], pid, if Transmit(w.directory, request, fate).1 then Updated else Failed)
  {
    var w1 := AtProgress(w, pid, Planned(seen, request));
    var w2 := SendIsAStep(w1, pid, fate);
    ws, actions := [w, w1, w2], [Lookup(pid), Send(pid, fate)];
    TwoSteps(w, Lookup(pid), w1, Send(pid, fate), w2);
  }

  lemma SendIsAStep(w: World, pid: nat, fate: Fate) returns (w': World)
    requires pid in w.sessions && w.sessions[pid].progress.Planned? && w.sessions[pid].subject in w.tables.state
    requires !fate.Unreachable?
    ensures Next(w, Send(pid, fate), w')
    ensures w'.directory == Transmit(w.directory, w.sessions[pid].progress.request, fate).0 && w'.tables == w.tables
    ensures Ended(w', pid, if Transmit(w.directory, w.sessions[pid].progress.request, fate).1 then Updated else Failed)
  {
    var s := w.sessions[pid];
    var (d', ok) := Transmit(w.directory, s.progress.request, fate);
    w' := AtProgress(w, pid, Finished(if ok then Updated else Failed)).(
            directory := d',
            log := if d' == w.directory then w.log else w.log + [EntryFor(s, w.tables.state[s.subject])]);
  }

  lemma LookupSees(a: Adapter, d: Directory, subjectID: string) returns (seen: Option<Seen>)
    requires DirectoryOk(d) && Found(a, d, subjectID).Some?
    ensures StillThere(d, seen) && Found(a, d, subjectID) == Some(Shown(seen))
  {
    if Found(a, d, subjectID).value.Some? {
      var id := FoundUser(a, d, subjectID);
      seen := Some(Seen(id, d.users[id]));
    } else {
      seen := None;
    }
  }

  /** And nothing else: an observation that ends the session, or an observation,
      a lookup and a send with no step of anyone in between, is a Converge with
      the outcome the session ends with. */
  lemma RunIsAConverge(w: World, pid: nat, s: Session, w1: World, w2: World, fate: Fate, w3: World)
    requires pid in w.sessions && w.sessions[pid] == s && TableOk(s.adapter.managed)
    requires Next(w, Observe(pid), w1) && Next(w1, Lookup(pid), w2) && Next(w2, Send(pid, fate), w3)
    ensures pid in w3.sessions && w3.sessions[pid].progress.Finished?
    ensures ConvergeStep(s.adapter, w.directory, s.desired, fate, w3.directory, w3.sessions[pid].progress.outcome)
  {
    var request := w2.sessions[pid].progress.request;
    assert !Satisfied(s.adapter, w.directory, s.desired);
    assert IsRequest(s.adapter, Found(s.adapter, w.directory, s.desired.subjectID).value, s.desired, Some(request));
  }

  lemma EndingObservationIsAConverge(w: World, pid: nat, s: Session, w1: World, fate: Fate)
    requires pid in w.sessions && w.sessions[pid] == s && TableOk(s.adapter.managed) && !fate.Unreachable?
    requires Next(w, Observe(pid), w1) && w1.sessions[pid].progress.Finished?
    ensures ConvergeStep(s.adapter, w.directory, s.desired, fate, w1.directory, w1.sessions[pid].progress.outcome)
  {
  }
}
