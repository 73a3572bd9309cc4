/**
 The journaled section of the deployment script as the loops it is (scripts/create2-deploy.ts), against a world that
 decides at every awaited call what has landed on chain and whether the process goes on. Whatever the world does, a
 run of the script is a history of the state machine of DeployJournal, so what holds of every history holds of it.
 */
module DeployScript {
  import opened Common
  import opened DeployJournal

  const FIRST := 0

  /** How an awaited call ends: it returns, or the process ends before it, inside it or right after it. */
  datatype Fate = Returns | EndsBefore | EndsInside(reach: Reach)

  /**
   What waiting for a transaction gives: no good receipt in time, a good one that deployed nothing, or the contract.
   */
  datatype Outcome = NotGood | GoodButEmpty | Deployed

  /** What the world does at one awaited call. */
  datatype Moment = Moment(lands: set<nat>, fate: Fate, receipt: Outcome)

  /** A world in which every call returns, every transaction deploys and nobody else deploys anything. */
  ghost predicate Smooth(world: nat -> Moment) {
    forall n :: world(n) == Moment({}, Returns, Deployed)
  }

  /** What the scan demands of the chain. */
  ghost predicate ScanPasses(confirmed: set<nat>, code: set<nat>) {
    forall i :: 0 <= i < STEPS ==> if i in confirmed then i in code else i in code ==> i < FIRST_PROXY
  }

  /** The steps before `upto` that are present but not confirmed. */
  ghost function Present(confirmed: set<nat>, code: set<nat>, upto: nat): set<nat> {
    set i: nat | 0 <= i < upto && i !in confirmed && i in code
  }

  /** The steps from `from` on that are neither confirmed nor present, in deployment order. */
  ghost function ToDeploy(confirmed: set<nat>, existing: set<nat>, from: nat): seq<nat>
    decreases STEPS - from
  {
    if from >= STEPS then []
    else Due(confirmed, existing, from) + ToDeploy(confirmed, existing, from + 1)
  }

  ghost function Due(confirmed: set<nat>, existing: set<nat>, i: nat): seq<nat> {
    if i in confirmed || i in existing then [] else [i]
  }

  lemma ToDeployFrom(before: seq<nat>, confirmed: set<nat>, existing: set<nat>, i: nat)
    requires i < STEPS
    ensures before + ToDeploy(confirmed, existing, i)
            == before + Due(confirmed, existing, i) + ToDeploy(confirmed, existing, i + 1)
  {
  }

  lemma ReachableOn(s: State, t: State)
    requires Reachable(s) && Arrives(s, t)
    ensures Reachable(t)
  {
    var initial, before :| Initially(initial) && Reaches(initial, before, s);
    var actions :| Reaches(s, actions, t);
    ReachesJoin(initial, before, s, actions, t);
  }

  /** Reading the journal back: the confirmed steps of a journal that may be resumed, and none otherwise. */
  method ReadJournal(lines: seq<Line>, plan: nat) returns (confirmed: Option<set<nat>>)
    ensures confirmed.Some? <==> Resumable(lines, plan)
    ensures confirmed.Some? ==> confirmed.value == ConfirmedIn(lines)
  {
    var names: set<nat> := {};
    for k := 0 to |lines|
      invariant Torn !in lines[..k]
      invariant names == ConfirmedIn(lines[..k])
    {
      if lines[k] == Torn { return None; }
      ConfirmedInSnoc(lines, k);
      if lines[k].Confirmed? { names := names + {lines[k].step}; }
    }
    assert lines[..|lines|] == lines;
    if lines == [] || lines[0] != PlanLine(plan) { return None; }
    for k := 0 to |lines|
      invariant forall i :: 0 <= i < k && lines[i].Signed? ==> Confirmed(lines[i].step) in lines
    {
      if lines[k].Signed? {
        ConfirmedInIs(lines, lines[k].step);
        if lines[k].step !in names { return None; }
      }
    }
    return Some(names);
  }

  lemma ConfirmedInSnoc(lines: seq<Line>, k: nat)
    requires k < |lines|
    ensures ConfirmedIn(lines[..k + 1]) == ConfirmedIn(lines[..k])
            + (if lines[k].Confirmed? then {lines[k].step} else {})
  {
    forall j: nat ensures j in ConfirmedIn(lines[..k + 1]) <==>
        j in ConfirmedIn(lines[..k]) || lines[k] == Confirmed(j) {
      ConfirmedInIs(lines[..k + 1], j);
      ConfirmedInIs(lines[..k], j);
      assert lines[..k + 1] == lines[..k] + [lines[k]];
    }
  }

  /** A first run needs that there is no journal, a resumed one that its journal may be resumed. */
  ghost predicate MayOpen(journal: Option<seq<Line>>, plan: nat, resume: bool) {
    if resume then journal.Some? && Resumable(journal.value, plan) else journal.None?
  }

  /** The steps a run takes as confirmed. */
  ghost function Known(journal: Option<seq<Line>>, resume: bool): set<nat> {
    if resume && journal.Some? then ConfirmedIn(journal.value) else {}
  }

  /** What a write leaves in the file. */
  function Written(cut: bool, line: Line, fate: Fate): seq<Line> {
    match fate
    case Returns => Added(cut, line)
    case EndsBefore => []
    case EndsInside(reach) => Added(cut, if reach.PartOfLine? then Torn else line)
  }

  /** The journal file, the chain and what was handed to the RPC. */
  class Deployment {
    var journal: Option<seq<Line>>
    var cut: bool
    var code: set<nat>
    var sent: seq<nat>

    constructor (deployed: set<nat>)
      ensures Reachable(Here(None))
    {
      journal, cut, code, sent := None, false, deployed, [];
      new;
      assert Initially(Here(None));
      assert Reaches(Here(None), [], Here(None));
    }

    ghost function Here(run: Option<Run>): State
      reads this
    {
      State(journal, cut, code, sent, run)
    }

    /** Let the chain move on, and learn whether the awaited call returns. */
    method Await(moment: Moment, ghost start: State, ghost run: Run) returns (on: bool)
      requires Arrives(start, Here(Some(run)))
      modifies this`code
      ensures code == old(code) + moment.lands && on == moment.fate.Returns?
      ensures Arrives(start, Here(if on then Some(run) else None))
    {
      ArrivesNext(start, Here(Some(run)), Land(moment.lands));
      code := code + moment.lands;
      on := moment.fate.Returns?;
      if !on { ArrivesNext(start, Here(Some(run)), Stop); }
    }

    /** Write one line and sync it. */
    method Record(line: Line, moment: Moment, ghost start: State, ghost run: Run) returns (on: bool)
      requires journal.Some? && Writing(run).Some? && Writing(run).value.0 == line
      requires Arrives(start, Here(Some(run)))
      modifies this`journal, this`cut, this`code
      ensures on == moment.fate.Returns?
      ensures journal == Some(old(journal).value + Written(old(cut), line, moment.fate))
      ensures cut == match moment.fate
                     case Returns => false
                     case EndsBefore => old(cut)
                     case EndsInside(reach) => reach.AllButNewline?
      ensures code == old(code) + moment.lands
      ensures Arrives(start, Here(if on then Some(run.(pc := Writing(run).value.1)) else None))
    {
      ArrivesNext(start, Here(Some(run)), Land(moment.lands));
      code := code + moment.lands;
      on := moment.fate.Returns?;
      ghost var before := Here(Some(run));
      match moment.fate
      case Returns =>
        ArrivesNext(start, before, Write);
        journal, cut := Some(journal.value + Added(cut, line)), false;
      case EndsBefore =>
        assert journal.value + [] == journal.value;
        ArrivesNext(start, before, Stop);
      case EndsInside(reach) =>
        ArrivesNext(start, before, CrashWriting(reach));
        journal, cut := Some(journal.value + Added(cut, if reach.PartOfLine? then Torn else line)),
            reach.AllButNewline?;
    }

    /** Look for code at every step's address: none at a confirmed step, or some at a proxy's, ends the run. */
    method ScanCode(plan: nat, resume: bool, confirmed: set<nat>, world: nat -> Moment, clock: nat, ghost start: State)
        returns (existing: Option<set<nat>>, now: nat)
      requires Arrives(start, Here(Some(Run(plan, resume, confirmed, {}, Scanning(0)))))
      modifies this`code
      ensures existing.Some? ==> Arrives(start, Here(Some(Run(plan, resume, confirmed, existing.value, Opening))))
      ensures existing.None? ==> Arrives(start, Here(None))
      ensures Smooth(world) ==> code == old(code) && (existing.Some? <==> ScanPasses(confirmed, code))
      ensures Smooth(world) && existing.Some? ==> existing.value == Present(confirmed, code, STEPS)
    {
      var found: set<nat> := {};
      now := clock;
      for i := 0 to STEPS
        invariant Arrives(start, Here(Some(Run(plan, resume, confirmed, found, Scanning(i)))))
        invariant Smooth(world) ==> code == old(code) && found == Present(confirmed, code, i)
        invariant Smooth(world) ==> forall j :: 0 <= j < i ==> if j in confirmed then j in code else j in code ==>
                  j < FIRST_PROXY
      {
        ghost var run := Run(plan, resume, confirmed, found, Scanning(i));
        var on := Await(world(now), start, run);
        now := now + 1;
        if !on { return None, now; }
        var refused := if i in confirmed then i !in code else i in code && i >= FIRST_PROXY;
        if refused {
          ArrivesNext(start, Here(Some(run)), Stop);
          return None, now;
        }
        ArrivesNext(start, Here(Some(run)), Look);
        if i !in confirmed && i in code { found := found + {i}; }
      }
      ArrivesNext(start, Here(Some(Run(plan, resume, confirmed, found, Scanning(STEPS)))), Look);
      existing := Some(found);
    }

    /** Write a line for every step found present. */
    method RecordExisting(plan: nat, resume: bool, confirmed: set<nat>, existing: set<nat>, world: nat -> Moment,
        clock: nat, ghost start: State)
        returns (on: bool, now: nat)
      requires journal.Some? && Arrives(start, Here(Some(Run(plan, resume, confirmed, existing, RecordingExisting(0)))))
      modifies this`journal, this`cut, this`code
      ensures journal.Some?
      ensures Arrives(start, Here(if on then Some(Run(plan, resume, confirmed, existing, AtStep(0))) else None))
      ensures Smooth(world) ==> on && code == old(code)
    {
      now := clock;
      for i := 0 to STEPS
        invariant journal.Some? && Arrives(start,
                  Here(Some(Run(plan, resume, confirmed, existing, RecordingExisting(i)))))
        invariant Smooth(world) ==> code == old(code)
      {
        ghost var run := Run(plan, resume, confirmed, existing, RecordingExisting(i));
        if i in existing {
          on := Record(ExistingLine(i), world(now), start, run);
          now := now + 1;
          if !on { return; }
        } else {
          ArrivesNext(start, Here(Some(run)), Proceed);
        }
      }
      ArrivesNext(start, Here(Some(Run(plan, resume, confirmed, existing, RecordingExisting(STEPS)))), Proceed);
      on := true;
    }

    /** Sign a step and record that before anything is sent. */
    method Sign(plan: nat, resume: bool, confirmed: set<nat>, existing: set<nat>, i: nat, world: nat -> Moment,
        clock: nat, ghost start: State)
        returns (on: bool)
      requires journal.Some? && i < STEPS && i !in confirmed && i !in existing
      requires Arrives(start, Here(Some(Run(plan, resume, confirmed, existing, AtStep(i)))))
      modifies this`journal, this`cut, this`code
      ensures journal.Some?
      ensures Arrives(start, Here(if on then Some(Run(plan, resume, confirmed, existing, Broadcasting(i))) else None))
      ensures Smooth(world) ==> on
    {
      ghost var run := Run(plan, resume, confirmed, existing, AtStep(i));
      on := Await(world(clock), start, run);
      if !on { return; }
      ArrivesNext(start, Here(Some(run)), Proceed);
      on := Record(Signed(i), world(clock + 1), start, run.(pc := RecordingSigned(i)));
    }

    /** Wait for a transaction: go on only with a good receipt and code at the address. */
    method AwaitReceipt(i: nat, moment: Moment, ghost start: State, ghost run: Run) returns (on: bool)
      requires run.pc == Waiting(i) && Arrives(start, Here(Some(run)))
      modifies this`code
      ensures moment.fate.Returns? && moment.receipt.Deployed? ==> on
      ensures on ==> !moment.receipt.NotGood? && i in code
      ensures Arrives(start, Here(if on then Some(run.(pc := RecordingConfirmed(i))) else None))
    {
      on := Await(moment, start, run);
      if !on { return; }
      if moment.receipt.Deployed? {
        ArrivesNext(start, Here(Some(run)), Land({i}));
        code := code + {i};
      }
      on := !moment.receipt.NotGood? && i in code;
      ArrivesNext(start, Here(Some(run)), if on then Receipt else Stop);
    }

    /** Broadcast a signed step, wait for its receipt and code, and record the confirmation. */
    method Send(plan: nat, resume: bool, confirmed: set<nat>, existing: set<nat>, i: nat, world: nat -> Moment,
        clock: nat, ghost start: State)
        returns (on: bool)
      requires journal.Some? && Arrives(start, Here(Some(Run(plan, resume, confirmed, existing, Broadcasting(i)))))
      modifies this
      ensures journal.Some? && sent == old(sent) + [i]
      ensures Arrives(start, Here(if on then Some(Run(plan, resume, confirmed, existing, AtStep(i + 1))) else None))
      ensures Smooth(world) ==> on
    {
      ArrivesNext(start, Here(Some(Run(plan, resume, confirmed, existing, Broadcasting(i)))), Broadcast);
      sent := sent + [i];
      ghost var run := Run(plan, resume, confirmed, existing, Waiting(i));
      on := AwaitReceipt(i, world(clock), start, run);
      if !on { return; }
      on := Record(Confirmed(i), world(clock + 1), start, run.(pc := RecordingConfirmed(i)));
    }

    /** One step of the loop: skip it, or sign and send it. */
    method DeployStep(plan: nat, resume: bool, confirmed: set<nat>, existing: set<nat>, i: nat, world: nat -> Moment,
        clock: nat, ghost start: State)
        returns (on: bool)
      requires journal.Some? && i < STEPS
      requires Arrives(start, Here(Some(Run(plan, resume, confirmed, existing, AtStep(i)))))
      modifies this
      ensures journal.Some?
      ensures Arrives(start, Here(if on then Some(Run(plan, resume, confirmed, existing, AtStep(i + 1))) else None))
      ensures Smooth(world) ==> on
      ensures if on then sent == old(sent) + Due(confirmed, existing, i)
              else old(sent) <= sent <= old(sent) + Due(confirmed, existing, i)
    {
      if i in confirmed || i in existing {
        ArrivesNext(start, Here(Some(Run(plan, resume, confirmed, existing, AtStep(i)))), Proceed);
        on := true;
      } else {
        on := Sign(plan, resume, confirmed, existing, i, world, clock, start);
        if on {
          on := Send(plan, resume, confirmed, existing, i, world, clock + 2, start);
        }
      }
    }

    /** The deployment loop over all steps. */
    method DeploySteps(plan: nat, resume: bool, confirmed: set<nat>, existing: set<nat>, world: nat -> Moment,
        clock: nat, ghost start: State)
        returns (on: bool)
      requires journal.Some? && Arrives(start, Here(Some(Run(plan, resume, confirmed, existing, AtStep(FIRST)))))
      modifies this
      ensures Arrives(start, Here(if on then Some(Run(plan, resume, confirmed, existing, Finished)) else None))
      ensures Smooth(world) ==> on
      ensures if on then sent == old(sent) + ToDeploy(confirmed, existing, FIRST)
              else old(sent) <= sent <= old(sent) + ToDeploy(confirmed, existing, FIRST)
    {
      ghost var todo := ToDeploy(confirmed, existing, FIRST);
      for i := FIRST to STEPS
        invariant journal.Some? && Arrives(start, Here(Some(Run(plan, resume, confirmed, existing, AtStep(i)))))
        invariant old(sent) + todo == sent + ToDeploy(confirmed, existing, i) && old(sent) <= sent
      {
        ghost var before := sent;
        on := DeployStep(plan, resume, confirmed, existing, i, world, clock + 4 * i, start);
        ToDeployFrom(before, confirmed, existing, i);
        if !on { return; }
      }
      ArrivesNext(start, Here(Some(Run(plan, resume, confirmed, existing, AtStep(STEPS)))), Proceed);
      on := true;
    }

    /** Read the journal on --resume, scan, open, and write the plan and the steps found present. */
    method Prepare(plan: nat, resume: bool, world: nat -> Moment)
        returns (ready: Option<(set<nat>, set<nat>)>, now: nat)
      modifies this`journal, this`cut, this`code
      ensures ready.Some? ==> journal.Some?
      ensures !MayOpen(old(journal), plan, resume) ==> ready.None? && journal == old(journal)
      ensures ready.Some? ==> ready.value.0 == Known(old(journal), resume)
      ensures Smooth(world) ==> code == old(code)
      ensures Smooth(world) ==>
                (ready.Some? <==> MayOpen(old(journal), plan, resume) && ScanPasses(Known(old(journal), resume), code))
      ensures Smooth(world) && ready.Some? ==> ready.value.1 == Present(ready.value.0, code, STEPS)
      ensures Arrives(old(Here(None)), Here(if ready.None? then None
                                            else Some(Run(plan, resume, ready.value.0, ready.value.1, AtStep(0)))))
    {
      ghost var start := Here(None);
      ArrivesHere(start);
      now := 0;
      var confirmed: set<nat> := {};
      if resume {
        if journal.None? { return None, now; }
        var read := ReadJournal(journal.value, plan);
        if read.None? { return None, now; }
        confirmed := read.value;
      }
      ArrivesNext(start, Here(None), Start(plan, resume));
      var existing;
      existing, now := ScanCode(plan, resume, confirmed, world, now, start);
      if existing.None? { return None, now; }
      ghost var run := Run(plan, resume, confirmed, existing.value, Opening);
      if journal.Some? && !resume {
        ArrivesNext(start, Here(Some(run)), Stop);
        return None, now;
      }
      ArrivesNext(start, Here(Some(run)), Open);
      if journal.None? { journal := Some([]); }
      run := run.(pc := RecordingPlan);
      var on := Record(if resume then ResumeLine(plan) else PlanLine(plan), world(now), start, run);
      now := now + 1;
      if !on { return None, now; }
      on, now := RecordExisting(plan, resume, confirmed, existing.value, world, now, start);
      if !on { return None, now; }
      ready := Some((confirmed, existing.value));
    }

    /**
     One run of the script, first or resumed. From a state some earlier runs led to it leads to another such state, so
     all that was ever broadcast stays in deployment order without repeats; a run that finishes has deployed every step.
     */
    method Deploy(plan: nat, resume: bool, world: nat -> Moment) returns (done: bool)
      requires Reachable(Here(None))
      modifies this
      ensures Reachable(Here(None)) && Ascending(sent)
      ensures forall m :: m in sent ==> Signed(m) in Lines(Here(None))
      ensures !MayOpen(old(journal), plan, resume) ==> !done && sent == old(sent) && journal == old(journal)
      ensures done ==> forall j :: 0 <= j < STEPS ==> j in code
      ensures Smooth(world) ==> (done <==>
              MayOpen(old(journal), plan, resume) && ScanPasses(Known(old(journal), resume), old(code)))
      ensures Smooth(world) && done ==>
                sent == old(sent) + ToDeploy(Known(old(journal), resume),
                    Present(Known(old(journal), resume), old(code), STEPS), FIRST)
    {
      ghost var start := Here(None);
      var ready, now := Prepare(plan, resume, world);
      if ready.None? {
        ReachableOn(start, Here(None));
        SentOnceInOrder(Here(None));
        return false;
      }
      done := DeploySteps(plan, resume, ready.value.0, ready.value.1, world, now, start);
      ghost var run := Run(plan, resume, ready.value.0, ready.value.1, Finished);
      if done {
        ReachableOn(start, Here(Some(run)));
        forall j: nat | j < STEPS ensures j in code { FinishedIsDeployed(Here(Some(run)), j); }
        ArrivesNext(start, Here(Some(run)), Stop);
      }
      ReachableOn(start, Here(None));
      SentOnceInOrder(Here(None));
    }
  }
}
