/**
 What a run of the deployment script does (scripts/create2-deploy.ts): which code it takes as it is, which it refuses,
 what it deploys, and what its journal says in the end. There are six steps, three implementations and three proxies.
 */
module DeployRun {
  import opened Common
  import opened DeployJournal

  // ---- what the scan finds

  /** The actions of one run: it is neither started nor ended. */
  ghost predicate WithinRun(actions: seq<Action>) {
    forall i :: 0 <= i < |actions| ==> !actions[i].Start? && !actions[i].Stop? && !actions[i].CrashWriting?
  }

  /** How many addresses a run has looked at. */
  ghost function Scanned(pc: Pc): nat {
    if pc.Scanning? then pc.index else 7
  }

  /**
   What a run knows of the code that was there when it began: implementations among the steps it has looked at are
   reused, confirmed steps have code, and no proxy that is not confirmed had any.
   */
  ghost predicate Noticed(was: set<nat>, s: State, confirmed: set<nat>) {
    && s.run.Some? && s.run.value.confirmed == confirmed && was <= s.code
    && (forall i: nat :: i < 6 && i < Scanned(s.run.value.pc) && i in was && i !in confirmed ==>
          i < 3 && i in s.run.value.existing)
    && (forall i: nat :: i < 6 && i < Scanned(s.run.value.pc) && i in confirmed ==> i in s.code)
    && (forall i :: i in s.run.value.existing ==> i < 3 && i in s.code && i !in confirmed)
    && forall i: nat :: Working(s.run.value.pc, i) ==> i < 6 && i !in confirmed && i !in s.run.value.existing
  }

  /** The run is at work on a step: it signs it, sends it or waits for it. */
  ghost predicate Working(pc: Pc, i: nat) {
    pc == RecordingSigned(i) || pc == Broadcasting(i) || pc == Waiting(i) || pc == RecordingConfirmed(i)
  }

  lemma StepNotices(was: set<nat>, s: State, confirmed: set<nat>, a: Action)
    requires Noticed(was, s, confirmed) && Next(s, a).Some? && !a.Start? && !a.Stop? && !a.CrashWriting?
    ensures Noticed(was, Next(s, a).value, confirmed)
  {
    if a.Look? {
      LookNotices(was, s, confirmed);
    } else {
      OthersNotice(was, s, confirmed, a);
    }
  }

  lemma LookNotices(was: set<nat>, s: State, confirmed: set<nat>)
    requires Noticed(was, s, confirmed) && Next(s, Look).Some?
    ensures Noticed(was, Next(s, Look).value, confirmed)
  {
  }

  lemma OthersNotice(was: set<nat>, s: State, confirmed: set<nat>, a: Action)
    requires Noticed(was, s, confirmed) && Next(s, a).Some?
    requires !a.Start? && !a.Stop? && !a.CrashWriting? && !a.Look?
    ensures Noticed(was, Next(s, a).value, confirmed)
  {
    var t := Next(s, a).value;
    forall i: nat | Working(t.run.value.pc, i) ensures i < 6 && i !in confirmed && i !in t.run.value.existing {
      assert a.Proceed? || Working(s.run.value.pc, i);
    }
  }

  lemma {:induction false} RunNotices(was: set<nat>, s: State, confirmed: set<nat>, actions: seq<Action>, t: State)
    requires Noticed(was, s, confirmed) && WithinRun(actions) && Reaches(s, actions, t)
    ensures Noticed(was, t, confirmed)
    decreases |actions|
  {
    if actions != [] {
      StepNotices(was, s, confirmed, actions[0]);
      RunNotices(was, Next(s, actions[0]).value, confirmed, actions[1..], t);
    }
  }

  /**
   A run deploys nothing that had code when it began, reuses exactly implementations that had, and gets past its scan
   only if every confirmed step has code and no other proxy had any.
   */
  lemma RunRespectsCode(s: State, plan: nat, resume: bool, actions: seq<Action>, t: State)
    requires Next(s, Start(plan, resume)).Some? && WithinRun(actions)
    requires Reaches(Next(s, Start(plan, resume)).value, actions, t)
    ensures t.run.Some?
    ensures var run, confirmed := t.run.value, if resume then ConfirmedIn(Lines(s)) else {};
            && (forall i: nat :: Working(run.pc, i) ==> i !in s.code && i !in confirmed)
            && (!run.pc.Scanning? ==>
                  && (forall i: nat :: i < 3 && i in s.code && i !in confirmed ==> i in run.existing)
                  && (forall i :: i in run.existing ==> i < 3 && i in t.code && i !in confirmed)
                  && (forall i: nat :: i < 6 && i in confirmed ==> i in t.code)
                  && forall i: nat :: 3 <= i < 6 && i in s.code ==> i in confirmed)
  {
    var begun := Next(s, Start(plan, resume)).value;
    assert Noticed(s.code, begun, begun.run.value.confirmed);
    RunNotices(s.code, begun, begun.run.value.confirmed, actions, t);
  }

  // ---- a first run that is not interrupted

  ghost function ExistingLines(code: set<nat>, i: nat, n: nat): seq<Line>
    decreases n - i
  {
    if i >= n then [] else (if i in code then [ExistingLine(i)] else []) + ExistingLines(code, i + 1, n)
  }

  /** A signed and a confirmed line for every step without code. */
  ghost function DeployedLines(code: set<nat>, i: nat, n: nat): seq<Line>
    decreases n - i
  {
    if i >= n then [] else (if i in code then [] else [Signed(i), Confirmed(i)]) + DeployedLines(code, i + 1, n)
  }

  ghost function Missing(code: set<nat>, i: nat, n: nat): seq<nat>
    decreases n - i
  {
    if i >= n then [] else (if i in code then [] else [i]) + Missing(code, i + 1, n)
  }

  /** The steps that had code by index i. */
  ghost function Seen(code: set<nat>, i: nat): set<nat> {
    set x | x in code && x < i
  }

  lemma ArrivesOn(s: State, t: State, a: Action, u: State)
    requires Arrives(s, t) && Next(t, a) == Some(u)
    ensures Arrives(s, u)
  {
    ArrivesNext(s, t, a);
  }

  lemma ArrivesThrough(s: State, t: State, u: State)
    requires Arrives(s, t) && Arrives(t, u)
    ensures Arrives(s, u)
  {
    var first :| Reaches(s, first, t);
    var then_ :| Reaches(t, then_, u);
    ReachesJoin(s, first, t, then_, u);
  }

  lemma ArrivesByOne(s: State, a: Action, t: State)
    requires Next(s, a) == Some(t)
    ensures Arrives(s, t)
  {
    ArrivesHere(s);
    ArrivesOn(s, s, a, t);
  }

  /** The state of a first run that stands at a place, with these lines. */
  ghost function At(s: State, plan: nat, existing: set<nat>, pc: Pc): State {
    s.(run := Some(Run(plan, false, {}, existing, pc)))
  }

  lemma LookOnce(s: State, plan: nat, i: nat)
    requires s.code <= {0, 1, 2} && i < 6
    ensures Arrives(At(s, plan, Seen(s.code, i), Scanning(i)), At(s, plan, Seen(s.code, i + 1), Scanning(i + 1)))
  {
    assert Seen(s.code, i + 1) == if i in s.code then Seen(s.code, i) + {i} else Seen(s.code, i);
    ArrivesByOne(At(s, plan, Seen(s.code, i), Scanning(i)), Look, At(s, plan, Seen(s.code, i + 1), Scanning(i + 1)));
  }

  lemma {:induction false} LookAll(s: State, plan: nat, i: nat)
    requires s.code <= {0, 1, 2} && i <= 6
    ensures Arrives(At(s, plan, Seen(s.code, i), Scanning(i)), At(s, plan, s.code, Opening))
    decreases 6 - i
  {
    var here := At(s, plan, Seen(s.code, i), Scanning(i));
    if i == 6 {
      assert Seen(s.code, 6) == s.code;
      ArrivesByOne(here, Look, At(s, plan, s.code, Opening));
    } else {
      LookOnce(s, plan, i);
      LookAll(s, plan, i + 1);
      ArrivesThrough(here, At(s, plan, Seen(s.code, i + 1), Scanning(i + 1)), At(s, plan, s.code, Opening));
    }
  }

  /** A state with a journal of these lines. */
  ghost function With(s: State, lines: seq<Line>): State {
    s.(journal := Some(lines), cut := false)
  }

  lemma RecordOne(s: State, plan: nat, existing: set<nat>, lines: seq<Line>, i: nat)
    requires i < 6
    ensures Arrives(At(With(s, lines), plan, existing, RecordingExisting(i)),
                  At(With(s, lines + if i in existing then [ExistingLine(i)] else []), plan, existing,
                     RecordingExisting(i + 1)))
  {
    assert lines + [] == lines;
    ArrivesByOne(At(With(s, lines), plan, existing, RecordingExisting(i)), if i in existing then Write else Proceed,
               At(With(s, lines + if i in existing then [ExistingLine(i)] else []), plan, existing,
                  RecordingExisting(i + 1)));
  }

  lemma {:induction false} RecordAll(s: State, plan: nat, existing: set<nat>, lines: seq<Line>, i: nat)
    requires i <= 6
    ensures Arrives(At(With(s, lines), plan, existing, RecordingExisting(i)),
                  At(With(s, lines + ExistingLines(existing, i, STEPS)), plan, existing, AtStep(0)))
    decreases 6 - i
  {
    var here := At(With(s, lines), plan, existing, RecordingExisting(i));
    if i == 6 {
      assert lines + [] == lines;
      ArrivesByOne(here, Proceed, At(With(s, lines), plan, existing, AtStep(0)));
    } else {
      var line := if i in existing then [ExistingLine(i)] else [];
      RecordOne(s, plan, existing, lines, i);
      RecordAll(s, plan, existing, lines + line, i + 1);
      Regroup(lines, line, [], ExistingLines(existing, i + 1, STEPS));
      ArrivesThrough(here, At(With(s, lines + line), plan, existing, RecordingExisting(i + 1)),
                   At(With(s, lines + ExistingLines(existing, i, STEPS)), plan, existing, AtStep(0)));
    }
  }

  /** A step without code is signed, sent, mined and confirmed, and one with code is passed over. */
  lemma DeployOne(s: State, plan: nat, existing: set<nat>, lines: seq<Line>, i: nat) returns (t: State)
    requires i < 6
    ensures Arrives(At(With(s, lines), plan, existing, AtStep(i)),
                  At(With(t, lines + if i in existing then [] else [Signed(i), Confirmed(i)]), plan, existing,
                     AtStep(i + 1)))
    ensures t.sent == s.sent + if i in existing then [] else [i]
  {
    var here := At(With(s, lines), plan, existing, AtStep(i));
    if i in existing {
      assert lines + [] == lines && s.sent + [] == s.sent;
      t := s;
      ArrivesByOne(here, Proceed, At(With(s, lines), plan, existing, AtStep(i + 1)));
    } else {
      t := s.(sent := s.sent + [i], code := s.code + {i});
      SendOne(s, plan, existing, lines, i);
      ConfirmOne(s.(sent := s.sent + [i]), plan, existing, lines + [Signed(i)], i);
      assert lines + [Signed(i)] + [Confirmed(i)] == lines + [Signed(i), Confirmed(i)];
      ArrivesThrough(here, At(With(s.(sent := s.sent + [i]), lines + [Signed(i)]), plan, existing, Waiting(i)),
                   At(With(t, lines + [Signed(i), Confirmed(i)]), plan, existing, AtStep(i + 1)));
    }
  }

  lemma SendOne(s: State, plan: nat, existing: set<nat>, lines: seq<Line>, i: nat)
    requires i < 6 && i !in existing
    ensures Arrives(At(With(s, lines), plan, existing, AtStep(i)),
                  At(With(s.(sent := s.sent + [i]), lines + [Signed(i)]), plan, existing, Waiting(i)))
  {
    var here := At(With(s, lines), plan, existing, AtStep(i));
    var signing := At(With(s, lines), plan, existing, RecordingSigned(i));
    var signed := At(With(s, lines + [Signed(i)]), plan, existing, Broadcasting(i));
    ArrivesByOne(here, Proceed, signing);
    ArrivesOn(here, signing, Write, signed);
    ArrivesOn(here, signed, Broadcast,
            At(With(s.(sent := s.sent + [i]), lines + [Signed(i)]), plan, existing, Waiting(i)));
  }

  lemma ConfirmOne(s: State, plan: nat, existing: set<nat>, lines: seq<Line>, i: nat)
    ensures Arrives(At(With(s, lines), plan, existing, Waiting(i)),
                  At(With(s.(code := s.code + {i}), lines + [Confirmed(i)]), plan, existing, AtStep(i + 1)))
  {
    var here, mined := At(With(s, lines), plan, existing, Waiting(i)), s.(code := s.code + {i});
    var landed := At(With(mined, lines), plan, existing, Waiting(i));
    var confirming := At(With(mined, lines), plan, existing, RecordingConfirmed(i));
    ArrivesByOne(here, Land({i}), landed);
    ArrivesOn(here, landed, Receipt, confirming);
    ArrivesOn(here, confirming, Write, At(With(mined, lines + [Confirmed(i)]), plan, existing, AtStep(i + 1)));
  }

  lemma {:induction false} DeployAll(s: State, plan: nat, existing: set<nat>, lines: seq<Line>, i: nat)
      returns (t: State)
    requires i <= 6
    ensures Arrives(At(With(s, lines), plan, existing, AtStep(i)), t)
    ensures t.run == Some(Run(plan, false, {}, existing, Finished))
    ensures t.journal == Some(lines + DeployedLines(existing, i, STEPS))
    ensures t.sent == s.sent + Missing(existing, i, STEPS)
    decreases 6 - i
  {
    var here := At(With(s, lines), plan, existing, AtStep(i));
    if i == 6 {
      assert lines + [] == lines && s.sent + [] == s.sent;
      t := At(With(s, lines), plan, existing, Finished);
      ArrivesByOne(here, Proceed, t);
    } else {
      var more, step := if i in existing then [] else [Signed(i), Confirmed(i)], if i in existing then [] else [i];
      var next := DeployOne(s, plan, existing, lines, i);
      t := DeployAll(next, plan, existing, lines + more, i + 1);
      Regroup(lines, more, [], DeployedLines(existing, i + 1, STEPS));
      Regroup(s.sent, step, [], Missing(existing, i + 1, STEPS));
      ArrivesThrough(here, At(With(next, lines + more), plan, existing, AtStep(i + 1)), t);
    }
  }

  lemma OpenOnce(s: State, plan: nat)
    requires Initially(s)
    ensures Arrives(At(s, plan, s.code, Opening), At(With(s, [PlanLine(plan)]), plan, s.code, RecordingExisting(0)))
  {
    var opening := At(s, plan, s.code, Opening);
    ArrivesByOne(opening, Open, At(With(s, []), plan, s.code, RecordingPlan));
    assert [] + [PlanLine(plan)] == [PlanLine(plan)];
    ArrivesOn(opening, At(With(s, []), plan, s.code, RecordingPlan), Write,
            At(With(s, [PlanLine(plan)]), plan, s.code, RecordingExisting(0)));
  }

  lemma BeginRun(s: State, plan: nat)
    requires Initially(s) && s.code <= {0, 1, 2}
    ensures Arrives(s, At(With(s, [PlanLine(plan)]), plan, s.code, RecordingExisting(0)))
  {
    assert Seen(s.code, 0) == {};
    ArrivesByOne(s, Start(plan, false), At(s, plan, {}, Scanning(0)));
    LookAll(s, plan, 0);
    ArrivesThrough(s, At(s, plan, {}, Scanning(0)), At(s, plan, s.code, Opening));
    OpenOnce(s, plan);
    ArrivesThrough(s, At(s, plan, s.code, Opening), At(With(s, [PlanLine(plan)]), plan, s.code, RecordingExisting(0)));
  }

  lemma RecordedRun(s: State, plan: nat)
    requires Initially(s) && s.code <= {0, 1, 2}
    ensures Arrives(s, At(With(s, [PlanLine(plan)] + ExistingLines(s.code, 0, STEPS)), plan, s.code, AtStep(0)))
  {
    BeginRun(s, plan);
    RecordAll(s, plan, s.code, [PlanLine(plan)], 0);
    ArrivesThrough(s, At(With(s, [PlanLine(plan)]), plan, s.code, RecordingExisting(0)),
                   At(With(s, [PlanLine(plan)] + ExistingLines(s.code, 0, STEPS)), plan, s.code, AtStep(0)));
  }

  lemma NothingFirst<T>(a: seq<T>)
    ensures [] + a == a
  {
  }

  lemma FinishRun(s: State, plan: nat, lines: seq<Line>) returns (t: State)
    requires s.sent == [] && Arrives(s, At(With(s, lines), plan, s.code, AtStep(0)))
    ensures Arrives(s, t) && t.run == Some(Run(plan, false, {}, s.code, Finished))
    ensures t.journal == Some(lines + DeployedLines(s.code, 0, STEPS)) && t.sent == Missing(s.code, 0, STEPS)
  {
    t := DeployAll(s, plan, s.code, lines, 0);
    NothingFirst(Missing(s.code, 0, STEPS));
    ArrivesThrough(s, At(With(s, lines), plan, s.code, AtStep(0)), t);
  }

  /**
   A first run that nothing interrupts, where at most implementations have code: it deploys the other steps in order,
   and its journal says its plan, the steps that were there, and of every other that it was signed and confirmed.
   */
  lemma FirstRun(s: State, plan: nat) returns (t: State)
    requires Initially(s) && s.code <= {0, 1, 2}
    ensures Arrives(s, t) && t.run == Some(Run(plan, false, {}, s.code, Finished))
    ensures t.sent == Missing(s.code, 0, STEPS)
    ensures t.journal == Some([PlanLine(plan)] + ExistingLines(s.code, 0, STEPS) + DeployedLines(s.code, 0, STEPS))
  {
    RecordedRun(s, plan);
    t := FinishRun(s, plan, [PlanLine(plan)] + ExistingLines(s.code, 0, STEPS));
  }
}
