/**
 The journaled deployment (scripts/create2-deploy.ts) as a state machine: the journal and the chain outlive the
 process, which can stop between any two steps and be started again. Steps are numbered in deployment order.
 */
module DeployJournal {
  import opened Common

  const STEPS := 6
  /** The steps before this one deploy implementations, the others proxies. */
  const FIRST_PROXY := 3

  /** A record of the journal. Torn stands for a line that cannot be parsed: cut short, or two records on one line. */
  datatype Line =
    | PlanLine(plan: nat) | ResumeLine(plan: nat) | ExistingLine(step: nat)
    | Signed(step: nat) | Confirmed(step: nat) | Torn

  /** Where a run of the script stands. */
  datatype Pc =
    | Scanning(index: nat)
    | Opening
    | RecordingPlan
    | RecordingExisting(index: nat)
    | AtStep(index: nat)
    | RecordingSigned(index: nat)
    | Broadcasting(index: nat)
    | Waiting(index: nat)
    | RecordingConfirmed(index: nat)
    | Finished

  datatype Run = Run(plan: nat, resume: bool, confirmed: set<nat>, existing: set<nat>, pc: Pc)

  /**
   The records of the journal file, if there is one; whether its last line lacks its newline; the steps whose address
   has code; every step handed to the RPC, in order, over all runs; and the run in progress, if one is.
   */
  datatype State = State(journal: Option<seq<Line>>, cut: bool, code: set<nat>, sent: seq<nat>, run: Option<Run>)

  /** How far a write gets that a crash interrupts: part of the line, all but its newline, or all of it. */
  datatype Reach = PartOfLine | AllButNewline | WholeLine

  datatype Action =
    | Start(plan: nat, resume: bool)   // the arguments, and on --resume the journal, are read
    | Look                             // the code at one step's address is read
    | Open                             // the journal is created, or opened for append
    | Write                            // a line is written and synced
    | Proceed                          // a loop goes on to its next step
    | Broadcast                        // the signed transaction is handed to the RPC
    | Receipt                          // the receipt is good and the address has code
    | Stop                             // an error or a crash; nothing more is written
    | CrashWriting(reach: Reach)       // a crash inside a write
    | Land(steps: set<nat>)            // the chain: code appears at addresses, by whatever transaction

  function Lines(s: State): seq<Line> {
    if s.journal.None? then [] else s.journal.value
  }

  function ConfirmedIn(lines: seq<Line>): set<nat> {
    set i: nat | 0 <= i < |lines| && lines[i].Confirmed? :: lines[i].step
  }

  /** What --resume demands of the journal: it parses, its plan is this one, and every signed step was confirmed. */
  predicate Resumable(lines: seq<Line>, plan: nat) {
    && Torn !in lines
    && lines != [] && lines[0] == PlanLine(plan)
    && forall i :: 0 <= i < |lines| && lines[i].Signed? ==> Confirmed(lines[i].step) in lines
  }

  function Goto(s: State, run: Run, pc: Pc): State {
    s.(run := Some(run.(pc := pc)))
  }

  /** The line the run is about to write, and where it stands afterwards. */
  function Writing(run: Run): Option<(Line, Pc)> {
    match run.pc
    case RecordingPlan => Some((if run.resume then ResumeLine(run.plan) else PlanLine(run.plan), RecordingExisting(0)))
    case RecordingExisting(i) => if i < STEPS && i in run.existing
        then Some((ExistingLine(i), RecordingExisting(i + 1))) else None
    case RecordingSigned(i) => Some((Signed(i), Broadcasting(i)))
    case RecordingConfirmed(i) => Some((Confirmed(i), AtStep(i + 1)))
    case _ => None
  }

  /**
   What a write adds: behind a line without its newline the record lands on that line, which then cannot be parsed.
   */
  function Added(cut: bool, line: Line): seq<Line> {
    if cut then [Torn, line] else [line]
  }

  function Append(s: State, line: Line): State {
    s.(journal := Some(Lines(s) + Added(s.cut, line)), cut := false)
  }

  /** One step of the system; none where the action is not possible. */
  function Next(s: State, a: Action): Option<State> {
    match a
    case Start(plan, resume) => Begin(s, plan, resume)
    case Land(steps) => Some(s.(code := s.code + steps))
    case _ => if s.run.None? then None else Step(s, s.run.value, a)
  }

  function Begin(s: State, plan: nat, resume: bool): Option<State> {
    if s.run.Some? then None
    else if resume && (s.journal.None? || !Resumable(s.journal.value, plan)) then None
    else Some(s.(run := Some(Run(plan, resume, if resume then ConfirmedIn(Lines(s)) else {}, {}, Scanning(0)))))
  }

  /** One step of the run in progress. */
  function Step(s: State, run: Run, a: Action): Option<State> {
    match a
    case Stop => Some(s.(run := None))
    case Look => if run.pc.Scanning? then Scan(s, run, run.pc.index) else None
    case Open =>
      if !run.pc.Opening? || (s.journal.Some? && !run.resume) then None
      else Some(Goto(s.(journal := Some(Lines(s))), run, RecordingPlan))
    case Write =>
      if Writing(run).None? || s.journal.None? then None
      else Some(Goto(Append(s, Writing(run).value.0), run, Writing(run).value.1))
    case CrashWriting(reach) =>
      if Writing(run).None? || s.journal.None? then None
      else Some(Append(s, if reach.PartOfLine? then Torn
          else Writing(run).value.0).(cut := reach.AllButNewline?, run := None))
    case Proceed =>
      if run.pc.RecordingExisting? && Writing(run).None? then
        Some(Goto(s, run, if run.pc.index < STEPS then RecordingExisting(run.pc.index + 1) else AtStep(0)))
      else if run.pc.AtStep? then Some(Goto(s, run, Reaching(run, run.pc.index)))
      else None
    case Broadcast =>
      if !run.pc.Broadcasting? then None
      else Some(Goto(s.(sent := s.sent + [run.pc.index]), run, Waiting(run.pc.index)))
    case Receipt =>
      if !run.pc.Waiting? || run.pc.index !in s.code then None
      else Some(Goto(s, run, RecordingConfirmed(run.pc.index)))
    case _ => None
  }

  /** What the deployment loop does with a step it reaches: skip it, or sign it. */
  function Reaching(run: Run, i: nat): Pc {
    if i >= STEPS then Finished
    else if i in run.confirmed || i in run.existing then AtStep(i + 1)
    else RecordingSigned(i)
  }

  /**
   Look at one step's address: confirmed steps must have code, implementations with code are reused, proxies never.
   */
  function Scan(s: State, run: Run, i: nat): Option<State> {
    if i >= STEPS then Some(Goto(s, run, Opening))
    else if i in run.confirmed then if i !in s.code then None else Some(Goto(s, run, Scanning(i + 1)))
    else if i !in s.code then Some(Goto(s, run, Scanning(i + 1)))
    else if i >= FIRST_PROXY then None
    else Some(Goto(s, run.(existing := run.existing + {i}), Scanning(i + 1)))
  }

  /** States in which nothing has been done yet; code may already be anywhere. */
  ghost predicate Initially(s: State) {
    s.journal.None? && !s.cut && s.sent == [] && s.run.None?
  }

  /** A history: actions from a state, one after another. */
  ghost predicate Reaches(s: State, actions: seq<Action>, t: State)
    decreases |actions|
  {
    if actions == [] then s == t
    else Next(s, actions[0]).Some? && Reaches(Next(s, actions[0]).value, actions[1..], t)
  }

  lemma {:induction false} ReachesSnoc(s: State, actions: seq<Action>, t: State, a: Action)
    requires Reaches(s, actions, t) && Next(t, a).Some?
    ensures Reaches(s, actions + [a], Next(t, a).value)
    decreases |actions|
  {
    if actions == [] {
      assert [a][1..] == [];
    } else {
      ReachesSnoc(Next(s, actions[0]).value, actions[1..], t, a);
      assert (actions + [a])[1..] == actions[1..] + [a];
    }
  }

  /** Some history leads from one state to the other. */
  ghost predicate Arrives(s: State, t: State) {
    exists actions :: Reaches(s, actions, t)
  }

  lemma ArrivesNext(s: State, t: State, a: Action)
    requires Arrives(s, t) && Next(t, a).Some?
    ensures Arrives(s, Next(t, a).value)
  {
    var actions :| Reaches(s, actions, t);
    ReachesSnoc(s, actions, t, a);
  }

  lemma ArrivesHere(s: State)
    ensures Arrives(s, s)
  {
    assert Reaches(s, [], s);
  }

  lemma {:induction false} ReachesJoin(s: State, first: seq<Action>, t: State, then_: seq<Action>, u: State)
    requires Reaches(s, first, t) && Reaches(t, then_, u)
    ensures Reaches(s, first + then_, u)
    decreases |first|
  {
    if first == [] {
      assert first + then_ == then_;
    } else {
      ReachesJoin(Next(s, first[0]).value, first[1..], t, then_, u);
      assert (first + then_)[1..] == first[1..] + then_;
    }
  }

  ghost predicate Reachable(t: State) {
    exists s, actions :: Initially(s) && Reaches(s, actions, t)
  }

  // ---- the invariant

  /** How far the deployment loop has come: every step before this is taken care of. */
  ghost function Passed(pc: Pc): nat {
    match pc
    case AtStep(i) => i
    case RecordingSigned(i) => i
    case Broadcasting(i) => i
    case Waiting(i) => i
    case RecordingConfirmed(i) => i
    case Finished => STEPS
    case _ => 0
  }

  /** How many steps have been looked at. */
  ghost function Scanned(pc: Pc): nat {
    match pc
    case Scanning(i) => i
    case _ => STEPS
  }

  ghost predicate Ascending(sent: seq<nat>) {
    forall i, j :: 0 <= i < j < |sent| ==> sent[i] < sent[j]
  }

  /** Signed, and not confirmed in the journal. */
  ghost predicate Unconfirmed(s: State, j: nat) {
    Signed(j) in Lines(s) && Confirmed(j) !in Lines(s)
  }

  /** What the journal and the chain hold of everything sent so far. */
  ghost predicate Durable(s: State) {
    && Ascending(s.sent)
    && (forall m :: m in s.sent ==> Signed(m) in Lines(s) && m < STEPS)
    && (forall m, j :: m in s.sent && 0 <= j < m ==> j in s.code)
    && (forall m :: Confirmed(m) in Lines(s) ==> m in s.code && m in s.sent)
    && (forall i, j :: Unconfirmed(s, i) && Unconfirmed(s, j) ==> i == j)
  }

  /** Taken care of: confirmed by the journal, or already present when the run looked. */
  ghost predicate Settled(s: State, run: Run, j: nat) {
    j in run.existing || Confirmed(j) in Lines(s)
  }

  /** What the run has seen is so. */
  ghost predicate Seen(s: State, run: Run) {
    && (forall j :: j in run.confirmed ==> Confirmed(j) in Lines(s))
    && (forall j :: j in run.existing ==> j in s.code && j < FIRST_PROXY)
    && (forall m, j :: m in s.sent && 0 <= j < m && j < Scanned(run.pc) ==> Settled(s, run, j))
  }

  /** The steps the loop has passed are settled, and the one at hand is as far as its place in the loop says. */
  ghost predicate Progress(s: State, run: Run) {
    && (forall j :: 0 <= j < Passed(run.pc) ==> Settled(s, run, j))
    && Passed(run.pc) <= STEPS
    && match run.pc
       case RecordingSigned(i) => i < STEPS && !Settled(s, run, i)
       case Broadcasting(i) => i < STEPS && !Settled(s, run, i) && i !in s.sent && Signed(i) in Lines(s)
       case Waiting(i) => i < STEPS && i in s.sent
       case RecordingConfirmed(i) => i < STEPS && i in s.sent && i in s.code
       case _ => true
  }

  /** Whether the run holds the journal: it resumed it, or created it. */
  ghost predicate Holds(run: Run) {
    run.resume || !(run.pc.Scanning? || run.pc.Opening?)
  }

  ghost predicate AtHand(pc: Pc, j: nat) {
    (pc.Broadcasting? || pc.Waiting? || pc.RecordingConfirmed?) && pc.index == j
  }

  /** A run that holds the journal knows what it confirms, and nothing is unconfirmed but the step at hand. */
  ghost predicate Knows(s: State, run: Run) {
    && (forall j: nat :: Confirmed(j) in Lines(s) ==> j in run.confirmed || j < Passed(run.pc))
    && (forall j :: Unconfirmed(s, j) ==> AtHand(run.pc, j))
  }

  ghost predicate Invariant(s: State) {
    && Durable(s)
    && (s.run.Some? ==>
          && Seen(s, s.run.value) && Progress(s, s.run.value)
          && (Holds(s.run.value) ==> Knows(s, s.run.value)))
  }

  // ---- every action keeps it

  lemma StartKeeps(s: State, plan: nat, resume: bool)
    requires Invariant(s) && Next(s, Start(plan, resume)).Some?
    ensures Invariant(Next(s, Start(plan, resume)).value)
  {
    var t := Next(s, Start(plan, resume)).value;
    var lines := Lines(s);
    assert Lines(t) == lines;
    assert forall j :: Unconfirmed(t, j) <==> Unconfirmed(s, j);
    if resume {
      forall j: nat ensures Confirmed(j) in lines <==> j in t.run.value.confirmed {
        ConfirmedInIs(lines, j);
      }
      forall j ensures !Unconfirmed(s, j) { ResumableIs(s, plan, j); }
    }
  }

  lemma ConfirmedInIs(lines: seq<Line>, j: nat)
    ensures j in ConfirmedIn(lines) <==> Confirmed(j) in lines
  {
    if Confirmed(j) in lines {
      var i :| 0 <= i < |lines| && lines[i] == Confirmed(j);
      assert lines[i].step == j;
    }
  }

  /** A journal that can be resumed has nothing unconfirmed. */
  lemma ResumableIs(s: State, plan: nat, j: nat)
    requires Resumable(Lines(s), plan)
    ensures !Unconfirmed(s, j)
  {
    if Signed(j) in Lines(s) {
      var i :| 0 <= i < |Lines(s)| && Lines(s)[i] == Signed(j);
      assert Lines(s)[i].Signed?;
    }
  }

  lemma LandKeeps(s: State, steps: set<nat>)
    requires Invariant(s)
    ensures Invariant(Next(s, Land(steps)).value)
  {
    var t := Next(s, Land(steps)).value;
    assert forall j :: Unconfirmed(t, j) <==> Unconfirmed(s, j);
    if t.run.Some? {
      assert forall j :: Settled(t, t.run.value, j) <==> Settled(s, s.run.value, j);
    }
  }

  /** A step that was looked at and is before something sent is settled: it has code. */
  lemma LookSettles(s: State, m: nat)
    requires Invariant(s) && Next(s, Look).Some?
    requires var i := s.run.value.pc.index; i < STEPS && m in s.sent && i < m
    ensures var t := Next(s, Look).value;
            && t.run.Some? && Settled(t, t.run.value, s.run.value.pc.index)
  {
  }

  /** Looking at a step changes only the run: its place, and what it found present. */
  lemma LookChanges(s: State)
    requires Next(s, Look).Some?
    ensures var t := Next(s, Look).value;
            && t == s.(run := t.run) && t.run.Some? && s.run.Some? && s.run.value.pc.Scanning?
            && t.run.value.resume == s.run.value.resume && t.run.value.confirmed == s.run.value.confirmed
            && s.run.value.existing <= t.run.value.existing
            && (t.run.value.pc == Opening || t.run.value.pc == Scanning(s.run.value.pc.index + 1))
  {
  }

  lemma LookKeepsSeen(s: State)
    requires Invariant(s) && Next(s, Look).Some?
    ensures var t := Next(s, Look).value;
            t.run.Some? && Seen(t, t.run.value)
  {
    var t := Next(s, Look).value;
    var run, found := s.run.value, t.run.value;
    LookChanges(s);
    forall m, j: nat | m in t.sent && j < m && j < Scanned(found.pc) ensures Settled(t, found, j) {
      if j == run.pc.index { LookSettles(s, m); } else { assert Settled(s, run, j); }
    }
  }

  lemma LookKeeps(s: State)
    requires Invariant(s) && Next(s, Look).Some?
    ensures Invariant(Next(s, Look).value)
  {
    var t := Next(s, Look).value;
    LookChanges(s);
    assert forall j :: Unconfirmed(t, j) <==> Unconfirmed(s, j);
    LookKeepsSeen(s);
  }

  lemma OpenKeeps(s: State)
    requires Invariant(s) && Next(s, Open).Some?
    ensures Invariant(Next(s, Open).value)
  {
    var t := Next(s, Open).value;
    assert Lines(t) == Lines(s);
    assert forall j :: Unconfirmed(t, j) <==> Unconfirmed(s, j);
    assert forall j :: Settled(s, s.run.value, j) <==> Settled(t, t.run.value, j);
  }

  lemma ProceedKeeps(s: State)
    requires Invariant(s) && Next(s, Proceed).Some?
    ensures Invariant(Next(s, Proceed).value)
  {
    var t := Next(s, Proceed).value;
    assert forall j :: Unconfirmed(t, j) <==> Unconfirmed(s, j);
    assert forall j :: Settled(s, s.run.value, j) <==> Settled(t, t.run.value, j);
  }

  lemma BroadcastKeeps(s: State)
    requires Invariant(s) && Next(s, Broadcast).Some?
    ensures Invariant(Next(s, Broadcast).value)
  {
    var t := Next(s, Broadcast).value;
    var run, k := s.run.value, s.run.value.pc.index;
    assert forall j :: Unconfirmed(t, j) <==> Unconfirmed(s, j);
    assert forall j :: Settled(s, run, j) <==> Settled(t, t.run.value, j);
    forall i | 0 <= i < |s.sent| ensures s.sent[i] < k {
      assert s.sent[i] in s.sent;
      assert s.sent[i] > k ==> Settled(s, run, k);
    }
    assert Ascending(t.sent);
    forall j | 0 <= j < k ensures j in t.code && Settled(t, t.run.value, j) {
      assert Settled(s, run, j);
    }
  }

  lemma ReceiptKeeps(s: State)
    requires Invariant(s) && Next(s, Receipt).Some?
    ensures Invariant(Next(s, Receipt).value)
  {
    var t := Next(s, Receipt).value;
    assert forall j :: Unconfirmed(t, j) <==> Unconfirmed(s, j);
    assert forall j :: Settled(s, s.run.value, j) <==> Settled(t, t.run.value, j);
  }

  /** What a written line changes, for the facts the invariant is about. */
  lemma AppendEffects(s: State, line: Line, l: Line)
    requires l != Torn
    ensures l in Lines(Append(s, line)) <==> l in Lines(s) || l == line
  {
  }

  /** A line that is durable keeps what the journal promises, whether the run goes on or not. */
  lemma AppendKeepsDurable(s: State, line: Line)
    requires Invariant(s)
    requires line == Torn || (s.run.Some? && Writing(s.run.value).Some? && line == Writing(s.run.value).value.0)
    ensures Durable(Append(s, line))
  {
    var t := Append(s, line);
    forall l | l != Torn ensures l in Lines(t) <==> l in Lines(s) || l == line { AppendEffects(s, line, l); }
    forall i, j | Unconfirmed(t, i) && Unconfirmed(t, j) ensures i == j {
      assert line != Signed(i) ==> Unconfirmed(s, i);
      assert line != Signed(j) ==> Unconfirmed(s, j);
    }
  }

  /** A step about to be signed was never sent: else the journal would hold its line, unconfirmed. */
  lemma SigningIsNew(s: State)
    requires Invariant(s) && s.run.Some? && s.run.value.pc.RecordingSigned?
    ensures s.run.value.pc.index !in s.sent
  {
    var i := s.run.value.pc.index;
    assert i in s.sent ==> Unconfirmed(s, i);
  }

  /** What a written line changes: one more line, and the place in the loop. */
  lemma WriteEffects(s: State, line: Line, pc: Pc)
    requires s.run.Some? && s.journal.Some? && Writing(s.run.value) == Some((line, pc))
    ensures var t := Next(s, Write);
            && t == Some(Goto(Append(s, line), s.run.value, pc))
            && t.value.sent == s.sent && t.value.code == s.code && t.value.run == Some(s.run.value.(pc := pc))
            && forall l :: l != Torn ==> (l in Lines(t.value) <==> l in Lines(s) || l == line)
  {
    forall l | l != Torn ensures l in Lines(Append(s, line)) <==>
        l in Lines(s) || l == line { AppendEffects(s, line, l); }
  }

  lemma WriteKeepsSeen(s: State)
    requires Invariant(s) && Next(s, Write).Some?
    ensures var t := Next(s, Write).value;
            && t.run.Some? && Seen(t, t.run.value)
  {
    var t := Next(s, Write).value;
    WriteEffects(s, Writing(s.run.value).value.0, Writing(s.run.value).value.1);
    assert forall j :: Settled(s, s.run.value, j) ==> Settled(t, t.run.value, j);
  }

  lemma WriteKeepsProgress(s: State)
    requires Invariant(s) && Next(s, Write).Some?
    ensures var t := Next(s, Write).value;
            && t.run.Some? && Progress(t, t.run.value)
  {
    var t := Next(s, Write).value;
    if s.run.value.pc.RecordingSigned? { SigningIsNew(s); }
    WriteEffects(s, Writing(s.run.value).value.0, Writing(s.run.value).value.1);
    assert forall j :: Settled(s, s.run.value, j) ==> Settled(t, t.run.value, j);
  }

  lemma WriteKeepsKnows(s: State)
    requires Invariant(s) && Next(s, Write).Some?
    ensures var t := Next(s, Write).value;
            && t.run.Some? && (Holds(t.run.value) ==> Knows(t, t.run.value))
  {
    var t := Next(s, Write).value;
    var line := Writing(s.run.value).value.0;
    WriteEffects(s, line, Writing(s.run.value).value.1);
    assert forall j :: Unconfirmed(t, j) ==> Unconfirmed(s, j) || line == Signed(j);
  }

  lemma WriteKeeps(s: State)
    requires Invariant(s) && Next(s, Write).Some?
    ensures Invariant(Next(s, Write).value)
  {
    var line := Writing(s.run.value).value.0;
    var t := Next(s, Write).value;
    AppendKeepsDurable(s, line);
    assert Durable(t) by {
      assert forall j :: Unconfirmed(t, j) <==> Unconfirmed(Append(s, line), j);
    }
    WriteKeepsSeen(s);
    WriteKeepsProgress(s);
    WriteKeepsKnows(s);
  }

  lemma CrashKeeps(s: State, reach: Reach)
    requires Invariant(s) && Next(s, CrashWriting(reach)).Some?
    ensures Invariant(Next(s, CrashWriting(reach)).value)
  {
    var line := if reach.PartOfLine? then Torn else Writing(s.run.value).value.0;
    var t := Next(s, CrashWriting(reach)).value;
    AppendKeepsDurable(s, line);
    assert forall j :: Unconfirmed(t, j) <==> Unconfirmed(Append(s, line), j);
  }

  lemma NextKeeps(s: State, a: Action)
    requires Invariant(s) && Next(s, a).Some?
    ensures Invariant(Next(s, a).value)
  {
    match a
    case Start(plan, resume) => StartKeeps(s, plan, resume);
    case Look => LookKeeps(s);
    case Open => OpenKeeps(s);
    case Write => WriteKeeps(s);
    case Proceed => ProceedKeeps(s);
    case Broadcast => BroadcastKeeps(s);
    case Receipt => ReceiptKeeps(s);
    case Stop => assert forall j :: Unconfirmed(Next(s, a).value, j) <==> Unconfirmed(s, j);
    case CrashWriting(reach) => CrashKeeps(s, reach);
    case Land(steps) => LandKeeps(s, steps);
  }

  lemma {:induction false} ReachesKeeps(s: State, actions: seq<Action>, t: State)
    requires Invariant(s) && Reaches(s, actions, t)
    ensures Invariant(t)
    decreases |actions|
  {
    if actions != [] {
      NextKeeps(s, actions[0]);
      ReachesKeeps(Next(s, actions[0]).value, actions[1..], t);
    }
  }

  /** Every state of every history keeps the invariant. */
  lemma ReachableKeeps(t: State)
    requires Reachable(t)
    ensures Invariant(t)
  {
    var s, actions :| Initially(s) && Reaches(s, actions, t);
    assert forall j :: !Unconfirmed(s, j);
    ReachesKeeps(s, actions, t);
  }

  // ---- what the protocol promises

  /**
   Over every history of first runs, crashes and resumes: each step is broadcast at most once and in deployment order,
   each broadcast has its signed line in the journal, and at most one signed step is unconfirmed.
   */
  lemma SentOnceInOrder(t: State)
    requires Reachable(t)
    ensures Ascending(t.sent)
    ensures forall m :: m in t.sent ==> Signed(m) in Lines(t)
    ensures forall i, j :: Unconfirmed(t, i) && Unconfirmed(t, j) ==> i == j
  {
    ReachableKeeps(t);
  }

  /** At the moment of a broadcast its line is durable, it is the step's first, and every earlier step is there. */
  lemma BroadcastIsSafe(t: State)
    requires Reachable(t) && t.run.Some? && t.run.value.pc.Broadcasting?
    ensures var i := t.run.value.pc.index;
            && Signed(i) in Lines(t) && i !in t.sent && i < STEPS
            && forall j :: 0 <= j < i ==> j in t.code && (Confirmed(j) in Lines(t) || j in t.run.value.existing)
  {
    ReachableKeeps(t);
    forall j | 0 <= j < t.run.value.pc.index
        ensures j in t.code && (Confirmed(j) in Lines(t) || j in t.run.value.existing) {
      assert Settled(t, t.run.value, j);
    }
  }

  /**
   A finished run leaves code at every step, each confirmed by the journal or, for an implementation, present before.
   */
  lemma FinishedIsDeployed(t: State, j: nat)
    requires Reachable(t) && t.run.Some? && t.run.value.pc.Finished? && j < STEPS
    ensures j in t.code && (Confirmed(j) in Lines(t) || (j in t.run.value.existing && j < FIRST_PROXY))
  {
    ReachableKeeps(t);
    assert Settled(t, t.run.value, j);
  }

  /** No plan can resume the journal, and no run has got past opening it. */
  ghost predicate Blocked(s: State) {
    && s.journal.Some?
    && (forall plan: nat :: !Resumable(Lines(s), plan))
    && (s.run.Some? ==> !s.run.value.resume && (s.run.value.pc.Scanning? || s.run.value.pc.Opening?))
  }

  lemma BlockedStays(s: State, a: Action)
    requires Blocked(s) && Next(s, a).Some?
    ensures Blocked(Next(s, a).value) && Next(s, a).value.sent == s.sent
  {
    assert Lines(Next(s, a).value) == Lines(s);
  }

  /** Once no plan can resume the journal, no run, first or resumed, sends anything ever again. */
  lemma {:induction false} RefusedSendsNothing(s: State, actions: seq<Action>, t: State)
    requires Blocked(s) && Reaches(s, actions, t)
    ensures t.sent == s.sent
    decreases |actions|
  {
    if actions != [] {
      BlockedStays(s, actions[0]);
      RefusedSendsNothing(Next(s, actions[0]).value, actions[1..], t);
    }
  }

  lemma UnconfirmedIsRefused(s: State, plan: nat, j: nat)
    requires Unconfirmed(s, j)
    ensures !Resumable(Lines(s), plan)
  {
    var i :| 0 <= i < |Lines(s)| && Lines(s)[i] == Signed(j);
    assert Lines(s)[i].Signed?;
  }

  /** In particular, while a signed step is unconfirmed or a line is cut short, nothing is sent. */
  lemma UnconfirmedSendsNothing(s: State, j: nat, actions: seq<Action>, t: State)
    requires s.run.None? && s.journal.Some? && (Unconfirmed(s, j) || Torn in Lines(s)) && Reaches(s, actions, t)
    ensures t.sent == s.sent
  {
    forall plan: nat ensures !Resumable(Lines(s), plan) {
      if Unconfirmed(s, j) { UnconfirmedIsRefused(s, plan, j); }
    }
    RefusedSendsNothing(s, actions, t);
  }

  // ---- crashes inside a write

  predicate Records(a: Action) {
    a.Write? || a.CrashWriting?
  }

  /** A line has been cut short, or something was recorded behind a line that lost its newline. */
  ghost predicate Broken(cut: bool, actions: seq<Action>) {
    exists j :: 0 <= j < |actions| && BreaksAt(cut, actions, j)
  }

  ghost predicate BreaksAt(cut: bool, actions: seq<Action>, j: nat)
    requires j < |actions|
  {
    || actions[j] == CrashWriting(PartOfLine)
    || (Records(actions[j]) && (cut || CrashWriting(AllButNewline) in actions[..j]))
  }

  /** Whether the last line lacks its newline after an action. */
  function CutAfter(cut: bool, a: Action): bool {
    if Records(a) then a == CrashWriting(AllButNewline) else cut
  }

  lemma StepBreaks(s: State, a: Action)
    requires Next(s, a).Some?
    ensures var t := Next(s, a).value;
            && t.cut == CutAfter(s.cut, a)
            && (Torn in Lines(t) <==> Torn in Lines(s) || a == CrashWriting(PartOfLine) || (s.cut && Records(a)))
  {
    var t := Next(s, a).value;
    if Records(a) {
      assert Lines(t)[..|Lines(s)|] == Lines(s);
      if s.cut || a == CrashWriting(PartOfLine) { assert Lines(t)[|Lines(s)|] == Torn; }
    }
  }

  lemma BreaksLater(cut: bool, actions: seq<Action>, j: nat)
    requires 0 < j < |actions|
    ensures BreaksAt(cut, actions, j) ==>
              BreaksAt(CutAfter(cut, actions[0]), actions[1..], j - 1) || BreaksAt(cut, actions, 0)
    ensures BreaksAt(CutAfter(cut, actions[0]), actions[1..], j - 1) ==> BreaksAt(cut, actions, j)
  {
    assert actions[..j] == [actions[0]] + actions[1..][..j - 1];
  }

  lemma BrokenUnfolds(cut: bool, actions: seq<Action>)
    requires actions != []
    ensures Broken(cut, actions) <==>
            BreaksAt(cut, actions, 0) || Broken(CutAfter(cut, actions[0]), actions[1..])
  {
    var rest, next := actions[1..], CutAfter(cut, actions[0]);
    if Broken(cut, actions) {
      var j :| 0 <= j < |actions| && BreaksAt(cut, actions, j);
      if j > 0 {
        BreaksLater(cut, actions, j);
        if !BreaksAt(cut, actions, 0) { assert BreaksAt(next, rest, j - 1); }
      }
    }
    if Broken(next, rest) {
      var j :| 0 <= j < |rest| && BreaksAt(next, rest, j);
      BreaksLater(cut, actions, j + 1);
      assert BreaksAt(cut, actions, j + 1);
    }
  }

  /**
   Over every history the journal has a line that cannot be parsed exactly when it had one, a line was cut short, or
   something was recorded behind a line that lost its newline.
   */
  lemma {:induction false} TornIff(s: State, actions: seq<Action>, t: State)
    requires Reaches(s, actions, t)
    ensures Torn in Lines(t) <==> Torn in Lines(s) || Broken(s.cut, actions)
    decreases |actions|
  {
    if actions != [] {
      StepBreaks(s, actions[0]);
      BrokenUnfolds(s.cut, actions);
      TornIff(Next(s, actions[0]).value, actions[1..], t);
    }
  }

  lemma {:induction false} LinesGrow(s: State, actions: seq<Action>, t: State)
    requires Reaches(s, actions, t) && forall i :: 0 <= i < |actions| ==> !actions[i].CrashWriting?
    ensures Lines(s) <= Lines(t) && (Lines(t) != Lines(s) <==> Write in actions)
    decreases |actions|
  {
    if actions != [] {
      var next := Next(s, actions[0]).value;
      assert Lines(s) <= Lines(next) && (Lines(next) != Lines(s) <==> actions[0].Write?);
      LinesGrow(next, actions[1..], t);
      assert Write in actions <==> actions[0].Write? || Write in actions[1..];
    }
  }

  /**
   In runs that are not interrupted inside a write, a journal that could be parsed is spoiled exactly when its last line
   had lost its newline and anything was recorded; no plan can resume it then.
   */
  lemma LostNewlineSpoils(s: State, actions: seq<Action>, t: State, plan: nat)
    requires Torn !in Lines(s) && Reaches(s, actions, t)
    requires forall i :: 0 <= i < |actions| ==> !actions[i].CrashWriting?
    ensures Torn in Lines(t) <==> s.cut && Lines(t) != Lines(s)
    ensures s.cut && Lines(t) != Lines(s) ==> !Resumable(Lines(t), plan)
  {
    TornIff(s, actions, t);
    LinesGrow(s, actions, t);
    if s.cut && Write in actions {
      var j :| 0 <= j < |actions| && actions[j] == Write;
      assert BreaksAt(s.cut, actions, j);
    }
  }

  /** From a run that scans addresses without code, the looks lead to opening the journal. */
  lemma Looks(s: State, actions: seq<Action>, t: State) returns (more: seq<Action>, u: State)
    requires Reaches(s, actions, t) && t.code == {} && t.run.Some?
    requires t.run.value.pc == Scanning(0) && t.run.value.confirmed == {}
    ensures Reaches(s, actions + more, u) && u == Goto(t, t.run.value, Opening)
    ensures forall a :: a in more ==> a == Look
  {
    more, u := [], t;
    assert actions + [] == actions;
    for i := 0 to STEPS
      invariant Reaches(s, actions + more, u) && u == Goto(t, t.run.value, Scanning(i))
      invariant forall a :: a in more ==> a == Look
    {
      ReachesSnoc(s, actions + more, u, Look);
      assert actions + more + [Look] == actions + (more + [Look]);
      more, u := more + [Look], Next(u, Look).value;
    }
    ReachesSnoc(s, actions + more, u, Look);
    assert actions + more + [Look] == actions + (more + [Look]);
    more, u := more + [Look], Next(u, Look).value;
  }

  /** A run started where nothing is deployed gets to its first record. */
  lemma Starts(s: State, plan: nat, resume: bool) returns (actions: seq<Action>, t: State)
    requires s.run.None? && s.code == {} && ConfirmedIn(Lines(s)) == {}
    requires if resume then s.journal.Some? && Resumable(Lines(s), plan) else s.journal.None?
    ensures Reaches(s, actions, t) && forall a :: a in actions ==> !Records(a)
    ensures t == s.(journal := Some(Lines(s)), run := Some(Run(plan, resume, {}, {}, RecordingPlan)))
  {
    assert Reaches(s, [], s);
    ReachesSnoc(s, [], s, Start(plan, resume));
    var begun := Next(s, Start(plan, resume)).value;
    assert [] + [Start(plan, resume)] == [Start(plan, resume)];
    var more, u := Looks(s, [Start(plan, resume)], begun);
    ReachesSnoc(s, [Start(plan, resume)] + more, u, Open);
    actions, t := [Start(plan, resume)] + more + [Open], Next(u, Open).value;
  }

  /**
   It happens: the first run of any plan loses the newline of its first line, the journal can be resumed, and the
   resumed run, though nothing else goes wrong, leaves one that cannot be.
   */
  lemma LostNewlineHappens(plan: nat) returns (t: State, actions: seq<Action>, u: State)
    ensures Reachable(t) && t.cut && t.run.None? && Resumable(Lines(t), plan)
    ensures Reaches(t, actions, u) && forall i :: 0 <= i < |actions| ==> !actions[i].CrashWriting?
    ensures forall other: nat :: !Resumable(Lines(u), other)
  {
    var s := State(None, false, {}, [], None);
    var first, writing := Starts(s, plan, false);
    ReachesSnoc(s, first, writing, CrashWriting(AllButNewline));
    t := Next(writing, CrashWriting(AllButNewline)).value;
    assert Lines(t) == [PlanLine(plan)];
    assert Initially(s) && Reaches(s, first + [CrashWriting(AllButNewline)], t);
    var second, resumed := Starts(t, plan, true);
    ReachesSnoc(t, second, resumed, Write);
    actions, u := second + [Write], Next(resumed, Write).value;
    forall i | 0 <= i < |actions| ensures !actions[i].CrashWriting? {
      if i < |second| { assert actions[i] in second; }
    }
    forall other: nat ensures !Resumable(Lines(u), other) {
      assert Lines(u)[1] == Torn;
    }
  }

  /**
   After every history a plan can resume the journal exactly when no line was cut short, nothing was recorded behind a
   line that lost its newline, the first line is the plan's, and every signed step was confirmed.
   */
  lemma ResumeAccepted(s: State, actions: seq<Action>, t: State, plan: nat)
    requires Initially(s) && Reaches(s, actions, t) && t.run.None?
    ensures Next(t, Start(plan, true)).Some? <==>
            && !Broken(false, actions) && Lines(t) != [] && Lines(t)[0] == PlanLine(plan)
            && forall j :: !Unconfirmed(t, j)
  {
    var lines := Lines(t);
    TornIff(s, actions, t);
    if Next(t, Start(plan, true)).Some? {
      forall j ensures !Unconfirmed(t, j) { ResumableIs(t, plan, j); }
    }
    if forall j :: !Unconfirmed(t, j) {
      forall i | 0 <= i < |lines| && lines[i].Signed? ensures Confirmed(lines[i].step) in lines {
        assert !Unconfirmed(t, lines[i].step);
      }
    }
  }
}
