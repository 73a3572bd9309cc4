/**
 `roundScheduleFromEvents` on the logs themselves (src/round.ts): logs of other events are dropped, the rest is put in
 chain order and replayed. The order in which the logs are given does not matter.
 */
module ScheduleLogs {
  import opened Common
  import opened BeaconSchedule

  /** What a log carries: another event, a beacon event, or a beacon topic over bytes that are not exactly one. */
  datatype Payload = Foreign | Noncanonical | Beaconed(event: Event)

  datatype Log = Log(address: nat, payload: Payload, block: int, index: int, time: int, removed: bool)

  /** The entry of a beacon log, or why the log is refused. */
  function Examine(coordinator: nat, log: Log): Result<Entry, Refusal> {
    if log.address != coordinator then Err(OtherAddress)
    else if log.removed then Err(RemovedLog)
    else if log.block < 0 || log.index < 0 || log.time < 0 then Err(InvalidPosition)
    else Ok(Entry(log.block, log.index, log.time, if log.payload.Beaconed? then Some(log.payload.event) else None))
  }

  /** The entries of the beacon logs in the order given; the first refused log refuses all. */
  function Collect(coordinator: nat, logs: seq<Log>): Result<seq<Entry>, Refusal> {
    if logs == [] then Ok([])
    else if logs[0].payload.Foreign? then Collect(coordinator, logs[1..])
    else
      match Examine(coordinator, logs[0])
      case Err(why) => Err(why)
      case Ok(e) =>
        match Collect(coordinator, logs[1..])
        case Err(why) => Err(why)
        case Ok(es) => Ok([e] + es)
  }

  // ---- chain order

  predicate Before(a: Entry, b: Entry) {
    a.block < b.block || (a.block == b.block && a.index < b.index)
  }

  /** The entries in chain order; entries of one position keep the order they came in. */
  function Sorted(es: seq<Entry>): (r: seq<Entry>)
    ensures multiset(r) == multiset(es)
    ensures |r| == |es|
  {
    if es == [] then []
    else
      assert es == [es[0]] + es[1..];
      Insert(es[0], Sorted(es[1..]))
  }

  function Insert(e: Entry, es: seq<Entry>): (r: seq<Entry>)
    ensures multiset(r) == multiset([e] + es)
    ensures |r| == |es| + 1
  {
    if es == [] || !Before(es[0], e) then [e] + es
    else
      assert es == [es[0]] + es[1..];
      [es[0]] + Insert(e, es[1..])
  }

  ghost predicate InOrder(es: seq<Entry>) {
    forall i, j :: 0 <= i < j < |es| ==> !Before(es[j], es[i])
  }

  /** No two entries have one position. */
  ghost predicate Unrepeated(es: seq<Entry>) {
    forall i, j :: 0 <= i < j < |es| ==> Before(es[i], es[j]) || Before(es[j], es[i])
  }

  lemma InOrderCons(e: Entry, es: seq<Entry>)
    requires InOrder(es) && forall j :: 0 <= j < |es| ==> !Before(es[j], e)
    ensures InOrder([e] + es)
  {
    var r := [e] + es;
    forall i, j | 0 <= i < j < |r| ensures !Before(r[j], r[i]) {
      assert r[j] == es[j - 1];
      if i > 0 { assert r[i] == es[i - 1]; }
    }
  }

  lemma Inserted(e: Entry, es: seq<Entry>, x: Entry)
    requires x in Insert(e, es)
    ensures x == e || x in es
  {
    assert x in multiset(Insert(e, es));
  }

  lemma {:induction false} InsertInOrder(e: Entry, es: seq<Entry>)
    requires InOrder(es)
    ensures InOrder(Insert(e, es))
  {
    if es == [] || !Before(es[0], e) {
      forall j | 0 <= j < |es| ensures !Before(es[j], e) {
        if j > 0 { assert !Before(es[j], es[0]); }
      }
      InOrderCons(e, es);
    } else {
      var rest := Insert(e, es[1..]);
      InsertInOrder(e, es[1..]);
      forall j | 0 <= j < |rest| ensures !Before(rest[j], es[0]) {
        Inserted(e, es[1..], rest[j]);
      }
      InOrderCons(es[0], rest);
    }
  }

  lemma {:induction false} SortedInOrder(es: seq<Entry>)
    ensures InOrder(Sorted(es))
  {
    if es != [] {
      SortedInOrder(es[1..]);
      InsertInOrder(es[0], Sorted(es[1..]));
    }
  }

  /** In chain order without a repeated position. */
  ghost predicate Strict(es: seq<Entry>) {
    forall i, j :: 0 <= i < j < |es| ==> Before(es[i], es[j])
  }

  lemma MultisetTail<T>(a: seq<T>)
    requires a != []
    ensures multiset(a) == multiset(a[1..]) + multiset{a[0]}
    ensures multiset(a[1..]) == multiset(a) - multiset{a[0]}
  {
    assert a == [a[0]] + a[1..];
  }

  lemma SameLength<T>(a: seq<T>, b: seq<T>)
    requires multiset(a) == multiset(b)
    ensures |a| == |b|
  {
    assert |multiset(a)| == |a| && |multiset(b)| == |b|;
  }

  /** Two lists in strict chain order with the same entries are the same list. */
  lemma {:induction false} OrderIsUnique(a: seq<Entry>, b: seq<Entry>)
    requires Strict(a) && Strict(b) && multiset(a) == multiset(b)
    ensures a == b
  {
    SameLength(a, b);
    if a != [] {
      FirstIsFirst(a, b);
      MultisetTail(a);
      MultisetTail(b);
      OrderIsUnique(a[1..], b[1..]);
      assert a == [a[0]] + a[1..] && b == [b[0]] + b[1..];
    }
  }

  lemma FirstIsFirst(a: seq<Entry>, b: seq<Entry>)
    requires Strict(a) && Strict(b) && multiset(a) == multiset(b) && a != [] && b != []
    ensures a[0] == b[0]
  {
    assert a[0] in multiset(b) && b[0] in multiset(a);
    var i :| 0 <= i < |b| && b[i] == a[0];
    var j :| 0 <= j < |a| && a[j] == b[0];
  }

  lemma UnrepeatedBySet(a: seq<Entry>, b: seq<Entry>)
    requires multiset(a) == multiset(b) && Unrepeated(a)
    ensures Unrepeated(b)
  {
    forall i, j | 0 <= i < j < |b| ensures Before(b[i], b[j]) || Before(b[j], b[i]) {
      assert b[i] in multiset(a) && b[j] in multiset(a);
      var k :| 0 <= k < |a| && a[k] == b[i];
      var m :| 0 <= m < |a| && a[m] == b[j];
      if b[i] == b[j] {
        DistinctCount(a, b[i]);
        RepeatCount(b, i, j);
      }
    }
  }

  lemma StrictBySet(a: seq<Entry>, b: seq<Entry>)
    requires multiset(a) == multiset(b) && Strict(a) && InOrder(b)
    ensures Strict(b)
  {
    UnrepeatedBySet(a, b);
  }

  /** The replay refuses a list in which a position is repeated: its entries stand next to each other. */
  lemma {:induction false} RepeatedIsRefused(identify: Registration -> nat, es: seq<Entry>)
    requires InOrder(es) && Fold(identify, es).Ok?
    ensures Strict(es)
  {
    if |es| > 1 {
      var n := |es| - 1;
      FoldStep(identify, es);
      RepeatedIsRefused(identify, es[..n]);
      assert Before(es[n - 1], es[n]);
      forall i | 0 <= i < n ensures Before(es[i], es[n]) {
        assert !Before(es[n - 1], es[i]);
      }
    }
  }

  // ---- collecting does not depend on the order

  function Relevant(logs: seq<Log>): (r: seq<Log>)
    ensures forall i :: 0 <= i < |r| ==> !r[i].payload.Foreign?
  {
    if logs == [] then []
    else (if logs[0].payload.Foreign? then [] else [logs[0]]) + Relevant(logs[1..])
  }

  lemma {:induction false} CollectIgnoresForeign(coordinator: nat, logs: seq<Log>)
    ensures Collect(coordinator, logs) == Collect(coordinator, Relevant(logs))
  {
    if logs != [] {
      CollectIgnoresForeign(coordinator, logs[1..]);
      if !logs[0].payload.Foreign? {
        assert Relevant(logs)[1..] == Relevant(logs[1..]);
      } else {
        assert Relevant(logs) == Relevant(logs[1..]);
      }
    }
  }

  ghost predicate AllExamined(coordinator: nat, logs: seq<Log>) {
    forall i :: 0 <= i < |logs| ==> !logs[i].payload.Foreign? && Examine(coordinator, logs[i]).Ok?
  }

  ghost function EntryOf(coordinator: nat, log: Log): Entry {
    if Examine(coordinator, log).Ok? then Examine(coordinator, log).value else Entry(0, 0, 0, None)
  }

  ghost function EntriesOf(coordinator: nat, logs: seq<Log>): (es: seq<Entry>)
    ensures |es| == |logs|
  {
    seq(|logs|, i requires 0 <= i < |logs| => EntryOf(coordinator, logs[i]))
  }

  lemma {:induction false} CollectSpec(coordinator: nat, logs: seq<Log>)
    requires forall i :: 0 <= i < |logs| ==> !logs[i].payload.Foreign?
    ensures Collect(coordinator, logs).Ok? <==> AllExamined(coordinator, logs)
    ensures Collect(coordinator, logs).Ok? ==> Collect(coordinator, logs).value == EntriesOf(coordinator, logs)
  {
    if logs != [] {
      CollectSpec(coordinator, logs[1..]);
      if AllExamined(coordinator, logs) {
        assert forall i :: 0 <= i < |logs[1..]| ==> logs[1..][i] == logs[i + 1];
      }
      if Examine(coordinator, logs[0]).Ok? && AllExamined(coordinator, logs[1..]) {
        forall i | 0 <= i < |logs| ensures !logs[i].payload.Foreign? && Examine(coordinator, logs[i]).Ok? {
          if i > 0 { assert logs[i] == logs[1..][i - 1]; }
        }
      }
    }
  }

  lemma {:induction false} EntriesBySet(coordinator: nat, a: seq<Log>, b: seq<Log>)
    requires multiset(a) == multiset(b)
    ensures multiset(EntriesOf(coordinator, a)) == multiset(EntriesOf(coordinator, b))
  {
    if a == [] {
      assert |multiset(b)| == |b| == 0;
    } else {
      assert a[0] in multiset(b);
      var k :| 0 <= k < |b| && b[k] == a[0];
      var rest := b[..k] + b[k + 1..];
      MultisetTail(a);
      RemoveAt(b, k);
      EntriesBySet(coordinator, a[1..], rest);
      var x := EntryOf(coordinator, a[0]);
      var ea, eb := EntriesOf(coordinator, a), EntriesOf(coordinator, b);
      assert ea[1..] == EntriesOf(coordinator, a[1..]);
      assert EntriesOf(coordinator, rest) == eb[..k] + eb[k + 1..];
      MultisetTail(ea);
      RemoveAt(eb, k);
      assert ea[0] == x && eb[k] == x;
    }
  }

  lemma RemoveAt<T>(b: seq<T>, k: nat)
    requires k < |b|
    ensures multiset(b) == multiset(b[..k] + b[k + 1..]) + multiset{b[k]}
    ensures multiset(b[..k] + b[k + 1..]) == multiset(b) - multiset{b[k]}
  {
    assert b == b[..k] + [b[k]] + b[k + 1..];
  }

  lemma {:induction false} RelevantBySet(a: seq<Log>, x: Log)
    ensures multiset(Relevant(a))[x] == if x.payload.Foreign? then 0 else multiset(a)[x]
  {
    if a != [] {
      RelevantBySet(a[1..], x);
      assert a == [a[0]] + a[1..];
    }
  }

  // ---- the schedule

  /** The schedule of a coordinator from its logs. */
  function ScheduleOf(identify: Registration -> nat, coordinator: nat, logs: seq<Log>): Result<Schedule, Refusal> {
    match Collect(coordinator, logs)
    case Err(why) => Err(why)
    case Ok(es) =>
      match Fold(identify, Sorted(es))
      case Err(why) => Err(why)
      case Ok(s) => if s.eras == [] then Err(NotInitialized) else Ok(s)
  }

  lemma FoldOfSameEntries(identify: Registration -> nat, a: seq<Entry>, b: seq<Entry>)
    requires multiset(a) == multiset(b) && Fold(identify, Sorted(a)).Ok?
    ensures Sorted(b) == Sorted(a)
  {
    SortedInOrder(a);
    SortedInOrder(b);
    RepeatedIsRefused(identify, Sorted(a));
    StrictBySet(Sorted(a), Sorted(b));
    OrderIsUnique(Sorted(a), Sorted(b));
  }

  /**
   The beacon logs decide: the same ones in any order, among any others, give the same schedule or are all refused.
   */
  lemma OrderDoesNotMatter(identify: Registration -> nat, coordinator: nat, a: seq<Log>, b: seq<Log>)
    requires multiset(Relevant(a)) == multiset(Relevant(b))
    ensures ScheduleOf(identify, coordinator, a).Ok? <==> ScheduleOf(identify, coordinator, b).Ok?
    ensures ScheduleOf(identify, coordinator, a).Ok? ==>
              ScheduleOf(identify, coordinator, a) == ScheduleOf(identify, coordinator, b)
  {
    SameIfAccepted(identify, coordinator, a, b);
    SameIfAccepted(identify, coordinator, b, a);
  }

  lemma ExaminedBySet(coordinator: nat, a: seq<Log>, b: seq<Log>)
    requires multiset(a) == multiset(b) && AllExamined(coordinator, a)
    ensures AllExamined(coordinator, b)
  {
    forall i | 0 <= i < |b| ensures !b[i].payload.Foreign? && Examine(coordinator, b[i]).Ok? {
      assert b[i] in multiset(a);
      var k :| 0 <= k < |a| && a[k] == b[i];
    }
  }

  lemma SameIfAccepted(identify: Registration -> nat, coordinator: nat, a: seq<Log>, b: seq<Log>)
    requires multiset(Relevant(a)) == multiset(Relevant(b))
    ensures ScheduleOf(identify, coordinator, a).Ok? ==>
              ScheduleOf(identify, coordinator, b) == ScheduleOf(identify, coordinator, a)
  {
    if ScheduleOf(identify, coordinator, a).Ok? {
      var ra, rb := Relevant(a), Relevant(b);
      CollectIgnoresForeign(coordinator, a);
      CollectIgnoresForeign(coordinator, b);
      CollectSpec(coordinator, ra);
      CollectSpec(coordinator, rb);
      ExaminedBySet(coordinator, ra, rb);
      EntriesBySet(coordinator, ra, rb);
      FoldOfSameEntries(identify, EntriesOf(coordinator, ra), EntriesOf(coordinator, rb));
    }
  }

  /** Any permutation of the logs, with or without logs of other events. */
  lemma PermutationsAgree(identify: Registration -> nat, coordinator: nat, a: seq<Log>, b: seq<Log>)
    requires multiset(a) == multiset(b)
    ensures ScheduleOf(identify, coordinator, a).Ok? <==> ScheduleOf(identify, coordinator, b).Ok?
    ensures ScheduleOf(identify, coordinator, a).Ok? ==>
              ScheduleOf(identify, coordinator, a) == ScheduleOf(identify, coordinator, b)
  {
    forall x: Log ensures multiset(Relevant(a))[x] == multiset(Relevant(b))[x] {
      RelevantBySet(a, x);
      RelevantBySet(b, x);
    }
    OrderDoesNotMatter(identify, coordinator, a, b);
  }

  // ---- which logs are accepted

  /** A log of a beacon event counts when it is the coordinator's, was not removed and has a position. */
  ghost predicate Counts(coordinator: nat, log: Log) {
    log.address == coordinator && !log.removed && log.block >= 0 && log.index >= 0 && log.time >= 0
  }

  /** The entry says of a log where it stands and which event it carries, if its bytes are one. */
  ghost predicate Says(e: Entry, log: Log) {
    && e.block == log.block && e.index == log.index && e.time == log.time
    && (log.payload.Beaconed? ==> e.event == Some(log.payload.event)) && (!log.payload.Beaconed? ==> e.event == None)
  }

  /** Entries by block and, within a block, by index, no position twice. */
  ghost predicate ByPosition(es: seq<Entry>) {
    forall i, j :: 0 <= i < j < |es| ==>
      es[i].block < es[j].block || (es[i].block == es[j].block && es[i].index < es[j].index)
  }

  /** The entries are those of the beacon logs, one for each, in an order of their own. */
  ghost predicate AreThose(es: seq<Entry>, logs: seq<Log>) {
    exists all: seq<Entry> ::
      && |all| == |Relevant(logs)| && (forall i :: 0 <= i < |all| ==> Says(all[i], Relevant(logs)[i]))
      && multiset(es) == multiset(all)
  }

  /** The relevant logs are those of beacon events, each as often as it is given. */
  lemma RelevantAre(logs: seq<Log>, log: Log)
    ensures multiset(Relevant(logs))[log] == if log.payload == Foreign then 0 else multiset(logs)[log]
  {
    RelevantBySet(logs, log);
  }

  lemma CollectedSay(coordinator: nat, logs: seq<Log>)
    ensures Collect(coordinator, logs).Ok? <==>
            forall i :: 0 <= i < |Relevant(logs)| ==> Counts(coordinator, Relevant(logs)[i])
    ensures Collect(coordinator, logs).Ok? ==>
              && |Collect(coordinator, logs).value| == |Relevant(logs)|
              && forall i :: 0 <= i < |Relevant(logs)| ==> Says(Collect(coordinator, logs).value[i], Relevant(logs)[i])
  {
    var relevant := Relevant(logs);
    CollectIgnoresForeign(coordinator, logs);
    CollectSpec(coordinator, relevant);
    forall i | 0 <= i < |relevant| ensures Examine(coordinator, relevant[i]).Ok? <==> Counts(coordinator, relevant[i]) {
    }
  }

  /**
   The logs are accepted exactly when every beacon log counts and their entries, by position and none twice, replay; the
   schedule is what they replay to.
   */
  lemma LogsDecide(identify: Registration -> nat, coordinator: nat, logs: seq<Log>)
    ensures ScheduleOf(identify, coordinator, logs).Ok? <==>
            && (forall i :: 0 <= i < |Relevant(logs)| ==> Counts(coordinator, Relevant(logs)[i]))
            && exists es :: ByPosition(es) && AreThose(es, logs) && Accepted(identify, es)
    ensures forall es :: ScheduleOf(identify, coordinator, logs).Ok? && ByPosition(es) && AreThose(es, logs) ==>
              Fold(identify, es) == Ok(ScheduleOf(identify, coordinator, logs).value)
  {
    CollectedSay(coordinator, logs);
    if Collect(coordinator, logs).Ok? {
      var all := Collect(coordinator, logs).value;
      forall es | ByPosition(es) && AreThose(es, logs) ensures Sorted(all) == es {
        SortedByPosition(coordinator, logs, es);
      }
      if ScheduleOf(identify, coordinator, logs).Ok? {
        SortedInOrder(all);
        RepeatedIsRefused(identify, Sorted(all));
        assert ByPosition(Sorted(all)) && AreThose(Sorted(all), logs) && Accepted(identify, Sorted(all));
      }
    }
  }

  lemma SameSaying(a: seq<Entry>, b: seq<Entry>, logs: seq<Log>)
    requires |a| == |b| == |logs|
    requires forall i :: 0 <= i < |logs| ==> Says(a[i], logs[i]) && Says(b[i], logs[i])
    ensures a == b
  {
  }

  lemma SortedByPosition(coordinator: nat, logs: seq<Log>, es: seq<Entry>)
    requires Collect(coordinator, logs).Ok? && ByPosition(es) && AreThose(es, logs)
    ensures Sorted(Collect(coordinator, logs).value) == es
  {
    var collected := Collect(coordinator, logs).value;
    CollectedSay(coordinator, logs);
    var all: seq<Entry> :| && |all| == |Relevant(logs)|
                           && (forall i :: 0 <= i < |all| ==> Says(all[i], Relevant(logs)[i]))
                           && multiset(es) == multiset(all);
    SameSaying(all, collected, Relevant(logs));
    assert Strict(es);
    SortedInOrder(collected);
    StrictBySet(es, Sorted(collected));
    OrderIsUnique(es, Sorted(collected));
  }

  // ---- later logs

  lemma {:induction false} CollectAppend(coordinator: nat, a: seq<Log>, b: seq<Log>)
    requires Collect(coordinator, a).Ok?
    ensures Collect(coordinator, a + b)
         == match Collect(coordinator, b)
            case Err(why) => Err(why)
            case Ok(es) => Ok(Collect(coordinator, a).value + es)
  {
    if a == [] {
      assert a + b == b;
      if Collect(coordinator, b).Ok? { assert [] + Collect(coordinator, b).value == Collect(coordinator, b).value; }
    } else {
      CollectAppend(coordinator, a[1..], b);
      assert (a + b)[1..] == a[1..] + b;
      if Collect(coordinator, b).Ok? && !a[0].payload.Foreign? {
        var e := Examine(coordinator, a[0]).value;
        var rest := Collect(coordinator, a[1..]).value;
        assert [e] + (rest + Collect(coordinator, b).value) == ([e] + rest) + Collect(coordinator, b).value;
      }
    }
  }

  ghost predicate AllBefore(a: seq<Entry>, b: seq<Entry>) {
    forall i, j :: 0 <= i < |a| && 0 <= j < |b| ==> Before(a[i], b[j])
  }

  lemma SortedKeepsBefore(a: seq<Entry>, b: seq<Entry>)
    requires AllBefore(a, b)
    ensures AllBefore(Sorted(a), Sorted(b))
  {
    var sa, sb := Sorted(a), Sorted(b);
    forall i, j | 0 <= i < |sa| && 0 <= j < |sb| ensures Before(sa[i], sb[j]) {
      assert sa[i] in multiset(a) && sb[j] in multiset(b);
      var k :| 0 <= k < |a| && a[k] == sa[i];
      var m :| 0 <= m < |b| && b[m] == sb[j];
    }
  }

  /** Entries that all lie behind the others in the chain sort behind them. */
  lemma SortedSplits(identify: Registration -> nat, a: seq<Entry>, b: seq<Entry>)
    requires AllBefore(a, b) && Fold(identify, Sorted(a + b)).Ok?
    ensures Sorted(a + b) == Sorted(a) + Sorted(b)
  {
    SortedInOrder(a + b);
    SortedInOrder(a);
    SortedInOrder(b);
    SortedKeepsBefore(a, b);
    RepeatedIsRefused(identify, Sorted(a + b));
    JoinedInOrder(Sorted(a), Sorted(b));
    assert multiset(a + b) == multiset(a) + multiset(b);
    StrictBySet(Sorted(a + b), Sorted(a) + Sorted(b));
    OrderIsUnique(Sorted(a + b), Sorted(a) + Sorted(b));
  }

  lemma JoinedInOrder(a: seq<Entry>, b: seq<Entry>)
    requires InOrder(a) && InOrder(b) && AllBefore(a, b)
    ensures InOrder(a + b)
  {
    forall i, j | 0 <= i < j < |a + b| ensures !Before((a + b)[j], (a + b)[i]) {
      if i < |a| <= j { assert Before(a[i], b[j - |a|]); }
    }
  }

  /**
   History is immutable on logs too: logs that lie behind the known ones in the chain never change what a timestamp
   up to theirs binds.
   */
  lemma LaterLogsKeepHistory(identify: Registration -> nat, coordinator: nat, logs: seq<Log>, more: seq<Log>, t: int)
    requires ScheduleOf(identify, coordinator, logs).Ok? && ScheduleOf(identify, coordinator, logs + more).Ok?
    requires Collect(coordinator, more).Ok?
    requires AllBefore(Collect(coordinator, logs).value, Collect(coordinator, more).value)
    requires forall e :: e in Collect(coordinator, more).value ==> t <= e.time
    ensures var before := ScheduleOf(identify, coordinator, logs).value;
            var after := ScheduleOf(identify, coordinator, logs + more).value;
            && BeaconAt(before, t) < |before.beacons| && BeaconAt(after, t) == BeaconAt(before, t) < |after.beacons|
            && RoundAt(after, t) == RoundAt(before, t)
  {
    var es := Collect(coordinator, logs).value;
    var ms := Collect(coordinator, more).value;
    CollectAppend(coordinator, logs, more);
    SortedSplits(identify, es, ms);
    RoundAtDefined(identify, Sorted(es), t);
    if ms == [] {
      assert Sorted(es) + Sorted(ms) == Sorted(es);
    } else {
      assert Sorted(ms)[0] in multiset(ms);
      HistoryImmutable(identify, Sorted(es), Sorted(ms), t);
    }
  }

  // ---- the code

  /** `roundScheduleFromEvents`: the replay loop over the ordered logs. */
  method RoundScheduleFromEvents(identify: Registration -> nat, coordinator: nat, logs: seq<Log>)
    returns (r: Result<Schedule, Refusal>)
    ensures r == ScheduleOf(identify, coordinator, logs)
  {
    var collected := Collect(coordinator, logs);
    if collected.Err? { return Err(collected.error); }
    var ordered := Sorted(collected.value);
    var beacons: seq<Beacon>, eras: seq<Era>, pending: Option<Era> := [], [], None;
    for at := 0 to |ordered|
      invariant Fold(identify, ordered[..at]) == Ok(Schedule(beacons, eras, pending))
    {
      var e := ordered[at];
      LoopStep(identify, ordered, at);
      if at > 0 {
        var previous := ordered[at - 1];
        if previous.block == e.block && previous.index == e.index { return Err(Repeated); }
        if previous.block == e.block {
          if previous.time != e.time { return Err(TimeGoesBack); }
        } else if previous.time > e.time { return Err(TimeGoesBack); }
      }
      if e.event.None? { return Err(InvalidEvent); }
      var event := e.event.value;
      if event.Registered? {
        if !ValidRegistration(identify, beacons, event) { return Err(InvalidRegistration); }
        beacons := beacons + [Beacon(event.registration, event.identity)];
        continue;
      }
      if event.beaconId >= |beacons| { return Err(UnregisteredBeacon); }
      if event.Scheduled? {
        if |eras| == 0 {
          if event.beaconId != 0 || event.fromTime != e.time { return Err(InvalidFirstSchedule); }
          eras := [Era(event.beaconId, event.fromTime)];
          continue;
        }
        if event.fromTime < e.time + MIN_SCHEDULE_LEAD || event.fromTime > MAX_UINT40 { return Err(InvalidSchedule); }
        if pending.Some? && e.time >= pending.value.since { eras := eras + [pending.value]; }
        pending := Some(Era(event.beaconId, event.fromTime));
        continue;
      }
      if pending.None? || pending.value.beaconId != event.beaconId || pending.value.since != event.fromTime
         || e.time >= event.fromTime { return Err(InvalidCancellation); }
      pending := None;
    }
    assert ordered[..|ordered|] == ordered;
    if |eras| == 0 { return Err(NotInitialized); }
    return Ok(Schedule(beacons, eras, pending));
  }

  /** One pass of the loop decides the replay of one more entry; a refusal there refuses the whole. */
  lemma LoopStep(identify: Registration -> nat, es: seq<Entry>, at: nat)
    requires at < |es| && Fold(identify, es[..at]).Ok?
    ensures var s := Fold(identify, es[..at]).value;
            var previous := if at == 0 then None else Some(es[at - 1]);
            && Fold(identify, es[..at + 1]) == Advance(identify, s, previous, es[at])
            && (Advance(identify, s, previous, es[at]).Err? ==>
                  Fold(identify, es) == Err(Advance(identify, s, previous, es[at]).error))
  {
    assert es[..at + 1][..at] == es[..at];
    if Fold(identify, es[..at + 1]).Err? { RefusalStays(identify, es, at + 1); }
  }

  lemma {:induction false} RefusalStays(identify: Registration -> nat, es: seq<Entry>, n: nat)
    requires n <= |es| && Fold(identify, es[..n]).Err?
    ensures Fold(identify, es) == Err(Fold(identify, es[..n]).error)
  {
    if n == |es| {
      assert es[..n] == es;
    } else {
      var init := es[..|es| - 1];
      assert init[..n] == es[..n];
      RefusalStays(identify, init, n);
    }
  }

  /** `roundAt`: the loop that scans the eras from the last. */
  method FindBeacon(s: Schedule, t: int) returns (id: uint8)
    requires s.eras != []
    ensures id == BeaconAt(s, t)
  {
    var era := |s.eras| - 1;
    assert s.eras[..era + 1] == s.eras;
    while era > 0 && t < s.eras[era].since
      invariant 0 <= era < |s.eras|
      invariant LatestBegun(s.eras, t) == LatestBegun(s.eras[..era + 1], t)
    {
      assert s.eras[..era + 1][..era] == s.eras[..era];
      era := era - 1;
    }
    id := if s.pending.Some? && t >= s.pending.value.since then s.pending.value.beaconId else s.eras[era].beaconId;
  }
}
