/**
 From the contract to the answers of the verifier: the logs a run of the contract emitted, fetched in any order and
 mixed with logs of other events, give `roundScheduleFromEvents` (src/round.ts) the schedule the contract holds.
 */
module BeaconBookLogs {
  import opened Common
  import opened BeaconSchedule
  import opened ScheduleLogs
  import opened BeaconBook

  /** The log of an entry that carries an event. */
  ghost function LogOf(coordinator: nat, e: Entry): Log
    requires e.event.Some?
  {
    Log(coordinator, Beaconed(e.event.value), e.block, e.index, e.time, false)
  }

  ghost predicate Carrying(es: seq<Entry>) {
    forall i :: 0 <= i < |es| ==> es[i].event.Some?
  }

  ghost function LogsOf(coordinator: nat, es: seq<Entry>): seq<Log>
    requires Carrying(es)
  {
    if es == [] then [] else [LogOf(coordinator, es[0])] + LogsOf(coordinator, es[1..])
  }

  lemma {:induction false} LogsAreCollected(coordinator: nat, es: seq<Entry>)
    requires Carrying(es)
    ensures Collect(coordinator, LogsOf(coordinator, es)) == Ok(es)
    ensures Relevant(LogsOf(coordinator, es)) == LogsOf(coordinator, es)
  {
    if es != [] {
      LogsAreCollected(coordinator, es[1..]);
      var logs := LogsOf(coordinator, es);
      assert logs[1..] == LogsOf(coordinator, es[1..]);
      assert Examine(coordinator, logs[0]) == Ok(es[0]);
      assert es == [es[0]] + es[1..];
    }
  }

  /** Entries in chain order are their own sorting. */
  lemma {:induction false} SortedOfStrict(es: seq<Entry>)
    requires Strict(es)
    ensures Sorted(es) == es
  {
    if es != [] {
      SortedOfStrict(es[1..]);
      assert es == [es[0]] + es[1..];
    }
  }

  /** A run emits its logs in chain order, each with its event. */
  lemma {:induction false} EmittedInOrder(identify: Registration -> nat, start: Start, txs: seq<Tx>)
    requires ValidStart(start) && ChainOrder(start, txs)
    ensures Strict(Emitted(identify, start, txs)) && Carrying(Emitted(identify, start, txs))
  {
    if txs != [] {
      var n := |txs| - 1;
      ChainOrderInit(start, txs);
      EmittedInOrder(identify, start, txs[..n]);
      var es := Emitted(identify, start, txs[..n]);
      var all := Emitted(identify, start, txs);
      if |all| > |es| {
        forall k | 0 <= k < |es| ensures Before(es[k], all[|es|]) { EmittedBefore(identify, start, txs, k, all[|es|]); }
      }
    }
  }

  lemma EmittedBefore(identify: Registration -> nat, start: Start, txs: seq<Tx>, k: nat, e: Entry)
    requires ValidStart(start) && ChainOrder(start, txs) && txs != []
    requires k < |Emitted(identify, start, txs[..|txs| - 1])|
    requires e.block == txs[|txs| - 1].block && e.index == txs[|txs| - 1].index
    ensures Before(Emitted(identify, start, txs[..|txs| - 1])[k], e)
  {
    var n := |txs| - 1;
    EmittedWhere(identify, start, txs[..n], k);
    assert forall i :: 0 <= i < n ==> txs[..n][i] == txs[i];
  }

  /** Logs as a node returns them: those of the run in some order, and any of other events. */
  ghost predicate FetchedFrom(identify: Registration -> nat, start: Start, txs: seq<Tx>, coordinator: nat,
      logs: seq<Log>)
    requires ValidStart(start)
  {
    var es := Emitted(identify, start, txs);
    Carrying(es) && multiset(Relevant(logs)) == multiset(LogsOf(coordinator, es))
  }

  /**
   Whatever order the run's logs come in and whatever else comes with them, the schedule is the contract's storage.
   */
  lemma LogsGiveStorage(identify: Registration -> nat, start: Start, txs: seq<Tx>, coordinator: nat, logs: seq<Log>)
    requires ValidStart(start) && ChainOrder(start, txs)
    requires FetchedFrom(identify, start, txs, coordinator, logs)
    ensures ScheduleOf(identify, coordinator, logs) == Ok(Replayed(identify, BookAfter(identify, start, txs)))
  {
    var es := Emitted(identify, start, txs);
    EmittedInOrder(identify, start, txs);
    LogsAreCollected(coordinator, es);
    SortedOfStrict(es);
    ReplayIsStorage(identify, start, txs);
    assert Replayed(identify, BookAfter(identify, start, txs)).eras != [];
    OrderDoesNotMatter(identify, coordinator, LogsOf(coordinator, es), logs);
  }

  /**
   So the round assigned to a request is the round replayed from logs fetched at any later time, if it is a uint64.
   */
  lemma AssignedRoundFromLogs(identify: Registration -> nat, start: Start, txs: seq<Tx>, n: nat, now: nat,
      coordinator: nat, logs: seq<Log>)
    requires ValidStart(start) && ChainOrder(start, txs) && n <= |txs|
    requires RunTime(start, txs[..n]) <= now <= MAX_UINT64
    requires forall i :: n <= i < |txs| ==> now <= txs[i].time
    requires FetchedFrom(identify, start, txs, coordinator, logs)
    ensures var b := BookAfter(identify, start, txs[..n]);
            && (if Due?(b, now) then b.next else b.current).period > 0
            && ScheduleOf(identify, coordinator, logs).Ok?
            && var s := ScheduleOf(identify, coordinator, logs).value;
               && s.eras != [] && BeaconAt(s, now) < |s.beacons| && RoundAt(s, now).Some?
               && AssignedRound(b, now).0 == RoundAt(s, now).value.beaconId
               && (AssignedRound(b, now).1 == RoundAt(s, now).value.round <==>
                  RoundAt(s, now).value.round <= MAX_UINT64)
  {
    LogsGiveStorage(identify, start, txs, coordinator, logs);
    AssignedRoundReplays(identify, start, txs, n, now);
  }
}
