/**
 The contract whose events are replayed (contracts/robinhood/BeaconBook.sol): its storage, its calls and the events
 they emit. Every run of the contract is replayed by src/round.ts to the same schedule, and a request's round, which
 the contract assigns from one storage slot, is what the replay of the whole log says later.
 */
module BeaconBook {
  import opened Common
  import opened Arithmetic
  import opened Rounds
  import opened BeaconSchedule

  const MAX_BEACONS := 256

  /** An era as stored: the beacon in force and the genesis and period its rounds are assigned by. */
  datatype Slot = Slot(beaconId: uint8, since: uint64, genesis: nat, period: nat)

  const NO_SLOT := Slot(0, 0, 0, 0)

  /** The storage; `next` is a change that takes effect at its time, none when that time is zero. */
  datatype Book = Book(beacons: seq<Registration>, current: Slot, next: Slot, past: seq<Slot>)

  /** An owner's call. `vouched` is what the contract asks of other contracts: the verifier's code and its answers. */
  datatype Call =
    | Register(registration: Registration, vouched: bool)
    | ScheduleBeacon(beaconId: uint8, fromTime: uint64)
    | CancelSchedule

  predicate Registrable(identify: Registration -> nat, beacons: seq<Registration>, r: Registration, vouched: bool) {
    && |beacons| < MAX_BEACONS && r.chainHash != 0
    && 1 <= r.genesis <= MAX_UINT40 && 1 <= r.period <= MAX_BEACON_PERIOD && vouched
    && forall i :: 0 <= i < |beacons| ==> identify(beacons[i]) != identify(r)
  }

  /** Whether a change is waiting whose time has come. */
  predicate Due?(b: Book, time: int) {
    b.next.since != 0 && time >= b.next.since
  }

  /** A call in a block with this time: the storage after it and the event it emits, or nothing when it reverts. */
  function Execute(identify: Registration -> nat, b: Book, time: nat, call: Call): Option<(Book, Event)> {
    match call
    case Register(r, vouched) =>
      if !Registrable(identify, b.beacons, r, vouched) then None
      else Some((b.(beacons := b.beacons + [r]), Registered(|b.beacons|, identify(r), r)))
    case ScheduleBeacon(id, fromTime) =>
      if id >= |b.beacons| || fromTime < time + MIN_SCHEDULE_LEAD || fromTime > MAX_UINT40 then None
      else
        var r := b.beacons[id];
        var settled := if Due?(b, time) then b.(past := b.past + [b.current], current := b.next) else b;
        Some((settled.(next := Slot(id, fromTime, r.genesis, r.period)), Scheduled(id, fromTime)))
    case CancelSchedule =>
      if b.next.since == 0 || time >= b.next.since then None
      else Some((b.(next := NO_SLOT), Cancelled(b.next.beaconId, b.next.since)))
  }

  /** Initialization: the first beacon, in force from that block. */
  function Initial(r: Registration, time: uint64): Book {
    Book([r], Slot(0, time, r.genesis, r.period), NO_SLOT, [])
  }

  // ---- the contract's queries

  function PastAt(past: seq<Slot>, t: int): Slot
    requires past != []
  {
    var n := |past| - 1;
    if n == 0 || t >= past[n].since then past[n] else PastAt(past[..n], t)
  }

  function SlotAt(b: Book, t: int): Slot {
    if Due?(b, t) then b.next
    else if t >= b.current.since || b.past == [] then b.current
    else PastAt(b.past, t)
  }

  /** `_round`: the first round due the lead after a time, cut to 64 bits without a check. */
  function StoredRound(s: Slot, t: int): int
    requires s.period > 0
  {
    FirstRound(s.genesis, s.period, t + ROUND_LEAD) % (MAX_UINT64 + 1)
  }

  /** `roundAt` of the contract. */
  function BookRoundAt(b: Book, t: int): (int, int)
    requires SlotAt(b, t).period > 0
  {
    (SlotAt(b, t).beaconId, StoredRound(SlotAt(b, t), t))
  }

  /** `_assignRound`: what a request in a block with this timestamp is bound to, from the schedule slot alone. */
  function AssignedRound(b: Book, now: int): (int, int)
    requires (if Due?(b, now) then b.next else b.current).period > 0
  {
    var s := if Due?(b, now) then b.next else b.current;
    (s.beaconId, StoredRound(s, now))
  }

  // ---- the replayed schedule of a storage

  ghost function EraOfSlot(s: Slot): Era {
    Era(s.beaconId, s.since)
  }

  ghost function PastEras(past: seq<Slot>): (eras: seq<Era>)
    ensures |eras| == |past|
  {
    seq(|past|, i requires 0 <= i < |past| => EraOfSlot(past[i]))
  }

  ghost function Replayed(identify: Registration -> nat, b: Book): Schedule {
    Schedule(
      seq(|b.beacons|, i requires 0 <= i < |b.beacons| => Beacon(b.beacons[i], identify(b.beacons[i]))),
      PastEras(b.past) + [EraOfSlot(b.current)],
      if b.next.since == 0 then None else Some(EraOfSlot(b.next)))
  }

  /** A slot holds the schedule of the beacon it names. */
  ghost predicate Consistent(b: Book, s: Slot) {
    && s.beaconId < |b.beacons|
    && s.genesis == b.beacons[s.beaconId].genesis && s.period == b.beacons[s.beaconId].period
  }

  ghost predicate ValidBook(b: Book, now: nat) {
    && Consistent(b, b.current) && b.current.since <= now
    && (b.next.since != 0 ==> Consistent(b, b.next) && b.next.since <= MAX_UINT40)
    && (forall i :: 0 <= i < |b.past| ==> Consistent(b, b.past[i]))
    && forall i :: 0 <= i < |b.beacons| ==> b.beacons[i].period > 0
  }

  /** One call and the replay of its event do the same to the schedule; the call keeps the storage valid. */
  lemma ExecuteReplays(identify: Registration -> nat, b: Book, was: nat, time: nat, call: Call)
    requires ValidBook(b, was) && was <= time && Execute(identify, b, time, call).Some?
    ensures var (b', event) := Execute(identify, b, time, call).value;
            && ValidBook(b', time)
            && Apply(identify, Replayed(identify, b), time, event) == Ok(Replayed(identify, b'))
  {
    var s := Replayed(identify, b);
    match call
    case Register(r, vouched) =>
      RegisterReplays(identify, b, was, time, call);
    case ScheduleBeacon(id, fromTime) =>
      var settled := if Due?(b, time) then b.(past := b.past + [b.current], current := b.next) else b;
      assert Begun(s, time) == PastEras(settled.past) + [EraOfSlot(settled.current)];
    case CancelSchedule =>
  }

  /**
   Conversely, what the replay accepts after initialization is the event of a call the contract performs: it refuses
   every other registration, schedule and cancellation.
   */
  lemma AcceptedIsPerformed(identify: Registration -> nat, b: Book, was: nat, time: nat, event: Event)
      returns (call: Call)
    requires ValidBook(b, was) && was <= time && Apply(identify, Replayed(identify, b), time, event).Ok?
    ensures Execute(identify, b, time, call).Some? && Execute(identify, b, time, call).value.1 == event
  {
    var s := Replayed(identify, b);
    match event
    case Registered(id, identity, r) =>
      call := Register(r, true);
      forall i | 0 <= i < |b.beacons| ensures identify(b.beacons[i]) != identify(r) {
        assert s.beacons[i].identity == identify(b.beacons[i]);
      }
    case Scheduled(id, fromTime) => call := ScheduleBeacon(id, fromTime);
    case Cancelled(id, fromTime) => call := CancelSchedule;
  }

  lemma RegisterReplays(identify: Registration -> nat, b: Book, was: nat, time: nat, call: Call)
    requires call.Register? && ValidBook(b, was) && was <= time && Execute(identify, b, time, call).Some?
    ensures var (b', event) := Execute(identify, b, time, call).value;
            && ValidBook(b', time)
            && Apply(identify, Replayed(identify, b), time, event) == Ok(Replayed(identify, b'))
  {
    var (b', event) := Execute(identify, b, time, call).value;
    var beacons := Replayed(identify, b).beacons;
    assert forall i :: 0 <= i < |beacons| ==> beacons[i].identity != event.identity;
    assert Replayed(identify, b').beacons == beacons + [Beacon(event.registration, event.identity)];
    assert forall i :: 0 <= i < |b.beacons| ==> b'.beacons[i] == b.beacons[i];
  }

  // ---- runs

  /** A transaction: a call in a block, and the position its log would take. */
  datatype Tx = Tx(block: nat, index: nat, time: nat, call: Call)

  /** The contract's initialization transaction, which emits two logs. */
  datatype Start = Start(registration: Registration, block: nat, index: nat, time: uint64)

  ghost predicate ValidStart(start: Start) {
    && start.registration.chainHash != 0
    && 1 <= start.registration.genesis <= MAX_UINT40 && 1 <= start.registration.period <= MAX_BEACON_PERIOD
    && start.time <= MAX_UINT40
  }

  /** Transactions in chain order: later positions, and times that never go back and are one a block. */
  ghost predicate Follows(block: nat, index: nat, time: nat, tx: Tx) {
    && (block < tx.block || (block == tx.block && index < tx.index))
    && (block == tx.block ==> time == tx.time) && time <= tx.time
  }

  ghost predicate ChainOrder(start: Start, txs: seq<Tx>) {
    && (forall i :: 0 <= i < |txs| ==> Follows(start.block, start.index + 1, start.time, txs[i]))
    && forall i, j :: 0 <= i < j < |txs| ==> Follows(txs[i].block, txs[i].index, txs[i].time, txs[j])
  }

  /** The storage after a run. A reverted call changes nothing. */
  ghost function BookAfter(identify: Registration -> nat, start: Start, txs: seq<Tx>): Book {
    if txs == [] then Initial(start.registration, start.time)
    else
      var n := |txs| - 1;
      var b := BookAfter(identify, start, txs[..n]);
      match Execute(identify, b, txs[n].time, txs[n].call)
      case None => b
      case Some(r) => r.0
  }

  /** The entries of the logs a run emits. */
  ghost function Emitted(identify: Registration -> nat, start: Start, txs: seq<Tx>): seq<Entry>
    requires ValidStart(start)
  {
    if txs == [] then
      [Entry(start.block, start.index, start.time,
          Some(Registered(0, identify(start.registration), start.registration))),
       Entry(start.block, start.index + 1, start.time, Some(Scheduled(0, start.time)))]
    else
      var n := |txs| - 1;
      var es := Emitted(identify, start, txs[..n]);
      match Execute(identify, BookAfter(identify, start, txs[..n]), txs[n].time, txs[n].call)
      case None => es
      case Some(r) => es + [Entry(txs[n].block, txs[n].index, txs[n].time, Some(r.1))]
  }

  ghost function RunTime(start: Start, txs: seq<Tx>): nat {
    if txs == [] then start.time else txs[|txs| - 1].time
  }

  /** Everything a run has emitted lies at or before its last transaction. */
  ghost predicate EmittedBy(start: Start, txs: seq<Tx>, e: Entry) {
    || (e.block == start.block && e.index <= start.index + 1 && e.time == start.time)
    || exists i :: 0 <= i < |txs| && e.block == txs[i].block && e.index == txs[i].index && e.time == txs[i].time
  }

  lemma {:induction false} EmittedWhere(identify: Registration -> nat, start: Start, txs: seq<Tx>, k: nat)
    requires ValidStart(start) && k < |Emitted(identify, start, txs)|
    ensures EmittedBy(start, txs, Emitted(identify, start, txs)[k])
  {
    if txs != [] {
      var n := |txs| - 1;
      var es := Emitted(identify, start, txs[..n]);
      if k < |es| {
        EmittedWhere(identify, start, txs[..n], k);
        var e := es[k];
        if exists i :: 0 <= i < n && e.block == txs[..n][i].block && e.index == txs[..n][i].index
            && e.time == txs[..n][i].time {
          var i :| 0 <= i < n && e.block == txs[..n][i].block && e.index == txs[..n][i].index
              && e.time == txs[..n][i].time;
          assert e.block == txs[i].block && e.index == txs[i].index && e.time == txs[i].time;
        }
      } else {
        assert Emitted(identify, start, txs)[k].time == txs[n].time;
      }
    }
  }

  lemma ChainOrderInit(start: Start, txs: seq<Tx>)
    requires ChainOrder(start, txs) && txs != []
    ensures ChainOrder(start, txs[..|txs| - 1])
    ensures RunTime(start, txs[..|txs| - 1]) <= txs[|txs| - 1].time
  {
  }

  /** A log emitted by the last transaction may follow the last one emitted before. */
  lemma NextInOrder(identify: Registration -> nat, start: Start, txs: seq<Tx>, event: Event)
    requires ValidStart(start) && ChainOrder(start, txs) && txs != []
    ensures var n := |txs| - 1;
            var es := Emitted(identify, start, txs[..n]);
            es != [] && OutOfOrder(es[|es| - 1], Entry(txs[n].block, txs[n].index, txs[n].time, Some(event))).None?
  {
    var n := |txs| - 1;
    EmittedNonEmpty(identify, start, txs[..n]);
    var es := Emitted(identify, start, txs[..n]);
    EmittedWhere(identify, start, txs[..n], |es| - 1);
  }

  lemma {:induction false} EmittedNonEmpty(identify: Registration -> nat, start: Start, txs: seq<Tx>)
    requires ValidStart(start)
    ensures |Emitted(identify, start, txs)| >= 2
  {
    if txs != [] { EmittedNonEmpty(identify, start, txs[..|txs| - 1]); }
  }

  lemma InitialReplays(identify: Registration -> nat, start: Start)
    requires ValidStart(start)
    ensures ValidBook(Initial(start.registration, start.time), start.time)
    ensures Fold(identify, Emitted(identify, start, []))
            == Ok(Replayed(identify, Initial(start.registration, start.time)))
  {
    var es := Emitted(identify, start, []);
    var b := Initial(start.registration, start.time);
    var beacons := [Beacon(start.registration, identify(start.registration))];
    assert es[..1] == [es[0]] && [es[0]][..0] == [];
    assert [] + beacons == beacons;
    assert Fold(identify, es[..1]) == Ok(Schedule(beacons, [], None));
    assert Replayed(identify, b) == Schedule(beacons, [Era(0, start.time)], None);
  }

  /**
   Refinement: for every run of the contract the replay accepts the logs it emitted, and the schedule it builds is the
   contract's storage.
   */
  lemma {:induction false} ReplayIsStorage(identify: Registration -> nat, start: Start, txs: seq<Tx>)
    requires ValidStart(start) && ChainOrder(start, txs)
    ensures ValidBook(BookAfter(identify, start, txs), RunTime(start, txs))
    ensures Fold(identify, Emitted(identify, start, txs)) == Ok(Replayed(identify, BookAfter(identify, start, txs)))
  {
    if txs == [] {
      InitialReplays(identify, start);
    } else {
      var n := |txs| - 1;
      ChainOrderInit(start, txs);
      ReplayIsStorage(identify, start, txs[..n]);
      var b := BookAfter(identify, start, txs[..n]);
      var outcome := Execute(identify, b, txs[n].time, txs[n].call);
      if outcome.Some? {
        ExecuteReplays(identify, b, RunTime(start, txs[..n]), txs[n].time, txs[n].call);
        NextInOrder(identify, start, txs, outcome.value.1);
        var es := Emitted(identify, start, txs);
        assert es[..|es| - 1] == Emitted(identify, start, txs[..n]);
      }
    }
  }

  // ---- the queries agree

  lemma {:induction false} PastAtIsLatest(past: seq<Slot>, t: int)
    requires past != []
    ensures PastAt(past, t) == past[LatestBegun(PastEras(past), t)]
  {
    var n := |past| - 1;
    if n > 0 && t < past[n].since {
      PastAtIsLatest(past[..n], t);
      assert PastEras(past)[..n] == PastEras(past[..n]);
    }
  }

  lemma SlotAtIsBeaconAt(identify: Registration -> nat, b: Book, t: int)
    ensures SlotAt(b, t).beaconId == BeaconAt(Replayed(identify, b), t)
    ensures SlotAt(b, t) == b.next || SlotAt(b, t) == b.current || SlotAt(b, t) in b.past
    ensures SlotAt(b, t) == b.next ==> b.next.since != 0 || b.next == b.current || b.next in b.past
  {
    var eras := PastEras(b.past);
    if b.past != [] {
      LatestBegunAppend(eras, EraOfSlot(b.current), t);
      PastAtIsLatest(b.past, t);
    }
  }

  /** A round keeps its number when it is cut to 64 bits exactly when it has no more. */
  lemma CutIff(s: Slot, t: int)
    requires s.period > 0
    ensures FirstRound(s.genesis, s.period, t + ROUND_LEAD) >= 1
    ensures StoredRound(s, t) == FirstRound(s.genesis, s.period, t + ROUND_LEAD) <==>
            FirstRound(s.genesis, s.period, t + ROUND_LEAD) <= MAX_UINT64
  {
    FirstRoundIsFirst(s.genesis, s.period, t + ROUND_LEAD, 1);
  }

  /** For a uint64 timestamp that is so unless the period is one second and the timestamp close to the largest. */
  lemma FitsIff(genesis: nat, period: nat, t: nat)
    requires period > 0 && t <= MAX_UINT64
    ensures FirstRound(genesis, period, t + ROUND_LEAD) <= MAX_UINT64 <==>
            period > 1 || t + 4 <= MAX_UINT64 + genesis
  {
    var time := t + ROUND_LEAD;
    if time > genesis {
      if period == 1 {
        DivModOf(time - genesis, 0, 1);
      } else {
        var x := time - genesis + period - 1;
        DivMod(x, period);
        if x / period >= MAX_UINT64 {
          MulLe(MAX_UINT64, x / period, period);
          MulLe(2, period, MAX_UINT64 - 1);
        }
      }
    }
  }

  /** The replay's answer for a timestamp, which is the contract's before the contract cuts it to 64 bits. */
  lemma RoundAtUncut(identify: Registration -> nat, start: Start, txs: seq<Tx>, t: int)
    requires ValidStart(start) && ChainOrder(start, txs) && 0 <= t <= MAX_UINT64
    ensures var b := BookAfter(identify, start, txs);
            var s := Replayed(identify, b);
            && SlotAt(b, t).period > 0 && BeaconAt(s, t) < |s.beacons|
            && RoundAt(s, t).Some?
            && RoundAt(s, t).value.beaconId == SlotAt(b, t).beaconId
            && RoundAt(s, t).value.round == FirstRound(SlotAt(b, t).genesis, SlotAt(b, t).period, t + ROUND_LEAD)
  {
    var b := BookAfter(identify, start, txs);
    ReplayIsStorage(identify, start, txs);
    RoundAtDefined(identify, Emitted(identify, start, txs), t);
    SlotAtIsBeaconAt(identify, b, t);
    assert Consistent(b, SlotAt(b, t));
  }

  /**
   For every run the contract's `roundAt` and the replay's name the same beacon at every timestamp, and the same round
   exactly when the replay's round is a uint64.
   */
  lemma RoundAtAgrees(identify: Registration -> nat, start: Start, txs: seq<Tx>, t: int)
    requires ValidStart(start) && ChainOrder(start, txs) && 0 <= t <= MAX_UINT64
    ensures var b := BookAfter(identify, start, txs);
            var s := Replayed(identify, b);
            && SlotAt(b, t).period > 0 && BeaconAt(s, t) < |s.beacons| && RoundAt(s, t).Some?
            && var replayed := RoundAt(s, t).value;
               && BookRoundAt(b, t).0 == replayed.beaconId
               && (BookRoundAt(b, t).1 == replayed.round <==> replayed.round <= MAX_UINT64)
               && (replayed.round <= MAX_UINT64 <==>
                     SlotAt(b, t).period > 1 || t + 4 <= MAX_UINT64 + SlotAt(b, t).genesis)
  {
    RoundAtUncut(identify, start, txs, t);
    var slot := SlotAt(BookAfter(identify, start, txs), t);
    CutIff(slot, t);
    FitsIff(slot.genesis, slot.period, t);
  }

  /** With a period of one second from genesis 1, the contract answers the last timestamp with round 2. */
  lemma LastTimestampDisagrees(identify: Registration -> nat, start: Start)
    requires ValidStart(start) && start.registration.genesis == 1 && start.registration.period == 1
    ensures var b := BookAfter(identify, start, []);
            var s := Replayed(identify, b);
            && SlotAt(b, MAX_UINT64).period > 0 && BookRoundAt(b, MAX_UINT64) == (0, 2)
            && BeaconAt(s, MAX_UINT64) < |s.beacons| && RoundAt(s, MAX_UINT64).Some?
            && RoundAt(s, MAX_UINT64).value.round == MAX_UINT64 + 3
  {
    RoundAtUncut(identify, start, [], MAX_UINT64);
    assert (MAX_UINT64 + 3) % (MAX_UINT64 + 1) == 2;
  }

  lemma EmittedStep(identify: Registration -> nat, start: Start, txs: seq<Tx>) returns (tail: seq<Entry>)
    requires ValidStart(start) && txs != []
    ensures Emitted(identify, start, txs) == Emitted(identify, start, txs[..|txs| - 1]) + tail
    ensures forall k :: 0 <= k < |tail| ==> tail[k].time == txs[|txs| - 1].time
  {
    var n := |txs| - 1;
    var outcome := Execute(identify, BookAfter(identify, start, txs[..n]), txs[n].time, txs[n].call);
    tail := if outcome.None? then [] else [Entry(txs[n].block, txs[n].index, txs[n].time, Some(outcome.value.1))];
  }

  /** The transactions after the first n only add logs, none before the time they all lie at or after. */
  lemma {:induction false} EmittedExtends(identify: Registration -> nat, start: Start, txs: seq<Tx>, n: nat, now: nat)
    returns (more: seq<Entry>)
    requires ValidStart(start) && n <= |txs| && forall i :: n <= i < |txs| ==> now <= txs[i].time
    ensures Emitted(identify, start, txs) == Emitted(identify, start, txs[..n]) + more
    ensures forall k :: 0 <= k < |more| ==> now <= more[k].time
  {
    if n == |txs| {
      assert txs[..n] == txs;
      more := [];
    } else {
      var m := |txs| - 1;
      assert txs[..m][..n] == txs[..n];
      var init := EmittedExtends(identify, start, txs[..m], n, now);
      var tail := EmittedStep(identify, start, txs);
      more := init + tail;
    }
  }

  /**
   A request keeps its round: what the contract assigns to a request in a block with timestamp `now`, after the first
   n transactions and before the others, is what the replay of the whole run's logs says for that timestamp; the round
   is, exactly when it is a uint64.
   */
  lemma AssignedRoundReplays(identify: Registration -> nat, start: Start, txs: seq<Tx>, n: nat, now: nat)
    requires ValidStart(start) && ChainOrder(start, txs) && n <= |txs|
    requires RunTime(start, txs[..n]) <= now <= MAX_UINT64
    requires forall i :: n <= i < |txs| ==> now <= txs[i].time
    ensures var b := BookAfter(identify, start, txs[..n]);
            var s := Replayed(identify, BookAfter(identify, start, txs));
            && Fold(identify, Emitted(identify, start, txs)) == Ok(s)
            && (if Due?(b, now) then b.next else b.current).period > 0
            && BeaconAt(s, now) < |s.beacons| && RoundAt(s, now).Some?
            && AssignedRound(b, now).0 == RoundAt(s, now).value.beaconId
            && (AssignedRound(b, now).1 == RoundAt(s, now).value.round <==> RoundAt(s, now).value.round <= MAX_UINT64)
  {
    var b := BookAfter(identify, start, txs[..n]);
    assert ChainOrder(start, txs[..n]);
    ReplayIsStorage(identify, start, txs);
    ReplayIsStorage(identify, start, txs[..n]);
    RoundAtAgrees(identify, start, txs[..n], now);
    RoundAtAgrees(identify, start, txs, now);
    assert AssignedRound(b, now) == BookRoundAt(b, now);
    var more := EmittedExtends(identify, start, txs, n, now);
    if more != [] {
      HistoryImmutable(identify, Emitted(identify, start, txs[..n]), more, now);
    } else {
      assert Emitted(identify, start, txs[..n]) + more == Emitted(identify, start, txs[..n]);
    }
  }
}
