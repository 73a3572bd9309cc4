/**
 Round schedules: round r of a beacon is due at genesis + (r - 1) * period. The latest round at a time
 (src/beacon.ts), the round a request binds (src/round.ts) and the round an epoch commits (keeper/src/beacon.rs).
 */
module Rounds {
  import opened Common
  import opened Arithmetic

  const ROUND_LEAD := 3
  const BEACON_MAX_AGE := 200
  const START_ROUND_MAX_AGE := BEACON_MAX_AGE - 20

  /** When a round is due. */
  function Due(genesis: int, period: int, round: int): int {
    genesis + (round - 1) * period
  }

  lemma DueMonotone(genesis: int, period: int, r: int, s: int)
    requires period > 0
    ensures Due(genesis, period, r) <= Due(genesis, period, s) <==> r <= s
  {
    if r <= s {
      MulLe(r - 1, s - 1, period);
    } else {
      MulLe(s, r - 1, period);
      MulSucc(s - 1, period);
    }
  }

  /** `roundTime` and `beaconRoundTime`: there is no round 0, and a round is a uint64. */
  function RoundTime(genesis: int, period: int, round: int): Option<int> {
    if round < 1 || round > MAX_UINT64 then None else Some(Due(genesis, period, round))
  }

  /** `beaconRoundAt`: the latest round due at or before a time, 0 before genesis. */
  function LatestRound(genesis: int, period: int, time: int): int
    requires period > 0
  {
    if time < genesis then 0 else (time - genesis) / period + 1
  }

  /**
   The latest round is the adjoint of the due time: a round is due by a time exactly when it is at most the latest.
   */
  lemma LatestRoundIsLatest(genesis: int, period: int, time: int, round: int)
    requires period > 0 && round >= 1
    ensures genesis + (round - 1) * period <= time <==> round <= LatestRound(genesis, period, time)
    ensures 0 <= LatestRound(genesis, period, time)
  {
    MulLe(0, round - 1, period);
    if time >= genesis {
      var elapsed := time - genesis;
      DivMod(elapsed, period);
      DivNonNegative(elapsed, period);
      var q := elapsed / period;
      if round - 1 <= q {
        MulLe(round - 1, q, period);
      } else {
        MulLe(q + 1, round - 1, period);
        MulSucc(q, period);
      }
    }
  }

  /** A round has a time exactly when it is a positive uint64. */
  lemma RoundTimeIff(genesis: int, period: int, round: int, time: int)
    ensures RoundTime(genesis, period, round) == Some(time) <==>
            1 <= round < 0x1_0000_0000_0000_0000 && time == genesis + (round - 1) * period
  {
  }

  /** `roundFor`: the round a request in a block with this timestamp binds. */
  function RoundFor(genesis: int, period: int, timestamp: int, lead: int): Option<int> {
    if timestamp < 0 || timestamp > MAX_UINT64 || lead < 0 || lead > MAX_UINT64 || period < 1 || genesis < 0 then None
    else Some(FirstRound(genesis, period, timestamp + lead))
  }

  function FirstRound(genesis: int, period: int, time: int): int
    requires period > 0
  {
    if time <= genesis then 1 else (time - genesis + period - 1) / period + 1
  }

  /** The first round is the other adjoint: a round is due at or after a time exactly when it is at least the first. */
  lemma FirstRoundIsFirst(genesis: int, period: int, time: int, round: int)
    requires period > 0 && round >= 1
    ensures genesis + (round - 1) * period >= time <==> round >= FirstRound(genesis, period, time)
    ensures FirstRound(genesis, period, time) >= 1
  {
    MulLe(0, round - 1, period);
    if time > genesis {
      var x := time - genesis + period - 1;
      DivMod(x, period);
      DivNonNegative(x, period);
      var q := x / period;
      if round - 1 >= q {
        MulLe(q, round - 1, period);
      } else {
        MulLe(round - 1, q - 1, period);
        MulSucc(q - 1, period);
      }
    }
  }

  /**
   A bound round is due at least the lead after the request, and less than the lead and a period once past genesis.
   */
  lemma BoundRoundIsFresh(genesis: int, period: int, timestamp: int, lead: int)
    requires RoundFor(genesis, period, timestamp, lead).Some?
    ensures var due := genesis + (RoundFor(genesis, period, timestamp, lead).value - 1) * period;
            due >= timestamp + lead && (timestamp + lead > genesis ==> due < timestamp + lead + period)
  {
    var t := timestamp + lead;
    var r := FirstRound(genesis, period, t);
    FirstRoundIsFirst(genesis, period, t, 1);
    FirstRoundIsFirst(genesis, period, t, r);
    if t > genesis {
      assert Due(genesis, period, 1) == genesis;
      FirstRoundIsFirst(genesis, period, t, r - 1);
      MulSucc(r - 2, period);
    }
  }

  // ---- the round an epoch commits

  /** `choose_round`: nothing before genesis, the start round while it is young, else the latest round minus one. */
  function ChooseRound(genesis: nat, period: nat, start: nat, now: nat): Option<int> {
    if period == 0 || start < genesis || now < genesis then None
    else
      var startRound := (start - genesis) / period + 1;
      var due := Due(genesis, period, startRound);
      var age := if now < due then 0 else now - due;
      if age <= START_ROUND_MAX_AGE then Some(startRound)
      else
        var latest := (now - genesis) / period + 1;
        Some(if latest - 1 < startRound then startRound else latest - 1)
  }

  /** The choice lies between the start round and the latest round, and is at most max(180, 2 * period - 1) s old. */
  lemma ChoiceIsFresh(genesis: nat, period: nat, start: nat, now: nat)
    requires period > 0 && genesis <= start <= now
    ensures var r := ChooseRound(genesis, period, start, now);
            && r.Some?
            && LatestRound(genesis, period, start) <= r.value <= LatestRound(genesis, period, now)
            && now - (genesis + (r.value - 1) * period) <= (if 2 * period - 1 > 180 then 2 * period - 1 else 180)
            && genesis + (r.value - 1) * period <= now
  {
    var s := LatestRound(genesis, period, start);
    var n := LatestRound(genesis, period, now);
    DivMono(start - genesis, now - genesis, period);
    LatestRoundIsLatest(genesis, period, start, 1);
    LatestRoundIsLatest(genesis, period, start, s);
    LatestRoundIsLatest(genesis, period, now, s);
    LatestRoundIsLatest(genesis, period, now, n);
    LatestRoundIsLatest(genesis, period, now, n + 1);
    MulSucc(n - 1, period);
    MulSucc(n - 2, period);
    DueMonotone(genesis, period, n - 1, s);
    DueMonotone(genesis, period, s, n);
  }

  /**
   The choice stays with the newest round at the start while that is young or has no second successor; otherwise it is
   the newest round whose successor is due, so the relays have had a period to publish it.
   */
  lemma ChoiceIsSettled(genesis: nat, period: nat, start: nat, now: nat)
    requires period > 0 && genesis <= start <= now
    ensures var s, r := LatestRound(genesis, period, start), ChooseRound(genesis, period, start, now).value;
            && (r == s <==> now - (genesis + (s - 1) * period) <= 180 || now < genesis + (s + 1) * period)
            && (r != s ==> genesis + r * period <= now < genesis + (r + 1) * period)
  {
    var s := LatestRound(genesis, period, start);
    var n := LatestRound(genesis, period, now);
    DivMono(start - genesis, now - genesis, period);
    LatestRoundIsLatest(genesis, period, start, 1);
    LatestRoundIsLatest(genesis, period, start, s);
    LatestRoundIsLatest(genesis, period, now, n);
    LatestRoundIsLatest(genesis, period, now, n + 1);
    LatestRoundIsLatest(genesis, period, now, s + 2);
  }

  /** There is no choice before genesis, and at a time before the start it is the newest round at the start. */
  lemma ChoiceBeforeStart(genesis: nat, period: nat, start: nat, now: nat)
    ensures ChooseRound(genesis, period, start, now).Some? <==> period > 0 && genesis <= start && genesis <= now
    ensures period > 0 && genesis <= now < start ==>
              ChooseRound(genesis, period, start, now) == Some(LatestRound(genesis, period, start))
  {
    if period > 0 && genesis <= now < start { DivMono(now - genesis, start - genesis, period); }
  }

  /** As the chain's time goes on the choice never moves back. */
  lemma ChoiceIsMonotone(genesis: nat, period: nat, start: nat, now: nat, later: nat)
    requires period > 0 && genesis <= start && genesis <= now <= later
    ensures ChooseRound(genesis, period, start, now).value <= ChooseRound(genesis, period, start, later).value
  {
    DivMono(now - genesis, later - genesis, period);
  }

  /** With a period of at most 90 s, a packet discarded as too old is replaced by a later round with 20 s to spare. */
  lemma DiscardedIsReplaced(genesis: nat, period: nat, start: nat, now: nat, round: int)
    requires 0 < period <= 90 && genesis <= start <= now
    requires now - (genesis + (round - 1) * period) > 200
    ensures var r := ChooseRound(genesis, period, start, now).value;
            r > round && now - (genesis + (r - 1) * period) <= 180
  {
    ChoiceIsFresh(genesis, period, start, now);
    DueMonotone(genesis, period, ChooseRound(genesis, period, start, now).value, round);
  }

  /** Whether every choice is at most `age` old when it is made, whatever the schedule and the times. */
  ghost predicate AlwaysFresh(period: nat, age: int) {
    forall genesis: nat, start: nat, now: nat :: 1 <= genesis <= start <= now ==>
      match ChooseRound(genesis, period, start, now)
      case None => true
      case Some(r) => now - (genesis + (r - 1) * period) <= age
  }

  /** Choices always keep an age exactly when it covers the start round's 180 s and two periods. */
  lemma AlwaysFreshIff(period: nat, age: int)
    requires period > 0
    ensures AlwaysFresh(period, age) <==> 180 <= age && 2 * period - 1 <= age
  {
    if START_ROUND_MAX_AGE <= age && 2 * period - 1 <= age {
      forall genesis: nat, start: nat, now: nat | 1 <= genesis <= start <= now
        ensures match ChooseRound(genesis, period, start, now)
                case None => true
                case Some(r) => now - (genesis + (r - 1) * period) <= age
      {
        ChoiceIsFresh(genesis, period, start, now);
      }
    } else {
      OldStartRound(period);
      if 2 * period - 1 > START_ROUND_MAX_AGE { OldestChoice(period); }
    }
  }

  /** The start round is kept until it is 180 s old. */
  lemma OldStartRound(period: nat)
    requires period > 0
    ensures ChooseRound(1, period, 1, 1 + START_ROUND_MAX_AGE) == Some(1) && Due(1, period, 1) == 1
  {
    DivModOf(0, 0, period);
  }

  /** The oldest choice there is: an epoch that starts at genesis, prepared just before the third round. */
  lemma OldestChoice(period: nat)
    requires 2 * period - 1 > START_ROUND_MAX_AGE
    ensures ChooseRound(1, period, 1, 2 * period) == Some(1) && Due(1, period, 1) == 1
  {
    DivModOf(0, 0, period);
    DivModOf(1, period - 1, period);
  }

  /**
   The keeper admits periods under 200 s, but only those up to 100 s keep every choice within the 200 s of a packet.
   */
  lemma AdmittedPeriodsCanGoStale(period: nat)
    requires 0 < period < 200
    ensures AlwaysFresh(period, 200) <==> period <= 100
    ensures AlwaysFresh(period, 180) <==> period <= 90
  {
    AlwaysFreshIff(period, BEACON_MAX_AGE);
    AlwaysFreshIff(period, BEACON_MAX_AGE - 20);
  }
}
