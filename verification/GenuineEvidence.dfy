/**
 What valid evidence is (`replayRoundRequest`, src/round.ts), value by value: exactly what the coordinator records of a
 request it serves. Evidence recorded so replays, against the logs of any later time.
 */
module GenuineEvidence {
  import opened Common
  import opened Rounds
  import opened BeaconSchedule
  import opened Mapping
  import opened BeaconBook
  import opened RoundReplay

  /** The configuration and the key are recorded by their hashes, and the configuration names beacon 0. */
  ghost predicate Configured(c: Crypto, e: Evidence) {
    && e.keyHash == c.hashKey(e.configuration.publicKey)
    && e.configurationHash == c.hashConfiguration(e.configuration)
    && e.beacon.identity == c.identify(e.beacon.registration)
    && (e.beaconId == 0 ==> e.configuration.beaconIdentity == e.beacon.identity)
  }

  /** The round is the first one due three seconds or more after the request. */
  ghost predicate Assigned(e: Evidence) {
    var genesis, period := e.beacon.registration.genesis, e.beacon.registration.period;
    && 0 <= e.requestTimestamp < 0x1_0000_0000_0000_0000 && period >= 1 && e.round >= 1
    && genesis + (e.round - 1) * period >= e.requestTimestamp + 3
    && (e.round == 1 || genesis + (e.round - 2) * period < e.requestTimestamp + 3)
  }

  /** Its beacon is the one the schedule has in force at the request. */
  ghost predicate Scheduled?(schedule: Option<Schedule>, e: Evidence) {
    schedule.Some? ==>
      && schedule.value.eras != []
      && BeaconAt(schedule.value, e.requestTimestamp) == e.beaconId < |schedule.value.beacons|
      && schedule.value.beacons[e.beaconId].identity == e.beacon.identity
  }

  /** The beacon signed the round, and its randomness is the hash of the signature. */
  ghost predicate Signed(c: Crypto, e: Evidence) {
    && c.signedRound(e.beacon.registration.publicKey, e.round, e.roundSignature)
    && e.roundRandomness == c.sha256(e.roundSignature)
  }

  /** The proof is one of the configured key over the request and its round, and the randomness is its output. */
  ghost predicate Proved(c: Crypto, e: Evidence) {
    && e.proof.seed == c.hashSeed(SeedInput(
         chainId := e.chainId, coordinator := e.coordinator, keyHash := e.keyHash, requestId := e.requestId,
         consumer := e.consumer, clientSeed := e.clientSeed, mappingHash := e.mappingHash,
         requestBlock := e.requestBlock, beaconId := e.beaconId, round := e.round,
         roundRandomness := e.roundRandomness))
    && e.proof.pk == e.configuration.publicKey && c.proofHolds(e.proof)
    && e.randomness == c.outputOf(e.proof.gamma) && e.proofHash == c.hashProof(e.proof)
    && (e.evidencePacket.Some? ==> e.evidencePacket.value == c.encodeProof(e.proof) && |e.evidencePacket.value| == 416)
  }

  /** The transcript binds what was decided, and the mapping and its values are the request's. */
  ghost predicate Concluded(c: Crypto, e: Evidence)
    requires c.Streams()
  {
    && e.transcriptHash == c.hashTranscript(TranscriptInput(
         chainId := e.chainId, coordinator := e.coordinator, requestId := e.requestId,
         configurationHash := e.configurationHash, beaconId := e.beaconId, round := e.round,
         roundRandomness := e.roundRandomness, proofHash := e.proofHash, randomness := e.randomness,
         mappingHash := e.mappingHash))
    && ValidMapping(c.words, e.mapping) && e.mappingHash == c.hashMapping(e.mapping)
    && (e.mappedResult.Some? ==>
          e.mappedResult.value == Mapped(c.word(e.randomness), c.words, e.randomness, e.mapping))
  }

  /** The deadline is a minute after the request, and the request was served between the two. */
  ghost predicate InTime(e: Evidence) {
    e.deadline == e.requestTimestamp + 60 && e.requestTimestamp <= e.acceptanceTimestamp <= e.deadline
  }

  ghost predicate Genuine(c: Crypto, schedule: Option<Schedule>, e: Evidence)
    requires c.Streams()
  {
    && Configured(c, e) && Scheduled?(schedule, e) && Assigned(e) && Signed(c, e) && Proved(c, e) && Concluded(c, e)
    && InTime(e)
  }

  // ---- the checks, value by value

  lemma AssignedIff(e: Evidence)
    ensures Assigned(e) <==> RoundOf(e.beacon, e.requestTimestamp) == Some(e.round)
  {
    var genesis, period, time := e.beacon.registration.genesis, e.beacon.registration.period, e.requestTimestamp + 3;
    if period >= 1 {
      var first := FirstRound(genesis, period, time);
      FirstRoundIsFirst(genesis, period, time, 1);
      FirstRoundIsFirst(genesis, period, time, first);
      if e.round >= 1 { FirstRoundIsFirst(genesis, period, time, e.round); }
      if e.round >= 2 { FirstRoundIsFirst(genesis, period, time, e.round - 1); }
    }
  }

  lemma ScheduledIff(schedule: Schedule, e: Evidence)
    requires Usable(schedule) && Assigned(e)
    requires forall i :: 0 <= i < |schedule.beacons| ==> schedule.beacons[i].registration.period >= 1
    ensures Scheduled?(Some(schedule), e) <==> InForce(schedule, e)
  {
  }

  lemma SeedOfFields(c: Crypto, e: Evidence)
    ensures SeedOf(c, e) == c.hashSeed(SeedInput(
              chainId := e.chainId, coordinator := e.coordinator, keyHash := e.keyHash, requestId := e.requestId,
              consumer := e.consumer, clientSeed := e.clientSeed, mappingHash := e.mappingHash,
              requestBlock := e.requestBlock, beaconId := e.beaconId, round := e.round,
              roundRandomness := e.roundRandomness))
  {
  }

  lemma TranscriptOfFields(c: Crypto, e: Evidence)
    ensures TranscriptOf(c, e) == c.hashTranscript(TranscriptInput(
              chainId := e.chainId, coordinator := e.coordinator, requestId := e.requestId,
              configurationHash := e.configurationHash, beaconId := e.beaconId, round := e.round,
              roundRandomness := e.roundRandomness, proofHash := e.proofHash, randomness := e.randomness,
              mappingHash := e.mappingHash))
  {
  }

  /** Every check holds exactly when the evidence is valid. */
  lemma ValidIffHolds(c: Crypto, schedule: Option<Schedule>, e: Evidence)
    requires c.Streams() && (schedule.Some? ==> Usable(schedule.value))
    ensures Valid(c, schedule, e) <==> forall n :: Holds(c, schedule, e, n)
  {
    if Valid(c, schedule, e) {
      forall n ensures Holds(c, schedule, e, n) { ValidMeansHolds(c, schedule, e, n); }
    } else {
      var failed := Failed(c, schedule, e, Names(schedule, e));
      FailedIff(c, schedule, e, Names(schedule, e), failed[0]);
    }
  }

  /** A schedule whose beacons have rounds. */
  ghost predicate Running(schedule: Option<Schedule>) {
    schedule.Some? ==>
      && Usable(schedule.value)
      && forall i :: 0 <= i < |schedule.value.beacons| ==> schedule.value.beacons[i].registration.period >= 1
  }

  lemma FirstChecks(c: Crypto, schedule: Option<Schedule>, e: Evidence)
    requires c.Streams() && Running(schedule)
    ensures Configured(c, e) <==>
            Holds(c, schedule, e, KeyHash) && Holds(c, schedule, e, ConfigurationCheck)
            && Holds(c, schedule, e, BeaconIdentity)
    ensures Assigned(e) <==> Holds(c, schedule, e, AssignmentCheck)
    ensures Assigned(e) ==> (Scheduled?(schedule, e) <==> Holds(c, schedule, e, BeaconInForce))
    ensures Signed(c, e) <==> Holds(c, schedule, e, RoundSignature) && Holds(c, schedule, e, RoundRandomness)
  {
    AssignedIff(e);
    if schedule.Some? && Assigned(e) { ScheduledIff(schedule.value, e); }
  }

  lemma ProofChecks(c: Crypto, schedule: Option<Schedule>, e: Evidence)
    requires c.Streams() && Running(schedule)
    ensures Proved(c, e) <==>
            && Holds(c, schedule, e, Seed) && Holds(c, schedule, e, ProofCheck) && Holds(c, schedule, e, Randomness)
            && Holds(c, schedule, e, ProofHash) && Holds(c, schedule, e, EvidencePacket)
  {
    SeedOfFields(c, e);
  }

  lemma OutcomeChecks(c: Crypto, schedule: Option<Schedule>, e: Evidence)
    requires c.Streams() && Running(schedule)
    ensures Concluded(c, e) <==>
            && Holds(c, schedule, e, Transcript) && Holds(c, schedule, e, MappingHash)
            && Holds(c, schedule, e, MappedResult)
  {
    TranscriptOfFields(c, e);
  }

  lemma TimeChecks(c: Crypto, schedule: Option<Schedule>, e: Evidence)
    requires c.Streams() && Running(schedule) && 0 <= e.requestTimestamp <= MAX_UINT64
    ensures InTime(e) <==> Holds(c, schedule, e, Deadline) && Holds(c, schedule, e, Acceptance)
  {
  }

  /** Evidence is valid exactly when every value is what the coordinator records. */
  lemma ValidIffGenuine(c: Crypto, schedule: Option<Schedule>, e: Evidence)
    requires c.Streams() && Running(schedule)
    ensures Valid(c, schedule, e) <==> Genuine(c, schedule, e)
  {
    ValidIffHolds(c, schedule, e);
    FirstChecks(c, schedule, e);
    ProofChecks(c, schedule, e);
    OutcomeChecks(c, schedule, e);
    if Assigned(e) { TimeChecks(c, schedule, e); }
    if Genuine(c, schedule, e) {
      forall n ensures Holds(c, schedule, e, n) { }
    }
  }

  // ---- the coordinator's own requests

  lemma ReplayedRuns(identify: Registration -> nat, start: Start, txs: seq<Tx>)
    requires ValidStart(start) && ChainOrder(start, txs)
    ensures Running(Some(Replayed(identify, BookAfter(identify, start, txs))))
  {
    ReplayIsStorage(identify, start, txs);
    var es := Emitted(identify, start, txs);
    assert Accepted(identify, es);
    AcceptedLogsAreUsable(identify, es);
  }

  /** The beacon, by its number, that a request was bound to stays the same in the storage ever after. */
  lemma {:induction false} BeaconsStay(identify: Registration -> nat, start: Start, txs: seq<Tx>, n: nat)
    requires n <= |txs|
    ensures BookAfter(identify, start, txs[..n]).beacons <= BookAfter(identify, start, txs).beacons
    decreases |txs|
  {
    if n == |txs| {
      assert txs[..n] == txs;
    } else {
      var m := |txs| - 1;
      BeaconsStay(identify, start, txs[..m], n);
      assert txs[..m][..n] == txs[..n];
    }
  }

  /** The schedule the logs of a run give. */
  ghost function ScheduleAfter(identify: Registration -> nat, start: Start, txs: seq<Tx>): Schedule {
    Replayed(identify, BookAfter(identify, start, txs))
  }

  /**
   The coordinator bound the request of the evidence to its beacon and round after n transactions of a run, in a block
   with its timestamp, and the round fits 64 bits.
   */
  ghost predicate Bound(identify: Registration -> nat, start: Start, txs: seq<Tx>, n: nat, e: Evidence) {
    && ValidStart(start) && ChainOrder(start, txs) && n <= |txs|
    && RunTime(start, txs[..n]) <= e.requestTimestamp <= MAX_UINT64
    && (forall i :: n <= i < |txs| ==> e.requestTimestamp <= txs[i].time)
    && var b := BookAfter(identify, start, txs[..n]);
       && (if Due?(b, e.requestTimestamp) then b.next else b.current).period > 0
       && AssignedRound(b, e.requestTimestamp) == (e.beaconId, e.round) && e.beaconId < |b.beacons|
       && e.beacon == Beacon(b.beacons[e.beaconId], identify(b.beacons[e.beaconId]))
       && (|| e.beacon.registration.period > 1
           || e.requestTimestamp + 4 <= MAX_UINT64 + e.beacon.registration.genesis)
  }

  lemma BoundIsAnswered(identify: Registration -> nat, start: Start, txs: seq<Tx>, n: nat, e: Evidence)
    requires Bound(identify, start, txs, n, e)
    ensures var s := ScheduleAfter(identify, start, txs);
            && Running(Some(s)) && BeaconAt(s, e.requestTimestamp) == e.beaconId < |s.beacons|
            && s.beacons[e.beaconId] == e.beacon && RoundAt(s, e.requestTimestamp).Some?
            && (RoundAt(s, e.requestTimestamp).value.round <= MAX_UINT64 ==>
                  RoundAt(s, e.requestTimestamp).value.round == e.round)
  {
    ReplayedRuns(identify, start, txs);
    AssignedRoundReplays(identify, start, txs, n, e.requestTimestamp);
    BeaconsStay(identify, start, txs, n);
  }

  lemma BoundIsAssigned(identify: Registration -> nat, start: Start, txs: seq<Tx>, n: nat, e: Evidence)
    requires Bound(identify, start, txs, n, e)
    ensures Assigned(e) && Running(Some(ScheduleAfter(identify, start, txs)))
    ensures Scheduled?(Some(ScheduleAfter(identify, start, txs)), e)
  {
    BoundIsAnswered(identify, start, txs, n, e);
    FitsIff(e.beacon.registration.genesis, e.beacon.registration.period, e.requestTimestamp);
    AssignedIff(e);
  }

  /**
   Completeness: a request the coordinator binds to a beacon and a round, and serves with that round's signature and a
   proof of its key before the deadline, leaves evidence that replays against the schedule of any later time.
   */
  lemma ServedRequestReplays(c: Crypto, start: Start, txs: seq<Tx>, n: nat, e: Evidence)
    requires c.Streams() && Bound(c.identify, start, txs, n, e)
    requires Configured(c, e) && Signed(c, e) && Proved(c, e) && Concluded(c, e) && InTime(e)
    ensures var s := ScheduleAfter(c.identify, start, txs); Running(Some(s)) && Valid(c, Some(s), e)
  {
    BoundIsAssigned(c.identify, start, txs, n, e);
    ValidIffGenuine(c, Some(ScheduleAfter(c.identify, start, txs)), e);
  }
}
