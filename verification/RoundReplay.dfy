/**
 The replay of one fulfilled request (`replayRoundRequest`, src/round.ts). Hashes, encodings and the two signature
 schemes are a parameter, `Crypto`; what is assumed of them is written out in `Sound`.
 */
module RoundReplay {
  import opened Common
  import opened Rounds
  import opened BeaconSchedule
  import opened Sampling
  import opened Mapping

  const ROUND_RESPONSE_TIMEOUT := 60
  const EVIDENCE_PACKET_BYTES := 416

  datatype Configuration = Configuration(publicKey: (nat, nat), feeRecipient: nat, initialMinFee: nat,
      beaconIdentity: nat)

  /** A VRF proof: what its verdict depends on beyond key, point and seed is one value, `rest`. */
  datatype Proof = Proof(pk: (nat, nat), gamma: (nat, nat), seed: nat, rest: nat)

  datatype SeedInput = SeedInput(
    chainId: nat, coordinator: nat, keyHash: nat, requestId: nat, consumer: nat, clientSeed: nat, mappingHash: nat,
    requestBlock: nat, beaconId: uint8, round: int, roundRandomness: nat)

  datatype TranscriptInput = TranscriptInput(
    chainId: nat, coordinator: nat, requestId: nat, configurationHash: nat, beaconId: uint8, round: int,
    roundRandomness: nat, proofHash: nat, randomness: nat, mappingHash: nat)

  datatype Crypto = Crypto(
    identify: Registration -> nat,
    hashConfiguration: Configuration -> nat,
    hashKey: ((nat, nat)) -> nat,
    hashSeed: SeedInput -> nat,
    hashTranscript: TranscriptInput -> nat,
    hashMapping: MappingSpec -> nat,
    hashProof: Proof -> nat,
    encodeProof: Proof -> seq<byte>,
    outputOf: ((nat, nat)) -> nat,
    sha256: nat -> nat,
    signedRound: (nat, int, nat) -> bool,
    proofHolds: Proof -> bool,
    word: nat -> nat -> nat,
    words: nat)
  {
    /** Hashes of different values differ; a round has one signature under a key; a key and seed have one VRF point. */
    ghost predicate Sound() {
      && (forall a, b :: identify(a) == identify(b) ==> a == b)
      && (forall a, b :: hashConfiguration(a) == hashConfiguration(b) ==> a == b)
      && (forall a, b :: hashSeed(a) == hashSeed(b) ==> a == b)
      && (forall a, b :: hashTranscript(a) == hashTranscript(b) ==> a == b)
      && (forall a, b :: sha256(a) == sha256(b) ==> a == b)
      && (forall key, round, a, b :: signedRound(key, round, a) && signedRound(key, round, b) ==> a == b)
      && (forall p, q :: proofHolds(p) && proofHolds(q) && p.pk == q.pk && p.seed == q.seed ==> p.gamma == q.gamma)
    }

    /** The other hashes and encodings of different values differ too. */
    ghost predicate Injective() {
      && (forall a, b :: hashKey(a) == hashKey(b) ==> a == b)
      && (forall a, b :: hashMapping(a) == hashMapping(b) ==> a == b)
      && (forall a, b :: hashProof(a) == hashProof(b) ==> a == b)
      && (forall a, b :: encodeProof(a) == encodeProof(b) ==> a == b)
      && (forall a, b :: outputOf(a) == outputOf(b) ==> a == b)
    }

    /** Every randomness opens a stream the sampler can work with. */
    ghost predicate Streams() {
      words >= MAX_ITEMS && forall r :: Productive(word(r), words)
    }
  }

  datatype Evidence = Evidence(
    chainId: nat, coordinator: nat,
    configuration: Configuration, configurationHash: nat, keyHash: nat,
    beacon: Beacon,
    requestId: nat, consumer: nat, clientSeed: nat, mapping: MappingSpec, mappingHash: nat,
    requestBlock: nat, requestTimestamp: int, deadline: int,
    beaconId: uint8, round: int,
    roundSignature: nat, roundRandomness: nat,
    proof: Proof, randomness: nat, proofHash: nat, transcriptHash: nat,
    evidencePacket: Option<seq<byte>>, mappedResult: Option<seq<nat>>,
    acceptanceTimestamp: int)

  datatype CheckName =
    | KeyHash | ConfigurationCheck | BeaconIdentity | BeaconInForce | AssignmentCheck | RoundSignature | RoundRandomness
    | Seed | ProofCheck | Randomness | ProofHash | EvidencePacket | Transcript | MappingHash | MappedResult | Deadline
        | Acceptance

  // ---- what the replay recomputes

  function SeedOf(c: Crypto, e: Evidence): nat {
    c.hashSeed(SeedInput(e.chainId, e.coordinator, e.keyHash, e.requestId, e.consumer, e.clientSeed, e.mappingHash,
                         e.requestBlock, e.beaconId, e.round, e.roundRandomness))
  }

  function TranscriptOf(c: Crypto, e: Evidence): nat {
    c.hashTranscript(TranscriptInput(e.chainId, e.coordinator, e.requestId, e.configurationHash, e.beaconId, e.round,
                                     e.roundRandomness, e.proofHash, e.randomness, e.mappingHash))
  }

  /** The mapped values of the recorded randomness; none when the mapping is not valid. */
  ghost function MappedOf(c: Crypto, e: Evidence): Option<seq<nat>>
    requires c.Streams()
  {
    if ValidMapping(c.words, e.mapping) then Some(Mapped(c.word(e.randomness), c.words, e.randomness, e.mapping))
        else None
  }

  function DeadlineOf(timestamp: int): Option<int> {
    if 0 <= timestamp <= MAX_UINT64 then Some(timestamp + ROUND_RESPONSE_TIMEOUT) else None
  }

  function RoundOf(beacon: Beacon, timestamp: int): Option<int> {
    RoundFor(beacon.registration.genesis, beacon.registration.period, timestamp, ROUND_LEAD)
  }

  /** A schedule that can be asked: some era is in force and every timestamp names a registered beacon. */
  ghost predicate Usable(s: Schedule) {
    s.eras != [] && forall t :: BeaconAt(s, t) < |s.beacons|
  }

  /** Whether the request's beacon is the one the schedule has in force for it. */
  predicate InForce(s: Schedule, e: Evidence)
    requires s.eras != [] && BeaconAt(s, e.requestTimestamp) < |s.beacons|
  {
    && RoundAt(s, e.requestTimestamp).Some?
    && RoundAt(s, e.requestTimestamp).value.beaconId == e.beaconId
    && RoundAt(s, e.requestTimestamp).value.beacon.identity == e.beacon.identity
  }

  /** Whether one check passes. A check that throws does not. */
  ghost predicate Holds(c: Crypto, schedule: Option<Schedule>, e: Evidence, name: CheckName)
    requires c.Streams() && (schedule.Some? ==> Usable(schedule.value))
  {
    match name
    case KeyHash => c.hashKey(e.configuration.publicKey) == e.keyHash
    case ConfigurationCheck => c.hashConfiguration(e.configuration) == e.configurationHash
    case BeaconIdentity =>
      && c.identify(e.beacon.registration) == e.beacon.identity
      && (e.beaconId != 0 || e.configuration.beaconIdentity == e.beacon.identity)
    case BeaconInForce =>
      schedule.None? || InForce(schedule.value, e)
    case AssignmentCheck => RoundOf(e.beacon, e.requestTimestamp) == Some(e.round)
    case RoundSignature => c.signedRound(e.beacon.registration.publicKey, e.round, e.roundSignature)
    case RoundRandomness => c.sha256(e.roundSignature) == e.roundRandomness
    case Seed => SeedOf(c, e) == e.proof.seed
    case ProofCheck => e.proof.pk == e.configuration.publicKey && c.proofHolds(e.proof)
    case Randomness => c.outputOf(e.proof.gamma) == e.randomness
    case ProofHash => c.hashProof(e.proof) == e.proofHash
    case EvidencePacket => e.evidencePacket.None? ||
      (|e.evidencePacket.value| == EVIDENCE_PACKET_BYTES && e.evidencePacket.value == c.encodeProof(e.proof))
    case Transcript => TranscriptOf(c, e) == e.transcriptHash
    case MappingHash => ValidMapping(c.words, e.mapping) && c.hashMapping(e.mapping) == e.mappingHash
    case MappedResult => e.mappedResult.None? || MappedOf(c, e) == e.mappedResult
    case Deadline => DeadlineOf(e.requestTimestamp) == Some(e.deadline)
    case Acceptance => e.requestTimestamp <= e.acceptanceTimestamp <= e.deadline
  }

  /** The checks of a verdict, in order; those on optional parts are left out when the part is. */
  function Names(schedule: Option<Schedule>, e: Evidence): seq<CheckName> {
    [KeyHash, ConfigurationCheck, BeaconIdentity]
    + (if schedule.Some? then [BeaconInForce] else [])
    + [AssignmentCheck, RoundSignature, RoundRandomness, Seed, ProofCheck, Randomness, ProofHash]
    + (if e.evidencePacket.Some? then [EvidencePacket] else [])
    + [Transcript, MappingHash]
    + (if e.mappedResult.Some? then [MappedResult] else [])
    + [Deadline, Acceptance]
  }

  /** The failed checks of a verdict, in order. */
  ghost function Failed(c: Crypto, schedule: Option<Schedule>, e: Evidence, names: seq<CheckName>): seq<CheckName>
    requires c.Streams() && (schedule.Some? ==> Usable(schedule.value))
  {
    if names == [] then []
    else (if Holds(c, schedule, e, names[0]) then [] else [names[0]]) + Failed(c, schedule, e, names[1..])
  }

  /** `valid` of the verdict: no check failed. */
  ghost predicate Valid(c: Crypto, schedule: Option<Schedule>, e: Evidence)
    requires c.Streams() && (schedule.Some? ==> Usable(schedule.value))
  {
    Failed(c, schedule, e, Names(schedule, e)) == []
  }

  lemma {:induction false} FailedIff(c: Crypto, schedule: Option<Schedule>, e: Evidence, names: seq<CheckName>,
      n: CheckName)
    requires c.Streams() && (schedule.Some? ==> Usable(schedule.value))
    ensures n in Failed(c, schedule, e, names) <==> n in names && !Holds(c, schedule, e, n)
  {
    if names != [] { FailedIff(c, schedule, e, names[1..], n); }
  }

  /** Every check of valid evidence holds; a check left out holds by its definition. */
  lemma ValidMeansHolds(c: Crypto, schedule: Option<Schedule>, e: Evidence, n: CheckName)
    requires c.Streams() && (schedule.Some? ==> Usable(schedule.value)) && Valid(c, schedule, e)
    ensures Holds(c, schedule, e, n)
  {
    FailedIff(c, schedule, e, Names(schedule, e), n);
    if n !in Names(schedule, e) { LeftOut(schedule, e, n); }
  }

  lemma LeftOut(schedule: Option<Schedule>, e: Evidence, n: CheckName)
    requires n !in Names(schedule, e)
    ensures || (n == BeaconInForce && schedule.None?)
            || (n == EvidencePacket && e.evidencePacket.None?)
            || (n == MappedResult && e.mappedResult.None?)
  {
  }

  /** The place of a check among all that a verdict can list. */
  ghost function Place(n: CheckName): nat {
    match n
    case KeyHash => 1
    case ConfigurationCheck => 2
    case BeaconIdentity => 3
    case BeaconInForce => 4
    case AssignmentCheck => 5
    case RoundSignature => 6
    case RoundRandomness => 7
    case Seed => 8
    case ProofCheck => 9
    case Randomness => 10
    case ProofHash => 11
    case EvidencePacket => 12
    case Transcript => 13
    case MappingHash => 14
    case MappedResult => 15
    case Deadline => 16
    case Acceptance => 17
  }

  /** Checks in their order, all of them from one place on and before another. */
  ghost predicate InPlace(names: seq<CheckName>, from: nat, to: nat) {
    && (forall i :: 0 <= i < |names| ==> from <= Place(names[i]) < to)
    && forall i, j :: 0 <= i < j < |names| ==> Place(names[i]) < Place(names[j])
  }

  lemma InPlaceJoins(a: seq<CheckName>, b: seq<CheckName>, from: nat, mid: nat, to: nat)
    requires InPlace(a, from, mid) && InPlace(b, mid, to) && from <= mid <= to
    ensures InPlace(a + b, from, to)
  {
  }

  lemma SevenInPlace()
    ensures InPlace([AssignmentCheck, RoundSignature, RoundRandomness, Seed, ProofCheck, Randomness, ProofHash], 5, 12)
  {
    InPlaceJoins([AssignmentCheck, RoundSignature, RoundRandomness], [Seed, ProofCheck], 5, 8, 10);
    InPlaceJoins([AssignmentCheck, RoundSignature, RoundRandomness] + [Seed, ProofCheck], [Randomness, ProofHash],
                 5, 10, 12);
  }

  lemma FrontInPlace(schedule: Option<Schedule>)
    ensures InPlace([KeyHash, ConfigurationCheck, BeaconIdentity]
                    + (if schedule.Some? then [BeaconInForce] else [])
                    + [AssignmentCheck, RoundSignature, RoundRandomness, Seed, ProofCheck, Randomness, ProofHash],
                    1, 12)
  {
    var first, force := [KeyHash, ConfigurationCheck, BeaconIdentity], if schedule.Some? then [BeaconInForce] else [];
    InPlaceJoins(first, force, 1, 4, 5);
    SevenInPlace();
    InPlaceJoins(first + force,
                 [AssignmentCheck, RoundSignature, RoundRandomness, Seed, ProofCheck, Randomness, ProofHash], 1, 5, 12);
  }

  lemma BackInPlace(front: seq<CheckName>, packet: seq<CheckName>, mapped: seq<CheckName>)
    requires InPlace(front, 1, 12) && packet in {[], [EvidencePacket]} && mapped in {[], [MappedResult]}
    ensures InPlace(front + packet + [Transcript, MappingHash] + mapped + [Deadline, Acceptance], 1, 18)
  {
    InPlaceJoins(front, packet, 1, 12, 13);
    InPlaceJoins(front + packet, [Transcript, MappingHash], 1, 13, 15);
    InPlaceJoins(front + packet + [Transcript, MappingHash], mapped, 1, 15, 16);
    InPlaceJoins(front + packet + [Transcript, MappingHash] + mapped, [Deadline, Acceptance], 1, 16, 18);
  }

  /** A verdict makes its checks in their order, none twice. */
  lemma ChecksInPlace(schedule: Option<Schedule>, e: Evidence)
    ensures InPlace(Names(schedule, e), 1, 18)
  {
    FrontInPlace(schedule);
    BackInPlace([KeyHash, ConfigurationCheck, BeaconIdentity]
                + (if schedule.Some? then [BeaconInForce] else [])
                + [AssignmentCheck, RoundSignature, RoundRandomness, Seed, ProofCheck, Randomness, ProofHash],
                if e.evidencePacket.Some? then [EvidencePacket] else [],
                if e.mappedResult.Some? then [MappedResult] else []);
  }

  lemma FailedBehind(c: Crypto, schedule: Option<Schedule>, e: Evidence, names: seq<CheckName>)
    requires c.Streams() && (schedule.Some? ==> Usable(schedule.value))
    requires names != [] && InPlace(names, 1, 18)
    ensures forall n :: n in Failed(c, schedule, e, names[1..]) ==> Place(names[0]) < Place(n)
  {
    forall n | n in Failed(c, schedule, e, names[1..]) ensures Place(names[0]) < Place(n) {
      FailedIff(c, schedule, e, names[1..], n);
    }
  }

  /** The failed checks are listed in the same order. */
  lemma {:induction false} FailedInOrder(c: Crypto, schedule: Option<Schedule>, e: Evidence, names: seq<CheckName>)
    requires c.Streams() && (schedule.Some? ==> Usable(schedule.value))
    requires InPlace(names, 1, 18)
    ensures InPlace(Failed(c, schedule, e, names), 1, 18)
  {
    if names != [] {
      FailedInOrder(c, schedule, e, names[1..]);
      FailedBehind(c, schedule, e, names);
    }
  }

  // ---- the code

  /** One check, computed; a check that throws does not pass. */
  method Check(c: Crypto, schedule: Option<Schedule>, e: Evidence, name: CheckName) returns (ok: bool)
    requires c.Streams() && (schedule.Some? ==> Usable(schedule.value))
    ensures ok == Holds(c, schedule, e, name)
  {
    match name
    case KeyHash => ok := c.hashKey(e.configuration.publicKey) == e.keyHash;
    case ConfigurationCheck => ok := c.hashConfiguration(e.configuration) == e.configurationHash;
    case BeaconIdentity =>
      ok := c.identify(e.beacon.registration) == e.beacon.identity;
      if ok { ok := e.beaconId != 0 || e.configuration.beaconIdentity == e.beacon.identity; }
    case BeaconInForce => ok := schedule.None? || InForce(schedule.value, e);
    case AssignmentCheck => ok := RoundOf(e.beacon, e.requestTimestamp) == Some(e.round);
    case RoundSignature => ok := c.signedRound(e.beacon.registration.publicKey, e.round, e.roundSignature);
    case RoundRandomness => ok := c.sha256(e.roundSignature) == e.roundRandomness;
    case Seed => ok := SeedOf(c, e) == e.proof.seed;
    case ProofCheck => ok := e.proof.pk == e.configuration.publicKey && c.proofHolds(e.proof);
    case Randomness => ok := c.outputOf(e.proof.gamma) == e.randomness;
    case ProofHash => ok := c.hashProof(e.proof) == e.proofHash;
    case EvidencePacket =>
      ok := || e.evidencePacket.None?
            || (|e.evidencePacket.value| == EVIDENCE_PACKET_BYTES && e.evidencePacket.value == c.encodeProof(e.proof));
    case Transcript => ok := TranscriptOf(c, e) == e.transcriptHash;
    case MappingHash => ok := ValidMapping(c.words, e.mapping) && c.hashMapping(e.mapping) == e.mappingHash;
    case MappedResult =>
      var mapped := MapRandomness(c.word(e.randomness), c.words, Some(e.randomness), e.mapping);
      ok := e.mappedResult.None? || (mapped.Ok? && mapped.value == e.mappedResult.value);
    case Deadline => ok := DeadlineOf(e.requestTimestamp) == Some(e.deadline);
    case Acceptance => ok := e.requestTimestamp <= e.acceptanceTimestamp <= e.deadline;
  }

  /** One more check: what has failed and what is still to be checked make the same verdict. */
  lemma CheckStep(c: Crypto, schedule: Option<Schedule>, e: Evidence, names: seq<CheckName>, i: nat,
      failed: seq<CheckName>)
    requires c.Streams() && (schedule.Some? ==> Usable(schedule.value)) && i < |names|
    ensures failed + Failed(c, schedule, e, names[i..])
         == (if Holds(c, schedule, e, names[i]) then failed else failed + [names[i]])
             + Failed(c, schedule, e, names[i + 1..])
  {
    var rest := names[i..];
    assert rest[0] == names[i] && rest[1..] == names[i + 1..];
    Regroup(failed, [names[i]], [], Failed(c, schedule, e, names[i + 1..]));
  }

  /** Checks run one after the other, and the names of those that failed, in order. */
  method RunChecks(c: Crypto, schedule: Option<Schedule>, e: Evidence, names: seq<CheckName>)
      returns (failed: seq<CheckName>)
    requires c.Streams() && (schedule.Some? ==> Usable(schedule.value))
    ensures failed == Failed(c, schedule, e, names)
  {
    failed := [];
    assert names[0..] == names;
    for i := 0 to |names|
      invariant failed + Failed(c, schedule, e, names[i..]) == Failed(c, schedule, e, names)
    {
      CheckStep(c, schedule, e, names, i, failed);
      var ok := Check(c, schedule, e, names[i]);
      if !ok { failed := failed + [names[i]]; }
    }
  }

  /** `replayRoundRequest`: the verdict and the failed checks. */
  method ReplayRoundRequest(c: Crypto, schedule: Option<Schedule>, e: Evidence) returns (valid: bool,
      failed: seq<CheckName>)
    requires c.Streams() && (schedule.Some? ==> Usable(schedule.value))
    ensures failed == Failed(c, schedule, e, Names(schedule, e)) && valid == Valid(c, schedule, e)
  {
    failed := RunChecks(c, schedule, e, Names(schedule, e));
    valid := failed == [];
  }

  // ---- agreement

  /** What a request fixes when it is made. */
  ghost predicate SameRequest(d: Evidence, e: Evidence) {
    && d.chainId == e.chainId && d.coordinator == e.coordinator && d.configurationHash == e.configurationHash
    && d.requestId == e.requestId && d.consumer == e.consumer && d.clientSeed == e.clientSeed && d.mapping == e.mapping
    && d.requestBlock == e.requestBlock && d.requestTimestamp == e.requestTimestamp
  }

  /** What the replay derives from it. */
  ghost predicate SameOutcome(c: Crypto, d: Evidence, e: Evidence)
    requires c.Streams()
  {
    && d.beaconId == e.beaconId && d.beacon == e.beacon && d.round == e.round
    && d.roundSignature == e.roundSignature && d.roundRandomness == e.roundRandomness
    && d.proof.seed == e.proof.seed && d.proof.gamma == e.proof.gamma && d.randomness == e.randomness
    && MappedOf(c, d) == MappedOf(c, e)
    && (d.mappedResult.Some? && e.mappedResult.Some? ==> d.mappedResult == e.mappedResult)
    && d.deadline == e.deadline
  }

  /** Two valid evidences of one request. */
  ghost predicate Rivals(c: Crypto, schedule: Option<Schedule>, d: Evidence, e: Evidence) {
    && c.Streams() && c.Sound() && (schedule.Some? ==> Usable(schedule.value))
    && SameRequest(d, e) && Valid(c, schedule, d) && Valid(c, schedule, e)
  }

  lemma BothHold(c: Crypto, schedule: Option<Schedule>, d: Evidence, e: Evidence, n: CheckName)
    requires Rivals(c, schedule, d, e)
    ensures Holds(c, schedule, d, n) && Holds(c, schedule, e, n)
  {
    ValidMeansHolds(c, schedule, d, n);
    ValidMeansHolds(c, schedule, e, n);
  }

  lemma SameConfiguration(c: Crypto, schedule: Option<Schedule>, d: Evidence, e: Evidence)
    requires Rivals(c, schedule, d, e)
    ensures d.configuration == e.configuration && d.keyHash == e.keyHash && d.mappingHash == e.mappingHash
  {
    BothHold(c, schedule, d, e, ConfigurationCheck);
    BothHold(c, schedule, d, e, KeyHash);
    BothHold(c, schedule, d, e, MappingHash);
  }

  lemma SameRound(c: Crypto, schedule: Option<Schedule>, d: Evidence, e: Evidence)
    requires Rivals(c, schedule, d, e) && d.beacon == e.beacon
    ensures d.round == e.round && d.roundSignature == e.roundSignature && d.roundRandomness == e.roundRandomness
  {
    BothHold(c, schedule, d, e, AssignmentCheck);
    BothHold(c, schedule, d, e, RoundSignature);
    BothHold(c, schedule, d, e, RoundRandomness);
  }

  lemma SameProof(c: Crypto, schedule: Option<Schedule>, d: Evidence, e: Evidence)
    requires Rivals(c, schedule, d, e) && d.beaconId == e.beaconId && d.beacon == e.beacon
    ensures d.proof.seed == e.proof.seed && d.proof.gamma == e.proof.gamma && d.randomness == e.randomness
  {
    SameConfiguration(c, schedule, d, e);
    SameRound(c, schedule, d, e);
    BothHold(c, schedule, d, e, Seed);
    BothHold(c, schedule, d, e, ProofCheck);
    BothHold(c, schedule, d, e, Randomness);
  }

  /** Once two valid evidences of a request name one beacon, everything after it agrees. */
  lemma SameBeaconSameOutcome(c: Crypto, schedule: Option<Schedule>, d: Evidence, e: Evidence)
    requires Rivals(c, schedule, d, e) && d.beaconId == e.beaconId && d.beacon == e.beacon
    ensures SameOutcome(c, d, e)
  {
    SameRound(c, schedule, d, e);
    SameProof(c, schedule, d, e);
    BothHold(c, schedule, d, e, MappedResult);
    BothHold(c, schedule, d, e, Deadline);
  }

  /**
   One outcome a request: two evidences that both replay as valid under one schedule and agree on what the request
   fixed agree on its beacon, round, round randomness, seed, VRF output and mapped values.
   */
  lemma OneOutcomeARequest(c: Crypto, schedule: Schedule, d: Evidence, e: Evidence)
    requires c.Streams() && c.Sound() && Usable(schedule)
    requires SameRequest(d, e) && Valid(c, Some(schedule), d) && Valid(c, Some(schedule), e)
    ensures SameOutcome(c, d, e)
  {
    ValidMeansHolds(c, Some(schedule), d, BeaconInForce);
    ValidMeansHolds(c, Some(schedule), e, BeaconInForce);
    ValidMeansHolds(c, Some(schedule), d, BeaconIdentity);
    ValidMeansHolds(c, Some(schedule), e, BeaconIdentity);
    assert d.beacon == e.beacon;
    SameBeaconSameOutcome(c, Some(schedule), d, e);
  }

  /** Without a schedule the configuration still binds beacon 0, so evidences that name it agree. */
  lemma OneOutcomeUnderBeaconZero(c: Crypto, d: Evidence, e: Evidence)
    requires c.Streams() && c.Sound()
    requires SameRequest(d, e) && Valid(c, None, d) && Valid(c, None, e)
    requires d.beaconId == 0 && e.beaconId == 0
    ensures SameOutcome(c, d, e)
  {
    ValidMeansHolds(c, None, d, BeaconIdentity);
    ValidMeansHolds(c, None, e, BeaconIdentity);
    ValidMeansHolds(c, None, d, ConfigurationCheck);
    ValidMeansHolds(c, None, e, ConfigurationCheck);
    assert d.beacon == e.beacon;
    SameBeaconSameOutcome(c, None, d, e);
  }

  /**
   Valid evidence binds a round due the lead after the request or less than a period later, and was served in time.
   */
  lemma ValidEvidenceIsTimely(c: Crypto, schedule: Option<Schedule>, e: Evidence)
    requires c.Streams() && (schedule.Some? ==> Usable(schedule.value)) && Valid(c, schedule, e)
    ensures var r, earliest := e.beacon.registration, e.requestTimestamp + ROUND_LEAD;
            && earliest <= Due(r.genesis, r.period, e.round)
            && (earliest > r.genesis ==> Due(r.genesis, r.period, e.round) < earliest + r.period)
    ensures e.requestTimestamp <= e.acceptanceTimestamp <= e.requestTimestamp + ROUND_RESPONSE_TIMEOUT
  {
    ValidMeansHolds(c, schedule, e, AssignmentCheck);
    ValidMeansHolds(c, schedule, e, Deadline);
    ValidMeansHolds(c, schedule, e, Acceptance);
    BoundRoundIsFresh(e.beacon.registration.genesis, e.beacon.registration.period, e.requestTimestamp, ROUND_LEAD);
  }

  /** Evidence that replays against an accepted log names a beacon that was in force in it. */
  lemma AcceptedLogsAreUsable(identify: Registration -> nat, es: seq<Entry>)
    requires Accepted(identify, es)
    ensures Usable(Fold(identify, es).value)
  {
    forall t ensures BeaconAt(Fold(identify, es).value, t) < |Fold(identify, es).value.beacons| {
      RoundAtDefined(identify, es, t);
    }
  }
}
