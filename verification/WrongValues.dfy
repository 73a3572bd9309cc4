/**
 Which checks a wrong value fails. Each check of `replayRoundRequest` (src/round.ts) recomputes one recorded value from
 the ones it depends on, and a wrong value is to fail the checks that read it and no other. Here one recorded value of
 valid evidence, any of them, is replaced by another, and what the verdict then lists is given exactly.
 */
module WrongValues {
  import opened Common
  import opened BeaconSchedule
  import opened Sampling
  import opened Mapping
  import opened RoundReplay

  /** One recorded value replaced. A record is replaced as a whole, in one part or in several. */
  datatype Change =
    | NewChainId(number: nat) | NewCoordinator(number: nat) | NewRequestId(number: nat) | NewConsumer(number: nat)
    | NewClientSeed(number: nat) | NewRequestBlock(number: nat)
    | NewConfiguration(configuration: Configuration) | NewBeacon(beacon: Beacon) | NewMapping(mapping: MappingSpec)
    | NewProof(proof: Proof)
    | NewConfigurationHash(hash: nat) | NewKeyHash(hash: nat) | NewMappingHash(hash: nat) | NewProofHash(hash: nat)
    | NewTranscript(hash: nat) | NewRoundRandomness(hash: nat) | NewRandomness(hash: nat)
    | NewRoundSignature(signature: nat)
    | NewRound(round: int) | NewBeaconId(id: uint8)
    | NewRequestTimestamp(time: int) | NewDeadline(time: int) | NewAcceptance(time: int)
    | NewPacket(packet: seq<byte>) | NewMapped(values: seq<nat>)

  ghost function With(e: Evidence, ch: Change): Evidence {
    match ch
    case NewChainId(v) => e.(chainId := v)
    case NewCoordinator(v) => e.(coordinator := v)
    case NewRequestId(v) => e.(requestId := v)
    case NewConsumer(v) => e.(consumer := v)
    case NewClientSeed(v) => e.(clientSeed := v)
    case NewRequestBlock(v) => e.(requestBlock := v)
    case NewConfiguration(v) => e.(configuration := v)
    case NewBeacon(v) => e.(beacon := v)
    case NewMapping(v) => e.(mapping := v)
    case NewProof(v) => e.(proof := v)
    case NewConfigurationHash(v) => e.(configurationHash := v)
    case NewKeyHash(v) => e.(keyHash := v)
    case NewMappingHash(v) => e.(mappingHash := v)
    case NewProofHash(v) => e.(proofHash := v)
    case NewTranscript(v) => e.(transcriptHash := v)
    case NewRoundRandomness(v) => e.(roundRandomness := v)
    case NewRandomness(v) => e.(randomness := v)
    case NewRoundSignature(v) => e.(roundSignature := v)
    case NewRound(v) => e.(round := v)
    case NewBeaconId(v) => e.(beaconId := v)
    case NewRequestTimestamp(v) => e.(requestTimestamp := v)
    case NewDeadline(v) => e.(deadline := v)
    case NewAcceptance(v) => e.(acceptanceTimestamp := v)
    case NewPacket(v) => e.(evidencePacket := Some(v))
    case NewMapped(v) => e.(mappedResult := Some(v))
  }

  /** The value is another one, in a part the evidence has. */
  ghost predicate Differs(e: Evidence, ch: Change) {
    && With(e, ch) != e
    && (ch.NewPacket? ==> e.evidencePacket.Some?) && (ch.NewMapped? ==> e.mappedResult.Some?)
  }

  ghost predicate SameClock(a: Beacon, b: Beacon) {
    a.registration.genesis == b.registration.genesis && a.registration.period == b.registration.period
  }

  /** The checks that read a wrong value; of a replaced record, those that read a part which is wrong. */
  ghost predicate Reads(e: Evidence, ch: Change, n: CheckName) {
    match ch
    case NewChainId(_) => n in {Seed, Transcript}
    case NewCoordinator(_) => n in {Seed, Transcript}
    case NewRequestId(_) => n in {Seed, Transcript}
    case NewConsumer(_) => n == Seed
    case NewClientSeed(_) => n == Seed
    case NewRequestBlock(_) => n == Seed
    case NewConfiguration(v) =>
      || n == ConfigurationCheck
      || (n in {KeyHash, ProofCheck} && v.publicKey != e.configuration.publicKey)
      || (n == BeaconIdentity && v.beaconIdentity != e.configuration.beaconIdentity)
    case NewBeacon(v) =>
      || n == BeaconIdentity
      || (n == BeaconInForce && v.identity != e.beacon.identity)
      || (n == AssignmentCheck && !SameClock(v, e.beacon))
      || (n == RoundSignature && v.registration.publicKey != e.beacon.registration.publicKey)
    case NewMapping(_) => n in {MappingHash, MappedResult}
    case NewProof(v) =>
      || n in {ProofCheck, ProofHash, EvidencePacket}
      || (n == Seed && v.seed != e.proof.seed)
      || (n == Randomness && v.gamma != e.proof.gamma)
    case NewConfigurationHash(_) => n in {ConfigurationCheck, Transcript}
    case NewKeyHash(_) => n in {KeyHash, Seed}
    case NewMappingHash(_) => n in {Seed, Transcript, MappingHash}
    case NewProofHash(_) => n in {ProofHash, Transcript}
    case NewTranscript(_) => n == Transcript
    case NewRoundRandomness(_) => n in {RoundRandomness, Seed, Transcript}
    case NewRandomness(_) => n in {Randomness, Transcript, MappedResult}
    case NewRoundSignature(_) => n in {RoundSignature, RoundRandomness}
    case NewRound(_) => n in {AssignmentCheck, RoundSignature, Seed, Transcript}
    case NewBeaconId(_) => n in {BeaconIdentity, BeaconInForce, Seed, Transcript}
    case NewRequestTimestamp(_) => n in {BeaconInForce, AssignmentCheck, Deadline, Acceptance}
    case NewDeadline(_) => n in {Deadline, Acceptance}
    case NewAcceptance(_) => n == Acceptance
    case NewPacket(_) => n == EvidencePacket
    case NewMapped(_) => n == MappedResult
  }

  /** The schedule has at this time the beacon it had at the request. */
  ghost predicate SameEra(schedule: Option<Schedule>, e: Evidence, time: int)
    requires schedule.Some? ==> Usable(schedule.value)
  {
    schedule.Some? && 0 <= time <= MAX_UINT64 && BeaconAt(schedule.value, time) == e.beaconId
  }

  /** When a check that reads a wrong value passes all the same. */
  ghost predicate Survives(c: Crypto, schedule: Option<Schedule>, e: Evidence, ch: Change, n: CheckName)
    requires Computable(c, schedule)
  {
    match ch
    case NewConfiguration(_) => n == BeaconIdentity && e.beaconId != 0
    case NewBeacon(v) =>
      || (n == BeaconIdentity && e.beaconId != 0 && c.identify(v.registration) == v.identity)
      || (n == AssignmentCheck && RoundOf(v, e.requestTimestamp) == RoundOf(e.beacon, e.requestTimestamp))
      || (n == RoundSignature && c.signedRound(v.registration.publicKey, e.round, e.roundSignature))
    case NewMapping(_) => n == MappedResult && MappedOf(c, With(e, ch)) == MappedOf(c, e)
    case NewProof(v) => n == ProofCheck && v.pk == e.proof.pk && c.proofHolds(v)
    case NewRandomness(_) => n == MappedResult && MappedOf(c, With(e, ch)) == MappedOf(c, e)
    case NewRound(r) => n == RoundSignature && c.signedRound(e.beacon.registration.publicKey, r, e.roundSignature)
    case NewBeaconId(id) => n == BeaconIdentity && (id != 0 || e.configuration.beaconIdentity == e.beacon.identity)
    case NewRequestTimestamp(t) =>
      || (n == BeaconInForce && SameEra(schedule, e, t))
      || (n == AssignmentCheck && RoundOf(e.beacon, t) == RoundOf(e.beacon, e.requestTimestamp))
      || (n == Acceptance && t <= e.acceptanceTimestamp)
    case NewDeadline(t) => n == Acceptance && e.acceptanceTimestamp <= t
    case NewAcceptance(t) => e.requestTimestamp <= t <= e.deadline
    case _ => false
  }

  // ---- check by check

  /** What is assumed of the hashes and of the schedule. */
  ghost predicate Ideal(c: Crypto, schedule: Option<Schedule>) {
    Computable(c, schedule) && c.Sound() && c.Injective()
  }

  /** What the checks themselves need. */
  ghost predicate Computable(c: Crypto, schedule: Option<Schedule>) {
    c.Streams() && (schedule.Some? ==> Usable(schedule.value))
  }

  /** A check passes after the change exactly when it does not read the wrong value or survives it. */
  ghost predicate Decided(c: Crypto, schedule: Option<Schedule>, e: Evidence, ch: Change, n: CheckName)
    requires Computable(c, schedule)
  {
    Holds(c, schedule, With(e, ch), n) <==> !Reads(e, ch, n) || Survives(c, schedule, e, ch, n)
  }

  lemma SameNames(schedule: Option<Schedule>, e: Evidence, ch: Change)
    requires Differs(e, ch)
    ensures Names(schedule, With(e, ch)) == Names(schedule, e)
  {
    assert With(e, ch).evidencePacket.Some? == e.evidencePacket.Some?;
    assert With(e, ch).mappedResult.Some? == e.mappedResult.Some?;
  }

  lemma WrongTranscript(c: Crypto, schedule: Option<Schedule>, e: Evidence, ch: Change)
    requires Computable(c, schedule) && c.Sound() && Differs(e, ch)
    requires Holds(c, schedule, e, Transcript)
    ensures Decided(c, schedule, e, ch, Transcript)
  {
  }

  lemma WrongSeed(c: Crypto, schedule: Option<Schedule>, e: Evidence, ch: Change)
    requires Computable(c, schedule) && c.Sound() && Differs(e, ch)
    requires Holds(c, schedule, e, Seed)
    ensures Decided(c, schedule, e, ch, Seed)
  {
  }

  lemma WrongKey(c: Crypto, schedule: Option<Schedule>, e: Evidence, ch: Change)
    requires Computable(c, schedule) && c.Injective() && Differs(e, ch)
    requires Holds(c, schedule, e, KeyHash)
    ensures Decided(c, schedule, e, ch, KeyHash)
  {
  }

  lemma WrongConfiguration(c: Crypto, schedule: Option<Schedule>, e: Evidence, ch: Change)
    requires Computable(c, schedule) && c.Sound() && Differs(e, ch)
    requires Holds(c, schedule, e, ConfigurationCheck)
    ensures Decided(c, schedule, e, ch, ConfigurationCheck)
  {
  }

  lemma WrongIdentity(c: Crypto, schedule: Option<Schedule>, e: Evidence, ch: Change)
    requires Computable(c, schedule) && c.Sound() && Differs(e, ch)
    requires Holds(c, schedule, e, BeaconIdentity)
    ensures Decided(c, schedule, e, ch, BeaconIdentity)
  {
  }

  lemma WrongInForce(c: Crypto, schedule: Option<Schedule>, e: Evidence, ch: Change)
    requires Computable(c, schedule) && Differs(e, ch) && schedule.Some?
    requires Holds(c, schedule, e, BeaconInForce)
    ensures Decided(c, schedule, e, ch, BeaconInForce)
  {
  }

  lemma WrongAssignment(c: Crypto, schedule: Option<Schedule>, e: Evidence, ch: Change)
    requires Computable(c, schedule) && Differs(e, ch)
    requires Holds(c, schedule, e, AssignmentCheck)
    ensures Decided(c, schedule, e, ch, AssignmentCheck)
  {
  }

  lemma WrongSignature(c: Crypto, schedule: Option<Schedule>, e: Evidence, ch: Change)
    requires Computable(c, schedule) && c.Sound() && Differs(e, ch)
    requires Holds(c, schedule, e, RoundSignature)
    ensures Decided(c, schedule, e, ch, RoundSignature)
  {
  }

  lemma WrongRoundRandomness(c: Crypto, schedule: Option<Schedule>, e: Evidence, ch: Change)
    requires Computable(c, schedule) && c.Sound() && Differs(e, ch)
    requires Holds(c, schedule, e, RoundRandomness)
    ensures Decided(c, schedule, e, ch, RoundRandomness)
  {
  }

  lemma WrongProof(c: Crypto, schedule: Option<Schedule>, e: Evidence, ch: Change)
    requires Computable(c, schedule) && Differs(e, ch)
    requires Holds(c, schedule, e, ProofCheck)
    ensures Decided(c, schedule, e, ch, ProofCheck)
  {
  }

  lemma WrongRandomness(c: Crypto, schedule: Option<Schedule>, e: Evidence, ch: Change)
    requires Computable(c, schedule) && c.Injective() && Differs(e, ch)
    requires Holds(c, schedule, e, Randomness)
    ensures Decided(c, schedule, e, ch, Randomness)
  {
  }

  lemma WrongProofHash(c: Crypto, schedule: Option<Schedule>, e: Evidence, ch: Change)
    requires Computable(c, schedule) && c.Injective() && Differs(e, ch)
    requires Holds(c, schedule, e, ProofHash)
    ensures Decided(c, schedule, e, ch, ProofHash)
  {
  }

  lemma WrongPacket(c: Crypto, schedule: Option<Schedule>, e: Evidence, ch: Change)
    requires Computable(c, schedule) && c.Injective() && Differs(e, ch) && e.evidencePacket.Some?
    requires Holds(c, schedule, e, EvidencePacket)
    ensures Decided(c, schedule, e, ch, EvidencePacket)
  {
  }

  lemma WrongMappingHash(c: Crypto, schedule: Option<Schedule>, e: Evidence, ch: Change)
    requires Computable(c, schedule) && c.Injective() && Differs(e, ch)
    requires Holds(c, schedule, e, MappingHash)
    ensures Decided(c, schedule, e, ch, MappingHash)
  {
  }

  lemma WrongMapped(c: Crypto, schedule: Option<Schedule>, e: Evidence, ch: Change)
    requires Computable(c, schedule) && Differs(e, ch) && e.mappedResult.Some?
    requires Holds(c, schedule, e, MappedResult)
    ensures Decided(c, schedule, e, ch, MappedResult)
  {
  }

  lemma WrongDeadline(c: Crypto, schedule: Option<Schedule>, e: Evidence, ch: Change)
    requires Computable(c, schedule) && Differs(e, ch)
    requires Holds(c, schedule, e, Deadline)
    ensures Decided(c, schedule, e, ch, Deadline)
  {
  }

  lemma WrongAcceptance(c: Crypto, schedule: Option<Schedule>, e: Evidence, ch: Change)
    requires Computable(c, schedule) && Differs(e, ch)
    requires Holds(c, schedule, e, Acceptance)
    ensures Decided(c, schedule, e, ch, Acceptance)
  {
  }

  lemma WrongHolds(c: Crypto, schedule: Option<Schedule>, e: Evidence, ch: Change, n: CheckName)
    requires Ideal(c, schedule) && Differs(e, ch) && Holds(c, schedule, e, n)
    requires (n == BeaconInForce ==> schedule.Some?) && (n == EvidencePacket ==> e.evidencePacket.Some?)
    requires n == MappedResult ==> e.mappedResult.Some?
    ensures Decided(c, schedule, e, ch, n)
  {
    match n
    case KeyHash => WrongKey(c, schedule, e, ch);
    case ConfigurationCheck => WrongConfiguration(c, schedule, e, ch);
    case BeaconIdentity => WrongIdentity(c, schedule, e, ch);
    case BeaconInForce => WrongInForce(c, schedule, e, ch);
    case AssignmentCheck => WrongAssignment(c, schedule, e, ch);
    case RoundSignature => WrongSignature(c, schedule, e, ch);
    case RoundRandomness => WrongRoundRandomness(c, schedule, e, ch);
    case Seed => WrongSeed(c, schedule, e, ch);
    case ProofCheck => WrongProof(c, schedule, e, ch);
    case Randomness => WrongRandomness(c, schedule, e, ch);
    case ProofHash => WrongProofHash(c, schedule, e, ch);
    case EvidencePacket => WrongPacket(c, schedule, e, ch);
    case Transcript => WrongTranscript(c, schedule, e, ch);
    case MappingHash => WrongMappingHash(c, schedule, e, ch);
    case MappedResult => WrongMapped(c, schedule, e, ch);
    case Deadline => WrongDeadline(c, schedule, e, ch);
    case Acceptance => WrongAcceptance(c, schedule, e, ch);
  }

  // ---- the verdict

  /** The failed checks of the verdict on the evidence with the wrong value. */
  ghost function Verdict(c: Crypto, schedule: Option<Schedule>, e: Evidence, ch: Change): seq<CheckName>
    requires Computable(c, schedule)
  {
    Failed(c, schedule, With(e, ch), Names(schedule, With(e, ch)))
  }

  lemma AlwaysRun(schedule: Option<Schedule>, e: Evidence, n: CheckName)
    ensures n in Names(schedule, e) <==>
            && (n == BeaconInForce ==> schedule.Some?) && (n == EvidencePacket ==> e.evidencePacket.Some?)
            && (n == MappedResult ==> e.mappedResult.Some?)
  {
    if n !in Names(schedule, e) { LeftOut(schedule, e, n); }
  }

  /** The verdict lists exactly the checks it runs that read the wrong value and do not survive it. */
  lemma WrongValueChecks(c: Crypto, schedule: Option<Schedule>, e: Evidence, ch: Change, n: CheckName)
    requires Ideal(c, schedule) && Valid(c, schedule, e) && Differs(e, ch)
    ensures n in Verdict(c, schedule, e, ch) <==>
            n in Names(schedule, e) && Reads(e, ch, n) && !Survives(c, schedule, e, ch, n)
  {
    SameNames(schedule, e, ch);
    FailedIff(c, schedule, With(e, ch), Names(schedule, e), n);
    AlwaysRun(schedule, e, n);
    if n in Names(schedule, e) {
      ValidMeansHolds(c, schedule, e, n);
      WrongHolds(c, schedule, e, ch, n);
    }
  }

  /** The promise: of the checks that are run, a wrong value fails those that read it and no other. */
  ghost predicate FailsItsReaders(c: Crypto, schedule: Option<Schedule>, e: Evidence, ch: Change)
    requires Computable(c, schedule)
  {
    forall n :: n in Verdict(c, schedule, e, ch) <==> n in Names(schedule, With(e, ch)) && Reads(e, ch, n)
  }

  /** When the promise is kept, said of the evidence and the new value. */
  ghost predicate Telling(c: Crypto, schedule: Option<Schedule>, e: Evidence, ch: Change)
    requires Computable(c, schedule)
  {
    match ch
    case NewConfiguration(v) => e.beaconId == 0 || v.beaconIdentity == e.configuration.beaconIdentity
    case NewBeacon(v) =>
      && (e.beaconId == 0 || c.identify(v.registration) != v.identity)
      && (SameClock(v, e.beacon) || RoundOf(v, e.requestTimestamp) != RoundOf(e.beacon, e.requestTimestamp))
      && (|| v.registration.publicKey == e.beacon.registration.publicKey
          || !c.signedRound(v.registration.publicKey, e.round, e.roundSignature))
    case NewMapping(_) => e.mappedResult.None? || MappedOf(c, With(e, ch)) != MappedOf(c, e)
    case NewProof(v) => v.pk != e.proof.pk || !c.proofHolds(v)
    case NewRandomness(_) => e.mappedResult.None? || MappedOf(c, With(e, ch)) != MappedOf(c, e)
    case NewRound(r) => !c.signedRound(e.beacon.registration.publicKey, r, e.roundSignature)
    case NewBeaconId(id) => id == 0 && e.configuration.beaconIdentity != e.beacon.identity
    case NewRequestTimestamp(t) =>
      && e.acceptanceTimestamp < t && RoundOf(e.beacon, t) != RoundOf(e.beacon, e.requestTimestamp)
      && !SameEra(schedule, e, t)
    case NewDeadline(t) => t < e.acceptanceTimestamp
    case NewAcceptance(t) => t < e.requestTimestamp || e.deadline < t
    case _ => true
  }

  lemma TellingMeansNone(c: Crypto, schedule: Option<Schedule>, e: Evidence, ch: Change, n: CheckName)
    requires Ideal(c, schedule) && Telling(c, schedule, e, ch) && Reads(e, ch, n)
    requires n == MappedResult ==> e.mappedResult.Some?
    ensures !Survives(c, schedule, e, ch, n)
  {
  }

  /** A check that survives the wrong value, where the promise is not kept. */
  ghost function Survivor(c: Crypto, schedule: Option<Schedule>, e: Evidence, ch: Change): CheckName
    requires Computable(c, schedule)
  {
    match ch
    case NewBeacon(v) =>
      if e.beaconId != 0 && c.identify(v.registration) == v.identity then BeaconIdentity
      else if !SameClock(v, e.beacon) && RoundOf(v, e.requestTimestamp) == RoundOf(e.beacon, e.requestTimestamp)
      then AssignmentCheck else RoundSignature
    case NewRequestTimestamp(t) =>
      if t <= e.acceptanceTimestamp then Acceptance
      else if SameEra(schedule, e, t) then BeaconInForce else AssignmentCheck
    case NewMapping(_) => MappedResult
    case NewRandomness(_) => MappedResult
    case NewProof(_) => ProofCheck
    case NewRound(_) => RoundSignature
    case NewDeadline(_) => Acceptance
    case NewAcceptance(_) => Acceptance
    case _ => BeaconIdentity
  }

  lemma NotTellingMeansSome(c: Crypto, schedule: Option<Schedule>, e: Evidence, ch: Change)
    requires Ideal(c, schedule) && Differs(e, ch) && !Telling(c, schedule, e, ch)
    ensures var n := Survivor(c, schedule, e, ch);
            n in Names(schedule, e) && Reads(e, ch, n) && Survives(c, schedule, e, ch, n)
  {
    AlwaysRun(schedule, e, Survivor(c, schedule, e, ch));
  }

  /**
   A wrong value fails exactly the checks of the verdict that read it: always for identifiers, hashes, signatures,
   packets and mapped values; for the others exactly when no such check happens to accept the new value.
   */
  lemma WrongValueFailsItsReaders(c: Crypto, schedule: Option<Schedule>, e: Evidence, ch: Change)
    requires Ideal(c, schedule) && Valid(c, schedule, e) && Differs(e, ch)
    ensures FailsItsReaders(c, schedule, e, ch) <==> Telling(c, schedule, e, ch)
  {
    SameNames(schedule, e, ch);
    if Telling(c, schedule, e, ch) {
      forall n ensures n in Verdict(c, schedule, e, ch) <==> n in Names(schedule, e) && Reads(e, ch, n) {
        WrongValueChecks(c, schedule, e, ch, n);
        AlwaysRun(schedule, e, n);
        if n in Names(schedule, e) && Reads(e, ch, n) { TellingMeansNone(c, schedule, e, ch, n); }
      }
    } else {
      NotTellingMeansSome(c, schedule, e, ch);
      WrongValueChecks(c, schedule, e, ch, Survivor(c, schedule, e, ch));
    }
  }

  // ---- wrong values that are passed

  /** A check that is run, reads the wrong value and survives it breaks the promise. */
  lemma Passes(c: Crypto, schedule: Option<Schedule>, e: Evidence, ch: Change, n: CheckName)
    requires Ideal(c, schedule) && Valid(c, schedule, e) && Differs(e, ch)
    requires n in Names(schedule, e) && Reads(e, ch, n) && Survives(c, schedule, e, ch, n)
    ensures n !in Verdict(c, schedule, e, ch) && !FailsItsReaders(c, schedule, e, ch)
  {
    SameNames(schedule, e, ch);
    WrongValueChecks(c, schedule, e, ch, n);
  }

  /** Every valid evidence has a wrong deadline that the check of the acceptance time, which reads it, lets pass. */
  lemma LaterDeadlinePasses(c: Crypto, schedule: Option<Schedule>, e: Evidence, n: CheckName)
    requires Ideal(c, schedule) && Valid(c, schedule, e)
    ensures var late := NewDeadline(e.deadline + 1);
            !FailsItsReaders(c, schedule, e, late) && (n in Verdict(c, schedule, e, late) <==> n == Deadline)
  {
    var late := NewDeadline(e.deadline + 1);
    ValidMeansHolds(c, schedule, e, Acceptance);
    Passes(c, schedule, e, late, Acceptance);
    WrongValueChecks(c, schedule, e, late, n);
  }

  /** Every valid evidence has a wrong request time that the check of the acceptance time, which reads it, lets pass. */
  lemma EarlierRequestPasses(c: Crypto, schedule: Option<Schedule>, e: Evidence)
    requires Ideal(c, schedule) && Valid(c, schedule, e)
    ensures var early := NewRequestTimestamp(e.requestTimestamp - 1);
            && !FailsItsReaders(c, schedule, e, early)
            && Deadline in Verdict(c, schedule, e, early) && Acceptance !in Verdict(c, schedule, e, early)
  {
    var early := NewRequestTimestamp(e.requestTimestamp - 1);
    ValidMeansHolds(c, schedule, e, Acceptance);
    Passes(c, schedule, e, early, Acceptance);
    WrongValueChecks(c, schedule, e, early, Deadline);
  }

  lemma SamePoint(c: Crypto, e: Evidence, p: Proof)
    requires c.Sound() && c.proofHolds(p) && c.proofHolds(e.proof) && p.pk == e.proof.pk && p.seed == e.proof.seed
    ensures p.gamma == e.proof.gamma
    ensures Reads(e, NewProof(p), ProofCheck) && !Reads(e, NewProof(p), Seed) && !Reads(e, NewProof(p), Randomness)
  {
  }

  /**
   A proof of the same seed with another nonce is taken by the check of the proof, and its point and seed are the
   recorded ones, so that only the hash of the proof and the packet tell.
   */
  lemma OtherNoncePasses(c: Crypto, schedule: Option<Schedule>, e: Evidence, p: Proof, n: CheckName)
    requires Ideal(c, schedule) && Valid(c, schedule, e)
    requires p != e.proof && c.proofHolds(p) && p.pk == e.proof.pk && p.seed == e.proof.seed
    ensures !FailsItsReaders(c, schedule, e, NewProof(p))
    ensures n in Verdict(c, schedule, e, NewProof(p)) <==>
            n == ProofHash || (n == EvidencePacket && e.evidencePacket.Some?)
  {
    ValidMeansHolds(c, schedule, e, ProofCheck);
    SamePoint(c, e, p);
    Passes(c, schedule, e, NewProof(p), ProofCheck);
    AlwaysRun(schedule, e, n);
    WrongValueChecks(c, schedule, e, NewProof(p), n);
  }

  /** A coin shows the parity of its stream's first word, when the number of words is even. */
  lemma FlipIsParity(word: nat -> nat, words: nat, randomness: nat)
    requires words >= MAX_ITEMS && words % 2 == 0 && Productive(word, words)
    ensures Mapped(word, words, randomness, MappingSpec(COIN_FLIP, 0, 0, 1, 0)) == [word(0) % 2]
  {
    var s := MappingSpec(COIN_FLIP, 0, 0, 1, 0);
    SingleIsMapped(word, words, randomness, s);
    assert AcceptedAt(word, words, 2, 0);
  }

  lemma SameFlip(c: Crypto, e: Evidence, v: nat)
    requires c.Streams() && e.mapping == MappingSpec(COIN_FLIP, 0, 0, 1, 0) && c.words % 2 == 0
    requires c.word(v)(0) % 2 == c.word(e.randomness)(0) % 2
    ensures MappedOf(c, With(e, NewRandomness(v))) == MappedOf(c, e)
  {
    FlipIsParity(c.word(v), c.words, v);
    FlipIsParity(c.word(e.randomness), c.words, e.randomness);
  }

  /** A wrong randomness whose coin falls alike fails its own check, and the mapped result, which reads it, passes. */
  lemma SameFlipPasses(c: Crypto, schedule: Option<Schedule>, e: Evidence, v: nat)
    requires Ideal(c, schedule) && Valid(c, schedule, e)
    requires e.mapping == MappingSpec(COIN_FLIP, 0, 0, 1, 0) && c.words % 2 == 0 && e.mappedResult.Some?
    requires v != e.randomness && c.word(v)(0) % 2 == c.word(e.randomness)(0) % 2
    ensures !FailsItsReaders(c, schedule, e, NewRandomness(v))
    ensures Randomness in Verdict(c, schedule, e, NewRandomness(v))
    ensures MappedResult !in Verdict(c, schedule, e, NewRandomness(v))
  {
    SameFlip(c, e, v);
    AlwaysRun(schedule, e, MappedResult);
    Passes(c, schedule, e, NewRandomness(v), MappedResult);
    AlwaysRun(schedule, e, Randomness);
    WrongValueChecks(c, schedule, e, NewRandomness(v), Randomness);
  }
}
