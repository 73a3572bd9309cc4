/**
 Epoch selection and the replay of a committed epoch (src/epoch.ts). Hashes, encodings and the two signature schemes
 are a parameter, `Crypto`; what is assumed of them is written out in `Sound`. Texts are their UTF-8 bytes, addresses
 and hashes are numbers, and a recipe id resolves in the catalog's book, which holds the built-in recipes too.
 */
module Epoch {
  import opened Common
  import opened Arithmetic
  import opened Templates
  import opened Matcher
  import opened BeaconCodec
  import opened Rounds

  const EPOCH_LENGTH := 200
  const MAX_ATTESTATION_AGE := 240
  const MAX_EPOCH_SOURCES := 10
  const FALLBACK_DELAY_BLOCKS := 20
  const MAX_EPOCH_RECIPES := 256
  const MAX_RECIPE_REQUEST_BYTES := 1024
  const MAX_RECIPE_BODY_BYTES := 2048
  const MAX_PACKET_BYTES := 2048
  const PUBLIC_KEY_BYTES := 128
  const INITIAL_RECIPES: seq<int> := [0, 1, 2, 3]

  // ---- windows

  function EpochStart(first: int, epochId: int): Option<int> {
    if epochId < 1 then None else Some(first + (epochId - 1) * EPOCH_LENGTH)
  }

  function EpochForBlock(first: int, block: int): int {
    if block < first then 0 else 1 + (block - first) / EPOCH_LENGTH
  }

  /** A block belongs to an epoch exactly when it is at or after its start and before the next one's. */
  lemma EpochHoldsItsBlocks(first: int, block: int, epochId: int)
    requires epochId >= 1
    ensures EpochForBlock(first, block) == epochId <==>
            first + (epochId - 1) * 200 <= block < first + epochId * 200
    ensures EpochStart(first, epochId) == Some(first + (epochId - 1) * 200)
  {
    DivMod(block - first, EPOCH_LENGTH);
  }

  function FallbackOpensAt(first: int, epochId: int, attempt: int): Option<int> {
    if attempt < 0 || attempt >= MAX_EPOCH_SOURCES || EpochStart(first, epochId).None? then None
    else Some(EpochStart(first, epochId).value + attempt * FALLBACK_DELAY_BLOCKS)
  }

  /** Every attempt's window opens inside its own epoch, and an attempt is open when enough blocks have passed. */
  lemma WindowOpensInside(first: int, epochId: int, attempt: int, block: int)
    requires epochId >= 1 && 0 <= attempt < 10
    ensures FallbackOpensAt(first, epochId, attempt) == Some(first + (epochId - 1) * 200 + attempt * 20)
    ensures EpochForBlock(first, FallbackOpensAt(first, epochId, attempt).value) == epochId
    ensures FallbackOpensAt(first, epochId, attempt).value <= block <==>
            EpochStart(first, epochId).value <= block && attempt <= (block - EpochStart(first, epochId).value) / 20
  {
    EpochHoldsItsBlocks(first, FallbackOpensAt(first, epochId, attempt).value, epochId);
    DivMod(block - EpochStart(first, epochId).value, FALLBACK_DELAY_BLOCKS);
  }

  // ---- the ladder

  /** The slot an attempt uses: so many slots after the selected one, around the catalog. */
  function Slot(selected: nat, attempt: nat, count: nat): nat
    requires count > 0
  {
    (selected + attempt) % count
  }

  /** The attempt a committed slot stands for. */
  function AttemptOf(selected: nat, source: nat, count: nat): nat
    requires count > 0 && selected < count
  {
    (source - selected + count) % count
  }

  lemma ModWithinTwo(x: int, n: int)
    requires 0 <= x < 2 * n
    ensures x % n == if x < n then x else x - n
  {
    DivModOf(if x < n then 0 else 1, if x < n then x else x - n, n);
  }

  /** The attempts below the count visit every slot exactly once, and replay recovers the attempt from the slot. */
  lemma LadderVisitsOnce(selected: nat, source: nat, count: nat, attempt: nat)
    requires selected < count && source < count && attempt < count
    ensures AttemptOf(selected, source, count) < count
    ensures Slot(selected, attempt, count) == source <==> attempt == AttemptOf(selected, source, count)
  {
    ModWithinTwo(selected + attempt, count);
    ModWithinTwo(source - selected + count, count);
  }

  // ---- data

  datatype BeaconKey = BeaconKey(verifier: nat, chainHash: nat, publicKey: seq<byte>, genesis: int, period: int)

  datatype Recipe = Recipe(canonicalRequest: seq<byte>, template: seq<byte>, body: seq<byte>, beacon: Option<BeaconKey>)

  /** The catalog an epoch selected with; no recipes means the initial ones. */
  datatype Catalog = Catalog(
    signers: seq<nat>, recipes: Option<seq<int>>, registry: nat, chainId: nat, firstEpochStart: int,
        book: map<int, Recipe>)

  datatype Attestation = Attestation(timestamp: nat, data: seq<byte>, signature: seq<byte>)

  datatype EpochRecord = EpochRecord(
    epochHash: nat, catalogHash: nat, anchorHash: nat, source: int, queryHash: nat, dataHash: nat, attestationHash: nat,
    signedAt: int, committedBlock: int)

  datatype CommitmentInput = CommitmentInput(
    chainId: nat, registry: nat, catalogHash: nat, epochId: int, epochStart: int, anchorHash: nat, source: int,
    queryHash: nat, dataHash: nat, attestationHash: nat)

  datatype Crypto = Crypto(
    hashBytes: seq<byte> -> nat,
    hashInitialCatalog: seq<nat> -> nat,
    hashCatalog: (seq<int>, seq<nat>) -> nat,
    hashSelector: (nat, int, nat) -> nat,
    hashCommitment: CommitmentInput -> nat,
    digest: (nat, nat, seq<byte>) -> nat,
    hashAttestation: (nat, nat, nat, nat) -> nat,
    canonicalSignature: seq<byte> -> bool,
    recover: (nat, seq<byte>) -> nat,
    signedRound: (seq<byte>, int, seq<byte>) -> bool,
    slotSigner: BeaconKey -> nat,
    beaconRequest: nat -> seq<byte>,
    encodePacket: (seq<byte>, Attestation) -> seq<byte>,
    decodePacket: seq<byte> -> Option<(seq<byte>, Attestation)>)
  {
    /** Hashes of different values differ, and what was encoded decodes. */
    ghost predicate Sound() {
      && (forall a, b :: hashBytes(a) == hashBytes(b) ==> a == b)
      && (forall a, b :: hashCommitment(a) == hashCommitment(b) ==> a == b)
      && (forall q, t, d, s, q', t', d', s' ::
            hashAttestation(q, t, d, s) == hashAttestation(q', t', d', s') ==> q == q' && t == t' && d == d' && s == s')
      && (forall request, a :: decodePacket(encodePacket(request, a)) == Some((request, a)))
    }
  }

  // ---- selection

  /** `epochCatalogRecipes`: the recipe ids in slot order, if the catalog follows the registry's rules. */
  ghost function CatalogRecipes(c: Catalog): Option<seq<int>> {
    var recipes := if c.recipes.None? then INITIAL_RECIPES else c.recipes.value;
    if ValidSlots(recipes, c.signers) then Some(recipes) else None
  }

  ghost predicate ValidSlots(recipes: seq<int>, signers: seq<nat>) {
    && 1 <= |recipes| <= MAX_EPOCH_SOURCES && |signers| == |recipes| && Distinct(recipes)
    && (forall i :: 0 <= i < |recipes| ==> 0 <= recipes[i] < MAX_EPOCH_RECIPES)
    && (forall i :: 0 <= i < |signers| ==> signers[i] != 0)
  }

  ghost function CatalogHash(k: Crypto, c: Catalog): nat {
    if c.recipes.None? then k.hashInitialCatalog(c.signers) else k.hashCatalog(c.recipes.value, c.signers)
  }

  /**
   The rules a registration follows whoever verifies it; a beacon recipe is exactly what its registration makes it.
   */
  ghost predicate Registrable(k: Crypto, r: Recipe) {
    && 1 <= |r.canonicalRequest| <= MAX_RECIPE_REQUEST_BYTES
    && 1 <= |r.body| <= MAX_RECIPE_BODY_BYTES
    && WellFormed(r.template)
    && (r.beacon.Some? ==>
          var b := r.beacon.value;
          && b.verifier != 0 && b.chainHash != 0 && b.genesis >= 1 && b.period >= 1
          && r.canonicalRequest == k.beaconRequest(b.chainHash) && r.body == r.canonicalRequest
          && r.template == BEACON_TEMPLATE)
  }

  /** A beacon key of the size the replay's scheme has. */
  ghost predicate KeyFits(r: Recipe) {
    r.beacon.Some? ==> |r.beacon.value.publicKey| == PUBLIC_KEY_BYTES
  }

  /** `validateEpochRecipe`. */
  ghost predicate ValidRecipe(k: Crypto, r: Recipe) {
    Registrable(k, r) && KeyFits(r)
  }

  ghost predicate Resolves(k: Crypto, c: Catalog, recipe: int) {
    recipe in c.book && ValidRecipe(k, c.book[recipe])
  }

  /** The slot the selector of an epoch picks. */
  ghost function SelectedSlot(k: Crypto, c: Catalog, epochId: int, anchor: nat, count: nat): (s: nat)
    requires count > 0
    ensures s < count
  {
    DivMod(k.hashSelector(CatalogHash(k, c), epochId, anchor), count);
    k.hashSelector(CatalogHash(k, c), epochId, anchor) % count
  }

  datatype Selection = Selection(source: nat, attempt: nat, airnode: nat, queryHash: nat, definition: Recipe)

  ghost function SelectEpoch(k: Crypto, c: Catalog, epochId: int, anchor: nat, attempt: int): Option<Selection> {
    if epochId < 1 || anchor == 0 || CatalogRecipes(c).None? then None
    else
      var recipes := CatalogRecipes(c).value;
      if attempt < 0 || attempt >= |recipes| then None
      else
        var source := Slot(SelectedSlot(k, c, epochId, anchor, |recipes|), attempt, |recipes|);
        DivMod(SelectedSlot(k, c, epochId, anchor, |recipes|) + attempt, |recipes|);
        if !Resolves(k, c, recipes[source]) then None
        else
          var r := c.book[recipes[source]];
          Some(Selection(source, attempt, c.signers[source], k.hashBytes(r.canonicalRequest), r))
  }

  /** What selection gives, from the catalog's recipes and hash. */
  lemma SelectionIs(k: Crypto, c: Catalog, epochId: int, anchor: nat, attempt: nat, recipes: seq<int>, source: nat)
    requires epochId >= 1 && anchor != 0 && CatalogRecipes(c) == Some(recipes) && attempt < |recipes|
    requires source == (k.hashSelector(CatalogHash(k, c), epochId, anchor) % |recipes| + attempt) % |recipes|
    requires source < |recipes|
    ensures SelectEpoch(k, c, epochId, anchor, attempt) ==
            if Resolves(k, c, recipes[source])
            then Some(Selection(source, attempt, c.signers[source],
                k.hashBytes(c.book[recipes[source]].canonicalRequest),
                                c.book[recipes[source]]))
            else None
  {
  }

  // ---- attestations

  /** The round `DecodeBeaconRound` decodes. */
  ghost function DecodedRound(d: seq<byte>): Option<int> {
    if Canonical(d) && |d| <= ROUND_DIGITS then Some(FromDecimal(d)) else None
  }

  datatype Verified = Verified(dataHash: nat, attestationHash: nat, signer: nat)

  ghost function AttestationHash(k: Crypto, queryHash: nat, a: Attestation): nat {
    k.hashAttestation(queryHash, a.timestamp, k.hashBytes(a.data), k.hashBytes(a.signature))
  }

  /** `verifyEpochAttestation`. */
  ghost function VerifyAttestation(k: Crypto, s: Selection, a: Attestation, commitTimestamp: int): Option<Verified> {
    var verified := Verified(k.hashBytes(a.data), AttestationHash(k, s.queryHash, a), s.airnode);
    if s.definition.beacon.None? && !k.canonicalSignature(a.signature) then None
    else if a.timestamp > commitTimestamp || commitTimestamp - a.timestamp > MAX_ATTESTATION_AGE then None
    else if !AcceptsData(s.definition.template, a.data) then None
    else if s.definition.beacon.Some? then
      var b := s.definition.beacon.value;
      var round := DecodedRound(a.data);
      if round.None? || RoundTime(b.genesis, b.period, round.value) != Some(a.timestamp) then None
      else if !k.signedRound(b.publicKey, round.value, a.signature) then None
      else if s.airnode != k.slotSigner(b) then None
      else Some(verified)
    else if k.recover(k.digest(s.queryHash, a.timestamp, a.data), a.signature) != s.airnode then None
    else Some(verified)
  }

  // ---- commitments and packets

  ghost function EpochHash(k: Crypto, c: Catalog, epochId: int, anchor: nat, s: Selection, v: Verified): nat
    requires epochId >= 1
  {
    k.hashCommitment(CommitmentInput(c.chainId, c.registry, CatalogHash(k, c), epochId,
                                     EpochStart(c.firstEpochStart, epochId).value, anchor, s.source, s.queryHash,
                                     v.dataHash, v.attestationHash))
  }

  ghost function EncodePacket(k: Crypto, request: seq<byte>, a: Attestation): Option<seq<byte>> {
    if |k.encodePacket(request, a)| > MAX_PACKET_BYTES then None else Some(k.encodePacket(request, a))
  }

  /** `decodeEpochEvidencePacket`: only the canonical encoding of what it decodes to is accepted. */
  ghost function DecodePacket(k: Crypto, packet: seq<byte>): Option<(seq<byte>, Attestation)> {
    if |packet| > MAX_PACKET_BYTES || k.decodePacket(packet).None? then None
    else
      var (request, a) := k.decodePacket(packet).value;
      if EncodePacket(k, request, a).None? || k.hashBytes(EncodePacket(k, request, a).value) != k.hashBytes(packet)
          then None
      else Some((request, a))
  }

  /** A packet decodes exactly to what it is the encoding of. */
  lemma PacketRoundTrip(k: Crypto, packet: seq<byte>, request: seq<byte>, a: Attestation)
    requires k.Sound()
    ensures DecodePacket(k, packet) == Some((request, a)) <==> EncodePacket(k, request, a) == Some(packet)
  {
  }

  // ---- replay

  /**
   `replayEpochCommitment`: the selection and the verified attestation of a record and packet, if they are accepted.
   */
  ghost function Replay(k: Crypto, c: Catalog, epochId: int, record: EpochRecord, commitTimestamp: int,
      packet: seq<byte>)
      : Option<(Selection, Verified)>
  {
    if CatalogRecipes(c).None? then None
    else
      var count := |CatalogRecipes(c).value|;
      if record.source < 0 || record.source >= count || SelectEpoch(k, c, epochId, record.anchorHash, 0).None? then None
      else
        var selected := SelectEpoch(k, c, epochId, record.anchorHash, 0).value.source;
        ReplayAttempt(k, c, epochId, record, commitTimestamp, packet, AttemptOf(selected, record.source, count))
  }

  ghost function ReplayAttempt(k: Crypto, c: Catalog, epochId: int, record: EpochRecord, commitTimestamp: int,
                               packet: seq<byte>, attempt: nat): Option<(Selection, Verified)>
    requires epochId >= 1
  {
    if FallbackOpensAt(c.firstEpochStart, epochId, attempt).None? then None
    else if record.committedBlock < FallbackOpensAt(c.firstEpochStart, epochId, attempt).value then None
    else if SelectEpoch(k, c, epochId, record.anchorHash, attempt).None? || DecodePacket(k, packet).None? then None
    else
      var s := SelectEpoch(k, c, epochId, record.anchorHash, attempt).value;
      var (request, a) := DecodePacket(k, packet).value;
      if request != s.definition.canonicalRequest || VerifyAttestation(k, s, a, commitTimestamp).None? then None
      else
        var v := VerifyAttestation(k, s, a, commitTimestamp).value;
        if RecordMatches(k, c, epochId, record, s, v, a) then Some((s, v)) else None
  }

  ghost predicate RecordMatches(k: Crypto, c: Catalog, epochId: int, r: EpochRecord, s: Selection, v: Verified,
      a: Attestation)
    requires epochId >= 1
  {
    && r.epochHash == EpochHash(k, c, epochId, r.anchorHash, s, v) && r.catalogHash == CatalogHash(k, c)
    && r.source == s.source && r.queryHash == s.queryHash && r.dataHash == v.dataHash
    && r.attestationHash == v.attestationHash && r.signedAt == a.timestamp
  }

  // ---- what replay accepts

  /**
   What one attempt produces: the record and packet of an attestation committed in a block and at a time, if the
   attempt exists, its window is open and the attestation verifies.
   */
  ghost function Produce(k: Crypto, c: Catalog, epochId: int, anchor: nat, attempt: nat, a: Attestation, block: int,
      time: int)
      : Option<(EpochRecord, seq<byte>)>
  {
    var s := SelectEpoch(k, c, epochId, anchor, attempt);
    if s.None? || EpochStart(c.firstEpochStart, epochId).None? then None
    else if block < EpochStart(c.firstEpochStart, epochId).value + attempt * FALLBACK_DELAY_BLOCKS then None
    else if VerifyAttestation(k, s.value, a, time).None? then None
    else if EncodePacket(k, s.value.definition.canonicalRequest, a).None? then None
    else
      var v := VerifyAttestation(k, s.value, a, time).value;
      Some((EpochRecord(EpochHash(k, c, epochId, anchor, s.value, v), CatalogHash(k, c), anchor, s.value.source,
          s.value.queryHash,
                        v.dataHash, v.attestationHash, a.timestamp, block),
            EncodePacket(k, s.value.definition.canonicalRequest, a).value))
  }

  /** Some attempt produces exactly this record and packet. */
  ghost predicate Produced(k: Crypto, c: Catalog, epochId: int, record: EpochRecord, time: int, packet: seq<byte>) {
    exists attempt: nat, a ::
      Produce(k, c, epochId, record.anchorHash, attempt, a, record.committedBlock, time) == Some((record, packet))
  }

  /** The slots of two attempts of one epoch, and which attempt a slot stands for. */
  lemma SelectionSlots(k: Crypto, c: Catalog, epochId: int, anchor: nat, attempt: nat)
    requires SelectEpoch(k, c, epochId, anchor, attempt).Some?
    ensures var count := |CatalogRecipes(c).value|;
            && CatalogRecipes(c).Some? && attempt < count && count <= MAX_EPOCH_SOURCES && epochId >= 1
            && SelectedSlot(k, c, epochId, anchor, count) < count
            && var source := SelectEpoch(k, c, epochId, anchor, attempt).value.source;
               && source == Slot(SelectedSlot(k, c, epochId, anchor, count), attempt, count) < count
               && attempt == AttemptOf(SelectedSlot(k, c, epochId, anchor, count), source, count)
  {
    var count := |CatalogRecipes(c).value|;
    var selected := SelectedSlot(k, c, epochId, anchor, count);
    DivMod(selected + attempt, count);
    LadderVisitsOnce(selected, Slot(selected, attempt, count), count, attempt);
  }

  /** Attempt 0 uses the selected slot. */
  lemma FirstAttemptSlot(k: Crypto, c: Catalog, epochId: int, anchor: nat)
    requires SelectEpoch(k, c, epochId, anchor, 0).Some?
    ensures CatalogRecipes(c).Some?
    ensures SelectEpoch(k, c, epochId, anchor, 0).value.source
            == SelectedSlot(k, c, epochId, anchor, |CatalogRecipes(c).value|)
  {
    ModWithinTwo(SelectedSlot(k, c, epochId, anchor, |CatalogRecipes(c).value|), |CatalogRecipes(c).value|);
  }

  /** What an accepted record and packet were made of. */
  lemma AcceptedIsProduced(k: Crypto, c: Catalog, epochId: int, record: EpochRecord, time: int, packet: seq<byte>)
    requires k.Sound() && Replay(k, c, epochId, record, time, packet).Some?
    ensures Produced(k, c, epochId, record, time, packet)
    ensures SelectEpoch(k, c, epochId, record.anchorHash, 0).Some?
  {
    var count := |CatalogRecipes(c).value|;
    var attempt := AttemptOf(SelectEpoch(k, c, epochId, record.anchorHash, 0).value.source, record.source, count);
    var (request, a) := DecodePacket(k, packet).value;
    PacketRoundTrip(k, packet, request, a);
    assert Produce(k, c, epochId, record.anchorHash, attempt, a, record.committedBlock, time) == Some((record, packet));
  }

  /** What an attempt produces passes the checks that replay makes for that attempt. */
  lemma ProducedPasses(k: Crypto, c: Catalog, epochId: int, anchor: nat, attempt: nat, a: Attestation, block: int,
      time: int)
    requires k.Sound() && epochId >= 1 && attempt < MAX_EPOCH_SOURCES
    requires Produce(k, c, epochId, anchor, attempt, a, block, time).Some?
    ensures var (record, packet) := Produce(k, c, epochId, anchor, attempt, a, block, time).value;
            && ReplayAttempt(k, c, epochId, record, time, packet, attempt).Some?
            && ReplayAttempt(k, c, epochId, record, time, packet, attempt).value.0
               == SelectEpoch(k, c, epochId, anchor, attempt).value
  {
    var (record, packet) := Produce(k, c, epochId, anchor, attempt, a, block, time).value;
    PacketRoundTrip(k, packet, SelectEpoch(k, c, epochId, anchor, attempt).value.definition.canonicalRequest, a);
  }

  /** Replay looks at the attempt a record's source stands for. */
  lemma ReplayUses(k: Crypto, c: Catalog, epochId: int, record: EpochRecord, time: int, packet: seq<byte>, attempt: nat)
    requires SelectEpoch(k, c, epochId, record.anchorHash, 0).Some?
    requires SelectEpoch(k, c, epochId, record.anchorHash, attempt).Some?
    requires record.source == SelectEpoch(k, c, epochId, record.anchorHash, attempt).value.source
    ensures epochId >= 1 && attempt < MAX_EPOCH_SOURCES
    ensures Replay(k, c, epochId, record, time, packet) == ReplayAttempt(k, c, epochId, record, time, packet, attempt)
  {
    SelectionSlots(k, c, epochId, record.anchorHash, attempt);
    FirstAttemptSlot(k, c, epochId, record.anchorHash);
  }

  /** What an attempt produces is accepted, by that attempt. */
  lemma ProducedIsAccepted(k: Crypto, c: Catalog, epochId: int, anchor: nat, attempt: nat, a: Attestation,
      block: int, time: int)
    requires k.Sound() && SelectEpoch(k, c, epochId, anchor, 0).Some?
    requires Produce(k, c, epochId, anchor, attempt, a, block, time).Some?
    ensures var (record, packet) := Produce(k, c, epochId, anchor, attempt, a, block, time).value;
            Replay(k, c, epochId, record, time, packet).Some?
                && Replay(k, c, epochId, record, time, packet).value.0.attempt == attempt
  {
    var (record, packet) := Produce(k, c, epochId, anchor, attempt, a, block, time).value;
    ReplayUses(k, c, epochId, record, time, packet, attempt);
    ProducedPasses(k, c, epochId, anchor, attempt, a, block, time);
  }

  /**
   Replay accepts a record and packet exactly when some attempt below the source count, committed at or after its
   window opened and with a verified attestation, produces them, and the recipe first selected resolves.
   */
  lemma ReplayAcceptsIffProduced(k: Crypto, c: Catalog, epochId: int, record: EpochRecord, time: int, packet: seq<byte>)
    requires k.Sound()
    ensures Replay(k, c, epochId, record, time, packet).Some? <==>
            SelectEpoch(k, c, epochId, record.anchorHash, 0).Some? && Produced(k, c, epochId, record, time, packet)
  {
    if Replay(k, c, epochId, record, time, packet).Some? {
      AcceptedIsProduced(k, c, epochId, record, time, packet);
    }
    if SelectEpoch(k, c, epochId, record.anchorHash, 0).Some? && Produced(k, c, epochId, record, time, packet) {
      var attempt: nat, a :|
        Produce(k, c, epochId, record.anchorHash, attempt, a, record.committedBlock, time) == Some((record, packet));
      ProducedIsAccepted(k, c, epochId, record.anchorHash, attempt, a, record.committedBlock, time);
    }
  }

  /** The attempt and the attestation of a record and packet are unique. */
  lemma ProducedOnce(k: Crypto, c: Catalog, epochId: int, record: EpochRecord, time: int, packet: seq<byte>,
                     i: nat, a: Attestation, j: nat, b: Attestation)
    requires k.Sound()
    requires Produce(k, c, epochId, record.anchorHash, i, a, record.committedBlock, time) == Some((record, packet))
    requires Produce(k, c, epochId, record.anchorHash, j, b, record.committedBlock, time) == Some((record, packet))
    ensures i == j && a == b
  {
    SelectionSlots(k, c, epochId, record.anchorHash, i);
    SelectionSlots(k, c, epochId, record.anchorHash, j);
    PacketRoundTrip(k, packet, SelectEpoch(k, c, epochId, record.anchorHash, i).value.definition.canonicalRequest, a);
    PacketRoundTrip(k, packet, SelectEpoch(k, c, epochId, record.anchorHash, j).value.definition.canonicalRequest, b);
  }

  /**
   The epoch hash binds everything: two accepted replays with one hash have the same epoch, source, attestation and
   packet.
   */
  lemma EpochHashBinds(k: Crypto, c: Catalog, e: int, r: EpochRecord, time: int, p: seq<byte>,
                       c': Catalog, e': int, r': EpochRecord, time': int, p': seq<byte>)
    requires k.Sound() && r.epochHash == r'.epochHash
    requires Replay(k, c, e, r, time, p).Some? && Replay(k, c', e', r', time', p').Some?
    ensures e == e' && p == p' && DecodePacket(k, p) == DecodePacket(k, p')
    ensures r == r'.(committedBlock := r.committedBlock)
  {
    AcceptedParts(k, c, e, r, time, p);
    AcceptedParts(k, c', e', r', time', p');
  }

  /** What the epoch hash of an accepted record is the hash of. */
  lemma AcceptedParts(k: Crypto, c: Catalog, e: int, r: EpochRecord, time: int, p: seq<byte>)
    requires k.Sound() && Replay(k, c, e, r, time, p).Some?
    ensures e >= 1 && DecodePacket(k, p).Some?
    ensures r.epochHash == k.hashCommitment(
              CommitmentInput(c.chainId, c.registry, r.catalogHash, e, EpochStart(c.firstEpochStart, e).value,
                              r.anchorHash, r.source, r.queryHash, r.dataHash, r.attestationHash))
    ensures var (request, a) := DecodePacket(k, p).value;
            && r.queryHash == k.hashBytes(request) && r.signedAt == a.timestamp && p == k.encodePacket(request, a)
            && r.attestationHash == k.hashAttestation(r.queryHash, a.timestamp, k.hashBytes(a.data),
               k.hashBytes(a.signature))
  {
    var (request, a) := DecodePacket(k, p).value;
    PacketRoundTrip(k, p, request, a);
  }

  // ---- a book that grows

  /** A catalog that differs in its book only, which holds at least as much. */
  ghost predicate Extends(c: Catalog, d: Catalog) {
    && d == c.(book := d.book)
    && forall id :: id in c.book ==> id in d.book && d.book[id] == c.book[id]
  }

  lemma SelectionStays(k: Crypto, c: Catalog, d: Catalog, epochId: int, anchor: nat, attempt: int)
    requires Extends(c, d) && SelectEpoch(k, c, epochId, anchor, attempt).Some?
    ensures SelectEpoch(k, d, epochId, anchor, attempt) == SelectEpoch(k, c, epochId, anchor, attempt)
  {
    var recipes := CatalogRecipes(c).value;
    var source := SelectEpoch(k, c, epochId, anchor, attempt).value.source;
    assert CatalogRecipes(d) == CatalogRecipes(c) && CatalogHash(k, d) == CatalogHash(k, c);
    assert recipes[source] in c.book;
  }

  /** Recipes registered later change nothing for what replays already. */
  lemma ReplayStays(k: Crypto, c: Catalog, d: Catalog, epochId: int, record: EpochRecord, time: int, packet: seq<byte>)
    requires Extends(c, d) && Replay(k, c, epochId, record, time, packet).Some?
    ensures Replay(k, d, epochId, record, time, packet) == Replay(k, c, epochId, record, time, packet)
  {
    var attempt := Replay(k, c, epochId, record, time, packet).value.0.attempt;
    SelectionStays(k, c, d, epochId, record.anchorHash, 0);
    SelectionStays(k, c, d, epochId, record.anchorHash, attempt);
    assert CatalogRecipes(d) == CatalogRecipes(c) && CatalogHash(k, d) == CatalogHash(k, c);
    ReplayUses(k, c, epochId, record, time, packet, attempt);
    ReplayUses(k, d, epochId, record, time, packet, attempt);
  }

  /** Where the book already holds all the catalog's recipes, more of them change nothing, for what replays or not. */
  lemma ReplaySame(k: Crypto, c: Catalog, d: Catalog, epochId: int, record: EpochRecord, time: int, packet: seq<byte>)
    requires Extends(c, d) && CatalogRecipes(c).Some?
    requires forall i :: 0 <= i < |CatalogRecipes(c).value| ==> CatalogRecipes(c).value[i] in c.book
    ensures Replay(k, d, epochId, record, time, packet) == Replay(k, c, epochId, record, time, packet)
  {
    assert CatalogRecipes(d) == CatalogRecipes(c) && CatalogHash(k, d) == CatalogHash(k, c);
    forall attempt: int
      ensures SelectEpoch(k, d, epochId, record.anchorHash, attempt)
              == SelectEpoch(k, c, epochId, record.anchorHash, attempt)
    {
      SelectionSame(k, c, d, epochId, record.anchorHash, attempt);
    }
    if epochId >= 1 {
      forall attempt: nat
        ensures ReplayAttempt(k, d, epochId, record, time, packet, attempt)
                == ReplayAttempt(k, c, epochId, record, time, packet, attempt)
      {
        AttemptSame(k, c, d, epochId, record, time, packet, attempt);
      }
    }
  }

  lemma SelectionSame(k: Crypto, c: Catalog, d: Catalog, epochId: int, anchor: nat, attempt: int)
    requires Extends(c, d) && CatalogRecipes(c).Some?
    requires forall i :: 0 <= i < |CatalogRecipes(c).value| ==> CatalogRecipes(c).value[i] in c.book
    ensures SelectEpoch(k, d, epochId, anchor, attempt) == SelectEpoch(k, c, epochId, anchor, attempt)
  {
    assert CatalogRecipes(d) == CatalogRecipes(c) && CatalogHash(k, d) == CatalogHash(k, c);
  }

  lemma AttemptSame(k: Crypto, c: Catalog, d: Catalog, epochId: int, record: EpochRecord, time: int,
      packet: seq<byte>, attempt: nat)
    requires Extends(c, d) && epochId >= 1 && CatalogHash(k, d) == CatalogHash(k, c)
    requires SelectEpoch(k, d, epochId, record.anchorHash, attempt)
             == SelectEpoch(k, c, epochId, record.anchorHash, attempt)
    ensures ReplayAttempt(k, d, epochId, record, time, packet, attempt)
            == ReplayAttempt(k, c, epochId, record, time, packet, attempt)
  {
  }

  // ---- the recipe first selected

  /** The recipe in a catalog's first-selected slot. */
  ghost function FirstRecipe(k: Crypto, c: Catalog, epochId: int, anchor: nat): int
    requires CatalogRecipes(c).Some?
  {
    CatalogRecipes(c).value[SelectedSlot(k, c, epochId, anchor, |CatalogRecipes(c).value|)]
  }

  lemma OtherSlot(selected: nat, attempt: nat, count: nat)
    requires selected < count && 0 < attempt < count
    ensures Slot(selected, attempt, count) < count && Slot(selected, attempt, count) != selected
    ensures Slot(selected, 0, count) == selected
  {
    ModWithinTwo(selected + attempt, count);
    ModWithinTwo(selected, count);
  }

  /** Without the recipe first selected, the other attempts select as before and the first selects nothing. */
  lemma SelectionWithoutFirst(k: Crypto, c: Catalog, epochId: int, anchor: nat, attempt: nat)
    requires attempt > 0 && SelectEpoch(k, c, epochId, anchor, attempt).Some?
    ensures CatalogRecipes(c).Some?
    ensures var d := c.(book := c.book - {FirstRecipe(k, c, epochId, anchor)});
            && SelectEpoch(k, d, epochId, anchor, attempt) == SelectEpoch(k, c, epochId, anchor, attempt)
            && SelectEpoch(k, d, epochId, anchor, 0).None?
  {
    var recipes, first := CatalogRecipes(c).value, FirstRecipe(k, c, epochId, anchor);
    var d, count := c.(book := c.book - {first}), |recipes|;
    var selected := SelectedSlot(k, c, epochId, anchor, count);
    OtherSlot(selected, attempt, count);
    var source := Slot(selected, attempt, count);
    assert recipes[source] != first;
    SelectionIs(k, c, epochId, anchor, attempt, recipes, source);
    SelectionIs(k, d, epochId, anchor, attempt, recipes, source);
    SelectionIs(k, d, epochId, anchor, 0, recipes, selected);
  }

  /**
   A fallback that one attempt produces is refused by replay without the definition of the recipe first selected, which
   the fallback does not use: taking that definition out of the book changes what is accepted, not what is produced.
   */
  lemma MissingFirstRecipe(k: Crypto, c: Catalog, epochId: int, anchor: nat, attempt: nat, a: Attestation,
      block: int, time: int)
    requires attempt > 0 && Produce(k, c, epochId, anchor, attempt, a, block, time).Some?
    ensures CatalogRecipes(c).Some?
    ensures var d := c.(book := c.book - {FirstRecipe(k, c, epochId, anchor)});
            && Produce(k, d, epochId, anchor, attempt, a, block, time)
               == Produce(k, c, epochId, anchor, attempt, a, block, time)
            && var (record, packet) := Produce(k, c, epochId, anchor, attempt, a, block, time).value;
               Replay(k, d, epochId, record, time, packet).None?
  {
    SelectionWithoutFirst(k, c, epochId, anchor, attempt);
  }
}
