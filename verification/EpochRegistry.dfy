/**
 The registry contract whose commitments epochs are (contracts/EpochEntropy.sol), as the transactions of its owner and
 committers, and what ties it to the replay of src/epoch.ts. For signed recipes the contract publishes exactly what
 replay accepts. For a beacon the contract asks the verifier registered with it, the replay its own scheme, so there it
 publishes what replay accepts exactly where the two agree.
 */
module EpochRegistry {
  import opened Common
  import opened Arithmetic
  import opened Templates
  import opened Matcher
  import opened BeaconCodec
  import opened Rounds
  import opened Epoch

  datatype Version = Version(fromEpoch: int, recipes: seq<int>, signers: seq<nat>)

  /** The contract's storage, and of every committed epoch the block time and packet of its event. */
  datatype Registry = Registry(
    chainId: nat, address: nat, firstEpochStart: int, initialSigners: seq<nat>,
    recipes: seq<Recipe>, catalogs: seq<Version>,
    anchors: map<int, nat>, epochs: map<int, EpochRecord>, events: map<int, (int, seq<byte>)>)

  /**
   The block a transaction is in. A block hash out of range is 0; `verifies` and `takesKey` are what the contracts that
   beacons name as their verifiers answer in that block.
   */
  datatype Block = Block(
    number: int, time: int, hashOf: int -> nat,
    verifies: (nat, seq<byte>, int, seq<byte>) -> bool,
    takesKey: (nat, seq<byte>) -> bool)

  datatype Transaction =
    | RegisterRecipe(canonicalRequest: seq<byte>, template: seq<byte>, body: seq<byte>)
    | RegisterBeacon(beacon: BeaconKey, sampleRound: int, sampleSignature: seq<byte>)
    | ScheduleCatalog(recipes: seq<int>, signers: seq<nat>, fromEpoch: int)
    | CheckpointEpoch(epochId: int)
    | CommitEpoch(epochId: int, attempt: nat, attestation: Attestation)

  // ---- the catalog of an epoch

  /** One plus the index of the last version that begins at or before an epoch, 0 for none. */
  ghost function VersionAt(catalogs: seq<Version>, epochId: int): nat {
    if catalogs == [] then 0
    else if epochId >= catalogs[|catalogs| - 1].fromEpoch then |catalogs|
    else VersionAt(catalogs[..|catalogs| - 1], epochId)
  }

  lemma {:induction false} VersionInRange(catalogs: seq<Version>, epochId: int)
    ensures VersionAt(catalogs, epochId) <= |catalogs|
  {
    if catalogs != [] { VersionInRange(catalogs[..|catalogs| - 1], epochId); }
  }

  datatype CatalogView = CatalogView(hash: nat, recipes: seq<int>, signers: seq<nat>)

  ghost function CatalogAt(k: Crypto, r: Registry, epochId: int): CatalogView {
    VersionInRange(r.catalogs, epochId);
    var version := VersionAt(r.catalogs, epochId);
    if version == 0 then CatalogView(k.hashInitialCatalog(r.initialSigners), INITIAL_RECIPES, r.initialSigners)
    else
      var v := r.catalogs[version - 1];
      CatalogView(k.hashCatalog(v.recipes, v.signers), v.recipes, v.signers)
  }

  // ---- transactions

  ghost function Appended(r: Registry, recipe: Recipe): Option<Registry> {
    if |r.recipes| >= MAX_EPOCH_RECIPES
       || !(1 <= |recipe.canonicalRequest| <= MAX_RECIPE_REQUEST_BYTES)
           || !(1 <= |recipe.body| <= MAX_RECIPE_BODY_BYTES)
       || !WellFormed(recipe.template) then None
    else Some(r.(recipes := r.recipes + [recipe]))
  }

  /** A beacon registers with a past round whose signature its verifier accepts. */
  ghost predicate MayRegister(block: Block, b: BeaconKey, round: int, signature: seq<byte>) {
    && b.verifier != 0 && b.chainHash != 0 && b.genesis >= 1 && b.period >= 1 && round >= 1
    && Due(b.genesis, b.period, round) <= block.time
    && block.takesKey(b.verifier, b.publicKey) && block.verifies(b.verifier, b.publicKey, round, signature)
  }

  /** What a new catalog must list: registered recipes without repeats, each with a signer, a beacon with its own. */
  ghost predicate MaySchedule(k: Crypto, r: Registry, recipes: seq<int>, signers: seq<nat>) {
    && 1 <= |recipes| <= MAX_EPOCH_SOURCES && |signers| == |recipes| && Distinct(recipes)
    && (forall i :: 0 <= i < |recipes| ==> Listed(k, r, recipes[i], signers[i]))
  }

  ghost predicate Listed(k: Crypto, r: Registry, recipe: int, signer: nat) {
    && 0 <= recipe < |r.recipes| && signer != 0
    && (r.recipes[recipe].beacon.Some? ==> signer == k.slotSigner(r.recipes[recipe].beacon.value))
  }

  /** The versions a new one is put behind: one that is still two epochs or more away is replaced. */
  ghost function Kept(r: Registry, current: int): seq<Version> {
    if r.catalogs != [] && r.catalogs[|r.catalogs| - 1].fromEpoch > current + 1
    then r.catalogs[..|r.catalogs| - 1] else r.catalogs
  }

  ghost function AnchorAt(r: Registry, block: Block, epochId: int): Option<nat> {
    if EpochStart(r.firstEpochStart, epochId).None? then None
    else
      var start := EpochStart(r.firstEpochStart, epochId).value;
      var anchor := if epochId in r.anchors && r.anchors[epochId] != 0 then r.anchors[epochId]
          else block.hashOf(start - 1);
      if block.number < start || anchor == 0 then None else Some(anchor)
  }

  /** Digits only, as the beacon template guarantees. */
  ghost function Decimal(d: seq<byte>): nat {
    if forall i :: 0 <= i < |d| ==> IsDigit(d[i]) then FromDecimal(d) else 0
  }

  /** Whether the contract takes an attestation for a recipe and signer. */
  ghost predicate Admits(k: Crypto, block: Block, recipe: Recipe, airnode: nat, queryHash: nat, a: Attestation) {
    && a.timestamp <= block.time && block.time - a.timestamp <= MAX_ATTESTATION_AGE
    && AcceptsData(recipe.template, a.data)
    && match recipe.beacon
       case None =>
         && k.canonicalSignature(a.signature)
         && k.recover(k.digest(queryHash, a.timestamp, a.data), a.signature) == airnode
       case Some(b) =>
         && a.timestamp == b.genesis + (Decimal(a.data) - 1) * b.period
         && block.verifies(b.verifier, b.publicKey, Decimal(a.data), a.signature)
  }

  /** The slot an attempt uses. */
  ghost function SourceOf(k: Crypto, view: CatalogView, epochId: int, anchor: nat, attempt: nat): (source: nat)
    requires view.recipes != []
    ensures source < |view.recipes|
  {
    DivMod(k.hashSelector(view.hash, epochId, anchor) % |view.recipes| + attempt, |view.recipes|);
    (k.hashSelector(view.hash, epochId, anchor) % |view.recipes| + attempt) % |view.recipes|
  }

  /** The record of an attestation for a recipe. */
  ghost function RecordOf(k: Crypto, r: Registry, view: CatalogView, number: int, epochId: int, source: nat,
      recipe: Recipe, a: Attestation, anchor: nat)
      : EpochRecord
  {
    var start := r.firstEpochStart + (epochId - 1) * EPOCH_LENGTH;
    var queryHash := k.hashBytes(recipe.canonicalRequest);
    var dataHash := k.hashBytes(a.data);
    var attestationHash := k.hashAttestation(queryHash, a.timestamp, dataHash, k.hashBytes(a.signature));
    var commitment := k.hashCommitment(CommitmentInput(r.chainId, r.address, view.hash, epochId, start, anchor, source,
                                                       queryHash, dataHash, attestationHash));
    EpochRecord(commitment, view.hash, anchor, source, queryHash, dataHash, attestationHash, a.timestamp, number)
  }

  /** The record and event a commit makes of an attempt and its attestation, if the contract takes them. */
  ghost function Committed(k: Crypto, r: Registry, view: CatalogView, block: Block, epochId: int, attempt: nat,
      a: Attestation, anchor: nat)
      : Option<(EpochRecord, seq<byte>)>
  {
    if epochId < 1 || attempt >= |view.recipes| || |view.signers| != |view.recipes| then None
    else if block.number < r.firstEpochStart + (epochId - 1) * EPOCH_LENGTH + attempt * FALLBACK_DELAY_BLOCKS then None
    else
      var source := SourceOf(k, view, epochId, anchor, attempt);
      if view.recipes[source] < 0 || view.recipes[source] >= |r.recipes| then None
      else
        var recipe := r.recipes[view.recipes[source]];
        if !Admits(k, block, recipe, view.signers[source], k.hashBytes(recipe.canonicalRequest), a) then None
        else if |k.encodePacket(recipe.canonicalRequest, a)| > MAX_PACKET_BYTES then None
        else Some((RecordOf(k, r, view, block.number, epochId, source, recipe, a, anchor),
            k.encodePacket(recipe.canonicalRequest, a)))
  }

  /** What a transaction makes of the registry, or nothing where it reverts. */
  ghost function Transact(k: Crypto, r: Registry, block: Block, tx: Transaction): Option<Registry> {
    match tx
    case RegisterRecipe(request, template, body) => Appended(r, Recipe(request, template, body, None))
    case RegisterBeacon(b, round, signature) =>
      if !MayRegister(block, b, round, signature) then None
      else Appended(r, Recipe(k.beaconRequest(b.chainHash), BEACON_TEMPLATE, k.beaconRequest(b.chainHash), Some(b)))
    case ScheduleCatalog(recipes, signers, fromEpoch) =>
      var current := EpochForBlock(r.firstEpochStart, block.number);
      if !MaySchedule(k, r, recipes, signers) || fromEpoch < current + 2 then None
      else Some(r.(catalogs := Kept(r, current) + [Version(fromEpoch, recipes, signers)]))
    case CheckpointEpoch(epochId) =>
      if AnchorAt(r, block, epochId).None? then None
      else Some(r.(anchors := r.anchors[epochId := AnchorAt(r, block, epochId).value]))
    case CommitEpoch(epochId, attempt, a) =>
      if epochId in r.epochs || AnchorAt(r, block, epochId).None? then None
      else
        var anchor := AnchorAt(r, block, epochId).value;
        var made := Committed(k, r, CatalogAt(k, r, epochId), block, epochId, attempt, a, anchor);
        if made.None? then None
        else Some(r.(anchors := r.anchors[epochId := anchor],
                     epochs := r.epochs[epochId := made.value.0],
                     events := r.events[epochId := (block.time, made.value.1)]))
  }

  // ---- how the replay reads the registry

  ghost function Book(r: Registry): map<int, Recipe> {
    map id | 0 <= id < |r.recipes| :: r.recipes[id]
  }

  /** `resolveEpochCatalog`: the catalog of a view, the initial one recognised by its hash. */
  ghost function ResolveCatalog(k: Crypto, r: Registry, view: CatalogView): Option<Catalog> {
    var base := Catalog(view.signers, None, r.address, r.chainId, r.firstEpochStart, Book(r));
    if view.recipes == INITIAL_RECIPES && k.hashInitialCatalog(view.signers) == view.hash then Some(base)
    else if k.hashCatalog(view.recipes, view.signers) != view.hash then None
    else Some(base.(recipes := Some(view.recipes)))
  }

  /** Every view the registry gives resolves, to a catalog with its hash, recipes and signers. */
  lemma ViewsResolve(k: Crypto, r: Registry, epochId: int)
    ensures var view := CatalogAt(k, r, epochId);
            && ResolveCatalog(k, r, view).Some?
            && CatalogHash(k, ResolveCatalog(k, r, view).value) == view.hash
            && ResolveCatalog(k, r, view).value.signers == view.signers
            && (ValidSlots(view.recipes, view.signers) ==>
               CatalogRecipes(ResolveCatalog(k, r, view).value) == Some(view.recipes))
  {
  }

  ghost function CatalogOf(k: Crypto, r: Registry, epochId: int): Catalog {
    ViewsResolve(k, r, epochId);
    ResolveCatalog(k, r, CatalogAt(k, r, epochId)).value
  }

  // ---- the invariant

  ghost predicate ValidVersion(k: Crypto, r: Registry, v: Version) {
    MaySchedule(k, r, v.recipes, v.signers)
  }

  /** Recipes follow the registration rules, and the first four are signed ones. */
  ghost predicate ValidBook(k: Crypto, r: Registry) {
    && |INITIAL_RECIPES| <= |r.recipes| <= MAX_EPOCH_RECIPES
    && (forall id :: 0 <= id < |r.recipes| ==> Registrable(k, r.recipes[id]))
    && (forall id :: 0 <= id < |INITIAL_RECIPES| ==> r.recipes[id].beacon.None?)
    && |r.initialSigners| == |INITIAL_RECIPES| && (forall i :: 0 <= i < |r.initialSigners| ==> r.initialSigners[i] != 0)
  }

  /** Versions begin at ascending epochs, and only the last can be more than one epoch away. */
  ghost predicate ValidVersions(k: Crypto, r: Registry, current: int) {
    && (forall i :: 0 <= i < |r.catalogs| ==> ValidVersion(k, r, r.catalogs[i]))
    && (forall i, j :: 0 <= i < j < |r.catalogs| ==> r.catalogs[i].fromEpoch < r.catalogs[j].fromEpoch)
    && (forall i :: 0 <= i < |r.catalogs| - 1 ==> r.catalogs[i].fromEpoch <= current + 1)
  }

  // ---- the contract publishes what replay accepts

  /** Every view lists registered recipes with good signers. */
  lemma ViewIsValid(k: Crypto, r: Registry, current: int, epochId: int)
    requires ValidBook(k, r) && ValidVersions(k, r, current)
    ensures var view := CatalogAt(k, r, epochId);
            && ValidSlots(view.recipes, view.signers)
            && forall i :: 0 <= i < |view.recipes| ==> Listed(k, r, view.recipes[i], view.signers[i])
  {
    VersionInRange(r.catalogs, epochId);
    var version := VersionAt(r.catalogs, epochId);
    if version > 0 {
      var v := r.catalogs[version - 1];
      assert ValidVersion(k, r, v);
      forall i | 0 <= i < |v.recipes| ensures 0 <= v.recipes[i] < MAX_EPOCH_RECIPES && v.signers[i] != 0 {
        assert Listed(k, r, v.recipes[i], v.signers[i]);
      }
    }
  }

  /** Data the beacon template accepts is one round number, which fits and which the contract reads as replay does. */
  lemma BeaconDataDecodes(d: seq<byte>)
    requires AcceptsData(BEACON_TEMPLATE, d)
    ensures DecodedRound(d) == Some(Decimal(d)) && 1 <= Decimal(d) <= MAX_UINT64
  {
    var ss :| Describes(BEACON_TEMPLATE, ss) && Matches(ss, d);
    BeaconTemplateDescribed();
    DescribesUnique(BEACON_TEMPLATE, ss, BEACON_SEGMENTS);
    BeaconDataIsCanonical(d);
    DecimalInverse(d);
    DigitsBelowLimit(FromDecimal(d));
  }

  /**
   Whether the replay's own scheme accepts what an attestation says of a beacon; a signed recipe has no such question.
   */
  ghost predicate ReplayTakes(k: Crypto, recipe: Recipe, a: Attestation) {
    && KeyFits(recipe)
    && (recipe.beacon.Some? ==> k.signedRound(recipe.beacon.value.publicKey, Decimal(a.data), a.signature))
  }

  /** Whether the beacon's registered verifier accepts it. */
  ghost predicate VerifierTakes(block: Block, recipe: Recipe, a: Attestation) {
    recipe.beacon.Some? ==>
      block.verifies(recipe.beacon.value.verifier, recipe.beacon.value.publicKey, Decimal(a.data), a.signature)
  }

  /**
   The contract's checks on an attestation are replay's, for a slot listed as the registry lists it, up to who verifies
   a beacon's signature.
   */
  lemma AdmitsIffVerifies(k: Crypto, block: Block, s: Selection, a: Attestation)
    requires ValidRecipe(k, s.definition)
    requires s.definition.beacon.Some? ==> s.airnode == k.slotSigner(s.definition.beacon.value)
    ensures Admits(k, block, s.definition, s.airnode, s.queryHash, a) ==> VerifierTakes(block, s.definition, a)
    ensures VerifyAttestation(k, s, a, block.time).Some? ==> ReplayTakes(k, s.definition, a)
    ensures Admits(k, block, s.definition, s.airnode, s.queryHash, a) && ReplayTakes(k, s.definition, a) <==>
            VerifyAttestation(k, s, a, block.time).Some? && VerifierTakes(block, s.definition, a)
  {
    if s.definition.beacon.Some? && AcceptsData(s.definition.template, a.data) {
      BeaconDataDecodes(a.data);
    }
  }

  /** A catalog the replay works with stands for what the registry gives. */
  ghost predicate Represents(k: Crypto, r: Registry, view: CatalogView, c: Catalog) {
    && CatalogRecipes(c) == Some(view.recipes) && CatalogHash(k, c) == view.hash && c.signers == view.signers
    && HoldsBook(c, r) && c.registry == r.address && c.chainId == r.chainId && c.firstEpochStart == r.firstEpochStart
  }

  ghost predicate HoldsBook(c: Catalog, r: Registry) {
    forall id :: 0 <= id < |r.recipes| ==> id in c.book && c.book[id] == r.recipes[id]
  }

  ghost predicate AllListed(k: Crypto, r: Registry, view: CatalogView) {
    && |view.recipes| == |view.signers| && view.recipes != []
    && forall i :: 0 <= i < |view.recipes| ==> Listed(k, r, view.recipes[i], view.signers[i])
  }

  lemma CatalogRepresents(k: Crypto, r: Registry, current: int, epochId: int)
    requires ValidBook(k, r) && ValidVersions(k, r, current)
    ensures Represents(k, r, CatalogAt(k, r, epochId), CatalogOf(k, r, epochId))
    ensures AllListed(k, r, CatalogAt(k, r, epochId))
  {
    ViewIsValid(k, r, current, epochId);
    ViewsResolve(k, r, epochId);
  }

  lemma ListedResolves(k: Crypto, r: Registry, c: Catalog, recipe: int, signer: nat)
    requires ValidBook(k, r) && HoldsBook(c, r) && Listed(k, r, recipe, signer)
    ensures recipe in c.book && c.book[recipe] == r.recipes[recipe]
    ensures Resolves(k, c, recipe) <==> KeyFits(r.recipes[recipe])
  {
  }

  lemma SourceListed(k: Crypto, r: Registry, view: CatalogView, epochId: int, anchor: nat, attempt: nat)
    requires AllListed(k, r, view)
    ensures var source := SourceOf(k, view, epochId, anchor, attempt);
            Listed(k, r, view.recipes[source], view.signers[source])
  {
  }

  ghost function ContractSelection(k: Crypto, r: Registry, view: CatalogView, epochId: int, anchor: nat,
      attempt: nat): Selection
    requires AllListed(k, r, view)
  {
    SourceListed(k, r, view, epochId, anchor, attempt);
    var source := SourceOf(k, view, epochId, anchor, attempt);
    var recipe := r.recipes[view.recipes[source]];
    Selection(source, attempt, view.signers[source], k.hashBytes(recipe.canonicalRequest), recipe)
  }

  /**
   The selection replay makes for an attempt is the contract's; it makes none for a beacon whose key it cannot use.
   */
  lemma SelectionAgrees(k: Crypto, r: Registry, view: CatalogView, c: Catalog, epochId: int, anchor: nat, attempt: nat)
    requires ValidBook(k, r) && Represents(k, r, view, c) && AllListed(k, r, view)
    requires epochId >= 1 && anchor != 0 && attempt < |view.recipes|
    ensures var s := ContractSelection(k, r, view, epochId, anchor, attempt);
            SelectEpoch(k, c, epochId, anchor, attempt) == if KeyFits(s.definition) then Some(s) else None
  {
    var source := SourceOf(k, view, epochId, anchor, attempt);
    SourceListed(k, r, view, epochId, anchor, attempt);
    ListedResolves(k, r, c, view.recipes[source], view.signers[source]);
    SelectionOfView(k, view, c, epochId, anchor, attempt, source);
  }

  lemma SelectionOfView(k: Crypto, view: CatalogView, c: Catalog, epochId: int, anchor: nat, attempt: nat, source: nat)
    requires epochId >= 1 && anchor != 0 && attempt < |view.recipes| == |view.signers|
    requires CatalogRecipes(c) == Some(view.recipes) && CatalogHash(k, c) == view.hash && c.signers == view.signers
    requires source == SourceOf(k, view, epochId, anchor, attempt) && view.recipes[source] in c.book
    ensures var recipe := c.book[view.recipes[source]];
            SelectEpoch(k, c, epochId, anchor, attempt) ==
            if Resolves(k, c, view.recipes[source])
            then Some(Selection(source, attempt, view.signers[source], k.hashBytes(recipe.canonicalRequest), recipe))
                else None
  {
    SelectionIs(k, c, epochId, anchor, attempt, view.recipes, source);
  }

  /** The record of an attestation is the one replay recomputes. */
  lemma RecordAgrees(k: Crypto, r: Registry, view: CatalogView, c: Catalog, number: int, epochId: int, anchor: nat,
      s: Selection, v: Verified, a: Attestation)
    requires Represents(k, r, view, c) && epochId >= 1
    requires s.queryHash == k.hashBytes(s.definition.canonicalRequest)
    requires v == Verified(k.hashBytes(a.data), AttestationHash(k, s.queryHash, a), s.airnode)
    ensures RecordOf(k, r, view, number, epochId, s.source, s.definition, a, anchor)
            == EpochRecord(EpochHash(k, c, epochId, anchor, s, v), CatalogHash(k, c), anchor, s.source, s.queryHash,
                           v.dataHash, v.attestationHash, a.timestamp, number)
  {
  }

  /** The recipe an attempt uses. */
  ghost function RecipeOf(k: Crypto, r: Registry, view: CatalogView, epochId: int, anchor: nat, attempt: nat): Recipe
    requires AllListed(k, r, view)
  {
    ContractSelection(k, r, view, epochId, anchor, attempt).definition
  }

  /** An attempt that does not exist makes nothing. */
  lemma NoSuchAttempt(k: Crypto, r: Registry, view: CatalogView, c: Catalog, block: Block, epochId: int,
      attempt: nat, a: Attestation, anchor: nat)
    requires Represents(k, r, view, c) && (epochId < 1 || attempt >= |view.recipes|)
    ensures Committed(k, r, view, block, epochId, attempt, a, anchor).None?
    ensures Produce(k, c, epochId, anchor, attempt, a, block.number, block.time).None?
  {
  }

  /** The window of an attempt is open and its packet is not too long. */
  ghost predicate MayCommit(k: Crypto, r: Registry, block: Block, epochId: int, s: Selection, a: Attestation) {
    && block.number >= r.firstEpochStart + (epochId - 1) * EPOCH_LENGTH + s.attempt * FALLBACK_DELAY_BLOCKS
    && |k.encodePacket(s.definition.canonicalRequest, a)| <= MAX_PACKET_BYTES
  }

  /** The record and packet of a selection and an attestation. */
  ghost function MadeOf(k: Crypto, r: Registry, view: CatalogView, number: int, epochId: int, anchor: nat,
      s: Selection, a: Attestation): (EpochRecord, seq<byte>)
  {
    (RecordOf(k, r, view, number, epochId, s.source, s.definition, a, anchor),
     k.encodePacket(s.definition.canonicalRequest, a))
  }

  lemma CommittedShape(k: Crypto, r: Registry, view: CatalogView, block: Block, epochId: int, attempt: nat,
      a: Attestation, anchor: nat)
    requires AllListed(k, r, view) && epochId >= 1 && attempt < |view.recipes|
    ensures var s := ContractSelection(k, r, view, epochId, anchor, attempt);
            Committed(k, r, view, block, epochId, attempt, a, anchor)
            == if MayCommit(k, r, block, epochId, s, a) && Admits(k, block, s.definition, s.airnode, s.queryHash, a)
               then Some(MadeOf(k, r, view, block.number, epochId, anchor, s, a)) else None
  {
    SourceListed(k, r, view, epochId, anchor, attempt);
  }

  lemma ProducedFrom(k: Crypto, r: Registry, view: CatalogView, c: Catalog, block: Block, epochId: int, s: Selection,
      a: Attestation, anchor: nat)
    requires Represents(k, r, view, c) && epochId >= 1 && s.attempt >= 0
    requires SelectEpoch(k, c, epochId, anchor, s.attempt) == Some(s)
    requires s.queryHash == k.hashBytes(s.definition.canonicalRequest)
    ensures Produce(k, c, epochId, anchor, s.attempt, a, block.number, block.time)
            == if MayCommit(k, r, block, epochId, s, a) && VerifyAttestation(k, s, a, block.time).Some?
               then Some(MadeOf(k, r, view, block.number, epochId, anchor, s, a)) else None
  {
    if VerifyAttestation(k, s, a, block.time).Some? {
      RecordAgrees(k, r, view, c, block.number, epochId, anchor, s, VerifyAttestation(k, s, a, block.time).value, a);
    }
  }

  lemma ProducedShape(k: Crypto, r: Registry, view: CatalogView, c: Catalog, block: Block, epochId: int, attempt: nat,
      a: Attestation, anchor: nat)
    requires ValidBook(k, r) && Represents(k, r, view, c) && AllListed(k, r, view) && anchor != 0
    requires epochId >= 1 && attempt < |view.recipes|
    requires KeyFits(ContractSelection(k, r, view, epochId, anchor, attempt).definition)
    ensures var s := ContractSelection(k, r, view, epochId, anchor, attempt);
            Produce(k, c, epochId, anchor, attempt, a, block.number, block.time)
            == if MayCommit(k, r, block, epochId, s, a) && VerifyAttestation(k, s, a, block.time).Some?
               then Some(MadeOf(k, r, view, block.number, epochId, anchor, s, a)) else None
  {
    SelectionAgrees(k, r, view, c, epochId, anchor, attempt);
    ProducedFrom(k, r, view, c, block, epochId, ContractSelection(k, r, view, epochId, anchor, attempt), a, anchor);
  }

  /** An attempt with a slot and a key replay can use: both sides make the same of it, up to who verifies. */
  lemma AttemptAgrees(k: Crypto, r: Registry, view: CatalogView, c: Catalog, block: Block, epochId: int, attempt: nat,
      a: Attestation, anchor: nat)
    requires ValidBook(k, r) && Represents(k, r, view, c) && AllListed(k, r, view) && anchor != 0
    requires epochId >= 1 && attempt < |view.recipes|
    requires KeyFits(ContractSelection(k, r, view, epochId, anchor, attempt).definition)
    ensures var s := ContractSelection(k, r, view, epochId, anchor, attempt);
            var made := Committed(k, r, view, block, epochId, attempt, a, anchor);
            var produced := Produce(k, c, epochId, anchor, attempt, a, block.number, block.time);
            && (made.Some? ==> VerifierTakes(block, s.definition, a))
            && (produced.Some? ==> ReplayTakes(k, s.definition, a))
            && (made.Some? && ReplayTakes(k, s.definition, a) ==> produced == made)
            && (produced.Some? && VerifierTakes(block, s.definition, a) ==> made == produced)
  {
    CommittedShape(k, r, view, block, epochId, attempt, a, anchor);
    ProducedShape(k, r, view, c, block, epochId, attempt, a, anchor);
    var s := ContractSelection(k, r, view, epochId, anchor, attempt);
    SourceListed(k, r, view, epochId, anchor, attempt);
    assert Listed(k, r, view.recipes[s.source], view.signers[s.source]);
    AdmitsIffVerifies(k, block, s, a);
  }

  /**
   What the contract makes of an attempt that the replay's scheme takes is what replay says the attempt produces, and
   what replay says it produces is what the contract makes of it if the registered verifier takes it.
   */
  lemma CommitsAreProduced(k: Crypto, r: Registry, view: CatalogView, c: Catalog, block: Block, epochId: int,
      attempt: nat, a: Attestation, anchor: nat)
    requires ValidBook(k, r) && Represents(k, r, view, c) && AllListed(k, r, view) && anchor != 0
    ensures var recipe := RecipeOf(k, r, view, epochId, anchor, attempt);
            var made := Committed(k, r, view, block, epochId, attempt, a, anchor);
            var produced := Produce(k, c, epochId, anchor, attempt, a, block.number, block.time);
            && (made.Some? ==> VerifierTakes(block, recipe, a)) && (produced.Some? ==> ReplayTakes(k, recipe, a))
            && (made.Some? && ReplayTakes(k, recipe, a) ==> produced == made)
            && (produced.Some? && VerifierTakes(block, recipe, a) ==> made == produced)
  {
    if epochId < 1 || attempt >= |view.recipes| {
      NoSuchAttempt(k, r, view, c, block, epochId, attempt, a, anchor);
    } else {
      SelectionAgrees(k, r, view, c, epochId, anchor, attempt);
      if KeyFits(ContractSelection(k, r, view, epochId, anchor, attempt).definition) {
        AttemptAgrees(k, r, view, c, block, epochId, attempt, a, anchor);
      }
    }
  }

  /**
   What a record and packet made of an attempt need to replay: keys that fit, and the replay's scheme taking the
   round.
   */
  ghost predicate Replayable(k: Crypto, r: Registry, view: CatalogView, epochId: int, anchor: nat, attempt: nat,
      a: Attestation)
    requires AllListed(k, r, view)
  {
    && KeyFits(RecipeOf(k, r, view, epochId, anchor, 0))
    && ReplayTakes(k, RecipeOf(k, r, view, epochId, anchor, attempt), a)
  }

  /**
   What the contract commits replays exactly when replay can use the key of the recipe first selected and its scheme
   takes the attestation: always a signed one, a beacon round when the signature its verifier accepted is the scheme's.
   */
  lemma CommittedReplaysIff(k: Crypto, r: Registry, current: int, block: Block, epochId: int, attempt: nat,
      a: Attestation, anchor: nat)
    requires k.Sound() && ValidBook(k, r) && ValidVersions(k, r, current) && anchor != 0
    requires Committed(k, r, CatalogAt(k, r, epochId), block, epochId, attempt, a, anchor).Some?
    ensures AllListed(k, r, CatalogAt(k, r, epochId))
    ensures var (record, packet) := Committed(k, r, CatalogAt(k, r, epochId), block, epochId, attempt, a, anchor).value;
            Replay(k, CatalogOf(k, r, epochId), epochId, record, block.time, packet).Some? <==>
            Replayable(k, r, CatalogAt(k, r, epochId), epochId, anchor, attempt, a)
  {
    var view, c := CatalogAt(k, r, epochId), CatalogOf(k, r, epochId);
    CatalogRepresents(k, r, current, epochId);
    var (record, packet) := Committed(k, r, view, block, epochId, attempt, a, anchor).value;
    ReplayAcceptsIffProduced(k, c, epochId, record, block.time, packet);
    SelectionAgrees(k, r, view, c, epochId, anchor, 0);
    CommitsAreProduced(k, r, view, c, block, epochId, attempt, a, anchor);
    if Produced(k, c, epochId, record, block.time, packet) {
      var i: nat, b :| Produce(k, c, epochId, anchor, i, b, block.number, block.time) == Some((record, packet));
      ProducedIsThis(k, r, view, c, block, epochId, attempt, a, anchor, i, b);
    }
  }

  /** What a committed record and packet say of the attempt and attestation. */
  lemma CommittedParts(k: Crypto, r: Registry, view: CatalogView, c: Catalog, block: Block, epochId: int, attempt: nat,
      a: Attestation, anchor: nat)
    requires k.Sound() && Represents(k, r, view, c) && AllListed(k, r, view)
    requires Committed(k, r, view, block, epochId, attempt, a, anchor).Some?
    ensures var (record, packet) := Committed(k, r, view, block, epochId, attempt, a, anchor).value;
            && epochId >= 1 && attempt < |view.recipes|
            && record.source == Slot(SelectedSlot(k, c, epochId, anchor, |view.recipes|), attempt, |view.recipes|)
            && 0 <= record.source < |view.recipes|
            && k.decodePacket(packet) == Some((RecipeOf(k, r, view, epochId, anchor, attempt).canonicalRequest, a))
  {
  }

  /** What a produced record and packet say of them. */
  lemma ProducedParts(k: Crypto, c: Catalog, epochId: int, attempt: nat, a: Attestation, anchor: nat, block: int,
      time: int)
    requires k.Sound() && Produce(k, c, epochId, anchor, attempt, a, block, time).Some?
    ensures var (record, packet) := Produce(k, c, epochId, anchor, attempt, a, block, time).value;
            && CatalogRecipes(c).Some?
            && var count := |CatalogRecipes(c).value|;
               && attempt < count && record.source == Slot(SelectedSlot(k, c, epochId, anchor, count), attempt, count)
               && k.decodePacket(packet).Some? && k.decodePacket(packet).value.1 == a
  {
  }

  /** Whatever produces a committed record and packet is the attempt and attestation that were committed. */
  lemma ProducedIsThis(k: Crypto, r: Registry, view: CatalogView, c: Catalog, block: Block, epochId: int, attempt: nat,
      a: Attestation, anchor: nat, i: nat, b: Attestation)
    requires k.Sound() && ValidBook(k, r) && Represents(k, r, view, c) && AllListed(k, r, view) && anchor != 0
    requires Committed(k, r, view, block, epochId, attempt, a, anchor).Some?
    requires Produce(k, c, epochId, anchor, i, b, block.number, block.time)
             == Committed(k, r, view, block, epochId, attempt, a, anchor)
    ensures i == attempt && b == a && ReplayTakes(k, RecipeOf(k, r, view, epochId, anchor, attempt), a)
  {
    var source, count := Committed(k, r, view, block, epochId, attempt, a, anchor).value.0.source, |view.recipes|;
    var selected := SelectedSlot(k, c, epochId, anchor, count);
    CommittedParts(k, r, view, c, block, epochId, attempt, a, anchor);
    ProducedParts(k, c, epochId, i, b, anchor, block.number, block.time);
    LadderVisitsOnce(selected, source, count, attempt);
    LadderVisitsOnce(selected, source, count, i);
    CommitsAreProduced(k, r, view, c, block, epochId, i, b, anchor);
  }

  /** A verifier that answers in a block as the replay's scheme does, about a key that scheme can use. */
  ghost predicate Agrees(k: Crypto, block: Block, b: BeaconKey) {
    && |b.publicKey| == PUBLIC_KEY_BYTES
    && forall round, signature ::
         block.verifies(b.verifier, b.publicKey, round, signature) <==> k.signedRound(b.publicKey, round, signature)
  }

  /** The verifiers of all registered beacons do. */
  ghost predicate VerifiersAgree(k: Crypto, block: Block, r: Registry) {
    forall id :: 0 <= id < |r.recipes| && r.recipes[id].beacon.Some? ==> Agrees(k, block, r.recipes[id].beacon.value)
  }

  /**
   Where the verifiers of the registered beacons agree with the replay's scheme, replay accepts a record and packet
   under the catalog the registry gives exactly when the contract makes them of some attempt and attestation.
   */
  lemma ReplayAcceptsIffCommitted(k: Crypto, r: Registry, current: int, block: Block, epochId: int,
      record: EpochRecord, packet: seq<byte>)
    requires k.Sound() && ValidBook(k, r) && ValidVersions(k, r, current) && VerifiersAgree(k, block, r)
    requires record.anchorHash != 0 && record.committedBlock == block.number
    ensures Replay(k, CatalogOf(k, r, epochId), epochId, record, block.time, packet).Some? <==>
            exists attempt: nat, a ::
              Committed(k, r, CatalogAt(k, r, epochId), block, epochId, attempt, a, record.anchorHash)
                  == Some((record, packet))
  {
    var view, c, anchor := CatalogAt(k, r, epochId), CatalogOf(k, r, epochId), record.anchorHash;
    CatalogRepresents(k, r, current, epochId);
    ReplayAcceptsIffProduced(k, c, epochId, record, block.time, packet);
    forall attempt: nat, a
      ensures Committed(k, r, view, block, epochId, attempt, a, anchor)
           == Produce(k, c, epochId, anchor, attempt, a, block.number, block.time)
    {
      AgreedCommits(k, r, view, c, block, epochId, attempt, a, anchor);
    }
    if epochId >= 1 {
      SourceListed(k, r, view, epochId, anchor, 0);
      SelectionAgrees(k, r, view, c, epochId, anchor, 0);
    }
  }

  lemma AgreedCommits(k: Crypto, r: Registry, view: CatalogView, c: Catalog, block: Block, epochId: int,
      attempt: nat, a: Attestation, anchor: nat)
    requires ValidBook(k, r) && Represents(k, r, view, c) && AllListed(k, r, view) && anchor != 0
    requires VerifiersAgree(k, block, r)
    ensures Committed(k, r, view, block, epochId, attempt, a, anchor)
         == Produce(k, c, epochId, anchor, attempt, a, block.number, block.time)
  {
    CommitsAreProduced(k, r, view, c, block, epochId, attempt, a, anchor);
    SourceListed(k, r, view, epochId, anchor, attempt);
    var id := view.recipes[SourceOf(k, view, epochId, anchor, attempt)];
    assert r.recipes[id] == RecipeOf(k, r, view, epochId, anchor, attempt);
    assert r.recipes[id].beacon.Some? ==> Agrees(k, block, r.recipes[id].beacon.value);
  }

  // ---- a verifier of its own mind

  /** The attestation of a beacon's round. */
  ghost function RoundAttestation(b: BeaconKey, round: nat, signature: seq<byte>): Attestation
    requires Due(b.genesis, b.period, round) >= 0
  {
    Attestation(Due(b.genesis, b.period, round), ToDecimal(round), signature)
  }

  lemma RoundIsAccepted(round: nat)
    requires 1 <= round < ROUND_LIMIT
    ensures AcceptsData(BEACON_TEMPLATE, ToDecimal(round)) && Decimal(ToDecimal(round)) == round
  {
    DecimalRoundTrip(round);
    DigitsBelowLimit(round);
    BeaconDataIsCanonical(ToDecimal(round));
    BeaconTemplateDescribed();
  }

  /** A fresh round of an epoch's one source, a beacon, with a signature that beacon's verifier accepts. */
  ghost predicate FreshRound(k: Crypto, r: Registry, block: Block, epochId: int, id: int, round: nat,
      signature: seq<byte>) {
    && epochId >= 1 && CatalogAt(k, r, epochId).recipes == [id] && |CatalogAt(k, r, epochId).signers| == 1
    && 0 <= id < |r.recipes| && r.recipes[id].beacon.Some? && r.recipes[id].template == BEACON_TEMPLATE
    && block.number >= r.firstEpochStart + (epochId - 1) * EPOCH_LENGTH && 1 <= round < ROUND_LIMIT
    && var b := r.recipes[id].beacon.value;
       && 0 <= Due(b.genesis, b.period, round) <= block.time <= Due(b.genesis, b.period, round) + MAX_ATTESTATION_AGE
       && block.verifies(b.verifier, b.publicKey, round, signature)
       && |k.encodePacket(r.recipes[id].canonicalRequest, RoundAttestation(b, round, signature))| <= MAX_PACKET_BYTES
  }

  /** The contract commits it. */
  lemma FreshRoundCommits(k: Crypto, r: Registry, block: Block, epochId: int, anchor: nat, id: int, round: nat,
      signature: seq<byte>)
    requires FreshRound(k, r, block, epochId, id, round, signature)
    ensures Committed(k, r, CatalogAt(k, r, epochId), block, epochId, 0,
                      RoundAttestation(r.recipes[id].beacon.value, round, signature), anchor).Some?
  {
    RoundIsAccepted(round);
    assert SourceOf(k, CatalogAt(k, r, epochId), epochId, anchor, 0) == 0;
  }

  /** If the replay's scheme refuses the signature, the record and packet published do not replay. */
  lemma OtherVerifierCommits(k: Crypto, r: Registry, current: int, block: Block, epochId: int, anchor: nat, id: int,
      round: nat, signature: seq<byte>)
    requires k.Sound() && ValidBook(k, r) && ValidVersions(k, r, current) && anchor != 0
    requires FreshRound(k, r, block, epochId, id, round, signature)
    requires !k.signedRound(r.recipes[id].beacon.value.publicKey, round, signature)
    ensures var a := RoundAttestation(r.recipes[id].beacon.value, round, signature);
            var made := Committed(k, r, CatalogAt(k, r, epochId), block, epochId, 0, a, anchor);
            && made.Some?
            && Replay(k, CatalogOf(k, r, epochId), epochId, made.value.0, block.time, made.value.1).None?
  {
    var a := RoundAttestation(r.recipes[id].beacon.value, round, signature);
    FreshRoundCommits(k, r, block, epochId, anchor, id, round, signature);
    RoundIsAccepted(round);
    CommittedReplaysIff(k, r, current, block, epochId, 0, a, anchor);
    assert SourceOf(k, CatalogAt(k, r, epochId), epochId, anchor, 0) == 0;
  }
}
