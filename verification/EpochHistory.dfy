/**
 Histories of the registry contract (contracts/EpochEntropy.sol): no transaction changes the catalog of an epoch that is
 past, current or next, nor a registered recipe or a committed epoch. So whether a committed epoch replays is settled
 when it is committed: it does, ever after, exactly when the replay's scheme takes the round its verifier took.
 */
module EpochHistory {
  import opened Common
  import opened Arithmetic
  import opened Epoch
  import opened EpochRegistry

  // ---- what no transaction changes

  lemma {:induction false} VersionOfPrefix(catalogs: seq<Version>, v: Version, epochId: int)
    requires epochId < v.fromEpoch
    ensures VersionAt(catalogs + [v], epochId) == VersionAt(catalogs, epochId)
  {
    assert (catalogs + [v])[..|catalogs|] == catalogs;
  }

  /** A version that begins two epochs ahead or later leaves the catalogs of all epochs before as they are. */
  lemma SchedulingKeepsCatalogs(k: Crypto, r: Registry, current: int, v: Version, epochId: int)
    requires v.fromEpoch >= current + 2 && epochId <= current + 1
    ensures CatalogAt(k, r.(catalogs := Kept(r, current) + [v]), epochId) == CatalogAt(k, r, epochId)
  {
    var kept := Kept(r, current);
    VersionOfPrefix(kept, v, epochId);
    VersionInRange(kept, epochId);
    if kept != r.catalogs {
      assert r.catalogs == kept + [r.catalogs[|kept|]];
      VersionOfPrefix(kept, r.catalogs[|kept|], epochId);
    }
  }

  /** The catalog of the current epoch, of the next one and of every past one is fixed. */
  lemma CatalogIsFixed(k: Crypto, r: Registry, block: Block, tx: Transaction, epochId: int)
    requires Transact(k, r, block, tx).Some? && epochId <= EpochForBlock(r.firstEpochStart, block.number) + 1
    ensures CatalogAt(k, Transact(k, r, block, tx).value, epochId) == CatalogAt(k, r, epochId)
  {
    if tx.ScheduleCatalog? {
      SchedulingKeepsCatalogs(k, r, EpochForBlock(r.firstEpochStart, block.number),
          Version(tx.fromEpoch, tx.recipes, tx.signers), epochId);
    }
  }

  /** Nothing that was written changes: recipes are appended, committed epochs and their events stay. */
  ghost predicate Grows(r: Registry, t: Registry) {
    && r.recipes <= t.recipes && r.initialSigners == t.initialSigners
    && r.chainId == t.chainId && r.address == t.address && r.firstEpochStart == t.firstEpochStart
    && (forall e :: e in r.epochs ==> e in t.epochs && t.epochs[e] == r.epochs[e])
    && (forall e :: e in r.events ==> e in r.epochs ==> e in t.events && t.events[e] == r.events[e])
  }

  lemma TransactGrows(k: Crypto, r: Registry, block: Block, tx: Transaction)
    requires Transact(k, r, block, tx).Some?
    ensures Grows(r, Transact(k, r, block, tx).value)
  {
  }

  lemma CatalogExtends(k: Crypto, r: Registry, t: Registry, epochId: int)
    requires Grows(r, t) && CatalogAt(k, t, epochId) == CatalogAt(k, r, epochId)
    ensures Extends(CatalogOf(k, r, epochId), CatalogOf(k, t, epochId))
  {
  }

  // ---- what is settled about a committed epoch

  /** The recipe a catalog has in a slot. */
  ghost function RecipeAt(r: Registry, view: CatalogView, source: int): Option<Recipe> {
    if 0 <= source < |view.recipes| && 0 <= view.recipes[source] < |r.recipes|
        then Some(r.recipes[view.recipes[source]]) else None
  }

  /** What its record and event name: the recipe first selected, the recipe used, and the attestation. */
  ghost predicate Named(k: Crypto, r: Registry, epochId: int)
    requires epochId in r.epochs && epochId in r.events
  {
    var view := CatalogAt(k, r, epochId);
    && view.recipes != []
    && RecipeAt(r, view, SourceOf(k, view, epochId, r.epochs[epochId].anchorHash, 0)).Some?
    && RecipeAt(r, view, r.epochs[epochId].source).Some?
    && DecodePacket(k, r.events[epochId].1).Some?
  }

  /**
   Whether the replay can use both recipes and its scheme takes the attestation, which for a signed recipe it does.
   */
  ghost predicate SchemeTakes(k: Crypto, r: Registry, epochId: int)
    requires epochId in r.epochs && epochId in r.events && Named(k, r, epochId)
  {
    var view := CatalogAt(k, r, epochId);
    && KeyFits(RecipeAt(r, view, SourceOf(k, view, epochId, r.epochs[epochId].anchorHash, 0)).value)
    && ReplayTakes(k, RecipeAt(r, view, r.epochs[epochId].source).value, DecodePacket(k, r.events[epochId].1).value.1)
  }

  /** Whether the record and event of a committed epoch replay under the catalog and recipes the registry gives. */
  ghost predicate ReplaysNow(k: Crypto, r: Registry, epochId: int)
    requires epochId in r.epochs && epochId in r.events
  {
    Replay(k, CatalogOf(k, r, epochId), epochId, r.epochs[epochId], r.events[epochId].0, r.events[epochId].1).Some?
  }

  /** A committed epoch has begun, and it replays exactly when the replay's scheme takes it. */
  ghost predicate Settled(k: Crypto, r: Registry, current: int, epochId: int)
    requires epochId in r.epochs
  {
    && 1 <= epochId <= current && epochId in r.events && Named(k, r, epochId)
    && (ReplaysNow(k, r, epochId) <==> SchemeTakes(k, r, epochId))
  }

  ghost predicate Invariant(k: Crypto, r: Registry, number: int) {
    var current := EpochForBlock(r.firstEpochStart, number);
    && ValidBook(k, r) && ValidVersions(k, r, current)
    && forall e :: e in r.epochs ==> Settled(k, r, current, e)
  }

  /** What an epoch's record and event name stays, and so does what the scheme says of it. */
  lemma NamedStays(k: Crypto, r: Registry, t: Registry, epochId: int)
    requires Grows(r, t) && epochId in r.epochs && epochId in r.events && Named(k, r, epochId)
    requires CatalogAt(k, t, epochId) == CatalogAt(k, r, epochId)
    ensures epochId in t.epochs && epochId in t.events && Named(k, t, epochId)
    ensures SchemeTakes(k, t, epochId) <==> SchemeTakes(k, r, epochId)
  {
    var view := CatalogAt(k, r, epochId);
    forall source | RecipeAt(r, view, source).Some? ensures RecipeAt(t, view, source) == RecipeAt(r, view, source) {
    }
  }

  /** And so does whether it replays. */
  lemma ReplayStaysSettled(k: Crypto, r: Registry, t: Registry, current: int, epochId: int)
    requires ValidBook(k, r) && ValidVersions(k, r, current) && Grows(r, t)
    requires epochId in r.epochs && epochId in r.events && epochId in t.epochs && epochId in t.events
    requires CatalogAt(k, t, epochId) == CatalogAt(k, r, epochId)
    ensures ReplaysNow(k, t, epochId) <==> ReplaysNow(k, r, epochId)
  {
    var c, view := CatalogOf(k, r, epochId), CatalogAt(k, r, epochId);
    CatalogRepresents(k, r, current, epochId);
    CatalogExtends(k, r, t, epochId);
    forall i | 0 <= i < |view.recipes| ensures view.recipes[i] in c.book {
      assert Listed(k, r, view.recipes[i], view.signers[i]);
    }
    ReplaySame(k, c, CatalogOf(k, t, epochId), epochId, r.epochs[epochId], r.events[epochId].0, r.events[epochId].1);
  }

  lemma SettledStays(k: Crypto, r: Registry, t: Registry, current: int, next: int, epochId: int)
    requires ValidBook(k, r) && ValidVersions(k, r, current) && Grows(r, t) && current <= next
    requires epochId in r.epochs && Settled(k, r, current, epochId)
    requires CatalogAt(k, t, epochId) == CatalogAt(k, r, epochId)
    ensures epochId in t.epochs && Settled(k, t, next, epochId)
  {
    NamedStays(k, r, t, epochId);
    ReplayStaysSettled(k, r, t, current, epochId);
  }

  lemma EpochsAscend(first: int, m: int, n: int)
    requires m <= n
    ensures EpochForBlock(first, m) <= EpochForBlock(first, n)
  {
    if m >= first { DivMono(m - first, n - first, EPOCH_LENGTH); }
    if n >= first { DivNonNegative(n - first, EPOCH_LENGTH); }
  }

  // ---- every transaction keeps the invariant

  /** What is appended is valid. */
  lemma AppendedIsValid(k: Crypto, r: Registry, block: Block, tx: Transaction)
    requires (tx.RegisterRecipe? || tx.RegisterBeacon?) && Transact(k, r, block, tx).Some?
    ensures var t := Transact(k, r, block, tx).value;
            && |t.recipes| == |r.recipes| + 1 <= MAX_EPOCH_RECIPES && t == r.(recipes := t.recipes)
            && t.recipes[..|r.recipes|] == r.recipes && Registrable(k, t.recipes[|r.recipes|])
  {
  }

  lemma BookKept(k: Crypto, r: Registry, block: Block, tx: Transaction)
    requires ValidBook(k, r) && Transact(k, r, block, tx).Some?
    ensures ValidBook(k, Transact(k, r, block, tx).value)
  {
    if tx.RegisterRecipe? || tx.RegisterBeacon? {
      AppendedIsValid(k, r, block, tx);
      BookGrows(k, r, Transact(k, r, block, tx).value);
    }
  }

  lemma BookGrows(k: Crypto, r: Registry, t: Registry)
    requires ValidBook(k, r) && |t.recipes| == |r.recipes| + 1 <= MAX_EPOCH_RECIPES && t == r.(recipes := t.recipes)
    requires t.recipes[..|r.recipes|] == r.recipes && Registrable(k, t.recipes[|r.recipes|])
    ensures ValidBook(k, t)
  {
    forall id | 0 <= id < |t.recipes| ensures Registrable(k, t.recipes[id]) {
      if id < |r.recipes| { assert t.recipes[id] == r.recipes[id]; }
    }
    forall id | 0 <= id < |INITIAL_RECIPES| ensures t.recipes[id].beacon.None? {
      assert t.recipes[id] == r.recipes[id];
    }
  }

  lemma ListedStays(k: Crypto, r: Registry, t: Registry, v: Version)
    requires Grows(r, t) && ValidVersion(k, r, v)
    ensures ValidVersion(k, t, v)
  {
    forall i | 0 <= i < |v.recipes| ensures Listed(k, t, v.recipes[i], v.signers[i]) {
      assert Listed(k, r, v.recipes[i], v.signers[i]);
    }
  }

  /** Valid versions stay valid when the registry grows and time goes on. */
  lemma VersionsStay(k: Crypto, r: Registry, t: Registry, current: int, next: int)
    requires ValidVersions(k, r, current) && Grows(r, t) && t.catalogs == r.catalogs && current <= next
    ensures ValidVersions(k, t, next)
  {
    forall i | 0 <= i < |t.catalogs| ensures ValidVersion(k, t, t.catalogs[i]) { ListedStays(k, r, t, r.catalogs[i]); }
  }

  /** A new version goes behind the kept ones, which have all begun or begin with the next epoch. */
  lemma ScheduledStays(k: Crypto, r: Registry, current: int, v: Version)
    requires ValidVersions(k, r, current) && ValidVersion(k, r, v) && v.fromEpoch >= current + 2
    ensures ValidVersions(k, r.(catalogs := Kept(r, current) + [v]), current)
  {
    var t := r.(catalogs := Kept(r, current) + [v]);
    forall i | 0 <= i < |t.catalogs| ensures ValidVersion(k, t, t.catalogs[i]) {
      ListedStays(k, r, t, if i < |Kept(r, current)| then r.catalogs[i] else v);
    }
  }

  lemma VersionsKept(k: Crypto, r: Registry, current: int, block: Block, tx: Transaction)
    requires ValidVersions(k, r, current) && Transact(k, r, block, tx).Some?
    requires current <= EpochForBlock(r.firstEpochStart, block.number)
    ensures ValidVersions(k, Transact(k, r, block, tx).value, EpochForBlock(r.firstEpochStart, block.number))
  {
    var next := EpochForBlock(r.firstEpochStart, block.number);
    if tx.ScheduleCatalog? {
      VersionsStay(k, r, r, current, next);
      ScheduledStays(k, r, next, Version(tx.fromEpoch, tx.recipes, tx.signers));
    } else {
      TransactGrows(k, r, block, tx);
      VersionsStay(k, r, Transact(k, r, block, tx).value, current, next);
    }
  }

  /** The catalog of an epoch does not depend on what was committed. */
  lemma CatalogIgnoresEpochs(k: Crypto, r: Registry, anchors: map<int, nat>, epochs: map<int, EpochRecord>,
      events: map<int, (int, seq<byte>)>, epochId: int)
    ensures CatalogOf(k, r.(anchors := anchors, epochs := epochs, events := events), epochId)
            == CatalogOf(k, r, epochId)
  {
    var t := r.(anchors := anchors, epochs := epochs, events := events);
    assert CatalogAt(k, t, epochId) == CatalogAt(k, r, epochId);
    assert Book(t) == Book(r);
  }

  /** A committed epoch has begun. */
  lemma AnchoredHasBegun(r: Registry, block: Block, epochId: int)
    requires AnchorAt(r, block, epochId).Some?
    ensures 1 <= epochId <= EpochForBlock(r.firstEpochStart, block.number)
  {
    EpochHoldsItsBlocks(r.firstEpochStart, EpochStart(r.firstEpochStart, epochId).value, epochId);
    EpochsAscend(r.firstEpochStart, EpochStart(r.firstEpochStart, epochId).value, block.number);
  }

  /** What a commit stores and emits. */
  lemma CommitStores(k: Crypto, r: Registry, block: Block, tx: Transaction)
    requires tx.CommitEpoch? && Transact(k, r, block, tx).Some?
    ensures var t, e := Transact(k, r, block, tx).value, tx.epochId;
            && AnchorAt(r, block, e).Some? && AnchorAt(r, block, e).value != 0
            && t == r.(anchors := t.anchors, epochs := t.epochs, events := t.events) && e in t.epochs && e in t.events
            && Committed(k, r, CatalogAt(k, r, e), block, e, tx.attempt, tx.attestation, AnchorAt(r, block, e).value)
               == Some((t.epochs[e], t.events[e].1))
            && t.events[e].0 == block.time && t.epochs[e].anchorHash == AnchorAt(r, block, e).value
            && CatalogAt(k, t, e) == CatalogAt(k, r, e)
  {
  }

  /** The slots of a record made of an attempt hold the recipe first selected and the attempt's. */
  lemma CommitRecipes(k: Crypto, r: Registry, view: CatalogView, block: Block, epochId: int, attempt: nat,
      a: Attestation, anchor: nat)
    requires AllListed(k, r, view) && Committed(k, r, view, block, epochId, attempt, a, anchor).Some?
    ensures var record := Committed(k, r, view, block, epochId, attempt, a, anchor).value.0;
            && RecipeAt(r, view, record.source) == Some(RecipeOf(k, r, view, epochId, anchor, attempt))
            && RecipeAt(r, view, SourceOf(k, view, epochId, anchor, 0))
               == Some(RecipeOf(k, r, view, epochId, anchor, 0))
  {
    SourceListed(k, r, view, epochId, anchor, 0);
    SourceListed(k, r, view, epochId, anchor, attempt);
  }

  /** Its packet decodes to the attestation. */
  lemma CommitDecodes(k: Crypto, r: Registry, view: CatalogView, block: Block, epochId: int, attempt: nat,
      a: Attestation, anchor: nat)
    requires k.Sound() && AllListed(k, r, view) && Committed(k, r, view, block, epochId, attempt, a, anchor).Some?
    ensures var packet := Committed(k, r, view, block, epochId, attempt, a, anchor).value.1;
            DecodePacket(k, packet) == Some((RecipeOf(k, r, view, epochId, anchor, attempt).canonicalRequest, a))
  {
    var packet := Committed(k, r, view, block, epochId, attempt, a, anchor).value.1;
    PacketRoundTrip(k, packet, RecipeOf(k, r, view, epochId, anchor, attempt).canonicalRequest, a);
  }

  /** The stored record and packet name the attempt's recipes and the attestation. */
  lemma CommitNames(k: Crypto, r: Registry, current: int, block: Block, tx: Transaction)
    requires k.Sound() && ValidBook(k, r) && ValidVersions(k, r, current)
    requires tx.CommitEpoch? && Transact(k, r, block, tx).Some?
    ensures var t, e := Transact(k, r, block, tx).value, tx.epochId;
            && e in t.epochs && e in t.events && Named(k, t, e) && AllListed(k, r, CatalogAt(k, r, e))
            && (SchemeTakes(k, t, e) <==>
                  Replayable(k, r, CatalogAt(k, r, e), e, t.epochs[e].anchorHash, tx.attempt, tx.attestation))
  {
    var t, e := Transact(k, r, block, tx).value, tx.epochId;
    CommitStores(k, r, block, tx);
    CatalogRepresents(k, r, current, e);
    var view, anchor := CatalogAt(k, r, e), t.epochs[e].anchorHash;
    CommitRecipes(k, r, view, block, e, tx.attempt, tx.attestation, anchor);
    CommitDecodes(k, r, view, block, e, tx.attempt, tx.attestation, anchor);
    assert forall source :: RecipeAt(t, view, source) == RecipeAt(r, view, source);
  }

  /** A committed epoch is settled at once. */
  lemma CommitSettles(k: Crypto, r: Registry, current: int, block: Block, tx: Transaction)
    requires k.Sound() && ValidBook(k, r) && ValidVersions(k, r, current)
    requires tx.CommitEpoch? && Transact(k, r, block, tx).Some?
    ensures var t := Transact(k, r, block, tx).value;
            tx.epochId in t.epochs && Settled(k, t, EpochForBlock(r.firstEpochStart, block.number), tx.epochId)
  {
    var t, e := Transact(k, r, block, tx).value, tx.epochId;
    CommitStores(k, r, block, tx);
    CommitNames(k, r, current, block, tx);
    AnchoredHasBegun(r, block, e);
    CommittedReplaysIff(k, r, current, block, e, tx.attempt, tx.attestation, t.epochs[e].anchorHash);
    CatalogIgnoresEpochs(k, r, t.anchors, t.epochs, t.events, e);
  }

  lemma OnlyCommitsAdd(k: Crypto, r: Registry, block: Block, tx: Transaction, e: int)
    requires Transact(k, r, block, tx).Some? && e in Transact(k, r, block, tx).value.epochs && e !in r.epochs
    ensures tx.CommitEpoch? && tx.epochId == e
  {
  }

  lemma EpochSettled(k: Crypto, r: Registry, number: int, block: Block, tx: Transaction, e: int)
    requires k.Sound() && Invariant(k, r, number) && number <= block.number && Transact(k, r, block, tx).Some?
    requires e in Transact(k, r, block, tx).value.epochs
    ensures Settled(k, Transact(k, r, block, tx).value, EpochForBlock(r.firstEpochStart, block.number), e)
  {
    var current, next := EpochForBlock(r.firstEpochStart, number), EpochForBlock(r.firstEpochStart, block.number);
    if e in r.epochs {
      EpochsAscend(r.firstEpochStart, number, block.number);
      TransactGrows(k, r, block, tx);
      CatalogIsFixed(k, r, block, tx, e);
      SettledStays(k, r, Transact(k, r, block, tx).value, current, next, e);
    } else {
      OnlyCommitsAdd(k, r, block, tx, e);
      CommitSettles(k, r, current, block, tx);
    }
  }

  /** Every transaction keeps the registry valid and every committed epoch settled. */
  lemma TransactKeeps(k: Crypto, r: Registry, number: int, block: Block, tx: Transaction)
    requires k.Sound() && Invariant(k, r, number) && number <= block.number && Transact(k, r, block, tx).Some?
    ensures Invariant(k, Transact(k, r, block, tx).value, block.number)
  {
    var t := Transact(k, r, block, tx).value;
    TransactGrows(k, r, block, tx);
    EpochsAscend(r.firstEpochStart, number, block.number);
    BookKept(k, r, block, tx);
    VersionsKept(k, r, EpochForBlock(r.firstEpochStart, number), block, tx);
    forall e | e in t.epochs ensures Settled(k, t, EpochForBlock(r.firstEpochStart, block.number), e) {
      EpochSettled(k, r, number, block, tx, e);
    }
  }

  // ---- histories

  /** What `initialize` leaves in a block: the built-in recipes, four signers, and the first epoch one length ahead. */
  ghost predicate Initialized(k: Crypto, r: Registry, number: int) {
    && ValidBook(k, r) && (forall id :: 0 <= id < |r.recipes| ==> r.recipes[id].beacon.None?)
    && r.firstEpochStart == number + EPOCH_LENGTH
    && r.catalogs == [] && r.epochs == map[] && r.events == map[] && r.anchors == map[]
  }

  datatype Call = Call(block: Block, tx: Transaction)

  /** Calls in blocks that never go back. */
  ghost predicate InOrder(number: int, calls: seq<Call>)
    decreases |calls|
  {
    calls == [] || (number <= calls[0].block.number && InOrder(calls[0].block.number, calls[1..]))
  }

  ghost function EndNumber(number: int, calls: seq<Call>): int
    decreases |calls|
  {
    if calls == [] then number else EndNumber(calls[0].block.number, calls[1..])
  }

  /** The registry after calls; a call that reverts changes nothing. */
  ghost function After(k: Crypto, r: Registry, calls: seq<Call>): Registry
    decreases |calls|
  {
    if calls == [] then r else After(k, Called(k, r, calls[0]), calls[1..])
  }

  ghost function Called(k: Crypto, r: Registry, call: Call): Registry {
    var t := Transact(k, r, call.block, call.tx);
    if t.Some? then t.value else r
  }

  lemma CalledKeeps(k: Crypto, r: Registry, number: int, call: Call)
    requires k.Sound() && Invariant(k, r, number) && number <= call.block.number
    ensures Invariant(k, Called(k, r, call), call.block.number) && Grows(r, Called(k, r, call))
    ensures forall e :: e <= EpochForBlock(r.firstEpochStart, number) + 1 ==>
            CatalogAt(k, Called(k, r, call), e) == CatalogAt(k, r, e)
  {
    EpochsAscend(r.firstEpochStart, number, call.block.number);
    if Transact(k, r, call.block, call.tx).Some? {
      TransactKeeps(k, r, number, call.block, call.tx);
      TransactGrows(k, r, call.block, call.tx);
      forall e | e <= EpochForBlock(r.firstEpochStart, number) + 1
          ensures CatalogAt(k, Called(k, r, call), e) == CatalogAt(k, r, e) {
        CatalogIsFixed(k, r, call.block, call.tx, e);
      }
    } else {
      InvariantLater(k, r, number, call.block.number);
    }
  }

  lemma InvariantLater(k: Crypto, r: Registry, number: int, later: int)
    requires Invariant(k, r, number) && number <= later
    ensures Invariant(k, r, later)
  {
    EpochsAscend(r.firstEpochStart, number, later);
    forall e | e in r.epochs ensures Settled(k, r, EpochForBlock(r.firstEpochStart, later), e) {
      assert Settled(k, r, EpochForBlock(r.firstEpochStart, number), e);
    }
  }

  lemma {:induction false} AfterKeeps(k: Crypto, r: Registry, number: int, calls: seq<Call>)
    requires k.Sound() && Invariant(k, r, number) && InOrder(number, calls)
    ensures Invariant(k, After(k, r, calls), EndNumber(number, calls))
    decreases |calls|
  {
    if calls != [] {
      CalledKeeps(k, r, number, calls[0]);
      AfterKeeps(k, Called(k, r, calls[0]), calls[0].block.number, calls[1..]);
    }
  }

  /** The catalogs of all epochs up to the next one are the same ever after, and nothing committed changes. */
  lemma {:induction false} HistoryIsFixed(k: Crypto, r: Registry, number: int, calls: seq<Call>, epochId: int)
    requires k.Sound() && Invariant(k, r, number) && InOrder(number, calls)
    requires epochId <= EpochForBlock(r.firstEpochStart, number) + 1
    ensures CatalogAt(k, After(k, r, calls), epochId) == CatalogAt(k, r, epochId)
    ensures epochId in r.epochs ==>
              epochId in After(k, r, calls).epochs && After(k, r, calls).epochs[epochId] == r.epochs[epochId]
    decreases |calls|
  {
    if calls != [] {
      CalledKeeps(k, r, number, calls[0]);
      EpochsAscend(r.firstEpochStart, number, calls[0].block.number);
      HistoryIsFixed(k, Called(k, r, calls[0]), calls[0].block.number, calls[1..], epochId);
    }
  }

  /**
   Whatever the owner, the committers and the verifiers do from initialization on, every epoch committed so far replays
   under the catalog and recipes the registry gives at that time exactly when the replay's scheme takes what was
   committed: for a signed recipe behind usable keys always, for a beacon round when its signature is one of the scheme.
   */
  lemma CommittedEpochsReplayIff(k: Crypto, r: Registry, number: int, calls: seq<Call>, epochId: int)
    requires k.Sound() && Initialized(k, r, number) && InOrder(number, calls)
    requires epochId in After(k, r, calls).epochs
    ensures var t := After(k, r, calls);
            && epochId in t.events && Named(k, t, epochId)
            && (ReplaysNow(k, t, epochId) <==> SchemeTakes(k, t, epochId))
  {
    AfterKeeps(k, r, number, calls);
    var t := After(k, r, calls);
    assert Settled(k, t, EpochForBlock(t.firstEpochStart, EndNumber(number, calls)), epochId);
  }

  // ---- verifiers that agree

  /** A verifier that accepts in a block only what the replay's scheme accepts. */
  ghost predicate AcceptsOnly(k: Crypto, block: Block, b: BeaconKey) {
    forall round, signature ::
      block.verifies(b.verifier, b.publicKey, round, signature) ==> k.signedRound(b.publicKey, round, signature)
  }

  /**
   A beacon is registered with a key of the scheme, and a commit asks only verifiers that accept what the scheme does.
   */
  ghost predicate Trusted(k: Crypto, r: Registry, call: Call) {
    match call.tx
    case RegisterBeacon(b, _, _) => |b.publicKey| == PUBLIC_KEY_BYTES
    case CommitEpoch(_, _, _) =>
      forall id :: 0 <= id < |r.recipes| && r.recipes[id].beacon.Some? ==>
          AcceptsOnly(k, call.block, r.recipes[id].beacon.value)
    case _ => true
  }

  ghost predicate AllTrusted(k: Crypto, r: Registry, calls: seq<Call>)
    decreases |calls|
  {
    calls == [] || (Trusted(k, r, calls[0]) && AllTrusted(k, Called(k, r, calls[0]), calls[1..]))
  }

  /** All keys fit, and the scheme takes every committed epoch. */
  ghost predicate Sane(k: Crypto, r: Registry) {
    && (forall id :: 0 <= id < |r.recipes| ==> KeyFits(r.recipes[id]))
    && forall e :: e in r.epochs ==> e in r.events && Named(k, r, e) && SchemeTakes(k, r, e)
  }

  lemma KeysFitStill(k: Crypto, r: Registry, block: Block, tx: Transaction)
    requires Sane(k, r) && Trusted(k, r, Call(block, tx)) && Transact(k, r, block, tx).Some?
    ensures forall id :: 0 <= id < |Transact(k, r, block, tx).value.recipes| ==>
            KeyFits(Transact(k, r, block, tx).value.recipes[id])
  {
  }

  /** What a trusted verifier lets in, the scheme takes. */
  lemma TrustedCommit(k: Crypto, r: Registry, current: int, block: Block, tx: Transaction)
    requires k.Sound() && ValidBook(k, r) && ValidVersions(k, r, current) && Sane(k, r)
    requires tx.CommitEpoch? && Transact(k, r, block, tx).Some? && Trusted(k, r, Call(block, tx))
    ensures var t := Transact(k, r, block, tx).value;
            && tx.epochId in t.epochs && tx.epochId in t.events && Named(k, t, tx.epochId)
               && SchemeTakes(k, t, tx.epochId)
  {
    var t, e := Transact(k, r, block, tx).value, tx.epochId;
    CommitStores(k, r, block, tx);
    CommitNames(k, r, current, block, tx);
    var view, anchor := CatalogAt(k, r, e), t.epochs[e].anchorHash;
    CatalogRepresents(k, r, current, e);
    CommitsAreProduced(k, r, view, CatalogOf(k, r, e), block, e, tx.attempt, tx.attestation, anchor);
    SourceListed(k, r, view, e, anchor, 0);
    SourceListed(k, r, view, e, anchor, tx.attempt);
    var used := RecipeOf(k, r, view, e, anchor, tx.attempt);
    assert used.beacon.Some? ==> AcceptsOnly(k, block, used.beacon.value);
  }

  lemma TrustedKeepsSane(k: Crypto, r: Registry, number: int, block: Block, tx: Transaction)
    requires k.Sound() && Invariant(k, r, number) && number <= block.number && Sane(k, r)
    requires Trusted(k, r, Call(block, tx)) && Transact(k, r, block, tx).Some?
    ensures Sane(k, Transact(k, r, block, tx).value)
  {
    var t := Transact(k, r, block, tx).value;
    var current := EpochForBlock(r.firstEpochStart, number);
    EpochsAscend(r.firstEpochStart, number, block.number);
    KeysFitStill(k, r, block, tx);
    TransactGrows(k, r, block, tx);
    forall e | e in r.epochs ensures e in t.epochs && e in t.events && Named(k, t, e) && SchemeTakes(k, t, e) {
      assert Settled(k, r, current, e);
      CatalogIsFixed(k, r, block, tx, e);
      NamedStays(k, r, t, e);
    }
    if tx.CommitEpoch? { TrustedCommit(k, r, current, block, tx); }
  }

  lemma {:induction false} TrustedRun(k: Crypto, r: Registry, number: int, calls: seq<Call>)
    requires k.Sound() && Invariant(k, r, number) && InOrder(number, calls) && Sane(k, r) && AllTrusted(k, r, calls)
    ensures Sane(k, After(k, r, calls))
    decreases |calls|
  {
    if calls != [] {
      CalledKeeps(k, r, number, calls[0]);
      if Transact(k, r, calls[0].block, calls[0].tx).Some? {
        TrustedKeepsSane(k, r, number, calls[0].block, calls[0].tx);
      }
      TrustedRun(k, Called(k, r, calls[0]), calls[0].block.number, calls[1..]);
    }
  }

  /** In a history with trusted verifiers, every epoch ever committed replays at any later time. */
  lemma CommittedEpochsReplay(k: Crypto, r: Registry, number: int, calls: seq<Call>, epochId: int)
    requires k.Sound() && Initialized(k, r, number) && InOrder(number, calls) && AllTrusted(k, r, calls)
    requires epochId in After(k, r, calls).epochs
    ensures epochId in After(k, r, calls).events && ReplaysNow(k, After(k, r, calls), epochId)
  {
    TrustedRun(k, r, number, calls);
    CommittedEpochsReplayIff(k, r, number, calls, epochId);
  }
}
