/**
 What an epoch's record and packet are (src/epoch.ts), value by value: the catalog, the slot an attempt uses, the
 recipe, the attestation and the hashes. Replay accepts exactly these.
 */
module EpochTerms {
  import opened Common
  import opened Arithmetic
  import opened Templates
  import opened Matcher
  import opened BeaconCodec
  import opened Rounds
  import opened Epoch

  /** The recipes of a catalog, in the order of its slots: one to ten, without repeats, each with a signer. */
  ghost predicate Lists(c: Catalog, recipes: seq<int>) {
    && recipes == (if c.recipes.None? then [0, 1, 2, 3] else c.recipes.value)
    && 1 <= |recipes| <= 10 && |c.signers| == |recipes|
    && (forall i, j :: 0 <= i < j < |recipes| ==> recipes[i] != recipes[j])
    && (forall i :: 0 <= i < |recipes| ==> 0 <= recipes[i] < 256)
    && forall i :: 0 <= i < |c.signers| ==> c.signers[i] != 0
  }

  lemma ListsIff(c: Catalog, recipes: seq<int>)
    ensures Lists(c, recipes) <==> CatalogRecipes(c) == Some(recipes)
  {
  }

  ghost function HashOf(k: Crypto, c: Catalog): nat {
    if c.recipes.None? then k.hashInitialCatalog(c.signers) else k.hashCatalog(c.recipes.value, c.signers)
  }

  /** The slot of an attempt: so many behind the one the selector picks, around the catalog. */
  ghost predicate IsSlot(k: Crypto, c: Catalog, epochId: int, anchor: nat, count: nat, attempt: nat, source: nat) {
    && source < count
    && exists turns: int ::
         turns * count + source == k.hashSelector(HashOf(k, c), epochId, anchor) + attempt
  }

  /** What a recipe is. */
  ghost predicate IsRecipe(k: Crypto, r: Recipe) {
    && 1 <= |r.canonicalRequest| <= 1024 && 1 <= |r.body| <= 2048 && WellFormed(r.template)
    && (r.beacon.Some? ==>
          var b := r.beacon.value;
          && b.verifier != 0 && b.chainHash != 0 && b.genesis >= 1 && b.period >= 1 && |b.publicKey| == 128
          && r.canonicalRequest == k.beaconRequest(b.chainHash) && r.body == k.beaconRequest(b.chainHash)
          && r.template == [0x04, 0x01, 0x13])
  }

  /**
   What an attestation of a recipe is at a time: data the recipe's template accepts, at most 240 seconds old, signed by
   the slot's signer, or a beacon's round at its own time with the beacon's signature.
   */
  ghost predicate Attests(k: Crypto, r: Recipe, signer: nat, a: Attestation, time: int) {
    && a.timestamp <= time <= a.timestamp + 240 && AcceptsData(r.template, a.data)
    && match r.beacon
       case None =>
         && k.canonicalSignature(a.signature)
         && k.recover(k.digest(k.hashBytes(r.canonicalRequest), a.timestamp, a.data), a.signature) == signer
       case Some(b) =>
         && signer == k.slotSigner(b)
         && exists round :: TimelyRound(k, b, a, round)
  }

  ghost predicate TimelyRound(k: Crypto, b: BeaconKey, a: Attestation, round: int) {
    && EncodeBeaconRound(round) == Some(a.data) && a.timestamp == b.genesis + (round - 1) * b.period
    && k.signedRound(b.publicKey, round, a.signature)
  }

  /** The record of an attestation of a recipe in a slot. */
  ghost function Record(k: Crypto, c: Catalog, epochId: int, anchor: nat, source: nat, r: Recipe, a: Attestation,
      block: int): EpochRecord
  {
    var queryHash, dataHash := k.hashBytes(r.canonicalRequest), k.hashBytes(a.data);
    var attestationHash := k.hashAttestation(queryHash, a.timestamp, dataHash, k.hashBytes(a.signature));
    EpochRecord(
      epochHash := k.hashCommitment(CommitmentInput(
        chainId := c.chainId, registry := c.registry, catalogHash := HashOf(k, c), epochId := epochId,
        epochStart := c.firstEpochStart + (epochId - 1) * 200, anchorHash := anchor, source := source,
        queryHash := queryHash, dataHash := dataHash, attestationHash := attestationHash)),
      catalogHash := HashOf(k, c), anchorHash := anchor, source := source, queryHash := queryHash,
      dataHash := dataHash, attestationHash := attestationHash, signedAt := a.timestamp, committedBlock := block)
  }

  /** What an attempt makes, with the slot and the recipe it uses. */
  ghost predicate Makes(k: Crypto, c: Catalog, epochId: int, anchor: nat, attempt: nat, a: Attestation, block: int,
      time: int, recipes: seq<int>, source: nat, record: EpochRecord, packet: seq<byte>)
  {
    && epochId >= 1 && anchor != 0 && Lists(c, recipes) && attempt < |recipes|
    && IsSlot(k, c, epochId, anchor, |recipes|, attempt, source)
    && recipes[source] in c.book && IsRecipe(k, c.book[recipes[source]])
    && block >= c.firstEpochStart + (epochId - 1) * 200 + attempt * 20
    && Attests(k, c.book[recipes[source]], c.signers[source], a, time)
    && record == Record(k, c, epochId, anchor, source, c.book[recipes[source]], a, block)
    && packet == k.encodePacket(c.book[recipes[source]].canonicalRequest, a) && |packet| <= 2048
  }

  // ---- the same as the code's

  lemma SlotIff(k: Crypto, c: Catalog, epochId: int, anchor: nat, count: nat, attempt: nat, source: nat)
    requires count > 0 && attempt < count
    ensures IsSlot(k, c, epochId, anchor, count, attempt, source) <==>
            source == Slot(SelectedSlot(k, c, epochId, anchor, count), attempt, count)
  {
    var hash := k.hashSelector(HashOf(k, c), epochId, anchor);
    assert HashOf(k, c) == CatalogHash(k, c);
    SlotOfSum(hash, attempt, count, source);
  }

  /** A remainder of a sum is the remainder of the remainder and the other summand. */
  lemma SlotOfSum(hash: nat, attempt: nat, count: nat, source: nat)
    requires count > 0 && attempt < count
    ensures (source < count && exists turns: int :: turns * count + source == hash + attempt) <==>
            source == (hash % count + attempt) % count
  {
    DivMod(hash, count);
    DivMod(hash % count + attempt, count);
    var q, r := hash / count, (hash % count + attempt) / count;
    var rest := (hash % count + attempt) % count;
    assert (q + r) * count + rest == hash + attempt by {
      assert (q + r) * count == q * count + r * count;
    }
    if source < count {
      if turns: int :| turns * count + source == hash + attempt {
        QuotientUnique(turns, source, q + r, rest, count);
      }
    }
  }

  lemma RecipeIff(k: Crypto, r: Recipe)
    ensures IsRecipe(k, r) <==> ValidRecipe(k, r)
  {
  }

  lemma SelectedIff(k: Crypto, c: Catalog, epochId: int, anchor: nat, attempt: nat, recipes: seq<int>, source: nat)
    requires epochId >= 1 && anchor != 0 && Lists(c, recipes) && attempt < |recipes|
    requires IsSlot(k, c, epochId, anchor, |recipes|, attempt, source)
    ensures SelectEpoch(k, c, epochId, anchor, attempt) ==
            if recipes[source] in c.book && IsRecipe(k, c.book[recipes[source]])
            then Some(Selection(source, attempt, c.signers[source],
                                k.hashBytes(c.book[recipes[source]].canonicalRequest), c.book[recipes[source]]))
            else None
  {
    ListsIff(c, recipes);
    SlotIff(k, c, epochId, anchor, |recipes|, attempt, source);
    SelectionIs(k, c, epochId, anchor, attempt, recipes, source);
    if recipes[source] in c.book { RecipeIff(k, c.book[recipes[source]]); }
  }

  lemma RoundOfData(d: seq<byte>, round: int)
    ensures EncodeBeaconRound(round) == Some(d) <==> DecodedRound(d) == Some(round)
  {
    EncodedIsCanonical(d);
    if EncodeBeaconRound(round) == Some(d) {
      DecimalRoundTrip(round);
      DigitsBelowLimit(round);
    }
    if DecodedRound(d) == Some(round) {
      DecimalInverse(d);
      DigitsBelowLimit(round);
    }
  }

  lemma RoundAttests(k: Crypto, b: BeaconKey, a: Attestation)
    ensures (exists round :: TimelyRound(k, b, a, round)) <==>
            && DecodedRound(a.data).Some?
            && RoundTime(b.genesis, b.period, DecodedRound(a.data).value) == Some(a.timestamp)
            && k.signedRound(b.publicKey, DecodedRound(a.data).value, a.signature)
  {
    if round :| TimelyRound(k, b, a, round) {
      RoundOfData(a.data, round);
    }
    if DecodedRound(a.data).Some? {
      var round := DecodedRound(a.data).value;
      RoundOfData(a.data, round);
      assert TimelyRound(k, b, a, round) <==>
             a.timestamp == b.genesis + (round - 1) * b.period && k.signedRound(b.publicKey, round, a.signature);
    }
  }

  lemma AttestsIff(k: Crypto, s: Selection, a: Attestation, time: int)
    requires s.queryHash == k.hashBytes(s.definition.canonicalRequest)
    ensures Attests(k, s.definition, s.airnode, a, time) <==> VerifyAttestation(k, s, a, time).Some?
    ensures VerifyAttestation(k, s, a, time).Some? ==>
              VerifyAttestation(k, s, a, time).value
              == Verified(k.hashBytes(a.data),
                          k.hashAttestation(s.queryHash, a.timestamp, k.hashBytes(a.data), k.hashBytes(a.signature)),
                          s.airnode)
  {
    if s.definition.beacon.Some? { RoundAttests(k, s.definition.beacon.value, a); }
  }

  lemma MadeIff(k: Crypto, c: Catalog, epochId: int, anchor: nat, a: Attestation, block: int, time: int, s: Selection,
      record: EpochRecord, packet: seq<byte>)
    requires epochId >= 1 && SelectEpoch(k, c, epochId, anchor, s.attempt) == Some(s)
    requires s.queryHash == k.hashBytes(s.definition.canonicalRequest)
    ensures Produce(k, c, epochId, anchor, s.attempt, a, block, time) == Some((record, packet)) <==>
            && block >= c.firstEpochStart + (epochId - 1) * 200 + s.attempt * 20
            && Attests(k, s.definition, s.airnode, a, time)
            && record == Record(k, c, epochId, anchor, s.source, s.definition, a, block)
            && packet == k.encodePacket(s.definition.canonicalRequest, a) && |packet| <= 2048
  {
    AttestsIff(k, s, a, time);
  }

  lemma SlotExists(k: Crypto, c: Catalog, epochId: int, anchor: nat, count: nat, attempt: nat) returns (source: nat)
    requires count > 0 && attempt < count
    ensures IsSlot(k, c, epochId, anchor, count, attempt, source)
    ensures forall other: nat :: IsSlot(k, c, epochId, anchor, count, attempt, other) ==> other == source
  {
    source := Slot(SelectedSlot(k, c, epochId, anchor, count), attempt, count);
    forall other: nat
      ensures IsSlot(k, c, epochId, anchor, count, attempt, other) <==>
              other == Slot(SelectedSlot(k, c, epochId, anchor, count), attempt, count)
    {
      SlotIff(k, c, epochId, anchor, count, attempt, other);
    }
  }

  /** What an attempt produces is what its slot, recipe and attestation make, value by value. */
  lemma ProducedIffMade(k: Crypto, c: Catalog, epochId: int, anchor: nat, attempt: nat, a: Attestation, block: int,
      time: int, record: EpochRecord, packet: seq<byte>)
    ensures Produce(k, c, epochId, anchor, attempt, a, block, time) == Some((record, packet)) <==>
            exists recipes, source: nat ::
              Makes(k, c, epochId, anchor, attempt, a, block, time, recipes, source, record, packet)
  {
    if Produce(k, c, epochId, anchor, attempt, a, block, time) == Some((record, packet)) {
      var recipes := CatalogRecipes(c).value;
      ListsIff(c, recipes);
      var source := SlotExists(k, c, epochId, anchor, |recipes|, attempt);
      SelectedIff(k, c, epochId, anchor, attempt, recipes, source);
      MadeIff(k, c, epochId, anchor, a, block, time, SelectEpoch(k, c, epochId, anchor, attempt).value, record, packet);
      assert Makes(k, c, epochId, anchor, attempt, a, block, time, recipes, source, record, packet);
    }
    if recipes, source: nat :|
         Makes(k, c, epochId, anchor, attempt, a, block, time, recipes, source, record, packet) {
      SelectedIff(k, c, epochId, anchor, attempt, recipes, source);
      MadeIff(k, c, epochId, anchor, a, block, time, SelectEpoch(k, c, epochId, anchor, attempt).value, record, packet);
    }
  }
}
