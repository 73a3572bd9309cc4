/**
 Which transactions the registry contract takes (contracts/EpochEntropy.sol), in its own numbers, and which catalog is
 in force for an epoch.
 */
module RegistryTerms {
  import opened Common
  import opened Templates
  import opened Epoch
  import opened EpochRegistry

  /** A recipe is taken while there are fewer than 256, with a request, a body and a template within their limits. */
  ghost predicate MayAppend(r: Registry, recipe: Recipe) {
    && |r.recipes| < 256 && 1 <= |recipe.canonicalRequest| <= 1024 && 1 <= |recipe.body| <= 2048
    && WellFormed(recipe.template)
  }

  /** A beacon is taken with a verifier that takes its key and accepts the signature of a round already due. */
  ghost predicate MayAppendBeacon(k: Crypto, r: Registry, block: Block, b: BeaconKey, round: int,
      signature: seq<byte>)
  {
    && b.verifier != 0 && b.chainHash != 0 && b.genesis >= 1 && b.period >= 1 && round >= 1
    && b.genesis + (round - 1) * b.period <= block.time
    && block.takesKey(b.verifier, b.publicKey) && block.verifies(b.verifier, b.publicKey, round, signature)
    && MayAppend(r, Recipe(k.beaconRequest(b.chainHash), [0x04, 0x01, 0x13], k.beaconRequest(b.chainHash), Some(b)))
  }

  /** A catalog lists one to ten registered recipes, none twice, each with a signer, a beacon with its own. */
  ghost predicate MayList(k: Crypto, r: Registry, recipes: seq<int>, signers: seq<nat>) {
    && 1 <= |recipes| <= 10 && |signers| == |recipes|
    && (forall i, j :: 0 <= i < j < |recipes| ==> recipes[i] != recipes[j])
    && (forall i :: 0 <= i < |recipes| ==> 0 <= recipes[i] < |r.recipes|)
    && forall i :: 0 <= i < |recipes| ==>
         && signers[i] != 0
         && (r.recipes[recipes[i]].beacon.Some? ==> signers[i] == k.slotSigner(r.recipes[recipes[i]].beacon.value))
  }

  lemma MayListIff(k: Crypto, r: Registry, recipes: seq<int>, signers: seq<nat>)
    ensures MayList(k, r, recipes, signers) <==> MaySchedule(k, r, recipes, signers)
  {
  }

  /** An epoch has an anchor from its first block on: the hash of the block before, or what a checkpoint kept of it. */
  ghost predicate Anchored(r: Registry, block: Block, epochId: int, anchor: nat) {
    var start := r.firstEpochStart + (epochId - 1) * 200;
    && epochId >= 1 && block.number >= start && anchor != 0
    && if epochId in r.anchors && r.anchors[epochId] != 0 then anchor == r.anchors[epochId]
       else anchor == block.hashOf(start - 1)
  }

  lemma AnchoredIff(r: Registry, block: Block, epochId: int, anchor: nat)
    ensures Anchored(r, block, epochId, anchor) <==> AnchorAt(r, block, epochId) == Some(anchor)
  {
  }

  /** The transactions the contract takes: catalogs two epochs ahead or more, and each epoch once. */
  ghost predicate Takes(k: Crypto, r: Registry, block: Block, tx: Transaction) {
    match tx
    case RegisterRecipe(request, template, body) => MayAppend(r, Recipe(request, template, body, None))
    case RegisterBeacon(b, round, signature) => MayAppendBeacon(k, r, block, b, round, signature)
    case ScheduleCatalog(recipes, signers, fromEpoch) =>
      MayList(k, r, recipes, signers) && fromEpoch >= EpochForBlock(r.firstEpochStart, block.number) + 2
    case CheckpointEpoch(epochId) => exists anchor: nat :: Anchored(r, block, epochId, anchor)
    case CommitEpoch(epochId, attempt, a) =>
      && epochId !in r.epochs
      && exists anchor: nat ::
           && Anchored(r, block, epochId, anchor)
           && Committed(k, r, CatalogAt(k, r, epochId), block, epochId, attempt, a, anchor).Some?
  }

  /** Which transactions are taken, in the contract's numbers; every other reverts. */
  lemma TakenIff(k: Crypto, r: Registry, block: Block, tx: Transaction)
    ensures Transact(k, r, block, tx).Some? <==> Takes(k, r, block, tx)
  {
    match tx
    case RegisterRecipe(_, _, _) =>
    case RegisterBeacon(_, _, _) =>
    case ScheduleCatalog(recipes, signers, _) => MayListIff(k, r, recipes, signers);
    case CheckpointEpoch(epochId) => AnchorDecides(r, block, epochId);
    case CommitEpoch(epochId, _, _) => AnchorDecides(r, block, epochId);
  }

  lemma AnchorDecides(r: Registry, block: Block, epochId: int)
    ensures AnchorAt(r, block, epochId).Some? ==> Anchored(r, block, epochId, AnchorAt(r, block, epochId).value)
    ensures forall anchor: nat :: Anchored(r, block, epochId, anchor) ==> AnchorAt(r, block, epochId) == Some(anchor)
  {
    if AnchorAt(r, block, epochId).Some? { AnchoredIff(r, block, epochId, AnchorAt(r, block, epochId).value); }
    forall anchor: nat | Anchored(r, block, epochId, anchor) ensures AnchorAt(r, block, epochId) == Some(anchor) {
      AnchoredIff(r, block, epochId, anchor);
    }
  }

  /** The version in force for an epoch: the last one that begins at or before it, none when all begin later. */
  lemma {:induction false} VersionInForce(catalogs: seq<Version>, epochId: int, v: nat)
    requires forall i, j :: 0 <= i < j < |catalogs| ==> catalogs[i].fromEpoch < catalogs[j].fromEpoch
    ensures VersionAt(catalogs, epochId) == v <==>
            && v <= |catalogs| && (v > 0 ==> catalogs[v - 1].fromEpoch <= epochId)
            && forall j :: v <= j < |catalogs| ==> catalogs[j].fromEpoch > epochId
  {
    VersionInRange(catalogs, epochId);
    if catalogs != [] && epochId < catalogs[|catalogs| - 1].fromEpoch {
      VersionInForce(catalogs[..|catalogs| - 1], epochId, v);
    }
  }
}
