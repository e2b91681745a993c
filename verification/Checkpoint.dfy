/** Reward sets put to use: approving headers, and attesting checkpoints against approved headers. */
module Checkpoint {
  import opened Prelude
  import opened Nakamoto
  import opened Signers
  import opened SignedHeader
  import opened SignerApproval
  import RewardSlots

  predicate FitSigners(signers: seq<Signer>) { forall i :: 0 <= i < |signers| ==> signers[i].weight <= U32_MAX }

  /** A signer set as the scan of signatures wants it: a key hash and a weight for each signer. */
  function SigningEntries(hash160: Key -> Hash20, signers: seq<Signer>): (entries: seq<Entry>)
    requires FitSigners(signers)
    ensures |entries| == |signers|
    ensures forall i :: 0 <= i < |entries| ==> entries[i] == Entry(hash160(signers[i].key), signers[i].weight)
  {
    seq(|signers|, i requires 0 <= i < |signers| => Entry(hash160(signers[i].key), signers[i].weight))
  }

  lemma {:induction false} EntriesWeighTheSame(hash160: Key -> Hash20, signers: seq<Signer>)
    requires FitSigners(signers)
    ensures EntriesTotal(SigningEntries(hash160, signers)) == WeightSum(signers)
  {
    if signers != [] {
      var n := |signers| - 1;
      EntriesWeighTheSame(hash160, signers[..n]);
      assert SigningEntries(hash160, signers)[..n] == SigningEntries(hash160, signers[..n]);
    }
  }

  /** Whatever set the reward slots give, its total fits and is positive, so its threshold is positive too and
      no header is approved without signatures. */
  lemma RewardSetNeedsSignatures(c: Crypto, hash160: Key -> Hash20, stakes: map<Key, nat>, slots: u32, digest: Hash32)
    requires RewardSlots.Apportioned(stakes, slots).Ok?
    ensures var signers := RewardSlots.Apportioned(stakes, slots).value.signers;
            && FitSigners(signers)
            && 0 < EntriesTotal(SigningEntries(hash160, signers)) <= U32_MAX
            && !Approves(c, SigningEntries(hash160, signers), digest, [])
  {
    var signers := RewardSlots.Apportioned(stakes, slots).value.signers;
    RewardSlots.RewardSetTotals(stakes, slots);
    forall i | 0 <= i < |signers| ensures signers[i].weight <= U32_MAX { WeightBelowSum(signers, i); }
    EntriesWeighTheSame(hash160, signers);
  }

  lemma {:induction false} WeightBelowSum(signers: seq<Signer>, i: nat)
    requires i < |signers|
    ensures signers[i].weight <= WeightSum(signers)
  {
    if i < |signers| - 1 {
      WeightBelowSum(signers[..|signers| - 1], i);
    }
  }

  // ---------- Attestation ----------

  datatype Manifest = Manifest(height: u64, stateId: Hash32, stateRoot: Hash32)

  datatype Attestation = Attestation(blockId: Hash32, weight: u32, threshold: u32)

  datatype TrustError = Height | StateId | StateRoot | Signers(error: SignerSetError)

  /** A header approved by these signers publishes exactly the state the manifest claims. */
  ghost predicate Attests(c: Crypto, hash160: Key -> Hash20, m: Manifest, header: Header, signers: seq<Signer>)
    requires FitSigners(signers)
  {
    var entries := SigningEntries(hash160, signers);
    && header.chainLength == m.height
    && BlockId(c.sha, header) == m.stateId
    && header.stateRoot == m.stateRoot
    && entries != [] && (forall i, j :: 0 <= i < j < |entries| ==> entries[i].hash != entries[j].hash)
    && Approves(c, entries, SignerDigest(c.sha, header), header.signerSignatures)
  }

  /** The set is no set of weights, or the scan of the header's signatures refuses them. */
  ghost predicate SignersRefuse(c: Crypto, entries: seq<Entry>, header: Header, error: SignerSetError)
  {
    if entries == [] then error == Empty
    else if exists i, j :: 0 <= i < j < |entries| && entries[i].hash == entries[j].hash then error == DuplicateSigner
    else ScanFault(c, entries, SignerDigest(c.sha, header), header.signerSignatures, error)
  }

  method AttestCheckpoint(c: Crypto, hash160: Key -> Hash20, m: Manifest, header: Header, signers: seq<Signer>)
    returns (r: Result<Attestation, TrustError>)
    requires FitSigners(signers)
    ensures r.Ok? <==> Attests(c, hash160, m, header, signers)
    ensures r == Err(Height) <==> header.chainLength != m.height
    ensures r == Err(StateId) <==> header.chainLength == m.height && BlockId(c.sha, header) != m.stateId
    ensures r == Err(StateRoot) <==>
              header.chainLength == m.height && BlockId(c.sha, header) == m.stateId && header.stateRoot != m.stateRoot
    ensures r.Err? && r.error.Signers? ==> SignersRefuse(c, SigningEntries(hash160, signers), header, r.error.error)
    ensures r.Ok? ==> r.value.blockId == m.stateId
    ensures r.Ok? ==> 7 * WeightSum(signers) <= 10 * r.value.threshold < 7 * WeightSum(signers) + 10
    ensures r.Ok? ==>
              var entries := SigningEntries(hash160, signers);
              r.value.weight
              == WeightOf(entries, SignersOf(c, entries, SignerDigest(c.sha, header), header.signerSignatures))
  {
    if header.chainLength != m.height {
      return Err(Height);
    }
    if BlockId(c.sha, header) != m.stateId {
      return Err(StateId);
    }
    if header.stateRoot != m.stateRoot {
      return Err(StateRoot);
    }
    var entries := NewWeights(SigningEntries(hash160, signers));
    if entries.Err? {
      return Err(Signers(entries.error));
    }
    var weight := Verify(c, entries.value, header);
    if weight.Err? {
      return Err(Signers(weight.error));
    }
    var threshold := ApprovalThreshold(entries.value);
    EntriesWeighTheSame(hash160, signers);
    DistinctWeight(c, entries.value, SignerDigest(c.sha, header), header.signerSignatures);
    return Ok(Attestation(BlockId(c.sha, header), weight.value, threshold.value));
  }

  /** Two attested checkpoints of one state agree on its height and root, even under different reward sets. */
  lemma AttestationsAgree(c: Crypto, hash160: Key -> Hash20, m: Manifest, header: Header, signers: seq<Signer>,
                          m': Manifest, header': Header, signers': seq<Signer>)
    requires FitSigners(signers) && FitSigners(signers')
    requires Attests(c, hash160, m, header, signers) && Attests(c, hash160, m', header', signers')
    requires |header.markers| <= U32_MAX && |header'.markers| <= U32_MAX && Collisionless(c.sha, header, header')
    requires m.stateId == m'.stateId
    ensures m == m'
  {
    BlockIdBindsHeader(c.sha, header, header');
    var covered, covered' := Covered(header, true), Covered(header', true);
    assert header.chainLength == covered.chainLength && header'.chainLength == covered'.chainLength;
    assert header.stateRoot == covered.stateRoot && header'.stateRoot == covered'.stateRoot;
  }

  /** Two checkpoints attested by one reward set, of whatever states, share signers of two fifths of its weight. */
  lemma AttestationsOverlap(c: Crypto, hash160: Key -> Hash20, signers: seq<Signer>, m: Manifest, header: Header,
                            m': Manifest, header': Header)
    requires FitSigners(signers)
    requires Attests(c, hash160, m, header, signers) && Attests(c, hash160, m', header', signers)
    ensures var entries := SigningEntries(hash160, signers);
            var a := SignersOf(c, entries, SignerDigest(c.sha, header), header.signerSignatures);
            var b := SignersOf(c, entries, SignerDigest(c.sha, header'), header'.signerSignatures);
            5 * WeightOf(entries, a * b) >= 2 * WeightSum(signers)
  {
    EntriesWeighTheSame(hash160, signers);
    QuorumsIntersect(c, SigningEntries(hash160, signers), SignerDigest(c.sha, header), header.signerSignatures,
                     SignerDigest(c.sha, header'), header'.signerSignatures);
  }
}
