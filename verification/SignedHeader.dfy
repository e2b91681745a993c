/** What the miner and the signers sign, and the identifiers derived from it. */
module SignedHeader {
  import opened Prelude
  import opened Wire
  import opened Nakamoto
  import opened BlockCodec

  type Sha = seq<byte> -> Hash32

  /** The signing preimage: the header without its signer signatures, and for the miner's own digest without
      the miner's either. */
  function SigningBytes(h: Header, withMiner: bool): seq<byte>
  {
    PutPrefix(PrefixOf(h), (if withMiner then h.minerSignature else [])
      + PutBits(h.poxTreatment, PutMarkers(h.version, h.markers, [])))
  }

  method WriteSigningBytes(h: Header, withMiner: bool) returns (bytes: seq<byte>)
    ensures bytes == SigningBytes(h, withMiner)
  {
    var writer := new Writer();
    var miner: seq<byte> := if withMiner then h.minerSignature else [];
    ghost var markers := PutMarkers(h.version, h.markers, []);
    ghost var bits := PutBits(h.poxTreatment, markers);
    WritePrefix(writer, PrefixOf(h), miner + bits);
    Assoc(writer.bytes, miner, bits);
    if withMiner {
      writer.Raw(h.minerSignature);
    } else {
      assert writer.bytes + miner == writer.bytes;
    }
    WriteBits(writer, h.poxTreatment, markers);
    WriteMarkers(writer, h.version, h.markers, []);
    assert writer.bytes + [] == writer.bytes;
    return writer.bytes;
  }

  function SignerDigest(sha: Sha, h: Header): Hash32 { sha(SigningBytes(h, true)) }

  function BlockId(sha: Sha, h: Header): Hash32 { sha(SignerDigest(sha, h) + h.consensusHash) }

  /** What the signing preimage covers. */
  function Covered(h: Header, withMiner: bool): Header
  {
    var markers := if h.version == 0 || h.version == 128 then [] else h.markers;
    var unsigned := h.(signerSignatures := [], markers := markers);
    if withMiner then unsigned else unsigned.(minerSignature := seq(65, _ => 0))
  }

  /** Read a preimage back into the header fields it covers. */
  function GetCovered(s: seq<byte>, withMiner: bool): Parsed<Header>
  {
    var (prefix, s) :- GetPrefix(s);
    var (miner, s) :- Take(s, if withMiner then SIGNATURE_BYTES else 0);
    var (bits, s) :- GetBits(s);
    var (markers, s) :- GetMarkers(s, prefix.version);
    Ok((HeaderOf(prefix, if withMiner then miner else seq(65, _ => 0), [], bits, markers), s))
  }

  lemma CoveredParts(h: Header, withMiner: bool)
    ensures Covered(h, withMiner)
            == HeaderOf(PrefixOf(h), if withMiner then h.minerSignature else seq(65, _ => 0), [], h.poxTreatment,
                        if CarriesMarkers(h.version) then h.markers else [])
  {
  }

  lemma GetCoveredParts(h: Header, withMiner: bool)
    requires |h.markers| <= U32_MAX
    ensures GetCovered(SigningBytes(h, withMiner), withMiner)
            == Ok((HeaderOf(PrefixOf(h), if withMiner then h.minerSignature else seq(65, _ => 0), [], h.poxTreatment,
                            if CarriesMarkers(h.version) then h.markers else []), []))
  {
    var miner: seq<byte> := if withMiner then h.minerSignature else [];
    var markers := PutMarkers(h.version, h.markers, []);
    var bits := PutBits(h.poxTreatment, markers);
    GetPrefixFront(PrefixOf(h), miner + bits);
    TakeFront(miner, bits);
    GetBitsFront(h.poxTreatment, markers);
    GetMarkersFront(h.version, h.markers, []);
  }

  lemma GetCoveredFront(h: Header, withMiner: bool)
    requires |h.markers| <= U32_MAX
    ensures GetCovered(SigningBytes(h, withMiner), withMiner) == Ok((Covered(h, withMiner), []))
  {
    GetCoveredParts(h, withMiner);
    CoveredParts(h, withMiner);
  }

  /** Two headers have the same preimage exactly when they agree on everything it covers. */
  lemma PreimageInjective(a: Header, b: Header, withMiner: bool)
    requires |a.markers| <= U32_MAX && |b.markers| <= U32_MAX
    ensures SigningBytes(a, withMiner) == SigningBytes(b, withMiner) <==> Covered(a, withMiner) == Covered(b, withMiner)
  {
    GetCoveredFront(a, withMiner);
    GetCoveredFront(b, withMiner);
    if Covered(a, withMiner) == Covered(b, withMiner) {
      PreimageOfCovered(a, withMiner);
      PreimageOfCovered(b, withMiner);
    }
  }

  lemma PreimageOfCovered(h: Header, withMiner: bool)
    ensures SigningBytes(h, withMiner) == SigningBytes(Covered(h, withMiner), withMiner)
  {
    assert PrefixOf(Covered(h, withMiner)) == PrefixOf(h);
  }

  /** The hash does not send these two inputs to one output. */
  ghost predicate NoCollision(sha: Sha, x: seq<byte>, y: seq<byte>) { sha(x) == sha(y) ==> x == y }

  /** The block identifiers of these two headers meet no collision. */
  ghost predicate Collisionless(sha: Sha, a: Header, b: Header)
  {
    && NoCollision(sha, SigningBytes(a, true), SigningBytes(b, true))
    && NoCollision(sha, SignerDigest(sha, a) + a.consensusHash, SignerDigest(sha, b) + b.consensusHash)
  }

  /** A block identifier fixes the header up to its signer signatures and the markers its version drops, and
      nothing else moves it. */
  lemma BlockIdBindsHeader(sha: Sha, a: Header, b: Header)
    requires |a.markers| <= U32_MAX && |b.markers| <= U32_MAX && Collisionless(sha, a, b)
    ensures BlockId(sha, a) == BlockId(sha, b) <==> Covered(a, true) == Covered(b, true)
  {
    PreimageInjective(a, b, true);
    assert a.consensusHash == Covered(a, true).consensusHash && b.consensusHash == Covered(b, true).consensusHash;
    if BlockId(sha, a) == BlockId(sha, b) {
      var da, db := SignerDigest(sha, a), SignerDigest(sha, b);
      TakeFront(da, a.consensusHash);
      TakeFront(db, b.consensusHash);
      assert da == db;
    }
  }
}
