/**
 The consensus encoding of a block.

 Every encoder takes what follows it, so that encoding a block in front of any bytes is one expression; every
 decoder reads from the front of a byte string and returns what is left.
 */
module BlockCodec {
  import opened Prelude
  import opened Wire
  import opened Nakamoto

  /** The transaction codec, transaction ids and the Merkle root, which the envelope only calls. */
  datatype TxCodec = TxCodec(
    encode: Transaction -> seq<byte>,
    decode: seq<byte> -> Result<(Transaction, nat), CodecError>,
    txid: Transaction -> Hash32,
    merkleRoot: seq<Transaction> -> Hash32)

  const SIGNATURE_BYTES: nat := 65
  const MARKER_BYTES: nat := 5

  /** Epoch 4 headers, below the shadow flag, carry markers. */
  predicate CarriesMarkers(version: byte) { version % 128 >= 1 }

  /** The fields in front of the signatures. */
  datatype Prefix = Prefix(
    version: byte, chainLength: u64, bitcoinSpent: u64, consensusHash: Hash20,
    parentBlockId: Hash32, merkleRoot: Hash32, stateRoot: Hash32, timestamp: u64)

  function PrefixOf(h: Header): Prefix
  {
    Prefix(h.version, h.chainLength, h.bitcoinSpent, h.consensusHash,
           h.parentBlockId, h.merkleRoot, h.stateRoot, h.timestamp)
  }

  /** What the encoding of a header keeps: a version without markers drops them. */
  function Carried(h: Header): Header
  {
    if CarriesMarkers(h.version) then h else h.(markers := [])
  }

  // ---------- Encoding ----------

  function PutPrefix(p: Prefix, tail: seq<byte>): seq<byte>
  {
    [p.version] + (BigEndian(p.chainLength, 8) + (BigEndian(p.bitcoinSpent, 8) + (p.consensusHash
      + (p.parentBlockId + (p.merkleRoot + (p.stateRoot + (BigEndian(p.timestamp, 8) + tail)))))))
  }

  function PutEachSignature(signatures: seq<Signature>, tail: seq<byte>): seq<byte>
  {
    if signatures == [] then tail else signatures[0] + PutEachSignature(signatures[1..], tail)
  }

  function PutSignatures(signatures: seq<Signature>, tail: seq<byte>): seq<byte>
  {
    BigEndian(|signatures|, 4) + PutEachSignature(signatures, tail)
  }

  function PutBits(bits: BitVec, tail: seq<byte>): seq<byte>
  {
    BigEndian(bits.len, 2) + (BigEndian(|bits.data|, 4) + (bits.data + tail))
  }

  function PutEachMarker(markers: seq<Marker>, tail: seq<byte>): seq<byte>
  {
    if markers == [] then tail
    else BigEndian(markers[0].index, 4) + ([markers[0].category] + PutEachMarker(markers[1..], tail))
  }

  function PutMarkers(version: byte, markers: seq<Marker>, tail: seq<byte>): seq<byte>
  {
    if CarriesMarkers(version) then BigEndian(|markers|, 4) + PutEachMarker(markers, tail) else tail
  }

  function PutHeader(h: Header, tail: seq<byte>): seq<byte>
  {
    PutPrefix(PrefixOf(h), h.minerSignature + PutSignatures(h.signerSignatures,
      PutBits(h.poxTreatment, PutMarkers(h.version, h.markers, tail))))
  }

  function PutEachTx(codec: TxCodec, txs: seq<Transaction>, tail: seq<byte>): seq<byte>
  {
    if txs == [] then tail else codec.encode(txs[0]) + PutEachTx(codec, txs[1..], tail)
  }

  function PutBlock(codec: TxCodec, b: Block, tail: seq<byte>): seq<byte>
  {
    PutHeader(b.header, BigEndian(|b.txs|, 4) + PutEachTx(codec, b.txs, tail))
  }

  function Encode(codec: TxCodec, b: Block): seq<byte> { PutBlock(codec, b, []) }

  // ---------- Decoding ----------

  function GetByte(s: seq<byte>): (r: Parsed<byte>)
    ensures r.Ok? ==> [r.value.0] + r.value.1 == s
  {
    var (taken, rest) :- Take(s, 1);
    Ok((taken[0], rest))
  }

  function GetU64(s: seq<byte>): (r: Parsed<u64>)
    ensures r.Ok? ==> BigEndian(r.value.0, 8) + r.value.1 == s
  {
    Widths();
    var (n, rest) :- GetNumber(s, 8);
    Ok((n, rest))
  }

  function GetU32(s: seq<byte>): (r: Parsed<u32>)
    ensures r.Ok? ==> BigEndian(r.value.0, 4) + r.value.1 == s
  {
    Widths();
    var (n, rest) :- GetNumber(s, 4);
    Ok((n, rest))
  }

  function GetPrefix(s: seq<byte>): (r: Parsed<Prefix>)
    ensures r.Ok? ==> |r.value.1| < |s|
  {
    var (version, s) :- GetByte(s);
    var (chainLength, s) :- GetU64(s);
    var (bitcoinSpent, s) :- GetU64(s);
    var (consensusHash, s) :- Take(s, 20);
    var (parentBlockId, s) :- Take(s, 32);
    var (merkleRoot, s) :- Take(s, 32);
    var (stateRoot, s) :- Take(s, 32);
    var (timestamp, s) :- GetU64(s);
    Ok((Prefix(version, chainLength, bitcoinSpent, consensusHash, parentBlockId, merkleRoot, stateRoot, timestamp), s))
  }

  function GetEachSignature(s: seq<byte>, count: nat): (r: Parsed<seq<Signature>>)
    ensures r.Ok? ==> |r.value.0| == count && |r.value.1| <= |s|
  {
    if count == 0 then Ok(([], s)) else
    var (first, s) :- Take(s, SIGNATURE_BYTES);
    var (others, s) :- GetEachSignature(s, count - 1);
    Ok(([first] + others, s))
  }

  function GetSignatures(s: seq<byte>): (r: Parsed<seq<Signature>>)
    ensures r.Ok? ==> |r.value.0| <= U32_MAX && |r.value.1| <= |s|
  {
    var (count, s) :- GetU32(s);
    if count > |s| / SIGNATURE_BYTES then Err(Length) else GetEachSignature(s, count)
  }

  function GetBits(s: seq<byte>): (r: Parsed<BitVec>)
    ensures r.Ok? ==> |r.value.1| <= |s|
  {
    var (len, s) :- GetNumber(s, 2);
    var (size, s) :- GetU32(s);
    if size != DivCeil(len, 8) then Err(Length) else
    var (data, s) :- Take(s, size);
    if len == 0 || len > MAX_POX_BITS then Err(BitVecInvalid) else Ok((RawBits(len, data), s))
  }

  function GetEachMarker(s: seq<byte>, count: nat): (r: Parsed<seq<Marker>>)
    ensures r.Ok? ==> |r.value.0| == count && |r.value.1| <= |s|
  {
    if count == 0 then Ok(([], s)) else
    var (index, s) :- GetU32(s);
    var (category, s) :- GetByte(s);
    var (others, s) :- GetEachMarker(s, count - 1);
    Ok(([Marker(index, category)] + others, s))
  }

  function GetMarkers(s: seq<byte>, version: byte): (r: Parsed<seq<Marker>>)
    ensures r.Ok? ==> |r.value.0| <= U32_MAX && |r.value.1| <= |s|
    ensures r.Ok? && !CarriesMarkers(version) ==> r.value.0 == []
  {
    if !CarriesMarkers(version) then Ok(([], s)) else
    var (count, s) :- GetU32(s);
    if count > |s| / MARKER_BYTES then Err(Length) else GetEachMarker(s, count)
  }

  function HeaderOf(p: Prefix, miner: Signature, signers: seq<Signature>, bits: BitVec, markers: seq<Marker>): Header
  {
    Header(p.version, p.chainLength, p.bitcoinSpent, p.consensusHash, p.parentBlockId, p.merkleRoot, p.stateRoot,
           p.timestamp, miner, signers, bits, markers)
  }

  function GetHeader(s: seq<byte>): (r: Parsed<Header>)
    ensures r.Ok? ==> |r.value.1| < |s| && Carried(r.value.0) == r.value.0
    ensures r.Ok? ==> |r.value.0.signerSignatures| <= U32_MAX && |r.value.0.markers| <= U32_MAX
  {
    var (prefix, s) :- GetPrefix(s);
    var (miner, s) :- Take(s, SIGNATURE_BYTES);
    var (signers, s) :- GetSignatures(s);
    var (bits, s) :- GetBits(s);
    var (markers, s) :- GetMarkers(s, prefix.version);
    Ok((HeaderOf(prefix, miner, signers, bits, markers), s))
  }

  /** The parts of a header, put one after another, are its encoding. */
  lemma HeaderOfParts(p: Prefix, miner: Signature, signers: seq<Signature>, bits: BitVec, markers: seq<Marker>,
                      rest: seq<byte>)
    ensures PutHeader(HeaderOf(p, miner, signers, bits, markers), rest)
            == PutPrefix(p, miner + PutSignatures(signers, PutBits(bits, PutMarkers(p.version, markers, rest))))
  {
    assert PrefixOf(HeaderOf(p, miner, signers, bits, markers)) == p;
  }

  lemma PrefixRewritten(s: seq<byte>)
    requires GetPrefix(s).Ok?
    ensures var (p, rest) := GetPrefix(s).value; PutPrefix(p, rest) == s
  {
  }

  lemma {:induction false} EachSignatureRewritten(s: seq<byte>, count: nat)
    requires GetEachSignature(s, count).Ok?
    ensures var (signatures, rest) := GetEachSignature(s, count).value; PutEachSignature(signatures, rest) == s
  {
    if count != 0 {
      var (first, left) := Take(s, SIGNATURE_BYTES).value;
      EachSignatureRewritten(left, count - 1);
      var others := GetEachSignature(left, count - 1).value.0;
      assert ([first] + others)[1..] == others;
    }
  }

  lemma SignaturesRewritten(s: seq<byte>)
    requires GetSignatures(s).Ok?
    ensures var (signatures, rest) := GetSignatures(s).value; PutSignatures(signatures, rest) == s
  {
    var (count, each) := GetU32(s).value;
    EachSignatureRewritten(each, count);
  }

  lemma BitsRewritten(s: seq<byte>)
    requires GetBits(s).Ok?
    ensures var (bits, rest) := GetBits(s).value; PutBits(bits, rest) == s
  {
  }

  lemma {:induction false} EachMarkerRewritten(s: seq<byte>, count: nat)
    requires GetEachMarker(s, count).Ok?
    ensures var (markers, rest) := GetEachMarker(s, count).value; PutEachMarker(markers, rest) == s
  {
    if count != 0 {
      var (index, s1) := GetU32(s).value;
      var (category, s2) := GetByte(s1).value;
      EachMarkerRewritten(s2, count - 1);
      var others := GetEachMarker(s2, count - 1).value.0;
      assert ([Marker(index, category)] + others)[1..] == others;
    }
  }

  lemma MarkersRewritten(s: seq<byte>, version: byte)
    requires GetMarkers(s, version).Ok?
    ensures var (markers, rest) := GetMarkers(s, version).value; PutMarkers(version, markers, rest) == s
  {
    if CarriesMarkers(version) {
      var (count, each) := GetU32(s).value;
      EachMarkerRewritten(each, count);
    }
  }

  lemma HeaderRewritten(s: seq<byte>)
    requires GetHeader(s).Ok?
    ensures var (h, rest) := GetHeader(s).value; PutHeader(h, rest) == s
  {
    var (p, s1) := GetPrefix(s).value;
    var (miner, s2) := Take(s1, SIGNATURE_BYTES).value;
    var (signers, s3) := GetSignatures(s2).value;
    var (bits, s4) := GetBits(s3).value;
    var (markers, rest) := GetMarkers(s4, p.version).value;
    PrefixRewritten(s);
    SignaturesRewritten(s2);
    BitsRewritten(s3);
    MarkersRewritten(s4, p.version);
    HeaderOfParts(p, miner, signers, bits, markers, rest);
  }

  function GetEachTx(codec: TxCodec, s: seq<byte>, count: nat): (r: Parsed<seq<Transaction>>)
    ensures r.Ok? ==> |r.value.0| == count && |r.value.1| <= |s|
  {
    if count == 0 then Ok(([], s)) else
    var (tx, consumed) :- codec.decode(s);
    var (_, s) :- Take(s, consumed);
    var (others, s) :- GetEachTx(codec, s, count - 1);
    Ok(([tx] + others, s))
  }

  function GetTxs(codec: TxCodec, s: seq<byte>): (r: Parsed<seq<Transaction>>)
    ensures r.Ok? ==> |r.value.1| + 4 <= |s|
  {
    var (count, s) :- GetU32(s);
    if count > |s| then Err(Length) else GetEachTx(codec, s, count)
  }

  predicate DistinctIds(codec: TxCodec, txs: seq<Transaction>)
  {
    forall i, j :: 0 <= i < j < |txs| ==> codec.txid(txs[i]) != codec.txid(txs[j])
  }

  function Validate(codec: TxCodec, header: Header, txs: seq<Transaction>): Result<Block, CodecError>
  {
    if !DistinctIds(codec, txs) then Err(DuplicateTransaction)
    else if codec.merkleRoot(txs) != header.merkleRoot then Err(MerkleRoot)
    else Ok(Block(header, txs))
  }

  lemma {:induction false} EachSignatureLength(signatures: seq<Signature>, tail: seq<byte>)
    ensures |PutEachSignature(signatures, tail)| == SIGNATURE_BYTES * |signatures| + |tail|
  {
    if signatures != [] {
      EachSignatureLength(signatures[1..], tail);
    }
  }

  lemma {:induction false} EachMarkerLength(markers: seq<Marker>, tail: seq<byte>)
    ensures |PutEachMarker(markers, tail)| == MARKER_BYTES * |markers| + |tail|
  {
    if markers != [] {
      EachMarkerLength(markers[1..], tail);
    }
  }

  /** The transactions under a header, and the block when it is valid; `total` counts the header too. */
  function DecodeBody(codec: TxCodec, total: nat, header: Header,
                      body: seq<byte>): (r: Result<(Block, nat), CodecError>)
    requires |body| < total
    ensures r.Ok? ==> 0 < r.value.1 <= total
  {
    var txs := GetTxs(codec, body);
    if txs.Err? then Err(txs.error) else
    var block := Validate(codec, header, txs.value.0);
    if block.Err? then Err(block.error) else Ok((block.value, total - |txs.value.1|))
  }

  /** The block that a byte string begins with, and how many bytes it takes. */
  function DecodePrefix(codec: TxCodec, s: seq<byte>): (r: Result<(Block, nat), CodecError>)
    ensures r.Ok? ==> 0 < r.value.1 <= |s|
  {
    var header := GetHeader(s);
    if header.Err? then Err(header.error) else DecodeBody(codec, |s|, header.value.0, header.value.1)
  }

  /** Decode one complete block. */
  function Decode(codec: TxCodec, s: seq<byte>): Result<Block, CodecError>
  {
    var (block, consumed) :- DecodePrefix(codec, s);
    if consumed != |s| then Err(TrailingBytes) else Ok(block)
  }

  // ---------- Decoding inverts encoding ----------

  lemma GetByteFront(b: byte, rest: seq<byte>)
    ensures GetByte([b] + rest) == Ok((b, rest))
  {
    TakeFront([b], rest);
  }

  lemma GetU64Front(n: u64, rest: seq<byte>)
    ensures GetU64(BigEndian(n, 8) + rest) == Ok((n, rest))
  {
    Widths();
    GetNumberFront(n, 8, rest);
  }

  lemma GetU32Front(n: u32, rest: seq<byte>)
    ensures GetU32(BigEndian(n, 4) + rest) == Ok((n, rest))
  {
    Widths();
    GetNumberFront(n, 4, rest);
  }

  lemma GetPrefixFront(p: Prefix, rest: seq<byte>)
    ensures GetPrefix(PutPrefix(p, rest)) == Ok((p, rest))
  {
    var s8 := rest;
    var s7 := BigEndian(p.timestamp, 8) + s8;
    var s6 := p.stateRoot + s7;
    var s5 := p.merkleRoot + s6;
    var s4 := p.parentBlockId + s5;
    var s3 := p.consensusHash + s4;
    var s2 := BigEndian(p.bitcoinSpent, 8) + s3;
    var s1 := BigEndian(p.chainLength, 8) + s2;
    GetByteFront(p.version, s1);
    GetU64Front(p.chainLength, s2);
    GetU64Front(p.bitcoinSpent, s3);
    TakeFront(p.consensusHash, s4);
    TakeFront(p.parentBlockId, s5);
    TakeFront(p.merkleRoot, s6);
    TakeFront(p.stateRoot, s7);
    GetU64Front(p.timestamp, s8);
  }

  lemma {:induction false} GetEachSignatureFront(signatures: seq<Signature>, rest: seq<byte>)
    ensures GetEachSignature(PutEachSignature(signatures, rest), |signatures|) == Ok((signatures, rest))
  {
    if signatures != [] {
      TakeFront(signatures[0], PutEachSignature(signatures[1..], rest));
      GetEachSignatureFront(signatures[1..], rest);
      assert signatures == [signatures[0]] + signatures[1..];
    }
  }

  lemma GetSignaturesFront(signatures: seq<Signature>, rest: seq<byte>)
    requires |signatures| <= U32_MAX
    ensures GetSignatures(PutSignatures(signatures, rest)) == Ok((signatures, rest))
  {
    GetU32Front(|signatures|, PutEachSignature(signatures, rest));
    EachSignatureLength(signatures, rest);
    GetEachSignatureFront(signatures, rest);
  }

  lemma GetBitsFront(bits: BitVec, rest: seq<byte>)
    ensures GetBits(PutBits(bits, rest)) == Ok((bits, rest))
  {
    Widths();
    GetNumberFront(bits.len, 2, BigEndian(|bits.data|, 4) + (bits.data + rest));
    GetU32Front(|bits.data|, bits.data + rest);
    TakeFront(bits.data, rest);
  }

  lemma {:induction false} GetEachMarkerFront(markers: seq<Marker>, rest: seq<byte>)
    ensures GetEachMarker(PutEachMarker(markers, rest), |markers|) == Ok((markers, rest))
  {
    if markers != [] {
      var others := PutEachMarker(markers[1..], rest);
      GetU32Front(markers[0].index, [markers[0].category] + others);
      GetByteFront(markers[0].category, others);
      GetEachMarkerFront(markers[1..], rest);
      assert markers == [markers[0]] + markers[1..];
    }
  }

  lemma GetMarkersFront(version: byte, markers: seq<Marker>, rest: seq<byte>)
    requires |markers| <= U32_MAX
    ensures GetMarkers(PutMarkers(version, markers, rest), version)
            == Ok((if CarriesMarkers(version) then markers else [], rest))
  {
    if CarriesMarkers(version) {
      GetU32Front(|markers|, PutEachMarker(markers, rest));
      EachMarkerLength(markers, rest);
      GetEachMarkerFront(markers, rest);
    }
  }

  lemma GetHeaderFront(h: Header, rest: seq<byte>)
    requires |h.signerSignatures| <= U32_MAX && |h.markers| <= U32_MAX
    ensures GetHeader(PutHeader(h, rest)) == Ok((Carried(h), rest))
  {
    var markers := PutMarkers(h.version, h.markers, rest);
    var bits := PutBits(h.poxTreatment, markers);
    var signers := PutSignatures(h.signerSignatures, bits);
    GetPrefixFront(PrefixOf(h), h.minerSignature + signers);
    TakeFront(h.minerSignature, signers);
    GetSignaturesFront(h.signerSignatures, bits);
    GetBitsFront(h.poxTreatment, markers);
    GetMarkersFront(h.version, h.markers, rest);
  }

  /** The transaction codec writes a transaction in at least a byte and reads it back, whatever follows. */
  ghost predicate ReadsBack(codec: TxCodec, tx: Transaction)
  {
    0 < |codec.encode(tx)| && forall s :: codec.encode(tx) <= s ==> codec.decode(s) == Ok((tx, |codec.encode(tx)|))
  }

  ghost predicate Reads(codec: TxCodec, txs: seq<Transaction>)
  {
    forall tx :: tx in txs ==> ReadsBack(codec, tx)
  }

  lemma {:induction false} GetEachTxFront(codec: TxCodec, txs: seq<Transaction>, rest: seq<byte>)
    requires Reads(codec, txs)
    ensures GetEachTx(codec, PutEachTx(codec, txs, rest), |txs|) == Ok((txs, rest))
    ensures |txs| + |rest| <= |PutEachTx(codec, txs, rest)|
  {
    if txs != [] {
      var others := PutEachTx(codec, txs[1..], rest);
      GetEachTxFront(codec, txs[1..], rest);
      assert codec.encode(txs[0]) <= codec.encode(txs[0]) + others && ReadsBack(codec, txs[0]);
      TakeFront(codec.encode(txs[0]), others);
      assert txs == [txs[0]] + txs[1..];
    }
  }

  lemma GetTxsFront(codec: TxCodec, txs: seq<Transaction>, rest: seq<byte>)
    requires Reads(codec, txs) && |txs| <= U32_MAX
    ensures GetTxs(codec, BigEndian(|txs|, 4) + PutEachTx(codec, txs, rest)) == Ok((txs, rest))
  {
    GetU32Front(|txs|, PutEachTx(codec, txs, rest));
    GetEachTxFront(codec, txs, rest);
  }

  ghost predicate Countable(b: Block)
  {
    |b.header.signerSignatures| <= U32_MAX && |b.header.markers| <= U32_MAX && |b.txs| <= U32_MAX
  }

  /** A block whose encoding is the whole block: its ids are distinct, its root is the root of its
      transactions, and it has no markers its version would drop. */
  ghost predicate Canonical(codec: TxCodec, b: Block)
  {
    && (b.header.version == 0 || b.header.version == 128 ==> b.header.markers == [])
    && DistinctIds(codec, b.txs)
    && codec.merkleRoot(b.txs) == b.header.merkleRoot
  }

  lemma DecodeBodyFront(codec: TxCodec, total: nat, h: Header, txs: seq<Transaction>, rest: seq<byte>, body: seq<byte>)
    requires |body| < total && GetTxs(codec, body) == Ok((txs, rest))
    ensures |rest| <= total
    ensures DecodeBody(codec, total, h, body)
            == Outcome(codec, h, txs, total - |rest|)
  {
  }

  /** What decoding makes of a header and transactions that were read. */
  ghost function Outcome(codec: TxCodec, h: Header, txs: seq<Transaction>, n: nat): Result<(Block, nat), CodecError>
  {
    var v := Validate(codec, h, txs);
    if v.Err? then Err(v.error) else Ok((v.value, n))
  }

  lemma DecodePrefixFront(codec: TxCodec, t: seq<byte>, h: Header, body: seq<byte>)
    requires GetHeader(t) == Ok((h, body))
    ensures |body| < |t| && DecodePrefix(codec, t) == DecodeBody(codec, |t|, h, body)
  {
  }

  lemma EncodedParts(codec: TxCodec, b: Block, rest: seq<byte>) returns (body: seq<byte>)
    requires Reads(codec, b.txs) && Countable(b)
    ensures GetHeader(Encode(codec, b) + rest) == Ok((Carried(b.header), body))
    ensures GetTxs(codec, body) == Ok((b.txs, rest))
  {
    body := BigEndian(|b.txs|, 4) + PutEachTx(codec, b.txs, rest);
    PutBlockTail(codec, b, rest);
    GetHeaderFront(b.header, body);
    GetTxsFront(codec, b.txs, rest);
  }

  /** Decoding the encoding of a block in front of any bytes gives back the block and its length exactly when
      the block is canonical. */
  lemma DecodeInvertsEncode(codec: TxCodec, b: Block, rest: seq<byte>)
    requires Reads(codec, b.txs) && Countable(b)
    ensures DecodePrefix(codec, Encode(codec, b) + rest) == Ok((b, |Encode(codec, b)|)) <==> Canonical(codec, b)
  {
    var body := EncodedParts(codec, b, rest);
    var t := Encode(codec, b) + rest;
    DecodePrefixFront(codec, t, Carried(b.header), body);
    DecodeBodyFront(codec, |t|, Carried(b.header), b.txs, rest, body);
    ValidateCanonical(codec, b);
  }

  lemma CanonicalCarried(codec: TxCodec, b: Block)
    requires Canonical(codec, b)
    ensures Carried(b.header) == b.header
  {
  }

  lemma ValidateCanonical(codec: TxCodec, b: Block)
    ensures Validate(codec, Carried(b.header), b.txs) == Ok(b) <==> Canonical(codec, b)
  {
  }

  // ---------- What follows an encoding stays as it is ----------

  lemma {:induction false} PutEachSignatureTail(signatures: seq<Signature>, a: seq<byte>, b: seq<byte>)
    ensures PutEachSignature(signatures, a) + b == PutEachSignature(signatures, a + b)
  {
    if signatures != [] {
      PutEachSignatureTail(signatures[1..], a, b);
      assert PutEachSignature(signatures, a) + b == signatures[0] + (PutEachSignature(signatures[1..], a) + b);
    }
  }

  lemma {:induction false} PutEachMarkerTail(markers: seq<Marker>, a: seq<byte>, b: seq<byte>)
    ensures PutEachMarker(markers, a) + b == PutEachMarker(markers, a + b)
  {
    if markers != [] {
      PutEachMarkerTail(markers[1..], a, b);
      assert PutEachMarker(markers, a) + b
          == BigEndian(markers[0].index, 4) + ([markers[0].category] + (PutEachMarker(markers[1..], a) + b));
    }
  }

  lemma PutPrefixTail(p: Prefix, a: seq<byte>, b: seq<byte>)
    ensures PutPrefix(p, a) + b == PutPrefix(p, a + b)
  {
  }

  lemma PutMarkersTail(version: byte, markers: seq<Marker>, a: seq<byte>, b: seq<byte>)
    ensures PutMarkers(version, markers, a) + b == PutMarkers(version, markers, a + b)
  {
    PutEachMarkerTail(markers, a, b);
  }

  lemma PutBitsTail(bits: BitVec, a: seq<byte>, b: seq<byte>)
    ensures PutBits(bits, a) + b == PutBits(bits, a + b)
  {
  }

  lemma PutSignaturesTail(signatures: seq<Signature>, a: seq<byte>, b: seq<byte>)
    ensures PutSignatures(signatures, a) + b == PutSignatures(signatures, a + b)
  {
    PutEachSignatureTail(signatures, a, b);
  }

  lemma PutHeaderTail(h: Header, a: seq<byte>, b: seq<byte>)
    ensures PutHeader(h, a) + b == PutHeader(h, a + b)
  {
    var markers := PutMarkers(h.version, h.markers, a);
    var bits := PutBits(h.poxTreatment, markers);
    var signers := PutSignatures(h.signerSignatures, bits);
    PutMarkersTail(h.version, h.markers, a, b);
    PutBitsTail(h.poxTreatment, markers, b);
    PutSignaturesTail(h.signerSignatures, bits, b);
    Assoc(h.minerSignature, signers, b);
    PutPrefixTail(PrefixOf(h), h.minerSignature + signers, b);
  }

  lemma {:induction false} PutEachTxTail(codec: TxCodec, txs: seq<Transaction>, tail: seq<byte>)
    ensures PutEachTx(codec, txs, tail) == PutEachTx(codec, txs, []) + tail
  {
    if txs != [] {
      PutEachTxTail(codec, txs[1..], tail);
    }
  }

  /** Encoding in front of other bytes is encoding, then those bytes. */
  lemma PutBlockTail(codec: TxCodec, b: Block, tail: seq<byte>)
    ensures PutBlock(codec, b, tail) == Encode(codec, b) + tail
  {
    var count, txs := BigEndian(|b.txs|, 4), PutEachTx(codec, b.txs, []);
    PutEachTxTail(codec, b.txs, tail);
    assert count + (txs + tail) == count + txs + tail;
    PutHeaderTail(b.header, count + txs, tail);
  }

  // ---------- Streams of blocks ----------

  /** Blocks encoded back to back. */
  function EncodeAll(codec: TxCodec, blocks: seq<Block>): seq<byte>
  {
    if blocks == [] then [] else Encode(codec, blocks[0]) + EncodeAll(codec, blocks[1..])
  }

  datatype Stream = Stream(blocks: seq<Block>, fault: Option<CodecError>)

  function DecodeStream(codec: TxCodec, s: seq<byte>): Stream
    decreases |s|
  {
    if s == [] then Stream([], None) else
    var first := DecodePrefix(codec, s);
    if first.Err? then Stream([], Some(first.error)) else
    var others := DecodeStream(codec, s[first.value.1..]);
    Stream([first.value.0] + others.blocks, others.fault)
  }

  /** Whatever follows `x`, it decodes to the block. */
  ghost predicate Opens(codec: TxCodec, x: seq<byte>, b: Block)
  {
    forall rest :: DecodePrefix(codec, x + rest) == Ok((b, |x|))
  }

  ghost function Concat(xs: seq<seq<byte>>): seq<byte>
  {
    if xs == [] then [] else xs[0] + Concat(xs[1..])
  }

  lemma StreamFront(codec: TxCodec, x: seq<byte>, b: Block, rest: seq<byte>)
    requires Opens(codec, x, b)
    ensures var others := DecodeStream(codec, rest);
            DecodeStream(codec, x + rest) == Stream([b] + others.blocks, others.fault)
  {
    assert DecodePrefix(codec, x + rest) == Ok((b, |x|));
    assert (x + rest)[|x|..] == rest;
    assert x + rest != [];
  }

  lemma {:induction false} StreamOpened(codec: TxCodec, xs: seq<seq<byte>>, blocks: seq<Block>)
    requires |xs| == |blocks| && forall i :: 0 <= i < |xs| ==> Opens(codec, xs[i], blocks[i])
    ensures DecodeStream(codec, Concat(xs)) == Stream(blocks, None)
    decreases |xs|
  {
    if xs != [] {
      StreamOpened(codec, xs[1..], blocks[1..]);
      StreamFront(codec, xs[0], blocks[0], Concat(xs[1..]));
      assert blocks == [blocks[0]] + blocks[1..];
    }
  }

  lemma {:induction false} EncodeAllConcat(codec: TxCodec, blocks: seq<Block>, xs: seq<seq<byte>>)
    requires |xs| == |blocks| && forall i :: 0 <= i < |xs| ==> xs[i] == Encode(codec, blocks[i])
    ensures EncodeAll(codec, blocks) == Concat(xs)
    decreases |xs|
  {
    if xs != [] {
      EncodeAllConcat(codec, blocks[1..], xs[1..]);
    }
  }

  /** Any list of canonical blocks encoded back to back is read back in full. */
  lemma StreamRecovered(codec: TxCodec, blocks: seq<Block>)
    requires forall b :: b in blocks ==> Reads(codec, b.txs) && Canonical(codec, b) && Countable(b)
    ensures DecodeStream(codec, EncodeAll(codec, blocks)) == Stream(blocks, None)
  {
    var xs := seq(|blocks|, i requires 0 <= i < |blocks| => Encode(codec, blocks[i]));
    forall i, rest | 0 <= i < |xs|
      ensures DecodePrefix(codec, xs[i] + rest) == Ok((blocks[i], |xs[i]|))
    {
      DecodeInvertsEncode(codec, blocks[i], rest);
    }
    EncodeAllConcat(codec, blocks, xs);
    StreamOpened(codec, xs, blocks);
  }

  /** Blocks already read, in front of what reading the rest would give. */
  ghost function Continued(done: seq<Block>, left: Stream): Stream { Stream(done + left.blocks, left.fault) }

  lemma StreamStep(codec: TxCodec, done: seq<Block>, s: seq<byte>)
    requires s != [] && DecodePrefix(codec, s).Ok?
    ensures var (b, n) := DecodePrefix(codec, s).value;
            Continued(done, DecodeStream(codec, s)) == Continued(done + [b], DecodeStream(codec, s[n..]))
  {
    var (b, n) := DecodePrefix(codec, s).value;
    var left := DecodeStream(codec, s[n..]);
    assert done + ([b] + left.blocks) == done + [b] + left.blocks;
  }

  /** The stream loop: advance by what each block took, until the bytes run out or one does not decode. */
  method DecodeBlocks(codec: TxCodec, bytes: seq<byte>) returns (blocks: seq<Block>, fault: Option<CodecError>)
    ensures Stream(blocks, fault) == DecodeStream(codec, bytes)
  {
    blocks, fault := [], None;
    var offset := 0;
    assert bytes[0..] == bytes && [] + DecodeStream(codec, bytes).blocks == DecodeStream(codec, bytes).blocks;
    while offset < |bytes|
      invariant 0 <= offset <= |bytes| && fault.None?
      invariant DecodeStream(codec, bytes) == Continued(blocks, DecodeStream(codec, bytes[offset..]))
      decreases |bytes| - offset
    {
      var r := ReadBlock(codec, bytes[offset..]);
      if r.Err? {
        fault := Some(r.error);
        assert blocks + [] == blocks;
        return;
      }
      StreamStep(codec, blocks, bytes[offset..]);
      assert bytes[offset..][r.value.1..] == bytes[offset + r.value.1..];
      blocks := blocks + [r.value.0];
      offset := offset + r.value.1;
    }
    assert blocks + [] == blocks;
  }

  // ---------- Decoding in place ----------

  method ReadU32(reader: Reader) returns (r: Result<u32, CodecError>)
    requires reader.Valid()
    modifies reader
    ensures reader.Valid() && Follows(GetU32(old(reader.Remaining())), r, reader.Remaining())
  {
    Widths();
    var n :- reader.Number(4);
    return Ok(n);
  }

  method ReadU64(reader: Reader) returns (r: Result<u64, CodecError>)
    requires reader.Valid()
    modifies reader
    ensures reader.Valid() && Follows(GetU64(old(reader.Remaining())), r, reader.Remaining())
  {
    Widths();
    var n :- reader.Number(8);
    return Ok(n);
  }

  method ReadByte(reader: Reader) returns (r: Result<byte, CodecError>)
    requires reader.Valid()
    modifies reader
    ensures reader.Valid() && Follows(GetByte(old(reader.Remaining())), r, reader.Remaining())
  {
    var taken :- reader.TakeBytes(1);
    return Ok(taken[0]);
  }

  method ReadPrefix(reader: Reader) returns (r: Result<Prefix, CodecError>)
    requires reader.Valid()
    modifies reader
    ensures reader.Valid() && Follows(GetPrefix(old(reader.Remaining())), r, reader.Remaining())
  {
    var version :- ReadByte(reader);
    var chainLength :- ReadU64(reader);
    var bitcoinSpent :- ReadU64(reader);
    var consensusHash :- reader.TakeBytes(20);
    var parentBlockId :- reader.TakeBytes(32);
    var merkleRoot :- reader.TakeBytes(32);
    var stateRoot :- reader.TakeBytes(32);
    var timestamp :- ReadU64(reader);
    return Ok(Prefix(
      version, chainLength, bitcoinSpent, consensusHash, parentBlockId, merkleRoot, stateRoot, timestamp));
  }

  /** What a loop has read, in front of what parsing the rest would give. */
  ghost function Resumed<T>(done: seq<T>, left: Parsed<seq<T>>): Parsed<seq<T>>
  {
    if left.Ok? then Ok((done + left.value.0, left.value.1)) else left
  }

  lemma ResumedStart<T>(left: Parsed<seq<T>>)
    ensures Resumed([], left) == left
  {
    if left.Ok? {
      assert [] + left.value.0 == left.value.0;
    }
  }

  lemma ResumedStep<T>(done: seq<T>, x: T, left: Parsed<seq<T>>)
    ensures Resumed(done, Resumed([x], left)) == Resumed(done + [x], left)
  {
    if left.Ok? {
      assert done + ([x] + left.value.0) == done + [x] + left.value.0;
    }
  }

  method ReadEachSignature(reader: Reader, count: nat) returns (r: Result<seq<Signature>, CodecError>)
    requires reader.Valid()
    modifies reader
    ensures reader.Valid() && Follows(GetEachSignature(old(reader.Remaining()), count), r, reader.Remaining())
  {
    ghost var start := reader.Remaining();
    var signatures: seq<Signature> := [];
    ResumedStart(GetEachSignature(start, count));
    for i := 0 to count
      invariant reader.Valid()
      invariant GetEachSignature(start, count) == Resumed(signatures, GetEachSignature(reader.Remaining(), count - i))
    {
      var signature :- reader.TakeBytes(SIGNATURE_BYTES);
      ResumedStep(signatures, signature, GetEachSignature(reader.Remaining(), count - i - 1));
      signatures := signatures + [signature];
    }
    assert signatures + [] == signatures;
    return Ok(signatures);
  }

  method ReadSignatures(reader: Reader) returns (r: Result<seq<Signature>, CodecError>)
    requires reader.Valid()
    modifies reader
    ensures reader.Valid() && Follows(GetSignatures(old(reader.Remaining())), r, reader.Remaining())
  {
    var count :- ReadU32(reader);
    if count > (|reader.bytes| - reader.offset) / SIGNATURE_BYTES {
      return Err(Length);
    }
    r := ReadEachSignature(reader, count);
  }

  method ReadBits(reader: Reader) returns (r: Result<BitVec, CodecError>)
    requires reader.Valid()
    modifies reader
    ensures reader.Valid() && Follows(GetBits(old(reader.Remaining())), r, reader.Remaining())
  {
    var len :- reader.Number(2);
    var size :- ReadU32(reader);
    if size != DivCeil(len, 8) {
      return Err(Length);
    }
    var data :- reader.TakeBytes(size);
    if len == 0 || len > MAX_POX_BITS {
      return Err(BitVecInvalid);
    }
    return Ok(RawBits(len, data));
  }

  method ReadEachMarker(reader: Reader, count: nat) returns (r: Result<seq<Marker>, CodecError>)
    requires reader.Valid()
    modifies reader
    ensures reader.Valid() && Follows(GetEachMarker(old(reader.Remaining()), count), r, reader.Remaining())
  {
    ghost var start := reader.Remaining();
    var markers: seq<Marker> := [];
    ResumedStart(GetEachMarker(start, count));
    for i := 0 to count
      invariant reader.Valid()
      invariant GetEachMarker(start, count) == Resumed(markers, GetEachMarker(reader.Remaining(), count - i))
    {
      var index :- ReadU32(reader);
      var category :- ReadByte(reader);
      ResumedStep(markers, Marker(index, category), GetEachMarker(reader.Remaining(), count - i - 1));
      markers := markers + [Marker(index, category)];
    }
    assert markers + [] == markers;
    return Ok(markers);
  }

  method ReadMarkers(reader: Reader, version: byte) returns (r: Result<seq<Marker>, CodecError>)
    requires reader.Valid()
    modifies reader
    ensures reader.Valid() && Follows(GetMarkers(old(reader.Remaining()), version), r, reader.Remaining())
  {
    if !CarriesMarkers(version) {
      return Ok([]);
    }
    var count :- ReadU32(reader);
    if count > (|reader.bytes| - reader.offset) / MARKER_BYTES {
      return Err(Length);
    }
    r := ReadEachMarker(reader, count);
  }

  method ReadHeader(reader: Reader) returns (r: Result<Header, CodecError>)
    requires reader.Valid()
    modifies reader
    ensures reader.Valid() && Follows(GetHeader(old(reader.Remaining())), r, reader.Remaining())
  {
    var prefix :- ReadPrefix(reader);
    var miner :- reader.TakeBytes(SIGNATURE_BYTES);
    var signers :- ReadSignatures(reader);
    var bits :- ReadBits(reader);
    var markers :- ReadMarkers(reader, prefix.version);
    return Ok(HeaderOf(prefix, miner, signers, bits, markers));
  }

  method ReadEachTx(codec: TxCodec, reader: Reader, count: nat) returns (r: Result<seq<Transaction>, CodecError>)
    requires reader.Valid()
    modifies reader
    ensures reader.Valid() && Follows(GetEachTx(codec, old(reader.Remaining()), count), r, reader.Remaining())
  {
    ghost var start := reader.Remaining();
    var txs: seq<Transaction> := [];
    ResumedStart(GetEachTx(codec, start, count));
    for i := 0 to count
      invariant reader.Valid()
      invariant GetEachTx(codec, start, count) == Resumed(txs, GetEachTx(codec, reader.Remaining(), count - i))
    {
      var decoded :- codec.decode(reader.bytes[reader.offset..]);
      var _ :- reader.TakeBytes(decoded.1);
      ResumedStep(txs, decoded.0, GetEachTx(codec, reader.Remaining(), count - i - 1));
      txs := txs + [decoded.0];
    }
    assert txs + [] == txs;
    return Ok(txs);
  }

  method ReadBody(codec: TxCodec, reader: Reader, header: Header) returns (r: Result<(Block, nat), CodecError>)
    requires reader.Valid() && 0 < reader.offset
    modifies reader
    ensures r == DecodeBody(codec, |reader.bytes|, header, old(reader.Remaining()))
  {
    var count :- ReadU32(reader);
    if count > |reader.bytes| - reader.offset {
      return Err(Length);
    }
    var txs :- ReadEachTx(codec, reader, count);
    var block :- Validate(codec, header, txs);
    return Ok((block, reader.offset));
  }

  method ReadBlock(codec: TxCodec, bytes: seq<byte>) returns (r: Result<(Block, nat), CodecError>)
    ensures r == DecodePrefix(codec, bytes)
  {
    var reader := new Reader(bytes);
    var header :- ReadHeader(reader);
    r := ReadBody(codec, reader, header);
  }

  // ---------- Encoding in place ----------

  method WritePrefix(writer: Writer, p: Prefix, ghost tail: seq<byte>)
    modifies writer
    ensures writer.bytes + tail == old(writer.bytes) + PutPrefix(p, tail)
  {
    ghost var t7 := BigEndian(p.timestamp, 8) + tail;
    ghost var t4 := p.parentBlockId + (p.merkleRoot + (p.stateRoot + t7));
    writer.Raw([p.version]);
    writer.Number(p.chainLength, 8);
    writer.Number(p.bitcoinSpent, 8);
    writer.Raw(p.consensusHash);
    assert writer.bytes + t4 == old(writer.bytes) + PutPrefix(p, tail);
    writer.Raw(p.parentBlockId);
    writer.Raw(p.merkleRoot);
    writer.Raw(p.stateRoot);
    assert writer.bytes + t7 == old(writer.bytes) + PutPrefix(p, tail);
    writer.Number(p.timestamp, 8);
  }

  lemma Assoc(a: seq<byte>, b: seq<byte>, c: seq<byte>)
    ensures (a + b) + c == a + (b + c)
  {
  }

  method WriteSignatures(writer: Writer, signatures: seq<Signature>, ghost tail: seq<byte>)
    modifies writer
    ensures writer.bytes + tail == old(writer.bytes) + PutSignatures(signatures, tail)
  {
    ghost var all := writer.bytes + PutSignatures(signatures, tail);
    Assoc(writer.bytes, BigEndian(|signatures|, 4), PutEachSignature(signatures, tail));
    writer.Number(|signatures|, 4);
    for i := 0 to |signatures|
      invariant writer.bytes + PutEachSignature(signatures[i..], tail) == all
    {
      assert signatures[i..][1..] == signatures[i + 1..];
      Assoc(writer.bytes, signatures[i], PutEachSignature(signatures[i + 1..], tail));
      writer.Raw(signatures[i]);
    }
  }

  method WriteBits(writer: Writer, bits: BitVec, ghost tail: seq<byte>)
    modifies writer
    ensures writer.bytes + tail == old(writer.bytes) + PutBits(bits, tail)
  {
    Assoc(writer.bytes, BigEndian(bits.len, 2), BigEndian(|bits.data|, 4) + (bits.data + tail));
    writer.Number(bits.len, 2);
    Assoc(writer.bytes, BigEndian(|bits.data|, 4), bits.data + tail);
    writer.Number(|bits.data|, 4);
    Assoc(writer.bytes, bits.data, tail);
    writer.Raw(bits.data);
  }

  method WriteMarkers(writer: Writer, version: byte, markers: seq<Marker>, ghost tail: seq<byte>)
    modifies writer
    ensures writer.bytes + tail == old(writer.bytes) + PutMarkers(version, markers, tail)
  {
    if !CarriesMarkers(version) {
      return;
    }
    ghost var all := writer.bytes + PutMarkers(version, markers, tail);
    Assoc(writer.bytes, BigEndian(|markers|, 4), PutEachMarker(markers, tail));
    writer.Number(|markers|, 4);
    for i := 0 to |markers|
      invariant writer.bytes + PutEachMarker(markers[i..], tail) == all
    {
      assert markers[i..][1..] == markers[i + 1..];
      ghost var left := PutEachMarker(markers[i + 1..], tail);
      Assoc(writer.bytes, BigEndian(markers[i].index, 4), [markers[i].category] + left);
      writer.Number(markers[i].index, 4);
      Assoc(writer.bytes, [markers[i].category], left);
      writer.Raw([markers[i].category]);
    }
  }

  method WriteTxs(codec: TxCodec, writer: Writer, txs: seq<Transaction>)
    modifies writer
    ensures writer.bytes == old(writer.bytes) + (BigEndian(|txs|, 4) + PutEachTx(codec, txs, []))
  {
    ghost var all := old(writer.bytes) + (BigEndian(|txs|, 4) + PutEachTx(codec, txs, []));
    Assoc(writer.bytes, BigEndian(|txs|, 4), PutEachTx(codec, txs, []));
    writer.Number(|txs|, 4);
    for i := 0 to |txs|
      invariant writer.bytes + PutEachTx(codec, txs[i..], []) == all
    {
      assert txs[i..][1..] == txs[i + 1..];
      Assoc(writer.bytes, codec.encode(txs[i]), PutEachTx(codec, txs[i + 1..], []));
      writer.Raw(codec.encode(txs[i]));
    }
  }

  /** Encode a block field by field. */
  method WriteBlock(codec: TxCodec, b: Block) returns (bytes: seq<byte>)
    requires Countable(b)
    ensures bytes == Encode(codec, b)
  {
    var h := b.header;
    var writer := new Writer();
    ghost var txs := BigEndian(|b.txs|, 4) + PutEachTx(codec, b.txs, []);
    ghost var markers := PutMarkers(h.version, h.markers, txs);
    ghost var bits := PutBits(h.poxTreatment, markers);
    ghost var signers := PutSignatures(h.signerSignatures, bits);
    WritePrefix(writer, PrefixOf(h), h.minerSignature + signers);
    Assoc(writer.bytes, h.minerSignature, signers);
    writer.Raw(h.minerSignature);
    WriteSignatures(writer, h.signerSignatures, bits);
    WriteBits(writer, h.poxTreatment, markers);
    WriteMarkers(writer, h.version, h.markers, txs);
    WriteTxs(codec, writer, b.txs);
    return writer.bytes;
  }
}
