/** Where each field of an encoded header lies, and what the miner and the signers leave out of what they sign. */
module HeaderLayout {
  import opened Prelude
  import opened Wire
  import opened Nakamoto
  import opened BlockCodec
  import opened SignedHeader

  /** The fixed part of a header at the front of a byte string, byte by byte. */
  ghost predicate PrefixAt(h: Header, s: seq<byte>)
  {
    && 206 <= |s| && s[..1] == [h.version] && s[1..9] == BigEndian(h.chainLength, 8)
    && s[9..17] == BigEndian(h.bitcoinSpent, 8) && s[17..37] == h.consensusHash && s[37..69] == h.parentBlockId
    && s[69..101] == h.merkleRoot && s[101..133] == h.stateRoot && s[133..141] == BigEndian(h.timestamp, 8)
    && s[141..206] == h.minerSignature
  }

  /** The signer signatures from an offset on: their number, then 65 bytes each. */
  ghost predicate SignaturesAt(signatures: seq<Signature>, s: seq<byte>, from: nat)
  {
    && from + 4 + 65 * |signatures| <= |s| && s[from..from + 4] == BigEndian(|signatures|, 4)
    && forall i :: 0 <= i < |signatures| ==> s[from + 4 + 65 * i..from + 69 + 65 * i] == signatures[i]
  }

  /** The bit vector from an offset on: its bits, its bytes, and the bytes. */
  ghost predicate BitsAt(bits: BitVec, s: seq<byte>, from: nat)
  {
    && from + 6 + |bits.data| <= |s| && s[from..from + 2] == BigEndian(bits.len, 2)
    && s[from + 2..from + 6] == BigEndian(|bits.data|, 4) && s[from + 6..from + 6 + |bits.data|] == bits.data
  }

  /** The markers from an offset on: their number, then the index and the category of each. */
  ghost predicate MarkersAt(markers: seq<Marker>, s: seq<byte>, from: nat)
  {
    && from + 4 + 5 * |markers| <= |s| && s[from..from + 4] == BigEndian(|markers|, 4)
    && forall i :: 0 <= i < |markers| ==>
         && s[from + 4 + 5 * i..from + 8 + 5 * i] == BigEndian(markers[i].index, 4)
         && s[from + 8 + 5 * i] == markers[i].category
  }

  /** Where the bit vector of a header begins, and where it ends. */
  ghost function BitsFrom(h: Header): nat { 210 + 65 * |h.signerSignatures| }

  ghost function MarkersFrom(h: Header): nat { 216 + 65 * |h.signerSignatures| + |h.poxTreatment.data| }

  /** A header laid out in a byte string, and what follows it. */
  ghost predicate LaidOut(h: Header, s: seq<byte>, tail: seq<byte>)
  {
    && PrefixAt(h, s) && SignaturesAt(h.signerSignatures, s, 206) && BitsAt(h.poxTreatment, s, BitsFrom(h))
    && if h.version == 0 || h.version == 128 then s[MarkersFrom(h)..] == tail
       else MarkersAt(h.markers, s, MarkersFrom(h)) && s[MarkersFrom(h) + 4 + 5 * |h.markers|..] == tail
  }

  // ---------- Each part in its place ----------

  lemma Peel(s: seq<byte>, from: nat, front: seq<byte>, rest: seq<byte>)
    requires from <= |s| && s[from..] == front + rest
    ensures from + |front| <= |s| && s[from..from + |front|] == front && s[from + |front|..] == rest
  {
    assert s[from..][..|front|] == front && s[from..][|front|..] == rest;
  }

  lemma PrefixLaid(h: Header, rest: seq<byte>)
    ensures var s := PutPrefix(PrefixOf(h), h.minerSignature + rest); PrefixAt(h, s) && s[206..] == rest
  {
    var s := PutPrefix(PrefixOf(h), h.minerSignature + rest);
    var s8 := h.minerSignature + rest;
    var s7 := BigEndian(h.timestamp, 8) + s8;
    var s6 := h.stateRoot + s7;
    var s5 := h.merkleRoot + s6;
    var s4 := h.parentBlockId + s5;
    var s3 := h.consensusHash + s4;
    var s2 := BigEndian(h.bitcoinSpent, 8) + s3;
    var s1 := BigEndian(h.chainLength, 8) + s2;
    assert s[0..] == s;
    Peel(s, 0, [h.version], s1);
    Peel(s, 1, BigEndian(h.chainLength, 8), s2);
    Peel(s, 9, BigEndian(h.bitcoinSpent, 8), s3);
    Peel(s, 17, h.consensusHash, s4);
    Peel(s, 37, h.parentBlockId, s5);
    Peel(s, 69, h.merkleRoot, s6);
    Peel(s, 101, h.stateRoot, s7);
    Peel(s, 133, BigEndian(h.timestamp, 8), s8);
    Peel(s, 141, h.minerSignature, rest);
  }

  lemma {:induction false} EachSignatureLaid(signatures: seq<Signature>, s: seq<byte>, from: nat, rest: seq<byte>)
    requires from <= |s| && s[from..] == PutEachSignature(signatures, rest)
    ensures from + 65 * |signatures| <= |s| && s[from + 65 * |signatures|..] == rest
    ensures forall i :: 0 <= i < |signatures| ==> s[from + 65 * i..from + 65 + 65 * i] == signatures[i]
    decreases |signatures|
  {
    if signatures != [] {
      Peel(s, from, signatures[0], PutEachSignature(signatures[1..], rest));
      EachSignatureLaid(signatures[1..], s, from + 65, rest);
      forall i | 0 <= i < |signatures|
        ensures s[from + 65 * i..from + 65 + 65 * i] == signatures[i]
      {
        if i != 0 {
          assert s[from + 65 + 65 * (i - 1)..from + 130 + 65 * (i - 1)] == signatures[1..][i - 1];
        }
      }
    }
  }

  lemma SignaturesLaid(signatures: seq<Signature>, s: seq<byte>, from: nat, rest: seq<byte>)
    requires from <= |s| && s[from..] == PutSignatures(signatures, rest)
    ensures SignaturesAt(signatures, s, from) && s[from + 4 + 65 * |signatures|..] == rest
  {
    Peel(s, from, BigEndian(|signatures|, 4), PutEachSignature(signatures, rest));
    EachSignatureLaid(signatures, s, from + 4, rest);
  }

  lemma BitsLaid(bits: BitVec, s: seq<byte>, from: nat, rest: seq<byte>)
    requires from <= |s| && s[from..] == PutBits(bits, rest)
    ensures BitsAt(bits, s, from) && s[from + 6 + |bits.data|..] == rest
  {
    Peel(s, from, BigEndian(bits.len, 2), BigEndian(|bits.data|, 4) + (bits.data + rest));
    Peel(s, from + 2, BigEndian(|bits.data|, 4), bits.data + rest);
    Peel(s, from + 6, bits.data, rest);
  }

  lemma {:induction false} EachMarkerLaid(markers: seq<Marker>, s: seq<byte>, from: nat, rest: seq<byte>)
    requires from <= |s| && s[from..] == PutEachMarker(markers, rest)
    ensures from + 5 * |markers| <= |s| && s[from + 5 * |markers|..] == rest
    ensures forall i :: 0 <= i < |markers| ==>
              && s[from + 5 * i..from + 4 + 5 * i] == BigEndian(markers[i].index, 4)
              && s[from + 4 + 5 * i] == markers[i].category
    decreases |markers|
  {
    if markers != [] {
      var others := PutEachMarker(markers[1..], rest);
      Peel(s, from, BigEndian(markers[0].index, 4), [markers[0].category] + others);
      Peel(s, from + 4, [markers[0].category], others);
      EachMarkerLaid(markers[1..], s, from + 5, rest);
      assert s[from + 4..from + 5][0] == s[from + 4];
      forall i | 0 <= i < |markers|
        ensures s[from + 5 * i..from + 4 + 5 * i] == BigEndian(markers[i].index, 4)
        ensures s[from + 4 + 5 * i] == markers[i].category
      {
        if i != 0 {
          var k := i - 1;
          assert markers[1..][k] == markers[i];
          assert s[from + 5 + 5 * k..from + 9 + 5 * k] == BigEndian(markers[1..][k].index, 4);
          assert s[from + 9 + 5 * k] == markers[1..][k].category;
        }
      }
    }
  }

  lemma CarriedVersions(version: byte)
    ensures CarriesMarkers(version) <==> version != 0 && version != 128
  {
  }

  lemma MarkersLaid(h: Header, s: seq<byte>, from: nat, rest: seq<byte>)
    requires from <= |s| && s[from..] == PutMarkers(h.version, h.markers, rest)
    ensures if h.version == 0 || h.version == 128 then s[from..] == rest
            else MarkersAt(h.markers, s, from) && s[from + 4 + 5 * |h.markers|..] == rest
  {
    CarriedVersions(h.version);
    if h.version != 0 && h.version != 128 {
      Peel(s, from, BigEndian(|h.markers|, 4), PutEachMarker(h.markers, rest));
      EachMarkerLaid(h.markers, s, from + 4, rest);
    }
  }

  /** Every field of a header is at its place in the encoding. */
  lemma HeaderLaid(h: Header, tail: seq<byte>)
    ensures LaidOut(h, PutHeader(h, tail), tail)
  {
    var s := PutHeader(h, tail);
    var markers := PutMarkers(h.version, h.markers, tail);
    var bits := PutBits(h.poxTreatment, markers);
    PrefixLaid(h, PutSignatures(h.signerSignatures, bits));
    SignaturesLaid(h.signerSignatures, s, 206, bits);
    BitsLaid(h.poxTreatment, s, BitsFrom(h), markers);
    MarkersLaid(h, s, MarkersFrom(h), tail);
  }

  // ---------- What is signed ----------

  /** The encoding of a header without its signer signatures, and for the miner's own digest without the miner's
      either: what is signed. */
  lemma SignedIsTheEncodingCut(h: Header)
    ensures var s := PutHeader(h, []);
            && BitsFrom(h) <= |s|
            && SigningBytes(h, true) == s[..206] + s[210 + 65 * |h.signerSignatures|..]
            && SigningBytes(h, false) == s[..141] + s[210 + 65 * |h.signerSignatures|..]
  {
    var bits := PutBits(h.poxTreatment, PutMarkers(h.version, h.markers, []));
    var s := PutHeader(h, []);
    PrefixLaid(h, PutSignatures(h.signerSignatures, bits));
    SignaturesLaid(h.signerSignatures, s, 206, bits);
    PrefixSplit(h, h.minerSignature + PutSignatures(h.signerSignatures, bits));
    PrefixSplit(h, [] + bits);
    PrefixSplit(h, h.minerSignature + bits);
    Regrouped(s, h.minerSignature, bits);
  }

  lemma PrefixSplit(h: Header, rest: seq<byte>)
    ensures var s := PutPrefix(PrefixOf(h), rest);
            141 <= |s| && s[..141] == PutPrefix(PrefixOf(h), []) && s == s[..141] + rest
  {
    PutPrefixTail(PrefixOf(h), [], rest);
    assert [] + rest == rest;
  }

  lemma Regrouped(s: seq<byte>, miner: Signature, bits: seq<byte>)
    requires 206 <= |s| && s[141..206] == miner
    ensures s[..141] + (miner + bits) == s[..206] + bits && s[..141] + ([] + bits) == s[..141] + bits
  {
    assert s[..206] == s[..141] + s[141..206] && [] + bits == bits;
  }

  /** The identifier of a block, from the bytes of its header. */
  lemma BlockIdOfBytes(sha: Sha, h: Header)
    ensures var s := PutHeader(h, []);
            && BitsFrom(h) <= |s|
            && BlockId(sha, h) == sha(sha(s[..206] + s[210 + 65 * |h.signerSignatures|..]) + s[17..37])
  {
    SignedIsTheEncodingCut(h);
    HeaderLaid(h, []);
  }

  // ---------- Counts that do not fit ----------

  /** Input that ends before the miner's signature does. */
  lemma ShortHeader(s: seq<byte>)
    requires |s| < 206
    ensures GetHeader(s) == Err(EndOfInput)
  {
  }

  /** A bit vector is read when it has 1 to 4000 bits, in as many bytes as they need. */
  lemma BitsReadIff(len: u16, size: u32, data: seq<byte>, rest: seq<byte>)
    requires |data| == size
    ensures GetBits(BigEndian(len, 2) + (BigEndian(size, 4) + (data + rest)))
            == if 8 * size < len || len + 8 <= 8 * size then Err(Length)
               else if 1 <= len <= 4000 then Ok((RawBits(len, data), rest)) else Err(BitVecInvalid)
  {
    Widths();
    GetNumberFront(len, 2, BigEndian(size, 4) + (data + rest));
    GetU32Front(size, data + rest);
    TakeFront(data, rest);
  }

  /** More signatures than the bytes can hold are refused before any is read. */
  lemma SignaturesReadIff(count: u32, rest: seq<byte>)
    ensures var r := GetSignatures(BigEndian(count, 4) + rest);
            if 65 * count <= |rest| then r.Ok? && |r.value.1| == |rest| - 65 * count else r == Err(Length)
  {
    GetU32Front(count, rest);
    if 65 * count <= |rest| {
      EachSignatureFits(rest, count);
    }
  }

  lemma {:induction false} EachSignatureFits(s: seq<byte>, count: nat)
    requires 65 * count <= |s|
    ensures GetEachSignature(s, count).Ok? && |GetEachSignature(s, count).value.1| == |s| - 65 * count
  {
    if count != 0 {
      EachSignatureFits(s[65..], count - 1);
    }
  }

  /** So are more markers, where a version carries any. */
  lemma MarkersReadIff(version: byte, count: u32, rest: seq<byte>)
    requires version != 0 && version != 128
    ensures var r := GetMarkers(BigEndian(count, 4) + rest, version);
            if 5 * count <= |rest| then r.Ok? && |r.value.1| == |rest| - 5 * count else r == Err(Length)
  {
    GetU32Front(count, rest);
    if 5 * count <= |rest| {
      EachMarkerFits(rest, count);
    }
  }

  lemma {:induction false} EachMarkerFits(s: seq<byte>, count: nat)
    requires 5 * count <= |s|
    ensures GetEachMarker(s, count).Ok? && |GetEachMarker(s, count).value.1| == |s| - 5 * count
  {
    if count != 0 {
      EachMarkerFits(s[5..], count - 1);
      assert s[4..][1..] == s[5..];
    }
  }
}
