/** What decoding makes of an encoded block with bytes after it, or with bytes missing. */
module BlockPrefixes {
  import opened Prelude
  import opened Wire
  import opened Nakamoto
  import opened BlockCodec

  // ---------- Bytes that follow ----------

  /** What decoding makes of any block that was encoded: its first fault, or the block without the markers that its
      version does not carry. */
  ghost function Recovered(codec: TxCodec, b: Block, n: nat): Result<(Block, nat), CodecError>
  {
    if exists i, j :: 0 <= i < j < |b.txs| && codec.txid(b.txs[i]) == codec.txid(b.txs[j]) then
      Err(DuplicateTransaction)
    else if codec.merkleRoot(b.txs) != b.header.merkleRoot then Err(MerkleRoot)
    else if b.header.version == 0 || b.header.version == 128 then Ok((b.(header := b.header.(markers := [])), n))
    else Ok((b, n))
  }

  lemma EncodedOutcome(codec: TxCodec, b: Block, rest: seq<byte>)
    requires Reads(codec, b.txs) && Countable(b)
    ensures DecodePrefix(codec, Encode(codec, b) + rest) == Recovered(codec, b, |Encode(codec, b)|)
  {
    var body := EncodedParts(codec, b, rest);
    var t := Encode(codec, b) + rest;
    DecodePrefixFront(codec, t, Carried(b.header), body);
    DecodeBodyFront(codec, |t|, Carried(b.header), b.txs, rest, body);
    OutcomeRecovered(codec, b, |Encode(codec, b)|);
  }

  lemma OutcomeRecovered(codec: TxCodec, b: Block, n: nat)
    ensures Outcome(codec, Carried(b.header), b.txs, n) == Recovered(codec, b, n)
  {
  }

  /** A complete block takes no bytes after it; otherwise it decodes as it does in front of them. */
  lemma WholeOutcome(codec: TxCodec, b: Block, rest: seq<byte>)
    requires Reads(codec, b.txs) && Countable(b)
    ensures var r := Recovered(codec, b, |Encode(codec, b)|);
            Decode(codec, Encode(codec, b) + rest)
            == if r.Err? then Err(r.error) else if rest != [] then Err(TrailingBytes) else Ok(r.value.0)
  {
    EncodedOutcome(codec, b, rest);
  }

  // ---------- Bytes that are missing ----------

  ghost predicate SettledAt(codec: TxCodec, s: seq<byte>, t: seq<byte>)
  {
    s <= t && codec.decode(s).Ok? ==> codec.decode(t) == codec.decode(s)
  }

  /** The transaction codec decides by the bytes it has read: what decodes, decodes alike with more after it. */
  ghost predicate Settled(codec: TxCodec) { forall s, t :: SettledAt(codec, s, t) }

  lemma HeaderIgnoresRest(s: seq<byte>, h: Header, body: seq<byte>, rest: seq<byte>)
    requires GetHeader(s) == Ok((h, body))
    ensures GetHeader(s + rest) == Ok((h, body + rest))
  {
    HeaderRewritten(s);
    PutHeaderTail(h, body, rest);
    GetHeaderFront(h, body + rest);
  }

  lemma TakeIgnoresRest(s: seq<byte>, n: nat, rest: seq<byte>)
    requires n <= |s|
    ensures Take(s + rest, n) == Ok((s[..n], s[n..] + rest))
  {
    assert (s + rest)[..n] == s[..n] && (s + rest)[n..] == s[n..] + rest;
  }

  lemma {:induction false} EachTxIgnoresRest(codec: TxCodec, s: seq<byte>, count: nat, rest: seq<byte>)
    requires Settled(codec) && GetEachTx(codec, s, count).Ok?
    ensures var (txs, left) := GetEachTx(codec, s, count).value;
            GetEachTx(codec, s + rest, count) == Ok((txs, left + rest))
    decreases count
  {
    if count != 0 {
      var n := codec.decode(s).value.1;
      assert s <= s + rest && SettledAt(codec, s, s + rest);
      TakeIgnoresRest(s, n, rest);
      EachTxIgnoresRest(codec, s[n..], count - 1, rest);
    }
  }

  lemma TxsIgnoreRest(codec: TxCodec, s: seq<byte>, txs: seq<Transaction>, left: seq<byte>, rest: seq<byte>)
    requires Settled(codec) && GetTxs(codec, s) == Ok((txs, left))
    ensures GetTxs(codec, s + rest) == Ok((txs, left + rest))
  {
    var (count, each) := GetU32(s).value;
    U32IgnoresRest(s, count, each, rest);
    EachTxIgnoresRest(codec, each, count, rest);
  }

  lemma U32IgnoresRest(s: seq<byte>, n: u32, left: seq<byte>, rest: seq<byte>)
    requires GetU32(s) == Ok((n, left))
    ensures GetU32(s + rest) == Ok((n, left + rest))
  {
    assert s + rest == BigEndian(n, 4) + (left + rest);
    GetU32Front(n, left + rest);
  }

  lemma DecodedParts(codec: TxCodec, s: seq<byte>)
    returns (h: Header, body: seq<byte>, txs: seq<Transaction>, left: seq<byte>)
    requires DecodePrefix(codec, s).Ok?
    ensures GetHeader(s) == Ok((h, body)) && GetTxs(codec, body) == Ok((txs, left))
  {
    h, body := GetHeader(s).value.0, GetHeader(s).value.1;
    txs, left := GetTxs(codec, body).value.0, GetTxs(codec, body).value.1;
  }

  lemma BodiesAlike(codec: TxCodec, h: Header, total: nat, body: seq<byte>, left: seq<byte>,
                    total': nat, body': seq<byte>, left': seq<byte>, txs: seq<Transaction>)
    requires |body| < total && GetTxs(codec, body) == Ok((txs, left))
    requires |body'| < total' && GetTxs(codec, body') == Ok((txs, left'))
    requires total - |left| == total' - |left'|
    ensures DecodeBody(codec, total, h, body) == DecodeBody(codec, total', h, body')
  {
    DecodeBodyFront(codec, total, h, txs, left, body);
    DecodeBodyFront(codec, total', h, txs, left', body');
  }

  /** What decodes at the front of some bytes, decodes alike with more after them. */
  lemma DecodeIgnoresRest(codec: TxCodec, s: seq<byte>, rest: seq<byte>)
    requires Settled(codec) && DecodePrefix(codec, s).Ok?
    ensures DecodePrefix(codec, s + rest) == DecodePrefix(codec, s)
  {
    var h, body, txs, left := DecodedParts(codec, s);
    HeaderIgnoresRest(s, h, body, rest);
    TxsIgnoreRest(codec, body, txs, left, rest);
    DecodePrefixFront(codec, s, h, body);
    DecodePrefixFront(codec, s + rest, h, body + rest);
    BodiesAlike(codec, h, |s|, body, left, |s + rest|, body + rest, left + rest, txs);
  }

  /** A canonical block cut short anywhere does not decode, to any block. */
  lemma CutShortRefused(codec: TxCodec, b: Block, k: nat)
    requires Settled(codec) && Reads(codec, b.txs) && Countable(b) && Canonical(codec, b) && k < |Encode(codec, b)|
    ensures DecodePrefix(codec, Encode(codec, b)[..k]).Err?
  {
    var s := Encode(codec, b);
    assert s == s[..k] + s[k..] && s + [] == s;
    DecodeInvertsEncode(codec, b, []);
    if DecodePrefix(codec, s[..k]).Ok? {
      DecodeIgnoresRest(codec, s[..k], s[k..]);
    }
  }
}
