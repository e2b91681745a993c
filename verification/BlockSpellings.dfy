/**
 Which bytes decode to a block.

 Decoding keeps only the top bit of a transaction's version byte.  The bytes that decode to a block are therefore
 its encoding and whatever differs from it in the low bits of version bytes: its spellings.
 */
module BlockSpellings {
  import opened Prelude
  import opened Wire
  import opened Nakamoto
  import opened BlockCodec

  // ---------- Encoding what was decoded ----------

  /** The version byte a transaction is written with: reading keeps only its top bit. */
  function TopBit(b: byte): byte { if b < 128 then 0 else 128 }

  /** `x` is a transaction as it is written, but for the low bits of its version byte. */
  ghost predicate SpellsTx(x: seq<byte>, written: seq<byte>)
  {
    0 < |x| == |written| && written[0] == TopBit(x[0]) && written[1..] == x[1..]
  }

  ghost predicate SpellsTxFirst(s: seq<byte>, written: seq<byte>)
  {
    |written| <= |s| && SpellsTx(s[..|written|], written)
  }

  /** What the transaction codec decodes it writes back, but for those bits. */
  ghost predicate Rewrites(codec: TxCodec)
  {
    forall s :: codec.decode(s).Ok? ==>
      var (tx, n) := codec.decode(s).value; n <= |s| && SpellsTx(s[..n], codec.encode(tx))
  }

  /** The transaction codec reads a transaction whatever those bits are, and whatever follows. */
  ghost predicate ReadsSpelling(codec: TxCodec, tx: Transaction)
  {
    forall s :: SpellsTxFirst(s, codec.encode(tx)) ==> codec.decode(s) == Ok((tx, |codec.encode(tx)|))
  }

  ghost predicate ReadsSpellings(codec: TxCodec, txs: seq<Transaction>)
  {
    NonEmpty(codec, txs) && forall tx :: tx in txs ==> ReadsSpelling(codec, tx)
  }

  /** Where the version bytes of transactions written one after another from `at` stand. */
  ghost function TxVersions(codec: TxCodec, txs: seq<Transaction>, at: nat): set<nat>
  {
    if txs == [] then {} else {at} + TxVersions(codec, txs[1..], at + |codec.encode(txs[0])|)
  }

  /** Everything a block is written with in front of its transactions. */
  ghost function Head(b: Block): seq<byte> { PutHeader(b.header, []) + BigEndian(|b.txs|, 4) }

  ghost function BlockVersions(codec: TxCodec, b: Block): set<nat> { TxVersions(codec, b.txs, |Head(b)|) }

  /** `s`, found at position `at`, is `written` but for low bits at the positions of `versions`. */
  ghost predicate Spells(s: seq<byte>, written: seq<byte>, at: nat, versions: set<nat>)
  {
    && |s| == |written|
    && forall i :: 0 <= i < |s| ==> written[i] == if at + i in versions then TopBit(s[i]) else s[i]
  }

  /** Every version byte is one that would be written. */
  ghost predicate Plain(s: seq<byte>, versions: set<nat>)
  {
    forall v :: v in versions && v < |s| ==> s[v] == 0 || s[v] == 128
  }

  lemma PlainIff(s: seq<byte>, written: seq<byte>, versions: set<nat>)
    requires Spells(s, written, 0, versions)
    ensures written == s <==> Plain(s, versions)
  {
    if written == s {
      forall v | v in versions && v < |s|
        ensures s[v] == 0 || s[v] == 128
      {
        assert written[v] == TopBit(s[0 + v]);
      }
    }
  }

  lemma SpellsSplit(x: seq<byte>, y: seq<byte>, a: seq<byte>, b: seq<byte>, at: nat, va: set<nat>, vb: set<nat>)
    requires |x| == |a| && (forall v :: v in va ==> v < at + |a|) && (forall v :: v in vb ==> at + |a| <= v)
    ensures Spells(x + y, a + b, at, va + vb) <==> Spells(x, a, at, va) && Spells(y, b, at + |a|, vb)
  {
    if Spells(x + y, a + b, at, va + vb) {
      forall i | 0 <= i < |y|
        ensures b[i] == if at + |a| + i in vb then TopBit(y[i]) else y[i]
      {
        assert (a + b)[|a| + i] == b[i] && (x + y)[|a| + i] == y[i];
      }
      forall i | 0 <= i < |x|
        ensures a[i] == if at + i in va then TopBit(x[i]) else x[i]
      {
        assert (a + b)[i] == a[i] && (x + y)[i] == x[i];
      }
    }
  }

  ghost predicate NonEmpty(codec: TxCodec, txs: seq<Transaction>)
  {
    forall tx :: tx in txs ==> 0 < |codec.encode(tx)|
  }

  lemma {:induction false} TxVersionsRange(codec: TxCodec, txs: seq<Transaction>, at: nat)
    requires NonEmpty(codec, txs)
    ensures forall v :: v in TxVersions(codec, txs, at) ==> at <= v < at + |PutEachTx(codec, txs, [])|
    ensures |txs| <= |PutEachTx(codec, txs, [])|
  {
    if txs != [] {
      TxVersionsRange(codec, txs[1..], at + |codec.encode(txs[0])|);
    }
  }

  lemma FirstVersion(x: seq<byte>, written: seq<byte>, at: nat)
    requires 0 < |x| == |written|
    ensures Spells(x, written, at, {at}) <==> SpellsTx(x, written)
  {
    if Spells(x, written, at, {at}) {
      assert at + 0 in {at} && forall i :: 1 <= i < |x| ==> at + i !in {at} && written[i] == x[i];
    }
    if SpellsTx(x, written) {
      forall i | 1 <= i < |x|
        ensures written[i] == x[i]
      {
        assert written[i] == written[1..][i - 1] && x[i] == x[1..][i - 1];
      }
    }
  }

  /** Transactions are spelled one by one. */
  ghost predicate SpellsEach(codec: TxCodec, x: seq<byte>, txs: seq<Transaction>)
    decreases |txs|
  {
    if txs == [] then x == [] else
    var n := |codec.encode(txs[0])|;
    n <= |x| && SpellsTx(x[..n], codec.encode(txs[0])) && SpellsEach(codec, x[n..], txs[1..])
  }

  ghost predicate SpellsTxs(codec: TxCodec, x: seq<byte>, txs: seq<Transaction>, at: nat)
  {
    Spells(x, PutEachTx(codec, txs, []), at, TxVersions(codec, txs, at))
  }

  lemma SpellsTxsNext(codec: TxCodec, x: seq<byte>, txs: seq<Transaction>, at: nat, n: nat)
    requires txs != [] && NonEmpty(codec, txs) && n == |codec.encode(txs[0])| <= |x|
    ensures SpellsTxs(codec, x, txs, at)
            <==> SpellsTx(x[..n], codec.encode(txs[0])) && SpellsTxs(codec, x[n..], txs[1..], at + n)
  {
    TxVersionsRange(codec, txs[1..], at + n);
    assert x[..n] + x[n..] == x;
    SpellsSplit(x[..n], x[n..], codec.encode(txs[0]), PutEachTx(codec, txs[1..], []), at, {at},
                TxVersions(codec, txs[1..], at + n));
    FirstVersion(x[..n], codec.encode(txs[0]), at);
  }

  lemma {:induction false} SpellsEachIff(codec: TxCodec, x: seq<byte>, txs: seq<Transaction>, at: nat)
    requires NonEmpty(codec, txs)
    ensures SpellsEach(codec, x, txs) <==> SpellsTxs(codec, x, txs, at)
    decreases |txs|
  {
    if txs != [] {
      var n := |codec.encode(txs[0])|;
      if n <= |x| {
        SpellsTxsNext(codec, x, txs, at, n);
        SpellsEachIff(codec, x[n..], txs[1..], at + n);
      }
    }
  }

  lemma HeadTail(b: Block, tail: seq<byte>)
    ensures PutHeader(b.header, BigEndian(|b.txs|, 4) + tail) == Head(b) + tail
  {
    var body := BigEndian(|b.txs|, 4) + tail;
    PutHeaderTail(b.header, [], body);
    assert [] + body == body;
  }

  /** Where no version byte stands in the head, the head is spelled as it is written. */
  lemma HeadSpelled(x: seq<byte>, y: seq<byte>, all: seq<byte>, head: seq<byte>, each: seq<byte>, at: nat,
                    versions: set<nat>)
    requires all == head + each && |x| == |head| && forall v :: v in versions ==> at + |head| <= v
    ensures Spells(x + y, all, at, versions) <==> x == head && Spells(y, each, at + |head|, versions)
  {
    SpellsSplit(x, y, head, each, at, {}, versions);
    assert {} + versions == versions;
    assert Spells(x, head, at, {}) <==> x == head;
  }

  lemma EncodeParts(codec: TxCodec, b: Block)
    ensures Encode(codec, b) == Head(b) + PutEachTx(codec, b.txs, [])
  {
    HeadTail(b, PutEachTx(codec, b.txs, []));
  }

  /** A block is spelled by its head as written, then its transactions. */
  lemma BlockSpelled(codec: TxCodec, b: Block, x: seq<byte>, y: seq<byte>)
    requires |x| == |Head(b)| && NonEmpty(codec, b.txs)
    ensures Spells(x + y, Encode(codec, b), 0, BlockVersions(codec, b))
            <==> x == Head(b) && SpellsEach(codec, y, b.txs)
  {
    EncodeParts(codec, b);
    TxVersionsRange(codec, b.txs, |x|);
    SpellsEachIff(codec, y, b.txs, |x|);
    HeadSpelled(x, y, Encode(codec, b), Head(b), PutEachTx(codec, b.txs, []), 0, BlockVersions(codec, b));
  }

  /** What is left of `s` is `rest`, and what is gone spells the transactions. */
  ghost predicate Gone(codec: TxCodec, s: seq<byte>, txs: seq<Transaction>, rest: seq<byte>)
  {
    && NonEmpty(codec, txs) && |rest| <= |s| && s[|s| - |rest|..] == rest
    && SpellsEach(codec, s[..|s| - |rest|], txs)
  }

  lemma GoneStep(codec: TxCodec, s: seq<byte>, tx: Transaction, n: nat, others: seq<Transaction>, rest: seq<byte>)
    requires n <= |s| && SpellsTx(s[..n], codec.encode(tx)) && Gone(codec, s[n..], others, rest)
    ensures Gone(codec, s, [tx] + others, rest)
  {
    var taken := s[..|s| - |rest|];
    assert taken[..n] == s[..n] && taken[n..] == s[n..][..|s| - n - |rest|];
    assert s[|s| - |rest|..] == s[n..][|s| - n - |rest|..];
    assert ([tx] + others)[1..] == others;
  }

  lemma {:induction false} EachTxRewritten(codec: TxCodec, s: seq<byte>, count: nat)
    requires Rewrites(codec) && GetEachTx(codec, s, count).Ok?
    ensures var (txs, rest) := GetEachTx(codec, s, count).value; Gone(codec, s, txs, rest)
  {
    if count != 0 {
      var (tx, n) := codec.decode(s).value;
      EachTxRewritten(codec, s[n..], count - 1);
      var (others, rest) := GetEachTx(codec, s[n..], count - 1).value;
      GoneStep(codec, s, tx, n, others, rest);
    }
  }

  /** What a byte string that decodes has to do with the block it decodes to. */
  ghost predicate Encodes(codec: TxCodec, s: seq<byte>, b: Block, n: nat)
  {
    && n <= |s| && Canonical(codec, b) && Countable(b) && NonEmpty(codec, b.txs)
    && Spells(s[..n], Encode(codec, b), 0, BlockVersions(codec, b))
  }

  lemma TxsRewritten(codec: TxCodec, body: seq<byte>)
    requires Rewrites(codec) && GetTxs(codec, body).Ok?
    ensures var (txs, rest) := GetTxs(codec, body).value;
            |txs| <= U32_MAX && BigEndian(|txs|, 4) + body[4..] == body && Gone(codec, body[4..], txs, rest)
  {
    var (count, each) := GetU32(body).value;
    EachTxRewritten(codec, each, count);
  }

  lemma Reassembled(codec: TxCodec, s: seq<byte>, b: Block, each: seq<byte>, rest: seq<byte>)
    requires PutHeader(b.header, BigEndian(|b.txs|, 4) + each) == s && Gone(codec, each, b.txs, rest)
    requires Canonical(codec, b) && Countable(b)
    ensures |rest| <= |s| && Encodes(codec, s, b, |s| - |rest|)
  {
    HeadTail(b, each);
    var taken := each[..|each| - |rest|];
    assert s[..|s| - |rest|] == Head(b) + taken;
    BlockSpelled(codec, b, Head(b), taken);
  }

  lemma RewrittenParts(codec: TxCodec, s: seq<byte>, h: Header, body: seq<byte>, txs: seq<Transaction>, rest: seq<byte>)
    requires Rewrites(codec) && GetHeader(s) == Ok((h, body)) && GetTxs(codec, body) == Ok((txs, rest))
    requires Validate(codec, h, txs).Ok?
    ensures |rest| <= |s| && Encodes(codec, s, Block(h, txs), |s| - |rest|)
  {
    HeaderRewritten(s);
    TxsRewritten(codec, body);
    ValidateCanonical(codec, Block(h, txs));
    Reassembled(codec, s, Block(h, txs), body[4..], rest);
  }

  /** Whatever decodes is the encoding of the canonical block it decodes to, but for the low bits of version bytes;
      and it is that encoding exactly when it has none. */
  lemma EncodeInvertsDecode(codec: TxCodec, s: seq<byte>)
    requires Rewrites(codec) && DecodePrefix(codec, s).Ok?
    ensures var (b, n) := DecodePrefix(codec, s).value;
            && Encodes(codec, s, b, n)
            && |Encode(codec, b)| == n
            && (Encode(codec, b) == s[..n] <==> Plain(s[..n], BlockVersions(codec, b)))
  {
    var header := GetHeader(s).value;
    var txs := GetTxs(codec, header.1).value;
    RewrittenParts(codec, s, header.0, header.1, txs.0, txs.1);
    var (b, n) := DecodePrefix(codec, s).value;
    PlainIff(s[..n], Encode(codec, b), BlockVersions(codec, b));
  }

  // ---------- Every spelling of a block ----------

  /** `s` spells the transactions one at a time, then `rest` follows. */
  ghost predicate SpellsThen(codec: TxCodec, s: seq<byte>, txs: seq<Transaction>, rest: seq<byte>)
    decreases |txs|
  {
    if txs == [] then s == rest else
    SpellsTxFirst(s, codec.encode(txs[0])) && SpellsThen(codec, s[|codec.encode(txs[0])|..], txs[1..], rest)
  }

  lemma {:induction false} SpellsThenRest(codec: TxCodec, x: seq<byte>, txs: seq<Transaction>, rest: seq<byte>)
    requires SpellsEach(codec, x, txs)
    ensures SpellsThen(codec, x + rest, txs, rest)
    decreases |txs|
  {
    if txs == [] {
      assert x + rest == rest;
    } else {
      var n := |codec.encode(txs[0])|;
      SpellsThenRest(codec, x[n..], txs[1..], rest);
      assert (x + rest)[..n] == x[..n] && (x + rest)[n..] == x[n..] + rest;
    }
  }

  lemma {:induction false} EachTxRead(codec: TxCodec, txs: seq<Transaction>, s: seq<byte>, rest: seq<byte>)
    requires (forall tx :: tx in txs ==> ReadsSpelling(codec, tx)) && SpellsThen(codec, s, txs, rest)
    ensures GetEachTx(codec, s, |txs|) == Ok((txs, rest)) && |txs| <= |s|
    decreases |txs|
  {
    if txs != [] {
      var n := |codec.encode(txs[0])|;
      EachTxRead(codec, txs[1..], s[n..], rest);
      assert ReadsSpelling(codec, txs[0]) && codec.decode(s) == Ok((txs[0], n));
      assert txs == [txs[0]] + txs[1..];
    }
  }

  lemma SpelledTxsRead(codec: TxCodec, txs: seq<Transaction>, s: seq<byte>, rest: seq<byte>)
    requires ReadsSpellings(codec, txs) && SpellsThen(codec, s, txs, rest) && |txs| <= U32_MAX
    ensures GetTxs(codec, BigEndian(|txs|, 4) + s) == Ok((txs, rest))
  {
    EachTxRead(codec, txs, s, rest);
    GetU32Front(|txs|, s);
  }

  lemma EncodesSplit(codec: TxCodec, t: seq<byte>, b: Block, n: nat)
    requires Encodes(codec, t, b, n)
    ensures |Head(b)| <= n && t[..|Head(b)|] == Head(b) && SpellsEach(codec, t[|Head(b)|..n], b.txs)
  {
    var m := |Head(b)|;
    EncodeParts(codec, b);
    assert t[..n] == t[..m] + t[m..n];
    BlockSpelled(codec, b, t[..m], t[m..n]);
  }

  lemma HeadRead(b: Block, t: seq<byte>, s: seq<byte>)
    requires t == Head(b) + s && Countable(b) && Carried(b.header) == b.header
    ensures GetHeader(t) == Ok((b.header, BigEndian(|b.txs|, 4) + s))
  {
    HeadTail(b, s);
    GetHeaderFront(b.header, BigEndian(|b.txs|, 4) + s);
  }

  lemma SpelledHead(codec: TxCodec, t: seq<byte>, b: Block, n: nat)
    requires Encodes(codec, t, b, n)
    ensures |Head(b)| <= n && GetHeader(t) == Ok((b.header, BigEndian(|b.txs|, 4) + t[|Head(b)|..]))
  {
    EncodesSplit(codec, t, b, n);
    assert t == t[..|Head(b)|] + t[|Head(b)|..];
    CanonicalCarried(codec, b);
    HeadRead(b, t, t[|Head(b)|..]);
  }

  lemma SpelledBody(codec: TxCodec, t: seq<byte>, b: Block, n: nat)
    requires ReadsSpellings(codec, b.txs) && Encodes(codec, t, b, n) && |Head(b)| <= n
    ensures GetTxs(codec, BigEndian(|b.txs|, 4) + t[|Head(b)|..]) == Ok((b.txs, t[n..]))
  {
    var m := |Head(b)|;
    EncodesSplit(codec, t, b, n);
    assert t[m..] == t[m..n] + t[n..];
    SpellsThenRest(codec, t[m..n], b.txs, t[n..]);
    SpelledTxsRead(codec, b.txs, t[m..], t[n..]);
  }

  lemma SpelledParts(codec: TxCodec, t: seq<byte>, b: Block, n: nat) returns (body: seq<byte>)
    requires ReadsSpellings(codec, b.txs) && Encodes(codec, t, b, n)
    ensures GetHeader(t) == Ok((b.header, body)) && GetTxs(codec, body) == Ok((b.txs, t[n..]))
  {
    SpelledHead(codec, t, b, n);
    SpelledBody(codec, t, b, n);
    body := BigEndian(|b.txs|, 4) + t[|Head(b)|..];
  }

  lemma SpellingDecodes(codec: TxCodec, b: Block, t: seq<byte>, n: nat)
    requires ReadsSpellings(codec, b.txs) && Encodes(codec, t, b, n)
    ensures DecodePrefix(codec, t) == Ok((b, n))
  {
    var body := SpelledParts(codec, t, b, n);
    DecodePrefixFront(codec, t, b.header, body);
    DecodeBodyFront(codec, |t|, b.header, b.txs, t[n..], body);
    ValidateCanonical(codec, b);
  }

  /** The byte strings that decode to a block are the spellings of its encoding, and it must be canonical. */
  lemma DecodesToIff(codec: TxCodec, b: Block, t: seq<byte>, n: nat)
    requires Rewrites(codec) && ReadsSpellings(codec, b.txs)
    ensures DecodePrefix(codec, t) == Ok((b, n)) <==> Encodes(codec, t, b, n)
  {
    if DecodePrefix(codec, t) == Ok((b, n)) {
      EncodeInvertsDecode(codec, t);
    }
    if Encodes(codec, t, b, n) {
      SpellingDecodes(codec, b, t, n);
    }
  }

  lemma SpellsItself(s: seq<byte>, written: seq<byte>, rest: seq<byte>, versions: set<nat>)
    requires Spells(s, written, 0, versions)
    ensures Spells((written + rest)[..|s|], written, 0, versions)
  {
  }

  /** Encoding what was decoded gives bytes that decode to the same block, whatever follows. */
  lemma ReencodedDecodes(codec: TxCodec, s: seq<byte>, b: Block, n: nat, rest: seq<byte>)
    requires Rewrites(codec) && ReadsSpellings(codec, b.txs) && DecodePrefix(codec, s) == Ok((b, n))
    ensures DecodePrefix(codec, Encode(codec, b) + rest) == Ok((b, n))
  {
    EncodeInvertsDecode(codec, s);
    SpellsItself(s[..n], Encode(codec, b), rest, BlockVersions(codec, b));
    SpellingDecodes(codec, b, Encode(codec, b) + rest, n);
  }

  lemma Respelled(s: seq<byte>, n: nat, written: seq<byte>, versions: set<nat>, v: nat, x: byte)
    requires n <= |s| && Spells(s[..n], written, 0, versions) && v in versions && v < n && TopBit(x) == TopBit(s[v])
    ensures Spells(s[v := x][..n], written, 0, versions)
    ensures x != TopBit(x) ==> written != s[v := x][..n]
  {
    assert written[v] == TopBit(s[0 + v]);
    assert s[v := x][..n][v] == x;
  }

  /** A version byte may be replaced by any with the same top bit: the bytes still decode to the block. Unless the
      new byte is that bit alone, they are not its encoding. */
  lemma VersionByteIgnored(codec: TxCodec, s: seq<byte>, b: Block, n: nat, v: nat, x: byte)
    requires Rewrites(codec) && ReadsSpellings(codec, b.txs) && DecodePrefix(codec, s) == Ok((b, n))
    requires v in BlockVersions(codec, b) && v < n && TopBit(x) == TopBit(s[v])
    ensures DecodePrefix(codec, s[v := x]) == Ok((b, n))
    ensures x != TopBit(x) ==> Encode(codec, b) != s[v := x][..n]
  {
    EncodeInvertsDecode(codec, s);
    Respelled(s, n, Encode(codec, b), BlockVersions(codec, b), v, x);
    SpellingDecodes(codec, b, s[v := x], n);
  }

  const ZERO32: Hash32 := seq(32, _ => 0)

  /** A codec whose transactions are a version byte alone. */
  const BARE: TxCodec := TxCodec(
    (tx: Transaction) => if tx.body == [] then [0] else [TopBit(tx.body[0])],
    (s: seq<byte>) => if s == [] then Err(EndOfInput) else Ok((Transaction(Ordinary, [TopBit(s[0])]), 1)),
    _ => ZERO32,
    _ => ZERO32)

  const BARE_BLOCK: Block := Block(
    Header(0, 0, 0, seq(20, _ => 0), ZERO32, ZERO32, ZERO32, 0, seq(65, _ => 0), [], RawBits(1, [0]), []),
    [Transaction(Ordinary, [0])])

  lemma FirstVersionByte(codec: TxCodec, b: Block)
    requires b.txs != [] && 0 < |codec.encode(b.txs[0])|
    ensures |Head(b)| < |Encode(codec, b)| && Encode(codec, b)[|Head(b)|] == codec.encode(b.txs[0])[0]
    ensures |Head(b)| in BlockVersions(codec, b)
  {
    EncodeParts(codec, b);
  }

  /** A canonical block whose first transaction is written with the version byte 0. */
  ghost predicate StartsAtZero(codec: TxCodec, b: Block)
  {
    && Rewrites(codec) && Reads(codec, b.txs) && ReadsSpellings(codec, b.txs)
    && Canonical(codec, b) && Countable(b) && b.txs != []
    && 0 < |codec.encode(b.txs[0])| && codec.encode(b.txs[0])[0] == 0
  }

  /** Replacing that byte by 1 leaves bytes that decode to the block and are not its encoding. */
  lemma OneForZero(codec: TxCodec, b: Block)
    requires StartsAtZero(codec, b)
    ensures |Head(b)| < |Encode(codec, b)|
    ensures var t := Encode(codec, b)[|Head(b)| := 1];
            DecodePrefix(codec, t) == Ok((b, |t|)) && Encode(codec, b) != t
  {
    var written := Encode(codec, b);
    FirstVersionByte(codec, b);
    assert written + [] == written;
    DecodeInvertsEncode(codec, b, []);
    VersionByteIgnored(codec, written, b, |written|, |Head(b)|, 1);
  }

  lemma BareRewrites()
    ensures Rewrites(BARE)
  {
    forall s | BARE.decode(s).Ok?
      ensures BARE.decode(s).value.1 <= |s|
      ensures SpellsTx(s[..BARE.decode(s).value.1], BARE.encode(BARE.decode(s).value.0))
    {
      assert BARE.decode(s) == Ok((Transaction(Ordinary, [TopBit(s[0])]), 1));
    }
  }

  lemma BareReads(tx: Transaction)
    requires tx == Transaction(Ordinary, [0])
    ensures BARE.encode(tx) == [0] && ReadsBack(BARE, tx) && ReadsSpelling(BARE, tx)
  {
    forall s | [0] <= s || SpellsTxFirst(s, [0])
      ensures BARE.decode(s) == Ok((tx, 1))
    {
    }
  }

  lemma BareCanonical()
    ensures Canonical(BARE, BARE_BLOCK) && Countable(BARE_BLOCK)
  {
  }

  /** There is such a codec and such a block. */
  lemma SomeStartAtZero()
    ensures StartsAtZero(BARE, BARE_BLOCK)
  {
    BareRewrites();
    BareReads(BARE_BLOCK.txs[0]);
    BareCanonical();
  }

  lemma BlockVersionsRange(codec: TxCodec, b: Block)
    requires NonEmpty(codec, b.txs)
    ensures forall v :: v in BlockVersions(codec, b) ==> v < |Encode(codec, b)|
  {
    EncodeParts(codec, b);
    TxVersionsRange(codec, b.txs, |Head(b)|);
  }

  // ---------- Streams ----------

  /** Bytes as they are written, and where version bytes stand in them. */
  datatype Piece = Piece(written: seq<byte>, versions: set<nat>)

  ghost function Joined(pieces: seq<Piece>): seq<byte>
  {
    if pieces == [] then [] else pieces[0].written + Joined(pieces[1..])
  }

  ghost function Shifted(versions: set<nat>, at: nat): set<nat> { set v | v in versions :: at + v }

  /** Where the version bytes of pieces written back to back from `at` stand. */
  ghost function Versions(pieces: seq<Piece>, at: nat): set<nat>
  {
    if pieces == [] then {} else
    Shifted(pieces[0].versions, at) + Versions(pieces[1..], at + |pieces[0].written|)
  }

  ghost predicate Within(pieces: seq<Piece>)
  {
    forall p, v :: p in pieces && v in p.versions ==> v < |p.written|
  }

  ghost predicate SpellsFirst(t: seq<byte>, p: Piece)
  {
    |p.written| <= |t| && Spells(t[..|p.written|], p.written, 0, p.versions)
  }

  /** Pieces are spelled one by one. */
  ghost predicate SpellsPieces(t: seq<byte>, pieces: seq<Piece>)
    decreases |pieces|
  {
    if pieces == [] then t == [] else
    SpellsFirst(t, pieces[0]) && SpellsPieces(t[|pieces[0].written|..], pieces[1..])
  }

  lemma {:induction false} VersionsFrom(pieces: seq<Piece>, at: nat)
    ensures forall v :: v in Versions(pieces, at) ==> at <= v
    decreases |pieces|
  {
    if pieces != [] {
      VersionsFrom(pieces[1..], at + |pieces[0].written|);
    }
  }

  lemma ShiftedIn(versions: set<nat>, at: nat, i: nat)
    ensures at + i in Shifted(versions, at) <==> i in versions
  {
  }

  lemma SpelledAt(x: seq<byte>, p: Piece, at: nat)
    ensures Spells(x, p.written, at, Shifted(p.versions, at)) <==> Spells(x, p.written, 0, p.versions)
  {
    if |x| == |p.written| {
      forall i | 0 <= i < |x|
        ensures x[i] == x[i] && (at + i in Shifted(p.versions, at) <==> 0 + i in p.versions)
      {
        ShiftedIn(p.versions, at, i);
      }
    }
  }

  lemma SpellsJoined(t: seq<byte>, p: Piece, others: seq<byte>, at: nat, versions: set<nat>)
    requires |p.written| <= |t| && Within([p]) && forall v :: v in versions ==> at + |p.written| <= v
    ensures Spells(t, p.written + others, at, Shifted(p.versions, at) + versions)
            <==> SpellsFirst(t, p) && Spells(t[|p.written|..], others, at + |p.written|, versions)
  {
    var n := |p.written|;
    assert t == t[..n] + t[n..] && p in [p];
    SpelledAt(t[..n], p, at);
    SpellsSplit(t[..n], t[n..], p.written, others, at, Shifted(p.versions, at), versions);
  }

  ghost predicate SpellsFrom(t: seq<byte>, pieces: seq<Piece>, at: nat)
  {
    Spells(t, Joined(pieces), at, Versions(pieces, at))
  }

  lemma SpellsFromStep(t: seq<byte>, pieces: seq<Piece>, at: nat)
    requires Within(pieces) && pieces != [] && |pieces[0].written| <= |t|
    ensures var n := |pieces[0].written|;
            SpellsFrom(t, pieces, at) <==> SpellsFirst(t, pieces[0]) && SpellsFrom(t[n..], pieces[1..], at + n)
  {
    var n := |pieces[0].written|;
    VersionsFrom(pieces[1..], at + n);
    SpellsJoined(t, pieces[0], Joined(pieces[1..]), at, Versions(pieces[1..], at + n));
  }

  lemma {:induction false} SpellsPiecesIff(t: seq<byte>, pieces: seq<Piece>, at: nat)
    requires Within(pieces)
    ensures SpellsPieces(t, pieces) <==> SpellsFrom(t, pieces, at)
    decreases |pieces|
  {
    if pieces != [] {
      var n := |pieces[0].written|;
      if n <= |t| {
        SpellsFromStep(t, pieces, at);
        SpellsPiecesIff(t[n..], pieces[1..], at + n);
      }
    }
  }

  ghost predicate Sound(codec: TxCodec, blocks: seq<Block>)
  {
    forall b :: b in blocks ==> Canonical(codec, b) && Countable(b) && NonEmpty(codec, b.txs)
  }

  ghost function PieceOf(codec: TxCodec, b: Block): Piece { Piece(Encode(codec, b), BlockVersions(codec, b)) }

  ghost function Pieces(codec: TxCodec, blocks: seq<Block>): seq<Piece>
  {
    if blocks == [] then [] else [PieceOf(codec, blocks[0])] + Pieces(codec, blocks[1..])
  }

  ghost function StreamVersions(codec: TxCodec, blocks: seq<Block>): set<nat> { Versions(Pieces(codec, blocks), 0) }

  lemma {:induction false} PiecesOfStream(codec: TxCodec, blocks: seq<Block>)
    requires Sound(codec, blocks)
    ensures Within(Pieces(codec, blocks)) && Joined(Pieces(codec, blocks)) == EncodeAll(codec, blocks)
    decreases |blocks|
  {
    if blocks != [] {
      PiecesOfStream(codec, blocks[1..]);
      BlockVersionsRange(codec, blocks[0]);
    }
  }

  lemma PiecesNext(codec: TxCodec, s: seq<byte>, b: Block, n: nat, others: seq<Block>)
    requires Encodes(codec, s, b, n) && SpellsPieces(s[n..], Pieces(codec, others))
    ensures SpellsPieces(s, Pieces(codec, [b] + others))
  {
    assert ([b] + others)[1..] == others;
  }

  lemma {:induction false} DecodedSpells(codec: TxCodec, s: seq<byte>)
    requires Rewrites(codec) && DecodeStream(codec, s).fault.None?
    ensures var blocks := DecodeStream(codec, s).blocks;
            Sound(codec, blocks) && SpellsPieces(s, Pieces(codec, blocks))
    decreases |s|
  {
    if s != [] {
      var (b, n) := DecodePrefix(codec, s).value;
      DecodedSpells(codec, s[n..]);
      EncodeInvertsDecode(codec, s);
      PiecesNext(codec, s, b, n, DecodeStream(codec, s[n..]).blocks);
    }
  }

  /** A stream read to its end without a fault is its blocks encoded back to back, but for the low bits of version
      bytes; and it is exactly that when it has none. */
  lemma StreamRewritten(codec: TxCodec, s: seq<byte>)
    requires Rewrites(codec) && DecodeStream(codec, s).fault.None?
    ensures var blocks := DecodeStream(codec, s).blocks;
            && Sound(codec, blocks)
            && Spells(s, EncodeAll(codec, blocks), 0, StreamVersions(codec, blocks))
            && (EncodeAll(codec, blocks) == s <==> Plain(s, StreamVersions(codec, blocks)))
  {
    var blocks := DecodeStream(codec, s).blocks;
    DecodedSpells(codec, s);
    PiecesOfStream(codec, blocks);
    SpellsPiecesIff(s, Pieces(codec, blocks), 0);
    PlainIff(s, EncodeAll(codec, blocks), StreamVersions(codec, blocks));
  }

  lemma SpellingOpens(codec: TxCodec, x: seq<byte>, b: Block)
    requires ReadsSpellings(codec, b.txs) && Encodes(codec, x, b, |x|)
    ensures Opens(codec, x, b)
  {
    forall rest
      ensures DecodePrefix(codec, x + rest) == Ok((b, |x|))
    {
      assert (x + rest)[..|x|] == x[..|x|];
      SpellingDecodes(codec, b, x + rest, |x|);
    }
  }

  lemma {:induction false} PiecesCut(t: seq<byte>, pieces: seq<Piece>) returns (xs: seq<seq<byte>>)
    requires SpellsPieces(t, pieces)
    ensures |xs| == |pieces| && Concat(xs) == t
    ensures forall i :: 0 <= i < |xs| ==> Spells(xs[i], pieces[i].written, 0, pieces[i].versions)
    decreases |pieces|
  {
    if pieces == [] {
      xs := [];
    } else {
      var n := |pieces[0].written|;
      var others := PiecesCut(t[n..], pieces[1..]);
      xs := [t[..n]] + others;
    }
  }

  lemma {:induction false} PiecesAt(codec: TxCodec, blocks: seq<Block>)
    ensures |Pieces(codec, blocks)| == |blocks|
    ensures forall i :: 0 <= i < |blocks| ==> Pieces(codec, blocks)[i] == PieceOf(codec, blocks[i])
    decreases |blocks|
  {
    if blocks != [] {
      PiecesAt(codec, blocks[1..]);
    }
  }

  lemma SpelledStreamDecodes(codec: TxCodec, blocks: seq<Block>, t: seq<byte>)
    requires forall b :: b in blocks ==> ReadsSpellings(codec, b.txs)
    requires Sound(codec, blocks) && SpellsPieces(t, Pieces(codec, blocks))
    ensures DecodeStream(codec, t) == Stream(blocks, None)
  {
    var xs := PiecesCut(t, Pieces(codec, blocks));
    PiecesAt(codec, blocks);
    forall i | 0 <= i < |xs|
      ensures Opens(codec, xs[i], blocks[i])
    {
      assert xs[i][..|xs[i]|] == xs[i] && blocks[i] in blocks;
      SpellingOpens(codec, xs[i], blocks[i]);
    }
    StreamOpened(codec, xs, blocks);
  }

  /** The streams that decode to a list of blocks are the spellings of their encodings back to back. */
  lemma StreamDecodesToIff(codec: TxCodec, blocks: seq<Block>, t: seq<byte>)
    requires Rewrites(codec) && forall b :: b in blocks ==> ReadsSpellings(codec, b.txs)
    ensures DecodeStream(codec, t) == Stream(blocks, None)
            <==> Sound(codec, blocks) && Spells(t, EncodeAll(codec, blocks), 0, StreamVersions(codec, blocks))
  {
    if DecodeStream(codec, t) == Stream(blocks, None) {
      StreamRewritten(codec, t);
    }
    if Sound(codec, blocks) && Spells(t, EncodeAll(codec, blocks), 0, StreamVersions(codec, blocks)) {
      PiecesOfStream(codec, blocks);
      SpellsPiecesIff(t, Pieces(codec, blocks), 0);
      SpelledStreamDecodes(codec, blocks, t);
    }
  }
}
