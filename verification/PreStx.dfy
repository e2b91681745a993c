/**
 Decoding Bitcoin blocks into protocol operations.

 The outputs a `PreStx` transaction announces sponsor operations in the next six blocks.  The decoder finds
 them in a cache it carries from block to block; the reference definition below has no cache and rescans the
 blocks.
 */
module PreStx {
  import opened Prelude

  const WINDOW: nat := 6

  type Hash = seq<byte>
  type Address = seq<byte>
  /** The fields of an operation other than `PreStx`, which nothing here looks into. */
  type Detail = seq<int>

  /** A reward address, with the Stacks address it stands for when it has one. */
  datatype PoxAddress = PoxAddress(script: seq<byte>, stacks: Option<Address>)

  datatype Output = Output(sats: u64, recipient: PoxAddress)

  datatype Input = Input(txid: Hash, index: u32)

  datatype Payload = Payload(opcode: char, data: seq<byte>)

  /** `payload` is the protocol payload of output zero, if it carries one; `outputs` are the later
      outputs, if every one of them is an address. */
  datatype Tx = Tx(txid: Hash, payload: Option<Payload>, outputs: Option<seq<Output>>, inputs: seq<Input>)

  datatype Block = Block(hash: Hash, time: u64, txs: seq<Tx>)

  type Chain = seq<Block>

  datatype Kind = PreStx(sender: Address) | Other(detail: Detail)

  datatype Operation = Operation(txid: Hash, index: nat, inputs: seq<Input>, outputs: seq<Output>, kind: Kind)

  datatype BitcoinBlock = BitcoinBlock(height: nat, hash: Hash, time: u64, operations: seq<Operation>)

  datatype Seen = Seen(sender: Address, height: nat)

  type Senders = map<Hash, Seen>

  /** The field parsers of the opcodes that need no sender, and of those that do. */
  datatype Parsers = Parsers(leader: (char, seq<byte>) -> Option<Detail>,
                             sponsored: (char, seq<byte>, seq<Output>, Address) -> Option<Detail>)

  // ---------- The decoder ----------

  function ParseOperation(parsers: Parsers, payload: Payload, outputs: seq<Output>,
                          sender: Option<Address>): Option<Kind>
  {
    match payload.opcode
    case '[' | '^' =>
      var detail := parsers.leader(payload.opcode, payload.data);
      if detail.None? then None else Some(Other(detail.value))
    case 'p' =>
      if outputs == [] || outputs[0].recipient.stacks.None? then None
      else Some(PreStx(outputs[0].recipient.stacks.value))
    case 'x' | '$' | '#' | 'v' =>
      if sender.None? then None else
      var detail := parsers.sponsored(payload.opcode, payload.data, outputs, sender.value);
      if detail.None? then None else Some(Other(detail.value))
    case _ => None
  }

  function Classify(parsers: Parsers, tx: Tx, sender: Option<Address>): Option<Kind>
  {
    if tx.payload.None? || tx.outputs.None? || tx.inputs == [] || tx.outputs.value == [] then None
    else ParseOperation(parsers, tx.payload.value, tx.outputs.value, sender)
  }

  /** The transaction whose second output the first input spends. */
  function Reference(tx: Tx): Option<Hash>
  {
    if tx.inputs != [] && tx.inputs[0].index == 1 then Some(tx.inputs[0].txid) else None
  }

  function CachedSender(tx: Tx, senders: Senders): Option<Address>
  {
    var t := Reference(tx);
    if t.Some? && t.value in senders then Some(senders[t.value].sender) else None
  }

  function Retain(senders: Senders, height: nat): Senders
  {
    map t | t in senders && SaturatingSub(height, senders[t].height) <= WINDOW :: senders[t]
  }

  function DropFrom(senders: Senders, height: nat): Senders
  {
    map t | t in senders && senders[t].height < height :: senders[t]
  }

  /** The heights of a cache that a retention at `height` leaves whole. */
  function RetainHeights(known: set<nat>, height: nat): set<nat>
  {
    set p | p in known && SaturatingSub(height, p) <= WINDOW
  }

  datatype Decoding = Decoding(operations: seq<Operation>, senders: Senders)

  /** One transaction's contribution, given the kind it was classified as. */
  function Record(d: Decoding, height: nat, index: nat, tx: Tx, kind: Option<Kind>): Decoding
    requires kind.Some? ==> tx.outputs.Some?
  {
    if kind.None? then d else
    Decoding(
      d.operations + [Operation(tx.txid, index, tx.inputs, tx.outputs.value, kind.value)],
      if kind.value.PreStx? then d.senders[tx.txid := Seen(kind.value.sender, height)] else d.senders)
  }

  /** What the first `n` transactions of a block add to a cache. */
  function DecodeFirst(parsers: Parsers, height: nat, txs: seq<Tx>, n: nat, senders: Senders): Decoding
    requires n <= |txs|
  {
    if n == 0 then Decoding([], senders) else
    var d := DecodeFirst(parsers, height, txs, n - 1, senders);
    Record(d, height, n - 1, txs[n - 1], Classify(parsers, txs[n - 1], CachedSender(txs[n - 1], d.senders)))
  }

  function DecodeBlock(parsers: Parsers, height: nat, block: Block, senders: Senders): (BitcoinBlock, Senders)
  {
    var d := DecodeFirst(parsers, height, block.txs, |block.txs|, Retain(senders, height));
    (BitcoinBlock(height, block.hash, block.time, d.operations), d.senders)
  }

  // ---------- The reference: rescan the last six blocks ----------

  /** The sender a transaction announces as a `PreStx`, whatever the cache holds. */
  function Announced(tx: Tx): Option<Address>
  {
    if tx.payload.None? || tx.payload.value.opcode != 'p' then None
    else if tx.outputs.None? || tx.inputs == [] || tx.outputs.value == [] then None
    else tx.outputs.value[0].recipient.stacks
  }

  function ScanTxs(txs: seq<Tx>, n: nat, t: Hash): Option<Address>
    requires n <= |txs|
  {
    if n == 0 then None
    else if txs[n - 1].txid == t && Announced(txs[n - 1]).Some? then Announced(txs[n - 1])
    else ScanTxs(txs, n - 1, t)
  }

  function ScanBlocks(chain: Chain, lo: nat, hi: nat, t: Hash): Option<Address>
    requires hi <= |chain|
  {
    if hi <= lo then None else
    var found := ScanTxs(chain[hi - 1].txs, |chain[hi - 1].txs|, t);
    if found.Some? then found else ScanBlocks(chain, lo, hi - 1, t)
  }

  /** The lowest height whose `PreStx` outputs still count at `height`. */
  function WindowStart(height: nat): nat { SaturatingSub(height, WINDOW) }

  function AuthorisedSender(chain: Chain, height: nat, i: nat): Option<Address>
    requires height < |chain| && i < |chain[height].txs|
  {
    var t := Reference(chain[height].txs[i]);
    if t.None? then None else
    var here := ScanTxs(chain[height].txs, i, t.value);
    if here.Some? then here else ScanBlocks(chain, WindowStart(height), height, t.value)
  }

  function RescanFirst(parsers: Parsers, chain: Chain, height: nat, n: nat): seq<Operation>
    requires height < |chain| && n <= |chain[height].txs|
  {
    if n == 0 then [] else
    var tx := chain[height].txs[n - 1];
    var kind := Classify(parsers, tx, AuthorisedSender(chain, height, n - 1));
    RescanFirst(parsers, chain, height, n - 1)
      + if kind.None? then [] else [Operation(tx.txid, n - 1, tx.inputs, tx.outputs.value, kind.value)]
  }

  /** The block at a height, decoded without any memory of earlier reads. */
  function Rescan(parsers: Parsers, chain: Chain, height: nat): BitcoinBlock
    requires height < |chain|
  {
    var block := chain[height];
    BitcoinBlock(height, block.hash, block.time, RescanFirst(parsers, chain, height, |block.txs|))
  }

  // ---------- What Bitcoin guarantees about a chain ----------

  ghost predicate Precedes(p: nat, j: nat, h: nat, i: nat) { p < h || (p == h && j < i) }

  ghost predicate Located(chain: Chain, p: nat, j: nat) { p < |chain| && j < |chain[p].txs| }

  ghost predicate SpendsEarlier(chain: Chain, h: nat, i: nat, t: Hash)
    requires Located(chain, h, i)
  {
    exists p: nat, j: nat :: Located(chain, p, j) && Precedes(p, j, h, i) && chain[p].txs[j].txid == t
  }

  /** Transaction ids name one transaction each, no announcement is mined twice, and an input spends an output
      of an earlier transaction.  Other transactions may repeat: two early coinbases do. */
  ghost predicate WellFormed(content: Hash -> Tx, chain: Chain)
  {
    && (forall p: nat, j: nat :: Located(chain, p, j) ==> content(chain[p].txs[j].txid) == chain[p].txs[j])
    && (forall p: nat, j: nat, q: nat, k: nat ::
          && Located(chain, p, j) && Located(chain, q, k) && chain[p].txs[j].txid == chain[q].txs[k].txid
          && Announced(chain[p].txs[j]).Some?
          ==> p == q && j == k)
    && (forall h: nat, i: nat :: Located(chain, h, i) && Reference(chain[h].txs[i]).Some? ==>
          SpendsEarlier(chain, h, i, Reference(chain[h].txs[i]).value))
  }

  // ---------- The cache against the chain ----------

  /** The cache entry a transaction's id has claims no height above the transaction's own. */
  ghost predicate NoNewer(senders: Senders, p: nat, tx: Tx)
  {
    tx.txid in senders ==> senders[tx.txid].height <= p
  }

  /** The cache holds a transaction's announcement, if it makes one. */
  ghost predicate Held(senders: Senders, p: nat, tx: Tx)
  {
    Announced(tx).Some? ==> tx.txid in senders && senders[tx.txid].height == p
  }

  /** Every entry is the announcement of the transaction its id names. */
  ghost predicate Genuine(content: Hash -> Tx, senders: Senders)
  {
    forall t :: t in senders ==> Announced(content(t)) == Some(senders[t].sender)
  }

  /** The cache of a walk that stands before transaction `i` of block `h`, complete for the heights `known`. */
  ghost predicate Known(content: Hash -> Tx, chain: Chain, senders: Senders, known: set<nat>, h: nat, i: nat)
  {
    && Genuine(content, senders)
    && (forall p: nat, j: nat :: Located(chain, p, j) && Precedes(p, j, h, i) ==> NoNewer(senders, p, chain[p].txs[j]))
    && (forall p: nat, j: nat ::
          Located(chain, p, j) && Precedes(p, j, h, i) && (p == h || p in known) ==> Held(senders, p, chain[p].txs[j]))
  }

  /** The heights include the whole window of a block. */
  ghost predicate Covers(known: set<nat>, h: nat)
  {
    forall p: nat :: WindowStart(h) <= p < h ==> p in known
  }

  ghost predicate Fresh(senders: Senders, h: nat)
  {
    forall t :: t in senders ==> WindowStart(h) <= senders[t].height
  }

  lemma {:induction false} ScanTxsFinds(txs: seq<Tx>, n: nat, t: Hash)
    requires n <= |txs|
    ensures ScanTxs(txs, n, t).Some? ==>
              exists j: nat :: j < n && txs[j].txid == t && Announced(txs[j]) == ScanTxs(txs, n, t)
    ensures forall j: nat :: j < n && txs[j].txid == t && Announced(txs[j]).Some? ==> ScanTxs(txs, n, t).Some?
  {
    if n != 0 {
      ScanTxsFinds(txs, n - 1, t);
    }
  }

  lemma {:induction false} ScanBlocksFinds(chain: Chain, lo: nat, hi: nat, t: Hash)
    requires hi <= |chain|
    ensures ScanBlocks(chain, lo, hi, t).Some? ==>
              exists p: nat, j: nat :: lo <= p < hi && Located(chain, p, j) && chain[p].txs[j].txid == t
                && Announced(chain[p].txs[j]) == ScanBlocks(chain, lo, hi, t)
    ensures forall p: nat, j: nat ::
              (lo <= p < hi && Located(chain, p, j) && chain[p].txs[j].txid == t && Announced(chain[p].txs[j]).Some?)
              ==> ScanBlocks(chain, lo, hi, t).Some?
  {
    if lo < hi {
      var txs := chain[hi - 1].txs;
      ScanTxsFinds(txs, |txs|, t);
      ScanBlocksFinds(chain, lo, hi - 1, t);
      if ScanTxs(txs, |txs|, t).Some? {
        var j: nat :| j < |txs| && txs[j].txid == t && Announced(txs[j]) == ScanTxs(txs, |txs|, t);
        assert Located(chain, hi - 1, j);
      }
    }
  }

  // ---------- What a block yields, opcode by opcode ----------

  /** A transaction that is read at all: a payload, and inputs and address outputs. */
  ghost predicate Complete(tx: Tx)
  {
    tx.payload.Some? && tx.outputs.Some? && tx.inputs != [] && tx.outputs.value != []
  }

  /** A `PreStx` whose first output pays a Stacks address. */
  ghost predicate Announces(tx: Tx, sender: Address)
  {
    Complete(tx) && tx.payload.value.opcode == 'p' && tx.outputs.value[0].recipient.stacks == Some(sender)
  }

  /** Transaction `j` of block `p` comes before transaction `i` of block `h`, in it or at most six blocks earlier. */
  ghost predicate InReach(p: nat, j: nat, h: nat, i: nat)
  {
    (p == h && j < i) || p < h <= p + 6
  }

  /** The first input of transaction `i` of block `h` spends output 1 of an announcement of this sender in reach. */
  ghost predicate SponsoredBy(chain: Chain, h: nat, i: nat, sender: Address)
    requires Located(chain, h, i)
  {
    var tx := chain[h].txs[i];
    && tx.inputs != [] && tx.inputs[0].index == 1
    && exists p: nat, j: nat :: Located(chain, p, j) && InReach(p, j, h, i)
         && chain[p].txs[j].txid == tx.inputs[0].txid && Announces(chain[p].txs[j], sender)
  }

  /** The kind of operation a transaction is: leader operations by their own fields, announcements by their first
      output, the others by their fields and the sender that sponsors them. */
  ghost predicate Yields(parsers: Parsers, chain: Chain, h: nat, i: nat, kind: Kind)
    requires Located(chain, h, i)
  {
    var tx := chain[h].txs[i];
    && Complete(tx)
    && var op, data, outputs := tx.payload.value.opcode, tx.payload.value.data, tx.outputs.value;
       if op == '[' || op == '^' then kind.Other? && parsers.leader(op, data) == Some(kind.detail)
       else if op == 'p' then kind.PreStx? && outputs[0].recipient.stacks == Some(kind.sender)
       else if op == 'x' || op == '$' || op == '#' || op == 'v' then
         kind.Other? && exists sender ::
           SponsoredBy(chain, h, i, sender) && parsers.sponsored(op, data, outputs, sender) == Some(kind.detail)
       else false
  }

  /** The rescan finds a sender exactly when one sponsors the transaction. */
  lemma AuthorisedIff(content: Hash -> Tx, chain: Chain, h: nat, i: nat, sender: Address)
    requires WellFormed(content, chain) && Located(chain, h, i)
    ensures AuthorisedSender(chain, h, i) == Some(sender) <==> SponsoredBy(chain, h, i, sender)
  {
    var tx := chain[h].txs[i];
    if tx.inputs != [] && tx.inputs[0].index == 1 {
      var t := tx.inputs[0].txid;
      ScanTxsFinds(chain[h].txs, i, t);
      ScanBlocksFinds(chain, WindowStart(h), h, t);
      forall p: nat, j: nat | Located(chain, p, j) && InReach(p, j, h, i) && chain[p].txs[j].txid == t
        ensures Announced(chain[p].txs[j]).Some? ==> AuthorisedSender(chain, h, i) == Announced(chain[p].txs[j])
      {
        assert content(t) == chain[p].txs[j];
        if Announced(chain[p].txs[j]).Some? {
          assert AuthorisedSender(chain, h, i).Some?;
          AuthorisedIsContent(content, chain, h, i);
        }
      }
      if AuthorisedSender(chain, h, i) == Some(sender) {
        AuthorisedIsContent(content, chain, h, i);
      }
    }
  }

  /** A sender that is found was announced, in reach, by the transaction the input names. */
  lemma AuthorisedIsContent(content: Hash -> Tx, chain: Chain, h: nat, i: nat)
    requires WellFormed(content, chain) && Located(chain, h, i) && AuthorisedSender(chain, h, i).Some?
    ensures var t := Reference(chain[h].txs[i]).value;
            && Announced(content(t)) == AuthorisedSender(chain, h, i)
            && exists p: nat, j: nat :: Located(chain, p, j) && InReach(p, j, h, i) && chain[p].txs[j].txid == t
                 && Announced(chain[p].txs[j]) == AuthorisedSender(chain, h, i)
  {
    var t := Reference(chain[h].txs[i]).value;
    ScanTxsFinds(chain[h].txs, i, t);
    ScanBlocksFinds(chain, WindowStart(h), h, t);
    if ScanTxs(chain[h].txs, i, t).Some? {
      var j: nat :| j < i && chain[h].txs[j].txid == t
        && Announced(chain[h].txs[j]) == ScanTxs(chain[h].txs, i, t);
      assert Located(chain, h, j) && InReach(h, j, h, i);
    } else {
      var p: nat, j: nat :| WindowStart(h) <= p < h && Located(chain, p, j) && chain[p].txs[j].txid == t
        && Announced(chain[p].txs[j]) == ScanBlocks(chain, WindowStart(h), h, t);
      assert InReach(p, j, h, i);
    }
  }

  lemma ClassifiedIff(parsers: Parsers, content: Hash -> Tx, chain: Chain, h: nat, i: nat, kind: Kind)
    requires WellFormed(content, chain) && Located(chain, h, i)
    ensures Classify(parsers, chain[h].txs[i], AuthorisedSender(chain, h, i)) == Some(kind)
            <==> Yields(parsers, chain, h, i, kind)
  {
    forall sender
      ensures AuthorisedSender(chain, h, i) == Some(sender) <==> SponsoredBy(chain, h, i, sender)
    {
      AuthorisedIff(content, chain, h, i, sender);
    }
  }

  /** The operation a transaction yields. */
  function OperationOf(chain: Chain, h: nat, i: nat, kind: Kind): Operation
    requires h < |chain| && i < |chain[h].txs| && chain[h].txs[i].outputs.Some?
  {
    var tx := chain[h].txs[i];
    Operation(tx.txid, i, tx.inputs, tx.outputs.value, kind)
  }

  /** A list of operations is what the first `n` transactions yield, in their order. */
  ghost predicate IsYield(parsers: Parsers, chain: Chain, h: nat, n: nat, operations: seq<Operation>)
    requires h < |chain| && n <= |chain[h].txs|
  {
    && (forall i: nat, kind :: i < n && Located(chain, h, i) && Yields(parsers, chain, h, i, kind) ==>
          OperationOf(chain, h, i, kind) in operations)
    && (forall k :: 0 <= k < |operations| ==>
          var i := operations[k].index;
          i < n && Yields(parsers, chain, h, i, operations[k].kind)
              && operations[k] == OperationOf(chain, h, i, operations[k].kind))
    && (forall k, l :: 0 <= k < l < |operations| ==> operations[k].index < operations[l].index)
  }

  lemma YieldStep(parsers: Parsers, content: Hash -> Tx, chain: Chain, h: nat, n: nat, before: seq<Operation>,
                  after: seq<Operation>)
    requires WellFormed(content, chain) && Located(chain, h, n) && IsYield(parsers, chain, h, n, before)
    requires var kind := Classify(parsers, chain[h].txs[n], AuthorisedSender(chain, h, n));
             if kind.None? then after == before
             else chain[h].txs[n].outputs.Some? && after == before + [OperationOf(chain, h, n, kind.value)]
    ensures IsYield(parsers, chain, h, n + 1, after)
  {
    var kind := Classify(parsers, chain[h].txs[n], AuthorisedSender(chain, h, n));
    forall k
      ensures Yields(parsers, chain, h, n, k) <==> kind == Some(k)
    {
      ClassifiedIff(parsers, content, chain, h, n, k);
    }
    forall i: nat, k | i < n + 1 && Located(chain, h, i) && Yields(parsers, chain, h, i, k)
      ensures OperationOf(chain, h, i, k) in after
    {
      if i == n {
        assert after[|before|] == OperationOf(chain, h, n, k);
      } else {
        assert OperationOf(chain, h, i, k) in before;
      }
    }
  }

  lemma {:induction false} RescanFirstYields(parsers: Parsers, content: Hash -> Tx, chain: Chain, h: nat, n: nat)
    requires WellFormed(content, chain) && h < |chain| && n <= |chain[h].txs|
    ensures IsYield(parsers, chain, h, n, RescanFirst(parsers, chain, h, n))
  {
    if n != 0 {
      RescanFirstYields(parsers, content, chain, h, n - 1);
      RescanStep(parsers, chain, h, n - 1);
      YieldStep(parsers, content, chain, h, n - 1, RescanFirst(parsers, chain, h, n - 1),
                RescanFirst(parsers, chain, h, n));
    }
  }

  lemma RescanStep(parsers: Parsers, chain: Chain, h: nat, n: nat)
    requires Located(chain, h, n)
    ensures var before, after := RescanFirst(parsers, chain, h, n), RescanFirst(parsers, chain, h, n + 1);
            var kind := Classify(parsers, chain[h].txs[n], AuthorisedSender(chain, h, n));
            if kind.None? then after == before
            else chain[h].txs[n].outputs.Some? && after == before + [OperationOf(chain, h, n, kind.value)]
  {
    var before := RescanFirst(parsers, chain, h, n);
    assert before + [] == before;
  }

  /** The rescan of a block is its height, hash and time, and what its transactions yield. */
  lemma RescanYields(parsers: Parsers, content: Hash -> Tx, chain: Chain, h: nat)
    requires WellFormed(content, chain) && h < |chain|
    ensures var r := Rescan(parsers, chain, h);
            && r.height == h && r.hash == chain[h].hash && r.time == chain[h].time
            && IsYield(parsers, chain, h, |chain[h].txs|, r.operations)
  {
    RescanFirstYields(parsers, content, chain, h, |chain[h].txs|);
  }

  /** A cache lookup and a rescan of the window find the same sender. */
  lemma LookupIsRescan(content: Hash -> Tx, chain: Chain, senders: Senders, known: set<nat>, h: nat, i: nat)
    requires WellFormed(content, chain) && Located(chain, h, i)
    requires Known(content, chain, senders, known, h, i) && Fresh(senders, h) && Covers(known, h)
    ensures CachedSender(chain[h].txs[i], senders) == AuthorisedSender(chain, h, i)
  {
    if Reference(chain[h].txs[i]).Some? {
      var t := Reference(chain[h].txs[i]).value;
      assert SpendsEarlier(chain, h, i, t);
      var p: nat, j: nat :| Located(chain, p, j) && Precedes(p, j, h, i) && chain[p].txs[j].txid == t;
      assert t in senders ==> NoNewer(senders, p, chain[p].txs[j]) && Announced(chain[p].txs[j]).Some?;
      ScanTxsFinds(chain[h].txs, i, t);
      ScanBlocksFinds(chain, WindowStart(h), h, t);
      var here := ScanTxs(chain[h].txs, i, t);
      if here.Some? {
        var k: nat :| k < i && chain[h].txs[k].txid == t && Announced(chain[h].txs[k]) == here;
        assert Located(chain, h, k) && Precedes(h, k, h, i);
        assert Held(senders, h, chain[h].txs[k]);
      } else if AuthorisedSender(chain, h, i).Some? {
        var q: nat, k: nat :| WindowStart(h) <= q < h && Located(chain, q, k) && chain[q].txs[k].txid == t
          && Announced(chain[q].txs[k]) == ScanBlocks(chain, WindowStart(h), h, t);
        assert Precedes(q, k, h, i);
        assert Held(senders, q, chain[q].txs[k]);
      } else if t in senders {
        assert false;
      }
    }
  }

  /** Classification announces a `PreStx` exactly when the transaction does, whoever the sender. */
  lemma ClassifiedPreStx(parsers: Parsers, tx: Tx, sender: Option<Address>)
    ensures var kind := Classify(parsers, tx, sender);
            Announced(tx) == if kind.Some? && kind.value.PreStx? then Some(kind.value.sender) else None
  {
  }

  /** Passing one transaction: the cache changes exactly where it announces a `PreStx`. */
  lemma StepKeepsKnown(content: Hash -> Tx, chain: Chain, before: Senders, after: Senders, known: set<nat>, h: nat,
                       i: nat)
    requires WellFormed(content, chain) && Located(chain, h, i)
    requires Known(content, chain, before, known, h, i)
    requires var tx := chain[h].txs[i];
             after == if Announced(tx).Some? then before[tx.txid := Seen(Announced(tx).value, h)] else before
    ensures Known(content, chain, after, known, h, i + 1)
  {
    var tx := chain[h].txs[i];
    forall p: nat, j: nat | Located(chain, p, j) && Precedes(p, j, h, i + 1)
      ensures NoNewer(after, p, chain[p].txs[j]) && (p == h || p in known ==> Held(after, p, chain[p].txs[j]))
    {
      if !Precedes(p, j, h, i) {
        assert p == h && j == i;
        assert content(tx.txid) == tx;
      } else {
        assert NoNewer(before, p, chain[p].txs[j]) && (p == h || p in known ==> Held(before, p, chain[p].txs[j]));
      }
    }
  }

  lemma DecodeFirstSenders(parsers: Parsers, h: nat, txs: seq<Tx>, i: nat, senders: Senders)
    requires i < |txs|
    ensures var before := DecodeFirst(parsers, h, txs, i, senders).senders;
            DecodeFirst(parsers, h, txs, i + 1, senders).senders
            == if Announced(txs[i]).Some? then before[txs[i].txid := Seen(Announced(txs[i]).value, h)] else before
  {
    var before := DecodeFirst(parsers, h, txs, i, senders).senders;
    ClassifiedPreStx(parsers, txs[i], CachedSender(txs[i], before));
  }

  lemma {:induction false} DecodeFirstKeepsKnown(
    parsers: Parsers, content: Hash -> Tx, chain: Chain, senders: Senders, known: set<nat>, h: nat, n: nat)
    requires WellFormed(content, chain) && h < |chain| && n <= |chain[h].txs|
    requires Known(content, chain, senders, known, h, 0) && Fresh(senders, h)
    ensures Known(content, chain, DecodeFirst(parsers, h, chain[h].txs, n, senders).senders, known, h, n)
    ensures Fresh(DecodeFirst(parsers, h, chain[h].txs, n, senders).senders, h)
  {
    if n != 0 {
      var txs, i := chain[h].txs, n - 1;
      DecodeFirstKeepsKnown(parsers, content, chain, senders, known, h, i);
      var before := DecodeFirst(parsers, h, txs, i, senders).senders;
      var after := DecodeFirst(parsers, h, txs, n, senders).senders;
      DecodeFirstSenders(parsers, h, txs, i, senders);
      StepKeepsKnown(content, chain, before, after, known, h, i);
    }
  }

  lemma LookupWhileDecoding(
    parsers: Parsers, content: Hash -> Tx, chain: Chain, senders: Senders, known: set<nat>, h: nat, i: nat)
    requires WellFormed(content, chain) && h < |chain| && i < |chain[h].txs|
    requires Known(content, chain, senders, known, h, 0) && Fresh(senders, h) && Covers(known, h)
    ensures CachedSender(chain[h].txs[i], DecodeFirst(parsers, h, chain[h].txs, i, senders).senders)
            == AuthorisedSender(chain, h, i)
  {
    DecodeFirstKeepsKnown(parsers, content, chain, senders, known, h, i);
    LookupIsRescan(content, chain, DecodeFirst(parsers, h, chain[h].txs, i, senders).senders, known, h, i);
  }

  lemma {:induction false} DecodeFirstIsRescan(
    parsers: Parsers, content: Hash -> Tx, chain: Chain, senders: Senders, known: set<nat>, h: nat, n: nat)
    requires WellFormed(content, chain) && h < |chain| && n <= |chain[h].txs|
    requires Known(content, chain, senders, known, h, 0) && Fresh(senders, h) && Covers(known, h)
    ensures DecodeFirst(parsers, h, chain[h].txs, n, senders).operations == RescanFirst(parsers, chain, h, n)
  {
    if n != 0 {
      DecodeFirstIsRescan(parsers, content, chain, senders, known, h, n - 1);
      LookupWhileDecoding(parsers, content, chain, senders, known, h, n - 1);
    }
  }

  /** A retention costs completeness only for the heights it drops. */
  lemma RetainKeepsKnown(content: Hash -> Tx, chain: Chain, senders: Senders, known: set<nat>, h: nat, at: nat)
    requires Known(content, chain, senders, known, h, 0)
    ensures Known(content, chain, Retain(senders, at), RetainHeights(known, at), h, 0)
  {
    var kept := Retain(senders, at);
    forall p: nat, j: nat | Located(chain, p, j) && Precedes(p, j, h, 0)
      ensures NoNewer(kept, p, chain[p].txs[j]) && (p in RetainHeights(known, at) ==> Held(kept, p, chain[p].txs[j]))
    {
      assert NoNewer(senders, p, chain[p].txs[j]) && (p in known ==> Held(senders, p, chain[p].txs[j]));
    }
  }

  lemma RetainCovers(known: set<nat>, h: nat)
    ensures Covers(RetainHeights(known, h), h) <==> Covers(known, h)
  {
    assert forall p: nat :: WindowStart(h) <= p < h ==> (p in RetainHeights(known, h) <==> p in known);
  }

  /** Decoding block `h` keeps the cache in step with the chain, and when the cache was complete over the
      window it decodes what a rescan decodes. */
  lemma DecodeBlockIsRescan(parsers: Parsers, content: Hash -> Tx, chain: Chain, senders: Senders, known: set<nat>,
                            h: nat)
    requires WellFormed(content, chain) && h < |chain|
    requires Known(content, chain, senders, known, h, 0)
    ensures Known(content, chain, DecodeBlock(parsers, h, chain[h], senders).1, RetainHeights(known, h) + {h}, h + 1, 0)
    ensures Covers(known, h) ==> DecodeBlock(parsers, h, chain[h], senders).0 == Rescan(parsers, chain, h)
  {
    var kept, known', n := Retain(senders, h), RetainHeights(known, h), |chain[h].txs|;
    RetainKeepsKnown(content, chain, senders, known, h, h);
    DecodeFirstKeepsKnown(parsers, content, chain, kept, known', h, n);
    RetainCovers(known, h);
    if Covers(known, h) {
      DecodeFirstIsRescan(parsers, content, chain, kept, known', h, n);
    }
    var after := DecodeFirst(parsers, h, chain[h].txs, n, kept).senders;
    assert forall p: nat, j: nat :: Located(chain, p, j) && Precedes(p, j, h + 1, 0) ==> Precedes(p, j, h, n);
    assert Known(content, chain, after, known' + {h}, h + 1, 0);
  }

  // ---------- Agreement of two chains ----------

  ghost predicate Agree(a: Chain, b: Chain, n: nat)
  {
    n <= |a| && n <= |b| && a[..n] == b[..n]
  }

  lemma {:induction false} ScanBlocksPrefix(a: Chain, b: Chain, lo: nat, hi: nat, t: Hash)
    requires Agree(a, b, hi)
    ensures ScanBlocks(a, lo, hi, t) == ScanBlocks(b, lo, hi, t)
  {
    if lo < hi {
      assert a[hi - 1] == a[..hi][hi - 1] == b[..hi][hi - 1] == b[hi - 1];
      assert a[..hi - 1] == a[..hi][..hi - 1] == b[..hi][..hi - 1] == b[..hi - 1];
      ScanBlocksPrefix(a, b, lo, hi - 1, t);
    }
  }

  lemma {:induction false} RescanFirstPrefix(parsers: Parsers, a: Chain, b: Chain, h: nat, n: nat)
    requires Agree(a, b, h + 1) && n <= |a[h].txs| && a[h] == b[h]
    ensures RescanFirst(parsers, a, h, n) == RescanFirst(parsers, b, h, n)
  {
    if n != 0 {
      RescanFirstPrefix(parsers, a, b, h, n - 1);
      assert a[..h] == a[..h + 1][..h] == b[..h + 1][..h] == b[..h];
      var t := Reference(a[h].txs[n - 1]);
      if t.Some? {
        ScanBlocksPrefix(a, b, WindowStart(h), h, t.value);
      }
    }
  }

  /** A rescan reads nothing above the height it is asked for. */
  lemma RescanPrefix(parsers: Parsers, a: Chain, b: Chain, h: nat)
    requires Agree(a, b, h + 1)
    ensures Rescan(parsers, a, h) == Rescan(parsers, b, h)
  {
    assert a[h] == a[..h + 1][h] == b[..h + 1][h] == b[h];
    RescanFirstPrefix(parsers, a, b, h, |a[h].txs|);
  }

  /** A cache in step with one chain is in step with any chain that agrees with it that far. */
  lemma KnownPrefix(content: Hash -> Tx, a: Chain, b: Chain, senders: Senders, known: set<nat>, h: nat)
    requires Agree(a, b, h) && Known(content, a, senders, known, h, 0)
    ensures Known(content, b, senders, known, h, 0)
  {
    forall p: nat, j: nat | Located(b, p, j) && Precedes(p, j, h, 0)
      ensures NoNewer(senders, p, b[p].txs[j]) && (p == h || p in known ==> Held(senders, p, b[p].txs[j]))
    {
      assert b[p] == b[..h][p] == a[..h][p] == a[p];
      assert Located(a, p, j);
    }
  }

  // ---------- The cache in place ----------

  /** `PreStx` outputs available to later blocks, updated as blocks are decoded. */
  class PreStxCache {
    var senders: Senders

    constructor ()
      ensures senders == map[]
    {
      senders := map[];
    }

    method RetainWindow(height: nat)
      modifies this
      ensures senders == Retain(old(senders), height)
    {
      senders := map t | t in senders && SaturatingSub(height, senders[t].height) <= WINDOW :: senders[t];
    }

    method InvalidateFrom(height: nat)
      modifies this
      ensures senders == DropFrom(old(senders), height)
    {
      senders := map t | t in senders && senders[t].height < height :: senders[t];
    }

    /** Decode one block; `raw` is `None` when the bytes do not deserialize. */
    method Decode(parsers: Parsers, height: nat, raw: Option<Block>) returns (r: Option<BitcoinBlock>)
      modifies this
      ensures raw.None? ==> r.None? && senders == Retain(old(senders), height)
      ensures raw.Some? ==>
                var (block, after) := DecodeBlock(parsers, height, raw.value, old(senders));
                r == Some(block) && senders == after
    {
      RetainWindow(height);
      if raw.None? {
        return None;
      }
      var block := raw.value;
      var operations: seq<Operation> := [];
      for i := 0 to |block.txs|
        invariant Decoding(operations, senders)
                  == DecodeFirst(parsers, height, block.txs, i, Retain(old(senders), height))
      {
        var tx := block.txs[i];
        var kind := Classify(parsers, tx, CachedSender(tx, senders));
        if kind.None? {
          continue;
        }
        if kind.value.PreStx? {
          senders := senders[tx.txid := Seen(kind.value.sender, height)];
        }
        operations := operations + [Operation(tx.txid, i, tx.inputs, tx.outputs.value, kind.value)];
      }
      r := Some(BitcoinBlock(height, block.hash, block.time, operations));
    }
  }
}
