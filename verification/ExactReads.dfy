/**
 Exactly which reads of a Bitcoin source are rescans.

 Whether a read has its window depends on the calls made before it and on which blocks answered, never on what
 the blocks hold.  A read that has it is a rescan on every chain; one that lacks it is wrong on some chain.
 */
module ExactReads {
  import opened Prelude
  import opened PreStx
  import opened BitcoinSource

  /** One call on a chain that stays as it is. */
  datatype Call =
    | Ask(hashes: bool, blocks: set<nat>, garbled: set<nat>, height: nat)
    | Rewind(height: nat)

  function On(chain: Chain, call: Call): Event
  {
    match call
    case Ask(hashes, blocks, garbled, height) => Read(Network(chain, hashes, blocks, garbled), height)
    case Rewind(height) => Invalidate(height)
  }

  function Ran(flavour: Flavour, parsers: Parsers, chain: Chain, calls: seq<Call>): Session
  {
    if calls == [] then FRESH else
    var n := |calls| - 1;
    Stepped(flavour, parsers, Ran(flavour, parsers, chain, calls[..n]), On(chain, calls[n]))
  }

  function Answer(flavour: Flavour, parsers: Parsers, chain: Chain, calls: seq<Call>,
                  ask: Call): Result<BitcoinBlock, SourceError>
    requires ask.Ask?
  {
    ReadAt(flavour, parsers, Ran(flavour, parsers, chain, calls).memory, On(chain, ask).net, ask.height).1
  }

  const MUTE: Parsers := Parsers((_, _) => None, (_, _, _, _) => None)

  function Blank(length: nat): Chain { seq(length, _ => Block([], 0, [])) }

  /** Whether a read is ready depends on the calls made and the length of the chain, not on its contents. */
  ghost predicate ReadyAfter(flavour: Flavour, length: nat, calls: seq<Call>, height: nat)
  {
    var s := Ran(flavour, MUTE, Blank(length), calls);
    Ready(s.memory, s.shadow, height)
  }

  lemma {:induction false} RanSound(flavour: Flavour, parsers: Parsers, content: Hash -> Tx, chain: Chain,
                                    calls: seq<Call>)
    requires WellFormed(content, chain)
    ensures var s := Ran(flavour, parsers, chain, calls);
            Sound(parsers, content, s.memory, s.view, s.shadow, s.top) && (s.view == chain || s.view == [])
  {
    if calls != [] {
      var n := |calls| - 1;
      RanSound(flavour, parsers, content, chain, calls[..n]);
      StepSound(flavour, parsers, content, Ran(flavour, parsers, chain, calls[..n]), On(chain, calls[n]));
    }
  }

  /** Two memories that differ at most in what they have decoded. */
  ghost predicate SameShape(a: Memory, b: Memory)
  {
    && a.last == b.last && a.block.Some? == b.block.Some?
    && (a.block.Some? ==> a.block.value.height == b.block.value.height)
  }

  ghost predicate SameAnswers(a: Network, b: Network)
  {
    |a.chain| == |b.chain| && a.hashes == b.hashes && a.blocks == b.blocks && a.garbled == b.garbled
  }

  lemma {:induction false} WalkShape(pa: Parsers, pb: Parsers, na: Network, nb: Network, a: Memory, b: Memory,
                                     sh: Shadow, from: nat, goal: nat)
    requires from <= goal && SameAnswers(na, nb) && SameShape(a, b)
    ensures SameShape(Walk(pa, na, a, from, goal).0, Walk(pb, nb, b, from, goal).0)
    ensures Walk(pa, na, a, from, goal).1.Ok? == Walk(pb, nb, b, from, goal).1.Ok?
    ensures MarkedWalk(na, sh, from, goal) == MarkedWalk(nb, sh, from, goal)
    decreases goal - from
  {
    if Answers(na, from) && from !in na.garbled && from < goal {
      WalkShape(pa, pb, na, nb, Advanced(pa, na, a, from).0, Advanced(pb, nb, b, from).0, Marked(na, sh, from),
                from + 1, goal);
    }
  }

  /** The held block of a source that has met only one chain is on it. */
  ghost predicate HeldIsOn(m: Memory, chain: Chain)
  {
    m.block.Some? ==> m.block.value.height < |chain| && m.block.value.hash == chain[m.block.value.height].hash
  }

  lemma ReadShape(flavour: Flavour, pa: Parsers, pb: Parsers, na: Network, nb: Network, a: Memory, b: Memory,
                  sh: Shadow, height: nat)
    requires SameAnswers(na, nb) && SameShape(a, b) && HeldIsOn(a, na.chain) && HeldIsOn(b, nb.chain)
    ensures SameShape(ReadAt(flavour, pa, a, na, height).0, ReadAt(flavour, pb, b, nb, height).0)
    ensures ReadAt(flavour, pa, a, na, height).1.Ok? == ReadAt(flavour, pb, b, nb, height).1.Ok?
    ensures ReadShadow(a, sh, na, height) == ReadShadow(b, sh, nb, height)
  {
    if LastReadFault(a, na).None? && !(a.block.Some? && a.block.value.height == height) {
      WalkShape(pa, pb, na, nb, Cleared(a, height), Cleared(b, height), StartShadow(a, sh, height),
                FirstHeight(a, height), height);
    }
  }

  lemma {:induction false} RanShape(flavour: Flavour, pa: Parsers, pb: Parsers, ca: Hash -> Tx, cb: Hash -> Tx,
                                    a: Chain, b: Chain, calls: seq<Call>)
    requires |a| == |b| && WellFormed(ca, a) && WellFormed(cb, b)
    ensures var x, y := Ran(flavour, pa, a, calls), Ran(flavour, pb, b, calls);
            SameShape(x.memory, y.memory) && x.shadow == y.shadow && HeldIsOn(x.memory, a) && HeldIsOn(y.memory, b)
  {
    RanSound(flavour, pa, ca, a, calls);
    RanSound(flavour, pb, cb, b, calls);
    if calls != [] {
      var n := |calls| - 1;
      RanShape(flavour, pa, pb, ca, cb, a, b, calls[..n]);
      var x, y := Ran(flavour, pa, a, calls[..n]), Ran(flavour, pb, b, calls[..n]);
      if calls[n].Ask? {
        ReadShape(flavour, pa, pb, On(a, calls[n]).net, On(b, calls[n]).net, x.memory, y.memory, x.shadow,
                  calls[n].height);
      }
    }
  }

  /** A ready read that succeeds is a rescan, whatever the chain. */
  lemma ReadyAnswerIsRescan(flavour: Flavour, parsers: Parsers, content: Hash -> Tx, chain: Chain, calls: seq<Call>,
                            ask: Call)
    requires ask.Ask? && WellFormed(content, chain) && ReadyAfter(flavour, |chain|, calls, ask.height)
    ensures var r := Answer(flavour, parsers, chain, calls, ask);
            r.Ok? ==> ask.height < |chain| && r.value == Rescan(parsers, chain, ask.height)
  {
    RanShape(flavour, MUTE, parsers, content, content, Blank(|chain|), chain, calls);
    RanSound(flavour, parsers, content, chain, calls);
    var s := Ran(flavour, parsers, chain, calls);
    ReadSound(flavour, parsers, content, s.memory, s.view, s.shadow, s.top, On(chain, ask).net, ask.height);
  }

  // A chain that shows up a height missing from the cache.

  /** What a sponsored operation is parsed from. */
  datatype Sample = Sample(opcode: char, data: seq<byte>, outputs: seq<Output>, sender: Address)

  /** The parsers accept the sample. */
  predicate Accepts(parsers: Parsers, w: Sample)
  {
    && w.opcode in {'x', '$', '#', 'v'} && w.outputs != []
    && parsers.sponsored(w.opcode, w.data, w.outputs, w.sender).Some?
  }

  /** The announcement of the sender, and the transaction it authorises. */
  function Announcing(w: Sample): Tx
  {
    Tx([1], Some(Payload('p', [])), Some([Output(0, PoxAddress([], Some(w.sender)))]), [Input([0], 0)])
  }

  function Spending(w: Sample): Tx
  {
    Tx([2], Some(Payload(w.opcode, w.data)), Some(w.outputs), [Input([1], 1)])
  }

  function Content(w: Sample): Hash -> Tx { t => if t == [1] then Announcing(w) else Spending(w) }

  /** A chain whose only transactions are a `PreStx` at one height and the operation it authorises at another. */
  function PairedAt(w: Sample, p: nat, h: nat, length: nat): Chain
  {
    seq(length, x => Block([], 0, if x == p then [Announcing(w)] else if x == h then [Spending(w)] else []))
  }

  /** The transactions of a chain are those two, as far as it reaches. */
  ghost predicate IsPaired(w: Sample, chain: Chain, p: nat, h: nat)
  {
    p < h && forall x :: 0 <= x < |chain| ==>
      chain[x].txs == if x == p then [Announcing(w)] else if x == h then [Spending(w)] else []
  }

  lemma PairedIsWellFormed(w: Sample, chain: Chain, p: nat, h: nat)
    requires IsPaired(w, chain, p, h)
    ensures WellFormed(Content(w), chain)
  {
    forall x: nat, j: nat | Located(chain, x, j)
      ensures j == 0 && (x == p || x == h) && chain[x].txs[j] == if x == p then Announcing(w) else Spending(w)
    {
    }
    if h < |chain| {
      assert Located(chain, p, 0) && Precedes(p, 0, h, 0) && chain[p].txs[0].txid == [1];
      assert SpendsEarlier(chain, h, 0, [1]);
    }
  }

  lemma PairedSender(w: Sample, chain: Chain, p: nat, h: nat)
    requires IsPaired(w, chain, p, h) && WindowStart(h) <= p < h < |chain|
    ensures Located(chain, h, 0) && chain[h].txs == [Spending(w)]
    ensures AuthorisedSender(chain, h, 0) == Some(w.sender)
  {
    assert Located(chain, p, 0) && Located(chain, h, 0);
    ScanBlocksFinds(chain, WindowStart(h), h, [1]);
  }

  /** Within the window, the operation counts. */
  lemma PairedOperation(parsers: Parsers, w: Sample, chain: Chain, p: nat, h: nat)
    requires Accepts(parsers, w) && IsPaired(w, chain, p, h) && WindowStart(h) <= p < h < |chain|
    ensures |Rescan(parsers, chain, h).operations| == 1
  {
    PairedSender(w, chain, p, h);
    assert RescanFirst(parsers, chain, h, 0) == [];
  }

  /** On the paired chain the cache holds the announcement exactly when its height is known, and a block
      decoded without it has no operation. */
  ghost predicate Tracks(sender: Address, m: Memory, sh: Shadow, p: nat, h: nat)
  {
    && m.senders == (if p in sh.known then map[[1] := Seen(sender, p)] else map[])
    && (m.block.Some? && m.block.value.height == h && p !in sh.basis ==> m.block.value.operations == [])
  }

  lemma RetainTracks(sender: Address, known: set<nat>, p: nat, height: nat)
    ensures Retain(if p in known then map[[1] := Seen(sender, p)] else map[], height)
            == if p in RetainHeights(known, height) then map[[1] := Seen(sender, p)] else map[]
  {
  }

  lemma AdvancedTracks(parsers: Parsers, w: Sample, net: Network, m: Memory, sh: Shadow, x: nat, p: nat, h: nat)
    requires Accepts(parsers, w)
    requires IsPaired(w, net.chain, p, h) && Tracks(w.sender, m, sh, p, h)
    ensures Tracks(w.sender, Advanced(parsers, net, m, x).0, Marked(net, sh, x), p, h)
  {
    RetainTracks(w.sender, sh.known, p, x);
    if Answers(net, x) && x !in net.garbled {
      var txs, kept := net.chain[x].txs, Retain(m.senders, x);
      assert DecodeFirst(parsers, x, txs, 0, kept) == Decoding([], kept);
      if x == p {
        assert DecodeFirst(parsers, x, txs, 1, kept).senders == kept[[1] := Seen(w.sender, p)];
      }
    }
  }

  lemma {:induction false} WalkTracks(parsers: Parsers, w: Sample, net: Network, m: Memory, sh: Shadow, from: nat,
                                      goal: nat, p: nat, h: nat)
    requires Accepts(parsers, w)
    requires from <= goal && IsPaired(w, net.chain, p, h) && Tracks(w.sender, m, sh, p, h)
    ensures Tracks(w.sender, Walk(parsers, net, m, from, goal).0, MarkedWalk(net, sh, from, goal), p, h)
    decreases goal - from
  {
    AdvancedTracks(parsers, w, net, m, sh, from, p, h);
    if Answers(net, from) && from !in net.garbled && from < goal {
      WalkTracks(parsers, w, net, Advanced(parsers, net, m, from).0, Marked(net, sh, from), from + 1, goal, p, h);
    }
  }

  lemma StepTracks(flavour: Flavour, parsers: Parsers, w: Sample, s: Session, e: Event, p: nat, h: nat)
    requires Accepts(parsers, w)
    requires (e.Read? ==> IsPaired(w, e.net.chain, p, h)) && Tracks(w.sender, s.memory, s.shadow, p, h)
    ensures var s' := Stepped(flavour, parsers, s, e); Tracks(w.sender, s'.memory, s'.shadow, p, h)
  {
    if e.Read? {
      var m := s.memory;
      if LastReadFault(m, e.net).None? && !(m.block.Some? && m.block.value.height == e.height) {
        WalkTracks(parsers, w, e.net, Cleared(m, e.height), StartShadow(m, s.shadow, e.height),
                   FirstHeight(m, e.height), e.height, p, h);
      }
    }
  }

  lemma {:induction false} RanTracks(flavour: Flavour, parsers: Parsers, w: Sample, chain: Chain, calls: seq<Call>,
                                     p: nat, h: nat)
    requires Accepts(parsers, w)
    requires IsPaired(w, chain, p, h)
    ensures var s := Ran(flavour, parsers, chain, calls); Tracks(w.sender, s.memory, s.shadow, p, h)
  {
    if calls != [] {
      var n := |calls| - 1;
      RanTracks(flavour, parsers, w, chain, calls[..n], p, h);
      StepTracks(flavour, parsers, w, Ran(flavour, parsers, chain, calls[..n]), On(chain, calls[n]), p, h);
    }
  }

  /** A height whose absence makes a read unready. */
  ghost function MissingHeight(m: Memory, sh: Shadow, height: nat): (p: nat)
    requires !Ready(m, sh, height)
    ensures WindowStart(height) <= p < height
    ensures if m.block.Some? && m.block.value.height == height then p !in sh.basis
            else m.last.Some? && p <= m.last.value < height && p !in sh.known
  {
    if m.block.Some? && m.block.value.height == height
    then var p: nat :| WindowStart(height) <= p < height && p !in sh.basis; p
    else var p: nat :| WindowStart(height) <= p < m.last.value + 1 && p !in sh.known; p
  }

  /** A read without a height of its window misses the operation announced there. */
  lemma UnreadyReadsNothing(flavour: Flavour, parsers: Parsers, w: Sample, m: Memory, sh: Shadow, net: Network,
                            height: nat, p: nat)
    requires Accepts(parsers, w)
    requires IsPaired(w, net.chain, p, height) && Tracks(w.sender, m, sh, p, height)
    requires if m.block.Some? && m.block.value.height == height then p !in sh.basis
             else m.last.Some? && p <= m.last.value < height && p !in sh.known
    requires HoldsLast(m)
    ensures var r := ReadAt(flavour, parsers, m, net, height).1; r.Ok? ==> r.value.operations == []
  {
    if LastReadFault(m, net).None? && !(m.block.Some? && m.block.value.height == height) {
      WalkTracks(parsers, w, net, m, sh, m.last.value + 1, height, p, height);
      WalkLands(parsers, net, m, m.last.value + 1, height);
      WalkSucceedsIff(parsers, net, m, m.last.value + 1, height);
      if AnswersAll(net, m.last.value + 1, height) {
        WalkKnows(net, sh, m.last.value + 1, height);
      }
    }
  }

  /** With parsers that accept some operation, an unready read is wrong on some chain, on either source and after any
      calls. */
  lemma UnreadyAnswerLoses(flavour: Flavour, parsers: Parsers, w: Sample, length: nat, calls: seq<Call>, ask: Call)
    returns (chain: Chain)
    requires Accepts(parsers, w)
    requires ask.Ask? && ask.height < length && !ReadyAfter(flavour, length, calls, ask.height)
    ensures WellFormed(Content(w), chain) && |chain| == length
    ensures Answer(flavour, parsers, chain, calls, ask) != Ok(Rescan(parsers, chain, ask.height))
  {
    var blank := Ran(flavour, MUTE, Blank(length), calls);
    var h := ask.height;
    var p := MissingHeight(blank.memory, blank.shadow, h);
    chain := PairedAt(w, p, h, length);
    PairedIsWellFormed(w, chain, p, h);
    RanShape(flavour, MUTE, parsers, Content(w), Content(w), Blank(length), chain, calls);
    RanSound(flavour, parsers, Content(w), chain, calls);
    RanTracks(flavour, parsers, w, chain, calls, p, h);
    var s := Ran(flavour, parsers, chain, calls);
    UnreadyReadsNothing(flavour, parsers, w, s.memory, s.shadow, On(chain, ask).net, h, p);
    PairedOperation(parsers, w, chain, p, h);
  }

  /** After the calls the answer is the rescan, on every chain of that length. */
  ghost predicate AlwaysRescans(flavour: Flavour, parsers: Parsers, length: nat, calls: seq<Call>, ask: Call)
    requires ask.Ask? && ask.height < length
  {
    forall content, chain :: WellFormed(content, chain) && |chain| == length ==>
      Answer(flavour, parsers, chain, calls, ask) == Ok(Rescan(parsers, chain, ask.height))
  }

  lemma ReadyRescans(flavour: Flavour, parsers: Parsers, content: Hash -> Tx, chain: Chain, calls: seq<Call>, ask: Call)
    requires ask.Ask? && ask.height < |chain| && Answer(flavour, MUTE, Blank(|chain|), calls, ask).Ok?
    requires WellFormed(content, chain) && ReadyAfter(flavour, |chain|, calls, ask.height)
    ensures Answer(flavour, parsers, chain, calls, ask) == Ok(Rescan(parsers, chain, ask.height))
  {
    var blank := Blank(|chain|);
    RanShape(flavour, MUTE, parsers, content, content, blank, chain, calls);
    var x, y := Ran(flavour, MUTE, blank, calls), Ran(flavour, parsers, chain, calls);
    ReadShape(flavour, MUTE, parsers, On(blank, ask).net, On(chain, ask).net, x.memory, y.memory, x.shadow, ask.height);
    ReadyAnswerIsRescan(flavour, parsers, content, chain, calls, ask);
  }

  /** After any calls on a chain that stays, the next answer is the rescan on every chain exactly when its
      read is ready. */
  lemma AnswersAreRescansIff(flavour: Flavour, parsers: Parsers, w: Sample, length: nat, calls: seq<Call>, ask: Call)
    requires Accepts(parsers, w)
    requires ask.Ask? && ask.height < length && Answer(flavour, MUTE, Blank(length), calls, ask).Ok?
    ensures ReadyAfter(flavour, length, calls, ask.height) <==> AlwaysRescans(flavour, parsers, length, calls, ask)
  {
    if ReadyAfter(flavour, length, calls, ask.height) {
      forall content, chain | WellFormed(content, chain) && |chain| == length
        ensures Answer(flavour, parsers, chain, calls, ask) == Ok(Rescan(parsers, chain, ask.height))
      {
        ReadyRescans(flavour, parsers, content, chain, calls, ask);
      }
    } else {
      var _ := UnreadyAnswerLoses(flavour, parsers, w, length, calls, ask);
    }
  }

  // ---------- Rewinds and failures ----------

  function Below(n: nat): (heights: set<nat>)
    ensures forall h: nat :: h in heights <==> h < n
  {
    if n == 0 then {} else Below(n - 1) + {n - 1}
  }

  /** A network on which every block answers. */
  function Answering(chain: Chain): Network { Network(chain, true, Below(|chain|), {}) }

  /** A source that has read nothing primes itself from six blocks back and answers what a rescan answers. */
  lemma FreshReadIsRescan(flavour: Flavour, parsers: Parsers, content: Hash -> Tx, chain: Chain, height: nat)
    requires WellFormed(content, chain) && height < |chain|
    ensures ReadAt(flavour, parsers, EMPTY, Answering(chain), height).1 == Ok(Rescan(parsers, chain, height))
  {
    ReadSound(flavour, parsers, content, EMPTY, chain, NOTHING, 0, Answering(chain), height);
    ReadSucceedsIff(flavour, parsers, EMPTY, Answering(chain), height);
  }

  /** The rewind of an RPC source leaves the window of `height` covered: the read starts over, or the walk reads
      the window again, or the cache never dropped it. */
  predicate RewindKeepsWindow(last: nat, rewind: nat, height: nat)
  {
    height < rewind || rewind <= WindowStart(height) || WindowStart(last) <= WindowStart(height)
  }

  /** A source with the window of its last block, rewound to below a fork of any depth, answers the rescan of the
      chain that replaced its own wherever the window is covered. */
  lemma RewindIsExact(parsers: Parsers, content: Hash -> Tx, m: Memory, view: Chain, sh: Shadow, last: nat,
                      chain: Chain, rewind: nat, height: nat)
    requires Sound(parsers, content, m, view, sh, last + 1) && m.last == Some(last)
    requires Holds(sh, WindowStart(last), last + 1)
    requires WellFormed(content, chain) && HashesCommit(view, chain) && Agree(view, chain, rewind)
    requires rewind <= last && height < |chain| && RewindKeepsWindow(last, rewind, height)
    ensures ReadAt(Rpc, parsers, Invalidated(Rpc, m, rewind), Answering(chain), height).1
            == Ok(Rescan(parsers, chain, height))
  {
    var m', sh' := Invalidated(Rpc, m, rewind), Dropped(sh, rewind);
    InvalidatedSound(Rpc, parsers, content, m, view, sh, last + 1, rewind);
    ReadSucceedsIff(Rpc, parsers, m', Answering(chain), height);
    ReadSound(Rpc, parsers, content, m', view, sh', rewind, Answering(chain), height);
  }

  /** A walk that goes on from a settled source leaves every height ready, wherever it stops. */
  lemma {:induction false} WalkOnReady(parsers: Parsers, net: Network, m: Memory, sh: Shadow, goal: nat, height: nat)
    requires HoldsLast(m) && m.block.Some? && m.block.value.height < goal && Settled(m, sh)
    ensures var from := m.block.value.height + 1;
            Ready(Walk(parsers, net, m, from, goal).0, MarkedWalk(net, sh, from, goal), height)
    decreases goal - m.block.value.height
  {
    var from := m.block.value.height + 1;
    if Answers(net, from) && from !in net.garbled {
      var next, sh' := Advanced(parsers, net, m, from).0, Marked(net, sh, from);
      assert Settled(next, sh');
      if from < goal {
        WalkOnReady(parsers, net, next, sh', goal, height);
      }
    }
  }

  /** After a forward read by a settled source, failed or not, any height may be read. */
  lemma ForwardReadKeepsReady(flavour: Flavour, parsers: Parsers, m: Memory, sh: Shadow, net: Network, goal: nat,
                              height: nat)
    requires HoldsLast(m) && m.block.Some? && m.block.value.height < goal && Settled(m, sh)
    requires LastReadFault(m, net).None?
    ensures Ready(ReadAt(flavour, parsers, m, net, goal).0, ReadShadow(m, sh, net, goal), height)
  {
    WalkOnReady(parsers, net, m, sh, goal, height);
  }

  function AskBelow(n: nat, height: nat): Call { Ask(true, Below(n), {}, height) }

  /** A read that stops after `reached`: the next block does not answer, or does not deserialize. */
  function AskUpTo(length: nat, reached: nat, goal: nat, garbled: bool): Call
  {
    if garbled then Ask(true, Below(length), {reached + 1}, goal) else AskBelow(reached + 1, goal)
  }

  /** What the first read of a source leaves where it stops. */
  lemma FirstRead(flavour: Flavour, length: nat, goal: nat, reached: nat, garbled: bool)
    requires WindowStart(goal) <= reached <= goal < length
    ensures var s := Ran(flavour, MUTE, Blank(length), [AskUpTo(length, reached, goal, garbled)]);
            && s.memory.last == Some(reached) && s.memory.block.Some? && s.memory.block.value.height == reached
            && s.memory.block.value.hash == []
            && (forall p: nat :: p < reached ==>
                  (p in s.shadow.basis <==> WindowStart(reached) <= p && WindowStart(goal) <= p))
            && (forall p: nat :: p <= reached ==>
                  (p in s.shadow.known <==>
                    && WindowStart(goal) <= p
                    && WindowStart(if reached < goal && garbled then reached + 1 else reached) <= p))
  {
    var ask := AskUpTo(length, reached, goal, garbled);
    var net, calls := On(Blank(length), ask).net, [ask];
    assert calls[..0] == [];
    assert Ran(flavour, MUTE, Blank(length), calls[..0]) == FRESH;
    WalkStops(MUTE, net, EMPTY, NOTHING, WindowStart(goal), goal, reached);
    WalkKnows(net, NOTHING, WindowStart(goal), reached);
  }

  lemma {:induction false} WalkStops(parsers: Parsers, net: Network, m: Memory, sh: Shadow, from: nat, goal: nat,
                                     reached: nat)
    requires from <= reached <= goal && AnswersAll(net, from, reached)
    requires reached < goal ==> !Answers(net, reached + 1) || reached + 1 in net.garbled
    ensures var m' := Walk(parsers, net, m, from, goal).0;
            && m'.last == Some(reached) && m'.block.Some?
            && m'.block.value.height == reached < |net.chain| && m'.block.value.hash == net.chain[reached].hash
    ensures var at := MarkedWalk(net, sh, from, reached);
            MarkedWalk(net, sh, from, goal)
            == if reached < goal && Answers(net, reached + 1) then at.(known := RetainHeights(at.known, reached + 1))
               else at
    decreases goal - from
  {
    if from < reached {
      WalkStops(parsers, net, Advanced(parsers, net, m, from).0, Marked(net, sh, from), from + 1, goal, reached);
    }
  }

  lemma RunOfTwo(flavour: Flavour, parsers: Parsers, chain: Chain, a: Call, b: Call)
    ensures Ran(flavour, parsers, chain, [a, b])
            == Stepped(flavour, parsers, Ran(flavour, parsers, chain, [a]), On(chain, b))
  {
    assert [a, b][..1] == [a];
  }

  /** For an RPC source that has read one block, the condition is exact. */
  lemma RewindExactIff(parsers: Parsers, w: Sample, length: nat, last: nat, rewind: nat, height: nat)
    requires Accepts(parsers, w) && rewind <= last < length && height < length
    ensures RewindKeepsWindow(last, rewind, height)
            <==> AlwaysRescans(Rpc, parsers, length, [AskBelow(last + 1, last), Rewind(rewind)],
                               AskBelow(length, height))
  {
    var calls, blank := [AskBelow(last + 1, last), Rewind(rewind)], Blank(length);
    FirstRead(Rpc, length, last, last, false);
    RunOfTwo(Rpc, MUTE, blank, calls[0], calls[1]);
    var s := Ran(Rpc, MUTE, blank, calls);
    ReadSucceedsIff(Rpc, MUTE, s.memory, On(blank, AskBelow(length, height)).net, height);
    assert ReadyAfter(Rpc, length, calls, height) <==> RewindKeepsWindow(last, rewind, height) by {
      assert rewind > 0 && rewind <= height && !RewindKeepsWindow(last, rewind, height) ==>
          WindowStart(height) < rewind && WindowStart(height) !in s.shadow.known;
    }
    AnswersAreRescansIff(Rpc, parsers, w, length, calls, AskBelow(length, height));
  }

  /** The first read of a source stopped at `reached`, and was to go to `goal`: it began far enough back for
      `height` too, or `height` lies behind where it stopped. */
  predicate FailureKeepsWindow(goal: nat, reached: nat, height: nat)
  {
    height < reached || WindowStart(goal) <= WindowStart(height)
  }

  /** For a source whose first read failed part way, for either reason, and is not repeated, the condition is exact. */
  lemma FailureExactIff(flavour: Flavour, parsers: Parsers, w: Sample, length: nat, goal: nat, reached: nat,
                        garbled: bool, height: nat)
    requires Accepts(parsers, w) && WindowStart(goal) <= reached < goal < length && height < length
    ensures FailureKeepsWindow(goal, reached, height)
            <==> AlwaysRescans(flavour, parsers, length, [AskUpTo(length, reached, goal, garbled)],
                               AskBelow(length, height))
  {
    var calls := [AskUpTo(length, reached, goal, garbled)];
    FirstRead(flavour, length, goal, reached, garbled);
    var s := Ran(flavour, MUTE, Blank(length), calls);
    ReadSucceedsIff(flavour, MUTE, s.memory, On(Blank(length), AskBelow(length, height)).net, height);
    assert ReadyAfter(flavour, length, calls, height) <==> FailureKeepsWindow(goal, reached, height) by {
      assert reached < height && !FailureKeepsWindow(goal, reached, height) ==>
          WindowStart(height) <= reached && WindowStart(height) !in s.shadow.known;
      assert reached == height && !FailureKeepsWindow(goal, reached, height) ==>
          WindowStart(height) < height && WindowStart(height) !in s.shadow.basis;
    }
    AnswersAreRescansIff(flavour, parsers, w, length, calls, AskBelow(length, height));
  }
}
