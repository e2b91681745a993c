/**
 The incremental Bitcoin sources.

 A source remembers the `PreStx` cache, the last height it decoded and the last block it decoded, and walks
 forward from there.  The REST and RPC sources share the walk and differ in how they rewind.  The theorem is
 about whole runs: a read that succeeds, and has its window, answers what a rescan of the current chain answers.
 */
module BitcoinSource {
  import opened Prelude
  import opened PreStx

  datatype Flavour = Rest | Rpc

  /** Everything a source remembers between calls. */
  datatype Memory = Memory(senders: Senders, last: Option<nat>, block: Option<BitcoinBlock>)

  /** What Bitcoin answers during one call: its chain, whether the hash query is answered, which heights'
      blocks are, and which of those answers do not deserialize. */
  datatype Network = Network(chain: Chain, hashes: bool, blocks: set<nat>, garbled: set<nat>)

  datatype SourceError = Unreachable | InvalidBlock | Reorganized(height: nat)

  const EMPTY: Memory := Memory(map[], None, None)

  // ---------- One call, as a function of the memory ----------

  function Rewound(flavour: Flavour, last: Option<nat>, height: nat): Option<nat>
  {
    if last.None? || last.value < height then last
    else if flavour.Rest? || height == 0 then None
    else Some(height - 1)
  }

  function Invalidated(flavour: Flavour, m: Memory, height: nat): Memory
  {
    Memory(
      DropFrom(m.senders, height),
      Rewound(flavour, m.last, height),
      if m.block.Some? && m.block.value.height < height then m.block else None)
  }

  function HashAt(net: Network, height: nat): Option<Hash>
  {
    if net.hashes && height < |net.chain| then Some(net.chain[height].hash) else None
  }

  /** The failure a call reports before it reads anything, if any. */
  function LastReadFault(m: Memory, net: Network): Option<SourceError>
  {
    if m.block.None? then None else
    var hash := HashAt(net, m.block.value.height);
    if hash.None? then Some(Unreachable)
    else if hash.value == m.block.value.hash then None
    else Some(Reorganized(m.block.value.height))
  }

  predicate Answers(net: Network, height: nat) { height < |net.chain| && height in net.blocks }

  /** Decode one more height. */
  function Advanced(parsers: Parsers, net: Network, m: Memory, height: nat): (Memory, Option<SourceError>)
  {
    if !Answers(net, height) then (m, Some(Unreachable))
    else if height in net.garbled then (m.(senders := Retain(m.senders, height)), Some(InvalidBlock))
    else
      var (block, senders) := DecodeBlock(parsers, height, net.chain[height], m.senders);
      (Memory(senders, Some(height), Some(block)), None)
  }

  function Walk(parsers: Parsers, net: Network, m: Memory, from: nat, goal: nat)
    : (Memory, Result<BitcoinBlock, SourceError>)
    requires from <= goal
    decreases goal - from
  {
    var (next, fault) := Advanced(parsers, net, m, from);
    if fault.Some? then (next, Err(fault.value))
    else if from == goal then (next, Ok(next.block.value))
    else Walk(parsers, net, next, from + 1, goal)
  }

  /** A read behind the last height starts over with an empty cache. */
  function Cleared(m: Memory, height: nat): Memory
  {
    if m.last.Some? && height < m.last.value then m.(senders := map[]) else m
  }

  function FirstHeight(m: Memory, height: nat): nat
  {
    if m.last.Some? && m.last.value < height then m.last.value + 1 else WindowStart(height)
  }

  function ReadAt(flavour: Flavour, parsers: Parsers, m: Memory, net: Network, height: nat)
    : (Memory, Result<BitcoinBlock, SourceError>)
  {
    var fault := LastReadFault(m, net);
    if fault.Some? then
      (if fault.value.Reorganized? then Invalidated(flavour, m, fault.value.height) else m, Err(fault.value))
    else if m.block.Some? && m.block.value.height == height then (m, Ok(m.block.value))
    else Walk(parsers, net, Cleared(m, height), FirstHeight(m, height), height)
  }

  // ---------- The source in place ----------

  class Source {
    const flavour: Flavour
    const parsers: Parsers
    var preStx: PreStxCache
    var lastHeight: Option<nat>
    var lastBlock: Option<BitcoinBlock>

    ghost function Contents(): Memory
      reads this, preStx
    {
      Memory(preStx.senders, lastHeight, lastBlock)
    }

    constructor (flavour: Flavour, parsers: Parsers)
      ensures this.flavour == flavour && this.parsers == parsers
      ensures Contents() == EMPTY && fresh(preStx)
    {
      this.flavour := flavour;
      this.parsers := parsers;
      preStx := new PreStxCache();
      lastHeight, lastBlock := None, None;
    }

    method InvalidateFrom(height: nat)
      modifies this, preStx
      ensures preStx == old(preStx)
      ensures Contents() == Invalidated(flavour, old(Contents()), height)
    {
      preStx.InvalidateFrom(height);
      if lastBlock.Some? && height <= lastBlock.value.height {
        lastBlock := None;
      }
      if lastHeight.Some? && height <= lastHeight.value {
        match flavour
        case Rest => lastHeight := None;
        case Rpc => lastHeight := if height == 0 then None else Some(height - 1);
      }
    }

    method CheckLastRead(net: Network) returns (fault: Option<SourceError>)
      modifies this, preStx
      ensures preStx == old(preStx)
      ensures fault == LastReadFault(old(Contents()), net)
      ensures Contents() == if fault.Some? && fault.value.Reorganized?
                            then Invalidated(flavour, old(Contents()), fault.value.height) else old(Contents())
    {
      if lastBlock.None? {
        return None;
      }
      var height := lastBlock.value.height;
      var hash := HashAt(net, height);
      if hash.None? {
        return Some(Unreachable);
      }
      if hash.value == lastBlock.value.hash {
        return None;
      }
      InvalidateFrom(height);
      return Some(Reorganized(height));
    }

    method BlockAt(net: Network, height: nat) returns (r: Result<BitcoinBlock, SourceError>)
      modifies this, preStx
      ensures preStx == old(preStx) || fresh(preStx)
      ensures (Contents(), r) == ReadAt(flavour, parsers, old(Contents()), net, height)
    {
      var fault := CheckLastRead(net);
      if fault.Some? {
        return Err(fault.value);
      }
      if lastBlock.Some? && lastBlock.value.height == height {
        return Ok(lastBlock.value);
      }
      if lastHeight.Some? && height < lastHeight.value {
        preStx := new PreStxCache();
      }
      var first := if lastHeight.Some? && lastHeight.value < height then lastHeight.value + 1 else WindowStart(height);
      ghost var start := Contents();
      assert start == Cleared(old(Contents()), height);
      var current := first;
      while current <= height
        invariant first <= current <= height + 1
        invariant preStx == old(preStx) || fresh(preStx)
        invariant current <= height ==>
                    Walk(parsers, net, start, first, height) == Walk(parsers, net, Contents(), current, height)
        invariant current == height + 1 ==>
                    lastBlock.Some? && Walk(parsers, net, start, first, height) == (Contents(), Ok(lastBlock.value))
      {
        if !Answers(net, current) {
          return Err(Unreachable);
        }
        var block := preStx.Decode(parsers, current, if current in net.garbled then None else Some(net.chain[current]));
        if block.None? {
          return Err(InvalidBlock);
        }
        lastHeight, lastBlock := Some(current), block;
        current := current + 1;
      }
      return Ok(lastBlock.value);
    }
  }

  // ---------- What the cache is complete for ----------

  /** The heights whose announcements the cache holds in full, and those it held when the last block was
      decoded. */
  datatype Shadow = Shadow(known: set<nat>, basis: set<nat>)

  const NOTHING: Shadow := Shadow({}, {})

  function Dropped(sh: Shadow, height: nat): Shadow
  {
    sh.(known := set p | p in sh.known && p < height)
  }

  function Marked(net: Network, sh: Shadow, height: nat): Shadow
  {
    if !Answers(net, height) then sh
    else
      var kept := RetainHeights(sh.known, height);
      if height in net.garbled then sh.(known := kept) else Shadow(kept + {height}, kept)
  }

  function MarkedWalk(net: Network, sh: Shadow, from: nat, goal: nat): Shadow
    requires from <= goal
    decreases goal - from
  {
    var next := Marked(net, sh, from);
    if !Answers(net, from) || from in net.garbled || from == goal then next else MarkedWalk(net, next, from + 1, goal)
  }

  function StartShadow(m: Memory, sh: Shadow, height: nat): Shadow
  {
    if m.last.Some? && height < m.last.value then sh.(known := {}) else sh
  }

  function ReadShadow(m: Memory, sh: Shadow, net: Network, height: nat): Shadow
  {
    var fault := LastReadFault(m, net);
    if fault.Some? then (if fault.value.Reorganized? then Dropped(sh, fault.value.height) else sh)
    else if m.block.Some? && m.block.value.height == height then sh
    else MarkedWalk(net, StartShadow(m, sh, height), FirstHeight(m, height), height)
  }

  /** A read of this height has its whole window: behind it in the cache, or ahead of it in the walk. */
  ghost predicate Ready(m: Memory, sh: Shadow, height: nat)
  {
    if m.block.Some? && m.block.value.height == height then Covers(sh.basis, height)
    else if m.last.Some? && m.last.value < height then Holds(sh, WindowStart(height), m.last.value + 1)
    else true
  }

  ghost predicate Holds(sh: Shadow, lo: nat, hi: nat)
  {
    forall p: nat :: lo <= p < hi ==> p in sh.known
  }

  // ---------- The memory against the chain it was read from ----------

  /** A block hash commits to the block and every ancestor. */
  ghost predicate HashesCommit(a: Chain, b: Chain)
  {
    forall h: nat :: h < |a| && h < |b| && a[h].hash == b[h].hash ==> Agree(a, b, h + 1)
  }

  /** What is remembered lies below a height. */
  ghost predicate NothingAbove(senders: Senders, known: set<nat>, top: nat)
  {
    (forall t :: t in senders ==> senders[t].height < top) && forall p :: p in known ==> p < top
  }

  /** The memory is about the first `top` blocks of `view`, and complete as its shadow says. */
  ghost predicate Sound(parsers: Parsers, content: Hash -> Tx, m: Memory, view: Chain, sh: Shadow, top: nat)
  {
    && WellFormed(content, view) && top <= |view|
    && Known(content, view, m.senders, sh.known, top, 0)
    && (m.last.Some? ==> top == m.last.value + 1)
    && (m.block.None? ==> NothingAbove(m.senders, sh.known, top))
    && (m.block.Some? ==> Remembers(parsers, m, view, sh))
  }

  ghost predicate Remembers(parsers: Parsers, m: Memory, view: Chain, sh: Shadow)
    requires m.block.Some?
  {
    var h := m.block.value.height;
    && m.last == Some(h) && h < |view| && m.block.value.hash == view[h].hash
    && (Covers(sh.basis, h) ==> m.block.value == Rescan(parsers, view, h))
  }

  lemma SoundElsewhere(parsers: Parsers, content: Hash -> Tx, m: Memory, a: Chain, b: Chain, sh: Shadow, top: nat)
    requires Sound(parsers, content, m, a, sh, top) && WellFormed(content, b) && Agree(a, b, top)
    ensures Sound(parsers, content, m, b, sh, top)
  {
    KnownPrefix(content, a, b, m.senders, sh.known, top);
    if m.block.Some? {
      var h := m.block.value.height;
      RescanPrefix(parsers, a, b, h);
      assert a[h] == a[..top][h] == b[..top][h] == b[h];
    }
  }

  /** A rewind costs what lies from its height up, and nothing below. */
  lemma InvalidatedSound(flavour: Flavour, parsers: Parsers, content: Hash -> Tx, m: Memory, view: Chain, sh: Shadow,
                         top: nat, height: nat)
    requires Sound(parsers, content, m, view, sh, top)
    ensures Sound(parsers, content, Invalidated(flavour, m, height), view, Dropped(sh, height), Min(top, height))
  {
    var m', top' := Invalidated(flavour, m, height), Min(top, height);
    forall p: nat, j: nat | Located(view, p, j) && Precedes(p, j, top', 0)
      ensures NoNewer(m'.senders, p, view[p].txs[j]) && (p in sh.known ==> Held(m'.senders, p, view[p].txs[j]))
    {
      assert Precedes(p, j, top, 0);
      assert NoNewer(m.senders, p, view[p].txs[j]) && (p in sh.known ==> Held(m.senders, p, view[p].txs[j]));
    }
  }

  /** A priming walk may start at any height when nothing remembered lies above the chain that is known. */
  lemma PrimedKnown(content: Hash -> Tx, chain: Chain, senders: Senders, known: set<nat>, top: nat, from: nat)
    requires Known(content, chain, senders, known, top, 0)
    requires from <= top || NothingAbove(senders, known, top)
    ensures Known(content, chain, senders, known, from, 0)
  {
    forall p: nat, j: nat | Located(chain, p, j) && Precedes(p, j, from, 0)
      ensures NoNewer(senders, p, chain[p].txs[j]) && (p in known ==> Held(senders, p, chain[p].txs[j]))
    {
      if p < top {
        assert Precedes(p, j, top, 0);
        assert NoNewer(senders, p, chain[p].txs[j]) && (p in known ==> Held(senders, p, chain[p].txs[j]));
      }
    }
  }

  lemma AdvancedSound(parsers: Parsers, content: Hash -> Tx, net: Network, m: Memory, sh: Shadow, height: nat)
    requires WellFormed(content, net.chain) && Known(content, net.chain, m.senders, sh.known, height, 0)
    requires Answers(net, height) && height !in net.garbled
    ensures Sound(parsers, content, Advanced(parsers, net, m, height).0, net.chain, Marked(net, sh, height), height + 1)
  {
    DecodeBlockIsRescan(parsers, content, net.chain, m.senders, sh.known, height);
    RetainCovers(sh.known, height);
  }

  lemma RetainedSound(parsers: Parsers, content: Hash -> Tx, m: Memory, view: Chain, sh: Shadow, top: nat, height: nat)
    requires Sound(parsers, content, m, view, sh, top)
    ensures Sound(parsers, content, m.(senders := Retain(m.senders, height)), view,
                  sh.(known := RetainHeights(sh.known, height)), top)
  {
    RetainKeepsKnown(content, view, m.senders, sh.known, top, height);
  }

  /** A walk stands on the last block it decoded, and its memory is about the chain up to there. */
  ghost predicate Standing(parsers: Parsers, content: Hash -> Tx, chain: Chain, m: Memory, sh: Shadow, goal: nat)
  {
    m.block.Some? && m.last.Some? && m.last.value <= goal && Sound(parsers, content, m, chain, sh, m.last.value + 1)
  }

  /** A walk that goes on from a block it has just decoded. */
  lemma {:induction false} WalkOnSound(parsers: Parsers, content: Hash -> Tx, net: Network, m: Memory, sh: Shadow,
                                       from: nat, goal: nat)
    requires from <= goal && m.block.Some? && Sound(parsers, content, m, net.chain, sh, from)
    ensures var (m', r) := Walk(parsers, net, m, from, goal);
            && Standing(parsers, content, net.chain, m', MarkedWalk(net, sh, from, goal), goal)
            && (r.Ok? ==> m'.last == Some(goal) && r.value == m'.block.value)
            && (r.Err? ==> !r.error.Reorganized?)
    decreases goal - from
  {
    if Answers(net, from) && from in net.garbled {
      RetainedSound(parsers, content, m, net.chain, sh, from, from);
    } else if Answers(net, from) {
      AdvancedSound(parsers, content, net, m, sh, from);
      if from < goal {
        WalkOnSound(parsers, content, net, Advanced(parsers, net, m, from).0, Marked(net, sh, from), from + 1, goal);
      }
    }
  }

  /** A walk that decodes at least one block. */
  lemma WalkSound(parsers: Parsers, content: Hash -> Tx, net: Network, m: Memory, sh: Shadow, from: nat, goal: nat)
    requires from <= goal && WellFormed(content, net.chain) && Known(content, net.chain, m.senders, sh.known, from, 0)
    requires Answers(net, from) && from !in net.garbled
    ensures var (m', r) := Walk(parsers, net, m, from, goal);
            && Standing(parsers, content, net.chain, m', MarkedWalk(net, sh, from, goal), goal)
            && (r.Ok? ==> m'.last == Some(goal) && r.value == m'.block.value)
            && (r.Err? ==> !r.error.Reorganized?)
  {
    AdvancedSound(parsers, content, net, m, sh, from);
    if from < goal {
      WalkOnSound(parsers, content, net, Advanced(parsers, net, m, from).0, Marked(net, sh, from), from + 1, goal);
    }
  }

  /** Every height of a walk answers with a block that deserializes. */
  ghost predicate AnswersAll(net: Network, from: nat, goal: nat)
  {
    forall h: nat :: from <= h <= goal ==> Answers(net, h) && h !in net.garbled
  }

  lemma {:induction false} WalkSucceedsIff(parsers: Parsers, net: Network, m: Memory, from: nat, goal: nat)
    requires from <= goal
    ensures Walk(parsers, net, m, from, goal).1.Ok? <==> AnswersAll(net, from, goal)
    decreases goal - from
  {
    if Answers(net, from) && from !in net.garbled && from < goal {
      WalkSucceedsIff(parsers, net, Advanced(parsers, net, m, from).0, from + 1, goal);
      assert AnswersAll(net, from, goal) <==> AnswersAll(net, from + 1, goal);
    }
  }

  /** What a walk that reaches its goal knew when it decoded it, and what it leaves known. */
  lemma {:induction false} WalkKnows(net: Network, sh: Shadow, from: nat, goal: nat)
    requires from <= goal && AnswersAll(net, from, goal)
    ensures var after := MarkedWalk(net, sh, from, goal);
            && (forall p: nat :: p < goal ==>
                  (p in after.basis <==> WindowStart(goal) <= p && (p in sh.known || from <= p)))
            && (forall p: nat :: p <= goal ==>
                  (p in after.known <==> WindowStart(goal) <= p && (p in sh.known || from <= p)))
    decreases goal - from
  {
    if from < goal {
      WalkKnows(net, Marked(net, sh, from), from + 1, goal);
    }
  }

  // ---------- One read ----------

  /** Which chain, and how much of it, the memory is about after a read. */
  function ViewAfter(view: Chain, top: nat, m: Memory, net: Network, m': Memory): (Chain, nat)
  {
    var fault := LastReadFault(m, net);
    if fault.Some? then (view, if fault.value.Reorganized? then fault.value.height else top)
    else (net.chain, if m'.last.Some? then m'.last.value + 1 else top)
  }

  /** The cache a walk starts from is about the chain below it. */
  lemma StartKnown(parsers: Parsers, content: Hash -> Tx, m: Memory, sh: Shadow, top: nat, chain: Chain, height: nat)
    requires Sound(parsers, content, m, chain, sh, top)
    requires m.block.Some? ==> m.block.value.height != height
    ensures Known(content, chain, Cleared(m, height).senders, StartShadow(m, sh, height).known,
                  FirstHeight(m, height), 0)
  {
    if !(m.last.Some? && height < m.last.value) {
      PrimedKnown(content, chain, m.senders, sh.known, top, FirstHeight(m, height));
    }
  }

  /** A read that passed the check of the last block and does not return it. */
  lemma WalkingReadSound(parsers: Parsers, content: Hash -> Tx, m: Memory, sh: Shadow, top: nat, net: Network,
                         height: nat)
    requires Sound(parsers, content, m, net.chain, sh, top)
    requires m.block.Some? ==> m.block.value.height != height
    ensures var (m', r) := Walk(parsers, net, Cleared(m, height), FirstHeight(m, height), height);
            var sh' := MarkedWalk(net, StartShadow(m, sh, height), FirstHeight(m, height), height);
            && Sound(parsers, content, m', net.chain, sh', if m'.last.Some? then m'.last.value + 1 else top)
            && (r.Ok? ==> m'.last == Some(height) && m'.block == Some(r.value))
            && (r.Err? ==> !r.error.Reorganized?)
  {
    var start, from, sh0 := Cleared(m, height), FirstHeight(m, height), StartShadow(m, sh, height);
    StartKnown(parsers, content, m, sh, top, net.chain, height);
    if Answers(net, from) && from !in net.garbled {
      WalkSound(parsers, content, net, start, sh0, from, height);
    } else {
      assert Sound(parsers, content, start, net.chain, sh0, top);
      RetainedSound(parsers, content, start, net.chain, sh0, top, from);
    }
  }

  /** The window of a read that is ready is complete by the time its block is decoded. */
  lemma ReadyCovers(parsers: Parsers, m: Memory, sh: Shadow, net: Network, height: nat)
    requires m.block.Some? ==> m.block.value.height != height
    requires Ready(m, sh, height) && AnswersAll(net, FirstHeight(m, height), height)
    ensures Covers(MarkedWalk(net, StartShadow(m, sh, height), FirstHeight(m, height), height).basis, height)
  {
    WalkKnows(net, StartShadow(m, sh, height), FirstHeight(m, height), height);
  }

  lemma WalkingReadIsRescan(parsers: Parsers, content: Hash -> Tx, m: Memory, sh: Shadow, top: nat, net: Network,
                            height: nat)
    requires Sound(parsers, content, m, net.chain, sh, top) && Ready(m, sh, height)
    requires m.block.Some? ==> m.block.value.height != height
    ensures var r := Walk(parsers, net, Cleared(m, height), FirstHeight(m, height), height).1;
            r.Ok? ==> height < |net.chain| && r.value == Rescan(parsers, net.chain, height)
  {
    WalkingReadSound(parsers, content, m, sh, top, net, height);
    WalkSucceedsIff(parsers, net, Cleared(m, height), FirstHeight(m, height), height);
    if AnswersAll(net, FirstHeight(m, height), height) {
      ReadyCovers(parsers, m, sh, net, height);
    }
  }

  /** One read of any kind keeps the memory sound and, when it was ready and succeeds, answers what a rescan
      answers.  With no block to check against, the blocks remembered have to be on the chain still. */
  lemma ReadSound(flavour: Flavour, parsers: Parsers, content: Hash -> Tx, m: Memory, view: Chain, sh: Shadow,
                  top: nat, net: Network, height: nat)
    requires Sound(parsers, content, m, view, sh, top)
    requires WellFormed(content, net.chain) && HashesCommit(view, net.chain)
    requires m.block.None? ==> Agree(view, net.chain, top)
    ensures var (m', r) := ReadAt(flavour, parsers, m, net, height);
            var (view', top') := ViewAfter(view, top, m, net, m');
            && Sound(parsers, content, m', view', ReadShadow(m, sh, net, height), top')
            && (r.Ok? && Ready(m, sh, height) ==> height < |net.chain| && r.value == Rescan(parsers, net.chain, height))
  {
    var fault := LastReadFault(m, net);
    if fault.Some? {
      if fault.value.Reorganized? {
        InvalidatedSound(flavour, parsers, content, m, view, sh, top, fault.value.height);
      }
    } else {
      SoundElsewhere(parsers, content, m, view, net.chain, sh, top);
      if m.block.None? || m.block.value.height != height {
        WalkingReadSound(parsers, content, m, sh, top, net, height);
        if Ready(m, sh, height) {
          WalkingReadIsRescan(parsers, content, m, sh, top, net, height);
        }
      }
    }
  }

  /** A read whose check passes succeeds exactly when it repeats the last height or every block of its walk
      answers. */
  lemma ReadSucceedsIff(flavour: Flavour, parsers: Parsers, m: Memory, net: Network, height: nat)
    requires LastReadFault(m, net).None?
    ensures ReadAt(flavour, parsers, m, net, height).1.Ok?
            <==> (m.block.Some? && m.block.value.height == height) || AnswersAll(net, FirstHeight(m, height), height)
  {
    WalkSucceedsIff(parsers, net, Cleared(m, height), FirstHeight(m, height), height);
  }

  ghost predicate ReadsAt(net: Network, y: nat) { y < |net.chain| && y in net.blocks && y !in net.garbled }

  /** A walk from a height fails at this one: it and all before it were asked for, and it is the first that is not
      answered, or whose answer does not deserialize. */
  ghost predicate FailsAt(net: Network, from: nat, goal: nat, x: nat, error: SourceError)
  {
    && from <= x <= goal
    && (forall y: nat :: from <= y < x ==> ReadsAt(net, y))
    && if x < |net.chain| && x in net.blocks then x in net.garbled && error == InvalidBlock
       else error == Unreachable
  }

  lemma {:induction false} WalkFails(parsers: Parsers, net: Network, m: Memory, from: nat, goal: nat)
    requires from <= goal && Walk(parsers, net, m, from, goal).1.Err?
    ensures exists x: nat :: FailsAt(net, from, goal, x, Walk(parsers, net, m, from, goal).1.error)
    decreases goal - from
  {
    var r := Walk(parsers, net, m, from, goal).1;
    if Answers(net, from) && from !in net.garbled {
      WalkFails(parsers, net, Advanced(parsers, net, m, from).0, from + 1, goal);
      var x: nat :| FailsAt(net, from + 1, goal, x, r.error);
      FailsLater(net, from, goal, x, r.error);
    } else {
      assert FailsAt(net, from, goal, from, r.error);
    }
  }

  lemma FailsLater(net: Network, from: nat, goal: nat, x: nat, error: SourceError)
    requires Answers(net, from) && from !in net.garbled && FailsAt(net, from + 1, goal, x, error)
    ensures FailsAt(net, from, goal, x, error)
  {
    forall y: nat | from <= y < x
      ensures ReadsAt(net, y)
    {
    }
  }

  /** What a read fails with: the hash of the block it holds is not to be had, or is another one by now, or its walk
      fails.  The walk starts after the last height if that is behind, and six blocks back otherwise. */
  lemma ReadFails(flavour: Flavour, parsers: Parsers, m: Memory, net: Network, height: nat)
    ensures var (m', r) := ReadAt(flavour, parsers, m, net, height);
            if m.block.Some? && !(net.hashes && m.block.value.height < |net.chain|) then
              m' == m && r == Err(Unreachable)
            else if m.block.Some? && net.chain[m.block.value.height].hash != m.block.value.hash then
              m' == Invalidated(flavour, m, m.block.value.height) && r == Err(Reorganized(m.block.value.height))
            else if m.block.Some? && m.block.value.height == height then m' == m && r == Ok(m.block.value)
            else
              var from := if m.last.Some? && m.last.value < height then m.last.value + 1
                          else if height < 6 then 0 else height - 6;
              r.Err? ==> exists x: nat :: FailsAt(net, from, height, x, r.error)
  {
    if LastReadFault(m, net).None? && !(m.block.Some? && m.block.value.height == height) {
      if ReadAt(flavour, parsers, m, net, height).1.Err? {
        WalkFails(parsers, net, Cleared(m, height), FirstHeight(m, height), height);
      }
    }
  }

  // ---------- Whole runs ----------

  datatype Event = Read(net: Network, height: nat) | Invalidate(height: nat)

  /** A source in use: its memory, the chain that memory is about up to height `top`, and its shadow. */
  datatype Session = Session(memory: Memory, view: Chain, top: nat, shadow: Shadow)

  const FRESH: Session := Session(EMPTY, [], 0, NOTHING)

  function Stepped(flavour: Flavour, parsers: Parsers, s: Session, e: Event): Session
  {
    match e
    case Read(net, height) =>
      var m := ReadAt(flavour, parsers, s.memory, net, height).0;
      var (view, top) := ViewAfter(s.view, s.top, s.memory, net, m);
      Session(m, view, top, ReadShadow(s.memory, s.shadow, net, height))
    case Invalidate(height) =>
      Session(Invalidated(flavour, s.memory, height), s.view, Min(s.top, height), Dropped(s.shadow, height))
  }

  function Replayed(flavour: Flavour, parsers: Parsers, events: seq<Event>): Session
  {
    if events == [] then FRESH else
    Stepped(flavour, parsers, Replayed(flavour, parsers, events[..|events| - 1]), events[|events| - 1])
  }

  /** What the caller owes when the chain moves: while the source holds no block to check the chain against
      (it is new, or was just rewound), the blocks it still remembers are on the chain. */
  ghost predicate Anchored(s: Session, e: Event)
  {
    e.Read? && s.memory.block.None? ==> Agree(s.view, e.net.chain, s.top)
  }

  ghost predicate AnchoredRun(flavour: Flavour, parsers: Parsers, events: seq<Event>)
  {
    forall i: nat :: i < |events| ==> Anchored(Replayed(flavour, parsers, events[..i]), events[i])
  }

  /** The chains a run meets are chains Bitcoin can have. */
  ghost predicate Honest(content: Hash -> Tx, events: seq<Event>)
  {
    && (forall i: nat :: i < |events| && events[i].Read? ==> WellFormed(content, events[i].net.chain))
    && (forall i: nat, j: nat :: i < |events| && j < |events| && events[i].Read? && events[j].Read? ==>
          HashesCommit(events[i].net.chain, events[j].net.chain))
  }

  ghost predicate SeenIn(view: Chain, events: seq<Event>)
  {
    view == [] || exists i: nat :: i < |events| && events[i].Read? && events[i].net.chain == view
  }

  lemma StepSound(flavour: Flavour, parsers: Parsers, content: Hash -> Tx, s: Session, e: Event)
    requires Sound(parsers, content, s.memory, s.view, s.shadow, s.top) && Anchored(s, e)
    requires e.Read? ==> WellFormed(content, e.net.chain) && HashesCommit(s.view, e.net.chain)
    ensures var s' := Stepped(flavour, parsers, s, e);
            && Sound(parsers, content, s'.memory, s'.view, s'.shadow, s'.top)
            && (s'.view == s.view || (e.Read? && s'.view == e.net.chain))
  {
    match e
    case Read(net, height) => ReadSound(flavour, parsers, content, s.memory, s.view, s.shadow, s.top, net, height);
    case Invalidate(height) => InvalidatedSound(flavour, parsers, content, s.memory, s.view, s.shadow, s.top, height);
  }

  /** The state of a run: its memory is sound, and about a chain the run has met. */
  ghost predicate RunState(parsers: Parsers, content: Hash -> Tx, s: Session, events: seq<Event>)
  {
    Sound(parsers, content, s.memory, s.view, s.shadow, s.top) && SeenIn(s.view, events)
  }

  lemma RunStep(flavour: Flavour, parsers: Parsers, content: Hash -> Tx, s: Session, events: seq<Event>, n: nat)
    requires Honest(content, events) && n < |events| && Anchored(s, events[n])
    requires RunState(parsers, content, s, events)
    ensures RunState(parsers, content, Stepped(flavour, parsers, s, events[n]), events)
  {
    StepSound(flavour, parsers, content, s, events[n]);
  }

  lemma {:induction false} RunSound(flavour: Flavour, parsers: Parsers, content: Hash -> Tx, events: seq<Event>, n: nat)
    requires AnchoredRun(flavour, parsers, events) && Honest(content, events) && n <= |events|
    ensures RunState(parsers, content, Replayed(flavour, parsers, events[..n]), events)
  {
    if n != 0 {
      RunSound(flavour, parsers, content, events, n - 1);
      assert events[..n][..n - 1] == events[..n - 1];
      RunStep(flavour, parsers, content, Replayed(flavour, parsers, events[..n - 1]), events, n - 1);
    }
  }

  /** Over every run of reads and rewinds, on either source, each read that is ready and succeeds returns what
      a rescan of the chain at that moment returns. */
  lemma RunReadsAreRescans(flavour: Flavour, parsers: Parsers, content: Hash -> Tx, events: seq<Event>, i: nat)
    requires AnchoredRun(flavour, parsers, events) && Honest(content, events)
    requires i < |events| && events[i].Read?
    ensures var Read(net, height) := events[i];
            var s := Replayed(flavour, parsers, events[..i]);
            var r := ReadAt(flavour, parsers, s.memory, net, height).1;
            r.Ok? && Ready(s.memory, s.shadow, height) ==>
              height < |net.chain| && r.value == Rescan(parsers, net.chain, height)
  {
    RunSound(flavour, parsers, content, events, i);
    var s, e := Replayed(flavour, parsers, events[..i]), events[i];
    assert Anchored(s, e);
    ReadSound(flavour, parsers, content, s.memory, s.view, s.shadow, s.top, e.net, e.height);
  }

  /** In the source's own terms: the block's height, hash and time, and the operations its transactions yield. */
  lemma RunReadsYield(flavour: Flavour, parsers: Parsers, content: Hash -> Tx, events: seq<Event>, i: nat)
    requires AnchoredRun(flavour, parsers, events) && Honest(content, events)
    requires i < |events| && events[i].Read?
    ensures var Read(net, height) := events[i];
            var s := Replayed(flavour, parsers, events[..i]);
            var r := ReadAt(flavour, parsers, s.memory, net, height).1;
            r.Ok? && Ready(s.memory, s.shadow, height) ==>
              && height < |net.chain|
              && r.value.height == height && r.value.hash == net.chain[height].hash
              && r.value.time == net.chain[height].time
              && IsYield(parsers, net.chain, height, |net.chain[height].txs|, r.value.operations)
  {
    RunReadsAreRescans(flavour, parsers, content, events, i);
    var net, height := events[i].net, events[i].height;
    if height < |net.chain| {
      RescanYields(parsers, content, net.chain, height);
    }
  }

  // ---------- Keeping reads ready ----------

  /** The source has the window of its last block, so that any height may be read next. */
  ghost predicate Settled(m: Memory, sh: Shadow)
  {
    m.last.Some? ==> Holds(sh, WindowStart(m.last.value), m.last.value + 1) && Covers(sh.basis, m.last.value)
  }

  /** A held block is the last one decoded. */
  ghost predicate HoldsLast(m: Memory) { m.block.Some? ==> m.last == Some(m.block.value.height) }

  lemma SettledIsReady(m: Memory, sh: Shadow, height: nat)
    requires Settled(m, sh) && HoldsLast(m)
    ensures Ready(m, sh, height)
  {
  }

  /** Where a walk stops, it still knows what it knew of the goal's window, and what it has decoded of it. */
  lemma {:induction false} WalkHolds(parsers: Parsers, net: Network, m: Memory, sh: Shadow, from: nat, goal: nat,
                                     p: nat)
    requires from <= goal && WindowStart(goal) <= p
    ensures var (m', after) := (Walk(parsers, net, m, from, goal).0, MarkedWalk(net, sh, from, goal));
            && (p in sh.known ==> p in after.known)
            && (m'.last == m.last
                || (m'.last.Some? && from <= m'.last.value <= goal
                    && (from <= p <= m'.last.value ==> p in after.known)))
    decreases goal - from
  {
    if Answers(net, from) && from !in net.garbled && from < goal {
      WalkHolds(parsers, net, Advanced(parsers, net, m, from).0, Marked(net, sh, from), from + 1, goal, p);
    }
  }

  /** A ready read that walks to its goal settles the source; one that fails may be retried. */
  lemma ReadKeepsReady(flavour: Flavour, parsers: Parsers, m: Memory, sh: Shadow, net: Network, height: nat)
    requires HoldsLast(m) && Ready(m, sh, height) && LastReadFault(m, net).None?
    requires m.block.Some? ==> m.block.value.height != height
    ensures var (m', r) := ReadAt(flavour, parsers, m, net, height);
            var sh' := ReadShadow(m, sh, net, height);
            HoldsLast(m') && (r.Ok? ==> Settled(m', sh')) && (r.Err? ==> Ready(m', sh', height))
  {
    var start, from, sh0 := Cleared(m, height), FirstHeight(m, height), StartShadow(m, sh, height);
    var (m', r) := Walk(parsers, net, start, from, height);
    WalkLands(parsers, net, start, from, height);
    WalkSucceedsIff(parsers, net, start, from, height);
    if r.Ok? {
      WalkKnows(net, sh0, from, height);
      ReadyCovers(parsers, m, sh, net, height);
    } else {
      forall p: nat | WindowStart(height) <= p && m'.last.Some? && p <= m'.last.value < height
        ensures p in MarkedWalk(net, sh0, from, height).known
      {
        WalkHolds(parsers, net, start, sh0, from, height, p);
      }
    }
  }

  lemma {:induction false} WalkLands(parsers: Parsers, net: Network, m: Memory, from: nat, goal: nat)
    requires from <= goal && HoldsLast(m)
    ensures var (m', r) := Walk(parsers, net, m, from, goal);
            && HoldsLast(m') && (m'.block.Some? && m'.block.value.height == goal ==> m.block == m'.block || r.Ok?)
            && (r.Ok? ==> m'.last == Some(goal) && m'.block == Some(r.value)) && (r.Err? ==> !r.error.Reorganized?)
    decreases goal - from
  {
    if Answers(net, from) && from !in net.garbled && from < goal {
      WalkLands(parsers, net, Advanced(parsers, net, m, from).0, from + 1, goal);
    }
  }

  /** After a rewind, any height may be read of a REST source, and of an RPC source that gave up one block. */
  lemma RewindKeepsReady(flavour: Flavour, m: Memory, sh: Shadow, rewind: nat, height: nat)
    requires HoldsLast(m) && Settled(m, sh)
    requires flavour.Rest? || m.last.None? || m.last.value <= rewind
    ensures Ready(Invalidated(flavour, m, rewind), Dropped(sh, rewind), height)
  {
  }

  // ---------- A caller that keeps its reads ready ----------

  /** The height of a read that failed and has not been repeated. */
  function PendingAfter(flavour: Flavour, parsers: Parsers, s: Session, pending: Option<nat>, e: Event): Option<nat>
  {
    if e.Invalidate? then pending else
    var r := ReadAt(flavour, parsers, s.memory, e.net, e.height).1;
    if r.Ok? then None
    else if !r.error.Reorganized? then Some(e.height)
    else if flavour.Rest? then None
    else pending
  }

  function Pending(flavour: Flavour, parsers: Parsers, events: seq<Event>): Option<nat>
  {
    if events == [] then None else
    var n := |events| - 1;
    var s, pending := Replayed(flavour, parsers, events[..n]), Pending(flavour, parsers, events[..n]);
    PendingAfter(flavour, parsers, s, pending, events[n])
  }

  /** A failed read is repeated before another height is read, and an RPC source is not rewound past the one
      block it holds. */
  ghost predicate Careful(flavour: Flavour, s: Session, pending: Option<nat>, e: Event)
  {
    match e
    case Read(_, height) => pending.None? || pending.value == height
    case Invalidate(height) =>
      flavour.Rest? || s.memory.last.None? || s.memory.last.value < height
      || (s.memory.last.value == height && s.memory.block.Some?)
  }

  ghost predicate CarefulRun(flavour: Flavour, parsers: Parsers, events: seq<Event>)
  {
    forall i: nat :: i < |events| ==>
      Careful(flavour, Replayed(flavour, parsers, events[..i]), Pending(flavour, parsers, events[..i]), events[i])
  }

  /** What care keeps: the pending height is ready, or every height is. */
  ghost predicate KeptReady(m: Memory, sh: Shadow, pending: Option<nat>)
  {
    && HoldsLast(m)
    && (forall h: nat :: pending.None? || pending.value == h ==> Ready(m, sh, h))
    && (m.block.Some? && (pending.None? || pending.value == m.block.value.height) ==> Settled(m, sh))
  }

  lemma RewindKept(flavour: Flavour, m: Memory, sh: Shadow, pending: Option<nat>, height: nat)
    requires KeptReady(m, sh, pending)
    requires flavour.Rest? || m.last.None? || m.last.value < height || (m.last.value == height && m.block.Some?)
    ensures KeptReady(Invalidated(flavour, m, height), Dropped(sh, height), pending)
  {
    var m', sh' := Invalidated(flavour, m, height), Dropped(sh, height);
    forall h: nat | pending.None? || pending.value == h
      ensures Ready(m', sh', h)
    {
      assert Ready(m, sh, h);
    }
  }

  lemma ReadKept(flavour: Flavour, parsers: Parsers, s: Session, pending: Option<nat>, net: Network, height: nat)
    requires KeptReady(s.memory, s.shadow, pending) && (pending.None? || pending.value == height)
    ensures KeptReady(ReadAt(flavour, parsers, s.memory, net, height).0, ReadShadow(s.memory, s.shadow, net, height),
                      PendingAfter(flavour, parsers, s, pending, Read(net, height)))
  {
    var m, sh, fault := s.memory, s.shadow, LastReadFault(s.memory, net);
    assert Ready(m, sh, height);
    if fault.Some? && fault.value.Reorganized? {
      RewindKept(flavour, m, sh, pending, fault.value.height);
    } else if fault.None? && !(m.block.Some? && m.block.value.height == height) {
      ReadKeepsReady(flavour, parsers, m, sh, net, height);
      WalkLands(parsers, net, Cleared(m, height), FirstHeight(m, height), height);
    }
  }

  lemma {:induction false} CarefulRunKept(flavour: Flavour, parsers: Parsers, events: seq<Event>, n: nat)
    requires CarefulRun(flavour, parsers, events) && n <= |events|
    ensures var s := Replayed(flavour, parsers, events[..n]);
            KeptReady(s.memory, s.shadow, Pending(flavour, parsers, events[..n]))
  {
    if n != 0 {
      CarefulRunKept(flavour, parsers, events, n - 1);
      assert events[..n][..n - 1] == events[..n - 1];
      var s, e := Replayed(flavour, parsers, events[..n - 1]), events[n - 1];
      var pending := Pending(flavour, parsers, events[..n - 1]);
      assert Careful(flavour, s, pending, e);
      match e
      case Read(net, height) => ReadKept(flavour, parsers, s, pending, net, height);
      case Invalidate(height) => RewindKept(flavour, s.memory, s.shadow, pending, height);
    }
  }

  /** A careful caller gets a rescan from every read that succeeds. */
  lemma CarefulReadsAreRescans(flavour: Flavour, parsers: Parsers, content: Hash -> Tx, events: seq<Event>, i: nat)
    requires AnchoredRun(flavour, parsers, events) && Honest(content, events) && CarefulRun(flavour, parsers, events)
    requires i < |events| && events[i].Read?
    ensures var Read(net, height) := events[i];
            var r := ReadAt(flavour, parsers, Replayed(flavour, parsers, events[..i]).memory, net, height).1;
            r.Ok? ==> height < |net.chain| && r.value == Rescan(parsers, net.chain, height)
  {
    RunReadsAreRescans(flavour, parsers, content, events, i);
    CarefulRunKept(flavour, parsers, events, i);
    assert Careful(flavour, Replayed(flavour, parsers, events[..i]), Pending(flavour, parsers, events[..i]), events[i]);
  }
}
