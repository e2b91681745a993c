/**
 The executor's serving loop.

 Whatever arrives on the wire, the tip moves only to a block the executor itself accepted, and the accepted
 blocks form one chain.
 */
module Executor {
  import opened Prelude
  import opened Nakamoto
  import opened SignedHeader
  import opened LineProtocol

  type Reason = string

  datatype TenureError = ParentBlockId | ChainLength | Timestamp | MissingTenureChange

  function SaturatingNext(height: u64): u64 { if height == U64_MAX then U64_MAX else height + 1 }

  predicate HasTenureChange(b: Block) { exists i :: 0 <= i < |b.txs| && b.txs[i].payload.Change? }

  /** What keeps a block from following a parent, if anything does. */
  function ValidateSuccessor(sha: Sha, b: Block, parent: Header): Option<TenureError>
  {
    if b.header.parentBlockId != BlockId(sha, parent) then Some(ParentBlockId)
    else if b.header.chainLength != SaturatingNext(parent.chainLength) then Some(ChainLength)
    else if b.header.timestamp <= parent.timestamp then Some(Timestamp)
    else if b.header.consensusHash != parent.consensusHash && !HasTenureChange(b) then Some(MissingTenureChange)
    else None
  }

  datatype BurnHeader = BurnHeader(height: u64, hash: Hash32)

  datatype Request = Request(wire: seq<byte>, burnHeaders: seq<BurnHeader>)

  /** A decoded request; `view` is its Bitcoin context and operations. */
  datatype Opened = Opened(block: Block, view: seq<byte>, parent: Option<Hash32>)

  datatype Refusal = ParentMismatch(error: TenureError) | Other(reason: Reason)

  datatype Verdict = Accepted | Refused(why: Refusal)

  datatype Record = Record(block: Block, verdict: Verdict)

  datatype Reply = Greeting(tip: Hash32, height: u64) | ProtocolError(reason: Reason) | Decided(record: Record)

  /** What the loop calls: parsing, and the chainstate, which may change on every call. */
  datatype Engine<!S> = Engine(
    sha: Sha,
    utf8: seq<byte> -> bool,
    parse: seq<byte> -> Result<Request, Reason>,
    open: Request -> Result<Opened, Reason>,
    recordBurnHeader: (S, BurnHeader) -> (S, Option<Reason>),
    authenticate: (S, Opened, Hash32) -> (S, Option<Reason>),
    commit: (S, Opened) -> (S, Option<Reason>))

  /** The executor's own state and the block it stands on. */
  datatype Stand<S> = Stand(state: S, tip: Block)

  // ---------- One request ----------

  /** The verdict on one request: is the block linked to the tip, and does the engine accept it there. */
  function Judge<S>(e: Engine<S>, at: Stand<S>, o: Opened): (S, Record)
  {
    var unlinked := ValidateSuccessor(e.sha, o.block, at.tip.header);
    if unlinked.Some? then (at.state, Record(o.block, Refused(ParentMismatch(unlinked.value)))) else
    var parent := if o.parent.Some? then o.parent.value else BlockId(e.sha, at.tip.header);
    var (authenticated, fault) := e.authenticate(at.state, o, parent);
    if fault.Some? then (authenticated, Record(o.block, Refused(Other(fault.value)))) else
    var (committed, fault) := e.commit(authenticated, o);
    (committed, Record(o.block, if fault.Some? then Refused(Other(fault.value)) else Accepted))
  }

  function Seeded<S>(e: Engine<S>, state: S, headers: seq<BurnHeader>): (S, Option<Reason>)
  {
    if headers == [] then (state, None) else
    var (next, fault) := e.recordBurnHeader(state, headers[0]);
    if fault.Some? then (next, fault) else Seeded(e, next, headers[1..])
  }

  function Decide<S>(e: Engine<S>, at: Stand<S>, o: Opened): (Stand<S>, Reply)
  {
    var (state, record) := Judge(e, at, o);
    (Stand(state, if record.verdict.Accepted? then o.block else at.tip), Decided(record))
  }

  /** The answer to one line of text. */
  function Answer<S>(e: Engine<S>, at: Stand<S>, text: seq<byte>): (Stand<S>, Reply)
  {
    var request := e.parse(text);
    if request.Err? then (at, ProtocolError(request.error)) else
    var decoded := e.open(request.value);
    if decoded.Err? then (at, ProtocolError(decoded.error)) else
    var (state, fault) := Seeded(e, at.state, request.value.burnHeaders);
    if fault.Some? then (at.(state := state), ProtocolError(fault.value))
    else Decide(e, at.(state := state), decoded.value)
  }

  const OVERSIZED: Reply := ProtocolError("a protocol line exceeds the bounded maximum")

  /** The answer to what a read of the protocol found. */
  function Step<S>(e: Engine<S>, at: Stand<S>, line: Line): (Stand<S>, Reply)
    requires !line.End?
  {
    if line.TooLong? then (at, OVERSIZED) else Answer(e, at, line.text)
  }

  // ---------- A whole run, over the raw bytes ----------

  datatype Run<S> = Run(at: Stand<S>, replies: seq<Reply>, fault: Option<ReadError>)

  /** Everything served from a byte string: where the executor stands, what it replied, and the fault that
      ended it, unless the input ended cleanly. */
  function Served<S>(e: Engine<S>, faulty: bool, at: Stand<S>, s: seq<byte>): Run<S>
    decreases |s|
  {
    var (line, rest) := LineOf(e.utf8, faulty, s);
    if line.Err? then Run(at, [], Some(line.error))
    else if line.value.End? then Run(at, [], None)
    else
      var (next, reply) := Step(e, at, line.value);
      var later := Served(e, faulty, next, rest);
      Run(later.at, [reply] + later.replies, later.fault)
  }

  /** A run whose first replies are already out. */
  function After<S>(out: seq<Reply>, later: Run<S>): Run<S> { Run(later.at, out + later.replies, later.fault) }

  lemma AfterStep<S>(out: seq<Reply>, reply: Reply, later: Run<S>)
    ensures After(out, After([reply], later)) == After(out + [reply], later)
  {
    assert out + ([reply] + later.replies) == out + [reply] + later.replies;
  }

  /** Serving one line, then the rest. */
  lemma ServedLine<S>(e: Engine<S>, faulty: bool, at: Stand<S>, s: seq<byte>, line: Line, rest: seq<byte>)
    requires LineOf(e.utf8, faulty, s) == (Ok(line), rest) && !line.End?
    ensures |rest| < |s|
    ensures var (next, reply) := Step(e, at, line);
            Served(e, faulty, at, s) == After([reply], Served(e, faulty, next, rest))
  {
  }

  /** Serve decisions over a chunked input: the greeting, then one reply a line. */
  method ServeOver<S>(e: Engine<S>, start: Stand<S>, input: Input) returns (r: Run<S>)
    requires input.Valid()
    modifies input
    ensures r == After([Greeting(BlockId(e.sha, start.tip.header), start.tip.header.chainLength)],
                       Served(e, input.faulty, start, old(input.Bytes())))
  {
    var at := start;
    var out := [Greeting(BlockId(e.sha, start.tip.header), start.tip.header.chainLength)];
    ghost var whole := After(out, Served(e, input.faulty, start, input.Bytes()));
    while true
      invariant input.Valid()
      invariant whole == After(out, Served(e, input.faulty, at, input.Bytes()))
      decreases |input.Bytes()|
    {
      ghost var s := input.Bytes();
      var line, peak := ReadLine(input, e.utf8);
      assert out + [] == out;
      if line.Err? {
        return Run(at, out, Some(line.error));
      }
      if line.value.End? {
        return Run(at, out, None);
      }
      ServedLine(e, input.faulty, at, s, line.value, input.Bytes());
      AfterStep(out, Step(e, at, line.value).1, Served(e, input.faulty, Step(e, at, line.value).0, input.Bytes()));
      var reply := OVERSIZED;
      if line.value.Ready? {
        at, reply := AnswerInPlace(e, at, line.value.text);
      }
      out := out + [reply];
    }
  }

  method AnswerInPlace<S>(e: Engine<S>, at: Stand<S>, text: seq<byte>) returns (next: Stand<S>, reply: Reply)
    ensures (next, reply) == Answer(e, at, text)
  {
    var request := e.parse(text);
    if request.Err? {
      return at, ProtocolError(request.error);
    }
    var decoded := e.open(request.value);
    if decoded.Err? {
      return at, ProtocolError(decoded.error);
    }
    var state := at.state;
    var headers := request.value.burnHeaders;
    for i := 0 to |headers|
      invariant Seeded(e, at.state, headers) == Seeded(e, state, headers[i..])
    {
      var (seeded, fault) := e.recordBurnHeader(state, headers[i]);
      assert headers[i..][1..] == headers[i + 1..];
      if fault.Some? {
        return at.(state := seeded), ProtocolError(fault.value);
      }
      state := seeded;
    }
    var (judged, record) := Judge(e, at.(state := state), decoded.value);
    var tip := at.tip;
    if record.verdict.Accepted? {
      tip := decoded.value.block;
    }
    return Stand(judged, tip), Decided(record);
  }

  // ---------- Every line is answered, in order ----------

  /** Lines, each with its newline. */
  function Joined(lines: seq<seq<byte>>): seq<byte>
  {
    if lines == [] then [] else lines[0] + [NEWLINE] + Joined(lines[1..])
  }

  /** A line that gets a reply: it holds no newline, and is oversized or text. */
  ghost predicate Answerable(utf8: seq<byte> -> bool, line: seq<byte>)
  {
    NEWLINE !in line && (MAX_LINE_BYTES < |line| || utf8(line))
  }

  function LineFrom(text: seq<byte>): Line { if MAX_LINE_BYTES < |text| then TooLong else Ready(text) }

  /** Lines answered one after another, each where the one before it left the executor. */
  function AnsweredAll<S>(e: Engine<S>, at: Stand<S>, lines: seq<seq<byte>>): (r: (Stand<S>, seq<Reply>))
    ensures |r.1| == |lines|
    decreases |lines|
  {
    if lines == [] then (at, []) else
    var (next, reply) := Step(e, at, LineFrom(lines[0]));
    var (last, replies) := AnsweredAll(e, next, lines[1..]);
    (last, [reply] + replies)
  }

  /** Terminated lines that are oversized or text get exactly one reply each, in order, whatever follows them. */
  lemma {:induction false} EveryLineAnswered<S>(e: Engine<S>, faulty: bool, at: Stand<S>, lines: seq<seq<byte>>,
                                                rest: seq<byte>)
    requires forall i :: 0 <= i < |lines| ==> Answerable(e.utf8, lines[i])
    ensures var (next, replies) := AnsweredAll(e, at, lines);
            Served(e, faulty, at, Joined(lines) + rest) == After(replies, Served(e, faulty, next, rest))
    decreases |lines|
  {
    if lines == [] {
      assert Joined(lines) + rest == rest;
      var later := Served(e, faulty, at, rest);
      assert [] + later.replies == later.replies;
    } else {
      var line, s := LineFrom(lines[0]), Joined(lines[1..]) + rest;
      assert Joined(lines) + rest == lines[0] + [NEWLINE] + s;
      TerminatedLine(e.utf8, faulty, lines[0], s);
      ServedLine(e, faulty, at, Joined(lines) + rest, line, s);
      var (next, reply) := Step(e, at, line);
      EveryLineAnswered(e, faulty, next, lines[1..], rest);
      var (last, replies) := AnsweredAll(e, next, lines[1..]);
      AfterAll(reply, replies, Served(e, faulty, last, rest));
    }
  }

  lemma AfterAll<S>(reply: Reply, replies: seq<Reply>, later: Run<S>)
    ensures After([reply], After(replies, later)) == After([reply] + replies, later)
  {
    assert [reply] + (replies + later.replies) == [reply] + replies + later.replies;
  }

  // ---------- What a decision takes ----------

  /** A block follows a parent: it names it, stands one higher, up to the 64-bit limit, is younger, and stays in its
      tenure or carries a tenure change. */
  ghost predicate Follows(sha: Sha, b: Block, parent: Header)
  {
    && b.header.parentBlockId == BlockId(sha, parent)
    && b.header.chainLength == Min(parent.chainLength + 1, U64_MAX)
    && parent.timestamp < b.header.timestamp
    && (b.header.consensusHash == parent.consensusHash || exists i :: 0 <= i < |b.txs| && b.txs[i].payload.Change?)
  }

  /** The first of those that fails. */
  ghost predicate FollowFault(sha: Sha, b: Block, parent: Header, error: TenureError)
  {
    match error
    case ParentBlockId => b.header.parentBlockId != BlockId(sha, parent)
    case ChainLength =>
      b.header.parentBlockId == BlockId(sha, parent) && b.header.chainLength != Min(parent.chainLength + 1, U64_MAX)
    case Timestamp =>
      && b.header.parentBlockId == BlockId(sha, parent)
      && b.header.chainLength == Min(parent.chainLength + 1, U64_MAX)
      && b.header.timestamp <= parent.timestamp
    case MissingTenureChange =>
      && b.header.parentBlockId == BlockId(sha, parent)
      && b.header.chainLength == Min(parent.chainLength + 1, U64_MAX)
      && parent.timestamp < b.header.timestamp
      && b.header.consensusHash != parent.consensusHash
      && forall i :: 0 <= i < |b.txs| ==> !b.txs[i].payload.Change?
  }

  lemma SuccessorIff(sha: Sha, b: Block, parent: Header)
    ensures var fault := ValidateSuccessor(sha, b, parent);
            && (fault.None? <==> Follows(sha, b, parent))
            && (fault.Some? ==> FollowFault(sha, b, parent, fault.value))
  {
  }

  /** The parent a block is authenticated against: the one the request names, or else the tip. */
  ghost function ClaimedParent<S>(e: Engine<S>, at: Stand<S>, o: Opened): Hash32
  {
    match o.parent
    case Some(id) => id
    case None => BlockId(e.sha, at.tip.header)
  }

  /** A decision: the block follows the tip, is authenticated in the state at hand, and commits in the state that
      leaves.  The first of the three to fail refuses it and keeps the tip. */
  ghost predicate IsDecision<S>(e: Engine<S>, at: Stand<S>, o: Opened, record: Record, after: Stand<S>)
  {
    var (authenticated, unauthentic) := e.authenticate(at.state, o, ClaimedParent(e, at, o));
    var (committed, uncommitted) := e.commit(authenticated, o);
    && record.block == o.block
    && if !Follows(e.sha, o.block, at.tip.header) then
         && after == at && record.verdict.Refused? && record.verdict.why.ParentMismatch?
         && FollowFault(e.sha, o.block, at.tip.header, record.verdict.why.error)
       else if unauthentic.Some? then
         after == Stand(authenticated, at.tip) && record.verdict == Refused(Other(unauthentic.value))
       else if uncommitted.Some? then
         after == Stand(committed, at.tip) && record.verdict == Refused(Other(uncommitted.value))
       else
         after == Stand(committed, o.block) && record.verdict == Accepted
  }

  lemma DecideIs<S>(e: Engine<S>, at: Stand<S>, o: Opened)
    ensures var (after, reply) := Decide(e, at, o); reply.Decided? && IsDecision(e, at, o, reply.record, after)
  {
    SuccessorIff(e.sha, o.block, at.tip.header);
  }

  /** A decision accepts exactly when the block follows, is authenticated, and then commits. */
  lemma AcceptsIff<S>(e: Engine<S>, at: Stand<S>, o: Opened)
    ensures var authenticated := e.authenticate(at.state, o, ClaimedParent(e, at, o));
            Accepts(Decide(e, at, o).1)
            <==> Follows(e.sha, o.block, at.tip.header) && authenticated.1.None? && e.commit(authenticated.0, o).1.None?
  {
    SuccessorIff(e.sha, o.block, at.tip.header);
  }

  /** The states from one to the next as burn headers are recorded without a fault. */
  ghost predicate Recorded<S>(e: Engine<S>, headers: seq<BurnHeader>, states: seq<S>)
  {
    && |states| == |headers| + 1
    && forall i :: 0 <= i < |headers| ==> e.recordBurnHeader(states[i], headers[i]) == (states[i + 1], None)
  }

  lemma {:induction false} SeededIs<S>(e: Engine<S>, state: S, headers: seq<BurnHeader>) returns (states: seq<S>)
    ensures states != [] && states[0] == state
    ensures var (last, fault) := Seeded(e, state, headers);
            if fault.None? then Recorded(e, headers, states) && states[|headers|] == last
            else
              && |states| <= |headers| && Recorded(e, headers[..|states| - 1], states)
              && e.recordBurnHeader(states[|states| - 1], headers[|states| - 1]) == (last, fault)
  {
    states := [state];
    if headers != [] {
      var (next, fault) := e.recordBurnHeader(state, headers[0]);
      if fault.None? {
        var later := SeededIs(e, next, headers[1..]);
        states := [state] + later;
        var n := |later|;
        assert forall i :: 1 <= i < |states| ==> states[i] == later[i - 1];
        assert forall i :: 1 <= i < |headers| ==> headers[i] == headers[1..][i - 1];
      }
    }
  }

  /** The burn headers of a request, recorded one after another from a state: all of them, and then the decision is
      made in the state they leave; or up to the one that fails, and then its fault is the reply. */
  ghost predicate SeedsThen<S>(e: Engine<S>, before: Stand<S>, request: Request, o: Opened, states: seq<S>,
                               reply: Reply, after: Stand<S>)
  {
    var headers, n := request.burnHeaders, |states| - 1;
    && states != [] && states[0] == before.state
    && if n == |headers| then
         && Recorded(e, headers, states) && reply.Decided?
         && IsDecision(e, Stand(states[n], before.tip), o, reply.record, after)
       else
         && n < |headers| && Recorded(e, headers[..n], states) && after.tip == before.tip && reply.ProtocolError?
         && e.recordBurnHeader(states[n], headers[n]) == (after.state, Some(reply.reason))
  }

  /** How the reply to a line comes about, and where it leaves the executor.  A line that is too long, does not parse
      or does not open changes nothing. */
  ghost predicate Explained<S(!new)>(e: Engine<S>, before: Stand<S>, line: Line, reply: Reply, after: Stand<S>)
    requires !line.End?
  {
    if line.TooLong? then
      after == before && reply == ProtocolError("a protocol line exceeds the bounded maximum")
    else if e.parse(line.text).Err? then after == before && reply == ProtocolError(e.parse(line.text).error)
    else
      var request := e.parse(line.text).value;
      if e.open(request).Err? then after == before && reply == ProtocolError(e.open(request).error)
      else exists states :: SeedsThen(e, before, request, e.open(request).value, states, reply, after)
  }

  lemma SeedingExplained<S(!new)>(e: Engine<S>, at: Stand<S>, request: Request, o: Opened) returns (states: seq<S>)
    ensures var (state, fault) := Seeded(e, at.state, request.burnHeaders);
            if fault.Some? then SeedsThen(e, at, request, o, states, ProtocolError(fault.value), at.(state := state))
            else
              var (after, reply) := Decide(e, at.(state := state), o);
              SeedsThen(e, at, request, o, states, reply, after)
  {
    states := SeededIs(e, at.state, request.burnHeaders);
    DecideIs(e, at.(state := states[|states| - 1]), o);
  }

  lemma StepExplained<S(!new)>(e: Engine<S>, at: Stand<S>, line: Line)
    requires !line.End?
    ensures var (next, reply) := Step(e, at, line); Explained(e, at, line, reply, next)
  {
    if line.Ready? && e.parse(line.text).Ok? && e.open(e.parse(line.text).value).Ok? {
      var request := e.parse(line.text).value;
      var states := SeedingExplained(e, at, request, e.open(request).value);
    }
  }

  /** Over every run: each reply is explained by its line, where the replies before it left the executor.  So every
      accepted block was authenticated and committed in the state its predecessors left. */
  lemma {:induction false} ServedExplained<S(!new)>(e: Engine<S>, faulty: bool, at: Stand<S>, s: seq<byte>)
    returns (lines: seq<Line>, stands: seq<Stand<S>>)
    ensures var run := Served(e, faulty, at, s);
            && |lines| == |run.replies| && |stands| == |run.replies| + 1
            && stands[0] == at && stands[|run.replies|] == run.at
            && forall k :: 0 <= k < |run.replies| ==>
                 !lines[k].End? && Explained(e, stands[k], lines[k], run.replies[k], stands[k + 1])
    decreases |s|
  {
    lines, stands := [], [at];
    var (line, rest) := LineOf(e.utf8, faulty, s);
    if line.Ok? && !line.value.End? {
      ServedLine(e, faulty, at, s, line.value, rest);
      StepExplained(e, at, line.value);
      var others, later := ServedExplained(e, faulty, Step(e, at, line.value).0, rest);
      lines, stands := [line.value] + others, [at] + later;
      assert forall k :: 1 <= k < |stands| ==> stands[k] == later[k - 1];
      assert forall k :: 1 <= k < |lines| ==> lines[k] == others[k - 1];
    }
  }

  // ---------- The accepted blocks form one chain ----------

  /** The blocks of the accepting decisions among some replies. */
  function AcceptedIn(replies: seq<Reply>): seq<Block>
  {
    if replies == [] then [] else
    (if replies[0].Decided? && replies[0].record.verdict.Accepted? then [replies[0].record.block] else [])
      + AcceptedIn(replies[1..])
  }

  /** Each block links to the one before it. */
  ghost predicate Linked(sha: Sha, chain: seq<Block>)
  {
    forall i :: 0 <= i < |chain| - 1 ==> Follows(sha, chain[i + 1], chain[i].header)
  }

  predicate Accepts(reply: Reply) { reply.Decided? && reply.record.verdict.Accepted? }

  /** The tip moves only with an accepting decision, and only to a successor. */
  lemma StepMovesTip<S>(e: Engine<S>, at: Stand<S>, line: Line)
    requires !line.End?
    ensures var (next, reply) := Step(e, at, line);
            if Accepts(reply) then next.tip == reply.record.block
                && Follows(e.sha, next.tip, at.tip.header)
            else next.tip == at.tip
  {
    if line.Ready? && e.parse(line.text).Ok? && e.open(e.parse(line.text).value).Ok? {
      SuccessorIff(e.sha, e.open(e.parse(line.text).value).value.block, at.tip.header);
    }
  }

  /** Over every run, the accepted blocks extend the starting tip one after another, and the executor ends up
      standing on the last of them: nothing else moves the tip. */
  lemma {:induction false} AcceptedFormAChain<S>(e: Engine<S>, faulty: bool, at: Stand<S>, s: seq<byte>)
    ensures ChainsFrom(e.sha, at.tip, Served(e, faulty, at, s))
    decreases |s|
  {
    var (line, rest) := LineOf(e.utf8, faulty, s);
    if line.Ok? && !line.value.End? {
      ServedLine(e, faulty, at, s, line.value, rest);
      var (next, reply) := Step(e, at, line.value);
      StepMovesTip(e, at, line.value);
      AcceptedFormAChain(e, faulty, next, rest);
      AcceptedThen(e.sha, at.tip, reply, next.tip, Served(e, faulty, next, rest));
    }
  }

  /** The blocks accepted in a run form a chain from a tip to the one it ends on. */
  ghost predicate ChainsFrom<S>(sha: Sha, tip: Block, run: Run<S>)
  {
    var chain := [tip] + AcceptedIn(run.replies);
    Linked(sha, chain) && run.at.tip == chain[|chain| - 1]
  }

  lemma AcceptedThen<S>(sha: Sha, tip: Block, reply: Reply, next: Block, later: Run<S>)
    requires if Accepts(reply) then next == reply.record.block && Follows(sha, next, tip.header)
             else next == tip
    requires ChainsFrom(sha, next, later)
    ensures ChainsFrom(sha, tip, After([reply], later))
  {
    AcceptedStep(sha, tip, reply, next, later.replies);
  }

  lemma AcceptedInCons(reply: Reply, later: seq<Reply>)
    ensures AcceptedIn([reply] + later) == (if Accepts(reply) then [reply.record.block] else []) + AcceptedIn(later)
  {
    assert ([reply] + later)[1..] == later;
  }

  lemma AcceptedStep(sha: Sha, tip: Block, reply: Reply, next: Block, later: seq<Reply>)
    requires if Accepts(reply) then next == reply.record.block && Follows(sha, next, tip.header)
             else next == tip
    requires Linked(sha, [next] + AcceptedIn(later))
    ensures var chain, tail := [tip] + AcceptedIn([reply] + later), [next] + AcceptedIn(later);
            Linked(sha, chain) && chain[|chain| - 1] == tail[|tail| - 1]
  {
    AcceptedInCons(reply, later);
    var tail := [next] + AcceptedIn(later);
    if Accepts(reply) {
      LinkedCons(sha, tip, tail);
      assert AcceptedIn([reply] + later) == tail;
    } else {
      assert AcceptedIn([reply] + later) == AcceptedIn(later);
    }
  }

  lemma LinkedCons(sha: Sha, first: Block, chain: seq<Block>)
    requires chain != [] && Linked(sha, chain) && Follows(sha, chain[0], first.header)
    ensures Linked(sha, [first] + chain)
  {
    var all := [first] + chain;
    forall i | 0 <= i < |all| - 1 ensures Follows(sha, all[i + 1], all[i].header) {
      if i != 0 {
        assert all[i] == chain[i - 1] && all[i + 1] == chain[i - 1 + 1];
      }
    }
  }

  /** Along a linked chain timestamps rise strictly, so no block occurs twice, and heights rise by one until
      they saturate. */
  lemma {:induction false} ChainRises(sha: Sha, chain: seq<Block>, i: nat, j: nat)
    requires Linked(sha, chain) && i < j < |chain|
    ensures chain[i].header.timestamp < chain[j].header.timestamp && chain[i] != chain[j]
    ensures chain[j].header.chainLength == Min(U64_MAX, chain[i].header.chainLength + (j - i))
    decreases j - i
  {
    assert Follows(sha, chain[j - 1 + 1], chain[j - 1].header);
    if i < j - 1 {
      ChainRises(sha, chain, i, j - 1);
    }
  }
}
