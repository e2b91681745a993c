/**
 Exactly which reads are rescans, over runs that meet reorganizations.

 Two runs are alike when they make the same calls, get the same answers and see the same block hashes; what the
 blocks hold may differ.  A read that has its window is a rescan in every run alike; one that lacks it is wrong in
 some run alike.
 */
module ExactRuns {
  import opened Prelude
  import opened PreStx
  import opened BitcoinSource
  import opened ExactReads

  // ---------- Runs alike ----------

  ghost predicate SameHashes(a: Chain, b: Chain)
  {
    |a| == |b| && forall h :: 0 <= h < |a| ==> a[h].hash == b[h].hash
  }

  ghost predicate SameEvent(a: Event, b: Event)
  {
    && a.height == b.height && a.Read? == b.Read?
    && (a.Read? ==> SameAnswers(a.net, b.net) && SameHashes(a.net.chain, b.net.chain))
  }

  ghost predicate SameRun(a: seq<Event>, b: seq<Event>)
  {
    |a| == |b| && forall i :: 0 <= i < |a| ==> SameEvent(a[i], b[i])
  }

  /** Two memories that differ at most in what they have decoded, and hold blocks of one hash. */
  ghost predicate SameSight(a: Memory, b: Memory)
  {
    SameShape(a, b) && (a.block.Some? ==> a.block.value.hash == b.block.value.hash)
  }

  lemma {:induction false} WalkSight(pa: Parsers, pb: Parsers, na: Network, nb: Network, a: Memory, b: Memory,
                                     from: nat, goal: nat)
    requires from <= goal && SameAnswers(na, nb) && SameHashes(na.chain, nb.chain) && SameSight(a, b)
    ensures SameSight(Walk(pa, na, a, from, goal).0, Walk(pb, nb, b, from, goal).0)
    decreases goal - from
  {
    if Answers(na, from) && from !in na.garbled && from < goal {
      WalkSight(pa, pb, na, nb, Advanced(pa, na, a, from).0, Advanced(pb, nb, b, from).0, from + 1, goal);
    }
  }

  lemma ReadSight(flavour: Flavour, pa: Parsers, pb: Parsers, na: Network, nb: Network, a: Memory, b: Memory,
                  sh: Shadow, height: nat)
    requires SameAnswers(na, nb) && SameHashes(na.chain, nb.chain) && SameSight(a, b)
    ensures LastReadFault(a, na) == LastReadFault(b, nb)
    ensures SameSight(ReadAt(flavour, pa, a, na, height).0, ReadAt(flavour, pb, b, nb, height).0)
    ensures ReadAt(flavour, pa, a, na, height).1.Ok? == ReadAt(flavour, pb, b, nb, height).1.Ok?
    ensures ReadShadow(a, sh, na, height) == ReadShadow(b, sh, nb, height)
  {
    if LastReadFault(a, na).None? && !(a.block.Some? && a.block.value.height == height) {
      var x, y, from := Cleared(a, height), Cleared(b, height), FirstHeight(a, height);
      WalkSight(pa, pb, na, nb, x, y, from, height);
      WalkShape(pa, pb, na, nb, x, y, StartShadow(a, sh, height), from, height);
    }
  }

  /** Sessions of runs alike, on chains of their own. */
  ghost predicate SameSession(a: Session, b: Session)
  {
    SameSight(a.memory, b.memory) && a.shadow == b.shadow && a.top == b.top
  }

  lemma {:induction false} RunSight(flavour: Flavour, pa: Parsers, pb: Parsers, a: seq<Event>, b: seq<Event>)
    requires SameRun(a, b)
    ensures SameSession(Replayed(flavour, pa, a), Replayed(flavour, pb, b))
    decreases |a|
  {
    if a != [] {
      var n := |a| - 1;
      RunSight(flavour, pa, pb, a[..n], b[..n]);
      var x, y := Replayed(flavour, pa, a[..n]), Replayed(flavour, pb, b[..n]);
      assert SameEvent(a[n], b[n]);
      if a[n].Read? {
        ReadSight(flavour, pa, pb, a[n].net, b[n].net, x.memory, y.memory, x.shadow, a[n].height);
      }
    }
  }

  // ---------- A run with other contents ----------

  /** The same chain, holding only a `PreStx` at one height and the operation it authorises at another. */
  function Refilled(w: Sample, chain: Chain, p: nat, h: nat): Chain
  {
    seq(|chain|, x requires 0 <= x < |chain| =>
      Block(chain[x].hash, chain[x].time, if x == p then [Announcing(w)] else if x == h then [Spending(w)] else []))
  }

  function RefilledEvent(w: Sample, e: Event, p: nat, h: nat): Event
  {
    if e.Invalidate? then e else e.(net := e.net.(chain := Refilled(w, e.net.chain, p, h)))
  }

  function RefilledRun(w: Sample, events: seq<Event>, p: nat, h: nat): (r: seq<Event>)
    ensures |r| == |events| && forall i :: 0 <= i < |r| ==> r[i] == RefilledEvent(w, events[i], p, h)
  {
    seq(|events|, i requires 0 <= i < |events| => RefilledEvent(w, events[i], p, h))
  }

  lemma RefilledIsAlike(w: Sample, events: seq<Event>, p: nat, h: nat)
    ensures SameRun(events, RefilledRun(w, events, p, h))
  {
  }

  lemma RefilledAgree(w: Sample, a: Chain, b: Chain, p: nat, h: nat, n: nat)
    requires Agree(a, b, n)
    ensures Agree(Refilled(w, a, p, h), Refilled(w, b, p, h), n)
  {
    forall x | 0 <= x < n
      ensures Refilled(w, a, p, h)[x] == Refilled(w, b, p, h)[x]
    {
      assert a[x] == a[..n][x] == b[..n][x] == b[x];
    }
  }

  lemma RefilledCommit(w: Sample, a: Chain, b: Chain, p: nat, h: nat)
    requires HashesCommit(a, b)
    ensures HashesCommit(Refilled(w, a, p, h), Refilled(w, b, p, h))
  {
    forall x: nat | x < |a| && x < |b| && a[x].hash == b[x].hash
      ensures Agree(Refilled(w, a, p, h), Refilled(w, b, p, h), x + 1)
    {
      RefilledAgree(w, a, b, p, h, x + 1);
    }
  }

  lemma RefilledHonest(w: Sample, content: Hash -> Tx, events: seq<Event>, p: nat, h: nat)
    requires Honest(content, events) && p < h
    ensures Honest(Content(w), RefilledRun(w, events, p, h))
  {
    forall i: nat | i < |events| && events[i].Read?
      ensures WellFormed(Content(w), Refilled(w, events[i].net.chain, p, h))
    {
      PairedIsWellFormed(w, Refilled(w, events[i].net.chain, p, h), p, h);
    }
    forall i: nat, j: nat | i < |events| && j < |events| && events[i].Read? && events[j].Read?
      ensures HashesCommit(Refilled(w, events[i].net.chain, p, h), Refilled(w, events[j].net.chain, p, h))
    {
      RefilledCommit(w, events[i].net.chain, events[j].net.chain, p, h);
    }
  }

  /** The sessions of a run and of its refill. */
  ghost predicate RefilledSession(w: Sample, x: Session, y: Session, p: nat, h: nat)
  {
    SameSession(x, y) && y.view == Refilled(w, x.view, p, h)
  }

  lemma StepRefilled(flavour: Flavour, parsers: Parsers, w: Sample, x: Session, y: Session, e: Event, p: nat, h: nat)
    requires RefilledSession(w, x, y, p, h)
    ensures RefilledSession(w, Stepped(flavour, parsers, x, e),
                            Stepped(flavour, parsers, y, RefilledEvent(w, e, p, h)), p, h)
  {
    if e.Read? {
      ReadSight(flavour, parsers, parsers, e.net, RefilledEvent(w, e, p, h).net, x.memory, y.memory, x.shadow,
                e.height);
    }
  }

  lemma {:induction false} RefilledReplay(flavour: Flavour, parsers: Parsers, w: Sample, events: seq<Event>, p: nat,
                                          h: nat)
    ensures RefilledSession(w, Replayed(flavour, parsers, events),
                            Replayed(flavour, parsers, RefilledRun(w, events, p, h)), p, h)
    decreases |events|
  {
    if events != [] {
      var n := |events| - 1;
      assert RefilledRun(w, events, p, h)[..n] == RefilledRun(w, events[..n], p, h);
      RefilledReplay(flavour, parsers, w, events[..n], p, h);
      StepRefilled(flavour, parsers, w, Replayed(flavour, parsers, events[..n]),
                   Replayed(flavour, parsers, RefilledRun(w, events[..n], p, h)), events[n], p, h);
    }
  }

  lemma RefilledAnchored(flavour: Flavour, parsers: Parsers, w: Sample, events: seq<Event>, p: nat, h: nat)
    requires AnchoredRun(flavour, parsers, events)
    ensures AnchoredRun(flavour, parsers, RefilledRun(w, events, p, h))
  {
    var refilled := RefilledRun(w, events, p, h);
    forall i: nat | i < |events|
      ensures Anchored(Replayed(flavour, parsers, refilled[..i]), refilled[i])
    {
      assert refilled[..i] == RefilledRun(w, events[..i], p, h);
      RefilledReplay(flavour, parsers, w, events[..i], p, h);
      var s := Replayed(flavour, parsers, events[..i]);
      assert Anchored(s, events[i]);
      if events[i].Read? && s.memory.block.None? {
        RefilledAgree(w, s.view, events[i].net.chain, p, h, s.top);
      }
    }
  }

  lemma {:induction false} RunTracks(flavour: Flavour, parsers: Parsers, w: Sample, events: seq<Event>, p: nat, h: nat)
    requires Accepts(parsers, w)
    requires forall i :: 0 <= i < |events| && events[i].Read? ==> IsPaired(w, events[i].net.chain, p, h)
    ensures var s := Replayed(flavour, parsers, events); Tracks(w.sender, s.memory, s.shadow, p, h)
    decreases |events|
  {
    if events != [] {
      var n := |events| - 1;
      RunTracks(flavour, parsers, w, events[..n], p, h);
      StepTracks(flavour, parsers, w, Replayed(flavour, parsers, events[..n]), events[n], p, h);
    }
  }

  // ---------- The condition is exact ----------

  function AnswerAt(flavour: Flavour, parsers: Parsers, events: seq<Event>, i: nat): Result<BitcoinBlock, SourceError>
    requires i < |events| && events[i].Read?
  {
    ReadAt(flavour, parsers, Replayed(flavour, parsers, events[..i]).memory, events[i].net, events[i].height).1
  }

  ghost predicate ReadyAt(flavour: Flavour, parsers: Parsers, events: seq<Event>, i: nat)
    requires i < |events| && events[i].Read?
  {
    var s := Replayed(flavour, parsers, events[..i]);
    Ready(s.memory, s.shadow, events[i].height)
  }

  /** Whether a read is ready, and whether it succeeds, is the same in runs alike. */
  lemma AlikeReads(flavour: Flavour, pa: Parsers, pb: Parsers, a: seq<Event>, b: seq<Event>, i: nat)
    requires SameRun(a, b) && i < |a| && a[i].Read?
    ensures ReadyAt(flavour, pa, a, i) <==> ReadyAt(flavour, pb, b, i)
    ensures AnswerAt(flavour, pa, a, i).Ok? <==> AnswerAt(flavour, pb, b, i).Ok?
  {
    assert SameRun(a[..i], b[..i]);
    RunSight(flavour, pa, pb, a[..i], b[..i]);
    var x, y := Replayed(flavour, pa, a[..i]), Replayed(flavour, pb, b[..i]);
    assert SameEvent(a[i], b[i]);
    ReadSight(flavour, pa, pb, a[i].net, b[i].net, x.memory, y.memory, x.shadow, a[i].height);
  }

  /** A run of one reading source that Bitcoin can have, and a caller that keeps it anchored. */
  ghost predicate Proper(flavour: Flavour, parsers: Parsers, content: Hash -> Tx, events: seq<Event>)
  {
    AnchoredRun(flavour, parsers, events) && Honest(content, events)
  }

  /** With parsers that accept some operation, an unready read that succeeds is wrong in some run alike. */
  lemma UnreadyReadLoses(flavour: Flavour, parsers: Parsers, w: Sample, content: Hash -> Tx, events: seq<Event>, i: nat)
    returns (other: seq<Event>)
    requires Accepts(parsers, w)
    requires Proper(flavour, parsers, content, events) && i < |events| && events[i].Read?
    requires AnswerAt(flavour, parsers, events, i).Ok? && !ReadyAt(flavour, parsers, events, i)
    ensures SameRun(events, other) && Proper(flavour, parsers, Content(w), other)
    ensures events[i].height < |other[i].net.chain|
    ensures AnswerAt(flavour, parsers, other, i) != Ok(Rescan(parsers, other[i].net.chain, events[i].height))
  {
    var s, h := Replayed(flavour, parsers, events[..i]), events[i].height;
    var p := MissingHeight(s.memory, s.shadow, h);
    other := RefilledRun(w, events, p, h);
    RefilledIsAlike(w, events, p, h);
    RefilledHonest(w, content, events, p, h);
    RefilledAnchored(flavour, parsers, w, events, p, h);
    SucceedsOnChain(flavour, parsers, s.memory, events[i].net, h);
    UnreadyReadIsSilent(flavour, parsers, w, events, other, i, p);
    PairedOperation(parsers, w, other[i].net.chain, p, h);
  }

  lemma SucceedsOnChain(flavour: Flavour, parsers: Parsers, m: Memory, net: Network, height: nat)
    requires ReadAt(flavour, parsers, m, net, height).1.Ok?
    ensures height < |net.chain|
  {
    ReadSucceedsIff(flavour, parsers, m, net, height);
    assert AnswersAll(net, FirstHeight(m, height), height) ==> Answers(net, height);
  }

  lemma UnreadyReadIsSilent(flavour: Flavour, parsers: Parsers, w: Sample, events: seq<Event>, other: seq<Event>,
                            i: nat, p: nat)
    requires Accepts(parsers, w)
    requires SameRun(events, other) && i < |events| && events[i].Read?
    requires forall j :: 0 <= j < |other| && other[j].Read? ==> IsPaired(w, other[j].net.chain, p, events[i].height)
    requires !ReadyAt(flavour, parsers, events, i)
    requires var s := Replayed(flavour, parsers, events[..i]); p == MissingHeight(s.memory, s.shadow, events[i].height)
    requires Proper(flavour, parsers, Content(w), other)
    ensures var r := AnswerAt(flavour, parsers, other, i); r.Ok? ==> r.value.operations == []
  {
    var h := events[i].height;
    assert SameRun(events[..i], other[..i]) && SameEvent(events[i], other[i]);
    RunSight(flavour, parsers, parsers, events[..i], other[..i]);
    RunTracks(flavour, parsers, w, other[..i], p, h);
    RunSound(flavour, parsers, Content(w), other, i);
    var t := Replayed(flavour, parsers, other[..i]);
    UnreadyReadsNothing(flavour, parsers, w, t.memory, t.shadow, other[i].net, h, p);
  }

  ghost predicate IsRescanAt(flavour: Flavour, parsers: Parsers, events: seq<Event>, i: nat)
  {
    && i < |events| && events[i].Read? && events[i].height < |events[i].net.chain|
    && AnswerAt(flavour, parsers, events, i) == Ok(Rescan(parsers, events[i].net.chain, events[i].height))
  }

  /** Over runs that meet reorganizations: a read is a rescan in every run alike if and only if it has its window. */
  lemma RunReadsAreRescansIff(flavour: Flavour, parsers: Parsers, w: Sample, content: Hash -> Tx, events: seq<Event>,
                              i: nat)
    requires Accepts(parsers, w)
    requires Proper(flavour, parsers, content, events) && i < |events| && events[i].Read?
    requires AnswerAt(flavour, parsers, events, i).Ok?
    ensures ReadyAt(flavour, parsers, events, i) <==>
              forall content', other :: SameRun(events, other) && Proper(flavour, parsers, content', other) ==>
                IsRescanAt(flavour, parsers, other, i)
  {
    if ReadyAt(flavour, parsers, events, i) {
      forall content', other | SameRun(events, other) && Proper(flavour, parsers, content', other)
        ensures IsRescanAt(flavour, parsers, other, i)
      {
        assert SameEvent(events[i], other[i]);
        AlikeReads(flavour, parsers, parsers, events, other, i);
        RunReadsAreRescans(flavour, parsers, content', other, i);
      }
    } else {
      var _ := UnreadyReadLoses(flavour, parsers, w, content, events, i);
    }
  }
}
