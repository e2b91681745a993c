/** Which tenure-change and coinbase transactions a block may carry, and which a replay may skip. */
module TenureShape {
  import opened Prelude
  import opened Nakamoto

  const MAX_MARKERS: nat := 2 * 1024 * 1024 / 180

  datatype ConsensusError =
    | TenureTransactionCount(coinbases: nat, changes: nat)
    | CoinbaseWithoutTenureChange
    | TenureTransactionPosition(change: nat, coinbase: Option<nat>)
    | TenureChangeCause(cause: Cause)
    | TenureChangeParent
    | TenureChangeConsensusHash
    | TenureChangePreviousTenure
    | MarkerCount(count: nat)
    | MarkerOrder(index: u32)
    | MarkerOutOfBounds(index: u32)
    | MarkerTarget(index: u32)

  predicate IsCoinbase(p: Payload) { p.Coinbase? || p.CoinbaseToAltRecipient? || p.NakamotoCoinbase? }

  predicate IsChange(p: Payload) { p.Change? }

  /** Coinbases and tenure changes make up a block's structure; markers may not name them. */
  predicate IsStructural(p: Payload) { IsCoinbase(p) || IsChange(p) }

  // ---------- The check ----------

  /** Where the wanted payloads are, in order. */
  function Positions(txs: seq<Transaction>, wanted: Payload -> bool): (s: seq<nat>)
    ensures forall i: nat :: i in s <==> i < |txs| && wanted(txs[i].payload)
    ensures forall i, j :: 0 <= i < j < |s| ==> s[i] < s[j]
  {
    if txs == [] then [] else
    var n := |txs| - 1;
    var before := Positions(txs[..n], wanted);
    assert forall k :: k in before ==> k < n;
    assert forall i :: 0 <= i < |before| ==> before[i] in before;
    if wanted(txs[n].payload) then before + [n] else before
  }

  function First<T>(s: seq<T>): Option<T> { if s == [] then None else Some(s[0]) }

  /** The payload of the earliest tenure change in a list of transactions. */
  function FirstChange(txs: seq<Transaction>): Option<TenureChange>
  {
    if txs == [] then None
    else if txs[0].payload.Change? then Some(txs[0].payload.change)
    else FirstChange(txs[1..])
  }

  function CheckTenureTransactions(b: Block): Option<ConsensusError>
  {
    var coinbases, changes := Positions(b.txs, IsCoinbase), Positions(b.txs, IsChange);
    if |coinbases| > 1 || |changes| > 1 then Some(TenureTransactionCount(|coinbases|, |changes|)) else
    var coinbase, change := First(coinbases), First(changes);
    if change.None? then (if coinbase.Some? then Some(CoinbaseWithoutTenureChange) else None) else
    var payload := FirstChange(b.txs);
    if payload.None? then Some(TenureTransactionPosition(change.value, coinbase))
    else CheckTenureChange(b.header, payload.value, change.value, coinbase)
  }

  function CheckTenureChange(h: Header, payload: TenureChange, change: nat,
                             coinbase: Option<nat>): Option<ConsensusError>
  {
    var expected := if payload.cause == BlockFound then Some(1) else None;
    if change != 0 || coinbase != expected then
      (if coinbase.Some? == expected.Some? then Some(TenureTransactionPosition(change, coinbase))
       else Some(TenureChangeCause(payload.cause)))
    else if payload.previousTenureEnd != h.parentBlockId then Some(TenureChangeParent)
    else if payload.tenureConsensusHash != h.consensusHash then Some(TenureChangeConsensusHash)
    else if (payload.previousTenureConsensusHash == payload.tenureConsensusHash) != (payload.cause != BlockFound) then
      Some(TenureChangePreviousTenure)
    else None
  }

  // ---------- The three shapes ----------

  /** No structural transaction from an index on. */
  ghost predicate PlainFrom(txs: seq<Transaction>, from: nat)
  {
    forall i :: from <= i < |txs| ==> txs[i].payload.Ordinary?
  }

  /** A change that fits its header: it ends where the header's parent is, in the header's tenure. */
  ghost predicate Binds(h: Header, c: TenureChange)
  {
    c.previousTenureEnd == h.parentBlockId && c.tenureConsensusHash == h.consensusHash
  }

  /** A tenure starts: the change first, the coinbase second, and another tenure before. */
  ghost predicate StartsTenure(b: Block)
  {
    && |b.txs| >= 2 && b.txs[0].payload.Change? && PlainFrom(b.txs, 2)
    && (b.txs[1].payload.Coinbase? || b.txs[1].payload.CoinbaseToAltRecipient? || b.txs[1].payload.NakamotoCoinbase?)
    && var c := b.txs[0].payload.change;
       c.cause == BlockFound && Binds(b.header, c) && c.previousTenureConsensusHash != c.tenureConsensusHash
  }

  /** A tenure is extended: the change first and alone, and the same tenure before. */
  ghost predicate ExtendsTenure(b: Block)
  {
    && |b.txs| >= 1 && b.txs[0].payload.Change? && PlainFrom(b.txs, 1)
    && var c := b.txs[0].payload.change;
       c.cause != BlockFound && Binds(b.header, c) && c.previousTenureConsensusHash == c.tenureConsensusHash
  }

  lemma {:induction false} FirstChangeIs(txs: seq<Transaction>, i: nat)
    requires i < |txs| && txs[i].payload.Change? && forall j :: 0 <= j < i ==> !txs[j].payload.Change?
    ensures FirstChange(txs) == Some(txs[i].payload.change)
  {
    if i != 0 {
      assert txs[1..][i - 1] == txs[i];
      FirstChangeIs(txs[1..], i - 1);
    }
  }

  lemma {:induction false} PositionsOfNone(txs: seq<Transaction>, wanted: Payload -> bool)
    requires forall i :: 0 <= i < |txs| ==> !wanted(txs[i].payload)
    ensures Positions(txs, wanted) == []
  {
    if txs != [] {
      PositionsOfNone(txs[..|txs| - 1], wanted);
    }
  }

  lemma {:induction false} PositionsOfOne(txs: seq<Transaction>, wanted: Payload -> bool, p: nat)
    requires p < |txs| && forall i :: 0 <= i < |txs| ==> (wanted(txs[i].payload) <==> i == p)
    ensures Positions(txs, wanted) == [p]
  {
    var n := |txs| - 1;
    if p == n {
      PositionsOfNone(txs[..n], wanted);
    } else {
      PositionsOfOne(txs[..n], wanted, p);
    }
  }

  lemma ShapesAccepted(b: Block)
    requires PlainFrom(b.txs, 0) || StartsTenure(b) || ExtendsTenure(b)
    ensures CheckTenureTransactions(b).None?
  {
    if PlainFrom(b.txs, 0) {
      PositionsOfNone(b.txs, IsCoinbase);
      PositionsOfNone(b.txs, IsChange);
    } else {
      FirstChangeIs(b.txs, 0);
      if StartsTenure(b) {
        PositionsOfOne(b.txs, IsCoinbase, 1);
        PositionsOfOne(b.txs, IsChange, 0);
      } else {
        PositionsOfNone(b.txs, IsCoinbase);
        PositionsOfOne(b.txs, IsChange, 0);
      }
    }
  }

  /** At most one place holds a wanted payload, and the list of places says which. */
  lemma OnlyPosition(txs: seq<Transaction>, wanted: Payload -> bool)
    requires |Positions(txs, wanted)| <= 1
    ensures forall i :: 0 <= i < |txs| ==> (wanted(txs[i].payload) <==> First(Positions(txs, wanted)) == Some(i))
    ensures First(Positions(txs, wanted)).Some? ==>
              var p := First(Positions(txs, wanted)).value; p < |txs| && wanted(txs[p].payload)
  {
    var s := Positions(txs, wanted);
    assert s != [] ==> s[0] in s;
    forall i | 0 <= i < |txs| ensures wanted(txs[i].payload) <==> First(s) == Some(i) {
      assert i in s <==> wanted(txs[i].payload);
    }
  }

  /** One change and at most one coinbase at the places the check demands: one of the tenure shapes. */
  lemma AcceptedChange(b: Block, change: nat, coinbase: Option<nat>)
    requires forall i :: 0 <= i < |b.txs| ==> (IsChange(b.txs[i].payload) <==> i == change)
    requires forall i :: 0 <= i < |b.txs| ==> (IsCoinbase(b.txs[i].payload) <==> coinbase == Some(i))
    requires change < |b.txs| && (coinbase.Some? ==> coinbase.value < |b.txs|)
    requires IsChange(b.txs[change].payload)
        && CheckTenureChange(b.header, b.txs[change].payload.change, change, coinbase).None?
    ensures StartsTenure(b) || ExtendsTenure(b)
  {
  }

  lemma AcceptedShapes(b: Block)
    requires CheckTenureTransactions(b).None?
    ensures PlainFrom(b.txs, 0) || StartsTenure(b) || ExtendsTenure(b)
  {
    OnlyPosition(b.txs, IsCoinbase);
    OnlyPosition(b.txs, IsChange);
    var coinbase, change := First(Positions(b.txs, IsCoinbase)), First(Positions(b.txs, IsChange));
    if change.Some? {
      FirstChangeIs(b.txs, change.value);
      AcceptedChange(b, change.value, coinbase);
    }
  }

  /** The check accepts exactly three shapes of block. */
  lemma ExactlyThreeShapes(b: Block)
    ensures CheckTenureTransactions(b).None? <==> PlainFrom(b.txs, 0) || StartsTenure(b) || ExtendsTenure(b)
  {
    if CheckTenureTransactions(b).None? {
      AcceptedShapes(b);
    } else if PlainFrom(b.txs, 0) || StartsTenure(b) || ExtendsTenure(b) {
      ShapesAccepted(b);
    }
  }

  // ---------- Why a block is refused ----------

  ghost function Coinbases(b: Block): set<nat>
  {
    set i: nat | i < |b.txs| && !b.txs[i].payload.Change? && !b.txs[i].payload.Ordinary?
  }

  ghost function Changes(b: Block): set<nat> { set i: nat | i < |b.txs| && b.txs[i].payload.Change? }

  /** One change in the block, at an index: a missing or an unwanted coinbase is a fault of its cause, and a
      coinbase or a change out of place is a fault of position; only then does it matter what the change says. */
  ghost predicate ChangeRefused(b: Block, at: nat, error: ConsensusError)
    requires at < |b.txs| && b.txs[at].payload.Change?
  {
    var c, coinbases := b.txs[at].payload.change, Coinbases(b);
    if (coinbases == {}) == (c.cause == BlockFound) then error == TenureChangeCause(c.cause)
    else if at != 0 || (coinbases != {} && coinbases != {1}) then
      && error.TenureTransactionPosition? && error.change == at
      && if coinbases == {} then error.coinbase.None? else error.coinbase.Some? && coinbases == {error.coinbase.value}
    else if c.previousTenureEnd != b.header.parentBlockId then error == TenureChangeParent
    else if c.tenureConsensusHash != b.header.consensusHash then error == TenureChangeConsensusHash
    else
      && (c.cause == BlockFound <==> c.previousTenureConsensusHash == c.tenureConsensusHash)
      && error == TenureChangePreviousTenure
  }

  ghost predicate Refused(b: Block, error: ConsensusError)
  {
    var coinbases, changes := Coinbases(b), Changes(b);
    if |coinbases| > 1 || |changes| > 1 then error == TenureTransactionCount(|coinbases|, |changes|)
    else if changes == {} then coinbases != {} && error == CoinbaseWithoutTenureChange
    else exists at :: at in changes && ChangeRefused(b, at, error)
  }

  lemma {:induction false} AscendingSize(s: seq<nat>, places: set<nat>)
    requires forall i, j :: 0 <= i < j < |s| ==> s[i] < s[j]
    requires forall i :: i in places <==> i in s
    ensures |places| == |s|
  {
    if s != [] {
      var n := |s| - 1;
      assert s[n] in places && s == s[..n] + [s[n]];
      AscendingSize(s[..n], places - {s[n]});
    }
  }

  /** The positions of a payload, as a set of at most one index. */
  lemma PositionsSize(txs: seq<Transaction>, wanted: Payload -> bool, places: set<nat>)
    requires forall i: nat :: i in places <==> i < |txs| && wanted(txs[i].payload)
    ensures var s := Positions(txs, wanted);
            |s| == |places| && (|s| <= 1 ==> places == if s == [] then {} else {s[0]})
  {
    var s := Positions(txs, wanted);
    AscendingSize(s, places);
    assert |s| == 1 ==> s[0] in s;
    assert s != [] || forall i :: i !in places;
    assert |s| == 1 ==> forall i :: i in places ==> i in s && i == s[0];
  }

  /** Every refusal is for its reason, and the first that applies. */
  lemma RefusedIff(b: Block, error: ConsensusError)
    ensures CheckTenureTransactions(b) == Some(error) <==> Refused(b, error)
  {
    PositionsSize(b.txs, IsCoinbase, Coinbases(b));
    PositionsSize(b.txs, IsChange, Changes(b));
    var coinbases, changes := Positions(b.txs, IsCoinbase), Positions(b.txs, IsChange);
    if |coinbases| <= 1 && |changes| == 1 {
      assert changes[0] in Changes(b) && forall at :: at in Changes(b) ==> at == changes[0];
      FirstChangeIs(b.txs, changes[0]);
      ChangeRefusedIff(b, changes[0], First(coinbases), error);
    }
  }

  lemma ChangeRefusedIff(b: Block, at: nat, coinbase: Option<nat>, error: ConsensusError)
    requires at < |b.txs| && b.txs[at].payload.Change?
    requires Coinbases(b) == if coinbase.Some? then {coinbase.value} else {}
    ensures CheckTenureChange(b.header, b.txs[at].payload.change, at, coinbase) == Some(error)
       <==> ChangeRefused(b, at, error)
  {
    assert coinbase.Some? ==> coinbase.value in Coinbases(b);
    assert coinbase.Some? ==> forall v :: {coinbase.value} == {v} ==> v in {coinbase.value};
  }

  // ---------- Markers ----------

  /** Markers a replay can follow: few enough, rising, and each at a transaction that is not structure. */
  ghost predicate Followable(b: Block)
  {
    var markers := b.header.markers;
    && |markers| <= 11650
    && FollowableUpTo(b, |markers|)
  }

  ghost predicate FollowableUpTo(b: Block, n: nat)
    requires n <= |b.header.markers|
  {
    var markers := b.header.markers;
    && (forall i, j :: 0 <= i < j < n ==> markers[i].index < markers[j].index)
    && (forall i :: 0 <= i < n ==> markers[i].index < |b.txs| && b.txs[markers[i].index].payload.Ordinary?)
  }

  /** The refusal names the first marker at fault, and its first fault: order, then bounds, then target. */
  ghost predicate RefusedFor(b: Block, error: ConsensusError)
  {
    if error.MarkerCount? then error.count == |b.header.markers| > 11650
    else |b.header.markers| <= 11650 && exists i: nat :: FaultAt(b, i, error)
  }

  ghost predicate FaultAt(b: Block, i: nat, error: ConsensusError)
  {
    var markers := b.header.markers;
    && i < |markers| && FollowableUpTo(b, i)
    && var index := markers[i].index;
       if i > 0 && index <= markers[i - 1].index then error == MarkerOrder(index)
       else if index >= |b.txs| then error == MarkerOutOfBounds(index)
       else !b.txs[index].payload.Ordinary? && error == MarkerTarget(index)
  }

  method CheckProblematicMarkers(b: Block) returns (r: Option<ConsensusError>)
    ensures r.None? <==> Followable(b)
    ensures r.Some? ==> RefusedFor(b, r.value)
  {
    var markers := b.header.markers;
    if |markers| > MAX_MARKERS {
      return Some(MarkerCount(|markers|));
    }
    var previous: Option<u32> := None;
    for i := 0 to |markers|
      invariant previous == if i == 0 then None else Some(markers[i - 1].index)
      invariant FollowableUpTo(b, i)
    {
      var index := markers[i].index;
      if previous.Some? && index <= previous.value {
        assert FaultAt(b, i, MarkerOrder(index));
        return Some(MarkerOrder(index));
      }
      previous := Some(index);
      if index >= |b.txs| {
        assert FaultAt(b, i, MarkerOutOfBounds(index));
        return Some(MarkerOutOfBounds(index));
      }
      if IsStructural(b.txs[index].payload) {
        assert FaultAt(b, i, MarkerTarget(index));
        return Some(MarkerTarget(index));
      }
    }
    return None;
  }

  ghost function Marked(b: Block): set<nat>
  {
    set i | 0 <= i < |b.header.markers| :: b.header.markers[i].index
  }

  /** The first `n` transactions, without the marked ones. */
  ghost function Kept(txs: seq<Transaction>, marked: set<nat>, n: nat): seq<Transaction>
    requires n <= |txs|
  {
    if n == 0 then [] else
    Kept(txs, marked, n - 1) + if n - 1 in marked then [] else [txs[n - 1]]
  }

  ghost function Structure(txs: seq<Transaction>): seq<Transaction>
  {
    if txs == [] then [] else
    var n := |txs| - 1;
    Structure(txs[..n]) + if txs[n].payload.Ordinary? then [] else [txs[n]]
  }

  ghost predicate Spares(txs: seq<Transaction>, marked: set<nat>)
  {
    forall i :: i in marked ==> i < |txs| && txs[i].payload.Ordinary?
  }

  /** Skipping keeps a structural front in front, and leaves nothing structural behind it. */
  lemma {:induction false} KeptFront(txs: seq<Transaction>, marked: set<nat>, front: nat, n: nat)
    requires Spares(txs, marked) && front <= n <= |txs| && PlainFrom(txs, front)
    requires forall i :: 0 <= i < front ==> !txs[i].payload.Ordinary?
    ensures var kept := Kept(txs, marked, n);
            front <= |kept| && kept[..front] == txs[..front] && PlainFrom(kept, front)
  {
    if n == front {
      KeptAll(txs, marked, front);
    } else {
      KeptFront(txs, marked, front, n - 1);
    }
  }

  lemma {:induction false} KeptAll(txs: seq<Transaction>, marked: set<nat>, n: nat)
    requires n <= |txs| && forall i :: 0 <= i < n ==> i !in marked
    ensures Kept(txs, marked, n) == txs[..n]
  {
    if n != 0 {
      KeptAll(txs, marked, n - 1);
      assert txs[..n] == txs[..n - 1] + [txs[n - 1]];
    }
  }

  /** Skipping loses no structural transaction and keeps their order. */
  lemma {:induction false} SkippingKeepsStructure(txs: seq<Transaction>, marked: set<nat>, n: nat)
    requires Spares(txs, marked) && n <= |txs|
    ensures Structure(Kept(txs, marked, n)) == Structure(txs[..n])
  {
    if n != 0 {
      SkippingKeepsStructure(txs, marked, n - 1);
      var kept, tx := Kept(txs, marked, n - 1), txs[n - 1];
      assert txs[..n] == txs[..n - 1] + [tx] && kept + [] == kept;
      assert Kept(txs, marked, n) == if n - 1 in marked then kept else kept + [tx];
      SkippingStep(kept, txs[..n - 1], tx, n - 1 in marked);
    }
  }

  lemma SkippingStep(kept: seq<Transaction>, all: seq<Transaction>, tx: Transaction, skipped: bool)
    requires Structure(kept) == Structure(all) && (skipped ==> tx.payload.Ordinary?)
    ensures Structure(if skipped then kept else kept + [tx]) == Structure(all + [tx])
  {
    StructureStep(all, tx);
    StructureStep(kept, tx);
  }

  lemma StructureStep(txs: seq<Transaction>, tx: Transaction)
    ensures Structure(txs + [tx]) == if tx.payload.Ordinary? then Structure(txs) else Structure(txs) + [tx]
  {
    assert (txs + [tx])[..|txs|] == txs;
    assert Structure(txs) + [] == Structure(txs);
  }

  /** A block that passes both checks still passes the tenure check after a replay skips what its markers name. */
  lemma SkippingKeepsShape(b: Block)
    requires Followable(b) && CheckTenureTransactions(b).None?
    ensures CheckTenureTransactions(b.(txs := Kept(b.txs, Marked(b), |b.txs|))).None?
  {
    AcceptedShapes(b);
    var kept := Kept(b.txs, Marked(b), |b.txs|);
    var front := if PlainFrom(b.txs, 0) then 0 else if StartsTenure(b) then 2 else 1;
    KeptFront(b.txs, Marked(b), front, |b.txs|);
    assert forall i :: 0 <= i < front ==> kept[i] == kept[..front][i] == b.txs[i];
    ShapesAccepted(b.(txs := kept));
  }
}
