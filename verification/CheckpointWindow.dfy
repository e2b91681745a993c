/** The ledger a checkpoint seeds, and the earnings windows an export refuses. */
module CheckpointWindow {
  import opened Prelude
  import opened KeySums
  import opened TenureLedger
  import opened LedgerRuns

  // ---------- Seeding from a checkpoint ----------

  datatype Row = Row(height: u64, earned: Earnings)

  /** The rows of a checkpoint, a later one replacing an earlier one of its height. */
  function AllRows(rows: seq<Row>): map<nat, Earnings>
  {
    if rows == [] then map[] else
    var n := |rows| - 1;
    AllRows(rows[..n])[rows[n].height := rows[n].earned]
  }

  datatype MaturedRow = MaturedRow(height: nat, effects: Effects)

  datatype CheckpointError = DuplicateCoinbaseHeight

  predicate DistinctHeights(rows: seq<MaturedRow>)
  {
    forall i, j :: 0 <= i < j < |rows| ==> rows[i].height != rows[j].height
  }

  function AllEffects(rows: seq<MaturedRow>): map<nat, Effects>
  {
    if rows == [] then map[] else
    var n := |rows| - 1;
    AllEffects(rows[..n])[rows[n].height := rows[n].effects]
  }

  /** With a height of its own, each effect is kept. */
  lemma {:induction false} AllEffectsAt(rows: seq<MaturedRow>, i: nat)
    requires DistinctHeights(rows) && i < |rows|
    ensures rows[i].height in AllEffects(rows) && AllEffects(rows)[rows[i].height] == rows[i].effects
    decreases |rows|
  {
    var n := |rows| - 1;
    if i < n {
      AllEffectsAt(rows[..n], i);
    }
  }

  lemma {:induction false} AllEffectsKeys(rows: seq<MaturedRow>, height: nat)
    ensures height in AllEffects(rows) <==> exists i :: 0 <= i < |rows| && rows[i].height == height
    decreases |rows|
  {
    if rows != [] {
      var n := |rows| - 1;
      AllEffectsKeys(rows[..n], height);
      assert forall i :: 0 <= i < n ==> rows[..n][i] == rows[i];
    }
  }

  method SeedAll(accounting: TenureAccounting, tenures: seq<Row>)
    requires accounting.earnings == map[]
    modifies accounting`earnings
    ensures accounting.earnings == Pruned(AllRows(tenures))
  {
    for n := 0 to |tenures|
      invariant accounting.earnings == Pruned(AllRows(tenures[..n]))
    {
      ghost var before := AllRows(tenures[..n]);
      PrunedOnce(before, tenures[n].height, tenures[n].earned);
      accounting.SeedEarnings(tenures[n].height, tenures[n].earned);
      assert tenures[..n + 1][..n] == tenures[..n];
      assert AllRows(tenures[..n + 1]) == before[tenures[n].height := tenures[n].earned];
    }
    assert tenures[..|tenures|] == tenures;
  }

  method MatureAll(accounting: TenureAccounting, rows: seq<MaturedRow>) returns (ok: bool)
    requires accounting.matured == map[]
    modifies accounting`matured
    ensures ok <==> DistinctHeights(rows)
    ensures ok ==> accounting.matured == AllEffects(rows)
  {
    for n := 0 to |rows|
      invariant forall i, j :: 0 <= i < j < n ==> rows[i].height != rows[j].height
      invariant accounting.matured == AllEffects(rows[..n])
    {
      assert rows[..n + 1][..n] == rows[..n];
      AllEffectsKeys(rows[..n], rows[n].height);
      if rows[n].height in accounting.matured {
        return false;
      }
      assert forall i :: 0 <= i < n ==> rows[..n][i] == rows[i];
      accounting.matured := accounting.matured[rows[n].height := rows[n].effects];
    }
    assert rows[..|rows|] == rows;
    ok := true;
  }

  /** The ledger a checkpoint describes: its newest tenures, its matured effects, or a duplicate refused. */
  method FromCheckpoint(tenures: seq<Row>, effects: seq<MaturedRow>, started: Option<nat>, scheduled: bool)
    returns (r: Result<TenureAccounting, CheckpointError>)
    ensures r.Ok? <==> DistinctHeights(effects)
    ensures r.Ok? ==>
      && fresh(r.value)
      && r.value.View() == Ledger(AllEffects(effects), Pruned(AllRows(tenures)), started, scheduled)
      && (forall i :: 0 <= i < |effects| ==>
            effects[i].height in r.value.matured && r.value.matured[effects[i].height] == effects[i].effects)
      && (forall h :: h in r.value.matured <==> exists i :: 0 <= i < |effects| && effects[i].height == h)
  {
    var accounting := new TenureAccounting();
    SeedAll(accounting, tenures);
    var ok := MatureAll(accounting, effects);
    if !ok {
      return Err(DuplicateCoinbaseHeight);
    }
    accounting.started, accounting.scheduled := started, scheduled;
    forall i | 0 <= i < |effects|
      ensures effects[i].height in AllEffects(effects) && AllEffects(effects)[effects[i].height] == effects[i].effects
    {
      AllEffectsAt(effects, i);
    }
    forall h: nat
      ensures h in AllEffects(effects) <==> exists i :: 0 <= i < |effects| && effects[i].height == h
    {
      AllEffectsKeys(effects, h);
    }
    r := Ok(accounting);
  }

  // ---------- The exported window ----------

  datatype WindowError =
    | NoEarnings
    | Missing(height: nat)
    | StopsShort
    | TooFew(covered: nat)
    | Overflows

  function FirstMissing(heights: seq<nat>, low: nat, high: nat): (r: Option<nat>)
    ensures r.None? <==> forall h :: low <= h <= high ==> h in heights
    ensures r.Some? ==>
              low <= r.value <= high && r.value !in heights && forall h :: low <= h < r.value ==> h in heights
    decreases high + 1 - low
  {
    if low > high then None
    else if low !in heights then Some(low)
    else FirstMissing(heights, low + 1, high)
  }

  /** An unbroken window that reaches the last tenure, or its parent, and is longer than the maturity. */
  ghost predicate FullWindow(heights: seq<nat>, last: nat)
  {
    && heights != []
    && (forall h :: heights[0] <= h <= heights[|heights| - 1] ==> h in heights)
    && last <= heights[|heights| - 1] + 1
    && heights[0] + 100 <= heights[|heights| - 1]
  }

  /** Why an exported window could not be paid from.  The bounds are 64-bit sums: a build that checks them stops
      where they overflow, one that does not `wraps`. */
  function RefuseShortWindow(heights: seq<u64>, last: u64, wraps: bool): (r: Option<WindowError>)
    ensures heights == [] || heights[0] <= heights[|heights| - 1] < U64_MAX ==> (r.None? <==> FullWindow(heights, last))
    ensures heights != [] && !(heights[0] <= heights[|heights| - 1] < U64_MAX) && r.None? ==> wraps
  {
    if heights == [] then Some(NoEarnings) else
    var lowest, highest := heights[0], heights[|heights| - 1];
    var missing := FirstMissing(heights, lowest, highest);
    if missing.Some? then Some(Missing(missing.value))
    else if highest == U64_MAX && !wraps then Some(Overflows)
    else if (highest + 1) % (U64_MAX + 1) < last then Some(StopsShort)
    else if highest < lowest && !wraps then Some(Overflows)
    else
      var covered := (highest - lowest + 1) % (U64_MAX + 1);
      if covered <= MATURITY then Some(TooFew(covered)) else None
  }

  /** Why a window is refused, in the order the reasons are looked for. */
  ghost predicate WindowFault(heights: seq<u64>, last: u64, wraps: bool, error: WindowError)
  {
    if heights == [] then error == NoEarnings else
    var lowest, highest := heights[0], heights[|heights| - 1];
    if exists h :: lowest <= h <= highest && h !in heights then
      && error.Missing? && lowest <= error.height <= highest && error.height !in heights
      && forall h :: lowest <= h < error.height ==> h in heights
    else if !wraps && highest == 0xffff_ffff_ffff_ffff then error == Overflows
    else if (if highest == 0xffff_ffff_ffff_ffff then 0 else highest + 1) < last then error == StopsShort
    else if !wraps && highest < lowest then error == Overflows
    else error.TooFew? && error.covered <= 100 && Covers(lowest, highest, error.covered)
  }

  /** How many heights a window spans, as 64 bits count it. */
  ghost predicate Covers(lowest: u64, highest: u64, covered: nat)
  {
    if (lowest == 0 && highest == 0xffff_ffff_ffff_ffff) || lowest == highest + 1 then covered == 0
    else if lowest <= highest then covered == highest - lowest + 1
    else covered + (lowest - highest) == 0x1_0000_0000_0000_0001
  }

  lemma CoveredIs(lowest: u64, highest: u64, covered: nat)
    ensures covered == (highest - lowest + 1) % (U64_MAX + 1) <==> Covers(lowest, highest, covered)
  {
    var n := highest - lowest + 1;
    if n == U64_MAX + 1 {
      assert n % (U64_MAX + 1) == 0;
    } else if n <= 0 {
      assert (n + (U64_MAX + 1)) % (U64_MAX + 1) == n % (U64_MAX + 1);
    }
  }

  /** Every refusal is for its reason, and the first that applies. */
  lemma RefusedWindow(heights: seq<u64>, last: u64, wraps: bool, error: WindowError)
    ensures RefuseShortWindow(heights, last, wraps) == Some(error) <==> WindowFault(heights, last, wraps, error)
  {
    if heights != [] {
      var lowest, highest := heights[0], heights[|heights| - 1];
      var missing := FirstMissing(heights, lowest, highest);
      if missing.Some? && WindowFault(heights, last, wraps, error) {
        assert !(error.height < missing.value) && !(missing.value < error.height);
      }
      CoveredIs(lowest, highest, (highest - lowest + 1) % (U64_MAX + 1));
      if error.TooFew? {
        CoveredIs(lowest, highest, error.covered);
      }
    }
  }

  function Heights(rows: seq<Row>): (r: seq<u64>)
    ensures |r| == |rows| && forall i :: 0 <= i < |rows| ==> r[i] == rows[i].height
  {
    seq(|rows|, i requires 0 <= i < |rows| => rows[i].height)
  }

  lemma {:induction false} AllRowsKeys(rows: seq<Row>, h: nat)
    ensures h in AllRows(rows) <==> h in Heights(rows)
    decreases |rows|
  {
    if rows != [] {
      var n := |rows| - 1;
      AllRowsKeys(rows[..n], h);
      assert Heights(rows) == Heights(rows[..n]) + [rows[n].height];
    }
  }

  /** A node with the rows of a checkpoint, and with its effects, start and schedule as in `base`. */
  function SeededState(rows: seq<Row>, base: Ledger, tip: nat): State
  {
    State(base.(earnings := Pruned(AllRows(rows))), tip)
  }

  function UnprunedState(rows: seq<Row>, base: Ledger, tip: nat): State
  {
    State(base.(earnings := AllRows(rows)), tip)
  }

  /** A full window, in ascending order as the exporter lists it. */
  ghost predicate Accepted(rows: seq<Row>, last: u64)
  {
    IsAscending(Heights(rows)) && FullWindow(Heights(rows), last)
  }

  /** Short of the 64-bit limit, that is what a build of either kind accepts of an ascending window. */
  lemma GuardAccepts(rows: seq<Row>, last: u64, wraps: bool)
    requires IsAscending(Heights(rows)) && (rows == [] || rows[|rows| - 1].height < U64_MAX)
    ensures RefuseShortWindow(Heights(rows), last, wraps).None? <==> Accepted(rows, last)
  {
    assert rows != [] ==> Heights(rows)[0] <= Heights(rows)[|rows| - 1];
  }

  /** Seeding forgets no row that is still to be read. */
  lemma SeededMirrors(rows: seq<Row>, base: Ledger, tip: nat)
    requires Roomy(UnprunedState(rows, base, tip))
    ensures Mirrors(SeededState(rows, base, tip), UnprunedState(rows, base, tip))
  {
    var full := UnprunedState(rows, base, tip);
    var all := full.ledger.earnings;
    forall r | r in all && Needed(full, r)
      ensures r in Pruned(all)
    {
      var g := if r + MATURITY > tip && r + MATURITY !in base.matured then r + MATURITY else r + MATURITY + 1;
      assert all == all[r := all[r]];
      Survives(all, r, all[r], r, g);
    }
  }

  lemma AcceptedRows(rows: seq<Row>, last: u64)
    requires Accepted(rows, last)
    ensures forall h :: h in AllRows(rows) <==> rows[0].height <= h <= rows[|rows| - 1].height
  {
    var heights := Heights(rows);
    forall h: nat
      ensures h in AllRows(rows) <==> rows[0].height <= h <= rows[|rows| - 1].height
    {
      AllRowsKeys(rows, h);
      assert heights[0] <= h <= heights[|rows| - 1] ==> h in heights;
    }
  }

  /** Enough of an unbroken window is kept to pass the startup check. */
  lemma UnbrokenPasses(all: map<nat, Earnings>, low: nat, high: nat)
    requires (forall h :: h in all <==> low <= h <= high) && high - low >= MATURITY
    ensures Top(Pruned(all)) == high && Window(Pruned(all), high)
  {
    forall r | r in all && high < r + KEPT
      ensures r in Pruned(all)
    {
      PrunedKeeps(all, r, high);
    }
    assert high in Pruned(all);
  }

  /** A node seeded from an accepted window, wherever it stands and whatever effects come along, pays for ever if
      and only if it is caught up. */
  lemma AcceptedWindowExact(rows: seq<Row>, last: u64, base: Ledger, tip: nat)
    requires Accepted(rows, last)
    ensures var s := SeededState(rows, base, tip);
            (forall starts :: AlwaysPays(s, starts)) <==> base.scheduled && CaughtUp(s)
  {
    AcceptedRows(rows, last);
    UnbrokenPasses(AllRows(rows), rows[0].height, rows[|rows| - 1].height);
    StartupExact(SeededState(rows, base, tip));
  }

  /** The effects of a checkpoint cover the captured tenures: those after the node's tip, up to the last. */
  ghost predicate CoversCapture(matured: map<nat, Effects>, tip: nat, last: nat)
  {
    (forall h :: tip < h <= last ==> h in matured) && forall h :: h in matured ==> h <= last
  }

  /** An exported checkpoint pays for ever if and only if its node stands no higher than its newest row; and then
      forgetting never changes what it pays. */
  lemma CheckpointPaysIff(rows: seq<Row>, last: u64, base: Ledger, tip: nat)
    requires Accepted(rows, last) && rows[|rows| - 1].height <= last && CoversCapture(base.matured, tip, last)
    ensures var s := SeededState(rows, base, tip);
            (forall starts :: AlwaysPays(s, starts)) <==> base.scheduled && tip <= rows[|rows| - 1].height
    ensures Mirrors(SeededState(rows, base, tip), UnprunedState(rows, base, tip))
  {
    AcceptedRows(rows, last);
    UnbrokenPasses(AllRows(rows), rows[0].height, rows[|rows| - 1].height);
    var s, full := SeededState(rows, base, tip), UnprunedState(rows, base, tip);
    forall h | h > tip && h !in base.matured
      ensures |Newer(full.ledger.earnings, h)| < MATURITY && |Newer(s.ledger.earnings, h)| < MATURITY
    {
      assert Newer(full.ledger.earnings, h) == {} && Newer(s.ledger.earnings, h) == {};
    }
    SeededMirrors(rows, base, tip);
    AcceptedWindowExact(rows, last, base, tip);
    assert tip >= last ==> tip + MATURITY + 1 !in base.matured;
  }

  /** A window with a hole no payout reads any more is refused, and would pay. */
  lemma RefusedYetPays(earned: Earnings) returns (rows: seq<Row>)
    ensures IsAscending(Heights(rows))
        && forall wraps :: RefuseShortWindow(Heights(rows), 150, wraps) == Some(Missing(2))
    ensures var s := SeededState(rows, Ledger(map[], map[], None, true), 150); forall starts :: AlwaysPays(s, starts)
  {
    rows := seq(149, i requires 0 <= i < 149 => Row(if i == 0 then 1 else i + 2, earned));
    var heights, all := Heights(rows), AllRows(rows);
    assert heights[0] == 1 && heights[148] == 150 && 2 !in heights;
    forall h
      ensures h in all <==> h == 1 || 3 <= h <= 150
    {
      AllRowsKeys(rows, h);
      assert 3 <= h <= 150 ==> heights[h - 2] == h;
      assert h == 1 ==> heights[0] == h;
    }
    assert FirstMissing(heights, 1, 150) == Some(2);
    forall r | r in all
      ensures r in Pruned(all)
    {
      PrunedKeeps(all, r, 150);
    }
    var s := SeededState(rows, Ledger(map[], map[], None, true), 150);
    assert 150 in s.ledger.earnings && Top(s.ledger.earnings) == 150;
    StartupExactWithoutCheckpoint(s);
  }

  /** Both rows that each of the next hundred payouts reads lie in an accepted window. */
  lemma AcceptedWindowHoldsBothRows(heights: seq<u64>, last: u64, h: nat)
    requires FullWindow(heights, last)
    requires heights[|heights| - 1] < h <= heights[|heights| - 1] + MATURITY
    ensures h - MATURITY in heights && h - MATURITY - 1 in heights
  {
    assert heights[0] <= h - MATURITY - 1 <= heights[|heights| - 1];
  }
}
