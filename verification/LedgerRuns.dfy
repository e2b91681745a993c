/**
 Whole runs of a tenure ledger: what forgetting changes (nothing), and exactly which ledgers pay every tenure
 that could follow.
 */
module LedgerRuns {
  import opened Prelude
  import opened KeySums
  import opened TenureLedger

  datatype State = State(ledger: Ledger, tip: nat)

  datatype Event =
    | Start(earned: Earnings)
    | Fees(amount: nat)
    | Retract(height: nat)

  function Step(s: State, e: Event, forget: bool): State
  {
    match e
    case Start(earned) =>
      State(if s.ledger.scheduled then Recorded(s.ledger, s.tip + 1, earned, forget) else s.ledger, s.tip + 1)
    case Fees(amount) => State(WithFees(s.ledger, s.tip, amount), s.tip)
    case Retract(height) => State(Retracted(s.ledger, height), Min(s.tip, SaturatingSub(height, 1)))
  }

  /** The payouts of a run, in order. */
  function Payouts(s: State, events: seq<Event>, boot: string, forget: bool): seq<Result<Effects, PayoutError>>
    decreases |events|
  {
    if events == [] then [] else
    var t := Step(s, events[0], forget);
    (if events[0].Start? then [EffectsAt(t.ledger, boot, t.tip)] else []) + Payouts(t, events[1..], boot, forget)
  }

  // ---------- Forgetting changes no payout ----------

  /** Fewer than a hundred rows lie above any tenure whose payout is still to be derived. */
  ghost predicate Roomy(s: State)
  {
    forall h :: h > s.tip && h !in s.ledger.matured ==> |Newer(s.ledger.earnings, h)| < MATURITY
  }

  /** The payout of a tenure still to start reads this row. */
  ghost predicate Needed(s: State, r: nat)
  {
    && (r <= s.tip || !s.ledger.scheduled)
    && ((r + MATURITY > s.tip && r + MATURITY !in s.ledger.matured)
        || (r + MATURITY + 1 > s.tip && r + MATURITY + 1 !in s.ledger.matured))
  }

  /** The smaller ledger holds every row the larger one has and still needs. */
  ghost predicate Reaches(pruned: State, full: State)
  {
    && pruned.ledger.started == full.ledger.started
    && forall r :: r in full.ledger.earnings && Needed(full, r) ==> r in pruned.ledger.earnings
  }

  /** One ledger holds part of what the other does, and every row that is still to be read. */
  ghost predicate Mirrors(pruned: State, full: State)
  {
    && pruned.tip == full.tip && pruned.ledger.matured == full.ledger.matured
    && pruned.ledger.scheduled == full.ledger.scheduled
    && PartOf(pruned.ledger.earnings, full.ledger.earnings)
    && Roomy(full) && Reaches(pruned, full)
  }

  lemma NewerPart(part: map<nat, Earnings>, rows: map<nat, Earnings>, height: nat)
    requires PartOf(part, rows)
    ensures |Newer(part, height)| <= |Newer(rows, height)|
  {
    SubsetSize(Newer(part, height), Newer(rows, height));
  }

  /** A row that a payout at `g` reads outlives the start of every tenure up to `g`. */
  lemma Survives(rows: map<nat, Earnings>, height: nat, earned: Earnings, r: nat, g: nat)
    requires r in rows[height := earned] && r < g <= r + MATURITY + 1 && height <= g
    requires |Newer(rows, g)| < MATURITY
    ensures r in Pruned(rows[height := earned])
  {
    var newer := Newer(rows[height := earned], r);
    var near := set k | k in newer && k <= g;
    BoundedCount(near, r + 1, g);
    assert newer <= near + Newer(rows, g);
    SubsetSize(newer, near + Newer(rows, g));
  }

  /** The rows that a start at `h` must leave: all that it or a later payout reads. */
  ghost predicate KeptFor(full: State, rows: map<nat, Earnings>, kept: map<nat, Earnings>, h: nat)
  {
    && PartOf(kept, rows)
    && forall r :: r in rows && ReadFrom(full, r, h) ==> r in kept
  }

  /** The payout of some tenure from `h` on reads this row. */
  ghost predicate ReadFrom(s: State, r: nat, h: nat)
  {
    && r <= h
    && ((r + MATURITY >= h && r + MATURITY !in s.ledger.matured)
        || (r + MATURITY + 1 >= h && r + MATURITY + 1 !in s.ledger.matured))
  }

  lemma StartKept(pruned: State, full: State, earned: Earnings)
    requires Mirrors(pruned, full)
    ensures var h := full.tip + 1;
            KeptFor(full, full.ledger.earnings[h := earned], Pruned(pruned.ledger.earnings[h := earned]), h)
  {
    var h := full.tip + 1;
    forall r | r in full.ledger.earnings[h := earned] && ReadFrom(full, r, h)
      ensures r in Pruned(pruned.ledger.earnings[h := earned])
    {
      var g := if r + MATURITY >= h && r + MATURITY !in full.ledger.matured then r + MATURITY else r + MATURITY + 1;
      assert r < h ==> Needed(full, r);
      NewerPart(pruned.ledger.earnings, full.ledger.earnings, g);
      Survives(pruned.ledger.earnings, h, earned, r, g);
    }
  }

  lemma KeptMirrors(full: State, earned: Earnings, kept: map<nat, Earnings>, boot: string)
    requires Roomy(full) && full.ledger.scheduled
    requires KeptFor(full, full.ledger.earnings[full.tip + 1 := earned], kept, full.tip + 1)
    ensures var p := State(Ledger(full.ledger.matured, kept, Some(full.tip + 1), true), full.tip + 1);
            var f := Step(full, Start(earned), false);
            Mirrors(p, f) && EffectsAt(p.ledger, boot, p.tip) == EffectsAt(f.ledger, boot, f.tip)
  {
    var f := Step(full, Start(earned), false);
    forall g | g > f.tip && g !in full.ledger.matured
      ensures |Newer(f.ledger.earnings, g)| < MATURITY
    {
      assert Newer(f.ledger.earnings, g) == Newer(full.ledger.earnings, g);
    }
    forall r | r in f.ledger.earnings && Needed(f, r)
      ensures r in kept
    {
      assert ReadFrom(full, r, f.tip);
    }
    if f.tip > MATURITY && f.tip !in full.ledger.matured {
      assert ReadFrom(full, f.tip - MATURITY, f.tip) && ReadFrom(full, f.tip - MATURITY - 1, f.tip);
    }
  }

  /** Without a schedule nothing is recorded, and so nothing forgotten. */
  lemma UnscheduledMirrors(pruned: State, full: State, boot: string)
    requires Mirrors(pruned, full) && !full.ledger.scheduled
    ensures var p, f := State(pruned.ledger, full.tip + 1), State(full.ledger, full.tip + 1);
            Mirrors(p, f) && EffectsAt(p.ledger, boot, p.tip) == EffectsAt(f.ledger, boot, f.tip)
  {
    var f := State(full.ledger, full.tip + 1);
    forall r | r in f.ledger.earnings && Needed(f, r)
      ensures r in pruned.ledger.earnings
    {
      assert Needed(full, r);
    }
    if f.tip > MATURITY && f.tip !in full.ledger.matured {
      assert Needed(full, f.tip - MATURITY) && Needed(full, f.tip - MATURITY - 1);
    }
  }

  lemma StartMirrors(pruned: State, full: State, earned: Earnings, boot: string)
    requires Mirrors(pruned, full)
    ensures var p, f := Step(pruned, Start(earned), true), Step(full, Start(earned), false);
            Mirrors(p, f) && EffectsAt(p.ledger, boot, p.tip) == EffectsAt(f.ledger, boot, f.tip)
  {
    if full.ledger.scheduled {
      StartKept(pruned, full, earned);
      KeptMirrors(full, earned, Pruned(pruned.ledger.earnings[full.tip + 1 := earned]), boot);
    } else {
      UnscheduledMirrors(pruned, full, boot);
    }
  }

  lemma FeesMirror(pruned: State, full: State, amount: nat)
    requires Mirrors(pruned, full)
    ensures Mirrors(Step(pruned, Fees(amount), true), Step(full, Fees(amount), false))
  {
    var p, f := Step(pruned, Fees(amount), true), Step(full, Fees(amount), false);
    forall h
      ensures Newer(f.ledger.earnings, h) == Newer(full.ledger.earnings, h)
    {
    }
  }

  lemma RoomyBelow(s: State, height: nat)
    requires Roomy(s)
    ensures Roomy(Step(s, Retract(height), true))
  {
    var t := Step(s, Retract(height), true);
    forall h | h > t.tip && h !in t.ledger.matured
      ensures |Newer(t.ledger.earnings, h)| < MATURITY
    {
      if h < height {
        NewerPart(t.ledger.earnings, s.ledger.earnings, h);
      } else {
        assert Newer(t.ledger.earnings, h) == {};
      }
    }
  }

  lemma StepMirrors(pruned: State, full: State, e: Event)
    requires Mirrors(pruned, full) && (e.Retract? ==> Reaches(Step(pruned, e, true), Step(full, e, false)))
    ensures Mirrors(Step(pruned, e, true), Step(full, e, false))
  {
    match e {
      case Start(earned) => StartMirrors(pruned, full, earned, "");
      case Fees(amount) => FeesMirror(pruned, full, amount);
      case Retract(height) => RoomyBelow(full, height);
    }
  }

  /** A retraction is within reach when what it makes readable again has not been forgotten. */
  ghost predicate WithinReach(pruned: State, full: State, events: seq<Event>)
    decreases |events|
  {
    events == [] ||
    var p, f := Step(pruned, events[0], true), Step(full, events[0], false);
    (events[0].Retract? ==> Reaches(p, f)) && WithinReach(p, f, events[1..])
  }

  /** Over any run, from any ledger, the pruned ledger pays exactly what a ledger that forgets nothing pays. */
  lemma {:induction false} PruningLosesNoPayout(pruned: State, full: State, events: seq<Event>, boot: string)
    requires Mirrors(pruned, full) && WithinReach(pruned, full, events)
    ensures Payouts(pruned, events, boot, true) == Payouts(full, events, boot, false)
    decreases |events|
  {
    if events != [] {
      StepMirrors(pruned, full, events[0]);
      if events[0].Start? {
        StartMirrors(pruned, full, events[0].earned, boot);
      }
      PruningLosesNoPayout(Step(pruned, events[0], true), Step(full, events[0], false), events[1..], boot);
    }
  }

  // ---------- Exactly which ledgers pay for ever ----------

  /** The payout at the tip draws on two recorded tenures wherever the chain had two. */
  ghost predicate PaidInFull(s: State)
  {
    || s.tip in s.ledger.matured
    || s.tip <= MATURITY
    || (s.tip - MATURITY in s.ledger.earnings && (s.tip == MATURITY + 1 || s.tip - MATURITY - 1 in s.ledger.earnings))
  }

  /** A payout in full: the effects seeded for the tenure, or nothing yet, or the coinbase of the tenure a hundred
      back and the fees of the one before it.  The first tenure has none before it; unless a row says otherwise, its
      turn pays the boot address nothing. */
  ghost predicate FullPayout(s: State, boot: string, r: Result<Effects, PayoutError>)
  {
    if s.tip in s.ledger.matured then r == Ok(s.ledger.matured[s.tip])
    else if s.tip <= 100 then r == Ok(Effects([], 0))
    else
      && s.tip - 100 in s.ledger.earnings && (s.tip == 101 || s.tip - 101 in s.ledger.earnings)
      && r == Ok(Payout(s.ledger.earnings[s.tip - 100], FeesOf(s.ledger.earnings, boot, s.tip - 101)))
  }

  /** The effects of a tenure that matures, and of the fees that go with it. */
  ghost function Payout(own: Earnings, fees: Credit): Effects
  {
    Effects([Credit(own.recipient, own.coinbase), fees], own.coinbase)
  }

  ghost function FeesOf(rows: map<nat, Earnings>, boot: string, r: nat): Credit
  {
    if r in rows then Credit(rows[r].recipient, rows[r].fees) else Credit(boot, 0)
  }

  /** Short of that, a payout fails for the row of the tenure, or pays its coinbase and sends nothing to the boot
      address. */
  lemma PayoutIs(s: State, boot: string)
    ensures PaidInFull(s) <==> FullPayout(s, boot, EffectsAt(s.ledger, boot, s.tip))
    ensures !PaidInFull(s) ==>
              EffectsAt(s.ledger, boot, s.tip)
              == if s.tip - 100 in s.ledger.earnings
                 then Ok(Payout(s.ledger.earnings[s.tip - 100], Credit(boot, 0))) else Err(UnknownTenure(s.tip - 100))
  {
  }

  /** The fees of a tenure go with the payout a hundred and one tenures later, and no other payout depends on them. */
  lemma FeesPaidOnce(ledger: Ledger, boot: string, r: nat, fees: u128, h: nat)
    requires r in ledger.earnings
    ensures var other := ledger.(earnings := ledger.earnings[r := ledger.earnings[r].(fees := fees)]);
            && (h != r + 101 ==> EffectsAt(other, boot, h) == EffectsAt(ledger, boot, h))
            && (h == r + 101 && h !in ledger.matured && r + 1 in ledger.earnings ==>
                  EffectsAt(other, boot, h)
                  == Ok(Payout(ledger.earnings[r + 1], Credit(ledger.earnings[r].recipient, fees))))
  {
  }

  /** The coinbase of a tenure is paid a hundred tenures later, and no other payout depends on it. */
  lemma CoinbasePaidOnce(ledger: Ledger, boot: string, r: nat, coinbase: nat, h: nat)
    requires r in ledger.earnings
    ensures var other := ledger.(earnings := ledger.earnings[r := ledger.earnings[r].(coinbase := coinbase)]);
            && (h != r + 100 ==> EffectsAt(other, boot, h) == EffectsAt(ledger, boot, h))
            && (h == r + 100 && 0 < r && h !in ledger.matured ==>
                  && EffectsAt(other, boot, h).Ok?
                  && EffectsAt(other, boot, h).value.credits[0] == Credit(ledger.earnings[r].recipient, coinbase)
                  && EffectsAt(other, boot, h).value.supply == coinbase)
  {
  }

  /** The ledger after these tenures have started in turn. */
  function After(s: State, starts: seq<Earnings>): State
  {
    if starts == [] then s else
    var n := |starts| - 1;
    Step(After(s, starts[..n]), Start(starts[n]), true)
  }

  /** Each of these tenures, started in turn, is paid in full. */
  ghost predicate AlwaysPays(s: State, starts: seq<Earnings>)
  {
    forall n :: 1 <= n <= |starts| ==> PaidInFull(After(s, starts[..n]))
  }

  /** Paying always is answering every one of these starts with a payout in full. */
  lemma AlwaysPaysMeans(s: State, starts: seq<Earnings>, boot: string)
    ensures AlwaysPays(s, starts) <==>
              forall n :: 1 <= n <= |starts| ==>
                var t := After(s, starts[..n]); FullPayout(t, boot, EffectsAt(t.ledger, boot, t.tip))
  {
    forall n | 1 <= n <= |starts|
      ensures var t := After(s, starts[..n]);
              PaidInFull(t) <==> FullPayout(t, boot, EffectsAt(t.ledger, boot, t.tip))
    {
      PayoutIs(After(s, starts[..n]), boot);
    }
  }

  ghost function Between(lo: nat, hi: nat): (heights: set<nat>)
    ensures forall k :: k in heights <==> lo < k <= hi
  {
    if hi <= lo then {} else Between(lo, hi - 1) + {hi}
  }

  /** The heights with a row once the tenures up to `h` have started, were none forgotten. */
  ghost function RowsAt(s: State, h: nat): set<nat>
  {
    s.ledger.earnings.Keys + Between(s.tip, h)
  }

  /** A row is there when tenure `h` starts: recorded by then, and with few enough above it. */
  ghost predicate KeptAt(s: State, h: nat, r: nat)
  {
    r in RowsAt(s, h) && |set k | k in RowsAt(s, h) && r < k| < KEPT
  }

  ghost predicate PaidAt(s: State, h: nat)
  {
    || h in s.ledger.matured || h <= MATURITY
    || (KeptAt(s, h, h - MATURITY) && (h == MATURITY + 1 || KeptAt(s, h, h - MATURITY - 1)))
  }

  /** Every tenure to come has matured effects, or the rows to derive them. */
  ghost predicate Payable(s: State)
  {
    forall h :: h > s.tip ==> PaidAt(s, h)
  }

  /** The rows after these tenures have started, were none forgotten. */
  function FullRows(s: State, starts: seq<Earnings>): map<nat, Earnings>
  {
    if starts == [] then s.ledger.earnings else
    var n := |starts| - 1;
    FullRows(s, starts[..n])[s.tip + n + 1 := starts[n]]
  }

  lemma {:induction false} AfterIs(s: State, starts: seq<Earnings>)
    requires s.ledger.scheduled
    ensures var t := After(s, starts);
            && t.tip == s.tip + |starts| && t.ledger.matured == s.ledger.matured && t.ledger.scheduled
            && t.ledger.earnings == if starts == [] then s.ledger.earnings else Pruned(FullRows(s, starts))
  {
    if starts != [] {
      var n := |starts| - 1;
      AfterIs(s, starts[..n]);
      PrunedOnce(FullRows(s, starts[..n]), s.tip + n + 1, starts[n]);
    }
  }

  lemma {:induction false} FullRowsKeys(s: State, starts: seq<Earnings>)
    ensures FullRows(s, starts).Keys == RowsAt(s, s.tip + |starts|)
  {
    if starts != [] {
      FullRowsKeys(s, starts[..|starts| - 1]);
    }
  }

  lemma PrunedAt(s: State, rows: map<nat, Earnings>, h: nat, r: nat)
    requires rows.Keys == RowsAt(s, h)
    ensures r in Pruned(rows) <==> KeptAt(s, h, r)
  {
    assert Newer(rows, r) == set k | k in RowsAt(s, h) && r < k;
  }

  /** One state is where the tenures up to its tip lead from another, with these rows were none forgotten. */
  ghost predicate LeadsTo(s: State, t: State, rows: map<nat, Earnings>)
  {
    t.ledger.matured == s.ledger.matured && t.ledger.earnings == Pruned(rows) && rows.Keys == RowsAt(s, t.tip)
  }

  lemma PaidFromRows(s: State, t: State, rows: map<nat, Earnings>, h: nat)
    requires LeadsTo(s, t, rows) && t.tip == h
    ensures PaidInFull(t) <==> PaidAt(s, h)
  {
    if h > MATURITY {
      PrunedAt(s, rows, h, h - MATURITY);
      PrunedAt(s, rows, h, h - MATURITY - 1);
    }
  }

  lemma AfterLeadsTo(s: State, starts: seq<Earnings>) returns (t: State, rows: map<nat, Earnings>)
    requires starts != [] && s.ledger.scheduled
    ensures t == After(s, starts) && t.tip == s.tip + |starts| && LeadsTo(s, t, rows)
  {
    t, rows := After(s, starts), FullRows(s, starts);
    AfterIs(s, starts);
    FullRowsKeys(s, starts);
  }

  lemma PaidLed(s: State, starts: seq<Earnings>) returns (t: State)
    requires starts != [] && s.ledger.scheduled
    ensures t == After(s, starts)
    ensures PaidInFull(t) <==> PaidAt(s, s.tip + |starts|)
  {
    var rows;
    t, rows := AfterLeadsTo(s, starts);
    PaidFromRows(s, t, rows, s.tip + |starts|);
  }

  lemma PaidAfter(s: State, starts: seq<Earnings>)
    requires starts != [] && s.ledger.scheduled
    ensures PaidInFull(After(s, starts)) <==> PaidAt(s, s.tip + |starts|)
  {
    var t := PaidLed(s, starts);
  }

  lemma {:induction false} UnscheduledAfter(s: State, starts: seq<Earnings>)
    requires !s.ledger.scheduled
    ensures After(s, starts) == State(s.ledger, s.tip + |starts|)
  {
    if starts != [] {
      UnscheduledAfter(s, starts[..|starts| - 1]);
    }
  }

  /** A height past everything a map holds. */
  ghost function Past<V>(rows: map<nat, V>): (h: nat)
    ensures forall k :: k in rows ==> k < h
  {
    if rows.Keys == {} then 0 else Largest(rows.Keys) + 1
  }

  /** Without a schedule, the tenures that start are never recorded and in the end cannot be paid. */
  lemma UnscheduledNeverPays(s: State) returns (starts: seq<Earnings>)
    requires !s.ledger.scheduled
    ensures !AlwaysPays(s, starts)
  {
    var n := Past(s.ledger.matured) + Past(s.ledger.earnings) + MATURITY + 1;
    starts := seq(n, _ => Earnings("", 0, 0));
    assert starts[..n] == starts;
    UnscheduledAfter(s, starts);
    assert !PaidInFull(After(s, starts[..n]));
  }

  lemma PayableAlwaysPays(s: State, starts: seq<Earnings>)
    requires s.ledger.scheduled && Payable(s)
    ensures AlwaysPays(s, starts)
  {
    forall n | 1 <= n <= |starts|
      ensures PaidInFull(After(s, starts[..n]))
    {
      PaidAfter(s, starts[..n]);
    }
  }

  lemma UnpayableIsNoticed(s: State, h: nat) returns (starts: seq<Earnings>)
    requires s.ledger.scheduled && h > s.tip && !PaidAt(s, h)
    ensures !AlwaysPays(s, starts)
  {
    starts := seq(h - s.tip, _ => Earnings("", 0, 0));
    PaidAfter(s, starts);
    var n := |starts|;
    assert starts[..n] == starts;
    assert !PaidInFull(After(s, starts[..n]));
  }

  /** A ledger pays every tenure that could follow if and only if it has a schedule to price them by and every tenure
      to come is payable. */
  lemma PaysForeverIff(s: State)
    ensures (forall starts :: AlwaysPays(s, starts)) <==> s.ledger.scheduled && Payable(s)
  {
    if !s.ledger.scheduled {
      var _ := UnscheduledNeverPays(s);
    } else if Payable(s) {
      forall starts
        ensures AlwaysPays(s, starts)
      {
        PayableAlwaysPays(s, starts);
      }
    } else {
      var h :| h > s.tip && !PaidAt(s, h);
      var _ := UnpayableIsNoticed(s, h);
    }
  }

  // ---------- What a run of starts pays ----------

  /** A tenure that started in the run, or had a row before it. */
  ghost predicate InRun(s: State, starts: seq<Earnings>, r: nat)
  {
    s.tip < r <= s.tip + |starts| || r in s.ledger.earnings
  }

  /** The row of a tenure in a run of starts: as it was before the run, or as it started. */
  ghost function RowOf(s: State, starts: seq<Earnings>, r: nat): Earnings
    requires InRun(s, starts, r)
  {
    if s.tip < r <= s.tip + |starts| then starts[r - s.tip - 1] else s.ledger.earnings[r]
  }

  lemma {:induction false} FullRowsAt(s: State, starts: seq<Earnings>, r: nat)
    requires r in FullRows(s, starts)
    ensures InRun(s, starts, r)
    ensures FullRows(s, starts)[r] == RowOf(s, starts, r)
  {
    if starts != [] && r != s.tip + |starts| {
      FullRowsAt(s, starts[..|starts| - 1], r);
    }
  }

  lemma RunRow(s: State, starts: seq<Earnings>, r: nat)
    requires s.ledger.scheduled && r in After(s, starts).ledger.earnings
    ensures InRun(s, starts, r) && After(s, starts).ledger.earnings[r] == RowOf(s, starts, r)
  {
    AfterIs(s, starts);
    if starts != [] {
      FullRowsAt(s, starts, r);
    }
  }

  /** A run that always pays: once a payout is derived, it is the coinbase recorded for the tenure a hundred back, and
      the fees recorded for the tenure before that. */
  lemma RunPays(s: State, starts: seq<Earnings>, boot: string)
    requires s.ledger.scheduled && starts != [] && PaidInFull(After(s, starts))
    requires s.tip + |starts| > 101 && s.tip + |starts| !in s.ledger.matured
    ensures var h := s.tip + |starts|;
            && InRun(s, starts, h - 100) && InRun(s, starts, h - 101)
            && var own, before := RowOf(s, starts, h - 100), RowOf(s, starts, h - 101);
               EffectsAt(After(s, starts).ledger, boot, h)
               == Ok(Payout(own, Credit(before.recipient, before.fees)))
  {
    AfterIs(s, starts);
    RunRow(s, starts, s.tip + |starts| - 100);
    RunRow(s, starts, s.tip + |starts| - 101);
  }

  /** What the payouts of a run of starts credit as fees, all together. */
  ghost function FeesPaid(s: State, starts: seq<Earnings>, boot: string): int
  {
    if starts == [] then 0 else
    var r := EffectsAt(After(s, starts).ledger, boot, s.tip + |starts|);
    FeesPaid(s, starts[..|starts| - 1], boot) + if r.Ok? && |r.value.credits| == 2 then r.value.credits[1].amount else 0
  }

  /** The fees of the tenures from one to below another. */
  ghost function FeesBetween(s: State, starts: seq<Earnings>, lo: nat, hi: nat): int
    requires forall r: nat :: lo <= r < hi ==> InRun(s, starts, r)
    decreases hi
  {
    if hi <= lo then 0 else
    assert InRun(s, starts, hi - 1);
    FeesBetween(s, starts, lo, hi - 1) + RowOf(s, starts, hi - 1).fees
  }

  lemma {:induction false} FeesBetweenPrefix(s: State, starts: seq<Earnings>, n: nat, lo: nat, hi: nat)
    requires n <= |starts| && hi <= s.tip + n + 1
    requires forall r: nat :: lo <= r < hi ==> InRun(s, starts[..n], r)
    ensures forall r: nat :: lo <= r < hi ==> InRun(s, starts, r)
    ensures FeesBetween(s, starts, lo, hi) == FeesBetween(s, starts[..n], lo, hi)
  {
    assert forall r: nat :: lo <= r < hi && InRun(s, starts[..n], r) ==> InRun(s, starts, r);
    if lo < hi {
      FeesBetweenPrefix(s, starts, n, lo, hi - 1);
    }
  }

  /** Fees are conserved: over a run that always pays, and whose payouts are all derived, the fees credited are the
      fees of the tenures from a hundred and one before the first start to a hundred and one before the last. */
  lemma {:induction false} FeesConserved(s: State, starts: seq<Earnings>, boot: string)
    requires s.ledger.scheduled && AlwaysPays(s, starts) && s.tip > 100
    requires forall h :: s.tip < h <= s.tip + |starts| ==> h !in s.ledger.matured
    ensures forall r: nat :: s.tip - 100 <= r < s.tip + |starts| - 100 ==> InRun(s, starts, r)
    ensures FeesPaid(s, starts, boot) == FeesBetween(s, starts, s.tip - 100, s.tip + |starts| - 100)
  {
    if starts != [] {
      var n := |starts| - 1;
      assert AlwaysPays(s, starts[..n]) by {
        assert forall k :: 0 <= k <= n ==> starts[..n][..k] == starts[..k];
      }
      FeesConserved(s, starts[..n], boot);
      FeesBetweenPrefix(s, starts, n, s.tip - 100, s.tip + n - 100);
      assert starts[..|starts|] == starts && PaidInFull(After(s, starts[..|starts|]));
      RunPays(s, starts, boot);
    }
  }

  // ---------- Exactly which ledgers pay, without forgetting ----------

  /** Recorded already, or to be recorded before it is read. */
  ghost predicate Recordable(s: State, r: nat) { r in s.ledger.earnings || r > s.tip }

  ghost predicate OwedAt(s: State, h: nat)
  {
    || h in s.ledger.matured || h <= MATURITY
    || (Recordable(s, h - MATURITY) && (h == MATURITY + 1 || Recordable(s, h - MATURITY - 1)))
  }

  /** Every tenure to come has matured effects, or its two rows recorded or still ahead. */
  ghost predicate Owed(s: State)
  {
    forall h :: h > s.tip ==> OwedAt(s, h)
  }

  lemma KeptIfRoomy(s: State, h: nat, r: nat)
    requires h > s.tip && |Newer(s.ledger.earnings, h)| < MATURITY && r < h <= r + MATURITY + 1
    ensures KeptAt(s, h, r) <==> Recordable(s, r)
  {
    var newer := set k | k in RowsAt(s, h) && r < k;
    var near := set k | k in newer && k <= h;
    BoundedCount(near, r + 1, h);
    assert newer <= near + Newer(s.ledger.earnings, h);
    SubsetSize(newer, near + Newer(s.ledger.earnings, h));
  }

  /** Rows up to a maturity window past the tip leave room. */
  lemma NearIsRoomy(s: State)
    requires forall r :: r in s.ledger.earnings ==> r <= s.tip + MATURITY
    ensures Roomy(s)
  {
    forall h | h > s.tip
      ensures |Newer(s.ledger.earnings, h)| < MATURITY
    {
      BoundedCount(Newer(s.ledger.earnings, h), h + 1, s.tip + MATURITY);
    }
  }

  /** With few rows ahead of the tip, forgetting plays no part: payable is owed. */
  lemma PayableIsOwed(s: State)
    requires Roomy(s)
    ensures Payable(s) <==> Owed(s)
  {
    forall h | h > s.tip
      ensures PaidAt(s, h) <==> OwedAt(s, h)
    {
      if h !in s.ledger.matured && h > MATURITY {
        KeptIfRoomy(s, h, h - MATURITY);
        KeptIfRoomy(s, h, h - MATURITY - 1);
      }
    }
  }

  /** With no matured effects ahead, what is owed is the window below the tip. */
  lemma OwedIsWindow(s: State)
    requires forall h :: h in s.ledger.matured ==> h <= s.tip
    ensures Owed(s) <==> Window(s.ledger.earnings, s.tip)
  {
    if Owed(s) {
      forall r | 1 <= r <= s.tip && s.tip - MATURITY <= r
        ensures r in s.ledger.earnings
      {
        assert OwedAt(s, r + MATURITY + 1);
      }
    }
  }

  /** A run that leaves what is owed after every retraction is paid throughout. */
  ghost predicate KeepsOwed(s: State, events: seq<Event>)
    decreases |events|
  {
    events == [] ||
    var t := Step(s, events[0], true);
    (events[0].Retract? ==> Owed(t)) && KeepsOwed(t, events[1..])
  }

  lemma StartOwed(s: State, earned: Earnings)
    requires Owed(s) && Roomy(s) && s.ledger.scheduled
    ensures var t := Step(s, Start(earned), true); Owed(t) && Roomy(t) && PaidInFull(t)
  {
    var t, h := Step(s, Start(earned), true), s.tip + 1;
    forall g, r: nat |
      && g >= h && g !in s.ledger.matured && g > MATURITY && r <= h && r < g
      && (r + MATURITY == g || (r + MATURITY + 1 == g && r > 0))
      ensures r in t.ledger.earnings
    {
      assert OwedAt(s, g);
      Survives(s.ledger.earnings, h, earned, r, g);
    }
    assert PaidInFull(t);
    forall g | g > h
      ensures OwedAt(t, g)
      ensures g !in t.ledger.matured ==> |Newer(t.ledger.earnings, g)| < MATURITY
    {
      NewerPart(t.ledger.earnings, s.ledger.earnings[h := earned], g);
      assert Newer(s.ledger.earnings[h := earned], g) == Newer(s.ledger.earnings, g);
    }
  }

  /** Each tenure that starts in a run is paid in full. */
  ghost predicate PaidRun(s: State, events: seq<Event>)
    decreases |events|
  {
    events == [] ||
    var t := Step(s, events[0], true);
    (events[0].Start? ==> PaidInFull(t)) && PaidRun(t, events[1..])
  }

  lemma FeesOwed(s: State, amount: nat)
    requires Owed(s) && Roomy(s)
    ensures var t := Step(s, Fees(amount), true); Owed(t) && Roomy(t)
  {
    var t := Step(s, Fees(amount), true);
    forall h | h > t.tip
      ensures OwedAt(t, h) && (h !in t.ledger.matured ==> |Newer(t.ledger.earnings, h)| < MATURITY)
    {
      assert OwedAt(s, h) && Newer(t.ledger.earnings, h) == Newer(s.ledger.earnings, h);
    }
  }

  lemma {:induction false} OwedRunPays(s: State, events: seq<Event>)
    requires Owed(s) && Roomy(s) && s.ledger.scheduled && KeepsOwed(s, events)
    ensures PaidRun(s, events)
    decreases |events|
  {
    if events != [] {
      match events[0] {
        case Start(earned) => StartOwed(s, earned);
        case Fees(amount) => FeesOwed(s, amount);
        case Retract(height) => RoomyBelow(s, height);
      }
      OwedRunPays(Step(s, events[0], true), events[1..]);
    }
  }

  // ---------- What a tenure that started in a run has earned ----------

  /** A tenure in the books: its start, and all the fees since, however many. */
  datatype Entry = Entry(recipient: string, coinbase: nat, fees: nat)

  type Book = nat -> Option<Entry>

  /** The books after one event: a start opens an entry, fees count for the tenure at the tip, a retraction strikes
      out the tenures from its height on. */
  function NextBook(book: Book, tip: nat, e: Event): Book
  {
    (h: nat) => match e
      case Start(earned) =>
        if h == tip + 1 then Some(Entry(earned.recipient, earned.coinbase, earned.fees)) else book(h)
      case Fees(amount) =>
        if h == tip && book(h).Some? then Some(book(h).value.(fees := book(h).value.fees + amount)) else book(h)
      case Retract(height) => if h >= height then None else book(h)
  }

  function NextTip(tip: nat, e: Event): nat
  {
    match e
    case Start(_) => tip + 1
    case Fees(_) => tip
    case Retract(height) => Min(tip, SaturatingSub(height, 1))
  }

  function TipAfter(tip: nat, events: seq<Event>): nat
  {
    if events == [] then tip else NextTip(TipAfter(tip, events[..|events| - 1]), events[|events| - 1])
  }

  /** The books of a run: only its events, no ledger. */
  function BookAfter(tip: nat, events: seq<Event>): Book
  {
    if events == [] then h => None else
    var n := |events| - 1;
    NextBook(BookAfter(tip, events[..n]), TipAfter(tip, events[..n]), events[n])
  }

  /** The tenure started with this event, and no retraction has reached it since. */
  ghost predicate StartsWith(tip: nat, events: seq<Event>, k: nat, h: nat)
  {
    && k < |events| && events[k].Start? && TipAfter(tip, events[..k]) + 1 == h
    && forall l :: k < l < |events| && events[l].Retract? ==> h < events[l].height
  }

  /** The fees of the events after this one while the tenure was at the tip. */
  ghost function FeesSince(tip: nat, events: seq<Event>, k: nat, h: nat): nat
  {
    if |events| <= k + 1 then 0 else
    var n := |events| - 1;
    FeesSince(tip, events[..n], k, h)
    + if events[n].Fees? && TipAfter(tip, events[..n]) == h then events[n].amount else 0
  }

  lemma StartsBefore(tip: nat, events: seq<Event>, k: nat, h: nat)
    requires events != [] && k < |events| - 1
    ensures var n := |events| - 1;
            StartsWith(tip, events, k, h)
            <==> StartsWith(tip, events[..n], k, h) && (events[n].Retract? ==> h < events[n].height)
  {
    var n := |events| - 1;
    assert events[..n][..k] == events[..k];
    assert forall l :: 0 <= l < n ==> events[..n][l] == events[l];
  }

  ghost function EntryOf(tip: nat, events: seq<Event>, k: nat, h: nat): Entry
    requires StartsWith(tip, events, k, h)
  {
    var earned := events[k].earned;
    Entry(earned.recipient, earned.coinbase, earned.fees + FeesSince(tip, events, k, h))
  }

  /** The books, in closed form: a tenure is in them exactly when it started and was not retracted, with the coinbase
      and fees of its start and the fees since. */
  lemma {:induction false} BookIs(tip: nat, events: seq<Event>, h: nat)
    ensures BookAfter(tip, events)(h).Some? <==> exists k: nat :: StartsWith(tip, events, k, h)
    ensures forall k: nat :: StartsWith(tip, events, k, h) ==>
              h <= TipAfter(tip, events) && BookAfter(tip, events)(h) == Some(EntryOf(tip, events, k, h))
    decreases |events|
  {
    if events != [] {
      var n := |events| - 1;
      BookIs(tip, events[..n], h);
      assert events[n].Start? && TipAfter(tip, events[..n]) + 1 == h ==> StartsWith(tip, events, n, h);
      if BookAfter(tip, events)(h).Some? && !StartsWith(tip, events, n, h) {
        var k: nat :| StartsWith(tip, events[..n], k, h);
        StartsBefore(tip, events, k, h);
      }
      forall k: nat | StartsWith(tip, events, k, h)
        ensures h <= TipAfter(tip, events) && BookAfter(tip, events)(h) == Some(EntryOf(tip, events, k, h))
      {
        if k < n {
          StartsBefore(tip, events, k, h);
          assert events[..n][k] == events[k];
          assert EntryOf(tip, events[..n], k, h).recipient == events[k].earned.recipient;
        }
      }
    }
  }

  function RunFrom(s: State, events: seq<Event>, forget: bool): State
  {
    if events == [] then s else Step(RunFrom(s, events[..|events| - 1], forget), events[|events| - 1], forget)
  }

  /** The ledger has a row of the tenure, and it is what the books say, up to 128 bits of fees. */
  ghost predicate RowIs(row: Earnings, entry: Entry)
  {
    row == Earnings(entry.recipient, entry.coinbase, Min(entry.fees, U128_MAX))
  }

  /** A booked tenure whose row is left: so are the rows up to the tip, and fees count there. */
  ghost predicate Balanced(s: State, book: Book)
  {
    && s.ledger.scheduled
    && forall h: nat :: book(h).Some? ==>
         && h <= s.tip
         && (h in s.ledger.earnings ==>
               && RowIs(s.ledger.earnings[h], book(h).value)
               && s.ledger.started == Some(s.tip)
               && forall g: nat :: h <= g <= s.tip ==> g in s.ledger.earnings && book(g).Some?)
  }

  lemma StartBalanced(s: State, book: Book, earned: Earnings, forget: bool)
    requires Balanced(s, book)
    ensures Balanced(Step(s, Start(earned), forget), NextBook(book, s.tip, Start(earned)))
  {
    var t, rows := Step(s, Start(earned), forget), s.ledger.earnings[s.tip + 1 := earned];
    forall h, g | h in t.ledger.earnings && h <= g && g in rows
      ensures g in t.ledger.earnings
    {
      assert Newer(rows, g) <= Newer(rows, h);
      SubsetSize(Newer(rows, g), Newer(rows, h));
    }
  }

  lemma FeesBalanced(s: State, book: Book, amount: nat, forget: bool)
    requires Balanced(s, book)
    ensures Balanced(Step(s, Fees(amount), forget), NextBook(book, s.tip, Fees(amount)))
  {
  }

  lemma RetractBalanced(s: State, book: Book, height: nat, forget: bool)
    requires Balanced(s, book)
    ensures Balanced(Step(s, Retract(height), forget), NextBook(book, s.tip, Retract(height)))
  {
    var kept := Below(s.ledger.earnings, height);
    if height <= s.tip && height - 1 in kept {
      assert Largest(kept.Keys) == height - 1;
    }
  }

  lemma {:induction false} RunBalanced(s: State, events: seq<Event>, forget: bool)
    requires s.ledger.scheduled
    ensures var t := RunFrom(s, events, forget);
            t.tip == TipAfter(s.tip, events) && Balanced(t, BookAfter(s.tip, events))
  {
    if events != [] {
      var n := |events| - 1;
      RunBalanced(s, events[..n], forget);
      var t, book := RunFrom(s, events[..n], forget), BookAfter(s.tip, events[..n]);
      match events[n] {
        case Start(earned) => StartBalanced(t, book, earned, forget);
        case Fees(amount) => FeesBalanced(t, book, amount, forget);
        case Retract(height) => RetractBalanced(t, book, height, forget);
      }
    }
  }

  /** After any run from any ledger with a schedule, pruned or not, a row that is left of a tenure that started in the
      run holds the coinbase of that start, and its fees and all the fees since, saturated. */
  lemma RowsAreBooked(s: State, events: seq<Event>, forget: bool, h: nat)
    requires s.ledger.scheduled && BookAfter(s.tip, events)(h).Some?
    ensures var rows := RunFrom(s, events, forget).ledger.earnings;
            h in rows ==> RowIs(rows[h], BookAfter(s.tip, events)(h).value)
  {
    RunBalanced(s, events, forget);
  }

  /** So a payout in full that draws on two tenures of the run pays the booked coinbase and the booked fees. */
  lemma BookedPayout(s: State, events: seq<Event>, boot: string, forget: bool)
    requires s.ledger.scheduled
    requires var t := RunFrom(s, events, forget);
             t.tip > MATURITY + 1 && t.tip !in t.ledger.matured && PaidInFull(t)
    requires var book, tip := BookAfter(s.tip, events), TipAfter(s.tip, events);
             tip > MATURITY && book(tip - MATURITY).Some? && book(tip - MATURITY - 1).Some?
    ensures var t, book := RunFrom(s, events, forget), BookAfter(s.tip, events);
            var own, before := book(t.tip - MATURITY), book(t.tip - MATURITY - 1);
            && own.Some? && before.Some?
            && EffectsAt(t.ledger, boot, t.tip)
               == Ok(Effects([Credit(own.value.recipient, own.value.coinbase),
                              Credit(before.value.recipient, Min(before.value.fees, U128_MAX))], own.value.coinbase))
  {
    RunBalanced(s, events, forget);
    BalancedPayout(RunFrom(s, events, forget), BookAfter(s.tip, events), boot);
  }

  lemma BalancedPayout(t: State, book: Book, boot: string)
    requires Balanced(t, book) && t.tip > MATURITY + 1 && t.tip !in t.ledger.matured && PaidInFull(t)
    requires book(t.tip - MATURITY).Some? && book(t.tip - MATURITY - 1).Some?
    ensures var own, before := book(t.tip - MATURITY).value, book(t.tip - MATURITY - 1).value;
            EffectsAt(t.ledger, boot, t.tip)
            == Ok(Effects([Credit(own.recipient, own.coinbase), Credit(before.recipient, Min(before.fees, U128_MAX))],
                          own.coinbase))
  {
  }

  // ---------- Retractions ----------

  /** How deep a retraction is survived: the rows below it form a window of their own. */
  lemma RetractionReach(s: State, first: nat, height: nat)
    requires first < height <= s.tip + 1 && (forall h :: first <= h < height ==> h in s.ledger.earnings)
    requires first == 0 || first - 1 !in s.ledger.earnings
    ensures Owed(Step(s, Retract(height), true)) <==> first <= 1 || height - 1 - first >= MATURITY
  {
    var t := Step(s, Retract(height), true);
    OwedIsWindow(t);
    assert first > 1 ==> first - 1 !in t.ledger.earnings;
  }

  /** Keeping twice the maturity window is what a retraction of a whole window takes. */
  lemma FullLedgerMargin(s: State, height: nat)
    requires s.tip > KEPT && 2 <= height <= s.tip
    requires forall h :: h in s.ledger.earnings <==> s.tip - KEPT < h <= s.tip
    ensures Owed(Step(s, Retract(height), true)) <==> s.tip - (height - 1) <= MATURITY
  {
    var first := s.tip - KEPT + 1;
    var t := Step(s, Retract(height), true);
    if first < height {
      RetractionReach(s, first, height);
    } else {
      OwedIsWindow(t);
      assert t.tip !in t.ledger.earnings;
    }
  }

  lemma NewestIs(rows: map<nat, Earnings>, tip: nat)
    requires forall h :: h in rows ==> h <= tip
    requires tip in rows || rows == map[]
    ensures Newest(rows) == if rows == map[] then None else Some(tip)
  {
    assert rows.Keys == {} <==> rows == map[];
  }

  /** With the window below the tip, and no row elsewhere, nothing that is still to be read is missing. */
  lemma WindowReaches(p: State, f: State)
    requires p.tip == f.tip && PartOf(p.ledger.earnings, f.ledger.earnings) && Window(p.ledger.earnings, f.tip)
    requires forall h :: h in f.ledger.earnings ==> 1 <= h <= f.tip
    ensures forall r :: r in f.ledger.earnings && Needed(f, r) ==> r in p.ledger.earnings
    ensures Newest(p.ledger.earnings) == Newest(f.ledger.earnings)
  {
    WindowNewest(p.ledger.earnings, f.ledger.earnings, f.tip);
  }

  /** A retraction that leaves what is owed is within reach of the pruned ledger. */
  lemma RetractInReach(pruned: State, full: State, height: nat)
    requires Mirrors(pruned, full) && height <= full.tip + 1 && 0 !in full.ledger.earnings
    requires Owed(Step(pruned, Retract(height), true))
    ensures Reaches(Step(pruned, Retract(height), true), Step(full, Retract(height), false))
  {
    var p, f := Step(pruned, Retract(height), true), Step(full, Retract(height), false);
    OwedIsWindow(p);
    WindowReaches(p, f);
  }

  lemma WindowNewest(part: map<nat, Earnings>, rows: map<nat, Earnings>, tip: nat)
    requires PartOf(part, rows) && Window(part, tip) && forall h :: h in rows ==> 1 <= h <= tip
    ensures Newest(part) == Newest(rows)
  {
    if tip == 0 {
      assert rows == map[] && part == map[];
    }
    NewestIs(part, tip);
    NewestIs(rows, tip);
  }

  /** No retraction reaches above the tenure after the tip. */
  ghost predicate RetractsBelow(s: State, events: seq<Event>)
    decreases |events|
  {
    events == [] ||
    ((events[0].Retract? ==> events[0].height <= s.tip + 1) && RetractsBelow(Step(s, events[0], true), events[1..]))
  }

  lemma StepKeepsZeroOut(s: State, e: Event)
    requires 0 !in s.ledger.earnings
    ensures 0 !in Step(s, e, false).ledger.earnings
  {
  }

  /** A node that keeps what it owes keeps its retractions within reach, by its own ledger alone. */
  lemma {:induction false} OwedRunInReach(pruned: State, full: State, events: seq<Event>)
    requires Mirrors(pruned, full) && 0 !in full.ledger.earnings
    requires KeepsOwed(pruned, events) && RetractsBelow(pruned, events)
    ensures WithinReach(pruned, full, events)
    decreases |events|
  {
    if events != [] {
      if events[0].Retract? {
        RetractInReach(pruned, full, events[0].height);
      }
      StepMirrors(pruned, full, events[0]);
      StepKeepsZeroOut(full, events[0]);
      OwedRunInReach(Step(pruned, events[0], true), Step(full, events[0], false), events[1..]);
    }
  }

  // ---------- The startup check ----------

  /** What a ledger that passes needs besides: rows or effects for the tenures up to its newest row, and effects
      where its rows stop short of the tip. */
  ghost predicate CaughtUp(s: State)
  {
    var newest := Top(s.ledger.earnings);
    && (forall h :: s.tip < h <= newest ==> PaidAt(s, h))
    && (newest < s.tip ==>
          forall h :: Max(s.tip, newest + MATURITY) < h <= s.tip + MATURITY + 1 ==> h in s.ledger.matured)
  }

  /** Above the newest row, forgetting plays no part. */
  lemma PaidAbove(s: State, h: nat)
    requires h > s.tip && forall r :: r in s.ledger.earnings ==> r <= h
    ensures PaidAt(s, h) <==> OwedAt(s, h)
  {
    assert Newer(s.ledger.earnings, h) == {};
    if h > MATURITY {
      KeptIfRoomy(s, h, h - MATURITY);
      KeptIfRoomy(s, h, h - MATURITY - 1);
    }
  }

  /** A ledger that passes pays for ever if and only if it has a schedule and is caught up with the tip. */
  lemma StartupExact(s: State)
    requires Passes(s.ledger.earnings)
    ensures (forall starts :: AlwaysPays(s, starts)) <==> s.ledger.scheduled && CaughtUp(s)
  {
    var rows, newest := s.ledger.earnings, Top(s.ledger.earnings);
    PaysForeverIff(s);
    assert forall r :: r in rows ==> r <= newest;
    if CaughtUp(s) {
      forall h | h > s.tip
        ensures PaidAt(s, h)
      {
        if h > newest {
          assert OwedAt(s, h);
          PaidAbove(s, h);
        }
      }
    }
    if Payable(s) {
      forall h | newest < s.tip && Max(s.tip, newest + MATURITY) < h <= s.tip + MATURITY + 1
        ensures h in s.ledger.matured
      {
        PaidAbove(s, h);
      }
    }
  }

  /** With nothing ahead of the tip, that is a row at the tip, or a chain that has not begun. */
  lemma StartupExactWithoutCheckpoint(s: State)
    requires Passes(s.ledger.earnings)
    requires forall h :: h in s.ledger.earnings || h in s.ledger.matured ==> h <= s.tip
    ensures (forall starts :: AlwaysPays(s, starts)) <==>
              s.ledger.scheduled && (s.tip == 0 || s.tip in s.ledger.earnings)
  {
    StartupExact(s);
    assert s.tip + MATURITY + 1 !in s.ledger.matured;
  }

  /** The check passes the ledger of a node without checkpoint accounting, which has no schedule; an empty ledger on a
      chain that has begun; and a ledger one row behind its tip.  None can pay. */
  lemma StartupMisses(earned: Earnings)
    ensures var unseeded := State(Ledger(map[], map[], None, false), 0);
            Passes(unseeded.ledger.earnings) && exists starts :: !AlwaysPays(unseeded, starts)
    ensures var empty := State(Ledger(map[], map[], None, true), 1);
            Passes(empty.ledger.earnings) && exists starts :: !AlwaysPays(empty, starts)
    ensures var behind := State(Ledger(map[], map[1 := earned], None, true), 2);
            Passes(behind.ledger.earnings) && exists starts :: !AlwaysPays(behind, starts)
  {
    StartupExactWithoutCheckpoint(State(Ledger(map[], map[], None, false), 0));
    StartupExactWithoutCheckpoint(State(Ledger(map[], map[], None, true), 1));
    assert Top(map[1 := earned]) == 1;
    StartupExactWithoutCheckpoint(State(Ledger(map[], map[1 := earned], None, true), 2));
  }
}
