/**
 What a node owes its miners: the earnings of past tenures, of which only the
 newest are kept, and the payout a tenure start derives from them a hundred
 tenures later.
 */
module TenureLedger {
  import opened Prelude
  import opened KeySums

  const MATURITY: nat := 100
  const KEPT: nat := 2 * MATURITY + 1

  datatype Earnings = Earnings(recipient: string, coinbase: nat, fees: u128)

  datatype Credit = Credit(recipient: string, amount: nat)

  datatype Effects = Effects(credits: seq<Credit>, supply: nat)

  /** A payout fails when its tenure is neither seeded nor executed, a start when its block has no coinbase. */
  datatype PayoutError = UnknownTenure(height: nat) | NoCoinbase

  /** `scheduled` says whether a coinbase schedule came with the checkpoint; without one no tenure is priced. */
  datatype Ledger = Ledger(
    matured: map<nat, Effects>,
    earnings: map<nat, Earnings>,
    started: Option<nat>,
    scheduled: bool)

  // ---------- One operation ----------

  /** The first key an ordered map iterates. */
  function Oldest(keys: set<nat>): (m: nat)
    requires keys != {}
    ensures m in keys && forall k :: k in keys ==> m <= k
  {
    var s := Ascending(keys);
    assert |s| > 0 && s[0] in s;
    assert forall k :: k in keys ==> k in s && s[0] <= k;
    s[0]
  }

  function Newer(rows: map<nat, Earnings>, height: nat): set<nat>
  {
    set h | h in rows && height < h
  }

  /** The newest tenures, as many as are kept: those with too few above them to be forgotten. */
  function Pruned(rows: map<nat, Earnings>): map<nat, Earnings>
  {
    map h | h in rows && |Newer(rows, h)| < KEPT :: rows[h]
  }

  function Without(earnings: map<nat, Earnings>, height: nat): (r: map<nat, Earnings>)
    requires height in earnings
    ensures |r| == |earnings| - 1
  {
    assert (earnings - {height}).Keys == earnings.Keys - {height};
    assert |earnings| == |earnings.Keys| && |earnings - {height}| == |(earnings - {height}).Keys|;
    earnings - {height}
  }

  function Seeded(ledger: Ledger, height: nat, earned: Earnings, forget: bool): Ledger
  {
    var all := ledger.earnings[height := earned];
    ledger.(earnings := if forget then Pruned(all) else all)
  }

  function Recorded(ledger: Ledger, height: nat, earned: Earnings, forget: bool): Ledger
  {
    Seeded(ledger, height, earned, forget).(started := Some(height))
  }

  function WithFees(ledger: Ledger, height: nat, fees: nat): Ledger
  {
    if ledger.started != Some(height) || height !in ledger.earnings then ledger
    else
      var earned := ledger.earnings[height];
      ledger.(earnings := ledger.earnings[height := earned.(fees := Min(earned.fees + fees, U128_MAX))])
  }

  function Below<V>(rows: map<nat, V>, height: nat): map<nat, V>
  {
    map h | h in rows && h < height :: rows[h]
  }

  /** The newest recorded tenure. */
  function Newest(rows: map<nat, Earnings>): Option<nat>
  {
    if rows.Keys == {} then None else Some(Largest(rows.Keys))
  }

  function Retracted(ledger: Ledger, height: nat): Ledger
  {
    var kept := Below(ledger.earnings, height);
    var started := if ledger.started.Some? && ledger.started.value >= height then Newest(kept) else ledger.started;
    Ledger(Below(ledger.matured, height), kept, started, ledger.scheduled)
  }

  /** What matures when a tenure starts. */
  function EffectsAt(ledger: Ledger, boot: string, height: nat): Result<Effects, PayoutError>
  {
    if height in ledger.matured then Ok(ledger.matured[height])
    else if height <= MATURITY then Ok(Effects([], 0))
    else
      var due := height - MATURITY;
      if due !in ledger.earnings then Err(UnknownTenure(due))
      else
        var earned := ledger.earnings[due];
        var before := SaturatingSub(due, 1);
        var fees := if before in ledger.earnings
                    then Credit(ledger.earnings[before].recipient, ledger.earnings[before].fees)
                    else Credit(boot, 0);
        Ok(Effects([Credit(earned.recipient, earned.coinbase), fees], earned.coinbase))
  }

  /** The contiguous tenures that end at the newest. */
  ghost predicate IsSpan(rows: map<nat, Earnings>, first: nat, last: nat)
  {
    && first <= last && last in rows
    && (forall h :: h in rows ==> h <= last)
    && (forall h :: first <= h <= last ==> h in rows)
    && (first == 0 || first - 1 !in rows)
  }

  class TenureAccounting {
    var matured: map<nat, Effects>
    var earnings: map<nat, Earnings>
    var started: Option<nat>
    var scheduled: bool

    ghost function View(): Ledger
      reads this
    {
      Ledger(matured, earnings, started, scheduled)
    }

    constructor ()
      ensures View() == Ledger(map[], map[], None, false)
    {
      matured, earnings, started, scheduled := map[], map[], None, false;
    }

    method ForgetUnreadable()
      modifies this`earnings
      ensures earnings == Pruned(old(earnings))
    {
      while |earnings| > KEPT
        invariant Pruned(earnings) == Pruned(old(earnings))
        decreases |earnings|
      {
        assert |earnings.Keys| > 0;
        var oldest := Oldest(earnings.Keys);
        PrunedDrop(earnings, oldest);
        earnings := Without(earnings, oldest);
      }
      PrunedAll(earnings);
    }

    method SeedEarnings(height: nat, earned: Earnings)
      modifies this`earnings
      ensures View() == Seeded(old(View()), height, earned, true)
    {
      earnings := earnings[height := earned];
      ForgetUnreadable();
    }

    method RecordEarnings(height: nat, earned: Earnings)
      modifies this
      ensures View() == Recorded(old(View()), height, earned, true)
    {
      earnings := earnings[height := earned];
      started := Some(height);
      ForgetUnreadable();
    }

    method AddFees(height: nat, fees: nat)
      modifies this`earnings
      ensures View() == WithFees(old(View()), height, fees)
    {
      if started != Some(height) {
        return;
      }
      if height in earnings {
        var earned := earnings[height];
        earnings := earnings[height := earned.(fees := Min(earned.fees + fees, U128_MAX))];
      }
    }

    method RetractFrom(height: nat)
      modifies this
      ensures View() == Retracted(old(View()), height)
    {
      earnings := Below(earnings, height);
      matured := Below(matured, height);
      if started.Some? && started.value >= height {
        started := Newest(earnings);
      }
    }

    /** The start of a tenure records what it earns, when a coinbase schedule prices it, and then pays what
        matures. */
    method StartTenure(height: nat, earned: Option<Earnings>, boot: string)
      returns (r: Result<Effects, PayoutError>)
      modifies this
      ensures scheduled == old(scheduled)
      ensures View() == if scheduled && earned.Some? then Recorded(old(View()), height, earned.value, true)
                        else old(View())
      ensures r == if scheduled && earned.None? then Err(NoCoinbase) else EffectsAt(View(), boot, height)
    {
      if scheduled {
        if earned.None? {
          return Err(NoCoinbase);
        }
        RecordEarnings(height, earned.value);
      }
      r := EffectsAt(Ledger(matured, earnings, started, scheduled), boot, height);
    }

    method KnownSpan() returns (r: Option<(nat, nat)>)
      ensures r.None? <==> earnings == map[]
      ensures r.Some? ==> IsSpan(earnings, r.value.0, r.value.1)
    {
      if earnings.Keys == {} {
        return None;
      }
      var last := Largest(earnings.Keys);
      var first := last;
      var rest := earnings.Keys - {last};
      while rest != {}
        invariant rest == set h | h in earnings && h < first
        invariant first <= last && forall h :: first <= h <= last ==> h in earnings
        decreases |rest|
      {
        var height := Largest(rest);
        if height != SaturatingSub(first, 1) {
          break;
        }
        first := height;
        rest := rest - {height};
      }
      assert forall h :: h in earnings && h < first ==> h in rest;
      r := Some((first, last));
    }

    /** The startup check: a ledger too short below its own newest row is refused. */
    method CheckMaturityWindow() returns (ok: bool)
      ensures ok <==> Passes(earnings)
    {
      var span := KnownSpan();
      if span.None? {
        return true;
      }
      var (first, last) := span.value;
      ok := !(first > 1 && last - first < MATURITY);
      SpanWindow(earnings, first, last);
    }
  }

  /** The newest row, or zero. */
  function Top(rows: map<nat, Earnings>): nat
  {
    if rows.Keys == {} then 0 else Largest(rows.Keys)
  }

  /** The rows that payouts after a tenure read, down to the first tenure of the chain. */
  ghost predicate Window(rows: map<nat, Earnings>, newest: nat)
  {
    forall r :: 1 <= r <= newest && newest - MATURITY <= r ==> r in rows
  }

  /** What the startup check asks for. */
  ghost predicate Passes(rows: map<nat, Earnings>) { Window(rows, Top(rows)) }

  lemma SpanWindow(rows: map<nat, Earnings>, first: nat, last: nat)
    requires IsSpan(rows, first, last)
    ensures Top(rows) == last
    ensures Window(rows, last) <==> first <= 1 || last - first >= MATURITY
  {
    assert first > 1 ==> first - 1 !in rows;
  }

  // ---------- Forgetting ----------

  lemma {:induction false} BoundedCount(keys: set<nat>, low: nat, high: nat)
    requires forall k :: k in keys ==> low <= k <= high
    ensures |keys| <= Max(high - low + 1, 0)
    decreases high - low
  {
    if low > high {
      assert keys == {};
    } else {
      var rest := keys - {high};
      if high > 0 {
        BoundedCount(rest, low, high - 1);
      } else {
        assert rest == {};
      }
      assert keys <= rest + {high};
      if high in keys {
        assert keys == rest + {high};
      } else {
        assert keys == rest;
      }
    }
  }

  /** Some of the rows, none of them altered. */
  ghost predicate PartOf(part: map<nat, Earnings>, rows: map<nat, Earnings>)
  {
    forall h :: h in part ==> h in rows && part[h] == rows[h]
  }

  lemma {:induction false} SubsetSize(a: set<nat>, b: set<nat>)
    requires a <= b
    ensures |a| <= |b| && (|a| == |b| ==> a == b)
    decreases |b|
  {
    if b != {} {
      var x :| x in b;
      SubsetSize(a - {x}, b - {x});
      assert x !in a ==> a - {x} == a;
      assert b == (b - {x}) + {x} && (x in a ==> a == (a - {x}) + {x});
    }
  }

  lemma PrunedAll(rows: map<nat, Earnings>)
    requires |rows| <= KEPT
    ensures Pruned(rows) == rows
  {
    forall h | h in rows
      ensures |Newer(rows, h)| < KEPT
    {
      SubsetSize(Newer(rows, h), rows.Keys - {h});
      assert |rows| == |rows.Keys|;
    }
  }

  /** Over the limit, the oldest row is one of those forgotten. */
  lemma PrunedDrop(rows: map<nat, Earnings>, oldest: nat)
    requires |rows| > KEPT && oldest in rows && forall h :: h in rows ==> oldest <= h
    ensures Pruned(rows) == Pruned(Without(rows, oldest))
  {
    var rest := Without(rows, oldest);
    assert oldest !in Pruned(rows) by {
      assert Newer(rows, oldest) == rest.Keys && |rest| == |rest.Keys|;
    }
    assert forall h :: h in rest ==> Newer(rest, h) == Newer(rows, h);
  }

  /** A row within reach of the newest is never forgotten. */
  lemma PrunedKeeps(rows: map<nat, Earnings>, height: nat, top: nat)
    requires height in rows && top < height + KEPT
    requires forall h :: h in rows ==> h <= top
    ensures height in Pruned(rows)
  {
    BoundedCount(Newer(rows, height), height + 1, top);
  }

  /** The newest rows, as many as are kept, said without an order of removal. */
  ghost predicate TopPart(part: map<nat, Earnings>, rows: map<nat, Earnings>)
  {
    && PartOf(part, rows)
    && |part| == Min(|rows|, KEPT)
    && forall h, k :: h in rows && h !in part && k in part ==> h < k
  }

  lemma {:induction false} PrunedIsTop(rows: map<nat, Earnings>)
    ensures TopPart(Pruned(rows), rows)
    decreases |rows|
  {
    if |rows| > KEPT {
      assert |rows.Keys| > 0;
      var oldest := Oldest(rows.Keys);
      var rest := Without(rows, oldest);
      PrunedIsTop(rest);
      TopOfRest(Pruned(rest), rest, rows, oldest);
      PrunedDrop(rows, oldest);
    } else {
      PrunedAll(rows);
    }
  }

  lemma TopOfRest(part: map<nat, Earnings>, rest: map<nat, Earnings>, rows: map<nat, Earnings>, oldest: nat)
    requires oldest in rows && (forall h :: h in rows ==> oldest <= h) && |rows| > KEPT
    requires rest == Without(rows, oldest) && TopPart(part, rest)
    ensures TopPart(part, rows)
  {
  }

  lemma TopUnique(a: map<nat, Earnings>, b: map<nat, Earnings>, rows: map<nat, Earnings>)
    requires TopPart(a, rows) && TopPart(b, rows)
    ensures a == b
  {
    assert |a| == |a.Keys| && |b| == |b.Keys|;
    assert a.Keys <= b.Keys || b.Keys <= a.Keys;
    if a.Keys <= b.Keys {
      SubsetSize(a.Keys, b.Keys);
    } else {
      SubsetSize(b.Keys, a.Keys);
    }
  }

  lemma InsertSize(rows: map<nat, Earnings>, height: nat, earned: Earnings)
    ensures |rows[height := earned]| == |rows| + if height in rows then 0 else 1
  {
    assert rows[height := earned].Keys == rows.Keys + {height};
    assert |rows| == |rows.Keys| && |rows[height := earned]| == |rows[height := earned].Keys|;
  }

  /** A key that displaced another lies above everything already forgotten. */
  lemma DisplacedBelow(q: map<nat, Earnings>, p: map<nat, Earnings>, height: nat, earned: Earnings) returns (x: nat)
    requires height !in p && height in q && |q| == |p| && PartOf(q, p[height := earned])
    ensures x in p && x !in q
  {
    assert |q| == |q.Keys| && |p| == |p.Keys|;
    if p.Keys <= q.Keys {
      SubsetSize(p.Keys, q.Keys);
      assert false;
    }
    x :| x in p.Keys && x !in q.Keys;
  }

  lemma TopOfTop(q: map<nat, Earnings>, p: map<nat, Earnings>, rows: map<nat, Earnings>, height: nat, earned: Earnings)
    requires TopPart(p, rows) && TopPart(q, p[height := earned])
    ensures TopPart(q, rows[height := earned])
  {
    InsertSize(p, height, earned);
    InsertSize(rows, height, earned);
    if |rows| <= KEPT {
      assert TopPart(rows, rows);
      TopUnique(p, rows, rows);
    } else if height !in p && height in q {
      var x := DisplacedBelow(q, p, height, earned);
      assert x < height;
    }
  }

  /** Forgetting after every row seeds what forgetting once at the end would. */
  lemma PrunedOnce(rows: map<nat, Earnings>, height: nat, earned: Earnings)
    ensures Pruned(Pruned(rows)[height := earned]) == Pruned(rows[height := earned])
  {
    var p := Pruned(rows);
    var q := Pruned(p[height := earned]);
    PrunedIsTop(rows);
    PrunedIsTop(p[height := earned]);
    TopOfTop(q, p, rows, height, earned);
    PrunedIsTop(rows[height := earned]);
    TopUnique(q, Pruned(rows[height := earned]), rows[height := earned]);
  }
}
