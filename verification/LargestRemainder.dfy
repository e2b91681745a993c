/**
 What the apportionment is, said of the weights alone.

 The quota is the least positive number that the slots, taken that many times, cover the stake.  Each key gets the
 whole quotas in its stake or one seat more; the slots are used up, unless every key has its extra seat; and extra
 seats go to the largest remainders, ties to the smaller keys.  There is exactly one such map of weights.
 */
module LargestRemainder {
  import opened Prelude
  import opened Signers
  import opened KeySums
  import opened RewardSlots

  ghost predicate IsQuota(total: nat, slots: nat, t: nat)
  {
    0 < t && total <= t * slots && forall u: nat :: 0 < u && total <= u * slots ==> t <= u
  }

  /** A quota that covers the stake is one at least as large as the threshold. */
  lemma QuotaIff(total: nat, slots: nat, t: nat)
    requires 0 < slots && 0 < t
    ensures Threshold(total, slots) <= t <==> total <= t * slots
  {
    ThresholdCovers(total, slots);
    var q := Threshold(total, slots);
    if q <= t {
      assert q == t || q < t;
      if q < t {
        MulMono(q, t, slots);
      }
    } else if q > 1 {
      var c := DivCeil(total, slots);
      assert c * slots + (total + slots - 1) % slots == total + slots - 1;
      MulStep(t, c, slots);
    }
  }

  lemma QuotaIs(total: nat, slots: nat, t: nat)
    requires 0 < slots
    ensures IsQuota(total, slots, t) <==> t == Threshold(total, slots)
  {
    var q := Threshold(total, slots);
    QuotaIff(total, slots, q);
    forall u: nat | 0 < u && total <= u * slots
      ensures q <= u
    {
      QuotaIff(total, slots, u);
    }
    if IsQuota(total, slots, t) {
      QuotaIff(total, slots, t);
    }
  }

  /** Key `k` is served before key `j`: a larger remainder, or an equal one and a smaller key. */
  ghost predicate ServedFirst(stakes: map<Key, nat>, t: nat, k: Key, j: Key)
    requires k in stakes && j in stakes && 0 < t
  {
    stakes[k] % t > stakes[j] % t || (stakes[k] % t == stakes[j] % t && k < j)
  }

  /** Whole quotas, or one seat more. */
  ghost predicate WithinOne(stakes: map<Key, nat>, t: nat, w: map<Key, nat>)
    requires 0 < t && w.Keys == stakes.Keys
  {
    forall k :: k in stakes ==> w[k] == stakes[k] / t || w[k] == stakes[k] / t + 1
  }

  /** Seats are left over only when every key has its extra seat. */
  ghost predicate UsesSlots(stakes: map<Key, nat>, slots: nat, t: nat, w: map<Key, nat>)
    requires 0 < t && w.Keys == stakes.Keys
  {
    && Sum(w, stakes.Keys) <= slots
    && (Sum(w, stakes.Keys) < slots ==> forall k :: k in stakes ==> w[k] == stakes[k] / t + 1)
  }

  /** Keys with an extra seat are served before keys without. */
  ghost predicate InOrder(stakes: map<Key, nat>, t: nat, w: map<Key, nat>)
    requires 0 < t && w.Keys == stakes.Keys
  {
    forall j, k :: j in stakes && k in stakes && w[j] == stakes[j] / t && w[k] == stakes[k] / t + 1 ==>
      ServedFirst(stakes, t, k, j)
  }

  ghost predicate IsApportionment(stakes: map<Key, nat>, slots: nat, t: nat, w: map<Key, nat>)
    requires 0 < t
  {
    w.Keys == stakes.Keys && WithinOne(stakes, t, w) && UsesSlots(stakes, slots, t, w) && InOrder(stakes, t, w)
  }

  // ---------- The weights are an apportionment ----------

  lemma RankBelowAll(remainders: map<Key, nat>, k: Key)
    requires k in remainders
    ensures Rank(remainders, k) < |remainders.Keys|
  {
    var ahead := set j | j in remainders && Ahead(remainders, j, k);
    assert ahead <= remainders.Keys - {k};
    SubsetCount(ahead, remainders.Keys - {k});
  }

  lemma {:induction false} SubsetCount(a: set<Key>, b: set<Key>)
    requires a <= b
    ensures |a| <= |b|
    ensures |a| == |b| ==> a == b
  {
    assert b == a + (b - a);
  }

  /** A seat above the floor is a rank among the spare seats. */
  lemma ExtraIsRank(stakes: map<Key, nat>, slots: nat, t: nat, k: Key)
    requires 0 < slots && t == Threshold(Total(stakes), slots) && k in stakes
    ensures var spare := SaturatingSub(slots, Sum(Floors(stakes, t), stakes.Keys));
            Weights(stakes, slots)[k] == stakes[k] / t + if Rank(Remainders(stakes, t), k) < spare then 1 else 0
  {
  }

  lemma SeatsLeft(stakes: map<Key, nat>, slots: nat, t: nat, k: Key)
    requires 0 < slots && t == Threshold(Total(stakes), slots) && k in stakes
    requires Sum(Weights(stakes, slots), stakes.Keys) < slots
    ensures Weights(stakes, slots)[k] == stakes[k] / t + 1
  {
    WeightsConserved(stakes, slots);
    ExtraIsRank(stakes, slots, t, k);
    RankBelowAll(Remainders(stakes, t), k);
    QuotaKeys(stakes, t);
  }

  lemma ExtraServedFirst(stakes: map<Key, nat>, slots: nat, t: nat, j: Key, k: Key)
    requires 0 < slots && t == Threshold(Total(stakes), slots) && j in stakes && k in stakes
    requires Weights(stakes, slots)[j] == stakes[j] / t && Weights(stakes, slots)[k] == stakes[k] / t + 1
    ensures ServedFirst(stakes, t, k, j)
  {
    var remainders := Remainders(stakes, t);
    ExtraIsRank(stakes, slots, t, j);
    ExtraIsRank(stakes, slots, t, k);
    if Ahead(remainders, j, k) {
      AheadRanksLower(remainders, j, k);
    }
  }

  lemma WeightsInOrder(stakes: map<Key, nat>, slots: nat, t: nat, w: map<Key, nat>)
    requires 0 < slots && t == Threshold(Total(stakes), slots) && w == Weights(stakes, slots) && w.Keys == stakes.Keys
    ensures InOrder(stakes, t, w)
  {
    forall j, k | j in stakes && k in stakes && w[j] == stakes[j] / t && w[k] == stakes[k] / t + 1
      ensures ServedFirst(stakes, t, k, j)
    {
      ExtraServedFirst(stakes, slots, t, j, k);
    }
  }

  lemma WeightsUseSlots(stakes: map<Key, nat>, slots: nat, t: nat, w: map<Key, nat>)
    requires 0 < slots && t == Threshold(Total(stakes), slots) && w == Weights(stakes, slots) && w.Keys == stakes.Keys
    ensures UsesSlots(stakes, slots, t, w)
  {
    WeightsConserved(stakes, slots);
    forall k | Sum(w, stakes.Keys) < slots && k in stakes
      ensures w[k] == stakes[k] / t + 1
    {
      SeatsLeft(stakes, slots, t, k);
    }
  }

  lemma WeightsWithinOne(stakes: map<Key, nat>, slots: nat, t: nat, w: map<Key, nat>)
    requires 0 < slots && t == Threshold(Total(stakes), slots) && w == Weights(stakes, slots)
    ensures w.Keys == stakes.Keys && WithinOne(stakes, t, w)
  {
    forall k | k in stakes
      ensures k in w && (w[k] == stakes[k] / t || w[k] == stakes[k] / t + 1)
    {
      ExtraIsRank(stakes, slots, t, k);
    }
  }

  lemma WeightsApportion(stakes: map<Key, nat>, slots: nat, t: nat)
    requires 0 < slots && t == Threshold(Total(stakes), slots)
    ensures IsApportionment(stakes, slots, t, Weights(stakes, slots))
  {
    var w := Weights(stakes, slots);
    WeightsWithinOne(stakes, slots, t, w);
    WeightsUseSlots(stakes, slots, t, w);
    WeightsInOrder(stakes, slots, t, w);
  }

  // ---------- There is no other ----------

  /** The keys with a seat above their floor. */
  ghost function Extra(floors: map<Key, nat>, w: map<Key, nat>): set<Key>
    requires floors.Keys == w.Keys
  {
    set k | k in w && w[k] == floors[k] + 1
  }

  lemma {:induction false} ExtraSum(floors: map<Key, nat>, w: map<Key, nat>, keys: set<Key>)
    requires floors.Keys == w.Keys && keys <= w.Keys
    requires forall k :: k in w ==> w[k] == floors[k] || w[k] == floors[k] + 1
    ensures Sum(w, keys) == Sum(floors, keys) + |keys * Extra(floors, w)|
    decreases |keys|
  {
    var extra := Extra(floors, w);
    if keys == {} {
      assert keys * extra == {};
    } else {
      var k :| k in keys;
      ExtraSum(floors, w, keys - {k});
      SumRemove(w, keys, k);
      SumRemove(floors, keys, k);
      if k in extra {
        assert keys * extra == (keys - {k}) * extra + {k};
      } else {
        assert keys * extra == (keys - {k}) * extra;
      }
    }
  }

  /** A set of keys closed under being ahead holds a key exactly when fewer keys are ahead of it than it holds. */
  lemma ClosedByRank(remainders: map<Key, nat>, extra: set<Key>, k: Key)
    requires extra <= remainders.Keys && k in remainders
    requires forall j, e :: j in remainders && e in extra && j !in extra ==> Ahead(remainders, e, j)
    ensures k in extra <==> Rank(remainders, k) < |extra|
  {
    var ahead := set j | j in remainders && Ahead(remainders, j, k);
    if k in extra {
      assert ahead + {k} <= extra && k !in ahead;
      SubsetCount(ahead + {k}, extra);
    } else {
      SubsetCount(extra, ahead);
    }
  }

  lemma ApportionmentExtra(stakes: map<Key, nat>, slots: nat, t: nat, w: map<Key, nat>, k: Key)
    requires 0 < slots && t == Threshold(Total(stakes), slots) && IsApportionment(stakes, slots, t, w) && k in stakes
    ensures var spare := SaturatingSub(slots, Sum(Floors(stakes, t), stakes.Keys));
            w[k] == stakes[k] / t + 1 <==> Rank(Remainders(stakes, t), k) < spare
  {
    var floors, remainders := Floors(stakes, t), Remainders(stakes, t);
    var extra := Extra(floors, w);
    ExtraSum(floors, w, stakes.Keys);
    assert stakes.Keys * extra == extra;
    FloorsFit(stakes, slots);
    if Sum(w, stakes.Keys) < slots {
      assert extra == stakes.Keys;
      RankBelowAll(remainders, k);
    } else {
      forall j, e | j in remainders && e in extra && j !in extra
        ensures Ahead(remainders, e, j)
      {
        assert ServedFirst(stakes, t, e, j);
      }
      ClosedByRank(remainders, extra, k);
    }
  }

  /** The weights are the apportionment under the quota, and there is no other. */
  lemma WeightsAreTheApportionment(stakes: map<Key, nat>, slots: nat, t: nat, w: map<Key, nat>)
    requires 0 < slots && IsQuota(Total(stakes), slots, t)
    ensures IsApportionment(stakes, slots, t, w) <==> w == Weights(stakes, slots)
  {
    QuotaIs(Total(stakes), slots, t);
    WeightsApportion(stakes, slots, t);
    if IsApportionment(stakes, slots, t, w) {
      forall k | k in stakes
        ensures w[k] == Weights(stakes, slots)[k]
      {
        ApportionmentExtra(stakes, slots, t, w, k);
        ExtraIsRank(stakes, slots, t, k);
      }
      assert w.Keys == Weights(stakes, slots).Keys;
    }
  }

  // ---------- Shares ----------

  lemma {:induction false} MulLe(a: nat, b: nat, t: nat)
    requires a <= b
    ensures a * t <= b * t
  {
    if a < b {
      MulStep(a, b, t);
    }
  }

  lemma FloorBounds(stake: nat, t: nat, w: nat)
    requires 0 < t && stake / t <= w <= stake / t + 1
    ensures 0 < w ==> (w - 1) * t <= stake
    ensures stake < (w + 1) * t
  {
    var q := stake / t;
    assert q * t + stake % t == stake;
    MulLe(q + 1, w + 1, t);
    assert (q + 1) * t == q * t + t;
    if 0 < w {
      MulLe(w - 1, q, t);
    }
  }

  lemma Regroup(a: nat, b: nat, c: nat)
    ensures (a * b) * c == a * (b * c)
  {
  }

  /** No weight exceeds the exact share of its stake by more than a seat, nor falls short of it by a seat and what
      rounding the quota up costs: a bound in stakes and slots alone. */
  lemma WeightNearShare(stakes: map<Key, nat>, slots: nat, k: Key)
    requires 0 < slots && k in stakes
    ensures var w, total := Weights(stakes, slots)[k], Total(stakes);
            && (0 < w ==> (w - 1) * total <= stakes[k] * slots)
            && stakes[k] * slots < (w + 1) * (total + slots)
  {
    var w, total, t := Weights(stakes, slots)[k], Total(stakes), Threshold(Total(stakes), slots);
    Fair(stakes, slots, k, k);
    FloorBounds(stakes[k], t, w);
    ThresholdCovers(total, slots);
    if 0 < w {
      Share(total, t * slots, w - 1);
      Regroup(w - 1, t, slots);
      MulLe((w - 1) * t, stakes[k], slots);
    }
    QuotaTight(total, slots);
    MulMono(stakes[k], (w + 1) * t, slots);
    Regroup(w + 1, t, slots);
    Share(t * slots, total + slots, w + 1);
  }

  lemma Share(a: nat, b: nat, n: nat)
    requires a <= b
    ensures n * a <= n * b
  {
    MulLe(a, b, n);
  }

  lemma QuotaTight(total: nat, slots: nat)
    requires 0 < slots
    ensures Threshold(total, slots) * slots <= total + slots
  {
    var t := Threshold(total, slots);
    if t > 1 {
      QuotaIff(total, slots, t - 1);
      assert t * slots == (t - 1) * slots + slots;
    }
  }

  // ---------- The whole answer ----------

  /** The signers of a reward set: the keys of positive weight, in order. */
  ghost predicate ListsSigners(signers: seq<Signer>, w: map<Key, nat>)
  {
    && (forall x :: x in signers <==> x.key in w && 0 < x.weight == w[x.key])
    && (forall i, j :: 0 <= i < j < |signers| ==> signers[i].key < signers[j].key)
  }

  /** What the reward slots give, for every list of stackers: the refusals, in their order of precedence, and
      otherwise the quota and the signers of the one apportionment of what each key stacks in all. */
  lemma RewardSetIs(stackers: seq<Stacker>, slots: nat)
    ensures var r, total := Apportioned(StakesOf(stackers), slots), AmountTotal(stackers);
            if slots == 0 then r == Err(ZeroRewardSlots)
            else if U128_MAX < total then r == Err(StackedAmountOverflow)
            else if total == 0 then r == Err(Empty)
            else
              && r.Ok? && IsQuota(total, slots, r.value.threshold)
              && exists w :: IsApportionment(StakesOf(stackers), slots, r.value.threshold, w)
                   && ListsSigners(r.value.signers, w)
    ensures forall k :: (k in StakesOf(stackers) <==> 0 < AmountFor(stackers, k))
              && (k in StakesOf(stackers) ==> StakesOf(stackers)[k] == AmountFor(stackers, k))
  {
    var stakes, total := StakesOf(stackers), AmountTotal(stackers);
    forall k
      ensures (k in stakes <==> 0 < AmountFor(stackers, k)) && (k in stakes ==> stakes[k] == AmountFor(stackers, k))
    {
      StakesAreAmounts(stackers, k);
    }
    TotalIsAmountTotal(stackers);
    SucceedsIff(stackers, slots);
    if 0 < slots && 0 < total <= U128_MAX {
      QuotaIs(total, slots, Threshold(total, slots));
      WeightsApportion(stakes, slots, Threshold(total, slots));
      RewardSetTotals(stakes, slots);
      SeatedSigners(Weights(stakes, slots), Ascending(stakes.Keys));
      assert ListsSigners(Apportioned(stakes, slots).value.signers, Weights(stakes, slots));
    } else if stakes != map[] {
      SomethingStacked(stakes);
    }
  }

  lemma SomethingStacked(stakes: map<Key, nat>)
    requires stakes != map[] && forall k :: k in stakes ==> 0 < stakes[k]
    ensures 0 < Total(stakes)
  {
    assert stakes.Keys != {};
    var k :| k in stakes.Keys;
    SumRemove(stakes, stakes.Keys, k);
  }
}
