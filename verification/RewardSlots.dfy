/**
 Largest-remainder apportionment of reward slots.

 The reference gives each key its floor quota plus one slot when fewer keys than there are spare slots come
 before it in (remainder descending, key ascending) order: a count, with no sorting.  The method sorts.
 */
module RewardSlots {
  import opened Prelude
  import opened Signers
  import opened KeySums

  datatype Stacker = Stacker(key: Key, amount: u128)

  datatype RewardSet = RewardSet(signers: seq<Signer>, threshold: nat)

  // ---------- The reference ----------

  /** What each key stacks in all.  Entries of zero stack nothing. */
  function StakesOf(stackers: seq<Stacker>): (stakes: map<Key, nat>)
    ensures forall k :: k in stakes ==> 0 < stakes[k]
  {
    if stackers == [] then map[] else
    var stakes, last := StakesOf(stackers[..|stackers| - 1]), stackers[|stackers| - 1];
    if last.amount == 0 then stakes
    else stakes[last.key := last.amount + if last.key in stakes then stakes[last.key] else 0]
  }

  ghost function Total(stakes: map<Key, nat>): nat { Sum(stakes, stakes.Keys) }

  function Threshold(total: nat, slots: nat): nat
    requires 0 < slots
  {
    Max(DivCeil(total, slots), 1)
  }

  function Floors(stakes: map<Key, nat>, threshold: nat): map<Key, nat>
    requires 0 < threshold
  {
    map k | k in stakes :: stakes[k] / threshold
  }

  function Remainders(stakes: map<Key, nat>, threshold: nat): map<Key, nat>
    requires 0 < threshold
  {
    map k | k in stakes :: stakes[k] % threshold
  }

  /** Key `j` comes before key `k` for a spare slot. */
  predicate Ahead(remainders: map<Key, nat>, j: Key, k: Key)
    requires j in remainders && k in remainders
  {
    remainders[j] > remainders[k] || (remainders[j] == remainders[k] && j < k)
  }

  ghost function Rank(remainders: map<Key, nat>, k: Key): nat
    requires k in remainders
  {
    |set j | j in remainders && Ahead(remainders, j, k)|
  }

  ghost function SeatMap(floors: map<Key, nat>, remainders: map<Key, nat>, spare: nat): map<Key, nat>
    requires floors.Keys == remainders.Keys
  {
    map k | k in floors :: floors[k] + if Rank(remainders, k) < spare then 1 else 0
  }

  /** Each key's weight: a key that holds no seat weighs zero. */
  ghost function Weights(stakes: map<Key, nat>, slots: nat): map<Key, nat>
    requires 0 < slots
  {
    var threshold := Threshold(Total(stakes), slots);
    var floors := Floors(stakes, threshold);
    SeatMap(floors, Remainders(stakes, threshold), SaturatingSub(slots, Sum(floors, stakes.Keys)))
  }

  /** The keys that hold a seat, in the order given. */
  function Seated(seats: map<Key, nat>, keys: seq<Key>): seq<Signer>
    requires forall k :: k in keys ==> k in seats
  {
    if keys == [] then [] else
    var k := keys[|keys| - 1];
    Seated(seats, keys[..|keys| - 1]) + if seats[k] == 0 then [] else [Signer(k, seats[k])]
  }

  /** The reward set a map of stakes earns. */
  ghost function Apportioned(stakes: map<Key, nat>, slots: nat): Result<RewardSet, SignerSetError>
  {
    if slots == 0 then Err(ZeroRewardSlots)
    else if U128_MAX < Total(stakes) then Err(StackedAmountOverflow)
    else if stakes == map[] then Err(Empty)
    else
      Ok(RewardSet(Seated(Weights(stakes, slots), Ascending(stakes.Keys)), Threshold(Total(stakes), slots)))
  }

  // ---------- Slots are conserved ----------

  lemma ThresholdCovers(total: nat, slots: nat)
    requires 0 < slots
    ensures total <= Threshold(total, slots) * slots
  {
    var q := DivCeil(total, slots);
    assert q * slots == total + slots - 1 - (total + slots - 1) % slots;
  }

  lemma MulMono(a: nat, b: nat, t: nat)
    requires a < b && 0 < t
    ensures a * t < b * t
  {
  }

  lemma FloorStep(stake: nat, t: nat, floors: nat, stakes: nat)
    requires 0 < t && floors * t <= stakes
    ensures (stake / t + floors) * t <= stake + stakes
  {
    var q := stake / t;
    assert q * t + stake % t == stake;
    assert (q + floors) * t == q * t + floors * t;
  }

  lemma {:induction false} FloorsTimesThreshold(stakes: map<Key, nat>, threshold: nat, keys: set<Key>)
    requires 0 < threshold && keys <= stakes.Keys
    ensures Sum(Floors(stakes, threshold), keys) * threshold <= Sum(stakes, keys)
    decreases |keys|
  {
    if keys != {} {
      var floors := Floors(stakes, threshold);
      var k :| k in keys && Sum(stakes, keys) == stakes[k] + Sum(stakes, keys - {k});
      FloorsTimesThreshold(stakes, threshold, keys - {k});
      SumRemove(floors, keys, k);
      FloorStep(stakes[k], threshold, Sum(floors, keys - {k}), Sum(stakes, keys - {k}));
    }
  }

  /** The floor quotas never hand out more slots than there are. */
  lemma FloorsFit(stakes: map<Key, nat>, slots: nat)
    requires 0 < slots
    ensures Sum(Floors(stakes, Threshold(Total(stakes), slots)), stakes.Keys) <= slots
  {
    var threshold := Threshold(Total(stakes), slots);
    ThresholdCovers(Total(stakes), slots);
    FloorsTimesThreshold(stakes, threshold, stakes.Keys);
    var given := Sum(Floors(stakes, threshold), stakes.Keys);
    if slots < given {
      MulMono(slots, given, threshold);
      assert false;
    }
  }

  // ---------- Sorting ----------

  datatype Share = Share(key: Key, weight: nat, remainder: nat)

  function ByRemainder(a: Share, b: Share): bool
  {
    a.remainder > b.remainder || (a.remainder == b.remainder && a.key < b.key)
  }

  function ByKey(a: Share, b: Share): bool { a.key < b.key }

  function Insert(x: Share, s: seq<Share>, before: (Share, Share) -> bool): seq<Share>
  {
    if s == [] then [x]
    else if before(x, s[0]) then [x] + s
    else [s[0]] + Insert(x, s[1..], before)
  }

  function Sort(s: seq<Share>, before: (Share, Share) -> bool): seq<Share>
  {
    if s == [] then [] else Insert(s[0], Sort(s[1..], before), before)
  }

  function KeysOf(s: seq<Share>): (keys: seq<Key>)
    ensures |keys| == |s| && forall i :: 0 <= i < |s| ==> keys[i] == s[i].key
  {
    seq(|s|, i requires 0 <= i < |s| => s[i].key)
  }

  predicate DistinctKeys(s: seq<Share>)
  {
    forall i, j :: 0 <= i < j < |s| ==> s[i].key != s[j].key
  }

  predicate SortedBy(s: seq<Share>, before: (Share, Share) -> bool)
  {
    forall i, j :: 0 <= i < j < |s| ==> before(s[i], s[j])
  }

  /** A strict order that decides between any two shares of different keys. */
  ghost predicate Decides(before: (Share, Share) -> bool)
  {
    && (forall a, b, c :: before(a, b) && before(b, c) ==> before(a, c))
    && (forall a: Share, b: Share :: a.key != b.key ==> before(a, b) || before(b, a))
  }

  lemma {:induction false} InsertSorts(x: Share, s: seq<Share>, before: (Share, Share) -> bool)
    requires Decides(before) && SortedBy(s, before) && forall y :: y in s ==> y.key != x.key
    ensures SortedBy(Insert(x, s, before), before) && |Insert(x, s, before)| == |s| + 1
    ensures forall y :: y in Insert(x, s, before) <==> y == x || y in s
  {
    if s != [] && !before(x, s[0]) {
      InsertSorts(x, s[1..], before);
      assert before(s[0], x);
      assert forall y :: y in s[1..] ==> before(s[0], y);
      assert forall y :: y in s <==> y == s[0] || y in s[1..];
    }
  }

  lemma {:induction false} InsertDistinct(x: Share, s: seq<Share>, before: (Share, Share) -> bool)
    requires DistinctKeys(s) && forall y :: y in s ==> y.key != x.key
    ensures DistinctKeys(Insert(x, s, before))
    ensures forall y :: y in Insert(x, s, before) ==> y == x || y in s
  {
    if s != [] && !before(x, s[0]) {
      InsertDistinct(x, s[1..], before);
      assert forall y :: y in s[1..] ==> y.key != s[0].key;
    }
  }

  /** Sorting orders shares and keeps them. */
  lemma {:induction false} SortSorts(s: seq<Share>, before: (Share, Share) -> bool)
    requires Decides(before) && DistinctKeys(s)
    ensures SortedBy(Sort(s, before), before) && DistinctKeys(Sort(s, before)) && |Sort(s, before)| == |s|
    ensures forall y :: y in Sort(s, before) <==> y in s
  {
    if s != [] {
      SortSorts(s[1..], before);
      assert forall y :: y in s <==> y == s[0] || y in s[1..];
      InsertSorts(s[0], Sort(s[1..], before), before);
      InsertDistinct(s[0], Sort(s[1..], before), before);
    }
  }

  // ---------- Sorting computes the rank ----------

  /** Every key's floor quota and remainder, in key order. */
  function Floored(floors: map<Key, nat>, remainders: map<Key, nat>, keys: seq<Key>): (s: seq<Share>)
    requires forall k :: k in keys ==> k in floors && k in remainders
    ensures |s| == |keys| && forall i :: 0 <= i < |s| ==> s[i] == Share(keys[i], floors[keys[i]], remainders[keys[i]])
  {
    seq(|keys|, i requires 0 <= i < |keys| => Share(keys[i], floors[keys[i]], remainders[keys[i]]))
  }

  ghost predicate IsShare(floors: map<Key, nat>, remainders: map<Key, nat>, x: Share)
  {
    x.key in floors && x.key in remainders && x == Share(x.key, floors[x.key], remainders[x.key])
  }

  /** All the shares, in the order in which spare slots are handed out. */
  ghost predicate IsRanking(s: seq<Share>, floors: map<Key, nat>, remainders: map<Key, nat>)
  {
    && floors.Keys == remainders.Keys && SortedBy(s, ByRemainder) && DistinctKeys(s)
    && forall x :: x in s <==> IsShare(floors, remainders, x)
  }

  lemma FlooredShares(floors: map<Key, nat>, remainders: map<Key, nat>, keys: seq<Key>)
    requires floors.Keys == remainders.Keys && forall k :: k in keys <==> k in floors
    ensures forall x :: x in Floored(floors, remainders, keys) <==> IsShare(floors, remainders, x)
  {
    var floored := Floored(floors, remainders, keys);
    forall x ensures x in floored <==> IsShare(floors, remainders, x) {
      if IsShare(floors, remainders, x) {
        assert x.key in keys;
        var i :| 0 <= i < |keys| && keys[i] == x.key;
        assert floored[i] == x;
      }
    }
  }

  lemma SortRanks(floors: map<Key, nat>, remainders: map<Key, nat>)
    requires floors.Keys == remainders.Keys
    ensures IsRanking(Sort(Floored(floors, remainders, Ascending(floors.Keys)), ByRemainder), floors, remainders)
  {
    var keys := Ascending(floors.Keys);
    FlooredShares(floors, remainders, keys);
    SortSorts(Floored(floors, remainders, keys), ByRemainder);
  }

  lemma RankingKeys(s: seq<Share>, floors: map<Key, nat>, remainders: map<Key, nat>)
    requires IsRanking(s, floors, remainders)
    ensures Distinct(KeysOf(s)) && Elements(KeysOf(s)) == floors.Keys && |s| == |floors|
  {
    var keys := KeysOf(s);
    forall i | 0 <= i < |s| ensures keys[i] in floors { assert s[i] in s; }
    forall k | k in floors ensures k in keys {
      var x := Share(k, floors[k], remainders[k]);
      assert IsShare(floors, remainders, x);
      var i :| 0 <= i < |s| && s[i] == x;
      assert keys[i] == k;
    }
    assert Elements(keys) == floors.Keys;
    assert keys[..|keys|] == keys;
    PrefixCount(keys, |keys|);
  }

  lemma AheadIsEarlier(s: seq<Share>, floors: map<Key, nat>, remainders: map<Key, nat>, p: nat, i: nat)
    requires IsRanking(s, floors, remainders) && p < |s| && i < |s|
    ensures s[p].key in remainders && s[i].key in remainders
    ensures Ahead(remainders, s[p].key, s[i].key) <==> p < i
  {
    assert s[p] in s && s[i] in s;
    assert p < i ==> ByRemainder(s[p], s[i]);
    assert i < p ==> ByRemainder(s[i], s[p]);
  }

  /** The share at position `i` has exactly `i` keys ahead of it. */
  lemma PositionIsRank(s: seq<Share>, floors: map<Key, nat>, remainders: map<Key, nat>, i: nat)
    requires IsRanking(s, floors, remainders) && i < |s|
    ensures s[i].key in remainders && Rank(remainders, s[i].key) == i
  {
    RankingKeys(s, floors, remainders);
    AheadIsEarlier(s, floors, remainders, i, i);
    var keys, k := KeysOf(s), s[i].key;
    var ahead := set j | j in remainders && Ahead(remainders, j, k);
    forall j | j in ahead ensures j in keys[..i] {
      assert j in Elements(keys);
      var p :| 0 <= p < |s| && keys[p] == j;
      AheadIsEarlier(s, floors, remainders, p, i);
      assert keys[..i][p] == j;
    }
    forall p | 0 <= p < i ensures keys[p] in ahead { AheadIsEarlier(s, floors, remainders, p, i); }
    assert ahead == Elements(keys[..i]);
    PrefixCount(keys, i);
  }

  /** What the keys of a sequence add up to, one after another. */
  ghost function OrderSum(values: map<Key, nat>, order: seq<Key>): nat
    requires forall k :: k in order ==> k in values
  {
    if order == [] then 0 else
    var n := |order| - 1;
    OrderSum(values, order[..n]) + values[order[n]]
  }

  lemma {:induction false} OrderSumIsSum(values: map<Key, nat>, order: seq<Key>)
    requires Distinct(order) && forall k :: k in order ==> k in values
    ensures Elements(order) <= values.Keys && Sum(values, Elements(order)) == OrderSum(values, order)
  {
    if order != [] {
      var n := |order| - 1;
      OrderSumIsSum(values, order[..n]);
      assert order == order[..n] + [order[n]];
      assert Elements(order) == Elements(order[..n]) + {order[n]} && order[n] !in Elements(order[..n]);
      SumAdd(values, Elements(order[..n]), order[n]);
    } else {
      assert Elements(order) == {};
    }
  }

  /** In an order that gives each of the first spare keys one seat over its floor. */
  ghost predicate SeatsInOrder(order: seq<Key>, seats: map<Key, nat>, floors: map<Key, nat>, spare: nat)
  {
    forall i :: 0 <= i < |order| ==>
      order[i] in floors && order[i] in seats && seats[order[i]] == floors[order[i]] + if i < spare then 1 else 0
  }

  lemma {:induction false} OrderedSeats(order: seq<Key>, seats: map<Key, nat>, floors: map<Key, nat>, spare: nat)
    requires SeatsInOrder(order, seats, floors, spare)
    ensures (forall k :: k in order ==> k in floors && k in seats)
            && OrderSum(seats, order) == OrderSum(floors, order) + Min(spare, |order|)
  {
    if order != [] {
      OrderedSeats(order[..|order| - 1], seats, floors, spare);
    }
  }

  lemma SeatsAddUp(order: seq<Key>, seats: map<Key, nat>, floors: map<Key, nat>, keys: set<Key>, spare: nat)
    requires SeatsInOrder(order, seats, floors, spare) && Distinct(order) && |order| == |keys|
    requires Elements(order) == keys == floors.Keys == seats.Keys
    ensures Sum(seats, keys) == Sum(floors, keys) + Min(spare, |keys|)
  {
    OrderedSeats(order, seats, floors, spare);
    OrderSumIsSum(seats, order);
    OrderSumIsSum(floors, order);
  }

  lemma RankedSeat(s: seq<Share>, floors: map<Key, nat>, remainders: map<Key, nat>, spare: nat, i: nat)
    requires IsRanking(s, floors, remainders) && i < |s|
    ensures s[i].key in floors
    ensures SeatMap(floors, remainders, spare)[s[i].key] == floors[s[i].key] + if i < spare then 1 else 0
  {
    PositionIsRank(s, floors, remainders, i);
  }

  lemma RankedInOrder(s: seq<Share>, floors: map<Key, nat>, remainders: map<Key, nat>, spare: nat)
    requires IsRanking(s, floors, remainders)
    ensures SeatsInOrder(KeysOf(s), SeatMap(floors, remainders, spare), floors, spare)
  {
    forall i | 0 <= i < |s|
      ensures KeysOf(s)[i] == s[i].key && s[i].key in floors
      ensures SeatMap(floors, remainders, spare)[s[i].key] == floors[s[i].key] + if i < spare then 1 else 0
    {
      RankedSeat(s, floors, remainders, spare, i);
    }
  }

  lemma RankedSeats(s: seq<Share>, floors: map<Key, nat>, remainders: map<Key, nat>, keys: set<Key>, spare: nat)
    requires IsRanking(s, floors, remainders) && floors.Keys == keys
    ensures Sum(SeatMap(floors, remainders, spare), keys) == Sum(floors, keys) + Min(spare, |keys|)
  {
    RankingKeys(s, floors, remainders);
    RankedInOrder(s, floors, remainders, spare);
    assert |floors| == |floors.Keys|;
    SeatsAddUp(KeysOf(s), SeatMap(floors, remainders, spare), floors, keys, spare);
  }

  lemma SeatsSum(floors: map<Key, nat>, remainders: map<Key, nat>, keys: set<Key>, spare: nat)
    requires floors.Keys == remainders.Keys == keys
    ensures Sum(SeatMap(floors, remainders, spare), keys) == Sum(floors, keys) + Min(spare, |keys|)
  {
    SortRanks(floors, remainders);
    RankedSeats(Sort(Floored(floors, remainders, Ascending(floors.Keys)), ByRemainder), floors, remainders, keys,
                spare);
  }

  lemma SeatsGiven(floors: map<Key, nat>, remainders: map<Key, nat>, keys: set<Key>, given: nat, slots: nat)
    requires floors.Keys == remainders.Keys == keys && given == Sum(floors, keys) <= slots
    ensures Sum(SeatMap(floors, remainders, SaturatingSub(slots, given)), keys) == Min(slots, given + |keys|)
  {
    SeatsSum(floors, remainders, keys, SaturatingSub(slots, given));
  }

  /** The weights sum to the slots, or to one more than its floor for every key when there are slots to spare. */
  lemma WeightsConserved(stakes: map<Key, nat>, slots: nat)
    requires 0 < slots
    ensures Sum(Floors(stakes, Threshold(Total(stakes), slots)), stakes.Keys) <= slots
    ensures Sum(Weights(stakes, slots), stakes.Keys)
            == Min(slots, Sum(Floors(stakes, Threshold(Total(stakes), slots)), stakes.Keys) + |stakes|)
  {
    var threshold := Threshold(Total(stakes), slots);
    FloorsFit(stakes, slots);
    QuotaKeys(stakes, threshold);
    ConservedWith(stakes, slots, threshold, Sum(Floors(stakes, threshold), stakes.Keys));
  }

  lemma ConservedWith(stakes: map<Key, nat>, slots: nat, threshold: nat, given: nat)
    requires 0 < slots && threshold == Threshold(Total(stakes), slots)
    requires Floors(stakes, threshold).Keys == Remainders(stakes, threshold).Keys == stakes.Keys
    requires given == Sum(Floors(stakes, threshold), stakes.Keys) <= slots && |stakes.Keys| == |stakes|
    ensures Sum(Weights(stakes, slots), stakes.Keys) == Min(slots, given + |stakes|)
  {
    SeatsGiven(Floors(stakes, threshold), Remainders(stakes, threshold), stakes.Keys, given, slots);
  }

  lemma QuotaKeys(stakes: map<Key, nat>, threshold: nat)
    requires 0 < threshold
    ensures Floors(stakes, threshold).Keys == Remainders(stakes, threshold).Keys == stakes.Keys
    ensures |stakes.Keys| == |stakes|
  {
  }

  // ---------- The seated signers ----------

  lemma {:induction false} SeatedOrderSum(seats: map<Key, nat>, keys: seq<Key>)
    requires forall k :: k in keys ==> k in seats
    ensures WeightSum(Seated(seats, keys)) == OrderSum(seats, keys)
  {
    if keys != [] {
      var init, k := keys[..|keys| - 1], keys[|keys| - 1];
      SeatedOrderSum(seats, init);
      var rest := Seated(seats, init);
      assert (rest + [Signer(k, seats[k])])[..|rest|] == rest;
      assert rest + [] == rest;
    }
  }

  lemma SeatedSum(seats: map<Key, nat>, keys: seq<Key>)
    requires IsAscending(keys) && forall k :: k in keys ==> k in seats
    ensures Elements(keys) <= seats.Keys && WeightSum(Seated(seats, keys)) == Sum(seats, Elements(keys))
  {
    SeatedOrderSum(seats, keys);
    OrderSumIsSum(seats, keys);
  }

  ghost predicate Seats(seats: map<Key, nat>, keys: seq<Key>, signer: Signer)
  {
    signer.key in keys && signer.key in seats && 0 < signer.weight == seats[signer.key]
  }

  predicate AscendingSigners(signers: seq<Signer>)
  {
    forall i, j :: 0 <= i < j < |signers| ==> signers[i].key < signers[j].key
  }

  lemma {:induction false} SeatedSigners(seats: map<Key, nat>, keys: seq<Key>)
    requires IsAscending(keys) && forall k :: k in keys ==> k in seats
    ensures forall x :: x in Seated(seats, keys) <==> Seats(seats, keys, x)
    ensures AscendingSigners(Seated(seats, keys))
  {
    if keys != [] {
      var init, k := keys[..|keys| - 1], keys[|keys| - 1];
      assert keys == init + [k];
      SeatedSigners(seats, init);
      var rest := Seated(seats, init);
      forall i | 0 <= i < |rest| ensures rest[i].key < k {
        assert Seats(seats, init, rest[i]);
        var p :| 0 <= p < |init| && keys[p] == rest[i].key;
      }
      var signers := Seated(seats, keys);
      assert signers == if seats[k] == 0 then rest else rest + [Signer(k, seats[k])];
    }
  }

  lemma WeightsTotal(stakes: map<Key, nat>, slots: nat)
    requires 0 < slots && stakes != map[]
    ensures Weights(stakes, slots).Keys == stakes.Keys && 0 < Sum(Weights(stakes, slots), stakes.Keys) <= slots
  {
    WeightsConserved(stakes, slots);
    assert stakes.Keys != {} && |stakes.Keys| == |stakes|;
  }

  /** A reward set seats exactly the keys of positive weight, in key order, and its total weight is positive
      and no more than the slots. */
  lemma RewardSetTotals(stakes: map<Key, nat>, slots: nat)
    requires Apportioned(stakes, slots).Ok?
    ensures var signers := Apportioned(stakes, slots).value.signers;
            && NewSignerSet(signers) == Ok(signers)
            && 0 < WeightSum(signers) == Sum(Weights(stakes, slots), stakes.Keys) <= slots
            && forall x :: x in signers <==> x.key in stakes && 0 < x.weight == Weights(stakes, slots)[x.key]
  {
    WeightsTotal(stakes, slots);
    SeatedTotals(Weights(stakes, slots), Ascending(stakes.Keys));
  }

  lemma SeatedTotals(seats: map<Key, nat>, keys: seq<Key>)
    requires IsAscending(keys) && (forall k :: k in keys <==> k in seats)
    ensures var signers := Seated(seats, keys);
            && WeightSum(signers) == Sum(seats, seats.Keys)
            && (0 < WeightSum(signers) ==> NewSignerSet(signers) == Ok(signers))
            && forall x :: x in signers <==> x.key in seats && 0 < x.weight == seats[x.key]
  {
    SeatedSum(seats, keys);
    SeatedSigners(seats, keys);
    assert Elements(keys) == seats.Keys;
    assert forall x :: x in Seated(seats, keys) <==> Seats(seats, keys, x);
  }

  // ---------- Fairness ----------

  /** Coming ahead of another key is having fewer keys ahead. */
  lemma AheadRanksLower(remainders: map<Key, nat>, j: Key, k: Key)
    requires j in remainders && k in remainders && Ahead(remainders, j, k)
    ensures Rank(remainders, j) < Rank(remainders, k)
  {
    var a := set i | i in remainders && Ahead(remainders, i, j);
    var b := set i | i in remainders && Ahead(remainders, i, k);
    assert a + {j} <= b && j !in a;
    assert b == (a + {j}) + (b - (a + {j}));
  }

  lemma {:induction false} MulStep(r: nat, q: nat, t: nat)
    requires r < q
    ensures r * t + t <= q * t
  {
    assert q * t == (q - 1) * t + t;
    if r + 1 < q {
      MulStep(r, q - 1, t);
    }
  }

  lemma DivMono(a: nat, b: nat, t: nat)
    requires 0 < t && a <= b
    ensures a / t <= b / t
    ensures a / t == b / t ==> b % t - a % t == b - a
  {
    var q, r := a / t, b / t;
    var qt, rt := q * t, r * t;
    assert a == qt + a % t && b == rt + b % t;
    if r < q {
      MulStep(r, q, t);
      assert false;
    }
  }

  /** Every weight is its floor quota or one more.  A key with more stake never weighs less, and of two keys with
      equal stakes the smaller key has the same weight or one slot more. */
  lemma Fair(stakes: map<Key, nat>, slots: nat, j: Key, k: Key)
    requires 0 < slots && j in stakes && k in stakes
    ensures var floor := stakes[k] / Threshold(Total(stakes), slots);
            floor <= Weights(stakes, slots)[k] <= floor + 1
    ensures stakes[j] > stakes[k] ==> Weights(stakes, slots)[j] >= Weights(stakes, slots)[k]
    ensures stakes[j] == stakes[k] && j < k ==>
              Weights(stakes, slots)[k] <= Weights(stakes, slots)[j] <= Weights(stakes, slots)[k] + 1
  {
    var threshold := Threshold(Total(stakes), slots);
    var remainders := Remainders(stakes, threshold);
    if stakes[k] <= stakes[j] {
      DivMono(stakes[k], stakes[j], threshold);
      if Ahead(remainders, j, k) {
        AheadRanksLower(remainders, j, k);
      }
    }
  }

  // ---------- Only the sums per key matter ----------

  function AmountFor(stackers: seq<Stacker>, k: Key): nat
  {
    if stackers == [] then 0 else
    AmountFor(stackers[..|stackers| - 1], k)
      + if stackers[|stackers| - 1].key == k then stackers[|stackers| - 1].amount else 0
  }

  lemma {:induction false} StakesAreAmounts(stackers: seq<Stacker>, k: Key)
    ensures k in StakesOf(stackers) <==> 0 < AmountFor(stackers, k)
    ensures k in StakesOf(stackers) ==> StakesOf(stackers)[k] == AmountFor(stackers, k)
  {
    if stackers != [] {
      StakesAreAmounts(stackers[..|stackers| - 1], k);
    }
  }

  /** Inputs that stack the same amount for every key earn the same answer, whatever their entries. */
  lemma OnlySumsMatter(a: seq<Stacker>, b: seq<Stacker>, slots: nat)
    requires forall k :: AmountFor(a, k) == AmountFor(b, k)
    ensures Apportioned(StakesOf(a), slots) == Apportioned(StakesOf(b), slots)
  {
    forall k ensures k in StakesOf(a) <==> k in StakesOf(b)
             ensures k in StakesOf(a) ==> StakesOf(a)[k] == StakesOf(b)[k]
    {
      StakesAreAmounts(a, k);
      StakesAreAmounts(b, k);
    }
    assert StakesOf(a) == StakesOf(b);
  }

  lemma {:induction false} AmountConcat(a: seq<Stacker>, b: seq<Stacker>, k: Key)
    ensures AmountFor(a + b, k) == AmountFor(a, k) + AmountFor(b, k)
  {
    if b == [] {
      assert a + b == a;
    } else {
      AmountConcat(a, b[..|b| - 1], k);
      assert (a + b)[..|a + b| - 1] == a + b[..|b| - 1];
    }
  }

  lemma AmountWithout(b: seq<Stacker>, i: nat, k: Key)
    requires i < |b|
    ensures AmountFor(b, k) == AmountFor(b[..i] + b[i + 1..], k) + if b[i].key == k then b[i].amount else 0
  {
    var before, x, after := b[..i], [b[i]], b[i + 1..];
    assert b == before + x + after;
    AmountConcat(before + x, after, k);
    AmountConcat(before, x, k);
    AmountConcat(before, after, k);
  }

  lemma Cancel<T>(p: multiset<T>, q: multiset<T>, x: T)
    requires p + multiset{x} == q + multiset{x}
    ensures p == q
  {
    assert p == p + multiset{x} - multiset{x} && q == q + multiset{x} - multiset{x};
  }

  lemma SameWithoutOne(a: seq<Stacker>, b: seq<Stacker>, i: nat)
    requires multiset(a) == multiset(b) && a != [] && i < |b| && b[i] == a[|a| - 1]
    ensures multiset(a[..|a| - 1]) == multiset(b[..i] + b[i + 1..])
  {
    var x := b[i];
    assert multiset(a) == multiset(a[..|a| - 1]) + multiset{x} by { assert a == a[..|a| - 1] + [x]; }
    assert multiset(b) == multiset(b[..i] + b[i + 1..]) + multiset{x} by { assert b == b[..i] + ([x] + b[i + 1..]); }
    Cancel(multiset(a[..|a| - 1]), multiset(b[..i] + b[i + 1..]), x);
  }

  lemma {:induction false} AmountPermuted(a: seq<Stacker>, b: seq<Stacker>, k: Key)
    requires multiset(a) == multiset(b)
    ensures AmountFor(a, k) == AmountFor(b, k)
  {
    if a == [] {
      assert |multiset(b)| == 0;
    } else {
      var x := a[|a| - 1];
      assert x in multiset(a) && x in multiset(b);
      var i :| 0 <= i < |b| && b[i] == x;
      SameWithoutOne(a, b, i);
      AmountPermuted(a[..|a| - 1], b[..i] + b[i + 1..], k);
      AmountWithout(b, i, k);
    }
  }

  /** The order of the entries does not matter. */
  lemma OrderDoesNotMatter(a: seq<Stacker>, b: seq<Stacker>, slots: nat)
    requires multiset(a) == multiset(b)
    ensures Apportioned(StakesOf(a), slots) == Apportioned(StakesOf(b), slots)
  {
    forall k ensures AmountFor(a, k) == AmountFor(b, k) { AmountPermuted(a, b, k); }
    OnlySumsMatter(a, b, slots);
  }

  /** Splitting an entry in two, or merging two entries of one key, does not matter. */
  lemma SplittingDoesNotMatter(a: seq<Stacker>, k: Key, x: u128, y: u128, b: seq<Stacker>, slots: nat)
    requires x + y <= U128_MAX
    ensures Apportioned(StakesOf(a + [Stacker(k, x), Stacker(k, y)] + b), slots)
            == Apportioned(StakesOf(a + [Stacker(k, x + y)] + b), slots)
  {
    var split, merged := [Stacker(k, x), Stacker(k, y)], [Stacker(k, x + y)];
    forall j ensures AmountFor(a + split + b, j) == AmountFor(a + merged + b, j) {
      AmountConcat(a + split, b, j);
      AmountConcat(a, split, j);
      AmountConcat(a + merged, b, j);
      AmountConcat(a, merged, j);
      assert split[..1] == [Stacker(k, x)];
    }
    OnlySumsMatter(a + split + b, a + merged + b, slots);
  }

  // ---------- When it succeeds ----------

  function AmountTotal(stackers: seq<Stacker>): nat
  {
    if stackers == [] then 0 else AmountTotal(stackers[..|stackers| - 1]) + stackers[|stackers| - 1].amount
  }

  lemma {:induction false} TotalIsAmountTotal(stackers: seq<Stacker>)
    ensures Total(StakesOf(stackers)) == AmountTotal(stackers)
  {
    if stackers != [] {
      var init, last := stackers[..|stackers| - 1], stackers[|stackers| - 1];
      TotalIsAmountTotal(init);
      var before, after := StakesOf(init), StakesOf(stackers);
      if last.amount != 0 {
        var rest := before.Keys - {last.key};
        assert after.Keys == rest + {last.key};
        SumAdd(after, rest, last.key);
        SumSame(before, after, rest);
        if last.key in before {
          SumRemove(before, before.Keys, last.key);
        } else {
          assert rest == before.Keys;
        }
      }
    }
  }

  /** The answer is a reward set exactly when there are slots, and what is stacked in all is positive and fits. */
  lemma SucceedsIff(stackers: seq<Stacker>, slots: nat)
    ensures Apportioned(StakesOf(stackers), slots).Ok? <==> 0 < slots && 0 < AmountTotal(stackers) <= U128_MAX
  {
    TotalIsAmountTotal(stackers);
    var stakes := StakesOf(stackers);
    if stakes.Keys != {} {
      var k :| k in stakes;
      SumRemove(stakes, stakes.Keys, k);
    } else {
      assert stakes == map[];
    }
  }

  // ---------- The method ----------

  lemma {:induction false} SumMono(values: map<Key, nat>, some: set<Key>, all: set<Key>)
    requires some <= all <= values.Keys
    ensures Sum(values, some) <= Sum(values, all)
    decreases |all|
  {
    if some != all {
      var k :| k in all && k !in some;
      SumRemove(values, all, k);
      SumMono(values, some, all - {k});
    }
  }

  lemma PartIsBelowTotal(values: map<Key, nat>, k: Key)
    requires k in values
    ensures values[k] <= Sum(values, values.Keys)
  {
    SumRemove(values, values.Keys, k);
  }

  /** A key that overflows part of the way through leaves a total that does not fit. */
  lemma OverflowIsFinal(stackers: seq<Stacker>, n: nat)
    requires n <= |stackers|
    ensures Total(StakesOf(stackers[..n])) <= Total(StakesOf(stackers))
  {
    TotalIsAmountTotal(stackers[..n]);
    TotalIsAmountTotal(stackers);
    AmountTotalMono(stackers, n);
  }

  lemma {:induction false} AmountTotalMono(stackers: seq<Stacker>, n: nat)
    requires n <= |stackers|
    ensures AmountTotal(stackers[..n]) <= AmountTotal(stackers)
    decreases |stackers|
  {
    if n < |stackers| {
      AmountTotalMono(stackers[..|stackers| - 1], n);
      assert stackers[..|stackers| - 1][..n] == stackers[..n];
    } else {
      assert stackers[..n] == stackers;
    }
  }

  lemma SumPrefix(values: map<Key, nat>, keys: seq<Key>, i: nat)
    requires i < |keys| && Distinct(keys) && forall k :: k in keys ==> k in values
    ensures Elements(keys[..i + 1]) <= Elements(keys) <= values.Keys
    ensures Sum(values, Elements(keys[..i + 1])) == Sum(values, Elements(keys[..i])) + values[keys[i]]
    ensures Sum(values, Elements(keys[..i + 1])) <= Sum(values, Elements(keys))
  {
    assert keys[..i + 1] == keys[..i] + [keys[i]];
    assert Elements(keys[..i + 1]) == Elements(keys[..i]) + {keys[i]};
    assert keys[i] !in keys[..i];
    SumAdd(values, Elements(keys[..i]), keys[i]);
    SumMono(values, Elements(keys[..i + 1]), Elements(keys));
  }

  /** Fold a map's values in key order, stopping at the first sum that does not fit. */
  method CheckedTotal(values: map<Key, nat>, keys: seq<Key>) returns (r: Option<nat>)
    requires IsAscending(keys) && forall k :: k in keys <==> k in values
    ensures r == if Sum(values, values.Keys) <= U128_MAX then Some(Sum(values, values.Keys)) else None
  {
    var total := 0;
    assert Elements(keys) == values.Keys;
    for i := 0 to |keys|
      invariant Elements(keys[..i]) <= values.Keys && total == Sum(values, Elements(keys[..i])) <= U128_MAX
    {
      SumPrefix(values, keys, i);
      if total + values[keys[i]] > U128_MAX {
        return None;
      }
      total := total + values[keys[i]];
    }
    assert keys[..|keys|] == keys;
    return Some(total);
  }

  /** The shares after the spare slots are handed out. */
  ghost predicate HandedOut(before: seq<Share>, after: seq<Share>, spare: nat)
  {
    && |before| == |after|
    && forall i :: 0 <= i < |before| ==>
         after[i] == Share(before[i].key, before[i].weight + if i < spare then 1 else 0, before[i].remainder)
  }

  /** One slot each to the front shares while slots remain; `None` when a weight overflows. */
  method HandOut(shares: seq<Share>, spare: nat) returns (r: Option<seq<Share>>)
    ensures r.Some? ==> HandedOut(shares, r.value, spare)
    ensures r.None? ==> exists i :: 0 <= i < |shares| && U128_MAX <= shares[i].weight
  {
    var after := shares;
    var remaining := spare;
    for i := 0 to |shares|
      invariant |after| == |shares| && remaining == SaturatingSub(spare, i)
      invariant forall j :: 0 <= j < |shares| ==>
        after[j] == Share(shares[j].key, shares[j].weight + if j < i && j < spare then 1 else 0, shares[j].remainder)
    {
      if remaining == 0 {
        break;
      }
      if after[i].weight + 1 > U128_MAX {
        return None;
      }
      after := after[i := after[i].(weight := after[i].weight + 1)];
      remaining := remaining - 1;
    }
    return Some(after);
  }

  /** Handing out along a ranking gives every key its weight. */
  lemma HandedOutWeighs(s: seq<Share>, after: seq<Share>, floors: map<Key, nat>, remainders: map<Key, nat>, spare: nat)
    requires IsRanking(s, floors, remainders) && HandedOut(s, after, spare)
    ensures var seats := SeatMap(floors, remainders, spare);
            && DistinctKeys(after) && Weighs(after, seats)
            && (forall k :: k in floors ==> k in KeysOf(after))
  {
    forall i | 0 <= i < |after|
      ensures after[i].key in floors && after[i].weight == SeatMap(floors, remainders, spare)[after[i].key]
    {
      PositionIsRank(s, floors, remainders, i);
      assert IsShare(floors, remainders, s[i]);
    }
    RankingKeys(s, floors, remainders);
    forall k | k in floors ensures k in KeysOf(after) {
      assert k in Elements(KeysOf(s));
      var i :| 0 <= i < |s| && KeysOf(s)[i] == k;
      assert KeysOf(after)[i] == k;
    }
  }

  ghost predicate Weighs(s: seq<Share>, seats: map<Key, nat>)
  {
    forall i :: 0 <= i < |s| ==> s[i].key in seats && s[i].weight == seats[s[i].key]
  }

  /** Sorting such shares by key lists every weight in key order. */
  lemma SortedByKey(after: seq<Share>, seats: map<Key, nat>)
    requires DistinctKeys(after) && Weighs(after, seats) && forall k :: k in seats ==> k in KeysOf(after)
    ensures Weighs(Sort(after, ByKey), seats) && KeysOf(Sort(after, ByKey)) == Ascending(seats.Keys)
  {
    SortSorts(after, ByKey);
    var s := Sort(after, ByKey);
    forall i | 0 <= i < |s| ensures s[i].key in seats && s[i].weight == seats[s[i].key] { assert s[i] in s; }
    KeysAscend(s, after, seats);
    AscendingUnique(KeysOf(s), Ascending(seats.Keys));
  }

  lemma KeysAscend(s: seq<Share>, after: seq<Share>, seats: map<Key, nat>)
    requires SortedBy(s, ByKey) && Weighs(s, seats) && (forall x :: x in s <==> x in after)
    requires forall k :: k in seats ==> k in KeysOf(after)
    ensures IsAscending(KeysOf(s)) && forall k :: k in KeysOf(s) <==> k in seats
  {
    var keys := KeysOf(s);
    forall k | k in seats ensures k in keys {
      var i :| 0 <= i < |after| && KeysOf(after)[i] == k;
      assert after[i] in s;
      var j :| 0 <= j < |s| && s[j] == after[i];
      assert keys[j] == k;
    }
    forall i, j | 0 <= i < j < |s| ensures keys[i] < keys[j] { assert ByKey(s[i], s[j]); }
  }

  /** Drop the keys without a seat; `None` when a weight is too large for a signer. */
  method Collect(shares: seq<Share>, ghost seats: map<Key, nat>) returns (r: Option<seq<Signer>>)
    requires Weighs(shares, seats)
    ensures r.Some? ==> (forall k :: k in KeysOf(shares) ==> k in seats) && r.value == Seated(seats, KeysOf(shares))
    ensures r.None? ==> exists i :: 0 <= i < |shares| && U32_MAX < shares[i].weight
  {
    var signers: seq<Signer> := [];
    ghost var keys := KeysOf(shares);
    for i := 0 to |shares|
      invariant (forall k :: k in keys[..i] ==> k in seats) && signers == Seated(seats, keys[..i])
    {
      assert keys[..i + 1][..i] == keys[..i];
      if shares[i].weight != 0 {
        if shares[i].weight > U32_MAX {
          return None;
        }
        signers := signers + [Signer(shares[i].key, shares[i].weight)];
      }
    }
    assert keys[..|keys|] == keys;
    return Some(signers);
  }

  /** Aggregates stakes by key, takes floors, seats the largest remainders and collects the signers. */
  method FromRewardSlots(stackers: seq<Stacker>, slots: u32) returns (r: Result<RewardSet, SignerSetError>)
    ensures r == Apportioned(StakesOf(stackers), slots)
  {
    if slots == 0 {
      return Err(ZeroRewardSlots);
    }
    var stacked: map<Key, nat> := map[];
    for i := 0 to |stackers|
      invariant stacked == StakesOf(stackers[..i])
    {
      assert stackers[..i + 1][..i] == stackers[..i];
      if stackers[i].amount == 0 {
        continue;
      }
      var key := stackers[i].key;
      var amount := stackers[i].amount + if key in stacked then stacked[key] else 0;
      if amount > U128_MAX {
        PartIsBelowTotal(StakesOf(stackers[..i + 1]), key);
        OverflowIsFinal(stackers, i + 1);
        return Err(StackedAmountOverflow);
      }
      stacked := stacked[key := amount];
    }
    assert stackers[..|stackers|] == stackers;
    r := Apportion(stacked, slots);
  }

  lemma WeightsFit(s: seq<Share>, seats: map<Key, nat>)
    requires Weighs(s, seats)
    ensures forall i :: 0 <= i < |s| ==> s[i].weight <= Sum(seats, seats.Keys)
  {
    forall i | 0 <= i < |s| ensures s[i].weight <= Sum(seats, seats.Keys) { PartIsBelowTotal(seats, s[i].key); }
  }

  lemma RankingWeighs(s: seq<Share>, floors: map<Key, nat>, remainders: map<Key, nat>)
    requires IsRanking(s, floors, remainders)
    ensures Weighs(s, floors)
  {
    forall i | 0 <= i < |s| ensures IsShare(floors, remainders, s[i]) { assert s[i] in s; }
  }

  /** Hand out the spare slots along a ranking, then put the shares back in key order. */
  method SeatShares(shares: seq<Share>, ghost floors: map<Key, nat>, ghost remainders: map<Key, nat>, spare: nat)
    returns (r: Result<seq<Share>, SignerSetError>)
    requires IsRanking(shares, floors, remainders) && Sum(floors, floors.Keys) <= U32_MAX
    ensures r.Ok? && Weighs(r.value, SeatMap(floors, remainders, spare)) && KeysOf(r.value) == Ascending(floors.Keys)
  {
    RankingWeighs(shares, floors, remainders);
    WeightsFit(shares, floors);
    var after := HandOut(shares, spare);
    if after.None? {
      return Err(WeightOverflow);
    }
    HandedOutWeighs(shares, after.value, floors, remainders, spare);
    ghost var seats := SeatMap(floors, remainders, spare);
    assert seats.Keys == floors.Keys;
    SortedByKey(after.value, seats);
    return Ok(Sort(after.value, ByKey));
  }

  method RankShares(floors: map<Key, nat>, remainders: map<Key, nat>) returns (r: seq<Share>)
    requires floors.Keys == remainders.Keys
    ensures IsRanking(r, floors, remainders)
  {
    r := Sort(Floored(floors, remainders, Ascending(floors.Keys)), ByRemainder);
    SortRanks(floors, remainders);
  }

  method SeatKeys(floors: map<Key, nat>, remainders: map<Key, nat>,
                  spare: nat) returns (r: Result<seq<Signer>, SignerSetError>)
    requires floors.Keys == remainders.Keys && Sum(floors, floors.Keys) <= U32_MAX
    requires Sum(SeatMap(floors, remainders, spare), floors.Keys) <= U32_MAX
    ensures r == Ok(Seated(SeatMap(floors, remainders, spare), Ascending(floors.Keys)))
  {
    ghost var seats := SeatMap(floors, remainders, spare);
    assert seats.Keys == floors.Keys;
    var ranked := RankShares(floors, remainders);
    var shares := SeatShares(ranked, floors, remainders, spare);
    r := SeatSigners(shares.value, seats);
  }

  method SeatSigners(shares: seq<Share>, ghost seats: map<Key, nat>) returns (r: Result<seq<Signer>, SignerSetError>)
    requires Weighs(shares, seats) && Sum(seats, seats.Keys) <= U32_MAX
    ensures (forall k :: k in KeysOf(shares) ==> k in seats) && r == Ok(Seated(seats, KeysOf(shares)))
  {
    WeightsFit(shares, seats);
    var signers := Collect(shares, seats);
    if signers.None? {
      return Err(WeightOverflow);
    }
    return Ok(signers.value);
  }

  method SeatAll(floors: map<Key, nat>, remainders: map<Key, nat>,
                 slots: u32) returns (r: Result<seq<Signer>, SignerSetError>)
    requires floors.Keys == remainders.Keys && Sum(floors, floors.Keys) <= slots
    ensures var seats := SeatMap(floors, remainders, slots - Sum(floors, floors.Keys));
            r == if Sum(seats, seats.Keys) == 0 then Err(Empty) else Ok(Seated(seats, Ascending(floors.Keys)))
  {
    var keys := Ascending(floors.Keys);
    var given := CheckedTotal(floors, keys);
    if given.None? {
      return Err(WeightOverflow);
    }
    var spare := SaturatingSub(slots, given.value);
    SeatsSum(floors, remainders, floors.Keys, spare);
    var signers := SeatKeys(floors, remainders, spare);
    ghost var seats := SeatMap(floors, remainders, spare);
    assert seats.Keys == floors.Keys;
    SeatedTotals(seats, keys);
    if signers.Err? {
      return signers;
    }
    assert Sum(seats, seats.Keys) == 0 ==> signers.value == [] by {
      NoWeightNoSigners(signers.value);
    }
    return NewSignerSet(signers.value);
  }

  lemma NoWeightNoSigners(signers: seq<Signer>)
    requires forall x :: x in signers ==> 0 < x.weight
    ensures WeightSum(signers) == 0 ==> signers == []
  {
    if signers != [] {
      assert signers[|signers| - 1] in signers;
    }
  }

  lemma ApportionedByWeights(stakes: map<Key, nat>, slots: nat)
    requires 0 < slots && Total(stakes) <= U128_MAX
    ensures var threshold := Threshold(Total(stakes), slots);
            var floors := Floors(stakes, threshold);
            && floors.Keys == stakes.Keys && Sum(floors, floors.Keys) <= slots
            && Weights(stakes, slots)
                == SeatMap(floors, Remainders(stakes, threshold), slots - Sum(floors, floors.Keys))
    ensures var weights := Weights(stakes, slots);
            Apportioned(stakes, slots)
            == if Sum(weights, weights.Keys) == 0 then Err(Empty)
               else Ok(RewardSet(Seated(weights, Ascending(stakes.Keys)), Threshold(Total(stakes), slots)))
  {
    var floors := Floors(stakes, Threshold(Total(stakes), slots));
    assert floors.Keys == stakes.Keys == Weights(stakes, slots).Keys;
    assert Sum(floors, floors.Keys) <= slots by { FloorsFit(stakes, slots); }
    if stakes != map[] {
      WeightsTotal(stakes, slots);
    }
  }

  method Apportion(stacked: map<Key, nat>, slots: u32) returns (r: Result<RewardSet, SignerSetError>)
    requires 0 < slots
    ensures r == Apportioned(stacked, slots)
  {
    var total := CheckedTotal(stacked, Ascending(stacked.Keys));
    if total.None? {
      return Err(StackedAmountOverflow);
    }
    var threshold := Max(DivCeil(total.value, slots), 1);
    ApportionedByWeights(stacked, slots);
    var signers := SeatAll(Floors(stacked, threshold), Remainders(stacked, threshold), slots);
    r := if signers.Ok? then Ok(RewardSet(signers.value, threshold)) else Err(signers.error);
  }
}
