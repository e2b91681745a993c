/**
 The approval rule: which lists of signatures approve a header.

 The reference says it over places: each signature recovers to a known signer, the places of those signers
 strictly increase, and their weight reaches seven tenths of the whole.
 */
module SignerApproval {
  import opened Prelude
  import opened Nakamoto
  import opened Signers
  import opened SignedHeader
  import KeySums

  datatype Entry = Entry(hash: Hash20, weight: u32)

  /** Hashing, and the key hash a signature over a digest recovers to. */
  datatype Crypto = Crypto(sha: Sha, recover: (Signature, Hash32) -> Option<Hash20>)

  predicate DistinctHashes(entries: seq<Entry>)
  {
    forall i, j :: 0 <= i < j < |entries| ==> entries[i].hash != entries[j].hash
  }

  function NewWeights(entries: seq<Entry>): Result<seq<Entry>, SignerSetError>
  {
    if entries == [] then Err(Empty)
    else if !DistinctHashes(entries) then Err(DuplicateSigner)
    else Ok(entries)
  }

  function EntriesTotal(entries: seq<Entry>): nat
  {
    if entries == [] then 0 else EntriesTotal(entries[..|entries| - 1]) + entries[|entries| - 1].weight
  }

  method TotalWeight(entries: seq<Entry>) returns (r: Result<u32, SignerSetError>)
    ensures r == if EntriesTotal(entries) <= U32_MAX then Ok(EntriesTotal(entries)) else Err(WeightOverflow)
  {
    var total := 0;
    for i := 0 to |entries|
      invariant total == EntriesTotal(entries[..i]) <= U32_MAX
    {
      assert entries[..i + 1][..i] == entries[..i];
      if total + entries[i].weight > U32_MAX {
        TotalMono(entries, i + 1);
        return Err(WeightOverflow);
      }
      total := total + entries[i].weight;
    }
    assert entries[..|entries|] == entries;
    return Ok(total);
  }

  lemma {:induction false} TotalMono(entries: seq<Entry>, n: nat)
    requires n <= |entries|
    ensures EntriesTotal(entries[..n]) <= EntriesTotal(entries)
    decreases |entries|
  {
    if n == |entries| {
      assert entries[..n] == entries;
    } else {
      assert entries[..|entries| - 1][..n] == entries[..n];
      TotalMono(entries[..|entries| - 1], n);
    }
  }

  /** The least weight that is seven tenths of the total.  It never overflows once the total fits. */
  method ApprovalThreshold(entries: seq<Entry>) returns (r: Result<u32, SignerSetError>)
    ensures if EntriesTotal(entries) <= U32_MAX
            then r.Ok? && 7 * EntriesTotal(entries) <= 10 * r.value < 7 * EntriesTotal(entries) + 10
            else r == Err(WeightOverflow)
  {
    var total :- TotalWeight(entries);
    var seven: nat := 7 * (total as int);
    var threshold := DivCeil(seven, 10);
    if threshold > U32_MAX {
      return Err(WeightOverflow);
    }
    return Ok(threshold);
  }

  /** Reaching the threshold is reaching seven tenths. */
  lemma ThresholdIff(total: nat, threshold: nat, weight: nat)
    requires 7 * total <= 10 * threshold < 7 * total + 10
    ensures threshold <= weight <==> 7 * total <= 10 * weight
  {
  }

  // ---------- The reference ----------

  /** The place of a signer in the set. */
  ghost function PlaceOf(entries: seq<Entry>, hash: Hash20): (place: Option<nat>)
    ensures place.Some? ==> place.value < |entries| && entries[place.value].hash == hash
    ensures place.None? ==> forall i :: 0 <= i < |entries| ==> entries[i].hash != hash
  {
    if i: nat :| i < |entries| && entries[i].hash == hash then Some(i) else None
  }

  ghost function Place(c: Crypto, entries: seq<Entry>, digest: Hash32, signature: Signature): Option<nat>
  {
    var hash := c.recover(signature, digest);
    if hash.None? then None else PlaceOf(entries, hash.value)
  }

  ghost predicate AllKnown(c: Crypto, entries: seq<Entry>, digest: Hash32, signatures: seq<Signature>)
  {
    forall i :: 0 <= i < |signatures| ==> Place(c, entries, digest, signatures[i]).Some?
  }

  /** Every signature is of a known signer, and the signers come in the order of the set, none twice. */
  ghost predicate Ordered(c: Crypto, entries: seq<Entry>, digest: Hash32, signatures: seq<Signature>)
  {
    && AllKnown(c, entries, digest, signatures)
    && forall i, j :: 0 <= i < j < |signatures| ==>
         Place(c, entries, digest, signatures[i]).value < Place(c, entries, digest, signatures[j]).value
  }

  /** Every signature is of a known signer, and no two are of one signer. */
  ghost predicate DistinctPlaces(c: Crypto, entries: seq<Entry>, digest: Hash32, signatures: seq<Signature>)
  {
    && AllKnown(c, entries, digest, signatures)
    && forall i, j :: 0 <= i < j < |signatures| ==>
         Place(c, entries, digest, signatures[i]) != Place(c, entries, digest, signatures[j])
  }

  ghost function SignedWeight(c: Crypto, entries: seq<Entry>, digest: Hash32, signatures: seq<Signature>): nat
    requires AllKnown(c, entries, digest, signatures)
  {
    if signatures == [] then 0 else
    var n := |signatures| - 1;
    assert AllKnown(c, entries, digest, signatures[..n]);
    SignedWeight(c, entries, digest, signatures[..n]) + entries[Place(c, entries, digest, signatures[n]).value].weight
  }

  ghost predicate Approves(c: Crypto, entries: seq<Entry>, digest: Hash32, signatures: seq<Signature>)
  {
    && Ordered(c, entries, digest, signatures)
    && EntriesTotal(entries) <= U32_MAX
    && 7 * EntriesTotal(entries) <= 10 * SignedWeight(c, entries, digest, signatures)
  }

  // ---------- The weight of a set of signers ----------

  ghost function WeightOf(entries: seq<Entry>, places: set<nat>): nat
  {
    if entries == [] then 0 else
    var n := |entries| - 1;
    WeightOf(entries[..n], places) + if n in places then entries[n].weight else 0
  }

  lemma {:induction false} WeightAdd(entries: seq<Entry>, places: set<nat>, p: nat)
    requires p < |entries| && p !in places
    ensures WeightOf(entries, places + {p}) == WeightOf(entries, places) + entries[p].weight
  {
    var n := |entries| - 1;
    if p < n {
      WeightAdd(entries[..n], places, p);
    } else {
      WeightAbove(entries[..n], places, p);
    }
  }

  lemma {:induction false} WeightAbove(entries: seq<Entry>, places: set<nat>, p: nat)
    requires |entries| <= p
    ensures WeightOf(entries, places + {p}) == WeightOf(entries, places)
  {
    if entries != [] {
      WeightAbove(entries[..|entries| - 1], places, p);
    }
  }

  lemma {:induction false} WeightInclusion(entries: seq<Entry>, a: set<nat>, b: set<nat>)
    ensures WeightOf(entries, a) + WeightOf(entries, b) == WeightOf(entries, a * b) + WeightOf(entries, a + b)
    ensures WeightOf(entries, a + b) <= EntriesTotal(entries)
  {
    if entries != [] {
      WeightInclusion(entries[..|entries| - 1], a, b);
    }
  }

  /** Everybody together weighs the total. */
  lemma {:induction false} WholeWeight(entries: seq<Entry>, places: set<nat>)
    requires forall i: nat :: i < |entries| ==> i in places
    ensures WeightOf(entries, places) == EntriesTotal(entries)
  {
    if entries != [] {
      WholeWeight(entries[..|entries| - 1], places);
    }
  }

  /** The places that signed. */
  ghost function SignersOf(c: Crypto, entries: seq<Entry>, digest: Hash32, signatures: seq<Signature>): set<nat>
    requires AllKnown(c, entries, digest, signatures)
  {
    set i | 0 <= i < |signatures| :: Place(c, entries, digest, signatures[i]).value
  }

  /** Signatures of distinct signers count each signer once. */
  lemma {:induction false} DistinctWeight(c: Crypto, entries: seq<Entry>, digest: Hash32, signatures: seq<Signature>)
    requires DistinctPlaces(c, entries, digest, signatures)
    ensures SignedWeight(c, entries, digest, signatures) == WeightOf(entries, SignersOf(c, entries, digest, signatures))
    ensures SignedWeight(c, entries, digest, signatures) <= EntriesTotal(entries)
  {
    var signers := SignersOf(c, entries, digest, signatures);
    if signatures == [] {
      assert signers == {};
      WeightOfNobody(entries);
    } else {
      var n := |signatures| - 1;
      var init, p := signatures[..n], Place(c, entries, digest, signatures[n]).value;
      DistinctWeight(c, entries, digest, init);
      var before := SignersOf(c, entries, digest, init);
      assert signers == before + {p} by {
        forall q ensures q in signers <==> q in before || q == p {
          if q in signers {
            var i :| 0 <= i < |signatures| && Place(c, entries, digest, signatures[i]).value == q;
            assert i < n ==> init[i] == signatures[i];
          }
          if q in before {
            var i :| 0 <= i < n && Place(c, entries, digest, init[i]).value == q;
            assert init[i] == signatures[i];
          }
        }
      }
      assert p !in before;
      WeightAdd(entries, before, p);
    }
    WeightInclusion(entries, signers, signers);
    assert signers + signers == signers;
  }

  lemma {:induction false} WeightOfNobody(entries: seq<Entry>)
    ensures WeightOf(entries, {}) == 0
  {
    if entries != [] {
      WeightOfNobody(entries[..|entries| - 1]);
    }
  }

  // ---------- The cursor scan ----------

  /** The first place at or after a cursor whose entry has this hash. */
  method FindFrom(entries: seq<Entry>, cursor: nat, hash: Hash20) returns (r: Option<nat>)
    requires DistinctHashes(entries)
    ensures r == var place := PlaceOf(entries, hash); if place.Some? && cursor <= place.value then place else None
  {
    var i := cursor;
    while i < |entries|
      invariant forall j :: cursor <= j < i && j < |entries| ==> entries[j].hash != hash
    {
      if entries[i].hash == hash {
        return Some(i);
      }
      i := i + 1;
    }
    return None;
  }

  /** Where the cursor stands after `i` signatures. */
  ghost function Cursor(c: Crypto, entries: seq<Entry>, digest: Hash32, signatures: seq<Signature>, i: nat): nat
    requires i <= |signatures| && AllKnown(c, entries, digest, signatures[..i])
  {
    if i == 0 then 0 else
    assert signatures[..i][i - 1] == signatures[i - 1];
    Place(c, entries, digest, signatures[i - 1]).value + 1
  }

  /** A signature is found at or after the cursor exactly when it keeps the list in order. */
  lemma CursorKeepsOrder(c: Crypto, entries: seq<Entry>, digest: Hash32, signatures: seq<Signature>, i: nat)
    requires i < |signatures| && Ordered(c, entries, digest, signatures[..i])
    ensures var place := Place(c, entries, digest, signatures[i]);
            place.Some? && Cursor(c, entries, digest, signatures, i) <= place.value
            <==> Ordered(c, entries, digest, signatures[..i + 1])
  {
    var before, after := signatures[..i], signatures[..i + 1];
    assert forall j :: 0 <= j < i ==> before[j] == signatures[j] == after[j];
    assert after[i] == signatures[i];
  }

  lemma SignedWeightStep(c: Crypto, entries: seq<Entry>, digest: Hash32, signatures: seq<Signature>, i: nat)
    requires i < |signatures| && Ordered(c, entries, digest, signatures[..i + 1])
    ensures var place := Place(c, entries, digest, signatures[i]);
            && place.Some? && AllKnown(c, entries, digest, signatures[..i])
            && SignedWeight(c, entries, digest, signatures[..i + 1])
               == SignedWeight(c, entries, digest, signatures[..i]) + entries[place.value].weight
            && SignedWeight(c, entries, digest, signatures[..i + 1]) <= EntriesTotal(entries)
  {
    var after := signatures[..i + 1];
    assert after[..i] == signatures[..i] && after[i] == signatures[i];
    DistinctWeight(c, entries, digest, after);
  }

  lemma OrderedPrefix(c: Crypto, entries: seq<Entry>, digest: Hash32, signatures: seq<Signature>, i: nat)
    requires i <= |signatures| && Ordered(c, entries, digest, signatures)
    ensures Ordered(c, entries, digest, signatures[..i])
  {
    assert forall j :: 0 <= j < i ==> signatures[..i][j] == signatures[j];
  }

  /** Why a list is refused: a signature that does not recover, a signer unknown or out of order, each the first
      fault of the list; a total that overflows; or an ordered list that weighs too little. */
  ghost predicate ScanFault(c: Crypto, entries: seq<Entry>, digest: Hash32, signatures: seq<Signature>,
                            error: SignerSetError)
  {
    match error
    case Signature =>
      exists i: nat :: FirstFault(c, entries, digest, signatures, i)
        && c.recover(signatures[i], digest).None?
    case UnknownOrUnorderedSigner =>
      exists i: nat :: FirstFault(c, entries, digest, signatures, i) && c.recover(signatures[i], digest).Some?
    case WeightOverflow => U32_MAX < EntriesTotal(entries)
    case InsufficientWeight =>
      && Ordered(c, entries, digest, signatures) && EntriesTotal(entries) <= U32_MAX
      && 10 * SignedWeight(c, entries, digest, signatures) < 7 * EntriesTotal(entries)
    case _ => false
  }

  ghost predicate FirstFault(c: Crypto, entries: seq<Entry>, digest: Hash32, signatures: seq<Signature>, i: nat)
  {
    i < |signatures| && Ordered(c, entries, digest, signatures[..i])
        && !Ordered(c, entries, digest, signatures[..i + 1])
  }

  /** The scan with a cursor: signatures recover to known signers, each after the one before, of enough weight. */
  method Verify(c: Crypto, entries: seq<Entry>, header: Header) returns (r: Result<u32, SignerSetError>)
    requires DistinctHashes(entries)
    ensures r.Ok? <==> Approves(c, entries, SignerDigest(c.sha, header), header.signerSignatures)
    ensures r.Ok? ==> r.value == SignedWeight(c, entries, SignerDigest(c.sha, header), header.signerSignatures)
    ensures r.Err? ==> ScanFault(c, entries, SignerDigest(c.sha, header), header.signerSignatures, r.error)
  {
    var digest, signatures := SignerDigest(c.sha, header), header.signerSignatures;
    var next, weight := 0, 0;
    for i := 0 to |signatures|
      invariant Ordered(c, entries, digest, signatures[..i])
      invariant next == Cursor(c, entries, digest, signatures, i)
      invariant weight == SignedWeight(c, entries, digest, signatures[..i]) <= U32_MAX
    {
      CursorKeepsOrder(c, entries, digest, signatures, i);
      if Ordered(c, entries, digest, signatures) {
        OrderedPrefix(c, entries, digest, signatures, i + 1);
      }
      var hash := c.recover(signatures[i], digest);
      if hash.None? {
        assert FirstFault(c, entries, digest, signatures, i);
        return Err(SignerSetError.Signature);
      }
      var place := FindFrom(entries, next, hash.value);
      if place.None? {
        assert FirstFault(c, entries, digest, signatures, i);
        return Err(UnknownOrUnorderedSigner);
      }
      SignedWeightStep(c, entries, digest, signatures, i);
      if weight + entries[place.value].weight > U32_MAX {
        return Err(WeightOverflow);
      }
      weight := weight + entries[place.value].weight;
      next := place.value + 1;
    }
    assert signatures[..|signatures|] == signatures;
    var threshold :- ApprovalThreshold(entries);
    ThresholdIff(EntriesTotal(entries), threshold, weight);
    if weight < threshold {
      return Err(InsufficientWeight);
    }
    return Ok(weight);
  }

  // ---------- Any two approvals overlap ----------

  /** Two lists approved by one set, over whatever two digests, share signers of at least twice the threshold
      less the total, which is at least two fifths of the total. */
  lemma QuorumsIntersect(c: Crypto, entries: seq<Entry>, da: Hash32, a: seq<Signature>, db: Hash32, b: seq<Signature>)
    requires Approves(c, entries, da, a) && Approves(c, entries, db, b)
    ensures var total := EntriesTotal(entries);
            var shared := WeightOf(entries, SignersOf(c, entries, da, a) * SignersOf(c, entries, db, b));
            shared >= 2 * DivCeil(7 * total, 10) - total && 5 * shared >= 2 * total
  {
    DistinctWeight(c, entries, da, a);
    DistinctWeight(c, entries, db, b);
    WeightInclusion(entries, SignersOf(c, entries, da, a), SignersOf(c, entries, db, b));
    Overlap(EntriesTotal(entries), SignedWeight(c, entries, da, a), SignedWeight(c, entries, db, b),
            WeightOf(entries, SignersOf(c, entries, da, a) * SignersOf(c, entries, db, b)));
  }

  lemma Overlap(total: nat, x: nat, y: nat, shared: nat)
    requires 7 * total <= 10 * x && 7 * total <= 10 * y && x + y <= shared + total
    ensures shared >= 2 * DivCeil(7 * total, 10) - total && 5 * shared >= 2 * total
  {
  }

  // ---------- Ordering responses ----------

  /** The digest does not cover the signatures being collected. */
  lemma DigestIgnoresSigners(sha: Sha, header: Header, signatures: seq<Signature>)
    ensures SignerDigest(sha, header.(signerSignatures := signatures)) == SignerDigest(sha, header)
  {
    PreimageOfCovered(header, true);
    PreimageOfCovered(header.(signerSignatures := signatures), true);
  }

  /** An approved list made of exactly these responses. */
  ghost predicate Arranges(c: Crypto, entries: seq<Entry>, digest: Hash32, responses: seq<Signature>,
                           signatures: seq<Signature>)
  {
    Approves(c, entries, digest, signatures) && multiset(signatures) == multiset(responses)
  }

  lemma SameElements(a: seq<Signature>, b: seq<Signature>)
    requires multiset(a) == multiset(b)
    ensures |a| == |b| && forall x :: x in a <==> x in b
  {
    assert |multiset(a)| == |multiset(b)|;
    forall x ensures x in a <==> x in b { assert x in multiset(a) <==> x in multiset(b); }
  }

  /** One multiset of signatures has at most one order. */
  lemma OrderedUnique(c: Crypto, entries: seq<Entry>, digest: Hash32, a: seq<Signature>, b: seq<Signature>)
    requires Ordered(c, entries, digest, a) && Ordered(c, entries, digest, b) && multiset(a) == multiset(b)
    ensures a == b
  {
    SameElements(a, b);
    var pa := seq(|a|, i requires 0 <= i < |a| => Place(c, entries, digest, a[i]).value);
    var pb := seq(|b|, i requires 0 <= i < |b| => Place(c, entries, digest, b[i]).value);
    forall p ensures p in pa <==> p in pb {
      if p in pa {
        var i :| 0 <= i < |a| && pa[i] == p;
        assert a[i] in b;
        var j :| 0 <= j < |b| && b[j] == a[i];
        assert pb[j] == p;
      }
      if p in pb {
        var i :| 0 <= i < |b| && pb[i] == p;
        assert b[i] in a;
        var j :| 0 <= j < |a| && a[j] == b[i];
        assert pa[j] == p;
      }
    }
    KeySums.AscendingUnique(pa, pb);
    forall i | 0 <= i < |a| ensures a[i] == b[i] {
      assert a[i] in b;
      var j :| 0 <= j < |b| && b[j] == a[i];
      assert pb[j] == pa[i] == pb[i];
    }
  }

  lemma {:induction false} DistinctMultiset(s: seq<Signature>)
    requires forall i, j :: 0 <= i < j < |s| ==> s[i] != s[j]
    ensures multiset(s) == multiset(set x | x in s)
  {
    if s != [] {
      var n := |s| - 1;
      DistinctMultiset(s[..n]);
      assert s == s[..n] + [s[n]];
      assert (set x | x in s) == (set x | x in s[..n]) + {s[n]};
      assert s[n] !in s[..n];
    }
  }

  lemma DistinctPermutation(a: seq<Signature>, b: seq<Signature>)
    requires forall i, j :: 0 <= i < j < |a| ==> a[i] != a[j]
    requires forall i, j :: 0 <= i < j < |b| ==> b[i] != b[j]
    requires forall x :: x in a <==> x in b
    ensures multiset(a) == multiset(b)
  {
    DistinctMultiset(a);
    DistinctMultiset(b);
    assert (set x | x in a) == (set x | x in b);
  }

  /** The responses by place. */
  ghost predicate Filed(c: Crypto, entries: seq<Entry>, digest: Hash32, responses: seq<Signature>,
                        filed: map<nat, Signature>)
  {
    && DistinctPlaces(c, entries, digest, responses)
    && (forall i :: 0 <= i < |responses| ==>
          Place(c, entries, digest, responses[i]).value in filed
              && filed[Place(c, entries, digest, responses[i]).value] == responses[i])
    && (forall p :: p in filed ==> filed[p] in responses && Place(c, entries, digest, filed[p]) == Some(p))
  }

  function ValuesInOrder(filed: map<nat, Signature>): (s: seq<Signature>)
    ensures var keys := KeySums.Ascending(filed.Keys);
            |s| == |keys| && forall i :: 0 <= i < |s| ==> keys[i] in filed && s[i] == filed[keys[i]]
  {
    var keys := KeySums.Ascending(filed.Keys);
    assert forall i :: 0 <= i < |keys| ==> keys[i] in keys;
    seq(|keys|, i requires 0 <= i < |keys| => filed[keys[i]])
  }

  lemma FiledPlaces(c: Crypto, entries: seq<Entry>, digest: Hash32, responses: seq<Signature>,
                    filed: map<nat, Signature>)
    requires Filed(c, entries, digest, responses, filed)
    ensures Ordered(c, entries, digest, ValuesInOrder(filed))
  {
    var keys, s := KeySums.Ascending(filed.Keys), ValuesInOrder(filed);
    assert forall i :: 0 <= i < |s| ==> Place(c, entries, digest, s[i]) == Some(keys[i]);
  }

  lemma FiledElements(c: Crypto, entries: seq<Entry>, digest: Hash32, responses: seq<Signature>,
                      filed: map<nat, Signature>)
    requires Filed(c, entries, digest, responses, filed)
    ensures forall x :: x in ValuesInOrder(filed) <==> x in responses
  {
    var keys, s := KeySums.Ascending(filed.Keys), ValuesInOrder(filed);
    forall x | x in responses ensures x in s {
      var i :| 0 <= i < |responses| && responses[i] == x;
      var p := Place(c, entries, digest, x).value;
      assert p in keys;
      var j :| 0 <= j < |keys| && keys[j] == p;
      assert s[j] == x;
    }
    forall i | 0 <= i < |s| ensures s[i] in responses { assert keys[i] in filed; }
  }

  /** Reading filed responses back by place orders them. */
  lemma FiledInOrder(c: Crypto, entries: seq<Entry>, digest: Hash32, responses: seq<Signature>,
                     filed: map<nat, Signature>)
    requires Filed(c, entries, digest, responses, filed)
    ensures Ordered(c, entries, digest, ValuesInOrder(filed))
    ensures multiset(ValuesInOrder(filed)) == multiset(responses)
  {
    FiledPlaces(c, entries, digest, responses, filed);
    FiledElements(c, entries, digest, responses, filed);
    DistinctPermutation(ValuesInOrder(filed), responses);
  }

  /** Permuting responses of distinct signers changes neither that nor their weight. */
  lemma SameSigners(c: Crypto, entries: seq<Entry>, digest: Hash32, a: seq<Signature>, b: seq<Signature>)
    requires DistinctPlaces(c, entries, digest, a) && multiset(a) == multiset(b)
    ensures DistinctPlaces(c, entries, digest, b)
    ensures SignedWeight(c, entries, digest, a) == SignedWeight(c, entries, digest, b)
  {
    SameElements(a, b);
    DistinctPlacesPermuted(c, entries, digest, a, b);
    DistinctWeight(c, entries, digest, a);
    DistinctWeight(c, entries, digest, b);
    assert SignersOf(c, entries, digest, a) == SignersOf(c, entries, digest, b) by {
      SignersIncluded(c, entries, digest, a, b);
      SignersIncluded(c, entries, digest, b, a);
    }
  }

  lemma SignersIncluded(c: Crypto, entries: seq<Entry>, digest: Hash32, a: seq<Signature>, b: seq<Signature>)
    requires AllKnown(c, entries, digest, a) && AllKnown(c, entries, digest, b) && forall x :: x in a ==> x in b
    ensures SignersOf(c, entries, digest, a) <= SignersOf(c, entries, digest, b)
  {
    forall i | 0 <= i < |a| ensures Place(c, entries, digest, a[i]).value in SignersOf(c, entries, digest, b) {
      assert a[i] in b;
      var j :| 0 <= j < |b| && b[j] == a[i];
    }
  }

  lemma DistinctPlacesPermuted(c: Crypto, entries: seq<Entry>, digest: Hash32, a: seq<Signature>, b: seq<Signature>)
    requires DistinctPlaces(c, entries, digest, a) && multiset(a) == multiset(b) && forall x :: x in a <==> x in b
    ensures DistinctPlaces(c, entries, digest, b)
  {
    forall i | 0 <= i < |b| ensures Place(c, entries, digest, b[i]).Some? {
      assert b[i] in a;
    }
    DistinctMultiset(a);
    forall i, j | 0 <= i < j < |b|
      ensures Place(c, entries, digest, b[i]) != Place(c, entries, digest, b[j])
    {
      assert b[i] in a && b[j] in a;
      if b[i] == b[j] {
        RepeatCounts(b, i, j);
        assert false;
      }
      var p :| 0 <= p < |a| && a[p] == b[i];
      var q :| 0 <= q < |a| && a[q] == b[j];
      assert p != q;
    }
  }

  lemma RepeatCounts(b: seq<Signature>, i: nat, j: nat)
    requires i < j < |b| && b[i] == b[j]
    ensures multiset(b)[b[i]] >= 2
  {
    assert b == b[..j] + [b[j]] + b[j + 1..];
    assert b[..j][i] == b[i];
    assert b[i] in multiset(b[..j]);
  }

  /** An ordered list is refused only for its weight. */
  lemma OrderedScanFault(c: Crypto, entries: seq<Entry>, digest: Hash32, signatures: seq<Signature>,
                         error: SignerSetError)
    requires Ordered(c, entries, digest, signatures) && ScanFault(c, entries, digest, signatures, error)
    ensures error == WeightOverflow || error == InsufficientWeight
  {
    if exists i: nat :: FirstFault(c, entries, digest, signatures, i) {
      var i: nat :| FirstFault(c, entries, digest, signatures, i);
      OrderedPrefix(c, entries, digest, signatures, i + 1);
    }
  }

  /** The first response that is not from a known signer of its own. */
  ghost predicate FirstStray(c: Crypto, entries: seq<Entry>, digest: Hash32, responses: seq<Signature>, i: nat)
  {
    && i < |responses| && DistinctPlaces(c, entries, digest, responses[..i])
    && !DistinctPlaces(c, entries, digest, responses[..i + 1])
  }

  /** Why responses are refused. */
  ghost predicate ResponseFault(
    c: Crypto, entries: seq<Entry>, digest: Hash32, responses: seq<Signature>, error: SignerSetError)
  {
    match error
    case Signature =>
      exists i: nat :: FirstStray(c, entries, digest, responses, i) && c.recover(responses[i], digest).None?
    case UnknownOrUnorderedSigner =>
      exists i: nat :: FirstStray(c, entries, digest, responses, i) && c.recover(responses[i], digest).Some?
    case WeightOverflow => U32_MAX < EntriesTotal(entries)
    case InsufficientWeight =>
      && DistinctPlaces(c, entries, digest, responses) && EntriesTotal(entries) <= U32_MAX
      && 10 * SignedWeight(c, entries, digest, responses) < 7 * EntriesTotal(entries)
    case _ => false
  }

  /** Files each response under the place of its signer, and requires that the list so ordered is accepted. */
  method OrderResponses(c: Crypto, entries: seq<Entry>, header: Header, responses: seq<Signature>)
    returns (r: Result<seq<Signature>, SignerSetError>)
    requires DistinctHashes(entries)
    ensures r.Ok? <==>
              && DistinctPlaces(c, entries, SignerDigest(c.sha, header), responses)
              && EntriesTotal(entries) <= U32_MAX
              && 7 * EntriesTotal(entries) <= 10 * SignedWeight(c, entries, SignerDigest(c.sha, header), responses)
    ensures r.Ok? ==> Arranges(c, entries, SignerDigest(c.sha, header), responses, r.value)
    ensures r.Err? ==> ResponseFault(c, entries, SignerDigest(c.sha, header), responses, r.error)
  {
    var digest := SignerDigest(c.sha, header);
    var filed: map<nat, Signature> := map[];
    for i := 0 to |responses|
      invariant Filed(c, entries, digest, responses[..i], filed)
    {
      StrayStep(c, entries, digest, responses, i, filed);
      var hash := c.recover(responses[i], digest);
      if hash.None? {
        return Err(SignerSetError.Signature);
      }
      var place := FindFrom(entries, 0, hash.value);
      if place.None? || place.value in filed {
        return Err(UnknownOrUnorderedSigner);
      }
      FileStep(c, entries, digest, responses, i, filed);
      filed := filed[place.value := responses[i]];
    }
    assert responses[..|responses|] == responses;
    var signatures := ValuesInOrder(filed);
    FiledInOrder(c, entries, digest, responses, filed);
    SameSigners(c, entries, digest, responses, signatures);
    DigestIgnoresSigners(c.sha, header, signatures);
    var weight := Verify(c, entries, header.(signerSignatures := signatures));
    if weight.Err? {
      OrderedScanFault(c, entries, digest, signatures, weight.error);
      return Err(weight.error);
    }
    return Ok(signatures);
  }

  lemma StrayStep(
    c: Crypto, entries: seq<Entry>, digest: Hash32, responses: seq<Signature>, i: nat, filed: map<nat, Signature>)
    requires i < |responses| && Filed(c, entries, digest, responses[..i], filed)
    ensures var place := Place(c, entries, digest, responses[i]);
            place.None? || place.value in filed ==>
              FirstStray(c, entries, digest, responses, i) && !DistinctPlaces(c, entries, digest, responses)
  {
    var before, after, place := responses[..i], responses[..i + 1], Place(c, entries, digest, responses[i]);
    assert after[i] == responses[i];
    if place.Some? && place.value in filed {
      var j :| 0 <= j < i && before[j] == filed[place.value];
      assert after[j] == before[j] == responses[j];
    }
  }

  lemma FileStep(c: Crypto, entries: seq<Entry>, digest: Hash32, responses: seq<Signature>, i: nat,
                 filed: map<nat, Signature>)
    requires i < |responses| && Filed(c, entries, digest, responses[..i], filed)
    requires Place(c, entries, digest, responses[i]).Some?
    ensures var p := Place(c, entries, digest, responses[i]).value;
            p !in filed ==> Filed(c, entries, digest, responses[..i + 1], filed[p := responses[i]])
  {
    var p := Place(c, entries, digest, responses[i]).value;
    var before, after := responses[..i], responses[..i + 1];
    assert after == before + [responses[i]];
  }

  /** A list that is accepted already is its own arrangement. */
  lemma AcceptedArrangesItself(c: Crypto, entries: seq<Entry>, digest: Hash32, signatures: seq<Signature>)
    requires Approves(c, entries, digest, signatures)
    ensures DistinctPlaces(c, entries, digest, signatures)
    ensures forall other :: Arranges(c, entries, digest, signatures, other) <==> other == signatures
  {
    forall other | Arranges(c, entries, digest, signatures, other) ensures other == signatures {
      OrderedUnique(c, entries, digest, other, signatures);
    }
  }

  /** Responses that can be arranged at all are accepted in any order, and every order of them is arranged into
      one and the same list; a list that is approved already is arranged into itself. */
  lemma OneArrangement(c: Crypto, entries: seq<Entry>, digest: Hash32, responses: seq<Signature>,
                       signatures: seq<Signature>,
                       permuted: seq<Signature>)
    requires Arranges(c, entries, digest, responses, signatures) && multiset(permuted) == multiset(responses)
    ensures DistinctPlaces(c, entries, digest, permuted)
    ensures 7 * EntriesTotal(entries) <= 10 * SignedWeight(c, entries, digest, permuted)
    ensures forall other :: Arranges(c, entries, digest, permuted, other) ==> other == signatures
  {
    SameSigners(c, entries, digest, signatures, permuted);
    forall other | Arranges(c, entries, digest, permuted, other) ensures other == signatures {
      OrderedUnique(c, entries, digest, other, signatures);
    }
  }
}
