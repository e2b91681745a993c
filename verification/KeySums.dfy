/** Sums and orders over finite sets of keys. */
module KeySums {

  ghost function Sum(values: map<nat, nat>, keys: set<nat>): nat
    requires keys <= values.Keys
  {
    if keys == {} then 0 else
    var k :| k in keys;
    values[k] + Sum(values, keys - {k})
  }

  /** A sum may take its keys in any order. */
  lemma {:induction false} SumRemove(values: map<nat, nat>, keys: set<nat>, k: nat)
    requires keys <= values.Keys && k in keys
    ensures Sum(values, keys) == values[k] + Sum(values, keys - {k})
    decreases |keys|
  {
    var j :| j in keys && Sum(values, keys) == values[j] + Sum(values, keys - {j});
    if j != k {
      SumRemove(values, keys - {j}, k);
      SumRemove(values, keys - {k}, j);
      assert keys - {j} - {k} == keys - {k} - {j};
    }
  }

  lemma SumAdd(values: map<nat, nat>, keys: set<nat>, k: nat)
    requires keys <= values.Keys && k in values && k !in keys
    ensures Sum(values, keys + {k}) == values[k] + Sum(values, keys)
  {
    SumRemove(values, keys + {k}, k);
    assert keys + {k} - {k} == keys;
  }

  lemma {:induction false} SumSame(a: map<nat, nat>, b: map<nat, nat>, keys: set<nat>)
    requires keys <= a.Keys && keys <= b.Keys && forall k :: k in keys ==> a[k] == b[k]
    ensures Sum(a, keys) == Sum(b, keys)
    decreases |keys|
  {
    if keys != {} {
      var k :| k in keys && Sum(a, keys) == a[k] + Sum(a, keys - {k});
      SumSame(a, b, keys - {k});
      SumRemove(b, keys, k);
    }
  }

  // ---------- Ascending order ----------

  predicate IsAscending(s: seq<nat>)
  {
    forall i, j :: 0 <= i < j < |s| ==> s[i] < s[j]
  }

  lemma {:induction false} MaxOf(keys: set<nat>) returns (m: nat)
    requires keys != {}
    ensures m in keys && forall k :: k in keys ==> k <= m
    decreases |keys|
  {
    var x :| x in keys;
    var rest := keys - {x};
    m := x;
    if rest != {} {
      var other := MaxOf(rest);
      m := if x < other then other else x;
    }
    assert forall k :: k in keys ==> k == x || k in rest;
  }

  lemma MaxExists(keys: set<nat>)
    requires keys != {}
    ensures exists m :: m in keys && forall k :: k in keys ==> k <= m
  {
    var _ := MaxOf(keys);
  }

  function Largest(keys: set<nat>): (m: nat)
    requires keys != {}
    ensures m in keys && forall k :: k in keys ==> k <= m
  {
    MaxExists(keys);
    var m :| m in keys && forall k :: k in keys ==> k <= m;
    m
  }

  /** The keys of an ordered map, in the order it iterates. */
  function Ascending(keys: set<nat>): (s: seq<nat>)
    ensures IsAscending(s) && |s| == |keys|
    ensures forall k :: k in s <==> k in keys
    decreases |keys|
  {
    if keys == {} then [] else
    var m := Largest(keys);
    var rest := Ascending(keys - {m});
    assert forall i :: 0 <= i < |rest| ==> rest[i] in rest;
    rest + [m]
  }

  lemma {:induction false} AscendingUnique(a: seq<nat>, b: seq<nat>)
    requires IsAscending(a) && IsAscending(b) && (forall k :: k in a <==> k in b)
    ensures a == b
    decreases |a|
  {
    assert a != [] ==> a[0] in b;
    assert b != [] ==> b[0] in a;
    if a != [] && b != [] {
      var m, n := a[|a| - 1], b[|b| - 1];
      assert m in b && n in a;
      assert m == n;
      var a', b' := a[..|a| - 1], b[..|b| - 1];
      forall k ensures k in a' <==> k in b' {
        assert k in a' <==> k in a && k != m;
        assert k in b' <==> k in b && k != n;
      }
      AscendingUnique(a', b');
      assert a == a' + [m] && b == b' + [n];
    }
  }

  ghost function Elements(s: seq<nat>): set<nat> { set k | k in s }

  predicate Distinct(s: seq<nat>)
  {
    forall i, j :: 0 <= i < j < |s| ==> s[i] != s[j]
  }

  lemma {:induction false} PrefixCount(s: seq<nat>, n: nat)
    requires n <= |s| && Distinct(s)
    ensures |Elements(s[..n])| == n
  {
    if n != 0 {
      PrefixCount(s, n - 1);
      assert s[..n] == s[..n - 1] + [s[n - 1]];
      assert Elements(s[..n]) == Elements(s[..n - 1]) + {s[n - 1]};
      assert s[n - 1] !in s[..n - 1];
    }
  }
}
