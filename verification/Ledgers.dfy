/** Association lists: the ordered dictionaries and keyed tables of the accounting code. */
module Ledgers {
  import opened Wrappers

  type Ledger<K, V> = seq<(K, V)>

  predicate Keyed<K(==), V>(l: Ledger<K, V>) {
    forall i, j | 0 <= i < j < |l| :: l[i].0 != l[j].0
  }

  function Find<K(==), V>(l: Ledger<K, V>, k: K): (r: Option<V>)
    ensures r.None? <==> forall i | 0 <= i < |l| :: l[i].0 != k
    ensures r.Some? ==> exists i :: 0 <= i < |l| && l[i].0 == k && l[i].1 == r.value
  {
    if l == [] then None
    else if l[0].0 == k then Some(l[0].1)
    else Find(l[1..], k)
  }

  /** Replace the value under a key where it stands, or append it. */
  function Put<K(==), V>(l: Ledger<K, V>, k: K, v: V): Ledger<K, V> {
    if l == [] then [(k, v)]
    else if l[0].0 == k then [(k, v)] + l[1..]
    else [l[0]] + Put(l[1..], k, v)
  }

  function Drop<K(==), V>(l: Ledger<K, V>, k: K): Ledger<K, V> {
    if l == [] then []
    else if l[0].0 == k then l[1..]
    else [l[0]] + Drop(l[1..], k)
  }

  /** The entries whose value satisfies a test, in order. */
  function Filter<K, V>(l: Ledger<K, V>, keep: V -> bool): Ledger<K, V> {
    if l == [] then []
    else if keep(l[0].1) then [l[0]] + Filter(l[1..], keep)
    else Filter(l[1..], keep)
  }

  function Weigh<K, V>(l: Ledger<K, V>, weight: V -> int): int {
    if l == [] then 0 else weight(l[0].1) + Weigh(l[1..], weight)
  }

  lemma {:induction false} FindAt<K, V>(l: Ledger<K, V>, i: nat)
    requires Keyed(l) && i < |l|
    ensures Find(l, l[i].0) == Some(l[i].1)
  {
    if i > 0 {
      FindAt(l[1..], i - 1);
    }
  }

  lemma {:induction false} PutFinds<K, V>(l: Ledger<K, V>, k: K, v: V, j: K)
    ensures Find(Put(l, k, v), j) == if j == k then Some(v) else Find(l, j)
  {
    if l != [] && l[0].0 != k {
      PutFinds(l[1..], k, v, j);
      assert Put(l, k, v)[1..] == Put(l[1..], k, v);
    }
  }

  lemma {:induction false} PutKeepsKeyed<K, V>(l: Ledger<K, V>, k: K, v: V)
    requires Keyed(l)
    ensures Keyed(Put(l, k, v))
    ensures forall i | 0 <= i < |Put(l, k, v)| ::
              Put(l, k, v)[i].0 == k || exists j :: 0 <= j < |l| && l[j].0 == Put(l, k, v)[i].0
  {
    if l != [] && l[0].0 != k {
      PutKeepsKeyed(l[1..], k, v);
      var rest := Put(l[1..], k, v);
      forall i | 0 <= i < |rest|
        ensures rest[i].0 != l[0].0
        ensures rest[i].0 == k || exists j :: 0 <= j < |l| && l[j].0 == rest[i].0
      {
        if rest[i].0 != k {
          var j :| 0 <= j < |l[1..]| && l[1..][j].0 == rest[i].0;
          assert l[j + 1].0 == rest[i].0;
        }
      }
    }
  }

  lemma {:induction false} PutWeighs<K, V>(l: Ledger<K, V>, k: K, v: V, weight: V -> int)
    ensures Weigh(Put(l, k, v), weight)
         == Weigh(l, weight) + weight(v) - (if Find(l, k).Some? then weight(Find(l, k).value) else 0)
  {
    if l == [] {
      assert Put(l, k, v)[1..] == [];
    } else if l[0].0 == k {
      assert Put(l, k, v)[1..] == l[1..];
    } else {
      PutWeighs(l[1..], k, v, weight);
      assert Put(l, k, v)[1..] == Put(l[1..], k, v);
    }
  }

  lemma {:induction false} DropFinds<K, V>(l: Ledger<K, V>, k: K)
    requires Keyed(l)
    ensures Keyed(Drop(l, k))
    ensures forall j :: Find(Drop(l, k), j) == if j == k then None else Find(l, j)
    ensures forall i | 0 <= i < |Drop(l, k)| :: Drop(l, k)[i] in l
    ensures |Drop(l, k)| == |l| - if Find(l, k).Some? then 1 else 0
  {
    if l != [] && l[0].0 != k {
      DropFinds(l[1..], k);
      assert Drop(l, k)[1..] == Drop(l[1..], k);
      forall i | 0 <= i < |Drop(l[1..], k)| ensures Drop(l[1..], k)[i].0 != l[0].0 {
        assert Drop(l[1..], k)[i] in l[1..];
      }
    }
  }

  lemma {:induction false} FilterFinds<K, V>(l: Ledger<K, V>, keep: V -> bool)
    requires Keyed(l)
    ensures Keyed(Filter(l, keep))
    ensures forall j ::
              Find(Filter(l, keep), j) == if Find(l, j).Some? && keep(Find(l, j).value) then Find(l, j) else None
    ensures forall i | 0 <= i < |Filter(l, keep)| :: Filter(l, keep)[i] in l
  {
    if l != [] {
      FilterFinds(l[1..], keep);
      var rest := Filter(l[1..], keep);
      forall i | 0 <= i < |rest| ensures rest[i].0 != l[0].0 {
        assert rest[i] in l[1..];
      }
      if keep(l[0].1) {
        assert Filter(l, keep)[1..] == rest;
      }
    }
  }
}
