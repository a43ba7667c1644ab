/** Python's `dict` as the codec uses it: key/value entries kept in insertion
    order. Order matters here because the Huffman tree is built by pushing the
    entries in iteration order, and `popitem` removes the entry inserted last. */
module Dicts {
  import opened Wrappers

  type Dict<K, V> = seq<(K, V)>

  /** Position of the entry whose key is `k`, if there is one (the first, should
      a sequence of pairs carry a key twice; a dict never does). */
  function Find<K(==), V>(d: Dict<K, V>, k: K): (r: Option<nat>)
    ensures r.Some? ==> r.value < |d| && d[r.value].0 == k
    ensures r.Some? ==> forall j :: 0 <= j < r.value ==> d[j].0 != k
    ensures r.None? <==> forall j :: 0 <= j < |d| ==> d[j].0 != k
    decreases |d|
  {
    if |d| == 0 then None
    else if d[0].0 == k then Some(0)
    else match Find(d[1..], k)
      case None => None
      case Some(i) => Some(i + 1)
  }

  predicate HasKey<K(==), V>(d: Dict<K, V>, k: K) {
    Find(d, k).Some?
  }

  /** `d.get(k)`: the value stored under `k`, or None. */
  function Get<K(==), V>(d: Dict<K, V>, k: K): Option<V> {
    match Find(d, k)
    case Some(i) => Some(d[i].1)
    case None => None
  }

  /** No key occurs twice: the invariant of every Python dict. */
  predicate DistinctKeys<K(==), V>(d: Dict<K, V>) {
    forall i, j :: 0 <= i < j < |d| ==> d[i].0 != d[j].0
  }

  lemma FindUnique<K, V>(d: Dict<K, V>, k: K, i: nat)
    requires i < |d| && d[i].0 == k
    requires forall j :: 0 <= j < i ==> d[j].0 != k
    ensures Find(d, k) == Some(i)
  {
  }

  /** `d[k] = v`: an existing key keeps its position and takes the new value; a
      new key is appended at the end. */
  function Set<K(==,!new), V>(d: Dict<K, V>, k: K, v: V): (r: Dict<K, V>)
    ensures Get(r, k) == Some(v)
    ensures forall k' :: k' != k ==> Get(r, k') == Get(d, k')
    ensures forall e :: e in r ==> e == (k, v) || e in d
    ensures HasKey(d, k) ==> |r| == |d| && forall j :: 0 <= j < |d| ==> r[j].0 == d[j].0
    ensures !HasKey(d, k) ==> r == d + [(k, v)]
    ensures DistinctKeys(d) ==> DistinctKeys(r)
  {
    match Find(d, k)
    case Some(i) =>
      var r := d[i := (k, v)];
      FindUnique(r, k, i);
      FindOthersUnchanged(d, r, k);
      r
    case None =>
      var r := d + [(k, v)];
      FindUnique(r, k, |d|);
      FindOthersUnchanged(d, r, k);
      r
  }

  /** Whenever `r` agrees with `d` on every entry except ones keyed `k`, and
      possibly adds entries after them keyed `k`, no other key moves. */
  lemma FindOthersUnchanged<K(!new), V>(d: Dict<K, V>, r: Dict<K, V>, k: K)
    requires |d| <= |r|
    requires forall j :: 0 <= j < |d| ==> r[j] == d[j] || (r[j].0 == k && d[j].0 == k)
    requires forall j :: |d| <= j < |r| ==> r[j].0 == k
    ensures forall k' :: k' != k ==> Find(r, k') == Find(d, k')
  {
    forall k' | k' != k
      ensures Find(r, k') == Find(d, k')
    {
      match Find(d, k')
      case Some(m) => FindUnique(r, k', m);
      case None =>
    }
  }

  /** `d.popitem()`: removes and returns the entry inserted last. */
  function PopItem<K, V>(d: Dict<K, V>): (r: (Dict<K, V>, (K, V)))
    requires |d| > 0
    ensures |r.0| == |d| - 1
    ensures r.0 + [r.1] == d
  {
    (d[..|d| - 1], d[|d| - 1])
  }

  /** Popping right after inserting a fresh key gives back the dict as it was
      before, entries and order alike. */
  lemma PopAfterInsert<K(!new), V>(d: Dict<K, V>, k: K, v: V)
    requires !HasKey(d, k)
    ensures PopItem(Set(d, k, v)) == (d, (k, v))
  {
    assert Set(d, k, v)[..|d|] == d;
  }

  /** Popping after overwriting a key that was already there loses an entry of
      the original dict instead. */
  lemma PopAfterOverwrite<K(!new), V>(d: Dict<K, V>, k: K, v: V)
    requires HasKey(d, k)
    ensures |PopItem(Set(d, k, v)).0| == |d| - 1
  {
  }

  /** Sum of the values of an integer-valued dict. */
  function SumValues<K>(d: Dict<K, int>): int
    decreases |d|
  {
    if |d| == 0 then 0 else d[0].1 + SumValues(d[1..])
  }

  lemma {:induction false} SumValuesUpdate<K>(d: Dict<K, int>, i: nat, e: (K, int))
    requires i < |d|
    ensures SumValues(d[i := e]) == SumValues(d) - d[i].1 + e.1
    decreases |d|
  {
    if i > 0 {
      SumValuesUpdate(d[1..], i - 1, e);
      assert d[i := e][1..] == d[1..][i - 1 := e];
    }
  }

  lemma {:induction false} SumValuesAppend<K>(d: Dict<K, int>, e: (K, int))
    ensures SumValues(d + [e]) == SumValues(d) + e.1
    decreases |d|
  {
    if |d| > 0 {
      SumValuesAppend(d[1..], e);
      assert (d + [e])[1..] == d[1..] + [e];
    }
  }

  /** Storing `v` under `k` changes the value sum by `v` minus the value it replaces. */
  lemma SumValuesSet<K(!new)>(d: Dict<K, int>, k: K, v: int)
    ensures SumValues(Set(d, k, v)) == SumValues(d) - (match Get(d, k) case Some(w) => w case None => 0) + v
  {
    match Find(d, k)
    case Some(i) => SumValuesUpdate(d, i, (k, v));
    case None => SumValuesAppend(d, (k, v));
  }
  /** An entry occurring at two positions occurs at least twice. */
  lemma TwoPositions<T>(s: seq<T>, i: nat, j: nat)
    requires i < j < |s| && s[i] == s[j]
    ensures multiset(s)[s[i]] >= 2
  {
    assert s == s[..j] + [s[j]] + s[j + 1..];
    assert s[i] in s[..j];
  }

  /** In a dict, an entry occurs exactly once. */
  lemma EntryOnce<K, V>(d: Dict<K, V>, p: nat)
    requires DistinctKeys(d) && p < |d|
    ensures multiset(d)[d[p]] == 1
  {
    assert d == d[..p] + [d[p]] + d[p + 1..];
    assert d[p] !in d[..p] && d[p] !in d[p + 1..];
  }

  /** Rearranging the entries of a dict keeps the keys distinct. */
  lemma PermutationKeepsDistinct<K, V>(a: Dict<K, V>, b: Dict<K, V>)
    requires multiset(a) == multiset(b) && DistinctKeys(b)
    ensures DistinctKeys(a)
  {
    forall i, j | 0 <= i < j < |a|
      ensures a[i].0 != a[j].0
    {
      if a[i].0 == a[j].0 {
        assert a[i] in multiset(b) && a[j] in multiset(b);
        var p :| 0 <= p < |b| && b[p] == a[i];
        var q :| 0 <= q < |b| && b[q] == a[j];
        if a[i] == a[j] {
          TwoPositions(a, i, j);
          EntryOnce(b, p);
        }
      }
    }
  }

  /** Rearranging the entries of a dict keeps its keys. */
  lemma PermutationKeepsKey<K, V>(a: Dict<K, V>, b: Dict<K, V>, k: K)
    requires multiset(a) == multiset(b)
    ensures HasKey(a, k) <==> HasKey(b, k)
  {
    if HasKey(b, k) {
      var p := Find(b, k).value;
      assert b[p] in multiset(a);
    }
    if HasKey(a, k) {
      var p := Find(a, k).value;
      assert a[p] in multiset(b);
    }
  }
}
