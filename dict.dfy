/**
  An insertion-ordered dictionary with the semantics of a Python `dict`:
  entries are kept in the order their keys were first inserted, and
  assigning to a key that is already present replaces its value in place.
  Both the pair-frequency map and the code table are such dictionaries.
*/
module Dict {

  type Dict<K, V> = seq<(K, V)>

  /** Index of the first entry whose key is k, or |d| when k is not a key. */
  function Find<K(==, !new), V>(d: Dict<K, V>, k: K): (i: nat)
    ensures i <= |d|
    ensures i < |d| ==> d[i].0 == k
    ensures forall j :: 0 <= j < i ==> d[j].0 != k
  {
    if d == [] then 0
    else if d[0].0 == k then 0
    else 1 + Find(d[1..], k)
  }

  /** Find is the first index holding k. */
  lemma {:induction false} FindIs<K(!new), V>(d: Dict<K, V>, k: K, i: nat)
    requires i <= |d| && (i < |d| ==> d[i].0 == k)
    requires forall j :: 0 <= j < i ==> d[j].0 != k
    ensures Find(d, k) == i
  {
    if d != [] && d[0].0 != k {
      FindIs(d[1..], k, i - 1);
    }
  }

  /** Keys at the same positions are found at the same positions. */
  lemma FindSameKeys<K(!new), V>(d: Dict<K, V>, r: Dict<K, V>)
    requires |d| == |r| && forall i :: 0 <= i < |d| ==> d[i].0 == r[i].0
    ensures forall x :: Find(r, x) == Find(d, x)
  {
    forall x ensures Find(r, x) == Find(d, x) {
      FindIs(r, x, Find(d, x));
    }
  }

  /** Appending an entry leaves the positions of the old keys alone. */
  lemma FindAppend<K(!new), V>(d: Dict<K, V>, e: (K, V))
    ensures forall x :: Find(d, x) < |d| ==> Find(d + [e], x) == Find(d, x)
    ensures forall x :: Find(d, x) == |d| && x == e.0 ==> Find(d + [e], x) == |d|
    ensures forall x :: Find(d, x) == |d| && x != e.0 ==> Find(d + [e], x) == |d| + 1
  {
    forall x ensures Find(d, x) < |d| ==> Find(d + [e], x) == Find(d, x) {
      if Find(d, x) < |d| { FindIs(d + [e], x, Find(d, x)); }
    }
    forall x ensures Find(d, x) == |d| ==> Find(d + [e], x) == if x == e.0 then |d| else |d| + 1 {
      if Find(d, x) == |d| { FindIs(d + [e], x, if x == e.0 then |d| else |d| + 1); }
    }
  }

  /** `k in d` */
  predicate HasKey<K(==, !new), V>(d: Dict<K, V>, k: K) {
    Find(d, k) < |d|
  }

  /** `d[k]` */
  function Get<K(==, !new), V>(d: Dict<K, V>, k: K): V
    requires HasKey(d, k)
  {
    d[Find(d, k)].1
  }

  /** No key occurs twice; every dictionary built by Put keeps this. */
  predicate UniqueKeys<K(==, !new), V>(d: Dict<K, V>) {
    forall i, j :: 0 <= i < j < |d| ==> d[i].0 != d[j].0
  }

  function KeySet<K(==, !new), V>(d: Dict<K, V>): set<K> {
    set i | 0 <= i < |d| :: d[i].0
  }

  /** Being a key is the same as being the key of some entry. */
  lemma HasKeyIff<K(!new), V>(d: Dict<K, V>, k: K)
    ensures HasKey(d, k) <==> k in KeySet(d)
  {
    if k in KeySet(d) {
      var i :| 0 <= i < |d| && d[i].0 == k;
      assert Find(d, k) <= i;
    }
  }

  /** The key of any entry is a key. */
  lemma HasKeyAt<K(!new), V>(d: Dict<K, V>, i: nat)
    requires i < |d|
    ensures HasKey(d, d[i].0) && Find(d, d[i].0) <= i
  {
  }

  /** A non-key is the key of no entry. */
  lemma NotKey<K(!new), V>(d: Dict<K, V>, k: K)
    requires !HasKey(d, k)
    ensures forall i :: 0 <= i < |d| ==> d[i].0 != k
  {
  }

  /**
    `d[k] = v`: the value of k becomes v in place when k is a key, and a new
    entry is appended at the end otherwise; uniqueness of keys is kept.
  */
  function Put<K(==, !new), V>(d: Dict<K, V>, k: K, v: V): (r: Dict<K, V>)
    ensures HasKey(r, k) && Get(r, k) == v
    ensures !HasKey(d, k) ==> r == d + [(k, v)]
    ensures HasKey(d, k) ==> r == d[Find(d, k) := (k, v)]
    ensures UniqueKeys(d) ==> UniqueKeys(r)
  {
    var i := Find(d, k);
    if i < |d| then
      FindSameKeys(d, d[i := (k, v)]);
      d[i := (k, v)]
    else
      FindAppend(d, (k, v));
      d + [(k, v)]
  }

  /**
    Put leaves every other key where it was, with its value, and adds no
    key but k: `d[k] = v` changes nothing else.
  */
  lemma PutKeepsOthers<K(!new), V>(d: Dict<K, V>, k: K, v: V)
    ensures forall x :: x != k ==> (HasKey(Put(d, k, v), x) <==> HasKey(d, x))
    ensures forall x :: x != k && HasKey(d, x) ==>
      Find(Put(d, k, v), x) == Find(d, x) && Get(Put(d, k, v), x) == Get(d, x)
    ensures Find(Put(d, k, v), k) == Find(d, k)
    ensures forall i :: 0 <= i < |d| ==> Put(d, k, v)[i].0 == d[i].0
  {
    var r := Put(d, k, v);
    if HasKey(d, k) {
      FindSameKeys(d, r);
    } else {
      FindAppend(d, (k, v));
    }
  }

  /** With unique keys there are as many distinct keys as entries. */
  lemma {:induction false} KeyCount<K(!new), V>(d: Dict<K, V>)
    requires UniqueKeys(d)
    ensures |KeySet(d)| == |d|
  {
    if d != [] {
      var init := d[..|d| - 1];
      KeyCount(init);
      assert KeySet(d) == KeySet(init) + {d[|d| - 1].0};
      assert d[|d| - 1].0 !in KeySet(init);
    }
  }
}
