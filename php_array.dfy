/**
 * PHP's ordered array, as the engine and the generators use it: key/value
 * pairs in insertion order. Assigning to a key that is already present
 * overwrites its value in place; assigning to a new key appends it.
 */
module PhpArray {

  datatype Option<T> = None | Some(value: T)

  /** An ordered array: pairs in insertion order. */
  type Assoc<K, V> = seq<(K, V)>

  predicate HasKey<K(==), V>(a: Assoc<K, V>, k: K)
  {
    exists i :: 0 <= i < |a| && a[i].0 == k
  }

  predicate DistinctKeys<K(==), V>(a: Assoc<K, V>)
  {
    forall i, j :: 0 <= i < j < |a| ==> a[i].0 != a[j].0
  }

  /** Position of the first pair with key `k`, or `|a|` when there is none. */
  function IndexOf<K(==), V>(a: Assoc<K, V>, k: K): (i: nat)
    ensures i <= |a|
    ensures i < |a| <==> HasKey(a, k)
    ensures i < |a| ==> a[i].0 == k
    ensures forall j :: 0 <= j < i ==> a[j].0 != k
  {
    if |a| == 0 then 0
    else if a[0].0 == k then 0
    else
      var i := 1 + IndexOf(a[1..], k);
      assert forall j :: 1 <= j < |a| ==> a[j] == a[1..][j - 1];
      i
  }

  /** `$a[$k] ?? null` */
  function Get<K(==), V>(a: Assoc<K, V>, k: K): (r: Option<V>)
    ensures r.None? <==> !HasKey(a, k)
    ensures r.Some? ==> (k, r.value) in a
    ensures DistinctKeys(a) ==> forall i :: 0 <= i < |a| && a[i].0 == k ==> r == Some(a[i].1)
  {
    var i := IndexOf(a, k);
    if i < |a| then Some(a[i].1) else None
  }

  /** `$a[$k] = $v` */
  function Put<K(==), V>(a: Assoc<K, V>, k: K, v: V): (r: Assoc<K, V>)
    ensures HasKey(a, k) ==> |r| == |a|
    ensures !HasKey(a, k) ==> r == a + [(k, v)]
    ensures forall i :: 0 <= i < |a| ==> r[i].0 == a[i].0
    ensures forall i :: 0 <= i < |a| && a[i].0 != k ==> r[i] == a[i]
    ensures Get(r, k) == Some(v)
  {
    var i := IndexOf(a, k);
    if i < |a| then a[i := (k, v)]
    else
      var r := a + [(k, v)];
      assert r[|a|].0 == k;
      r
  }

  /** Assignment leaves the other keys' values alone. */
  lemma PutOther<K, V>(a: Assoc<K, V>, k: K, v: V, k': K)
    requires k' != k
    ensures Get(Put(a, k, v), k') == Get(a, k')
  {
    var r := Put(a, k, v);
    assert forall j :: 0 <= j < |a| ==> (r[j].0 == k' <==> a[j].0 == k');
    if HasKey(r, k') {
      var j :| 0 <= j < |r| && r[j].0 == k';
      assert j < |a|;
    }
  }

  /** A second assignment to the same key overrides the first. */
  lemma PutTwice<K, V>(a: Assoc<K, V>, k: K, v: V, w: V)
    ensures Put(Put(a, k, v), k, w) == Put(a, k, w)
  {
    var i := IndexOf(a, k);
    var b := Put(a, k, v);
    assert IndexOf(b, k) == i;
    if i < |a| {
      assert b == a[i := (k, v)];
      assert Put(b, k, w) == b[i := (k, w)] == a[i := (k, w)];
    } else {
      assert b == a + [(k, v)];
      assert Put(b, k, w) == b[i := (k, w)] == a + [(k, w)];
    }
  }

  /** Assignment keeps the keys distinct. */
  lemma PutDistinct<K, V>(a: Assoc<K, V>, k: K, v: V)
    requires DistinctKeys(a)
    ensures DistinctKeys(Put(a, k, v))
  {
  }

  /** The value at `k`, or `d` when `k` is absent. */
  function GetOr<K(==), V>(a: Assoc<K, V>, k: K, d: V): (r: V)
    ensures HasKey(a, k) ==> (k, r) in a
    ensures !HasKey(a, k) ==> r == d
  {
    match Get(a, k)
    case Some(v) => v
    case None => d
  }
}
