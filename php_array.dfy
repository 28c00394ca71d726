/**
 * PHP's ordered associative arrays with string keys: a list of (key, value)
 * pairs in insertion order, each key at most once. Assigning `$a[$k] = $v`
 * to an existing key replaces the value where it stands; a new key goes at
 * the end.
 */
module PhpArrays {
  import opened Php

  type Entries<V> = seq<(string, V)>

  /** Every key occurs once. */
  predicate UniqueKeys<V>(a: Entries<V>)
  {
    forall i, j | 0 <= i < j < |a| :: a[i].0 != a[j].0
  }

  /** PHP `array_key_exists`. */
  predicate HasKey<V>(a: Entries<V>, k: string)
  {
    exists i | 0 <= i < |a| :: a[i].0 == k
  }

  /** The position of key k, if any. */
  function IndexOf<V>(a: Entries<V>, k: string): (r: Option<nat>)
    ensures r.None? <==> !HasKey(a, k)
    ensures r.Some? ==> r.value < |a| && a[r.value].0 == k
    ensures r.Some? ==> forall i | 0 <= i < r.value :: a[i].0 != k
  {
    if |a| == 0 then None
    else if a[0].0 == k then Some(0)
    else
      var r := IndexOf(a[1..], k);
      assert forall i | 1 <= i < |a| :: a[i] == a[1..][i - 1];
      if r.None? then None else Some(r.value + 1)
  }

  /** `$a[$k]` for a key that exists. */
  function Get<V>(a: Entries<V>, k: string): Option<V>
  {
    var i := IndexOf(a, k);
    if i.None? then None else Some(a[i.value].1)
  }

  /** `$a[$k] = $v`. */
  function Put<V>(a: Entries<V>, k: string, v: V): (r: Entries<V>)
  {
    var i := IndexOf(a, k);
    if i.None? then a + [(k, v)] else a[i.value := (k, v)]
  }

  /**
   * Assignment keeps keys unique; an existing key keeps its place and only
   * its value changes, a new key is appended after all the others.
   */
  lemma PutShape<V>(a: Entries<V>, k: string, v: V)
    requires UniqueKeys(a)
    ensures UniqueKeys(Put(a, k, v))
    ensures HasKey(a, k) ==>
      |Put(a, k, v)| == |a| && forall i | 0 <= i < |a| :: Put(a, k, v)[i] == if a[i].0 == k then (k, v) else a[i]
    ensures !HasKey(a, k) ==> Put(a, k, v) == a + [(k, v)]
  {
    var r := Put(a, k, v);
    if !HasKey(a, k) {
      forall i, j | 0 <= i < j < |r| ensures r[i].0 != r[j].0 {
        if j == |a| {
          assert r[i] == a[i];
        }
      }
    }
  }

  /** Reading a key just assigned gives the assigned value; other keys are untouched. */
  lemma PutGet<V>(a: Entries<V>, k: string, v: V, other: string)
    requires UniqueKeys(a)
    ensures Get(Put(a, k, v), k) == Some(v)
    ensures other != k ==> Get(Put(a, k, v), other) == Get(a, other)
  {
    PutShape(a, k, v);
    var r := Put(a, k, v);
    var ik := IndexOf(r, k);
    assert ik.Some? by {
      if HasKey(a, k) {
        var i := IndexOf(a, k).value;
        assert r[i].0 == k;
      } else {
        assert r[|a|].0 == k;
      }
    }
    if other != k {
      var io := IndexOf(r, other);
      var ia := IndexOf(a, other);
      if ia.Some? {
        assert r[ia.value] == a[ia.value];
        assert io.Some?;
      } else if io.Some? {
        assert false;
      }
    }
  }

  /** The keys in order. */
  function Keys<V>(a: Entries<V>): (ks: seq<string>)
    ensures |ks| == |a| && forall i | 0 <= i < |a| :: ks[i] == a[i].0
  {
    if |a| == 0 then [] else Keys(a[..|a| - 1]) + [a[|a| - 1].0]
  }
}
