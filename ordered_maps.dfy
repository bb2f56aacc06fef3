/**
 * Python dictionaries keep their keys in insertion order, and that order is
 * visible in the rendered document. A dictionary is modelled as a sequence of
 * key/value entries with string keys; every dictionary the core builds has
 * unique keys.
 */
module OrderedMaps {
  import opened Wrappers

  type Entries<V> = seq<(string, V)>

  function Keys<V>(m: Entries<V>): (ks: seq<string>)
    ensures |ks| == |m|
    ensures forall i :: 0 <= i < |m| ==> ks[i] == m[i].0
  {
    seq(|m|, i requires 0 <= i < |m| => m[i].0)
  }

  predicate UniqueKeys<V>(m: Entries<V>)
  {
    forall i, j :: 0 <= i < j < |m| ==> m[i].0 != m[j].0
  }

  /** Position of the entry for `k`, if there is one. */
  function IndexOfKey<V>(m: Entries<V>, k: string): (r: Option<nat>)
    ensures r.None? <==> k !in Keys(m)
    ensures r.Some? ==> r.value < |m| && m[r.value].0 == k
    ensures r.Some? ==> forall j :: 0 <= j < r.value ==> m[j].0 != k
  {
    if |m| == 0 then None
    else if m[0].0 == k then Some(0)
    else match IndexOfKey(m[1..], k)
      case None => None
      case Some(i) => Some(i + 1)
  }

  /** `d[k]`, or None where Python would raise KeyError. */
  function Lookup<V>(m: Entries<V>, k: string): (r: Option<V>)
    ensures r.Some? <==> k in Keys(m)
  {
    match IndexOfKey(m, k)
    case None => None
    case Some(i) => Some(m[i].1)
  }

  /**
   * `d.update({k: v})`: an existing key keeps its position and takes the new
   * value; a new key goes at the end.
   */
  function Put<V>(m: Entries<V>, k: string, v: V): (r: Entries<V>)
    ensures k in Keys(m) ==> Keys(r) == Keys(m)
    ensures k !in Keys(m) ==> Keys(r) == Keys(m) + [k]
    ensures Lookup(r, k) == Some(v)
    ensures forall k' :: k' != k ==> Lookup(r, k') == Lookup(m, k')
    ensures UniqueKeys(m) ==> UniqueKeys(r)
  {
    match IndexOfKey(m, k)
    case Some(i) =>
      var r := m[i := (k, v)];
      assert forall k' :: k' != k ==> IndexOfKey(r, k') == IndexOfKey(m, k') by {
        forall k' | k' != k ensures IndexOfKey(r, k') == IndexOfKey(m, k') {
          IndexOfKeyAgree(m, r, k');
        }
      }
      r
    case None =>
      var r := m + [(k, v)];
      assert forall k' :: k' != k ==> IndexOfKey(r, k') == IndexOfKey(m, k') by {
        forall k' | k' != k ensures IndexOfKey(r, k') == IndexOfKey(m, k') {
          IndexOfKeyAgree(m, r, k');
        }
      }
      r
  }

  /** A key not yet present goes after every existing entry. */
  lemma PutNew<V>(m: Entries<V>, k: string, v: V)
    requires k !in Keys(m)
    ensures Put(m, k, v) == m + [(k, v)]
  {
  }

  /** With unique keys, looking up the key of an entry finds that entry's value. */
  lemma LookupAt<V>(m: Entries<V>, i: nat)
    requires UniqueKeys(m) && i < |m|
    ensures Lookup(m, m[i].0) == Some(m[i].1)
  {
    assert IndexOfKey(m, m[i].0) == Some(i);
  }

  /** Two entry lists that agree on where `k` is (and is not) find it at the same place. */
  lemma IndexOfKeyAgree<V>(m: Entries<V>, r: Entries<V>, k: string)
    requires |m| <= |r|
    requires forall j :: 0 <= j < |m| ==> (m[j].0 == k <==> r[j].0 == k)
    requires forall j :: |m| <= j < |r| ==> r[j].0 != k
    ensures IndexOfKey(r, k) == IndexOfKey(m, k)
  {
    var a, b := IndexOfKey(m, k), IndexOfKey(r, k);
    if a.Some? && b.Some? {
      assert a.value == b.value;
    }
  }

  /** Updating the same key twice is the same as updating it with the second value. */
  lemma PutPut<V>(m: Entries<V>, k: string, v1: V, v2: V)
    ensures Put(Put(m, k, v1), k, v2) == Put(m, k, v2)
  {
    var m1 := Put(m, k, v1);
    match IndexOfKey(m, k)
    case Some(i) =>
      assert m1 == m[i := (k, v1)];
      IndexOfKeyAgree(m, m1, k);
      assert m1[i := (k, v2)] == m[i := (k, v2)];
    case None =>
      PutNew(m, k, v1);
      assert IndexOfKey(m1, k) == Some(|m|);
      assert m1[|m| := (k, v2)] == m + [(k, v2)];
  }

  /**
   * The loop `for k, v in m.items(): out.update({k: f(v)})` starting from an
   * empty dictionary.
   */
  function MapValues<V, W>(m: Entries<V>, f: V -> W): (r: Entries<W>)
    ensures UniqueKeys(r)
    ensures UniqueKeys(m) ==> |r| == |m|
    ensures UniqueKeys(m) ==> forall i :: 0 <= i < |m| ==> r[i] == (m[i].0, f(m[i].1))
  {
    if |m| == 0 then []
    else
      var prefix := m[..|m| - 1];
      var (k, v) := m[|m| - 1];
      var earlier := MapValues(prefix, f);
      assert UniqueKeys(m) ==> Put(earlier, k, f(v)) == earlier + [(k, f(v))] by {
        if UniqueKeys(m) {
          assert UniqueKeys(prefix) && k !in Keys(prefix);
          PutNew(earlier, k, f(v));
        }
      }
      Put(earlier, k, f(v))
  }
}
