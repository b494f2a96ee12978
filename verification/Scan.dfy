/** Prefix scans of the store, in key order. */
module Scan {
  import opened Basics
  import opened Binary
  import opened WriteBatch
  import Lexicographic

  datatype Pair = Pair(key: Key, value: Bytes)

  ghost predicate KeysAscend(l: seq<Pair>) {
    forall i, j :: 0 <= i < j < |l| ==> Lexicographic.Less(l[i].key, l[j].key)
  }

  /** `l` lists exactly the records under the prefix, by ascending key. */
  ghost predicate IsScan(store: Store, prefix: Key, l: seq<Pair>) {
    && KeysAscend(l)
    && (forall i :: 0 <= i < |l| ==> prefix <= l[i].key && l[i].key in store && store[l[i].key] == l[i].value)
    && (forall k :: k in store && prefix <= k ==> Pair(k, store[k]) in l)
  }

  lemma ScanAscends(store: Store, prefix: Key, l: seq<Pair>)
    requires IsScan(store, prefix, l)
    ensures KeysAscend(l)
  {
  }

  method LeastKey(keys: set<Key>) returns (least: Key)
    requires keys != {}
    ensures least in keys && forall k :: k in keys ==> k == least || Lexicographic.Less(least, k)
  {
    hide Lexicographic.Less;
    least :| least in keys;
    var left := keys - {least};
    while left != {}
      invariant least in keys && left <= keys
      invariant forall k :: k in keys - left ==> k == least || Lexicographic.Less(least, k)
      decreases |left|
    {
      var k :| k in left;
      Lexicographic.Trichotomy(k, least);
      if Lexicographic.Less(k, least) {
        forall j | j in keys - left ensures j == k || Lexicographic.Less(k, j) {
          if j != least { Lexicographic.Transitive(k, least, j); }
        }
        least := k;
      }
      left := left - {k};
    }
  }

  method ScanRecords(store: Store, prefix: Key) returns (l: seq<Pair>)
    ensures IsScan(store, prefix, l)
  {
    hide Lexicographic.Less;
    l := [];
    var all := set k | k in store && prefix <= k;
    var left := all;
    while left != {}
      invariant left <= all && KeysAscend(l)
      invariant forall i :: 0 <= i < |l| ==> l[i].key in all - left && store[l[i].key] == l[i].value
      invariant forall k :: k in all - left ==> Pair(k, store[k]) in l
      invariant forall i, k :: 0 <= i < |l| && k in left ==> Lexicographic.Less(l[i].key, k)
      decreases |left|
    {
      var k := LeastKey(left);
      l := l + [Pair(k, store[k])];
      left := left - {k};
    }
    assert all - left == all;
  }
}
