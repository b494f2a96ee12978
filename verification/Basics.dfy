/** Machine integers, failure values and the small sequence facts that every
    other module relies on. */
module Basics {

  const U64_MAX: int := 0xFFFF_FFFF_FFFF_FFFF
  const U32_MAX: int := 0xFFFF_FFFF

  type U64 = x: int | 0 <= x <= 0xFFFF_FFFF_FFFF_FFFF
  type U32 = x: int | 0 <= x <= 0xFFFF_FFFF
  type Byte = x: int | 0 <= x < 256

  datatype Option<+T> = None | Some(value: T) {
    predicate IsFailure() { None? }

    function PropagateFailure<U>(): Option<U>
      requires None?
    {
      None
    }

    function Extract(): T
      requires Some?
    {
      value
    }
  }

  /** The error classes the modelled code distinguishes; the human-readable
      reasons of the original are not kept. */
  datatype GraphError =
    | CorruptValue
    | InvalidKeyComponent
    | IdempotencyConflict
    | SparseKernel
    | NamespaceDepth

  datatype Result<+T> = Ok(value: T) | Err(error: GraphError) {
    predicate IsFailure() { Err? }

    function PropagateFailure<U>(): Result<U>
      requires Err?
    {
      Err(error)
    }

    function Extract(): T
      requires Ok?
    {
      value
    }
  }

  function Min(a: int, b: int): int { if a <= b then a else b }

  function Max(a: int, b: int): int { if a <= b then b else a }

  function SaturatingAdd(a: U64, b: nat): U64 { if a + b <= U64_MAX then a + b else U64_MAX }

  function SaturatingSub(a: nat, b: nat): nat { if b <= a then a - b else 0 }

  function Elems<T>(s: seq<T>): set<T> { set x | x in s }

  ghost predicate NoDup<T>(s: seq<T>) {
    forall i, j :: 0 <= i < j < |s| ==> s[i] != s[j]
  }

  lemma ElemsConcat<T>(a: seq<T>, b: seq<T>)
    ensures Elems(a + b) == Elems(a) + Elems(b)
  {
  }

  /** A duplicate-free listing has as many entries as its set has members. */
  lemma {:induction false} NoDupCard<T>(s: seq<T>)
    requires NoDup(s)
    ensures |Elems(s)| == |s|
  {
    if s != [] {
      var rest := s[1..];
      NoDupCard(rest);
      assert s == [s[0]] + rest;
      assert Elems(s) == {s[0]} + Elems(rest);
      assert s[0] !in rest;
    }
  }

  lemma RemoveShrinks<K, V>(m: map<K, V>, k: K)
    requires k in m
    ensures |m - {k}| == |m| - 1
  {
    assert m.Keys == (m - {k}).Keys + {k};
    assert |m.Keys| == |m| && |(m - {k}).Keys| == |m - {k}|;
  }

  /** Removing keys one by one. */
  lemma RemovalOrder<K, V>(m: map<K, V>, all: set<K>, left: set<K>, k: K)
    requires left <= all <= m.Keys && k in left
    ensures m - (all - left) - {k} == m - (all - (left - {k}))
  {
    assert (m - (all - left) - {k}).Keys == (m - (all - (left - {k}))).Keys;
  }

  lemma {:induction false} SubsetCard<T>(a: set<T>, b: set<T>)
    requires a <= b
    ensures |a| <= |b|
    ensures |a| == |b| ==> a == b
  {
    if a != {} {
      var x :| x in a;
      SubsetCard(a - {x}, b - {x});
    }
  }
}

/** Strictly ascending listings of vertex ids: the iteration order of the
    ordered maps and sets, and the result of sorting and deduplicating. */
module Ascending {
  import opened Basics

  predicate StrictlyAscending(s: seq<U64>) {
    forall i, j :: 0 <= i < j < |s| ==> s[i] < s[j]
  }

  predicate NonDescending(s: seq<U64>) {
    forall i, j :: 0 <= i < j < |s| ==> s[i] <= s[j]
  }

  /** A strictly ascending listing is determined by its members. */
  lemma {:induction false} AscendingUnique(a: seq<U64>, b: seq<U64>)
    requires StrictlyAscending(a) && StrictlyAscending(b)
    requires Elems(a) == Elems(b)
    ensures a == b
  {
    assert b != [] ==> b[0] in Elems(b);
    if a != [] {
      assert a[0] in Elems(a);
      assert a[0] in b && b[0] in a;
      assert a[0] == b[0];
      var ra, rb := a[1..], b[1..];
      assert a == [a[0]] + ra && b == [b[0]] + rb;
      assert a[0] !in ra && b[0] !in rb;
      assert Elems(ra) == Elems(a) - {a[0]};
      assert Elems(rb) == Elems(b) - {b[0]};
      AscendingUnique(ra, rb);
    }
  }

  predicate IsLeast(x: U64, s: set<U64>) {
    x in s && forall y :: y in s ==> x <= y
  }

  lemma {:induction false} LeastExists(s: set<U64>)
    requires s != {}
    ensures exists x :: IsLeast(x, s)
  {
    var x :| x in s;
    var rest := s - {x};
    if rest == {} {
      assert s == {x};
      assert IsLeast(x, s);
    } else {
      LeastExists(rest);
      var m :| IsLeast(m, rest);
      assert s == rest + {x};
      assert IsLeast(if x <= m then x else m, s);
    }
  }

  function MinOf(s: set<U64>): (m: U64)
    requires s != {}
    ensures IsLeast(m, s)
  {
    LeastExists(s);
    var m :| IsLeast(m, s);
    m
  }

  lemma AscendingCons(m: U64, rest: seq<U64>)
    requires StrictlyAscending(rest)
    requires forall x :: x in rest ==> m < x
    ensures StrictlyAscending([m] + rest)
    ensures Elems([m] + rest) == {m} + Elems(rest)
  {
    forall i, j | 0 <= i < j < |[m] + rest| ensures ([m] + rest)[i] < ([m] + rest)[j] {
      assert ([m] + rest)[j] == rest[j - 1] && rest[j - 1] in rest;
      assert i > 0 ==> ([m] + rest)[i] == rest[i - 1];
    }
  }

  /** The members of `s` in iteration order. */
  function Listing(s: set<U64>): (r: seq<U64>)
    ensures StrictlyAscending(r)
    ensures Elems(r) == s
    ensures |r| == |s|
  {
    if s == {} then []
    else
      var m := MinOf(s);
      var rest := Listing(s - {m});
      ListingStep(s, m, rest);
      [m] + rest
  }

  lemma ListingStep(s: set<U64>, m: U64, rest: seq<U64>)
    requires IsLeast(m, s) && StrictlyAscending(rest) && Elems(rest) == s - {m} && |rest| == |s - {m}|
    ensures StrictlyAscending([m] + rest) && Elems([m] + rest) == s && |[m] + rest| == |s|
  {
    assert forall x :: x in rest ==> x in Elems(rest);
    hide StrictlyAscending, Elems;
    AscendingCons(m, rest);
    assert {m} + (s - {m}) == s;
  }

  lemma AscendingNoDup(a: seq<U64>)
    requires StrictlyAscending(a)
    ensures NoDup(a) && |Elems(a)| == |a|
  {
    NoDupCard(a);
  }

  // `sort_unstable`, as an insertion sort.

  lemma NonDescendingCons(m: U64, rest: seq<U64>)
    requires NonDescending(rest)
    requires forall x :: x in rest ==> m <= x
    ensures NonDescending([m] + rest)
  {
    forall i, j | 0 <= i < j < |[m] + rest| ensures ([m] + rest)[i] <= ([m] + rest)[j] {
      assert ([m] + rest)[j] == rest[j - 1] && rest[j - 1] in rest;
      assert i > 0 ==> ([m] + rest)[i] == rest[i - 1];
    }
  }

  function InsertSorted(x: U64, s: seq<U64>): (r: seq<U64>)
    ensures multiset(r) == multiset(s) + multiset{x}
  {
    if s == [] || x <= s[0] then [x] + s
    else
      assert s == [s[0]] + s[1..];
      [s[0]] + InsertSorted(x, s[1..])
  }

  lemma {:induction false} InsertSortedOrdered(x: U64, s: seq<U64>)
    requires NonDescending(s)
    ensures NonDescending(InsertSorted(x, s))
  {
    if s != [] && x > s[0] {
      var rest := InsertSorted(x, s[1..]);
      InsertSortedOrdered(x, s[1..]);
      forall y | y in rest ensures s[0] <= y {
        assert y in multiset(rest);
        assert y == x || y in multiset(s[1..]);
      }
      NonDescendingCons(s[0], rest);
    } else {
      NonDescendingCons(x, s);
    }
  }

  function SortUnstable(s: seq<U64>): (r: seq<U64>)
    ensures NonDescending(r)
    ensures multiset(r) == multiset(s)
  {
    if s == [] then []
    else
      assert s == [s[0]] + s[1..];
      InsertSortedOrdered(s[0], SortUnstable(s[1..]));
      InsertSorted(s[0], SortUnstable(s[1..]))
  }

  /** `dedup`: drops every entry equal to the one before it. */
  function Dedup(s: seq<U64>): (r: seq<U64>)
    ensures Elems(r) == Elems(s)
    ensures |s| > 0 ==> |r| > 0 && r[0] == s[0]
    ensures NonDescending(s) ==> StrictlyAscending(r)
  {
    if |s| <= 1 then s
    else
      var rest := Dedup(s[1..]);
      assert s == [s[0]] + s[1..];
      if s[0] == s[1] then
        assert s[1] in s[1..];
        rest
      else
        assert forall x :: x in rest ==> x in Elems(s[1..]);
        assert Elems([s[0]] + rest) == {s[0]} + Elems(rest);
        [s[0]] + rest
  }

  function SortDedup(s: seq<U64>): seq<U64> { Dedup(SortUnstable(s)) }

  /** Sorting then deduplicating yields the ascending listing of the members,
      whatever the order and multiplicity of the input. */
  lemma SortDedupIsListing(s: seq<U64>)
    ensures SortDedup(s) == Listing(Elems(s))
  {
    var t := SortUnstable(s);
    assert Elems(t) == Elems(s) by {
      assert forall x :: x in t <==> x in multiset(t);
      assert forall x :: x in s <==> x in multiset(s);
    }
    AscendingUnique(Dedup(t), Listing(Elems(s)));
  }
}
