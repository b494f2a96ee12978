/** Reading the changelog of one edge type out of the store. */
module ChangelogScan {
  import opened Basics
  import opened Binary
  import opened Splitting
  import opened Numerals
  import opened WriteBatch
  import opened Keys
  import opened Scan
  import opened Rows
  import opened Changelog
  import Lexicographic

  function TypePrefix(cell: string, edgeType: string): Key { Path(Head(Xlog, cell, edgeType)) + "/" }

  /** `parse_xlog_entry_key`: three numbers behind the prefix. */
  function ParseXlogKey(prefix: Key, key: Key): Result<(U64, U64, U64)> {
    if !(prefix <= key) then Err(CorruptValue)
    else
      var p := Split(key[|prefix|..], '/');
      if |p| != 3 then Err(CorruptValue)
      else
        var sequence :- ParseU64(p[0]);
        var src :- ParseU64(p[1]);
        var dst :- ParseU64(p[2]);
        Ok((sequence, src, dst))
  }

  /** `decode_xlog_exists`. */
  function DecodeExists(value: Bytes): Result<bool> {
    if value == [0] then Ok(false) else if value == [1] then Ok(true) else Err(CorruptValue)
  }

  function ExistsByte(there: bool): Bytes { if there then [1] else [0] }

  lemma XlogKeyShape(cell: string, edgeType: string, s: U64, src: U64, dst: U64)
    requires ValidComponent(cell) && ValidComponent(edgeType)
    ensures XlogKey(cell, edgeType, s, src, dst) == TypePrefix(cell, edgeType) + Path(Pads([s, src, dst]))
    ensures ParseXlogKey(TypePrefix(cell, edgeType), XlogKey(cell, edgeType, s, src, dst)) == Ok((s, src, dst))
  {
    hide Fixed, ParseUnsigned, Split;
    var head, nums := Head(Xlog, cell, edgeType), Pads([s, src, dst]);
    var k := GraphKey(Xlog, cell, edgeType, [s, src, dst], []);
    assert Parts(k) == head + nums;
    JoinConcat(head, nums, '/');
    PadsFree([s, src, dst]);
    SplitJoin(nums, '/');
    ParsePad20(s);
    ParsePad20(src);
    ParsePad20(dst);
    var prefix, key := TypePrefix(cell, edgeType), XlogKey(cell, edgeType, s, src, dst);
    assert key[|prefix|..] == Path(nums);
  }

  /** The store's changelog keys are exactly the retained entries, each with its
      final state. */
  ghost predicate LogStored(store: Store, cell: string, edgeType: string, h: History, kept: set<LogEntry>) {
    && |h| < U64_MAX
    && (forall s, e :: (s, e) in kept ==>
          && 1 <= s <= |h| && e in h[s - 1]
          && XlogKey(cell, edgeType, s, e.0, e.1) in store
          && store[XlogKey(cell, edgeType, s, e.0, e.1)] == ExistsByte(h[s - 1][e]))
    && (forall key :: key in store && TypePrefix(cell, edgeType) <= key ==> IsEntryKey(cell, edgeType, h, kept, key))
  }

  ghost predicate IsEntryKey(cell: string, edgeType: string, h: History, kept: set<LogEntry>, key: Key) {
    exists s: U64, e: Edge :: (s, e) in kept && key == XlogKey(cell, edgeType, s, e.0, e.1)
  }

  /** The string bounds of the range scan. */
  predicate InRange(prefix: Key, key: Key, first: U64, upper: U64) {
    prefix <= key
    && !Lexicographic.Less(key[|prefix|..], Pad20(first))
    && Lexicographic.Less(key[|prefix|..], Pad20(upper))
  }

  lemma SuffixOrder(s: U64, rest: string, b: U64)
    ensures Lexicographic.Less(Pad20(s) + "/" + rest, Pad20(b)) <==> s < b
  {
    hide Fixed, Lexicographic.Less;
    Pad20Order(s, b);
    Lexicographic.ConcatOrder(Pad20(s), "/" + rest, Pad20(b), "");
    assert Pad20(s) + "/" + rest == Pad20(s) + ("/" + rest) && Pad20(b) + "" == Pad20(b);
    assert !Lexicographic.Less("/" + rest, "") by { NothingBelowEmpty("/" + rest); }
  }

  lemma NothingBelowEmpty(s: string)
    ensures !Lexicographic.Less(s, "")
  {
  }

  lemma XlogKeyBegins(cell: string, edgeType: string, s: U64, src: U64, dst: U64)
    requires ValidComponent(cell) && ValidComponent(edgeType)
    ensures XlogKey(cell, edgeType, s, src, dst)
         == TypePrefix(cell, edgeType) + (Pad20(s) + "/" + Path([Pad20(src), Pad20(dst)]))
  {
    hide Fixed, XlogKey, TypePrefix, Pad20;
    XlogKeyShape(cell, edgeType, s, src, dst);
    assert Pads([s, src, dst]) == [Pad20(s)] + [Pad20(src), Pad20(dst)];
    JoinConcat([Pad20(s)], [Pad20(src), Pad20(dst)], '/');
  }

  lemma RangeAfterPrefix(prefix: Key, suffix: string, first: U64, upper: U64)
    ensures InRange(prefix, prefix + suffix, first, upper)
       <==> !Lexicographic.Less(suffix, Pad20(first)) && Lexicographic.Less(suffix, Pad20(upper))
  {
    hide Lexicographic.Less, Pad20;
    assert (prefix + suffix)[|prefix|..] == suffix;
  }

  /** String bounds on the padded sequence select exactly the sequences between. */
  lemma RangeExact(cell: string, edgeType: string, s: U64, src: U64, dst: U64, first: U64, upper: U64)
    requires ValidComponent(cell) && ValidComponent(edgeType)
    ensures InRange(TypePrefix(cell, edgeType), XlogKey(cell, edgeType, s, src, dst), first, upper)
       <==> first <= s < upper
  {
    hide *;
    hide Lexicographic.Less;
    var rest := Path([Pad20(src), Pad20(dst)]);
    XlogKeyBegins(cell, edgeType, s, src, dst);
    SuffixOrder(s, rest, first);
    SuffixOrder(s, rest, upper);
    RangeAfterPrefix(TypePrefix(cell, edgeType), Pad20(s) + "/" + rest, first, upper);
  }

  // What a scan lists.

  datatype Logged = Logged(s: U64, e: Edge, there: bool)

  /** One scanned record, decoded. */
  function DecodeEntry(prefix: Key, p: Pair): Result<Logged> {
    var (s, src, dst) :- ParseXlogKey(prefix, p.key);
    var there :- DecodeExists(p.value);
    Ok(Logged(s, (src, dst), there))
  }

  /** Plain overwriting, entry by entry. */
  function Overwritten(entries: seq<Logged>): Changes {
    if entries == [] then map[]
    else Overwritten(entries[..|entries| - 1])[entries[|entries| - 1].e := entries[|entries| - 1].there]
  }

  ghost predicate DecodesTo(prefix: Key, l: seq<Pair>, entries: seq<Logged>) {
    |entries| == |l| && forall i :: 0 <= i < |l| ==> DecodeEntry(prefix, l[i]) == Ok(entries[i])
  }

  /** `xlog_delta_since`, the loop; a malformed record is an error. */
  method Overlay(prefix: Key, l: seq<Pair>, ghost entries: seq<Logged>) returns (r: Result<Changes>)
    ensures DecodesTo(prefix, l, entries) ==> r == Ok(Overwritten(entries))
    ensures r.Ok? ==> forall i :: 0 <= i < |l| ==> DecodeEntry(prefix, l[i]).Ok?
  {
    hide ParseXlogKey, DecodeExists;
    var m: Changes := map[];
    for i := 0 to |l|
      invariant DecodesTo(prefix, l, entries) ==> m == Overwritten(entries[..i])
      invariant forall k :: 0 <= k < i ==> DecodeEntry(prefix, l[k]).Ok?
    {
      var key := ParseXlogKey(prefix, l[i].key);
      if key.Err? { return Err(key.error); }
      var there := DecodeExists(l[i].value);
      if there.Err? { return Err(there.error); }
      if DecodesTo(prefix, l, entries) {
        assert entries[..i + 1][..i] == entries[..i];
        assert DecodeEntry(prefix, l[i]) == Ok(entries[i]);
      }
      m := m[(key.value.1, key.value.2) := there.value];
    }
    if DecodesTo(prefix, l, entries) { assert entries[..|entries|] == entries; }
    r := Ok(m);
  }

  /** Sequences ascend, and no entry occurs twice. */
  ghost predicate InOrder(entries: seq<Logged>) {
    forall i, j :: 0 <= i < j < |entries| ==>
      entries[i].s <= entries[j].s && (entries[i].s == entries[j].s ==> entries[i].e != entries[j].e)
  }

  /** The entries are exactly the retained ones of commits `lo + 1` to `hi`. */
  ghost predicate Complete(entries: seq<Logged>, h: History, kept: set<LogEntry>, lo: nat, hi: nat)
    requires hi <= |h|
  {
    && (forall i :: 0 <= i < |entries| ==> IsLogged(entries[i], h, kept, lo, hi))
    && (forall s: U64, e: Edge :: (s, e) in kept && lo < s <= hi && e in h[s - 1] ==>
        Logged(s, e, h[s - 1][e]) in entries)
  }

  ghost predicate IsLogged(x: Logged, h: History, kept: set<LogEntry>, lo: nat, hi: nat)
    requires hi <= |h|
  {
    lo < x.s <= hi && x.e in h[x.s - 1] && x.there == h[x.s - 1][x.e] && (x.s, x.e) in kept
  }

  /** The retained entries of the range up to commit `n`, off the front. */
  lemma {:induction false} SplitAt(entries: seq<Logged>, n: nat) returns (k: nat)
    requires InOrder(entries)
    ensures k <= |entries|
    ensures forall i :: 0 <= i < k ==> entries[i].s <= n
    ensures forall i :: k <= i < |entries| ==> entries[i].s > n
  {
    if entries == [] || entries[|entries| - 1].s <= n {
      k := |entries|;
    } else {
      k := SplitAt(entries[..|entries| - 1], n);
    }
  }

  lemma {:induction false} OverwrittenSplit(a: seq<Logged>, b: seq<Logged>)
    ensures Overwritten(a + b) == Overwritten(a) + Overwritten(b)
  {
    if b == [] {
      assert a + b == a && Overwritten(a) + map[] == Overwritten(a);
    } else {
      var front, last := b[..|b| - 1], b[|b| - 1];
      OverwrittenSplit(a, front);
      assert (a + b)[..|a + b| - 1] == a + front;
    }
  }

  /** Entries of a single commit, in any order. */
  lemma {:induction false} OneCommit(entries: seq<Logged>, h: History, s: nat)
    requires 1 <= s <= |h| && forall i :: 0 <= i < |entries| ==>
              entries[i].e in h[s - 1] && entries[i].there == h[s - 1][entries[i].e]
    ensures forall e :: e in Overwritten(entries) <==> exists i :: 0 <= i < |entries| && entries[i].e == e
    ensures forall e :: e in Overwritten(entries) ==> e in h[s - 1] && Overwritten(entries)[e] == h[s - 1][e]
  {
    if entries != [] {
      OneCommit(entries[..|entries| - 1], h, s);
    }
  }

  lemma OneCommitHas(entries: seq<Logged>, h: History, kept: set<LogEntry>, s: nat, e: Edge)
    requires 1 <= s <= |h| && s <= U64_MAX && Complete(entries, h, kept, s - 1, s)
    ensures (exists i :: 0 <= i < |entries| && entries[i].e == e) <==> e in KeptAt(h, kept, s)
  {
    if i :| 0 <= i < |entries| && entries[i].e == e {
      assert IsLogged(entries[i], h, kept, s - 1, s);
    }
    if e in KeptAt(h, kept, s) {
      var x := Logged(s, e, h[s - 1][e]);
      assert x in entries;
      var i :| 0 <= i < |entries| && entries[i] == x;
    }
  }

  lemma OneCommitIs(entries: seq<Logged>, h: History, kept: set<LogEntry>, s: nat)
    requires 1 <= s <= |h| && s <= U64_MAX && Complete(entries, h, kept, s - 1, s)
    ensures Overwritten(entries) == KeptAt(h, kept, s)
  {
    forall i | 0 <= i < |entries| ensures entries[i].e in h[s - 1] && entries[i].there == h[s - 1][entries[i].e] {
      assert IsLogged(entries[i], h, kept, s - 1, s);
    }
    OneCommit(entries, h, s);
    hide Overwritten;
    var m, want := Overwritten(entries), KeptAt(h, kept, s);
    forall e: Edge ensures e in m <==> e in want {
      OneCommitHas(entries, h, kept, s, e);
    }
  }

  /** Overwriting in key order resolves the log. */
  lemma {:induction false} OverwrittenResolves(entries: seq<Logged>, h: History, kept: set<LogEntry>, lo: nat, hi: nat)
    requires hi <= |h| <= U64_MAX && InOrder(entries) && Complete(entries, h, kept, lo, hi)
    ensures Overwritten(entries) == Resolved(h, kept, lo, hi)
    decreases hi
  {
    hide *;
    if hi <= lo {
      NoCommits(entries, h, kept, lo, hi);
    } else {
      var k := SplitAt(entries, hi - 1);
      var a, b := entries[..k], entries[k..];
      assert entries == a + b;
      PartsComplete(entries, h, kept, lo, hi, k);
      OverwrittenSplit(a, b);
      OverwrittenResolves(a, h, kept, lo, hi - 1);
      OneCommitIs(b, h, kept, hi);
      ResolvedNext(h, kept, lo, hi);
    }
  }

  lemma SomeCommit(entries: seq<Logged>, h: History, kept: set<LogEntry>, lo: nat, hi: nat)
    requires hi <= |h| && entries != [] && Complete(entries, h, kept, lo, hi)
    ensures lo < hi
  {
    assert IsLogged(entries[0], h, kept, lo, hi);
  }

  lemma NoCommits(entries: seq<Logged>, h: History, kept: set<LogEntry>, lo: nat, hi: nat)
    requires hi <= |h| && hi <= lo && Complete(entries, h, kept, lo, hi)
    ensures Overwritten(entries) == Resolved(h, kept, lo, hi)
  {
    if entries != [] { SomeCommit(entries, h, kept, lo, hi); }
  }

  lemma ResolvedNext(h: History, kept: set<LogEntry>, lo: nat, hi: nat)
    requires lo < hi <= |h|
    ensures Resolved(h, kept, lo, hi) == Resolved(h, kept, lo, hi - 1) + KeptAt(h, kept, hi)
  {
  }

  lemma PartsComplete(entries: seq<Logged>, h: History, kept: set<LogEntry>, lo: nat, hi: nat, k: nat)
    requires lo < hi <= |h| <= U64_MAX && InOrder(entries) && Complete(entries, h, kept, lo, hi) && k <= |entries|
    requires forall i :: 0 <= i < k ==> entries[i].s <= hi - 1
    requires forall i :: k <= i < |entries| ==> entries[i].s > hi - 1
    ensures InOrder(entries[..k]) && Complete(entries[..k], h, kept, lo, hi - 1)
    ensures Complete(entries[k..], h, kept, hi - 1, hi)
  {
    var a, b := entries[..k], entries[k..];
    forall i | 0 <= i < |a|
      ensures IsLogged(a[i], h, kept, lo, hi - 1)
    {
      assert IsLogged(entries[i], h, kept, lo, hi);
    }
    forall i | 0 <= i < |b|
      ensures IsLogged(b[i], h, kept, hi - 1, hi)
    {
      assert IsLogged(entries[k + i], h, kept, lo, hi);
    }
    forall s: U64, e: Edge | (s, e) in kept && lo < s <= hi && e in h[s - 1]
      ensures s < hi ==> Logged(s, e, h[s - 1][e]) in a
      ensures s == hi ==> Logged(s, e, h[s - 1][e]) in b
    {
      var i :| 0 <= i < |entries| && entries[i] == Logged(s, e, h[s - 1][e]);
      assert i < k ==> a[i] == entries[i];
      assert i >= k ==> b[i - k] == entries[i];
    }
  }

  // From the store to the entries.

  lemma EntryOf(store: Store, cell: string, edgeType: string, h: History, kept: set<LogEntry>, key: Key)
    returns (x: Logged)
    requires ValidComponent(cell) && ValidComponent(edgeType) && LogStored(store, cell, edgeType, h, kept)
    requires key in store && TypePrefix(cell, edgeType) <= key
    ensures (x.s, x.e) in kept && 1 <= x.s <= |h| && x.e in h[x.s - 1] && x.there == h[x.s - 1][x.e]
    ensures key == XlogKey(cell, edgeType, x.s, x.e.0, x.e.1)
    ensures DecodeEntry(TypePrefix(cell, edgeType), Pair(key, store[key])) == Ok(x)
  {
    hide XlogKey, TypePrefix, ParseXlogKey;
    assert IsEntryKey(cell, edgeType, h, kept, key);
    var s: U64, e: Edge :| (s, e) in kept && key == XlogKey(cell, edgeType, s, e.0, e.1);
    XlogKeyShape(cell, edgeType, s, e.0, e.1);
    x := Logged(s, e, h[s - 1][e]);
  }

  lemma KeysAscendAsSequences(cell: string, edgeType: string, s: U64, e: Edge, t: U64, f: Edge)
    requires ValidComponent(cell) && ValidComponent(edgeType)
    requires Lexicographic.Less(XlogKey(cell, edgeType, s, e.0, e.1), XlogKey(cell, edgeType, t, f.0, f.1))
    ensures s <= t && (s == t ==> e != f)
  {
    hide Lexicographic.Less, Format;
    var a := GraphKey(Xlog, cell, edgeType, [s, e.0, e.1], []);
    var b := GraphKey(Xlog, cell, edgeType, [t, f.0, f.1], []);
    KeyOrder(a, b);
    Lexicographic.Irreflexive(XlogKey(cell, edgeType, s, e.0, e.1));
    assert a.nums[0] == s && b.nums[0] == t;
    assert NumsLess(a.nums, b.nums) ==> s <= t;
  }

  /** The decoded form of a listing of log records. */
  lemma {:induction false} Decoded(store: Store, cell: string, edgeType: string, h: History, kept: set<LogEntry>,
                                   l: seq<Pair>)
    returns (entries: seq<Logged>)
    requires ValidComponent(cell) && ValidComponent(edgeType) && LogStored(store, cell, edgeType, h, kept)
    requires forall i :: 0 <= i < |l| ==>
              TypePrefix(cell, edgeType) <= l[i].key && l[i].key in store && store[l[i].key] == l[i].value
    ensures DecodesTo(TypePrefix(cell, edgeType), l, entries) && |entries| == |l|
    ensures forall i :: 0 <= i < |l| ==> Matches(cell, edgeType, h, kept, l[i], entries[i])
    decreases |l|
  {
    hide LogStored, TypePrefix, DecodeEntry, XlogKey;
    if l == [] {
      entries := [];
    } else {
      var front := Decoded(store, cell, edgeType, h, kept, l[..|l| - 1]);
      var p := l[|l| - 1];
      var x := EntryOf(store, cell, edgeType, h, kept, p.key);
      assert Pair(p.key, store[p.key]) == p;
      entries := front + [x];
    }
  }

  lemma ListingInOrder(cell: string, edgeType: string, h: History, kept: set<LogEntry>, l: seq<Pair>,
                       entries: seq<Logged>)
    requires ValidComponent(cell) && ValidComponent(edgeType) && KeysAscend(l) && |entries| == |l|
    requires forall i :: 0 <= i < |l| ==> Matches(cell, edgeType, h, kept, l[i], entries[i])
    ensures InOrder(entries)
  {
    hide XlogKey, Lexicographic.Less;
    forall i, j | 0 <= i < j < |entries|
      ensures entries[i].s <= entries[j].s && (entries[i].s == entries[j].s ==> entries[i].e != entries[j].e)
    {
      assert Matches(cell, edgeType, h, kept, l[i], entries[i]) && Matches(cell, edgeType, h, kept, l[j], entries[j]);
      KeysAscendAsSequences(cell, edgeType, entries[i].s, entries[i].e, entries[j].s, entries[j].e);
    }
  }

  /** The record and the decoded entry belong together. */
  ghost predicate Matches(cell: string, edgeType: string, h: History, kept: set<LogEntry>, p: Pair, x: Logged) {
    && p.key == XlogKey(cell, edgeType, x.s, x.e.0, x.e.1)
    && 1 <= x.s <= |h| && (x.s, x.e) in kept && x.e in h[x.s - 1] && x.there == h[x.s - 1][x.e]
  }

  lemma EntryListed(store: Store, cell: string, edgeType: string, h: History, kept: set<LogEntry>, lo: U64, hi: U64,
                    l: seq<Pair>, entries: seq<Logged>, s: U64, e: Edge)
    requires ValidComponent(cell) && ValidComponent(edgeType) && LogStored(store, cell, edgeType, h, kept)
    requires lo <= hi <= |h|
    requires lo + 1 <= U64_MAX && hi + 1 <= U64_MAX
    requires forall k :: k in store && InRange(TypePrefix(cell, edgeType), k, lo + 1, hi + 1) ==> Pair(k, store[k]) in l
    requires |entries| == |l| && forall i :: 0 <= i < |l| ==> Matches(cell, edgeType, h, kept, l[i], entries[i])
    requires (s, e) in kept && lo < s <= hi && e in h[s - 1]
    ensures Logged(s, e, h[s - 1][e]) in entries
  {
    hide TypePrefix, XlogKey, InRange;
    var key := XlogKey(cell, edgeType, s, e.0, e.1);
    RangeExact(cell, edgeType, s, e.0, e.1, lo + 1, hi + 1);
    assert key in store;
    assert Pair(key, store[key]) in l;
    hide LogStored;
    var i :| 0 <= i < |l| && l[i] == Pair(key, store[key]);
    assert Matches(cell, edgeType, h, kept, l[i], entries[i]);
    SameEntry(cell, edgeType, s, e, entries[i].s, entries[i].e);
    assert entries[i] == Logged(s, e, h[s - 1][e]);
  }

  lemma ListingComplete(store: Store, cell: string, edgeType: string, h: History, kept: set<LogEntry>, lo: U64, hi: U64,
                        l: seq<Pair>, entries: seq<Logged>)
    requires ValidComponent(cell) && ValidComponent(edgeType) && LogStored(store, cell, edgeType, h, kept)
    requires lo <= hi <= |h|
    requires lo + 1 <= U64_MAX && hi + 1 <= U64_MAX
    requires forall k :: k in store && InRange(TypePrefix(cell, edgeType), k, lo + 1, hi + 1) ==> Pair(k, store[k]) in l
    requires forall i :: 0 <= i < |l| ==> InRange(TypePrefix(cell, edgeType), l[i].key, lo + 1, hi + 1)
    requires |entries| == |l| && forall i :: 0 <= i < |l| ==> Matches(cell, edgeType, h, kept, l[i], entries[i])
    ensures Complete(entries, h, kept, lo, hi)
  {
    hide TypePrefix, XlogKey, InRange, LogStored;
    forall i | 0 <= i < |entries| ensures IsLogged(entries[i], h, kept, lo, hi) {
      assert Matches(cell, edgeType, h, kept, l[i], entries[i]);
      RangeExact(cell, edgeType, entries[i].s, entries[i].e.0, entries[i].e.1, lo + 1, hi + 1);
    }
    hide Matches;
    forall s: U64, e: Edge | (s, e) in kept && lo < s <= hi && e in h[s - 1]
      ensures Logged(s, e, h[s - 1][e]) in entries
    {
      EntryListed(store, cell, edgeType, h, kept, lo, hi, l, entries, s, e);
    }
  }

  lemma SameEntry(cell: string, edgeType: string, s: U64, e: Edge, t: U64, f: Edge)
    requires ValidComponent(cell) && ValidComponent(edgeType)
    requires XlogKey(cell, edgeType, s, e.0, e.1) == XlogKey(cell, edgeType, t, f.0, f.1)
    ensures s == t && e == f
  {
    hide XlogKey;
    XlogKeyShape(cell, edgeType, s, e.0, e.1);
    XlogKeyShape(cell, edgeType, t, f.0, f.1);
  }

  /** The part of a listing inside the string bounds. */
  method Within(all: seq<Pair>, prefix: Key, first: U64, upper: U64) returns (l: seq<Pair>)
    requires KeysAscend(all)
    ensures KeysAscend(l)
    ensures forall p :: p in l <==> p in all && InRange(prefix, p.key, first, upper)
  {
    hide InRange, Lexicographic.Less;
    l := [];
    for i := 0 to |all|
      invariant KeysAscend(l)
      invariant forall p :: p in l <==> p in all[..i] && InRange(prefix, p.key, first, upper)
      invariant forall p :: p in l ==> exists j :: 0 <= j < i && all[j] == p
    {
      if InRange(prefix, all[i].key, first, upper) {
        forall k | 0 <= k < |l| ensures Lexicographic.Less(l[k].key, all[i].key) {
          assert l[k] in l;
        }
        l := l + [all[i]];
      }
    }
    assert all[..|all|] == all;
  }

  lemma RangeOfScan(store: Store, prefix: Key, first: U64, upper: U64, all: seq<Pair>, l: seq<Pair>)
    requires IsScan(store, prefix, all) && forall p :: p in l <==> p in all && InRange(prefix, p.key, first, upper)
    ensures forall i :: 0 <= i < |l| ==> prefix <= l[i].key && l[i].key in store && store[l[i].key] == l[i].value
    ensures forall i :: 0 <= i < |l| ==> InRange(prefix, l[i].key, first, upper)
    ensures forall k :: k in store && InRange(prefix, k, first, upper) ==> Pair(k, store[k]) in l
  {
    hide Lexicographic.Less;
    forall i | 0 <= i < |l|
      ensures prefix <= l[i].key && l[i].key in store && store[l[i].key] == l[i].value
                && InRange(prefix, l[i].key, first, upper)
    {
      assert l[i] in l;
    }
  }

  /** The records under a prefix within string bounds, in key order. */
  method ScanRange(store: Store, prefix: Key, first: U64, upper: U64) returns (l: seq<Pair>)
    ensures KeysAscend(l)
    ensures forall i :: 0 <= i < |l| ==> prefix <= l[i].key && l[i].key in store && store[l[i].key] == l[i].value
    ensures forall i :: 0 <= i < |l| ==> InRange(prefix, l[i].key, first, upper)
    ensures forall k :: k in store && InRange(prefix, k, first, upper) ==> Pair(k, store[k]) in l
  {
    hide *;
    var all := ScanRecords(store, prefix);
    ScanAscends(store, prefix, all);
    l := Within(all, prefix, first, upper);
    RangeOfScan(store, prefix, first, upper, all, l);
  }

  lemma LogFits(store: Store, cell: string, edgeType: string, h: History, kept: set<LogEntry>, s: U64)
    returns (next: U64)
    requires LogStored(store, cell, edgeType, h, kept) && s <= |h|
    ensures next == s + 1 <= U64_MAX && |h| < U64_MAX
  {
    next := s + 1;
  }

  /** The whole delta read: scan, bound by strings, overwrite in order. On a
      store that holds the retained log it yields exactly the resolved changes. */
  method ReadDelta(store: Store, cell: string, edgeType: string, lo: U64, hi: U64,
                   ghost h: History, ghost kept: set<LogEntry>) returns (r: Result<Changes>)
    requires ValidComponent(cell) && ValidComponent(edgeType)
    requires LogStored(store, cell, edgeType, h, kept) && lo <= hi <= |h|
    ensures r == Ok(Resolved(h, kept, lo, hi))
  {
    hide *;
    ghost var a := LogFits(store, cell, edgeType, h, kept, lo);
    ghost var b := LogFits(store, cell, edgeType, h, kept, hi);
    var prefix := TypePrefix(cell, edgeType);
    var first: U64, upper: U64 := lo + 1, hi + 1;
    var l := ScanRange(store, prefix, first, upper);
    ghost var entries := Decoded(store, cell, edgeType, h, kept, l);
    ListingInOrder(cell, edgeType, h, kept, l, entries);
    ListingComplete(store, cell, edgeType, h, kept, lo, hi, l, entries);
    r := Overlay(prefix, l, entries);
    OverwrittenResolves(entries, h, kept, lo, hi);
  }
}
