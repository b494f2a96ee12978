/** Reading the neighbours of one source at one epoch. */
module Adjacency {
  import opened Basics
  import opened Binary
  import opened WriteBatch
  import opened Keys
  import opened Scan
  import opened Segments
  import Numerals
  import Lexicographic

  // Connecting the scans with the store.

  lemma SegmentKeyFacts(cell: string, edgeType: string, src: U64, sequence: U64, id: string)
    requires ValidComponent(cell) && ValidComponent(edgeType) && ValidComponent(id)
    ensures ScanPrefix(Segment, cell, edgeType, [src]) <= OutSegmentKey(cell, edgeType, src, sequence, id)
    ensures ParseSegmentKey(OutSegmentKey(cell, edgeType, src, sequence, id)) == Ok((cell, edgeType, src, sequence))
  {
    hide Format;
    hide ScanPrefix;
    hide ParseSegmentKey;
    var k := GraphKey(Segment, cell, edgeType, [src, sequence], [id]);
    ScanPrefixExact(Segment, cell, edgeType, [src], k);
    ParsersInvert(k);
  }

  lemma EdgeKeyFacts(cell: string, edgeType: string, src: U64, dst: U64)
    requires ValidComponent(cell) && ValidComponent(edgeType)
    ensures ScanPrefix(OutEdge, cell, edgeType, [src]) <= OutEdgeKey(cell, edgeType, src, dst)
    ensures ParseEdgeRecordKey(OutEdgeKey(cell, edgeType, src, dst)) == Ok(EdgeId(cell, edgeType, src, dst))
  {
    hide Format;
    hide ScanPrefix;
    hide ParseEdgeRecordKey;
    var k := GraphKey(OutEdge, cell, edgeType, [src, dst], []);
    ScanPrefixExact(OutEdge, cell, edgeType, [src], k);
    ParsersInvert(k);
  }

  /** A visible entry is shown by some scanned record of its sequence. */
  lemma VisibleIsShown(store: Store, cell: string, edgeType: string, src: U64, epoch: U64, l: seq<Pair>,
                       t: map<U64, U64>, d: U64, n: U64)
    returns (i: nat)
    requires ValidComponent(cell) && ValidComponent(edgeType)
    requires IsScan(store, ScanPrefix(Segment, cell, edgeType, [src]), l)
    requires Lookup(t, d) == TombstoneOf(store, cell, edgeType, src, d, epoch)
    requires Visible(store, cell, edgeType, src, epoch, d, n)
    ensures i < |l| && Shows(l, i, t, epoch, d) && SegmentAt(l, i).sequence == n
  {
    hide ScanPrefix, TombstoneOf, Lexicographic.Less, SegmentBody, OutSegmentKey, ParseSegmentKey;
    var key :| IsSegmentRecord(store, key, cell, edgeType, src, n) && SegmentBody(store[key]).Ok?
        && d in SegmentBody(store[key]).value;
    var id :| ValidComponent(id) && key == OutSegmentKey(cell, edgeType, src, n, id);
    SegmentKeyFacts(cell, edgeType, src, n, id);
    assert Pair(key, store[key]) in l;
    i :| 0 <= i < |l| && l[i] == Pair(key, store[key]);
  }

  /** A shown record makes its entry visible. */
  lemma ShownIsVisible(store: Store, cell: string, edgeType: string, src: U64, epoch: U64, l: seq<Pair>,
                       t: map<U64, U64>, i: nat, d: U64)
    requires WellFormed(store) && ValidComponent(cell) && ValidComponent(edgeType)
    requires IsScan(store, ScanPrefix(Segment, cell, edgeType, [src]), l)
    requires Lookup(t, d) == TombstoneOf(store, cell, edgeType, src, d, epoch)
    requires Shows(l, i, t, epoch, d)
    ensures Visible(store, cell, edgeType, src, epoch, d, SegmentAt(l, i).sequence)
  {
    hide ScanPrefix, TombstoneOf, Lexicographic.Less, SegmentBody, OutSegmentKey, ParseSegmentKey, WellFormed;
    SegmentScan(store, cell, edgeType, src, l);
  }

  lemma BestIsEdgeMap(store: Store, cell: string, edgeType: string, src: U64, epoch: U64, l: seq<Pair>,
                      t: map<U64, U64>, m: map<U64, U64>)
    requires WellFormed(store) && ValidComponent(cell) && ValidComponent(edgeType)
    requires IsScan(store, ScanPrefix(Segment, cell, edgeType, [src]), l)
    requires forall d :: Lookup(t, d) == TombstoneOf(store, cell, edgeType, src, d, epoch)
    requires Best(l, |l|, t, epoch, m)
    ensures IsEdgeMap(store, cell, edgeType, src, epoch, m)
  {
    hide WellFormed, IsScan, ScanPrefix, Visible, TombstoneOf, SegmentAt, Lookup, Decodes, SegmentEdgeVisible;
    forall d | d in m ensures Visible(store, cell, edgeType, src, epoch, d, m[d]) {
      var i :| 0 <= i < |l| && Shows(l, i, t, epoch, d) && m[d] == SegmentAt(l, i).sequence;
      ShownIsVisible(store, cell, edgeType, src, epoch, l, t, i, d);
    }
    forall d, n | Visible(store, cell, edgeType, src, epoch, d, n) ensures d in m && n <= m[d] {
      var i := VisibleIsShown(store, cell, edgeType, src, epoch, l, t, d, n);
    }
  }

  /** `out_segment_edges_for_src_txn`: tombstones first, then segments with the
      early break. On every well-formed store it returns exactly the visible
      destinations with their largest visible sequences. */
  method OutSegmentEdges(store: Store, cell: string, edgeType: string, src: U64, epoch: U64)
    returns (r: Result<map<U64, U64>>)
    requires ValidComponent(cell) && ValidComponent(edgeType)
    ensures WellFormed(store) ==> r.Ok? && IsEdgeMap(store, cell, edgeType, src, epoch, r.value)
  {
    hide *;
    var buried := ScanRecords(store, ScanPrefix(Tombstone, cell, edgeType, [src]));
    var tombstones := ScanTombstones(buried, cell, edgeType, src, epoch);
    if WellFormed(store) {
      TombstoneScan(store, cell, edgeType, src, buried);
      ScanAscends(store, ScanPrefix(Tombstone, cell, edgeType, [src]), buried);
    }
    if tombstones.Err? { return Err(tombstones.error); }
    var records := ScanRecords(store, ScanPrefix(Segment, cell, edgeType, [src]));
    r := ScanSegments(records, tombstones.value, epoch);
    if WellFormed(store) {
      SegmentScan(store, cell, edgeType, src, records);
      forall d ensures Lookup(tombstones.value, d) == TombstoneOf(store, cell, edgeType, src, d, epoch) {
        TombstonesMean(store, cell, edgeType, src, epoch, buried, tombstones.value, d);
      }
      BestIsEdgeMap(store, cell, edgeType, src, epoch, records, tombstones.value, r.value);
    }
  }

  // Neighbour sets and point look-ups.

  /** The edge exists for a reader at `epoch`: as a single record, or visible in
      some segment. */
  ghost predicate HasEdge(store: Store, cell: string, edgeType: string, src: U64, dst: U64, epoch: U64) {
    || OutEdgeKey(cell, edgeType, src, dst) in store
    || exists n: U64 :: Visible(store, cell, edgeType, src, epoch, dst, n)
  }

  lemma EdgeEntry(store: Store, cell: string, edgeType: string, src: U64, p: Pair) returns (dst: U64)
    requires WellFormed(store) && ValidComponent(cell) && ValidComponent(edgeType)
    requires ScanPrefix(OutEdge, cell, edgeType, [src]) <= p.key && p.key in store && store[p.key] == p.value
    ensures p.key == OutEdgeKey(cell, edgeType, src, dst)
    ensures DecodeEdge(p.key, p.value) == Ok(EdgeId(cell, edgeType, src, dst))
  {
    var k := ScannedKey(store, OutEdge, cell, edgeType, src, p.key);
    hide Format;
    hide ScanPrefix;
    hide ParseEdgeRecordKey;
    ParsersInvert(k);
    PairOf(k.nums, src);
    dst := k.nums[1];
    assert k == GraphKey(OutEdge, cell, edgeType, [src, dst], []);
  }

  method ScanEdges(l: seq<Pair>) returns (r: Result<set<U64>>)
    ensures (forall i :: 0 <= i < |l| ==> DecodeEdge(l[i].key, l[i].value).Ok?) ==>
              r.Ok? && forall d :: d in r.value <==>
                                     exists i :: 0 <= i < |l| && DecodeEdge(l[i].key, l[i].value).value.dst == d
  {
    hide DecodeEdge;
    var neighbors: set<U64> := {};
    for i := 0 to |l|
      invariant forall k :: 0 <= k < i ==> DecodeEdge(l[k].key, l[k].value).Ok?
      invariant forall d :: d in neighbors <==>
                              exists k :: 0 <= k < i && DecodeEdge(l[k].key, l[k].value).value.dst == d
    {
      var record := DecodeEdge(l[i].key, l[i].value);
      if record.Err? { return Err(record.error); }
      neighbors := neighbors + {record.value.dst};
    }
    r := Ok(neighbors);
  }

  lemma EdgeScan(store: Store, cell: string, edgeType: string, src: U64, l: seq<Pair>)
    requires WellFormed(store) && ValidComponent(cell) && ValidComponent(edgeType)
    requires IsScan(store, ScanPrefix(OutEdge, cell, edgeType, [src]), l)
    ensures forall i :: 0 <= i < |l| ==> DecodeEdge(l[i].key, l[i].value).Ok?
    ensures forall d: U64 :: (exists i :: 0 <= i < |l| && DecodeEdge(l[i].key, l[i].value).value.dst == d)
                             <==> OutEdgeKey(cell, edgeType, src, d) in store
  {
    hide WellFormed, ScanPrefix, OutEdgeKey, DecodeEdge, Lexicographic.Less;
    forall i | 0 <= i < |l|
      ensures DecodeEdge(l[i].key, l[i].value).Ok?
                && OutEdgeKey(cell, edgeType, src, DecodeEdge(l[i].key, l[i].value).value.dst) == l[i].key
    {
      var dst := EdgeEntry(store, cell, edgeType, src, l[i]);
    }
    forall d: U64 | OutEdgeKey(cell, edgeType, src, d) in store
      ensures exists i :: 0 <= i < |l| && DecodeEdge(l[i].key, l[i].value).value.dst == d
    {
      var key := OutEdgeKey(cell, edgeType, src, d);
      EdgeKeyFacts(cell, edgeType, src, d);
      assert Pair(key, store[key]) in l;
      var i :| 0 <= i < |l| && l[i] == Pair(key, store[key]);
      EdgeRecordIs(store, cell, edgeType, src, d, l[i].key);
    }
  }

  lemma EdgeRecordIs(store: Store, cell: string, edgeType: string, src: U64, d: U64, key: Key)
    requires WellFormed(store) && ValidComponent(cell) && ValidComponent(edgeType)
    requires key == OutEdgeKey(cell, edgeType, src, d) && key in store
    ensures DecodeEdge(key, store[key]) == Ok(EdgeId(cell, edgeType, src, d))
  {
    hide WellFormed, ScanPrefix, OutEdgeKey, ParseEdgeRecordKey;
    EdgeKeyFacts(cell, edgeType, src, d);
    var dst := EdgeEntry(store, cell, edgeType, src, Pair(key, store[key]));
  }

  /** `out_neighbors_for_src_txn`: exactly the destinations with an edge. */
  method OutNeighbors(store: Store, cell: string, edgeType: string, src: U64, epoch: U64) returns (r: Result<set<U64>>)
    requires ValidComponent(cell) && ValidComponent(edgeType)
    ensures WellFormed(store) ==> r.Ok? && forall d :: d in r.value <==> HasEdge(store, cell, edgeType, src, d, epoch)
  {
    hide WellFormed, ScanPrefix, OutEdgeKey, DecodeEdge, IsScan, Visible;
    var records := ScanRecords(store, ScanPrefix(OutEdge, cell, edgeType, [src]));
    var single := ScanEdges(records);
    if WellFormed(store) { EdgeScan(store, cell, edgeType, src, records); }
    if single.Err? { return Err(single.error); }
    var segments := OutSegmentEdges(store, cell, edgeType, src, epoch);
    if segments.Err? { return Err(segments.error); }
    r := Ok(single.value + segments.value.Keys);
  }

  /** `edge_epoch_at_txn`: the reader's epoch for a single record, else the
      largest visible sequence. */
  method EdgeEpochAt(store: Store, cell: string, edgeType: string, src: U64, dst: U64, epoch: U64)
    returns (r: Result<Option<U64>>)
    requires ValidComponent(cell) && ValidComponent(edgeType)
    ensures WellFormed(store) ==> r.Ok? && (r.value.Some? <==> HasEdge(store, cell, edgeType, src, dst, epoch))
    ensures WellFormed(store) && r.value.Some? ==> r.value.value <= epoch
    ensures WellFormed(store) && OutEdgeKey(cell, edgeType, src, dst) in store ==> r.value == Some(epoch)
    ensures WellFormed(store) && OutEdgeKey(cell, edgeType, src, dst) !in store && r.value.Some? ==>
              && Visible(store, cell, edgeType, src, epoch, dst, r.value.value)
              && forall n: U64 :: Visible(store, cell, edgeType, src, epoch, dst, n) ==> n <= r.value.value
  {
    hide WellFormed, OutEdgeKey, DecodeEdge, Lists, TombstoneOf;
    var key := OutEdgeKey(cell, edgeType, src, dst);
    if key in store {
      if WellFormed(store) { EdgeRecordIs(store, cell, edgeType, src, dst, key); }
      var record := DecodeEdge(key, store[key]);
      if record.Err? { return Err(record.error); }
      return Ok(Some(epoch));
    }
    var segments := OutSegmentEdges(store, cell, edgeType, src, epoch);
    if segments.Err? { return Err(segments.error); }
    r := Ok(Lookup(segments.value, dst));
  }
}
