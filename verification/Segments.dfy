/** Outbound adjacency as stored: single edge records, batched segments and the
    tombstones that hide older segment entries. */
module Segments {
  import opened Basics
  import opened Binary
  import opened WriteBatch
  import opened Keys
  import opened Scan
  import Numerals
  import Lexicographic

  // Record codecs.

  const EDGE_RECORD: string := "graph-edge\n"
  const SEGMENT_TAG: string := "graph-out-segment\n"

  function EdgeRecord(): Bytes { AsciiBytes(EDGE_RECORD) }

  function DecodeU64(value: Bytes): Result<U64> {
    if |value| == 8 then Ok(U64FromBe(value)) else Err(CorruptValue)
  }

  function EncodeSegment(destinations: seq<U64>): Bytes {
    AsciiBytes(SEGMENT_TAG) + Be(|destinations|, 8) + BeAll(destinations)
  }

  /** The destinations of a segment record. A count whose byte length overflows
      disagrees with the length of any value. */
  function SegmentBody(value: Bytes): Result<seq<U64>> {
    var tag := AsciiBytes(SEGMENT_TAG);
    if !(tag <= value) then Err(CorruptValue)
    else
      var body := value[|tag|..];
      if |body| < 8 then Err(CorruptValue)
      else if |body| - 8 != 8 * U64FromBe(body[..8]) then Err(CorruptValue)
      else Ok(AllFromBe(body[8..]))
  }

  datatype OutEdgeSegment = OutEdgeSegment(cell: string, edgeType: string, src: U64, sequence: U64,
      destinations: seq<U64>)

  function DecodeSegment(key: Key, value: Bytes): Result<OutEdgeSegment> {
    var (cell, edgeType, src, sequence) :- ParseSegmentKey(key);
    var destinations :- SegmentBody(value);
    Ok(OutEdgeSegment(cell, edgeType, src, sequence, destinations))
  }

  function DecodeEdge(key: Key, value: Bytes): Result<EdgeId> {
    if value != EdgeRecord() then Err(CorruptValue) else ParseEdgeRecordKey(key)
  }

  lemma SegmentRoundTrip(destinations: seq<U64>)
    requires |destinations| <= U64_MAX
    ensures SegmentBody(EncodeSegment(destinations)) == Ok(destinations)
  {
    var tag, count, rest := AsciiBytes(SEGMENT_TAG), Be(|destinations|, 8), BeAll(destinations);
    var value := EncodeSegment(destinations);
    assert value[|tag|..] == count + rest;
    assert (count + rest)[..8] == count && (count + rest)[8..] == rest;
    U64BeRoundTrip(|destinations|);
    BeAllRoundTrip(destinations);
  }

  // What the store means.

  ghost predicate IsSegmentRecord(store: Store, key: Key, cell: string, edgeType: string, src: U64, sequence: U64) {
    key in store && exists id :: ValidComponent(id) && key == OutSegmentKey(cell, edgeType, src, sequence, id)
  }

  /** Some segment with this sequence lists `dst`. */
  ghost predicate Lists(store: Store, cell: string, edgeType: string, src: U64, sequence: U64, dst: U64) {
    exists key :: IsSegmentRecord(store, key, cell, edgeType, src, sequence)
                  && SegmentBody(store[key]).Ok? && dst in SegmentBody(store[key]).value
  }

  /** The tombstone epoch over `dst` that a reader at `epoch` sees. */
  function TombstoneOf(store: Store, cell: string, edgeType: string, src: U64, dst: U64, epoch: U64): Option<U64> {
    var key := TombstoneKey(cell, edgeType, src, dst);
    if key in store && |store[key]| == 8 && U64FromBe(store[key]) <= epoch then Some(U64FromBe(store[key])) else None
  }

  predicate SegmentEdgeVisible(sequence: nat, tombstone: Option<nat>) {
    tombstone.Some? ==> sequence > tombstone.value
  }

  /** A reader at `epoch` sees the edge to `dst` written at `sequence`. */
  ghost predicate Visible(store: Store, cell: string, edgeType: string, src: U64, epoch: U64, dst: U64, sequence: U64) {
    && sequence <= epoch
    && Lists(store, cell, edgeType, src, sequence, dst)
    && SegmentEdgeVisible(sequence, TombstoneOf(store, cell, edgeType, src, dst, epoch))
  }

  /** No tombstone, or one of a later epoch. */
  predicate LaterTombstone(store: Store, key: Key, epoch: U64) {
    key in store ==> |store[key]| == 8 && U64FromBe(store[key]) > epoch
  }

  /** The stores differ in segments and tombstones of later epochs only. */
  ghost predicate SameUpto(a: Store, b: Store, cell: string, edgeType: string, src: U64, epoch: U64) {
    && (forall sequence: U64, id: string :: sequence <= epoch && ValidComponent(id) ==>
          var key := OutSegmentKey(cell, edgeType, src, sequence, id);
          (key in a <==> key in b) && (key in a ==> a[key] == b[key]))
    && (forall dst: U64 ::
          var key := TombstoneKey(cell, edgeType, src, dst);
          || (LaterTombstone(a, key, epoch) && LaterTombstone(b, key, epoch))
          || (key in a && key in b && a[key] == b[key]))
  }

  /** What a reader at an epoch sees of the segments is not touched by later writes. */
  lemma LaterWritesUnseen(a: Store, b: Store, cell: string, edgeType: string, src: U64, epoch: U64, dst: U64, n: U64)
    requires SameUpto(a, b, cell, edgeType, src, epoch)
    ensures Visible(a, cell, edgeType, src, epoch, dst, n) <==> Visible(b, cell, edgeType, src, epoch, dst, n)
  {
    hide OutSegmentKey, TombstoneKey, SegmentBody;
    if n <= epoch {
      if Lists(a, cell, edgeType, src, n, dst) { ListsSame(a, b, cell, edgeType, src, epoch, dst, n); }
      if Lists(b, cell, edgeType, src, n, dst) { ListsSame(b, a, cell, edgeType, src, epoch, dst, n); }
    }
    hide Lists;
    var key := TombstoneKey(cell, edgeType, src, dst);
    assert || (LaterTombstone(a, key, epoch) && LaterTombstone(b, key, epoch))
           || (key in a && key in b && a[key] == b[key]);
  }

  lemma ListsSame(a: Store, b: Store, cell: string, edgeType: string, src: U64, epoch: U64, dst: U64, n: U64)
    requires n <= epoch && Lists(a, cell, edgeType, src, n, dst)
    requires SameUpto(a, b, cell, edgeType, src, epoch) || SameUpto(b, a, cell, edgeType, src, epoch)
    ensures Lists(b, cell, edgeType, src, n, dst)
  {
    hide OutSegmentKey, TombstoneKey, SegmentBody, LaterTombstone;
    var key :| IsSegmentRecord(a, key, cell, edgeType, src, n)
        && SegmentBody(a[key]).Ok? && dst in SegmentBody(a[key]).value;
    assert IsSegmentRecord(b, key, cell, edgeType, src, n) && a[key] == b[key];
  }

  /** `m` maps every destination with a visible segment entry, and no other, to
      its largest visible sequence. */
  ghost predicate IsEdgeMap(store: Store, cell: string, edgeType: string, src: U64, epoch: U64, m: map<U64, U64>) {
    && (forall d :: d in m ==> Visible(store, cell, edgeType, src, epoch, d, m[d]))
    && (forall d, n :: Visible(store, cell, edgeType, src, epoch, d, n) ==> d in m && n <= m[d])
  }

  /** A key of another kind than the three scanned here. */
  ghost predicate Unrelated(key: Key) {
    forall f: Family, cell: string, edgeType: string, src: U64 ::
      f in {OutEdge, Segment, Tombstone} && ValidComponent(cell) && ValidComponent(edgeType) ==>
        !(ScanPrefix(f, cell, edgeType, [src]) <= key)
  }

  ghost predicate ValueFits(f: Family, value: Bytes) {
    match f
    case OutEdge => value == EdgeRecord()
    case Segment => SegmentBody(value).Ok?
    case Tombstone => |value| == 8
    case _ => true
  }

  /** Every scanned record was written by the key builders and value encoders. */
  ghost predicate WellFormed(store: Store) {
    forall key :: key in store ==>
        Unrelated(key) || exists k :: ValidKey(k) && Format(k) == key && ValueFits(k.family, store[key])
  }

  // The typed view of a scan.

  ghost predicate Decodes(p: Pair) { DecodeSegment(p.key, p.value).Ok? }

  ghost predicate AllDecode(l: seq<Pair>) {
    forall i :: 0 <= i < |l| ==> Decodes(l[i])
  }

  ghost function SegmentAt(l: seq<Pair>, i: nat): OutEdgeSegment
    requires i < |l| && Decodes(l[i])
  {
    DecodeSegment(l[i].key, l[i].value).value
  }

  ghost predicate SequencesAscend(l: seq<Pair>)
    requires AllDecode(l)
  {
    forall i, j :: 0 <= i < j < |l| ==> SegmentAt(l, i).sequence <= SegmentAt(l, j).sequence
  }

  /** The key behind a scanned record. */
  lemma ScannedKey(store: Store, f: Family, cell: string, edgeType: string, src: U64, key: Key) returns (k: GraphKey)
    requires WellFormed(store) && ValidComponent(cell) && ValidComponent(edgeType)
    requires f in {OutEdge, Segment, Tombstone} && key in store && ScanPrefix(f, cell, edgeType, [src]) <= key
    ensures ValidKey(k) && Format(k) == key && ValueFits(f, store[key])
    ensures k.family == f && k.cell == cell && k.edgeType == edgeType && k.nums[0] == src
  {
    hide Format;
    hide ScanPrefix;
    hide SegmentBody;
    assert !Unrelated(key);
    k :| ValidKey(k) && Format(k) == key && ValueFits(k.family, store[key]);
    ScanPrefixExact(f, cell, edgeType, [src], k);
    assert [src] <= k.nums;
  }

  lemma PairOf(nums: seq<U64>, a: U64)
    requires |nums| == 2 && nums[0] == a
    ensures nums == [a, nums[1]]
  {
  }

  lemma SegmentEntry(store: Store, cell: string, edgeType: string, src: U64, p: Pair) returns (k: GraphKey)
    requires WellFormed(store) && ValidComponent(cell) && ValidComponent(edgeType)
    requires ScanPrefix(Segment, cell, edgeType, [src]) <= p.key && p.key in store && store[p.key] == p.value
    ensures ValidKey(k) && Format(k) == p.key && k.family == Segment && k.cell == cell && k.edgeType == edgeType
    ensures k.nums == [src, k.nums[1]] && k.tail == [k.tail[0]] && ValidComponent(k.tail[0])
    ensures SegmentBody(p.value).Ok?
    ensures DecodeSegment(p.key, p.value)
              == Ok(OutEdgeSegment(cell, edgeType, src, k.nums[1], SegmentBody(p.value).value))
    ensures IsSegmentRecord(store, p.key, cell, edgeType, src, k.nums[1])
  {
    k := ScannedKey(store, Segment, cell, edgeType, src, p.key);
    hide Format;
    hide ScanPrefix;
    hide SegmentBody;
    hide ParseSegmentKey;
    ParsersInvert(k);
    PairOf(k.nums, src);
    assert k.tail[0] in k.tail;
    assert k == GraphKey(Segment, cell, edgeType, [src, k.nums[1]], [k.tail[0]]);
    assert p.key == OutSegmentKey(cell, edgeType, src, k.nums[1], k.tail[0]);
  }

  /** Key order makes the sequences of one source ascend. */
  lemma SequencesInOrder(a: GraphKey, b: GraphKey)
    requires ValidKey(a) && ValidKey(b) && a.family == b.family == Segment
    requires a.cell == b.cell && a.edgeType == b.edgeType && a.nums[0] == b.nums[0]
    requires Lexicographic.Less(Format(a), Format(b))
    ensures a.nums[1] <= b.nums[1]
  {
    hide Format;
    hide Lexicographic.Less;
    KeyOrder(a, b);
    assert |a.nums| == |b.nums| == 2 by { assert ValidKey(a) && ValidKey(b); }
    var x, y := a.nums[1..], b.nums[1..];
    assert Before(a.nums, a.tail, b.nums, b.tail) ==> a.nums == b.nums || NumsLess(x, y);
    assert NumsLess(x, y) ==> x[0] <= y[0];
  }

  lemma SegmentScan(store: Store, cell: string, edgeType: string, src: U64, l: seq<Pair>)
    requires WellFormed(store) && ValidComponent(cell) && ValidComponent(edgeType)
    requires IsScan(store, ScanPrefix(Segment, cell, edgeType, [src]), l)
    ensures AllDecode(l) && SequencesAscend(l)
    ensures forall i :: 0 <= i < |l| ==> IsSegmentRecord(store, l[i].key, cell, edgeType, src, SegmentAt(l, i).sequence)
  {
    hide WellFormed, Format, ScanPrefix, DecodeSegment, Lexicographic.Less, IsSegmentRecord, ValidKey;
    forall i | 0 <= i < |l|
      ensures Decodes(l[i]) && IsSegmentRecord(store, l[i].key, cell, edgeType, src, SegmentAt(l, i).sequence)
    {
      var k := SegmentEntry(store, cell, edgeType, src, l[i]);
    }
    forall i, j | 0 <= i < j < |l| ensures SegmentAt(l, i).sequence <= SegmentAt(l, j).sequence {
      var a := SegmentEntry(store, cell, edgeType, src, l[i]);
      var b := SegmentEntry(store, cell, edgeType, src, l[j]);
      SequencesInOrder(a, b);
    }
  }

  // The scanning loops.

  function Lookup(m: map<U64, U64>, k: U64): Option<U64> { if k in m then Some(m[k]) else None }

  /** Record `i` of the scan shows destination `d` to a reader at `epoch`. */
  ghost predicate Shows(l: seq<Pair>, i: nat, tombstones: map<U64, U64>, epoch: U64, d: U64) {
    && i < |l| && Decodes(l[i])
    && SegmentAt(l, i).sequence <= epoch
    && d in SegmentAt(l, i).destinations
    && SegmentEdgeVisible(SegmentAt(l, i).sequence, Lookup(tombstones, d))
  }

  /** `m` is right for the first `n` records. */
  ghost predicate Best(l: seq<Pair>, n: nat, tombstones: map<U64, U64>, epoch: U64, m: map<U64, U64>)
    requires n <= |l|
  {
    && (forall d :: d in m ==>
        exists i :: 0 <= i < n && Shows(l, i, tombstones, epoch, d) && m[d] == SegmentAt(l, i).sequence)
    && (forall i, d :: 0 <= i < n && Shows(l, i, tombstones, epoch, d) ==> d in m && SegmentAt(l, i).sequence <= m[d])
  }

  ghost predicate ShownBy(segment: OutEdgeSegment, tombstones: map<U64, U64>, d: U64) {
    d in segment.destinations && SegmentEdgeVisible(segment.sequence, Lookup(tombstones, d))
  }

  /** `r` is `m` with the sequences of the shown destinations raised. */
  ghost predicate Raised(m: map<U64, U64>, segment: OutEdgeSegment, tombstones: map<U64, U64>, r: map<U64, U64>) {
    && (forall d :: d in r <==> d in m || ShownBy(segment, tombstones, d))
    && (forall d :: d in r && !ShownBy(segment, tombstones, d) ==> r[d] == m[d])
    && (forall d :: d in r && ShownBy(segment, tombstones, d) ==>
          r[d] == if d in m then Max(m[d], segment.sequence) else segment.sequence)
  }

  /** The inner loop over one segment's destinations. */
  method Raise(edges: map<U64, U64>, segment: OutEdgeSegment, tombstones: map<U64, U64>) returns (r: map<U64, U64>)
    ensures Raised(edges, segment, tombstones, r)
  {
    r := edges;
    for i := 0 to |segment.destinations|
      invariant Raised(edges, segment.(destinations := segment.destinations[..i]), tombstones, r)
    {
      var dst := segment.destinations[i];
      assert segment.destinations[..i + 1] == segment.destinations[..i] + [dst];
      if SegmentEdgeVisible(segment.sequence, Lookup(tombstones, dst)) {
        r := r[dst := if dst in r then Max(r[dst], segment.sequence) else segment.sequence];
      }
    }
    assert segment.destinations[..|segment.destinations|] == segment.destinations;
  }

  lemma RaiseBest(l: seq<Pair>, n: nat, tombstones: map<U64, U64>, epoch: U64, m: map<U64, U64>, r: map<U64, U64>)
    requires n < |l| && Decodes(l[n]) && SegmentAt(l, n).sequence <= epoch && Best(l, n, tombstones, epoch, m)
    requires Raised(m, SegmentAt(l, n), tombstones, r)
    ensures Best(l, n + 1, tombstones, epoch, r)
  {
    hide DecodeSegment;
    var segment := SegmentAt(l, n);
    assert forall d :: Shows(l, n, tombstones, epoch, d) <==> ShownBy(segment, tombstones, d);
    hide ShownBy, Decodes, SegmentAt;
    forall d | d in r
      ensures exists i :: 0 <= i < n + 1 && Shows(l, i, tombstones, epoch, d) && r[d] == SegmentAt(l, i).sequence
    {
      if ShownBy(segment, tombstones, d) && r[d] == segment.sequence {
        assert Shows(l, n, tombstones, epoch, d);
      } else {
        assert d in m && r[d] == m[d];
        var i :| 0 <= i < n && Shows(l, i, tombstones, epoch, d) && m[d] == SegmentAt(l, i).sequence;
      }
    }
  }

  /** Stopping at the first later sequence loses nothing. */
  lemma BreakLosesNothing(l: seq<Pair>, n: nat, tombstones: map<U64, U64>, epoch: U64, m: map<U64, U64>)
    requires AllDecode(l) && SequencesAscend(l) && n < |l| && SegmentAt(l, n).sequence > epoch
    requires Best(l, n, tombstones, epoch, m)
    ensures Best(l, |l|, tombstones, epoch, m)
  {
    hide SegmentAt, Decodes, SegmentEdgeVisible, Lookup;
    forall i, d | 0 <= i < |l| && Shows(l, i, tombstones, epoch, d) ensures d in m && SegmentAt(l, i).sequence <= m[d] {
      assert i < n;
    }
  }

  /** The segment loop with its early `break`. */
  method ScanSegments(l: seq<Pair>, tombstones: map<U64, U64>, epoch: U64) returns (r: Result<map<U64, U64>>)
    ensures AllDecode(l) && SequencesAscend(l) ==> r.Ok? && Best(l, |l|, tombstones, epoch, r.value)
  {
    hide DecodeSegment;
    var edges: map<U64, U64> := map[];
    for i := 0 to |l|
      invariant AllDecode(l) ==> Best(l, i, tombstones, epoch, edges)
    {
      var segment := DecodeSegment(l[i].key, l[i].value);
      if segment.Err? {
        assert !Decodes(l[i]);
        return Err(segment.error);
      }
      if segment.value.sequence > epoch {
        if AllDecode(l) && SequencesAscend(l) { BreakLosesNothing(l, i, tombstones, epoch, edges); }
        return Ok(edges);
      }
      var raised := Raise(edges, segment.value, tombstones);
      if AllDecode(l) { RaiseBest(l, i, tombstones, epoch, edges, raised); }
      edges := raised;
    }
    r := Ok(edges);
  }

  // Tombstones.

  lemma TombstoneEntry(store: Store, cell: string, edgeType: string, src: U64, p: Pair) returns (dst: U64)
    requires WellFormed(store) && ValidComponent(cell) && ValidComponent(edgeType)
    requires ScanPrefix(Tombstone, cell, edgeType, [src]) <= p.key && p.key in store && store[p.key] == p.value
    ensures p.key == TombstoneKey(cell, edgeType, src, dst) && |p.value| == 8
    ensures ParseTombstoneKey(p.key) == Ok(EdgeId(cell, edgeType, src, dst))
  {
    var k := ScannedKey(store, Tombstone, cell, edgeType, src, p.key);
    hide Format;
    hide ScanPrefix;
    hide ParseTombstoneKey;
    ParsersInvert(k);
    PairOf(k.nums, src);
    dst := k.nums[1];
    assert k == GraphKey(Tombstone, cell, edgeType, [src, dst], []);
  }

  lemma TombstoneKeyFacts(cell: string, edgeType: string, src: U64, dst: U64)
    requires ValidComponent(cell) && ValidComponent(edgeType)
    ensures ScanPrefix(Tombstone, cell, edgeType, [src]) <= TombstoneKey(cell, edgeType, src, dst)
    ensures ParseTombstoneKey(TombstoneKey(cell, edgeType, src, dst)) == Ok(EdgeId(cell, edgeType, src, dst))
  {
    hide Format;
    hide ScanPrefix;
    hide ParseTombstoneKey;
    var k := GraphKey(Tombstone, cell, edgeType, [src, dst], []);
    ScanPrefixExact(Tombstone, cell, edgeType, [src], k);
    ParsersInvert(k);
  }

  predicate DecodesBy(value: Bytes, epoch: U64) { DecodeU64(value).Ok? && DecodeU64(value).value <= epoch }

  /** `t` is right for the first `n` records. */
  ghost predicate Buried(l: seq<Pair>, n: nat, cell: string, edgeType: string, src: U64, epoch: U64, t: map<U64, U64>)
    requires n <= |l|
  {
    && (forall d :: d in t ==> exists i ::
          0 <= i < n && l[i].key == TombstoneKey(cell, edgeType, src, d) && DecodeU64(l[i].value) == Ok(t[d])
              && t[d] <= epoch)
    && (forall i, d ::
          0 <= i < n && l[i].key == TombstoneKey(cell, edgeType, src, d) && DecodesBy(l[i].value, epoch) ==> d in t)
  }

  ghost predicate TombstonesDecode(l: seq<Pair>, cell: string, edgeType: string, src: U64) {
    forall i :: 0 <= i < |l| ==>
      && ParseTombstoneKey(l[i].key).Ok?
      && var id := ParseTombstoneKey(l[i].key).value;
         && id == EdgeId(cell, edgeType, src, id.dst)
         && l[i].key == TombstoneKey(cell, edgeType, src, id.dst)
         && |l[i].value| == 8
  }

  lemma BuryNext(l: seq<Pair>, n: nat, cell: string, edgeType: string, src: U64, epoch: U64, t: map<U64, U64>,
                 dst: U64, at: U64)
    requires ValidComponent(cell) && ValidComponent(edgeType)
    requires n < |l| && KeysAscend(l) && Buried(l, n, cell, edgeType, src, epoch, t)
    requires l[n].key == TombstoneKey(cell, edgeType, src, dst) && DecodeU64(l[n].value) == Ok(at)
    ensures Buried(l, n + 1, cell, edgeType, src, epoch, if at <= epoch then t[dst := at] else t)
  {
    hide TombstoneKey, Lexicographic.Less, DecodeU64;
    forall i, d | 0 <= i < n && l[i].key == TombstoneKey(cell, edgeType, src, d) ensures d != dst {
      Lexicographic.Irreflexive(l[n].key);
    }
    forall d | l[n].key == TombstoneKey(cell, edgeType, src, d) ensures d == dst {
      TombstoneKeyFacts(cell, edgeType, src, d);
      TombstoneKeyFacts(cell, edgeType, src, dst);
    }
  }

  method ScanTombstones(l: seq<Pair>, cell: string, edgeType: string, src: U64, epoch: U64)
    returns (r: Result<map<U64, U64>>)
    requires ValidComponent(cell) && ValidComponent(edgeType)
    ensures TombstonesDecode(l, cell, edgeType, src) && KeysAscend(l) ==>
              r.Ok? && Buried(l, |l|, cell, edgeType, src, epoch, r.value)
  {
    hide ParseTombstoneKey, TombstoneKey, Lexicographic.Less;
    var tombstones: map<U64, U64> := map[];
    for i := 0 to |l|
      invariant TombstonesDecode(l, cell, edgeType, src) && KeysAscend(l) ==>
                Buried(l, i, cell, edgeType, src, epoch, tombstones)
    {
      var parsed := ParseTombstoneKey(l[i].key);
      if parsed.Err? { return Err(parsed.error); }
      var id := parsed.value;
      if id.cell != cell || id.edgeType != edgeType || id.src != src { return Err(CorruptValue); }
      var at := DecodeU64(l[i].value);
      if at.Err? { return Err(at.error); }
      if TombstonesDecode(l, cell, edgeType, src) && KeysAscend(l) {
        BuryNext(l, i, cell, edgeType, src, epoch, tombstones, id.dst, at.value);
      }
      if at.value <= epoch {
        tombstones := tombstones[id.dst := at.value];
      }
    }
    r := Ok(tombstones);
  }

  lemma TombstoneScan(store: Store, cell: string, edgeType: string, src: U64, l: seq<Pair>)
    requires WellFormed(store) && ValidComponent(cell) && ValidComponent(edgeType)
    requires IsScan(store, ScanPrefix(Tombstone, cell, edgeType, [src]), l)
    ensures TombstonesDecode(l, cell, edgeType, src)
  {
    hide WellFormed, ScanPrefix, ParseTombstoneKey, TombstoneKey, Lexicographic.Less;
    forall i | 0 <= i < |l|
      ensures && ParseTombstoneKey(l[i].key).Ok?
              && var id := ParseTombstoneKey(l[i].key).value;
                 && id == EdgeId(cell, edgeType, src, id.dst)
                 && l[i].key == TombstoneKey(cell, edgeType, src, id.dst)
                 && |l[i].value| == 8
    {
      var dst := TombstoneEntry(store, cell, edgeType, src, l[i]);
    }
  }

  /** The collected tombstones are the ones a reader sees. */
  lemma TombstonesMean(store: Store, cell: string, edgeType: string, src: U64, epoch: U64, l: seq<Pair>,
                       t: map<U64, U64>, d: U64)
    requires ValidComponent(cell) && ValidComponent(edgeType)
    requires IsScan(store, ScanPrefix(Tombstone, cell, edgeType, [src]), l)
    requires Buried(l, |l|, cell, edgeType, src, epoch, t)
    ensures Lookup(t, d) == TombstoneOf(store, cell, edgeType, src, d, epoch)
  {
    hide ScanPrefix, TombstoneKey, Lexicographic.Less;
    var key := TombstoneKey(cell, edgeType, src, d);
    TombstoneKeyFacts(cell, edgeType, src, d);
    if key in store {
      assert Pair(key, store[key]) in l;
      var i :| 0 <= i < |l| && l[i] == Pair(key, store[key]);
      assert DecodeU64(l[i].value).Ok? <==> |store[key]| == 8;
    }
  }
}
