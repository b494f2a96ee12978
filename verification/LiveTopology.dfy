/** The edge records of one cell and edge type as builds scan them: single
    records, segment entries stamped with the sequence of their write, and
    tombstones over older entries. */
module LiveTopology {
  import opened Basics
  import opened Rows
  import opened Segments

  type Tombstones = map<Edge, nat>

  datatype Topology = Topology(singles: set<Edge>, segments: set<(Edge, nat)>, tombstones: Tombstones)

  const EMPTY: Topology := Topology({}, {}, map[])

  /** The tombstone over `e` that a reader at `epoch` keeps. */
  function TombstoneAt(tombstones: Tombstones, e: Edge, epoch: nat): Option<nat> {
    if e in tombstones && tombstones[e] <= epoch then Some(tombstones[e]) else None
  }

  predicate Shows(segments: set<(Edge, nat)>, tombstones: Tombstones, epoch: nat, p: (Edge, nat)) {
    p in segments && p.1 <= epoch && SegmentEdgeVisible(p.1, TombstoneAt(tombstones, p.0, epoch))
  }

  /** The rows that the segment scan pushes, given the tombstones scanned before. */
  ghost function SegmentEdges(segments: set<(Edge, nat)>, tombstones: Tombstones, epoch: nat): (r: set<Edge>)
    ensures forall e :: e in r <==> exists n: nat :: Shows(segments, tombstones, epoch, (e, n))
  {
    var r := set p | p in segments && Shows(segments, tombstones, epoch, p) :: p.0;
    assert forall e, n: nat :: Shows(segments, tombstones, epoch, (e, n)) ==> (e, n).0 in r;
    assert forall e :: e in r ==> exists p :: Shows(segments, tombstones, epoch, p) && p.0 == e && (e, p.1) == p;
    r
  }

  /** The edges a reader at `epoch` sees when all three scans read these records. */
  ghost function Visible(t: Topology, epoch: nat): set<Edge> {
    t.singles + SegmentEdges(t.segments, t.tombstones, epoch)
  }

  /** Nothing is stamped later than `n`. */
  ghost predicate Stamped(t: Topology, n: nat) {
    && (forall p :: p in t.segments ==> p.1 <= n)
    && (forall e :: e in t.tombstones ==> t.tombstones[e] <= n)
  }

  // What one write changes.

  /** The records one topology transaction puts and drops. Appending a segment
      entry drops its tombstone; burying one puts a tombstone. */
  datatype Mutation = Mutation(put: set<Edge>, drop: set<Edge>, append: set<Edge>, bury: set<Edge>)

  ghost function Mutated(t: Topology, m: Mutation, n: nat): Topology {
    Topology(t.singles - m.drop + m.put,
             t.segments + (set e | e in m.append :: (e, n)),
             t.tombstones - m.append + (map e | e in m.bury :: n))
  }

  lemma MutatedStamped(t: Topology, m: Mutation, n: nat)
    requires Stamped(t, n)
    ensures Stamped(Mutated(t, m, n), n)
  {
  }

  /** What is there after a transaction: what it put or appended, and what was
      there before and it neither dropped nor buried. */
  lemma MutatedVisible(t: Topology, m: Mutation, n: nat, e: Edge)
    requires Stamped(t, n) && m.append !! m.bury
    ensures e in Visible(Mutated(t, m, n + 1), n + 1) <==>
              || e in m.put || e in m.append
              || (e in t.singles && e !in m.drop)
              || (e in SegmentEdges(t.segments, t.tombstones, n) && e !in m.bury)
  {
    var u := Mutated(t, m, n + 1);
    assert e in m.append ==> ((e, n + 1) in u.segments && Shows(u.segments, u.tombstones, n + 1, (e, n + 1)));
    if k: nat :| Shows(t.segments, t.tombstones, n, (e, k)) {
      assert e !in m.bury ==> Shows(u.segments, u.tombstones, n + 1, (e, k));
    }
    if k: nat :| Shows(u.segments, u.tombstones, n + 1, (e, k)) {
      assert e !in m.bury;
      assert (e, k) in t.segments || e in m.append;
      assert e !in m.append ==> Shows(t.segments, t.tombstones, n, (e, k));
    }
  }

  /** Compaction of one source replaces its entries up to an epoch by one segment
      stamped with that epoch, holding what is visible there, and drops the
      tombstones it has applied. */
  predicate Gone(t: Topology, src: U64, through: nat, p: (Edge, nat)) {
    p in t.segments && p.0.0 == src && p.1 <= through
  }

  ghost function CompactedSegments(t: Topology, src: U64, through: nat): (r: set<(Edge, nat)>)
    ensures forall p :: p in r <==>
              || (p in t.segments && !Gone(t, src, through, p))
              || (p.0.0 == src && p.1 == through && exists n: nat :: Shows(t.segments, t.tombstones, through, (p.0, n)))
  {
    var merged := set e | e in SegmentEdges(t.segments, t.tombstones, through) && e.0 == src :: (e, through);
    var r := (set p | p in t.segments && !Gone(t, src, through, p)) + merged;
    assert forall e :: (e, through) in merged <==> e in SegmentEdges(t.segments, t.tombstones, through) && e.0 == src;
    assert forall p :: p in merged ==> p == (p.0, through);
    r
  }

  ghost function Compacted(t: Topology, src: U64, through: nat): Topology {
    Topology(t.singles,
             CompactedSegments(t, src, through),
             map e | e in t.tombstones && !(e.0 == src && t.tombstones[e] <= through) :: t.tombstones[e])
  }

  lemma CompactedStamped(t: Topology, src: U64, through: nat, n: nat)
    requires Stamped(t, n) && through <= n
    ensures Stamped(Compacted(t, src, through), n)
  {
  }

  /** Later epochs than anything stamped see the same. */
  lemma StampedVisible(t: Topology, n: nat, m: nat)
    requires Stamped(t, n) && n <= m
    ensures Visible(t, n) == Visible(t, m)
  {
    forall e
      ensures e in SegmentEdges(t.segments, t.tombstones, n) <==> e in SegmentEdges(t.segments, t.tombstones, m)
    {
      forall k: nat ensures Shows(t.segments, t.tombstones, n, (e, k)) <==> Shows(t.segments, t.tombstones, m, (e, k)) {
      }
    }
  }

  /** One edge under compaction: a reader no earlier than the compaction sees it
      as before. */
  lemma CompactedEdge(t: Topology, src: U64, through: nat, epoch: nat, e: Edge)
    requires through <= epoch
    ensures e in Visible(Compacted(t, src, through), epoch) <==> e in Visible(t, epoch)
  {
    var c := Compacted(t, src, through);
    if n: nat :| Shows(t.segments, t.tombstones, epoch, (e, n)) {
      if Gone(t, src, through, (e, n)) {
        assert Shows(t.segments, t.tombstones, through, (e, n));
        assert Shows(c.segments, c.tombstones, epoch, (e, through));
      } else {
        assert Shows(c.segments, c.tombstones, epoch, (e, n));
      }
    }
    if n: nat :| Shows(c.segments, c.tombstones, epoch, (e, n)) {
      if (e, n) in t.segments && !Gone(t, src, through, (e, n)) {
        assert Shows(t.segments, t.tombstones, epoch, (e, n));
      } else {
        var k: nat :| Shows(t.segments, t.tombstones, through, (e, k));
        assert Shows(t.segments, t.tombstones, epoch, (e, k));
      }
    }
  }

  /** So compaction changes nothing for readers at its epoch and after. */
  lemma CompactedVisible(t: Topology, src: U64, through: nat, epoch: nat)
    requires through <= epoch
    ensures Visible(Compacted(t, src, through), epoch) == Visible(t, epoch)
  {
    hide Visible, Compacted;
    forall e ensures e in Visible(Compacted(t, src, through), epoch) <==> e in Visible(t, epoch) {
      CompactedEdge(t, src, through, epoch, e);
    }
  }

  // Scans that are not of one moment.

  /** Tombstones scanned a while ago: those still there are the same, and no
      segment entry is hidden by one that is gone. */
  ghost predicate Torn(scanned: Tombstones, t: Topology) {
    && (forall e :: e in t.tombstones ==> e in scanned && scanned[e] == t.tombstones[e])
    && (forall p :: p in t.segments && p.0 in scanned && p.0 !in t.tombstones ==> scanned[p.0] < p.1)
  }

  lemma TornCompacted(scanned: Tombstones, t: Topology, src: U64, through: nat)
    requires Torn(scanned, t)
    ensures Torn(scanned, Compacted(t, src, through))
  {
    var c := Compacted(t, src, through);
    forall p | p in c.segments && p.0 in scanned && p.0 !in c.tombstones ensures scanned[p.0] < p.1 {
      if !(p in t.segments && !Gone(t, src, through, p)) {
        var n: nat :| Shows(t.segments, t.tombstones, through, (p.0, n));
      }
    }
  }

  /** The two scans then push what one look at the records shows. */
  lemma TornVisible(scanned: Tombstones, t: Topology, epoch: nat)
    requires Torn(scanned, t)
    ensures SegmentEdges(t.segments, scanned, epoch) == SegmentEdges(t.segments, t.tombstones, epoch)
  {
    forall e
      ensures e in SegmentEdges(t.segments, scanned, epoch) <==> e in SegmentEdges(t.segments, t.tombstones, epoch)
    {
      forall n: nat
        ensures Shows(t.segments, scanned, epoch, (e, n)) <==> Shows(t.segments, t.tombstones, epoch, (e, n))
      {
        assert (e, n) in t.segments ==> (e, n).0 == e;
      }
    }
  }
}
