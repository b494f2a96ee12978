/** Storage keys: slash-separated components with zero-padded numbers. */
module Keys {
  import opened Basics
  import opened Splitting
  import opened Numerals
  import Lexicographic

  predicate ComponentChar(c: char) {
    '0' <= c <= '9' || 'a' <= c <= 'z' || 'A' <= c <= 'Z' || c == '_' || c == '-' || c == '.'
  }

  /** What `validate_component` accepts. */
  predicate ValidComponent(s: string) {
    s != [] && forall c :: c in s ==> ComponentChar(c)
  }

  function ValidateComponent(s: string): Result<()> {
    if ValidComponent(s) then Ok(()) else Err(InvalidKeyComponent)
  }

  function ParseU64(s: string): Result<U64> {
    match ParseUnsigned(s, 10)
    case Some(n) => Ok(n)
    case None => Err(CorruptValue)
  }

  /** A list of numbers, all or nothing. */
  function ParseAllU64(parts: seq<string>): Result<seq<U64>> {
    if parts == [] then Ok([])
    else
      var n :- ParseU64(parts[0]);
      var rest :- ParseAllU64(parts[1..]);
      Ok([n] + rest)
  }

  /** Numbers as `Display` writes them. */
  function Decimal(n: U64): string { Digits(n, 10) }

  function Decimals(ns: seq<U64>): (r: seq<string>)
    ensures |r| == |ns| && forall i :: 0 <= i < |r| ==> r[i] == Decimal(ns[i])
  {
    seq(|ns|, i requires 0 <= i < |ns| => Decimal(ns[i]))
  }

  lemma {:induction false} ParseDecimals(ns: seq<U64>)
    ensures ParseAllU64(Decimals(ns)) == Ok(ns)
  {
    hide Digits, ParseUnsigned;
    if ns != [] {
      ParseDecimals(ns[1..]);
      ParseDigits(ns[0]);
      assert Decimals(ns)[1..] == Decimals(ns[1..]);
      assert [ns[0]] + ns[1..] == ns;
    }
  }

  function Path(parts: seq<string>): string
    requires parts != []
  {
    Join(parts, '/')
  }

  /** The numbered key families of one cell and edge type. */
  datatype Family = Edge | OutEdge | InEdge | Segment | Tombstone | Relationship | Xlog

  /** A key by what it means: `nums` are its numbers in key order, `tail` is the
      segment id of a segment key and empty for every other family. */
  datatype GraphKey = GraphKey(family: Family, cell: string, edgeType: string, nums: seq<U64>, tail: seq<string>)

  function Arity(f: Family): nat {
    match f
    case Relationship => 3
    case Xlog => 3
    case _ => 2
  }

  function Tags(f: Family): (r: seq<string>)
    ensures r != []
  {
    match f
    case Edge => ["edge"]
    case OutEdge => ["e", "out"]
    case InEdge => ["e", "in"]
    case Segment => ["seg", "out"]
    case Tombstone => ["seg", "tomb", "out"]
    case Relationship => ["rel"]
    case Xlog => ["xlog"]
  }

  predicate ValidKey(k: GraphKey) {
    && ValidComponent(k.cell) && ValidComponent(k.edgeType)
    && |k.nums| == Arity(k.family)
    && |k.tail| == (if k.family == Segment then 1 else 0)
    && forall t :: t in k.tail ==> ValidComponent(t)
  }

  function Pads(nums: seq<U64>): (r: seq<string>)
    ensures |r| == |nums| && forall i :: 0 <= i < |r| ==> r[i] == Pad20(nums[i])
  {
    seq(|nums|, i requires 0 <= i < |nums| => Pad20(nums[i]))
  }

  /** The components before the numbers. */
  function Head(f: Family, cell: string, edgeType: string): seq<string> {
    ["cell", cell] + Tags(f) + [edgeType]
  }

  function Parts(k: GraphKey): (r: seq<string>)
    ensures r != []
  {
    Head(k.family, k.cell, k.edgeType) + Pads(k.nums) + k.tail
  }

  function Format(k: GraphKey): string { Path(Parts(k)) }

  /** The scan prefix up to and including the first numbers. */
  function ScanPrefix(f: Family, cell: string, edgeType: string, nums: seq<U64>): string {
    Path(Head(f, cell, edgeType) + Pads(nums)) + "/"
  }

  function CellPrefix(cell: string): string { Path(["cell", cell]) + "/" }

  // The builders of keys.rs, by name.

  function OutEdgeKey(cell: string, edgeType: string, src: U64, dst: U64): string {
    Format(GraphKey(OutEdge, cell, edgeType, [src, dst], []))
  }

  function OutSegmentKey(cell: string, edgeType: string, src: U64, sequence: U64, segmentId: string): string {
    Format(GraphKey(Segment, cell, edgeType, [src, sequence], [segmentId]))
  }

  function TombstoneKey(cell: string, edgeType: string, src: U64, dst: U64): string {
    Format(GraphKey(Tombstone, cell, edgeType, [src, dst], []))
  }

  function XlogKey(cell: string, edgeType: string, sequence: U64, src: U64, dst: U64): string {
    Format(GraphKey(Xlog, cell, edgeType, [sequence, src, dst], []))
  }

  // Components never contain the separator.

  lemma ComponentFree(s: string, c: char)
    requires ValidComponent(s) && !ComponentChar(c)
    ensures c !in s
  {
  }

  lemma TagsFree(f: Family)
    ensures Free(Tags(f), '/')
  {
  }

  lemma HeadFree(f: Family, cell: string, edgeType: string)
    requires ValidComponent(cell) && ValidComponent(edgeType)
    ensures Free(Head(f, cell, edgeType), '/')
  {
    TagsFree(f);
    ComponentFree(cell, '/');
    ComponentFree(edgeType, '/');
    assert '/' !in "cell";
  }

  lemma PadsFree(nums: seq<U64>)
    ensures Free(Pads(nums), '/')
  {
    forall p | p in Pads(nums) ensures '/' !in p {
      var i :| 0 <= i < |nums| && Pads(nums)[i] == p;
      NumeralsAvoid(nums[i], '/');
    }
  }

  lemma PartsFree(k: GraphKey)
    requires ValidKey(k)
    ensures Free(Parts(k), '/')
  {
    HeadFree(k.family, k.cell, k.edgeType);
    PadsFree(k.nums);
    forall t | t in k.tail ensures '/' !in t { ComponentFree(t, '/'); }
  }

  lemma {:induction false} PadsInjective(a: seq<U64>, b: seq<U64>)
    requires Pads(a) == Pads(b)
    ensures a == b
  {
    assert |a| == |b|;
    forall i | 0 <= i < |a| ensures a[i] == b[i] {
      assert Pads(a)[i] == Pads(b)[i];
      Pad20Order(a[i], b[i]);
    }
  }

  /** The tags tell the families apart, and the head is as long as the tags. */
  lemma HeadPrefix(f: Family, c: string, t: string, g: Family, d: string, u: string, rest: seq<string>,
                   more: seq<string>)
    requires Head(f, c, t) + rest == Head(g, d, u) + more
    ensures f == g && c == d && t == u && rest == more
  {
    var a, b := Head(f, c, t) + rest, Head(g, d, u) + more;
    assert a[1] == c && b[1] == d;
    assert a[2] == Tags(f)[0] && b[2] == Tags(g)[0];
    assert |Tags(f)| > 1 ==> a[3] == Tags(f)[1];
    assert |Tags(g)| > 1 ==> b[3] == Tags(g)[1];
    assert f == g;
    var n := 2 + |Tags(f)|;
    assert a[n] == t && b[n] == u;
    assert a[n + 1..] == rest && b[n + 1..] == more;
  }

  lemma SplitFormat(k: GraphKey)
    requires ValidKey(k)
    ensures Split(Format(k), '/') == Parts(k)
  {
    PartsFree(k);
    SplitJoin(Parts(k), '/');
  }

  /** Distinct keys never collide, not even across families. */
  lemma FormatInjective(a: GraphKey, b: GraphKey)
    requires ValidKey(a) && ValidKey(b) && Format(a) == Format(b)
    ensures a == b
  {
    hide Head;
    hide Pads;
    hide Split;
    hide Format;
    SplitFormat(a);
    SplitFormat(b);
    var ra, rb := Pads(a.nums) + a.tail, Pads(b.nums) + b.tail;
    assert Parts(a) == Head(a.family, a.cell, a.edgeType) + ra;
    assert Parts(b) == Head(b.family, b.cell, b.edgeType) + rb;
    HeadPrefix(a.family, a.cell, a.edgeType, b.family, b.cell, b.edgeType, ra, rb);
    assert ra[..|a.nums|] == Pads(a.nums) && rb[..|b.nums|] == Pads(b.nums);
    assert ra[|a.nums|..] == a.tail && rb[|b.nums|..] == b.tail;
    PadsInjective(a.nums, b.nums);
  }

  // Key order is numeric order.

  predicate NumsLess(x: seq<U64>, y: seq<U64>)
    requires |x| == |y|
  {
    x != [] && (x[0] < y[0] || (x[0] == y[0] && NumsLess(x[1..], y[1..])))
  }

  predicate TailLess(s: seq<string>, t: seq<string>)
    requires |s| == |t| <= 1
  {
    s != [] && Lexicographic.Less(s[0], t[0])
  }

  /** Order of two sibling keys: by their numbers, then by segment id. */
  predicate Before(x: seq<U64>, s: seq<string>, y: seq<U64>, t: seq<string>)
    requires |x| == |y| && |s| == |t| <= 1
  {
    NumsLess(x, y) || (x == y && TailLess(s, t))
  }

  lemma PadsCons(x: seq<U64>, s: seq<string>)
    requires x != []
    ensures Pads(x) + s == [Pad20(x[0])] + (Pads(x[1..]) + s)
  {
    assert Pads(x)[1..] == Pads(x[1..]);
  }

  lemma HeadNumberOrder(a: U64, u: string, b: U64, v: string)
    ensures Lexicographic.Less(Pad20(a) + "/" + u, Pad20(b) + "/" + v)
       <==> a < b || (a == b && Lexicographic.Less(u, v))
  {
    hide Fixed;
    Pad20Order(a, b);
    Lexicographic.ConcatOrder(Pad20(a), "/" + u, Pad20(b), "/" + v);
    Lexicographic.CommonPrefix("/", u, v);
    assert Pad20(a) + "/" + u == Pad20(a) + ("/" + u);
    assert Pad20(b) + "/" + v == Pad20(b) + ("/" + v);
  }

  lemma {:induction false} NumbersOrder(x: seq<U64>, s: seq<string>, y: seq<U64>, t: seq<string>)
    requires |x| == |y| && |s| == |t| <= 1 && |x| + |s| > 0
    ensures Lexicographic.Less(Path(Pads(x) + s), Path(Pads(y) + t)) <==> Before(x, s, y, t)
  {
    hide Pad20;
    hide Lexicographic.Less;
    if x == [] {
      assert Pads(x) + s == s && Pads(y) + t == t;
    } else {
      PadsCons(x, s);
      PadsCons(y, t);
      assert x == [x[0]] + x[1..] && y == [y[0]] + y[1..];
      var restX, restY := Pads(x[1..]) + s, Pads(y[1..]) + t;
      if |x| + |s| == 1 {
        assert Pads(x) + s == [Pad20(x[0])] && Pads(y) + t == [Pad20(y[0])];
        assert Path([Pad20(x[0])]) == Pad20(x[0]) && Path([Pad20(y[0])]) == Pad20(y[0]);
        Pad20Order(x[0], y[0]);
        assert x[1..] == [] && !NumsLess(x[1..], y[1..]) && !TailLess(s, t);
      } else {
        NumbersOrder(x[1..], s, y[1..], t);
        JoinConcat([Pad20(x[0])], restX, '/');
        JoinConcat([Pad20(y[0])], restY, '/');
        HeadNumberOrder(x[0], Path(restX), y[0], Path(restY));
      }
    }
  }

  /** Within one family, cell and edge type, byte order of keys is the order of
      their numeric tuples. */
  lemma KeyOrder(a: GraphKey, b: GraphKey)
    requires ValidKey(a) && ValidKey(b)
    requires a.family == b.family && a.cell == b.cell && a.edgeType == b.edgeType
    ensures Lexicographic.Less(Format(a), Format(b)) <==> Before(a.nums, a.tail, b.nums, b.tail)
  {
    var head := Head(a.family, a.cell, a.edgeType);
    var ra, rb := Pads(a.nums) + a.tail, Pads(b.nums) + b.tail;
    assert Parts(a) == head + ra && Parts(b) == head + rb;
    JoinConcat(head, ra, '/');
    JoinConcat(head, rb, '/');
    NumbersOrder(a.nums, a.tail, b.nums, b.tail);
    Lexicographic.CommonPrefix(Path(head) + "/", Path(ra), Path(rb));
  }

  // Prefixes select exactly their own keys.

  lemma OwnPrefix(f: Family, cell: string, edgeType: string, nums: seq<U64>, k: GraphKey)
    requires ValidKey(k) && |nums| <= Arity(f)
    requires Head(f, cell, edgeType) + Pads(nums) < Parts(k)
    ensures k.family == f && k.cell == cell && k.edgeType == edgeType && nums <= k.nums
  {
    hide Head;
    hide Pads;
    var p := Head(f, cell, edgeType) + Pads(nums);
    var own := Pads(k.nums) + k.tail;
    var more := Parts(k)[|p|..];
    assert Parts(k) == Head(k.family, k.cell, k.edgeType) + own;
    assert Parts(k) == Head(f, cell, edgeType) + (Pads(nums) + more);
    HeadPrefix(f, cell, edgeType, k.family, k.cell, k.edgeType, Pads(nums) + more, own);
    assert own[..|nums|] == Pads(nums) && own[..|nums|] == Pads(k.nums)[..|nums|];
    PadsSlice(k.nums, |nums|);
    PadsInjective(nums, k.nums[..|nums|]);
  }

  lemma PrefixOfOwn(nums: seq<U64>, k: GraphKey)
    requires ValidKey(k) && nums <= k.nums && |nums| < |k.nums| + |k.tail|
    ensures Head(k.family, k.cell, k.edgeType) + Pads(nums) < Parts(k)
  {
    hide *;
    PadsSlice(k.nums, |nums|);
    assert k.nums[..|nums|] == nums;
    PartsAre(k);
    LongerList(Head(k.family, k.cell, k.edgeType), Pads(nums), Pads(k.nums), k.tail);
  }

  lemma PartsAre(k: GraphKey)
    ensures Parts(k) == Head(k.family, k.cell, k.edgeType) + Pads(k.nums) + k.tail
    ensures |Pads(k.nums)| == |k.nums|
  {
    hide Head;
  }

  lemma LongerList(head: seq<string>, part: seq<string>, whole: seq<string>, tail: seq<string>)
    requires part <= whole && |part| < |whole| + |tail|
    ensures head + part < head + whole + tail
  {
  }

  /** A scan prefix matches exactly the keys of that family, cell and edge type
      that start with the given numbers. */
  lemma ScanPrefixExact(f: Family, cell: string, edgeType: string, nums: seq<U64>, k: GraphKey)
    requires ValidComponent(cell) && ValidComponent(edgeType) && ValidKey(k)
    requires |nums| < Arity(f) + (if f == Segment then 1 else 0) && |nums| <= Arity(f)
    ensures ScanPrefix(f, cell, edgeType, nums) <= Format(k)
       <==> k.family == f && k.cell == cell && k.edgeType == edgeType && nums <= k.nums
  {
    var p := Head(f, cell, edgeType) + Pads(nums);
    HeadFree(f, cell, edgeType);
    PadsFree(nums);
    PartsFree(k);
    TerminatedPrefix(p, Parts(k), '/');
    if p < Parts(k) {
      OwnPrefix(f, cell, edgeType, nums, k);
    }
    if k.family == f && k.cell == cell && k.edgeType == edgeType && nums <= k.nums {
      PrefixOfOwn(nums, k);
    }
  }

  lemma PadsSlice(nums: seq<U64>, n: nat)
    requires n <= |nums|
    ensures Pads(nums[..n]) == Pads(nums)[..n]
  {
  }

  /** A cell prefix matches exactly the keys of that cell. */
  lemma CellPrefixExact(cell: string, k: GraphKey)
    requires ValidComponent(cell) && ValidKey(k)
    ensures CellPrefix(cell) <= Format(k) <==> k.cell == cell
  {
    var p := ["cell", cell];
    ComponentFree(cell, '/');
    assert '/' !in "cell";
    PartsFree(k);
    TerminatedPrefix(p, Parts(k), '/');
    assert Parts(k)[0] == "cell" && Parts(k)[1] == k.cell;
    assert Parts(k)[..2] == ["cell", k.cell];
  }

  // Parsers.

  datatype EdgeId = EdgeId(cell: string, edgeType: string, src: U64, dst: U64)

  /** `parse_edge_record_key`: the three edge families, `in` with its numbers
      swapped back. */
  function ParseEdgeRecordKey(key: string): Result<EdgeId> {
    var p := Split(key, '/');
    if |p| == 6 && p[0] == "cell" && p[2] == "edge" then EdgeFrom(p[1], p[3], p[4], p[5])
    else if |p| == 7 && p[0] == "cell" && p[2] == "e" && p[3] == "out" then EdgeFrom(p[1], p[4], p[5], p[6])
    else if |p| == 7 && p[0] == "cell" && p[2] == "e" && p[3] == "in" then EdgeFrom(p[1], p[4], p[6], p[5])
    else Err(CorruptValue)
  }

  function EdgeFrom(cell: string, edgeType: string, src: string, dst: string): Result<EdgeId> {
    var _ :- ValidateComponent(cell);
    var _ :- ValidateComponent(edgeType);
    var s :- ParseU64(src);
    var d :- ParseU64(dst);
    Ok(EdgeId(cell, edgeType, s, d))
  }

  /** `parse_out_edge_segment_key`: cell, edge type, source and sequence. */
  function ParseSegmentKey(key: string): Result<(string, string, U64, U64)> {
    var p := Split(key, '/');
    if |p| == 8 && p[0] == "cell" && p[2] == "seg" && p[3] == "out" then
      var _ :- ValidateComponent(p[1]);
      var _ :- ValidateComponent(p[4]);
      var _ :- ValidateComponent(p[7]);
      var src :- ParseU64(p[5]);
      var sequence :- ParseU64(p[6]);
      Ok((p[1], p[4], src, sequence))
    else Err(CorruptValue)
  }

  /** `parse_out_edge_segment_tombstone_key`. */
  function ParseTombstoneKey(key: string): Result<EdgeId> {
    var p := Split(key, '/');
    if |p| == 8 && p[0] == "cell" && p[2] == "seg" && p[3] == "tomb" && p[4] == "out"
    then EdgeFrom(p[1], p[5], p[6], p[7])
    else Err(CorruptValue)
  }

  /** `parse_relationship_record_key`: the edge and the relationship id. */
  function ParseRelationshipKey(key: string): Result<(EdgeId, U64)> {
    var p := Split(key, '/');
    if |p| == 7 && p[0] == "cell" && p[2] == "rel" then
      var e :- EdgeFrom(p[1], p[3], p[4], p[5]);
      var id :- ParseU64(p[6]);
      Ok((e, id))
    else Err(CorruptValue)
  }

  lemma EdgeFromPads(cell: string, edgeType: string, src: U64, dst: U64)
    requires ValidComponent(cell) && ValidComponent(edgeType)
    ensures EdgeFrom(cell, edgeType, Pad20(src), Pad20(dst)) == Ok(EdgeId(cell, edgeType, src, dst))
  {
    ParsePad20(src);
    ParsePad20(dst);
  }

  /** Every parser inverts its own builders and refuses the other families. */
  lemma ParsersInvert(k: GraphKey)
    requires ValidKey(k)
    ensures ParseEdgeRecordKey(Format(k)) == (
              if k.family == Edge || k.family == OutEdge then Ok(EdgeId(k.cell, k.edgeType, k.nums[0], k.nums[1]))
              else if k.family == InEdge then Ok(EdgeId(k.cell, k.edgeType, k.nums[1], k.nums[0]))
              else Err(CorruptValue))
    ensures ParseTombstoneKey(Format(k)) == (
              if k.family == Tombstone then Ok(EdgeId(k.cell, k.edgeType, k.nums[0], k.nums[1])) else Err(CorruptValue))
    ensures ParseSegmentKey(Format(k)) == (
              if k.family == Segment then Ok((k.cell, k.edgeType, k.nums[0], k.nums[1])) else Err(CorruptValue))
    ensures ParseRelationshipKey(Format(k)) == (
              if k.family == Relationship then Ok((EdgeId(k.cell, k.edgeType, k.nums[0], k.nums[1]), k.nums[2]))
              else Err(CorruptValue))
  {
    hide Split;
    hide Fixed;
    hide EdgeFrom;
    hide ParseUnsigned;
    SplitFormat(k);
    forall i, j | 0 <= i < |k.nums| && 0 <= j < |k.nums|
      ensures EdgeFrom(k.cell, k.edgeType, Pad20(k.nums[i]), Pad20(k.nums[j]))
           == Ok(EdgeId(k.cell, k.edgeType, k.nums[i], k.nums[j])) {
      EdgeFromPads(k.cell, k.edgeType, k.nums[i], k.nums[j]);
    }
    forall i | 0 <= i < |k.nums| ensures ParseU64(Pad20(k.nums[i])) == Ok(k.nums[i]) {
      ParsePad20(k.nums[i]);
    }
  }

  // Any key.

  /** The component is a number's text. */
  predicate IsNumber(text: string, n: U64) { '/' !in text && ParseUnsigned(text, 10) == Some(n) }

  ghost predicate KeyOf(key: string, parts: seq<string>) { parts != [] && Free(parts, '/') && key == Join(parts, '/') }

  lemma KeyIsSplit(key: string, parts: seq<string>)
    ensures KeyOf(key, parts) <==> parts == Split(key, '/')
  {
    JoinSplit(key, '/');
    if KeyOf(key, parts) { SplitJoin(parts, '/'); }
  }

  ghost predicate EdgeParts(e: EdgeId, a: string, b: string) {
    ValidComponent(e.cell) && ValidComponent(e.edgeType) && IsNumber(a, e.src) && IsNumber(b, e.dst)
  }

  lemma EdgeFromExactly(cell: string, edgeType: string, a: string, b: string, e: EdgeId)
    requires '/' !in a && '/' !in b
    ensures EdgeFrom(cell, edgeType, a, b) == Ok(e) <==> e.cell == cell && e.edgeType == edgeType && EdgeParts(e, a, b)
  {
    hide ParseUnsigned, ValidComponent;
  }

  ghost predicate EdgeShape(key: string, e: EdgeId, a: string, b: string) {
    || KeyOf(key, ["cell", e.cell, "edge", e.edgeType, a, b])
    || KeyOf(key, ["cell", e.cell, "e", "out", e.edgeType, a, b])
    || KeyOf(key, ["cell", e.cell, "e", "in", e.edgeType, b, a])
  }

  /** Of any key an edge record parser accepts exactly the three shapes with valid
      components and numbers. */
  lemma EdgeKeysExactly(key: string, e: EdgeId)
    ensures ParseEdgeRecordKey(key) == Ok(e) <==> exists a, b :: EdgeParts(e, a, b) && EdgeShape(key, e, a, b)
  {
    hide ParseEdgeRecordKey, EdgeParts, EdgeShape;
    if ParseEdgeRecordKey(key) == Ok(e) { var _, _ := EdgeKeyShape(key, e); }
    if a, b :| EdgeParts(e, a, b) && EdgeShape(key, e, a, b) { EdgeShapeParses(key, e, a, b); }
  }

  lemma EdgeKeyShape(key: string, e: EdgeId) returns (a: string, b: string)
    requires ParseEdgeRecordKey(key) == Ok(e)
    ensures EdgeParts(e, a, b) && EdgeShape(key, e, a, b)
  {
    hide ParseUnsigned, ValidComponent, Split, KeyOf, EdgeFrom, IsNumber, EdgeParts;
    var p := Split(key, '/');
    JoinSplit(key, '/');
    KeyIsSplit(key, p);
    assert forall i :: 0 <= i < |p| ==> p[i] in p;
    if |p| == 6 {
      a, b := p[4], p[5];
      EdgeFromExactly(p[1], p[3], a, b, e);
      assert p == ["cell", e.cell, "edge", e.edgeType, a, b];
    } else if p[3] == "out" {
      a, b := p[5], p[6];
      EdgeFromExactly(p[1], p[4], a, b, e);
      assert p == ["cell", e.cell, "e", "out", e.edgeType, a, b];
    } else {
      a, b := p[6], p[5];
      EdgeFromExactly(p[1], p[4], a, b, e);
      assert p == ["cell", e.cell, "e", "in", e.edgeType, b, a];
    }
  }

  lemma EdgeSplits(key: string, cell: string, edgeType: string, a: string, b: string)
    ensures Split(key, '/') == ["cell", cell, "edge", edgeType, a, b] ==>
              ParseEdgeRecordKey(key) == EdgeFrom(cell, edgeType, a, b)
  {
    hide Split, EdgeFrom;
  }

  lemma OutSplits(key: string, cell: string, edgeType: string, a: string, b: string)
    ensures Split(key, '/') == ["cell", cell, "e", "out", edgeType, a, b] ==>
              ParseEdgeRecordKey(key) == EdgeFrom(cell, edgeType, a, b)
  {
    hide Split, EdgeFrom;
  }

  lemma InSplits(key: string, cell: string, edgeType: string, a: string, b: string)
    ensures Split(key, '/') == ["cell", cell, "e", "in", edgeType, b, a] ==>
              ParseEdgeRecordKey(key) == EdgeFrom(cell, edgeType, a, b)
  {
    hide Split, EdgeFrom;
    assert "out" != "in" by { assert |"out"| != |"in"|; }
  }

  lemma EdgeShapeParses(key: string, e: EdgeId, a: string, b: string)
    requires EdgeParts(e, a, b) && EdgeShape(key, e, a, b)
    ensures ParseEdgeRecordKey(key) == Ok(e)
  {
    hide ParseEdgeRecordKey, ParseUnsigned, ValidComponent, Split, KeyOf, EdgeFrom;
    KeyIsSplit(key, ["cell", e.cell, "edge", e.edgeType, a, b]);
    KeyIsSplit(key, ["cell", e.cell, "e", "out", e.edgeType, a, b]);
    KeyIsSplit(key, ["cell", e.cell, "e", "in", e.edgeType, b, a]);
    EdgeSplits(key, e.cell, e.edgeType, a, b);
    OutSplits(key, e.cell, e.edgeType, a, b);
    InSplits(key, e.cell, e.edgeType, a, b);
    EdgeFromExactly(e.cell, e.edgeType, a, b, e);
  }

  /** The same for segments, whose key ends in a valid segment id. */
  lemma SegmentKeysExactly(key: string, cell: string, edgeType: string, src: U64, sequence: U64)
    ensures ParseSegmentKey(key) == Ok((cell, edgeType, src, sequence)) <==> exists a, b, id ::
              ValidComponent(cell) && ValidComponent(edgeType) && ValidComponent(id) && IsNumber(a, src)
              && IsNumber(b, sequence) && KeyOf(key, ["cell", cell, "seg", "out", edgeType, a, b, id])
  {
    hide ParseSegmentKey, ParseUnsigned, ValidComponent, Split, KeyOf;
    if ParseSegmentKey(key) == Ok((cell, edgeType, src, sequence)) {
      var a, b, id := SegmentKeyShape(key, cell, edgeType, src, sequence);
      KeyIsSplit(key, ["cell", cell, "seg", "out", edgeType, a, b, id]);
    }
    if a, b, id :| ValidComponent(cell) && ValidComponent(edgeType) && ValidComponent(id) && IsNumber(a, src)
                   && IsNumber(b, sequence) && KeyOf(key, ["cell", cell, "seg", "out", edgeType, a, b, id]) {
      KeyIsSplit(key, ["cell", cell, "seg", "out", edgeType, a, b, id]);
      SegmentSplits(key, cell, edgeType, a, b, id);
    }
  }

  lemma SegmentSplits(key: string, cell: string, edgeType: string, a: string, b: string, id: string)
    requires Split(key, '/') == ["cell", cell, "seg", "out", edgeType, a, b, id]
    requires ValidComponent(cell) && ValidComponent(edgeType) && ValidComponent(id)
    requires ParseUnsigned(a, 10).Some? && ParseUnsigned(b, 10).Some?
    ensures ParseSegmentKey(key) == Ok((cell, edgeType, ParseUnsigned(a, 10).value, ParseUnsigned(b, 10).value))
  {
    hide ParseUnsigned, ValidComponent, Split;
  }

  lemma SegmentKeyShape(key: string, cell: string, edgeType: string, src: U64, sequence: U64)
    returns (a: string, b: string, id: string)
    requires ParseSegmentKey(key) == Ok((cell, edgeType, src, sequence))
    ensures Split(key, '/') == ["cell", cell, "seg", "out", edgeType, a, b, id]
    ensures ValidComponent(cell) && ValidComponent(edgeType) && ValidComponent(id)
    ensures IsNumber(a, src) && IsNumber(b, sequence)
  {
    hide ParseUnsigned, ValidComponent, Split;
    var p := Split(key, '/');
    JoinSplit(key, '/');
    a, b, id := p[5], p[6], p[7];
    assert a in p && b in p;
  }

  /** And for tombstones. */
  lemma TombstoneKeysExactly(key: string, e: EdgeId)
    ensures ParseTombstoneKey(key) == Ok(e) <==> exists a, b ::
              EdgeParts(e, a, b) && KeyOf(key, ["cell", e.cell, "seg", "tomb", "out", e.edgeType, a, b])
  {
    hide ParseUnsigned, ValidComponent, Split, KeyOf, EdgeFrom, IsNumber;
    var p := Split(key, '/');
    JoinSplit(key, '/');
    assert forall i :: 0 <= i < |p| ==> p[i] in p;
    forall parts ensures KeyOf(key, parts) <==> parts == p { KeyIsSplit(key, parts); }
    if |p| == 8 {
      EdgeFromExactly(p[1], p[5], p[6], p[7], e);
      assert p == [p[0], p[1], p[2], p[3], p[4], p[5], p[6], p[7]];
    }
  }

  /** And for relationships. */
  lemma RelationshipKeysExactly(key: string, e: EdgeId, id: U64)
    ensures ParseRelationshipKey(key) == Ok((e, id)) <==> exists a, b, c ::
              EdgeParts(e, a, b) && IsNumber(c, id) && KeyOf(key, ["cell", e.cell, "rel", e.edgeType, a, b, c])
  {
    hide ParseUnsigned, ValidComponent, Split, KeyOf, EdgeFrom;
    var p := Split(key, '/');
    JoinSplit(key, '/');
    assert forall i :: 0 <= i < |p| ==> p[i] in p;
    forall parts ensures KeyOf(key, parts) <==> parts == p { KeyIsSplit(key, parts); }
    if |p| == 7 {
      EdgeFromExactly(p[1], p[3], p[4], p[5], e);
      assert p == [p[0], p[1], p[2], p[3], p[4], p[5], p[6]];
    }
  }
}
