/** Vertex, edge and relationship metadata as text records. */
module Metadata {
  import opened Basics
  import opened Splitting
  import opened Numerals
  import opened Binary
  import opened Keys
  import opened PropertyValues
  import Scan

  // One value.

  function Minus(n: nat): string { "-" + Digits(n, 10) }

  /** `Display` of a signed number. */
  function SignedDigits(i: I64): string { if i < 0 then Minus(0 - i) else Digits(i, 10) }

  /** `str::parse::<i64>`: an optional sign, digits, a value in range. */
  function ParseSigned(s: string): Option<I64> {
    var negative := s != [] && s[0] == '-';
    var digits := if s != [] && (s[0] == '-' || s[0] == '+') then s[1..] else s;
    if digits == [] || !AllDigits(digits, 10) then None
    else
      var n := Value(digits, 10);
      if negative then (if n <= HALF then Some(0 - n) else None) else (if n < HALF then Some(n) else None)
  }

  function EncodeValue(v: PropertyValue): string {
    match v
    case Integer(n) => "i:" + Digits(n, 10)
    case SignedInteger(i) => "j:" + SignedDigits(i)
    case Bool(b) => if b then "b:true" else "b:false"
    case Float(bits) => "f:" + Hex16(bits)
    case Text(utf8) => "s:" + HexEncode(utf8)
  }

  /** `from_i64`: non-negative numbers become unsigned. */
  function FromI64(i: I64): PropertyValue { if i >= 0 then Integer(i) else SignedInteger(i) }

  function DecodePayload(kind: string, payload: string): Result<PropertyValue> {
    if kind == "i" then
      (match ParseUnsigned(payload, 10) case Some(n) => Ok(Integer(n)) case None => Err(CorruptValue))
    else if kind == "j" then
      (match ParseSigned(payload) case Some(i) => Ok(FromI64(i)) case None => Err(CorruptValue))
    else if kind == "b" then
      (if payload == "true" then Ok(Bool(true)) else if payload == "false" then Ok(Bool(false)) else Err(CorruptValue))
    else if kind == "f" then
      (match ParseUnsigned(payload, 16) case Some(bits) => Ok(Float(bits)) case None => Err(CorruptValue))
    else if kind == "s" then
      var bytes :- HexDecode(payload);
      if IsUtf8(bytes) then Ok(Text(bytes)) else Err(CorruptValue)
    else Err(CorruptValue)
  }

  /** `split_once(':')`, then by kind. */
  function DecodeValue(text: string): Result<PropertyValue> {
    if ':' !in text then Err(CorruptValue)
    else
      var at := IndexOf(text, ':');
      DecodePayload(text[..at], text[at + 1..])
  }

  /** What a stored value reads back as. */
  function Canonical(v: PropertyValue): PropertyValue {
    if v.SignedInteger? then FromI64(v.i) else v
  }

  lemma KindPayload(kind: string, payload: string)
    requires ':' !in kind
    ensures DecodeValue(kind + ":" + payload) == DecodePayload(kind, payload)
  {
    var text := kind + ":" + payload;
    IndexOfConcat(kind, ':', payload);
    assert text[..|kind|] == kind && text[|kind| + 1..] == payload;
  }

  lemma ParseSignedDigits(i: I64)
    ensures ParseSigned(SignedDigits(i)) == Some(i)
  {
    var n: nat := if i < 0 then 0 - i else i;
    DigitsValue(n, 10);
    var d := Digits(n, 10);
    assert DigitValue(d[0], 10).Some?;
    assert ("-" + d)[1..] == d;
  }

  /** A value survives its record exactly up to the sign type of non-negative
      numbers. */
  lemma ValueRoundTrip(v: PropertyValue)
    requires ValidValue(v)
    ensures DecodeValue(EncodeValue(v)) == Ok(Canonical(v))
  {
    hide IndexOf, ParseUnsigned, ParseSigned, HexDecode, HexEncode, Hex16, Digits, SignedDigits, IsUtf8, DecodeValue;
    match v
    case Integer(n) =>
      ParseDigits(n);
      KindPayload("i", Digits(n, 10));
      assert "i" + ":" == "i:";
    case SignedInteger(i) =>
      ParseSignedDigits(i);
      KindPayload("j", SignedDigits(i));
      assert "j" + ":" == "j:";
    case Bool(b) =>
      KindPayload("b", if b then "true" else "false");
      assert "b" + ":" + "true" == "b:true" && "b" + ":" + "false" == "b:false";
      assert "true"[0] != "false"[0];
    case Float(bits) =>
      ParseHex16(bits);
      KindPayload("f", Hex16(bits));
      assert "f" + ":" == "f:";
    case Text(utf8) =>
      HexRoundTrip(utf8);
      KindPayload("s", HexEncode(utf8));
      assert "s" + ":" == "s:";
  }

  /** The text of every sequence of characters comes back; any other bytes behind
      the text tag are refused. */
  lemma TextRoundTrip(utf8: Bytes)
    ensures DecodeValue(EncodeValue(Text(utf8)))
         == if exists cs :: Utf8Text(cs) == utf8 then Ok(Text(utf8)) else Err(CorruptValue)
  {
    hide IndexOf, HexDecode, HexEncode, IsUtf8, DecodeValue, Utf8Text;
    Utf8Exactly(utf8);
    HexRoundTrip(utf8);
    KindPayload("s", HexEncode(utf8));
    assert "s" + ":" == "s:";
  }

  /** Read back unchanged exactly when it is not a non-negative signed integer. */
  lemma ValueUnchangedExactly(v: PropertyValue)
    requires ValidValue(v)
    ensures DecodeValue(EncodeValue(v)) == Ok(v) <==> !(v.SignedInteger? && v.i >= 0)
  {
    ValueRoundTrip(v);
  }

  // Lines.

  function StripCr(line: string): string {
    if line != [] && line[|line| - 1] == '\r' then line[..|line| - 1] else line
  }

  function StripAll(lines: seq<string>): (r: seq<string>)
    ensures |r| == |lines| && forall i :: 0 <= i < |r| ==> r[i] == StripCr(lines[i])
  {
    seq(|lines|, i requires 0 <= i < |lines| => StripCr(lines[i]))
  }

  /** `str::lines`: a carriage return is dropped before a newline only, and there
      is no line after the last newline. */
  function Lines(text: string): seq<string> {
    var parts := Split(text, '\n');
    var last := parts[|parts| - 1];
    StripAll(parts[..|parts| - 1]) + if last == "" then [] else [last]
  }

  /** Lines as the encoders write them, each closed by a newline. */
  function Closed(lines: seq<string>): string { Join(lines + [""], '\n') }

  predicate CleanLine(line: string) { '\n' !in line && (line != [] ==> line[|line| - 1] != '\r') }

  ghost predicate Clean(lines: seq<string>) { forall l :: l in lines ==> CleanLine(l) }

  lemma LinesOfClosed(lines: seq<string>)
    requires Clean(lines)
    ensures Lines(Closed(lines)) == lines
  {
    SplitJoin(lines + [""], '\n');
    hide Split;
    assert (lines + [""])[..|lines|] == lines;
    forall i | 0 <= i < |lines| ensures StripCr(lines[i]) == lines[i] {
      assert lines[i] in lines;
    }
  }

  /** Writing one more line. */
  lemma ClosedSnoc(lines: seq<string>, line: string)
    ensures Closed(lines + [line]) == Closed(lines) + line + "\n"
  {
    if lines == [] {
      assert [] + [line] + [""] == [line, ""];
    } else {
      JoinConcat(lines, [""], '\n');
      JoinConcat(lines, [line, ""], '\n');
      assert lines + [line] + [""] == lines + [line, ""];
    }
  }

  // The body: labels and properties.

  datatype Body = Body(labels: set<string>, properties: map<string, PropertyValue>)

  predicate ValidBody(b: Body) {
    && (forall l :: l in b.labels ==> ValidComponent(l))
    && (forall n :: n in b.properties ==> ValidComponent(n) && ValidValue(b.properties[n]))
  }

  function CanonicalBody(b: Body): Body {
    Body(b.labels, map n | n in b.properties :: Canonical(b.properties[n]))
  }

  function LabelLine(name: string): string { Join(["label", name], '\t') }

  function PropertyLine(name: string, v: PropertyValue): string { Join(["property", name, EncodeValue(v)], '\t') }

  /** One line's effect; labels are known only to vertex records. */
  function DecodeLine(b: Body, line: string, labelled: bool): Result<Body> {
    var p := Split(line, '\t');
    if labelled && |p| == 2 && p[0] == "label" then
      var _ :- ValidateComponent(p[1]);
      Ok(b.(labels := b.labels + {p[1]}))
    else if |p| == 3 && p[0] == "property" then
      var _ :- ValidateComponent(p[1]);
      var v :- DecodeValue(p[2]);
      Ok(b.(properties := b.properties[p[1] := v]))
    else Err(CorruptValue)
  }

  function DecodeLines(lines: seq<string>, labelled: bool): Result<Body> {
    if lines == [] then Ok(Body({}, map[]))
    else
      var b :- DecodeLines(lines[..|lines| - 1], labelled);
      DecodeLine(b, lines[|lines| - 1], labelled)
  }

  /** The decoding loop. */
  method DecodeBody(lines: seq<string>, labelled: bool) returns (r: Result<Body>)
    ensures r == DecodeLines(lines, labelled)
  {
    hide DecodeLine;
    var b := Body({}, map[]);
    for i := 0 to |lines|
      invariant DecodeLines(lines[..i], labelled) == Ok(b)
    {
      assert lines[..i + 1][..i] == lines[..i];
      var next := DecodeLine(b, lines[i], labelled);
      if next.Err? {
        DecodeStops(lines, labelled, i + 1);
        return next;
      }
      b := next.value;
    }
    assert lines[..|lines|] == lines;
    r := Ok(b);
  }

  lemma {:induction false} DecodeStops(lines: seq<string>, labelled: bool, n: nat)
    requires n <= |lines| && DecodeLines(lines[..n], labelled).Err?
    ensures DecodeLines(lines, labelled) == DecodeLines(lines[..n], labelled)
    decreases |lines|
  {
    if n == |lines| {
      assert lines[..n] == lines;
    } else {
      var front := lines[..|lines| - 1];
      assert front[..n] == lines[..n];
      DecodeStops(front, labelled, n);
    }
  }

  // Encoded lines decode.

  lemma EncodedValueClean(v: PropertyValue)
    ensures '\t' !in EncodeValue(v) && '\n' !in EncodeValue(v) && '\r' !in EncodeValue(v)
    ensures EncodeValue(v) != []
  {
    match v
    case Integer(n) => DigitsClean(n);
    case SignedInteger(i) => DigitsClean(if i < 0 then 0 - i else i);
    case Bool(b) =>
    case Float(bits) => NumeralsAvoid(bits, '\t'); NumeralsAvoid(bits, '\n'); NumeralsAvoid(bits, '\r');
    case Text(utf8) => HexClean(utf8);
  }

  lemma DigitsClean(n: nat)
    ensures '\t' !in Digits(n, 10) && '\n' !in Digits(n, 10) && '\r' !in Digits(n, 10)
  {
    DigitsValue(n, 10);
    DigitsAvoid(Digits(n, 10), 10, '\t');
    DigitsAvoid(Digits(n, 10), 10, '\n');
    DigitsAvoid(Digits(n, 10), 10, '\r');
  }

  lemma {:induction false} HexClean(b: Bytes)
    ensures '\t' !in HexEncode(b) && '\n' !in HexEncode(b) && '\r' !in HexEncode(b)
  {
    if b != [] {
      ByteDigits(b[0]);
      HexClean(b[1..]);
    }
  }

  lemma ComponentClean(s: string)
    requires ValidComponent(s)
    ensures '\t' !in s && '\n' !in s && '\r' !in s && s != []
  {
  }

  lemma LabelLineDecodes(b: Body, name: string)
    requires ValidComponent(name)
    ensures CleanLine(LabelLine(name))
    ensures DecodeLine(b, LabelLine(name), true) == Ok(b.(labels := b.labels + {name}))
  {
    ComponentClean(name);
    var parts := ["label", name];
    assert '\t' !in "label" && '\n' !in "label";
    SplitJoin(parts, '\t');
    JoinEnd(parts, '\t', '\n');
    JoinEnd(parts, '\t', '\r');
  }

  lemma PropertyLineShape(name: string, v: PropertyValue)
    requires ValidComponent(name)
    ensures CleanLine(PropertyLine(name, v))
    ensures Split(PropertyLine(name, v), '\t') == ["property", name, EncodeValue(v)]
  {
    ComponentClean(name);
    EncodedValueClean(v);
    hide EncodeValue, Split, ValidComponent, Join;
    var parts := ["property", name, EncodeValue(v)];
    var line := PropertyLine(name, v);
    assert '\t' !in "property" && '\n' !in "property" && '\r' !in "property";
    SplitJoin(parts, '\t');
    JoinEnd(parts, '\t', '\n');
    JoinEnd(parts, '\t', '\r');
    assert line != [] ==> line[|line| - 1] in line;
  }

  lemma PropertyLineDecodes(b: Body, name: string, v: PropertyValue, labelled: bool)
    requires ValidComponent(name) && ValidValue(v)
    ensures CleanLine(PropertyLine(name, v))
    ensures DecodeLine(b, PropertyLine(name, v), labelled) == Ok(b.(properties := b.properties[name := Canonical(v)]))
  {
    hide EncodeValue, DecodeValue, Canonical, Split, PropertyLine, ValidComponent;
    PropertyLineShape(name, v);
    ValueRoundTrip(v);
    assert "property" != "label" by { assert |"property"| != |"label"|; }
    assert ValidateComponent(name) == Ok(());
  }

  // Any lines.

  ghost predicate NamesLabel(line: string, l: string) { ValidComponent(l) && line == LabelLine(l) }

  ghost predicate GivesProperty(line: string, n: string, v: PropertyValue) {
    ValidComponent(n) && exists payload ::
      '\t' !in payload && line == Join(["property", n, payload], '\t') && DecodeValue(payload) == Ok(v)
  }

  lemma LabelParts(line: string, l: string)
    ensures NamesLabel(line, l) <==> ValidComponent(l) && Split(line, '\t') == ["label", l]
  {
    assert '\t' !in "label";
    if ValidComponent(l) {
      ComponentClean(l);
      SplitJoin(["label", l], '\t');
    }
    JoinSplit(line, '\t');
  }

  lemma PropertyParts(line: string, n: string, v: PropertyValue)
    ensures GivesProperty(line, n, v) <==>
              && ValidComponent(n) && |Split(line, '\t')| == 3 && Split(line, '\t')[0] == "property"
              && Split(line, '\t')[1] == n && DecodeValue(Split(line, '\t')[2]) == Ok(v)
  {
    hide DecodeValue, ValidComponent, Split, Join;
    var p := Split(line, '\t');
    JoinSplit(line, '\t');
    if |p| == 3 && p[0] == "property" && p[1] == n {
      assert p == ["property", n, p[2]] && p[2] in p;
    }
    if GivesProperty(line, n, v) {
      var payload :| '\t' !in payload && line == Join(["property", n, payload], '\t') && DecodeValue(payload) == Ok(v);
      ComponentClean(n);
      assert '\t' !in "property";
      SplitJoin(["property", n, payload], '\t');
    }
  }

  /** A line is accepted exactly if it names a label, in a vertex record, or gives
      a property; and then that is its effect. */
  lemma LineExactly(b: Body, line: string, labelled: bool)
    ensures DecodeLine(b, line, labelled).Ok? <==>
              (labelled && exists l :: NamesLabel(line, l)) || exists n, v :: GivesProperty(line, n, v)
    ensures forall l :: labelled && NamesLabel(line, l) ==>
              DecodeLine(b, line, labelled) == Ok(b.(labels := b.labels + {l}))
    ensures forall n, v :: GivesProperty(line, n, v) ==>
              DecodeLine(b, line, labelled) == Ok(b.(properties := b.properties[n := v]))
  {
    hide DecodeValue, ValidComponent, Split, NamesLabel, GivesProperty;
    var p := Split(line, '\t');
    assert "property" != "label" by { assert |"property"| != |"label"|; }
    forall l ensures NamesLabel(line, l) <==> ValidComponent(l) && p == ["label", l] { LabelParts(line, l); }
    forall n, v
      ensures GivesProperty(line, n, v) <==>
                ValidComponent(n) && |p| == 3 && p[0] == "property" && p[1] == n && DecodeValue(p[2]) == Ok(v)
    {
      PropertyParts(line, n, v);
    }
    if |p| == 2 && p[0] == "label" && ValidComponent(p[1]) { assert p == ["label", p[1]]; }
  }

  /** The value that the last property line of this name gives. */
  ghost predicate LastGives(lines: seq<string>, n: string, v: PropertyValue) {
    exists i :: 0 <= i < |lines| && GivesProperty(lines[i], n, v)
                && forall j, w :: i < j < |lines| ==> !GivesProperty(lines[j], n, w)
  }

  ghost predicate SomeLineNames(lines: seq<string>, l: string) {
    exists i :: 0 <= i < |lines| && NamesLabel(lines[i], l)
  }

  ghost predicate Accepted(line: string, labelled: bool) {
    (labelled && exists l :: NamesLabel(line, l)) || exists n, v :: GivesProperty(line, n, v)
  }

  lemma GivesOne(line: string, n: string, v: PropertyValue, m: string, w: PropertyValue)
    requires GivesProperty(line, n, v) && GivesProperty(line, m, w)
    ensures n == m && v == w
  {
    hide DecodeValue, ValidComponent, Split, GivesProperty;
    PropertyParts(line, n, v);
    PropertyParts(line, m, w);
  }

  lemma LabelOrProperty(line: string, l: string, n: string, v: PropertyValue)
    ensures !(NamesLabel(line, l) && GivesProperty(line, n, v))
  {
    hide DecodeValue, ValidComponent, Split, GivesProperty, NamesLabel;
    LabelParts(line, l);
    PropertyParts(line, n, v);
  }

  lemma LabelsOne(line: string, l: string, m: string)
    requires NamesLabel(line, l) && NamesLabel(line, m)
    ensures l == m
  {
    hide ValidComponent, Split, NamesLabel;
    LabelParts(line, l);
    LabelParts(line, m);
    assert ["label", l][1] == ["label", m][1];
  }

  /** Of any lines exactly those are accepted that each name a label or give a
      property; the body then has the labels named and, for each name, the value
      given last. */
  lemma {:induction false} LinesExactly(lines: seq<string>, labelled: bool)
    ensures DecodeLines(lines, labelled).Ok? <==> forall i :: 0 <= i < |lines| ==> Accepted(lines[i], labelled)
    ensures DecodeLines(lines, labelled).Ok? ==>
              forall l :: l in DecodeLines(lines, labelled).value.labels <==> labelled && SomeLineNames(lines, l)
    ensures DecodeLines(lines, labelled).Ok? ==>
              var p := DecodeLines(lines, labelled).value.properties;
              forall n, v :: (n in p && p[n] == v) <==> LastGives(lines, n, v)
  {
    hide DecodeLine, NamesLabel, GivesProperty;
    if lines != [] {
      var front, last := lines[..|lines| - 1], lines[|lines| - 1];
      LinesExactly(front, labelled);
      if DecodeLines(front, labelled).Ok? {
        LineExactly(DecodeLines(front, labelled).value, last, labelled);
        if DecodeLines(lines, labelled).Ok? { LastLine(lines, labelled); }
      }
    }
  }

  lemma LastLine(lines: seq<string>, labelled: bool)
    requires lines != [] && Accepted(lines[|lines| - 1], labelled)
    requires var front := lines[..|lines| - 1];
             && DecodeLines(front, labelled).Ok? && DecodeLines(lines, labelled).Ok?
             && (forall l :: l in DecodeLines(front, labelled).value.labels <==> labelled && SomeLineNames(front, l))
             && var p := DecodeLines(front, labelled).value.properties;
                forall n, v :: (n in p && p[n] == v) <==> LastGives(front, n, v)
    ensures forall l :: l in DecodeLines(lines, labelled).value.labels <==> labelled && SomeLineNames(lines, l)
    ensures var p := DecodeLines(lines, labelled).value.properties;
            forall n, v :: (n in p && p[n] == v) <==> LastGives(lines, n, v)
  {
    hide DecodeLine, NamesLabel, GivesProperty;
    var front, last := lines[..|lines| - 1], lines[|lines| - 1];
    var before, after := DecodeLines(front, labelled).value, DecodeLines(lines, labelled).value;
    LineExactly(before, last, labelled);
    forall l ensures SomeLineNames(lines, l) <==> SomeLineNames(front, l) || NamesLabel(last, l) {
      NamesSnoc(lines, l);
    }
    forall n, v ensures LastGives(lines, n, v) <==>
                          GivesProperty(last, n, v) || (LastGives(front, n, v) && !Gives(last, n)) {
      GivesSnoc(lines, n, v);
    }
    hide SomeLineNames, LastGives;
    if l :| labelled && NamesLabel(last, l) {
      forall m ensures NamesLabel(last, m) <==> m == l { if NamesLabel(last, m) { LabelsOne(last, l, m); } }
      forall n, v ensures !GivesProperty(last, n, v) { LabelOrProperty(last, l, n, v); }
    } else {
      var n, v :| GivesProperty(last, n, v);
      forall m, w ensures GivesProperty(last, m, w) <==> m == n && w == v {
        if GivesProperty(last, m, w) { GivesOne(last, n, v, m, w); }
      }
      forall l ensures !NamesLabel(last, l) { LabelOrProperty(last, l, n, v); }
    }
  }

  ghost predicate Gives(line: string, n: string) { exists v :: GivesProperty(line, n, v) }

  lemma NamesSnoc(lines: seq<string>, l: string)
    requires lines != []
    ensures SomeLineNames(lines, l) <==>
              SomeLineNames(lines[..|lines| - 1], l) || NamesLabel(lines[|lines| - 1], l)
  {
    hide NamesLabel;
    var front := lines[..|lines| - 1];
    if i :| 0 <= i < |lines| && NamesLabel(lines[i], l) { assert i < |front| ==> front[i] == lines[i]; }
    if i :| 0 <= i < |front| && NamesLabel(front[i], l) { assert lines[i] == front[i]; }
  }

  lemma GivesSnoc(lines: seq<string>, n: string, v: PropertyValue)
    requires lines != []
    ensures LastGives(lines, n, v) <==>
              || GivesProperty(lines[|lines| - 1], n, v)
              || (LastGives(lines[..|lines| - 1], n, v) && !Gives(lines[|lines| - 1], n))
  {
    hide GivesProperty;
    var front := lines[..|lines| - 1];
    assert forall j :: 0 <= j < |front| ==> front[j] == lines[j];
  }

  // Whole records.

  const VERTEX_HEADER: string := "vertex-metadata-v1"
  const EDGE_HEADER: string := "edge-metadata-v1"
  const RELATIONSHIP_HEADER: string := "relationship"

  predicate Header(h: string) { h in {VERTEX_HEADER, EDGE_HEADER, RELATIONSHIP_HEADER} }

  /** The shared shape of the three decoders: the header line, then the body. */
  function DecodeText(header: string, text: string, labelled: bool): Result<Body> {
    var lines := Lines(text);
    if lines == [] || lines[0] != header then Err(CorruptValue) else DecodeLines(lines[1..], labelled)
  }

  function DecodeVertexMetadata(text: string): Result<Body> { DecodeText(VERTEX_HEADER, text, true) }

  function DecodeEdgeMetadata(text: string): Result<Body> { DecodeText(EDGE_HEADER, text, false) }

  datatype RelationshipRecord = RelationshipRecord(edge: EdgeId, id: U64, properties: map<string, PropertyValue>)

  /** Identity from the key, properties from the value. */
  function DecodeRelationship(key: string, text: string): Result<RelationshipRecord> {
    var lines := Lines(text);
    if lines == [] || lines[0] != RELATIONSHIP_HEADER then Err(CorruptValue)
    else
      var (edge, id) :- ParseRelationshipKey(key);
      var b :- DecodeLines(lines[1..], false);
      Ok(RelationshipRecord(edge, id, b.properties))
  }

  /** The label loop, in byte order. */
  method EncodeLabels(header: string, labels: set<string>) returns (text: string, ghost lines: seq<string>)
    requires forall l :: l in labels ==> ValidComponent(l)
    ensures text == Closed([header] + lines) && Clean(lines)
    ensures DecodeLines(lines, true) == Ok(Body(labels, map[]))
    ensures labels == {} ==> lines == []
  {
    hide Closed, LabelLine, DecodeLine, ValidComponent, CleanLine;
    text := header + "\n";
    lines := [];
    ClosedHeader(header);
    var left := labels;
    assert labels - left == {};
    while left != {}
      invariant left <= labels && text == Closed([header] + lines) && Clean(lines)
      invariant DecodeLines(lines, true) == Ok(Body(labels - left, map[]))
      invariant labels == {} ==> lines == []
      decreases |left|
    {
      var l := Scan.LeastKey(left);
      LabelLineDecodes(Body(labels - left, map[]), l);
      text := text + LabelLine(l) + "\n";
      LinesSnoc(header, lines, LabelLine(l), true);
      lines := lines + [LabelLine(l)];
      assert labels - left + {l} == labels - (left - {l});
      left := left - {l};
    }
    assert labels - left == labels;
  }

  /** The property loop, in byte order, behind whatever was written before. */
  method EncodeProperties(header: string, before: string, ghost written: seq<string>, b: Body, labelled: bool)
    returns (text: string, ghost lines: seq<string>)
    requires before == Closed([header] + written) && Clean(written)
    requires DecodeLines(written, labelled) == Ok(Body(b.labels, map[]))
    requires ValidBody(b)
    ensures text == Closed([header] + lines) && Clean(lines)
    ensures DecodeLines(lines, labelled) == Ok(CanonicalBody(b))
  {
    hide Closed, PropertyLine, DecodeLine, ValidComponent, ValidValue, CleanLine, Canonical, CanonicalPart;
    text, lines := before, written;
    var names := b.properties.Keys;
    PartNone(b.properties);
    while names != {}
      invariant names <= b.properties.Keys && text == Closed([header] + lines) && Clean(lines)
      invariant DecodeLines(lines, labelled) == Ok(Body(b.labels, CanonicalPart(b.properties, names)))
      decreases |names|
    {
      var n := Scan.LeastKey(names);
      var v := b.properties[n];
      PropertyLineDecodes(Body(b.labels, CanonicalPart(b.properties, names)), n, v, labelled);
      text := text + PropertyLine(n, v) + "\n";
      LinesSnoc(header, lines, PropertyLine(n, v), labelled);
      lines := lines + [PropertyLine(n, v)];
      PartNext(b.properties, names, n);
      names := names - {n};
    }
    PartAll(b.properties);
  }

  /** What the encoders write decodes to the canonical form of the body. */
  method EncodeBody(header: string, b: Body, labelled: bool) returns (text: string, ghost lines: seq<string>)
    requires Header(header) && ValidBody(b) && (!labelled ==> b.labels == {})
    ensures text == Closed([header] + lines) && Clean(lines)
    ensures DecodeLines(lines, labelled) == Ok(CanonicalBody(b))
  {
    text, lines := EncodeLabels(header, b.labels);
    text, lines := EncodeProperties(header, text, lines, b, labelled);
  }

  lemma PartNone(m: map<string, PropertyValue>)
    ensures CanonicalPart(m, m.Keys) == map[]
  {
  }

  lemma ClosedHeader(header: string)
    ensures Closed([header] + []) == header + "\n"
  {
    JoinConcat([header], [""], '\n');
    assert [header] + [] + [""] == [header] + [""];
    assert Join([header], '\n') == header && Join([""], '\n') == "";
  }

  lemma LinesSnoc(header: string, lines: seq<string>, line: string, labelled: bool)
    requires Clean(lines) && CleanLine(line) && DecodeLines(lines, labelled).Ok?
    ensures Closed([header] + (lines + [line])) == Closed([header] + lines) + line + "\n"
    ensures Clean(lines + [line])
    ensures DecodeLines(lines + [line], labelled) == DecodeLine(DecodeLines(lines, labelled).value, line, labelled)
  {
    hide DecodeLine;
    ClosedSnoc([header] + lines, line);
    assert [header] + lines + [line] == [header] + (lines + [line]);
    assert (lines + [line])[..|lines|] == lines;
  }

  /** The canonical properties outside `names`. */
  ghost function CanonicalPart(m: map<string, PropertyValue>, names: set<string>): map<string, PropertyValue> {
    map n | n in m && n !in names :: Canonical(m[n])
  }

  lemma PartNext(m: map<string, PropertyValue>, names: set<string>, n: string)
    requires n in m && n in names
    ensures CanonicalPart(m, names - {n}) == CanonicalPart(m, names)[n := Canonical(m[n])]
  {
  }

  lemma PartAll(m: map<string, PropertyValue>)
    ensures CanonicalPart(m, {}) == (map n | n in m :: Canonical(m[n]))
  {
  }

  lemma ClosedDecodes(header: string, lines: seq<string>, labelled: bool)
    requires Header(header) && Clean(lines)
    ensures Lines(Closed([header] + lines)) == [header] + lines
    ensures DecodeText(header, Closed([header] + lines), labelled) == DecodeLines(lines, labelled)
  {
    hide Lines, Closed;
    assert CleanLine(header);
    LinesOfClosed([header] + lines);
    assert ([header] + lines)[1..] == lines;
  }

  /** Vertex metadata reads back as its canonical form. */
  method EncodeVertexMetadata(b: Body) returns (text: string)
    requires ValidBody(b)
    ensures DecodeVertexMetadata(text) == Ok(CanonicalBody(b))
  {
    ghost var lines;
    text, lines := EncodeBody(VERTEX_HEADER, b, true);
    ClosedDecodes(VERTEX_HEADER, lines, true);
  }

  /** So does edge metadata, which has no labels. */
  method EncodeEdgeMetadata(properties: map<string, PropertyValue>) returns (text: string)
    requires ValidBody(Body({}, properties))
    ensures DecodeEdgeMetadata(text) == Ok(CanonicalBody(Body({}, properties)))
  {
    ghost var lines;
    text, lines := EncodeBody(EDGE_HEADER, Body({}, properties), false);
    ClosedDecodes(EDGE_HEADER, lines, false);
  }

  /** And a relationship, stored under its own key. */
  method EncodeRelationship(edge: EdgeId, id: U64, properties: map<string, PropertyValue>)
    returns (key: string, text: string)
    requires ValidComponent(edge.cell) && ValidComponent(edge.edgeType) && ValidBody(Body({}, properties))
    ensures DecodeRelationship(key, text)
              == Ok(RelationshipRecord(edge, id, CanonicalBody(Body({}, properties)).properties))
  {
    hide ParseRelationshipKey, Format;
    var k := GraphKey(Family.Relationship, edge.cell, edge.edgeType, [edge.src, edge.dst, id], []);
    key := Format(k);
    ParsersInvert(k);
    ghost var lines;
    text, lines := EncodeBody(RELATIONSHIP_HEADER, Body({}, properties), false);
    ClosedDecodes(RELATIONSHIP_HEADER, lines, false);
    assert ([RELATIONSHIP_HEADER] + lines)[1..] == lines;
  }

  /** A body reads back unchanged exactly when it holds no non-negative signed
      integer. */
  lemma CanonicalExactly(b: Body)
    ensures CanonicalBody(b) == b <==> forall n :: n in b.properties ==>
              !(b.properties[n].SignedInteger? && b.properties[n].i >= 0)
  {
    var c := CanonicalBody(b);
    if c == b {
      forall n | n in b.properties ensures !(b.properties[n].SignedInteger? && b.properties[n].i >= 0) {
        assert c.properties[n] == Canonical(b.properties[n]);
      }
    }
  }
}
