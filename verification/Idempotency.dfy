/** Stored results of idempotent operations: nine kinds of record, one line of
    tab-separated fields each. */
module Idempotency {
  import opened Basics
  import opened Splitting
  import opened Numerals
  import opened Keys

  datatype Kind =
    | SegmentCompaction
    | Commit
    | Delete
    | RelationshipDelete
    | VertexDelete
    | CellDrop
    | BulkImport
    | RelationshipImport
    | RelationshipCreate

  datatype FieldType = NumberField | FlagField | WordField

  /** What a field is for: part of the stored result, part of the request's
      identity or fingerprint, or both. */
  datatype Role = Outcome | Identity | OutcomeAndIdentity

  datatype Slot = Slot(kind: FieldType, role: Role)

  function Tag(k: Kind): string {
    match k
    case SegmentCompaction => "segment_compact1"
    case Commit => "graph-commit-idempotency-v1"
    case Delete => "graph-delete-idempotency-v1"
    case RelationshipDelete => "relationship_delete1"
    case VertexDelete => "vertex_delete1"
    case CellDrop => "cell_drop1"
    case BulkImport => "bulk_import1"
    case RelationshipImport => "relationship_import1"
    case RelationshipCreate => "relationship_create1"
  }

  function Stored(t: FieldType): Slot { Slot(t, Outcome) }

  function Of(t: FieldType): Slot { Slot(t, Identity) }

  /** The fields behind the tag, in record order. */
  function Layout(k: Kind): seq<Slot> {
    var num, flag := Stored(NumberField), Stored(FlagField);
    var word, id := Of(WordField), Of(NumberField);
    match k
    case SegmentCompaction => [Slot(NumberField, OutcomeAndIdentity), num, num, num, num, num, word]
    case Commit => [num, flag, word, word, id, id]
    case Delete => [num, flag, word, word, id, id]
    case RelationshipDelete => [num, flag, word, word, id, id, id]
    case VertexDelete => [num, flag, num, num, word, id]
    case CellDrop => [num, num, num, flag, word, word]
    case BulkImport => [num, num, num, num, id, word]
    case RelationshipImport => [num, num, num, num, num, num, id, word]
    case RelationshipCreate => [num, num, flag, flag, id, word, word, id, id]
  }

  /** The order in which a decoder compares the identity fields. */
  function Checks(k: Kind): seq<nat> {
    match k
    case SegmentCompaction => [6, 0]
    case Commit => [2, 3, 4, 5]
    case Delete => [2, 3, 4, 5]
    case RelationshipDelete => [2, 3, 4, 5, 6]
    case VertexDelete => [4, 5]
    case CellDrop => [4, 5]
    case BulkImport => [5, 4]
    case RelationshipImport => [7, 6]
    case RelationshipCreate => [4, 5, 6, 7, 8]
  }

  datatype Field = Number(n: U64) | Flag(b: bool) | Word(w: string)

  predicate Fits(f: Field, t: FieldType) {
    match t
    case NumberField => f.Number?
    case FlagField => f.Flag?
    case WordField => f.Word? && ValidComponent(f.w)
  }

  /** A record, or a request laid out like one: a value for every field. */
  ghost predicate ValidRecord(k: Kind, fields: seq<Field>) {
    |fields| == |Layout(k)| && forall i :: 0 <= i < |fields| ==> Fits(fields[i], Layout(k)[i].kind)
  }

  function FieldText(f: Field): string {
    match f
    case Number(n) => Digits(n, 10)
    case Flag(b) => if b then "1" else "0"
    case Word(w) => w
  }

  function FieldTexts(fields: seq<Field>): (r: seq<string>)
    ensures |r| == |fields| && forall i :: 0 <= i < |r| ==> r[i] == FieldText(fields[i])
  {
    seq(|fields|, i requires 0 <= i < |fields| => FieldText(fields[i]))
  }

  function Encode(k: Kind, fields: seq<Field>): string { RecordLine([Tag(k)] + FieldTexts(fields)) }

  function ParseField(text: string, t: FieldType): Result<Field> {
    match t
    case NumberField => (match ParseUnsigned(text, 10) case Some(n) => Ok(Number(n)) case None => Err(CorruptValue))
    case FlagField => if text == "0" then Ok(Flag(false)) else if text == "1" then Ok(Flag(true)) else Err(CorruptValue)
    case WordField => Ok(Word(text))
  }

  /** The comparisons, stopping at the first disagreement. */
  function Compare(k: Kind, texts: seq<string>, request: seq<Field>, checks: seq<nat>): Result<()>
    requires |texts| == |request| == |Layout(k)| && forall i :: 0 <= i < |checks| ==> checks[i] < |texts|
    decreases |checks|
  {
    if checks == [] then Ok(())
    else
      var at := checks[0];
      var f :- ParseField(texts[at], Layout(k)[at].kind);
      if f != request[at] then Err(IdempotencyConflict) else Compare(k, texts, request, checks[1..])
  }

  predicate InOutcome(k: Kind, i: nat)
    requires i < |Layout(k)|
  {
    Layout(k)[i].role != Identity
  }

  /** The stored result: the outcome fields in order. */
  function Outcomes(k: Kind, texts: seq<string>, n: nat): Result<seq<Field>>
    requires |texts| == |Layout(k)| && n <= |texts|
  {
    if n == 0 then Ok([])
    else
      var before :- Outcomes(k, texts, n - 1);
      if !InOutcome(k, n - 1) then Ok(before)
      else
        var f :- ParseField(texts[n - 1], Layout(k)[n - 1].kind);
        Ok(before + [f])
  }

  lemma ChecksInside(k: Kind)
    ensures forall i :: 0 <= i < |Checks(k)| ==> Checks(k)[i] < |Layout(k)|
  {
  }

  /** The nine decoders: shape and tag, then identity, then the result. */
  function Decode(k: Kind, request: seq<Field>, text: string): Result<seq<Field>>
    requires |request| == |Layout(k)|
  {
    var parts := RecordFields(text);
    if |parts| != 1 + |Layout(k)| || parts[0] != Tag(k) then Err(CorruptValue)
    else
      var texts := parts[1..];
      ChecksInside(k);
      var _ :- Compare(k, texts, request, Checks(k));
      Outcomes(k, texts, |texts|)
  }

  // What decoding a stored record answers.

  ghost function StoredOutcome(k: Kind, fields: seq<Field>, n: nat): seq<Field>
    requires |fields| == |Layout(k)| && n <= |fields|
  {
    if n == 0 then []
    else StoredOutcome(k, fields, n - 1) + if InOutcome(k, n - 1) then [fields[n - 1]] else []
  }

  /** The request asks for what the record was stored for. */
  ghost predicate Agrees(k: Kind, fields: seq<Field>, request: seq<Field>)
    requires |fields| == |request| == |Layout(k)|
  {
    forall i :: 0 <= i < |fields| && Layout(k)[i].role != Outcome ==> fields[i] == request[i]
  }

  lemma ParseFieldText(f: Field, t: FieldType)
    requires Fits(f, t)
    ensures ParseField(FieldText(f), t) == Ok(f)
    ensures '\t' !in FieldText(f) && '\n' !in FieldText(f)
  {
    match f
    case Number(n) =>
      ParseDigits(n);
      NumeralsAvoid(n, '\t');
      NumeralsAvoid(n, '\n');
    case Flag(b) =>
    case Word(w) =>
      ComponentFree(w, '\t');
      ComponentFree(w, '\n');
  }

  lemma CommitTagClean()
    ensures '\t' !in "graph-commit-idempotency-v1" && '\n' !in "graph-commit-idempotency-v1"
  {
  }

  lemma DeleteTagClean()
    ensures '\t' !in "graph-delete-idempotency-v1" && '\n' !in "graph-delete-idempotency-v1"
  {
  }

  lemma RelationshipTagsClean()
    ensures forall s :: s in {"relationship_delete1", "relationship_import1", "relationship_create1"} ==>
              '\t' !in s && '\n' !in s
  {
  }

  lemma ShortTagsClean()
    ensures forall s :: s in {"segment_compact1", "vertex_delete1", "cell_drop1", "bulk_import1"} ==>
              '\t' !in s && '\n' !in s
  {
  }

  lemma TagClean(k: Kind)
    ensures '\t' !in Tag(k) && '\n' !in Tag(k)
  {
    CommitTagClean();
    DeleteTagClean();
    RelationshipTagsClean();
    ShortTagsClean();
  }

  lemma EncodedFields(k: Kind, fields: seq<Field>)
    requires ValidRecord(k, fields)
    ensures RecordFields(Encode(k, fields)) == [Tag(k)] + FieldTexts(fields)
  {
    hide FieldText, RecordFields, RecordLine, Layout, Tag, Fits;
    var parts := [Tag(k)] + FieldTexts(fields);
    TagClean(k);
    forall p | p in parts ensures '\t' !in p && '\n' !in p {
      if p in FieldTexts(fields) {
        var i :| 0 <= i < |fields| && FieldTexts(fields)[i] == p;
        ParseFieldText(fields[i], Layout(k)[i].kind);
      }
    }
    RecordRoundTrip(parts);
  }

  lemma {:induction false} CompareStored(k: Kind, fields: seq<Field>, request: seq<Field>, checks: seq<nat>)
    requires ValidRecord(k, fields) && |request| == |fields| && forall i :: 0 <= i < |checks| ==> checks[i] < |fields|
    ensures Compare(k, FieldTexts(fields), request, checks) ==
            if forall i :: 0 <= i < |checks| ==> fields[checks[i]] == request[checks[i]]
            then Ok(()) else Err(IdempotencyConflict)
    decreases |checks|
  {
    hide FieldText, ParseField, Layout, Fits;
    if checks != [] {
      var at := checks[0];
      ParseFieldText(fields[at], Layout(k)[at].kind);
      CompareStored(k, fields, request, checks[1..]);
      assert forall i :: 0 < i < |checks| ==> checks[i] == checks[1..][i - 1];
    }
  }

  lemma {:induction false} OutcomesStored(k: Kind, fields: seq<Field>, n: nat)
    requires ValidRecord(k, fields) && n <= |fields|
    ensures Outcomes(k, FieldTexts(fields), n) == Ok(StoredOutcome(k, fields, n))
  {
    hide FieldText, ParseField, Layout, Fits, InOutcome;
    if n > 0 {
      OutcomesStored(k, fields, n - 1);
      ParseFieldText(fields[n - 1], Layout(k)[n - 1].kind);
      assert StoredOutcome(k, fields, n - 1) + [] == StoredOutcome(k, fields, n - 1);
    }
  }

  /** The comparisons cover exactly the identity fields. */
  lemma ChecksAreIdentity(k: Kind, i: nat)
    requires i < |Layout(k)|
    ensures i in Checks(k) <==> Layout(k)[i].role != Outcome
  {
    match k
    case SegmentCompaction =>
    case Commit =>
    case Delete =>
    case RelationshipDelete =>
    case VertexDelete =>
    case CellDrop =>
    case BulkImport =>
    case RelationshipImport =>
    case RelationshipCreate =>
  }

  /** Decoding a stored record returns its result exactly when identity and
      fingerprint agree with the request, and a conflict otherwise. */
  lemma DecodeStored(k: Kind, fields: seq<Field>, request: seq<Field>)
    requires ValidRecord(k, fields) && |request| == |fields|
    ensures Decode(k, request, Encode(k, fields)) ==
            if Agrees(k, fields, request) then Ok(StoredOutcome(k, fields, |fields|)) else Err(IdempotencyConflict)
  {
    hide FieldText, RecordFields, Encode, Layout, Tag, Fits, Checks, Outcomes, Compare, InOutcome;
    EncodedFields(k, fields);
    var parts := RecordFields(Encode(k, fields));
    assert parts[1..] == FieldTexts(fields);
    ChecksInside(k);
    CompareStored(k, fields, request, Checks(k));
    OutcomesStored(k, fields, |fields|);
    forall i: nat | i < |fields| ensures i in Checks(k) <==> Layout(k)[i].role != Outcome {
      ChecksAreIdentity(k, i);
    }
    if Agrees(k, fields, request) {
      assert forall i :: 0 <= i < |Checks(k)| ==> Checks(k)[i] in Checks(k);
    } else {
      var i :| 0 <= i < |fields| && Layout(k)[i].role != Outcome && fields[i] != request[i];
      var j :| 0 <= j < |Checks(k)| && Checks(k)[j] == i;
    }
  }

  // Any text.

  /** The text stands for the field's value. */
  predicate Denotes(text: string, f: Field) {
    match f
    case Number(n) => ParseUnsigned(text, 10) == Some(n)
    case Flag(b) => text == if b then "1" else "0"
    case Word(w) => text == w
  }

  predicate OfType(f: Field, t: FieldType) {
    (t.NumberField? <==> f.Number?) && (t.FlagField? <==> f.Flag?) && (t.WordField? <==> f.Word?)
  }

  /** The record behind the tag, read field by field. */
  ghost predicate ReadsAs(k: Kind, texts: seq<string>, fields: seq<Field>) {
    && |texts| == |fields| == |Layout(k)|
    && forall i :: 0 <= i < |fields| ==> OfType(fields[i], Layout(k)[i].kind) && Denotes(texts[i], fields[i])
  }

  lemma ParseIsDenoting(text: string, t: FieldType, f: Field)
    ensures ParseField(text, t) == Ok(f) <==> OfType(f, t) && Denotes(text, f)
  {
    hide ParseUnsigned;
    assert "0" != "1" by { assert "0"[0] != "1"[0]; }
  }

  lemma {:induction false} CompareExactly(k: Kind, texts: seq<string>, request: seq<Field>, checks: seq<nat>)
    requires |texts| == |request| == |Layout(k)| && forall i :: 0 <= i < |checks| ==> checks[i] < |texts|
    ensures Compare(k, texts, request, checks).Ok? <==>
              forall i :: 0 <= i < |checks| ==>
                ParseField(texts[checks[i]], Layout(k)[checks[i]].kind) == Ok(request[checks[i]])
    decreases |checks|
  {
    hide ParseField, Layout;
    if checks != [] {
      CompareExactly(k, texts, request, checks[1..]);
      assert forall i :: 0 < i < |checks| ==> checks[i] == checks[1..][i - 1];
      assert forall i :: 0 <= i < |checks| - 1 ==> checks[1..][i] == checks[i + 1];
    }
  }

  lemma {:induction false} OutcomesExactly(k: Kind, texts: seq<string>, n: nat)
    requires |texts| == |Layout(k)| && n <= |texts|
    ensures Outcomes(k, texts, n).Ok? <==>
              forall i :: 0 <= i < n && InOutcome(k, i) ==> ParseField(texts[i], Layout(k)[i].kind).Ok?
    ensures forall fields :: ReadsAs(k, texts, fields) ==> Outcomes(k, texts, n) == Ok(StoredOutcome(k, fields, n))
  {
    hide ParseField, Layout, Denotes, OfType;
    if n > 0 {
      OutcomesExactly(k, texts, n - 1);
      forall fields | ReadsAs(k, texts, fields)
        ensures Outcomes(k, texts, n) == Ok(StoredOutcome(k, fields, n))
      {
        ParseIsDenoting(texts[n - 1], Layout(k)[n - 1].kind, fields[n - 1]);
        assert StoredOutcome(k, fields, n - 1) + [] == StoredOutcome(k, fields, n - 1);
      }
    }
  }

  /** Of any text a decoder accepts exactly the records of its tag and shape whose
      fields denote values, the identity fields those of the request; its answer is
      the outcome among them. */
  lemma DecodeExactly(k: Kind, request: seq<Field>, text: string, out: seq<Field>)
    requires |request| == |Layout(k)|
    ensures Decode(k, request, text) == Ok(out) <==>
              && |RecordFields(text)| == 1 + |Layout(k)| && RecordFields(text)[0] == Tag(k)
              && exists fields :: ReadsAs(k, RecordFields(text)[1..], fields) && Agrees(k, fields, request)
                                  && out == StoredOutcome(k, fields, |fields|)
  {
    hide RecordFields, Layout, Tag, Checks, Outcomes, Compare, InOutcome, ParseField, OfType, Denotes;
    var parts := RecordFields(text);
    if |parts| == 1 + |Layout(k)| && parts[0] == Tag(k) {
      var texts := parts[1..];
      ChecksInside(k);
      CompareExactly(k, texts, request, Checks(k));
      OutcomesExactly(k, texts, |texts|);
      if Decode(k, request, text) == Ok(out) {
        var fields := FieldsRead(k, texts, request);
        assert ReadsAs(k, texts, fields) && Agrees(k, fields, request);
      }
      if fields :| ReadsAs(k, texts, fields) && Agrees(k, fields, request)
                   && out == StoredOutcome(k, fields, |fields|) {
        forall i | 0 <= i < |Checks(k)|
          ensures ParseField(texts[Checks(k)[i]], Layout(k)[Checks(k)[i]].kind) == Ok(request[Checks(k)[i]])
        {
          ChecksAreIdentity(k, Checks(k)[i]);
          ParseIsDenoting(texts[Checks(k)[i]], Layout(k)[Checks(k)[i]].kind, fields[Checks(k)[i]]);
        }
      }
    }
  }

  lemma FieldsRead(k: Kind, texts: seq<string>, request: seq<Field>) returns (fields: seq<Field>)
    requires |texts| == |request| == |Layout(k)| && forall i :: 0 <= i < |Checks(k)| ==> Checks(k)[i] < |texts|
    requires Compare(k, texts, request, Checks(k)).Ok? && Outcomes(k, texts, |texts|).Ok?
    ensures ReadsAs(k, texts, fields) && Agrees(k, fields, request)
  {
    hide Layout, Checks, Outcomes, Compare, ParseField, OfType, Denotes;
    CompareExactly(k, texts, request, Checks(k));
    OutcomesExactly(k, texts, |texts|);
    forall i: nat | i < |texts| ensures ParseField(texts[i], Layout(k)[i].kind).Ok?
      ensures Layout(k)[i].role != Outcome ==> ParseField(texts[i], Layout(k)[i].kind) == Ok(request[i])
    {
      ChecksAreIdentity(k, i);
      if i in Checks(k) { var j :| 0 <= j < |Checks(k)| && Checks(k)[j] == i; }
    }
    fields := seq(|texts|, i requires 0 <= i < |texts| => ParseField(texts[i], Layout(k)[i].kind).value);
    forall i | 0 <= i < |fields| ensures OfType(fields[i], Layout(k)[i].kind) && Denotes(texts[i], fields[i]) {
      ParseIsDenoting(texts[i], Layout(k)[i].kind, fields[i]);
    }
  }

  lemma TagsDistinct(a: Kind, b: Kind)
    requires a != b
    ensures Tag(a) != Tag(b)
  {
    assert Tag(Commit)[6] == 'c' && Tag(Delete)[6] == 'd';
    assert Tag(RelationshipDelete)[13] == 'd' && Tag(RelationshipImport)[13] == 'i'
        && Tag(RelationshipCreate)[13] == 'c';
    assert Tag(SegmentCompaction)[0] == 's' && Tag(VertexDelete)[0] == 'v' && Tag(CellDrop)[0] == 'c'
        && Tag(BulkImport)[0] == 'b';
  }

  /** No decoder accepts another kind's record. */
  lemma KindsDoNotMix(k: Kind, other: Kind, fields: seq<Field>, request: seq<Field>)
    requires ValidRecord(other, fields) && k != other && |request| == |Layout(k)|
    ensures Decode(k, request, Encode(other, fields)) == Err(CorruptValue)
  {
    hide FieldText, RecordFields, Encode, Layout, Tag, Fits, Checks, Outcomes, Compare;
    EncodedFields(other, fields);
    TagsDistinct(k, other);
  }
}
