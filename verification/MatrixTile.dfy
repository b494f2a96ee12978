/** Matrix tiles as one-line text records with nested separators. */
module MatrixTiles {
  import opened Basics
  import opened Ascending
  import opened Splitting
  import opened Numerals
  import opened Keys

  datatype Direction = Out | In

  datatype MatrixTile = MatrixTile(
    cell: string, edgeType: string, epoch: U64, size: U64, direction: Direction, row: U64, col: U64,
    rows: map<U64, seq<U64>>)

  predicate ValidTile(t: MatrixTile) { ValidComponent(t.cell) && ValidComponent(t.edgeType) }

  lemma DecimalFacts(n: U64)
    ensures ParseU64(Decimal(n)) == Ok(n) && Decimal(n) != ""
    ensures forall c :: c in Decimal(n) ==> '0' <= c <= '9'
  {
    ParseDigits(n);
    DigitsValue(n, 10);
    forall c | c in Decimal(n) ensures '0' <= c <= '9' {
      assert DigitValue(c, 10).Some?;
    }
  }

  // Vertex lists.

  function EncodeVertices(vs: seq<U64>): string { if vs == [] then "" else Join(Decimals(vs), ',') }

  function DecodeVertices(text: string): Result<seq<U64>> {
    if text == "" then Ok([]) else ParseAllU64(Split(text, ','))
  }

  /** The characters of an encoded vertex list. */
  predicate VertexChars(s: string) { forall c :: c in s ==> '0' <= c <= '9' || c == ',' }

  lemma {:induction false} JoinChars(parts: seq<string>)
    requires parts != [] && forall p :: p in parts ==> VertexChars(p)
    ensures VertexChars(Join(parts, ','))
  {
    if |parts| > 1 {
      assert parts[0] in parts;
      JoinChars(parts[1..]);
    } else {
      assert parts[0] in parts;
    }
  }

  lemma VerticesRoundTrip(vs: seq<U64>)
    ensures DecodeVertices(EncodeVertices(vs)) == Ok(vs)
    ensures VertexChars(EncodeVertices(vs))
  {
    hide Decimal, ParseU64;
    if vs != [] {
      var parts := Decimals(vs);
      forall p | p in parts ensures ',' !in p && VertexChars(p) && p != "" {
        var i :| 0 <= i < |vs| && parts[i] == p;
        DecimalFacts(vs[i]);
      }
      SplitJoin(parts, ',');
      JoinChars(parts);
      ParseDecimals(vs);
      assert parts[0] != "";
    }
  }

  // Rows.

  function RowText(src: U64, dsts: seq<U64>): string { Decimal(src) + ":" + EncodeVertices(dsts) }

  /** One row: `split_once(':')`, then both sides. */
  function DecodeRow(text: string): Result<(U64, seq<U64>)> {
    if ':' !in text then Err(CorruptValue)
    else
      var at := IndexOf(text, ':');
      var src :- ParseU64(text[..at]);
      var dsts :- DecodeVertices(text[at + 1..]);
      Ok((src, dsts))
  }

  lemma RowRoundTrip(src: U64, dsts: seq<U64>)
    ensures DecodeRow(RowText(src, dsts)) == Ok((src, dsts))
    ensures RowText(src, dsts) != "" && forall c :: c in RowText(src, dsts) ==> c != ';' && c != '\t' && c != '\n'
  {
    hide Decimal, ParseU64, DecodeVertices, EncodeVertices;
    DecimalFacts(src);
    VerticesRoundTrip(dsts);
    var head, tail := Decimal(src), EncodeVertices(dsts);
    IndexOfConcat(head, ':', tail);
    var text := RowText(src, dsts);
    assert text[..|head|] == head && text[|head| + 1..] == tail;
  }

  /** The rows in iteration order. */
  function RowTexts(rows: map<U64, seq<U64>>, keys: seq<U64>): (r: seq<string>)
    requires forall k :: k in keys ==> k in rows
    ensures |r| == |keys| && forall i :: 0 <= i < |r| ==> r[i] == RowText(keys[i], rows[keys[i]])
  {
    seq(|keys|, i requires 0 <= i < |keys| => assert keys[i] in keys; RowText(keys[i], rows[keys[i]]))
  }

  function EncodeRows(rows: map<U64, seq<U64>>): string {
    var keys := Listing(rows.Keys);
    assert forall k :: k in keys ==> k in Elems(keys);
    if keys == [] then "" else Join(RowTexts(rows, keys), ';')
  }

  function DecodeRowTexts(parts: seq<string>): Result<map<U64, seq<U64>>> {
    if parts == [] then Ok(map[])
    else
      var before :- DecodeRowTexts(parts[..|parts| - 1]);
      var (src, dsts) :- DecodeRow(parts[|parts| - 1]);
      Ok(before[src := dsts])
  }

  function DecodeRows(text: string): Result<map<U64, seq<U64>>> {
    if text == "" then Ok(map[]) else DecodeRowTexts(Split(text, ';'))
  }

  ghost function Restrict(rows: map<U64, seq<U64>>, keys: seq<U64>): map<U64, seq<U64>> {
    map k | k in rows && k in keys :: rows[k]
  }

  lemma {:induction false} RowTextsDecode(rows: map<U64, seq<U64>>, keys: seq<U64>)
    requires forall k :: k in keys ==> k in rows
    ensures DecodeRowTexts(RowTexts(rows, keys)) == Ok(Restrict(rows, keys))
  {
    hide RowText, DecodeRow;
    if keys == [] {
      assert Restrict(rows, keys) == map[];
    } else {
      var front, last := keys[..|keys| - 1], keys[|keys| - 1];
      assert keys == front + [last];
      assert last in keys;
      RowTextsDecode(rows, front);
      assert RowTexts(rows, keys)[..|keys| - 1] == RowTexts(rows, front);
      RowRoundTrip(last, rows[last]);
      assert Restrict(rows, keys) == Restrict(rows, front)[last := rows[last]];
    }
  }

  lemma {:induction false} JoinAvoids(parts: seq<string>)
    requires parts != [] && forall p :: p in parts ==> p != "" && '\t' !in p && '\n' !in p
    ensures Join(parts, ';') != "" && '\t' !in Join(parts, ';') && '\n' !in Join(parts, ';')
  {
    assert parts[0] in parts;
    if |parts| > 1 {
      assert forall p :: p in parts[1..] ==> p in parts;
      JoinAvoids(parts[1..]);
    }
  }

  lemma RowsRoundTrip(rows: map<U64, seq<U64>>)
    ensures DecodeRows(EncodeRows(rows)) == Ok(rows)
    ensures '\t' !in EncodeRows(rows) && '\n' !in EncodeRows(rows)
  {
    hide RowText, DecodeRow, Listing, Join, Split, DecodeRowTexts;
    var keys := Listing(rows.Keys);
    forall k ensures k in keys <==> k in rows { assert k in keys <==> k in Elems(keys); }
    if keys == [] {
      assert rows == map[];
    } else {
      RowTextsClean(rows, keys);
      var parts := RowTexts(rows, keys);
      SplitJoin(parts, ';');
      JoinAvoids(parts);
      RowTextsDecode(rows, keys);
      assert Restrict(rows, keys) == rows;
    }
  }

  lemma RowTextsClean(rows: map<U64, seq<U64>>, keys: seq<U64>)
    requires forall k :: k in keys ==> k in rows
    ensures forall p :: p in RowTexts(rows, keys) ==> p != "" && ';' !in p && '\t' !in p && '\n' !in p
  {
    hide RowText;
    var parts := RowTexts(rows, keys);
    forall p | p in parts ensures p != "" && ';' !in p && '\t' !in p && '\n' !in p {
      var i :| 0 <= i < |keys| && parts[i] == p;
      assert keys[i] in keys;
      RowRoundTrip(keys[i], rows[keys[i]]);
    }
  }

  // The record.

  const TILE_TAG: string := "matrix_tile1"

  function DirectionText(d: Direction): string { if d == Out then "out" else "in" }

  function ParseDirection(s: string): Result<Direction> {
    if s == "out" then Ok(Out) else if s == "in" then Ok(In) else Err(CorruptValue)
  }

  function TileFields(t: MatrixTile): (r: seq<string>)
    ensures |r| == 9
  {
    [TILE_TAG, t.cell, t.edgeType, Decimal(t.epoch), Decimal(t.size), DirectionText(t.direction), Decimal(t.row),
        Decimal(t.col), EncodeRows(t.rows)]
  }

  function EncodeTile(t: MatrixTile): string { RecordLine(TileFields(t)) }

  function DecodeTile(text: string): Result<MatrixTile> {
    var p := RecordFields(text);
    if |p| != 9 || p[0] != TILE_TAG then Err(CorruptValue)
    else
      var rows :- DecodeRows(p[8]);
      var epoch :- ParseU64(p[3]);
      var size :- ParseU64(p[4]);
      var direction :- ParseDirection(p[5]);
      var row :- ParseU64(p[6]);
      var col :- ParseU64(p[7]);
      Ok(MatrixTile(p[1], p[2], epoch, size, direction, row, col, rows))
  }

  lemma DecimalClean(n: U64)
    ensures '\t' !in Decimal(n) && '\n' !in Decimal(n)
  {
    DecimalFacts(n);
  }

  lemma TileFieldsClean(t: MatrixTile)
    requires ValidTile(t)
    ensures Free(TileFields(t), '\t') && Free(TileFields(t), '\n')
  {
    hide Decimal, EncodeRows, ValidComponent;
    ComponentFree(t.cell, '\t');
    ComponentFree(t.cell, '\n');
    ComponentFree(t.edgeType, '\t');
    ComponentFree(t.edgeType, '\n');
    DecimalClean(t.epoch);
    DecimalClean(t.size);
    DecimalClean(t.row);
    DecimalClean(t.col);
    RowsRoundTrip(t.rows);
    assert '\t' !in TILE_TAG && '\n' !in TILE_TAG;
    assert '\t' !in DirectionText(t.direction) && '\n' !in DirectionText(t.direction);
  }

  /** Every tile survives its record, whatever rows it holds. */
  lemma TileRoundTrip(t: MatrixTile)
    requires ValidTile(t)
    ensures DecodeTile(EncodeTile(t)) == Ok(t)
  {
    hide Decimal, EncodeRows, DecodeRows, ParseU64, RecordLine, RecordFields;
    TileFieldsClean(t);
    RecordRoundTrip(TileFields(t));
    RowsRoundTrip(t.rows);
    DecimalFacts(t.epoch);
    DecimalFacts(t.size);
    DecimalFacts(t.row);
    DecimalFacts(t.col);
    assert "out"[0] != "in"[0];
  }
}
