/** Which locality cell a key belongs to. */
module Locality {
  import opened Basics
  import opened Splitting
  import opened Keys

  const CELL: string := "cell/"

  /** `locality_cell_prefix_len`: up to and including the slash after the cell. */
  function CellPrefixLen(key: string): (r: Option<nat>)
    ensures r.Some? ==> |CELL| + 2 <= r.value <= |key| && key[r.value - 1] == '/'
  {
    if !(CELL <= key) || '/' !in key[|CELL|..] then None
    else
      var end := IndexOf(key[|CELL|..], '/');
      if end == 0 then None else Some(|CELL| + end + 1)
  }

  function CellIdOf(key: string): Option<string> {
    match CellPrefixLen(key)
    case None => None
    case Some(n) => Some(key[|CELL|..n - 1])
  }

  /** A key in a cell, written out. */
  lemma InCell(cell: string, rest: string)
    requires cell != "" && '/' !in cell
    ensures CellPrefixLen(CELL + cell + "/" + rest) == Some(|CELL| + |cell| + 1)
    ensures CellIdOf(CELL + cell + "/" + rest) == Some(cell)
  {
    var key := CELL + cell + "/" + rest;
    assert key[|CELL|..] == cell + "/" + rest;
    IndexOfConcat(cell, '/', rest);
    assert key[|CELL|..|CELL| + |cell|] == cell;
  }

  /** The extractor answers exactly the keys of the form `cell/<id>/...`. */
  lemma CellIdExact(key: string, cell: string)
    ensures CellIdOf(key) == Some(cell) <==> cell != "" && '/' !in cell && CELL + cell + "/" <= key
  {
    if CellIdOf(key) == Some(cell) {
      var n := CellPrefixLen(key).value;
      var tail := key[|CELL|..];
      var end := IndexOf(tail, '/');
      assert cell == tail[..end];
      assert key[..n] == CELL + cell + "/";
    }
    if cell != "" && '/' !in cell && CELL + cell + "/" <= key {
      var rest := key[|CELL + cell + "/"|..];
      assert key == CELL + cell + "/" + rest;
      InCell(cell, rest);
    }
  }

  /** Whatever follows the prefix does not matter. */
  lemma CellIdStable(key: string, rest: string)
    requires CellPrefixLen(key).Some?
    ensures CellIdOf(key[..CellPrefixLen(key).value] + rest) == CellIdOf(key)
    ensures CellPrefixLen(key[..CellPrefixLen(key).value] + rest) == CellPrefixLen(key)
  {
    var cell := CellIdOf(key).value;
    CellIdExact(key, cell);
    var n := CellPrefixLen(key).value;
    assert key[..n] == CELL + cell + "/";
    InCell(cell, rest);
  }

  /** Every graph key belongs to its own cell. */
  lemma GraphKeyCell(k: GraphKey)
    requires ValidKey(k)
    ensures CellIdOf(Format(k)) == Some(k.cell)
  {
    hide Format;
    CellPrefixExact(k.cell, k);
    ComponentFree(k.cell, '/');
    assert CellPrefix(k.cell) == CELL + k.cell + "/" by {
      JoinConcat(["cell"], [k.cell], '/');
      assert ["cell"] + [k.cell] == ["cell", k.cell];
      assert CELL == "cell" + "/";
    }
    CellIdExact(Format(k), k.cell);
  }

  datatype Layout = Layout(total: nat, segmentable: nat, cells: map<string, nat>, unsegmentable: seq<string>)

  /** How many of the keys belong to the cell. */
  ghost function CountIn(keys: seq<string>, cell: string): nat {
    if keys == [] then 0
    else CountIn(keys[..|keys| - 1], cell) + if CellIdOf(keys[|keys| - 1]) == Some(cell) then 1 else 0
  }

  ghost function Outside(keys: seq<string>): seq<string> {
    if keys == [] then []
    else Outside(keys[..|keys| - 1]) + if CellIdOf(keys[|keys| - 1]).None? then [keys[|keys| - 1]] else []
  }

  /** `compare_locality_layouts`: every key is counted once, under its cell or
      among the rest. */
  method CompareLayouts(keys: seq<string>) returns (r: Layout)
    ensures r.total == |keys| == r.segmentable + |r.unsegmentable|
    ensures r.unsegmentable == Outside(keys)
    ensures forall c :: (c in r.cells <==> CountIn(keys, c) > 0) && (c in r.cells ==> r.cells[c] == CountIn(keys, c))
  {
    hide CellIdOf;
    r := Layout(0, 0, map[], []);
    for i := 0 to |keys|
      invariant r.total == i == r.segmentable + |r.unsegmentable|
      invariant r.unsegmentable == Outside(keys[..i])
      invariant forall c :: c in r.cells <==> CountIn(keys[..i], c) > 0
      invariant forall c :: c in r.cells ==> r.cells[c] == CountIn(keys[..i], c)
    {
      assert keys[..i + 1][..i] == keys[..i];
      var cell := CellIdOf(keys[i]);
      if cell.Some? {
        var before := if cell.value in r.cells then r.cells[cell.value] else 0;
        r := Layout(r.total + 1, r.segmentable + 1, r.cells[cell.value := before + 1], r.unsegmentable);
      } else {
        r := Layout(r.total + 1, r.segmentable, r.cells, r.unsegmentable + [keys[i]]);
      }
    }
    assert keys[..|keys|] == keys;
  }
}
