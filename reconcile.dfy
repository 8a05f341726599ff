/** The scanned and missing tables of the stocktake page: two boolean masks
    over the inventory, each keeping the inventory's row order. */
module Reconcile {
  import opened Barcode
  import opened Stocktake

  /** The rows whose normalised barcode is in the scanned list (keep) or is
      not (not keep), in inventory order. */
  function Select(inventory: seq<Row>, scanned: seq<string>, keep: bool): (rows: seq<Row>)
    ensures forall row :: row in rows <==> row in inventory && (Key(row) in scanned <==> keep)
    ensures |rows| <= |inventory|
  {
    if inventory == [] then []
    else
      var head := if (Key(inventory[0]) in scanned) == keep then [inventory[0]] else [];
      assert inventory == [inventory[0]] + inventory[1..];
      head + Select(inventory[1..], scanned, keep)
  }

  /** scanned_df: df[df[BARCODE].map(clean_barcode).isin(scanned)]. */
  function ScannedRows(inventory: seq<Row>, scanned: seq<string>): (rows: seq<Row>)
    ensures forall row :: row in rows <==> row in inventory && Key(row) in scanned
  {
    Select(inventory, scanned, true)
  }

  /** missing_df: df[~df[BARCODE].map(clean_barcode).isin(scanned)]. */
  function MissingRows(inventory: seq<Row>, scanned: seq<string>): (rows: seq<Row>)
    ensures forall row :: row in rows <==> row in inventory && Key(row) !in scanned
  {
    Select(inventory, scanned, false)
  }

  /** c is an interleaving of a and b: c can be dealt out into a and b,
      element by element, keeping the order of each. */
  ghost predicate Interleaves<T>(a: seq<T>, b: seq<T>, c: seq<T>)
    decreases |c|
  {
    if c == [] then a == [] && b == []
    else
      || (a != [] && a[0] == c[0] && Interleaves(a[1..], b, c[1..]))
      || (b != [] && b[0] == c[0] && Interleaves(a, b[1..], c[1..]))
  }

  /** a occurs in c in order, possibly with gaps. */
  ghost predicate IsSubsequence<T>(a: seq<T>, c: seq<T>)
    decreases |c|
  {
    if a == [] then true
    else if c == [] then false
    else (a[0] == c[0] && IsSubsequence(a[1..], c[1..])) || IsSubsequence(a, c[1..])
  }

  /** The inventory is exactly the scanned rows and the missing rows dealt
      together: every row goes to one side, and each side keeps inventory
      order (not scan order). */
  lemma {:induction false} Partition(inventory: seq<Row>, scanned: seq<string>)
    ensures Interleaves(ScannedRows(inventory, scanned), MissingRows(inventory, scanned), inventory)
    decreases |inventory|
  {
    if inventory != [] {
      Partition(inventory[1..], scanned);
      var s, m := ScannedRows(inventory, scanned), MissingRows(inventory, scanned);
      var s', m' := ScannedRows(inventory[1..], scanned), MissingRows(inventory[1..], scanned);
      if Key(inventory[0]) in scanned {
        assert s == [inventory[0]] + s' && m == m';
        assert s[1..] == s';
      } else {
        assert m == [inventory[0]] + m' && s == s';
        assert m[1..] == m';
      }
    }
  }

  /** What an interleaving keeps: every element with its multiplicity, and the
      order of each side. */
  lemma {:induction false} InterleavesParts<T>(a: seq<T>, b: seq<T>, c: seq<T>)
    requires Interleaves(a, b, c)
    ensures multiset(a) + multiset(b) == multiset(c)
    ensures IsSubsequence(a, c) && IsSubsequence(b, c)
    decreases |c|
  {
    if c != [] {
      assert c == [c[0]] + c[1..];
      if a != [] && a[0] == c[0] && Interleaves(a[1..], b, c[1..]) {
        InterleavesParts(a[1..], b, c[1..]);
        assert a == [a[0]] + a[1..];
        SubsequenceSkip(b, c);
      } else {
        InterleavesParts(a, b[1..], c[1..]);
        assert b == [b[0]] + b[1..];
        SubsequenceSkip(a, c);
      }
    }
  }

  lemma SubsequenceSkip<T>(a: seq<T>, c: seq<T>)
    requires c != [] && IsSubsequence(a, c[1..])
    ensures IsSubsequence(a, c)
  {
  }

  /** The scanned and missing tables split the inventory exactly: no row is
      lost or counted twice, and both keep the inventory's order. */
  lemma PartitionParts(inventory: seq<Row>, scanned: seq<string>)
    ensures multiset(ScannedRows(inventory, scanned)) + multiset(MissingRows(inventory, scanned)) == multiset(inventory)
    ensures |ScannedRows(inventory, scanned)| + |MissingRows(inventory, scanned)| == |inventory|
    ensures IsSubsequence(ScannedRows(inventory, scanned), inventory)
    ensures IsSubsequence(MissingRows(inventory, scanned), inventory)
    ensures forall row :: row in inventory ==> (row in ScannedRows(inventory, scanned) <==> row !in MissingRows(inventory, scanned))
  {
    var s, m := ScannedRows(inventory, scanned), MissingRows(inventory, scanned);
    Partition(inventory, scanned);
    InterleavesParts(s, m, inventory);
    assert |multiset(s)| + |multiset(m)| == |multiset(inventory)|;
  }

  /** Nothing is missing exactly when every row's barcode has been scanned. */
  lemma NothingMissing(inventory: seq<Row>, scanned: seq<string>)
    ensures MissingRows(inventory, scanned) == [] <==> forall i :: 0 <= i < |inventory| ==> Key(inventory[i]) in scanned
  {
    var m := MissingRows(inventory, scanned);
    if m != [] {
      assert m[0] in m;
    }
    if exists i :: 0 <= i < |inventory| && Key(inventory[i]) !in scanned {
      var i :| 0 <= i < |inventory| && Key(inventory[i]) !in scanned;
      assert inventory[i] in m;
    }
  }

  /** Appending a barcode to the list moves exactly the rows with that
      barcode from the missing table to the scanned table. */
  lemma AppendMovesRows(scanned: seq<string>, inventory: seq<Row>, code: string)
    ensures forall row :: row in ScannedRows(inventory, scanned + [code]) <==>
      row in ScannedRows(inventory, scanned) || (row in inventory && Key(row) == code)
    ensures forall row :: row in MissingRows(inventory, scanned + [code]) <==>
      row in MissingRows(inventory, scanned) && Key(row) != code
  {
    var s' := scanned + [code];
    assert forall x :: x in s' <==> x in scanned || x == code;
  }

  /** An accepted scan moves every row with that barcode from the missing
      table to the scanned table, at least one of them, and leaves every
      other row where it was; a rejected scan changes neither table. */
  lemma ScanMovesRows(scanned: seq<string>, inventory: seq<Row>, input: string)
    ensures var o, s' := Decide(scanned, inventory, input), Next(scanned, inventory, input);
      && (!o.Added? ==> ScannedRows(inventory, s') == ScannedRows(inventory, scanned)
                        && MissingRows(inventory, s') == MissingRows(inventory, scanned))
      && (o.Added? ==>
          && (forall row :: row in ScannedRows(inventory, s') <==> row in ScannedRows(inventory, scanned) || (row in inventory && Key(row) == o.code))
          && (forall row :: row in MissingRows(inventory, s') <==> row in MissingRows(inventory, scanned) && Key(row) != o.code)
          && (exists row :: row in ScannedRows(inventory, s') && Key(row) == o.code))
  {
    var o := Decide(scanned, inventory, input);
    NextShape(scanned, inventory, input);
    if o.Added? {
      var k :| 0 <= k < |inventory| && Key(inventory[k]) == o.code;
      AppendMovesRows(scanned, inventory, o.code);
      assert inventory[k] in ScannedRows(inventory, scanned + [o.code]);
    }
  }

  lemma SelectOne(row: Row, scanned: seq<string>, keep: bool)
    ensures Select([row], scanned, keep) == if (Key(row) in scanned) == keep then [row] else []
  {
    assert [row][1..] == [];
    assert Select([], scanned, keep) == [];
  }

  /** A one-row inventory whose barcode normalises to the same code as the
      input: the first scan is accepted and the row moves to the scanned
      table. */
  lemma FirstScanOfOnlyRow(row: Row, input: string)
    requires Key(row) != "" && Clean(Str(input)) == Key(row)
    ensures Decide([], [row], input) == Added(Key(row))
    ensures Next([], [row], input) == [Key(row)]
    ensures ScannedRows([row], [Key(row)]) == [row]
    ensures MissingRows([row], [Key(row)]) == []
  {
    assert Keys([row]) == [Key(row)] by {
      assert [row][1..] == [];
    }
    SelectOne(row, [Key(row)], true);
    SelectOne(row, [Key(row)], false);
  }

  /** A stocktake walk-through: an inventory row with barcode 4001, read from
      a spreadsheet as text, and the scanner input "4001.0 ". The scan is
      accepted as "4001", the row is in the scanned table and not in the
      missing one. */
  lemma EndToEnd(row: Row, input: string)
    requires row.barcode == "4001" && input == "4001.0 "
    ensures Decide([], [row], input) == Added("4001")
    ensures Next([], [row], input) == ["4001"]
    ensures ScannedRows([row], ["4001"]) == [row]
    ensures MissingRows([row], ["4001"]) == []
  {
    ExampleTrailingSpace();
    ExampleCanonical();
    FirstScanOfOnlyRow(row, input);
  }
}
