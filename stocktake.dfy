/** The scan-submit step of the stocktake page: one input is normalised and
    then rejected as empty, rejected as already scanned, appended to the
    session's list of scanned barcodes, or rejected as not in the inventory,
    checked in that order. */
module Stocktake {
  import opened Barcode

  /** One inventory row: its BARCODE cell and its other columns, every cell
      already converted to a string. */
  datatype Row = Row(barcode: string, columns: map<string, string>)

  /** The normalised barcode of a row. */
  function Key(row: Row): string
  {
    Clean(Str(row.barcode))
  }

  /** df[BARCODE].map(clean_barcode): the normalised barcode column, row by
      row in inventory order. */
  function Keys(inventory: seq<Row>): (keys: seq<string>)
    ensures |keys| == |inventory|
    ensures forall i :: 0 <= i < |inventory| ==> keys[i] == Key(inventory[i])
  {
    if inventory == [] then [] else [Key(inventory[0])] + Keys(inventory[1..])
  }

  /** What the page reports for one submitted input. */
  datatype Outcome =
    | EmptyInput                    // "Please scan or enter a barcode."
    | AlreadyScanned(code: string)  // "Barcode already scanned in this session."
    | Added(code: string)           // "Added barcode: <code>"
    | NotInInventory(code: string)  // "Barcode not found in inventory."

  /** The verdict on one input, given the barcodes scanned so far and the
      inventory. */
  function Decide(scanned: seq<string>, inventory: seq<Row>, input: string): (o: Outcome)
    ensures o.EmptyInput? <==> Clean(Str(input)) == ""
    ensures !o.EmptyInput? ==> o.code == Clean(Str(input)) && o.code != ""
    ensures o.AlreadyScanned? <==> !o.EmptyInput? && o.code in scanned
    ensures o.Added? ==> o.code !in scanned && exists i :: 0 <= i < |inventory| && Key(inventory[i]) == o.code
    ensures o.NotInInventory? ==> o.code !in scanned && forall i :: 0 <= i < |inventory| ==> Key(inventory[i]) != o.code
  {
    var cleaned := Clean(Str(input));
    if cleaned == "" then EmptyInput
    else if cleaned in scanned then AlreadyScanned(cleaned)
    else if cleaned in Keys(inventory) then Added(cleaned)
    else NotInInventory(cleaned)
  }

  /** The list after an outcome: only an acceptance changes it, by appending
      the accepted code at the end. */
  function After(scanned: seq<string>, o: Outcome): seq<string>
  {
    if o.Added? then scanned + [o.code] else scanned
  }

  function Next(scanned: seq<string>, inventory: seq<Row>, input: string): seq<string>
  {
    After(scanned, Decide(scanned, inventory, input))
  }

  ghost predicate NoDuplicates(s: seq<string>)
  {
    forall i, j :: 0 <= i < j < |s| ==> s[i] != s[j]
  }

  /** What the list of scanned barcodes always satisfies, whatever inventory
      each rerun of the page loads: no barcode twice, no empty barcode, and
      every entry already in normal form. */
  ghost predicate SessionInvariant(scanned: seq<string>)
  {
    && NoDuplicates(scanned)
    && (forall i :: 0 <= i < |scanned| ==> scanned[i] != "")
    && (forall i :: 0 <= i < |scanned| ==> Clean(Str(scanned[i])) == scanned[i])
  }

  /** Every scanned barcode is the normalised barcode of some inventory row. */
  ghost predicate WithinInventory(scanned: seq<string>, inventory: seq<Row>)
  {
    forall i :: 0 <= i < |scanned| ==> exists j :: 0 <= j < |inventory| && Key(inventory[j]) == scanned[i]
  }

  /** Appending a normalised, non-empty barcode that is not yet in the list
      keeps the list's invariant. */
  lemma AppendKeepsInvariant(scanned: seq<string>, code: string)
    requires SessionInvariant(scanned)
    requires code != "" && code !in scanned && Clean(Str(code)) == code
    ensures SessionInvariant(scanned + [code])
  {
    var s' := scanned + [code];
    forall i | 0 <= i < |s'|
      ensures s'[i] != "" && Clean(Str(s'[i])) == s'[i]
    {
      if i < |scanned| {
        assert s'[i] == scanned[i];
      }
    }
    forall i, j | 0 <= i < j < |s'|
      ensures s'[i] != s'[j]
    {
      if j < |scanned| {
        assert s'[i] == scanned[i] && s'[j] == scanned[j];
      } else {
        assert s'[i] == scanned[i] && s'[j] == code;
      }
    }
  }

  /** One step rejects without touching the list and on acceptance appends
      exactly the cleaned input, leaving the earlier entries as they were. */
  lemma NextShape(scanned: seq<string>, inventory: seq<Row>, input: string)
    ensures !Decide(scanned, inventory, input).Added? ==> Next(scanned, inventory, input) == scanned
    ensures Decide(scanned, inventory, input).Added? ==>
      Next(scanned, inventory, input) == scanned + [Clean(Str(input))]
  {
  }

  /** One step keeps the session invariant, with any inventory. */
  lemma NextKeepsInvariant(scanned: seq<string>, inventory: seq<Row>, input: string)
    requires SessionInvariant(scanned)
    ensures SessionInvariant(Next(scanned, inventory, input))
  {
    var o := Decide(scanned, inventory, input);
    if o.Added? {
      CleanIdempotent(Str(input));
      AppendKeepsInvariant(scanned, o.code);
    }
  }

  lemma AppendStaysWithin(scanned: seq<string>, inventory: seq<Row>, code: string, k: nat)
    requires WithinInventory(scanned, inventory)
    requires k < |inventory| && Key(inventory[k]) == code
    ensures WithinInventory(scanned + [code], inventory)
  {
    var s' := scanned + [code];
    forall i | 0 <= i < |s'|
      ensures exists j :: 0 <= j < |inventory| && Key(inventory[j]) == s'[i]
    {
      if i < |scanned| {
        assert s'[i] == scanned[i];
      } else {
        assert Key(inventory[k]) == s'[i];
      }
    }
  }

  /** With the inventory held fixed, one step admits only inventory barcodes. */
  lemma NextStaysWithin(scanned: seq<string>, inventory: seq<Row>, input: string)
    requires WithinInventory(scanned, inventory)
    ensures WithinInventory(Next(scanned, inventory, input), inventory)
  {
    var o := Decide(scanned, inventory, input);
    if o.Added? {
      var k :| 0 <= k < |inventory| && Key(inventory[k]) == o.code;
      AppendStaysWithin(scanned, inventory, o.code, k);
    }
  }

  /** One press of "Add Scanned Barcode": the inventory the page loaded on
      that rerun, and the text in the input box. */
  datatype Press = Press(inventory: seq<Row>, input: string)

  /** The list after a sequence of presses, one rerun at a time, each
      checked against the inventory loaded on its own rerun. */
  function Run(scanned: seq<string>, presses: seq<Press>): seq<string>
    decreases |presses|
  {
    if presses == [] then scanned
    else Run(Next(scanned, presses[0].inventory, presses[0].input), presses[1..])
  }

  /** Every press was made against the same inventory. */
  ghost predicate AllAgainst(presses: seq<Press>, inventory: seq<Row>)
  {
    forall i :: 0 <= i < |presses| ==> presses[i].inventory == inventory
  }

  /** Across any sequence of presses the list only grows at the end, earlier
      entries never change, and it grows by at most one entry per press. */
  lemma {:induction false} RunExtends(scanned: seq<string>, presses: seq<Press>)
    ensures |scanned| <= |Run(scanned, presses)| <= |scanned| + |presses|
    ensures Run(scanned, presses)[..|scanned|] == scanned
    decreases |presses|
  {
    if presses != [] {
      var p := presses[0];
      var s1 := Next(scanned, p.inventory, p.input);
      NextShape(scanned, p.inventory, p.input);
      RunExtends(s1, presses[1..]);
      assert s1[..|scanned|] == scanned;
    }
  }

  /** Across any sequence of presses, whatever inventory each rerun loads,
      the list stays duplicate-free, free of empty entries and in normal
      form. */
  lemma {:induction false} RunKeepsInvariant(scanned: seq<string>, presses: seq<Press>)
    requires SessionInvariant(scanned)
    ensures SessionInvariant(Run(scanned, presses))
    decreases |presses|
  {
    if presses != [] {
      var p := presses[0];
      NextKeepsInvariant(scanned, p.inventory, p.input);
      RunKeepsInvariant(Next(scanned, p.inventory, p.input), presses[1..]);
    }
  }

  /** Across any sequence of presses against one inventory, the list holds
      only that inventory's barcodes. */
  lemma {:induction false} RunStaysWithin(scanned: seq<string>, inventory: seq<Row>, presses: seq<Press>)
    requires WithinInventory(scanned, inventory) && AllAgainst(presses, inventory)
    ensures WithinInventory(Run(scanned, presses), inventory)
    decreases |presses|
  {
    if presses != [] {
      var p := presses[0];
      assert p.inventory == inventory;
      NextStaysWithin(scanned, inventory, p.input);
      assert AllAgainst(presses[1..], inventory) by {
        forall i | 0 <= i < |presses| - 1 ensures presses[1..][i].inventory == inventory {
          assert presses[1..][i] == presses[i + 1];
        }
      }
      RunStaysWithin(Next(scanned, inventory, p.input), inventory, presses[1..]);
    }
  }

  /** A session starts empty, so every list it reaches is duplicate-free and
      has no empty entries, and while the inventory stays the same it holds
      only that inventory's barcodes and no more of them than it has rows. */
  lemma RunFromEmpty(inventory: seq<Row>, presses: seq<Press>)
    ensures SessionInvariant(Run([], presses))
    ensures AllAgainst(presses, inventory) ==> WithinInventory(Run([], presses), inventory)
    ensures AllAgainst(presses, inventory) ==> |Run([], presses)| <= |inventory|
  {
    RunKeepsInvariant([], presses);
    if AllAgainst(presses, inventory) {
      RunStaysWithin([], inventory, presses);
      ScannedBounded(Run([], presses), inventory);
    }
  }

  lemma {:induction false} DistinctCount(s: seq<string>)
    requires NoDuplicates(s)
    ensures |set x | x in s| == |s|
    decreases |s|
  {
    if s != [] {
      var last := s[|s| - 1];
      var front := s[..|s| - 1];
      assert NoDuplicates(front);
      DistinctCount(front);
      assert (set x | x in s) == (set x | x in front) + {last};
      assert last !in front;
    }
  }

  lemma {:induction false} KeyCount(inventory: seq<Row>)
    ensures |set x | x in Keys(inventory)| <= |inventory|
    decreases |inventory|
  {
    if inventory != [] {
      var k := Keys(inventory);
      KeyCount(inventory[1..]);
      assert k == [Key(inventory[0])] + Keys(inventory[1..]);
      assert (set x | x in k) == {Key(inventory[0])} + (set x | x in Keys(inventory[1..]));
    }
  }

  /** No more barcodes can be scanned than the inventory has rows. */
  lemma ScannedBounded(scanned: seq<string>, inventory: seq<Row>)
    requires SessionInvariant(scanned) && WithinInventory(scanned, inventory)
    ensures |scanned| <= |inventory|
  {
    DistinctCount(scanned);
    KeyCount(inventory);
    var keys := Keys(inventory);
    assert (set x | x in scanned) <= (set x | x in keys) by {
      forall x | x in scanned ensures x in keys {
        var i :| 0 <= i < |scanned| && scanned[i] == x;
        var j :| 0 <= j < |inventory| && Key(inventory[j]) == scanned[i];
        assert keys[j] == x;
      }
    }
    SubsetCard(set x | x in scanned, set x | x in keys);
  }

  lemma SubsetCard(a: set<string>, b: set<string>)
    requires a <= b
    ensures |a| <= |b|
  {
    assert b == a + (b - a);
  }

  /** The page's session state: the list st.session_state["scanned_barcodes"]. */
  class ScanSession {
    var scanned: seq<string>

    ghost predicate Valid()
      reads this
    {
      SessionInvariant(scanned)
    }

    /** A new session starts with no barcodes scanned. */
    constructor ()
      ensures scanned == [] && Valid()
    {
      scanned := [];
    }

    /** One press of "Add Scanned Barcode" with the given input. */
    method Submit(inventory: seq<Row>, input: string) returns (outcome: Outcome)
      modifies this
      ensures outcome == Decide(old(scanned), inventory, input)
      ensures scanned == After(old(scanned), outcome)
      ensures old(Valid()) ==> Valid()
      ensures WithinInventory(old(scanned), inventory) ==> WithinInventory(scanned, inventory)
    {
      NextShape(scanned, inventory, input);
      if Valid() {
        NextKeepsInvariant(scanned, inventory, input);
      }
      if WithinInventory(scanned, inventory) {
        NextStaysWithin(scanned, inventory, input);
      }
      var cleaned := Clean(Str(input));
      if cleaned == "" {
        outcome := EmptyInput;
      } else if cleaned in scanned {
        outcome := AlreadyScanned(cleaned);
      } else if cleaned in Keys(inventory) {
        scanned := scanned + [cleaned];
        outcome := Added(cleaned);
      } else {
        outcome := NotInInventory(cleaned);
      }
    }
  }
}
