# Stocktake: barcode normalisation, scanning and reconciliation

This project models the core of the stocktake page of a small
inventory-control application (`pages/Stocktake.py`). An operator scans
barcodes against an inventory spreadsheet. Each scan is normalised so that
spreadsheet spellings such as `4001.0` and scanner spellings such as
`"4001 "` or `"4001\u200b"` agree. The page keeps a per-session list of
accepted barcodes and shows two tables: the inventory rows that have been
scanned and the rows still missing.

The model is in four modules:

- `Decimal` (`decimal.dfy`): the part of Python's `float()` that barcodes
  need (plain decimal literals with an optional sign and point), truncation
  toward zero as `int()` does it, and `str()` of an integer. Proved: both
  round trips between literals and their text, and both round trips
  between integers and their canonical spelling, all in exact decimal
  arithmetic (see "## Left out" for IEEE rounding).
- `Barcode` (`barcode.dfy`): `clean_barcode`. This covers
  `str.strip()` with Python's whitespace set, the removal of U+200B and
  U+00A0, the whitespace `float()` itself skips, the numeric branch, the
  fallback branch and the null/empty guard. The two whitespace sets differ:
  `float()` reads ASCII characters as they are and skips only space, tab,
  LF, VT, FF and CR among them, so the separators U+001C-U+001F that
  `str.strip()` removes make `float()` fail when they reach it. Proved:
  truncation of any padded literal, the fallback for non-numeric text,
  idempotence, and the worked examples.
- `Stocktake` (`stocktake.dfy`): the submit step. `Decide` is the
  four-way verdict; `ScanSession` is a class holding the session's list,
  which its `Submit` method updates in place. Proved: a rejection leaves
  the list alone and an acceptance appends the code. Across any sequence
  of presses, whatever inventory each rerun loads, the list stays
  duplicate-free, free of empty entries and in normal form; while the
  inventory stays the same, it also holds only that inventory's barcodes
  and is no longer than the inventory.
- `Reconcile` (`reconcile.dfy`): the scanned and missing tables. Proved:
  the two tables deal the inventory out between them in inventory order;
  one scan moves exactly the rows with its code between them; and a
  one-row walk-through.

The inventory is a parameter of every operation, because the page reloads
it on each rerun. Every inventory cell is a string, because the page
converts all columns with `astype(str)` before anything reads them.

The session state is a plain list of normalised barcodes. A repeated
scan is rejected, not recorded again (`pages/Stocktake.py:68-69`), and
nothing about a scan other than its barcode is kept.

## Model

| member | source | states |
|---|---|---|
| Decimal.NatToStringSpec | pages/Stocktake.py:12 | `str()` of a non-negative int is canonical: digits only, no leading zero except for 0 itself, and it denotes that number |
| Decimal.IntToStringSpec | pages/Stocktake.py:12 | `str()` of an int is canonical and starts with `-` exactly when the number is negative |
| Decimal.TruncateTowardZero | pages/Stocktake.py:11-12 | `int(float(lit))` is within one of the exact value the literal denotes, on the side of zero: `n <= v < n + 1` for `v >= 0` and `n - 1 < v <= n` for `v < 0` |
| Decimal.ValueBelow | pages/Stocktake.py:11 | a run of k digits denotes a number below 10^k, so a fraction's digits denote a value in [0, 1) |
| Decimal.DigitEndSpec | pages/Stocktake.py:11 | the digit scan passes over digits only and stops at the first non-digit or at the end |
| Decimal.LexRender | pages/Stocktake.py:11 | every well-formed decimal literal is read back from its own text as itself |
| Decimal.RenderLex | pages/Stocktake.py:11 | whatever text the reader accepts is a well-formed literal spelt exactly that way |
| Decimal.ParseRejects | pages/Stocktake.py:11 | text holding a character that is not a digit, sign or point is not a number |
| Decimal.ParseFormat | pages/Stocktake.py:11-12 | in exact decimal arithmetic, reading `str(n)` back as a number gives n, for every integer n |
| Decimal.FormatParse | pages/Stocktake.py:11-12 | in exact decimal arithmetic, a canonical integer spelling reads as a number whose `str()` is that spelling again |
| Barcode.SkipSpaceSpec | pages/Stocktake.py:10-11 | for either whitespace set, the forward scan passes over whitespace only and stops at the first other character or at the end |
| Barcode.SkipSpaceBackSpec | pages/Stocktake.py:10-11 | for either whitespace set, the backward scan passes over whitespace only and stops just after the last other character or at its lower bound |
| Barcode.SkipSpaceUnique | pages/Stocktake.py:10-11 | the forward scan stops at the only place with whitespace before it and something else (or the end) at it |
| Barcode.SkipSpaceBackUnique | pages/Stocktake.py:10-11 | the backward scan stops at the only place with whitespace after it and something else (or the lower bound) before it |
| Barcode.SkipSpaceStops | pages/Stocktake.py:10-11 | the forward scan never passes a character outside the whitespace set |
| Barcode.SkipSpaceBackStops | pages/Stocktake.py:10-11 | the backward scan never passes a character outside the whitespace set |
| Barcode.StripRemovesSpace | pages/Stocktake.py:10-11 | what `strip()` (or `float()`'s own trim) takes off either end is all whitespace of that set |
| Barcode.StripEnds | pages/Stocktake.py:10-11 | what a strip leaves is empty or starts and ends with a character outside the whitespace set |
| Barcode.StripSplit | pages/Stocktake.py:10-11 | the input is exactly leading whitespace, the stripped text and trailing whitespace, and the stripped text has no whitespace at either end |
| Barcode.StripUnpadded | pages/Stocktake.py:10-11 | a text with no whitespace at either end is left unchanged |
| Barcode.StripIdempotent | pages/Stocktake.py:10-11 | stripping twice is stripping once |
| Barcode.StripFramed | pages/Stocktake.py:10-11 | a text framed by whitespace, itself without whitespace at either end, is what a strip leaves |
| Barcode.StripPadded | pages/Stocktake.py:10-11 | whitespace added at either end does not change the stripped text |
| Barcode.StripAround | pages/Stocktake.py:10-11 | stripping text around a core that has no whitespace at either end keeps the whole core and only the parts of the surroundings next to it |
| Barcode.StripKeeps | pages/Stocktake.py:10-11 | a character outside the whitespace set survives a strip |
| Barcode.RemoveCharCount | pages/Stocktake.py:10 | `s.replace(c, '')` removes every `c` and keeps every other character with its multiplicity |
| Barcode.RemoveInvisibleCount | pages/Stocktake.py:10 | no U+200B or U+00A0 is left, and every other character keeps its multiplicity |
| Barcode.RemoveInvisibleConcat | pages/Stocktake.py:10 | removing the invisible characters distributes over concatenation |
| Barcode.RemoveInvisiblePadding | pages/Stocktake.py:10 | float() whitespace and zero-width spaces, once the invisible characters are removed, are float() whitespace only |
| Barcode.CleanShape | pages/Stocktake.py:6-15 | null and `""` give `""`; any other result is a canonical integer or the stripped input |
| Barcode.CleanTruncates | pages/Stocktake.py:10-13 | a decimal literal surrounded by any mix of `float()` whitespace and zero-width spaces normalises to `str()` of its value truncated toward zero (see `Decimal.TruncateTowardZero`) |
| Barcode.PaddedLiteral | pages/Stocktake.py:10-11 | around a literal, the strip, the removal of U+200B and U+00A0 and `float()`'s own trim together leave exactly the literal |
| Barcode.LiteralTextUntouched | pages/Stocktake.py:10-11 | text of signs, digits and points is unchanged by either strip and by the removal of invisible characters |
| Barcode.CleanKeepsText | pages/Stocktake.py:14-15 | a text holding a character that is neither numeric, whitespace nor U+200B comes back only stripped, invisible characters included |
| Barcode.CleanCanonical | pages/Stocktake.py:10-13 | with numbers read exactly, a canonical integer spelling is its own normal form |
| Barcode.FallbackStable | pages/Stocktake.py:14-15 | the stripped text of a non-numeric input is its own normal form |
| Barcode.CleanIdempotent | pages/Stocktake.py:6-15 | normalising twice gives the same as normalising once |
| Barcode.ExampleWholeFloat | pages/Stocktake.py:11-13 | `"1234.0"` gives `"1234"` |
| Barcode.ExampleNegativeFraction | pages/Stocktake.py:11-13 | `"-3.7"` gives `"-3"`: truncation, not flooring |
| Barcode.ExamplePadded | pages/Stocktake.py:10-13 | `" 1234\u200b"` gives `"1234"` |
| Barcode.ExampleTrailingSpace | pages/Stocktake.py:10-13 | `"4001.0 "` gives `"4001"` |
| Barcode.ExampleCanonical | pages/Stocktake.py:10-13 | `"4001"` gives `"4001"` |
| Barcode.ExampleText | pages/Stocktake.py:14-15 | `"ABC-1"` gives `"ABC-1"` |
| Barcode.ExampleTextKeepsZeroWidthSpace | pages/Stocktake.py:14-15 | `"ABC\u200b"` keeps its zero-width space on the fallback branch |
| Barcode.ExampleFileSeparator | pages/Stocktake.py:10-15 | `"\u200b\x1c5"` is not a number: `strip()` keeps the U+001C behind the zero-width space, `float()` rejects it, and the text comes back unchanged |
| Stocktake.Keys | pages/Stocktake.py:70 | the normalised barcode column has one entry per inventory row, row by row in order |
| Stocktake.Decide | pages/Stocktake.py:64-74 | the verdict is "empty" exactly when the input normalises to `""`, otherwise it names the normalised input; it is "already scanned" exactly when that code is in the list; "added" only for a new code that some inventory row has; "not in inventory" only for a new code that no row has |
| Stocktake.NextShape | pages/Stocktake.py:66-74 | a rejected input leaves the list unchanged; an accepted one appends exactly the normalised input at the end |
| Stocktake.NextKeepsInvariant | pages/Stocktake.py:66-71 | one step keeps the list duplicate-free, free of empty entries and in normal form, whatever inventory is loaded |
| Stocktake.NextStaysWithin | pages/Stocktake.py:70-71 | with the inventory fixed, one step adds only codes that some inventory row has |
| Stocktake.RunExtends | pages/Stocktake.py:64-74 | over any sequence of presses, each against its own inventory, earlier entries never change and the list grows by at most one entry per press |
| Stocktake.RunKeepsInvariant | pages/Stocktake.py:64-74 | over any sequence of presses, whatever inventory each rerun loads, the list stays duplicate-free, free of empty entries and in normal form |
| Stocktake.RunStaysWithin | pages/Stocktake.py:68-71 | over any sequence of presses all against one inventory, every entry is the normalised barcode of some row of it |
| Stocktake.RunFromEmpty | pages/Stocktake.py:57-74 | every list a fresh session reaches is duplicate-free and in normal form; while the inventory stays the same it is also inside that inventory and no longer than it |
| Stocktake.ScannedBounded | pages/Stocktake.py:68-71 | a valid list inside the inventory has no more entries than the inventory has rows |
| Stocktake.ScanSession.constructor | pages/Stocktake.py:57-58 | a new session starts with an empty list, which satisfies the invariant |
| Stocktake.ScanSession.Submit | pages/Stocktake.py:64-74 | the outcome is `Decide` on the old list; the new list is the old one, with the code appended only on acceptance; both invariants are kept |
| Reconcile.Select | pages/Stocktake.py:77 | a row is selected exactly when it is an inventory row whose normalised barcode is (or is not) in the list |
| Reconcile.ScannedRows | pages/Stocktake.py:77 | a row is in the scanned table exactly when it is an inventory row whose normalised barcode is in the list |
| Reconcile.MissingRows | pages/Stocktake.py:98 | a row is in the missing table exactly when it is an inventory row whose normalised barcode is not in the list |
| Reconcile.Partition | pages/Stocktake.py:77-98 | the inventory is an interleaving of the scanned table and the missing table |
| Reconcile.PartitionParts | pages/Stocktake.py:77-98 | the two tables together hold every inventory row with its multiplicity, each in inventory order, and each inventory row is in exactly one of them |
| Reconcile.NothingMissing | pages/Stocktake.py:98 | the missing table is empty exactly when every row's barcode has been scanned |
| Reconcile.AppendMovesRows | pages/Stocktake.py:71-98 | appending a code moves exactly the rows with that code from the missing table to the scanned table |
| Reconcile.ScanMovesRows | pages/Stocktake.py:64-98 | a rejected scan changes neither table; an accepted one moves every row with that code, at least one, and no other row |
| Reconcile.FirstScanOfOnlyRow | pages/Stocktake.py:64-98 | for a one-row inventory, the first scan of that row's code is accepted, and the row leaves the missing table for the scanned one |
| Reconcile.EndToEnd | pages/Stocktake.py:64-98 | an inventory barcode `4001` and the scan `"4001.0 "`: accepted as `"4001"`, the row is scanned and nothing is missing |

## Left out

- The Streamlit interface is not modelled: the title, form, text box, button, checkbox, tables and messages. Each of the four messages is one constructor of `Stocktake.Outcome`. `st.stop()` is not modelled either.
- Choosing the inventory file (`pages/Stocktake.py:26-31`) is left out because it is file-system I/O. That includes the `IndexError` when the folder holds no spreadsheet.
- `load_inventory` and the `BARCODE` column check (`pages/Stocktake.py:33-52`) are I/O. The model takes the loaded inventory as a sequence of rows whose cells are already strings.
- `force_all_columns_to_string` and `clean_nans` (`pages/Stocktake.py:17-23`) are dataframe conversions for reading and display. They are represented only by the assumption above that every cell is a string.
- The CSV and Excel downloads (`pages/Stocktake.py:81-107`) are I/O.
- Barcode.ParseNumber: reads only plain decimal literals (`sign? digits ('.' digits?)?` or `sign? '.' digits`). Python's `float()` also accepts exponents (`"1e3"`), digit-group underscores (`"1_000"`) and non-ASCII decimal digits, which `clean_barcode` turns into `"1000"`; the model sends that text to the fallback branch instead. `inf`, `nan` and their spellings reach the fallback in both, because `int()` raises on them.
- Decimal.TruncateTowardZero: exact on unbounded integers and real numbers. Python first rounds the literal to the nearest IEEE double, so inputs with more than about 15 significant digits can normalise to a different integer in the source. Literals of about 1.8e308 or more overflow: `float()` gives `inf`, `int(inf)` raises `OverflowError`, and `clean_barcode` returns the stripped text (`"9" * 309 + ".5"` comes back unchanged), where the model gives the integer. `Barcode.CleanTruncates` inherits both differences.
- Decimal.ParseFormat: proved for exact decimal reading. Python's `int(float(str(n)))` differs from n once n needs more than 53 bits (9007199254740993 gives 9007199254740992), and it raises `OverflowError` for n of about 1.8e308 or more.
- Decimal.FormatParse: proved for exact decimal reading. In Python the same rounding and overflow apply, so a canonical spelling of a large integer reads back as a different integer, or not at all.
- Barcode.CleanCanonical: proved for exact decimal reading. In the source, `clean_barcode("9007199254740993")` gives `"9007199254740992"`, so 17- and 18-digit codes (an SSCC, say) are not their own normal form. Every integer up to 2^53, which includes all of 15 digits or fewer, is unaffected.
- Barcode.Cell: every pandas null (`None`, `NaN`, `NaT`, `NA`) is the single `Null` value. Non-string cell values are not modelled, since both the scanner input and every inventory cell are strings by the time `clean_barcode` sees them.
- A timestamped scan log, a duplicate flag, undo, removal, clearing, backups and persistence across sessions: the page has none of these, so neither does the model. The list lives only in the session state.
