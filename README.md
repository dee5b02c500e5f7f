# Linkpad index-row codec in Dafny

Linkpad is a command-line bookmark manager. Each bookmark database keeps a plain-text
index file. Each line of that file describes one bookmark as five tab-separated columns:
`id`, `url`, `title`, `tags`, `created_date`. This project models the part of
`linkpad.py` that reads that file:

- the column table `INDEXFILE_FIELDS`, which maps each field name to its 1-based column;
- `db_index_parse_row`, which splits a raw line on tabs and fills a record
  (field name to column text) in a loop over the table;
- the sort-column lookup of `list --sort FIELD`, which falls back to column 5;
- the short id that `list` shows, the first eight characters of the id.

Files:

- `tab_split.dfy` (module `TabSplit`) models Python's `str.split('\t')` as `Split`.
  Its partner `Join` models `'\t'.join`. The lemmas there prove that `Split` and
  `Join` undo each other, and that a tab splits a line into the pieces on its two sides.
- `index_row.dfy` (module `IndexRow`) holds the table, the parse and the lemmas about
  the parsed record. The parse is a method, `ParseIndexRow`, whose loop fills a
  local map item by item, as the Python loop fills its dict. It is proved equal to
  the specification function `IndexEntryOf`. `IndexEntryOf` folds over the table
  (`FillRow`) in the same order as the loop.
- Python's `IndexError` on a short line becomes `Failure(IndexError(i))`. Here `i` is the
  0-based list index that was out of range. It always equals the number of pieces,
  because the loop visits the columns 1..5 in order.

In this version of `linkpad.py`, `list` is the only command that reads the index.
`version` prints the program name and version number. Every other command only
echoes a placeholder line. So the index-row codec is the program's only logic.

## Model

| member | source | states |
|---|---|---|
| `TabSplit.Split` | linkpad.py:50 | `line.split('\t')` gives one more piece than the line has tabs, and no piece contains a tab |
| `TabSplit.JoinSplit` | linkpad.py:50 | splitting loses nothing: joining the pieces with tabs gives back the line |
| `TabSplit.SplitAtTab` | linkpad.py:50 | splitting `a + "\t" + b` gives the pieces of `a` followed by the pieces of `b` |
| `TabSplit.SplitSingle` | linkpad.py:50 | a string splits into one piece, itself, exactly when it contains no tab |
| `TabSplit.LastPiece` | linkpad.py:50 | a line that does not end in a tab ends with its last piece, so the piece keeps the line's final character |
| `TabSplit.SplitJoin` | linkpad.py:50 | joining tab-free pieces with tabs and splitting again gives back the same pieces |
| `IndexRow.FieldTableWellFormed` | linkpad.py:38-42 | the table's five names are distinct, its positions are distinct and are exactly 1..5, and its names are the record keys `id`, `url`, `title`, `tags`, `created_date` |
| `IndexRow.Lookup` | linkpad.py:109 | `dict.get` on the table: no result exactly when the name is absent; otherwise the position paired with the name |
| `IndexRow.SortPosition` | linkpad.py:109 | the sort column is the field's table position for a known field name, and 5 for any other name; it is always between 1 and 5 |
| `IndexRow.ShortId` | linkpad.py:118 | `id[0:8]` is the prefix of the id of length `min(8, len(id))` |
| `IndexRow.FillRow` | linkpad.py:51-54 | the loop's fold over a table of fields: it succeeds exactly when the table's largest column is within the pieces (`MaxColumn`) |
| `IndexRow.IndexEntryOf` | linkpad.py:48-54 | the parse of one line: it succeeds exactly when the line has at least four tabs, the record's keys are then exactly the table's field names, and a failure reports index `tabs + 1`, the number of pieces |
| `IndexRow.FailureSticks` | linkpad.py:52-54 | once one table item hits an out-of-range index, the whole parse fails with that error; no partial record is returned |
| `IndexRow.FillStep` | linkpad.py:52-53 | one loop turn either stores the piece at `pos-1` under the item's name, or fails with `IndexError(pos-1)` when the line has too few pieces |
| `IndexRow.TableFill` | linkpad.py:38-42 | over the index table, five or more pieces give the record `id`=piece 0, `url`=piece 1, `title`=piece 2, `tags`=piece 3, `created_date`=piece 4; fewer pieces fail at the first missing index |
| `IndexRow.ParsedRow` | linkpad.py:50-53 | in a parsed record, each field holds the tab-separated piece at its column minus one |
| `IndexRow.ParseIndexRow` | linkpad.py:48-54 | the loop that fills the record returns exactly the specified parse, with the same success condition, keys and error as `IndexEntryOf` and the same per-field values as `ParsedRow` |
| `IndexRow.TrailingColumnsIgnored` | linkpad.py:50-53 | appending a tab and any text to a line that parses does not change the parsed record |
| `IndexRow.RoundTrip` | linkpad.py:48-54 | five tab-free strings joined with tabs in column order parse back to the record that maps each field name to its string |
| `IndexRow.ExactRowRejoins` | linkpad.py:50-53 | no trimming: a line with exactly four tabs equals its five parsed values joined with tabs |
| `IndexRow.TrailingNewlineKept` | linkpad.py:115-116 | a line that keeps its newline and has exactly four tabs parses to a `created_date` that ends in that newline |
| `IndexRow.SortColumnHoldsField` | linkpad.py:109-116 | for a known sort field, the sort key `-kN` starts at the column that holds exactly the value the parsed record gives that field |

## Left out

- The `click` command wiring and the stub commands (`add`, `edit`, `grep`, `remove`, `search`, `show`, `tags`, `update`, `database ...`): they only echo placeholder text.
- `version` prints the program name and version number. There is no logic in it to state.
- The `sh.cat` / `sh.sort` pipeline of `list`: it runs external processes on the index file. Only the column number passed to `sort -k` is modelled (`SortPosition`). The ordering that `sort` produces is not.
- The coloured output line of `list` (`click.style`) is presentation. Only the short-id slice that feeds it is modelled.
- `datetime_utc_to_local` depends on the host's time zone through Python's `datetime` library.
- `IndexRow.IndexEntryOf`, `IndexRow.ParseIndexRow`: Python's `IndexError` carries only the message "list index out of range", not an index. The index in `ParseError` is the model's own bookkeeping. That its value is the number of pieces relies on the dict iterating in insertion order, which Python guarantees only from 3.7, while the program asks only for Python 3.x.
- The sort key that `list` passes to `sort` (`-t'\t' -kN`) has no end field, so `sort` compares the text from column N to the end of the line, not column N alone. The model covers only where the key starts.
- The `DB_DATETIMEFMT_*` format constants: nothing in `linkpad.py` uses them.
- The base directory and database name, which are read from the environment, and `setup.py`: these are packaging and configuration.
- `IndexRow.Lookup` requires distinct names in the table it searches. A Python dict cannot hold a key twice, so this excludes no real table.
