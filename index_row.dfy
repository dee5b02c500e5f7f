/** The row codec of the bookmark index file: the fixed table of index
    columns, the parse of one raw index line into a record keyed by field
    name, the sort-column lookup of the `list` command and its short-id
    display. */
module IndexRow {
  import opened TabSplit

  /** A 1-based column number of the index file. */
  type Position = p: int | 1 <= p witness 1

  /** The record built from one index line: field name to raw column text. */
  type IndexEntry = map<string, string>

  datatype Option<T> = None | Some(value: T)

  /** Python's `IndexError`: the 0-based column index that was out of range. */
  datatype ParseError = IndexError(index: int)

  datatype Result<T> = Success(value: T) | Failure(error: ParseError)

  /** The index columns, in the table's (insertion) order: field name and
      1-based column. */
  const IndexFileFields: seq<(string, Position)> :=
    [("id", 1), ("url", 2), ("title", 3), ("tags", 4), ("created_date", 5)]

  /** The field names of the table, i.e. the keys of a parsed record. */
  const FieldNames: set<string> := set f | f in IndexFileFields :: f.0

  /** A table whose names are pairwise different, as a dictionary's keys are. */
  ghost predicate DistinctNames(fields: seq<(string, Position)>)
  {
    forall i, j :: 0 <= i < j < |fields| ==> fields[i].0 != fields[j].0
  }

  /** The index-file table is a one-to-one correspondence between the five
      field names and the columns 1 to 5. */
  lemma FieldTableWellFormed()
    ensures DistinctNames(IndexFileFields)
    ensures forall i, j :: 0 <= i < j < |IndexFileFields| ==> IndexFileFields[i].1 != IndexFileFields[j].1
    ensures (set f | f in IndexFileFields :: f.1 as int) == {1, 2, 3, 4, 5}
    ensures FieldNames == {"id", "url", "title", "tags", "created_date"}
  {
  }

  /** `fields.get(name)` on a dictionary given by its items. */
  function Lookup(fields: seq<(string, Position)>, name: string): (r: Option<Position>)
    requires DistinctNames(fields)
    ensures r.None? <==> forall i :: 0 <= i < |fields| ==> fields[i].0 != name
    ensures forall i :: 0 <= i < |fields| && fields[i].0 == name ==> r == Some(fields[i].1)
  {
    if fields == [] then None
    else if fields[0].0 == name then Some(fields[0].1)
    else Lookup(fields[1..], name)
  }

  /** The column where the `sort -k` key of `list --sort FIELD` starts: the
      field's column, or 5 (created_date) for a name that is not in the table. */
  function SortPosition(sortField: string): (pos: Position)
    ensures pos <= 5
    ensures forall i :: 0 <= i < |IndexFileFields| && IndexFileFields[i].0 == sortField ==> pos == IndexFileFields[i].1
    ensures sortField !in FieldNames ==> pos == 5
  {
    FieldTableWellFormed();
    match Lookup(IndexFileFields, sortField)
    case Some(p) => p
    case None => 5
  }

  /** The id as `list` shows it: `id[0:8]`, its first eight characters, or
      all of it when it is shorter. */
  function ShortId(id: string): (short: string)
    ensures |short| == if |id| < 8 then |id| else 8
    ensures short == id[..|short|]
  {
    if |id| <= 8 then id else id[..8]
  }

  /** The largest column of a table, 0 for an empty one. */
  function MaxColumn(fields: seq<(string, Position)>): nat
  {
    if fields == [] then 0
    else
      var m := MaxColumn(fields[..|fields| - 1]);
      if m < fields[|fields| - 1].1 then fields[|fields| - 1].1 else m
  }

  /** The record the parse loop has built after the given table items, or
      the `IndexError` of the first item whose column is past the pieces. */
  function FillRow(fields: seq<(string, Position)>, pieces: seq<string>): (r: Result<IndexEntry>)
    ensures r.Success? <==> MaxColumn(fields) <= |pieces|
  {
    if fields == [] then Success(map[])
    else
      match FillRow(fields[..|fields| - 1], pieces)
      case Failure(e) => Failure(e)
      case Success(entry) =>
        var (name, pos) := fields[|fields| - 1];
        if pos - 1 < |pieces| then Success(entry[name := pieces[pos - 1]])
        else Failure(IndexError(pos - 1))
  }

  /** What parsing one raw index line yields. */
  function IndexEntryOf(line: string): (r: Result<IndexEntry>)
    ensures r.Success? <==> TabCount(line) >= 4
    ensures r.Success? ==> r.value.Keys == FieldNames
    ensures r.Failure? ==> r.error == IndexError(TabCount(line) + 1)
  {
    TableFill(Split(line));
    FieldTableWellFormed();
    FillRow(IndexFileFields, Split(line))
  }

  /** Once an item of the table fails, the whole parse fails with its error. */
  lemma {:induction false} FailureSticks(fields: seq<(string, Position)>, k: nat, pieces: seq<string>)
    requires k <= |fields|
    requires FillRow(fields[..k], pieces).Failure?
    ensures FillRow(fields, pieces) == FillRow(fields[..k], pieces)
    decreases |fields| - k
  {
    if k == |fields| {
      assert fields[..k] == fields;
    } else {
      var init := fields[..|fields| - 1];
      assert init[..k] == fields[..k];
      FailureSticks(init, k, pieces);
    }
  }

  /** The parse over the index-file table: with at least five pieces, field
      `id` is piece 0, `url` piece 1, `title` piece 2, `tags` piece 3 and
      `created_date` piece 4; with fewer, it fails at the first missing
      piece. */
  lemma {:induction false} TableFill(pieces: seq<string>)
    ensures |pieces| >= 5 ==> FillRow(IndexFileFields, pieces) == Success(map[
      "id" := pieces[0], "url" := pieces[1], "title" := pieces[2],
      "tags" := pieces[3], "created_date" := pieces[4]])
    ensures |pieces| < 5 ==> FillRow(IndexFileFields, pieces) == Failure(IndexError(|pieces|))
  {
    var F, n := IndexFileFields, |pieces|;
    assert F[..0] == [];
    assert F[..1][..0] == F[..0];
    assert F[..2][..1] == F[..1];
    assert F[..3][..2] == F[..2];
    assert F[..4][..3] == F[..3];
    assert F[..5][..4] == F[..4];
    assert F[..5] == F;
    var e0: IndexEntry := map[];
    assert FillRow(F[..0], pieces) == Success(e0);
    if n == 0 {
      assert FillRow(F[..1], pieces) == Failure(IndexError(0));
      FailureSticks(F, 1, pieces);
      return;
    }
    var e1 := e0["id" := pieces[0]];
    assert FillRow(F[..1], pieces) == Success(e1);
    if n == 1 {
      assert FillRow(F[..2], pieces) == Failure(IndexError(1));
      FailureSticks(F, 2, pieces);
      return;
    }
    var e2 := e1["url" := pieces[1]];
    assert FillRow(F[..2], pieces) == Success(e2);
    if n == 2 {
      assert FillRow(F[..3], pieces) == Failure(IndexError(2));
      FailureSticks(F, 3, pieces);
      return;
    }
    var e3 := e2["title" := pieces[2]];
    assert FillRow(F[..3], pieces) == Success(e3);
    if n == 3 {
      assert FillRow(F[..4], pieces) == Failure(IndexError(3));
      FailureSticks(F, 4, pieces);
      return;
    }
    var e4 := e3["tags" := pieces[3]];
    assert FillRow(F[..4], pieces) == Success(e4);
    if n == 4 {
      assert FillRow(F[..5], pieces) == Failure(IndexError(4));
      return;
    }
    assert FillRow(F[..5], pieces) == Success(e4["created_date" := pieces[4]]);
  }

  /** One turn of the parse loop: the next table item either extends the
      record or fails with its column index. */
  lemma FillStep(fields: seq<(string, Position)>, k: nat, pieces: seq<string>, entry: IndexEntry)
    requires k < |fields|
    requires FillRow(fields[..k], pieces) == Success(entry)
    ensures FillRow(fields[..k + 1], pieces) ==
      if fields[k].1 - 1 < |pieces| then Success(entry[fields[k].0 := pieces[fields[k].1 - 1]])
      else Failure(IndexError(fields[k].1 as int - 1))
  {
    assert fields[..k + 1][..k] == fields[..k];
  }

  /** The values of a parsed record: each field holds the piece at its
      column minus one. When the record exists, its keys and the line's tab
      count are given by `IndexEntryOf`. */
  lemma {:induction false} ParsedRow(line: string)
    ensures IndexEntryOf(line).Success? ==> forall i :: 0 <= i < |IndexFileFields| ==>
      IndexEntryOf(line).value[IndexFileFields[i].0] == Split(line)[IndexFileFields[i].1 - 1]
  {
    var pieces := Split(line);
    TableFill(pieces);
    if |pieces| >= 5 {
      var e := IndexEntryOf(line).value;
      assert e["id"] == pieces[0] && e["url"] == pieces[1] && e["title"] == pieces[2];
      assert e["tags"] == pieces[3] && e["created_date"] == pieces[4];
    }
  }

  /** `db_index_parse_row`: split the line on tabs and fill the record one
      table item at a time; an `IndexError` when the line has too few
      columns. */
  method ParseIndexRow(line: string) returns (r: Result<IndexEntry>)
    ensures r == IndexEntryOf(line)
    ensures r.Success? <==> TabCount(line) >= 4
    ensures r.Success? ==> r.value.Keys == FieldNames
    ensures r.Success? ==> forall i :: 0 <= i < |IndexFileFields| ==>
      r.value[IndexFileFields[i].0] == Split(line)[IndexFileFields[i].1 - 1]
    ensures r.Failure? ==> r.error == IndexError(TabCount(line) + 1)
  {
    ParsedRow(line);
    var lineFields := Split(line);
    var entry: IndexEntry := map[];
    var i := 0;
    while i < |IndexFileFields|
      invariant 0 <= i <= |IndexFileFields|
      invariant FillRow(IndexFileFields[..i], lineFields) == Success(entry)
    {
      var (name, pos) := IndexFileFields[i];
      FillStep(IndexFileFields, i, lineFields, entry);
      if pos - 1 >= |lineFields| {
        FailureSticks(IndexFileFields, i + 1, lineFields);
        return Failure(IndexError(pos - 1));
      }
      entry := entry[name := lineFields[pos - 1]];
      i := i + 1;
    }
    assert IndexFileFields[..i] == IndexFileFields;
    return Success(entry);
  }

  /** Columns after the fifth are ignored: appending a tab and anything to
      a line that parses leaves the record unchanged. */
  lemma TrailingColumnsIgnored(line: string, rest: string)
    requires IndexEntryOf(line).Success?
    ensures IndexEntryOf(line + [Tab] + rest) == IndexEntryOf(line)
  {
    var pieces := Split(line);
    SplitAtTab(line, rest);
    TableFill(pieces);
    var longer := pieces + Split(rest);
    TableFill(longer);
    assert longer[..5] == pieces[..5];
  }

  /** Round trip: five tab-free values joined with tabs in column order parse
      back to the record of those values. */
  lemma RoundTrip(id: string, url: string, title: string, tags: string, createdDate: string)
    requires Tab !in id && Tab !in url && Tab !in title && Tab !in tags && Tab !in createdDate
    ensures IndexEntryOf(Join([id, url, title, tags, createdDate])) == Success(map[
      "id" := id, "url" := url, "title" := title, "tags" := tags, "created_date" := createdDate])
  {
    var values := [id, url, title, tags, createdDate];
    SplitJoin(values);
    TableFill(values);
  }

  /** No trimming: a line with exactly four tabs is its five parsed values
      joined with tabs, so any trailing characters (a newline, spaces) are
      kept in `created_date`. */
  lemma ExactRowRejoins(line: string)
    requires TabCount(line) == 4
    ensures IndexEntryOf(line).Success? && IndexEntryOf(line).value.Keys == FieldNames
    ensures var e := IndexEntryOf(line).value;
      Join([e["id"], e["url"], e["title"], e["tags"], e["created_date"]]) == line
  {
    var pieces := Split(line);
    TableFill(pieces);
    JoinSplit(line);
    assert pieces == [pieces[0], pieces[1], pieces[2], pieces[3], pieces[4]];
  }

  /** A line read with its newline and exactly four tabs keeps that newline
      at the end of `created_date`. */
  lemma TrailingNewlineKept(line: string)
    requires TabCount(line) == 4 && |line| > 0 && line[|line| - 1] == '\n'
    ensures IndexEntryOf(line).Success? && IndexEntryOf(line).value.Keys == FieldNames
    ensures var created := IndexEntryOf(line).value["created_date"];
      |created| > 0 && created[|created| - 1] == '\n'
  {
    TableFill(Split(line));
    LastPiece(line);
  }

  /** The sort key `-kN` starts at the column that holds, in every line that
      parses, the value the record gives the sort field. */
  lemma SortColumnHoldsField(sortField: string, line: string)
    requires sortField in FieldNames
    requires IndexEntryOf(line).Success?
    ensures SortPosition(sortField) - 1 < |Split(line)| && sortField in IndexEntryOf(line).value
    ensures IndexEntryOf(line).value[sortField] == Split(line)[SortPosition(sortField) - 1]
  {
    ParsedRow(line);
  }
}
