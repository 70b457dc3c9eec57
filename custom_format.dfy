/** The custom-delimiter reader: a decoded character stream whose rows end
    with a backtick and whose fields are separated by tildes. The text before
    the first backtick is the header; each later non-blank row becomes a
    record; records are
    gathered into batches of a fixed size and the batches are combined into
    one table. */
module CustomFormat {
  import opened Wrappers
  import opened StrOps
  import opened Batching

  const RowSep: char := '`'
  const FieldSep: char := '~'

  /** The chunk size read_custom_format uses when none is given. */
  const DefaultChunkSize: int := 100000

  /** One row of the table: a value per column, None where the row was too
      short for a projected column. */
  type Record = seq<Option<string>>

  /** Which fields of a row become the record: all of them in order, or the
      given positions (the resolved `usecols`). */
  datatype Columns = AllColumns | Selected(indices: seq<nat>)

  datatype Table = Table(columns: seq<string>, rows: seq<Record>)

  /** pd.concat raises when it is given no frame at all. */
  datatype ReadError = NoObjectsToConcatenate

  // ---------------------------------------------------------------------------
  // Header

  /** The text before the first backtick, or the whole stream without one. */
  function HeaderText(stream: string): string
  {
    Split(stream, RowSep)[0]
  }

  /** Each tilde-separated piece of s, whitespace-stripped. */
  function StripNames(s: string): (names: seq<string>)
    ensures |names| == multiset(s)[FieldSep] + 1
  {
    SplitParts(s, FieldSep);
    var parts := Split(s, FieldSep);
    seq(|parts|, i requires 0 <= i < |parts| => Strip(parts[i]))
  }

  /** The column names of the stream. */
  function Headers(stream: string): seq<string>
  {
    StripNames(HeaderText(stream))
  }

  lemma HeaderTextIsPrefix(stream: string)
    ensures RowSep !in HeaderText(stream)
    ensures RowSep !in stream ==> HeaderText(stream) == stream
    ensures RowSep in stream ==>
      |HeaderText(stream)| < |stream| && stream[..|HeaderText(stream)| + 1] == HeaderText(stream) + [RowSep]
  {
    var parts := Split(stream, RowSep);
    SplitParts(stream, RowSep);
    JoinSplit(stream, RowSep);
    if |parts| == 1 {
      assert stream == parts[0];
    } else {
      assert stream == parts[0] + [RowSep] + Join(parts[1..], RowSep);
      assert RowSep in stream;
    }
  }

  // ---------------------------------------------------------------------------
  // Column projection

  /** Position of the first header equal to name (list.index). */
  function IndexOf(headers: seq<string>, name: string): (i: nat)
    requires name in headers
    ensures i < |headers| && headers[i] == name && name !in headers[..i]
  {
    if headers[0] == name then 0
    else
      var i := IndexOf(headers[1..], name);
      assert headers[1..][..i] == headers[1..i + 1];
      1 + i
  }

  /** The requested names that the header has, in request order. */
  function Present(headers: seq<string>, usecols: seq<string>): (names: seq<string>)
    ensures |names| <= |usecols|
    ensures forall j :: 0 <= j < |names| ==> names[j] in headers && names[j] in usecols
    ensures forall x :: x in names <==> x in usecols && x in headers
  {
    if usecols == [] then []
    else (if usecols[0] in headers then [usecols[0]] else []) + Present(headers, usecols[1..])
  }

  /** Projection distributes over concatenation of requests: the names keep
      request order, duplicates included. */
  lemma {:induction false} PresentAppend(headers: seq<string>, u: seq<string>, v: seq<string>)
    ensures Present(headers, u + v) == Present(headers, u) + Present(headers, v)
  {
    if u == [] {
      assert u + v == v;
    } else {
      assert (u + v)[0] == u[0];
      assert (u + v)[1..] == u[1..] + v;
      PresentAppend(headers, u[1..], v);
    }
  }

  /** col_indices: for each requested name present in the header, its first
      position there; names the header lacks are skipped. */
  function ColIndices(headers: seq<string>, usecols: seq<string>): (idx: seq<nat>)
    ensures |idx| == |Present(headers, usecols)|
    ensures forall j :: 0 <= j < |idx| ==>
      idx[j] < |headers| && headers[idx[j]] == Present(headers, usecols)[j] &&
      Present(headers, usecols)[j] !in headers[..idx[j]]
  {
    if usecols == [] then []
    else (if usecols[0] in headers then [IndexOf(headers, usecols[0])] else []) + ColIndices(headers, usecols[1..])
  }

  /** Projection happens only when usecols is given and non-empty (a
      truthy list). */
  function ColumnsFor(headers: seq<string>, usecols: Option<seq<string>>): Columns
  {
    if usecols.Some? && usecols.value != [] then Selected(ColIndices(headers, usecols.value)) else AllColumns
  }

  predicate ValidColumns(headers: seq<string>, cols: Columns)
  {
    cols.Selected? ==> forall j :: 0 <= j < |cols.indices| ==> cols.indices[j] < |headers|
  }

  /** used_headers: the names of the columns a record holds. */
  function UsedHeaders(headers: seq<string>, cols: Columns): seq<string>
    requires ValidColumns(headers, cols)
  {
    match cols
    case AllColumns => headers
    case Selected(idx) => seq(|idx|, j requires 0 <= j < |idx| => headers[idx[j]])
  }

  /** The column names of the table read from the stream. */
  function TableColumns(stream: string, usecols: Option<seq<string>>): (names: seq<string>)
    ensures usecols.Some? && usecols.value != [] ==> names == Present(Headers(stream), usecols.value)
    ensures !(usecols.Some? && usecols.value != []) ==> names == Headers(stream)
  {
    var headers := Headers(stream);
    UsedHeaders(headers, ColumnsFor(headers, usecols))
  }

  // ---------------------------------------------------------------------------
  // Rows and records

  /** The texts that a backtick ends, after the header; the text after the
      last backtick is not a row. */
  function Rows(stream: string): seq<string>
  {
    var parts := Split(stream, RowSep);
    if |parts| == 1 then [] else parts[1..|parts| - 1]
  }

  /** A row is kept when it is not blank once stripped. */
  predicate HasContent(row: string)
  {
    Strip(row) != []
  }

  /** The rows that are kept, in input order. */
  function NonBlank(rows: seq<string>): (kept: seq<string>)
  {
    if rows == [] then []
    else NonBlank(rows[..|rows| - 1]) + (if HasContent(rows[|rows| - 1]) then [rows[|rows| - 1]] else [])
  }

  /** The record a kept row gives: its tilde-separated fields, unstripped, all
      of them or the projected ones (None past the end of the row). */
  function MakeRecord(row: string, cols: Columns): (rec: Record)
    ensures |rec| == if cols.AllColumns? then multiset(row)[FieldSep] + 1 else |cols.indices|
  {
    SplitParts(row, FieldSep);
    var fields := Split(row, FieldSep);
    match cols
    case AllColumns => seq(|fields|, i requires 0 <= i < |fields| => Some(fields[i]))
    case Selected(idx) => seq(|idx|, j requires 0 <= j < |idx| => if idx[j] < |fields| then Some(fields[idx[j]]) else None)
  }

  function Records(rows: seq<string>, cols: Columns): seq<Record>
  {
    seq(|rows|, i requires 0 <= i < |rows| => MakeRecord(rows[i], cols))
  }

  /** The row limit: nrows when given, where 0 (falsy) means no limit. */
  function Limit(nrows: Option<int>): int
  {
    if nrows.Some? then nrows.value else 0
  }

  function Take<T>(xs: seq<T>, n: nat): seq<T>
  {
    if n < |xs| then xs[..n] else xs
  }

  /** The records produced from the rows that follow the header, in input
      order: each non-blank row split on tildes and projected, the first n of
      them for a positive n. A negative n is truthy and already reached, so the
      reader stops at the first row after the header, blank or not. */
  function LimitRecords(rows: seq<string>, cols: Columns, n: int): seq<Record>
  {
    if n > 0 then Take(Records(NonBlank(rows), cols), n)
    else if n < 0 then Records(NonBlank(rows[..if |rows| == 0 then 0 else 1]), cols)
    else Records(NonBlank(rows), cols)
  }

  /** The records read from a stream. */
  function Emitted(stream: string, nrows: Option<int>, usecols: Option<seq<string>>): (recs: seq<Record>)
    ensures Limit(nrows) >= 0 ==> |recs| <= |NonBlank(Rows(stream))|
    ensures Limit(nrows) > 0 ==> |recs| <= Limit(nrows)
    ensures Limit(nrows) < 0 ==> |recs| <= 1
  {
    var rows := Rows(stream);
    NonBlankShorter(rows[..if |rows| == 0 then 0 else 1]);
    LimitRecords(rows, ColumnsFor(Headers(stream), usecols), Limit(nrows))
  }

  /** The final pd.concat: no frame at all is an error; otherwise the rows of
      all frames in order, under the used column names. */
  function Concat(columns: seq<string>, dfs: seq<seq<Record>>): (r: Result<Table, ReadError>)
    ensures r.Failure? <==> dfs == []
    ensures r.Success? ==> r.value.columns == columns && r.value.rows == Flatten(dfs)
  {
    if dfs == [] then Failure(NoObjectsToConcatenate) else Success(Table(columns, Flatten(dfs)))
  }

  // ---------------------------------------------------------------------------
  // Properties of the records read

  /** The header names are the tilde-separated pieces of the header text,
      each stripped, and nothing else. */
  lemma HeaderNames(stream: string)
    ensures var pieces := Split(HeaderText(stream), FieldSep);
      Join(pieces, FieldSep) == HeaderText(stream) &&
      |Headers(stream)| == |pieces| &&
      forall i :: 0 <= i < |pieces| ==> Headers(stream)[i] == Strip(pieces[i])
  {
    JoinSplit(HeaderText(stream), FieldSep);
  }

  /** The kept rows are exactly the rows with content (their order is that
      of the input, by NonBlankAppend). */
  lemma {:induction false} NonBlankKeeps(rows: seq<string>)
    ensures forall x :: x in NonBlank(rows) <==> x in rows && HasContent(x)
  {
    if rows != [] {
      var init := rows[..|rows| - 1];
      var last := rows[|rows| - 1];
      NonBlankKeeps(init);
      assert rows == init + [last];
      assert NonBlank(rows) == NonBlank(init) + (if HasContent(last) then [last] else []);
      forall x ensures x in NonBlank(rows) <==> x in rows && HasContent(x) {
        assert x in rows <==> x in init || x == last;
      }
    }
  }

  /** Without usecols a record is the raw row split on tildes: one field more
      than the row has tildes, fields unstripped, and joining them gives the
      row back. */
  lemma RawRecord(row: string)
    ensures var rec := MakeRecord(row, AllColumns);
      |rec| == multiset(row)[FieldSep] + 1 &&
      (forall i :: 0 <= i < |rec| ==> rec[i].Some? && FieldSep !in rec[i].value) &&
      Join(seq(|rec|, i requires 0 <= i < |rec| => rec[i].value), FieldSep) == row
  {
    var rec := MakeRecord(row, AllColumns);
    var fields := Split(row, FieldSep);
    assert seq(|rec|, i requires 0 <= i < |rec| => rec[i].value) == fields;
    SplitParts(row, FieldSep);
    JoinSplit(row, FieldSep);
  }

  /** With usecols every record has one entry per resolved column: the field
      at that header position, or None when the row is shorter. */
  lemma ProjectedRecord(row: string, headers: seq<string>, usecols: seq<string>)
    ensures var idx := ColIndices(headers, usecols);
      var rec := MakeRecord(row, Selected(idx));
      var fields := Split(row, FieldSep);
      |rec| == |Present(headers, usecols)| &&
      forall j :: 0 <= j < |rec| ==>
        (rec[j].Some? <==> idx[j] < |fields|) &&
        (rec[j].Some? ==> rec[j].value == fields[idx[j]] && FieldSep !in rec[j].value)
  {
    SplitParts(row, FieldSep);
  }

  /** Every record read from a stream has the table's width when usecols
      projects, and holds only Some fields when it does not. */
  lemma EmittedShape(stream: string, nrows: Option<int>, usecols: Option<seq<string>>)
    ensures forall r: Record :: r in Emitted(stream, nrows, usecols) ==>
      if usecols.Some? && usecols.value != [] then |r| == |TableColumns(stream, usecols)|
      else forall j :: 0 <= j < |r| ==> r[j].Some?
  {
  }

  /** The row limit: a positive nrows keeps min(nrows, available) records, the
      first ones of the unlimited read; None and 0 impose no limit; a negative
      nrows keeps at most the record of the first row after the header. In
      every case the records
      kept are the first ones of the unlimited read. */
  lemma RowLimit(stream: string, nrows: Option<int>, usecols: Option<seq<string>>)
    ensures var all := Emitted(stream, None, usecols);
      var got := Emitted(stream, nrows, usecols);
      |all| == |NonBlank(Rows(stream))| &&
      (Limit(nrows) > 0 ==> |got| == (if Limit(nrows) < |all| then Limit(nrows) else |all|)) &&
      |got| <= |all| && got == all[..|got|] &&
      (Limit(nrows) == 0 ==> got == all) &&
      (Limit(nrows) < 0 ==> |got| <= 1)
    ensures Emitted(stream, Some(0), usecols) == Emitted(stream, None, usecols)
  {
    var rows := Rows(stream);
    if Limit(nrows) < 0 && |rows| > 0 {
      var cols := ColumnsFor(Headers(stream), usecols);
      assert rows == rows[..1] + rows[1..];
      NonBlankAppend(rows[..1], rows[1..]);
      RecordsAppend(NonBlank(rows[..1]), NonBlank(rows[1..]), cols);
    }
  }

  lemma {:induction false} NonBlankShorter(rows: seq<string>)
    ensures |NonBlank(rows)| <= |rows|
  {
    if rows != [] {
      NonBlankShorter(rows[..|rows| - 1]);
    }
  }

  /** Text after the last backtick is never a row: appending text without a
      backtick to a stream that ends with one changes nothing. */
  lemma TrailingTextIgnored(stream: string, rest: string, nrows: Option<int>, usecols: Option<seq<string>>)
    requires |stream| > 0 && stream[|stream| - 1] == RowSep
    requires RowSep !in rest
    ensures Headers(stream + rest) == Headers(stream)
    ensures Rows(stream + rest) == Rows(stream)
    ensures Emitted(stream + rest, nrows, usecols) == Emitted(stream, nrows, usecols)
  {
    var body := stream[..|stream| - 1];
    assert stream == body + [RowSep] + [];
    assert stream + rest == body + [RowSep] + rest;
    SplitAround(body, [], RowSep);
    SplitAround(body, rest, RowSep);
    SplitNoSep(rest, RowSep);
    assert Split([], RowSep) == [[]];
  }

  /** A row terminated by a backtick after a stream that ends with one adds
      exactly its record when it has content, and nothing when it is blank. */
  lemma AppendRow(stream: string, row: string, usecols: Option<seq<string>>)
    requires |stream| > 0 && stream[|stream| - 1] == RowSep
    requires RowSep !in row
    ensures Headers(stream + row + [RowSep]) == Headers(stream)
    ensures Rows(stream + row + [RowSep]) == Rows(stream) + [row]
    ensures Emitted(stream + row + [RowSep], None, usecols) ==
      Emitted(stream, None, usecols) + (if HasContent(row) then [MakeRecord(row, ColumnsFor(Headers(stream), usecols))] else [])
  {
    var p := SplitBeforeRow(stream, row);
    var longer := stream + row + [RowSep];
    assert Rows(longer) == p[1..] + [row];
    assert Rows(stream) == p[1..];
    RowEnded(Rows(stream), row, ColumnsFor(Headers(stream), usecols));
  }

  lemma SplitBeforeRow(stream: string, row: string) returns (p: seq<string>)
    requires |stream| > 0 && stream[|stream| - 1] == RowSep
    requires RowSep !in row
    ensures |p| >= 1
    ensures Split(stream, RowSep) == p + [[]]
    ensures Split(stream + row + [RowSep], RowSep) == p + [row, []]
  {
    var body := stream[..|stream| - 1];
    p := Split(body, RowSep);
    assert stream == body + [RowSep];
    assert stream + row + [RowSep] == (body + [RowSep] + row) + [RowSep];
    SplitSnoc(body, RowSep, RowSep);
    SplitAround(body, row, RowSep);
    SplitNoSep(row, RowSep);
    SplitSnoc(body + [RowSep] + row, RowSep, RowSep);
  }

  /** Three one-character pieces joined by tildes. */
  function Row3(a: string, b: string, c: string): string
  {
    a + [FieldSep] + b + [FieldSep] + c
  }

  predicate Piece(x: string)
  {
    |x| == 1 && x[0] != FieldSep && x[0] != RowSep && !IsSpace(x[0])
  }

  /** An example stream of the format, for any one-character names and
      fields (such as A~B~C`1~2~3`4~5~6`): the header gives the three names,
      and the two rows give their records. */
  lemma Example(a: string, b: string, c: string, x: seq<string>, y: seq<string>)
    requires Piece(a) && Piece(b) && Piece(c)
    requires |x| == 3 && Piece(x[0]) && Piece(x[1]) && Piece(x[2])
    requires |y| == 3 && Piece(y[0]) && Piece(y[1]) && Piece(y[2])
    ensures var stream := Row3(a, b, c) + [RowSep] + Row3(x[0], x[1], x[2]) + [RowSep] + Row3(y[0], y[1], y[2]) + [RowSep];
      Headers(stream) == [a, b, c] &&
      Emitted(stream, None, None) == [[Some(x[0]), Some(x[1]), Some(x[2])], [Some(y[0]), Some(y[1]), Some(y[2])]]
  {
    var s0 := Row3(a, b, c) + [RowSep];
    var r1 := Row3(x[0], x[1], x[2]);
    var r2 := Row3(y[0], y[1], y[2]);
    ExampleHeader(a, b, c);
    ExampleRecord(x[0], x[1], x[2]);
    ExampleRecord(y[0], y[1], y[2]);
    NoRowSep(x[0], x[1], x[2]);
    NoRowSep(y[0], y[1], y[2]);
    TwoRows(s0, r1, r2, None);
  }

  lemma NoRowSep(a: string, b: string, c: string)
    requires Piece(a) && Piece(b) && Piece(c)
    ensures RowSep !in Row3(a, b, c)
  {
  }

  lemma ExampleHeader(a: string, b: string, c: string)
    requires Piece(a) && Piece(b) && Piece(c)
    ensures Headers(Row3(a, b, c) + [RowSep]) == [a, b, c] && Rows(Row3(a, b, c) + [RowSep]) == []
  {
    NoRowSep(a, b, c);
    HeaderOnly(Row3(a, b, c));
    SplitThree(a, b, c, FieldSep);
    StripTrimmed(a);
    StripTrimmed(b);
    StripTrimmed(c);
  }

  /** A stream holding only a terminated header has no rows. */
  lemma HeaderOnly(h: string)
    requires RowSep !in h
    ensures HeaderText(h + [RowSep]) == h && Rows(h + [RowSep]) == []
  {
    var empty: string := [];
    assert h + [RowSep] == h + [RowSep] + empty;
    SplitAround(h, empty, RowSep);
    SplitNoSep(h, RowSep);
    assert Split(empty, RowSep) == [empty];
  }

  /** A row of three one-character fields has content and gives them all. */
  lemma ExampleRecord(a: string, b: string, c: string)
    requires Piece(a) && Piece(b) && Piece(c)
    ensures HasContent(Row3(a, b, c)) && MakeRecord(Row3(a, b, c), AllColumns) == [Some(a), Some(b), Some(c)]
  {
    var row := Row3(a, b, c);
    assert row[0] == a[0] && row[|row| - 1] == c[0];
    StripTrimmed(row);
    SplitThree(a, b, c, FieldSep);
  }

  /** The example stream with usecols=[C, A]: each record holds the third
      and then the first field, and the table's columns are [C, A]. */
  lemma ExampleProjection(a: string, b: string, c: string, x: seq<string>, y: seq<string>)
    requires Piece(a) && Piece(b) && Piece(c) && a != b && a != c && b != c
    requires |x| == 3 && Piece(x[0]) && Piece(x[1]) && Piece(x[2])
    requires |y| == 3 && Piece(y[0]) && Piece(y[1]) && Piece(y[2])
    ensures var stream := Row3(a, b, c) + [RowSep] + Row3(x[0], x[1], x[2]) + [RowSep] + Row3(y[0], y[1], y[2]) + [RowSep];
      TableColumns(stream, Some([c, a])) == [c, a] &&
      Emitted(stream, None, Some([c, a])) == [[Some(x[2]), Some(x[0])], [Some(y[2]), Some(y[0])]]
  {
    var s0 := Row3(a, b, c) + [RowSep];
    var r1 := Row3(x[0], x[1], x[2]);
    var r2 := Row3(y[0], y[1], y[2]);
    ExampleHeader(a, b, c);
    var cols := ProjectOnto(a, b, c);
    ProjectRow(x[0], x[1], x[2], cols);
    ProjectRow(y[0], y[1], y[2], cols);
    NoRowSep(x[0], x[1], x[2]);
    NoRowSep(y[0], y[1], y[2]);
    TwoRows(s0, r1, r2, Some([c, a]));
  }

  /** Two rows with content after a stream that is only a terminated header
      give their two records, under that header. */
  lemma TwoRows(s0: string, r1: string, r2: string, usecols: Option<seq<string>>)
    requires |s0| > 0 && s0[|s0| - 1] == RowSep && Rows(s0) == []
    requires RowSep !in r1 && RowSep !in r2 && HasContent(r1) && HasContent(r2)
    ensures var stream := s0 + r1 + [RowSep] + r2 + [RowSep];
      var cols := ColumnsFor(Headers(s0), usecols);
      Headers(stream) == Headers(s0) &&
      Emitted(stream, None, usecols) == [MakeRecord(r1, cols), MakeRecord(r2, cols)]
  {
    var s1 := s0 + r1 + [RowSep];
    AppendRow(s0, r1, usecols);
    AppendRow(s1, r2, usecols);
  }

  /** Requesting [C, A] from the header [A, B, C] resolves to positions 2
      and 0. */
  lemma ProjectOnto(a: string, b: string, c: string) returns (cols: Columns)
    requires a != b && a != c && b != c
    ensures cols == ColumnsFor([a, b, c], Some([c, a])) && cols == Selected([2, 0])
    ensures Present([a, b, c], [c, a]) == [c, a]
  {
    var h := [a, b, c];
    var ic := IndexOf(h, c);
    var ia := IndexOf(h, a);
    assert h[0] == a && h[1] == b;
    assert ic == 2;
    assert ia == 0;
    assert [c, a][1..] == [a];
    cols := ColumnsFor(h, Some([c, a]));
  }

  /** The projection [2, 0] of a row of three fields. */
  lemma ProjectRow(a: string, b: string, c: string, cols: Columns)
    requires Piece(a) && Piece(b) && Piece(c) && cols == Selected([2, 0])
    ensures HasContent(Row3(a, b, c)) && MakeRecord(Row3(a, b, c), cols) == [Some(c), Some(a)]
  {
    ExampleRecord(a, b, c);
    SplitThree(a, b, c, FieldSep);
  }

  // ---------------------------------------------------------------------------
  // Facts the reader's loops rely on

  lemma {:induction false} NonBlankAppend(a: seq<string>, b: seq<string>)
    ensures NonBlank(a + b) == NonBlank(a) + NonBlank(b)
    decreases |b|
  {
    if b != [] {
      var l := |b| - 1;
      assert (a + b)[..|a + b| - 1] == a + b[..l];
      assert (a + b)[|a + b| - 1] == b[l];
      NonBlankAppend(a, b[..l]);
    } else {
      assert a + b == a;
    }
  }

  lemma RecordsAppend(a: seq<string>, b: seq<string>, cols: Columns)
    ensures Records(a + b, cols) == Records(a, cols) + Records(b, cols)
  {
  }

  /** A stream that has been read to its end, split into header, rows and the
      unterminated rest. */
  lemma EndOfStream(stream: string, header: string, rows: seq<string>, rest: string)
    requires Split(stream, RowSep) == [header] + rows + [rest]
    ensures HeaderText(stream) == header && Rows(stream) == rows
  {
  }

  /** A stream whose prefix up to a backtick at position p - 1 holds the header
      and the given rows: those rows are the first rows of the whole stream. */
  lemma StoppedAt(stream: string, p: nat, header: string, rows: seq<string>)
    requires 1 <= p <= |stream| && stream[p - 1] == RowSep
    requires Split(stream[..p - 1], RowSep) == [header] + rows
    ensures HeaderText(stream) == header
    ensures |rows| <= |Rows(stream)| && Rows(stream)[..|rows|] == rows
  {
    var before := stream[..p - 1];
    var after := stream[p..];
    assert stream == before + [RowSep] + after;
    SplitAround(before, after, RowSep);
    var tailParts := Split(after, RowSep);
    var parts := Split(stream, RowSep);
    assert parts == [header] + (rows + tailParts);
    PartsAfterHeader(parts, header, rows, tailParts);
  }

  /** The middle parts of [header] + rows + tail are rows + tail minus its
      last part. */
  lemma PartsAfterHeader(parts: seq<string>, header: string, rows: seq<string>, tail: seq<string>)
    requires |tail| >= 1 && parts == [header] + (rows + tail)
    ensures parts[0] == header && |parts| > 1
    ensures parts[1..|parts| - 1] == rows + tail[..|tail| - 1]
  {
  }

  /** A backtick read by the row loop ends the current row. */
  lemma ScanRowSep(stream: string, pos: nat, header: string, rows: seq<string>, row: string)
    requires pos < |stream| && stream[pos] == RowSep
    requires Scanned(stream, pos, header, rows, row)
    ensures Scanned(stream, pos + 1, header, rows + [row], [])
  {
    SplitSnoc(stream[..pos], stream[pos], RowSep);
    assert stream[..pos + 1] == stream[..pos] + [stream[pos]];
  }

  /** Any other character extends the current row. */
  lemma ScanChar(stream: string, pos: nat, header: string, rows: seq<string>, row: string)
    requires pos < |stream| && stream[pos] != RowSep
    requires Scanned(stream, pos, header, rows, row)
    ensures Scanned(stream, pos + 1, header, rows, row + [stream[pos]])
  {
    var c := stream[pos];
    var q := [header] + rows;
    var p := q + [row];
    assert stream[..pos + 1] == stream[..pos] + [c];
    SplitSnoc(stream[..pos], c, RowSep);
    assert p[..|p| - 1] == q && p[|p| - 1] == row;
    assert Split(stream[..pos + 1], RowSep) == q + [row + [c]];
  }

  /** A backtick ends the current row: it is kept or dropped. */
  lemma RowEnded(rows: seq<string>, row: string, cols: Columns)
    ensures NonBlank(rows + [row]) == NonBlank(rows) + (if HasContent(row) then [row] else [])
    ensures Records(NonBlank(rows + [row]), cols) ==
      Records(NonBlank(rows), cols) + (if HasContent(row) then [MakeRecord(row, cols)] else [])
  {
  }

  /** The reader stops once the limit is reached: the rows read so far are a
      prefix of all rows and give exactly the limited records. */
  lemma LimitReached(all: seq<string>, rows: seq<string>, cols: Columns, n: int)
    requires |rows| <= |all| && all[..|rows|] == rows
    requires n > 0 ==> |NonBlank(rows)| == n
    requires n < 0 ==> |rows| == 1
    requires n != 0
    ensures Records(NonBlank(rows), cols) == LimitRecords(all, cols, n)
  {
    if n > 0 {
      assert all == rows + all[|rows|..];
      NonBlankAppend(rows, all[|rows|..]);
      RecordsAppend(NonBlank(rows), NonBlank(all[|rows|..]), cols);
    }
  }

  /** A stream without a backtick is all header. */
  lemma NoRows(stream: string, cols: Columns, n: int)
    requires RowSep !in stream
    ensures Rows(stream) == [] && LimitRecords(Rows(stream), cols, n) == []
  {
    SplitNoSep(stream, RowSep);
  }

  /** The row loop reached the end of the stream without reaching the limit:
      the rows it saw are all the rows. */
  lemma ReadToEnd(stream: string, pos: nat, header: string, rows: seq<string>, row: string, cols: Columns, n: int,
                  dfs: seq<seq<Record>>, currentChunk: seq<Record>, rowCount: nat, chunkCount: nat, chunksize: int)
    requires pos >= |stream| && Scanned(stream, pos, header, rows, row)
    requires Buffered(dfs, currentChunk, rowCount, chunkCount, rows, cols, chunksize)
    requires n > 0 ==> rowCount < n
    requires n < 0 ==> rows == []
    ensures Flatten(dfs) + currentChunk == LimitRecords(Rows(stream), cols, n)
    ensures rowCount == |Flatten(dfs) + currentChunk|
    ensures chunksize < 1 ==> (|dfs| == 0 <==> Rows(stream) == [])
  {
    assert stream[..pos] == stream;
    EndOfStream(stream, header, rows, row);
  }

  /** The row loop stopped at the backtick at position p - 1 because the
      limit was reached. */
  lemma ReadToLimit(stream: string, p: nat, header: string, rows: seq<string>, cols: Columns, n: int,
                    dfs: seq<seq<Record>>, currentChunk: seq<Record>, rowCount: nat, chunkCount: nat, chunksize: int)
    requires 1 <= p <= |stream| && stream[p - 1] == RowSep
    requires Scanned(stream, p, header, rows, [])
    requires Buffered(dfs, currentChunk, rowCount, chunkCount, rows, cols, chunksize)
    requires n != 0 && rowCount >= n && rows != []
    requires n > 0 ==> rowCount <= n
    requires n < 0 ==> |rows| == 1
    ensures Flatten(dfs) + currentChunk == LimitRecords(Rows(stream), cols, n)
    ensures rowCount == |Flatten(dfs) + currentChunk|
    ensures chunksize < 1 ==> (|dfs| == 0 <==> Rows(stream) == [])
  {
    assert stream[..p] == stream[..p - 1] + [RowSep];
    SplitSnoc(stream[..p - 1], RowSep, RowSep);
    var q := Split(stream[..p - 1], RowSep);
    var r := [header] + rows;
    assert q + [[]] == r + [[]];
    assert q == (q + [[]])[..|q|] == (r + [[]])[..|r|] == r;
    StoppedAt(stream, p, header, rows);
    LimitReached(Rows(stream), rows, cols, n);
  }

  /** The row loop has read stream[..pos]: the header, the finished rows and
      the row being read. */
  ghost predicate Scanned(stream: string, pos: nat, header: string, rows: seq<string>, row: string)
  {
    pos <= |stream| && Split(stream[..pos], RowSep) == [header] + rows + [row]
  }

  /** The frames and the chunk hold the records of the finished rows, and
      the counters count them. */
  ghost predicate Buffered(dfs: seq<seq<Record>>, currentChunk: seq<Record>, rowCount: nat, chunkCount: nat,
                           rows: seq<string>, cols: Columns, chunksize: int)
  {
    Flatten(dfs) + currentChunk == Records(NonBlank(rows), cols) &&
    rowCount == |NonBlank(rows)| &&
    ChunkShape(dfs, currentChunk, chunksize) && chunkCount == |dfs| &&
    (chunksize < 1 ==> |dfs| == |rows|)
  }

  // ---------------------------------------------------------------------------
  // The reader

  /** The first loop of read_custom_format: characters up to the first
      backtick (consumed) or the end of the stream. */
  method ReadHeader(stream: string) returns (headerLine: string, pos: nat)
    ensures headerLine == HeaderText(stream) && pos <= |stream|
    ensures RowSep in stream ==> pos == |headerLine| + 1 && Split(stream[..pos], RowSep) == [headerLine, []]
    ensures RowSep !in stream ==> pos == |stream|
  {
    pos := 0;
    headerLine := "";
    while pos < |stream|
      invariant 0 <= pos <= |stream|
      invariant Split(stream[..pos], RowSep) == [headerLine]
      invariant RowSep !in stream[..pos] && |headerLine| == pos
    {
      var ch := stream[pos];
      if ch == RowSep {
        HeaderEnded(stream, pos, headerLine);
        pos := pos + 1;
        return;
      }
      HeaderGrows(stream, pos, headerLine);
      pos := pos + 1;
      headerLine := headerLine + [ch];
    }
    assert stream[..pos] == stream;
  }

  /** The header loop meets the first backtick. */
  lemma HeaderEnded(stream: string, pos: nat, headerLine: string)
    requires pos < |stream| && stream[pos] == RowSep
    requires Split(stream[..pos], RowSep) == [headerLine]
    ensures HeaderText(stream) == headerLine && RowSep in stream
    ensures Split(stream[..pos + 1], RowSep) == [headerLine, []]
  {
    SplitSnoc(stream[..pos], RowSep, RowSep);
    assert stream[..pos + 1] == stream[..pos] + [RowSep];
    StoppedAt(stream, pos + 1, headerLine, []);
  }

  /** Any other character extends the header text. */
  lemma HeaderGrows(stream: string, pos: nat, headerLine: string)
    requires pos < |stream| && stream[pos] != RowSep
    requires Split(stream[..pos], RowSep) == [headerLine]
    requires RowSep !in stream[..pos]
    ensures Split(stream[..pos + 1], RowSep) == [headerLine + [stream[pos]]]
    ensures RowSep !in stream[..pos + 1]
  {
    var ch := stream[pos];
    SplitSnoc(stream[..pos], ch, RowSep);
    assert stream[..pos + 1] == stream[..pos] + [ch];
  }


  /** What the row loop does at a backtick: a row with content becomes a
      record of the current chunk, and a chunk that has reached chunksize is
      flushed as a frame. */
  method EndRow(row: string, cols: Columns, chunksize: int, dfs: seq<seq<Record>>, currentChunk: seq<Record>,
                rowCount: nat, chunkCount: nat, ghost rows: seq<string>)
    returns (dfs': seq<seq<Record>>, currentChunk': seq<Record>, rowCount': nat, chunkCount': nat)
    requires Buffered(dfs, currentChunk, rowCount, chunkCount, rows, cols, chunksize)
    ensures Buffered(dfs', currentChunk', rowCount', chunkCount', rows + [row], cols, chunksize)
    ensures Flatten(dfs') + currentChunk' ==
      Flatten(dfs) + currentChunk + (if HasContent(row) then [MakeRecord(row, cols)] else [])
    ensures rowCount' == rowCount + (if HasContent(row) then 1 else 0)
  {
    RowEnded(rows, row, cols);
    dfs', currentChunk', rowCount', chunkCount' := dfs, currentChunk, rowCount, chunkCount;
    if Strip(row) != [] {
      var rowData := MakeRecord(row, cols);
      currentChunk' := currentChunk' + [rowData];
      rowCount' := rowCount' + 1;
    }
    assert Flatten(dfs') + currentChunk' == Records(NonBlank(rows + [row]), cols);
    // Create a frame when the chunk size is reached.
    if |currentChunk'| >= chunksize {
      Flush(dfs', currentChunk', chunksize);
      dfs' := dfs' + [currentChunk'];
      currentChunk' := [];
      chunkCount' := chunkCount' + 1;
    }
  }

  /** The row loop at a backtick: the row ends, and the loop stops when the
      limit n is reached. */
  method EndOfRow(stream: string, pos: nat, headerLine: string, ghost rows: seq<string>, currentRow: string,
                  cols: Columns, n: int, chunksize: int,
                  dfs: seq<seq<Record>>, currentChunk: seq<Record>, rowCount: nat, chunkCount: nat)
    returns (dfs': seq<seq<Record>>, currentChunk': seq<Record>, rowCount': nat, chunkCount': nat,
             ghost rows': seq<string>, stop: bool)
    requires pos < |stream| && stream[pos] == RowSep
    requires Scanned(stream, pos, headerLine, rows, currentRow)
    requires Buffered(dfs, currentChunk, rowCount, chunkCount, rows, cols, chunksize)
    requires n > 0 ==> rowCount < n
    requires n < 0 ==> rows == []
    ensures !stop ==> Scanned(stream, pos + 1, headerLine, rows', [])
    ensures !stop ==> Buffered(dfs', currentChunk', rowCount', chunkCount', rows', cols, chunksize)
    ensures !stop ==> n >= 0 && (n > 0 ==> rowCount' < n)
    ensures stop ==> Flatten(dfs') + currentChunk' == LimitRecords(Rows(stream), cols, n)
    ensures stop ==> rowCount' == |Flatten(dfs') + currentChunk'| && chunkCount' == |dfs'|
    ensures stop ==> ChunkShape(dfs', currentChunk', chunksize)
    ensures stop ==> chunksize < 1 ==> (|dfs'| == 0 <==> Rows(stream) == [])
  {
    ScanRowSep(stream, pos, headerLine, rows, currentRow);
    dfs', currentChunk', rowCount', chunkCount' := EndRow(currentRow, cols, chunksize, dfs, currentChunk, rowCount, chunkCount, rows);
    rows' := rows + [currentRow];
    stop := n != 0 && rowCount' >= n;
    if stop {
      ReadToLimit(stream, pos + 1, headerLine, rows', cols, n, dfs', currentChunk', rowCount', chunkCount', chunksize);
    }
  }

  /** The second loop of read_custom_format, from position start (just after
      the header's backtick) to the end of the stream or to the row that
      reaches the limit n. It returns the frames flushed inside the loop, the
      chunk still being filled and the two counters. */
  method ReadRows(stream: string, start: nat, headerLine: string, cols: Columns, n: int, chunksize: int)
    returns (dfs: seq<seq<Record>>, currentChunk: seq<Record>, rowCount: nat, chunkCount: nat, ghost rows: seq<string>)
    requires start <= |stream| && Split(stream[..start], RowSep) == [headerLine, []]
    ensures Flatten(dfs) + currentChunk == LimitRecords(Rows(stream), cols, n)
    ensures rowCount == |Flatten(dfs) + currentChunk| && chunkCount == |dfs|
    ensures ChunkShape(dfs, currentChunk, chunksize)
    ensures chunksize < 1 ==> (|dfs| == 0 <==> Rows(stream) == [])
  {
    var pos := start;
    var currentRow := "";
    currentChunk := [];
    dfs, rowCount, chunkCount := [], 0, 0;
    rows := [];
    while pos < |stream|
      invariant start <= pos
      invariant Scanned(stream, pos, headerLine, rows, currentRow)
      invariant Buffered(dfs, currentChunk, rowCount, chunkCount, rows, cols, chunksize)
      invariant n > 0 ==> rowCount < n
      invariant n < 0 ==> rows == []
    {
      var ch := stream[pos];
      if ch == RowSep {
        // The backtick closes the current row.
        var stop;
        dfs, currentChunk, rowCount, chunkCount, rows, stop :=
          EndOfRow(stream, pos, headerLine, rows, currentRow, cols, n, chunksize, dfs, currentChunk, rowCount, chunkCount);
        pos := pos + 1;
        if stop {
          return;
        }
        currentRow := "";
      } else {
        ScanChar(stream, pos, headerLine, rows, currentRow);
        pos := pos + 1;
        currentRow := currentRow + [ch];
      }
    }
    ReadToEnd(stream, pos, headerLine, rows, currentRow, cols, n, dfs, currentChunk, rowCount, chunkCount, chunksize);
  }

  /** read_custom_format over an already decoded stream. Besides the combined
      table it returns the list of chunk frames and the two counters, which
      the source keeps in locals. */
  method ReadCustomFormat(stream: string, nrows: Option<int> := None, usecols: Option<seq<string>> := None,
                          chunksize: int := DefaultChunkSize)
    returns (result: Result<Table, ReadError>, dfs: seq<seq<Record>>, rowCount: nat, chunkCount: nat)
    ensures Flatten(dfs) == Emitted(stream, nrows, usecols)
    ensures rowCount == |Emitted(stream, nrows, usecols)|
    ensures chunksize >= 1 ==> dfs == Batches(Emitted(stream, nrows, usecols), chunksize)
    ensures chunksize >= 1 ==>
      chunkCount * chunksize <= |Emitted(stream, nrows, usecols)| < chunkCount * chunksize + chunksize
    ensures chunksize < 1 ==> chunkCount == |dfs| && AtMostOne(dfs)
    ensures result == Concat(TableColumns(stream, usecols), dfs)
    ensures result.Failure? <==>
      if chunksize >= 1 then Emitted(stream, nrows, usecols) == [] else Rows(stream) == []
  {
    var headerLine, pos := ReadHeader(stream);
    var headers := StripNames(headerLine);
    var cols := ColumnsFor(headers, usecols);
    var usedHeaders := UsedHeaders(headers, cols);
    ghost var records := Emitted(stream, nrows, usecols);
    assert headers == Headers(stream);
    assert records == LimitRecords(Rows(stream), cols, Limit(nrows));
    assert usedHeaders == TableColumns(stream, usecols);

    var currentChunk: seq<Record>;
    ghost var rows: seq<string>;
    if RowSep in stream {
      dfs, currentChunk, rowCount, chunkCount, rows := ReadRows(stream, pos, headerLine, cols, Limit(nrows), chunksize);
    } else {
      // The header loop reached the end of the stream: the row loop reads
      // nothing.
      dfs, currentChunk, rowCount, chunkCount := [], [], 0, 0;
      NoRows(stream, cols, Limit(nrows));
    }
    assert Flatten(dfs) + currentChunk == records;
    Leftover(dfs, currentChunk, chunksize, records);

    // Append the leftover chunk as the last frame.
    if currentChunk != [] {
      dfs := dfs + [currentChunk];
    }
    assert Flatten(dfs) == records;
    result := Concat(usedHeaders, dfs);
  }
}
