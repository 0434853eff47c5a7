/** Iterating over a file whose rows have all been taken already
    (lib/csv-parser/csv.hpp, CSVReader::begin and MmapParser::next). */
module CsvIterate {
  import opened Common
  import opened Words
  import opened CsvScan
  import opened CsvDocument
  import opened CsvWindow
  import opened CsvEnds
  import opened CsvReader
  import CsvEndless
  import CsvField
  import CsvStale

  /** What the end of the feed records of a line that nothing ends. */
  function FedRows(f: Format, w: Text, s: Scan): nat
    ensures FedRows(f, w, s) <= 1
  {
    |EndFeed(f, w, s).rows| - |s.rows|
  }

  /** The scan of a text, from the beginning of its last row. */
  lemma LastRowAgain(f: Format, u: Text, skip: nat)
    requires NonOverlapping(f) && skip <= |u| && Inv(f, u, RowBegin(0, skip, []))
    requires skip == 0 || Run(f, u, RowBegin(0, skip, [])).rowStart > 0
    ensures var s := Run(f, u, RowBegin(0, skip, []));
      && s.rowStart <= |u| && Inv(f, u[s.rowStart..], RowBegin(0, 0, []))
      && s == Place(Run(f, u[s.rowStart..], RowBegin(0, 0, [])), s.rowStart, s.rows)
  {
    hide Run, Inv, ShiftRows;
    var b := RowBegin(0, skip, []);
    var s := Run(f, u, b);
    InvBounds(f, u, s);
    assert u[..|u|] == u;
    NotPartedAtEnd(f, u, b);
    Truncated(f, u, |u|, b);
    RowBeginInv(f, u[s.rowStart..], 0, 0, []);
    RowBeginPlaced(s.rowStart, 0, 0, [], s.rows);
    Moved(f, u, s.rowStart, s.rows, RowBegin(0, 0, []));
  }

  lemma NotPartedAtEnd(f: Format, u: Text, s: Scan)
    requires NonOverlapping(f) && Inv(f, u, s)
    ensures !Parts(f, u, |u|, s)
  {
    if u == [] {
      InvBounds(f, u, s);
    } else {
      NotParted(f, u, |u|, s);
    }
  }

  /** Before every row but the first there is a newline character. */
  lemma NewlineBefore(f: Format, u: Text, skip: nat)
    requires NonOverlapping(f) && skip <= |u| && Inv(f, u, RowBegin(0, skip, []))
    ensures var s := Run(f, u, RowBegin(0, skip, []));
      s.rowStart > 0 ==> s.rowStart <= |u| && Flag(f, u[s.rowStart - 1]) == NEWLINE
  {
    hide Run, Inv, Flag, LineEnds;
    var b := RowBegin(0, skip, []);
    var s, e := Run(f, u, b), LineEnds(f, u, b);
    LineEndsAre(f, u, b);
    RowEndRecorded(f, u, b);
    if s.rowStart > 0 { assert EndOf(f, u, s, 0, e, |e| - 1); }
  }

  lemma FedAgain(f: Format, u: Text, skip: nat)
    requires NonOverlapping(f) && skip <= |u| && Inv(f, u, RowBegin(0, skip, []))
    requires skip == 0 || Run(f, u, RowBegin(0, skip, [])).rowStart > 0
    ensures var s := Run(f, u, RowBegin(0, skip, []));
      && s.rowStart <= |u| && Inv(f, u[s.rowStart..], RowBegin(0, 0, []))
      && |EndFeed(f, u[s.rowStart..], Run(f, u[s.rowStart..], RowBegin(0, 0, []))).rows| == FedRows(f, u, s)
  {
    hide Run, Inv, EndFeed;
    LastRowAgain(f, u, skip);
    NewlineBefore(f, u, skip);
    var s := Run(f, u, RowBegin(0, skip, []));
    var a := s.rowStart;
    var t := Run(f, u[a..], RowBegin(0, 0, []));
    if a == |u| && u != [] {
      assert u[a..] == [];
      NothingFed(f, u, s, t);
    } else {
      EndFeedPlaced(f, u, a, t, s.rows);
    }
  }

  lemma NothingFed(f: Format, u: Text, s: Scan, t: Scan)
    requires u != [] && Flag(f, u[|u| - 1]) == NEWLINE && s == Place(t, |u|, s.rows)
    requires NonOverlapping(f) && Inv(f, [], RowBegin(0, 0, [])) && t == Run(f, [], RowBegin(0, 0, []))
    ensures EndFeed(f, [], t).rows == [] && FedRows(f, u, s) == 0
  {
  }

  /** Reading once more at the end of the file gives the line again that nothing
      ended, if that was recorded, and nothing otherwise. */
  lemma ReadAgainExactly(f: Format, d: Text, bytes: nat, chunk: nat, p: Reader, skip: nat)
    requires NonOverlapping(f) && Standing(d, p, skip) && 3 <= bytes && p.pos + bytes >= |d|
    requires skip == 0 || WindowScan(f, d, bytes, p.pos, skip).rowStart > 0
    ensures var st := Next(f, d, bytes, chunk, p);
      && st.eof && st.pos <= |d| && Next(f, d, bytes, chunk, st).eof
      && |Next(f, d, bytes, chunk, st).rows| == |st.rows| + FedRows(f, d[p.pos..], WindowScan(f, d, bytes, p.pos, skip))
  {
    hide Run, Inv, EndFeed, Values, Mark, FedRows;
    NextInside(f, d, bytes, chunk, p);
    var st, u := Next(f, d, bytes, chunk, p), d[p.pos..];
    assert Window(d, p.pos, bytes) == u;
    WindowMarked(f, d, bytes, p, skip);
    FedAgain(f, u, skip);
    var v := d[st.pos..];
    assert Window(d, st.pos, bytes) == v == u[st.pos - p.pos..];
    RunMarked(f, v, RowBegin(0, 0, []));
    EndFeedMarked(f, v, Run(f, v, RowBegin(0, 0, [])));
    assert Begin(v, st.bomScanned, st.doubled) == RowBegin(0, 0, []).(doubled := st.doubled);
    assert Mark(RowBegin(0, 0, [])) == RowBegin(0, 0, []).(doubled := true) by { MarkBegin(); }
  }

  lemma MarkBegin()
    ensures Mark(RowBegin(0, 0, [])) == RowBegin(0, 0, []).(doubled := true)
  {
  }

  // ---------------------------------------------------------------- a header alone

  /** A line of letters that nothing ends, read at whatever turn. */
  lemma OneLine(n: nat, bytes: nat, chunk: nat, st: Reader)
    requires 0 < n <= bytes && st.pos == 0 && !st.doubled
    ensures var d := CsvEndless.Letters(n); var t := Next(COMMAS, d, bytes, chunk, st);
      t.pos == 0 && t.eof && !t.doubled && t.values == st.values + [[d]]
  {
    hide Run, Inv, Step, CsvEndless.Letters, Values;
    var d := CsvEndless.Letters(n);
    assert Window(d, 0, bytes) == d;
    assert Begin(d, st.bomScanned, false) == INITIAL;
    CsvEndless.PlainStart(d, n, INITIAL);
    var s := INITIAL.(pos := n, start := 0, len := n);
    CsvField.Turn(COMMAS, d, INITIAL);
    RunAtEnd(COMMAS, d, s);
    var row := RawRow(0, [RawField(0, n, false)]);
    assert [] + [RawField(0, n, false)] == [RawField(0, n, false)] && [] + [row] == [row];
    LineValue(d);
  }

  lemma LineValue(d: Text)
    ensures Values(COMMAS, d, [RawRow(0, [RawField(0, |d|, false)])]) == [[d]]
  {
    var x := RawField(0, |d|, false);
    assert FieldValue(COMMAS, d, 0, x) == d;
    assert [x][..0] == [];
    assert RowValue(COMMAS, d, 0, [x]) == [] + [d] == [d];
    var row := RawRow(0, [x]);
    assert [row][..0] == [] && Values(COMMAS, d, []) == [];
    assert Values(COMMAS, d, [row]) == [] + [[d]] == [[d]];
  }

  /** A file that is its header alone, with no line end: the names are also iterated
      over as a row. */
  method HeaderAlone(n: nat, bytes: nat, chunkSize: nat, pageSize: nat, policy: Policy)
    returns (names: seq<Text>, rows: seq<seq<Text>>)
    requires 0 < n <= bytes < INT_LIMIT && pageSize > 0
    ensures names == [CsvEndless.Letters(n)] && rows == [[CsvEndless.Letters(n)]]
  {
    hide CsvReader.Valid, Next, Run, CsvEndless.Letters;
    var d := CsvEndless.Letters(n);
    var f := COMMAS;
    var settings := Settings(0, [], policy);
    ghost var st := Next(f, d, bytes, chunkSize, FRESH_READER);
    OneLine(n, bytes, chunkSize, FRESH_READER);
    OneLine(n, bytes, chunkSize, st);
    assert FRESH_READER.values + [[d]] == [[d]];
    var reader := new CsvReader(d, chunkSize, bytes, f, [], pageSize, settings);
    names := reader.colNames;
    reader.ColumnCount();
    reader.Front();
    assert reader.Iterable() == [[d]];
    var refused;
    rows, refused := IterateTable(reader);
  }
}
