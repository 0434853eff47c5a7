/** A table written by DelimWriter and read again by CSVReader
    (lib/csv-parser/csv.hpp), from the strings to the strings. */
module CsvRoundTrip {
  import opened Common
  import opened Words
  import opened CsvScan
  import opened CsvDocument
  import opened CsvFaithful
  import opened CsvWriter
  import opened CsvFlag
  import opened CsvReader
  import opened CsvStale
  import W = CsvWindow

  // ---------------------------------------------------------------- the header

  /** Where rows fit, the first window has a row or is the whole file. */
  lemma FirstWindow(f: Format, d: Text, bytes: nat, chunk: nat)
    requires NonOverlapping(f) && 3 <= bytes && (|d| < chunk ==> |d| <= bytes)
    requires W.RowsFit(f, d, bytes) && W.CutsWell(f, d, bytes, 0, W.BomLength(d))
    ensures var n := W.Next(f, d, bytes, chunk, W.FRESH_READER); n.eof || n.values != []
  {
    hide Run, W.Aligned, W.OnePiece, W.RowsFit, W.PartsLineEnd, EndFeed, Values;
    W.FreshAligned(f, d);
    if bytes < |d| {
      W.WindowProgress(f, d, bytes, chunk, W.FRESH_READER, W.BomLength(d), []);
      var w := W.Window(d, 0, bytes);
      W.WindowBegin(f, d, bytes, W.FRESH_READER, W.BomLength(d));
      W.RowBeginInv(f, w, 0, W.BomLength(d), []);
      RowsBegun(f, w, W.BomLength(d));
    } else {
      W.LastWindow(f, d, bytes, chunk, W.FRESH_READER, W.BomLength(d), []);
    }
  }

  /** The column names are found as they would be in the whole file exactly when
      the first window holds their row, or is the whole file; for the first row it does. */
  lemma HeaderFound(f: Format, d: Text, bytes: nat, chunk: nat, s: Settings)
    requires NonOverlapping(f) && 3 <= bytes && (|d| < chunk ==> |d| <= bytes)
    requires W.RowsFit(f, d, bytes) && W.CutsWell(f, d, bytes, 0, W.BomLength(d))
    ensures var n, r := W.Next(f, d, bytes, chunk, W.FRESH_READER), W.ReadAll(f, d, bytes, chunk, W.FRESH_READER);
      && r.Some? && n.values <= r.value.values
      && (HeaderOf(s, n.values) == HeaderOf(s, r.value.values)
          <==> s.header < |n.values| || |n.values| == |r.value.values|)
      && (s.header <= 0 ==> HeaderOf(s, n.values) == HeaderOf(s, r.value.values))
  {
    hide W.Next, W.RowsFit, W.CutsWell, HeaderOf;
    W.WindowsFindTheSame(f, d, bytes, chunk);
    FirstWindow(f, d, bytes, chunk);
    W.NextInside(f, d, bytes, chunk, W.FRESH_READER);
    var n, r := W.Next(f, d, bytes, chunk, W.FRESH_READER), W.ReadAll(f, d, bytes, chunk, W.FRESH_READER);
    ReadAllExtends(f, d, bytes, chunk, n);
    HeaderExactly(s, n.values, r.value.values);
  }

  /** With every size of window there is a file whose second row is not found to be
      the header: the first window ends only its first row. */
  lemma HeaderMissed(bytes: nat, chunk: nat)
    requires 11 <= bytes && chunk <= bytes + 1
    ensures var d, s := StaleFile(bytes - 11), Settings(1, [], IGNORE_ROW);
      var n, r := W.Next(COMMAS, d, bytes, chunk, W.FRESH_READER), W.ReadAll(COMMAS, d, bytes, chunk, W.FRESH_READER);
      r.Some? && |n.values| == 1 && |r.value.values| == 2 && HeaderOf(s, n.values) != HeaderOf(s, r.value.values)
  {
    hide W.RowsFit, W.CutsWell, W.CoversFields, StaleFile, EndFeed, Run, W.WindowScan, Begin, Values, HasBom;
    hide CsvStale.Second, Inv, HeaderOf;
    var n := bytes - 11;
    var d, s := StaleFile(n), Settings(1, [], IGNORE_ROW);
    StaleFlag(bytes, chunk);
    OneRowFirst(n);
    TwoRows(n);
    W.WindowsFindTheSame(COMMAS, d, bytes, chunk);
    W.NoValues(COMMAS, d);
    W.ReadAllValues(COMMAS, d, bytes, chunk, W.FRESH_READER);
    W.NextInside(COMMAS, d, bytes, chunk, W.FRESH_READER);
    var w := W.Next(COMMAS, d, bytes, chunk, W.FRESH_READER);
    ReadAllExtends(COMMAS, d, bytes, chunk, w);
    HeaderExactly(s, w.values, W.ReadAll(COMMAS, d, bytes, chunk, W.FRESH_READER).value.values);
  }

  lemma OneRowFirst(n: nat)
    ensures var w := W.Window(StaleFile(n), 0, n + 11);
      |Run(COMMAS, w, Begin(w, false, false)).rows| == 1
    ensures |StaleFile(n)| == n + 12
  {
    hide Run, Inv, StaleFile, LineAt, RowAt, Step, CsvStale.Second;
    CsvStale.FirstWindow(n);
    FileRow(n);
    var w := W.Window(StaleFile(n), 0, n + 11);
    assert w == StaleFile(n)[..n + 11];
    FirstEnds(w, n);
    SecondKeeps(n + 1, [FirstRow(n)], 8);
  }

  lemma SecondKeeps(k: nat, rows: seq<RawRow>, turn: nat)
    ensures CsvStale.Second(k, rows, false, turn).rows == rows
  {
  }

  lemma TwoRows(n: nat)
    ensures |EndFeed(COMMAS, StaleFile(n), W.OnePiece(COMMAS, StaleFile(n))).rows| == 2
  {
    hide Run, Begin, StaleFile, LineAt, RowAt;
    FileRow(n);
    OnePieceRows(n);
  }

  // ---------------------------------------------------------------- tables

  /** Every row has as many fields as the first. */
  predicate Even(t: Table) { forall i :: 0 <= i < |t| ==> |t[i]| == |t[0]| }

  /** Reading what was written through windows gives the table. */
  lemma WrittenValues(f: Format, minimal: bool, t: Table, bytes: nat, chunk: nat)
    requires Plain4180(f) && NothingLost(f, minimal, t) && !HasBom(Written(f, minimal, t))
    requires var d := Written(f, minimal, t);
      && 3 <= bytes && (|d| < chunk ==> |d| <= bytes)
      && W.RowsFit(f, d, bytes) && W.CutsWell(f, d, bytes, 0, W.BomLength(d))
    ensures var r := W.ReadAll(f, Written(f, minimal, t), bytes, chunk, W.FRESH_READER);
      r.Some? && r.value.values == t
  {
    hide Render, Valid, Written, Collapse, NothingLost, HasBom, W.RowsFit, W.CutsWell, W.ReadAll, AsRecords, Meaning;
    NoLastLine(f, minimal, t);
    RecordsValid(f, minimal, t);
    CollapseExact(f, minimal, t);
    W.WindowsReadDocuments(f, bytes, chunk, Document(AsRecords(f, minimal, t), []), false);
  }

  /** Where reading ends, it does so from after the first window too. */
  lemma ReachesEnd(f: Format, d: Text, bytes: nat, chunk: nat)
    requires NonOverlapping(f) && W.ReadAll(f, d, bytes, chunk, W.FRESH_READER).Some?
    ensures var n, all := W.Next(f, d, bytes, chunk, W.FRESH_READER), W.ReadAll(f, d, bytes, chunk, W.FRESH_READER);
      && n.pos <= |d| && Reached(f, d, bytes, chunk, W.FRESH_READER) == all.value
      && Reached(f, d, bytes, chunk, n) == all.value && all.value.eof
  {
    hide W.Next;
    ReachedIsAll(f, d, bytes, chunk, W.FRESH_READER);
    ReachedNext(f, d, bytes, chunk, W.FRESH_READER);
  }

  method WriteTable(delim: Char, quote: Char, minimal: bool, t: Table) returns (file: Text)
    ensures file == Written(Format(delim, Some(quote), {}), minimal, t)
  {
    hide WrittenRow;
    ghost var f := Format(delim, Some(quote), {});
    var w := new DelimWriter(delim, quote, minimal);
    for i := 0 to |t|
      invariant fresh(w) && w.delim == delim && w.quote == quote && w.minimal == minimal
      invariant w.out + Written(f, minimal, t[i..]) == Written(f, minimal, t)
    {
      assert t[i..][0] == t[i] && t[i..][1..] == t[i + 1..];
      w.WriteRow(t[i]);
    }
    assert t[|t|..] == [];
    file := w.out;
  }

  /** The row of the column names, and the number of fields that rows must have, if names
      are given. */
  predicate Named(s: Settings, t: Table) {
    && -1 <= s.header < |t|
    && (if s.colNames == [] then s.header >= 0 else t != [] ==> |s.colNames| == |t[0]|)
  }

  /** The written table can be read through these windows. */
  ghost predicate Readable(f: Format, minimal: bool, t: Table, bytes: nat, chunk: nat, header: int)
    requires f.quote.Some?
  {
    var d := Written(f, minimal, t);
    && Plain4180(f) && NothingLost(f, minimal, t) && !HasBom(d)
    && 3 <= bytes < INT_LIMIT && (|d| < chunk ==> |d| <= bytes)
    && W.RowsFit(f, d, bytes) && W.CutsWell(f, d, bytes, 0, W.BomLength(d))
    && (header <= 0 || header < |W.Next(f, d, bytes, chunk, W.FRESH_READER).values|)
  }

  /** What is found of a written table. */
  lemma TableFound(f: Format, minimal: bool, t: Table, bytes: nat, chunk: nat, s: Settings)
    requires f.quote.Some? && Readable(f, minimal, t, bytes, chunk, s.header) && Even(t) && Named(s, t)
    ensures NonOverlapping(f) && bytes < INT_LIMIT
    ensures var d := Written(f, minimal, t); var all := Reached(f, d, bytes, chunk, W.FRESH_READER);
      var h := HeaderOf(s, W.Next(f, d, bytes, chunk, W.FRESH_READER).values);
      && all.eof && all.values == t && h.taken == s.header + 1
      && h.names == (if s.colNames == [] then t[s.header] else s.colNames)
      && Delivery(s.policy, |h.names|, t[h.taken..]) == t[h.taken..]
    ensures var d := Written(f, minimal, t); var n := W.Next(f, d, bytes, chunk, W.FRESH_READER);
      n.pos <= |d| && Reached(f, d, bytes, chunk, n).eof
  {
    hide NothingLost, Written, HasBom, W.RowsFit, W.CutsWell, W.ReadAll, W.Next, Delivery, Reached;
    var d := Written(f, minimal, t);
    WrittenValues(f, minimal, t, bytes, chunk);
    HeaderFound(f, d, bytes, chunk, s);
    ReachesEnd(f, d, bytes, chunk);
    AllDelivered(s.policy, |HeaderOf(s, t).names|, t[s.header + 1..]);
  }

  /** A table written and read again, column names given or in the row that the settings
      say, which is the first or lies in the first window, if any: names and the rows
      after them come back as they were, whatever the policy for rows of another length. */
  method WriteAndRead(delim: Char, quote: Char, minimal: bool, t: Table, chunkSize: nat, bytes: nat, pageSize: nat,
                      settings: Settings)
    returns (names: seq<Text>, rows: Table)
    requires Readable(Format(delim, Some(quote), {}), minimal, t, bytes, chunkSize, settings.header)
    requires Even(t) && Named(settings, t) && pageSize > 0
    ensures names == if settings.colNames == [] then t[settings.header] else settings.colNames
    ensures rows == t[settings.header + 1..]
  {
    hide Readable, Written, W.Next, CsvReader.Valid, CsvReader.Remaining, CsvReader.Last, Delivery, Reached, HeaderOf;
    hide NonOverlapping, Even;
    var f := Format(delim, Some(quote), {});
    TableFound(f, minimal, t, bytes, chunkSize, settings);
    var file := WriteTable(delim, quote, minimal, t);
    var reader := new CsvReader(file, chunkSize, bytes, f, [], pageSize, settings);
    names := reader.colNames;
    reader.ColumnCount();
    reader.LastIs();
    var refused;
    rows, refused := ReadTable(reader);
  }
}
