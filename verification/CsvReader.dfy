/** Rows one at a time (lib/csv-parser/csv.hpp, CSVReader): the queue that windows
    fill and read_row empties, the header, and the policy for rows of another length. */
module CsvReader {
  import opened Common
  import opened Words
  import opened CsvScan
  import opened CsvDocument
  import opened FieldLists
  import opened CsvParser
  import W = CsvWindow
  import CsvParted

  datatype Policy = THROW | IGNORE_ROW | KEEP

  /** `header` is the number of the row that has the column names, below zero if none has. */
  datatype Settings = Settings(header: int, colNames: seq<Text>, policy: Policy)

  // ---------------------------------------------------------------- what reading means

  /** The column names, and the number of rows taken for the header. */
  datatype Header = Header(names: seq<Text>, taken: nat)

  function HeaderOf(s: Settings, rows: seq<seq<Text>>): (h: Header)
    ensures h.taken <= |rows|
  {
    Header(if s.colNames == [] && 0 <= s.header < |rows| then rows[s.header] else s.colNames,
           if s.header < 0 then 0 else if s.header < |rows| then s.header + 1 else |rows|)
  }

  predicate Fits(policy: Policy, columns: nat, row: seq<Text>) {
    policy == KEEP || |row| == columns
  }

  /** The rows delivered one after another, until one is refused. */
  function Delivery(policy: Policy, columns: nat, rows: seq<seq<Text>>): seq<seq<Text>> {
    if rows == [] then []
    else if Fits(policy, columns, rows[0]) then [rows[0]] + Delivery(policy, columns, rows[1..])
    else if policy == THROW then []
    else Delivery(policy, columns, rows[1..])
  }

  /** The row that is refused, if one is. */
  function Refusal(policy: Policy, columns: nat, rows: seq<seq<Text>>): Option<seq<Text>> {
    if policy != THROW || rows == [] then None
    else if |rows[0]| != columns then Some(rows[0])
    else Refusal(policy, columns, rows[1..])
  }

  /** A row that the policy passes over. */
  predicate Passed(policy: Policy, columns: nat, row: seq<Text>) {
    policy == IGNORE_ROW && |row| != columns
  }

  /** The row that an answer hands over. */
  function NextRow(rows: seq<seq<Text>>, left: seq<seq<Text>>): seq<Text>
    requires |left| < |rows|
  {
    rows[|rows| - |left| - 1]
  }

  /** A row is there that the policy does not pass over. */
  ghost predicate SomeAnswered(policy: Policy, columns: nat, rows: seq<seq<Text>>) {
    exists i :: 0 <= i < |rows| && !Passed(policy, columns, rows[i])
  }

  /** What is delivered in all begins with the row delivered next, and that is all if
      none is. */
  lemma {:induction false} NextDelivered(policy: Policy, columns: nat, rows: seq<seq<Text>>, left: seq<seq<Text>>, a: Answer)
    requires Answers(policy, columns, rows, left, a)
    ensures !a.AtEnd? ==> |left| < |rows|
    ensures Delivery(policy, columns, rows)
      == if a.Delivered? then [NextRow(rows, left)] + Delivery(policy, columns, left) else []
    ensures Refusal(policy, columns, rows)
      == if a.AtEnd? then None else if a.Delivered? then Refusal(policy, columns, left) else Some(NextRow(rows, left))
    decreases |rows|
  {
    hide Answers, Delivery, Refusal, NextRow;
    if rows != [] && Passed(policy, columns, rows[0]) {
      AnswersLater(policy, columns, rows, left, a);
      NextDelivered(policy, columns, rows[1..], left, a);
      PassedOver(policy, columns, rows);
    } else {
      AnswersNow(policy, columns, rows, left, a);
    }
  }

  lemma PassedOver(policy: Policy, columns: nat, rows: seq<seq<Text>>)
    requires rows != [] && Passed(policy, columns, rows[0])
    ensures Delivery(policy, columns, rows) == Delivery(policy, columns, rows[1..])
    ensures Refusal(policy, columns, rows) == Refusal(policy, columns, rows[1..]) == None
  {
  }

  lemma AnswersNow(policy: Policy, columns: nat, rows: seq<seq<Text>>, left: seq<seq<Text>>, a: Answer)
    requires Answers(policy, columns, rows, left, a) && (rows == [] || !Passed(policy, columns, rows[0]))
    ensures !a.AtEnd? ==> |left| < |rows|
    ensures Delivery(policy, columns, rows)
      == if a.Delivered? then [NextRow(rows, left)] + Delivery(policy, columns, left) else []
    ensures Refusal(policy, columns, rows)
      == if a.AtEnd? then None else if a.Delivered? then Refusal(policy, columns, left) else Some(NextRow(rows, left))
  {
    if rows != [] { assert |rows| - |left| == 1 && NextRow(rows, left) == rows[0]; }
  }

  lemma AnswersLater(policy: Policy, columns: nat, rows: seq<seq<Text>>, left: seq<seq<Text>>, a: Answer)
    requires Answers(policy, columns, rows, left, a) && rows != [] && Passed(policy, columns, rows[0])
    ensures Answers(policy, columns, rows[1..], left, a)
    ensures !a.AtEnd? ==> |left| < |rows[1..]| && NextRow(rows, left) == NextRow(rows[1..], left)
  {
    assert forall i :: 0 <= i < |rows| - 1 ==> rows[1..][i] == rows[i + 1];
  }

  lemma RefusalThrows(policy: Policy, columns: nat, rows: seq<seq<Text>>)
    ensures Refusal(policy, columns, rows).Some? ==> SomeAnswered(policy, columns, rows)
  {
    assert Refusal(policy, columns, rows).Some? ==> !Passed(policy, columns, rows[0]);
  }

  /** All rows are delivered exactly when all have the number of columns, or any is kept. */
  lemma {:induction false} AllDelivered(policy: Policy, columns: nat, rows: seq<seq<Text>>)
    ensures Delivery(policy, columns, rows) == rows
      <==> policy == KEEP || forall i :: 0 <= i < |rows| ==> |rows[i]| == columns
    ensures |Delivery(policy, columns, rows)| <= |rows|
    decreases |rows|
  {
    if rows != [] {
      AllDelivered(policy, columns, rows[1..]);
      assert rows == [rows[0]] + rows[1..];
      assert forall i :: 1 <= i < |rows| ==> rows[i] == rows[1..][i - 1];
      if Fits(policy, columns, rows[0]) && Delivery(policy, columns, rows) == rows {
        assert Delivery(policy, columns, rows)[1..] == rows[1..];
      }
    }
  }

  /** Kept, every row is delivered. */
  lemma {:induction false} KeepDelivers(columns: nat, rows: seq<seq<Text>>)
    ensures Delivery(KEEP, columns, rows) == rows && Refusal(KEEP, columns, rows) == None
    decreases |rows|
  {
    if rows != [] { KeepDelivers(columns, rows[1..]); }
  }

  /** The elements of d are those of rows with as many fields as columns, and of those
      all, in their order; these are their places. */
  ghost predicate Places(columns: nat, rows: seq<seq<Text>>, at: seq<nat>, d: seq<seq<Text>>) {
    && |d| == |at| && (forall j :: 0 <= j < |at| ==> at[j] < |rows| && d[j] == rows[at[j]])
    && (forall j, l :: 0 <= j < l < |at| ==> at[j] < at[l])
    && (forall i :: 0 <= i < |rows| ==> (i in at <==> |rows[i]| == columns))
  }

  /** Ignoring others, exactly the rows with as many fields as columns are delivered, in
      their order. */
  lemma {:induction false} IgnoreDelivers(columns: nat, rows: seq<seq<Text>>) returns (at: seq<nat>)
    ensures Places(columns, rows, at, Delivery(IGNORE_ROW, columns, rows)) && Refusal(IGNORE_ROW, columns, rows) == None
    decreases |rows|
  {
    hide Places;
    if rows == [] {
      at := [];
      NoPlaces(columns);
    } else {
      var rest := IgnoreDelivers(columns, rows[1..]);
      var d := Delivery(IGNORE_ROW, columns, rows[1..]);
      at := PlacesLater(columns, rows, rest, d);
      if |rows[0]| == columns {
        PlacesTake(columns, rows, at, d);
        at := [0] + at;
      } else {
        PlacesSkip(columns, rows, at, d);
      }
    }
  }

  lemma NoPlaces(columns: nat)
    ensures Places(columns, [], [], [])
  {
  }

  ghost predicate PlacesFrom(columns: nat, rows: seq<seq<Text>>, at: seq<nat>, d: seq<seq<Text>>) {
    && |d| == |at| && (forall j :: 0 <= j < |at| ==> 0 < at[j] < |rows| && d[j] == rows[at[j]])
    && (forall j, l :: 0 <= j < l < |at| ==> at[j] < at[l])
    && (forall i :: 0 < i < |rows| ==> (i in at <==> |rows[i]| == columns))
  }

  lemma PlacesLater(columns: nat, rows: seq<seq<Text>>, rest: seq<nat>, d: seq<seq<Text>>) returns (at: seq<nat>)
    requires rows != [] && Places(columns, rows[1..], rest, d)
    ensures PlacesFrom(columns, rows, at, d)
  {
    at := seq(|rest|, j requires 0 <= j < |rest| => rest[j] + 1);
    forall i | 0 < i < |rows| ensures (i in at <==> i - 1 in rest) && rows[1..][i - 1] == rows[i] {
      InLater(rest, at, i - 1);
    }
    assert forall j :: 0 <= j < |rest| ==> rows[1..][rest[j]] == rows[at[j]];
  }

  lemma InLater(rest: seq<nat>, at: seq<nat>, i: nat)
    requires |at| == |rest| && forall j :: 0 <= j < |rest| ==> at[j] == rest[j] + 1
    ensures i + 1 in at <==> i in rest
  {
    if i in rest {
      var j :| 0 <= j < |rest| && rest[j] == i;
      assert at[j] == i + 1;
    }
  }

  lemma PlacesTake(columns: nat, rows: seq<seq<Text>>, at: seq<nat>, d: seq<seq<Text>>)
    requires rows != [] && PlacesFrom(columns, rows, at, d) && |rows[0]| == columns
    ensures Places(columns, rows, [0] + at, [rows[0]] + d)
  {
    forall i | 0 <= i < |rows| ensures i in [0] + at <==> |rows[i]| == columns {
    }
  }

  lemma PlacesSkip(columns: nat, rows: seq<seq<Text>>, at: seq<nat>, d: seq<seq<Text>>)
    requires rows != [] && PlacesFrom(columns, rows, at, d) && |rows[0]| != columns
    ensures Places(columns, rows, at, d)
  {
    assert 0 !in at;
  }

  /** Refusing others, the rows before the first of them are delivered, and that is refused. */
  lemma {:induction false} ThrowDelivers(columns: nat, rows: seq<seq<Text>>) returns (n: nat)
    ensures n <= |rows| && (forall i :: 0 <= i < n ==> |rows[i]| == columns)
    ensures n < |rows| ==> |rows[n]| != columns
    ensures Delivery(THROW, columns, rows) == rows[..n]
    ensures Refusal(THROW, columns, rows) == if n < |rows| then Some(rows[n]) else None
    decreases |rows|
  {
    if rows == [] || |rows[0]| != columns {
      n := 0;
    } else {
      var k := ThrowDelivers(columns, rows[1..]);
      n := k + 1;
      assert rows[..n] == [rows[0]] + rows[1..][..k];
    }
  }

  /** What the first window shows of the header is what the whole file shows exactly
      when the header is in the first window, or that is the whole file. */
  lemma HeaderExactly(s: Settings, first: seq<seq<Text>>, all: seq<seq<Text>>)
    requires first <= all
    ensures HeaderOf(s, first) == HeaderOf(s, all) <==> s.header < |first| || |first| == |all|
  {
  }

  // ---------------------------------------------------------------- windows

  lemma {:induction false} ReadAllExtends(f: Format, d: Text, bytes: nat, chunk: nat, st: W.Reader)
    requires NonOverlapping(f) && st.pos <= |d|
    ensures var r := W.ReadAll(f, d, bytes, chunk, st); r.Some? ==> st.values <= r.value.values
    decreases |d| - st.pos, !st.bomScanned
  {
    hide W.Next;
    W.NextInside(f, d, bytes, chunk, st);
    NextExtends(f, d, bytes, chunk, st);
    var n := W.Next(f, d, bytes, chunk, st);
    if !n.eof && !W.Stuck(st, n) { ReadAllExtends(f, d, bytes, chunk, n); }
  }

  lemma NextExtends(f: Format, d: Text, bytes: nat, chunk: nat, st: W.Reader)
    requires NonOverlapping(f) && st.pos <= |d|
    ensures st.values <= W.Next(f, d, bytes, chunk, st).values
  {
  }

  /** Where reading on from st comes to: the end of the file, or a window that leads to itself. */
  ghost function Reached(f: Format, d: Text, bytes: nat, chunk: nat, st: W.Reader): (r: W.Reader)
    requires NonOverlapping(f) && st.pos <= |d|
    ensures r.pos <= |d|
    decreases |d| - st.pos, !st.bomScanned, !st.eof
  {
    if st.eof then st else
      W.NextInside(f, d, bytes, chunk, st);
      var n := W.Next(f, d, bytes, chunk, st);
      if W.Stuck(st, n) then st else Reached(f, d, bytes, chunk, n)
  }

  /** Reading ends exactly where ReadAll does. */
  lemma {:induction false} ReachedIsAll(f: Format, d: Text, bytes: nat, chunk: nat, st: W.Reader)
    requires NonOverlapping(f) && st.pos <= |d| && !st.eof
    ensures var r := Reached(f, d, bytes, chunk, st);
      W.ReadAll(f, d, bytes, chunk, st) == if r.eof then Some(r) else None
    decreases |d| - st.pos, !st.bomScanned
  {
    hide W.Next;
    W.NextInside(f, d, bytes, chunk, st);
    var n := W.Next(f, d, bytes, chunk, st);
    if !n.eof && !W.Stuck(st, n) { ReachedIsAll(f, d, bytes, chunk, n); }
  }

  lemma {:induction false} ReachedExtends(f: Format, d: Text, bytes: nat, chunk: nat, st: W.Reader)
    requires NonOverlapping(f) && st.pos <= |d|
    ensures st.values <= Reached(f, d, bytes, chunk, st).values
    decreases |d| - st.pos, !st.bomScanned, !st.eof
  {
    hide W.Next;
    if !st.eof {
      W.NextInside(f, d, bytes, chunk, st);
      NextExtends(f, d, bytes, chunk, st);
      var n := W.Next(f, d, bytes, chunk, st);
      if !W.Stuck(st, n) { ReachedExtends(f, d, bytes, chunk, n); }
    }
  }

  /** One window more leads to the same place; if it changed nothing, it gave no row either. */
  lemma ReachedNext(f: Format, d: Text, bytes: nat, chunk: nat, st: W.Reader)
    requires NonOverlapping(f) && st.pos <= |d| && !st.eof
    ensures var n, r := W.Next(f, d, bytes, chunk, st), Reached(f, d, bytes, chunk, st);
      && n.pos <= |d|
      && (if W.Stuck(st, n) then r == st && n.values == st.values && Reached(f, d, bytes, chunk, n) == n
          else Reached(f, d, bytes, chunk, n) == r && (n.eof || n.pos > st.pos || (n.bomScanned && !st.bomScanned)))
  {
    hide W.Next, W.Stuck;
    W.NextInside(f, d, bytes, chunk, st);
    var n := W.Next(f, d, bytes, chunk, st);
    StuckOr(st, n);
    if W.Stuck(st, n) { StuckStays(f, d, bytes, chunk, st); }
  }

  lemma StuckOr(st: W.Reader, n: W.Reader)
    ensures !W.Stuck(st, n) && !n.eof ==> n.pos != st.pos || n.bomScanned != st.bomScanned
    ensures W.Stuck(st, n) ==> !n.eof
  {
  }

  lemma StuckStays(f: Format, d: Text, bytes: nat, chunk: nat, st: W.Reader)
    requires NonOverlapping(f) && st.pos <= |d| && W.Stuck(st, W.Next(f, d, bytes, chunk, st))
    ensures var n := W.Next(f, d, bytes, chunk, st);
      n.values == st.values && n.pos <= |d| && W.Stuck(n, W.Next(f, d, bytes, chunk, n))
  {
    hide Run, Inv, EndFeed, Values, W.Mark;
    var w := W.Window(d, st.pos, bytes);
    var n := W.Next(f, d, bytes, chunk, st);
    SamePlace(f, w, st);
    SamePlace(f, w, n);
    var s := W.Scanned(f, w, st);
    W.BeginInv(f, w, st.bomScanned, st.doubled);
    CsvParted.RowsOrNone(f, w, Begin(w, st.bomScanned, st.doubled));
    W.NoValues(f, w);
  }

  /** The flag for a doubled quote does not change where a window leads. */
  lemma SamePlace(f: Format, w: Text, st: W.Reader)
    requires NonOverlapping(f)
    ensures W.Scanned(f, w, st).rowStart == W.Scanned(f, w, st.(doubled := false)).rowStart
  {
    hide Run, Inv;
    var s := Begin(w, st.bomScanned, false);
    W.BeginInv(f, w, st.bomScanned, false);
    W.RunMarked(f, w, s);
    W.MarkInv(f, w, Run(f, w, s));
    assert W.Mark(s) == Begin(w, st.bomScanned, true);
  }

  // ---------------------------------------------------------------- the reader

  /** What read_row answers. */
  datatype Answer = Delivered(row: Row) | AtEnd | TooShort(row: Row) | TooLong(row: Row)

  class CsvReader {
    const settings: Settings
    const parser: MmapParser
    const bytes: nat
    var colNames: seq<Text>
    var nCols: nat
    var nRows: nat
    var headerTrimmed: bool
    /** How many rows have been taken from the front of the queue. */
    var taken: nat

    ghost predicate Valid()
      reads this, parser, parser.base
      reads set i | 0 <= i < |parser.base.records| :: parser.base.records[i].data
      reads set i | 0 <= i < |parser.base.records| :: parser.base.records[i].data.fields
      reads set i, o | 0 <= i < |parser.base.records| && o in parser.base.records[i].data.fields.Repr :: o
    {
      && parser.Valid() && taken <= |parser.base.records| && nCols == |colNames| && bytes < INT_LIMIT
      && (parser.eof ==> parser.mmapPos + bytes >= |parser.source| || |parser.source| < parser.chunkSize)
    }

    /** Where reading on comes to. */
    ghost function Last(): W.Reader
      requires Valid()
      reads this, parser, parser.base
      reads set i | 0 <= i < |parser.base.records| :: parser.base.records[i].data
      reads set i | 0 <= i < |parser.base.records| :: parser.base.records[i].data.fields
      reads set i, o | 0 <= i < |parser.base.records| && o in parser.base.records[i].data.fields.Repr :: o
    {
      Reached(parser.base.fmt, parser.source, bytes, parser.chunkSize, parser.reader)
    }

    /** The texts of all rows that are still to be answered. */
    ghost function Remaining(): seq<seq<Text>>
      requires Valid()
      reads this, parser, parser.base
      reads set i | 0 <= i < |parser.base.records| :: parser.base.records[i].data
      reads set i | 0 <= i < |parser.base.records| :: parser.base.records[i].data.fields
      reads set i, o | 0 <= i < |parser.base.records| && o in parser.base.records[i].data.fields.Repr :: o
    {
      ReachedExtends(parser.base.fmt, parser.source, bytes, parser.chunkSize, parser.reader);
      Last().values[taken..]
    }

    /** The reader is no part of any row's data. */
    lemma Outside()
      requires parser.Valid()
      ensures forall i :: 0 <= i < |parser.base.records| ==> this !in parser.base.records[i].data.fields.Repr
    {
      hide FieldList.Valid, IsFlagTable, RawData.CacheValid, RawData.Placed;
      forall i | 0 <= i < |parser.base.records| ensures this !in parser.base.records[i].data.fields.Repr {
        ReaderNotInFields(parser.base.records[i].data.fields, this);
      }
    }

    constructor (source: Text, chunkSize: nat, bytes: nat, f: Format, wsChars: seq<Char>, pageSize: nat,
                 settings: Settings)
      requires NonOverlapping(f) && f.trim == (set ch | ch in wsChars) && pageSize > 0 && bytes < INT_LIMIT
      ensures Valid() && headerTrimmed && fresh(parser) && fresh(parser.base)
      ensures this.settings == settings && parser.base.fmt == f
        && bytes == this.bytes && source == parser.source && chunkSize == parser.chunkSize
        && (forall i :: 0 <= i < |parser.base.records| ==> fresh(parser.base.records[i].data))
      ensures parser.reader == W.Next(f, source, bytes, chunkSize, W.FRESH_READER)
      ensures var h := HeaderOf(settings, W.Next(f, source, bytes, chunkSize, W.FRESH_READER).values);
        var all := Reached(f, source, bytes, chunkSize, W.FRESH_READER).values;
        && taken == h.taken && colNames == h.names && h.taken <= |all| && Remaining() == all[h.taken..]
    {
      this.settings := settings;
      this.bytes := bytes;
      parser := new MmapParser(source, chunkSize, f, wsChars, pageSize);
      colNames, nCols := settings.colNames, |settings.colNames|;
      nRows, headerTrimmed, taken := 0, false, 0;
      new;
      assert Valid();
      InitialRead();
    }

    /** One more window of rows. */
    method ReadWindow()
      requires Valid()
      modifies parser, parser.base
      ensures Valid()
      ensures parser.reader == W.Next(parser.base.fmt, parser.source, bytes, parser.chunkSize, old(parser.reader))
      ensures old(parser.base.records) <= parser.base.records
      ensures forall i :: |old(parser.base.records)| <= i < |parser.base.records| ==> fresh(parser.base.records[i].data)
    {
      hide MmapParser.Apart, AllShow, Parser.Valid, NonOverlapping, Run, CsvScan.EndFeed, Values, W.ShiftRows;
      W.NextInside(parser.base.fmt, parser.source, bytes, parser.chunkSize, parser.reader);
      parser.Next(bytes);
    }

    /** The next window would lead to itself. */
    ghost predicate StuckHere()
      requires Valid()
      reads this, parser, parser.base
      reads set i | 0 <= i < |parser.base.records| :: parser.base.records[i].data
      reads set i | 0 <= i < |parser.base.records| :: parser.base.records[i].data.fields
      reads set i, o | 0 <= i < |parser.base.records| && o in parser.base.records[i].data.fields.Repr :: o
    {
      W.Stuck(parser.reader, W.Next(parser.base.fmt, parser.source, bytes, parser.chunkSize, parser.reader))
    }

    /** A window on the way; what remains does not change. */
    method ReadMore()
      requires Valid() && !parser.eof && !StuckHere()
      modifies parser, parser.base
      ensures Valid() && Remaining() == old(Remaining()) && Last() == old(Last())
      ensures old(parser.base.records) <= parser.base.records
      ensures forall i :: |old(parser.base.records)| <= i < |parser.base.records| ==> fresh(parser.base.records[i].data)
      ensures parser.eof || parser.mmapPos > old(parser.mmapPos)
        || (parser.mmapPos == old(parser.mmapPos) && parser.base.bomScan && !old(parser.base.bomScan))
    {
      hide MmapParser.Apart, AllShow, Reached, W.Next, Parser.Valid, NonOverlapping;
      ReachedNext(parser.base.fmt, parser.source, bytes, parser.chunkSize, parser.reader);
      W.NextInside(parser.base.fmt, parser.source, bytes, parser.chunkSize, parser.reader);
      ReadWindow();
    }

    /** The first window, and the header in it. */
    method InitialRead()
      requires Valid() && !parser.eof && !headerTrimmed && taken == 0 && parser.base.records == []
      requires colNames == settings.colNames
      modifies this, parser, parser.base
      ensures Valid() && headerTrimmed
        && forall i :: 0 <= i < |parser.base.records| ==> fresh(parser.base.records[i].data)
      ensures var first := W.Next(parser.base.fmt, parser.source, bytes, parser.chunkSize, old(parser.reader)).values;
        var h := HeaderOf(settings, first);
        && parser.reader == W.Next(parser.base.fmt, parser.source, bytes, parser.chunkSize, old(parser.reader))
        && taken == h.taken && colNames == h.names && h.taken <= |old(Remaining())|
        && Remaining() == old(Remaining())[h.taken..]
    {
      hide MmapParser.Valid, MmapParser.Apart, AllShow, Reached, W.Next, NonOverlapping;
      ghost var st := parser.reader;
      InitialReach();
      ReadWindow();
      TrimHeader();
    }

    /** The first window does not change what there is to read. */
    lemma InitialReach()
      requires parser.Valid() && !parser.eof
      ensures var f, d, chunk, st := parser.base.fmt, parser.source, parser.chunkSize, parser.reader;
        var n := W.Next(f, d, bytes, chunk, st);
        && n.pos <= |d| && n.values <= Reached(f, d, bytes, chunk, st).values
        && Reached(f, d, bytes, chunk, n).values == Reached(f, d, bytes, chunk, st).values
    {
      hide Reached, W.Next, MmapParser.Apart, AllShow, NonOverlapping;
      var f, d, chunk, st := parser.base.fmt, parser.source, parser.chunkSize, parser.reader;
      ReachedNext(f, d, bytes, chunk, st);
      ReachedExtends(f, d, bytes, chunk, W.Next(f, d, bytes, chunk, st));
    }

    method FrontTexts() returns (texts: seq<Text>)
      requires Valid() && taken < |parser.base.records|
      modifies (set i | 0 <= i < |parser.base.records| :: parser.base.records[i].data)`doubleQuoteFields
      ensures Valid() && |parser.reader.values| == |parser.base.records| && texts == parser.reader.values[taken]
    {
      hide MmapParser.Valid, Reached;
      ValuesOfRecords();
      texts := parser.TextsAt(taken);
    }

    /** The strings of the row that was taken last. */
    method LastTexts() returns (texts: seq<Text>)
      requires Valid() && 0 < taken <= |parser.base.records|
      modifies (set i | 0 <= i < |parser.base.records| :: parser.base.records[i].data)`doubleQuoteFields
      ensures Valid() && Remaining() == old(Remaining()) && Last() == old(Last())
      ensures taken <= |parser.reader.values| && texts == parser.reader.values[taken - 1]
    {
      hide MmapParser.Valid, Reached;
      ValuesOfRecords();
      texts := parser.TextsAt(taken - 1);
    }

    lemma ValuesOfRecords()
      requires parser.Valid()
      ensures |parser.reader.values| == |parser.base.records|
    {
      hide Shows;
    }

    method SetColNames(names: seq<Text>)
      requires Valid()
      modifies this`colNames, this`nCols
      ensures Valid() && colNames == names
    {
      hide Reached;
      Outside();
      colNames, nCols := names, |names|;
    }

    method MarkTrimmed()
      requires Valid()
      modifies this`headerTrimmed
      ensures Valid() && headerTrimmed
    {
      hide Reached;
      Outside();
      headerTrimmed := true;
    }

    method TrimHeader()
      requires Valid() && !headerTrimmed && taken == 0 && colNames == settings.colNames
      modifies this, (set i | 0 <= i < |parser.base.records| :: parser.base.records[i].data)`doubleQuoteFields
      ensures Valid() && headerTrimmed && Header(colNames, taken) == HeaderOf(settings, parser.reader.values)
    {
      hide Valid, MmapParser.Valid;
      Front();
      var i := 0;
      while i <= settings.header && taken < |parser.base.records|
        invariant Valid() && !headerTrimmed && taken == i <= |parser.base.records| == |parser.reader.values|
        invariant if settings.header < 0 then i == 0 else i <= settings.header + 1
        invariant colNames == if i == settings.header + 1 then HeaderOf(settings, parser.reader.values).names else settings.colNames
      {
        if i == settings.header && colNames == [] {
          var names := FrontTexts();
          SetColNames(names);
        }
        var row := PopFront();
        i := i + 1;
      }
      MarkTrimmed();
    }

    lemma LastIs()
      requires Valid()
      ensures Last() == Reached(parser.base.fmt, parser.source, bytes, parser.chunkSize, parser.reader)
    {
    }

    lemma ColumnCount()
      requires Valid()
      ensures nCols == |colNames|
    {
    }

    lemma RowLength(i: nat)
      requires parser.Valid() && i < |parser.base.records|
      ensures i < |parser.reader.values| && |parser.reader.values[i]| == parser.base.records[i].length
    {
      hide FieldList.Valid, FieldList.Contents, IsFlagTable, RawData.CacheValid, RowValue;
      assert Shows(parser.base.fmt, parser.base.records[i], parser.reader.values[i]);
    }

    lemma AtLast()
      requires Valid()
      ensures parser.eof || StuckHere() ==> Last() == parser.reader
    {
      hide W.Next, MmapParser.Apart, AllShow;
    }

    /** The front of the queue is the first row that remains. */
    lemma Front()
      requires Valid()
      ensures taken <= |parser.base.records| == |parser.reader.values| && parser.mmapPos <= |parser.source|
      ensures if taken < |parser.base.records| then
                Remaining() != [] && taken < |parser.reader.values| && Remaining()[0] == parser.reader.values[taken]
                && |Remaining()[0]| == parser.base.records[taken].length
              else parser.eof || StuckHere() ==> Remaining() == []
      ensures parser.eof ==> Last().eof
      ensures !parser.eof && StuckHere() ==> !Last().eof
    {
      hide Reached, MmapParser.Apart, Shows, NonOverlapping;
      ReachedExtends(parser.base.fmt, parser.source, bytes, parser.chunkSize, parser.reader);
      AtLast();
      if taken < |parser.base.records| { RowLength(taken); }
    }

    method PopFront() returns (row: Row)
      requires Valid() && taken < |parser.base.records|
      modifies this`taken
      ensures Valid() && taken == old(taken) + 1 && row == parser.base.records[taken - 1]
      ensures old(Remaining()) != [] && Remaining() == old(Remaining())[1..] && Last() == old(Last())
    {
      hide Reached, AllShow, MmapParser.Apart, NonOverlapping;
      Front();
      ReachedExtends(parser.base.fmt, parser.source, bytes, parser.chunkSize, parser.reader);
      Outside();
      row := parser.base.records[taken];
      taken := taken + 1;
    }

    method CountRow()
      requires Valid()
      modifies this`nRows
      ensures Valid() && Remaining() == old(Remaining()) && nRows == old(nRows) + 1 && Last() == old(Last())
    {
      Outside();
      nRows := nRows + 1;
    }

    /** The row at the front of the queue. */
    method TakeFront() returns (a: Option<Answer>)
      requires Valid() && taken < |parser.base.records|
      modifies this`taken, this`nRows
      ensures Valid() && 0 < taken == old(taken) + 1 <= |parser.base.records| == |parser.reader.values|
      ensures Last() == old(Last())
      ensures var rows := old(Remaining());
        && rows != [] && Remaining() == rows[1..] && parser.reader.values[taken - 1] == rows[0]
        && a == (if Passed(settings.policy, nCols, rows[0]) then None
                 else Some(AnswerOf(settings.policy, nCols, rows[0], parser.base.records[taken - 1])))
        && nRows == old(nRows) + (if a.Some? && a.value.Delivered? then 1 else 0)
    {
      hide Valid, MmapParser.Valid, Remaining, Last, StuckHere;
      Front();
      var row := PopFront();
      Front();
      if row.length != nCols && settings.policy != KEEP {
        if settings.policy == THROW {
          return if row.length < nCols then Some(TooShort(row)) else Some(TooLong(row));
        }
        return None;
      }
      CountRow();
      return Some(Delivered(row));
    }

    /** The answer is the row that was taken last, and these are its texts. */
    ghost predicate Answered(row: seq<Text>, a: Answer)
      reads this, parser, parser.base
    {
      && 0 < taken <= |parser.base.records| == |parser.reader.values| && parser.reader.values[taken - 1] == row
      && a == AnswerOf(settings.policy, nCols, row, parser.base.records[taken - 1])
    }

    /** A window or a row further on than there. */
    ghost predicate Further(eof: bool, pos: nat, bomScan: bool, left: int)
      reads this, parser, parser.base
    {
      && parser.mmapPos <= |parser.source| && taken <= |parser.base.records|
      && if parser.eof != eof then parser.eof
         else if parser.mmapPos != pos then parser.mmapPos > pos
         else if parser.base.bomScan != bomScan then parser.base.bomScan
         else |parser.base.records| - taken < left
    }

    lemma FurtherOn(eof: bool, pos: nat, bomScan: bool, left: int)
      ensures Further(eof, pos, bomScan, left) ==> parser.mmapPos <= |parser.source| && taken <= |parser.base.records|
      ensures Further(eof, pos, bomScan, left) ==>
        if parser.eof != eof then parser.eof
        else if parser.mmapPos != pos then parser.mmapPos > pos
        else if parser.base.bomScan != bomScan then parser.base.bomScan
        else |parser.base.records| - taken < left
    {
    }

    lemma AnswerTaken(row: seq<Text>, a: Answer)
      requires Answered(row, a)
      ensures 0 < taken <= |parser.base.records| == |parser.reader.values| && parser.reader.values[taken - 1] == row
      ensures !a.AtEnd? && a.row == parser.base.records[taken - 1]
      ensures (a.Delivered? <==> settings.policy == KEEP || |row| == nCols)
        && (a.TooShort? <==> settings.policy != KEEP && |row| < nCols)
    {
    }

    /** One turn of read_row's loop: no answer yet if it reads a window or passes over a row. */
    method Turn() returns (a: Option<Answer>, ghost passed: nat)
      requires Valid() && (Last().eof || Remaining() != [])
      modifies this`taken, this`nRows, parser, parser.base
      ensures Valid() && old(parser.base.records) <= parser.base.records
      ensures forall i :: |old(parser.base.records)| <= i < |parser.base.records| ==> fresh(parser.base.records[i].data)
      ensures Last() == old(Last())
      ensures a == None ==> nRows == old(nRows) && passed <= |old(Remaining())| && Remaining() == old(Remaining())[passed..]
      ensures a == None && passed > 0 ==> passed == 1 && Passed(settings.policy, nCols, old(Remaining())[0])
      ensures a == None ==>
        Further(old(parser.eof), old(parser.mmapPos), old(parser.base.bomScan), old(|parser.base.records| - taken))
      ensures a.Some? && old(Remaining()) == [] ==> a.value == AtEnd && Remaining() == [] && nRows == old(nRows)
      ensures a.Some? && old(Remaining()) != [] ==>
        && !Passed(settings.policy, nCols, old(Remaining())[0]) && Remaining() == old(Remaining())[1..]
        && Answered(old(Remaining())[0], a.value) && nRows == old(nRows) + (if a.value.Delivered? then 1 else 0)
    {
      hide Valid, Remaining, Last, StuckHere, W.Next, MmapParser.Valid, AnswerOf, Passed;
      passed := 0;
      Front();
      if taken < |parser.base.records| {
        a := TakeFront();
        if a == None { passed := 1; }
        Front();
      } else if parser.eof {
        a := Some(AtEnd);
      } else {
        ReadMore();
        a := None;
        Front();
      }
    }

    /** Where reading on comes to after begin, which reads a window if the queue is empty. */
    ghost function AfterBegin(): W.Reader
      requires Valid()
      reads this, parser, parser.base
      reads set i | 0 <= i < |parser.base.records| :: parser.base.records[i].data
      reads set i | 0 <= i < |parser.base.records| :: parser.base.records[i].data.fields
      reads set i, o | 0 <= i < |parser.base.records| && o in parser.base.records[i].data.fields.Repr :: o
    {
      if taken < |parser.base.records| then Last()
      else
        W.NextInside(parser.base.fmt, parser.source, bytes, parser.chunkSize, parser.reader);
        var n := W.Next(parser.base.fmt, parser.source, bytes, parser.chunkSize, parser.reader);
        Reached(parser.base.fmt, parser.source, bytes, parser.chunkSize, n)
    }

    /** The rows that iterating comes to. */
    ghost function Iterable(): seq<seq<Text>>
      requires Valid()
      reads this, parser, parser.base
      reads set i | 0 <= i < |parser.base.records| :: parser.base.records[i].data
      reads set i | 0 <= i < |parser.base.records| :: parser.base.records[i].data.fields
      reads set i, o | 0 <= i < |parser.base.records| && o in parser.base.records[i].data.fields.Repr :: o
    {
      var n := W.Next(parser.base.fmt, parser.source, bytes, parser.chunkSize, parser.reader);
      if taken < |parser.base.records| then Remaining()
      else if |n.values| <= taken then []
      else if taken <= |AfterBegin().values| then AfterBegin().values[taken..] else []
    }

    /** The row that an iterator begins with, taken off the queue unseen; it reads a
        window first if the queue is empty, even at the end of the file. */
    method Begin() returns (row: Option<Row>)
      requires Valid()
      modifies this`taken, parser, parser.base
      ensures Valid() && old(parser.base.records) <= parser.base.records
      ensures forall i :: |old(parser.base.records)| <= i < |parser.base.records| ==> fresh(parser.base.records[i].data)
      ensures row == None <==> old(Iterable()) == []
      ensures row.Some? ==>
        && Remaining() == old(Iterable())[1..] && Last() == old(AfterBegin()) && 0 < taken <= |parser.base.records|
        && |parser.reader.values| == |parser.base.records| && parser.reader.values[taken - 1] == old(Iterable())[0]
        && row == Some(parser.base.records[taken - 1])
    {
      hide W.Next, MmapParser.Apart, AllShow, Reached, NonOverlapping;
      Front();
      ghost var rows := Iterable();
      if taken >= |parser.base.records| {
        W.NextInside(parser.base.fmt, parser.source, bytes, parser.chunkSize, parser.reader);
        ReadWindow();
        Front();
        ReachedExtends(parser.base.fmt, parser.source, bytes, parser.chunkSize, parser.reader);
        if taken >= |parser.base.records| {
          return None;
        }
      }
      assert Remaining() == rows;
      var front := PopFront();
      Front();
      return Some(front);
    }

    /** The next row; rows of another length are passed over or refused first. It is
        answered at all if reading comes to the end of the file, or a row remains that
        is not passed over. */
    method ReadRow() returns (a: Answer)
      requires Valid() && (Last().eof || SomeAnswered(settings.policy, nCols, Remaining()))
      modifies this`taken, this`nRows, parser, parser.base
      ensures Valid() && old(parser.base.records) <= parser.base.records
      ensures forall i :: |old(parser.base.records)| <= i < |parser.base.records| ==> fresh(parser.base.records[i].data)
      ensures Last() == old(Last()) && nRows == old(nRows) + (if a.Delivered? then 1 else 0)
      ensures Answers(settings.policy, nCols, old(Remaining()), Remaining(), a)
      ensures !a.AtEnd? ==>
        && 0 < taken <= |parser.base.records| == |parser.reader.values| && a.row == parser.base.records[taken - 1]
        && |Remaining()| < |old(Remaining())|
        && parser.reader.values[taken - 1] == NextRow(old(Remaining()), Remaining())
    {
      hide *;
      Front();
      ghost var rows := Remaining();
      ghost var k: nat := 0;
      NonePassed(settings.policy, nCols, rows);
      while true
        invariant Valid() && old(parser.base.records) <= parser.base.records && nRows == old(nRows) && Last() == old(Last())
        invariant forall i :: |old(parser.base.records)| <= i < |parser.base.records| ==> fresh(parser.base.records[i].data)
        invariant AllPassed(settings.policy, nCols, rows, k) && Remaining() == rows[k..]
        invariant parser.mmapPos <= |parser.source| && taken <= |parser.base.records|
        decreases !parser.eof, |parser.source| - parser.mmapPos, !parser.base.bomScan, |parser.base.records| - taken
      {
        var next;
        next, k := TurnAt(rows, k);
        if next.Some? {
          return next.value;
        }
      }
    }

    /** A turn after k rows that were passed over. */
    method TurnAt(ghost rows: seq<seq<Text>>, ghost k: nat) returns (a: Option<Answer>, ghost n: nat)
      requires Valid() && AllPassed(settings.policy, nCols, rows, k) && Remaining() == rows[k..]
      requires Last().eof || SomeAnswered(settings.policy, nCols, rows)
      modifies this`taken, this`nRows, parser, parser.base
      ensures Valid() && old(parser.base.records) <= parser.base.records && Last() == old(Last())
      ensures forall i :: |old(parser.base.records)| <= i < |parser.base.records| ==> fresh(parser.base.records[i].data)
      ensures nRows == old(nRows) + if a.Some? && a.value.Delivered? then 1 else 0
      ensures a == None ==> AllPassed(settings.policy, nCols, rows, n) && Remaining() == rows[n..]
      ensures a == None ==>
        && parser.mmapPos <= |parser.source| && taken <= |parser.base.records|
        && if parser.eof != old(parser.eof) then parser.eof
           else if parser.mmapPos != old(parser.mmapPos) then parser.mmapPos > old(parser.mmapPos)
           else if parser.base.bomScan != old(parser.base.bomScan) then parser.base.bomScan
           else |parser.base.records| - taken < old(|parser.base.records| - taken)
      ensures a.Some? ==> Answers(settings.policy, nCols, rows, Remaining(), a.value)
      ensures a.Some? && !a.value.AtEnd? ==>
        && 0 < taken <= |parser.base.records| == |parser.reader.values| && a.value.row == parser.base.records[taken - 1]
        && |Remaining()| < |rows| && parser.reader.values[taken - 1] == NextRow(rows, Remaining())
    {
      hide *;
      ghost var eof, pos, bomScan, left := parser.eof, parser.mmapPos, parser.base.bomScan, |parser.base.records| - taken;
      RowsLeft(settings.policy, nCols, rows, k);
      ghost var passed;
      a, passed := Turn();
      n := k + passed;
      if a.Some? {
        if k < |rows| { AnswerTaken(rows[k..][0], a.value); }
        AnswersIs(settings.policy, nCols, rows, k, a.value);
      } else {
        FurtherOn(eof, pos, bomScan, left);
        Onward(settings.policy, nCols, rows, k, passed);
      }
    }
  }

  /** The next answer, and the strings of its row if that is delivered. */
  method NextTexts(r: CsvReader) returns (a: Answer, texts: seq<Text>)
    requires r.Valid() && (r.Last().eof || SomeAnswered(r.settings.policy, r.nCols, r.Remaining()))
    modifies r`taken, r`nRows, r.parser, r.parser.base
    modifies set i | 0 <= i < |r.parser.base.records| :: r.parser.base.records[i].data
    ensures r.Valid() && r.Last() == old(r.Last()) && old(r.parser.base.records) <= r.parser.base.records
    ensures forall i :: |old(r.parser.base.records)| <= i < |r.parser.base.records| ==> fresh(r.parser.base.records[i].data)
    ensures Answers(r.settings.policy, r.nCols, old(r.Remaining()), r.Remaining(), a)
    ensures a.Delivered? ==> |r.Remaining()| < |old(r.Remaining())| && texts == NextRow(old(r.Remaining()), r.Remaining())
  {
    hide *;
    a := r.ReadRow();
    texts := [];
    if a.Delivered? { texts := r.LastTexts(); }
  }

  // ---------------------------------------------------------------- iterating

  /** The first row is handed over whatever the policy says of it. */
  function Iterated(policy: Policy, columns: nat, rows: seq<seq<Text>>): seq<seq<Text>> {
    if rows == [] then [] else [rows[0]] + Delivery(policy, columns, rows[1..])
  }

  /** Iterating gives what reading row after row gives exactly when there is no row or
      the first one fits. */
  lemma IteratedExactly(policy: Policy, columns: nat, rows: seq<seq<Text>>)
    ensures Iterated(policy, columns, rows) == Delivery(policy, columns, rows)
      <==> rows == [] || policy == KEEP || |rows[0]| == columns
  {
  }

  /** Iterates over the rows, from begin on, and takes their strings. */
  method IterateTable(r: CsvReader) returns (table: seq<seq<Text>>, refused: bool)
    requires r.Valid()
    requires r.Iterable() == [] || r.AfterBegin().eof
      || Refusal(r.settings.policy, r.nCols, r.Iterable()[1..]).Some?
    modifies r, r.parser, r.parser.base
    modifies set i | 0 <= i < |r.parser.base.records| :: r.parser.base.records[i].data
    ensures r.Valid() && table == Iterated(r.settings.policy, old(r.nCols), old(r.Iterable()))
    ensures refused <==> old(r.Iterable()) != [] && Refusal(r.settings.policy, old(r.nCols), old(r.Iterable()[1..])).Some?
  {
    hide CsvReader.Valid, CsvReader.Remaining, CsvReader.Last, CsvReader.Iterable, CsvReader.AfterBegin, Delivery, Refusal;
    ghost var rows := r.Iterable();
    var first := r.Begin();
    if first == None {
      return [], false;
    }
    var texts := r.LastTexts();
    table, refused := ReadTable(r);
    table := [texts] + table;
  }

  /** Reads rows until there is no more or one is refused, and takes their strings. */
  method ReadTable(r: CsvReader) returns (table: seq<seq<Text>>, refused: bool)
    requires r.Valid() && (r.Last().eof || Refusal(r.settings.policy, r.nCols, r.Remaining()).Some?)
    modifies r, r.parser, r.parser.base
    modifies set i | 0 <= i < |r.parser.base.records| :: r.parser.base.records[i].data
    ensures r.Valid() && table == Delivery(r.settings.policy, old(r.nCols), old(r.Remaining()))
    ensures refused == Refusal(r.settings.policy, old(r.nCols), old(r.Remaining())).Some?
  {
    hide *;
    ghost var policy, columns, rows := r.settings.policy, r.nCols, r.Remaining();
    table, refused := [], false;
    while true
      invariant r.Valid() && r.nCols == columns && r.Last() == old(r.Last()) && old(r.parser.base.records) <= r.parser.base.records
      invariant forall i :: |old(r.parser.base.records)| <= i < |r.parser.base.records| ==> fresh(r.parser.base.records[i].data)
      invariant table + Delivery(policy, columns, r.Remaining()) == Delivery(policy, columns, rows)
      invariant Refusal(policy, columns, r.Remaining()) == Refusal(policy, columns, rows)
      decreases |r.Remaining()|
    {
      ghost var left := r.Remaining();
      RefusalThrows(policy, columns, left);
      var a, texts := NextTexts(r);
      TableNext(policy, columns, table, left, r.Remaining(), a);
      if !a.Delivered? {
        return table, !a.AtEnd?;
      }
      table := table + [texts];
    }
  }

  /** What an answer says of the rows there were before and are left after it: the rows
      between are passed over for their length, which only one policy does, and the next
      is delivered if it has the length or any is kept, and else refused as too short or
      too long; or no row was left. */
  ghost predicate Answers(policy: Policy, columns: nat, rows: seq<seq<Text>>, left: seq<seq<Text>>, a: Answer) {
    var k := |rows| - |left| - if a.AtEnd? then 0 else 1;
    && 0 <= k <= |rows| && (forall i :: 0 <= i < k ==> |rows[i]| != columns) && (k > 0 ==> policy == IGNORE_ROW)
    && (a.AtEnd? <==> k == |rows|)
    && (!a.AtEnd? ==>
          && left == rows[k + 1..]
          && (a.Delivered? <==> policy == KEEP || |rows[k]| == columns)
          && (a.TooShort? <==> policy == THROW && |rows[k]| < columns)
          && (a.TooLong? <==> policy == THROW && |rows[k]| > columns))
  }

  /** The first k rows are passed over. */
  ghost predicate AllPassed(policy: Policy, columns: nat, rows: seq<seq<Text>>, k: nat)
    ensures AllPassed(policy, columns, rows, k) ==> k <= |rows|
  {
    k <= |rows| && forall i :: 0 <= i < k ==> Passed(policy, columns, rows[i])
  }

  lemma NonePassed(policy: Policy, columns: nat, rows: seq<seq<Text>>)
    ensures AllPassed(policy, columns, rows, 0) && rows[0..] == rows
  {
  }

  lemma RowsLeft(policy: Policy, columns: nat, rows: seq<seq<Text>>, k: nat)
    requires AllPassed(policy, columns, rows, k)
    ensures SomeAnswered(policy, columns, rows) ==> k < |rows| && rows[k..] != []
  {
  }

  lemma Onward(policy: Policy, columns: nat, rows: seq<seq<Text>>, k: nat, passed: nat)
    requires AllPassed(policy, columns, rows, k) && passed <= 1 && passed <= |rows[k..]|
    requires passed > 0 ==> Passed(policy, columns, rows[k..][0])
    ensures k + passed <= |rows| && rows[k..][passed..] == rows[k + passed..]
    ensures AllPassed(policy, columns, rows, k + passed)
  {
  }

  /** The rows read so far and those still to be delivered, before and after an answer. */
  lemma TableNext(policy: Policy, columns: nat, table: seq<seq<Text>>, rows: seq<seq<Text>>, left: seq<seq<Text>>, a: Answer)
    requires Answers(policy, columns, rows, left, a)
    ensures !a.AtEnd? ==> |left| < |rows|
    ensures a.Delivered? ==>
      && table + Delivery(policy, columns, rows) == (table + [NextRow(rows, left)]) + Delivery(policy, columns, left)
      && Refusal(policy, columns, rows) == Refusal(policy, columns, left)
    ensures !a.Delivered? ==>
      table + Delivery(policy, columns, rows) == table && (Refusal(policy, columns, rows).Some? <==> !a.AtEnd?)
  {
    hide Answers, Delivery, Refusal, NextRow;
    NextDelivered(policy, columns, rows, left, a);
  }

  lemma AnswersIs(policy: Policy, columns: nat, rows: seq<seq<Text>>, k: nat, a: Answer)
    requires AllPassed(policy, columns, rows, k) && (k == |rows| ==> a == AtEnd)
    requires k < |rows| ==>
      && !Passed(policy, columns, rows[k..][0]) && !a.AtEnd?
      && (a.Delivered? <==> policy == KEEP || |rows[k..][0]| == columns)
      && (a.TooShort? <==> policy != KEEP && |rows[k..][0]| < columns)
    ensures Answers(policy, columns, rows, if k < |rows| then rows[k..][1..] else rows[k..], a)
    ensures k < |rows| ==> |rows[k..][1..]| < |rows| && NextRow(rows, rows[k..][1..]) == rows[k..][0]
  {
    if k < |rows| { assert rows[k..][1..] == rows[k + 1..]; }
    assert k > 0 ==> Passed(policy, columns, rows[0]);
  }

  function AnswerOf(policy: Policy, columns: nat, texts: seq<Text>, row: Row): Answer {
    if Fits(policy, columns, texts) then Delivered(row)
    else if |texts| < columns then TooShort(row) else TooLong(row)
  }

  lemma ReaderNotInFields(fields: FieldList<RawField>, reader: CsvReader)
    requires fields.Valid()
    ensures reader !in fields.Repr
  {
  }
}
