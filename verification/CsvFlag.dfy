/** Which values a doubled-quote flag that outlives its window changes
    (lib/csv-parser/csv.hpp, push_field, get_field and MmapParser::next). */
module CsvFlag {
  import opened Common
  import opened CsvScan
  import opened CsvDocument
  import opened CsvWindow

  // ---------------------------------------------------------------- needless flags

  function QuoteCount(f: Format, raw: Text): nat {
    if raw == [] then 0 else (if f.quote == Some(raw[0]) then 1 else 0) + QuoteCount(f, raw[1..])
  }

  lemma {:induction false} UndoubleShortens(f: Format, raw: Text, prevQuote: bool)
    ensures |Undouble(f, raw, prevQuote)| <= |raw|
    decreases |raw|
  {
    if raw != [] {
      UndoubleShortens(f, raw[1..], prevQuote);
      UndoubleShortens(f, raw[1..], true);
      UndoubleShortens(f, raw[1..], false);
    }
  }

  /** Un-doubling leaves a text as it is exactly when it has at most one quote. */
  lemma {:induction false} UndoubleSame(f: Format, raw: Text, prevQuote: bool)
    ensures Undouble(f, raw, prevQuote) == raw <==> QuoteCount(f, raw) <= (if prevQuote then 0 else 1)
    decreases |raw|
  {
    if raw != [] {
      assert raw == [raw[0]] + raw[1..];
      if f.quote == Some(raw[0]) {
        UndoubleSame(f, raw[1..], true);
        UndoubleShortens(f, raw[1..], false);
      } else {
        UndoubleSame(f, raw[1..], prevQuote);
      }
    }
  }

  /** A field that only the windows flagged has at most one quote. */
  ghost predicate Harmless(f: Format, d: Text, start: nat, a: RawField, b: RawField) {
    a.doubled && !b.doubled ==> QuoteCount(f, Slice(d, start + b.start, b.length)) <= 1
  }

  ghost predicate HarmlessFields(f: Format, d: Text, start: nat, a: seq<RawField>, b: seq<RawField>) {
    |a| == |b| && forall i :: 0 <= i < |a| ==> Harmless(f, d, start, a[i], b[i])
  }

  ghost predicate HarmlessRows(f: Format, d: Text, a: seq<RawRow>, b: seq<RawRow>) {
    |a| == |b| && forall i :: 0 <= i < |a| ==> HarmlessFields(f, d, b[i].start, a[i].fields, b[i].fields)
  }

  lemma FieldSameExactly(f: Format, d: Text, start: nat, a: RawField, b: RawField)
    requires CoversField(a, b)
    ensures FieldValue(f, d, start, a) == FieldValue(f, d, start, b) <==> Harmless(f, d, start, a, b)
  {
    UndoubleSame(f, Slice(d, start + b.start, b.length), false);
  }

  lemma {:induction false} RowSameExactly(f: Format, d: Text, start: nat, a: seq<RawField>, b: seq<RawField>)
    requires CoversFields(a, b)
    ensures RowValue(f, d, start, a) == RowValue(f, d, start, b) <==> HarmlessFields(f, d, start, a, b)
    decreases |a|
  {
    hide FieldValue, Harmless;
    if a != [] {
      var n := |a| - 1;
      RowSameExactly(f, d, start, a[..n], b[..n]);
      FieldSameExactly(f, d, start, a[n], b[n]);
      LastApart(RowValue(f, d, start, a[..n]), FieldValue(f, d, start, a[n]),
                RowValue(f, d, start, b[..n]), FieldValue(f, d, start, b[n]));
      assert forall i :: 0 <= i < n ==> a[..n][i] == a[i] && b[..n][i] == b[i];
    }
  }

  lemma LastApart<T>(a: seq<T>, x: T, b: seq<T>, y: T)
    requires |a| == |b|
    ensures a + [x] == b + [y] <==> a == b && x == y
  {
    if a + [x] == b + [y] {
      assert (a + [x])[..|a|] == a && (b + [y])[..|a|] == b;
      assert (a + [x])[|a|] == x && (b + [y])[|a|] == y;
    }
  }

  /** Rows at the same places have the same values exactly when every needless
      flag is harmless. */
  lemma {:induction false} ValuesSameExactly(f: Format, d: Text, a: seq<RawRow>, b: seq<RawRow>)
    requires CoversRows(a, b)
    ensures Values(f, d, a) == Values(f, d, b) <==> HarmlessRows(f, d, a, b)
    decreases |a|
  {
    hide RowValue, CoversFields, HarmlessFields;
    if a != [] {
      var n := |a| - 1;
      ValuesSameExactly(f, d, a[..n], b[..n]);
      RowSameExactly(f, d, b[n].start, a[n].fields, b[n].fields);
      LastApart(Values(f, d, a[..n]), RowValue(f, d, a[n].start, a[n].fields),
                Values(f, d, b[..n]), RowValue(f, d, b[n].start, b[n].fields));
      assert forall i :: 0 <= i < n ==> a[..n][i] == a[i] && b[..n][i] == b[i];
    }
  }

  // ---------------------------------------------------------------- the first field of a window

  /** The first field of rows found in u has a flag, or at most one quote. */
  predicate FirstHarmlessOf(f: Format, u: Text, rows: seq<RawRow>) {
    rows != [] && rows[0].fields != [] ==>
      (var x := rows[0].fields[0]; x.doubled || QuoteCount(f, Slice(u, rows[0].start + x.start, x.length)) <= 1)
  }

  /** The first field of u, scanned with no flag set. */
  predicate FirstHarmless(f: Format, u: Text, skip: nat)
    requires NonOverlapping(f) && skip <= |u|
  {
    FirstHarmlessOf(f, u, EndFeed(f, u, Run(f, u, RowBegin(0, skip, []))).rows)
  }

  /** From the window at k on: whenever a window that is not the last ends with the
      flag set, the first field of the next window would be flagged without it, or
      has at most one quote. */
  predicate StaleHarmless(f: Format, d: Text, bytes: nat, k: nat, skip: nat)
    requires NonOverlapping(f) && k + skip <= |d| && skip <= bytes
    decreases |d| - k
  {
    k + bytes >= |d| ||
    (var s := WindowScan(f, d, bytes, k, skip);
     s.rowStart == 0 || ((s.doubled ==> FirstHarmless(f, d[k + s.rowStart..], 0))
                         && StaleHarmless(f, d, bytes, k + s.rowStart, 0)))
  }

  lemma HarmlessAppend(f: Format, d: Text, a: seq<RawRow>, b: seq<RawRow>, x: seq<RawRow>, y: seq<RawRow>)
    requires |a| == |b| && |x| == |y|
    ensures HarmlessRows(f, d, a + x, b + y) <==> HarmlessRows(f, d, a, b) && HarmlessRows(f, d, x, y)
  {
    hide HarmlessFields;
    if HarmlessRows(f, d, a + x, b + y) {
      forall i | 0 <= i < |a| ensures HarmlessFields(f, d, b[i].start, a[i].fields, b[i].fields) {
        assert (a + x)[i] == a[i] && (b + y)[i] == b[i];
      }
      forall i | 0 <= i < |x| ensures HarmlessFields(f, d, y[i].start, x[i].fields, y[i].fields) {
        assert (a + x)[|a| + i] == x[i] && (b + y)[|a| + i] == y[i];
      }
    }
  }

  lemma SliceMoved(d: Text, k: nat, from: nat, n: nat)
    requires k <= |d|
    ensures Slice(d[k..], from, n) == Slice(d, k + from, n)
  {
    if from + n <= |d| - k { assert d[k..][from..from + n] == d[k + from..k + from + n]; }
  }

  /** What marking changes of the rows found in d[k..] is the flag of their first field. */
  lemma HarmlessMarked(f: Format, d: Text, k: nat, rows: seq<RawRow>)
    requires k <= |d|
    ensures HarmlessRows(f, d, ShiftRows(MarkRows(rows), k), ShiftRows(rows, k)) <==> FirstHarmlessOf(f, d[k..], rows)
    ensures HarmlessRows(f, d, ShiftRows(rows, k), ShiftRows(rows, k))
  {
    hide QuoteCount, Slice;
    var a, b := ShiftRows(MarkRows(rows), k), ShiftRows(rows, k);
    if rows != [] && rows[0].fields != [] {
      var x := rows[0].fields[0];
      SliceMoved(d, k, rows[0].start + x.start, x.length);
      assert a[0].fields[0] == x.(doubled := true) && b[0].fields[0] == x;
      assert b[0].start == rows[0].start + k;
      assert HarmlessFields(f, d, b[0].start, a[0].fields, b[0].fields) <==> FirstHarmlessOf(f, d[k..], rows);
    }
  }

  lemma RowsBegun(f: Format, w: Text, skip: nat)
    requires NonOverlapping(f) && Inv(f, w, RowBegin(0, skip, []))
    ensures var r := Run(f, w, RowBegin(0, skip, [])); r.rowStart > 0 ==> r.rows != []
  {
    RowEndRecorded(f, w, RowBegin(0, skip, []));
  }

  /** The rows found so far stay at the front of those of the whole scan. */
  lemma FrontKept(f: Format, u: Text, s: Scan)
    requires NonOverlapping(f) && Inv(f, u, s) && s.rows != []
    ensures var all := EndFeed(f, u, Run(f, u, s)).rows; all != [] && all[0] == s.rows[0]
  {
    hide Inv, Run;
    RowEndRecorded(f, u, s);
    var r := Run(f, u, s);
    assert r.rows[..|s.rows|][0] == r.rows[0];
  }

  /** The first row of a window that finishes one is the first row of the rest of the file. */
  lemma FirstRowSame(f: Format, d: Text, bytes: nat, k: nat, skip: nat)
    requires NonOverlapping(f) && k + skip <= |d| && skip <= bytes && k + bytes < |d|
    requires !PartsLineEnd(f, d, bytes, k, skip)
    requires WindowScan(f, d, bytes, k, skip).rowStart > 0
    ensures var r := WindowScan(f, d, bytes, k, skip).rows;
      r != [] && (FirstHarmlessOf(f, d[k..], r) <==> FirstHarmless(f, d[k..], skip))
  {
    hide Run, Inv, EndFeed, QuoteCount, Slice;
    var u, b := d[k..], RowBegin(0, skip, []);
    var r := WindowScan(f, d, bytes, k, skip);
    assert Window(d, k, bytes) == u[..bytes];
    RowBeginInv(f, u, 0, skip, []);
    RowBeginInv(f, u[..bytes], 0, skip, []);
    RowsBegun(f, u[..bytes], skip);
    Truncated(f, u, bytes, b);
    RowBeginInv(f, u, r.rowStart, 0, r.rows);
    FrontKept(f, u, RowBegin(r.rowStart, 0, r.rows));
  }

  // ---------------------------------------------------------------- the whole file

  lemma LastHarmless(f: Format, d: Text, bytes: nat, chunk: nat, st: Reader, skip: nat, found: seq<RawRow>)
    requires NonOverlapping(f) && Aligned(f, d, st, skip, found) && 3 <= bytes && st.pos + bytes >= |d|
    ensures Next(f, d, bytes, chunk, st).eof
    ensures HarmlessRows(f, d, Next(f, d, bytes, chunk, st).rows, EndFeed(f, d, OnePiece(f, d)).rows)
      <==> HarmlessRows(f, d, st.rows, found) && (st.doubled ==> FirstHarmless(f, d[st.pos..], skip))
  {
    hide Run, Inv, Values, EndFeed, Mark, MarkRows, HarmlessRows, FirstHarmlessOf;
    var k := st.pos;
    var w := Window(d, k, bytes);
    assert w == d[k..];
    var r := WindowScan(f, d, bytes, k, skip);
    WindowMarked(f, d, bytes, st, skip);
    RestOfFile(f, d, st, skip, found);
    EndFeedPlaced(f, d, k, r, found);
    EndFeedMarked(f, w, r);
    var e := EndFeed(f, w, r).rows;
    HarmlessMarked(f, d, k, e);
    HarmlessAppend(f, d, st.rows, found, ShiftRows(if st.doubled then MarkRows(e) else e, k), ShiftRows(e, k));
  }

  lemma NextHarmless(f: Format, d: Text, bytes: nat, chunk: nat, st: Reader, skip: nat, found: seq<RawRow>)
    requires NonOverlapping(f) && Aligned(f, d, st, skip, found)
    requires 3 <= bytes && st.pos + bytes < |d| && chunk <= |d| && !PartsLineEnd(f, d, bytes, st.pos, skip)
    requires Next(f, d, bytes, chunk, st).pos > st.pos
    ensures var n, r := Next(f, d, bytes, chunk, st), WindowScan(f, d, bytes, st.pos, skip);
      && n.doubled == r.doubled
      && (HarmlessRows(f, d, n.rows, found + ShiftRows(r.rows, st.pos))
          <==> HarmlessRows(f, d, st.rows, found) && (st.doubled ==> FirstHarmless(f, d[st.pos..], skip)))
  {
    hide Run, Inv, Values, EndFeed, MarkRows, HarmlessRows, FirstHarmlessOf, FirstHarmless, OnePiece;
    var k := st.pos;
    var w := Window(d, k, bytes);
    var r := WindowScan(f, d, bytes, k, skip);
    WindowMarked(f, d, bytes, st, skip);
    FirstRowSame(f, d, bytes, k, skip);
    HarmlessMarked(f, d, k, r.rows);
    HarmlessAppend(f, d, st.rows, found, ShiftRows(if st.doubled then MarkRows(r.rows) else r.rows, k),
                   ShiftRows(r.rows, k));
  }

  /** The needless flags a reader ends with are harmless exactly when those it has
      are, the one it carries is, and those it will carry are. */
  lemma {:induction false} HarmlessFrom(f: Format, d: Text, bytes: nat, chunk: nat, st: Reader, skip: nat,
                                        found: seq<RawRow>)
    requires NonOverlapping(f) && Aligned(f, d, st, skip, found)
    requires 3 <= bytes && (|d| < chunk ==> |d| <= bytes) && RowsFit(f, d, bytes)
    requires CutsWell(f, d, bytes, st.pos, skip)
    ensures var r := ReadAll(f, d, bytes, chunk, st);
      r.Some? && (HarmlessRows(f, d, r.value.rows, EndFeed(f, d, OnePiece(f, d)).rows)
                  <==> HarmlessRows(f, d, st.rows, found) && (st.doubled ==> FirstHarmless(f, d[st.pos..], skip))
                       && StaleHarmless(f, d, bytes, st.pos, skip))
    decreases |d| - st.pos
  {
    hide Run, Inv, CoversRows, Values, EndFeed, Next, RowsFit, OnePiece, FirstHarmless, HarmlessRows;
    hide Parts, PartsLineEnd, ShiftRows;
    NextInside(f, d, bytes, chunk, st);
    var n := Next(f, d, bytes, chunk, st);
    if st.pos + bytes >= |d| {
      LastHarmless(f, d, bytes, chunk, st, skip, found);
    } else {
      WindowProgress(f, d, bytes, chunk, st, skip, found);
      var more := WindowAligned(f, d, bytes, chunk, st, skip, found);
      NextHarmless(f, d, bytes, chunk, st, skip, found);
      NotLast(f, d, bytes, chunk, st);
      HarmlessFrom(f, d, bytes, chunk, n, 0, more);
    }
  }

  /** For any file, such windows deliver the values of the one piece exactly when,
      whenever a window that is not the last ends with the flag set, the first field
      of the next would be flagged without it or has at most one quote. */
  lemma WindowValuesExactly(f: Format, d: Text, bytes: nat, chunk: nat)
    requires NonOverlapping(f) && 3 <= bytes && (|d| < chunk ==> |d| <= bytes)
    requires RowsFit(f, d, bytes) && CutsWell(f, d, bytes, 0, BomLength(d))
    ensures var r := ReadAll(f, d, bytes, chunk, FRESH_READER);
      r.Some? && (r.value.values == ParseAll(f, d, false, false) <==> StaleHarmless(f, d, bytes, 0, BomLength(d)))
  {
    hide ReadAll, Values, CoversRows, HarmlessRows, RowsFit, CutsWell, EndFeed, Run, Inv, StaleHarmless;
    WindowsFindTheSame(f, d, bytes, chunk);
    NoValues(f, d);
    ReadAllValues(f, d, bytes, chunk, FRESH_READER);
    ValuesSameExactly(f, d, ReadAll(f, d, bytes, chunk, FRESH_READER).value.rows, EndFeed(f, d, OnePiece(f, d)).rows);
    HarmlessMarked(f, d, 0, []);
    FreshAligned(f, d);
    HarmlessFrom(f, d, bytes, chunk, FRESH_READER, BomLength(d), []);
  }
}
