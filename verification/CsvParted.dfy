/** Where windows find other rows than the one piece: a window that ends between the
    two characters of a line end (lib/csv-parser/csv.hpp, parse and MmapParser::next). */
module CsvParted {
  import opened Common
  import opened CsvScan
  import opened CsvDocument
  import opened CsvFaithful
  import CsvField
  import opened CsvWindow
  import opened CsvStale
  import opened CsvEnds

  /** Scanning up to a cut that parts a line end: the cut text ends at the beginning
      of a row, and scanning on goes past the other character with the same rows. */
  lemma {:induction false} PartedScan(f: Format, u: Text, n: nat, s: Scan)
    requires NonOverlapping(f) && Inv(f, u, s) && Parts(f, u, n, s)
    ensures n < |u| && Inv(f, u[..n], s) && Flag(f, u[n]) == NEWLINE
    ensures var r := Run(f, u[..n], s);
      && r == RowBegin(n, 0, r.rows) && Inv(f, u, RowBegin(n + 1, 0, r.rows))
      && Run(f, u, s) == Run(f, u, RowBegin(n + 1, 0, r.rows))
    decreases |u| - s.pos
  {
    hide Inv, Step, Flag;
    StepKeepsInv(f, u, s);
    if Parting(f, u, n, s) {
      PartedTurn(f, u, n, s);
      var t := Step(f, u, s).value;
      RowBeginInv(f, u[..n], n, 0, t.rows);
      RunAtEnd(f, u[..n], RowBegin(n, 0, t.rows));
    } else {
      var t := Step(f, u, s).value;
      PartedScan(f, u, n, t);
      if CompoundFlag(f, u[s.pos], s.quoted) == NEWLINE {
        NewlineCut(f, u, n, s);
      } else {
        TurnCut(f, u, n, s);
      }
    }
  }

  /** After such a window the reader stands at the second character, while what
      remains of the one-piece scan begins a row behind it. */
  lemma PartedWindow(f: Format, d: Text, bytes: nat, chunk: nat, st: Reader, skip: nat, found: seq<RawRow>)
    returns (more: seq<RawRow>)
    requires NonOverlapping(f) && Aligned(f, d, st, skip, found)
    requires 3 <= bytes && st.pos + bytes < |d| && chunk <= |d| && PartsLineEnd(f, d, bytes, st.pos, skip)
    ensures var n := Next(f, d, bytes, chunk, st);
      && n.pos == st.pos + bytes && n.bomScanned && !n.eof && |n.rows| == |more| && Flag(f, d[n.pos]) == NEWLINE
      && OnePiece(f, d) == Run(f, d, RowBegin(n.pos + 1, 0, more))
  {
    hide Run, Inv, ShiftRows, Values, Mark, Flag, EndFeed;
    var k := st.pos;
    var u := d[k..];
    WindowBegin(f, d, bytes, st, skip);
    WindowMarked(f, d, bytes, st, skip);
    RestOfFile(f, d, st, skip, found);
    PartedScan(f, u, bytes, RowBegin(0, skip, []));
    var r := WindowScan(f, d, bytes, k, skip);
    more := found + ShiftRows(r.rows, k);
    Moved(f, d, k, found, RowBegin(bytes + 1, 0, r.rows));
    RowBeginPlaced(k, 0, bytes + 1, r.rows, found);
  }

  /** A window that begins with a newline character records a row there. */
  lemma BlankRow(f: Format, w: Text, s: Scan)
    requires NonOverlapping(f) && Inv(f, w, s) && w != [] && Flag(f, w[0]) == NEWLINE
    requires s.pos == 0 && s.rowStart == 0 && !s.quoted && s.rows == []
    ensures var r := Run(f, w, s); r.rows != [] && r.rows[0].start == 0
  {
    hide Run, Inv;
    StepKeepsInv(f, w, s);
    assert RowEnd(f, w, s).Some?;
    RowEndRecorded(f, w, s);
  }

  lemma FeedKeeps(f: Format, w: Text, s: Scan)
    ensures s.rows <= EndFeed(f, w, s).rows
  {
  }

  lemma RowsKept(f: Format, d: Text, bytes: nat, chunk: nat, st: Reader)
    requires NonOverlapping(f) && st.pos <= |d|
    ensures st.rows <= Next(f, d, bytes, chunk, st).rows
  {
  }

  lemma {:induction false} AllRowsKept(f: Format, d: Text, bytes: nat, chunk: nat, st: Reader)
    requires NonOverlapping(f) && st.pos <= |d|
    ensures var r := ReadAll(f, d, bytes, chunk, st); r.Some? ==> st.rows <= r.value.rows
    decreases |d| - st.pos, !st.bomScanned
  {
    hide Next;
    NextInside(f, d, bytes, chunk, st);
    RowsKept(f, d, bytes, chunk, st);
    var n := Next(f, d, bytes, chunk, st);
    if !n.eof && !Stuck(st, n) { AllRowsKept(f, d, bytes, chunk, n); }
  }

  lemma NextRowStart(f: Format, d: Text, bytes: nat, chunk: nat, st: Reader)
    requires NonOverlapping(f) && st.pos < |d| && st.bomScanned && bytes > 0 && Flag(f, d[st.pos]) == NEWLINE
    ensures var n, m := Next(f, d, bytes, chunk, st), |st.rows|; |n.rows| > m && n.rows[m].start == st.pos
  {
    hide Run, EndFeed, Values, Flag, Inv;
    var w := Window(d, st.pos, bytes);
    assert w[0] == d[st.pos];
    BeginInv(f, w, true, st.doubled);
    BlankRow(f, w, Begin(w, true, st.doubled));
    FeedKeeps(f, w, Scanned(f, w, st));
  }

  /** In the one piece the row after `more` begins at `next`, if there is one. */
  lemma RowAfter(f: Format, d: Text, next: nat, more: seq<RawRow>)
    requires NonOverlapping(f) && next <= |d| && Inv(f, d, RowBegin(next, 0, more))
    ensures var all := EndFeed(f, d, Run(f, d, RowBegin(next, 0, more))).rows;
      |all| > |more| ==> all[|more|].start == next
  {
    hide Run, Inv;
    RowEndRecorded(f, d, RowBegin(next, 0, more));
    FeedKeeps(f, d, Run(f, d, RowBegin(next, 0, more)));
  }

  /** If a window parts a line end, what is found is not what the one piece finds. */
  lemma {:induction false} PartedFrom(f: Format, d: Text, bytes: nat, chunk: nat, st: Reader, skip: nat,
                                      found: seq<RawRow>)
    requires NonOverlapping(f) && Aligned(f, d, st, skip, found)
    requires 3 <= bytes && (|d| < chunk ==> |d| <= bytes) && !CutsWell(f, d, bytes, st.pos, skip)
    requires ReadAll(f, d, bytes, chunk, st).Some?
    ensures !CoversRows(ReadAll(f, d, bytes, chunk, st).value.rows, EndFeed(f, d, OnePiece(f, d)).rows)
    decreases |d| - st.pos
  {
    hide Run, Inv, Values, EndFeed, Next, OnePiece, PartsLineEnd, Flag, CoversFields;
    NextInside(f, d, bytes, chunk, st);
    NotLast(f, d, bytes, chunk, st);
    var n := Next(f, d, bytes, chunk, st);
    if PartsLineEnd(f, d, bytes, st.pos, skip) {
      var more := PartedWindow(f, d, bytes, chunk, st, skip, found);
      NextInside(f, d, bytes, chunk, n);
      NextRowStart(f, d, bytes, chunk, n);
      var l := Next(f, d, bytes, chunk, n);
      if !l.eof { AllRowsKept(f, d, bytes, chunk, l); }
      RowBeginInv(f, d, n.pos + 1, 0, more);
      RowAfter(f, d, n.pos + 1, more);
      var r, all := ReadAll(f, d, bytes, chunk, st).value.rows, EndFeed(f, d, OnePiece(f, d)).rows;
      assert r[|more|].start == n.pos;
    } else {
      NextPlace(f, d, bytes, chunk, st, skip);
      var more := WindowAligned(f, d, bytes, chunk, st, skip, found);
      PartedFrom(f, d, bytes, chunk, n, 0, more);
    }
  }

  // ---------------------------------------------------------------- a byte-order mark read as text

  /** The first byte of the mark has no part in the format. */
  predicate MarkIsText(f: Format) {
    Flag(f, BOM[0]) == NOT_SPECIAL && !Ws(f, BOM[0])
  }

  /** The first field is a text that begins with the first character. */
  ghost predicate BeginsAt(x: RawField, from: nat) { x.length > 0 && x.start == from }

  ghost predicate FirstAtZero(s: Scan) {
    if s.rows != [] then s.rows[0].fields != [] && BeginsAt(s.rows[0].fields[0], 0)
    else if s.cur != [] then BeginsAt(s.cur[0], 0)
    else s.rowStart == 0 && s.start == 0 && s.len > 0
  }

  lemma TurnFirstAtZero(f: Format, d: Text, s: Scan)
    requires NonOverlapping(f) && Inv(f, d, s) && s.pos < |d| && FirstAtZero(s) && !Ws(f, d[0])
    ensures Step(f, d, s).Some? ==> FirstAtZero(Step(f, d, s).value)
  {
    hide Flag, Ws, SkipWs, SkipPlain;
    if CompoundFlag(f, d[s.pos], s.quoted) == NOT_SPECIAL && s.start == 0 && s.rowStart == 0 {
      ParseFieldBounds(f, d, s);
      TrimStops(f, d, 0, SkipPlain(f, d, SkipWs(f, d, s.pos), s.quoted));
    }
  }

  lemma {:induction false} RunFirstAtZero(f: Format, d: Text, s: Scan)
    requires NonOverlapping(f) && Inv(f, d, s) && FirstAtZero(s) && d != [] && !Ws(f, d[0])
    ensures FirstAtZero(Run(f, d, s))
    decreases |d| - s.pos
  {
    hide Inv, Step, FirstAtZero, Ws;
    InvBounds(f, d, s);
    if s.pos < |d| && Step(f, d, s).Some? {
      StepKeepsInv(f, d, s);
      TurnFirstAtZero(f, d, s);
      RunFirstAtZero(f, d, Step(f, d, s).value);
    }
  }

  /** The rows of a text that begins with the mark, with the mark taken as text. */
  lemma MarkInField(f: Format, w: Text, s: Scan)
    requires NonOverlapping(f) && MarkIsText(f) && w != [] && w[0] == BOM[0] && Inv(f, w, s)
    requires s == INITIAL.(doubled := s.doubled)
    ensures FirstAtZero(Run(f, w, s))
  {
    hide Run, Inv, Flag, Ws, SkipWs, SkipPlain;
    StepKeepsInv(f, w, s);
    ParseFieldBounds(f, w, s);
    TrimStops(f, w, 0, SkipPlain(f, w, SkipWs(f, w, 0), false));
    CsvField.Turn(f, w, s);
    RunFirstAtZero(f, w, Step(f, w, s).value);
  }

  /** No text of the first row begins before the third character. */
  ghost predicate AllBehind(fields: seq<RawField>) {
    forall i :: 0 <= i < |fields| ==> fields[i].length > 0 ==> fields[i].start >= 3
  }

  ghost predicate FirstBehind(s: Scan) {
    && (s.rows != [] ==> AllBehind(s.rows[0].fields))
    && (s.rows == [] ==> s.rowStart == 0 && s.pos >= 3 && AllBehind(s.cur) && (s.start >= 0 ==> s.start >= 3))
  }

  lemma TurnFirstBehind(f: Format, d: Text, s: Scan)
    requires NonOverlapping(f) && Inv(f, d, s) && s.pos < |d| && FirstBehind(s)
    ensures Step(f, d, s).Some? ==> FirstBehind(Step(f, d, s).value)
  {
    hide Flag, Ws, SkipWs, SkipPlain, TrimBack;
  }

  lemma {:induction false} RunFirstBehind(f: Format, d: Text, s: Scan)
    requires NonOverlapping(f) && Inv(f, d, s) && FirstBehind(s)
    ensures FirstBehind(Run(f, d, s))
    decreases |d| - s.pos
  {
    hide Inv, Step, FirstBehind;
    InvBounds(f, d, s);
    if s.pos < |d| && Step(f, d, s).Some? {
      StepKeepsInv(f, d, s);
      TurnFirstBehind(f, d, s);
      RunFirstBehind(f, d, Step(f, d, s).value);
    }
  }

  lemma FeedFirstBehind(f: Format, d: Text, s: Scan)
    requires Inv(f, d, s) && FirstBehind(s)
    ensures var rows := EndFeed(f, d, s).rows; rows != [] ==> AllBehind(rows[0].fields)
  {
    hide Flag;
  }

  /** A mark that is read a second time, as text, begins a field that the one piece
      does not have. */
  lemma ReadTwiceDiffers(f: Format, d: Text, bytes: nat, chunk: nat)
    requires NonOverlapping(f) && MarkIsText(f) && 3 <= bytes && (|d| < chunk ==> |d| <= bytes)
    requires ReadTwice(f, d, bytes) && ReadAll(f, d, bytes, chunk, FRESH_READER).Some?
    ensures !CoversRows(ReadAll(f, d, bytes, chunk, FRESH_READER).value.rows, EndFeed(f, d, OnePiece(f, d)).rows)
  {
    hide Run, Inv, Values, EndFeed, Next, Flag, Ws, FirstAtZero, FirstBehind, WindowScan, AllBehind;
    NextInside(f, d, bytes, chunk, FRESH_READER);
    NextPlace(f, d, bytes, chunk, FRESH_READER, 3);
    var n := Next(f, d, bytes, chunk, FRESH_READER);
    FirstTwice(f, d, bytes, chunk);
    NextInside(f, d, bytes, chunk, n);
    NextPlace(f, d, bytes, chunk, n, 0);
    var l := Next(f, d, bytes, chunk, n);
    AllRowsKept(f, d, bytes, chunk, l);
    assert Begin(d, false, false) == RowBegin(0, 3, []);
    RowBeginInv(f, d, 0, 3, []);
    BehindMark(f, d);
    var r, all := ReadAll(f, d, bytes, chunk, FRESH_READER).value.rows, EndFeed(f, d, OnePiece(f, d)).rows;
    assert r[0] == l.rows[0];
    if CoversRows(r, all) {
      assert CoversFields(r[0].fields, all[0].fields);
      assert CoversField(r[0].fields[0], all[0].fields[0]);
      NotBehind(all[0].fields);
    }
  }

  lemma NotBehind(fields: seq<RawField>)
    requires fields != [] && BeginsAt(fields[0], 0)
    ensures !AllBehind(fields)
  {
  }

  lemma BehindMark(f: Format, d: Text)
    requires NonOverlapping(f) && HasBom(d)
    ensures var rows := EndFeed(f, d, OnePiece(f, d)).rows; rows != [] ==> AllBehind(rows[0].fields)
  {
    hide Run, Inv, EndFeed;
    RowBeginInv(f, d, 0, 3, []);
    assert Begin(d, false, false) == RowBegin(0, 3, []);
    RunFirstBehind(f, d, RowBegin(0, 3, []));
    FeedFirstBehind(f, d, OnePiece(f, d));
  }

  /** The second reading of the first window; if it finds a row, that begins with the mark. */
  lemma FirstTwice(f: Format, d: Text, bytes: nat, chunk: nat)
    requires NonOverlapping(f) && MarkIsText(f) && 3 <= bytes && (|d| < chunk ==> |d| <= bytes)
    requires ReadTwice(f, d, bytes)
    ensures var n := Next(f, d, bytes, chunk, FRESH_READER);
      && n.pos == 0 && n.bomScanned && !n.eof && n.rows == []
      && (var l := Next(f, d, bytes, chunk, n);
          l.pos > 0 ==> l.rows != [] && l.rows[0].fields != [] && BeginsAt(l.rows[0].fields[0], 0))
  {
    hide Run, Inv, Values, EndFeed, Flag, Ws, MarkIsText, NonOverlapping, Mark;
    var w := Window(d, 0, bytes);
    NextPlace(f, d, bytes, chunk, FRESH_READER, 3);
    WindowMarked(f, d, bytes, FRESH_READER, 3);
    RowsOrNone(f, w, RowBegin(0, 3, []));
    var n := Next(f, d, bytes, chunk, FRESH_READER);
    NextPlace(f, d, bytes, chunk, n, 0);
    BeginInv(f, w, true, n.doubled);
    MarkInField(f, w, Begin(w, true, n.doubled));
    RowsOrNone(f, w, Begin(w, true, n.doubled));
    InvBounds(f, w, Scanned(f, w, n));
  }

  /** A scan has recorded rows exactly when it has begun another. */
  lemma RowsOrNone(f: Format, w: Text, s: Scan)
    requires NonOverlapping(f) && Inv(f, w, s) && s.rowStart == 0 && s.rows == [] && s.cur == [] && s.start == -1
    ensures var r := Run(f, w, s); r.rows != [] <==> r.rowStart > 0
  {
    hide Run;
    RowEndRecorded(f, w, s);
    RunKeepsLayout(f, w, s);
    var r := Run(f, w, s);
    if r.rows != [] { RowStartsRise(r.rows, 0, r.rowStart); }
  }

  // ---------------------------------------------------------------- the same rows

  /** Reading any file through windows comes to its end, reads no window twice and
      finds the rows and fields of the one piece at the same places exactly when every
      row fits in a window and no window ends between the two characters of a line end. */
  lemma SameRowsOnce(f: Format, d: Text, bytes: nat, chunk: nat)
    requires NonOverlapping(f) && 3 <= bytes && (|d| < chunk ==> |d| <= bytes)
    ensures var r := ReadAll(f, d, bytes, chunk, FRESH_READER);
      r.Some? && !ReadTwice(f, d, bytes) && CoversRows(r.value.rows, EndFeed(f, d, OnePiece(f, d)).rows)
      <==> RowsFit(f, d, bytes) && CutsWell(f, d, bytes, 0, BomLength(d))
  {
    hide ReadAll, CutsWell, CoversRows, Run, Inv, RowsFit, EndFeed, ReadTwice;
    if CutsWell(f, d, bytes, 0, BomLength(d)) {
      EndsUnparted(f, d, bytes, chunk);
      if RowsFit(f, d, bytes) { WindowsFindTheSame(f, d, bytes, chunk); }
    } else if ReadAll(f, d, bytes, chunk, FRESH_READER).Some? {
      FreshAligned(f, d);
      PartedFrom(f, d, bytes, chunk, FRESH_READER, BomLength(d), []);
    }
  }

  /** Where a mark read twice begins a text, no window is read twice if the rows are the same. */
  lemma SameRowsExactly(f: Format, d: Text, bytes: nat, chunk: nat)
    requires NonOverlapping(f) && 3 <= bytes && (|d| < chunk ==> |d| <= bytes)
    requires ReadTwice(f, d, bytes) ==> MarkIsText(f)
    ensures var r := ReadAll(f, d, bytes, chunk, FRESH_READER);
      r.Some? && CoversRows(r.value.rows, EndFeed(f, d, OnePiece(f, d)).rows)
      <==> RowsFit(f, d, bytes) && CutsWell(f, d, bytes, 0, BomLength(d))
  {
    hide ReadAll, CutsWell, CoversRows, Run, Inv, RowsFit, EndFeed, ReadTwice;
    SameRowsOnce(f, d, bytes, chunk);
    if ReadTwice(f, d, bytes) && ReadAll(f, d, bytes, chunk, FRESH_READER).Some? {
      ReadTwiceDiffers(f, d, bytes, chunk);
    }
  }

  // ---------------------------------------------------------------- files with a parted line end

  /** A line of n plain characters, and a line of one that two characters end. */
  function PartedFile(n: nat): (d: Text)
    ensures |d| == n + 4
  {
    seq(n, _ => 97) + [LF, 97, CR, LF]
  }

  lemma FileText(n: nat)
    ensures var d := PartedFile(n); LineAt(d, n) && d[n + 1] == 97 && d[n + 2] == CR && d[n + 3] == LF
  {
  }

  /** At the end of the second line. */
  function LineEnd(n: nat): Scan {
    RowBegin(n + 1, 0, [FirstRow(n)]).(pos := n + 2, start := 0, len := 1)
  }

  function FileRows(n: nat): seq<RawRow> { [FirstRow(n), RawRow(n + 1, [RawField(0, 1, false)])] }

  /** The turns of the second line. */
  lemma SecondLine(n: nat)
    ensures var d, s, t := PartedFile(n), RowBegin(n + 1, 0, [FirstRow(n)]), LineEnd(n);
      && Inv(COMMAS, d, s) && Step(COMMAS, d, s) == Some(t) && Inv(COMMAS, d, t)
      && Parting(COMMAS, d, n + 3, t) && Step(COMMAS, d, t) == Some(RowBegin(n + 4, 0, FileRows(n)))
  {
    hide PartedFile, SkipWs, SkipPlain, TrimBack;
    var d := PartedFile(n);
    FileText(n);
    PlainTo(d, n + 1, 1, false);
    assert [] + [RawField(0, 1, false)] == [RawField(0, 1, false)];
    assert [FirstRow(n)] + [RawRow(n + 1, [RawField(0, 1, false)])] == FileRows(n);
  }

  lemma PartsStep(d: Text, n: nat, s: Scan, t: Scan)
    requires Inv(COMMAS, d, s) && s.pos < |d| && Step(COMMAS, d, s) == Some(t) && s.pos < n
    ensures Inv(COMMAS, d, t) && (Parts(COMMAS, d, n, t) ==> Parts(COMMAS, d, n, s))
    ensures Run(COMMAS, d, s) == Run(COMMAS, d, t)
  {
    hide Inv, Step;
    StepKeepsInv(COMMAS, d, s);
  }

  /** The first line's turns, and the second's. */
  lemma FileParts(n: nat)
    ensures var d := PartedFile(n);
      Inv(COMMAS, d, INITIAL) && Parts(COMMAS, d, n + 3, INITIAL)
      && Run(COMMAS, d, INITIAL) == RowBegin(n + 4, 0, FileRows(n))
  {
    hide PartedFile, Inv, Step, Run, Parts, Parting, LineAt;
    var d := PartedFile(n);
    var s, t := RowBegin(n + 1, 0, [FirstRow(n)]), LineEnd(n);
    FileText(n);
    var first := INITIAL.(pos := n, start := if n > 0 then 0 else -1, len := n);
    LineFeedTurn(d, n, first);
    SecondBegins(n);
    if n > 0 {
      PlainLine(d, n);
      PartsStep(d, n + 3, INITIAL, first);
    }
    PartsStep(d, n + 3, first, s);
    SecondLine(n);
    PartsStep(d, n + 3, s, t);
    PartsHere(d, n + 3, t);
    PartsStep(d, n + 3, t, RowBegin(n + 4, 0, FileRows(n)));
    RunAtEnd(COMMAS, d, RowBegin(n + 4, 0, FileRows(n)));
  }

  lemma SecondBegins(n: nat)
    ensures CsvStale.Second(n + 1, [FirstRow(n)], false, 0) == RowBegin(n + 1, 0, [FirstRow(n)])
  {
  }

  lemma PartsHere(d: Text, n: nat, s: Scan)
    requires Inv(COMMAS, d, s) && s.pos < n && s.pos < |d| && Parting(COMMAS, d, n, s)
    ensures Parts(COMMAS, d, n, s)
  {
  }

  /** A window that is one line feed gives one row. */
  lemma LineFeedWindow(w: Text, s: Scan)
    requires w == [LF] && s == INITIAL.(doubled := s.doubled) && Inv(COMMAS, w, s)
    ensures var r := Run(COMMAS, w, s); |r.rows| == 1 && |EndFeed(COMMAS, w, r).rows| == 1
  {
    hide Run, Inv;
    var t := Step(COMMAS, w, s).value;
    StepKeepsInv(COMMAS, w, s);
    CsvField.Turn(COMMAS, w, s);
    RunAtEnd(COMMAS, w, t);
  }

  /** The first window finds both rows, and leaves the second character of the line end. */
  lemma BothRowsFirst(bytes: nat, chunk: nat)
    requires 3 <= bytes && chunk <= bytes + 1
    ensures var d := PartedFile(bytes - 3); var n := Next(COMMAS, d, bytes, chunk, FRESH_READER);
      |n.rows| == 2 && n.pos == bytes && n.bomScanned && !n.eof
  {
    hide Run, Inv, Parts, PartedFile, Step, Values, EndFeed, FileRows;
    var n := bytes - 3;
    var d := PartedFile(n);
    FileParts(n);
    assert d[0..] == d && RowBegin(0, 0, []) == INITIAL;
    assert BomLength(d) == 0 by { FileText(n); }
    PartedScan(COMMAS, d, bytes, INITIAL);
    var r := Run(COMMAS, d[..bytes], INITIAL);
    RowBeginInv(COMMAS, d, bytes + 1, 0, r.rows);
    RunAtEnd(COMMAS, d, RowBegin(bytes + 1, 0, r.rows));
    assert |FileRows(n)| == 2 by { TwoFileRows(n); }
    assert Begin(d[..bytes], false, false) == INITIAL;
    assert Window(d, 0, bytes) == d[..bytes];
  }

  lemma TwoFileRows(n: nat)
    ensures |FileRows(n)| == 2
  {
  }

  /** For every size of window there is a file of two rows that fit in a window, whose
      first window parts a line end: reading ends, with a blank row more. */
  lemma PartedLineEnd(bytes: nat, chunk: nat)
    requires 3 <= bytes && chunk <= bytes + 1
    ensures var d := PartedFile(bytes - 3); var r := ReadAll(COMMAS, d, bytes, chunk, FRESH_READER);
      && RowsFit(COMMAS, d, bytes) && |d| == bytes + 1
      && |EndFeed(COMMAS, d, OnePiece(COMMAS, d)).rows| == 2 && r.Some? && |r.value.rows| == 3
  {
    hide Run, Inv, Parts, EndFeed, PartedFile, Step, Next;
    var n := bytes - 3;
    var d := PartedFile(n);
    FileFits(n);
    BothRowsFirst(bytes, chunk);
    var m := Next(COMMAS, d, bytes, chunk, FRESH_READER);
    LastLineFeed(d, bytes, chunk, m);
  }

  lemma LastLineFeed(d: Text, bytes: nat, chunk: nat, st: Reader)
    requires st.pos + 1 == |d| && d[st.pos] == LF && bytes > 0 && st.bomScanned
    ensures var n := Next(COMMAS, d, bytes, chunk, st); n.eof && |n.rows| == |st.rows| + 1
  {
    hide Run, Inv, Values, EndFeed;
    var w := Window(d, st.pos, bytes);
    assert w == [LF];
    BeginInv(COMMAS, w, true, st.doubled);
    LineFeedWindow(w, Begin(w, true, st.doubled));
  }

  lemma FileFits(n: nat)
    ensures RowsFit(COMMAS, PartedFile(n), n + 3)
    ensures var d := PartedFile(n); d[n + 3] == LF && |EndFeed(COMMAS, d, OnePiece(COMMAS, d)).rows| == 2
  {
    hide Run, Inv, Parts, PartedFile, Step;
    var d := PartedFile(n);
    FileParts(n);
    FileText(n);
    assert Begin(d, false, false) == INITIAL;
  }
}
