/** When reading through windows comes to the end of the file
    (lib/csv-parser/csv.hpp, parse, MmapParser::next and CSVReader::read_row). */
module CsvEnds {
  import opened Common
  import opened CsvScan
  import opened CsvDocument
  import opened CsvFaithful
  import opened CsvWindow

  // ---------------------------------------------------------------- line ends

  /** Where the line ends that the scanner comes to begin. */
  function LineEnds(f: Format, d: Text, s: Scan): (e: seq<nat>)
    requires NonOverlapping(f) && Inv(f, d, s)
    decreases |d| - s.pos
  {
    if s.pos == |d| then [] else
      match Step(f, d, s)
      case None => []
      case Some(t) =>
        StepKeepsInv(f, d, s);
        (if CompoundFlag(f, d[s.pos], s.quoted) == NEWLINE then [s.pos] else []) + LineEnds(f, d, t)
  }

  /** Every row that the scan from s records ends with a line end of one or two
      characters, of which the first is there. */
  ghost predicate EndAt(f: Format, d: Text, r: Scan, m: nat, e: seq<nat>) {
    |r.rows| == m + |e| && forall i :: 0 <= i < |e| ==> EndOf(f, d, r, m, e, i)
  }

  ghost predicate EndOf(f: Format, d: Text, r: Scan, m: nat, e: seq<nat>, i: nat)
    requires i < |e| && |r.rows| == m + |e|
  {
    && r.rows[m + i].start <= e[i] < |d| && Flag(f, d[e[i]]) == NEWLINE
    && (var next := NextStart(r.rows, m + i, r.rowStart);
        next == e[i] + 1 || (next == e[i] + 2 <= |d| && Flag(f, d[e[i] + 1]) == NEWLINE))
  }

  lemma {:induction false} LineEndsAre(f: Format, d: Text, s: Scan)
    requires NonOverlapping(f) && Inv(f, d, s)
    ensures EndAt(f, d, Run(f, d, s), |s.rows|, LineEnds(f, d, s))
    decreases |d| - s.pos
  {
    hide Inv, Step, Flag, EndOf;
    InvBounds(f, d, s);
    if s.pos < |d| && Step(f, d, s).Some? {
      var t := Step(f, d, s).value;
      StepKeepsInv(f, d, s);
      LineEndsAre(f, d, t);
      var r, m, e := Run(f, d, s), |s.rows|, LineEnds(f, d, s);
      if CompoundFlag(f, d[s.pos], s.quoted) == NEWLINE {
        RowEndRecorded(f, d, s);
        NewlineEnds(f, d, s);
        assert e[1..] == LineEnds(f, d, t);
        forall i | 0 <= i < |e| ensures EndOf(f, d, r, m, e, i) {
          if i > 0 { EndLater(f, d, r, m, e, i - 1); } else { EndFirst(f, d, r, m, e); }
        }
      } else {
        SameRow(f, d, s);
        assert e == LineEnds(f, d, t);
      }
    }
  }

  lemma EndLater(f: Format, d: Text, r: Scan, m: nat, e: seq<nat>, i: nat)
    requires i + 1 < |e| && |r.rows| == m + |e| && EndOf(f, d, r, m + 1, e[1..], i)
    ensures EndOf(f, d, r, m, e, i + 1)
  {
  }

  lemma EndFirst(f: Format, d: Text, r: Scan, m: nat, e: seq<nat>)
    requires e != [] && |r.rows| == m + |e| && r.rows[m].start <= e[0] < |d| && Flag(f, d[e[0]]) == NEWLINE
    requires var next := NextStart(r.rows, m, r.rowStart);
      next == e[0] + 1 || (next == e[0] + 2 <= |d| && Flag(f, d[e[0] + 1]) == NEWLINE)
    ensures EndOf(f, d, r, m, e, 0)
  {
  }

  /** The turn at a line end. */
  lemma NewlineEnds(f: Format, d: Text, s: Scan)
    requires NonOverlapping(f) && Inv(f, d, s) && s.pos < |d| && CompoundFlag(f, d[s.pos], s.quoted) == NEWLINE
    ensures Flag(f, d[s.pos]) == NEWLINE && s.rowStart <= s.pos
    ensures RowEnd(f, d, s).Some?
    ensures var q := RowEnd(f, d, s).value;
      q == s.pos + 1 || (q == s.pos + 2 <= |d| && Flag(f, d[s.pos + 1]) == NEWLINE)
    ensures Step(f, d, s).Some? && |Step(f, d, s).value.rows| == |s.rows| + 1
  {
  }

  /** Every row of the one piece, up to and with the first character of its line end,
      and what no line end follows, fits in a window; scanned `skip` characters in. */
  predicate RowsReach(f: Format, d: Text, bytes: nat, skip: nat)
    requires NonOverlapping(f) && skip <= |d|
  {
    var r, e := Run(f, d, RowBegin(0, skip, [])), LineEnds(f, d, RowBegin(0, skip, []));
    && |d| - r.rowStart <= bytes
    && forall i :: 0 <= i < |e| && i < |r.rows| ==> e[i] + 1 - r.rows[i].start <= bytes
  }

  // ---------------------------------------------------------------- the same, turn by turn

  predicate Reach(f: Format, d: Text, s: Scan, bytes: nat)
    requires NonOverlapping(f) && Inv(f, d, s)
    decreases |d| - s.pos
  {
    if s.pos == |d| then |d| - s.rowStart <= bytes else
      match Step(f, d, s)
      case None => |d| - s.rowStart <= bytes
      case Some(t) =>
        StepKeepsInv(f, d, s);
        (CompoundFlag(f, d[s.pos], s.quoted) == NEWLINE ==> s.pos + 1 - s.rowStart <= bytes) && Reach(f, d, t, bytes)
  }

  ghost predicate EndsWithin(r: Scan, m: nat, e: seq<nat>, bytes: nat)
    requires |r.rows| == m + |e|
  {
    forall i :: 0 <= i < |e| ==> e[i] + 1 - r.rows[m + i].start <= bytes
  }

  lemma {:induction false} ReachExactly(f: Format, d: Text, s: Scan, bytes: nat)
    requires NonOverlapping(f) && Inv(f, d, s)
    ensures var r, m, e := Run(f, d, s), |s.rows|, LineEnds(f, d, s);
      |r.rows| == m + |e| && (Reach(f, d, s, bytes) <==> |d| - r.rowStart <= bytes && EndsWithin(r, m, e, bytes))
    decreases |d| - s.pos
  {
    hide Inv, Step, Flag, EndsWithin;
    LineEndsAre(f, d, s);
    InvBounds(f, d, s);
    var e := LineEnds(f, d, s);
    NoneWithin(Run(f, d, s), |s.rows|, e, bytes);
    if s.pos < |d| && Step(f, d, s).Some? {
      var t := Step(f, d, s).value;
      StepKeepsInv(f, d, s);
      ReachExactly(f, d, t, bytes);
      if CompoundFlag(f, d[s.pos], s.quoted) == NEWLINE {
        RowEndRecorded(f, d, s);
        NewlineEnds(f, d, s);
        assert e[1..] == LineEnds(f, d, t);
        WithinStep(Run(f, d, s), |s.rows|, e, bytes);
      } else {
        SameRow(f, d, s);
        assert e == LineEnds(f, d, t);
      }
    }
  }

  lemma NoneWithin(r: Scan, m: nat, e: seq<nat>, bytes: nat)
    requires |r.rows| == m + |e|
    ensures e == [] ==> EndsWithin(r, m, e, bytes)
  {
  }

  lemma WithinStep(r: Scan, m: nat, e: seq<nat>, bytes: nat)
    requires e != [] && |r.rows| == m + |e|
    ensures EndsWithin(r, m, e, bytes) <==>
      e[0] + 1 - r.rows[m].start <= bytes && EndsWithin(r, m + 1, e[1..], bytes)
  {
    if EndsWithin(r, m + 1, e[1..], bytes) {
      assert forall i :: 0 < i < |e| ==> e[i] == e[1..][i - 1] && r.rows[m + i] == r.rows[m + 1 + (i - 1)];
    }
    if EndsWithin(r, m, e, bytes) {
      forall i | 0 <= i < |e| - 1 ensures e[1..][i] + 1 - r.rows[m + 1 + i].start <= bytes {
        assert e[1..][i] == e[i + 1];
      }
    }
  }

  lemma ReachIsRowsReach(f: Format, d: Text, bytes: nat, skip: nat)
    requires NonOverlapping(f) && skip <= |d|
    ensures Inv(f, d, RowBegin(0, skip, []))
    ensures Reach(f, d, RowBegin(0, skip, []), bytes) <==> RowsReach(f, d, bytes, skip)
  {
    hide Run, LineEnds, Reach, Inv;
    RowBeginInv(f, d, 0, skip, []);
    ReachExactly(f, d, RowBegin(0, skip, []), bytes);
  }

  // ---------------------------------------------------------------- what does not matter

  /** The rows found before do not matter. */
  lemma {:induction false} ReachRows(f: Format, d: Text, s: Scan, rows: seq<RawRow>, bytes: nat)
    requires NonOverlapping(f) && Inv(f, d, s)
    ensures Inv(f, d, s.(rows := rows)) && (Reach(f, d, s.(rows := rows), bytes) <==> Reach(f, d, s, bytes))
    decreases |d| - s.pos
  {
    hide Inv, Step, Flag;
    TurnRows(f, d, s, rows);
    InvBounds(f, d, s);
    if s.pos < |d| && Step(f, d, s).Some? {
      StepKeepsInv(f, d, s);
      StepKeepsInv(f, d, s.(rows := rows));
      ReachRows(f, d, Step(f, d, s).value, Step(f, d, s.(rows := rows)).value.rows, bytes);
    }
  }

  lemma TurnRows(f: Format, d: Text, s: Scan, rows: seq<RawRow>)
    requires NonOverlapping(f) && Inv(f, d, s)
    ensures Inv(f, d, s.(rows := rows))
    ensures s.pos < |d| ==>
      (match Step(f, d, s)
       case None => Step(f, d, s.(rows := rows)) == None
       case Some(t) =>
         var u := Step(f, d, s.(rows := rows)); u.Some? && u.value == t.(rows := u.value.rows))
  {
    hide Ws, Flag, SkipWs, SkipPlain, TrimBack;
  }

  /** Scanning what is left of a text reaches as scanning on does. */
  lemma {:induction false} ReachMoved(f: Format, d: Text, k: nat, found: seq<RawRow>, s: Scan, bytes: nat)
    requires NonOverlapping(f) && k <= |d| && Inv(f, d[k..], s)
    ensures Inv(f, d, Place(s, k, found))
    ensures Reach(f, d, Place(s, k, found), bytes) <==> Reach(f, d[k..], s, bytes)
    decreases |d| - s.pos
  {
    hide Inv, Step, ShiftRows, Flag;
    InvMoved(f, d, k, found, s);
    InvBounds(f, d[k..], s);
    if s.pos < |d| - k {
      TurnMoved(f, d, k, found, s);
      var t := Step(f, d[k..], s);
      if t.Some? {
        StepKeepsInv(f, d[k..], s);
        StepKeepsInv(f, d, Place(s, k, found));
        ReachMoved(f, d, k, found, t.value, bytes);
      }
    }
  }

  /** Beginning at one newline character or behind it makes no difference. */
  lemma {:induction false} NewlineRun(f: Format, d: Text, q: nat, a: seq<RawRow>, b: seq<RawRow>, bytes: nat)
    requires NonOverlapping(f) && q < |d| && Flag(f, d[q]) == NEWLINE && bytes > 0
    ensures Inv(f, d, RowBegin(q, 0, a)) && Inv(f, d, RowBegin(q + 1, 0, b))
    ensures Reach(f, d, RowBegin(q, 0, a), bytes) <==> Reach(f, d, RowBegin(q + 1, 0, b), bytes)
    decreases |d| - q
  {
    hide Inv, Step, Flag;
    RowBeginInv(f, d, q, 0, a);
    RowBeginInv(f, d, q + 1, 0, b);
    BlankTurn(f, d, q, a);
    var t := Step(f, d, RowBegin(q, 0, a)).value;
    StepKeepsInv(f, d, RowBegin(q, 0, a));
    if t.pos == q + 1 {
      ReachRows(f, d, t, b, bytes);
    } else {
      NewlineRun(f, d, q + 1, b, t.rows, bytes);
    }
  }

  lemma BlankTurn(f: Format, d: Text, q: nat, a: seq<RawRow>)
    requires NonOverlapping(f) && q < |d| && Flag(f, d[q]) == NEWLINE && Inv(f, d, RowBegin(q, 0, a))
    ensures CompoundFlag(f, d[q], false) == NEWLINE
    ensures var t := Step(f, d, RowBegin(q, 0, a));
      && t.Some? && t.value == RowBegin(t.value.pos, 0, t.value.rows)
      && t.value.pos == (if q + 1 < |d| && Flag(f, d[q + 1]) == NEWLINE then q + 2 else q + 1)
  {
  }

  // ---------------------------------------------------------------- one window

  /** A row that has not ended before the cut does not reach its end in the window. */
  lemma {:induction false} TooLong(f: Format, u: Text, n: nat, s: Scan)
    requires NonOverlapping(f) && Inv(f, u, s) && n <= s.pos && s.rowStart == 0 && n < |u|
    ensures !Reach(f, u, s, n)
    decreases |u| - s.pos
  {
    hide Inv, Step, Flag;
    InvBounds(f, u, s);
    if s.pos < |u| && Step(f, u, s).Some? {
      StepKeepsInv(f, u, s);
      if CompoundFlag(f, u[s.pos], s.quoted) != NEWLINE {
        SameRow(f, u, s);
        TooLong(f, u, n, Step(f, u, s).value);
      }
    }
  }

  /** What fits in a window reaches. */
  lemma {:induction false} AllReach(f: Format, u: Text, n: nat, s: Scan)
    requires NonOverlapping(f) && Inv(f, u, s) && |u| <= n
    ensures Reach(f, u, s, n)
    decreases |u| - s.pos
  {
    hide Inv, Step, Flag;
    InvBounds(f, u, s);
    if s.pos < |u| && Step(f, u, s).Some? {
      StepKeepsInv(f, u, s);
      AllReach(f, u, n, Step(f, u, s).value);
    }
  }

  /** What the window of the first n characters says of the rows: none of them ends
      in it, and the first is too long; or it reaches, and so do the rows from where
      the next window begins exactly if all do. */
  ghost predicate Foretells(f: Format, u: Text, n: nat, s: Scan)
    requires NonOverlapping(f) && Inv(f, u, s) && n <= |u| && Inv(f, u[..n], s)
  {
    var r := Run(f, u[..n], s);
    && r.rowStart <= n && Inv(f, u, RowBegin(r.rowStart, 0, r.rows))
    && if r.rowStart == s.rowStart then r.rows == s.rows && (s.rowStart == 0 ==> !Reach(f, u, s, n))
       else r.rowStart > s.rowStart && (Reach(f, u, s, n) <==> Reach(f, u, RowBegin(r.rowStart, 0, r.rows), n))
  }

  lemma {:induction false} WindowForetells(f: Format, u: Text, n: nat, s: Scan)
    requires NonOverlapping(f) && Inv(f, u, s) && s.pos <= n < |u|
    ensures Inv(f, u[..n], s) && Foretells(f, u, n, s)
    decreases n - s.pos
  {
    hide Inv, Flag, Step, Parting, Reach;
    InvCut(f, u, n, s);
    InvBounds(f, u, s);
    if s.pos < n { StepKeepsInv(f, u, s); }
    RowBeginInv(f, u, s.rowStart, 0, s.rows);
    if s.pos == n {
      RunAtEnd(f, u[..n], s);
      if s.rowStart == 0 { TooLong(f, u, n, s); }
    } else if Parting(f, u, n, s) {
      PartedForetells(f, u, n, s);
    } else if CompoundFlag(f, u[s.pos], s.quoted) == NEWLINE {
      NewlineCut(f, u, n, s);
      var t := Step(f, u, s).value;
      WindowForetells(f, u, n, t);
      ReachTurn(f, u, s, n);
      StepKeepsInv(f, u[..n], s);
    } else if Step(f, u, s).Some? && Step(f, u, s).value.pos < n {
      TurnCut(f, u, n, s);
      SameRow(f, u, s);
      WindowForetells(f, u, n, Step(f, u, s).value);
      ReachTurn(f, u, s, n);
      StepKeepsInv(f, u[..n], s);
    } else {
      EdgeRun(f, u, n, s);
      SameRow(f, u, s);
      ReachTurn(f, u, s, n);
      if s.rowStart == 0 && Step(f, u, s).Some? { TooLong(f, u, n, Step(f, u, s).value); }
    }
  }

  lemma ReachTurn(f: Format, d: Text, s: Scan, bytes: nat)
    requires NonOverlapping(f) && Inv(f, d, s) && s.pos < |d|
    ensures match Step(f, d, s)
      case None => Reach(f, d, s, bytes) <==> |d| - s.rowStart <= bytes
      case Some(t) =>
        Inv(f, d, t) &&
        (Reach(f, d, s, bytes) <==>
          (CompoundFlag(f, d[s.pos], s.quoted) == NEWLINE ==> s.pos + 1 - s.rowStart <= bytes) && Reach(f, d, t, bytes))
  {
    StepKeepsInv(f, d, s);
  }

  /** The line end that is parted is one turn for both, which part where they are then. */
  lemma PartedTurn(f: Format, u: Text, n: nat, s: Scan)
    requires NonOverlapping(f) && Inv(f, u, s) && s.pos < n < |u| && Parting(f, u, n, s)
    ensures Inv(f, u[..n], s)
    ensures var t := Step(f, u, s);
      && t.Some? && t.value == RowBegin(n + 1, 0, t.value.rows)
      && Step(f, u[..n], s) == Some(RowBegin(n, 0, t.value.rows))
  {
    InvCut(f, u, n, s);
  }

  lemma PartedForetells(f: Format, u: Text, n: nat, s: Scan)
    requires NonOverlapping(f) && Inv(f, u, s) && s.pos < n < |u| && Parting(f, u, n, s)
    ensures Inv(f, u[..n], s) && Foretells(f, u, n, s)
  {
    hide Inv, Flag, Step, Reach;
    InvCut(f, u, n, s);
    PartedTurn(f, u, n, s);
    InvBounds(f, u, s);
    var rows := Step(f, u, s).value.rows;
    RowBeginInv(f, u[..n], n, 0, rows);
    RowBeginInv(f, u, n, 0, rows);
    RunAtEnd(f, u[..n], RowBegin(n, 0, rows));
    ReachTurn(f, u, s, n);
    NewlineRun(f, u, n, rows, rows, n);
  }

  // ---------------------------------------------------------------- the whole file

  lemma NextPlace(f: Format, d: Text, bytes: nat, chunk: nat, st: Reader, skip: nat)
    requires NonOverlapping(f) && Standing(d, st, skip) && 3 <= bytes && (|d| < chunk ==> |d| <= bytes)
    ensures var n := Next(f, d, bytes, chunk, st);
      && n.pos == st.pos + WindowScan(f, d, bytes, st.pos, skip).rowStart && (n.eof <==> st.pos + bytes >= |d|)
      && (!n.eof ==> n.bomScanned && Standing(d, n, 0))
  {
    hide Run, Inv, EndFeed, Mark, Values, ShiftRows;
    WindowMarked(f, d, bytes, st, skip);
  }

  /** What follows the rows of a window reaches as the rest of the file does. */
  lemma ReachAfter(f: Format, d: Text, k: nat, a: nat, rows: seq<RawRow>, bytes: nat)
    requires NonOverlapping(f) && k + a <= |d|
    ensures Inv(f, d[k..], RowBegin(a, 0, rows)) && Inv(f, d[k + a..], RowBegin(0, 0, []))
    ensures Reach(f, d[k..], RowBegin(a, 0, rows), bytes) <==> Reach(f, d[k + a..], RowBegin(0, 0, []), bytes)
  {
    hide Inv, Reach;
    var u := d[k..];
    assert u[a..] == d[k + a..];
    RowBeginInv(f, u, a, 0, rows);
    RowBeginInv(f, u[a..], 0, 0, []);
    RowBeginPlaced(a, 0, 0, [], rows);
    ReachMoved(f, u, a, rows, RowBegin(0, 0, []), bytes);
  }

  /** Reading on comes to the end exactly when what is left reaches, unless a
      byte-order mark is read a second time. */
  lemma {:induction false} EndsFrom(f: Format, d: Text, bytes: nat, chunk: nat, st: Reader, skip: nat)
    requires NonOverlapping(f) && Standing(d, st, skip) && 3 <= bytes && (|d| < chunk ==> |d| <= bytes)
    requires skip == 0 || st.pos + bytes >= |d| || WindowScan(f, d, bytes, st.pos, skip).rowStart > 0
    ensures Inv(f, d[st.pos..], RowBegin(0, skip, []))
    ensures ReadAll(f, d, bytes, chunk, st).Some? <==> Reach(f, d[st.pos..], RowBegin(0, skip, []), bytes)
    decreases |d| - st.pos, !st.bomScanned
  {
    hide Inv, Reach, Next, Run;
    var u, k, b := d[st.pos..], st.pos, RowBegin(0, skip, []);
    RowBeginInv(f, u, 0, skip, []);
    NextInside(f, d, bytes, chunk, st);
    NextPlace(f, d, bytes, chunk, st, skip);
    var n := Next(f, d, bytes, chunk, st);
    if n.eof {
      AllReach(f, u, bytes, b);
    } else {
      WindowForetells(f, u, bytes, b);
      var r := WindowScan(f, d, bytes, k, skip);
      assert Window(d, k, bytes) == u[..bytes];
      if !Stuck(st, n) {
        EndsFrom(f, d, bytes, chunk, n, 0);
        ReachAfter(f, d, k, r.rowStart, r.rows, bytes);
      }
    }
  }

  /** No row ends in the first window behind a byte-order mark; the mark has been
      looked for then, and is text when the same window is read again. */
  predicate ReadTwice(f: Format, d: Text, bytes: nat)
    requires NonOverlapping(f) && 3 <= bytes
  {
    HasBom(d) && bytes < |d| && WindowScan(f, d, bytes, 0, 3).rowStart == 0
  }

  /** Reading any file through windows comes to its end exactly when every row, up to
      and with the first character of its line end, fits in a window; otherwise it
      reads the same window for ever. */
  lemma EndsExactly(f: Format, d: Text, bytes: nat, chunk: nat)
    requires NonOverlapping(f) && 3 <= bytes && (|d| < chunk ==> |d| <= bytes)
    ensures ReadAll(f, d, bytes, chunk, FRESH_READER).Some?
      <==> RowsReach(f, d, bytes, if ReadTwice(f, d, bytes) then 0 else BomLength(d))
  {
    hide Inv, Reach, Next, Run, RowsReach;
    assert d[0..] == d;
    if ReadTwice(f, d, bytes) {
      NextInside(f, d, bytes, chunk, FRESH_READER);
      NextPlace(f, d, bytes, chunk, FRESH_READER, 3);
      EndsFrom(f, d, bytes, chunk, Next(f, d, bytes, chunk, FRESH_READER), 0);
      ReachIsRowsReach(f, d, bytes, 0);
    } else {
      EndsFrom(f, d, bytes, chunk, FRESH_READER, BomLength(d));
      ReachIsRowsReach(f, d, bytes, BomLength(d));
    }
  }

  // ---------------------------------------------------------------- rows that fit

  /** From the m-th on, the rows fit in a window. */
  ghost predicate FitFrom(rows: seq<RawRow>, m: nat, next: nat, bytes: nat) {
    forall i :: m <= i < |rows| ==> NextStart(rows, i, next) - rows[i].start <= bytes
  }

  lemma RowsWithin(f: Format, w: Text, skip: nat)
    requires NonOverlapping(f) && skip <= |w| && Inv(f, w, RowBegin(0, skip, []))
    ensures var r := Run(f, w, RowBegin(0, skip, [])); r.rowStart <= |w| && FitFrom(r.rows, 0, r.rowStart, |w|)
  {
    hide Run, Inv, NextStart;
    var r := Run(f, w, RowBegin(0, skip, []));
    InvBounds(f, w, r);
    RunKeepsLayout(f, w, RowBegin(0, skip, []));
    forall i | 0 <= i < |r.rows| ensures NextStart(r.rows, i, r.rowStart) - r.rows[i].start <= |w| {
      RowStartsRise(r.rows, i, r.rowStart);
    }
  }

  lemma FitPlaced(s: Scan, k: nat, found: seq<RawRow>, bytes: nat)
    requires FitFrom(s.rows, 0, s.rowStart, bytes)
    ensures var r := Place(s, k, found); FitFrom(r.rows, |found|, r.rowStart, bytes)
  {
    var r := Place(s, k, found);
    forall i | |found| <= i < |r.rows| ensures NextStart(r.rows, i, r.rowStart) - r.rows[i].start <= bytes {
      assert NextStart(s.rows, i - |found|, s.rowStart) - s.rows[i - |found|].start <= bytes;
    }
  }

  /** Rows that fit when the next row begins at `next` fit in the whole scan from there. */
  lemma FitKept(f: Format, d: Text, next: nat, more: seq<RawRow>, m: nat, bytes: nat)
    requires NonOverlapping(f) && next <= |d| && Inv(f, d, RowBegin(next, 0, more))
    requires FitFrom(more, m, next, bytes)
    ensures var r := Run(f, d, RowBegin(next, 0, more)); FitFrom(r.rows, |more|, r.rowStart, bytes) ==>
      FitFrom(r.rows, m, r.rowStart, bytes)
  {
    hide Run, Inv;
    RowEndRecorded(f, d, RowBegin(next, 0, more));
    var r := Run(f, d, RowBegin(next, 0, more));
    assert forall i :: 0 <= i < |more| ==> r.rows[i] == r.rows[..|more|][i];
    forall i | m <= i < |more| ensures NextStart(r.rows, i, r.rowStart) - r.rows[i].start <= bytes {
      assert NextStart(more, i, next) - more[i].start <= bytes;
    }
  }

  /** Where no byte-order mark was skipped, a window without a line end leads to itself. */
  lemma StuckFrom(f: Format, d: Text, bytes: nat, chunk: nat, st: Reader)
    requires NonOverlapping(f) && Standing(d, st, 0) && 3 <= bytes && st.pos + bytes < |d| && chunk <= |d|
    requires WindowScan(f, d, bytes, st.pos, 0).rowStart == 0
    ensures ReadAll(f, d, bytes, chunk, st) == None
  {
    hide Next, Run, Inv;
    NextInside(f, d, bytes, chunk, st);
    NextPlace(f, d, bytes, chunk, st, 0);
    var n := Next(f, d, bytes, chunk, st);
    NextInside(f, d, bytes, chunk, n);
    NextPlace(f, d, bytes, chunk, n, 0);
  }

  lemma ReadOn(f: Format, d: Text, bytes: nat, chunk: nat, st: Reader)
    requires NonOverlapping(f) && st.pos <= |d|
    requires ReadAll(f, d, bytes, chunk, st).Some? && !Next(f, d, bytes, chunk, st).eof
    ensures var n := Next(f, d, bytes, chunk, st); n.pos <= |d| && ReadAll(f, d, bytes, chunk, n).Some?
  {
    hide Next;
    NextInside(f, d, bytes, chunk, st);
  }

  /** If reading comes to its end, what was left fitted. */
  lemma {:induction false} FitIfEnds(f: Format, d: Text, bytes: nat, chunk: nat, st: Reader, skip: nat,
                                     found: seq<RawRow>)
    requires NonOverlapping(f) && Aligned(f, d, st, skip, found)
    requires 3 <= bytes && (|d| < chunk ==> |d| <= bytes) && CutsWell(f, d, bytes, st.pos, skip)
    requires ReadAll(f, d, bytes, chunk, st).Some?
    requires skip == 0 || st.pos + bytes >= |d| || WindowScan(f, d, bytes, st.pos, skip).rowStart > 0
    ensures var r := OnePiece(f, d); FitFrom(r.rows, |found|, r.rowStart, bytes) && |d| - r.rowStart <= bytes
    decreases |d| - st.pos
  {
    hide Run, Inv, CoversRows, Values, EndFeed, Next, OnePiece, FitFrom, ShiftRows;
    hide ReadAll, Parts, PartsLineEnd;
    NextInside(f, d, bytes, chunk, st);
    WindowBegin(f, d, bytes, st, skip);
    var w, k := Window(d, st.pos, bytes), st.pos;
    RowBeginInv(f, w, 0, skip, []);
    RowsWithin(f, w, skip);
    var r := WindowScan(f, d, bytes, k, skip);
    FitLess(r.rows, 0, r.rowStart, |w|, bytes);
    FitPlaced(r, k, found, bytes);
    if k + bytes >= |d| {
      RestOfFile(f, d, st, skip, found);
      assert w == d[k..];
    } else {
      NextPlace(f, d, bytes, chunk, st, skip);
      if r.rowStart == 0 { StuckFrom(f, d, bytes, chunk, st); }
      var more := WindowAligned(f, d, bytes, chunk, st, skip, found);
      var n := Next(f, d, bytes, chunk, st);
      ReadOn(f, d, bytes, chunk, st);
      FitIfEnds(f, d, bytes, chunk, n, 0, more);
      RowBeginInv(f, d, n.pos, 0, more);
      FitKept(f, d, n.pos, more, |found|, bytes);
    }
  }

  lemma FitLess(rows: seq<RawRow>, m: nat, next: nat, a: nat, b: nat)
    requires FitFrom(rows, m, next, a) && a <= b
    ensures FitFrom(rows, m, next, b)
  {
  }

  /** Rows that fit reach, and rows that reach are at most one character too long. */
  lemma FitAndReach(f: Format, d: Text, bytes: nat)
    requires NonOverlapping(f)
    ensures RowsFit(f, d, bytes) ==> RowsReach(f, d, bytes, BomLength(d))
    ensures RowsReach(f, d, bytes, BomLength(d)) ==> RowsFit(f, d, bytes + 1)
  {
    hide Run, LineEnds, NextStart, Flag;
    var s := RowBegin(0, BomLength(d), []);
    assert Begin(d, false, false) == s;
    RowBeginInv(f, d, 0, BomLength(d), []);
    LineEndsAre(f, d, s);
    var r, e := Run(f, d, s), LineEnds(f, d, s);
    if RowsFit(f, d, bytes) {
      forall i | 0 <= i < |e| ensures e[i] + 1 - r.rows[i].start <= bytes {
        assert EndOf(f, d, r, 0, e, i);
        assert NextStart(r.rows, i, r.rowStart) - r.rows[i].start <= bytes;
      }
    }
    if RowsReach(f, d, bytes, BomLength(d)) {
      forall i | 0 <= i < |r.rows| ensures NextStart(r.rows, i, r.rowStart) - r.rows[i].start <= bytes + 1 {
        assert EndOf(f, d, r, 0, e, i);
      }
    }
  }

  /** With no parted line end reading comes to the end exactly when every row fits. */
  lemma EndsUnparted(f: Format, d: Text, bytes: nat, chunk: nat)
    requires NonOverlapping(f) && 3 <= bytes && (|d| < chunk ==> |d| <= bytes)
    requires CutsWell(f, d, bytes, 0, BomLength(d))
    ensures ReadAll(f, d, bytes, chunk, FRESH_READER).Some? && !ReadTwice(f, d, bytes) <==> RowsFit(f, d, bytes)
  {
    hide ReadAll, CoversRows, Run, Inv, RowsFit, Next;
    FreshAligned(f, d);
    if RowsFit(f, d, bytes) {
      WindowsFindTheSame(f, d, bytes, chunk);
      if bytes < |d| {
        WindowProgress(f, d, bytes, chunk, FRESH_READER, BomLength(d), []);
        NextPlace(f, d, bytes, chunk, FRESH_READER, BomLength(d));
      }
    } else if ReadAll(f, d, bytes, chunk, FRESH_READER).Some? && !ReadTwice(f, d, bytes) {
      FitIfEnds(f, d, bytes, chunk, FRESH_READER, BomLength(d), []);
      FitsWhole(f, d, bytes);
    }
  }

  lemma FitsWhole(f: Format, d: Text, bytes: nat)
    requires NonOverlapping(f)
    requires var r := OnePiece(f, d); FitFrom(r.rows, 0, r.rowStart, bytes) && |d| - r.rowStart <= bytes
    ensures RowsFit(f, d, bytes)
  {
  }
}
