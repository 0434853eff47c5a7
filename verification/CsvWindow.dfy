/** Reading a file through windows that begin again at the last unfinished row
    (lib/csv-parser/csv.hpp, MmapParser::next), against reading it in one piece. */
module CsvWindow {
  import opened Common
  import opened CsvScan
  import opened CsvDocument
  import opened CsvField
  import opened CsvFaithful

  // ---------------------------------------------------------------- the windowed reader

  /** Between calls: how much has been taken, what the parser remembers, the rows
      found so far at their places in the file, and the values they gave. */
  datatype Reader = Reader(pos: nat, bomScanned: bool, doubled: bool, eof: bool,
                           rows: seq<RawRow>, values: seq<seq<Text>>)

  const FRESH_READER: Reader := Reader(0, false, false, false, [], [])

  function Min(a: nat, b: nat): nat { if a < b then a else b }

  function ShiftRows(rows: seq<RawRow>, k: nat): (r: seq<RawRow>)
    ensures |r| == |rows|
  {
    seq(|rows|, i requires 0 <= i < |rows| => RawRow(rows[i].start + k, rows[i].fields))
  }

  function Window(d: Text, pos: nat, bytes: nat): Text
    requires pos <= |d|
  {
    d[pos..pos + Min(|d| - pos, bytes)]
  }

  /** The scanner's state after a window, before end_feed. */
  function Scanned(f: Format, w: Text, st: Reader): Scan
    requires NonOverlapping(f)
  {
    Run(f, w, Begin(w, st.bomScanned, st.doubled))
  }

  function Next(f: Format, d: Text, bytes: nat, chunk: nat, st: Reader): Reader
    requires NonOverlapping(f) && st.pos <= |d|
  {
    var w := Window(d, st.pos, bytes);
    var s := Scanned(f, w, st);
    var last := st.pos + |w| == |d| || |d| < chunk;
    var t := if last then EndFeed(f, w, s) else s;
    Reader(st.pos + s.rowStart, st.bomScanned || |w| >= 3, t.doubled, last,
           st.rows + ShiftRows(t.rows, st.pos), st.values + Values(f, w, t.rows))
  }

  lemma NextInside(f: Format, d: Text, bytes: nat, chunk: nat, st: Reader)
    requires NonOverlapping(f) && st.pos <= |d|
    ensures var n := Next(f, d, bytes, chunk, st); st.pos <= n.pos <= |d| && (st.bomScanned ==> n.bomScanned)
  {
  }

  /** A window that changes nothing of what the next one finds. */
  predicate Stuck(st: Reader, n: Reader) {
    !n.eof && n.pos == st.pos && n.bomScanned == st.bomScanned
  }

  /** Calls next until the end of the file; None if a window leads to itself. */
  function ReadAll(f: Format, d: Text, bytes: nat, chunk: nat, st: Reader): Option<Reader>
    requires NonOverlapping(f) && st.pos <= |d|
    decreases |d| - st.pos, !st.bomScanned
  {
    NextInside(f, d, bytes, chunk, st);
    var n := Next(f, d, bytes, chunk, st);
    if n.eof then Some(n)
    else if Stuck(st, n) then None
    else ReadAll(f, d, bytes, chunk, n)
  }

  /** At the beginning of a row, `skip` characters into it. */
  function RowBegin(k: nat, skip: nat, rows: seq<RawRow>): Scan {
    INITIAL.(pos := k + skip, rowStart := k, rows := rows)
  }

  /** The scan of the window that begins a row at k, with no flag set before it. */
  function WindowScan(f: Format, d: Text, bytes: nat, k: nat, skip: nat): (s: Scan)
    requires NonOverlapping(f) && k + skip <= |d| && skip <= bytes
    ensures k + s.rowStart <= |d|
  {
    Run(f, Window(d, k, bytes), RowBegin(0, skip, []))
  }

  /** At a line end of two characters, of which only the first is before n. */
  predicate Parting(f: Format, u: Text, n: nat, s: Scan)
    requires s.pos < |u|
  {
    s.pos + 1 == n < |u| && CompoundFlag(f, u[s.pos], s.quoted) == NEWLINE && Flag(f, u[n]) == NEWLINE
  }

  /** Scanning comes to such a line end. */
  predicate Parts(f: Format, u: Text, n: nat, s: Scan)
    requires NonOverlapping(f) && Inv(f, u, s)
    decreases |u| - s.pos
  {
    s.pos < n && s.pos < |u| &&
    (Parting(f, u, n, s) ||
     match Step(f, u, s)
     case None => false
     case Some(t) => StepKeepsInv(f, u, s); Parts(f, u, n, t))
  }

  /** No line end is parted where no newline character is before the cut, or none after it. */
  lemma {:induction false} NotParted(f: Format, u: Text, n: nat, s: Scan)
    requires NonOverlapping(f) && Inv(f, u, s) && 0 < n
    requires n < |u| ==> Flag(f, u[n - 1]) != NEWLINE || Flag(f, u[n]) != NEWLINE
    ensures !Parts(f, u, n, s)
    decreases |u| - s.pos
  {
    hide Inv, Step;
    if s.pos < n && s.pos < |u| && Step(f, u, s).Some? {
      StepKeepsInv(f, u, s);
      NotParted(f, u, n, Step(f, u, s).value);
    }
  }

  /** The window that begins a row at k ends between the two characters of a line end. */
  predicate PartsLineEnd(f: Format, d: Text, bytes: nat, k: nat, skip: nat)
    requires NonOverlapping(f) && k + skip <= |d|
  {
    Parts(f, d[k..], bytes, RowBegin(0, skip, []))
  }

  /** From the window at k on, no window that is not the last ends between the two
      characters of a line end. */
  predicate CutsWell(f: Format, d: Text, bytes: nat, k: nat, skip: nat)
    requires NonOverlapping(f) && k + skip <= |d| && skip <= bytes
    decreases |d| - k
  {
    k + bytes >= |d| ||
    (var next := WindowScan(f, d, bytes, k, skip).rowStart;
     !PartsLineEnd(f, d, bytes, k, skip) && (next == 0 || CutsWell(f, d, bytes, k + next, 0)))
  }

  /** The length of the byte-order mark of a file. */
  function BomLength(d: Text): (n: nat)
    ensures n <= |d| && n <= 3
  {
    if HasBom(d) then 3 else 0
  }

  function OnePiece(f: Format, d: Text): Scan
    requires NonOverlapping(f)
  {
    Run(f, d, Begin(d, false, false))
  }

  /** Every row, finished or not, fits in a window. */
  predicate RowsFit(f: Format, d: Text, bytes: nat)
    requires NonOverlapping(f)
  {
    var r := OnePiece(f, d);
    && (forall i :: 0 <= i < |r.rows| ==> NextStart(r.rows, i, r.rowStart) - r.rows[i].start <= bytes)
    && |d| - r.rowStart <= bytes
  }

  // ---------------------------------------------------------------- a shorter text

  lemma {:induction false} SkipWsCut(f: Format, u: Text, n: nat, pos: nat)
    requires pos <= n <= |u|
    ensures SkipWs(f, u[..n], pos) == Min(SkipWs(f, u, pos), n)
    decreases n - pos
  {
    if pos < n && Ws(f, u[pos]) { SkipWsCut(f, u, n, pos + 1); }
  }

  lemma {:induction false} SkipPlainCut(f: Format, u: Text, n: nat, pos: nat, quoted: bool)
    requires pos <= n <= |u|
    ensures SkipPlain(f, u[..n], pos, quoted) == Min(SkipPlain(f, u, pos, quoted), n)
    decreases n - pos
  {
    if pos < n && Plain(f, u[pos], quoted) { SkipPlainCut(f, u, n, pos + 1, quoted); }
  }

  lemma {:induction false} TrimBackCut(f: Format, u: Text, n: nat, end: nat, len: nat)
    requires len <= end <= n <= |u|
    ensures TrimBack(f, u[..n], end, len) == TrimBack(f, u, end, len)
  {
    if len > 0 && Ws(f, u[end - 1]) { TrimBackCut(f, u, n, end - 1, len - 1); }
  }

  lemma InvCut(f: Format, u: Text, n: nat, s: Scan)
    requires Inv(f, u, s) && s.pos <= n <= |u|
    ensures Inv(f, u[..n], s)
  {
  }

  /** A turn that stays before the cut is the same in the shorter text. */
  lemma TurnCut(f: Format, u: Text, n: nat, s: Scan)
    requires NonOverlapping(f) && Inv(f, u, s) && s.pos < n <= |u|
    requires Step(f, u, s).Some? && Step(f, u, s).value.pos < n
    ensures Inv(f, u[..n], s) && Step(f, u[..n], s) == Step(f, u, s)
  {
    InvCut(f, u, n, s);
    if CompoundFlag(f, u[s.pos], s.quoted) == NOT_SPECIAL {
      ParseFieldCut(f, u, n, s);
    }
  }

  lemma ParseFieldCut(f: Format, u: Text, n: nat, s: Scan)
    requires NonOverlapping(f) && Inv(f, u, s) && s.pos < n <= |u| && Inv(f, u[..n], s)
    requires Plain(f, u[s.pos], s.quoted)
    ensures ParseField(f, u[..n], s).pos == Min(ParseField(f, u, s).pos, n)
    ensures ParseField(f, u, s).pos < n ==> ParseField(f, u[..n], s) == ParseField(f, u, s)
  {
    hide Plain, Ws, Flag, Inv, SkipWs, SkipPlain, TrimBack;
    var a := SkipWs(f, u, s.pos);
    SkipWsCut(f, u, n, s.pos);
    ParseFieldBounds(f, u, s);
    if a < n {
      SkipPlainCut(f, u, n, a, s.quoted);
      var p := SkipPlain(f, u, a, s.quoted);
      if p < n { TrimBackCut(f, u, n, p, p - (FieldBegin(f, u, s) + s.rowStart)); }
    }
  }

  /** A turn that reaches the cut and is not a line end finishes the shorter text
      without finishing a row. */
  lemma EdgeTurn(f: Format, u: Text, n: nat, s: Scan)
    requires NonOverlapping(f) && Inv(f, u, s) && s.pos < n <= |u|
    requires CompoundFlag(f, u[s.pos], s.quoted) != NEWLINE
    requires Step(f, u, s).Some? ==> Step(f, u, s).value.pos >= n
    ensures Inv(f, u[..n], s)
    ensures var t := Step(f, u[..n], s); t.Some? ==>
      t.value.pos == n && t.value.rowStart == s.rowStart && t.value.rows == s.rows
  {
    InvCut(f, u, n, s);
    if CompoundFlag(f, u[s.pos], s.quoted) == NOT_SPECIAL {
      ParseFieldCut(f, u, n, s);
    }
  }

  lemma EdgeRun(f: Format, u: Text, n: nat, s: Scan)
    requires NonOverlapping(f) && Inv(f, u, s) && s.pos < n <= |u|
    requires CompoundFlag(f, u[s.pos], s.quoted) != NEWLINE
    requires Step(f, u, s).Some? ==> Step(f, u, s).value.pos >= n
    ensures Inv(f, u[..n], s)
    ensures var r := Run(f, u[..n], s); r.rowStart == s.rowStart && r.rows == s.rows
  {
    hide Inv, Flag;
    EdgeTurn(f, u, n, s);
    var t := Step(f, u[..n], s);
    StepKeepsInv(f, u[..n], s);
    if t.Some? { RunAtEnd(f, u[..n], t.value); }
  }

  lemma RunAtEnd(f: Format, d: Text, s: Scan)
    requires NonOverlapping(f) && Inv(f, d, s) && s.pos == |d|
    ensures Run(f, d, s) == s
  {
  }

  /** A line end is the same in the shorter text, unless the cut parts its two characters. */
  lemma NewlineCut(f: Format, u: Text, n: nat, s: Scan)
    requires NonOverlapping(f) && Inv(f, u, s) && s.pos < n <= |u| && !Parting(f, u, n, s)
    requires CompoundFlag(f, u[s.pos], s.quoted) == NEWLINE
    ensures Inv(f, u[..n], s) && Step(f, u[..n], s) == Step(f, u, s)
    ensures var t := Step(f, u, s);
      && t.Some? && t.value.pos <= n
      && t.value == RowBegin(t.value.pos, 0, t.value.rows) && t.value.pos > s.rowStart
  {
    InvCut(f, u, n, s);
  }

  /** Scanning up to a cut finds the rows that scanning on would find; scanning
      again from the last row begun before the cut then finds the rest. */
  lemma {:induction false} Truncated(f: Format, u: Text, n: nat, s: Scan)
    requires NonOverlapping(f) && Inv(f, u, s) && s.pos <= n <= |u| && !Parts(f, u, n, s)
    ensures Inv(f, u[..n], s)
    ensures var r := Run(f, u[..n], s);
      && r.rowStart <= n
      && ((r.rowStart == s.rowStart && r.rows == s.rows)
          || (r.rowStart > s.rowStart && Run(f, u, s) == Run(f, u, RowBegin(r.rowStart, 0, r.rows))))
    decreases n - s.pos
  {
    hide Inv, Flag, Step, Parting;
    InvCut(f, u, n, s);
    InvBounds(f, u, s);
    if s.pos < n { StepKeepsInv(f, u, s); }
    if s.pos == n {
      RunAtEnd(f, u[..n], s);
    } else if CompoundFlag(f, u[s.pos], s.quoted) == NEWLINE {
      NewlineCut(f, u, n, s);
      TruncatedFrom(f, u, n, s);
    } else if Step(f, u, s).Some? && Step(f, u, s).value.pos < n {
      TurnCut(f, u, n, s);
      SameRow(f, u, s);
      TruncatedFrom(f, u, n, s);
    } else {
      EdgeRun(f, u, n, s);
    }
  }

  lemma InvBounds(f: Format, d: Text, s: Scan)
    requires Inv(f, d, s)
    ensures s.rowStart <= s.pos <= |d|
  {
  }

  lemma SameRow(f: Format, d: Text, s: Scan)
    requires NonOverlapping(f) && Inv(f, d, s) && s.pos < |d| && CompoundFlag(f, d[s.pos], s.quoted) != NEWLINE
    ensures var t := Step(f, d, s); t.Some? ==> t.value.rowStart == s.rowStart && t.value.rows == s.rows
  {
  }

  lemma {:induction false} TruncatedFrom(f: Format, u: Text, n: nat, s: Scan)
    requires NonOverlapping(f) && Inv(f, u, s) && s.pos < n <= |u| && !Parts(f, u, n, s)
    requires Inv(f, u[..n], s) && Step(f, u[..n], s) == Step(f, u, s) && Step(f, u, s).Some?
    requires var t := Step(f, u, s).value;
      && s.pos < t.pos <= n
      && ((t.rowStart == s.rowStart && t.rows == s.rows) || (t.rowStart > s.rowStart && t == RowBegin(t.pos, 0, t.rows)))
    ensures var r := Run(f, u[..n], s);
      && r.rowStart <= n
      && ((r.rowStart == s.rowStart && r.rows == s.rows)
          || (r.rowStart > s.rowStart && Run(f, u, s) == Run(f, u, RowBegin(r.rowStart, 0, r.rows))))
    decreases n - s.pos, 0
  {
    hide Inv, Flag, Step, Parting;
    var t := Step(f, u, s).value;
    StepKeepsInv(f, u, s);
    StepKeepsInv(f, u[..n], s);
    Truncated(f, u, n, t);
  }

  // ---------------------------------------------------------------- where the current row ends

  /** Where the row after the current one begins, if the current one is ended at all. */
  function RowEnd(f: Format, d: Text, s: Scan): (q: Option<nat>)
    requires NonOverlapping(f) && Inv(f, d, s)
    ensures q.Some? ==> s.pos < q.value
    decreases |d| - s.pos
  {
    if s.pos == |d| then None
    else
      match Step(f, d, s)
      case None => None
      case Some(t) =>
        StepKeepsInv(f, d, s);
        if CompoundFlag(f, d[s.pos], s.quoted) == NEWLINE then Some(t.pos) else RowEnd(f, d, t)
  }

  /** The current row is recorded with its start, and the row after it begins at its end. */
  lemma {:induction false} RowEndRecorded(f: Format, d: Text, s: Scan)
    requires NonOverlapping(f) && Inv(f, d, s)
    ensures var r := Run(f, d, s); var m := |s.rows|;
      match RowEnd(f, d, s)
      case None => r.rows == s.rows && r.rowStart == s.rowStart
      case Some(q) =>
        && |r.rows| > m && r.rows[..m] == s.rows && r.rows[m].start == s.rowStart
        && NextStart(r.rows, m, r.rowStart) == q
    decreases |d| - s.pos
  {
    hide Inv, Flag, Step;
    InvBounds(f, d, s);
    if s.pos < |d| && Step(f, d, s).Some? {
      var t := Step(f, d, s).value;
      StepKeepsInv(f, d, s);
      RowEndRecorded(f, d, t);
      if CompoundFlag(f, d[s.pos], s.quoted) == NEWLINE {
        NewlineTurned(f, d, s);
        var r := Run(f, d, t);
        var m := |s.rows|;
        assert r.rows[..m + 1] == t.rows;
        assert r.rows[..m] == r.rows[..m + 1][..m] == s.rows;
        assert r.rows[m] == r.rows[..m + 1][m];
      } else {
        SameRow(f, d, s);
      }
    }
  }

  lemma NewlineTurned(f: Format, d: Text, s: Scan)
    requires NonOverlapping(f) && Inv(f, d, s) && s.pos < |d| && CompoundFlag(f, d[s.pos], s.quoted) == NEWLINE
    ensures var t := Step(f, d, s);
      && t.Some? && t.value.rowStart == t.value.pos
      && exists x :: t.value.rows == s.rows + [RawRow(s.rowStart, x)]
  {
    assert Step(f, d, s).value.rows == s.rows + [RawRow(s.rowStart, PushField(s).cur)];
  }

  /** A row that ends before the cut is finished in the shorter text as well. */
  lemma {:induction false} RowFinished(f: Format, u: Text, n: nat, s: Scan)
    requires NonOverlapping(f) && Inv(f, u, s) && s.pos <= n <= |u| && !Parts(f, u, n, s)
    requires RowEnd(f, u, s).Some? && RowEnd(f, u, s).value <= n
    ensures Inv(f, u[..n], s) && Run(f, u[..n], s).rowStart > s.rowStart
    decreases n - s.pos
  {
    hide Inv, Flag, Step, Parting;
    InvCut(f, u, n, s);
    StepKeepsInv(f, u, s);
    StepKeepsInv(f, u[..n], s);
    var t := Step(f, u, s).value;
    if CompoundFlag(f, u[s.pos], s.quoted) == NEWLINE {
      NewlineCut(f, u, n, s);
      RunRises(f, u[..n], t);
    } else {
      TurnCut(f, u, n, s);
      SameRow(f, u, s);
      RowFinished(f, u, n, t);
    }
  }

  lemma {:induction false} RunRises(f: Format, d: Text, s: Scan)
    requires NonOverlapping(f) && Inv(f, d, s)
    ensures Run(f, d, s).rowStart >= s.rowStart
    decreases |d| - s.pos
  {
    hide Inv, Flag;
    InvBounds(f, d, s);
    if s.pos < |d| && Step(f, d, s).Some? {
      StepKeepsInv(f, d, s);
      RunRises(f, d, Step(f, d, s).value);
    }
  }

  // ---------------------------------------------------------------- the same text further on

  /** The state s of scanning d[k..], as a state of scanning d with rows already found. */
  function Place(s: Scan, k: nat, found: seq<RawRow>): Scan {
    s.(pos := s.pos + k, rowStart := s.rowStart + k, rows := found + ShiftRows(s.rows, k))
  }

  lemma {:induction false} SkipWsMoved(f: Format, d: Text, k: nat, pos: nat)
    requires k <= |d| && pos <= |d| - k
    ensures SkipWs(f, d, pos + k) == SkipWs(f, d[k..], pos) + k
    decreases |d| - pos
  {
    if pos < |d| - k && Ws(f, d[k..][pos]) { SkipWsMoved(f, d, k, pos + 1); }
  }

  lemma {:induction false} SkipPlainMoved(f: Format, d: Text, k: nat, pos: nat, quoted: bool)
    requires k <= |d| && pos <= |d| - k
    ensures SkipPlain(f, d, pos + k, quoted) == SkipPlain(f, d[k..], pos, quoted) + k
    decreases |d| - pos
  {
    if pos < |d| - k && Plain(f, d[k..][pos], quoted) { SkipPlainMoved(f, d, k, pos + 1, quoted); }
  }

  lemma {:induction false} TrimBackMoved(f: Format, d: Text, k: nat, end: nat, len: nat)
    requires k <= |d| && len <= end <= |d| - k
    ensures TrimBack(f, d, end + k, len) == TrimBack(f, d[k..], end, len)
  {
    if len > 0 && Ws(f, d[k..][end - 1]) { TrimBackMoved(f, d, k, end - 1, len - 1); }
  }

  lemma InvMoved(f: Format, d: Text, k: nat, found: seq<RawRow>, s: Scan)
    requires k <= |d| && Inv(f, d[k..], s)
    ensures Inv(f, d, Place(s, k, found))
  {
  }

  lemma ParseFieldMoved(f: Format, d: Text, k: nat, found: seq<RawRow>, s: Scan)
    requires NonOverlapping(f) && k <= |d| && Inv(f, d[k..], s) && s.pos < |d| - k
    requires Inv(f, d, Place(s, k, found)) && Plain(f, d[k..][s.pos], s.quoted)
    ensures ParseField(f, d, Place(s, k, found)) == Place(ParseField(f, d[k..], s), k, found)
  {
    hide Plain, Ws, Flag, SkipWs, SkipPlain, TrimBack, ShiftRows, Inv;
    var u := d[k..];
    ParseFieldBounds(f, u, s);
    InvBounds(f, d, Place(s, k, found));
    var a := SkipWs(f, u, s.pos);
    SkipWsMoved(f, d, k, s.pos);
    SkipPlainMoved(f, d, k, a, s.quoted);
    var p := SkipPlain(f, u, a, s.quoted);
    var begin := FieldBegin(f, u, s);
    assert FieldBegin(f, d, Place(s, k, found)) == begin;
    TrimBackMoved(f, d, k, p, p - (begin + s.rowStart));
  }

  lemma ShiftStep(rows: seq<RawRow>, x: RawRow, k: nat)
    ensures ShiftRows(rows + [x], k) == ShiftRows(rows, k) + [RawRow(x.start + k, x.fields)]
  {
  }

  lemma TurnMoved(f: Format, d: Text, k: nat, found: seq<RawRow>, s: Scan)
    requires NonOverlapping(f) && k <= |d| && Inv(f, d[k..], s) && s.pos < |d| - k
    requires Inv(f, d, Place(s, k, found))
    ensures var t := Step(f, d[k..], s);
      Step(f, d, Place(s, k, found)) == if t.Some? then Some(Place(t.value, k, found)) else None
  {
    hide Inv, Ws, Flag, ShiftRows, ParseField;
    var flag := CompoundFlag(f, d[k..][s.pos], s.quoted);
    if flag == NOT_SPECIAL {
      ParseFieldMoved(f, d, k, found, s);
    } else if flag == NEWLINE {
      var x := RawRow(s.rowStart, PushField(s).cur);
      ShiftStep(s.rows, x, k);
      assert found + ShiftRows(s.rows + [x], k) == found + ShiftRows(s.rows, k) + [RawRow(x.start + k, x.fields)];
    }
  }

  /** Scanning goes on in the middle of a file as it does at the beginning of one. */
  lemma {:induction false} Moved(f: Format, d: Text, k: nat, found: seq<RawRow>, s: Scan)
    requires NonOverlapping(f) && k <= |d| && Inv(f, d[k..], s)
    ensures Inv(f, d, Place(s, k, found))
    ensures Run(f, d, Place(s, k, found)) == Place(Run(f, d[k..], s), k, found)
    decreases |d| - s.pos
  {
    hide Inv, Step, ShiftRows;
    InvMoved(f, d, k, found, s);
    InvBounds(f, d[k..], s);
    if s.pos < |d| - k {
      TurnMoved(f, d, k, found, s);
      var t := Step(f, d[k..], s);
      if t.Some? {
        StepKeepsInv(f, d[k..], s);
        Moved(f, d, k, found, t.value);
      }
    }
  }

  // ---------------------------------------------------------------- the doubled-quote flag

  /** The same places, and a flag wherever b has one. */
  ghost predicate CoversField(a: RawField, b: RawField) {
    a.start == b.start && a.length == b.length && (b.doubled ==> a.doubled)
  }

  ghost predicate CoversFields(a: seq<RawField>, b: seq<RawField>) {
    |a| == |b| && forall i :: 0 <= i < |a| ==> CoversField(a[i], b[i])
  }

  ghost predicate CoversRows(a: seq<RawRow>, b: seq<RawRow>) {
    |a| == |b| && forall i :: 0 <= i < |a| ==> a[i].start == b[i].start && CoversFields(a[i].fields, b[i].fields)
  }

  /** A flag set before a scan stays with the first field it pushes. */
  function MarkFirst(fields: seq<RawField>): (r: seq<RawField>)
    ensures |r| == |fields|
  {
    if fields == [] then [] else [fields[0].(doubled := true)] + fields[1..]
  }

  function MarkRows(rows: seq<RawRow>): (r: seq<RawRow>)
    ensures |r| == |rows|
  {
    if rows == [] then [] else [rows[0].(fields := MarkFirst(rows[0].fields))] + rows[1..]
  }

  function Mark(s: Scan): Scan {
    if s.rows == [] && s.cur == [] then s.(doubled := true)
    else if s.rows == [] then s.(cur := MarkFirst(s.cur))
    else s.(rows := MarkRows(s.rows))
  }

  lemma PushMarked(s: Scan)
    ensures PushField(Mark(s)) == Mark(PushField(s))
    ensures PushRow(PushField(Mark(s))) == Mark(PushRow(PushField(s)))
  {
    var x := Pending(s);
    if s.rows == [] && s.cur != [] {
      assert MarkFirst(s.cur + [x]) == MarkFirst(s.cur) + [x];
    } else if s.rows != [] {
      var row := RawRow(s.rowStart, s.cur + [x]);
      assert MarkRows(s.rows + [row]) == MarkRows(s.rows) + [row];
    }
  }

  lemma RowMarked(s: Scan)
    requires s.cur != []
    ensures PushRow(Mark(s)).rows == MarkRows(PushRow(s).rows)
  {
    if s.rows != [] {
      var row := RawRow(s.rowStart, s.cur);
      assert MarkRows(s.rows + [row]) == MarkRows(s.rows) + [row];
    }
  }

  /** Marking leaves the cursor alone, and what a turn does to it. */
  lemma MarkWith(s: Scan, pos: nat, rowStart: nat, start: int, len: nat, quoted: bool)
    ensures var t := Mark(s);
      && t.pos == s.pos && t.rowStart == s.rowStart
      && t.start == s.start && t.len == s.len && t.quoted == s.quoted
    ensures Mark(s.(pos := pos, rowStart := rowStart, start := start, len := len, quoted := quoted))
      == Mark(s).(pos := pos, rowStart := rowStart, start := start, len := len, quoted := quoted)
    ensures Mark(s.(doubled := true)) == Mark(s).(doubled := true)
  {
    hide MarkFirst, MarkRows;
  }

  lemma TurnMarked(f: Format, d: Text, s: Scan)
    requires NonOverlapping(f) && Inv(f, d, s) && s.pos < |d|
    ensures Inv(f, d, Mark(s))
    ensures var t := Step(f, d, s); Step(f, d, Mark(s)) == if t.Some? then Some(Mark(t.value)) else None
  {
    hide Ws, Flag, Mark, Inv, PushField, PushRow, ParseField, NonOverlapping;
    MarkInv(f, d, s);
    var t := Step(f, d, s);
    var flag := CompoundFlag(f, d[s.pos], s.quoted);
    MarkWith(s, s.pos, s.rowStart, s.start, s.len, s.quoted);
    if flag == DELIMITER || flag == NEWLINE {
      PushMarked(s);
      var u := if flag == DELIMITER then PushField(s) else PushRow(PushField(s));
      MarkWith(u, t.value.pos, t.value.rowStart, u.start, u.len, u.quoted);
    } else if flag == NOT_SPECIAL {
      ParseMarked(f, d, s);
    } else if t.Some? {
      var v := t.value;
      MarkWith(s, v.pos, v.rowStart, v.start, v.len, v.quoted);
      MarkWith(s.(doubled := true), v.pos, v.rowStart, v.start, v.len, v.quoted);
    }
  }

  lemma ParseMarked(f: Format, d: Text, s: Scan)
    requires s.pos < |d| && Inv(f, d, s)
    ensures Inv(f, d, Mark(s)) && ParseField(f, d, Mark(s)) == Mark(ParseField(f, d, s))
  {
    hide Ws, Mark, Inv, Plain, SkipWs, SkipPlain, TrimBack;
    MarkInv(f, d, s);
    var t := ParseField(f, d, s);
    MarkWith(s, t.pos, t.rowStart, t.start, t.len, t.quoted);
  }

  lemma MarkInv(f: Format, d: Text, s: Scan)
    requires Inv(f, d, s)
    ensures Inv(f, d, Mark(s)) && Mark(s).pos == s.pos && Mark(s).rowStart == s.rowStart
  {
    hide MarkFirst, MarkRows, Ws;
  }

  /** A flag set before a scan changes nothing but the first field it pushes. */
  lemma {:induction false} RunMarked(f: Format, d: Text, s: Scan)
    requires NonOverlapping(f) && Inv(f, d, s)
    ensures Inv(f, d, Mark(s)) && Run(f, d, Mark(s)) == Mark(Run(f, d, s))
    decreases |d| - s.pos
  {
    hide Inv, Step, Mark;
    InvBounds(f, d, s);
    MarkInv(f, d, s);
    if s.pos < |d| {
      TurnMarked(f, d, s);
      var t := Step(f, d, s);
      if t.Some? {
        StepKeepsInv(f, d, s);
        RunMarked(f, d, t.value);
      }
    }
  }

  lemma EndFeedMarked(f: Format, w: Text, s: Scan)
    ensures EndFeed(f, w, Mark(s)).rows == MarkRows(EndFeed(f, w, s).rows)
  {
    hide Flag, MarkFirst;
    PushMarked(s);
    if s.cur != [] { RowMarked(s); }
    RowMarked(PushField(s));
  }

  lemma MarkCovers(rows: seq<RawRow>)
    ensures CoversRows(MarkRows(rows), rows) && CoversRows(rows, rows)
  {
  }

  // ---------------------------------------------------------------- one window

  /** A reader between windows, of which the next begins a row `skip` characters in. */
  ghost predicate Standing(d: Text, st: Reader, skip: nat) {
    && st.pos + skip <= |d| && (st.bomScanned || st.pos == 0)
    && skip == (if !st.bomScanned && HasBom(d) then 3 else 0)
  }

  /** After st, what remains of the one-piece scan begins a row where the next
      window begins, `skip` characters in, with the same rows found so far. */
  ghost predicate Aligned(f: Format, d: Text, st: Reader, skip: nat, found: seq<RawRow>)
    requires NonOverlapping(f)
  {
    && Standing(d, st, skip) && (st.pos == |d| ==> |d| == 0)
    && CoversRows(st.rows, found)
    && OnePiece(f, d) == Run(f, d, RowBegin(st.pos, skip, found))
  }

  lemma RowBeginInv(f: Format, d: Text, k: nat, skip: nat, found: seq<RawRow>)
    requires k + skip <= |d|
    ensures Inv(f, d, RowBegin(k, skip, found))
  {
  }

  lemma RowBeginPlaced(k: nat, skip: nat, a: nat, rows: seq<RawRow>, found: seq<RawRow>)
    ensures Place(RowBegin(a, skip, rows), k, found) == RowBegin(k + a, skip, found + ShiftRows(rows, k))
    ensures found + ShiftRows([], k) == found
  {
  }

  /** The one-piece scan of the file, from the scan of what is left of it. */
  lemma RestOfFile(f: Format, d: Text, st: Reader, skip: nat, found: seq<RawRow>)
    requires NonOverlapping(f) && Aligned(f, d, st, skip, found)
    ensures Inv(f, d[st.pos..], RowBegin(0, skip, []))
    ensures OnePiece(f, d) == Place(Run(f, d[st.pos..], RowBegin(0, skip, [])), st.pos, found)
  {
    hide Run, Inv, CoversRows, ShiftRows;
    RowBeginInv(f, d[st.pos..], 0, skip, []);
    Moved(f, d, st.pos, found, RowBegin(0, skip, []));
    RowBeginPlaced(st.pos, skip, 0, [], found);
  }

  lemma WindowBegin(f: Format, d: Text, bytes: nat, st: Reader, skip: nat)
    requires Standing(d, st, skip) && bytes >= 3
    ensures var w := Window(d, st.pos, bytes);
      && Begin(w, st.bomScanned, st.doubled) == RowBegin(0, skip, []).(doubled := st.doubled)
      && skip <= |w| && w == d[st.pos..][..|w|]
  {
  }

  /** What the scanner finds in a window: what it finds with no flag set, marked
      if the flag was left set. */
  lemma WindowMarked(f: Format, d: Text, bytes: nat, st: Reader, skip: nat)
    requires NonOverlapping(f) && Standing(d, st, skip) && bytes >= 3
    ensures var r := WindowScan(f, d, bytes, st.pos, skip);
      && Inv(f, Window(d, st.pos, bytes), RowBegin(0, skip, []))
      && Scanned(f, Window(d, st.pos, bytes), st) == (if st.doubled then Mark(r) else r)
      && Mark(r).rowStart == r.rowStart
      && CoversRows(Scanned(f, Window(d, st.pos, bytes), st).rows, r.rows)
  {
    hide Run, Inv, CoversRows, MarkRows;
    var w := Window(d, st.pos, bytes);
    WindowBegin(f, d, bytes, st, skip);
    RowBeginInv(f, w, 0, skip, []);
    RunMarked(f, w, RowBegin(0, skip, []));
    MarkCovers(Run(f, w, RowBegin(0, skip, [])).rows);
  }

  lemma BeginInv(f: Format, w: Text, bomScanned: bool, doubled: bool)
    ensures Inv(f, w, Begin(w, bomScanned, doubled))
  {
  }

  lemma CoversMore(a: seq<RawRow>, b: seq<RawRow>, x: seq<RawRow>, y: seq<RawRow>, k: nat)
    requires CoversRows(a, b) && CoversRows(x, y)
    ensures CoversRows(a + ShiftRows(x, k), b + ShiftRows(y, k))
  {
  }

  /** A window that is not the last and finds the end of a row leaves the reader
      aligned at the beginning of the next. */
  lemma WindowAligned(f: Format, d: Text, bytes: nat, chunk: nat, st: Reader, skip: nat, found: seq<RawRow>)
    returns (more: seq<RawRow>)
    requires NonOverlapping(f) && Aligned(f, d, st, skip, found)
    requires 3 <= bytes && st.pos + bytes < |d| && chunk <= |d| && !PartsLineEnd(f, d, bytes, st.pos, skip)
    requires Next(f, d, bytes, chunk, st).pos > st.pos
    ensures Aligned(f, d, Next(f, d, bytes, chunk, st), 0, more)
    ensures var r := WindowScan(f, d, bytes, st.pos, skip);
      more == found + ShiftRows(r.rows, st.pos) && Next(f, d, bytes, chunk, st).pos == st.pos + r.rowStart
  {
    hide Run, Inv, CoversRows, ShiftRows, Values, Mark, Parts;
    var k := st.pos;
    var u, w := d[k..], Window(d, k, bytes);
    var b := RowBegin(0, skip, []);
    WindowBegin(f, d, bytes, st, skip);
    WindowMarked(f, d, bytes, st, skip);
    RestOfFile(f, d, st, skip, found);
    var r := Run(f, w, b);
    Truncated(f, u, bytes, b);
    more := found + ShiftRows(r.rows, k);
    RowBeginInv(f, u, r.rowStart, 0, r.rows);
    Moved(f, d, k, found, RowBegin(r.rowStart, 0, r.rows));
    RowBeginPlaced(k, 0, r.rowStart, r.rows, found);
    CoversMore(st.rows, found, Scanned(f, w, st).rows, r.rows, k);
  }

  lemma PlacedEnd(s: Scan, k: nat, found: seq<RawRow>)
    requires s.rows != [] && s.rows[0].start == 0
    ensures var r := Place(s, k, found); var m := |found|;
      r.rows[m].start == k && NextStart(r.rows, m, r.rowStart) == k + NextStart(s.rows, 0, s.rowStart)
  {
  }

  /** The first row that ends in the rest of the file fits in a window; if there
      is none, the rest of the file does. */
  lemma RestFits(f: Format, d: Text, bytes: nat, k: nat, s: Scan, found: seq<RawRow>)
    requires NonOverlapping(f) && RowsFit(f, d, bytes) && OnePiece(f, d) == Place(s, k, found)
    requires s.rows != [] ==> s.rows[0].start == 0
    ensures s.rows != [] ==> NextStart(s.rows, 0, s.rowStart) <= bytes
    ensures s.rows == [] ==> |d| <= k + s.rowStart + bytes
  {
    hide Run, NextStart, NonOverlapping;
    if s.rows != [] {
      PlacedEnd(s, k, found);
      var r := OnePiece(f, d);
      assert NextStart(r.rows, |found|, r.rowStart) - r.rows[|found|].start <= bytes;
    }
  }

  /** If every row fits, such a window does find the end of a row. */
  lemma WindowProgress(f: Format, d: Text, bytes: nat, chunk: nat, st: Reader, skip: nat, found: seq<RawRow>)
    requires NonOverlapping(f) && Aligned(f, d, st, skip, found) && RowsFit(f, d, bytes)
    requires 3 <= bytes && st.pos + bytes < |d| && !PartsLineEnd(f, d, bytes, st.pos, skip)
    ensures Next(f, d, bytes, chunk, st).pos > st.pos
  {
    hide Run, Inv, CoversRows, Values, RowsFit, RowEnd, NextStart, OnePiece;
    var k := st.pos;
    var u, w := d[k..], Window(d, k, bytes);
    var b := RowBegin(0, skip, []);
    WindowBegin(f, d, bytes, st, skip);
    WindowMarked(f, d, bytes, st, skip);
    RestOfFile(f, d, st, skip, found);
    RowEndRecorded(f, u, b);
    RestFits(f, d, bytes, k, Run(f, u, b), found);
    if RowEnd(f, u, b).Some? {
      RowFinished(f, u, bytes, b);
    }
  }

  lemma EndFeedPlaced(f: Format, d: Text, k: nat, s: Scan, found: seq<RawRow>)
    requires k <= |d| && (k == |d| ==> |d| == 0)
    ensures EndFeed(f, d, Place(s, k, found)).rows == found + ShiftRows(EndFeed(f, d[k..], s).rows, k)
  {
    hide ShiftRows;
    ShiftStep(s.rows, RawRow(s.rowStart, s.cur), k);
    ShiftStep(s.rows, RawRow(s.rowStart, PushField(s).cur), k);
  }

  /** The last window adds what the one-piece scan finds in the rest of the file. */
  lemma LastWindow(f: Format, d: Text, bytes: nat, chunk: nat, st: Reader, skip: nat, found: seq<RawRow>)
    requires NonOverlapping(f) && Aligned(f, d, st, skip, found) && 3 <= bytes && st.pos + bytes >= |d|
    ensures Next(f, d, bytes, chunk, st).eof
    ensures CoversRows(Next(f, d, bytes, chunk, st).rows, EndFeed(f, d, OnePiece(f, d)).rows)
  {
    hide Run, Inv, CoversRows, Values, EndFeed, Mark, MarkRows;
    var k := st.pos;
    var w := Window(d, k, bytes);
    assert w == d[k..];
    var r := WindowScan(f, d, bytes, k, skip);
    WindowMarked(f, d, bytes, st, skip);
    RestOfFile(f, d, st, skip, found);
    EndFeedPlaced(f, d, k, r, found);
    EndFeedMarked(f, w, r);
    MarkCovers(EndFeed(f, w, r).rows);
    CoversMore(st.rows, found, EndFeed(f, w, Scanned(f, w, st)).rows, EndFeed(f, w, r).rows, k);
  }

  // ---------------------------------------------------------------- the whole file

  lemma {:induction false} ReadFrom(f: Format, d: Text, bytes: nat, chunk: nat, st: Reader, skip: nat,
                                    found: seq<RawRow>)
    requires NonOverlapping(f) && Aligned(f, d, st, skip, found)
    requires 3 <= bytes && (|d| < chunk ==> |d| <= bytes) && RowsFit(f, d, bytes)
    requires CutsWell(f, d, bytes, st.pos, skip)
    ensures var r := ReadAll(f, d, bytes, chunk, st);
      r.Some? && CoversRows(r.value.rows, EndFeed(f, d, OnePiece(f, d)).rows)
    decreases |d| - st.pos
  {
    hide Run, Inv, CoversRows, Values, EndFeed, Next, RowsFit, OnePiece;
    NextInside(f, d, bytes, chunk, st);
    var n := Next(f, d, bytes, chunk, st);
    if st.pos + bytes >= |d| {
      LastWindow(f, d, bytes, chunk, st, skip, found);
    } else {
      WindowProgress(f, d, bytes, chunk, st, skip, found);
      var more := WindowAligned(f, d, bytes, chunk, st, skip, found);
      if !n.eof {
        ReadFrom(f, d, bytes, chunk, n, 0, more);
      } else {
        NotLast(f, d, bytes, chunk, st);
      }
    }
  }

  lemma NotLast(f: Format, d: Text, bytes: nat, chunk: nat, st: Reader)
    requires NonOverlapping(f) && st.pos + bytes < |d| && chunk <= |d|
    ensures !Next(f, d, bytes, chunk, st).eof
  {
  }

  lemma FreshAligned(f: Format, d: Text)
    requires NonOverlapping(f)
    ensures Aligned(f, d, FRESH_READER, BomLength(d), [])
  {
    hide Run, Inv;
    assert Begin(d, false, false) == RowBegin(0, BomLength(d), []);
  }

  /** Reading any file through windows comes to the end of the file and finds the
      rows and fields that reading it in one piece finds, at the same places, if
      every row fits in a window and no window parts a line end of two characters;
      a field may at most have a doubled-quote flag that the one piece does not give it. */
  lemma WindowsFindTheSame(f: Format, d: Text, bytes: nat, chunk: nat)
    requires NonOverlapping(f) && 3 <= bytes && (|d| < chunk ==> |d| <= bytes)
    requires RowsFit(f, d, bytes) && CutsWell(f, d, bytes, 0, BomLength(d))
    ensures var r := ReadAll(f, d, bytes, chunk, FRESH_READER);
      r.Some? && CoversRows(r.value.rows, EndFeed(f, d, OnePiece(f, d)).rows)
  {
    hide Run, Inv, Values, EndFeed, Next, RowsFit;
    FreshAligned(f, d);
    ReadFrom(f, d, bytes, chunk, FRESH_READER, BomLength(d), []);
  }

  /** What is left unread strictly shrinks with every window but the last. */
  lemma UnreadShrinks(f: Format, d: Text, bytes: nat, chunk: nat, st: Reader, skip: nat, found: seq<RawRow>)
    requires NonOverlapping(f) && Aligned(f, d, st, skip, found)
    requires 3 <= bytes && (|d| < chunk ==> |d| <= bytes) && RowsFit(f, d, bytes)
    requires !PartsLineEnd(f, d, bytes, st.pos, skip)
    ensures var n := Next(f, d, bytes, chunk, st); n.eof || 0 <= |d| - n.pos < |d| - st.pos
  {
    hide Run, Inv, CoversRows, Values, EndFeed, Next, RowsFit, OnePiece;
    NextInside(f, d, bytes, chunk, st);
    if st.pos + bytes >= |d| {
      LastWindow(f, d, bytes, chunk, st, skip, found);
    } else {
      WindowProgress(f, d, bytes, chunk, st, skip, found);
    }
  }

  // ---------------------------------------------------------------- values

  ghost predicate FieldsEndBy(rows: seq<RawRow>, n: nat) {
    forall i, j :: 0 <= i < |rows| && 0 <= j < |rows[i].fields| ==> rows[i].start + End(rows[i].fields[j]) <= n
  }

  lemma EndFeedInside(f: Format, w: Text, s: Scan)
    requires Inv(f, w, s) && FieldsEndBy(s.rows, |w|) && InOrder(s.cur, s.pos - s.rowStart)
    ensures FieldsEndBy(EndFeed(f, w, s).rows, |w|)
  {
  }

  lemma ScannedInside(f: Format, w: Text, st: Reader)
    requires NonOverlapping(f)
    ensures FieldsEndBy(Scanned(f, w, st).rows, |w|) && FieldsEndBy(EndFeed(f, w, Scanned(f, w, st)).rows, |w|)
  {
    hide Run, EndFeed;
    ParseLayout(f, w, st.bomScanned, st.doubled);
    EndFeedInside(f, w, Scanned(f, w, st));
  }

  lemma FieldMoved(f: Format, d: Text, k: nat, w: Text, start: nat, x: RawField)
    requires k + |w| <= |d| && d[k..k + |w|] == w && start + End(x) <= |w|
    ensures FieldValue(f, w, start, x) == FieldValue(f, d, start + k, x)
  {
    var a, b := start + x.start, start + x.start + x.length;
    forall i | 0 <= i < b - a ensures w[a..b][i] == d[k + a..k + b][i] {
      assert w[a + i] == d[k..k + |w|][a + i];
    }
    assert w[a..b] == d[k + a..k + b];
    assert Slice(w, a, x.length) == Slice(d, start + k + x.start, x.length);
  }

  lemma {:induction false} RowMoved(f: Format, d: Text, k: nat, w: Text, start: nat, fields: seq<RawField>)
    requires k + |w| <= |d| && d[k..k + |w|] == w
    requires forall j :: 0 <= j < |fields| ==> start + End(fields[j]) <= |w|
    ensures RowValue(f, w, start, fields) == RowValue(f, d, start + k, fields)
    decreases |fields|
  {
    hide FieldValue;
    if fields != [] {
      RowMoved(f, d, k, w, start, fields[..|fields| - 1]);
      FieldMoved(f, d, k, w, start, fields[|fields| - 1]);
    }
  }

  /** The values a window gives are the values at its place in the file. */
  lemma {:induction false} ValuesMoved(f: Format, d: Text, k: nat, w: Text, rows: seq<RawRow>)
    requires k + |w| <= |d| && d[k..k + |w|] == w && FieldsEndBy(rows, |w|)
    ensures Values(f, w, rows) == Values(f, d, ShiftRows(rows, k))
    decreases |rows|
  {
    hide RowValue, End;
    if rows != [] {
      var n := |rows| - 1;
      ValuesMoved(f, d, k, w, rows[..n]);
      RowMoved(f, d, k, w, rows[n].start, rows[n].fields);
      assert ShiftRows(rows, k)[..n] == ShiftRows(rows[..n], k);
    }
  }

  lemma {:induction false} ValuesAppend(f: Format, d: Text, a: seq<RawRow>, b: seq<RawRow>)
    ensures Values(f, d, a + b) == Values(f, d, a) + Values(f, d, b)
    decreases |b|
  {
    hide RowValue;
    if b == [] {
      assert a + b == a;
    } else {
      var n := |b| - 1;
      ValuesAppend(f, d, a, b[..n]);
      assert (a + b)[..|a| + n] == a + b[..n];
    }
  }

  /** The values delivered are those of the rows found, at their places in the file. */
  lemma NextValues(f: Format, d: Text, bytes: nat, chunk: nat, st: Reader)
    requires NonOverlapping(f) && st.pos <= |d| && st.values == Values(f, d, st.rows)
    ensures var n := Next(f, d, bytes, chunk, st); n.values == Values(f, d, n.rows)
  {
    hide Values, ShiftRows, Run, EndFeed, FieldsEndBy;
    var w := Window(d, st.pos, bytes);
    var s := Scanned(f, w, st);
    ScannedInside(f, w, st);
    ValuesMoved(f, d, st.pos, w, s.rows);
    ValuesMoved(f, d, st.pos, w, EndFeed(f, w, s).rows);
    ValuesAppend(f, d, st.rows, ShiftRows(s.rows, st.pos));
    ValuesAppend(f, d, st.rows, ShiftRows(EndFeed(f, w, s).rows, st.pos));
  }

  lemma {:induction false} ReadAllValues(f: Format, d: Text, bytes: nat, chunk: nat, st: Reader)
    requires NonOverlapping(f) && st.pos <= |d| && st.values == Values(f, d, st.rows)
    ensures var r := ReadAll(f, d, bytes, chunk, st); r.Some? ==> r.value.values == Values(f, d, r.value.rows)
    decreases |d| - st.pos, !st.bomScanned
  {
    hide Next, Values;
    NextInside(f, d, bytes, chunk, st);
    NextValues(f, d, bytes, chunk, st);
    var n := Next(f, d, bytes, chunk, st);
    if !n.eof && !Stuck(st, n) { ReadAllValues(f, d, bytes, chunk, n); }
  }

  lemma {:induction false} CoveredRow(f: Format, d: Text, start: nat, a: seq<RawField>, b: seq<RawField>)
    requires CoversFields(a, b) && CleanFields(f, d, start, b)
    ensures RowValue(f, d, start, a) == RowValue(f, d, start, b)
    decreases |a|
  {
    hide FieldValue;
    if a != [] {
      var n := |a| - 1;
      CoveredRow(f, d, start, a[..n], b[..n]);
      assert CoversField(a[n], b[n]) && CleanField(f, d, start, b[n]);
      assert a[n] == b[n] || a[n] == b[n].(doubled := true);
    }
  }

  /** Where a needless flag changes nothing, rows at the same places have the same values. */
  lemma {:induction false} CoveredValues(f: Format, d: Text, a: seq<RawRow>, b: seq<RawRow>)
    requires CoversRows(a, b) && CleanRows(f, d, b)
    ensures Values(f, d, a) == Values(f, d, b)
    decreases |a|
  {
    hide RowValue, CoversFields, CleanFields;
    if a != [] {
      var n := |a| - 1;
      CoveredValues(f, d, a[..n], b[..n]);
      CoveredRow(f, d, b[n].start, a[n].fields, b[n].fields);
    }
  }

  lemma NoValues(f: Format, d: Text)
    ensures Values(f, d, []) == []
  {
  }

  function WithBom(bom: bool, d: Text): Text { if bom then BOM + d else d }

  /** Such a reading of an RFC 4180 document gives what the one piece reads of its
      lines, with or without a byte-order mark in front, whatever the format trims. */
  lemma WindowsReadTrimmed(f: Format, bytes: nat, chunk: nat, doc: Document, bom: bool)
    requires Format4180(f) && Valid(f, doc)
    requires if bom then doc == Document([], []) ==> f.delim != BOM[2] else !HasBom(Render(f, doc))
    requires var d := WithBom(bom, Render(f, doc));
      && 3 <= bytes && (|d| < chunk ==> |d| <= bytes)
      && RowsFit(f, d, bytes) && CutsWell(f, d, bytes, 0, BomLength(d))
    ensures var r := ReadAll(f, WithBom(bom, Render(f, doc)), bytes, chunk, FRESH_READER);
      r.Some? && r.value.values == RecordsRead(f, doc.records) + LastRead(f, doc.last)
  {
    hide Render, ReadAll, Values, CoversRows, CleanRows, RowsFit, RecordsRead, LastRead;
    hide CutsWell, EndFeed, Valid, NonOverlapping, HasBom, Run;
    var d := WithBom(bom, Render(f, doc));
    WindowsFindTheSame(f, d, bytes, chunk);
    NoValues(f, d);
    ReadAllValues(f, d, bytes, chunk, FRESH_READER);
    if bom { BomTrimmed(f, false, doc); } else { DocumentTrimmed(f, false, false, doc); }
    var r := ReadAll(f, d, bytes, chunk, FRESH_READER).value;
    CoveredValues(f, d, r.rows, EndFeed(f, d, OnePiece(f, d)).rows);
  }

  /** Where nothing is trimmed, it gives the values of its lines. */
  lemma WindowsReadDocuments(f: Format, bytes: nat, chunk: nat, doc: Document, bom: bool)
    requires Plain4180(f) && Valid(f, doc)
    requires if bom then doc == Document([], []) ==> f.delim != BOM[2] else !HasBom(Render(f, doc))
    requires var d := WithBom(bom, Render(f, doc));
      && 3 <= bytes && (|d| < chunk ==> |d| <= bytes)
      && RowsFit(f, d, bytes) && CutsWell(f, d, bytes, 0, BomLength(d))
    ensures var r := ReadAll(f, WithBom(bom, Render(f, doc)), bytes, chunk, FRESH_READER);
      r.Some? && r.value.values == Meaning(doc.records) + Delivered(doc.last)
  {
    hide Render, ReadAll, RowsFit, CutsWell, HasBom, RecordsRead, LastRead;
    WindowsReadTrimmed(f, bytes, chunk, doc, bom);
    RecordsReadPlain(f, doc.records);
    LastReadPlain(f, doc.last);
  }

  /** Of a file smaller than the constant only the first window is read, as a text of its own. */
  lemma SmallFile(f: Format, d: Text, bytes: nat, chunk: nat)
    requires NonOverlapping(f) && |d| < chunk
    ensures var r := ReadAll(f, d, bytes, chunk, FRESH_READER);
      r.Some? && r.value.values == ParseAll(f, d[..if bytes < |d| then bytes else |d|], false, false)
  {
    hide Run, EndFeed, Values;
    var w := Window(d, 0, bytes);
    assert w == d[..if bytes < |d| then bytes else |d|];
    assert Scanned(f, w, FRESH_READER) == Run(f, w, Begin(w, false, false));
  }
}
