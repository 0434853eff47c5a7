/** Files at the edge of what windows can read, one of each kind for every size of
    window (lib/csv-parser/csv.hpp, trim_utf8_bom and MmapParser::next). */
module CsvEndless {
  import opened Common
  import opened CsvScan
  import opened CsvDocument
  import opened CsvFaithful
  import CsvField
  import opened CsvWindow
  import opened CsvEnds
  import opened CsvStale
  import opened CsvParted

  /** A text that is plain up to n, and not there if it goes on. */
  lemma PlainStart(d: Text, n: nat, s: Scan)
    requires 0 < n <= |d| && (forall i :: 0 <= i < n ==> Plain(COMMAS, d[i], false)) && s == INITIAL
    requires n < |d| ==> !Plain(COMMAS, d[n], false)
    ensures Inv(COMMAS, d, s) && Step(COMMAS, d, s) == Some(s.(pos := n, start := 0, len := n))
  {
    assert SkipWs(COMMAS, d, 0) == 0;
    var p := SkipPlain(COMMAS, d, 0, false);
    assert p >= n && p <= n;
  }

  // ---------------------------------------------------------------- a row that is too long

  function Letters(n: nat): (d: Text)
    ensures |d| == n && forall i :: 0 <= i < n ==> d[i] == 97
  {
    seq(n, _ => 97)
  }

  /** A line longer than a window is never read. */
  lemma NeverEnds(bytes: nat, chunk: nat)
    requires 3 <= bytes && chunk <= bytes + 1
    ensures ReadAll(COMMAS, Letters(bytes + 1), bytes, chunk, FRESH_READER) == None
  {
    hide Run, Inv, ReadAll, Letters, LineEnds, WindowScan, Step;
    var d := Letters(bytes + 1);
    PlainStart(d, bytes + 1, INITIAL);
    var t := INITIAL.(pos := bytes + 1, start := 0, len := bytes + 1);
    CsvField.Turn(COMMAS, d, INITIAL);
    RunAtEnd(COMMAS, d, t);
    assert RowBegin(0, 0, []) == INITIAL;
    EndsExactly(COMMAS, d, bytes, chunk);
  }

  // ---------------------------------------------------------------- a line end that is too long

  function LongLineEnd(n: nat): (d: Text)
    ensures |d| == n + 2 && (forall i :: 0 <= i < n ==> d[i] == 97) && d[n] == CR && d[n + 1] == LF
  {
    seq(n, _ => 97) + [CR, LF]
  }

  /** A line that is too long by the second character of its line end is read. */
  lemma EndsWithoutFitting(bytes: nat, chunk: nat)
    requires 3 <= bytes && chunk <= bytes + 1
    ensures var d := LongLineEnd(bytes - 1);
      ReadAll(COMMAS, d, bytes, chunk, FRESH_READER).Some? && !RowsFit(COMMAS, d, bytes)
  {
    hide Run, Inv, ReadAll, LongLineEnd, RowsReach, WindowScan, Step, Reach;
    var n := bytes - 1;
    var d := LongLineEnd(n);
    PlainStart(d, n, INITIAL);
    var t := INITIAL.(pos := n, start := 0, len := n);
    CsvField.Turn(COMMAS, d, INITIAL);
    LineEndTurn(d, n, t);
    var u := RowBegin(n + 2, 0, [FirstRow(n)]);
    CsvField.Turn(COMMAS, d, t);
    RunAtEnd(COMMAS, d, u);
    ReachTurn(COMMAS, d, INITIAL, bytes);
    ReachTurn(COMMAS, d, t, bytes);
    ReachEnd(d, u, bytes);
    assert RowBegin(0, 0, []) == INITIAL;
    ReachIsRowsReach(COMMAS, d, bytes, 0);
    EndsExactly(COMMAS, d, bytes, chunk);
    OneLongRow(d, n);
  }

  lemma LineEndTurn(d: Text, n: nat, t: Scan)
    requires |d| == n + 2 && n > 0 && d[n] == CR && d[n + 1] == LF && t == INITIAL.(pos := n, start := 0, len := n)
    requires Inv(COMMAS, d, t)
    ensures CompoundFlag(COMMAS, d[n], false) == NEWLINE
    ensures Step(COMMAS, d, t) == Some(RowBegin(n + 2, 0, [FirstRow(n)]))
  {
    assert [] + [RawField(0, n, false)] == [RawField(0, n, false)] && [] + [FirstRow(n)] == [FirstRow(n)];
  }

  lemma ReachEnd(d: Text, s: Scan, bytes: nat)
    requires Inv(COMMAS, d, s) && s.pos == s.rowStart == |d|
    ensures Reach(COMMAS, d, s, bytes)
  {
  }

  lemma OneLongRow(d: Text, n: nat)
    requires Inv(COMMAS, d, INITIAL) && !HasBom(d) && n > 0
    requires Run(COMMAS, d, INITIAL) == RowBegin(n + 2, 0, [FirstRow(n)])
    ensures !RowsFit(COMMAS, d, n + 1)
  {
    hide Run, Inv;
    assert Begin(d, false, false) == INITIAL;
    var r := OnePiece(COMMAS, d);
    assert NextStart(r.rows, 0, r.rowStart) - r.rows[0].start == n + 2;
  }

  // ---------------------------------------------------------------- a byte-order mark read as text

  /** A byte-order mark, a quote that nothing closes, a line feed, and n letters. */
  function MarkedFile(n: nat): (d: Text)
    ensures |d| == n + 5 && d[..3] == BOM && HasBom(d) && d[3] == 34 && d[4] == LF
    ensures forall i :: 5 <= i < |d| ==> d[i] == 97
  {
    BOM + [34, LF] + seq(n, _ => 97)
  }

  /** In quotes everything to the end is one field. */
  lemma QuotedToEnd(w: Text)
    requires |w| >= 5 && HasBom(w) && w[3] == 34 && w[4] == LF && forall i :: 5 <= i < |w| ==> w[i] == 97
    ensures Inv(COMMAS, w, RowBegin(0, 3, [])) && Run(COMMAS, w, RowBegin(0, 3, [])).rowStart == 0
  {
    hide Run;
    var s := RowBegin(0, 3, []);
    var t := s.(pos := 4, start := 4, quoted := true);
    assert Step(COMMAS, w, s) == Some(t);
    CsvField.Turn(COMMAS, w, s);
    assert SkipWs(COMMAS, w, 4) == 4;
    assert forall i :: 4 <= i < |w| ==> Plain(COMMAS, w[i], true);
    assert SkipPlain(COMMAS, w, 4, true) == |w|;
    var u := Step(COMMAS, w, t).value;
    CsvField.Turn(COMMAS, w, t);
    RunAtEnd(COMMAS, w, u);
  }

  /** With the mark as text the quote is in the middle of a field, and the line feed
      ends a row. */
  lemma MarkAsText(n: nat, bytes: nat)
    requires n + 5 == bytes + 1
    ensures var d := MarkedFile(n); Inv(COMMAS, d, INITIAL) && (5 <= bytes ==> Reach(COMMAS, d, INITIAL, bytes))
  {
    hide Reach, Step, Inv;
    var d := MarkedFile(n);
    MarkText(n);
    PlainStart(d, 3, INITIAL);
    var t := INITIAL.(pos := 3, start := 0, len := 3);
    ReachTurn(COMMAS, d, INITIAL, bytes);
    MarkTurns(n);
    var u := t.(pos := 4, len := 4);
    ReachTurn(COMMAS, d, t, bytes);
    ReachTurn(COMMAS, d, u, bytes);
    var v := Step(COMMAS, d, u).value;
    RowBeginInv(COMMAS, d, 5, 0, v.rows);
    ReachLetters(n, bytes, v);
  }

  lemma MarkText(n: nat)
    ensures var d := MarkedFile(n);
      (forall i :: 0 <= i < 3 ==> Plain(COMMAS, d[i], false)) && !Plain(COMMAS, d[3], false)
  {
    var d := MarkedFile(n);
    assert d[0] == d[..3][0] && d[1] == d[..3][1] && d[2] == d[..3][2];
  }

  predicate BeginsRow(s: Option<Scan>, k: nat) {
    s.Some? && s.value == RowBegin(k, 0, s.value.rows)
  }

  lemma MarkTurns(n: nat)
    ensures var d, t := MarkedFile(n), INITIAL.(pos := 3, start := 0, len := 3); var u := t.(pos := 4, len := 4);
      && CompoundFlag(COMMAS, d[3], false) != NEWLINE && (Inv(COMMAS, d, t) ==> Step(COMMAS, d, t) == Some(u))
      && CompoundFlag(COMMAS, d[4], false) == NEWLINE && (Inv(COMMAS, d, u) ==> BeginsRow(Step(COMMAS, d, u), 5))
  {
  }

  lemma ReachLetters(n: nat, bytes: nat, v: Scan)
    requires v == RowBegin(5, 0, v.rows) && Inv(COMMAS, MarkedFile(n), v) && n <= bytes
    ensures Reach(COMMAS, MarkedFile(n), v, bytes)
  {
    hide Reach, MarkedFile, Inv;
    var d := MarkedFile(n);
    ReachAfter(COMMAS, d, 0, 5, v.rows, bytes);
    assert d[0..] == d;
    AllReach(COMMAS, d[5..], bytes, RowBegin(0, 0, []));
  }

  /** For every window of five bytes or more there is a file whose first window is
      read twice: reading ends, but takes the byte-order mark for text, and finds
      other rows than the one piece, whose only row is too long. */
  lemma MarkReadTwice(bytes: nat, chunk: nat)
    requires 5 <= bytes && chunk <= bytes + 1
    ensures var d := MarkedFile(bytes - 4); var r := ReadAll(COMMAS, d, bytes, chunk, FRESH_READER);
      && ReadTwice(COMMAS, d, bytes) && !RowsReach(COMMAS, d, bytes, BomLength(d))
      && r.Some? && !CoversRows(r.value.rows, EndFeed(COMMAS, d, OnePiece(COMMAS, d)).rows)
  {
    hide Run, Inv, ReadAll, MarkedFile, RowsReach, Reach, EndFeed, CoversRows;
    var n := bytes - 4;
    var d := MarkedFile(n);
    var w := Window(d, 0, bytes);
    assert w == d[..bytes];
    QuotedToEnd(w);
    MarkAsText(n, bytes);
    assert RowBegin(0, 0, []) == INITIAL;
    ReachIsRowsReach(COMMAS, d, bytes, 0);
    EndsExactly(COMMAS, d, bytes, chunk);
    OneUnended(d, bytes);
    ReadTwiceDiffers(COMMAS, d, bytes, chunk);
  }

  lemma OneUnended(d: Text, bytes: nat)
    requires |d| >= 5 && |d| > bytes && HasBom(d) && d[3] == 34 && d[4] == LF && forall i :: 5 <= i < |d| ==> d[i] == 97
    ensures !RowsReach(COMMAS, d, bytes, 3)
  {
    hide Run, LineEnds, HasBom;
    QuotedToEnd(d);
  }
}
