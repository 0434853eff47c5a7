/** Files that are not RFC 4180 documents, one for every size of window, whose windows
    deliver another value than the one piece, because the doubled-quote flag outlives
    a window (lib/csv-parser/csv.hpp, MmapParser::next). */
module CsvStale {
  import opened Common
  import opened CsvScan
  import opened CsvDocument
  import CsvField
  import opened CsvWindow
  import opened CsvFlag

  /** a"b","""x" */
  const ROW: Text := [97, 34, 98, 34, 44, 34, 34, 34, 120, 34]

  /** A line of n plain characters, and then the row with a line end. */
  function StaleFile(n: nat): (d: Text)
    ensures |d| == n + 12
  {
    seq(n, _ => 97) + [LF] + ROW + [LF]
  }

  function FirstRow(n: nat): RawRow { RawRow(0, [RawField(0, n, false)]) }

  /** The scanner's states in the second row, from its start at k, with a flag it began with. */
  function Second(k: nat, rows: seq<RawRow>, flag: bool, turn: nat): Scan {
    var s := Scan(k, k, -1, 0, flag, false, [], rows);
    var u := Scan(k + 5, k, -1, 0, false, false, [RawField(0, 4, flag)], rows);
    match turn
    case 0 => s
    case 1 => s.(pos := k + 1, start := 0, len := 1)
    case 2 => s.(pos := k + 2, start := 0, len := 2)
    case 3 => s.(pos := k + 3, start := 0, len := 3)
    case 4 => s.(pos := k + 4, start := 0, len := 4)
    case 5 => u
    case 6 => u.(pos := k + 6, start := 6, quoted := true)
    case 7 => u.(pos := k + 8, start := 6, quoted := true, len := 2, doubled := true)
    case 8 => u.(pos := k + 9, start := 6, quoted := true, len := 3, doubled := true)
    case _ => u.(pos := k + 10, start := 6, len := 3, doubled := true)
  }

  /** The second row stands at k of d, up to the quote that closes it. */
  predicate RowAt(d: Text, k: nat) {
    k + 10 <= |d| && d[k..k + 10] == ROW
  }

  lemma Characters(d: Text, k: nat)
    requires RowAt(d, k)
    ensures d[k] == 97 && d[k + 1] == 34 && d[k + 2] == 98 && d[k + 3] == 34 && d[k + 4] == 44
    ensures d[k + 5] == 34 && d[k + 6] == 34 && d[k + 7] == 34 && d[k + 8] == 120 && d[k + 9] == 34
  {
    var r := d[k..k + 10];
    assert r == ROW;
    assert r[0] == d[k] && r[1] == d[k + 1] && r[2] == d[k + 2] && r[3] == d[k + 3] && r[4] == d[k + 4];
    assert r[5] == d[k + 5] && r[6] == d[k + 6] && r[7] == d[k + 7] && r[8] == d[k + 8] && r[9] == d[k + 9];
  }

  lemma PlainTo(d: Text, pos: nat, len: nat, quoted: bool)
    requires pos + 1 < |d| && len <= pos + 1 && Plain(COMMAS, d[pos], quoted) && !Plain(COMMAS, d[pos + 1], quoted)
    ensures SkipWs(COMMAS, d, pos) == pos && SkipPlain(COMMAS, d, pos, quoted) == pos + 1
    ensures TrimBack(COMMAS, d, pos + 1, len) == len
  {
  }

  lemma SecondInv(d: Text, k: nat, rows: seq<RawRow>, flag: bool, turn: nat)
    requires RowAt(d, k) && turn <= 9
    ensures Inv(COMMAS, d, Second(k, rows, flag, turn))
  {
  }

  lemma FirstFieldStep(d: Text, k: nat, rows: seq<RawRow>, flag: bool, turn: nat)
    requires RowAt(d, k) && turn < 5 && Inv(COMMAS, d, Second(k, rows, flag, turn))
    ensures Step(COMMAS, d, Second(k, rows, flag, turn)) == Some(Second(k, rows, flag, turn + 1))
  {
    hide Inv, RowAt, SkipWs, SkipPlain, TrimBack, PushRow;
    Characters(d, k);
    InsideFile(d, k);
    if turn == 0 {
      PlainTo(d, k, 1, false);
    } else if turn == 2 {
      PlainTo(d, k + 2, 3, false);
    } else if turn == 4 {
      assert [] + [RawField(0, 4, flag)] == [RawField(0, 4, flag)];
    }
  }

  lemma LastFieldStep(d: Text, k: nat, rows: seq<RawRow>, flag: bool, turn: nat)
    requires RowAt(d, k) && 5 <= turn < 8 && Inv(COMMAS, d, Second(k, rows, flag, turn))
    ensures Step(COMMAS, d, Second(k, rows, flag, turn)) == Some(Second(k, rows, flag, turn + 1))
  {
    hide Inv, RowAt, SkipWs, SkipPlain, TrimBack, PushRow, PushField;
    Characters(d, k);
    InsideFile(d, k);
    if turn == 7 { PlainTo(d, k + 8, 3, true); }
  }

  lemma InsideFile(d: Text, k: nat)
    requires RowAt(d, k)
    ensures k + 10 <= |d|
  {
  }

  lemma SecondTurn(d: Text, k: nat, rows: seq<RawRow>, flag: bool, turn: nat)
    requires RowAt(d, k) && turn < 8
    ensures Inv(COMMAS, d, Second(k, rows, flag, turn)) && Inv(COMMAS, d, Second(k, rows, flag, turn + 1))
    ensures Run(COMMAS, d, Second(k, rows, flag, turn)) == Run(COMMAS, d, Second(k, rows, flag, turn + 1))
  {
    hide Run, Inv, Second, Step, RowAt;
    SecondInv(d, k, rows, flag, turn);
    if turn < 5 { FirstFieldStep(d, k, rows, flag, turn); } else { LastFieldStep(d, k, rows, flag, turn); }
    SecondBefore(k, rows, flag, turn);
    InsideFile(d, k);
    CsvField.Turn(COMMAS, d, Second(k, rows, flag, turn));
  }

  lemma SecondBefore(k: nat, rows: seq<RawRow>, flag: bool, turn: nat)
    requires turn < 9
    ensures Second(k, rows, flag, turn).pos < k + 10
  {
  }

  lemma {:induction false} SecondTurns(d: Text, k: nat, rows: seq<RawRow>, flag: bool, turn: nat)
    requires RowAt(d, k) && turn <= 8
    ensures Inv(COMMAS, d, Second(k, rows, flag, 0)) && Inv(COMMAS, d, Second(k, rows, flag, turn))
    ensures Run(COMMAS, d, Second(k, rows, flag, 0)) == Run(COMMAS, d, Second(k, rows, flag, turn))
  {
    hide Run, Inv, Second;
    if turn == 0 {
      SecondTurn(d, k, rows, flag, 0);
    } else {
      SecondTurns(d, k, rows, flag, turn - 1);
      SecondTurn(d, k, rows, flag, turn - 1);
    }
  }

  function SecondRow(k: nat, flag: bool): RawRow {
    RawRow(k, [RawField(0, 4, flag), RawField(6, 3, true)])
  }

  /** After the row and its line end. */
  function SecondDone(k: nat, rows: seq<RawRow>, flag: bool): Scan {
    Scan(k + 11, k + 11, -1, 0, false, false, [], rows + [SecondRow(k, flag)])
  }

  /** The row scanned to the end of a window that stops at its last quote. */
  lemma SecondStops(d: Text, k: nat, rows: seq<RawRow>, flag: bool)
    requires RowAt(d, k) && |d| == k + 10
    ensures Inv(COMMAS, d, Second(k, rows, flag, 0))
    ensures Run(COMMAS, d, Second(k, rows, flag, 0)) == Second(k, rows, flag, 8)
  {
    hide RowAt, Inv;
    SecondTurns(d, k, rows, flag, 8);
    Characters(d, k);
    assert Step(COMMAS, d, Second(k, rows, flag, 8)) == None;
  }

  /** The row and its line end scanned to the end of the text. */
  lemma SecondEnds(d: Text, k: nat, rows: seq<RawRow>, flag: bool)
    requires RowAt(d, k) && |d| == k + 11 && d[k + 10] == LF
    ensures Inv(COMMAS, d, Second(k, rows, flag, 0))
    ensures Run(COMMAS, d, Second(k, rows, flag, 0)) == SecondDone(k, rows, flag)
  {
    hide RowAt, Inv, Run, Step, Second;
    SecondTurns(d, k, rows, flag, 8);
    SecondInv(d, k, rows, flag, 9);
    LastSteps(d, k, rows, flag);
    CsvField.Turn(COMMAS, d, Second(k, rows, flag, 8));
    CsvField.Turn(COMMAS, d, Second(k, rows, flag, 9));
    RunAtEnd(COMMAS, d, SecondDone(k, rows, flag));
  }

  lemma LastSteps(d: Text, k: nat, rows: seq<RawRow>, flag: bool)
    requires RowAt(d, k) && |d| == k + 11 && d[k + 10] == LF
    requires Inv(COMMAS, d, Second(k, rows, flag, 8)) && Inv(COMMAS, d, Second(k, rows, flag, 9))
    ensures Second(k, rows, flag, 8).pos < |d| && Second(k, rows, flag, 9).pos < |d|
    ensures Step(COMMAS, d, Second(k, rows, flag, 8)) == Some(Second(k, rows, flag, 9))
    ensures Step(COMMAS, d, Second(k, rows, flag, 9)) == Some(SecondDone(k, rows, flag))
  {
    hide RowAt, Inv;
    Characters(d, k);
    assert [RawField(0, 4, flag)] + [RawField(6, 3, true)] == [RawField(0, 4, flag), RawField(6, 3, true)];
  }

  // ---------------------------------------------------------------- the first row

  /** The text begins with n plain characters, a line feed and the row. */
  predicate LineAt(d: Text, n: nat) {
    && n + 2 <= |d| && d[n] == LF && d[n + 1] == 97 && (forall i :: 0 <= i < n ==> d[i] == 97)
  }

  lemma PlainLine(d: Text, n: nat)
    requires LineAt(d, n) && n > 0
    ensures Inv(COMMAS, d, INITIAL) && Step(COMMAS, d, INITIAL) == Some(INITIAL.(pos := n, start := 0, len := n))
  {
    assert SkipWs(COMMAS, d, 0) == 0;
    var p := SkipPlain(COMMAS, d, 0, false);
    assert p <= n by { assert !Plain(COMMAS, d[n], false); }
    assert p >= n by { assert forall i :: 0 <= i < n ==> Plain(COMMAS, d[i], false); }
  }

  lemma LineFeedTurn(d: Text, n: nat, s: Scan)
    requires LineAt(d, n) && s == INITIAL.(pos := n, start := s.start, len := n)
    requires (n == 0 && s.start == -1) || (n > 0 && s.start == 0)
    ensures Inv(COMMAS, d, s) && Step(COMMAS, d, s) == Some(Second(n + 1, [FirstRow(n)], false, 0))
  {
    assert [] + [RawField(0, n, false)] == [RawField(0, n, false)] && [] + [FirstRow(n)] == [FirstRow(n)];
  }

  /** The line at the front of the text. */
  lemma FirstEnds(d: Text, n: nat)
    requires LineAt(d, n)
    ensures !HasBom(d) && Inv(COMMAS, d, INITIAL) && Inv(COMMAS, d, Second(n + 1, [FirstRow(n)], false, 0))
    ensures Run(COMMAS, d, INITIAL) == Run(COMMAS, d, Second(n + 1, [FirstRow(n)], false, 0))
  {
    hide Run, Step, Second;
    if n > 0 {
      PlainLine(d, n);
      CsvField.Turn(COMMAS, d, INITIAL);
      LineFeedTurn(d, n, INITIAL.(pos := n, start := 0, len := n));
      CsvField.Turn(COMMAS, d, INITIAL.(pos := n, start := 0, len := n));
    } else {
      LineFeedTurn(d, n, INITIAL);
      CsvField.Turn(COMMAS, d, INITIAL);
    }
  }

  // ---------------------------------------------------------------- the file

  /** The line is at the front of the file and of its first window, the row after
      it in both, and at the front of the second window. */
  lemma FileRow(n: nat)
    ensures var d := StaleFile(n);
      && LineAt(d, n) && LineAt(d[..n + 11], n)
      && RowAt(d, n + 1) && RowAt(d[..n + 11], n + 1) && RowAt(d[n + 1..], 0)
      && d[n + 11] == LF && d[n + 1..][10] == LF && d[n + 10] == 34
  {
    var d := StaleFile(n);
    assert d[n + 1..n + 11] == ROW;
    assert d[..n + 11][n + 1..n + 11] == ROW;
    assert d[n + 1..][0..10] == ROW;
  }

  lemma OnePieceRows(n: nat)
    ensures OnePiece(COMMAS, StaleFile(n)) == SecondDone(n + 1, [FirstRow(n)], false)
  {
    hide Run, Inv, Second, RowAt, LineAt, StaleFile;
    FileRow(n);
    FirstEnds(StaleFile(n), n);
    SecondEnds(StaleFile(n), n + 1, [FirstRow(n)], false);
  }

  /** The first window, which holds all but the last line end, ends with the flag set. */
  lemma FirstWindow(n: nat)
    ensures WindowScan(COMMAS, StaleFile(n), n + 11, 0, 0) == Second(n + 1, [FirstRow(n)], false, 8)
  {
    hide Run, Inv, Second, RowAt, LineAt, StaleFile;
    FileRow(n);
    var w := Window(StaleFile(n), 0, n + 11);
    assert w == StaleFile(n)[..n + 11];
    assert RowBegin(0, 0, []) == INITIAL;
    FirstEnds(w, n);
    SecondStops(w, n + 1, [FirstRow(n)], false);
  }

  /** The field at the front of the second is not flagged by itself, and has two quotes. */
  lemma SecondWindow(n: nat)
    ensures !FirstHarmless(COMMAS, StaleFile(n)[n + 1..], 0)
  {
    hide Run, Inv, RowAt, StaleFile, QuoteCount, Second;
    FileRow(n);
    var u := StaleFile(n)[n + 1..];
    assert RowBegin(0, 0, []) == Second(0, [], false, 0) by { SecondBegin(); }
    SecondEnds(u, 0, [], false);
    assert [] + [SecondRow(0, false)] == [SecondRow(0, false)];
    Characters(u, 0);
    InsideFile(u, 0);
    TwoQuotes(u);
  }

  lemma SecondBegin()
    ensures RowBegin(0, 0, []) == Second(0, [], false, 0)
  {
  }

  lemma TwoQuotes(u: Text)
    requires |u| >= 4 && u[0] == 97 && u[1] == 34 && u[2] == 98 && u[3] == 34
    ensures QuoteCount(COMMAS, Slice(u, 0, 4)) == 2
  {
    var raw := Slice(u, 0, 4);
    assert raw == [97, 34, 98, 34];
    assert raw[1..] == [34, 98, 34] && raw[1..][1..] == [98, 34] && raw[1..][1..][1..] == [34];
    assert QuoteCount(COMMAS, [98, 34]) == QuoteCount(COMMAS, [34]) == 1;
  }

  /** For every size of window there is a file whose rows fit in a window, with no
      window ending between newline characters, of which the second window delivers
      a"b for the field a"b", which the one piece delivers as it is. */
  lemma StaleFlag(bytes: nat, chunk: nat)
    requires 11 <= bytes && chunk <= bytes + 1
    ensures var d := StaleFile(bytes - 11);
      && (|d| < chunk ==> |d| <= bytes) && RowsFit(COMMAS, d, bytes) && CutsWell(COMMAS, d, bytes, 0, BomLength(d))
      && (var r := ReadAll(COMMAS, d, bytes, chunk, FRESH_READER);
          r.Some? && r.value.values != ParseAll(COMMAS, d, false, false))
  {
    hide Run, Inv, Values, EndFeed, OnePiece, Begin, WindowScan, FirstHarmless, ReadAll, StaleFile;
    var n := bytes - 11;
    var d := StaleFile(n);
    FileRow(n);
    assert BomLength(d) == 0 by { FirstEnds(d, n); }
    OnePieceRows(n);
    FirstWindow(n);
    SecondWindow(n);
    RowBeginInv(COMMAS, d, 0, 0, []);
    NotParted(COMMAS, d, bytes, RowBegin(0, 0, []));
    assert d[0..] == d;
    WindowValuesExactly(COMMAS, d, bytes, chunk);
  }
}
