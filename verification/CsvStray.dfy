/** Quotes where RFC 4180 has none (lib/csv-parser/csv.hpp, parse): inside a field
    that does not begin with one, and undoubled inside a quoted field. */
module CsvStray {
  import opened Common
  import opened CsvScan
  import opened CsvDocument
  import opened CsvField

  predicate IsQuote(f: Format, ch: Char) { f.quote == Some(ch) }

  /** Neither a delimiter nor a newline character. */
  predicate Inner(f: Format, ch: Char) { Flag(f, ch) < DELIMITER }

  /** A text of one field that does not begin with a quote. */
  predicate StrayBare(f: Format, t: Text) {
    t != [] && !IsQuote(f, t[0]) && forall i :: 0 <= i < |t| ==> Inner(f, t[i])
  }

  /** Every quote of the text is followed by a character that is neither a quote nor
      ends a field. */
  predicate StrayQuotes(f: Format, t: Text) {
    forall i :: 0 <= i < |t| && IsQuote(f, t[i]) ==> i + 1 < |t| && Flag(f, t[i + 1]) == NOT_SPECIAL
  }

  /** The scanner inside a text that began at `start`. */
  function Inside(start: nat, pos: nat, quoted: bool): Scan
    requires start <= pos
  {
    Scan(pos, 0, start, pos - start, false, quoted, [], [])
  }

  lemma {:induction false} BareOn(f: Format, t: Text, pos: nat)
    requires Plain4180(f) && StrayBare(f, t) && 0 < pos <= |t|
    ensures Inv(f, t, Inside(0, pos, false)) && Run(f, t, Inside(0, pos, false)) == Inside(0, |t|, false)
    decreases |t| - pos
  {
    hide Run;
    var s := Inside(0, pos, false);
    if pos < |t| {
      assert Inner(f, t[pos]);
      var p := if IsQuote(f, t[pos]) then pos + 1 else SkipPlain(f, t, pos, false);
      assert Step(f, t, s) == Some(Inside(0, p, false));
      Turn(f, t, s);
      BareOn(f, t, p);
    } else {
      Stops(f, t, s);
    }
  }

  lemma Stops(f: Format, t: Text, s: Scan)
    requires NonOverlapping(f) && Inv(f, t, s) && s.pos == |t|
    ensures Run(f, t, s) == s
  {
  }

  lemma BareBegins(f: Format, t: Text)
    requires Plain4180(f) && StrayBare(f, t)
    ensures Inv(f, t, INITIAL) && Run(f, t, INITIAL) == Inside(0, |t|, false)
  {
    hide Run;
    assert Inner(f, t[0]);
    var p := SkipPlain(f, t, 0, false);
    assert Step(f, t, INITIAL) == Some(Inside(0, p, false));
    Turn(f, t, INITIAL);
    BareOn(f, t, p);
  }

  lemma {:induction false} QuotedOn(f: Format, t: Text, d: Text, pos: nat)
    requires Plain4180(f) && t != [] && StrayQuotes(f, t) && d == [f.quote.value] + t + [f.quote.value] && 1 <= pos <= |t| + 1
    ensures Inv(f, d, Inside(1, pos, true)) && Run(f, d, Inside(1, pos, true)) == Inside(1, |t| + 1, true)
    decreases |d| - pos
  {
    hide Run;
    var s := Inside(1, pos, true);
    if pos <= |t| {
      assert d[pos] == t[pos - 1] && (pos < |t| ==> d[pos + 1] == t[pos]);
      var p := if IsQuote(f, d[pos]) then pos + 1 else SkipPlain(f, d, pos, true);
      assert p <= |t| + 1 by { assert !Plain(f, d[|t| + 1], true); }
      assert Step(f, d, s) == Some(Inside(1, p, true));
      Turn(f, d, s);
      QuotedOn(f, t, d, p);
    } else {
      LastQuote(f, d, s);
    }
  }

  lemma LastQuote(f: Format, d: Text, s: Scan)
    requires Plain4180(f) && Inv(f, d, s) && s.quoted && s.pos + 1 == |d| && IsQuote(f, d[s.pos])
    ensures Run(f, d, s) == s
  {
  }

  lemma QuotedBegins(f: Format, t: Text)
    requires Plain4180(f) && t != [] && StrayQuotes(f, t)
    ensures var d := [f.quote.value] + t + [f.quote.value];
      Inv(f, d, INITIAL) && Run(f, d, INITIAL) == Inside(1, |t| + 1, true)
  {
    hide Run;
    var d := [f.quote.value] + t + [f.quote.value];
    assert d[0] == f.quote.value;
    assert Step(f, d, INITIAL) == Some(Inside(1, 1, true));
    Turn(f, d, INITIAL);
    QuotedOn(f, t, d, 1);
  }

  /** The one field that is recorded has the text as its value. */
  lemma OneValue(f: Format, t: Text, d: Text, s: Scan)
    requires f.quote.Some? && t != [] && s.rowStart == 0 && s.start >= 0 && s.len == |t| && s.cur == [] && s.rows == [] && !s.doubled
    requires s.start + |t| <= |d| && d[s.start..s.start + |t|] == t
    requires Flag(f, d[|d| - 1]) != DELIMITER
    ensures Values(f, d, EndFeed(f, d, s).rows) == [[t]]
  {
    var x := RawField(s.start, |t|, false);
    var row := RawRow(0, [x]);
    assert EndFeed(f, d, s).rows == [] + [RawRow(0, [] + [x])] == [row];
    assert FieldValue(f, d, 0, x) == t;
    assert [x][..0] == [] && RowValue(f, d, 0, []) == [];
    assert RowValue(f, d, 0, [x]) == [] + [t] == [t];
    assert [row][..0] == [] && Values(f, d, []) == [];
    assert Values(f, d, [row]) == [] + [[t]] == [[t]];
  }

  /** A field that does not begin with a quote is read with the quotes that are in it. */
  lemma BareQuotesKept(f: Format, t: Text)
    requires Plain4180(f) && StrayBare(f, t)
    ensures ParseAll(f, t, true, false) == [[t]]
  {
    hide Run, Values, EndFeed;
    BareBegins(f, t);
    assert Begin(t, true, false) == INITIAL;
    assert t[0..|t|] == t && Inner(f, t[|t| - 1]);
    OneValue(f, t, t, Inside(0, |t|, false));
  }

  /** A quoted field is read with the quotes in it that are neither doubled nor before
      the end of a field, and with delimiters and line ends. */
  lemma LoneQuotesKept(f: Format, t: Text)
    requires Plain4180(f) && t != [] && StrayQuotes(f, t)
    ensures ParseAll(f, [f.quote.value] + t + [f.quote.value], true, false) == [[t]]
  {
    hide Run, Values, EndFeed;
    var d := [f.quote.value] + t + [f.quote.value];
    QuotedBegins(f, t);
    assert Begin(d, true, false) == INITIAL;
    assert d[1..1 + |t|] == t;
    OneValue(f, t, d, Inside(1, |t| + 1, true));
  }
}
