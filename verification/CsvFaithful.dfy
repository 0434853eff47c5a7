/** The scanner reads every RFC 4180 document as the rows it means, but for what the
    format trims. */
module CsvFaithful {
  import opened Common
  import opened CsvScan
  import opened CsvDocument
  import opened CsvField

  // ---------------------------------------------------------------- a line of fields

  /** From s the scanner gets to r, which has pushed all fields of a line but the
      last, and holds the last one; the line ends at e. */
  ghost predicate ReadsLine(f: Format, d: Text, s: Scan, r: Scan, xs: seq<Field>, e: nat)
    requires NonOverlapping(f) && f.quote.Some? && Inv(f, d, s) && xs != []
  {
    var n := |xs| - 1;
    && Inv(f, d, r) && Run(f, d, s) == Run(f, d, r)
    && r.rowStart == s.rowStart && r.rows == s.rows && |r.cur| == |s.cur| + n
    && RowValue(f, d, r.rowStart, r.cur) == RowValue(f, d, s.rowStart, s.cur) + TextsRead(f, xs[..n])
    && FieldValue(f, d, r.rowStart, Pending(r)) == FieldRead(f, xs[n]) && (r.len > 0 <==> FieldRead(f, xs[n]) != [])
    && (CleanFields(f, d, s.rowStart, s.cur) ==> CleanFields(f, d, r.rowStart, r.cur + [Pending(r)]))
    && (e < |d| ==> r.pos == e && !r.quoted)
    && (e >= |d| ==> Run(f, d, r) == r)
  }

  lemma DelimiterTurn(f: Format, d: Text, s: Scan)
    requires Format4180(f) && Inv(f, d, s) && !s.quoted && s.pos < |d| && d[s.pos] == f.delim
    ensures Turns(f, d, s, PushField(s).(pos := s.pos + 1))
  {
    hide Run;
    Turn(f, d, s);
  }

  lemma RowValueStep(f: Format, d: Text, rowStart: nat, cur: seq<RawField>, x: RawField)
    ensures RowValue(f, d, rowStart, cur + [x]) == RowValue(f, d, rowStart, cur) + [FieldValue(f, d, rowStart, x)]
  {
    assert (cur + [x])[..|cur|] == cur;
  }

  lemma {:induction false} LineOfFields(f: Format, d: Text, s: Scan, xs: seq<Field>) returns (r: Scan)
    requires Format4180(f) && Inv(f, d, s) && Fresh(s) && xs != [] && ValidFields(f, xs)
    requires At(d, s.pos, RenderFields(f, xs)) && EndsAt(f, d, s.pos + |RenderFields(f, xs)|)
    ensures ReadsLine(f, d, s, r, xs, s.pos + |RenderFields(f, xs)|)
    decreases |xs|
  {
    hide Run, Inv, At, FieldValue, RowValue, RenderField, FieldRead, TextsRead;
    if |xs| == 1 {
      r := OneField(f, d, s, xs[0]);
      NoTextsRead(f, xs);
    } else {
      FieldThenRest(f, d, s.pos, xs);
      var e := s.pos + |RenderField(f, xs[0])|;
      var v := OneField(f, d, s, xs[0]);
      DelimiterTurn(f, d, v);
      var u := PushField(v).(pos := e + 1);
      RowValueStep(f, d, s.rowStart, s.cur, Pending(v));
      r := LineOfFields(f, d, u, xs[1..]);
      TextsStep(f, xs, |xs| - 1);
    }
  }

  lemma FieldThenRest(f: Format, d: Text, pos: nat, xs: seq<Field>)
    requires Format4180(f) && |xs| > 1 && At(d, pos, RenderFields(f, xs))
    ensures var e := pos + |RenderField(f, xs[0])|;
      && At(d, pos, RenderField(f, xs[0])) && e < |d| && d[e] == f.delim
      && At(d, e + 1, RenderFields(f, xs[1..]))
      && |RenderFields(f, xs)| == |RenderField(f, xs[0])| + 1 + |RenderFields(f, xs[1..])|
      && EndsAt(f, d, e)
  {
    hide At, RenderField;
    var a := RenderField(f, xs[0]);
    var b := RenderFields(f, xs[1..]);
    assert RenderFields(f, xs) == a + ([f.delim] + b);
    AtAppend(d, pos, a, [f.delim] + b);
    AtAppend(d, pos + |a|, [f.delim], b);
    AtIndex(d, pos + |a|, [f.delim], 0);
  }

  lemma TextsStep(f: Format, xs: seq<Field>, n: nat)
    requires f.quote.Some? && 0 < n <= |xs|
    ensures TextsRead(f, xs[..n]) == [FieldRead(f, xs[0])] + TextsRead(f, xs[1..][..n - 1])
  {
    hide FieldRead;
  }

  lemma NoTextsRead(f: Format, xs: seq<Field>)
    requires f.quote.Some?
    ensures TextsRead(f, xs[..0]) == []
  {
  }

  // ---------------------------------------------------------------- lines

  /** Between lines. */
  predicate LineStart(s: Scan) { Fresh(s) && s.cur == [] }

  lemma NewlineTurn(f: Format, d: Text, s: Scan, eol: Text) returns (r: Scan)
    requires Format4180(f) && Inv(f, d, s) && !s.quoted && ValidEol(eol) && At(d, s.pos, eol)
    requires |eol| == 1 && s.pos + 1 < |d| ==> !IsNewline(d[s.pos + 1])
    ensures Turns(f, d, s, r)
    ensures r == PushRow(PushField(s)).(pos := s.pos + |eol|, rowStart := s.pos + |eol|)
  {
    hide Run;
    AtIndex(d, s.pos, eol, 0);
    if |eol| == 2 { AtIndex(d, s.pos, eol, 1); }
    Turn(f, d, s);
    r := Step(f, d, s).value;
  }

  lemma ValuesStep(f: Format, d: Text, rows: seq<RawRow>, x: RawRow)
    ensures Values(f, d, rows + [x]) == Values(f, d, rows) + [RowValue(f, d, x.start, x.fields)]
  {
    assert (rows + [x])[..|rows|] == rows;
  }

  lemma TextsLast(f: Format, xs: seq<Field>)
    requires f.quote.Some? && xs != []
    ensures TextsRead(f, xs) == TextsRead(f, xs[..|xs| - 1]) + [FieldRead(f, xs[|xs| - 1])]
  {
    hide FieldRead;
  }

  lemma OneRecord(f: Format, d: Text, s: Scan, x: Record) returns (r: Scan)
    requires Format4180(f) && Inv(f, d, s) && LineStart(s)
    requires x.fields != [] && ValidFields(f, x.fields) && ValidEol(x.eol)
    requires At(d, s.pos, RenderFields(f, x.fields) + x.eol)
    requires var e := s.pos + |RenderFields(f, x.fields)| + 1; |x.eol| == 1 && e < |d| ==> !IsNewline(d[e])
    ensures Turns(f, d, s, r) && LineStart(r) && r.pos == s.pos + |RenderFields(f, x.fields) + x.eol|
    ensures Values(f, d, r.rows) == Values(f, d, s.rows) + [TextsRead(f, x.fields)]
    ensures CleanRows(f, d, s.rows) ==> CleanRows(f, d, r.rows)
  {
    hide Run, Inv, At, FieldValue, RowValue, RenderFields, Values, CleanRows, CleanFields, FieldRead, TextsRead;
    var body := RenderFields(f, x.fields);
    AtAppend(d, s.pos, body, x.eol);
    AtIndex(d, s.pos + |body|, x.eol, 0);
    var v := LineOfFields(f, d, s, x.fields);
    r := NewlineTurn(f, d, v, x.eol);
    RowValueStep(f, d, v.rowStart, v.cur, Pending(v));
    NoFields(f, d, s.rowStart);
    assert [] + TextsRead(f, x.fields[..|x.fields| - 1]) == TextsRead(f, x.fields[..|x.fields| - 1]);
    TextsLast(f, x.fields);
    ValuesStep(f, d, s.rows, RawRow(v.rowStart, v.cur + [Pending(v)]));
    if CleanRows(f, d, s.rows) { CleanStep(f, d, s.rows, v.rowStart, v.cur, Pending(v)); }
  }

  lemma CleanStep(f: Format, d: Text, rows: seq<RawRow>, start: nat, cur: seq<RawField>, x: RawField)
    requires CleanFields(f, d, start, cur + [x]) && CleanRows(f, d, rows)
    ensures CleanRows(f, d, rows + [RawRow(start, cur + [x])]) && CleanRows(f, d, rows + [RawRow(start, cur)])
  {
    forall i | 0 <= i < |cur| ensures CleanField(f, d, start, cur[i]) {
      assert cur[i] == (cur + [x])[i];
    }
  }

  lemma NoFields(f: Format, d: Text, rowStart: nat)
    ensures RowValue(f, d, rowStart, []) == [] && CleanFields(f, d, rowStart, [])
  {
  }

  lemma {:induction false} Records(f: Format, d: Text, s: Scan, rs: seq<Record>, rest: Text) returns (r: Scan)
    requires Format4180(f) && Inv(f, d, s) && LineStart(s) && ValidRecords(f, rs, rest)
    requires At(d, s.pos, RenderRecords(f, rs) + rest) && s.pos + |RenderRecords(f, rs) + rest| == |d|
    ensures Turns(f, d, s, r) && LineStart(r) && r.pos == s.pos + |RenderRecords(f, rs)|
    ensures Values(f, d, r.rows) == Values(f, d, s.rows) + RecordsRead(f, rs)
    ensures CleanRows(f, d, s.rows) ==> CleanRows(f, d, r.rows)
    decreases |rs|
  {
    hide Run, Inv, At, RenderFields, RenderRecords;
    hide Values, NonOverlapping, CleanRows, ValidEol, ValidFields, IsNewline;
    if rs == [] {
      NoText(f);
      r := s;
    } else {
      RecordThenRest(f, d, s.pos, rs, rest);
      var v := OneRecord(f, d, s, rs[0]);
      r := Records(f, d, v, rs[1..], rest);
    }
  }

  lemma RecordThenRest(f: Format, d: Text, pos: nat, rs: seq<Record>, rest: Text)
    requires Format4180(f) && rs != [] && ValidRecords(f, rs, rest)
    requires At(d, pos, RenderRecords(f, rs) + rest) && pos + |RenderRecords(f, rs) + rest| == |d|
    ensures var line := RenderFields(f, rs[0].fields) + rs[0].eol; var e := pos + |line|;
      && At(d, pos, line) && At(d, e, RenderRecords(f, rs[1..]) + rest)
      && e + |RenderRecords(f, rs[1..]) + rest| == |d| && |RenderRecords(f, rs)| == |line| + |RenderRecords(f, rs[1..])|
      && (|rs[0].eol| == 1 && e < |d| ==> !IsNewline(d[e]))
  {
    hide At, RenderFields;
    var line := RenderFields(f, rs[0].fields) + rs[0].eol;
    var next := RenderRecords(f, rs[1..]) + rest;
    assert RenderRecords(f, rs) + rest == line + next;
    AtAppend(d, pos, line, next);
    if next != [] { AtIndex(d, pos + |line|, next, 0); }
  }

  // ---------------------------------------------------------------- documents

  /** Every document is scanned as the rows it means, plus what end_feed delivers
      of its last line, whatever the doubled-quote flag was before. */
  lemma DocumentFrom(f: Format, d: Text, bomScanned: bool, doubled: bool, doc: Document)
    requires Format4180(f) && Valid(f, doc)
    requires var pos := Begin(d, bomScanned, doubled).pos; At(d, pos, Render(f, doc)) && pos + |Render(f, doc)| == |d|
    requires |d| > 0 && doc == Document([], []) ==> d[|d| - 1] != f.delim
    ensures ParseAll(f, d, bomScanned, doubled) == RecordsRead(f, doc.records) + LastRead(f, doc.last)
    ensures CleanRows(f, d, EndFeed(f, d, Run(f, d, Begin(d, bomScanned, doubled))).rows)
  {
    hide Run, Inv, At, RenderFields, RenderRecords, Values, ValidRecords, ValidFields, RecordsRead;
    hide CleanRows, EndFeed, LastRead, NonOverlapping, Begin, LineStart;
    var s := Begin(d, bomScanned, doubled);
    var rest := RenderFields(f, doc.last);
    BeginsLine(f, d, bomScanned, doubled);
    NoLines(f, d);
    var v := Records(f, d, s, doc.records, rest);
    AtAppend(d, s.pos, RenderRecords(f, doc.records), rest);
    if doc.last == [] {
      NoText(f);
      NothingLastRead(f);
      NothingLeft(f, d, v, doc.records);
    } else {
      LastLine(f, d, v, doc.last);
    }
  }

  lemma BeginsLine(f: Format, d: Text, bomScanned: bool, doubled: bool)
    ensures var s := Begin(d, bomScanned, doubled); Inv(f, d, s) && LineStart(s) && s.rows == []
  {
  }

  lemma NothingLastRead(f: Format)
    requires f.quote.Some?
    ensures LastRead(f, []) == []
  {
  }

  lemma NoText(f: Format)
    requires f.quote.Some?
    ensures RenderFields(f, []) == [] && RenderRecords(f, []) == []
  {
  }

  lemma NoLines(f: Format, d: Text)
    ensures Values(f, d, []) == [] && CleanRows(f, d, [])
  {
  }

  lemma {:induction false} EndsInNewline(f: Format, rs: seq<Record>, rest: Text)
    requires f.quote.Some? && rs != [] && ValidRecords(f, rs, rest)
    ensures var t := RenderRecords(f, rs); t != [] && IsNewline(t[|t| - 1])
    decreases |rs|
  {
    hide RenderFields;
    if |rs| > 1 { EndsInNewline(f, rs[1..], rest); }
  }

  lemma NothingLeft(f: Format, d: Text, v: Scan, rs: seq<Record>)
    requires Format4180(f) && Inv(f, d, v) && LineStart(v) && ValidRecords(f, rs, [])
    requires v.pos == |d| && |RenderRecords(f, rs)| <= |d|
    requires At(d, |d| - |RenderRecords(f, rs)|, RenderRecords(f, rs))
    requires |d| > 0 && rs == [] ==> d[|d| - 1] != f.delim
    ensures EndFeed(f, d, Run(f, d, v)) == v
  {
    hide RenderRecords, ValidRecords;
    AtEnd(f, d, v);
    if rs != [] {
      EndsInNewline(f, rs, []);
      var t := RenderRecords(f, rs);
      AtIndex(d, |d| - |t|, t, |t| - 1);
    }
  }

  /** A line ends in a delimiter exactly when its last field is bare and empty. */
  lemma {:induction false} LastCharacter(f: Format, xs: seq<Field>)
    requires Format4180(f) && ValidFields(f, xs) && xs != [] && RenderFields(f, xs) != []
    ensures var t := RenderFields(f, xs);
      t[|t| - 1] == f.delim <==> xs[|xs| - 1] == Bare([])
    decreases |xs|
  {
    if |xs| > 1 {
      if RenderFields(f, xs[1..]) != [] {
        LastCharacter(f, xs[1..]);
      } else {
        assert |xs| == 2 && xs[1] == Bare([]);
      }
    }
  }

  lemma LastLine(f: Format, d: Text, v: Scan, xs: seq<Field>)
    requires Format4180(f) && Inv(f, d, v) && LineStart(v) && xs != [] && ValidFields(f, xs)
    requires At(d, v.pos, RenderFields(f, xs)) && v.pos + |RenderFields(f, xs)| == |d| && RenderFields(f, xs) != []
    ensures Values(f, d, EndFeed(f, d, Run(f, d, v)).rows) == Values(f, d, v.rows) + LastRead(f, xs)
    ensures CleanRows(f, d, v.rows) ==> CleanRows(f, d, EndFeed(f, d, Run(f, d, v)).rows)
  {
    hide Run, Inv, At, FieldValue, RowValue, RenderFields, Values, CleanRows, CleanFields, FieldRead, TextsRead;
    var n := |xs| - 1;
    var r := LineOfFields(f, d, v, xs);
    var t := RenderFields(f, xs);
    AtIndex(d, v.pos, t, |t| - 1);
    LastCharacter(f, xs);
    NoFields(f, d, v.rowStart);
    RowValueStep(f, d, r.rowStart, r.cur, Pending(r));
    assert [] + TextsRead(f, xs[..n]) == TextsRead(f, xs[..n]);
    TextsLast(f, xs);
    ValuesStep(f, d, r.rows, RawRow(r.rowStart, r.cur));
    ValuesStep(f, d, r.rows, RawRow(r.rowStart, r.cur + [Pending(r)]));
    if CleanRows(f, d, v.rows) { CleanStep(f, d, v.rows, r.rowStart, r.cur, Pending(r)); }
  }

  /** Every RFC 4180 document is read as the rows it means, as far as its format does
      not trim them, except for what end_feed loses of its last line, whatever the
      doubled-quote flag was before. */
  lemma DocumentTrimmed(f: Format, bomScanned: bool, doubled: bool, doc: Document)
    requires Format4180(f) && Valid(f, doc) && (bomScanned || !HasBom(Render(f, doc)))
    ensures ParseAll(f, Render(f, doc), bomScanned, doubled) == RecordsRead(f, doc.records) + LastRead(f, doc.last)
    ensures var d := Render(f, doc); CleanRows(f, d, EndFeed(f, d, Run(f, d, Begin(d, bomScanned, doubled))).rows)
  {
    hide Run, EndFeed, Values, CleanRows;
    var d := Render(f, doc);
    assert d[0..0 + |d|] == d;
    if doc == Document([], []) { NoText(f); }
    DocumentFrom(f, d, bomScanned, doubled, doc);
  }

  const BOM: Text := [0xEF - 256, 0xBB - 256, 0xBF - 256]

  /** A byte-order mark in front changes nothing, unless it is all there is and
      its last byte is the delimiter. */
  lemma BomTrimmed(f: Format, doubled: bool, doc: Document)
    requires Format4180(f) && Valid(f, doc) && (doc == Document([], []) ==> f.delim != BOM[2])
    ensures ParseAll(f, BOM + Render(f, doc), false, doubled) == RecordsRead(f, doc.records) + LastRead(f, doc.last)
    ensures var d := BOM + Render(f, doc); CleanRows(f, d, EndFeed(f, d, Run(f, d, Begin(d, false, doubled))).rows)
  {
    hide Run, EndFeed, Values, CleanRows, Valid;
    var d := BOM + Render(f, doc);
    assert d[3..] == Render(f, doc) && d[3..3 + |Render(f, doc)|] == d[3..];
    if doc == Document([], []) { NoText(f); }
    DocumentFrom(f, d, false, doubled, doc);
  }

  // ---------------------------------------------------------------- nothing trimmed

  lemma {:induction false} NoFront(f: Format, t: Text)
    requires f.trim == {}
    ensures TrimFront(f, t) == t && TrimEnd(f, t) == t
  {
  }

  lemma {:induction false} LengthReadPlain(f: Format, t: Text)
    requires f.quote.Some? && f.trim == {}
    ensures LengthRead(f, t) == |Double(f, t)|
  {
    hide Double, TrimEnd, QuoteTail;
    TailDoubled(f, t);
    NoFront(f, t[..|t| - QuoteTail(f, t)]);
  }

  /** Without trim characters a field is read as its text. */
  lemma FieldReadPlain(f: Format, x: Field)
    requires f.quote.Some? && f.trim == {}
    ensures FieldRead(f, x) == x.text
  {
    hide FieldRead, Undouble, Double, LengthRead, TrimFront, TrimEnd, Slice;
    var t := x.text;
    NoFront(f, t);
    if x.Quoted? {
      QuotedRead(f, t);
      LengthReadPlain(f, t);
      WholeSlice(Double(f, t));
      UndoubleDoubled(f, t);
    } else {
      BareRead(f, t);
    }
  }

  lemma BareRead(f: Format, t: Text)
    requires f.quote.Some?
    ensures FieldRead(f, Bare(t)) == TrimEnd(f, TrimFront(f, t))
  {
  }

  lemma WholeSlice(d: Text)
    ensures Slice(d, 0, |d|) == d
  {
  }

  lemma TextsReadPlain(f: Format, xs: seq<Field>)
    requires f.quote.Some? && f.trim == {}
    ensures TextsRead(f, xs) == Texts(xs)
  {
    forall i | 0 <= i < |xs| ensures FieldRead(f, xs[i]) == xs[i].text { FieldReadPlain(f, xs[i]); }
  }

  lemma {:induction false} RecordsReadPlain(f: Format, rs: seq<Record>)
    requires f.quote.Some? && f.trim == {}
    ensures RecordsRead(f, rs) == Meaning(rs)
    decreases |rs|
  {
    hide TextsRead, Texts;
    if rs != [] {
      TextsReadPlain(f, rs[0].fields);
      RecordsReadPlain(f, rs[1..]);
    }
  }

  lemma LastReadPlain(f: Format, xs: seq<Field>)
    requires Plain4180(f) && (xs != [] ==> RenderFields(f, xs) != [])
    ensures LastRead(f, xs) == Delivered(xs)
  {
    hide FieldRead, TextsRead, Texts;
    if xs != [] {
      FieldReadPlain(f, xs[|xs| - 1]);
      TextsReadPlain(f, xs);
      TextsReadPlain(f, xs[..|xs| - 1]);
    }
  }

  /** Every RFC 4180 document is read back as the rows it means by a format that trims
      nothing, except for what end_feed loses of its last line, whatever the
      doubled-quote flag was before. */
  lemma DocumentRead(f: Format, bomScanned: bool, doubled: bool, doc: Document)
    requires Plain4180(f) && Valid(f, doc) && (bomScanned || !HasBom(Render(f, doc)))
    ensures ParseAll(f, Render(f, doc), bomScanned, doubled) == Meaning(doc.records) + Delivered(doc.last)
    ensures var d := Render(f, doc); CleanRows(f, d, EndFeed(f, d, Run(f, d, Begin(d, bomScanned, doubled))).rows)
  {
    hide Run, EndFeed, ParseAll, CleanRows, Render, RecordsRead, LastRead;
    DocumentTrimmed(f, bomScanned, doubled, doc);
    RecordsReadPlain(f, doc.records);
    LastReadPlain(f, doc.last);
  }

  lemma BomSkipped(f: Format, doubled: bool, doc: Document)
    requires Plain4180(f) && Valid(f, doc) && (doc == Document([], []) ==> f.delim != BOM[2])
    ensures ParseAll(f, BOM + Render(f, doc), false, doubled) == Meaning(doc.records) + Delivered(doc.last)
    ensures var d := BOM + Render(f, doc); CleanRows(f, d, EndFeed(f, d, Run(f, d, Begin(d, false, doubled))).rows)
  {
    hide Run, EndFeed, ParseAll, CleanRows, Render, RecordsRead, LastRead;
    BomTrimmed(f, doubled, doc);
    RecordsReadPlain(f, doc.records);
    LastReadPlain(f, doc.last);
  }

  function Whole(doc: Document): seq<seq<Text>> {
    Meaning(doc.records) + if doc.last == [] then [] else [Texts(doc.last)]
  }

  /** The whole document comes back exactly when its last, unended line does not
      end in an empty pair of quotes. */
  lemma ReadWholeExactly(f: Format, bomScanned: bool, doubled: bool, doc: Document)
    requires Plain4180(f) && Valid(f, doc) && (bomScanned || !HasBom(Render(f, doc)))
    ensures ParseAll(f, Render(f, doc), bomScanned, doubled) == Whole(doc)
       <==> !(doc.last != [] && doc.last[|doc.last| - 1] == Quoted([]))
  {
    DocumentRead(f, bomScanned, doubled, doc);
    var m := Meaning(doc.records);
    var last := doc.last;
    if last != [] && last[|last| - 1] == Quoted([]) {
      assert |(m + [Texts(last)])[|m|]| == |last|;
      if |last| > 1 { assert |(m + Delivered(last))[|m|]| == |last| - 1; }
    }
  }

  lemma ShortNoBom(d: Text)
    requires |d| < 3
    ensures !HasBom(d)
  {
  }

  lemma EmptyPair(f: Format)
    requires f.quote.Some?
    ensures RenderField(f, Quoted([])) == [f.quote.value, f.quote.value]
  {
    assert Double(f, []) == [];
  }

  /** An empty pair of quotes that nothing ends is such a document: it means one row
      of one empty field, and nothing is read. */
  lemma EmptyQuotesLost(f: Format, bomScanned: bool, doubled: bool)
    requires Plain4180(f)
    ensures var doc, d := Document([], [Quoted([])]), [f.quote.value, f.quote.value];
      && Valid(f, doc) && Render(f, doc) == d && Whole(doc) == [[[]]]
      && ParseAll(f, d, bomScanned, doubled) == []
  {
    hide ParseAll, RenderField, HasBom;
    var doc := Document([], [Quoted([])]);
    assert !HasBom([f.quote.value, f.quote.value]) by { ShortNoBom([f.quote.value, f.quote.value]); }
    EmptyPair(f);
    NoText(f);
    assert Render(f, doc) == RenderFields(f, doc.last) == [f.quote.value, f.quote.value];
    assert Texts(doc.last) == [[]] && Meaning([]) == [];
    assert Delivered(doc.last) == [];
    DocumentRead(f, bomScanned, doubled, doc);
  }
}
