/** RFC 4180 documents, and what the scanner makes of them
    (lib/csv-parser/csv.hpp, parse, end_feed and get_field). */
module CsvDocument {
  import opened Common
  import opened CsvScan

  // ---------------------------------------------------------------- values

  function Slice(d: Text, from: nat, n: nat): (t: Text) {
    if from + n <= |d| then d[from..from + n] else []
  }

  /** Drops every second quote, as get_field does: the memory of a quote is not
      cleared by the characters after it. */
  function Undouble(f: Format, raw: Text, prevQuote: bool): Text {
    if raw == [] then []
    else if f.quote == Some(raw[0]) then
      if prevQuote then Undouble(f, raw[1..], false) else [raw[0]] + Undouble(f, raw[1..], true)
    else [raw[0]] + Undouble(f, raw[1..], prevQuote)
  }

  function FieldValue(f: Format, d: Text, rowStart: nat, x: RawField): Text {
    var raw := Slice(d, rowStart + x.start, x.length);
    if x.doubled then Undouble(f, raw, false) else raw
  }

  function RowValue(f: Format, d: Text, rowStart: nat, fields: seq<RawField>): (v: seq<Text>)
    ensures |v| == |fields|
  {
    if fields == [] then []
    else RowValue(f, d, rowStart, fields[..|fields| - 1]) + [FieldValue(f, d, rowStart, fields[|fields| - 1])]
  }

  function Values(f: Format, d: Text, rows: seq<RawRow>): (v: seq<seq<Text>>)
    ensures |v| == |rows|
  {
    if rows == [] then []
    else Values(f, d, rows[..|rows| - 1]) + [RowValue(f, d, rows[|rows| - 1].start, rows[|rows| - 1].fields)]
  }

  /** The flag of a field that has one only if it needs one makes no difference when it is set. */
  ghost predicate CleanField(f: Format, d: Text, rowStart: nat, x: RawField) {
    FieldValue(f, d, rowStart, x.(doubled := true)) == FieldValue(f, d, rowStart, x)
  }

  ghost predicate CleanFields(f: Format, d: Text, rowStart: nat, fields: seq<RawField>) {
    forall i :: 0 <= i < |fields| ==> CleanField(f, d, rowStart, fields[i])
  }

  ghost predicate CleanRows(f: Format, d: Text, rows: seq<RawRow>) {
    forall i :: 0 <= i < |rows| ==> CleanFields(f, d, rows[i].start, rows[i].fields)
  }

  /** All rows of a text, scanned in one piece. */
  function ParseAll(f: Format, d: Text, bomScanned: bool, doubled: bool): seq<seq<Text>>
    requires NonOverlapping(f)
  {
    Values(f, d, EndFeed(f, d, Run(f, d, Begin(d, bomScanned, doubled))).rows)
  }

  // ---------------------------------------------------------------- documents

  /** A format that RFC 4180 could mean, but for what is trimmed: a quote, and line
      ends that are only line ends. */
  predicate Format4180(f: Format) {
    && NonOverlapping(f) && f.quote.Some?
    && f.delim != CR && f.delim != LF && f.quote.value != CR && f.quote.value != LF
    && CR !in f.trim && LF !in f.trim
  }

  /** Such a format that trims nothing. */
  predicate Plain4180(f: Format) { Format4180(f) && f.trim == {} }

  /** Commas and double quotes. */
  const COMMAS: Format := Format(44, Some(34), {})

  predicate IsNewline(ch: Char) { ch == CR || ch == LF }

  datatype Field = Bare(text: Text) | Quoted(text: Text)

  /** A line: its fields and the one or two newline characters that end it. */
  datatype Record = Record(fields: seq<Field>, eol: Text)

  /** Lines, and perhaps a last line that nothing ends. */
  datatype Document = Document(records: seq<Record>, last: seq<Field>)

  function Double(f: Format, t: Text): (r: Text)
    requires f.quote.Some?
    ensures |r| >= |t|
  {
    if t == [] then []
    else if t[0] == f.quote.value then [t[0], t[0]] + Double(f, t[1..])
    else [t[0]] + Double(f, t[1..])
  }

  function RenderField(f: Format, x: Field): Text
    requires f.quote.Some?
  {
    match x
    case Bare(t) => t
    case Quoted(t) => [f.quote.value] + Double(f, t) + [f.quote.value]
  }

  function RenderFields(f: Format, xs: seq<Field>): Text
    requires f.quote.Some?
  {
    if xs == [] then []
    else if |xs| == 1 then RenderField(f, xs[0])
    else RenderField(f, xs[0]) + [f.delim] + RenderFields(f, xs[1..])
  }

  function RenderRecords(f: Format, rs: seq<Record>): Text
    requires f.quote.Some?
  {
    if rs == [] then [] else RenderFields(f, rs[0].fields) + rs[0].eol + RenderRecords(f, rs[1..])
  }

  function Render(f: Format, doc: Document): Text
    requires f.quote.Some?
  {
    RenderRecords(f, doc.records) + RenderFields(f, doc.last)
  }

  predicate ValidField(f: Format, x: Field) {
    x.Bare? ==> forall i :: 0 <= i < |x.text| ==> Flag(f, x.text[i]) == NOT_SPECIAL
  }

  predicate ValidFields(f: Format, xs: seq<Field>) {
    forall i :: 0 <= i < |xs| ==> ValidField(f, xs[i])
  }

  predicate ValidEol(eol: Text) {
    (|eol| == 1 || |eol| == 2) && forall i :: 0 <= i < |eol| ==> IsNewline(eol[i])
  }

  /** A one-character line end must not be followed by another newline character,
      which would be taken as part of it. */
  predicate ValidRecords(f: Format, rs: seq<Record>, rest: Text)
    requires f.quote.Some?
  {
    rs == [] || (
      && rs[0].fields != [] && ValidFields(f, rs[0].fields) && ValidEol(rs[0].eol)
      && ValidRecords(f, rs[1..], rest)
      && (|rs[0].eol| == 1 ==> var next := RenderRecords(f, rs[1..]) + rest; next == [] || !IsNewline(next[0])))
  }

  predicate Valid(f: Format, doc: Document)
    requires f.quote.Some?
  {
    && ValidRecords(f, doc.records, RenderFields(f, doc.last)) && ValidFields(f, doc.last)
    && (doc.last != [] ==> RenderFields(f, doc.last) != [])
  }

  function Texts(xs: seq<Field>): (v: seq<Text>)
    ensures |v| == |xs|
  {
    seq(|xs|, i requires 0 <= i < |xs| => xs[i].text)
  }

  function Meaning(rs: seq<Record>): seq<seq<Text>> {
    if rs == [] then [] else [Texts(rs[0].fields)] + Meaning(rs[1..])
  }

  /** What end_feed delivers of a line that nothing ends: a last field written as
      an empty pair of quotes is lost, and the line with it if that is all of it. */
  function Delivered(xs: seq<Field>): seq<seq<Text>> {
    if xs == [] then []
    else if xs[|xs| - 1] == Quoted([]) then
      if |xs| == 1 then [] else [Texts(xs[..|xs| - 1])]
    else [Texts(xs)]
  }

  // ---------------------------------------------------------------- documents and trimming

  function TrimFront(f: Format, t: Text): (r: Text)
    ensures |r| <= |t|
  {
    if t != [] && Ws(f, t[0]) then TrimFront(f, t[1..]) else t
  }

  function TrimEnd(f: Format, t: Text): (r: Text)
    ensures |r| <= |t|
  {
    if t != [] && Ws(f, t[|t| - 1]) then TrimEnd(f, t[..|t| - 1]) else t
  }

  /** Only trim characters are dropped, and no more could be. */
  lemma {:induction false} TrimFrontIs(f: Format, t: Text)
    ensures var r := TrimFront(f, t);
      && t[|t| - |r|..] == r && (r != [] ==> !Ws(f, r[0])) && forall i :: 0 <= i < |t| - |r| ==> Ws(f, t[i])
  {
    if t != [] && Ws(f, t[0]) { TrimFrontIs(f, t[1..]); }
  }

  lemma {:induction false} TrimEndIs(f: Format, t: Text)
    ensures var r := TrimEnd(f, t);
      && r <= t && (r != [] ==> !Ws(f, r[|r| - 1])) && forall i :: |r| <= i < |t| ==> Ws(f, t[i])
  {
    if t != [] && Ws(f, t[|t| - 1]) { TrimEndIs(f, t[..|t| - 1]); }
  }

  function Trim(f: Format, t: Text): Text { TrimEnd(f, TrimFront(f, t)) }

  /** The number of quotes at the end of a text. */
  function QuoteTail(f: Format, t: Text): (n: nat)
    ensures n <= |t|
  {
    if t != [] && f.quote == Some(t[|t| - 1]) then 1 + QuoteTail(f, t[..|t| - 1]) else 0
  }

  lemma {:induction false} QuoteTailIs(f: Format, t: Text)
    ensures var n := QuoteTail(f, t);
      && (forall i :: |t| - n <= i < |t| ==> f.quote == Some(t[i]))
      && (n < |t| ==> f.quote != Some(t[|t| - n - 1]))
  {
    if t != [] && f.quote == Some(t[|t| - 1]) { QuoteTailIs(f, t[..|t| - 1]); }
  }

  /** The length recorded for a quoted text that does not begin with a trim character:
      the trim characters before quotes at its end are dropped, and the length of those
      quotes is added. */
  function LengthRead(f: Format, t: Text): nat
    requires f.quote.Some?
  {
    var n := QuoteTail(f, t);
    |Double(f, TrimEnd(f, t[..|t| - n]))| + 2 * n
  }

  /** What is read of a field. */
  function FieldRead(f: Format, x: Field): Text
    requires f.quote.Some?
  {
    match x
    case Bare(t) => Trim(f, t)
    case Quoted(t) =>
      var u := TrimFront(f, t);
      Undouble(f, Slice(Double(f, u), 0, LengthRead(f, u)), false)
  }

  function TextsRead(f: Format, xs: seq<Field>): (v: seq<Text>)
    requires f.quote.Some?
    ensures |v| == |xs|
  {
    seq(|xs|, i requires 0 <= i < |xs| => FieldRead(f, xs[i]))
  }

  function RecordsRead(f: Format, rs: seq<Record>): seq<seq<Text>>
    requires f.quote.Some?
  {
    if rs == [] then [] else [TextsRead(f, rs[0].fields)] + RecordsRead(f, rs[1..])
  }

  /** A last field that something is written for but nothing read of. */
  predicate LastLost(f: Format, xs: seq<Field>)
    requires f.quote.Some? && xs != []
  {
    xs[|xs| - 1] != Bare([]) && FieldRead(f, xs[|xs| - 1]) == []
  }

  /** What end_feed delivers of a line that nothing ends. */
  function LastRead(f: Format, xs: seq<Field>): seq<seq<Text>>
    requires f.quote.Some?
  {
    if xs == [] then []
    else if LastLost(f, xs) then
      if |xs| == 1 then [] else [TextsRead(f, xs[..|xs| - 1])]
    else [TextsRead(f, xs)]
  }
}
