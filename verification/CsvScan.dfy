/** What the CSV scanner does to its state (lib/csv-parser/csv.hpp, parse,
    parse_field, push_field, push_row and end_feed), as functions of the state. */
module CsvScan {
  import opened Common
  import opened Words

  /** A signed 8-bit char. */
  type Char = c: int | -128 <= c < 128

  type Text = seq<Char>

  const LF: Char := 10
  const CR: Char := 13

  // ---------------------------------------------------------------- formats and flags

  datatype Format = Format(delim: Char, quote: Option<Char>, trim: set<Char>)

  /** No character is used for two purposes: the check CSVFormat makes. */
  predicate NonOverlapping(f: Format) {
    && f.delim !in f.trim
    && (f.quote.Some? ==> f.quote.value != f.delim && f.quote.value !in f.trim)
  }

  const QUOTE_ESCAPE_QUOTE: nat := 0
  const QUOTE: nat := 3
  const NOT_SPECIAL: nat := 4
  const DELIMITER: nat := 6
  const NEWLINE: nat := 7

  /** The significance of a character, before quoting is considered. */
  function Flag(f: Format, ch: Char): nat {
    if f.quote == Some(ch) then QUOTE
    else if ch == f.delim then DELIMITER
    else if ch == CR || ch == LF then NEWLINE
    else NOT_SPECIAL
  }

  /** Its significance given whether the current field is quoted: inside quotes
      only a quote keeps a meaning, outside nothing changes. */
  function CompoundFlag(f: Format, ch: Char, quoted: bool): nat {
    if !quoted then Flag(f, ch)
    else if f.quote == Some(ch) then QUOTE_ESCAPE_QUOTE
    else NOT_SPECIAL
  }

  /** The same, as the code computes it: the low two bits are cleared inside quotes. */
  function QuoteEscapeFlag(flag: nat, quoted: bool): nat {
    And(flag, 7 - QUOTE * (if quoted then 1 else 0))
  }

  lemma FlagTable(f: Format, ch: Char, quoted: bool)
    ensures QuoteEscapeFlag(Flag(f, ch), quoted) == CompoundFlag(f, ch, quoted)
  {
    hide And;
    LowBits(Flag(f, ch));
  }

  lemma LowBits(flag: nat)
    requires flag == QUOTE || flag == NOT_SPECIAL || flag == DELIMITER || flag == NEWLINE
    ensures And(flag, 7) == flag && And(flag, 4) == if flag == QUOTE then QUOTE_ESCAPE_QUOTE else NOT_SPECIAL
  {
    hide And;
    AndTwoBits(flag / 2);
    AndStep(flag, 7);
    AndStep(flag, 4);
  }

  lemma AndTwoBits(a: nat)
    requires 1 <= a <= 3
    ensures And(a, 3) == a && And(a, 2) == a / 2 * 2
  {
  }

  predicate Ws(f: Format, ch: Char) { ch in f.trim }

  // ---------------------------------------------------------------- state

  /** A field: start relative to its row, raw length, and whether a doubled quote was seen. */
  datatype RawField = RawField(start: nat, length: nat, doubled: bool)

  datatype RawRow = RawRow(start: nat, fields: seq<RawField>)

  /** `start` is -1 while the current field has not begun; `cur` holds the fields
      of the current row, `rows` the finished ones. */
  datatype Scan = Scan(pos: nat, rowStart: nat, start: int, len: nat, doubled: bool, quoted: bool,
                       cur: seq<RawField>, rows: seq<RawRow>)

  function PushField(s: Scan): Scan {
    s.(cur := s.cur + [RawField(if s.start < 0 then 0 else s.start, s.len, s.doubled)],
       start := -1, len := 0, doubled := false)
  }

  function PushRow(s: Scan): Scan {
    s.(cur := [], rows := s.rows + [RawRow(s.rowStart, s.cur)])
  }

  function SkipWs(f: Format, d: Text, pos: nat): (p: nat)
    requires pos <= |d|
    ensures pos <= p <= |d|
    ensures forall i :: pos <= i < p ==> Ws(f, d[i])
    ensures p < |d| ==> !Ws(f, d[p])
    decreases |d| - pos
  {
    if pos < |d| && Ws(f, d[pos]) then SkipWs(f, d, pos + 1) else pos
  }

  predicate Plain(f: Format, ch: Char, quoted: bool) {
    CompoundFlag(f, ch, quoted) == NOT_SPECIAL
  }

  function SkipPlain(f: Format, d: Text, pos: nat, quoted: bool): (p: nat)
    requires pos <= |d|
    ensures pos <= p <= |d|
    ensures forall i :: pos <= i < p ==> Plain(f, d[i], quoted)
    ensures p < |d| ==> !Plain(f, d[p], quoted)
    decreases |d| - pos
  {
    if pos < |d| && Plain(f, d[pos], quoted) then SkipPlain(f, d, pos + 1, quoted) else pos
  }

  /** The length left when trailing trim characters before `end` are dropped. */
  function TrimBack(f: Format, d: Text, end: nat, len: nat): (r: nat)
    requires len <= end <= |d|
    ensures r <= len
  {
    if len > 0 && Ws(f, d[end - 1]) then TrimBack(f, d, end - 1, len - 1) else len
  }

  function FieldBegin(f: Format, d: Text, s: Scan): int
    requires s.pos <= |d|
  {
    if s.start < 0 then SkipWs(f, d, s.pos) - s.rowStart else s.start
  }

  function ParseField(f: Format, d: Text, s: Scan): Scan
    requires s.pos < |d| && Inv(f, d, s)
  {
    var start := FieldBegin(f, d, s);
    var p := SkipPlain(f, d, SkipWs(f, d, s.pos), s.quoted);
    s.(pos := p, start := start, len := TrimBack(f, d, p, p - (start + s.rowStart)))
  }

  /** One turn of the scanning loop; None when it returns early. */
  function Step(f: Format, d: Text, s: Scan): Option<Scan>
    requires s.pos < |d| && Inv(f, d, s)
  {
    var p := s.pos + 1;
    var flag := CompoundFlag(f, d[s.pos], s.quoted);
    if flag == DELIMITER then Some(PushField(s).(pos := p))
    else if flag == NEWLINE then
      var q := if p < |d| && Flag(f, d[p]) == NEWLINE then p + 1 else p;
      Some(PushRow(PushField(s)).(pos := q, rowStart := q))
    else if flag == NOT_SPECIAL then Some(ParseField(f, d, s))
    else if flag == QUOTE_ESCAPE_QUOTE then
      if p == |d| then None
      else if Flag(f, d[p]) >= DELIMITER then Some(s.(quoted := false, pos := p))
      else if Flag(f, d[p]) == QUOTE then Some(s.(pos := p + 1, len := s.len + 2, doubled := true))
      else Some(s.(pos := p, len := s.len + 1))
    else if s.len == 0 then
      Some(s.(quoted := true, pos := p,
              start := if s.start < 0 && p < |d| && !Ws(f, d[p]) then p - s.rowStart else s.start))
    else Some(s.(pos := p, len := s.len + 1))
  }

  // ---------------------------------------------------------------- layout

  function End(x: RawField): nat { x.start + x.length }

  /** All fields end by `limit`, and the non-empty ones follow one another without overlap. */
  ghost predicate InOrder(fields: seq<RawField>, limit: int) {
    && (forall i :: 0 <= i < |fields| ==> End(fields[i]) <= limit)
    && (forall i, j :: 0 <= i < j < |fields| && fields[i].length > 0 && fields[j].length > 0 ==>
          End(fields[i]) <= fields[j].start)
  }

  /** A finished row lies between its start and where the next one begins. */
  ghost predicate RowInside(r: RawRow, next: nat) {
    r.start <= next && r.fields != [] && InOrder(r.fields, next - r.start)
  }

  ghost predicate RowsInside(rows: seq<RawRow>, next: nat) {
    forall i :: 0 <= i < |rows| ==> RowInsideAt(rows, i, next)
  }

  ghost predicate RowInsideAt(rows: seq<RawRow>, i: nat, next: nat)
    requires i < |rows|
  {
    RowInside(rows[i], NextStart(rows, i, next))
  }

  /** Where row i ends. */
  function NextStart(rows: seq<RawRow>, i: nat, next: nat): nat
    requires i < |rows|
  {
    if i + 1 < |rows| then rows[i + 1].start else next
  }

  /** What every turn of the loop keeps of the cursor: the current field lies
      inside the data and behind it, and does not begin with a trim character. */
  predicate Inv(f: Format, d: Text, s: Scan) {
    && s.rowStart <= s.pos <= |d| && -1 <= s.start
    && (s.start < 0 ==> s.len == 0)
    && (s.start >= 0 ==> s.rowStart + s.start + s.len <= s.pos)
    && (s.start >= 0 && s.rowStart + s.start < |d| ==> !Ws(f, d[s.rowStart + s.start]))
    && (s.start < 0 && s.quoted && s.pos < |d| ==> Ws(f, d[s.pos]))
  }

  /** What it keeps of what has been recorded: fields and rows lie behind the
      current one, in order and without overlap. */
  ghost predicate Layout(s: Scan) {
    && InOrder(s.cur, if s.start >= 0 then s.start else s.pos - s.rowStart)
    && RowsInside(s.rows, s.rowStart)
  }

  const INITIAL: Scan := Scan(0, 0, -1, 0, false, false, [], [])

  lemma PushFieldInOrder(fields: seq<RawField>, x: RawField, limit: int, begin: int)
    requires InOrder(fields, begin) && begin <= limit && End(x) <= limit && (x.length > 0 ==> begin <= x.start)
    ensures InOrder(fields + [x], limit)
  {
  }

  lemma StepKeepsInv(f: Format, d: Text, s: Scan)
    requires NonOverlapping(f) && s.pos < |d| && Inv(f, d, s)
    ensures Step(f, d, s).Some? ==> Inv(f, d, Step(f, d, s).value) && s.pos < Step(f, d, s).value.pos
  {
    if CompoundFlag(f, d[s.pos], s.quoted) == NOT_SPECIAL { ParseFieldKeepsInv(f, d, s); }
  }

  lemma StepKeepsLayout(f: Format, d: Text, s: Scan)
    requires NonOverlapping(f) && s.pos < |d| && Inv(f, d, s) && Layout(s)
    ensures Step(f, d, s).Some? ==> Layout(Step(f, d, s).value)
  {
    hide InOrder, RowsInside;
    var flag := CompoundFlag(f, d[s.pos], s.quoted);
    if flag == DELIMITER {
      PushKeepsLayout(s);
    } else if flag == NEWLINE {
      PushKeepsLayout(s);
      PushRowKeepsLayout(s.rows, s.rowStart, PushField(s).cur, s.pos, Step(f, d, s).value.rowStart);
    } else {
      var t := Step(f, d, s);
      if t.Some? {
        LimitRises(s.cur, if s.start >= 0 then s.start else s.pos - s.rowStart,
                   if t.value.start >= 0 then t.value.start else t.value.pos - t.value.rowStart);
      }
    }
  }

  lemma LimitRises(fields: seq<RawField>, a: int, b: int)
    requires InOrder(fields, a) && a <= b
    ensures InOrder(fields, b)
  {
  }

  lemma PushKeepsLayout(s: Scan)
    requires s.rowStart <= s.pos && Layout(s)
    requires s.start >= 0 ==> s.rowStart + s.start + s.len <= s.pos
    requires s.start < 0 ==> s.len == 0
    ensures InOrder(PushField(s).cur, s.pos - s.rowStart) && InOrder(PushField(s).cur, s.pos + 1 - s.rowStart)
  {
    var x := RawField(if s.start < 0 then 0 else s.start, s.len, s.doubled);
    PushFieldInOrder(s.cur, x, s.pos - s.rowStart, if s.start >= 0 then s.start else s.pos - s.rowStart);
    LimitRises(PushField(s).cur, s.pos - s.rowStart, s.pos + 1 - s.rowStart);
  }

  lemma PushRowKeepsLayout(rows: seq<RawRow>, start: nat, fields: seq<RawField>, pos: nat, next: nat)
    requires RowsInside(rows, start) && start <= pos <= next && fields != [] && InOrder(fields, pos - start)
    ensures RowsInside(rows + [RawRow(start, fields)], next) && InOrder([], 0)
  {
    var all := rows + [RawRow(start, fields)];
    forall i | 0 <= i < |all|
      ensures RowInsideAt(all, i, next)
    {
      if i < |rows| {
        assert RowInsideAt(rows, i, start);
      }
    }
  }

  lemma ParseFieldKeepsInv(f: Format, d: Text, s: Scan)
    requires NonOverlapping(f) && s.pos < |d| && Inv(f, d, s)
    requires Plain(f, d[s.pos], s.quoted)
    ensures Inv(f, d, ParseField(f, d, s)) && s.pos < ParseField(f, d, s).pos
  {
  }

  lemma ParseFieldBounds(f: Format, d: Text, s: Scan)
    requires NonOverlapping(f) && Inv(f, d, s) && s.pos < |d| && Plain(f, d[s.pos], s.quoted)
    ensures s.start >= -1 && s.rowStart <= s.pos
    ensures var begin := s.rowStart + FieldBegin(f, d, s); var p := SkipPlain(f, d, SkipWs(f, d, s.pos), s.quoted);
      0 <= begin <= p && 0 < p <= |d| && (begin < p ==> !Ws(f, d[begin]))
  {
    ParseFieldKeepsInv(f, d, s);
  }

  // ---------------------------------------------------------------- whole runs

  /** The scanning loop, to the end of the data or the early return. */
  function Run(f: Format, d: Text, s: Scan): (r: Scan)
    requires NonOverlapping(f) && Inv(f, d, s)
    ensures Inv(f, d, r) && s.pos <= r.pos
    decreases |d| - s.pos
  {
    if s.pos == |d| then s else
      match Step(f, d, s)
      case None => s
      case Some(t) => StepKeepsInv(f, d, s); Run(f, d, t)
  }

  lemma {:induction false} RunKeepsLayout(f: Format, d: Text, s: Scan)
    requires NonOverlapping(f) && Inv(f, d, s) && Layout(s)
    ensures Layout(Run(f, d, s))
    decreases |d| - s.pos
  {
    hide InOrder, RowsInside, Layout;
    if s.pos < |d| && Step(f, d, s).Some? {
      StepKeepsInv(f, d, s);
      StepKeepsLayout(f, d, s);
      RunKeepsLayout(f, d, Step(f, d, s).value);
    }
  }

  predicate HasBom(d: Text) {
    |d| >= 3 && d[0] == 0xEF - 256 && d[1] == 0xBB - 256 && d[2] == 0xBF - 256
  }

  /** The state parse begins with; the BOM is looked for only once, and the
      doubled-quote flag keeps the value it had. */
  function Begin(d: Text, bomScanned: bool, doubled: bool): Scan {
    INITIAL.(pos := if !bomScanned && HasBom(d) then 3 else 0, doubled := doubled)
  }

  /** What end_feed adds to the last, unterminated row. */
  function EndFeed(f: Format, d: Text, s: Scan): Scan {
    var emptyLast := |d| > 0 && Flag(f, d[|d| - 1]) == DELIMITER;
    var t := if s.len > 0 || emptyLast then PushField(s) else s;
    if |t.cur| > 0 then PushRow(t) else t
  }

  /** For every input and every format, every field that parse records lies inside
      the data and behind the cursor, and the non-empty fields of a row follow one
      another without overlap; the rows themselves follow one another too. */
  lemma ParseLayout(f: Format, d: Text, bomScanned: bool, doubled: bool)
    requires NonOverlapping(f)
    ensures var s := Run(f, d, Begin(d, bomScanned, doubled));
      && s.rowStart <= s.pos <= |d| && RowsInside(s.rows, s.rowStart) && InOrder(s.cur, s.pos - s.rowStart)
      && (forall i, k :: 0 <= i < |s.rows| && 0 <= k < |s.rows[i].fields| ==>
            s.rows[i].start + End(s.rows[i].fields[k]) <= s.rowStart)
  {
    var s := Run(f, d, Begin(d, bomScanned, doubled));
    RunKeepsLayout(f, d, Begin(d, bomScanned, doubled));
    forall i | 0 <= i < |s.rows| ensures NextStart(s.rows, i, s.rowStart) <= s.rowStart {
      RowStartsRise(s.rows, i, s.rowStart);
    }
    forall i, k | 0 <= i < |s.rows| && 0 <= k < |s.rows[i].fields|
      ensures s.rows[i].start + End(s.rows[i].fields[k]) <= s.rowStart
    {
      assert RowInsideAt(s.rows, i, s.rowStart);
    }
  }

  lemma {:induction false} RowStartsRise(rows: seq<RawRow>, i: nat, next: nat)
    requires RowsInside(rows, next) && i < |rows|
    ensures rows[i].start <= NextStart(rows, i, next) <= next
    decreases |rows| - i
  {
    assert RowInsideAt(rows, i, next);
    if i + 1 < |rows| { RowStartsRise(rows, i + 1, next); }
  }

  /** The lowest index that the backwards trim loop looks at. */
  function LowestRead(f: Format, d: Text, end: nat, len: nat): int
    requires len <= end <= |d|
  {
    if len > 0 && Ws(f, d[end - 1]) then LowestRead(f, d, end - 1, len - 1) else end - 1
  }

  /** The trim loop of parse_field stays inside the data, and looks before the
      start of its field exactly when the field is empty at that point. */
  lemma TrimStaysInside(f: Format, d: Text, s: Scan)
    requires NonOverlapping(f) && s.pos < |d| && Inv(f, d, s) && Plain(f, d[s.pos], s.quoted)
    ensures var begin := s.rowStart + FieldBegin(f, d, s);
      var p := SkipPlain(f, d, SkipWs(f, d, s.pos), s.quoted);
      && begin <= p && 0 <= LowestRead(f, d, p, p - begin)
      && (LowestRead(f, d, p, p - begin) < begin <==> p == begin)
  {
    ParseFieldKeepsInv(f, d, s);
    var begin := s.rowStart + FieldBegin(f, d, s);
    var p := SkipPlain(f, d, SkipWs(f, d, s.pos), s.quoted);
    assert begin < |d| ==> !Ws(f, d[begin]);
    if begin < p { TrimStops(f, d, begin, p); }
  }

  lemma {:induction false} TrimStops(f: Format, d: Text, begin: nat, end: nat)
    requires begin < end <= |d| && !Ws(f, d[begin])
    ensures LowestRead(f, d, end, end - begin) >= begin && TrimBack(f, d, end, end - begin) > 0
  {
    if Ws(f, d[end - 1]) { TrimStops(f, d, begin, end - 1); }
  }

  /** That happens: at the end of a text of trim characters alone, a field begins,
      and the loop looks at the character before it. */
  lemma TrimReadsBefore(f: Format, d: Text)
    requires d != [] && forall i :: 0 <= i < |d| ==> Ws(f, d[i]) && Plain(f, d[i], false)
    ensures Inv(f, d, INITIAL)
    ensures var begin := FieldBegin(f, d, INITIAL);
      var p := SkipPlain(f, d, SkipWs(f, d, 0), false);
      begin == p == |d| && LowestRead(f, d, p, p - begin) == begin - 1
  {
  }
}
