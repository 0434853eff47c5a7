/** The parser as it runs (lib/csv-parser/csv.hpp, IBasicCSVParser, MmapParser and
    RawCSVData), method by method against the functions of CsvScan and CsvWindow. */
module CsvParser {
  import opened Common
  import opened Words
  import opened CsvScan
  import opened CsvDocument
  import opened FieldLists
  import W = CsvWindow

  // ---------------------------------------------------------------- character tables

  /** The tables hold what the format says of every character. */
  ghost predicate IsFlagTable(f: Format, t: seq<nat>) {
    |t| == 256 && forall ch: Char {:trigger Flag(f, ch)} :: t[ch + 128] == Flag(f, ch)
  }

  ghost predicate IsWsTable(f: Format, t: seq<bool>) {
    |t| == 256 && forall ch: Char {:trigger Ws(f, ch)} :: t[ch + 128] == Ws(f, ch)
  }

  /** The quote's entry is written last, and so wins over the delimiter's. */
  method MakeParseFlags(f: Format) returns (flags: array<nat>)
    ensures fresh(flags) && IsFlagTable(f, flags[..])
  {
    flags := new nat[256];
    ghost var g := f.(quote := None);
    var i: int := -128;
    while i < 128
      invariant -128 <= i <= 128
      invariant forall ch: Char {:trigger Flag(g, ch)} :: ch < i ==> flags[ch + 128] == Flag(g, ch)
    {
      if i == f.delim {
        flags[i + 128] := DELIMITER;
      } else if i == CR || i == LF {
        flags[i + 128] := NEWLINE;
      } else {
        flags[i + 128] := NOT_SPECIAL;
      }
      i := i + 1;
    }
    if f.quote.Some? {
      flags[f.quote.value + 128] := QUOTE;
    }
    assert forall ch: Char {:trigger Flag(f, ch)} :: f.quote != Some(ch) ==> Flag(f, ch) == Flag(g, ch);
  }

  method MakeWsFlags(f: Format, wsChars: seq<Char>) returns (flags: array<bool>)
    requires f.trim == set ch | ch in wsChars
    ensures fresh(flags) && IsWsTable(f, flags[..])
  {
    flags := new bool[256];
    var i: int := -128;
    while i < 128
      invariant -128 <= i <= 128
      invariant forall ch: Char {:trigger Ws(f, ch)} :: ch < i ==> flags[ch + 128] == Ws(f, ch)
    {
      flags[i + 128] := false;
      var j := 0;
      while j < |wsChars|
        invariant 0 <= j <= |wsChars|
        invariant flags[i + 128] == (i in wsChars[..j])
        invariant forall ch: Char {:trigger Ws(f, ch)} :: ch < i ==> flags[ch + 128] == Ws(f, ch)
      {
        if wsChars[j] == i { flags[i + 128] := true; }
        j := j + 1;
      }
      assert wsChars[..j] == wsChars;
      i := i + 1;
    }
  }

  // ---------------------------------------------------------------- one chunk of text and its fields

  datatype Result<T> = Success(value: T) | Failure(message: string)

  /** A finished row refers to its chunk's fields by their number. */
  datatype Row = Row(data: RawData, start: nat, fieldsStart: nat, length: nat)

  class RawData {
    const data: Text
    const parseFlags: seq<nat>
    const fields: FieldList<RawField>
    var doubleQuoteFields: map<nat, Text>
    /** Where the row of each field starts. */
    ghost var owner: seq<nat>

    constructor (data: Text, parseFlags: seq<nat>, capacity: nat)
      requires capacity > 0
      ensures this.data == data && this.parseFlags == parseFlags && doubleQuoteFields == map[] && owner == []
      ensures fields.Valid() && fresh(fields) && fresh(fields.Repr) && this !in fields.Repr && fields.Contents() == []
    {
      this.data := data;
      this.parseFlags := parseFlags;
      this.fields := new FieldList(capacity);
      doubleQuoteFields := map[];
      owner := [];
    }

    /** What is cached for a field is empty or its value. */
    ghost predicate CacheValid(f: Format)
      requires fields.Valid()
      reads this, fields, fields.Repr
    {
      |owner| == |fields.Contents()| && forall k :: k in doubleQuoteFields ==>
        k < |owner| && (doubleQuoteFields[k] == [] ||
                        doubleQuoteFields[k] == FieldValue(f, data, owner[k], fields.Contents()[k]))
    }

    ghost predicate Ready(f: Format)
      reads this, fields, fields.Repr
    {
      fields.Valid() && this !in fields.Repr && IsFlagTable(f, parseFlags) && CacheValid(f)
    }

    /** The row's fields are the row's, and inside the text. */
    ghost predicate Placed(row: Row)
      reads this`owner, fields, fields.Repr
    {
      && row.data == this && fields.Valid() && |owner| == |fields.Contents()| && row.fieldsStart + row.length <= |owner|
      && forall k :: row.fieldsStart <= k < row.fieldsStart + row.length ==>
           owner[k] == row.start && row.start + End(fields.Contents()[k]) <= |data|
    }

    /** The value of a row's field; un-doubled at the first call, looked up after it. */
    method GetField(ghost f: Format, row: Row, index: nat) returns (r: Result<Text>)
      requires Ready(f) && Placed(row)
      modifies this`doubleQuoteFields
      ensures Ready(f) && Placed(row) && fields.Contents() == old(fields.Contents())
      ensures r == if index >= row.length then Failure("Index out of bounds.")
                   else Success(FieldValue(f, data, row.start, fields.Contents()[row.fieldsStart + index]))
    {
      hide FieldValue, Undouble, Flat, IsFlagTable, FieldList.Valid, FieldList.Contents;
      if index >= row.length {
        return Failure("Index out of bounds.");
      }
      var fieldIndex := row.fieldsStart + index;
      var field := fields.Get(fieldIndex);
      var fieldStr := data[row.start + field.start..];
      ValueOfRaw(f, data, row.start, field);
      if !field.doubled {
        return Success(fieldStr[..field.length]);
      }
      var value := if fieldIndex in doubleQuoteFields then doubleQuoteFields[fieldIndex] else [];
      if value == [] {
        value := Undoubled(f, parseFlags, fieldStr[..field.length]);
      }
      doubleQuoteFields := doubleQuoteFields[fieldIndex := value];
      return Success(value);
    }
  }

  /** A row is ready to be read, and its texts are these. */
  ghost predicate Shows(f: Format, row: Row, texts: seq<Text>)
    reads row.data, row.data.fields, row.data.fields.Repr
  {
    && row.data.Ready(f) && row.data.Placed(row)
    && texts == RowValue(f, row.data.data, row.start, Part(row.data.fields.Contents(), row.fieldsStart, row.length))
  }

  ghost predicate AllShow(f: Format, rows: seq<Row>, texts: seq<seq<Text>>)
    reads set i | 0 <= i < |rows| :: rows[i].data
    reads set i | 0 <= i < |rows| :: rows[i].data.fields
    reads set i, o | 0 <= i < |rows| && o in rows[i].data.fields.Repr :: o
  {
    |rows| == |texts| && forall i :: 0 <= i < |rows| ==> Shows(f, rows[i], texts[i])
  }

  /** A list of fields is kept in no other chunk's data. */
  lemma NotInFields(fields: FieldList<RawField>, other: RawData)
    requires fields.Valid()
    ensures other !in fields.Repr
  {
  }

  lemma AllShowBoth(f: Format, a: seq<Row>, x: seq<seq<Text>>, b: seq<Row>, y: seq<seq<Text>>)
    requires AllShow(f, a, x) && AllShow(f, b, y)
    ensures AllShow(f, a + b, x + y)
  {
    hide Shows;
    forall i | 0 <= i < |a + b| ensures Shows(f, (a + b)[i], (x + y)[i]) {
      if i < |a| { assert Shows(f, a[i], x[i]); } else { assert Shows(f, b[i - |a|], y[i - |a|]); }
    }
  }

  /** The conversion of a row to strings. */
  method RowTexts(ghost f: Format, row: Row, ghost texts: seq<Text>) returns (r: seq<Text>)
    requires Shows(f, row, texts)
    modifies row.data`doubleQuoteFields
    ensures Shows(f, row, texts) && r == texts
  {
    hide FieldValue, RowValue, RawData.Ready, FieldList.Valid, FieldList.Contents;
    var fields := row.data.fields;
    ghost var part := Part(fields.Contents(), row.fieldsStart, row.length);
    r := [];
    NoTexts(f, row.data.data, row.start);
    for i := 0 to row.length
      invariant row.data.Ready(f) && row.data.Placed(row) && fields.Contents() == old(fields.Contents())
      invariant r == RowValue(f, row.data.data, row.start, part[..i])
    {
      var field := row.data.GetField(f, row, i);
      OneMoreText(f, row.data.data, row.start, part, i);
      r := r + [field.value];
    }
    assert part[..row.length] == part;
  }

  lemma NoTexts(f: Format, d: Text, start: nat)
    ensures RowValue(f, d, start, []) == []
  {
  }

  lemma OneMoreText(f: Format, d: Text, start: nat, fields: seq<RawField>, i: nat)
    requires i < |fields|
    ensures RowValue(f, d, start, fields[..i + 1])
      == RowValue(f, d, start, fields[..i]) + [FieldValue(f, d, start, fields[i])]
  {
    assert fields[..i + 1][..i] == fields[..i];
  }

  lemma ValueOfRaw(f: Format, data: Text, start: nat, x: RawField)
    requires start + End(x) <= |data|
    ensures var raw := data[start + x.start..][..x.length];
      FieldValue(f, data, start, x) == if x.doubled then Undouble(f, raw, false) else raw
  {
    assert data[start + x.start..][..x.length] == Slice(data, start + x.start, x.length);
  }

  lemma QuoteEntry(f: Format, t: seq<nat>, ch: Char)
    requires IsFlagTable(f, t)
    ensures |t| == 256 && t[ch + 128] == Flag(f, ch)
    ensures t[ch + 128] == QUOTE <==> f.quote == Some(ch)
  {
    assert t[ch + 128] == Flag(f, ch);
  }

  method Undoubled(ghost f: Format, parseFlags: seq<nat>, raw: Text) returns (value: Text)
    requires IsFlagTable(f, parseFlags)
    ensures value == Undouble(f, raw, false)
  {
    hide IsFlagTable, Flag, Undouble;
    value := [];
    var prevQuote := false;
    var i := 0;
    while i < |raw|
      invariant 0 <= i <= |raw|
      invariant value + Undouble(f, raw[i..], prevQuote) == Undouble(f, raw, false)
    {
      UndoubleStep(f, raw, i, prevQuote);
      QuoteEntry(f, parseFlags, raw[i]);
      if parseFlags[raw[i] + 128] == QUOTE && prevQuote {
        prevQuote := false;
      } else {
        if parseFlags[raw[i] + 128] == QUOTE { prevQuote := true; }
        value := value + [raw[i]];
      }
      i := i + 1;
    }
    assert raw[i..] == [];
    UndoubleEnd(f, prevQuote);
  }

  lemma UndoubleEnd(f: Format, prevQuote: bool)
    ensures Undouble(f, [], prevQuote) == []
  {
  }

  lemma UndoubleStep(f: Format, raw: Text, i: nat, prevQuote: bool)
    requires i < |raw|
    ensures Undouble(f, raw[i..], prevQuote) ==
      if f.quote == Some(raw[i]) then
        if prevQuote then Undouble(f, raw[i + 1..], false) else [raw[i]] + Undouble(f, raw[i + 1..], true)
      else [raw[i]] + Undouble(f, raw[i + 1..], prevQuote)
  {
    assert raw[i..][1..] == raw[i + 1..];
  }

  // ---------------------------------------------------------------- the parser

  function Part(fields: seq<RawField>, from: nat, n: nat): seq<RawField> {
    if from + n <= |fields| then fields[from..from + n] else []
  }

  function Resolve(rows: seq<Row>, fields: seq<RawField>): (r: seq<RawRow>)
    ensures |r| == |rows|
  {
    seq(|rows|, i requires 0 <= i < |rows| => RawRow(rows[i].start, Part(fields, rows[i].fieldsStart, rows[i].length)))
  }

  ghost predicate Inside(rows: seq<Row>, chunk: RawData, n: nat) {
    forall i :: 0 <= i < |rows| ==> rows[i].data == chunk && rows[i].fieldsStart + rows[i].length <= n
  }

  lemma ResolveMore(rows: seq<Row>, chunk: RawData, fields: seq<RawField>, x: RawField)
    requires Inside(rows, chunk, |fields|)
    ensures Resolve(rows, fields + [x]) == Resolve(rows, fields) && Inside(rows, chunk, |fields| + 1)
  {
    forall i | 0 <= i < |rows|
      ensures Part(fields + [x], rows[i].fieldsStart, rows[i].length) == Part(fields, rows[i].fieldsStart, rows[i].length)
    {
    }
  }

  /** From a field on, fields belong to the row that starts at `start`; those before
      belong to the rows that have them. */
  ghost predicate Owned(rows: seq<Row>, owner: seq<nat>, from: nat, start: nat) {
    && (forall k :: from <= k < |owner| ==> owner[k] == start)
    && (forall i :: 0 <= i < |rows| ==> OwnedRow(rows[i], owner))
  }

  ghost predicate OwnedRow(row: Row, owner: seq<nat>) {
    row.fieldsStart + row.length <= |owner| &&
    forall k :: row.fieldsStart <= k < row.fieldsStart + row.length ==> owner[k] == row.start
  }

  lemma OwnedMore(rows: seq<Row>, owner: seq<nat>, from: nat, start: nat)
    requires Owned(rows, owner, from, start) && from <= |owner|
    ensures Owned(rows, owner + [start], from, start)
  {
    forall i | 0 <= i < |rows| ensures OwnedRow(rows[i], owner + [start]) {
      assert OwnedRow(rows[i], owner);
    }
  }

  lemma OwnedAppend(rows: seq<Row>, owner: seq<nat>, row: Row)
    requires Owned(rows, owner, row.fieldsStart, row.start) && row.fieldsStart + row.length <= |owner|
    ensures Owned(rows + [row], owner, row.fieldsStart, row.start)
  {
  }

  lemma OwnedReset(rows: seq<Row>, owner: seq<nat>, from: nat, start: nat, next: nat)
    requires Owned(rows, owner, from, start)
    ensures Owned(rows, owner, |owner|, next)
  {
  }

  lemma NoRows(chunk: RawData)
    ensures Inside([], chunk, 0) && Owned([], [], 0, 0)
  {
  }

  lemma ResolveRow(rows: seq<Row>, fields: seq<RawField>, row: Row)
    ensures Resolve(rows + [row], fields) == Resolve(rows, fields)
      + [RawRow(row.start, Part(fields, row.fieldsStart, row.length))]
  {
  }

  lemma {:induction false} ValuesAt(f: Format, d: Text, rows: seq<RawRow>, i: nat)
    requires i < |rows|
    ensures Values(f, d, rows)[i] == RowValue(f, d, rows[i].start, rows[i].fields)
    decreases |rows|
  {
    hide RowValue;
    if i < |rows| - 1 { ValuesAt(f, d, rows[..|rows| - 1], i); }
  }

  lemma RowPlaced(rows: seq<Row>, owner: seq<nat>, from: nat, start: nat, i: nat, fields: seq<RawField>, limit: nat)
    requires Owned(rows, owner, from, start) && |owner| == |fields| && i < |rows|
    requires W.FieldsEndBy(Resolve(rows, fields), limit)
    ensures var row := rows[i];
      && row.fieldsStart + row.length <= |owner|
      && Resolve(rows, fields)[i] == RawRow(row.start, Part(fields, row.fieldsStart, row.length))
      && forall k :: row.fieldsStart <= k < row.fieldsStart + row.length ==>
           owner[k] == row.start && row.start + End(fields[k]) <= limit
  {
    var row, part := rows[i], Part(fields, rows[i].fieldsStart, rows[i].length);
    assert OwnedRow(row, owner);
    forall k | row.fieldsStart <= k < row.fieldsStart + row.length ensures row.start + End(fields[k]) <= limit {
      assert fields[k] == part[k - row.fieldsStart] == Resolve(rows, fields)[i].fields[k - row.fieldsStart];
    }
  }

  lemma PlainStep(f: Format, d: Text, s: Scan)
    requires s.pos < |d| && Inv(f, d, s) && CompoundFlag(f, d[s.pos], s.quoted) == NOT_SPECIAL
    ensures Plain(f, d[s.pos], s.quoted) && Step(f, d, s) == Some(CsvScan.ParseField(f, d, s))
  {
  }

  function NewlineEnd(f: Format, d: Text, pos: nat): nat {
    if pos + 1 < |d| && Flag(f, d[pos + 1]) == NEWLINE then pos + 2 else pos + 1
  }

  lemma NewlineStep(f: Format, d: Text, s: Scan)
    requires s.pos < |d| && Inv(f, d, s) && CompoundFlag(f, d[s.pos], s.quoted) == NEWLINE
    ensures var q := NewlineEnd(f, d, s.pos); var t := CsvScan.PushField(s.(pos := q));
      Step(f, d, s) == Some(t.(rows := CsvScan.PushRow(t).rows, rowStart := q, cur := []))
  {
  }

  lemma FlagKinds(f: Format, ch: Char, quoted: bool)
    ensures CompoundFlag(f, ch, quoted) in {QUOTE_ESCAPE_QUOTE, QUOTE, NOT_SPECIAL, DELIMITER, NEWLINE}
  {
  }

  class Parser {
    const parseFlags: seq<nat>
    const wsFlags: seq<bool>
    const pageSize: nat
    ghost const fmt: Format
    var dataPtr: RawData
    var dataPos: nat
    var rowStart: nat
    var fieldsStart: nat
    var rowLength: nat
    var fieldStart: int
    var fieldLength: nat
    var hasDoubleQuote: bool
    var quoteEscape: bool
    var bomScan: bool
    var utf8Bom: bool
    var records: seq<Row>
    ghost var earlier: nat
    ghost var owner: seq<nat>

    ghost predicate Tables() {
      pageSize > 0 && NonOverlapping(fmt) && IsFlagTable(fmt, parseFlags) && IsWsTable(fmt, wsFlags)
    }

    ghost predicate Valid()
      reads this, dataPtr, dataPtr.fields, dataPtr.fields.Repr
    {
      && Tables() && dataPtr.fields.Valid() && this !in dataPtr.fields.Repr && dataPtr !in dataPtr.fields.Repr
      && fieldsStart + rowLength == |Fields()| && earlier <= |records|
      && Inside(records[earlier..], dataPtr, |Fields()|)
      && |owner| == |Fields()| && Owned(records[earlier..], owner, fieldsStart, rowStart)
      && |dataPtr.data| < INT_LIMIT
    }

    ghost function Fields(): seq<RawField>
      requires dataPtr.fields.Valid()
      reads this, dataPtr, dataPtr.fields, dataPtr.fields.Repr
    {
      dataPtr.fields.Contents()
    }

    /** The scanner's state: the fields of the current row, and the rows finished in this chunk. */
    ghost function Abs(): Scan
      requires Valid()
      reads this, dataPtr, dataPtr.fields, dataPtr.fields.Repr
    {
      Scan(dataPos, rowStart, fieldStart, fieldLength, hasDoubleQuote, quoteEscape,
           Fields()[fieldsStart..], Resolve(records[earlier..], Fields()))
    }

    constructor (f: Format, wsChars: seq<Char>, pageSize: nat)
      requires NonOverlapping(f) && f.trim == (set ch | ch in wsChars) && pageSize > 0
      ensures Tables() && fmt == f && records == [] && !bomScan && !hasDoubleQuote && fieldStart == -1 && fieldLength == 0
    {
      this.pageSize := pageSize;
      fmt := f;
      var flags := MakeParseFlags(f);
      var ws := MakeWsFlags(f, wsChars);
      parseFlags := flags[..];
      wsFlags := ws[..];
      dataPtr := new RawData([], flags[..], pageSize);
      dataPos, rowStart, fieldsStart, rowLength, fieldStart, fieldLength := 0, 0, 0, 0, -1, 0;
      hasDoubleQuote, quoteEscape, bomScan, utf8Bom := false, false, false, false;
      records := [];
      earlier := 0;
      owner := [];
    }

    function ParseFlag(ch: Char): (r: nat)
      requires Tables()
      ensures r == Flag(fmt, ch)
    {
      assert parseFlags[ch + 128] == Flag(fmt, ch);
      parseFlags[ch + 128]
    }

    function CompoundParseFlag(ch: Char): (r: nat)
      requires Tables()
      reads this
      ensures r == CompoundFlag(fmt, ch, quoteEscape)
    {
      FlagTable(fmt, ch, quoteEscape);
      QuoteEscapeFlag(ParseFlag(ch), quoteEscape)
    }

    function WsFlag(ch: Char): (r: bool)
      requires Tables()
      ensures r == Ws(fmt, ch)
    {
      assert wsFlags[ch + 128] == Ws(fmt, ch);
      wsFlags[ch + 128]
    }

    /** One more field of the current row. */
    method AddField(x: RawField)
      requires Valid()
      modifies this`owner, this`rowLength, dataPtr.fields.Repr
      ensures Valid() && fresh(dataPtr.fields.Repr - old(dataPtr.fields.Repr))
      ensures Abs() == old(Abs()).(cur := old(Abs()).cur + [x])
    {
      hide Resolve, Inside, Owned, IsFlagTable, IsWsTable, Flat, FieldList.Valid, FieldList.Contents, FieldList.Last;
      ghost var before := Fields();
      ResolveMore(records[earlier..], dataPtr, before, x);
      OwnedMore(records[earlier..], owner, fieldsStart, rowStart);
      dataPtr.fields.EmplaceBack(x);
      owner := owner + [rowStart];
      rowLength := rowLength + 1;
      assert Fields() == before + [x];
    }

    method PushField()
      requires Valid()
      modifies this, dataPtr.fields.Repr
      ensures Valid() && fresh(dataPtr.fields.Repr - old(dataPtr.fields.Repr))
      ensures Abs() == CsvScan.PushField(old(Abs()))
      ensures dataPtr == old(dataPtr) && bomScan == old(bomScan) && earlier == old(earlier)
      ensures records == old(records) && fieldsStart == old(fieldsStart)
    {
      hide Resolve, Inside, Owned, IsFlagTable, IsWsTable, Flat, FieldList.Valid, FieldList.Contents, FieldList.Last;
      if hasDoubleQuote {
        AddField(RawField(if fieldStart < 0 then 0 else fieldStart, fieldLength, true));
        hasDoubleQuote := false;
      } else {
        AddField(RawField(if fieldStart < 0 then 0 else fieldStart, fieldLength, false));
      }
      fieldStart, fieldLength := -1, 0;
    }

    method PushRow()
      requires Valid()
      modifies this`records
      ensures Valid()
      ensures Abs() == old(Abs()).(rows := CsvScan.PushRow(old(Abs())).rows)
      ensures old(records) <= records
    {
      hide Resolve, Owned, IsFlagTable, IsWsTable, Flat;
      var n := dataPtr.fields.Size();
      var row := Row(dataPtr, rowStart, fieldsStart, n - fieldsStart);
      ResolveRow(records[earlier..], Fields(), row);
      OwnedAppend(records[earlier..], owner, row);
      assert (records + [row])[earlier..] == records[earlier..] + [row];
      assert Part(Fields(), fieldsStart, n - fieldsStart) == Fields()[fieldsStart..];
      records := records + [row];
    }

    /** The text of the current chunk. */
    function In(): Text
      reads this
    {
      dataPtr.data
    }

    /** The three loops of parse_field. */
    method SkipLeading(data: Text, from: nat) returns (p: nat)
      requires Tables() && from <= |data|
      ensures p == SkipWs(fmt, data, from)
    {
      p := from;
      while p < |data| && WsFlag(data[p])
        invariant p <= |data| && SkipWs(fmt, data, p) == SkipWs(fmt, data, from)
      {
        p := p + 1;
      }
    }

    method SkipText(data: Text, from: nat) returns (p: nat)
      requires Tables() && from <= |data|
      ensures p == SkipPlain(fmt, data, from, quoteEscape)
    {
      p := from;
      while p < |data| && CompoundParseFlag(data[p]) == NOT_SPECIAL
        invariant p <= |data| && SkipPlain(fmt, data, p, quoteEscape) == SkipPlain(fmt, data, from, quoteEscape)
      {
        p := p + 1;
      }
    }

    method TrimTrailing(data: Text, end: nat, length: nat) returns (n: nat)
      requires Tables() && 0 < end <= |data| && length <= end
      requires length > 0 ==> !Ws(fmt, data[end - length])
      ensures n == TrimBack(fmt, data, end, length)
    {
      n := length;
      var j := end - 1;
      while WsFlag(data[j]) && n > 0
        invariant 0 <= j < end && n <= length && n <= j + 1
        invariant if length == 0 then n == 0 else n > 0 && j + 1 - n == end - length
        invariant TrimBack(fmt, data, j + 1, n) == TrimBack(fmt, data, end, length)
      {
        n := n - 1;
        j := j - 1;
      }
    }

    /** Where the field's text starts and ends, and how long it is without what is trimmed. */
    method FindField() returns (p: nat, start: int, n: nat)
      requires Valid() && Inv(fmt, In(), Abs()) && dataPos < |In()| && Plain(fmt, In()[dataPos], quoteEscape)
      ensures CsvScan.ParseField(fmt, In(), Abs()) == Abs().(pos := p, start := start, len := n)
    {
      hide Resolve, Inside, Owned, IsFlagTable, IsWsTable, Flat, Ws, Flag, Inv, SkipWs, SkipPlain, TrimBack;
      hide FullPages, CompoundFlag, IntCast;
      hide FieldList.Valid, FieldList.Contents, FieldList.Last, NonOverlapping;
      ParseFieldBounds(fmt, In(), Abs());
      p := SkipLeading(In(), dataPos);
      CastExact(p - rowStart);
      start := if fieldStart == -1 then IntCast(p - rowStart) else fieldStart;
      p := SkipText(In(), p);
      n := TrimTrailing(In(), p, p - (start + rowStart));
    }

    method ParseField()
      requires Valid() && Inv(fmt, In(), Abs()) && dataPos < |In()| && Plain(fmt, In()[dataPos], quoteEscape)
      modifies this`dataPos, this`fieldStart, this`fieldLength
      ensures Valid() && Abs() == CsvScan.ParseField(fmt, In(), old(Abs()))
    {
      hide Resolve, Inside, Owned, IsFlagTable, IsWsTable, Flat, CsvScan.ParseField, Inv;
      hide FieldList.Valid, FieldList.Contents, FieldList.Last, NonOverlapping;
      dataPos, fieldStart, fieldLength := FindField();
    }

    /** current_row begins again at the cursor. */
    method ResetRow()
      requires Valid()
      modifies this`rowStart, this`fieldsStart, this`rowLength
      ensures Valid() && Abs() == old(Abs()).(rowStart := dataPos, cur := [])
    {
      hide Resolve, Inside, Owned, IsFlagTable, IsWsTable, Flat;
      OwnedReset(records[earlier..], owner, fieldsStart, rowStart, dataPos);
      rowStart := dataPos;
      fieldsStart := dataPtr.fields.Size();
      rowLength := 0;
    }

    /** Past one or two newline characters. */
    method PassNewline()
      requires Valid() && dataPos < |In()|
      modifies this`dataPos
      ensures Valid() && dataPos == NewlineEnd(fmt, In(), old(dataPos)) && Abs() == old(Abs()).(pos := dataPos)
    {
      hide Resolve, Inside, Owned, IsFlagTable, IsWsTable, Flat, FieldList.Valid, FieldList.Contents, FieldList.Last;
      hide Flag, NonOverlapping;
      dataPos := dataPos + 1;
      if dataPos < |In()| && ParseFlag(In()[dataPos]) == NEWLINE {
        dataPos := dataPos + 1;
      }
    }

    method NewlineCase()
      requires Valid() && Inv(fmt, In(), Abs()) && dataPos < |In()|
      requires CompoundFlag(fmt, In()[dataPos], quoteEscape) == NEWLINE
      modifies this, dataPtr.fields.Repr
      ensures Valid() && fresh(dataPtr.fields.Repr - old(dataPtr.fields.Repr)) && Same(old(dataPtr), old(bomScan), old(earlier))
      ensures Step(fmt, In(), old(Abs())) == Some(Abs()) && old(records) <= records
    {
      hide Valid, Abs, Inv, Step, NonOverlapping, Flag, CompoundFlag, IsFlagTable, IsWsTable;
      AbsCursor();
      NewlineStep(fmt, In(), Abs());
      PassNewline();
      PushField();
      PushRow();
      AbsCursor();
      ResetRow();
    }

    ghost predicate Same(chunk: RawData, scanned: bool, n: nat)
      reads this
    {
      dataPtr == chunk && bomScan == scanned && earlier == n
    }

    /** A quote inside quotes; done if the data ends with it. */
    method EscapedQuote() returns (done: bool)
      requires Valid() && Inv(fmt, In(), Abs()) && dataPos < |In()|
      requires CompoundFlag(fmt, In()[dataPos], quoteEscape) == QUOTE_ESCAPE_QUOTE
      modifies this`dataPos, this`quoteEscape, this`fieldLength, this`hasDoubleQuote
      ensures Valid() && Step(fmt, In(), old(Abs())) == if done then None else Some(Abs())
      ensures done ==> Abs() == old(Abs())
    {
      hide Resolve, Inside, Owned, IsFlagTable, IsWsTable, Flat, FieldList.Valid, FieldList.Contents, FieldList.Last;
      hide Flag, Ws, NonOverlapping, Inv;
      if dataPos + 1 == |In()| {
        return true;
      }
      var next := ParseFlag(In()[dataPos + 1]);
      if next >= DELIMITER {
        quoteEscape := false;
        dataPos := dataPos + 1;
      } else if next == QUOTE {
        dataPos := dataPos + 2;
        fieldLength := fieldLength + 2;
        hasDoubleQuote := true;
      } else {
        fieldLength := fieldLength + 1;
        dataPos := dataPos + 1;
      }
      return false;
    }

    /** A quote outside quotes: it opens quotes if nothing of the field came before. */
    method OuterQuote()
      requires Valid() && Inv(fmt, In(), Abs()) && dataPos < |In()|
      requires CompoundFlag(fmt, In()[dataPos], quoteEscape) == QUOTE
      modifies this`dataPos, this`quoteEscape, this`fieldLength, this`fieldStart
      ensures Valid() && Step(fmt, In(), old(Abs())) == Some(Abs())
    {
      hide Resolve, Inside, Owned, IsFlagTable, IsWsTable, Flat, FieldList.Valid, FieldList.Contents, FieldList.Last;
      hide Flag, Ws, NonOverlapping, IntCast;
      if fieldLength == 0 {
        quoteEscape := true;
        dataPos := dataPos + 1;
        if fieldStart == -1 && dataPos < |In()| && !WsFlag(In()[dataPos]) {
          CastExact(dataPos - rowStart);
          fieldStart := IntCast(dataPos - rowStart);
        }
      } else {
        fieldLength := fieldLength + 1;
        dataPos := dataPos + 1;
      }
    }

    method DelimiterCase()
      requires Valid() && Inv(fmt, In(), Abs()) && dataPos < |In()|
      requires CompoundFlag(fmt, In()[dataPos], quoteEscape) == DELIMITER
      modifies this, dataPtr.fields.Repr
      ensures Valid() && fresh(dataPtr.fields.Repr - old(dataPtr.fields.Repr)) && Same(old(dataPtr), old(bomScan), old(earlier))
      ensures Step(fmt, In(), old(Abs())) == Some(Abs()) && old(records) <= records
    {
      hide Resolve, Inside, Owned, IsFlagTable, IsWsTable, Flat, FieldList.Valid, FieldList.Contents, FieldList.Last;
      hide Flag, Ws, NonOverlapping;
      PushField();
      dataPos := dataPos + 1;
    }

    /** One turn of parse's loop; done when it returns early. */
    method Turn() returns (done: bool)
      requires Valid() && Inv(fmt, In(), Abs()) && dataPos < |In()|
      modifies this, dataPtr.fields.Repr
      ensures Valid() && fresh(dataPtr.fields.Repr - old(dataPtr.fields.Repr)) && Same(old(dataPtr), old(bomScan), old(earlier))
      ensures Step(fmt, In(), old(Abs())) == if done then None else Some(Abs())
      ensures old(records) <= records && (done ==> Abs() == old(Abs()))
    {
      hide Valid, Abs, Inv, Step, NonOverlapping, QuoteEscapeFlag, Flag, IsFlagTable, IsWsTable;
      ValidTables();
      done := false;
      var flag := CompoundParseFlag(In()[dataPos]);
      AbsCursor();
      if flag == DELIMITER {
        DelimiterCase();
      } else if flag == NEWLINE {
        NewlineCase();
      } else if flag == NOT_SPECIAL {
        PlainStep(fmt, In(), Abs());
        ParseField();
      } else if flag == QUOTE_ESCAPE_QUOTE {
        done := EscapedQuote();
      } else {
        FlagKinds(fmt, In()[dataPos], quoteEscape);
        OuterQuote();
      }
    }

    lemma ValidTables()
      requires Valid()
      ensures Tables()
    {
    }

    lemma AbsCursor()
      requires Valid()
      ensures Abs().pos == dataPos && Abs().quoted == quoteEscape
    {
    }

    method TrimUtf8Bom()
      requires Valid() && dataPos == 0
      modifies this`dataPos, this`bomScan, this`utf8Bom
      ensures Valid() && Abs() == old(Abs()).(pos := if !old(bomScan) && HasBom(In()) then 3 else 0)
      ensures bomScan == (old(bomScan) || |In()| >= 3)
    {
      hide Resolve, Inside, Owned, IsFlagTable, IsWsTable;
      hide Flat, FieldList.Valid, FieldList.Contents, FieldList.Last, NonOverlapping;
      if !bomScan && |In()| >= 3 {
        if In()[0] == 0xEF - 256 && In()[1] == 0xBB - 256 && In()[2] == 0xBF - 256 {
          dataPos := dataPos + 3;
          utf8Bom := true;
        }
        bomScan := true;
      }
    }

    /** Parses a chunk; returns how many characters belong to complete rows. */
    method Parse() returns (remainder: nat)
      requires Valid() && fieldStart == -1 && fieldLength == 0 && fieldsStart == 0 && Fields() == [] && earlier == |records|
      modifies this, dataPtr.fields.Repr
      ensures Valid() && fresh(dataPtr.fields.Repr - old(dataPtr.fields.Repr))
      ensures dataPtr == old(dataPtr) && earlier == old(earlier) && old(records) <= records
      ensures bomScan == (old(bomScan) || |In()| >= 3)
      ensures Abs() == Run(fmt, In(), Begin(In(), old(bomScan), old(hasDoubleQuote))) && remainder == Abs().rowStart
    {
      hide Inside, Owned, IsFlagTable, IsWsTable, Flat;
      hide FieldList.Valid, FieldList.Contents, FieldList.Last, NonOverlapping, Inv;
      ghost var s := Begin(In(), bomScan, hasDoubleQuote);
      OwnedReset(records[earlier..], owner, fieldsStart, rowStart, 0);
      quoteEscape := false;
      dataPos := 0;
      rowStart := 0;
      TrimUtf8Bom();
      assert Abs() == s;
      W.BeginInv(fmt, In(), old(bomScan), old(hasDoubleQuote));
      remainder := ParseLoop();
    }

    method ParseLoop() returns (remainder: nat)
      requires Valid() && Inv(fmt, In(), Abs())
      modifies this, dataPtr.fields.Repr
      ensures Valid() && fresh(dataPtr.fields.Repr - old(dataPtr.fields.Repr))
      ensures Same(old(dataPtr), old(bomScan), old(earlier)) && old(records) <= records
      ensures Abs() == Run(fmt, In(), old(Abs())) && remainder == Abs().rowStart
    {
      hide Resolve, Inside, Owned, IsFlagTable, IsWsTable, Flat, FieldList.Valid, FieldList.Contents, FieldList.Last;
      hide NonOverlapping, Inv, Step;
      ghost var s := Abs();
      while dataPos < |In()|
        invariant Valid() && fresh(dataPtr.fields.Repr - old(dataPtr.fields.Repr))
        invariant Same(old(dataPtr), old(bomScan), old(earlier)) && old(records) <= records
        invariant Inv(fmt, In(), Abs()) && Run(fmt, In(), Abs()) == Run(fmt, In(), s)
        decreases |In()| - dataPos
      {
        StepKeepsInv(fmt, In(), Abs());
        var done := Turn();
        if done { return rowStart; }
      }
      W.InvBounds(fmt, In(), Abs());
      return rowStart;
    }

    method EndFeed()
      requires Valid()
      modifies this, dataPtr.fields.Repr
      ensures Valid() && fresh(dataPtr.fields.Repr - old(dataPtr.fields.Repr))
      ensures Same(old(dataPtr), old(bomScan), old(earlier)) && old(records) <= records
      ensures Abs().rows == CsvScan.EndFeed(fmt, In(), old(Abs())).rows
      ensures hasDoubleQuote == CsvScan.EndFeed(fmt, In(), old(Abs())).doubled
    {
      hide Resolve, Inside, Owned, IsFlagTable, IsWsTable, Flat;
      hide FieldList.Valid, FieldList.Contents, FieldList.Last, NonOverlapping, Flag;
      var emptyLastField := |In()| > 0 && ParseFlag(In()[|In()| - 1]) == DELIMITER;
      if fieldLength > 0 || emptyLastField {
        PushField();
      }
      if rowLength > 0 {
        PushRow();
      }
    }

    /** Forgets the field and the row in progress and takes up new data. */
    method StartChunk(data: Text)
      requires Tables() && |data| < INT_LIMIT
      modifies this
      ensures Valid() && fresh(dataPtr) && fresh(dataPtr.fields) && fresh(dataPtr.fields.Repr) && In() == data
      ensures fieldStart == -1 && fieldLength == 0 && fieldsStart == 0 && Fields() == [] && earlier == |records|
      ensures records == old(records) && hasDoubleQuote == old(hasDoubleQuote) && bomScan == old(bomScan) && Unread()
    {
      hide IsFlagTable, IsWsTable, Flat, NonOverlapping, FieldList.Valid, FieldList.Contents, FieldList.Last;
      hide Resolve, Inside, Owned;
      fieldStart := -1;
      fieldLength := 0;
      dataPtr := new RawData(data, parseFlags, pageSize);
      rowStart, fieldsStart, rowLength := 0, 0, 0;
      earlier := |records|;
      owner := [];
      NoRows(dataPtr);
      assert records[earlier..] == [];
    }

    /** Nothing has been read from the current chunk. */
    ghost predicate Unread()
      reads this, dataPtr
    {
      dataPtr.doubleQuoteFields == map[] && dataPtr.parseFlags == parseFlags
    }

    /** Takes up a chunk, parses it, and ends the feed after the last one. */
    method Feed(data: Text, last: bool) returns (remainder: nat)
      requires Tables() && |data| < INT_LIMIT
      modifies this
      ensures Valid() && old(records) <= records && bomScan == (old(bomScan) || |data| >= 3)
      ensures fresh(dataPtr) && fresh(dataPtr.fields) && fresh(dataPtr.fields.Repr)
      ensures In() == data && earlier == |old(records)| && Unread()
      ensures var s := Run(fmt, data, Begin(data, old(bomScan), old(hasDoubleQuote)));
        && remainder == s.rowStart
        && Abs().rows == (if last then CsvScan.EndFeed(fmt, data, s) else s).rows
        && hasDoubleQuote == (if last then CsvScan.EndFeed(fmt, data, s) else s).doubled
    {
      hide Resolve, Inside, Owned, IsFlagTable, IsWsTable, Run, CsvScan.EndFeed, Begin;
      hide FieldList.Valid, FieldList.Contents, FieldList.Last, Flat, NonOverlapping, HasBom;
      ghost var scanned, doubled := bomScan, hasDoubleQuote;
      StartChunk(data);
      remainder := Parse();
      W.BeginInv(fmt, data, scanned, doubled);
      ghost var s := Run(fmt, data, Begin(data, scanned, doubled));
      assert Abs() == s;
      if last { EndFeed(); }
    }

    /** After a chunk is parsed, its rows are ready, with the values that were found. */
    method ParseChunk(data: Text, last: bool) returns (remainder: nat)
      requires Tables() && |data| < INT_LIMIT
      modifies this
      ensures Valid() && old(records) <= records && bomScan == (old(bomScan) || |data| >= 3)
      ensures fresh(dataPtr) && fresh(dataPtr.fields) && fresh(dataPtr.fields.Repr)
      ensures In() == data && AllShow(fmt, records[|old(records)|..], Values(fmt, data, Abs().rows))
      ensures forall i :: |old(records)| <= i < |records| ==> records[i].data == dataPtr
      ensures var s := Run(fmt, data, Begin(data, old(bomScan), old(hasDoubleQuote)));
        && remainder == s.rowStart
        && Abs().rows == (if last then CsvScan.EndFeed(fmt, data, s) else s).rows
        && hasDoubleQuote == (if last then CsvScan.EndFeed(fmt, data, s) else s).doubled
    {
      hide Run, CsvScan.EndFeed, Begin, Valid, Abs, AllShow, Values, W.FieldsEndBy;
      W.ScannedInside(fmt, data, W.FRESH_READER.(bomScanned := bomScan, doubled := hasDoubleQuote));
      remainder := Feed(data, last);
      HandOver();
    }

    /** The chunk learns which row each of its fields belongs to. */
    ghost method HandOver()
      requires Valid() && Unread()
      requires W.FieldsEndBy(Abs().rows, |In()|)
      modifies dataPtr`owner
      ensures Valid() && Abs() == old(Abs())
      ensures AllShow(fmt, records[earlier..], Values(fmt, In(), Abs().rows))
      ensures forall i :: earlier <= i < |records| ==> records[i].data == dataPtr
    {
      hide Resolve, IsFlagTable, IsWsTable, FieldList.Valid, FieldList.Contents, FieldList.Last, NonOverlapping;
      hide RowValue, Values, Owned, OwnedRow;
      dataPtr.owner := owner;
      ghost var rows, found := records[earlier..], Abs().rows;
      forall i | 0 <= i < |rows| ensures Shows(fmt, rows[i], Values(fmt, In(), found)[i]) {
        ValuesAt(fmt, In(), found, i);
        RowPlaced(rows, owner, fieldsStart, rowStart, i, Fields(), |In()|);
      }
      assert forall i :: earlier <= i < |records| ==> rows[i - earlier].data == records[i].data;
    }
  }

  // ---------------------------------------------------------------- windows over a file

  /** The reader after a window, part by part. */
  lemma NextParts(f: Format, d: Text, bytes: nat, chunk: nat, st: W.Reader)
    requires NonOverlapping(f) && st.pos <= |d|
    ensures var length := W.Min(|d| - st.pos, bytes);
      var w, last := d[st.pos..st.pos + length], st.pos + length == |d| || |d| < chunk;
      var s := Run(f, w, Begin(w, st.bomScanned, st.doubled));
      var t := if last then CsvScan.EndFeed(f, w, s) else s;
      W.Next(f, d, bytes, chunk, st) ==
        W.Reader(st.pos + s.rowStart, st.bomScanned || length >= 3, t.doubled, last,
                 st.rows + W.ShiftRows(t.rows, st.pos), st.values + Values(f, w, t.rows))
  {
    hide Run, CsvScan.EndFeed, Values;
  }

  class MmapParser {
    const base: Parser
    const source: Text
    const chunkSize: nat
    var mmapPos: nat
    var eof: bool
    ghost var reader: W.Reader

    /** The reader of CsvWindow is what the parser carries from window to window;
        the rows found are ready and have the reader's values. */
    ghost predicate Valid()
      reads this, base
      reads set i | 0 <= i < |base.records| :: base.records[i].data
      reads set i | 0 <= i < |base.records| :: base.records[i].data.fields
      reads set i, o | 0 <= i < |base.records| && o in base.records[i].data.fields.Repr :: o
    {
      && base.Tables() && mmapPos <= |source|
      && reader.pos == mmapPos && reader.eof == eof
      && reader.bomScanned == base.bomScan && reader.doubled == base.hasDoubleQuote
      && AllShow(base.fmt, base.records, reader.values) && Apart({this, base})
    }

    /** No row's data is among these objects. */
    ghost predicate Apart(others: set<object>)
      reads base
      reads set i | 0 <= i < |base.records| :: base.records[i].data.fields
    {
      forall i :: 0 <= i < |base.records| ==> base.records[i].data.fields.Repr !! others
    }

    constructor (source: Text, chunkSize: nat, f: Format, wsChars: seq<Char>, pageSize: nat)
      requires NonOverlapping(f) && f.trim == (set ch | ch in wsChars) && pageSize > 0
      ensures Valid() && fresh(base) && base.records == [] && !eof && reader == W.FRESH_READER
      ensures this.source == source && this.chunkSize == chunkSize && base.fmt == f
    {
      this.source := source;
      this.chunkSize := chunkSize;
      base := new Parser(f, wsChars, pageSize);
      mmapPos := 0;
      eof := false;
      reader := W.FRESH_READER;
    }

    /** Parses the next characters; the rows found before stay as they are. */
    method TakeWindow(length: nat, last: bool) returns (remainder: nat)
      requires Valid() && mmapPos + length <= |source| && length < INT_LIMIT
      modifies base
      ensures base.Valid() && old(base.records) <= base.records && Apart({this, base})
      ensures forall i :: |old(base.records)| <= i < |base.records| ==>
        fresh(base.records[i].data) && fresh(base.records[i].data.fields.Repr)
      ensures fresh(base.dataPtr) && fresh(base.dataPtr.fields) && fresh(base.dataPtr.fields.Repr)
      ensures base.bomScan == (old(base.bomScan) || length >= 3)
      ensures var w := source[mmapPos..mmapPos + length];
        var s := Run(base.fmt, w, Begin(w, old(base.bomScan), old(base.hasDoubleQuote)));
        var t := if last then CsvScan.EndFeed(base.fmt, w, s) else s;
        && remainder == s.rowStart && base.Abs().rows == t.rows && base.hasDoubleQuote == t.doubled
        && AllShow(base.fmt, base.records, reader.values + Values(base.fmt, w, t.rows))
    {
      hide Run, CsvScan.EndFeed, Values, AllShow, Begin, NonOverlapping, Parser.Valid, Parser.Abs;
      ghost var before := base.records;
      remainder := base.ParseChunk(source[mmapPos..mmapPos + length], last);
      ghost var more := base.records[|before|..];
      assert base.records == before + more;
      AllShowBoth(base.fmt, before, reader.values, more, Values(base.fmt, base.In(), base.Abs().rows));
    }

    /** Where the next window begins, and whether there is one. */
    method Settle(pos: nat, atEnd: bool, ghost n: W.Reader)
      requires base.Valid() && pos <= |source| && this !in base.dataPtr.fields.Repr
      requires n.pos == pos && n.eof == atEnd && n.bomScanned == base.bomScan && n.doubled == base.hasDoubleQuote
      requires AllShow(base.fmt, base.records, n.values) && Apart({this, base})
      modifies this
      ensures Valid() && reader == n && base.Valid() && base.Abs() == old(base.Abs())
    {
      hide AllShow, Parser.Abs;
      mmapPos, eof := pos, atEnd;
      reader := n;
    }

    method Next(bytes: nat)
      requires Valid() && bytes < INT_LIMIT && (eof ==> mmapPos + bytes >= |source| || |source| < chunkSize)
      modifies this, base
      ensures Valid() && reader == W.Next(base.fmt, source, bytes, chunkSize, old(reader))
      ensures base.Valid() && reader.rows == old(reader).rows + W.ShiftRows(base.Abs().rows, old(mmapPos))
      ensures old(base.records) <= base.records
      ensures forall i :: |old(base.records)| <= i < |base.records| ==>
        fresh(base.records[i].data) && fresh(base.records[i].data.fields.Repr)
    {
      hide Run, CsvScan.EndFeed, Values, AllShow, W.ShiftRows, Begin, NonOverlapping, Parser.Valid, Parser.Abs, Apart;
      W.NextInside(base.fmt, source, bytes, chunkSize, reader);
      NextParts(base.fmt, source, bytes, chunkSize, reader);
      hide W.Next, IsFlagTable, IsWsTable;
      ghost var n := W.Next(base.fmt, source, bytes, chunkSize, reader);
      var length := W.Min(|source| - mmapPos, bytes);
      var last := mmapPos + length == |source| || |source| < chunkSize;
      var remainder := TakeWindow(length, last);
      Settle(mmapPos + length - (length - remainder), eof || last, n);
    }

    /** The strings of a row that was found. */
    method TextsAt(i: nat) returns (texts: seq<Text>)
      requires Valid() && i < |base.records|
      modifies base.records[i].data`doubleQuoteFields
      ensures Valid() && texts == reader.values[i]
    {
      hide RawData.Placed, RowValue, FieldList.Valid, FieldList.Contents, IsFlagTable, RawData.CacheValid;
      var row := base.records[i];
      forall j | 0 <= j < |base.records| ensures row.data !in base.records[j].data.fields.Repr {
        NotInFields(base.records[j].data.fields, row.data);
      }
      texts := RowTexts(base.fmt, row, reader.values[i]);
      ghost var rows := base.records;
      forall j | 0 <= j < |rows| ensures Shows(base.fmt, rows[j], reader.values[j]) {
        if rows[j].data == row.data { assert rows[j].data.Ready(base.fmt); }
      }
    }

    /** Windows of one size until the end of the file. */
    method ReadToEnd(bytes: nat)
      requires Valid() && reader == W.FRESH_READER && bytes < INT_LIMIT
      requires W.ReadAll(base.fmt, source, bytes, chunkSize, W.FRESH_READER).Some?
      modifies this, base
      ensures Valid() && eof && reader == W.ReadAll(base.fmt, source, bytes, chunkSize, W.FRESH_READER).value
    {
      while !eof
        invariant Valid()
        invariant var all := W.ReadAll(base.fmt, source, bytes, chunkSize, W.FRESH_READER);
          if eof then all == Some(reader) else all == W.ReadAll(base.fmt, source, bytes, chunkSize, reader)
        decreases !eof, |source| - mmapPos, !base.bomScan
      {
        Next(bytes);
      }
    }
  }
}
