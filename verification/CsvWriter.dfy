/** The quoting writer (lib/csv-parser/csv.hpp, DelimWriter, quoting minimally or
    not) and what the scanner makes of everything it writes. */
module CsvWriter {
  import opened Common
  import opened CsvScan
  import opened CsvDocument
  import opened CsvField
  import opened CsvFaithful

  type Table = seq<seq<Text>>

  predicate NeedsQuotes(f: Format, t: Text)
    requires f.quote.Some?
  {
    exists i :: 0 <= i < |t| && Flag(f, t[i]) != NOT_SPECIAL
  }

  /** What appending a pointer to characters appends: up to a null character. */
  function UpToNull(t: Text): (r: Text) {
    if t == [] || t[0] == 0 then [] else [t[0]] + UpToNull(t[1..])
  }

  /** The field a string becomes: without need of quotes and with `minimal` off, it
      is put in quotes as far as its first null character. */
  function AsField(f: Format, minimal: bool, t: Text): Field
    requires f.quote.Some?
  {
    if NeedsQuotes(f, t) then Quoted(t) else if minimal then Bare(t) else Quoted(UpToNull(t))
  }

  /** The same text written from a view, which other characters may follow in memory. */
  function Escaped(f: Format, minimal: bool, t: Text, after: Text): Text
    requires f.quote.Some?
  {
    if minimal || NeedsQuotes(f, t) then RenderField(f, AsField(f, minimal, t))
    else [f.quote.value] + UpToNull(t + after) + [f.quote.value]
  }

  function AsFields(f: Format, minimal: bool, row: seq<Text>): (xs: seq<Field>)
    requires f.quote.Some?
    ensures |xs| == |row|
    ensures forall i :: 0 <= i < |row| ==> xs[i] == AsField(f, minimal, row[i])
  {
    if row == [] then [] else [AsField(f, minimal, row[0])] + AsFields(f, minimal, row[1..])
  }

  function WrittenRow(f: Format, minimal: bool, row: seq<Text>): Text
    requires f.quote.Some?
  {
    RenderFields(f, AsFields(f, minimal, row)) + [LF]
  }

  function Written(f: Format, minimal: bool, t: Table): Text
    requires f.quote.Some?
  {
    if t == [] then [] else WrittenRow(f, minimal, t[0]) + Written(f, minimal, t[1..])
  }

  // ---------------------------------------------------------------- the writer

  class DelimWriter {
    const delim: Char
    const quote: Char
    const minimal: bool
    var out: Text

    ghost function Fmt(): Format { Format(delim, Some(quote), {}) }

    constructor (delim: Char, quote: Char, minimal: bool)
      ensures this.delim == delim && this.quote == quote && this.minimal == minimal && out == []
    {
      this.delim := delim;
      this.quote := quote;
      this.minimal := minimal;
      out := [];
    }

    /** Formats a view of a string that `after` follows in memory, up to a null
        character if the view is to be quoted without need. */
    method CsvEscape(t: Text, after: Text) returns (r: Text)
      requires minimal || 0 in after
      ensures r == Escaped(Fmt(), minimal, t, after)
    {
      hide Double;
      var quoteEscape := false;
      NoneDoubled(Fmt());
      for i := 0 to |t|
        invariant forall j :: 0 <= j < i ==> Flag(Fmt(), t[j]) == NOT_SPECIAL
        invariant !quoteEscape
      {
        if t[i] == quote || t[i] == delim || t[i] == CR || t[i] == LF {
          quoteEscape := true;
          break;
        }
      }
      if !quoteEscape {
        if minimal {
          return t;
        }
        return [quote] + UpToNull(t + after) + [quote];
      }
      r := [quote];
      for i := 0 to |t|
        invariant r == [quote] + Double(Fmt(), t[..i])
      {
        OneMoreDoubled(Fmt(), t, i);
        if t[i] == quote {
          r := r + [quote, quote];
        } else {
          r := r + [t[i]];
        }
      }
      assert t[..|t|] == t;
      r := r + [quote];
    }

    /** The operator that writes one container of strings, each with a null
        character after it. */
    method WriteRow(row: seq<Text>)
      modifies this
      ensures out == old(out) + WrittenRow(Fmt(), minimal, row)
    {
      hide RenderField, AsField;
      ghost var f := Fmt();
      ghost var xs := AsFields(f, minimal, row);
      var i := 0;
      while i < |row|
        invariant 0 <= i <= |row|
        invariant out + RenderFields(f, xs[i..]) == old(out) + RenderFields(f, xs)
      {
        var s := CsvEscape(row[i], [0]);
        EscapedString(f, minimal, row[i]);
        FieldStep(f, xs, i);
        out := out + s;
        if i + 1 != |row| { out := out + [delim]; }
        i := i + 1;
      }
      assert xs[i..] == [] && out == old(out) + RenderFields(f, xs);
      out := out + [LF];
    }
  }

  lemma FieldStep(f: Format, xs: seq<Field>, i: nat)
    requires f.quote.Some? && i < |xs|
    ensures var head := RenderField(f, xs[i]) + if i + 1 != |xs| then [f.delim] else [];
      RenderFields(f, xs[i..]) == head + RenderFields(f, xs[i + 1..])
  {
    assert xs[i..][1..] == xs[i + 1..];
  }

  lemma {:induction false} ToNull(f: Format, t: Text)
    requires f.quote.Some?
    ensures UpToNull(t + [0]) == UpToNull(t)
    ensures UpToNull(t) == t <==> 0 !in t
    ensures |UpToNull(t)| <= |t|
    ensures !NeedsQuotes(f, t) ==> Double(f, UpToNull(t)) == UpToNull(t)
    decreases |t|
  {
    if t != [] {
      ToNull(f, t[1..]);
      assert (t + [0])[1..] == t[1..] + [0];
      assert t == [t[0]] + t[1..];
      assert !NeedsQuotes(f, t) ==> Flag(f, t[0]) == NOT_SPECIAL && !NeedsQuotes(f, t[1..]);
    }
  }

  /** A string is written as its field. */
  lemma EscapedString(f: Format, minimal: bool, t: Text)
    requires f.quote.Some?
    ensures Escaped(f, minimal, t, [0]) == RenderField(f, AsField(f, minimal, t))
  {
    hide Double, UpToNull, NeedsQuotes;
    ToNull(f, t);
  }

  lemma OneMoreDoubled(f: Format, t: Text, i: nat)
    requires f.quote.Some? && i < |t|
    ensures Double(f, t[..i + 1]) == Double(f, t[..i]) + if t[i] == f.quote.value then [t[i], t[i]] else [t[i]]
  {
    hide Double;
    assert t[..i + 1] == t[..i] + [t[i]];
    DoubleAppend(f, t[..i], [t[i]]);
    DoubleOne(f, t[i]);
  }

  // ---------------------------------------------------------------- the text as a document

  /** A row that is written as nothing but its line end. */
  predicate Blank(minimal: bool, row: seq<Text>) { row == [] || (minimal && row == [[]]) }

  /** What a row looks like: a row of no fields looks like one empty field. */
  function AsLine(f: Format, minimal: bool, row: seq<Text>): (xs: seq<Field>)
    requires f.quote.Some?
    ensures xs != []
  {
    if row == [] then [Bare([])] else AsFields(f, minimal, row)
  }

  /** What is read back: a blank row is taken as part of the line end before it. */
  function Collapse(f: Format, minimal: bool, t: Table): Table
    requires f.quote.Some?
  {
    if t == [] then []
    else [Texts(AsLine(f, minimal, t[0]))]
         + Collapse(f, minimal, if |t| > 1 && Blank(minimal, t[1]) then t[2..] else t[1..])
  }

  function AsRecords(f: Format, minimal: bool, t: Table): seq<Record>
    requires f.quote.Some?
  {
    if t == [] then []
    else if |t| > 1 && Blank(minimal, t[1]) then
      [Record(AsLine(f, minimal, t[0]), [LF, LF])] + AsRecords(f, minimal, t[2..])
    else [Record(AsLine(f, minimal, t[0]), [LF])] + AsRecords(f, minimal, t[1..])
  }

  lemma LineText(f: Format, minimal: bool, row: seq<Text>)
    requires f.quote.Some?
    ensures RenderFields(f, AsLine(f, minimal, row)) == RenderFields(f, AsFields(f, minimal, row))
  {
    if row == [] { EmptyRow(f, minimal); }
  }

  lemma BlankText(f: Format, minimal: bool, row: seq<Text>)
    requires f.quote.Some? && Blank(minimal, row)
    ensures RenderFields(f, AsFields(f, minimal, row)) == []
  {
  }

  lemma {:induction false} TextIsDocument(f: Format, minimal: bool, t: Table)
    requires f.quote.Some?
    ensures RenderRecords(f, AsRecords(f, minimal, t)) == Written(f, minimal, t)
    decreases |t|
  {
    hide RenderFields, AsFields;
    if t != [] {
      LineText(f, minimal, t[0]);
      if |t| > 1 && Blank(minimal, t[1]) {
        BlankText(f, minimal, t[1]);
        TextIsDocument(f, minimal, t[2..]);
        BlankSwallowed(f, minimal, t);
      } else {
        TextIsDocument(f, minimal, t[1..]);
      }
    }
  }

  lemma BlankSwallowed(f: Format, minimal: bool, t: Table)
    requires f.quote.Some? && |t| > 1 && RenderFields(f, AsFields(f, minimal, t[1])) == []
    ensures Written(f, minimal, t) == RenderFields(f, AsFields(f, minimal, t[0])) + [LF, LF] + Written(f, minimal, t[2..])
  {
    hide RenderFields, AsFields;
    assert t[1..][1..] == t[2..];
    assert WrittenRow(f, minimal, t[1]) == [LF];
    assert [LF] + [LF] == [LF, LF];
  }

  lemma LineValid(f: Format, minimal: bool, row: seq<Text>)
    requires f.quote.Some?
    ensures ValidFields(f, AsLine(f, minimal, row))
  {
    hide UpToNull;
  }

  /** A row that is not blank does not begin with a newline character. */
  lemma FirstOfRow(f: Format, minimal: bool, row: seq<Text>)
    requires Plain4180(f) && !Blank(minimal, row)
    ensures var t := RenderFields(f, AsFields(f, minimal, row)); t != [] && !IsNewline(t[0])
  {
    hide RenderField, AsField;
    var xs := AsFields(f, minimal, row);
    FirstOfField(f, minimal, row[0]);
    FieldStep(f, xs, 0);
    assert xs[0..] == xs;
  }

  lemma FirstOfField(f: Format, minimal: bool, t: Text)
    requires Plain4180(f)
    ensures var s := RenderField(f, AsField(f, minimal, t));
      if t == [] && minimal then s == [] else s != [] && !IsNewline(s[0])
  {
    hide Double, UpToNull;
    if t != [] && !NeedsQuotes(f, t) { assert Flag(f, t[0]) == NOT_SPECIAL; }
  }

  lemma {:induction false} RecordsValid(f: Format, minimal: bool, t: Table)
    requires Plain4180(f)
    ensures ValidRecords(f, AsRecords(f, minimal, t), []) && Meaning(AsRecords(f, minimal, t)) == Collapse(f, minimal, t)
    decreases |t|
  {
    hide RenderFields, AsLine, AsFields, RenderRecords, Texts, Flag, NonOverlapping;
    if t != [] {
      LineValid(f, minimal, t[0]);
      if |t| > 1 && Blank(minimal, t[1]) {
        RecordsValid(f, minimal, t[2..]);
      } else {
        RecordsValid(f, minimal, t[1..]);
        TextIsDocument(f, minimal, t[1..]);
        assert RenderRecords(f, AsRecords(f, minimal, t[1..])) + [] == Written(f, minimal, t[1..]);
        if |t| > 1 { FirstOfRow(f, minimal, t[1]); }
      }
    }
  }

  // ---------------------------------------------------------------- round trip

  lemma NoLastLine(f: Format, minimal: bool, t: Table)
    requires Plain4180(f)
    ensures var doc := Document(AsRecords(f, minimal, t), []);
      Valid(f, doc) && Render(f, doc) == Written(f, minimal, t) && Delivered(doc.last) == []
  {
    hide RenderRecords, ValidRecords;
    NoText(f);
    RecordsValid(f, minimal, t);
    TextIsDocument(f, minimal, t);
  }

  /** Whatever is written is read back as the same table, but for blank rows
      that follow a row. */
  lemma ReadBack(f: Format, minimal: bool, t: Table, bomScanned: bool, doubled: bool)
    requires Plain4180(f) && (bomScanned || !HasBom(Written(f, minimal, t)))
    ensures ParseAll(f, Written(f, minimal, t), bomScanned, doubled) == Collapse(f, minimal, t)
  {
    hide ParseAll, Render, Valid, RenderRecords, Written;
    var doc := Document(AsRecords(f, minimal, t), []);
    NoLastLine(f, minimal, t);
    RecordsValid(f, minimal, t);
    DocumentRead(f, bomScanned, doubled, doc);
  }

  /** Nothing of a text is lost when it is written. */
  predicate TextKept(f: Format, minimal: bool, t: Text)
    requires f.quote.Some?
  {
    minimal || NeedsQuotes(f, t) || 0 !in t
  }

  predicate RowKept(f: Format, minimal: bool, row: seq<Text>)
    requires f.quote.Some?
  {
    row != [] && forall j :: 0 <= j < |row| ==> TextKept(f, minimal, row[j])
  }

  /** No row is without fields or loses part of a field, and none but the first is
      one empty field that is written as nothing. */
  predicate NothingLost(f: Format, minimal: bool, t: Table)
    requires f.quote.Some?
  {
    forall i :: 0 <= i < |t| ==> RowKept(f, minimal, t[i]) && (i > 0 ==> !Blank(minimal, t[i]))
  }

  lemma TextKeptExactly(f: Format, minimal: bool, t: Text)
    requires f.quote.Some?
    ensures AsField(f, minimal, t).text == t <==> TextKept(f, minimal, t)
  {
    ToNull(f, t);
  }

  lemma RowKeptExactly(f: Format, minimal: bool, row: seq<Text>)
    requires f.quote.Some?
    ensures Texts(AsLine(f, minimal, row)) == row <==> RowKept(f, minimal, row)
  {
    hide TextKept, AsField;
    var xs := AsLine(f, minimal, row);
    forall j | 0 <= j < |row| ensures Texts(xs)[j] == row[j] <==> TextKept(f, minimal, row[j]) {
      TextKeptExactly(f, minimal, row[j]);
    }
  }

  lemma {:induction false} CollapseExact(f: Format, minimal: bool, t: Table)
    requires f.quote.Some?
    ensures Collapse(f, minimal, t) == t <==> NothingLost(f, minimal, t)
    ensures |Collapse(f, minimal, t)| <= |t|
    decreases |t|
  {
    hide RowKept, Blank, Texts, AsLine;
    if t != [] {
      RowKeptExactly(f, minimal, t[0]);
      if |t| > 1 && Blank(minimal, t[1]) {
        CollapseExact(f, minimal, t[2..]);
      } else {
        CollapseExact(f, minimal, t[1..]);
        var c := Collapse(f, minimal, t);
        assert t == [t[0]] + t[1..] && c[0] == Texts(AsLine(f, minimal, t[0])) && c[1..] == Collapse(f, minimal, t[1..]);
        LostTail(f, minimal, t);
      }
    }
  }

  lemma LostTail(f: Format, minimal: bool, t: Table)
    requires f.quote.Some? && t != [] && (|t| > 1 ==> !Blank(minimal, t[1]))
    ensures NothingLost(f, minimal, t) <==> RowKept(f, minimal, t[0]) && NothingLost(f, minimal, t[1..])
  {
    hide RowKept, Blank;
    assert forall i :: 0 < i < |t| ==> t[i] == t[1..][i - 1];
    if NothingLost(f, minimal, t) {
      forall i | 0 <= i < |t| - 1 ensures RowKept(f, minimal, t[1..][i]) && (i > 0 ==> !Blank(minimal, t[1..][i])) {
        assert t[1..][i] == t[i + 1];
      }
    }
  }

  /** Without the byte-order mark the writer's text comes back as the table exactly
      when no row is without fields, none but the first is one empty field written as
      nothing, and no text is cut at a null character. */
  lemma RoundTripExactly(f: Format, minimal: bool, t: Table, bomScanned: bool, doubled: bool)
    requires Plain4180(f) && (bomScanned || !HasBom(Written(f, minimal, t)))
    ensures ParseAll(f, Written(f, minimal, t), bomScanned, doubled) == t <==> NothingLost(f, minimal, t)
  {
    hide ParseAll, Collapse, NothingLost, Written, HasBom;
    ReadBack(f, minimal, t, bomScanned, doubled);
    CollapseExact(f, minimal, t);
  }

  // ---------------------------------------------------------------- a byte-order mark in the table

  /** The table without the first three characters of its first field. */
  function WithoutBom(t: Table): Table
    requires t != [] && t[0] != [] && |t[0][0]| >= 3
  {
    [[t[0][0][3..]] + t[0][1..]] + t[1..]
  }

  /** What is written after the first field of a row. */
  function After(f: Format, minimal: bool, others: seq<Text>): Text
    requires f.quote.Some?
  {
    if others == [] then [LF] else [f.delim] + WrittenRow(f, minimal, others)
  }

  lemma RowSplit(f: Format, minimal: bool, row: seq<Text>)
    requires f.quote.Some? && row != []
    ensures WrittenRow(f, minimal, row) == RenderField(f, AsField(f, minimal, row[0])) + After(f, minimal, row[1..])
  {
    hide RenderField, AsField, RenderFields;
    var xs := AsFields(f, minimal, row);
    FieldStep(f, xs, 0);
    assert xs[0..] == xs && xs[1..] == AsFields(f, minimal, row[1..]);
    if |row| == 1 { NoText(f); }
  }

  lemma WrittenSplit(f: Format, minimal: bool, t: Table)
    requires f.quote.Some? && t != [] && t[0] != []
    ensures Written(f, minimal, t)
      == RenderField(f, AsField(f, minimal, t[0][0])) + (After(f, minimal, t[0][1..]) + Written(f, minimal, t[1..]))
  {
    hide RenderField, AsField, WrittenRow, After;
    RowSplit(f, minimal, t[0]);
  }

  /** Output that begins with a byte-order mark begins with an unquoted field that does. */
  lemma BomIsText(f: Format, minimal: bool, t: Table)
    requires Plain4180(f) && f.delim >= 0 && f.quote.value >= 0 && HasBom(Written(f, minimal, t))
    ensures minimal && t != [] && t[0] != [] && |t[0][0]| >= 3 && t[0][0][..3] == BOM && !NeedsQuotes(f, t[0][0])
  {
    hide After, RenderFields, AsFields;
    assert t != [];
    if t[0] == [] { NoText(f); EmptyRow(f, minimal); }
    WrittenSplit(f, minimal, t);
    var head := RenderField(f, AsField(f, minimal, t[0][0]));
    var rest := After(f, minimal, t[0][1..]) + Written(f, minimal, t[1..]);
    AfterBegins(f, minimal, t[0][1..], Written(f, minimal, t[1..]));
    BomInHead(f, minimal, t[0][0], head, rest);
  }

  lemma EmptyRow(f: Format, minimal: bool)
    requires f.quote.Some?
    ensures RenderFields(f, AsFields(f, minimal, [])) == []
  {
  }

  lemma AfterBegins(f: Format, minimal: bool, others: seq<Text>, next: Text)
    requires f.quote.Some? && f.delim >= 0
    ensures var rest := After(f, minimal, others) + next; rest != [] && rest[0] >= 0
  {
  }

  lemma QuotedHead(f: Format, minimal: bool, x: Text)
    requires f.quote.Some?
    ensures var head := RenderField(f, AsField(f, minimal, x));
      if !minimal || NeedsQuotes(f, x) then head != [] && head[0] == f.quote.value else head == x
  {
    hide Double, UpToNull;
  }

  lemma BomInHead(f: Format, minimal: bool, x: Text, head: Text, rest: Text)
    requires Plain4180(f) && f.quote.value >= 0 && head == RenderField(f, AsField(f, minimal, x))
    requires rest != [] && rest[0] >= 0 && HasBom(head + rest)
    ensures minimal && |x| >= 3 && x[..3] == BOM && !NeedsQuotes(f, x)
  {
    hide Double, Flag, UpToNull;
    var all := head + rest;
    assert all[|head|] == rest[0];
    QuotedHead(f, minimal, x);
    assert head == x;
  }

  lemma BomSplit(f: Format, t: Table)
    requires f.quote.Some? && t != [] && t[0] != [] && |t[0][0]| >= 3 && t[0][0][..3] == BOM
    requires !NeedsQuotes(f, t[0][0])
    ensures Written(f, true, t) == BOM + Written(f, true, WithoutBom(t))
  {
    hide After, RenderFields, AsFields, Written;
    var x, u := t[0][0], WithoutBom(t);
    WrittenSplit(f, true, t);
    WrittenSplit(f, true, u);
    assert u[1..] == t[1..] && u[0][1..] == t[0][1..];
    assert !NeedsQuotes(f, x[3..]);
    assert x == BOM + x[3..];
  }

  lemma BomLost(f: Format, t: Table, doubled: bool)
    requires Plain4180(f) && f.delim >= 0 && f.quote.value >= 0 && HasBom(Written(f, true, t))
    ensures ParseAll(f, Written(f, true, t), false, doubled) != t
  {
    hide ParseAll, Render, Valid, RenderRecords, Written, HasBom, NonOverlapping;
    BomIsText(f, true, t);
    BomSplit(f, t);
    var u := WithoutBom(t);
    var doc := Document(AsRecords(f, true, u), []);
    NoLastLine(f, true, u);
    RecordsValid(f, true, u);
    BomSkipped(f, doubled, doc);
    assert u != [] && u[0] != [];
    assert Collapse(f, true, u)[0] == u[0] by { RowKeptExactly(f, true, u[0]); }
    assert |u[0][0]| == |t[0][0]| - 3;
  }

  /** On a parser's first text, with delimiter and quote from ASCII: what is
      written comes back exactly when nothing collapses and it does not begin
      with a byte-order mark. */
  lemma FirstRoundTripExactly(f: Format, minimal: bool, t: Table, doubled: bool)
    requires Plain4180(f) && f.delim >= 0 && f.quote.value >= 0
    ensures ParseAll(f, Written(f, minimal, t), false, doubled) == t
       <==> NothingLost(f, minimal, t) && !HasBom(Written(f, minimal, t))
  {
    hide ParseAll, NothingLost, Written, HasBom;
    if HasBom(Written(f, minimal, t)) {
      BomIsText(f, minimal, t);
      BomLost(f, t, doubled);
    } else {
      RoundTripExactly(f, minimal, t, false, doubled);
    }
  }

  // ---------------------------------------------------------------- tables that do not come back

  lemma {:induction false} UpToNullExactly(t: Text, after: Text)
    requires after != []
    ensures UpToNull(t + after) == t <==> 0 !in t && after[0] == 0
    decreases |t|
  {
    if t == [] {
      assert t + after == after;
    } else {
      UpToNullExactly(t[1..], after);
      assert t == [t[0]] + t[1..] && (t + after)[1..] == t[1..] + after;
    }
  }

  /** Quoted without need, a view is written as itself exactly when it has no null
      character and one follows it in memory. */
  lemma ViewWrittenExactly(f: Format, t: Text, after: Text)
    requires f.quote.Some? && !NeedsQuotes(f, t) && after != []
    ensures Escaped(f, false, t, after) == [f.quote.value] + t + [f.quote.value] <==> 0 !in t && after[0] == 0
  {
    hide UpToNull;
    UpToNullExactly(t, after);
    var q := [f.quote.value];
    var u := UpToNull(t + after);
    if q + u + q == q + t + q {
      assert (q + u + q)[1..|q + u + q| - 1] == u && (q + t + q)[1..|q + t + q| - 1] == t;
    }
  }

  /** A row of one empty field under another row is not read back. */
  lemma BlankRowLost(f: Format, bomScanned: bool, doubled: bool)
    requires Plain4180(f) && f.delim != 97 && f.quote.value != 97
    ensures var t: Table := [[[97]], [[]]];
      Written(f, true, t) == [97, LF, LF] && ParseAll(f, [97, LF, LF], bomScanned, doubled) == [[[97]]]
  {
    hide ParseAll, NonOverlapping;
    var t: Table := [[[97]], [[]]];
    assert !NeedsQuotes(f, [97]) && !NeedsQuotes(f, []);
    assert AsFields(f, true, t[0]) == [Bare([97])] && AsFields(f, true, t[1]) == [Bare([])];
    assert t[1..] == [[[]]] && t[1..][1..] == [] && t[2..] == [];
    assert WrittenRow(f, true, t[0]) == [97, LF] && WrittenRow(f, true, t[1]) == [LF];
    assert Written(f, true, t[1..]) == [LF] + [];
    ReadBack(f, true, t, bomScanned, doubled);
    assert Texts([Bare([97])]) == [[97]];
    assert Collapse(f, true, t) == [[[97]]] + Collapse(f, true, []);
  }

  /** Quoted without need, a field is not read back from its null character on. */
  lemma NullCutsField(f: Format, bomScanned: bool, doubled: bool)
    requires Plain4180(f) && f.delim !in {0, 97} && f.quote.value !in {0, 97}
    ensures var t, q := [[[97, 0, 97]]], f.quote.value;
      Written(f, false, t) == [q, 97, q, LF] && ParseAll(f, [q, 97, q, LF], bomScanned, doubled) == [[[97]]]
  {
    hide ParseAll, NonOverlapping;
    var x: Text := [97, 0, 97];
    var t: Table := [[x]];
    var q := f.quote.value;
    assert !NeedsQuotes(f, x);
    assert x[1..][0] == 0 && UpToNull(x) == [97] + UpToNull(x[1..]) == [97];
    assert Double(f, [97]) == [97] + Double(f, []);
    assert AsFields(f, false, t[0]) == [Quoted([97])];
    assert WrittenRow(f, false, t[0]) == [q, 97, q, LF];
    assert t[1..] == [];
    ReadBack(f, false, t, bomScanned, doubled);
    assert Texts([Quoted([97])]) == [[97]];
    assert Collapse(f, false, t) == [[[97]]] + Collapse(f, false, []);
  }

  // ---------------------------------------------------------------- what is written

  /** A string is put in quotes exactly if it has a quote, a delimiter or a newline
      character, or quoting is not minimal; else it is written as it is. */
  lemma QuotedExactly(f: Format, minimal: bool, t: Text, after: Text)
    requires f.quote.Some? && f.quote.value != f.delim
    ensures var special := exists i :: 0 <= i < |t| && t[i] in [f.quote.value, f.delim, CR, LF];
      var w := Escaped(f, minimal, t, after);
      if special || !minimal then |w| >= 2 && w[0] == f.quote.value && w[|w| - 1] == f.quote.value else w == t
  {
    hide Double;
    var special := exists i :: 0 <= i < |t| && t[i] in [f.quote.value, f.delim, CR, LF];
    assert special <==> NeedsQuotes(f, t);
  }

  /** A letter, a letter and a comma, nothing, and a quote, quoted or not. */
  lemma FieldTexts()
    ensures RenderField(COMMAS, AsField(COMMAS, true, [97])) == [97] && RenderField(COMMAS, AsField(COMMAS, true, [])) == []
    ensures RenderField(COMMAS, AsField(COMMAS, true, [98, 44])) == [34, 98, 44, 34]
    ensures RenderField(COMMAS, AsField(COMMAS, true, [34])) == [34, 34, 34, 34]
    ensures RenderField(COMMAS, AsField(COMMAS, false, [97])) == [34, 97, 34]
    ensures RenderField(COMMAS, AsField(COMMAS, false, [])) == [34, 34]
  {
    var a, b, q: Text := [97], [98, 44], [34];
    assert !NeedsQuotes(COMMAS, a) && !NeedsQuotes(COMMAS, []);
    assert Flag(COMMAS, b[1]) != NOT_SPECIAL && Flag(COMMAS, q[0]) != NOT_SPECIAL;
    assert b[1..] == [44] && Double(COMMAS, [44]) == [44] && Double(COMMAS, b) == [98] + [44] && Double(COMMAS, q) == [34, 34];
    assert UpToNull(a) == a;
  }

  /** A row of these, with the delimiters and the line end. */
  lemma RowText()
    ensures WrittenRow(COMMAS, true, [[97], [98, 44], [], [34]]) == [97, 44, 34, 98, 44, 34, 44, 44, 34, 34, 34, 34, 10]
    ensures WrittenRow(COMMAS, false, [[97], []]) == [34, 97, 34, 44, 34, 34, 10]
  {
    hide RenderField, AsField, AsFields, RenderFields;
    FieldTexts();
    var xs := AsFields(COMMAS, true, [[97], [98, 44], [], [34]]);
    assert xs == [xs[0], xs[1], xs[2], xs[3]];
    RowOfFour(COMMAS, xs[0], xs[1], xs[2], xs[3]);
    var ys := AsFields(COMMAS, false, [[97], []]);
    assert ys == [ys[0], ys[1]];
    RowOfTwo(COMMAS, ys[0], ys[1]);
  }

  lemma RowOfTwo(f: Format, a: Field, b: Field)
    requires f.quote.Some?
    ensures RenderFields(f, [a, b]) == RenderField(f, a) + [f.delim] + RenderField(f, b)
  {
    hide RenderField;
    assert [a, b][1..] == [b];
  }

  lemma RowOfFour(f: Format, a: Field, b: Field, c: Field, d: Field)
    requires f.quote.Some?
    ensures RenderFields(f, [a, b, c, d]) == RenderField(f, a) + [f.delim]
      + (RenderField(f, b) + [f.delim] + (RenderField(f, c) + [f.delim] + RenderField(f, d)))
  {
    hide RenderField;
    assert [a, b, c, d][1..] == [b, c, d] && [b, c, d][1..] == [c, d];
    RowOfTwo(f, c, d);
  }
}
