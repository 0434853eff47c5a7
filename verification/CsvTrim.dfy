/** When a format that trims reads an RFC 4180 document as its trimmed texts
    (lib/csv-parser/csv.hpp, parse_field, parse and end_feed). */
module CsvTrim {
  import opened Common
  import opened CsvScan
  import opened CsvDocument
  import opened CsvField
  import opened CsvFaithful

  // ---------------------------------------------------------------- one field

  /** A text that ends with two or more trim characters and then quotes. */
  predicate SpacesThenQuotes(f: Format, u: Text) {
    var n := QuoteTail(f, u);
    n > 0 && |u| - n >= |TrimEnd(f, u[..|u| - n])| + 2
  }

  /** The text in quotes does, with something before that is not trimmed. */
  predicate SpacedQuotes(f: Format, x: Field) {
    x.Quoted? && SpacesThenQuotes(f, TrimFront(f, x.text))
  }

  function Quotes(q: Char, m: nat): (t: Text)
    ensures |t| == m && forall i :: 0 <= i < m ==> t[i] == q
  {
    seq(m, _ => q)
  }

  lemma {:induction false} QuotesTwice(f: Format, n: nat)
    requires f.quote.Some?
    ensures Double(f, Quotes(f.quote.value, n)) == Quotes(f.quote.value, 2 * n)
  {
    var q := f.quote.value;
    if n > 0 {
      assert Quotes(q, n)[1..] == Quotes(q, n - 1);
      QuotesTwice(f, n - 1);
      assert Quotes(q, 2 * n) == [q, q] + Quotes(q, 2 * (n - 1));
    }
  }

  /** Of m quotes every second is dropped. */
  lemma {:induction false} QuotesUndoubled(f: Format, m: nat)
    requires f.quote.Some?
    ensures Undouble(f, Quotes(f.quote.value, m), false) == Quotes(f.quote.value, (m + 1) / 2)
  {
    var q := f.quote.value;
    if m == 1 {
      assert Quotes(q, 1) == [q] && [q][1..] == [] && Undouble(f, [], true) == [];
    } else if m > 1 {
      var r := Quotes(q, m);
      assert r[1..] == [q] + Quotes(q, m - 2) && r[1..][1..] == Quotes(q, m - 2);
      QuotesUndoubled(f, m - 2);
      assert Quotes(q, (m + 1) / 2) == [q] + Quotes(q, (m - 2 + 1) / 2);
    }
  }

  lemma UndoubleHead(f: Format, raw: Text)
    requires raw != []
    ensures Undouble(f, raw, false) == [raw[0]] + Undouble(f, raw[1..], f.quote == Some(raw[0]))
    ensures f.quote == Some(raw[0]) ==> Undouble(f, raw, true) == Undouble(f, raw[1..], false)
  {
  }

  lemma {:induction false} UndoubleBehind(f: Format, z: Text, r: Text)
    requires f.quote.Some?
    ensures Undouble(f, Double(f, z) + r, false) == z + Undouble(f, r, false)
    decreases |z|
  {
    hide Undouble, Double;
    if z == [] {
      NoneDoubled(f);
      assert [] + r == r;
      assert Double(f, z) + r == r && z + Undouble(f, r, false) == Undouble(f, r, false);
    } else {
      UndoubleBehind(f, z[1..], r);
      UndoubleFirst(f, z, r);
      assert z == [z[0]] + z[1..];
      assert [z[0]] + (z[1..] + Undouble(f, r, false)) == z + Undouble(f, r, false);
    }
  }

  lemma UndoubleFirst(f: Format, z: Text, r: Text)
    requires f.quote.Some? && z != []
    ensures Undouble(f, Double(f, z) + r, false) == [z[0]] + Undouble(f, Double(f, z[1..]) + r, false)
  {
    hide Undouble, Double;
    DoubleHead(f, z);
    var all, rest := Double(f, z) + r, Double(f, z[1..]) + r;
    if z[0] == f.quote.value {
      assert all == [z[0]] + ([z[0]] + rest);
      UndoubleHead(f, all);
      UndoubleHead(f, [z[0]] + rest);
    } else {
      assert all == [z[0]] + rest;
      UndoubleHead(f, all);
    }
  }

  lemma DoubledParts(f: Format, z: Text, w: Text, n: nat)
    requires f.quote.Some? && f.quote.value !in w
    ensures var q := f.quote.value; Double(f, z + w + Quotes(q, n)) == Double(f, z) + (w + Quotes(q, 2 * n))
  {
    hide Double;
    var q := f.quote.value;
    assert z + w + Quotes(q, n) == z + (w + Quotes(q, n));
    DoubleAppend(f, z, w + Quotes(q, n));
    DoubleAppend(f, w, Quotes(q, n));
    NoQuoteKept(f, w, false);
    QuotesTwice(f, n);
  }

  /** The parts of a text: up to its last trim characters before quotes, those, and
      the quotes. */
  lemma {:induction false} SplitParts(f: Format, u: Text) returns (z: Text, w: Text)
    requires Format4180(f)
    ensures var n := QuoteTail(f, u);
      && u == z + w + Quotes(f.quote.value, n) && f.quote.value !in w
      && z == TrimEnd(f, u[..|u| - n]) && (n == 0 ==> z == TrimEnd(f, u))
  {
    hide QuoteTail, TrimEnd;
    var y := SplitTail(f, u);
    z, w := SplitEnd(f, y);
  }

  lemma {:induction false} SplitTail(f: Format, u: Text) returns (y: Text)
    requires f.quote.Some?
    ensures var n := QuoteTail(f, u); y == u[..|u| - n] && u == y + Quotes(f.quote.value, n) && (n == 0 ==> y == u)
  {
    QuoteTailIs(f, u);
    hide QuoteTail;
    var n := QuoteTail(f, u);
    y := u[..|u| - n];
    assert u[|u| - n..] == Quotes(f.quote.value, n);
  }

  lemma {:induction false} SplitEnd(f: Format, y: Text) returns (z: Text, w: Text)
    requires Format4180(f)
    ensures z == TrimEnd(f, y) && y == z + w && f.quote.value !in w
  {
    TrimEndIs(f, y);
    hide TrimEnd;
    z := TrimEnd(f, y);
    w := y[|z|..];
  }

  /** What LengthRead adds up, for them. */
  lemma {:induction false} LengthOfParts(f: Format, u: Text, z: Text)
    requires f.quote.Some? && z == TrimEnd(f, u[..|u| - QuoteTail(f, u)])
    ensures LengthRead(f, u) == |Double(f, z)| + 2 * QuoteTail(f, u)
  {
    hide TrimEnd, QuoteTail, Double;
  }

  /** What is read of the text's end, behind z. */
  lemma EndRead(f: Format, w: Text, n: nat)
    requires f.quote.Some? && f.quote.value !in w
    ensures var q := f.quote.value; var r := Undouble(f, (w + Quotes(q, 2 * n))[..2 * n], false);
      && (n == 0 || |w| <= 1 ==> r == if n == 0 then [] else w + Quotes(q, n))
      && (n > 0 && |w| >= 2 ==> |r| < |w| + n)
  {
    hide Undouble, Double;
    var q := f.quote.value;
    var x := (w + Quotes(q, 2 * n))[..2 * n];
    if |w| >= 2 * n {
      assert x == w[..2 * n];
      NoQuoteKept(f, x, false);
      if |w| == 2 * n && n == 0 { assert x == []; }
    } else {
      var m: nat := 2 * n - |w|;
      assert x == w + Quotes(q, m);
      NoQuoteKept(f, w, false);
      UndoubleBehind(f, w, Quotes(q, m));
      QuotesUndoubled(f, m);
    }
  }

  lemma TrimEndQuote(f: Format, u: Text)
    requires Format4180(f)
    ensures QuoteTail(f, u) > 0 ==> TrimEnd(f, u) == u
  {
  }

  lemma LongerText(z: Text, a: Text, b: Text)
    ensures z + a == z + b <==> a == b
  {
    if z + a == z + b {
      assert a == (z + a)[|z|..] && b == (z + b)[|z|..];
    }
  }

  lemma CutBehind(z: Text, y: Text, n: nat)
    requires n <= |y|
    ensures Slice(z + y, 0, |z| + n) == z + y[..n]
  {
  }

  /** A field is read as its trimmed text exactly when its text in quotes does not end
      with two or more trim characters before quotes. */
  lemma FieldReadExactly(f: Format, x: Field)
    requires Format4180(f)
    ensures FieldRead(f, x) == Trim(f, x.text) <==> !SpacedQuotes(f, x)
  {
    hide FieldRead, Undouble, Double, LengthRead, TrimFront, TrimEnd, SpacesThenQuotes, Slice;
    if x.Bare? {
      BareRead(f, x.text);
    } else {
      var u, q := TrimFront(f, x.text), f.quote.value;
      QuotedRead(f, x.text);
      QuotedReadExactly(f, u);
    }
  }

  /** What is read of a text in quotes, against the text. */
  lemma PartsRead(f: Format, u: Text, n: nat, z: Text, w: Text)
    requires f.quote.Some? && f.quote.value !in w && u == z + w + Quotes(f.quote.value, n)
    requires Double(f, u) == Double(f, z) + (w + Quotes(f.quote.value, 2 * n))
    ensures var r := Undouble(f, Slice(Double(f, u), 0, |Double(f, z)| + 2 * n), false);
      && (n == 0 ==> r == z)
      && (n > 0 ==> (r == u <==> |w| < 2))
  {
    hide Undouble, Double, Slice;
    var q := f.quote.value;
    CutBehind(Double(f, z), w + Quotes(q, 2 * n), 2 * n);
    var r := (w + Quotes(q, 2 * n))[..2 * n];
    UndoubleBehind(f, z, r);
    EndRead(f, w, n);
    if n == 0 {
      assert z + [] == z;
    } else {
      assert u == z + (w + Quotes(q, n));
      LongerText(z, Undouble(f, r, false), w + Quotes(q, n));
    }
  }

  /** A text that ends as it should is read; what counts is how many trim characters
      come before the quotes at its end. */
  lemma ReadOfParts(f: Format, z: Text, w: Text, n: nat, length: nat)
    requires f.quote.Some? && f.quote.value !in w && length == |Double(f, z)| + 2 * n
    ensures var u := z + w + Quotes(f.quote.value, n); var r := Undouble(f, Slice(Double(f, u), 0, length), false);
      (n == 0 ==> r == z) && (n > 0 ==> (r == u <==> |w| < 2))
  {
    hide Double, Undouble, Slice;
    DoubledParts(f, z, w, n);
    PartsRead(f, z + w + Quotes(f.quote.value, n), n, z, w);
  }

  lemma QuotedReadExactly(f: Format, u: Text)
    requires Format4180(f)
    ensures Undouble(f, Slice(Double(f, u), 0, LengthRead(f, u)), false) == TrimEnd(f, u) <==> !SpacesThenQuotes(f, u)
  {
    SpacesAre(f, u);
    TrimEndQuote(f, u);
    var z, w := SplitParts(f, u);
    LengthOfParts(f, u, z);
    hide Undouble, Double, LengthRead, TrimEnd, QuoteTail, Slice, SpacesThenQuotes, NonOverlapping;
    ReadOfParts(f, z, w, QuoteTail(f, u), LengthRead(f, u));
  }

  lemma SpacesAre(f: Format, u: Text)
    ensures var n := QuoteTail(f, u);
      n <= |u| && (SpacesThenQuotes(f, u) <==> n > 0 && |u| - n >= |TrimEnd(f, u[..|u| - n])| + 2)
  {
    hide TrimEnd;
  }

  // ---------------------------------------------------------------- documents

  function TrimmedTexts(f: Format, xs: seq<Field>): (v: seq<Text>)
    ensures |v| == |xs|
  {
    seq(|xs|, i requires 0 <= i < |xs| => Trim(f, xs[i].text))
  }

  function TrimmedRecords(f: Format, rs: seq<Record>): (v: seq<seq<Text>>)
    ensures |v| == |rs|
  {
    if rs == [] then [] else [TrimmedTexts(f, rs[0].fields)] + TrimmedRecords(f, rs[1..])
  }

  /** What the document means when its texts are trimmed. */
  function TrimmedWhole(f: Format, doc: Document): seq<seq<Text>> {
    TrimmedRecords(f, doc.records) + if doc.last == [] then [] else [TrimmedTexts(f, doc.last)]
  }

  predicate NoneSpaced(f: Format, xs: seq<Field>) {
    forall i :: 0 <= i < |xs| ==> !SpacedQuotes(f, xs[i])
  }

  predicate NoRecordSpaced(f: Format, rs: seq<Record>) {
    rs == [] || (NoneSpaced(f, rs[0].fields) && NoRecordSpaced(f, rs[1..]))
  }

  lemma TextsExactly(f: Format, xs: seq<Field>)
    requires Format4180(f)
    ensures TextsRead(f, xs) == TrimmedTexts(f, xs) <==> NoneSpaced(f, xs)
  {
    hide FieldRead, Trim, SpacedQuotes;
    forall i | 0 <= i < |xs| ensures TextsRead(f, xs)[i] == TrimmedTexts(f, xs)[i] <==> !SpacedQuotes(f, xs[i]) {
      FieldReadExactly(f, xs[i]);
    }
  }

  lemma FirstAndRest<T>(a: T, b: T, x: seq<T>, y: seq<T>)
    ensures [a] + x == [b] + y <==> a == b && x == y
  {
    if [a] + x == [b] + y {
      assert a == ([a] + x)[0] && x == ([a] + x)[1..] && y == ([b] + y)[1..];
    }
  }

  lemma {:induction false} RecordsExactly(f: Format, rs: seq<Record>)
    requires Format4180(f)
    ensures |RecordsRead(f, rs)| == |rs|
    ensures RecordsRead(f, rs) == TrimmedRecords(f, rs) <==> NoRecordSpaced(f, rs)
    decreases |rs|
  {
    hide TextsRead, TrimmedTexts, NoneSpaced;
    if rs != [] {
      TextsExactly(f, rs[0].fields);
      RecordsExactly(f, rs[1..]);
      FirstAndRest(TextsRead(f, rs[0].fields), TrimmedTexts(f, rs[0].fields),
                   RecordsRead(f, rs[1..]), TrimmedRecords(f, rs[1..]));
    }
  }

  lemma LastExactly(f: Format, xs: seq<Field>)
    requires Format4180(f) && xs != []
    ensures LastRead(f, xs) == [TrimmedTexts(f, xs)] <==> NoneSpaced(f, xs) && !LastLost(f, xs)
  {
    TextsExactly(f, xs);
    hide TrimmedTexts, NoneSpaced, LastLost, FieldRead;
    if LastLost(f, xs) && |xs| > 1 { assert |LastRead(f, xs)[0]| == |xs| - 1; }
  }

  lemma PairsExactly<T>(a: seq<T>, b: seq<T>, x: seq<T>, y: seq<T>)
    requires |a| == |b|
    ensures a + x == b + y <==> a == b && x == y
  {
    if a + x == b + y {
      assert a == (a + x)[..|a|] && b == (b + y)[..|b|] && x == (a + x)[|a|..] && y == (b + y)[|b|..];
    }
  }

  /** A format that trims reads a document as its trimmed texts exactly when no text in
      quotes ends with two or more trim characters before quotes and, if nothing ends
      the last line, something is read of its last field or it was written as nothing. */
  lemma TrimmedExactly(f: Format, bomScanned: bool, doubled: bool, doc: Document)
    requires Format4180(f) && Valid(f, doc) && (bomScanned || !HasBom(Render(f, doc)))
    ensures ParseAll(f, Render(f, doc), bomScanned, doubled) == TrimmedWhole(f, doc)
      <==> NoRecordSpaced(f, doc.records) && NoneSpaced(f, doc.last) && (doc.last == [] || !LastLost(f, doc.last))
  {
    hide ParseAll, Render, RecordsRead, LastRead, TrimmedRecords, NoRecordSpaced, LastLost, HasBom, Valid;
    DocumentTrimmed(f, bomScanned, doubled, doc);
    RecordsExactly(f, doc.records);
    if doc.last != [] {
      LastExactly(f, doc.last);
    } else {
      NothingLastRead(f);
    }
    PairsExactly(RecordsRead(f, doc.records), TrimmedRecords(f, doc.records), LastRead(f, doc.last),
                 if doc.last == [] then [] else [TrimmedTexts(f, doc.last)]);
  }

  // ---------------------------------------------------------------- a text that is not read

  const SPACES: Format := Format(44, Some(34), {32})

  /** The text of a, two spaces and a quote is read without its quote; with one space
      it is read. */
  lemma SpacedQuoteLost(bomScanned: bool, doubled: bool)
    ensures var x, d := Quoted([97, 32, 32, 34]), [34, 97, 32, 32, 34, 34, 34, LF];
      var doc := Document([Record([x], [LF])], []);
      && Valid(SPACES, doc) && Render(SPACES, doc) == d && Trim(SPACES, x.text) == x.text
      && ParseAll(SPACES, d, bomScanned, doubled) == [[[97, 32, 32]]]
      && FieldRead(SPACES, Quoted([97, 32, 34])) == [97, 32, 34]
  {
    hide ParseAll, FieldRead, Render, HasBom;
    var x, d := Quoted([97, 32, 32, 34]), [34, 97, 32, 32, 34, 34, 34, LF];
    var doc := Document([Record([x], [LF])], []);
    TwoSpaces();
    OneSpace();
    SpacedDocument();
    assert !HasBom(d) by { QuoteNoBom(d); }
    DocumentTrimmed(SPACES, bomScanned, doubled, doc);
    assert TextsRead(SPACES, [x]) == [[97, 32, 32]];
    assert RecordsRead(SPACES, doc.records) == [[[97, 32, 32]]] + RecordsRead(SPACES, []);
    NothingLastRead(SPACES);
  }

  lemma QuoteNoBom(d: Text)
    requires d != [] && d[0] == 34
    ensures !HasBom(d)
  {
  }

  lemma SpacedDocument()
    ensures var doc := Document([Record([Quoted([97, 32, 32, 34])], [LF])], []);
      Valid(SPACES, doc) && Render(SPACES, doc) == [34, 97, 32, 32, 34, 34, 34, LF]
  {
    hide Double, RenderField, ValidFields, ValidEol, TrimFront, TrimEnd;
    var x := Quoted([97, 32, 32, 34]);
    var r := Record([x], [LF]);
    SpacedField();
    NoText(SPACES);
    OneValid();
    assert [r][1..] == [];
    assert RenderFields(SPACES, [x]) == RenderField(SPACES, x);
    assert RenderRecords(SPACES, [r]) == RenderField(SPACES, x) + [LF] + [];
    assert RenderRecords(SPACES, []) + RenderFields(SPACES, []) == [];
    assert ValidRecords(SPACES, [], RenderFields(SPACES, []));
    assert ValidRecords(SPACES, [r], RenderFields(SPACES, []));
  }

  lemma OneValid()
    ensures ValidFields(SPACES, [Quoted([97, 32, 32, 34])]) && ValidEol([LF]) && ValidFields(SPACES, [])
  {
  }

  lemma SpacedField()
    ensures RenderField(SPACES, Quoted([97, 32, 32, 34])) == [34, 97, 32, 32, 34, 34, 34]
  {
    hide Double, Trim, FieldRead, TrimFront, TrimEnd;
    TwoSpaces();
    assert [34] + [97, 32, 32, 34, 34] + [34] == [34, 97, 32, 32, 34, 34, 34];
  }

  lemma TwoSpaces()
    ensures var t := [97, 32, 32, 34];
      && Double(SPACES, t) == [97, 32, 32, 34, 34] && Trim(SPACES, t) == t
      && FieldRead(SPACES, Quoted(t)) == [97, 32, 32]
  {
    var t: Text := [97, 32, 32, 34];
    assert t[1..] == [32, 32, 34] && t[1..][1..] == [32, 34] && t[1..][1..][1..] == [34];
    assert Double(SPACES, [34]) == [34, 34] && Double(SPACES, [32, 34]) == [32, 34, 34];
    assert Double(SPACES, [32, 32, 34]) == [32, 32, 34, 34];
    assert t[..3] == [97, 32, 32] && t[..3][..2] == [97, 32] && t[..3][..2][..1] == [97];
    assert QuoteTail(SPACES, t[..3]) == 0 && QuoteTail(SPACES, t) == 1;
    assert TrimEnd(SPACES, [97]) == [97] && TrimEnd(SPACES, [97, 32, 32]) == [97];
    assert Double(SPACES, [97]) == [97] + Double(SPACES, []) == [97];
    assert LengthRead(SPACES, t) == 3;
    assert Slice([97, 32, 32, 34, 34], 0, 3) == [97, 32, 32];
    NoQuoteKept(SPACES, [97, 32, 32], false);
  }

  lemma OneSpace()
    ensures FieldRead(SPACES, Quoted([97, 32, 34])) == [97, 32, 34]
  {
    var t: Text := [97, 32, 34];
    assert t[..2] == [97, 32] && t[..2][..1] == [97];
    assert QuoteTail(SPACES, t[..2]) == 0 && QuoteTail(SPACES, t) == 1;
    assert TrimEnd(SPACES, [97]) == [97] && TrimEnd(SPACES, [97, 32]) == [97];
    FieldReadExactly(SPACES, Quoted(t));
    assert TrimFront(SPACES, t) == t && TrimEnd(SPACES, t) == t;
  }
}
