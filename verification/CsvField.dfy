/** How the scanner reads one field of an RFC 4180 document, with what its format trims. */
module CsvField {
  import opened Common
  import opened CsvScan
  import opened CsvDocument

  // ---------------------------------------------------------------- small facts

  lemma {:induction false} UndoubleDoubled(f: Format, t: Text)
    requires f.quote.Some?
    ensures Undouble(f, Double(f, t), false) == t
  {
    if t != [] {
      UndoubleDoubled(f, t[1..]);
      if t[0] == f.quote.value {
        var r := Double(f, t);
        assert r[1..] == [t[0]] + Double(f, t[1..]);
        assert r[1..][1..] == Double(f, t[1..]);
      } else {
        assert Double(f, t)[1..] == Double(f, t[1..]);
      }
    }
  }

  lemma {:induction false} NoQuoteKept(f: Format, t: Text, prev: bool)
    requires f.quote.Some? && f.quote.value !in t
    ensures Undouble(f, t, prev) == t && Double(f, t) == t
  {
    if t != [] {
      NoQuoteKept(f, t[1..], prev);
      assert t == [t[0]] + t[1..];
    }
  }

  lemma DoubleHead(f: Format, t: Text)
    requires f.quote.Some? && t != []
    ensures Double(f, t) == (if t[0] == f.quote.value then [t[0], t[0]] else [t[0]]) + Double(f, t[1..])
  {
  }

  lemma {:induction false} DoubleAppend(f: Format, a: Text, b: Text)
    requires f.quote.Some?
    ensures Double(f, a + b) == Double(f, a) + Double(f, b)
  {
    if a == [] {
      assert a + b == b;
    } else {
      DoubleAppend(f, a[1..], b);
      DoubleRest(f, a, b);
    }
  }

  lemma DoubleRest(f: Format, a: Text, b: Text)
    requires f.quote.Some? && a != [] && Double(f, a[1..] + b) == Double(f, a[1..]) + Double(f, b)
    ensures Double(f, a + b) == Double(f, a) + Double(f, b)
  {
    hide Double;
    assert (a + b)[1..] == a[1..] + b;
    DoubleHead(f, a);
    DoubleHead(f, a + b);
  }

  /** One turn of the loop takes s to t. */
  ghost predicate Turns(f: Format, d: Text, s: Scan, t: Scan)
    requires NonOverlapping(f) && Inv(f, d, s)
  {
    Inv(f, d, t) && Run(f, d, s) == Run(f, d, t)
  }

  lemma Turn(f: Format, d: Text, s: Scan)
    requires NonOverlapping(f) && Inv(f, d, s) && s.pos < |d| && Step(f, d, s).Some?
    ensures Turns(f, d, s, Step(f, d, s).value)
  {
    StepKeepsInv(f, d, s);
  }

  /** A turn over plain characters up to p: what is trimmed is trimmed. */
  lemma PlainTurn(f: Format, d: Text, s: Scan, p: nat, start: nat)
    requires Format4180(f) && Inv(f, d, s) && s.pos < p <= |d|
    requires forall i :: s.pos <= i < p ==> Plain(f, d[i], s.quoted)
    requires p < |d| ==> !Plain(f, d[p], s.quoted) && !Ws(f, d[p])
    requires start == (if s.start < 0 then SkipWs(f, d, s.pos) - s.rowStart else s.start)
    ensures s.rowStart + start <= p
    ensures Turns(f, d, s, s.(pos := p, start := start, len := TrimBack(f, d, p, p - (start + s.rowStart))))
  {
    hide Run, TrimBack;
    assert SkipWs(f, d, s.pos) <= p;
    assert SkipPlain(f, d, SkipWs(f, d, s.pos), s.quoted) == p;
    Turn(f, d, s);
  }

  lemma OpenTurn(f: Format, d: Text, s: Scan)
    requires Format4180(f) && Inv(f, d, s) && Fresh(s) && s.pos + 1 < |d| && d[s.pos] == f.quote.value
    ensures Turns(f, d, s, s.(quoted := true, pos := s.pos + 1,
                              start := if Ws(f, d[s.pos + 1]) then -1 else s.pos + 1 - s.rowStart))
  {
    hide Run;
    Turn(f, d, s);
  }

  lemma DoubledTurn(f: Format, d: Text, s: Scan)
    requires Format4180(f) && Inv(f, d, s) && s.quoted && s.pos + 1 < |d|
    requires d[s.pos] == f.quote.value && d[s.pos + 1] == f.quote.value
    ensures Turns(f, d, s, s.(pos := s.pos + 2, len := s.len + 2, doubled := true))
  {
    hide Run;
    Turn(f, d, s);
  }

  lemma CloseTurn(f: Format, d: Text, s: Scan)
    requires Format4180(f) && Inv(f, d, s) && s.quoted && s.pos + 1 < |d| && d[s.pos] == f.quote.value
    requires EndsAt(f, d, s.pos + 1)
    ensures Turns(f, d, s, s.(quoted := false, pos := s.pos + 1))
  {
    hide Run;
    Turn(f, d, s);
  }

  lemma CloseAtEnd(f: Format, d: Text, s: Scan)
    requires Format4180(f) && Inv(f, d, s) && s.quoted && s.pos + 1 == |d| && d[s.pos] == f.quote.value
    ensures Run(f, d, s) == s
  {
  }

  /** A field is followed by a delimiter, a newline or nothing. */
  predicate EndsAt(f: Format, d: Text, e: nat) {
    e < |d| ==> Flag(f, d[e]) >= DELIMITER
  }

  /** Between fields. */
  predicate Fresh(s: Scan) { s.start == -1 && s.len == 0 && !s.quoted }

  // ---------------------------------------------------------------- one field

  function Pending(s: Scan): RawField {
    RawField(if s.start < 0 then 0 else s.start, s.len, s.doubled)
  }

  /** From s the scanner gets to r, which holds one more field, not yet pushed,
      with the given text and ending at e. */
  ghost predicate Reads(f: Format, d: Text, s: Scan, r: Scan, text: Text, e: nat)
    requires NonOverlapping(f) && Inv(f, d, s)
  {
    && Inv(f, d, r) && Run(f, d, s) == Run(f, d, r)
    && r.rowStart == s.rowStart && r.cur == s.cur && r.rows == s.rows
    && FieldValue(f, d, r.rowStart, Pending(r)) == text && (r.len > 0 <==> text != [])
    && CleanField(f, d, r.rowStart, Pending(r))
    && (e < |d| ==> r.pos == e && !r.quoted)
    && (e >= |d| ==> Run(f, d, r) == r)
  }

  predicate At(d: Text, pos: nat, t: Text) {
    pos + |t| <= |d| && d[pos..pos + |t|] == t
  }

  lemma AtAppend(d: Text, pos: nat, a: Text, b: Text)
    requires At(d, pos, a + b)
    ensures At(d, pos, a) && At(d, pos + |a|, b)
  {
    assert d[pos..pos + |a|] == (a + b)[..|a|];
    assert d[pos + |a|..pos + |a| + |b|] == (a + b)[|a|..];
  }

  /** The raw text of a field decides its value. */
  lemma ValueOf(f: Format, d: Text, rowStart: nat, x: RawField, raw: Text)
    requires At(d, rowStart + x.start, raw) && x.length == |raw|
    ensures FieldValue(f, d, rowStart, x) == if x.doubled then Undouble(f, raw, false) else raw
  {
    hide Undouble;
  }

  /** Leading trim characters are skipped, and nothing behind the text. */
  lemma {:induction false} SkipFront(f: Format, d: Text, pos: nat, t: Text)
    requires At(d, pos, t) && (pos + |t| < |d| ==> !Ws(f, d[pos + |t|]))
    ensures SkipWs(f, d, pos) == pos + |t| - |TrimFront(f, t)|
    decreases |t|
  {
    if t != [] && Ws(f, t[0]) {
      AtIndex(d, pos, t, 0);
      assert t == [t[0]] + t[1..];
      AtAppend(d, pos, [t[0]], t[1..]);
      SkipFront(f, d, pos + 1, t[1..]);
    } else if t != [] {
      AtIndex(d, pos, t, 0);
    }
  }

  /** Trailing trim characters are dropped. */
  lemma {:induction false} TrimBackEnd(f: Format, d: Text, pos: nat, t: Text)
    requires At(d, pos, t)
    ensures TrimBack(f, d, pos + |t|, |t|) == |TrimEnd(f, t)|
    decreases |t|
  {
    if t != [] {
      var n := |t| - 1;
      AtIndex(d, pos, t, n);
      if Ws(f, t[n]) {
        assert t == t[..n] + [t[n]];
        AtAppend(d, pos, t[..n], [t[n]]);
        TrimBackEnd(f, d, pos, t[..n]);
      }
    }
  }

  lemma AtInside(d: Text, pos: nat, t: Text)
    requires At(d, pos, t)
    ensures pos + |t| <= |d|
  {
  }

  lemma AtFront(d: Text, pos: nat, t: Text, u: Text)
    requires At(d, pos, t) && u <= t
    ensures At(d, pos, u)
  {
    assert t == u + t[|u|..];
    AtAppend(d, pos, u, t[|u|..]);
  }

  lemma BareField(f: Format, d: Text, s: Scan, t: Text) returns (r: Scan)
    requires Format4180(f) && Inv(f, d, s) && Fresh(s)
    requires At(d, s.pos, t) && ValidField(f, Bare(t)) && EndsAt(f, d, s.pos + |t|)
    ensures Reads(f, d, s, r, Trim(f, t), s.pos + |t|)
  {
    hide Run, Undouble, Double, TrimBack, SkipWs, At, TrimFront, Inv, FieldValue;
    if t == [] {
      r := s;
      EmptyValue(f, d, r);
      NothingTrimmed(f);
    } else {
      r := BareTurn(f, d, s, t);
      BareNoQuote(f, t);
      TrimNoQuote(f, t);
      BareValue(f, d, r.rowStart, Pending(r), Trim(f, t));
    }
    if r.pos == |d| { AtEnd(f, d, r); }
    AtInside(d, s.pos, t);
  }

  lemma NothingTrimmed(f: Format)
    ensures Trim(f, []) == []
  {
  }

  lemma TrimNoQuote(f: Format, t: Text)
    requires f.quote.Some? && f.quote.value !in t
    ensures f.quote.value !in Trim(f, t)
  {
    var u := TrimFront(f, t);
    TrimFrontIs(f, t);
    TrimEndIs(f, u);
    assert t == t[..|t| - |u|] + u && u == TrimEnd(f, u) + u[|TrimEnd(f, u)|..];
  }

  /** The one turn over an unquoted text. */
  lemma BareTurn(f: Format, d: Text, s: Scan, t: Text) returns (r: Scan)
    requires Format4180(f) && Inv(f, d, s) && Fresh(s) && t != []
    requires At(d, s.pos, t) && ValidField(f, Bare(t)) && EndsAt(f, d, s.pos + |t|)
    ensures Turns(f, d, s, r) && r.start >= 0 && r.len == |Trim(f, t)|
    ensures r == s.(pos := s.pos + |t|, start := r.start, len := r.len)
    ensures At(d, r.rowStart + r.start, Trim(f, t))
  {
    hide Run, TrimBack, SkipWs, At, TrimFront, TrimEnd, Inv, Plain, Ws, NonOverlapping, EndsAt, ValidField;
    var u, e := TrimFront(f, t), s.pos + |t|;
    AtInside(d, s.pos, t);
    InvStart(f, d, s);
    BareText(f, d, s.pos, t);
    EndNotTrimmed(f, d, e);
    SkipFront(f, d, s.pos, t);
    FrontInside(f, t);
    PlainTurn(f, d, s, e, e - |u| - s.rowStart);
    FrontOff(f, d, s.pos, t);
    TrimBackEnd(f, d, e - |u|, u);
    EndOff(f, d, e - |u|, u);
    r := s.(pos := e, start := e - |u| - s.rowStart, len := |TrimEnd(f, u)|);
  }

  lemma EndNotTrimmed(f: Format, d: Text, e: nat)
    requires Format4180(f) && EndsAt(f, d, e)
    ensures e < |d| ==> !Ws(f, d[e]) && !Plain(f, d[e], false)
  {
  }

  lemma FrontOff(f: Format, d: Text, pos: nat, t: Text)
    requires At(d, pos, t)
    ensures var u := TrimFront(f, t); |u| <= |t| && At(d, pos + |t| - |u|, u)
  {
    hide At;
    TrimFrontIs(f, t);
    var u := TrimFront(f, t);
    var w := t[..|t| - |u|];
    assert t == w + u;
    AtAppend(d, pos, w, u);
  }

  lemma EndOff(f: Format, d: Text, pos: nat, u: Text)
    requires At(d, pos, u)
    ensures At(d, pos, TrimEnd(f, u))
  {
    TrimEndIs(f, u);
    AtFront(d, pos, u, TrimEnd(f, u));
  }

  lemma BareValue(f: Format, d: Text, rowStart: nat, x: RawField, raw: Text)
    requires f.quote.Some? && f.quote.value !in raw && At(d, rowStart + x.start, raw) && x.length == |raw|
    ensures FieldValue(f, d, rowStart, x) == raw && CleanField(f, d, rowStart, x)
  {
    hide Undouble, Double, At;
    ValueOf(f, d, rowStart, x, raw);
    ValueOf(f, d, rowStart, x.(doubled := true), raw);
    NoQuoteKept(f, raw, false);
  }

  lemma EmptyValue(f: Format, d: Text, r: Scan)
    requires r.len == 0
    ensures FieldValue(f, d, r.rowStart, Pending(r)) == [] && CleanField(f, d, r.rowStart, Pending(r))
  {
  }

  lemma AtEnd(f: Format, d: Text, s: Scan)
    requires NonOverlapping(f) && Inv(f, d, s) && s.pos == |d|
    ensures Run(f, d, s) == s
  {
  }

  lemma BareText(f: Format, d: Text, pos: nat, t: Text)
    requires At(d, pos, t) && ValidField(f, Bare(t))
    ensures forall i :: pos <= i < pos + |t| ==> Plain(f, d[i], false)
  {
    forall i | pos <= i < pos + |t| ensures Plain(f, d[i], false) {
      assert d[i] == d[pos..pos + |t|][i - pos] == t[i - pos];
    }
  }

  lemma BareNoQuote(f: Format, t: Text)
    requires f.quote.Some? && ValidField(f, Bare(t))
    ensures f.quote.value !in t
  {
  }

  /** The number of characters of t before its first quote. */
  function PlainRun(f: Format, t: Text): (k: nat)
    requires f.quote.Some?
    ensures k <= |t| && f.quote.value !in t[..k] && (k < |t| ==> t[k] == f.quote.value)
  {
    if t == [] || t[0] == f.quote.value then 0
    else
      var k := 1 + PlainRun(f, t[1..]);
      assert t[..k] == [t[0]] + t[1..][..k - 1];
      k
  }

  /** Inside a quoted field, s has read the first k characters of a text that does not
      begin with a trim character. */
  predicate Inside(f: Format, s: Scan, u: Text, k: nat)
    requires f.quote.Some? && k <= |u|
  {
    && s.quoted && s.start >= 0 && s.rowStart + s.start + |Double(f, u[..k])| == s.pos
    && s.len == LengthRead(f, u[..k])
  }

  lemma LengthOfQuote(f: Format, t: Text)
    requires f.quote.Some?
    ensures LengthRead(f, t + [f.quote.value]) == LengthRead(f, t) + 2
  {
    hide Double, TrimEnd;
    var u := t + [f.quote.value];
    assert u[..|u| - 1] == t;
    assert u[..|u| - QuoteTail(f, u)] == t[..|t| - QuoteTail(f, t)];
  }

  lemma LengthOfPlain(f: Format, t: Text)
    requires f.quote.Some? && (t != [] ==> t[|t| - 1] != f.quote.value)
    ensures LengthRead(f, t) == |Double(f, TrimEnd(f, t))|
  {
    hide Double, TrimEnd;
    assert t[..|t|] == t;
  }

  /** Doubling the quotes does not change what is trimmed at the end. */
  lemma {:induction false} TrimEndDoubled(f: Format, t: Text)
    requires Format4180(f)
    ensures TrimEnd(f, Double(f, t)) == Double(f, TrimEnd(f, t))
    decreases |t|
  {
    if t == [] {
    } else {
      var n := |t| - 1;
      assert t == t[..n] + [t[n]];
      DoubleAppend(f, t[..n], [t[n]]);
      DoubleOne(f, t[n]);
      if Ws(f, t[n]) {
        assert Double(f, t)[..|Double(f, t)| - 1] == Double(f, t[..n]);
        TrimEndDoubled(f, t[..n]);
      }
    }
  }

  lemma DoubleOne(f: Format, ch: Char)
    requires f.quote.Some?
    ensures Double(f, [ch]) == if ch == f.quote.value then [ch, ch] else [ch]
  {
    assert Double(f, []) == [];
  }

  lemma DoubleNext(f: Format, u: Text, k: nat, j: nat)
    requires f.quote.Some? && k + j <= |u|
    ensures Double(f, u[..k + j]) == Double(f, u[..k]) + Double(f, u[k..k + j])
    ensures u[..k + j] == u[..k] + u[k..k + j]
  {
    assert u[..k + j] == u[..k] + u[k..k + j];
    DoubleAppend(f, u[..k], u[k..k + j]);
  }

  /** The body of a quoted field, from its k-th character up to its closing quote. */
  lemma {:induction false} QuotedBody(f: Format, d: Text, s: Scan, u: Text, k: nat) returns (r: Scan)
    requires Format4180(f) && Inv(f, d, s) && k <= |u| && Inside(f, s, u, k)
    requires At(d, s.rowStart + s.start, Double(f, u) + [f.quote.value])
    requires At(d, s.pos, Double(f, u[k..]) + [f.quote.value])
    ensures Inv(f, d, r) && Run(f, d, s) == Run(f, d, r)
    ensures r == s.(pos := s.pos + |Double(f, u[k..])|, len := LengthRead(f, u),
                    doubled := s.doubled || f.quote.value in u[k..])
    decreases |u| - k
  {
    hide Run, Inv, At, NonOverlapping, Double, LengthRead;
    var q, t := f.quote.value, u[k..];
    if t == [] {
      assert u[..k] == u;
      NoneDoubled(f);
      r := s;
    } else if t[0] == q {
      DoubledText(f, d, s.pos, t);
      DoubledTurn(f, d, s);
      assert t[1..] == u[k + 1..] && u[k..k + 1] == [q];
      DoubleNext(f, u, k, 1);
      DoubleOne(f, q);
      LengthOfQuote(f, u[..k]);
      r := QuotedBody(f, d, s.(pos := s.pos + 2, len := s.len + 2, doubled := true), u, k + 1);
    } else {
      var j := PlainRun(f, t);
      var v := PlainPart(f, d, s, u, k, j);
      r := QuotedBody(f, d, v, u, k + j);
      PlainText(f, d, s.pos, t, j);
    }
  }

  lemma NoneDoubled(f: Format)
    requires f.quote.Some?
    ensures Double(f, []) == []
  {
  }

  /** The characters of a quoted text up to the next quote, and that quote; and what is
      trimmed there of the text so far, which begins at a. */
  lemma PlainStretch(f: Format, d: Text, a: nat, pos: nat, u: Text, k: nat, j: nat)
    requires Format4180(f) && k < |u| && u[k] != f.quote.value && j == PlainRun(f, u[k..])
    requires At(d, a, Double(f, u) + [f.quote.value]) && pos == a + |Double(f, u[..k])|
    requires At(d, pos, Double(f, u[k..]) + [f.quote.value])
    ensures 0 < j && k + j <= |u| && pos + j < |d| && d[pos + j] == f.quote.value
    ensures forall i :: pos <= i < pos + j ==> d[i] != f.quote.value
    ensures At(d, pos + j, Double(f, u[k + j..]) + [f.quote.value])
    ensures |Double(f, u[..k + j])| == |Double(f, u[..k])| + j
    ensures TrimBack(f, d, pos + j, pos + j - a) == LengthRead(f, u[..k + j])
  {
    hide At, Double, LengthRead, TrimBack, TrimEnd, NonOverlapping;
    var q, t := f.quote.value, u[k..];
    NotQuoted(f, t);
    hide PlainRun;
    PlainText(f, d, pos, t, j);
    NoQuoteAt(d, pos, t[..j], q);
    assert t[j..] == u[k + j..] && t[..j] == u[k..k + j];
    DoubleNext(f, u, k, j);
    NoQuoteKept(f, t[..j], false);
    assert u[k + j - 1] == t[..j][j - 1];
    StretchTrimmed(f, d, a, u, k + j);
  }

  /** What is trimmed of the text up to a character that is no quote. */
  lemma StretchTrimmed(f: Format, d: Text, a: nat, u: Text, n: nat)
    requires Format4180(f) && 0 < n <= |u| && u[n - 1] != f.quote.value
    requires At(d, a, Double(f, u) + [f.quote.value])
    ensures a + |Double(f, u[..n])| <= |d|
    ensures TrimBack(f, d, a + |Double(f, u[..n])|, |Double(f, u[..n])|) == LengthRead(f, u[..n])
  {
    hide At, Double, LengthRead, TrimBack, TrimEnd;
    var p := u[..n];
    DoubleFront(f, u, n);
    AtFront(d, a, Double(f, u) + [f.quote.value], Double(f, p));
    AtInside(d, a, Double(f, p));
    TrimBackEnd(f, d, a, Double(f, p));
    TrimEndDoubled(f, p);
    LengthOfPlain(f, p);
  }

  /** The turn over them. */
  lemma PlainPart(f: Format, d: Text, s: Scan, u: Text, k: nat, j: nat) returns (v: Scan)
    requires Format4180(f) && Inv(f, d, s) && k < |u| && Inside(f, s, u, k)
    requires u[k] != f.quote.value && j == PlainRun(f, u[k..])
    requires At(d, s.rowStart + s.start, Double(f, u) + [f.quote.value])
    requires At(d, s.pos, Double(f, u[k..]) + [f.quote.value])
    ensures 0 < j && k + j <= |u| && Inv(f, d, v) && Run(f, d, s) == Run(f, d, v) && Inside(f, v, u, k + j)
    ensures v == s.(pos := s.pos + j, len := v.len) && At(d, v.pos, Double(f, u[k + j..]) + [f.quote.value])
  {
    hide Run, Inv, At, Double, LengthRead, TrimBack, SkipWs, PlainRun;
    PlainStretch(f, d, s.rowStart + s.start, s.pos, u, k, j);
    InvStart(f, d, s);
    PlainTurn(f, d, s, s.pos + j, s.start);
    v := s.(pos := s.pos + j, len := LengthRead(f, u[..k + j]));
  }

  lemma InvStart(f: Format, d: Text, s: Scan)
    requires Inv(f, d, s)
    ensures s.rowStart <= s.pos <= |d| && s.start >= -1
  {
  }

  lemma DoubleFront(f: Format, u: Text, n: nat)
    requires f.quote.Some? && n <= |u|
    ensures Double(f, u[..n]) <= Double(f, u) + [f.quote.value]
  {
    assert u == u[..n] + u[n..];
    DoubleAppend(f, u[..n], u[n..]);
  }

  lemma DoubledText(f: Format, d: Text, pos: nat, t: Text)
    requires f.quote.Some? && t != [] && t[0] == f.quote.value
    requires At(d, pos, Double(f, t) + [f.quote.value])
    ensures pos + 1 < |d| && d[pos] == f.quote.value == d[pos + 1]
    ensures At(d, pos + 2, Double(f, t[1..]) + [f.quote.value])
    ensures |Double(f, t)| == 2 + |Double(f, t[1..])|
  {
    var q := f.quote.value;
    var rest := Double(f, t[1..]) + [q];
    assert Double(f, t) + [q] == [q, q] + rest;
    AtAppend(d, pos, [q, q], rest);
    AtIndex(d, pos, [q, q], 0);
    AtIndex(d, pos, [q, q], 1);
  }

  lemma AtIndex(d: Text, pos: nat, t: Text, i: nat)
    requires At(d, pos, t) && i < |t|
    ensures pos + i < |d| && d[pos + i] == t[i]
  {
    assert d[pos..pos + |t|][i] == t[i];
  }

  /** The part of a quoted body before its first quote stands in the text as it is. */
  lemma PlainText(f: Format, d: Text, pos: nat, t: Text, k: nat)
    requires Format4180(f) && t != [] && t[0] != f.quote.value && k == PlainRun(f, t)
    requires At(d, pos, Double(f, t) + [f.quote.value])
    ensures 0 < k && pos + k < |d| && d[pos + k] == f.quote.value
    ensures At(d, pos, t[..k]) && At(d, pos + k, Double(f, t[k..]) + [f.quote.value])
    ensures |Double(f, t)| == k + |Double(f, t[k..])|
    ensures f.quote.value in t <==> f.quote.value in t[k..]
  {
    hide Double, At;
    var q := f.quote.value;
    var rest := Double(f, t[k..]) + [q];
    DoubledSplit(f, t, k);
    assert Double(f, t) + [q] == t[..k] + rest;
    AtAppend(d, pos, t[..k], rest);
    FirstOfRest(f, t, k);
    AtIndex(d, pos + k, rest, 0);
    assert t == t[..k] + t[k..];
  }

  lemma NoQuoteAt(d: Text, pos: nat, t: Text, q: Char)
    requires At(d, pos, t) && q !in t
    ensures forall i :: pos <= i < pos + |t| ==> d[i] != q
  {
    forall i | pos <= i < pos + |t| ensures d[i] != q {
      AtIndex(d, pos, t, i - pos);
    }
  }

  lemma DoubledSplit(f: Format, t: Text, k: nat)
    requires f.quote.Some? && k <= |t| && f.quote.value !in t[..k]
    ensures Double(f, t) == t[..k] + Double(f, t[k..])
  {
    assert t == t[..k] + t[k..];
    DoubleAppend(f, t[..k], t[k..]);
    NoQuoteKept(f, t[..k], false);
  }

  lemma FirstOfRest(f: Format, t: Text, k: nat)
    requires f.quote.Some? && k <= |t| && (k < |t| ==> t[k] == f.quote.value)
    ensures (Double(f, t[k..]) + [f.quote.value])[0] == f.quote.value
  {
  }

  /** The first turns of a quoted field: up to its first character that is not
      trimmed, or further. */
  lemma QuotedBegin(f: Format, d: Text, s: Scan, t: Text) returns (v: Scan, k: nat)
    requires Format4180(f) && Inv(f, d, s) && Fresh(s)
    requires At(d, s.pos, RenderField(f, Quoted(t)))
    ensures var u := TrimFront(f, t); var a := s.pos + 1 + |t| - |u|;
      && Inv(f, d, v) && Run(f, d, s) == Run(f, d, v) && k <= |u| && Inside(f, v, u, k)
      && v == s.(quoted := true, pos := v.pos, start := a - s.rowStart, len := v.len)
      && At(d, a, Double(f, u) + [f.quote.value]) && At(d, v.pos, Double(f, u[k..]) + [f.quote.value])
      && v.pos + |Double(f, u[k..])| == s.pos + 1 + |Double(f, t)|
      && f.quote.value !in u[..k]
  {
    hide Run, Inv, At, Double, LengthRead, SkipWs, TrimBack, TrimFront, Inside, NonOverlapping, Ws;
    QuotedText(f, d, s.pos, t);
    InvStart(f, d, s);
    OpenTurn(f, d, s);
    FrontKept(f, d, s.pos + 1, t);
    AtIndex(d, s.pos + 1, Double(f, t) + [f.quote.value], 0);
    DoubledBegin(f, t);
    FrontFirst(f, t);
    if TrimFront(f, t) == t {
      v, k := s.(quoted := true, pos := s.pos + 1, start := s.pos + 1 - s.rowStart), 0;
      assert t[0..] == t;
      InsideBegin(f, v, t);
    } else {
      v, k := FrontSkipped(f, d, s.(quoted := true, pos := s.pos + 1), t);
    }
  }

  lemma InsideBegin(f: Format, s: Scan, u: Text)
    requires f.quote.Some? && s.quoted && s.start >= 0 && s.rowStart + s.start == s.pos && s.len == 0
    ensures Inside(f, s, u, 0)
  {
    assert u[..0] == [];
    LengthOfPlain(f, []);
    NoneDoubled(f);
  }

  lemma FrontFirst(f: Format, t: Text)
    requires Format4180(f)
    ensures TrimFront(f, t) == t <==> !Ws(f, if t == [] then f.quote.value else t[0])
  {
  }

  /** The text without its front stands behind the front. */
  lemma {:induction false} FrontKept(f: Format, d: Text, pos: nat, t: Text)
    requires Format4180(f) && At(d, pos, Double(f, t) + [f.quote.value])
    ensures var u := TrimFront(f, t);
      && At(d, pos + |t| - |u|, Double(f, u) + [f.quote.value]) && |Double(f, t)| == |t| - |u| + |Double(f, u)|
    decreases |t|
  {
    hide At, Double;
    if t != [] && Ws(f, t[0]) {
      DoubleHead(f, t);
      var rest := Double(f, t[1..]) + [f.quote.value];
      assert Double(f, t) + [f.quote.value] == [t[0]] + rest;
      AtAppend(d, pos, [t[0]], rest);
      FrontKept(f, d, pos + 1, t[1..]);
    }
  }

  lemma DoubledBegin(f: Format, t: Text)
    requires f.quote.Some?
    ensures (Double(f, t) + [f.quote.value])[0] == if t == [] then f.quote.value else t[0]
  {
  }

  /** The front, the characters up to the next quote, and that quote in the text. */
  lemma FrontAt(f: Format, d: Text, pos: nat, t: Text, k: nat)
    requires Format4180(f) && At(d, pos, Double(f, t) + [f.quote.value]) && k == PlainRun(f, TrimFront(f, t))
    ensures var u := TrimFront(f, t); var a := pos + |t| - |u|;
      && a + k < |d| && d[a + k] == f.quote.value && SkipWs(f, d, pos) == a
      && (forall i :: pos <= i < a + k ==> d[i] != f.quote.value)
      && At(d, a, u[..k]) && At(d, a + k, Double(f, u[k..]) + [f.quote.value])
      && |Double(f, t)| == |t| - |u| + k + |Double(f, u[k..])|
  {
    hide Double, At, TrimFront, PlainRun;
    var q, u := f.quote.value, TrimFront(f, t);
    var w, rest := t[..|t| - |u|], Double(f, u) + [q];
    var a := pos + |w|;
    FrontSplit(f, t);
    TrimFrontIs(f, t);
    assert Double(f, t) + [q] == w + rest;
    AtAppend(d, pos, w, rest);
    RunAt(f, d, a, u, k);
    NoQuoteAt(d, pos, w, q);
    if k > 0 { AtIndex(d, a, u[..k], 0); }
    SkipOver(f, d, pos, w);
  }

  lemma FrontSplit(f: Format, t: Text)
    requires Format4180(f)
    ensures var u := TrimFront(f, t); var w := t[..|t| - |u|];
      t == w + u && f.quote.value !in w && Double(f, t) == w + Double(f, u)
  {
    hide Double;
    TrimFrontIs(f, t);
    var u := TrimFront(f, t);
    var w := t[..|t| - |u|];
    assert t == w + u && f.quote.value !in w;
    DoubleAppend(f, w, u);
    NoQuoteKept(f, w, false);
  }

  lemma RunAt(f: Format, d: Text, a: nat, u: Text, k: nat)
    requires f.quote.Some? && At(d, a, Double(f, u) + [f.quote.value]) && k == PlainRun(f, u)
    ensures a + k < |d| && d[a + k] == f.quote.value && f.quote.value !in u[..k]
    ensures forall i :: a <= i < a + k ==> d[i] != f.quote.value
    ensures At(d, a, u[..k]) && At(d, a + k, Double(f, u[k..]) + [f.quote.value])
    ensures |Double(f, u)| == k + |Double(f, u[k..])|
  {
    hide Double, At;
    var q := f.quote.value;
    DoubledSplit(f, u, k);
    var last := Double(f, u[k..]) + [q];
    assert Double(f, u) + [q] == u[..k] + last;
    AtAppend(d, a, u[..k], last);
    FirstOfRest(f, u, k);
    AtIndex(d, a + k, last, 0);
    NoQuoteAt(d, a, u[..k], q);
  }

  /** In quotes every character but a quote is plain. */
  lemma InQuotes(f: Format, d: Text, pos: nat, p: nat)
    requires Format4180(f) && p < |d| && d[p] == f.quote.value && forall i :: pos <= i < p ==> d[i] != f.quote.value
    ensures (forall i :: pos <= i < p ==> Plain(f, d[i], true)) && !Plain(f, d[p], true) && !Ws(f, d[p])
  {
  }

  lemma InsideFirst(f: Format, v: Scan, u: Text, k: nat)
    requires f.quote.Some? && k <= |u| && f.quote.value !in u[..k] && v.quoted && v.start >= 0
    requires v.rowStart + v.start + k == v.pos && v.len == |TrimEnd(f, u[..k])|
    ensures Inside(f, v, u, k)
  {
    hide Double, LengthRead;
    NoQuoteKept(f, u[..k], false);
    LengthOfPlain(f, u[..k]);
    TrimEndIs(f, u[..k]);
    NoQuoteKept(f, TrimEnd(f, u[..k]), false);
  }

  lemma NotQuoted(f: Format, u: Text)
    requires f.quote.Some?
    ensures f.quote.value !in u[..PlainRun(f, u)]
  {
  }

  lemma FrontInside(f: Format, t: Text)
    ensures |TrimFront(f, t)| <= |t|
  {
  }

  lemma FrontShorter(f: Format, t: Text)
    ensures TrimFront(f, t) != t ==> |TrimFront(f, t)| < |t|
  {
  }

  lemma SkipOver(f: Format, d: Text, pos: nat, w: Text)
    requires At(d, pos, w) && (forall i :: 0 <= i < |w| ==> Ws(f, w[i]))
    requires pos + |w| < |d| && !Ws(f, d[pos + |w|])
    ensures SkipWs(f, d, pos) == pos + |w|
  {
    hide At;
    forall i | pos <= i < pos + |w| ensures Ws(f, d[i]) { AtIndex(d, pos, w, i - pos); }
  }

  /** A quoted text that begins with trim characters: one turn goes over them and over
      the characters up to the next quote. */
  lemma FrontSkipped(f: Format, d: Text, s: Scan, t: Text) returns (v: Scan, k: nat)
    requires Format4180(f) && Inv(f, d, s) && s.quoted && s.start == -1 && s.len == 0
    requires At(d, s.pos, Double(f, t) + [f.quote.value]) && TrimFront(f, t) != t
    ensures var u := TrimFront(f, t); var a := s.pos + |t| - |u|;
      && Inv(f, d, v) && Run(f, d, s) == Run(f, d, v) && k <= |u| && Inside(f, v, u, k)
      && v == s.(pos := v.pos, start := a - s.rowStart, len := v.len)
      && At(d, v.pos, Double(f, u[k..]) + [f.quote.value])
      && v.pos + |Double(f, u[k..])| == s.pos + |Double(f, t)|
      && f.quote.value !in u[..k]
  {
    hide Run, Inv, At, Double, LengthRead, SkipWs, TrimBack;
    hide PlainRun, TrimFront, TrimEnd, Plain, Ws, NonOverlapping, Inside;
    var u := TrimFront(f, t);
    var a := s.pos + |t| - |u|;
    k := PlainRun(f, u);
    NotQuoted(f, u);
    FrontShorter(f, t);
    FrontAt(f, d, s.pos, t, k);
    InvStart(f, d, s);
    InQuotes(f, d, s.pos, a + k);
    PlainTurn(f, d, s, a + k, a - s.rowStart);
    TrimBackEnd(f, d, a, u[..k]);
    v := s.(pos := a + k, start := a - s.rowStart, len := |TrimEnd(f, u[..k])|);
    InsideFirst(f, v, u, k);
  }

  /** From before the closing quote on. */
  lemma QuotedEnd(f: Format, d: Text, v: Scan) returns (r: Scan)
    requires Format4180(f) && Inv(f, d, v) && v.quoted && v.pos < |d| && d[v.pos] == f.quote.value
    requires EndsAt(f, d, v.pos + 1)
    ensures Inv(f, d, r) && Run(f, d, v) == Run(f, d, r)
    ensures r == v.(quoted := r.quoted, pos := r.pos)
    ensures v.pos + 1 < |d| ==> r.pos == v.pos + 1 && !r.quoted
    ensures v.pos + 1 >= |d| ==> Run(f, d, r) == r
  {
    hide Run, Inv;
    if v.pos + 1 < |d| {
      CloseTurn(f, d, v);
      r := v.(quoted := false, pos := v.pos + 1);
    } else {
      CloseAtEnd(f, d, v);
      r := v;
    }
  }

  lemma QuotedField(f: Format, d: Text, s: Scan, t: Text) returns (r: Scan)
    requires Format4180(f) && Inv(f, d, s) && Fresh(s)
    requires At(d, s.pos, RenderField(f, Quoted(t))) && EndsAt(f, d, s.pos + |Double(f, t)| + 2)
    ensures Reads(f, d, s, r, FieldRead(f, Quoted(t)), s.pos + |Double(f, t)| + 2)
  {
    hide Run, Double, FieldValue, At, Inv, LengthRead, TrimFront, Undouble, Slice, Inside, NonOverlapping, CleanField;
    hide FieldRead, EndsAt;
    var u := TrimFront(f, t);
    QuotedRead(f, t);
    QuotedText(f, d, s.pos, t);
    InvStart(f, d, s);
    FrontInside(f, t);
    var b, k := QuotedBegin(f, d, s, t);
    var v := QuotedBody(f, d, b, u, k);
    r := QuotedEnd(f, d, v);
    QuotesLeft(f, u, k);
    QuotedValue(f, d, r.rowStart, Pending(r), u);
  }

  lemma QuotesLeft(f: Format, u: Text, k: nat)
    requires f.quote.Some? && k <= |u| && f.quote.value !in u[..k]
    ensures f.quote.value in u <==> f.quote.value in u[k..]
  {
    assert u == u[..k] + u[k..];
  }

  lemma QuotedText(f: Format, d: Text, pos: nat, t: Text)
    requires f.quote.Some? && At(d, pos, [f.quote.value] + Double(f, t) + [f.quote.value])
    ensures pos + 1 < |d| && d[pos] == f.quote.value
    ensures At(d, pos + 1, Double(f, t) + [f.quote.value]) && At(d, pos + 1, Double(f, t))
    ensures pos + 1 + |Double(f, t)| < |d| && d[pos + 1 + |Double(f, t)|] == f.quote.value
  {
    hide Double, At;
    var q := f.quote.value;
    var body := Double(f, t) + [q];
    assert [q] + Double(f, t) + [q] == [q] + body;
    AtAppend(d, pos, [q], body);
    AtIndex(d, pos, [q], 0);
    AtAppend(d, pos + 1, Double(f, t), [q]);
    AtIndex(d, pos + 1 + |Double(f, t)|, [q], 0);
  }

  /** The quotes at the end are doubled. */
  lemma {:induction false} TailDoubled(f: Format, t: Text)
    requires f.quote.Some?
    ensures QuoteTail(f, t) <= |t|
    ensures |Double(f, t)| == |Double(f, t[..|t| - QuoteTail(f, t)])| + 2 * QuoteTail(f, t)
    decreases |t|
  {
    hide Double;
    if QuoteTail(f, t) == 0 {
      assert t[..|t|] == t;
    } else {
      var n := |t| - 1;
      assert t == t[..n] + [t[n]];
      DoubleAppend(f, t[..n], [t[n]]);
      DoubleOne(f, t[n]);
      TailDoubled(f, t[..n]);
      assert t[..n][..n - QuoteTail(f, t[..n])] == t[..|t| - QuoteTail(f, t)];
    }
  }

  lemma {:induction false} LengthInside(f: Format, t: Text)
    requires f.quote.Some?
    ensures LengthRead(f, t) <= |Double(f, t)|
  {
    hide Double, TrimEnd, QuoteTail;
    TailDoubled(f, t);
    EndShorter(f, t[..|t| - QuoteTail(f, t)]);
  }

  lemma {:induction false} EndShorter(f: Format, y: Text)
    requires f.quote.Some?
    ensures |Double(f, TrimEnd(f, y))| <= |Double(f, y)|
  {
    hide Double, TrimEnd;
    TrimEndIs(f, y);
    var z := TrimEnd(f, y);
    assert y == z + y[|z|..];
    DoubleAppend(f, z, y[|z|..]);
  }

  lemma QuotedValue(f: Format, d: Text, rowStart: nat, x: RawField, u: Text)
    requires f.quote.Some? && At(d, rowStart + x.start, Double(f, u) + [f.quote.value])
    requires x.length == LengthRead(f, u) && (f.quote.value in u ==> x.doubled)
    ensures var v := Undouble(f, Slice(Double(f, u), 0, LengthRead(f, u)), false);
      FieldValue(f, d, rowStart, x) == v && (x.length > 0 <==> v != []) && CleanField(f, d, rowStart, x)
  {
    hide FieldValue, Double, LengthRead, At, Undouble;
    LengthInside(f, u);
    var raw := Double(f, u)[..x.length];
    assert Slice(Double(f, u), 0, x.length) == raw;
    AtFront(d, rowStart + x.start, Double(f, u) + [f.quote.value], raw);
    ValueOf(f, d, rowStart, x, raw);
    ValueOf(f, d, rowStart, x.(doubled := true), raw);
    SomethingKept(f, raw);
    if !x.doubled {
      NoQuoteKept(f, u, false);
      assert f.quote.value !in raw;
      NoQuoteKept(f, raw, false);
    }
  }

  lemma SomethingKept(f: Format, raw: Text)
    ensures Undouble(f, raw, false) == [] <==> raw == []
  {
  }

  lemma QuotedRead(f: Format, t: Text)
    requires f.quote.Some?
    ensures var u := TrimFront(f, t);
      FieldRead(f, Quoted(t)) == Undouble(f, Slice(Double(f, u), 0, LengthRead(f, u)), false)
  {
    hide TrimFront, Undouble, Slice, Double, LengthRead;
  }

  lemma OneField(f: Format, d: Text, s: Scan, x: Field) returns (r: Scan)
    requires Format4180(f) && Inv(f, d, s) && Fresh(s) && ValidField(f, x)
    requires At(d, s.pos, RenderField(f, x)) && EndsAt(f, d, s.pos + |RenderField(f, x)|)
    ensures Reads(f, d, s, r, FieldRead(f, x), s.pos + |RenderField(f, x)|)
  {
    match x
    case Bare(t) => r := BareField(f, d, s, t);
    case Quoted(t) => r := QuotedField(f, d, s, t);
  }
}
