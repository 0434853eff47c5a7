/** Escaping text for JSON into a buffer of pre-computed length
    (lib/csv-parser/csv.hpp, json_extra_space and json_escape_string; RFC 8259, section 7). */
module Json {
  import opened Common
  import opened CsvScan
  import opened Utf8

  // ---------------------------------------------------------------- what escaping means

  const BACKSLASH: Char := 92
  const QUOTATION: Char := 34

  /** The letter of the short escape of a character, if it has one. */
  function Short(c: Char): Option<Char> {
    if c == QUOTATION || c == BACKSLASH then Some(c)
    else if c == 8 then Some(98)
    else if c == 12 then Some(102)
    else if c == 10 then Some(110)
    else if c == 13 then Some(114)
    else if c == 9 then Some(116)
    else None
  }

  predicate Control(c: Char) { 0 <= c <= 0x1f }

  /** Written as four hexadecimal digits. */
  predicate Long(c: Char) { Short(c) == None && Control(c) }

  function Hex(d: nat): Char
    requires d < 16
  {
    if d < 10 then 48 + d else 87 + d
  }

  function Escaped(c: Char): (e: Text)
    ensures e != []
  {
    if Short(c).Some? then [BACKSLASH, Short(c).value]
    else if Control(c) then [BACKSLASH, 117, 48, 48, Hex(c / 16), Hex(c % 16)]
    else [c]
  }

  function Escape(s: Text): (e: Text)
    ensures |e| >= |s|
  {
    if s == [] then [] else Escape(s[..|s| - 1]) + Escaped(s[|s| - 1])
  }

  // ---------------------------------------------------------------- reading escapes back

  function HexValue(c: Char): Option<nat> {
    if 48 <= c <= 57 then Some(c - 48)
    else if 97 <= c <= 102 then Some(c - 87)
    else if 65 <= c <= 70 then Some(c - 55)
    else None
  }

  /** The character a short escape stands for. */
  function Unshort(c: Char): Option<Char> {
    if c == QUOTATION || c == BACKSLASH || c == 47 then Some(c)
    else if c == 98 then Some(8)
    else if c == 102 then Some(12)
    else if c == 110 then Some(10)
    else if c == 114 then Some(13)
    else if c == 116 then Some(9)
    else None
  }

  /** The number of four hexadecimal digits. */
  function FromHex(e: Text): Option<nat>
    requires |e| >= 4
  {
    match (HexValue(e[0]), HexValue(e[1]), HexValue(e[2]), HexValue(e[3]))
    case (Some(a), Some(b), Some(c), Some(d)) => Some(16 * (16 * (16 * a + b) + c) + d)
    case _ => None
  }

  /** A byte as a signed character. */
  function AsChar(b: Byte): Char { var n: int := b; if n < 128 then n else n - 256 }

  /** The bytes of a code point in UTF-8, as characters. */
  function Encoded(v: nat): Text
    requires IsScalar(v)
  {
    var bytes := Encode(v);
    seq(|bytes|, i requires 0 <= i < |bytes| => AsChar(bytes[i]))
  }

  /** A high surrogate and the low one after it. */
  predicate Surrogates(v: nat, w: nat) { 0xD800 <= v < 0xDC00 && 0xDC00 <= w < 0xE000 }

  function Joined(v: nat, w: nat): nat
    requires Surrogates(v, w)
  {
    0x10000 + (v - 0xD800) * 0x400 + (w - 0xDC00)
  }

  predicate IsHexEscape(e: Text) { |e| >= 6 && e[0] == BACKSLASH && e[1] == 117 }

  /** The text of an escape with four digits, or of two that are a surrogate pair,
      and how long the escapes are. */
  function Unhex(e: Text): Option<(Text, nat)>
    requires IsHexEscape(e)
    ensures Unhex(e).Some? ==> 0 < Unhex(e).value.1 <= |e|
  {
    match FromHex(e[2..6])
    case None => None
    case Some(v) =>
      if IsScalar(v) then Some((Encoded(v), 6))
      else if !IsHexEscape(e[6..]) then None
      else
        match FromHex(e[8..12])
        case None => None
        case Some(w) => if Surrogates(v, w) then Some((Encoded(Joined(v, w)), 12)) else None
  }

  function Then(c: Text, rest: Option<Text>): Option<Text> {
    if rest.Some? then Some(c + rest.value) else None
  }

  /** The text of a JSON string's inside; None if the string is not well-formed: a
      quotation mark or a control character may not stand there as it is, nor a
      surrogate without its other half. */
  function Unescape(e: Text): Option<Text> {
    if e == [] then Some([])
    else if IsHexEscape(e) then
      match Unhex(e)
      case None => None
      case Some(x) => Then(x.0, Unescape(e[x.1..]))
    else if e[0] == BACKSLASH then
      if |e| >= 2 && Unshort(e[1]).Some? then Then([Unshort(e[1]).value], Unescape(e[2..])) else None
    else if e[0] == QUOTATION || Control(e[0]) then None
    else Then([e[0]], Unescape(e[1..]))
  }

  lemma HexAscii(c: Char)
    requires Control(c)
    ensures FromHex([48, 48, Hex(c / 16), Hex(c % 16)]) == Some(c) && IsScalar(c) && Encoded(c) == [c]
  {
  }

  lemma UnescapeOne(c: Char, rest: Text)
    ensures Unescape(Escaped(c) + rest) == Then([c], Unescape(rest))
  {
    hide FromHex, Encoded, IsScalar;
    var e := Escaped(c) + rest;
    assert e[|Escaped(c)|..] == rest;
    if Long(c) {
      assert e[2..6] == [48, 48, Hex(c / 16), Hex(c % 16)];
      HexAscii(c);
    }
  }

  lemma EscapeLast(s: Text, c: Char)
    ensures Escape(s + [c]) == Escape(s) + Escaped(c)
  {
    assert (s + [c])[..|s|] == s;
  }

  lemma {:induction false} EscapeAppend(a: Text, b: Text)
    ensures Escape(a + b) == Escape(a) + Escape(b)
    decreases |b|
  {
    hide Escape, Escaped;
    if b == [] {
      assert a + b == a;
      EscapeNothing();
    } else {
      var n := |b| - 1;
      assert b == b[..n] + [b[n]];
      assert a + b == (a + b[..n]) + [b[n]];
      EscapeAppend(a, b[..n]);
      EscapeLast(a + b[..n], b[n]);
      EscapeLast(b[..n], b[n]);
    }
  }

  lemma EscapeNothing()
    ensures Escape([]) == []
  {
  }

  /** Un-escaping what was escaped gives the text back, for every text; in
      particular what was escaped is a well-formed string. */
  lemma {:induction false} EscapeReadsBack(s: Text)
    ensures Unescape(Escape(s)) == Some(s)
  {
    if s != [] {
      EscapeReadsBack(s[1..]);
      assert s == [s[0]] + s[1..];
      EscapeAppend([s[0]], s[1..]);
      EscapeSingle(s[0]);
      UnescapeOne(s[0], Escape(s[1..]));
    }
  }

  lemma EscapeSingle(c: Char)
    ensures Escape([c]) == Escaped(c)
  {
    assert [c][..0] == [];
  }

  /** The escapes, in characters: a backslash and itself for a quotation mark and a
      backslash, letters for five control characters, four digits for the others, of
      which the last two count, and the character itself for every other. */
  lemma EscapesAre(c: Char)
    ensures Escape([34]) == [92, 34] && Escape([92]) == [92, 92] && Escape([8]) == [92, 98] && Escape([12]) == [92, 102]
    ensures Escape([10]) == [92, 110] && Escape([13]) == [92, 114] && Escape([9]) == [92, 116]
    ensures 0 <= c < 32 && c !in [8, 9, 10, 12, 13] ==>
      Escape([c]) == [92, 117, 48, 48, 48 + c / 16, if c % 16 < 10 then 48 + c % 16 else 87 + c % 16]
    ensures (c < 0 || c >= 32) && c != 34 && c != 92 ==> Escape([c]) == [c]
  {
    hide Escape;
    EscapeSingle(34); EscapeSingle(92); EscapeSingle(8); EscapeSingle(12);
    EscapeSingle(10); EscapeSingle(13); EscapeSingle(9); EscapeSingle(c);
  }

  /** What one escape or character of a string stands for, and its length. */
  lemma UnescapeParts(e: Text, s: Text) returns (n: nat, x: Text)
    requires e != [] && Unescape(e) == Some(s)
    ensures 0 < n <= |e| && |x| <= |s| && x == s[..|x|] && Unescape(e[n..]) == Some(s[|x|..])
    ensures |Escape(x)| <= n
  {
    hide FromHex, Encoded, IsScalar, Escape, Escaped;
    if IsHexEscape(e) {
      var u := Unhex(e).value;
      n, x := u.1, u.0;
      HexLength(e);
      assert s[..|x|] == x && s[|x|..] == Unescape(e[n..]).value;
    } else if e[0] == BACKSLASH {
      n, x := 2, [Unshort(e[1]).value];
      EscapeSingle(x[0]);
      ShortLength(e[1]);
      assert s[..1] == x && s[1..] == Unescape(e[2..]).value;
    } else {
      n, x := 1, [e[0]];
      EscapeSingle(e[0]);
      PlainLength(e[0]);
      assert s[..1] == x && s[1..] == Unescape(e[1..]).value;
    }
  }

  lemma ShortLength(c: Char)
    requires Unshort(c).Some?
    ensures |Escaped(Unshort(c).value)| <= 2
  {
  }

  lemma PlainLength(c: Char)
    requires c != BACKSLASH && c != QUOTATION && !Control(c)
    ensures |Escaped(c)| == 1
  {
  }

  /** A code point of more than one byte is written as it is, in at most four bytes. */
  lemma EncodedLength(v: nat)
    requires IsScalar(v)
    ensures |Escape(Encoded(v))| <= 6
  {
    hide Escaped, Escape;
    var t := Encoded(v);
    if v < 128 {
      assert t == [v];
      EscapeSingle(v);
      OneLength(v);
    } else {
      assert |t| <= 4 && forall i :: 0 <= i < |t| ==> t[i] < 0;
      HighKept(t);
    }
  }

  lemma OneLength(c: Char)
    ensures |Escaped(c)| <= 6
  {
  }

  lemma {:induction false} HighKept(t: Text)
    requires forall i :: 0 <= i < |t| ==> t[i] < 0
    ensures Escape(t) == t
  {
    if t != [] {
      HighKept(t[..|t| - 1]);
      assert Escaped(t[|t| - 1]) == [t[|t| - 1]];
    }
  }

  lemma HexLength(e: Text)
    requires IsHexEscape(e) && Unhex(e).Some?
    ensures |Escape(Unhex(e).value.0)| <= Unhex(e).value.1
  {
    hide FromHex, Encoded, Escape;
    var v := FromHex(e[2..6]).value;
    if IsScalar(v) {
      EncodedLength(v);
    } else {
      EncodedLength(Joined(v, FromHex(e[8..12]).value));
    }
  }

  /** No well-formed string that stands for the text is shorter. */
  lemma {:induction false} EscapeShortest(e: Text, s: Text)
    requires Unescape(e) == Some(s)
    ensures |Escape(s)| <= |e|
    decreases |e|
  {
    hide Escape, Unescape;
    if e == [] {
      NothingUnescaped();
      EscapeNothing();
    } else {
      var n, x := UnescapeParts(e, s);
      EscapeShortest(e[n..], s[|x|..]);
      assert s == x + s[|x|..];
      EscapeAppend(x, s[|x|..]);
    }
  }

  lemma NothingUnescaped()
    ensures Unescape([]) == Some([])
  {
  }

  // ---------------------------------------------------------------- the code

  /** The extra space is exactly what escaping adds. */
  method JsonExtraSpace(s: Text) returns (extra: nat)
    ensures extra == |Escape(s)| - |s|
  {
    extra := 0;
    for i := 0 to |s|
      invariant extra == |Escape(s[..i])| - i
    {
      assert s[..i + 1][..i] == s[..i];
      var c := s[i];
      if c == 34 || c == 92 || c == 8 || c == 12 || c == 10 || c == 13 || c == 9 {
        extra := extra + 1;
      } else if c >= 0 && c <= 0x1f {
        extra := extra + 5;
      }
    }
    assert s[..|s|] == s;
  }

  /** Nothing grows exactly when nothing needs escaping. */
  lemma {:induction false} NoExtra(s: Text)
    ensures |Escape(s)| == |s| <==> Escape(s) == s
  {
    if s != [] {
      var n := |s| - 1;
      NoExtra(s[..n]);
      assert s == s[..n] + [s[n]];
    }
  }

  /** What has been written up to pos is the escape of the characters before i;
      every place after it but the terminator's still holds a backslash. */
  ghost predicate Progress(buf: array<Char>, s: Text, size: nat, i: nat, pos: nat)
    reads buf
  {
    && buf.Length == size + 1 && i <= |s| && pos <= size
    && buf[..pos] == Escape(s[..i]) && size == |Escape(s)|
    && (forall k :: pos <= k < size ==> buf[k] == BACKSLASH)
    && buf[size] == Terminator(s, i)
  }

  /** The terminator's slot: a backslash once the last character has been written
      with four digits, and the null it began with otherwise. */
  function Terminator(s: Text, i: nat): Char {
    if 0 < i == |s| && Long(s[i - 1]) then BACKSLASH else 0
  }

  lemma NextFits(s: Text, i: nat)
    requires i < |s|
    ensures Escape(s[..i + 1]) == Escape(s[..i]) + Escaped(s[i])
    ensures |Escape(s[..i])| + |Escaped(s[i])| <= |Escape(s)|
    ensures |Escape(s[..i])| + |Escaped(s[i])| == |Escape(s)| <==> i == |s| - 1
  {
    assert s[..i + 1][..i] == s[..i];
    assert s == s[..i + 1] + s[i + 1..];
    EscapeAppend(s[..i + 1], s[i + 1..]);
  }

  /** sprintf of "u%04x", with the null that it puts after the digits. */
  method PrintHex(buf: array<Char>, at: nat, c: Char)
    requires Control(c) && at + 6 <= buf.Length
    modifies buf
    ensures buf[at] == 117 && buf[at + 1] == 48 && buf[at + 2] == 48
    ensures buf[at + 3] == Hex(c / 16) && buf[at + 4] == Hex(c % 16) && buf[at + 5] == 0
    ensures forall k :: 0 <= k < buf.Length && !(at <= k < at + 6) ==> buf[k] == old(buf[k])
  {
    buf[at], buf[at + 1], buf[at + 2] := 117, 48, 48;
    buf[at + 3], buf[at + 4], buf[at + 5] := Hex(c / 16), Hex(c % 16), 0;
  }

  /** Writes one character at pos; a backslash that has to stand there stands there already. */
  method WriteOne(buf: array<Char>, c: Char, pos: nat, size: nat) returns (next: nat)
    requires buf.Length == size + 1 && pos + |Escaped(c)| <= size
    requires forall k :: pos <= k < size ==> buf[k] == BACKSLASH
    modifies buf
    ensures next == pos + |Escaped(c)|
    ensures forall k :: pos <= k < next ==> buf[k] == Escaped(c)[k - pos]
    ensures forall k :: 0 <= k <= size && !(pos <= k < next) ==>
      buf[k] == if k == next && Long(c) then BACKSLASH else old(buf[k])
  {
    next := pos + 2;
    if c == QUOTATION {
      buf[pos + 1] := QUOTATION;
    } else if c == BACKSLASH {
    } else if c == 8 {
      buf[pos + 1] := 98;
    } else if c == 12 {
      buf[pos + 1] := 102;
    } else if c == 10 {
      buf[pos + 1] := 110;
    } else if c == 13 {
      buf[pos + 1] := 114;
    } else if c == 9 {
      buf[pos + 1] := 116;
    } else if c >= 0 && c <= 0x1f {
      PrintHex(buf, pos + 1, c);
      next := pos + 6;
      buf[next] := BACKSLASH;
    } else {
      next := pos + 1;
      buf[pos] := c;
    }
  }

  lemma BufJoined(buf: array<Char>, was: nat, pos: nat, e: Text)
    requires was + |e| == pos <= buf.Length && forall k :: was <= k < pos ==> buf[k] == e[k - was]
    ensures buf[..pos] == buf[..was] + e
  {
  }

  /** The result, and what is left in the slot of its terminator. */
  method JsonEscapeString(s: Text) returns (result: Text, terminator: Char)
    ensures result == Escape(s)
    ensures terminator == if Escape(s) == s then 0 else Terminator(s, |s|)
  {
    hide Escape, Escaped, Long;
    var space := JsonExtraSpace(s);
    NoExtra(s);
    EscapeNothing();
    if space == 0 {
      return s, 0;
    }
    var size := |s| + space;
    var buf := new Char[size + 1](i => if 0 <= i < size then BACKSLASH else 0);
    var pos: nat := 0;
    for i := 0 to |s|
      invariant Progress(buf, s, size, i, pos)
    {
      NextFits(s, i);
      ghost var before, was := buf[..pos], pos;
      pos := WriteOne(buf, s[i], pos, size);
      BufJoined(buf, was, pos, Escaped(s[i]));
      assert buf[..was] == before;
    }
    assert s[..|s|] == s;
    result, terminator := buf[..size], buf[size];
  }
}
