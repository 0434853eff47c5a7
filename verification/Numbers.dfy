/** Printing integers and classifying text as numbers (lib/csv-parser/csv.hpp,
    to_string, data_type and _determine_integral_type), with long double taken as exact. */
module Numbers {
  import opened Common
  import opened CsvScan

  datatype DataType = CSV_NULL | CSV_STRING | CSV_INT8 | CSV_INT16 | CSV_INT32 | CSV_INT64 | CSV_DOUBLE

  // ---------------------------------------------------------------- printing

  function DigitChar(d: nat): Char
    requires d < 10
  {
    48 + d
  }

  /** A number in decimal digits, none of them superfluous. */
  function Decimal(n: nat): (t: Text)
    ensures t != []
  {
    if n < 10 then [DigitChar(n)] else Decimal(n / 10) + [DigitChar(n % 10)]
  }

  function Printed(n: int): Text {
    if n >= 0 then Decimal(n) else [45] + Decimal(-n)
  }

  function Reversed(t: Text): (r: Text)
    ensures |r| == |t|
  {
    if t == [] then [] else Reversed(t[1..]) + [t[0]]
  }

  lemma {:induction false} ReversedAppend(t: Text, c: Char)
    ensures Reversed(t + [c]) == [c] + Reversed(t)
    decreases |t|
  {
    if t == [] {
      assert (t + [c])[1..] == [];
    } else {
      assert (t + [c])[1..] == t[1..] + [c];
      ReversedAppend(t[1..], c);
    }
  }

  method UnsignedToString(value: nat) returns (t: Text)
    ensures t == Decimal(value)
  {
    if value == 0 {
      return [48];
    }
    var digitsReverse: Text := [];
    var v: nat := value;
    while v > 0
      invariant v > 0 ==> Decimal(v) + Reversed(digitsReverse) == Decimal(value)
      invariant v == 0 ==> Reversed(digitsReverse) == Decimal(value)
    {
      ReversedAppend(digitsReverse, DigitChar(v % 10));
      digitsReverse := digitsReverse + [DigitChar(v % 10)];
      v := v / 10;
    }
    t := Reversed(digitsReverse);
  }

  /** For a type of the given number of bits; the least value has no representable magnitude. */
  method SignedToString(value: int, half: nat) returns (t: Text)
    requires 0 - half < value < half
    ensures t == Printed(value)
  {
    if value >= 0 {
      t := UnsignedToString(value);
    } else {
      t := UnsignedToString(value * -1);
      t := [45] + t;
    }
  }

  // ---------------------------------------------------------------- classifying

  function Pow10(n: int): (p: real)
    ensures p > 0.0
    decreases if n < 0 then -n else n
  {
    if n == 0 then 1.0 else if n > 0 then 10.0 * Pow10(n - 1) else 0.1 * Pow10(n + 1)
  }

  const INT8_MAX: real := 127.0
  const INT16_MAX: real := 32767.0
  const INT32_MAX: real := 2147483647.0
  const INT64_MAX: real := 9223372036854775807.0

  /** _determine_integral_type. */
  function IntegralType(magnitude: real): DataType {
    if magnitude <= INT8_MAX then CSV_INT8
    else if magnitude <= INT16_MAX then CSV_INT16
    else if magnitude <= INT32_MAX then CSV_INT32
    else if magnitude <= INT64_MAX then CSV_INT64
    else CSV_DOUBLE
  }

  predicate IsInteger(t: DataType) { t == CSV_INT8 || t == CSV_INT16 || t == CSV_INT32 || t == CSV_INT64 }

  predicate IsDigit(c: Char) { 48 <= c <= 57 }

  predicate IsE(c: Char) { c == 101 || c == 69 }

  /** The type, and the value stored in the out parameter, if one is; or that the
      character after the end is asked for. */
  datatype Verdict = Verdict(kind: DataType, out: Option<real>) | PastEnd

  const TEXT: Verdict := Verdict(CSV_STRING, None)

  datatype Scanner = Scanner(ws: bool, neg: bool, dot: bool, digit: bool, hasDigit: bool, probFloat: bool,
                             places: nat, integral: real, decimal: real)

  const START: Scanner := Scanner(true, true, true, true, false, false, 0, 0.0, 0.0)

  function Signed(s: Scanner): real {
    if s.neg then s.integral + s.decimal else -(s.integral + s.decimal)
  }

  /** The turn of the loop for every character but an exponent's; None for a text. */
  function Turn(text: Text, i: nat, s: Scanner): Option<Scanner>
    requires i < |text|
  {
    var c := text[i];
    if c == 32 then
      if s.ws then Some(s)
      else if i > 0 && IsDigit(text[i - 1]) then Some(s.(digit := false, ws := true))
      else None
    else if c == 45 then
      if s.neg then Some(s.(neg := false)) else None
    else if c == 46 then
      if s.dot then Some(s.(dot := false, probFloat := true)) else None
    else if IsDigit(c) then
      if !s.digit then None
      else
        var r := s.(hasDigit := true, ws := false);
        var d := (c - 48) as real;
        if s.probFloat then Some(r.(places := s.places + 1, decimal := s.decimal + d / Pow10(s.places + 1)))
        else Some(r.(integral := s.integral * 10.0 + d))
    else None
  }

  /** Whether an e at i begins an exponent. */
  predicate Exponent(text: Text, i: nat, s: Scanner)
    requires i < |text|
  {
    s.probFloat || (i > 0 && i + 1 < |text| && IsDigit(text[i - 1]))
  }

  function Finish(s: Scanner): Verdict {
    if s.hasDigit then
      Verdict(if s.probFloat then CSV_DOUBLE else IntegralType(s.integral + s.decimal), Some(Signed(s)))
    else Verdict(CSV_NULL, None)
  }

  /** A coefficient and the verdict on its exponent, which must be an integer. */
  function Scaled(coefficient: real, e: Verdict): Verdict {
    if e == PastEnd then PastEnd
    else if IsInteger(e.kind) && e.out.Some? then Verdict(CSV_DOUBLE, Some(coefficient * Pow10(e.out.value.Floor))) else TEXT
  }

  /** The text after an exponent's e and plus sign. */
  function ExponentText(text: Text, i: nat): Text
    requires i + 1 < |text|
  {
    if text[i + 1] == 43 then text[i + 2..] else text[i + 1..]
  }

  function From(text: Text, i: nat, s: Scanner): Verdict
    requires i <= |text|
    decreases |text|, |text| - i
  {
    if i == |text| then Finish(s)
    else if IsE(text[i]) then
      if !Exponent(text, i, s) then TEXT
      else if i + 1 == |text| then PastEnd
      else Scaled(Signed(s), Classify(ExponentText(text, i)))
    else
      match Turn(text, i, s)
      case None => TEXT
      case Some(r) => From(text, i + 1, r)
  }

  function Classify(text: Text): Verdict
    decreases |text|, |text| + 1
  {
    if text == [] then Verdict(CSV_NULL, None) else From(text, 0, START)
  }

  // ---------------------------------------------------------------- when the end is passed

  /** The place of the first e, or the end. */
  function FirstE(text: Text): (k: nat)
    ensures k <= |text| && (forall i :: 0 <= i < k ==> !IsE(text[i])) && (k < |text| ==> IsE(text[k]))
  {
    if text == [] || IsE(text[0]) then 0 else 1 + FirstE(text[1..])
  }

  predicate HasDigit(t: Text) { exists i :: 0 <= i < |t| && IsDigit(t[i]) }

  /** A space has followed a digit. */
  predicate Spaced(t: Text) {
    t != [] && (var p := t[..|t| - 1]; Spaced(p) || (t[|t| - 1] == 32 && HasDigit(p)))
  }

  /** The beginnings of numbers: one minus and one point at most, anywhere, and
      digits between spaces, of which the first after a digit follows it at once. */
  predicate Numeral(t: Text) {
    t == [] ||
    (var p, c := t[..|t| - 1], t[|t| - 1];
     Numeral(p) &&
     if c == 32 then !HasDigit(p) || Spaced(p) || IsDigit(p[|p| - 1])
     else if c == 45 || c == 46 then c !in p
     else IsDigit(c) && !Spaced(p))
  }

  /** The text is the beginning of a number and an e; either the e is the last
      character and a point is before it, or it begins an exponent that is like this. */
  predicate ReadsPast(text: Text)
    decreases |text|
  {
    var i := FirstE(text);
    i < |text| && Numeral(text[..i]) &&
    if i + 1 == |text| then 46 in text[..i]
    else (46 in text[..i] || (i > 0 && IsDigit(text[i - 1]))) && ReadsPast(ExponentText(text, i))
  }

  /** What the scanner remembers of the text before it. */
  predicate Remembers(s: Scanner, t: Text) {
    && (s.neg <==> 45 !in t) && (s.dot <==> 46 !in t) && s.probFloat == !s.dot
    && (s.digit <==> !Spaced(t)) && (s.ws <==> !HasDigit(t) || Spaced(t))
  }

  lemma TurnNumeral(text: Text, i: nat, s: Scanner)
    requires i < |text| && !IsE(text[i]) && Numeral(text[..i]) && Remembers(s, text[..i])
    ensures match Turn(text, i, s)
      case None => !Numeral(text[..i + 1])
      case Some(r) => Numeral(text[..i + 1]) && Remembers(r, text[..i + 1])
  {
    hide Pow10;
    var p, t, c := text[..i], text[..i + 1], text[i];
    assert t == p + [c] && t[..|t| - 1] == p;
    assert HasDigit(t) <==> HasDigit(p) || IsDigit(c) by { DigitAppended(p, c); }
  }

  lemma DigitAppended(p: Text, c: Char)
    ensures HasDigit(p + [c]) <==> HasDigit(p) || IsDigit(c)
  {
    var t := p + [c];
    assert t[|p|] == c && forall i :: 0 <= i < |p| ==> t[i] == p[i];
  }

  lemma {:induction false} NumeralPrefix(t: Text, n: nat, k: nat)
    requires n <= k <= |t| && Numeral(t[..k])
    ensures Numeral(t[..n])
    decreases k
  {
    if n < k {
      assert t[..k][..k - 1] == t[..k - 1];
      NumeralPrefix(t, n, k - 1);
    }
  }

  lemma {:induction false} PassesFrom(text: Text, i: nat, s: Scanner)
    requires i <= FirstE(text) && Numeral(text[..i]) && Remembers(s, text[..i])
    ensures From(text, i, s) == PastEnd <==> ReadsPast(text)
    decreases |text|, |text| - i
  {
    hide Remembers, Pow10, Numeral, Finish, IntegralType, FirstE, Turn;
    var k := FirstE(text);
    if i == |text| {
      NeverPast(s);
    } else if i < k {
      TurnNumeral(text, i, s);
      if Turn(text, i, s).Some? {
        PassesFrom(text, i + 1, Turn(text, i, s).value);
      } else if Numeral(text[..k]) {
        NumeralPrefix(text, i + 1, k);
      }
    } else {
      RemembersDot(s, text[..i]);
      if i + 1 < |text| { PastEndExactly(ExponentText(text, i)); }
    }
  }

  lemma NeverPast(s: Scanner)
    ensures Finish(s) != PastEnd
  {
  }

  lemma RemembersDot(s: Scanner, t: Text)
    requires Remembers(s, t)
    ensures s.probFloat <==> 46 in t
  {
  }

  /** data_type asks for the character after the end exactly for such texts. */
  lemma {:induction false} PastEndExactly(text: Text)
    ensures Classify(text) == PastEnd <==> ReadsPast(text)
    decreases |text|, |text| + 1
  {
    hide From, ReadsPast, FirstE;
    if text == [] {
      NothingPast();
    } else {
      assert text[..0] == [];
      PassesFrom(text, 0, START);
    }
  }

  lemma NothingPast()
    ensures !ReadsPast([])
  {
  }

  lemma NoNumber(text: Text)
    requires text != [] && !IsE(text[0]) && text[0] !in {32, 45, 46} && !IsDigit(text[0])
    ensures !ReadsPast(text)
  {
    hide FirstE;
    assert text[..1] == [text[0]] && !Numeral(text[..1]);
    if ReadsPast(text) { NumeralPrefix(text, 1, FirstE(text)); }
  }

  /** "1.e" is one, and "apple", "5e" and "TE" are not. */
  lemma PastEndTexts()
    ensures ReadsPast([49, 46, 101])
    ensures !ReadsPast([97, 112, 112, 108, 101]) && !ReadsPast([53, 101]) && !ReadsPast([84, 69])
  {
    var t: Text := [49, 46, 101];
    assert t[..2] == [49, 46] && t[..2][..1] == [49] && [49][..0] == [];
    assert FirstE(t[2..]) == 0;
    assert t[1..][1..] == t[2..];
    assert FirstE(t) == 2;
    assert Numeral([49]) && Numeral([49, 46]);
    NoNumber([97, 112, 112, 108, 101]);
    NoNumber([84, 69]);
    var five: Text := [53, 101];
    assert five[1..][0] == 101 && FirstE(five) == 1;
  }

  // ---------------------------------------------------------------- what is read

  function Ten(n: nat): nat { if n == 0 then 1 else 10 * Ten(n - 1) }

  /** The digits of a text, in order, and the number they write. */
  function DigitsOf(t: Text): seq<nat> {
    if t == [] then []
    else DigitsOf(t[..|t| - 1]) + if IsDigit(t[|t| - 1]) then [t[|t| - 1] - 48] else []
  }

  function Number(ds: seq<nat>): nat {
    if ds == [] then 0 else 10 * Number(ds[..|ds| - 1]) + ds[|ds| - 1]
  }

  /** How many digits follow a point. */
  function Places(t: Text): nat {
    if t == [] then 0
    else Places(t[..|t| - 1]) + if 46 in t[..|t| - 1] && IsDigit(t[|t| - 1]) then 1 else 0
  }

  lemma DigitRead(p: Text, c: Char)
    ensures var t := p + [c];
      && (IsDigit(c) ==> Number(DigitsOf(t)) == 10 * Number(DigitsOf(p)) + (c - 48))
      && (!IsDigit(c) ==> DigitsOf(t) == DigitsOf(p))
      && Places(t) == Places(p) + if 46 in p && IsDigit(c) then 1 else 0
  {
    var t := p + [c];
    assert t[..|t| - 1] == p && t[|t| - 1] == c;
    if IsDigit(c) { assert (DigitsOf(p) + [c - 48])[..|DigitsOf(p)|] == DigitsOf(p); }
  }

  lemma {:induction false} Pow10Is(n: nat)
    ensures Pow10(n) == Ten(n) as real && Pow10(-(n as int)) * Ten(n) as real == 1.0
  {
    if n > 0 {
      Pow10Is(n - 1);
      assert Pow10(-(n as int)) == 0.1 * Pow10(-((n - 1) as int));
      Tenth(Pow10(-((n - 1) as int)), Ten(n - 1) as real);
    }
  }

  lemma Tenth(a: real, b: real)
    ensures (0.1 * a) * (10.0 * b) == a * b
  {
  }

  /** The scanner's sum, without the point, is the number that the digits write. */
  predicate Counted(s: Scanner, t: Text) {
    && s.hasDigit == HasDigit(t) && s.places == Places(t)
    && (s.integral + s.decimal) * Ten(s.places) as real == Number(DigitsOf(t)) as real
    && (!s.probFloat ==> s.places == 0 && s.decimal == 0.0)
  }

  lemma AddPlace(sum: real, d: real, q: real, n: real)
    requires q > 0.0 && sum * q == n
    ensures (sum + d / (10.0 * q)) * (10.0 * q) == 10.0 * n + d
  {
    var x := d / (10.0 * q);
    assert x * (10.0 * q) == d;
    assert (sum + x) * (10.0 * q) == 10.0 * (sum * q) + x * (10.0 * q);
  }

  lemma TurnCounted(text: Text, i: nat, s: Scanner)
    requires i < |text| && !IsE(text[i]) && Remembers(s, text[..i]) && Counted(s, text[..i])
    ensures Turn(text, i, s).Some? ==> Counted(Turn(text, i, s).value, text[..i + 1])
  {
    hide Number, DigitsOf, Places, HasDigit, Pow10, Remembers, Ten;
    var p, c := text[..i], text[i];
    assert text[..i + 1] == p + [c];
    DigitAppended(p, c);
    DigitRead(p, c);
    RemembersDot(s, p);
    if IsDigit(c) && s.digit { DigitCounted(text, i, s); }
  }

  lemma DigitCounted(text: Text, i: nat, s: Scanner)
    requires i < |text| && IsDigit(text[i]) && s.digit && (s.probFloat <==> 46 in text[..i]) && Counted(s, text[..i])
    ensures Turn(text, i, s).Some? && Counted(Turn(text, i, s).value, text[..i] + [text[i]])
  {
    hide Number, DigitsOf, Places, HasDigit, Pow10;
    var p, c := text[..i], text[i];
    var d := (c - 48) as real;
    DigitAppended(p, c);
    DigitRead(p, c);
    if s.probFloat {
      Pow10Is(s.places + 1);
      AddPlace(s.integral + s.decimal, d, Ten(s.places) as real, Number(DigitsOf(p)) as real);
    }
  }

  /** From a beginning of a number on, the scanner comes to the first e or the end and
      has counted every digit, if that all begins a number; else the text is none. */
  lemma {:induction false} CountsTo(text: Text, i: nat, s: Scanner) returns (r: Scanner)
    requires i <= FirstE(text) && Numeral(text[..i]) && Remembers(s, text[..i]) && Counted(s, text[..i])
    ensures var k := FirstE(text);
      if Numeral(text[..k]) then From(text, i, s) == From(text, k, r) && Remembers(r, text[..k]) && Counted(r, text[..k])
      else From(text, i, s) == TEXT
    decreases |text| - i
  {
    hide Remembers, Counted, Pow10, Numeral, FirstE, Turn;
    r := s;
    var k := FirstE(text);
    if i < k {
      TurnNumeral(text, i, s);
      TurnCounted(text, i, s);
      FromTurn(text, i, s);
      if Turn(text, i, s).Some? {
        r := CountsTo(text, i + 1, Turn(text, i, s).value);
      } else if Numeral(text[..k]) {
        NumeralPrefix(text, i + 1, k);
      }
    }
  }

  /** The integer that all the digits write, with the sign. */
  function Unpointed(t: Text): int { if 45 in t then 0 - Number(DigitsOf(t)) else Number(DigitsOf(t)) }

  lemma SignedCounts(s: Scanner, t: Text)
    requires Remembers(s, t) && Counted(s, t)
    ensures Signed(s) * Ten(Places(t)) as real == Unpointed(t) as real
    ensures 46 !in t ==> s.integral + s.decimal == Number(DigitsOf(t)) as real && Places(t) == 0
  {
    hide Number, DigitsOf, Places, HasDigit, Spaced;
    Negated(s.integral + s.decimal, Ten(Places(t)) as real);
  }

  lemma Negated(x: real, q: real)
    ensures -x * q == -(x * q)
  {
  }

  lemma Starts()
    ensures Numeral([]) && Remembers(START, []) && Counted(START, [])
  {
  }

  /** The scanner at the first e or the end. */
  lemma Counting(text: Text) returns (r: Scanner)
    requires text != []
    ensures var k := FirstE(text);
      if Numeral(text[..k]) then Classify(text) == From(text, k, r) && Remembers(r, text[..k]) && Counted(r, text[..k])
      else Classify(text) == TEXT
  {
    hide Remembers, Counted, Numeral, FirstE, From;
    assert text[..0] == [];
    Starts();
    r := CountsTo(text, 0, START);
  }

  /** A text without an e is a number if it is all a beginning of one and has a digit:
      of type double if it has a point, and else of the type of its magnitude; times ten
      for every digit after the point, its value is what all the digits write, with the
      sign. Without a digit it is null, and any other text is a string. */
  lemma PlainExactly(text: Text)
    requires FirstE(text) == |text|
    ensures var v, n := Classify(text), Number(DigitsOf(text));
      if !Numeral(text) then v == Verdict(CSV_STRING, None)
      else if !HasDigit(text) then v == Verdict(CSV_NULL, None)
      else
        && v.Verdict? && v.out.Some? && v.out.value * Ten(Places(text)) as real == Unpointed(text) as real
        && v.kind == if 46 in text then CSV_DOUBLE else IntegralType(n as real)
  {
    hide FirstE, Numeral, Remembers, Counted, Classify, From, Number, DigitsOf, Places, Unpointed, Ten, IntegralType;
    if text == [] {
      Starts();
      ClassifyBegins(text);
    } else {
      var r := Counting(text);
      assert text[..|text|] == text;
      if Numeral(text) {
        Finished(text, r);
        SignedCounts(r, text);
        CountedDigit(r, text);
        RemembersDot(r, text);
      }
    }
  }

  lemma CountedDigit(s: Scanner, t: Text)
    requires Counted(s, t)
    ensures s.hasDigit == HasDigit(t)
  {
  }

  /** x, with the point moved as q says, is c times ten to the power of n. */
  predicate TimesPower(x: real, q: nat, c: real, n: int) {
    if n >= 0 then x * q as real == c * Ten(n) as real else x * q as real * Ten(-n) as real == c
  }

  /** A text with an e whose beginning is that of a number is read as that, if it has a
      point or a digit before the e, times ten to the power of the text after the e and
      its plus, if that is an integer n; any other text is a string. */
  lemma ScaledExactly(text: Text)
    requires FirstE(text) + 1 < |text|
    ensures var k := FirstE(text); var p, e, v := text[..k], Classify(ExponentText(text, k)), Classify(text);
      if !Numeral(p) || !(46 in p || (k > 0 && IsDigit(text[k - 1]))) then v == Verdict(CSV_STRING, None)
      else if e == PastEnd then v == PastEnd
      else if !IsInteger(e.kind) || e.out == None then v == Verdict(CSV_STRING, None)
      else
        && v.Verdict? && v.kind == CSV_DOUBLE && v.out.Some?
        && TimesPower(v.out.value, Ten(Places(p)), Unpointed(p) as real, e.out.value.Floor)
  {
    hide FirstE, Numeral, Remembers, Counted, Classify, From, Number, DigitsOf, Places, Unpointed, Ten, Pow10, TimesPower;
    hide Signed, ExponentText;
    var k := FirstE(text);
    var p := text[..k];
    var r := Counting(text);
    if Numeral(p) {
      RemembersDot(r, p);
      FromTurn(text, k, r);
      SignedCounts(r, p);
      var e := Classify(ExponentText(text, k));
      if e != PastEnd && e.out.Some? {
        PowerScales(Signed(r), Ten(Places(p)), Unpointed(p) as real, e);
      }
    }
  }

  lemma PowerScales(x: real, q: nat, c: real, e: Verdict)
    requires x * q as real == c && e != PastEnd && e.out.Some?
    ensures IsInteger(e.kind) ==>
      var v := Scaled(x, e); v.Verdict? && v.kind == CSV_DOUBLE && v.out.Some? && TimesPower(v.out.value, q, c, e.out.value.Floor)
  {
    hide Ten, Pow10;
    var n := e.out.value.Floor;
    if n >= 0 {
      Pow10Is(n);
      Swap(x, Pow10(n), q as real);
    } else {
      var m: nat := -n;
      Pow10Is(m);
      assert Pow10(n) * Ten(m) as real == 1.0;
      Cancel(x, Pow10(n), q as real, Ten(m) as real);
    }
  }

  lemma Swap(x: real, a: real, q: real)
    ensures x * a * q == x * q * a
  {
  }

  lemma Cancel(x: real, a: real, q: real, t: real)
    requires a * t == 1.0
    ensures x * a * q * t == x * q
  {
    assert x * a * q * t == x * q * (a * t);
  }

  // ---------------------------------------------------------------- the loop

  /** What the scanner function does with one character. */
  lemma FromTurn(text: Text, i: nat, s: Scanner)
    requires i < |text|
    ensures !IsE(text[i]) ==>
      From(text, i, s) == (var t := Turn(text, i, s); if t.Some? then From(text, i + 1, t.value) else TEXT)
    ensures IsE(text[i]) && !Exponent(text, i, s) ==> From(text, i, s) == TEXT
    ensures IsE(text[i]) && Exponent(text, i, s) && i + 1 == |text| ==> From(text, i, s) == PastEnd
    ensures IsE(text[i]) && Exponent(text, i, s) && i + 1 < |text| ==>
      From(text, i, s) == Scaled(Signed(s), Classify(ExponentText(text, i)))
  {
    hide Turn, Exponent, Scaled, Signed;
  }

  /** data_type as it runs, on the texts whose end it respects. */
  method DataTypeOf(text: Text) returns (v: Verdict)
    requires !ReadsPast(text)
    ensures v == Classify(text) && v != PastEnd
    decreases |text|
  {
    hide Pow10, IntegralType, From, Classify, ReadsPast, Finish, Signed, Scaled;
    PastEndExactly(text);
    if text == [] {
      assert Classify([]) == Verdict(CSV_NULL, None) by { ClassifyBegins([]); }
      return Verdict(CSV_NULL, None);
    }
    ClassifyBegins(text);
    var wsAllowed, negAllowed, dotAllowed, digitAllowed := true, true, true, true;
    var hasDigit, probFloat := false, false;
    var places: nat := 0;
    var integral, decimal := 0.0, 0.0;
    ghost var s := START;
    var i := 0;
    while i < |text|
      invariant 0 <= i <= |text| && (!wsAllowed ==> i > 0) && Classify(text) == From(text, i, s) != PastEnd
      invariant s == Scanner(wsAllowed, negAllowed, dotAllowed, digitAllowed, hasDigit, probFloat, places, integral, decimal)
    {
      FromTurn(text, i, s);
      var current := text[i];
      ghost var r := if IsE(current) then None else Turn(text, i, s);
      if current == 32 {
        if !wsAllowed {
          if IsDigit(text[i - 1]) {
            digitAllowed := false;
            wsAllowed := true;
          } else {
            return TEXT;
          }
        }
      } else if current == 45 {
        if !negAllowed { return TEXT; }
        negAllowed := false;
      } else if current == 46 {
        if !dotAllowed { return TEXT; }
        dotAllowed := false;
        probFloat := true;
      } else if current == 101 || current == 69 {
        if probFloat || (i > 0 && i + 1 < |text| && IsDigit(text[i - 1])) {
          var exponentStart := i + 1;
          if text[i + 1] == 43 { exponentStart := exponentStart + 1; }
          PastEndExactly(ExponentText(text, i));
          ScaledPast(Signed(s));
          var e := DataTypeOf(text[exponentStart..]);
          var coefficient := if negAllowed then integral + decimal else -(integral + decimal);
          SignedIs(s);
          return Scaled(coefficient, e);
        }
        return TEXT;
      } else if IsDigit(current) {
        hasDigit := true;
        if !digitAllowed { return TEXT; }
        wsAllowed := false;
        if probFloat {
          places := places + 1;
          decimal := decimal + (current - 48) as real / Pow10(places);
        } else {
          integral := integral * 10.0 + (current - 48) as real;
        }
      } else {
        return TEXT;
      }
      s := r.value;
      i := i + 1;
    }
    Finished(text, s);
    v := if hasDigit then
           Verdict(if probFloat then CSV_DOUBLE else IntegralType(integral + decimal),
                   Some(if negAllowed then integral + decimal else -(integral + decimal)))
         else Verdict(CSV_NULL, None);
  }

  lemma ClassifyBegins(text: Text)
    ensures Classify(text) == if text == [] then Verdict(CSV_NULL, None) else From(text, 0, START)
  {
    hide From;
  }

  lemma ScaledPast(c: real)
    ensures Scaled(c, PastEnd) == PastEnd
  {
  }

  lemma SignedIs(s: Scanner)
    ensures Signed(s) == if s.neg then s.integral + s.decimal else -(s.integral + s.decimal)
  {
  }

  lemma Finished(text: Text, s: Scanner)
    ensures From(text, |text|, s) == Finish(s)
    ensures Finish(s) ==
      if s.hasDigit then
        Verdict(if s.probFloat then CSV_DOUBLE else IntegralType(s.integral + s.decimal),
                Some(if s.neg then s.integral + s.decimal else -(s.integral + s.decimal)))
      else Verdict(CSV_NULL, None)
  {
    hide IntegralType;
  }

  // ---------------------------------------------------------------- printed integers

  function Spaces(n: nat): Text { if n == 0 then [] else Spaces(n - 1) + [32] }

  predicate Digits(t: Text) { forall i :: 0 <= i < |t| ==> IsDigit(t[i]) }

  lemma {:induction false} DecimalDigits(n: nat)
    ensures Digits(Decimal(n))
  {
    if n >= 10 { DecimalDigits(n / 10); }
  }

  /** What the loop has after the digits of n. */
  function AfterDigits(s: Scanner, n: nat): Scanner {
    s.(ws := false, hasDigit := true, integral := n as real)
  }

  lemma TurnDigit(text: Text, i: nat, s: Scanner, n: nat, d: nat)
    requires i < |text| && d < 10 && text[i] == DigitChar(d) && s.digit && !s.probFloat && s.integral == n as real
    ensures !IsE(text[i]) && Turn(text, i, s) == Some(AfterDigits(s, 10 * n + d))
  {
  }

  predicate Stands(text: Text, i: nat, t: Text) {
    i + |t| <= |text| && text[i..i + |t|] == t
  }

  lemma StandsApart(text: Text, i: nat, a: Text, b: Text)
    requires Stands(text, i, a + b)
    ensures Stands(text, i, a) && i + |a| <= |text| && Stands(text, i + |a|, b)
  {
    var t := text[i..i + |a + b|];
    assert t[..|a|] == a && t[|a|..] == b;
  }

  lemma StandsOne(text: Text, i: nat, c: Char)
    requires Stands(text, i, [c])
    ensures i < |text| && text[i] == c
  {
    assert text[i..i + 1][0] == c;
  }

  lemma DecimalStep(n: nat)
    ensures Decimal(n) == if n < 10 then [DigitChar(n)] else Decimal(n / 10) + [DigitChar(n % 10)]
  {
  }

  lemma OneTurn(text: Text, i: nat, s: Scanner, r: Scanner)
    requires i < |text| && !IsE(text[i]) && Turn(text, i, s) == Some(r)
    ensures From(text, i, s) == From(text, i + 1, r)
  {
  }

  lemma {:induction false} FromDecimal(text: Text, i: nat, s: Scanner, n: nat)
    requires Stands(text, i, Decimal(n)) && i + |Decimal(n)| <= |text|
    requires s.digit && !s.probFloat && s.integral == 0.0
    ensures From(text, i, s) == From(text, i + |Decimal(n)|, AfterDigits(s, n))
  {
    hide Stands, Decimal, From, Turn, IsE, DigitChar;
    DecimalStep(n);
    if n < 10 {
      StandsOne(text, i, DigitChar(n));
      TurnDigit(text, i, s, 0, n);
      OneTurn(text, i, s, AfterDigits(s, n));
    } else {
      StandsApart(text, i, Decimal(n / 10), [DigitChar(n % 10)]);
      FromDecimal(text, i, s, n / 10);
      var e := i + |Decimal(n / 10)|;
      StandsOne(text, e, DigitChar(n % 10));
      TurnDigit(text, e, AfterDigits(s, n / 10), n / 10, n % 10);
      OneTurn(text, e, AfterDigits(s, n / 10), AfterDigits(s, n));
    }
  }

  lemma {:induction false} FromSpaces(text: Text, i: nat, s: Scanner, n: nat)
    requires Stands(text, i, Spaces(n)) && i + n <= |text| && s.ws
    ensures From(text, i, s) == From(text, i + n, s)
    decreases n
  {
    hide Stands, From;
    SpacesLength(n);
    if n > 0 {
      SpacesLength(n - 1);
      StandsApart(text, i, Spaces(n - 1), [32]);
      FromSpaces(text, i, s, n - 1);
      StandsOne(text, i + (n - 1), 32);
      OneTurn(text, i + (n - 1), s, s);
    }
  }

  lemma FromTrailing(text: Text, i: nat, s: Scanner, n: nat)
    requires Stands(text, i, Spaces(n)) && i + n == |text|
    requires i > 0 && IsDigit(text[i - 1]) && !s.ws
    ensures From(text, i, s) == Finish(s)
  {
    hide Stands, From, Finish;
    var r := s.(digit := false, ws := true);
    if n > 0 {
      SpacesLength(n);
      StandsApart(text, i, [32], Spaces(n - 1));
      StandsOne(text, i, 32);
      OneTurn(text, i, s, r);
      FromSpaces(text, i + 1, r, n - 1);
      FinishSame(s, r);
    }
    Finished(text, s);
    Finished(text, r);
  }

  lemma FinishSame(s: Scanner, r: Scanner)
    requires r == s.(digit := r.digit, ws := r.ws)
    ensures Finish(r) == Finish(s)
  {
  }

  lemma {:induction false} SpacesLength(n: nat)
    ensures |Spaces(n)| == n && (n > 0 ==> Spaces(n) == [32] + Spaces(n - 1))
  {
    if n > 1 {
      SpacesLength(n - 1);
      assert Spaces(n)[1..] == Spaces(n - 1)[1..] + [32];
    }
  }

  function Magnitude(n: int): nat { if n >= 0 then n else -n }

  /** From the first digit of a printed integer on, with a minus before it or not. */
  lemma FromMagnitude(text: Text, i: nat, s: Scanner, m: nat, k: nat)
    requires Stands(text, i, Decimal(m)) && i + |Decimal(m)| + k == |text| && Stands(text, |text| - k, Spaces(k))
    requires s == START.(neg := s.neg)
    ensures From(text, i, s) == Finish(AfterDigits(s, m))
  {
    hide From, Stands, Finish, Decimal;
    FromDecimal(text, i, s, m);
    LastDigit(text, i, m);
    FromTrailing(text, i + |Decimal(m)|, AfterDigits(s, m), k);
  }

  lemma LastDigit(text: Text, i: nat, m: nat)
    requires Stands(text, i, Decimal(m))
    ensures var e := i + |Decimal(m)|; 0 < e <= |text| && IsDigit(text[e - 1])
  {
    hide Decimal;
    DecimalDigits(m);
    var n := |Decimal(m)|;
    assert text[i..i + n][n - 1] == text[i + n - 1];
  }

  /** From the first character of a printed integer on, the loop finds the integer. */
  lemma FromPrinted(text: Text, i: nat, n: int, k: nat)
    requires Stands(text, i, Printed(n)) && i + |Printed(n)| + k == |text| && Stands(text, |text| - k, Spaces(k))
    ensures From(text, i, START) == Verdict(IntegralType(Magnitude(n) as real), Some(n as real))
  {
    hide From, Decimal, IntegralType, Stands, Turn;
    var m := Magnitude(n);
    if n >= 0 {
      FromMagnitude(text, i, START, m, k);
    } else {
      var s := START.(neg := false);
      StandsApart(text, i, [45], Decimal(m));
      MinusTurn(text, i);
      FromMagnitude(text, i + 1, s, m, k);
    }
  }

  lemma MinusTurn(text: Text, i: nat)
    requires Stands(text, i, [45])
    ensures i < |text| && From(text, i, START) == From(text, i + 1, START.(neg := false))
  {
    hide From;
    StandsOne(text, i, 45);
    OneTurn(text, i, START, START.(neg := false));
  }

  /** Printing an integer, with any padding of spaces, and classifying the text gives
      back its value, and the type that holds its magnitude. */
  lemma PrintedIsClassified(n: int, j: nat, k: nat)
    ensures var t := Spaces(j) + Printed(n) + Spaces(k);
      && !ReadsPast(t) && Classify(t) == Verdict(IntegralType(Magnitude(n) as real), Some(n as real))
  {
    hide From, Printed, IntegralType, Stands, Spaces, ReadsPast, Classify;
    var t := Spaces(j) + Printed(n) + Spaces(k);
    ThreeParts(Spaces(j), Printed(n), Spaces(k));
    SpacesLength(j);
    SpacesLength(k);
    FromSpaces(t, 0, START, j);
    FromPrinted(t, j, n, k);
    assert t != [] by { PrintedSome(n); }
    ClassifyBegins(t);
    PastEndExactly(t);
  }

  lemma PrintedSome(n: int)
    ensures Printed(n) != []
  {
  }

  lemma ThreeParts(a: Text, b: Text, c: Text)
    ensures var t := a + b + c; Stands(t, 0, a) && Stands(t, |a|, b) && Stands(t, |a| + |b|, c)
  {
  }

  /** Whether an integer type's largest value is at least n. */
  predicate Holds(t: DataType, n: nat) {
    match t
    case CSV_INT8 => n < 0x80
    case CSV_INT16 => n < 0x8000
    case CSV_INT32 => n < 0x8000_0000
    case CSV_INT64 => n < 0x8000_0000_0000_0000
    case _ => false
  }

  function Rank(t: DataType): nat {
    match t
    case CSV_NULL => 0 case CSV_STRING => 1 case CSV_INT8 => 2 case CSV_INT16 => 3
    case CSV_INT32 => 4 case CSV_INT64 => 5 case CSV_DOUBLE => 6
  }

  /** The type found for a magnitude is the smallest integer type that holds it,
      and a double exactly when none does. */
  lemma SmallestType(n: nat)
    ensures var t := IntegralType(n as real);
      && (IsInteger(t) ==> Holds(t, n)) && (t == CSV_DOUBLE <==> !Holds(CSV_INT64, n))
      && (IsInteger(t) || t == CSV_DOUBLE)
      && forall u :: Rank(u) < Rank(t) ==> !Holds(u, n)
  {
    assert n <= 127 <==> n as real <= INT8_MAX;
    assert n <= 32767 <==> n as real <= INT16_MAX;
  }

  // ---------------------------------------------------------------- some texts

  /** "1.5" is 3/2, "-2.5e3" is -2500 and "1e-2" is 1/100. */
  lemma NumberTexts()
    ensures Classify([49, 46, 53]) == Verdict(CSV_DOUBLE, Some(1.5))
    ensures Classify([45, 50, 46, 53, 101, 51]) == Verdict(CSV_DOUBLE, Some(-2500.0))
    ensures Classify([49, 101, 45, 50]) == Verdict(CSV_DOUBLE, Some(0.01))
  {
    OneAndAHalf();
    ScaledUp();
    ScaledDown();
  }

  /** The beginning of a number, with no space, whose digits write n, pl of them after a point. */
  predicate Reads(p: Text, n: nat, pl: nat) {
    Numeral(p) && !Spaced(p) && Number(DigitsOf(p)) == n && Places(p) == pl
  }

  lemma ReadsDigit(p: Text, n: nat, pl: nat, d: nat)
    requires Reads(p, n, pl) && d < 10
    ensures Reads(p + [48 + d], 10 * n + d, pl + if 46 in p then 1 else 0) && HasDigit(p + [48 + d])
  {
    hide Number, DigitsOf, Places;
    DigitAppended(p, 48 + d);
    DigitRead(p, 48 + d);
    assert (p + [48 + d])[..|p|] == p;
  }

  lemma ReadsMark(p: Text, n: nat, pl: nat, c: Char)
    requires Reads(p, n, pl) && (c == 45 || c == 46) && c !in p
    ensures Reads(p + [c], n, pl)
  {
    hide Number, DigitsOf, Places;
    DigitRead(p, c);
    assert (p + [c])[..|p|] == p;
  }

  lemma ReadsNothing()
    ensures Reads([], 0, 0)
  {
  }

  lemma Fifteen()
    ensures Reads([49], 1, 0) && Reads([49, 46, 53], 15, 1) && HasDigit([49, 46, 53])
  {
    hide Reads, HasDigit;
    assert [] + [49] == [49] && [49] + [46] == [49, 46] && [49, 46] + [53] == [49, 46, 53];
    ReadsNothing();
    ReadsDigit([], 0, 0, 1);
    ReadsMark([49], 1, 0, 46);
    ReadsDigit([49, 46], 1, 0, 5);
  }

  lemma OneAndAHalf()
    ensures Classify([49, 46, 53]) == Verdict(CSV_DOUBLE, Some(1.5))
  {
    hide Classify, Reads, FirstE, Numeral, HasDigit, DigitsOf, Number, Places;
    var t: Text := [49, 46, 53];
    Fifteen();
    NoE(t);
    ReadsAre(t, 15, 1);
    PlainExactly(t);
    assert Ten(1) == 10;
  }

  lemma ReadsAre(p: Text, n: nat, pl: nat)
    requires Reads(p, n, pl)
    ensures Numeral(p) && Number(DigitsOf(p)) == n && Places(p) == pl
  {
  }

  lemma NoE(t: Text)
    requires forall i :: 0 <= i < |t| ==> !IsE(t[i])
    ensures FirstE(t) == |t|
  {
  }

  lemma FirstIs(t: Text, k: nat)
    requires k < |t| && IsE(t[k]) && forall i :: 0 <= i < k ==> !IsE(t[i])
    ensures FirstE(t) == k
  {
  }

  /** A digit alone, and after a minus. */
  lemma OneDigit(d: nat)
    requires 0 < d < 10
    ensures Classify([48 + d]) == Verdict(CSV_INT8, Some(d as real))
    ensures Classify([45, 48 + d]) == Verdict(CSV_INT8, Some(-(d as real)))
  {
    hide Classify;
    PrintedIsClassified(d, 0, 0);
    PrintedIsClassified(0 - d, 0, 0);
    assert Spaces(0) + [48 + d] + Spaces(0) == [48 + d];
    assert Spaces(0) + ([45] + [48 + d]) + Spaces(0) == [45, 48 + d];
  }

  lemma TwoAndAHalf()
    ensures Reads([45, 50, 46, 53], 25, 1)
  {
    hide Reads, HasDigit;
    assert [] + [45] == [45] && [45] + [50] == [45, 50] && [45, 50] + [46] == [45, 50, 46];
    assert [45, 50, 46] + [53] == [45, 50, 46, 53];
    ReadsNothing();
    ReadsMark([], 0, 0, 45);
    ReadsDigit([45], 0, 0, 2);
    ReadsMark([45, 50], 2, 0, 46);
    ReadsDigit([45, 50, 46], 2, 0, 5);
  }

  lemma ScaledUp()
    ensures Classify([45, 50, 46, 53, 101, 51]) == Verdict(CSV_DOUBLE, Some(-2500.0))
  {
    hide Classify, Reads, FirstE, Numeral, DigitsOf, Number, Places;
    var p, t: Text := [45, 50, 46, 53], [45, 50, 46, 53, 101, 51];
    TwoAndAHalf();
    ReadsAre(p, 25, 1);
    FirstIs(t, 4);
    assert t[..4] == p && t[5..] == [51];
    OneDigit(3);
    ScaledExactly(t);
    assert Ten(1) == 10 && Ten(3) == 1000;
  }

  lemma ScaledDown()
    ensures Classify([49, 101, 45, 50]) == Verdict(CSV_DOUBLE, Some(0.01))
  {
    hide Classify, Reads, FirstE, Numeral, DigitsOf, Number, Places;
    var t: Text := [49, 101, 45, 50];
    Fifteen();
    ReadsAre([49], 1, 0);
    FirstIs(t, 1);
    assert t[..1] == [49] && t[2..] == [45, 50];
    OneDigit(2);
    ScaledExactly(t);
    assert Ten(0) == 1 && Ten(2) == 100;
    assert (-2.0).Floor == -2;
  }

  /** A printed number has no superfluous zero before its digits. */
  lemma {:induction false} NoLeadingZero(n: nat)
    ensures |Decimal(n)| == 1 || Decimal(n)[0] != 48
  {
    if n >= 10 { NoLeadingZero(n / 10); }
  }

  /** A minus counts wherever it stands: "1-2" is the integer -12. */
  lemma MinusInside()
    ensures Classify([49, 45, 50]) == Verdict(CSV_INT8, Some(-12.0))
  {
    hide Classify, Reads, FirstE, Numeral, HasDigit, DigitsOf, Number, Places;
    var t: Text := [49, 45, 50];
    TwelveReads();
    NoE(t);
    ReadsAre(t, 12, 0);
    PlainExactly(t);
    assert Ten(0) == 1;
  }

  lemma TwelveReads()
    ensures Reads([49, 45, 50], 12, 0) && HasDigit([49, 45, 50])
  {
    hide Reads, HasDigit;
    assert [] + [49] == [49] && [49] + [45] == [49, 45] && [49, 45] + [50] == [49, 45, 50];
    ReadsNothing();
    ReadsDigit([], 0, 0, 1);
    ReadsMark([49], 1, 0, 45);
    ReadsDigit([49, 45], 1, 0, 2);
  }

  /** A text that begins no number is a string: "1 2", "1.2.3" and "--1". */
  lemma StringTexts()
    ensures Classify([49, 32, 50]) == TEXT && Classify([49, 46, 50, 46, 51]) == TEXT && Classify([45, 45, 49]) == TEXT
  {
    hide Classify, FirstE, DigitsOf, Number, Places;
    var a, b, c: Text := [49, 32, 50], [49, 46, 50, 46, 51], [45, 45, 49];
    NoE(a); NoE(b); NoE(c);
    assert a[..2] == [49, 32] && [49, 32][..1] == [49] && IsDigit([49][0]);
    assert b[..3] == [49, 46, 50] && [49, 46, 50][1] == 46;
    NotNumeral(a, 3);
    NotNumeral(b, 4);
    NotNumeral(c, 2);
    PlainExactly(a); PlainExactly(b); PlainExactly(c);
  }

  /** A digit after a space after a digit, a second point and a second minus begin no number. */
  lemma NotNumeral(t: Text, k: nat)
    requires 2 <= k <= |t|
    requires var p, c := t[..k - 1], t[k - 1];
      ((c == 45 || c == 46) && c in p) || (IsDigit(c) && p[k - 2] == 32 && HasDigit(p[..k - 2]))
    ensures !Numeral(t)
  {
    var p, c := t[..k - 1], t[k - 1];
    assert t[..k][..k - 1] == p && t[..k][k - 1] == c;
    assert t[..|t|] == t;
    if Numeral(t) { NumeralPrefix(t, k, |t|); }
  }

  /** An exponent may have a plus, and its e may be a capital: "1E+2" is 100. */
  lemma PlusSkipped()
    ensures Classify([49, 69, 43, 50]) == Verdict(CSV_DOUBLE, Some(100.0))
  {
    hide Classify, Reads, FirstE, Numeral, DigitsOf, Number, Places;
    var t: Text := [49, 69, 43, 50];
    Fifteen();
    ReadsAre([49], 1, 0);
    FirstIs(t, 1);
    assert t[..1] == [49] && t[3..] == [50];
    OneDigit(2);
    ScaledExactly(t);
    assert Ten(0) == 1 && Ten(2) == 100;
  }
}
