/** The table-driven UTF-8 decoder (lib/websocketpp/utf8_validator.hpp), proved
    against the grammar of RFC 3629, section 4. */
module Utf8 {
  import opened Common
  import opened Words

  const ACCEPT: nat := 0
  const REJECT: nat := 1

  // ---------------------------------------------------------------- the grammar

  predicate IsTail(b: Byte) { 0x80 <= b <= 0xBF }

  /** One encoded character: UTF8-1, UTF8-2, UTF8-3 or UTF8-4. */
  predicate IsChar(c: seq<Byte>) {
    match |c|
    case 1 => c[0] <= 0x7F
    case 2 => 0xC2 <= c[0] <= 0xDF && IsTail(c[1])
    case 3 => IsTail(c[2]) && (
      || (c[0] == 0xE0 && 0xA0 <= c[1] <= 0xBF)
      || ((0xE1 <= c[0] <= 0xEC || 0xEE <= c[0] <= 0xEF) && IsTail(c[1]))
      || (c[0] == 0xED && 0x80 <= c[1] <= 0x9F))
    case 4 => IsTail(c[2]) && IsTail(c[3]) && (
      || (c[0] == 0xF0 && 0x90 <= c[1] <= 0xBF)
      || (0xF1 <= c[0] <= 0xF3 && IsTail(c[1]))
      || (c[0] == 0xF4 && 0x80 <= c[1] <= 0x8F))
    case _ => false
  }

  /** A concatenation of encoded characters. */
  ghost predicate WellFormed(s: seq<Byte>)
    decreases |s|
  {
    s == [] || exists n :: 1 <= n <= |s| && IsChar(s[..n]) && WellFormed(s[n..])
  }

  /** The Unicode scalar values. */
  predicate IsScalar(v: nat) { v <= 0x10FFFF && !(0xD800 <= v <= 0xDFFF) }

  /** The encoding of RFC 3629, section 3. */
  function Encode(v: nat): (c: seq<Byte>)
    requires IsScalar(v)
  {
    if v <= 0x7F then [v]
    else if v <= 0x7FF then [0xC0 + v / 64, 0x80 + v % 64]
    else if v <= 0xFFFF then [0xE0 + v / 64 / 64, 0x80 + v / 64 % 64, 0x80 + v % 64]
    else [0xF0 + v / 64 / 64 / 64, 0x80 + v / 64 / 64 % 64, 0x80 + v / 64 % 64, 0x80 + v % 64]
  }

  ghost predicate AllScalar(vs: seq<nat>) { forall i :: 0 <= i < |vs| ==> IsScalar(vs[i]) }

  function EncodeAll(vs: seq<nat>): (s: seq<Byte>)
    requires AllScalar(vs)
  {
    if vs == [] then [] else Encode(vs[0]) + EncodeAll(vs[1..])
  }

  // ---------------------------------------------------------------- the table

  function Rep(v: nat, n: nat): (s: seq<nat>)
    ensures |s| == n && forall i :: 0 <= i < n ==> s[i] == v
  {
    seq(n, _ => v)
  }

  /** Byte classes, for bytes 00..ff. */
  const CLASSES: seq<nat> :=
    Rep(0, 128)
    + (Rep(1, 16) + (Rep(9, 16) + (Rep(7, 32)
    + (Rep(8, 2) + (Rep(2, 30)
    + ([0xa] + (Rep(3, 12) + ([0x4, 0x3, 0x3]
    + ([0xb, 0x6, 0x6, 0x6, 0x5] + Rep(8, 11))))))))))

  /** Sixteen next states for each of the nine states. */
  const ROWS: seq<seq<nat>> := [
    [0, 1, 2, 3, 5, 8, 7, 1, 1, 1, 4, 6, 1, 1, 1, 1],
    [1, 1, 1, 1, 1, 1, 1, 1, 1, 1, 1, 1, 1, 1, 1, 1],
    [1, 0, 1, 1, 1, 1, 1, 0, 1, 0, 1, 1, 1, 1, 1, 1],
    [1, 2, 1, 1, 1, 1, 1, 2, 1, 2, 1, 1, 1, 1, 1, 1],
    [1, 1, 1, 1, 1, 1, 1, 2, 1, 1, 1, 1, 1, 1, 1, 1],
    [1, 2, 1, 1, 1, 1, 1, 1, 1, 2, 1, 1, 1, 1, 1, 1],
    [1, 1, 1, 1, 1, 1, 1, 3, 1, 3, 1, 1, 1, 1, 1, 1],
    [1, 3, 1, 1, 1, 1, 1, 3, 1, 3, 1, 1, 1, 1, 1, 1],
    [1, 3, 1, 1, 1, 1, 1, 1, 1, 1, 1, 1, 1, 1, 1, 1]]

  function Flatten(rows: seq<seq<nat>>): seq<nat> {
    if rows == [] then [] else rows[0] + Flatten(rows[1..])
  }

  /** The 400 entries of the lookup table, classes first. */
  const UTF8D: seq<nat> := CLASSES + Flatten(ROWS)

  lemma {:induction false} FlattenAt(rows: seq<seq<nat>>, r: nat, c: nat)
    requires r < |rows| && c < 16 && forall i :: 0 <= i < |rows| ==> |rows[i]| == 16
    ensures |Flatten(rows)| == 16 * |rows|
    ensures Flatten(rows)[16 * r + c] == rows[r][c]
  {
    if r == 0 {
      if |rows| > 1 { FlattenAt(rows[1..], 0, c); }
    } else {
      FlattenAt(rows[1..], r - 1, c);
    }
  }

  /** The class of a byte. */
  function ClassOf(b: Byte): nat {
    if b < 0x80 then 0 else if b < 0x90 then 1 else if b < 0xA0 then 9 else if b < 0xC0 then 7
    else if b < 0xC2 then 8 else if b < 0xE0 then 2 else if b == 0xE0 then 10
    else if b == 0xED then 4 else if b < 0xF0 then 3 else if b == 0xF0 then 11
    else if b < 0xF4 then 6 else if b == 0xF4 then 5 else 8
  }

  lemma ClassAt(b: Byte)
    ensures |CLASSES| == 256 && CLASSES[b] == ClassOf(b)
  {
  }

  /** What one byte does to the state. */
  function Next(q: nat, b: Byte): (r: nat)
    requires q <= 8
    ensures r <= 8
  {
    if q == 0 then
      if b < 0x80 then 0 else if b < 0xC2 then 1 else if b < 0xE0 then 2 else if b == 0xE0 then 4
      else if b == 0xED then 5 else if b < 0xF0 then 3 else if b == 0xF0 then 6
      else if b < 0xF4 then 7 else if b == 0xF4 then 8 else 1
    else if q == 2 && IsTail(b) then 0
    else if q == 3 && IsTail(b) then 2
    else if q == 4 && 0xA0 <= b <= 0xBF then 2
    else if q == 5 && 0x80 <= b <= 0x9F then 2
    else if q == 6 && 0x90 <= b <= 0xBF then 3
    else if q == 7 && IsTail(b) then 3
    else if q == 8 && 0x80 <= b <= 0x8F then 3
    else 1
  }

  /** The table holds exactly those classes and that automaton. */
  lemma TableIsAutomaton(q: nat, b: Byte)
    requires q <= 8
    ensures |UTF8D| == 400 && UTF8D[b] == ClassOf(b)
    ensures UTF8D[256 + q * 16 + UTF8D[b]] == Next(q, b)
  {
    ClassAt(b);
    RowAt(q, b);
    RowLengths();
    FlattenAt(ROWS, q, CLASSES[b]);
    AppendAt(CLASSES, Flatten(ROWS), b, q * 16 + CLASSES[b]);
  }

  lemma RowLengths()
    ensures |ROWS| == 9 && forall i :: 0 <= i < |ROWS| ==> |ROWS[i]| == 16
  {
  }

  lemma AppendAt(a: seq<nat>, b: seq<nat>, i: nat, j: nat)
    requires i < |a| && j < |b|
    ensures (a + b)[i] == a[i] && (a + b)[|a| + j] == b[j]
  {
  }

  lemma RowAt(q: nat, b: Byte)
    requires q <= 8
    ensures |CLASSES| == 256 && CLASSES[b] < 16 && ROWS[q][CLASSES[b]] == Next(q, b)
  {
    ClassAt(b);
  }

  // ---------------------------------------------------------------- the automaton and the grammar

  function Run(q: nat, s: seq<Byte>): (r: nat)
    requires q <= 8
    ensures r <= 8
    decreases |s|
  {
    if s == [] then q else Run(Next(q, s[0]), s[1..])
  }

  /** What has to follow in each state for the input to be well-formed. */
  ghost predicate Rest(q: nat, s: seq<Byte>) {
    match q
    case 0 => WellFormed(s)
    case 2 => |s| >= 1 && IsTail(s[0]) && WellFormed(s[1..])
    case 3 => |s| >= 2 && IsTail(s[0]) && IsTail(s[1]) && WellFormed(s[2..])
    case 4 => |s| >= 2 && 0xA0 <= s[0] <= 0xBF && IsTail(s[1]) && WellFormed(s[2..])
    case 5 => |s| >= 2 && 0x80 <= s[0] <= 0x9F && IsTail(s[1]) && WellFormed(s[2..])
    case 6 => |s| >= 3 && 0x90 <= s[0] <= 0xBF && IsTail(s[1]) && IsTail(s[2]) && WellFormed(s[3..])
    case 7 => |s| >= 3 && IsTail(s[0]) && IsTail(s[1]) && IsTail(s[2]) && WellFormed(s[3..])
    case 8 => |s| >= 3 && 0x80 <= s[0] <= 0x8F && IsTail(s[1]) && IsTail(s[2]) && WellFormed(s[3..])
    case _ => false
  }

  /** The length of the character that a lead byte opens. */
  function LengthOf(lead: Byte): nat {
    if lead < 0x80 then 1 else if lead < 0xE0 then 2 else if lead < 0xF0 then 3 else 4
  }

  lemma LeadFixesLength(c: seq<Byte>)
    requires IsChar(c)
    ensures |c| == LengthOf(c[0])
  {
  }

  /** The only way to split off a first character is at the length its lead byte says. */
  lemma WellFormedFirst(s: seq<Byte>)
    requires s != []
    ensures var n := LengthOf(s[0]);
      WellFormed(s) <==> n <= |s| && IsChar(s[..n]) && WellFormed(s[n..])
  {
    if WellFormed(s) {
      var n :| 1 <= n <= |s| && IsChar(s[..n]) && WellFormed(s[n..]);
      LeadFixesLength(s[..n]);
    }
  }

  lemma LeadStep(s: seq<Byte>)
    requires s != []
    ensures Rest(0, s) <==> Rest(Next(0, s[0]), s[1..])
  {
    WellFormedFirst(s);
    var n := LengthOf(s[0]);
    if n <= |s| {
      var c := s[..n];
      assert c[0] == s[0];
      assert n > 1 ==> c[1] == s[1];
      assert n > 2 ==> c[2] == s[2];
      assert n > 3 ==> c[3] == s[3];
      assert s[n..] == s[1..][n - 1..];
    }
  }

  /** From every state the automaton accepts exactly what the grammar still asks for. */
  lemma {:induction false} AcceptsRest(q: nat, s: seq<Byte>)
    requires q <= 8
    ensures Run(q, s) == ACCEPT <==> Rest(q, s)
    decreases |s|
  {
    if s != [] {
      AcceptsRest(Next(q, s[0]), s[1..]);
      if q == 0 {
        LeadStep(s);
      } else {
        TailStep(q, s);
      }
    }
  }

  lemma TailStep(q: nat, s: seq<Byte>)
    requires 0 < q <= 8 && s != []
    ensures Rest(q, s) <==> Rest(Next(q, s[0]), s[1..])
  {
    if |s| >= 2 { assert s[2..] == s[1..][1..]; }
    if |s| >= 3 { assert s[3..] == s[1..][2..]; }
  }

  /** Reject is never left. */
  lemma {:induction false} RejectStays(s: seq<Byte>)
    ensures Run(REJECT, s) == REJECT
  {
    if s != [] { RejectStays(s[1..]); }
  }

  /** Feeding two pieces one after the other is feeding their concatenation. */
  lemma {:induction false} RunAppend(q: nat, s: seq<Byte>, t: seq<Byte>)
    requires q <= 8
    ensures Run(q, s + t) == Run(Run(q, s), t)
    decreases |s|
  {
    if s == [] {
      assert s + t == t;
    } else {
      RunAppend(Next(q, s[0]), s[1..], t);
      assert (s + t)[1..] == s[1..] + t;
    }
  }

  // ---------------------------------------------------------------- code points

  /** The code point register after one byte, in the code's own operators. */
  function NextCode(q: nat, code: nat, b: Byte): nat {
    if q != ACCEPT then Or(And(b, 0x3f), Shl(code, 6) % U32)
    else And(Shr(0xff, ClassOf(b)), b)
  }

  /** The code points held each time the automaton comes back to accept. */
  function Codes(q: nat, code: nat, s: seq<Byte>): seq<nat>
    requires q <= 8
    decreases |s|
  {
    if s == [] then [] else
      var r, c := Next(q, s[0]), NextCode(q, code, s[0]);
      (if r == ACCEPT then [c] else []) + Codes(r, c, s[1..])
  }

  /** The payload bits of a lead byte. */
  lemma LeadPayload(b: Byte)
    requires Next(0, b) != REJECT
    ensures NextCode(0, 0, b) == (if b < 0x80 then b else if b < 0xE0 then b - 0xC0
                                  else if b < 0xF0 then b - 0xE0 else b - 0xF0)
  {
    LeadMask(b);
    assert NextCode(0, 0, b) == And(Shr(0xff, ClassOf(b)), b);
  }

  lemma LeadMask(b: Byte)
    requires Next(0, b) != REJECT
    ensures And(Shr(0xff, ClassOf(b)), b) == (if b < 0x80 then b else if b < 0xE0 then b - 0xC0
                                  else if b < 0xF0 then b - 0xE0 else b - 0xF0)
  {
    Shifts();
    if b < 0x80 {
      MaskedBy(b, 0, 8, 256, 0);
    } else if b < 0xE0 {
      MaskedBy(b, 2, 6, 64, 3);
    } else if b == 0xE0 {
      MaskedBy(b, 10, 0, 1, 0xE0);
    } else if b == 0xED {
      MaskedBy(b, 4, 4, 16, 14);
    } else if b < 0xF0 {
      MaskedBy(b, 3, 5, 32, 7);
    } else if b == 0xF0 {
      MaskedBy(b, 11, 0, 1, 0xF0);
    } else if b < 0xF4 {
      MaskedBy(b, 6, 2, 4, 60);
    } else {
      MaskedBy(b, 5, 3, 8, 30);
    }
  }

  lemma MaskedBy(b: Byte, t: nat, k: nat, p: nat, m: nat)
    requires p == Pow2(k) && Shr(0xff, t) == p - 1 && m * p <= b < m * p + p
    ensures And(Shr(0xff, t), b) == b - m * p
  {
    MaskByte(b, k);
    RemainderUnique(b, p, m, b - m * p);
  }

  lemma Shifts()
    ensures Shr(0xff, 0) == 255 && Shr(0xff, 2) == 63 && Shr(0xff, 3) == 31 && Shr(0xff, 4) == 15
    ensures Shr(0xff, 5) == 7 && Shr(0xff, 6) == 3 && Shr(0xff, 10) == 0 && Shr(0xff, 11) == 0
    ensures Pow2(0) == 1 && Pow2(2) == 4 && Pow2(3) == 8 && Pow2(4) == 16 && Pow2(5) == 32
    ensures Pow2(6) == 64 && Pow2(8) == 256
  {
  }

  lemma MaskByte(b: nat, k: nat)
    ensures And(Pow2(k) - 1, b) == b % Pow2(k)
  {
    AndComm(Pow2(k) - 1, b);
    AndMask(b, k);
    LowMod(b, k);
  }

  /** A continuation byte shifts six more bits in. */
  lemma TailPayload(q: nat, code: nat, b: Byte)
    requires q != ACCEPT && IsTail(b) && code < 0x400_0000
    ensures NextCode(q, code, b) == 64 * code + (b - 0x80)
  {
    TailBits(b);
    SixBits(code, b - 0x80);
    NoWrap(code);
  }

  lemma NoWrap(code: nat)
    requires code < 0x400_0000
    ensures Shl(code, 6) % U32 == Shl(code, 6)
  {
    ShlMul(code, 6);
    assert Pow2(6) == 64;
  }

  lemma TailBits(b: Byte)
    requires IsTail(b)
    ensures And(b, 0x3f) == b - 0x80
  {
    AndComm(b, 0x3f);
    MaskByte(b, 6);
    Shifts();
  }

  lemma SixBits(code: nat, lo: nat)
    requires lo < 64
    ensures Shl(code, 6) == 64 * code && Or(lo, Shl(code, 6)) == 64 * code + lo
  {
    Shifts();
    ShlMul(code, 6);
    OrDisjoint(code, lo, 6);
    ShlIsCat(code, lo, 6);
  }

  /** The value an encoded character stands for. */
  function CodeOf(c: seq<Byte>): (v: nat)
    requires IsChar(c)
  {
    match |c|
    case 1 => c[0]
    case 2 => Six(c[0] - 0xC0, c[1])
    case 3 => Six(Six(c[0] - 0xE0, c[1]), c[2])
    case _ => Six(Six(Six(c[0] - 0xF0, c[1]), c[2]), c[3])
  }

  /** Six more bits, those of a continuation byte, appended to a value. */
  function Six(hi: nat, b: Byte): (v: int) { 64 * hi + b - 0x80 }

  lemma SixParts(hi: nat, b: Byte)
    requires IsTail(b)
    ensures Six(hi, b) >= 0 && Six(hi, b) / 64 == hi && Six(hi, b) % 64 == b - 0x80
  {
  }

  lemma PartsSix(v: nat)
    ensures Six(v / 64, 0x80 + v % 64) == v
  {
  }

  /** Characters and scalar values correspond one to one. */
  lemma CharIsEncoding(c: seq<Byte>)
    requires IsChar(c)
    ensures IsScalar(CodeOf(c)) && Encode(CodeOf(c)) == c
  {
    if |c| == 2 {
      SixParts(c[0] - 0xC0, c[1]);
    } else if |c| == 3 {
      Encoded3(c);
    } else if |c| == 4 {
      Encoded4(c);
    }
  }

  lemma Encoded3(c: seq<Byte>)
    requires |c| == 3 && IsChar(c)
    ensures IsScalar(CodeOf(c)) && Encode(CodeOf(c)) == c
  {
    var x := Six(c[0] - 0xE0, c[1]);
    SixParts(c[0] - 0xE0, c[1]);
    SixParts(x, c[2]);
    var v := Six(x, c[2]);
    Range3(c, v);
    assert v / 64 == x && v / 64 / 64 == c[0] - 0xE0 && v / 64 % 64 == c[1] - 0x80;
  }

  lemma Range3(c: seq<Byte>, v: nat)
    requires |c| == 3 && IsChar(c) && v == Six(Six(c[0] - 0xE0, c[1]), c[2])
    ensures 0x800 <= v <= 0xFFFF && IsScalar(v)
  {
  }

  lemma Encoded4(c: seq<Byte>)
    requires |c| == 4 && IsChar(c)
    ensures IsScalar(CodeOf(c)) && Encode(CodeOf(c)) == c
  {
    var x := Six(c[0] - 0xF0, c[1]);
    var y := Six(x, c[2]);
    SixParts(c[0] - 0xF0, c[1]);
    SixParts(x, c[2]);
    SixParts(y, c[3]);
    var v := Six(y, c[3]);
    Range4(c, v);
    assert v / 64 == y && v / 64 / 64 == x && v / 64 / 64 / 64 == c[0] - 0xF0;
  }

  lemma Range4(c: seq<Byte>, v: nat)
    requires |c| == 4 && IsChar(c) && v == Six(Six(Six(c[0] - 0xF0, c[1]), c[2]), c[3])
    ensures 0x10000 <= v <= 0x10FFFF
  {
  }

  lemma EncodingIsChar(v: nat)
    requires IsScalar(v)
    ensures IsChar(Encode(v)) && CodeOf(Encode(v)) == v
  {
    PartsSix(v);
    PartsSix(v / 64);
    PartsSix(v / 64 / 64);
  }

  lemma CodesStep(q: nat, code: nat, b: Byte, t: seq<Byte>)
    requires q <= 8
    ensures Codes(q, code, [b] + t)
      == (if Next(q, b) == ACCEPT then [NextCode(q, code, b)] else []) + Codes(Next(q, b), NextCode(q, code, b), t)
  {
    assert ([b] + t)[1..] == t;
  }

  lemma LeadCodes(code: nat, b: Byte, t: seq<Byte>)
    requires Next(0, b) != REJECT
    ensures var v := if b < 0x80 then b else if b < 0xE0 then b - 0xC0 else if b < 0xF0 then b - 0xE0 else b - 0xF0;
      Codes(0, code, [b] + t) == (if b < 0x80 then [v] else []) + Codes(Next(0, b), v, t)
  {
    LeadPayload(b);
    CodesStep(0, code, b, t);
    assert NextCode(0, code, b) == NextCode(0, 0, b);
  }

  lemma TailCodes(q: nat, code: nat, b: Byte, t: seq<Byte>)
    requires 2 <= q <= 8 && Next(q, b) != REJECT && code < 0x400_0000
    ensures var v := Six(code, b);
      Codes(q, code, [b] + t) == (if q == 2 then [v] else []) + Codes(Next(q, b), v, t)
  {
    TailPayload(q, code, b);
    CodesStep(q, code, b, t);
  }

  /** Reading one character produces its code point and nothing else. */
  lemma CharCodes(code: nat, c: seq<Byte>, t: seq<Byte>)
    requires IsChar(c)
    ensures Codes(0, code, c + t) == [CodeOf(c)] + Codes(0, CodeOf(c), t)
  {
    if |c| == 1 {
      assert c + t == [c[0]] + t;
      LeadCodes(code, c[0], t);
    } else if |c| == 2 {
      assert c + t == [c[0]] + ([c[1]] + t);
      LeadCodes(code, c[0], [c[1]] + t);
      TailCodes(2, c[0] - 0xC0, c[1], t);
    } else if |c| == 3 {
      CharCodes3(code, c, t);
    } else {
      CharCodes4(code, c, t);
    }
  }

  lemma CharCodes3(code: nat, c: seq<Byte>, t: seq<Byte>)
    requires |c| == 3 && IsChar(c)
    ensures Codes(0, code, c + t) == [CodeOf(c)] + Codes(0, CodeOf(c), t)
  {
    var t2 := [c[2]] + t;
    assert c + t == [c[0]] + ([c[1]] + t2);
    LeadCodes(code, c[0], [c[1]] + t2);
    TailCodes(Next(0, c[0]), c[0] - 0xE0, c[1], t2);
    TailCodes(2, Six(c[0] - 0xE0, c[1]), c[2], t);
  }

  lemma CharCodes4(code: nat, c: seq<Byte>, t: seq<Byte>)
    requires |c| == 4 && IsChar(c)
    ensures Codes(0, code, c + t) == [CodeOf(c)] + Codes(0, CodeOf(c), t)
  {
    var t3 := [c[3]] + t;
    var t2 := [c[2]] + t3;
    assert c + t == [c[0]] + ([c[1]] + t2);
    LeadCodes(code, c[0], [c[1]] + t2);
    TailCodes(Next(0, c[0]), c[0] - 0xF0, c[1], t2);
    TailCodes(3, Six(c[0] - 0xF0, c[1]), c[2], t3);
    TailCodes(2, Six(Six(c[0] - 0xF0, c[1]), c[2]), c[3], t);
  }

  lemma NoCodes(code: nat)
    ensures Codes(0, code, []) == []
  {
  }

  /** The code points of a well-formed string encode back to the string. */
  lemma {:induction false} CodesEncodeBack(code: nat, s: seq<Byte>)
    requires WellFormed(s)
    ensures AllScalar(Codes(0, code, s)) && EncodeAll(Codes(0, code, s)) == s
    decreases |s|
  {
    hide WellFormed, IsChar, CodeOf, LengthOf, Encode, IsScalar;
    if s == [] {
      NoCodes(code);
    } else {
      hide Codes;
      WellFormedFirst(s);
      var n := LengthOf(s[0]);
      var c, t := s[..n], s[n..];
      assert s == c + t;
      CharCodes(code, c, t);
      CharIsEncoding(c);
      CodesEncodeBack(CodeOf(c), t);
      var vs := Codes(0, code, s);
      assert vs[0] == CodeOf(c) && vs[1..] == Codes(0, CodeOf(c), t);
    }
  }

  /** Every string of scalar values encodes to a well-formed string that decodes to it. */
  lemma {:induction false} EncodingDecodes(code: nat, vs: seq<nat>)
    requires AllScalar(vs)
    ensures WellFormed(EncodeAll(vs)) && Codes(0, code, EncodeAll(vs)) == vs
    decreases |vs|
  {
    if vs != [] {
      var c, t := Encode(vs[0]), EncodeAll(vs[1..]);
      EncodingIsChar(vs[0]);
      EncodingDecodes(vs[0], vs[1..]);
      CharCodes(code, c, t);
      assert (c + t)[..|c|] == c && (c + t)[|c|..] == t;
    }
  }

  // ---------------------------------------------------------------- the code

  /** Decode the next byte: new state and code point, by table look-up. */
  method DecodeByte(state: nat, codep: nat, byte: Byte) returns (state': nat, codep': nat)
    requires state <= 8
    ensures state' == Next(state, byte) && codep' == NextCode(state, codep, byte)
  {
    TableIsAutomaton(state, byte);
    var kind := UTF8D[byte];
    codep' := if state != ACCEPT then Or(And(byte, 0x3f), Shl(codep, 6) % U32)
              else And(Shr(0xff, kind), byte);
    state' := UTF8D[256 + state * 16 + kind];
  }

  /** Streaming validation. */
  class Validator {
    var state: nat
    var codepoint: nat

    ghost predicate Valid()
      reads this
    {
      state <= 8
    }

    constructor ()
      ensures Valid() && state == ACCEPT && codepoint == 0
    {
      state, codepoint := ACCEPT, 0;
    }

    method Consume(byte: Byte) returns (ok: bool)
      requires Valid()
      modifies this
      ensures Valid() && state == Next(old(state), byte) && codepoint == NextCode(old(state), old(codepoint), byte)
      ensures ok <==> state != REJECT
    {
      state, codepoint := DecodeByte(state, codepoint, byte);
      ok := state != REJECT;
    }

    /** Answers true exactly when the automaton never rejects, and leaves it in
        the state that the whole piece leads to either way. */
    method Decode(bytes: seq<Byte>) returns (ok: bool)
      requires Valid()
      modifies this
      ensures Valid() && state == Run(old(state), bytes)
      ensures ok <==> bytes == [] || state != REJECT
      ensures ok ==> codepoint == LastCode(old(state), old(codepoint), bytes)
    {
      var it := 0;
      while it < |bytes|
        invariant 0 <= it <= |bytes| && Valid()
        invariant Run(old(state), bytes) == Run(state, bytes[it..])
        invariant LastCode(old(state), old(codepoint), bytes) == LastCode(state, codepoint, bytes[it..])
        invariant it > 0 ==> state != REJECT
      {
        assert bytes[it..][1..] == bytes[it + 1..];
        state, codepoint := DecodeByte(state, codepoint, bytes[it]);
        if state == REJECT {
          RejectStays(bytes[it + 1..]);
          return false;
        }
        it := it + 1;
      }
      assert bytes[it..] == [];
      return true;
    }

    method Complete() returns (done: bool)
      ensures done <==> state == ACCEPT
    {
      done := state == ACCEPT;
    }

    method Reset()
      modifies this
      ensures Valid() && state == ACCEPT && codepoint == 0
    {
      state, codepoint := ACCEPT, 0;
    }
  }

  function LastCode(q: nat, code: nat, s: seq<Byte>): nat
    requires q <= 8
    decreases |s|
  {
    if s == [] then code else LastCode(Next(q, s[0]), NextCode(q, code, s[0]), s[1..])
  }

  /** A string is accepted exactly when the grammar derives it. */
  method Validate(s: seq<Byte>) returns (ok: bool)
    ensures ok <==> WellFormed(s)
  {
    var v := new Validator();
    AcceptsRest(0, s);
    ok := v.Decode(s);
    if !ok {
      return false;
    }
    ok := v.Complete();
  }

  /** Validating a string piece by piece gives the same answer as in one go. */
  lemma StreamingAgrees(pieces: seq<seq<Byte>>)
    ensures RunPieces(0, pieces) == ACCEPT <==> WellFormed(Join(pieces))
  {
    PiecesJoin(0, pieces);
    AcceptsRest(0, Join(pieces));
  }

  function Join(pieces: seq<seq<Byte>>): seq<Byte> {
    if pieces == [] then [] else pieces[0] + Join(pieces[1..])
  }

  /** The state after one Decode call for each piece. */
  function RunPieces(q: nat, pieces: seq<seq<Byte>>): (r: nat)
    requires q <= 8
    decreases |pieces|
  {
    if pieces == [] then q else RunPieces(Run(q, pieces[0]), pieces[1..])
  }

  lemma {:induction false} PiecesJoin(q: nat, pieces: seq<seq<Byte>>)
    requires q <= 8
    ensures RunPieces(q, pieces) == Run(q, Join(pieces))
    decreases |pieces|
  {
    if pieces != [] {
      RunAppend(q, pieces[0], Join(pieces[1..]));
      PiecesJoin(Run(q, pieces[0]), pieces[1..]);
    }
  }

  /** Each time the automaton accepts, the code point register holds the code
      point just produced. */
  lemma {:induction false} LastCodeHeld(q: nat, code: nat, s: seq<Byte>)
    requires q <= 8 && s != [] && Run(q, s) == ACCEPT
    ensures var vs := Codes(q, code, s); vs != [] && vs[|vs| - 1] == LastCode(q, code, s)
    decreases |s|
  {
    if |s| > 1 { LastCodeHeld(Next(q, s[0]), NextCode(q, code, s[0]), s[1..]); }
  }
}
