/** The generator object: register fields, stepping and mask set-up
    (lib/lfsr/lfsr.cxx and lfsr.h). */
module P25p2Lfsr {
  import opened Words
  import opened BitUtils
  import opened Lfsr

  // ---------------------------------------------------------------- fields of the register

  /** Bit j, from the top, of six fields of 4, 5, 6, 5, 14 and 10 bits in a row. */
  predicate PackAt(f: seq<nat>, j: nat)
    requires |f| == 6 && j < 44
  {
    if j < 4 then Bits(f[0], 4)[j] else if j < 9 then Bits(f[1], 5)[j - 4]
    else if j < 15 then Bits(f[2], 6)[j - 9] else if j < 20 then Bits(f[3], 5)[j - 15]
    else if j < 34 then Bits(f[4], 14)[j - 20] else Bits(f[5], 10)[j - 34]
  }

  /** The bits of r are those of the fields f. */
  ghost predicate Packed(r: nat, f: seq<nat>)
    requires |f| == 6
  {
    forall j :: 0 <= j < 44 ==> Bits(r, 44)[j] == PackAt(f, j)
  }

  function Fields(r: nat): (f: seq<nat>)
    ensures |f| == 6
  {
    [Low(Shr(r, 40), 4), Low(Shr(r, 35), 5), Low(Shr(r, 29), 6),
     Low(Shr(r, 24), 5), Low(Shr(r, 10), 14), Low(r, 10)]
  }

  /** Taking a register apart loses no bit of it. */
  lemma FieldBits(r: nat)
    ensures Packed(r, Fields(r))
  {
    forall j | 0 <= j < 44 ensures Bits(r, 44)[j] == PackAt(Fields(r), j) {
      FieldBit(r, j);
    }
  }

  lemma FieldBit(r: nat, j: nat)
    requires j < 44
    ensures Bits(r, 44)[j] == PackAt(Fields(r), j)
  {
    hide Shr, Low, Bits;
    SplitBit(r, 4, 40, j); BitsLow(Shr(r, 40), 4);
    if j >= 4 { SplitBit(r, 5, 35, j - 4); BitsLow(Shr(r, 35), 5); }
    if j >= 9 { SplitBit(r, 6, 29, j - 9); BitsLow(Shr(r, 29), 6); }
    if j >= 15 { SplitBit(r, 5, 24, j - 15); BitsLow(Shr(r, 24), 5); }
    if j >= 20 { SplitBit(r, 14, 10, j - 20); BitsLow(Shr(r, 10), 14); BitsLow(r, 10); }
  }

  ghost function Glue(f: seq<nat>): nat
    requires |f| == 6
  {
    Cat(f[0], Cat(f[1], Cat(f[2], Cat(f[3], Cat(f[4], f[5], 10), 24), 29), 35), 40)
  }

  lemma GlueBit(f: seq<nat>, j: nat)
    requires |f| == 6 && j < 44
    ensures Bits(Glue(f), 44)[j] == PackAt(f, j)
  {
    hide Cat, Bits;
    var c4 := Cat(f[4], f[5], 10);
    var c3 := Cat(f[3], c4, 24);
    var c2 := Cat(f[2], c3, 29);
    var c1 := Cat(f[1], c2, 35);
    CatBit(f[0], c1, 4, 40, j);
    if j >= 4 { CatBit(f[1], c2, 5, 35, j - 4); }
    if j >= 9 { CatBit(f[2], c3, 6, 29, j - 9); }
    if j >= 15 { CatBit(f[3], c4, 5, 24, j - 15); }
    if j >= 20 { CatBit(f[4], f[5], 14, 10, j - 20); }
  }

  /** Adding up shifted fields that are in range gives a register with their bits. */
  lemma Assembled(f: seq<nat>)
    requires |f| == 6
    requires f[0] < Pow2(4) && f[1] < Pow2(5) && f[2] < Pow2(6)
    requires f[3] < Pow2(5) && f[4] < Pow2(14) && f[5] < Pow2(10)
    ensures Sum(f) == Glue(f) < Pow2(44)
  {
    var c4 := Cat(f[4], f[5], 10);
    ShlIsCat(f[4], f[5], 10); CatBound(f[4], f[5], 14, 10);
    var c3 := Cat(f[3], c4, 24);
    ShlIsCat(f[3], c4, 24); CatBound(f[3], c4, 5, 24);
    var c2 := Cat(f[2], c3, 29);
    ShlIsCat(f[2], c3, 29); CatBound(f[2], c3, 6, 29);
    var c1 := Cat(f[1], c2, 35);
    ShlIsCat(f[1], c2, 35); CatBound(f[1], c2, 5, 35);
    ShlIsCat(f[0], c1, 40); CatBound(f[0], c1, 4, 40);
  }

  method DisasmReg(r: nat) returns (s: array<nat>)
    ensures fresh(s) && s.Length == 6
    ensures s[..] == Fields(r)
  {
    Masks();
    AndMask(Shr(r, 40), 4); AndMask(Shr(r, 35), 5); AndMask(Shr(r, 29), 6);
    AndMask(Shr(r, 24), 5); AndMask(Shr(r, 10), 14); AndMask(r, 10);
    s := new nat[6];
    s[0] := And(Shr(r, 40), 0xf);
    s[1] := And(Shr(r, 35), 0x1f);
    s[2] := And(Shr(r, 29), 0x3f);
    s[3] := And(Shr(r, 24), 0x1f);
    s[4] := And(Shr(r, 10), 0x3fff);
    s[5] := And(r, 0x3ff);
  }

  lemma Masks()
    ensures Pow2(4) == 16 && Pow2(5) == 32 && Pow2(6) == 64 && Pow2(14) == 16384 && Pow2(10) == 1024
    ensures Pow2(1) == 2 && Pow2(3) == 8 && Pow2(13) == 8192 && Pow2(9) == 512
  {
  }

  /** The bits of a packed register are those of its fields cut to size. */
  method AsmReg(s: array<nat>) returns (r: nat)
    requires s.Length == 6
    modifies s
    ensures r < Pow2(44)
    ensures Packed(r, old(s[..]))
  {
    ghost var f := s[..];
    s[0] := And(s[0], 0xf);
    s[1] := And(s[1], 0x1f);
    s[2] := And(s[2], 0x3f);
    s[3] := And(s[3], 0x1f);
    s[4] := And(s[4], 0x3fff);
    s[5] := And(s[5], 0x3ff);
    assert s[..] == Masked(f);
    MaskedSum(f);
    MaskedBits(f);
    r := Shl(s[0], 40) + Shl(s[1], 35) + Shl(s[2], 29) + Shl(s[3], 24) + Shl(s[4], 10) + s[5];
  }

  function Masked(f: seq<nat>): (g: seq<nat>)
    requires |f| == 6
    ensures |g| == 6
  {
    [And(f[0], 0xf), And(f[1], 0x1f), And(f[2], 0x3f), And(f[3], 0x1f), And(f[4], 0x3fff), And(f[5], 0x3ff)]
  }

  /** The sum the code returns. */
  function Sum(g: seq<nat>): nat
    requires |g| == 6
  {
    Shl(g[0], 40) + Shl(g[1], 35) + Shl(g[2], 29) + Shl(g[3], 24) + Shl(g[4], 10) + g[5]
  }

  lemma MaskedSum(f: seq<nat>)
    requires |f| == 6
    ensures Sum(Masked(f)) == Glue(Masked(f)) < Pow2(44)
  {
    MaskedIsLow(f);
    Assembled(Masked(f));
  }

  lemma MaskedBits(f: seq<nat>)
    requires |f| == 6
    ensures Packed(Glue(Masked(f)), f)
  {
    MaskedIsLow(f);
    forall j | 0 <= j < 44 ensures Bits(Glue(Masked(f)), 44)[j] == PackAt(f, j) {
      GlueBit(Masked(f), j);
      SamePack(f, Masked(f), j);
    }
  }

  lemma MaskedIsLow(f: seq<nat>)
    requires |f| == 6
    ensures Masked(f) == [Low(f[0], 4), Low(f[1], 5), Low(f[2], 6), Low(f[3], 5), Low(f[4], 14), Low(f[5], 10)]
  {
    Masks();
    AndMask(f[0], 4); AndMask(f[1], 5); AndMask(f[2], 6);
    AndMask(f[3], 5); AndMask(f[4], 14); AndMask(f[5], 10);
  }

  lemma SamePack(f: seq<nat>, g: seq<nat>, j: nat)
    requires |f| == 6 && j < 44
    requires g == [Low(f[0], 4), Low(f[1], 5), Low(f[2], 6), Low(f[3], 5), Low(f[4], 14), Low(f[5], 10)]
    ensures PackAt(f, j) == PackAt(g, j)
  {
    BitsLow(f[0], 4); BitsLow(f[1], 5); BitsLow(f[2], 6);
    BitsLow(f[3], 5); BitsLow(f[4], 14); BitsLow(f[5], 10);
  }

  // ---------------------------------------------------------------- one step

  lemma TopBit(f: nat, w: nat)
    requires w > 0
    ensures And(Shr(f, w - 1), 1) == ToInt(Bits(f, w)[0])
  {
    AndOne(Shr(f, w - 1));
    BitsSplit(f, 1, w - 1);
    assert Bits(Shr(f, w - 1), 1) == [Odd(Shr(f, w - 1))];
  }

  /** The shifted field with its new low bit, as the code computes it. */
  lemma ShiftField(f: nat, w: nat, mask: nat, bit: bool)
    requires w > 0 && mask == Pow2(w) - 1
    ensures Bits(Or(And(Shl(f, 1), mask), And(ToInt(bit), 1)), w) == Bits(f, w)[1..] + [bit]
  {
    var h := Low(f, w - 1);
    AndMask(2 * f, w);
    AndOne(ToInt(bit));
    LowEven(f, w);
    OrLowBit(h, bit);
    BitsDouble(h, bit, w);
    BitsTail(f, w);
    BitsLow(f, w - 1);
    assert Shl(f, 1) == 2 * f;
  }

  lemma OrLowBit(h: nat, bit: bool)
    ensures Or(2 * h, ToInt(bit)) == 2 * h + ToInt(bit)
  {
    assert Pow2(1) == 2 && Shl(h, 1) == 2 * h;
    OrDisjoint(h, ToInt(bit), 1);
    assert Cat(h, ToInt(bit), 1) == 2 * h + ToInt(bit);
  }

  lemma XorBit(a: bool, b: bool)
    ensures Xor(ToInt(a), ToInt(b)) == ToInt(a != b)
  {
  }

  /** Equal bits and size make equal registers. */
  lemma SameBits(x: nat, y: nat)
    requires x < Pow2(44) && y < Pow2(44) && Bits(x, 44) == Bits(y, 44)
    ensures x == y
  {
    ValOfBits(x, 44);
    ValOfBits(y, 44);
    LowSmall(x, 44);
    LowSmall(y, 44);
  }

  lemma {:induction false} ZeroBits(l: nat)
    ensures Bits(0, l) == seq(l, _ => false)
  {
    if l > 0 { ZeroBits(l - 1); }
  }

  /** The arithmetic step is the step on bits. */
  lemma GaloisStepBits(reg: nat)
    ensures GaloisStep(reg) < Pow2(44)
    ensures Bits(GaloisStep(reg), 44) == Step(Bits(reg, 44))
  {
    var b := Bits(reg, 44);
    var p := if b[0] then POLY else 0;
    PolyBits();
    ZeroBits(44);
    XorBound(Low(2 * reg, 44), p, 44);
    LowEven(reg, 44);
    BitsDouble(Low(reg, 43), false, 44);
    BitsTail(reg, 44);
    BitsLow(reg, 43);
    StepAsXor(b, Bits(Low(2 * reg, 44), 44), Bits(p, 44));
    XorBits(Low(2 * reg, 44), p, 44, Step(b));
  }

  lemma StepAsXor(b: Register, shifted: seq<bool>, p: seq<bool>)
    requires shifted == b[1..] + [false] && |p| == 44
    requires p == seq(44, j requires 0 <= j < 44 => b[0] && (IsTap(j) || j == 43))
    ensures forall j :: 0 <= j < 44 ==> Step(b)[j] == (shifted[j] != p[j])
  {
  }

  lemma XorBits(x: nat, y: nat, l: nat, z: seq<bool>)
    requires |z| == l
    requires forall i :: 0 <= i < l ==> z[i] == (Bits(x, l)[i] != Bits(y, l)[i])
    ensures Bits(Xor(x, y), l) == z
  {
    forall i | 0 <= i < l ensures Bits(Xor(x, y), l)[i] == z[i] {
      BitsXor(x, y, l, i);
    }
  }

  lemma PolyBits()
    ensures POLY < Pow2(44)
    ensures Bits(POLY, 44) == seq(44, j requires 0 <= j < 44 => IsTap(j) || j == 43)
  {
    var f := [1, 1, 1, 1, 1, 1];
    Masks();
    Assembled(f);
    PolyValue();
    forall j | 0 <= j < 44 ensures Bits(POLY, 44)[j] == (IsTap(j) || j == 43) {
      GlueBit(f, j);
      OnesAt(f, j);
    }
  }

  lemma OnesAt(f: seq<nat>, j: nat)
    requires f == [1, 1, 1, 1, 1, 1] && j < 44
    ensures PackAt(f, j) == (IsTap(j) || j == 43)
  {
    OneBits(if j < 4 then 4 else if j < 9 then 5 else if j < 15 then 6 else if j < 20 then 5
            else if j < 34 then 14 else 10);
  }

  lemma PolyValue()
    ensures Sum([1, 1, 1, 1, 1, 1]) == POLY
  {
    Weights();
    Masks();
  }

  lemma Weights()
    ensures Pow2(24) == 0x100_0000 && Pow2(29) == 0x2000_0000 && Pow2(35) == 0x8_0000_0000
    ensures Pow2(40) == 0x100_0000_0000
  {
    Masks();
    Pow2Add(14, 10); Pow2Add(24, 5); Pow2Add(29, 6); Pow2Add(35, 5);
  }

  lemma OneBits(l: nat)
    requires l > 0
    ensures Bits(1, l) == seq(l, i requires 0 <= i < l => i == l - 1)
  {
    ZeroBits(l - 1);
  }

  /** Field f of w bits as the code rewrites it: shifted, with bit x put in. */
  function Shifted(f: nat, mask: nat, x: nat): nat {
    Or(And(Shl(f, 1), mask), And(x, 1))
  }

  function Carry(f: nat, top: nat): nat { And(Shr(f, top), 1) }

  function Width(i: nat): (w: nat)
    ensures w > 0
  {
    if i == 0 then 4 else if i == 1 then 5 else if i == 2 then 6 else if i == 3 then 5
    else if i == 4 then 14 else 10
  }

  function Mask(i: nat): nat { Pow2(Width(i)) - 1 }

  /** The bit the code carries into field i. */
  function CarryIn(f: seq<nat>, i: nat): nat
    requires |f| == 6 && i < 6
  {
    if i < 5 then Xor(Carry(f[0], 3), Carry(f[i + 1], Width(i + 1) - 1)) else Carry(f[0], 3)
  }

  /** Field i of g is that of f shifted, with a feedback bit as low bit. */
  ghost predicate FieldStepped(f: seq<nat>, g: seq<nat>, i: nat)
    requires |f| == |g| == 6 && i < 6
  {
    var w, out := Width(i), Bits(f[0], 4)[0];
    forall k :: 0 <= k < w ==>
      (Bits(g[i], w)[k] == if k < w - 1 then Bits(f[i], w)[k + 1]
                           else if i < 5 then Bits(f[i + 1], Width(i + 1))[0] != out else out)
  }

  /** The code's shifts, masks and carries do what FieldStepped says. */
  lemma CarriesStep(f: seq<nat>, g: seq<nat>, i: nat)
    requires |f| == |g| == 6 && i < 6
    requires g[i] == Shifted(f[i], Mask(i), CarryIn(f, i))
    ensures FieldStepped(f, g, i)
  {
    hide Bits, Xor;
    var out := Bits(f[0], 4)[0];
    TopBit(f[0], 4);
    if i < 5 {
      var next := Bits(f[i + 1], Width(i + 1))[0];
      TopBit(f[i + 1], Width(i + 1));
      XorBit(out, next);
      ShiftField(f[i], Width(i), Mask(i), next != out);
    } else {
      ShiftField(f[i], Width(i), Mask(i), out);
    }
  }

  /** The six fields after one step, as the code computes them. */
  function NextFields(f: seq<nat>): (g: seq<nat>)
    requires |f| == 6
    ensures |g| == 6
  {
    var cy1 := Carry(f[0], 3);
    [Shifted(f[0], 0xf, Xor(cy1, Carry(f[1], 4))), Shifted(f[1], 0x1f, Xor(cy1, Carry(f[2], 5))),
     Shifted(f[2], 0x3f, Xor(cy1, Carry(f[3], 4))), Shifted(f[3], 0x1f, Xor(cy1, Carry(f[4], 13))),
     Shifted(f[4], 0x3fff, Xor(cy1, Carry(f[5], 9))), Shifted(f[5], 0x3ff, cy1)]
  }

  lemma NextFieldsStepped(f: seq<nat>)
    requires |f| == 6
    ensures forall i :: 0 <= i < 6 ==> FieldStepped(f, NextFields(f), i)
  {
    Masks();
    forall i | 0 <= i < 6 ensures FieldStepped(f, NextFields(f), i) {
      CarriesStep(f, NextFields(f), i);
    }
  }

  lemma StepPacked(f: seq<nat>, g: seq<nat>, j: nat)
    requires |f| == |g| == 6 && j < 44
    requires forall i :: 0 <= i < 6 ==> FieldStepped(f, g, i)
    ensures PackAt(g, j) == if j == 43 then PackAt(f, 0) else PackAt(f, j + 1) != (IsTap(j) && PackAt(f, 0))
  {
    var i := if j < 4 then 0 else if j < 9 then 1 else if j < 15 then 2
      else if j < 20 then 3 else if j < 34 then 4 else 5;
    var k := if j < 4 then j else if j < 9 then j - 4 else if j < 15 then j - 9
      else if j < 20 then j - 15 else if j < 34 then j - 20 else j - 34;
    assert FieldStepped(f, g, i);
    assert PackAt(g, j) == Bits(g[i], Width(i))[k];
  }

  lemma CycBits(reg: nat, r: nat)
    requires r < Pow2(44) && Packed(r, NextFields(Fields(reg)))
    ensures r == GaloisStep(reg)
  {
    var f := Fields(reg);
    FieldBits(reg);
    NextFieldsStepped(f);
    GaloisStepBits(reg);
    forall j | 0 <= j < 44 ensures Bits(r, 44)[j] == Step(Bits(reg, 44))[j] {
      StepPacked(f, NextFields(f), j);
    }
    SameBits(r, GaloisStep(reg));
  }

  /** Carries, shifts and masks, written over the six fields in place. */
  method ShiftFields(s: array<nat>)
    requires s.Length == 6
    modifies s
    ensures s[..] == NextFields(old(s[..]))
  {
    var cy1 := And(Shr(s[0], 3), 1);
    var cy2 := And(Shr(s[1], 4), 1);
    var cy3 := And(Shr(s[2], 5), 1);
    var cy4 := And(Shr(s[3], 4), 1);
    var cy5 := And(Shr(s[4], 13), 1);
    var cy6 := And(Shr(s[5], 9), 1);
    var x1 := Xor(cy1, cy2);
    var x2 := Xor(cy1, cy3);
    var x3 := Xor(cy1, cy4);
    var x4 := Xor(cy1, cy5);
    var x5 := Xor(cy1, cy6);
    s[0] := And(Shl(s[0], 1), 0xf);
    s[1] := And(Shl(s[1], 1), 0x1f);
    s[2] := And(Shl(s[2], 1), 0x3f);
    s[3] := And(Shl(s[3], 1), 0x1f);
    s[4] := And(Shl(s[4], 1), 0x3fff);
    s[5] := And(Shl(s[5], 1), 0x3ff);
    s[0] := Or(s[0], And(x1, 1));
    s[1] := Or(s[1], And(x2, 1));
    s[2] := Or(s[2], And(x3, 1));
    s[3] := Or(s[3], And(x4, 1));
    s[4] := Or(s[4], And(x5, 1));
    s[5] := Or(s[5], And(cy1, 1));
  }

  /** One step of the six-field code is the 44-bit shift with a conditional XOR. */
  method CycReg(reg: nat) returns (r: nat)
    ensures r == GaloisStep(reg)
  {
    var s := DisasmReg(reg);
    ShiftFields(s);
    r := AsmReg(s);
    CycBits(reg, r);
  }

  /** On 44-bit numbers the step is one to one, so only zero steps to zero ... */
  lemma CycInjective(x: nat, y: nat)
    requires x < Pow2(44) && y < Pow2(44)
    ensures GaloisStep(x) == GaloisStep(y) <==> x == y
    ensures GaloisStep(x) == 0 <==> x == 0
  {
    hide GaloisStep, Bits;
    GaloisStepBits(x);
    GaloisStepBits(y);
    GaloisStepBits(0);
    StepBijective(Bits(x, 44));
    StepBijective(Bits(y, 44));
    StepBijective(Bits(0, 44));
    ZeroBits(44);
    SameBits(GaloisStep(0), 0);
    if Bits(x, 44) == Bits(y, 44) { SameBits(x, y); }
    if Bits(x, 44) == Bits(0, 44) { SameBits(x, 0); }
  }

  /** ... and onto, every number being the step of the one Unstep points at. */
  lemma CycOnto(y: nat)
    requires y < Pow2(44)
    ensures var x := Val(Ints(Unstep(Bits(y, 44)))); x < Pow2(44) && GaloisStep(x) == y
  {
    var b := Unstep(Bits(y, 44));
    ValStep(Ints(b));
    BitsOfVal(Ints(b));
    assert Parities(Ints(b)) == b;
    GaloisStepBits(Val(Ints(b)));
    StepBijective(Bits(y, 44));
    SameBits(GaloisStep(Val(Ints(b))), y);
  }

  /** Stepping the XOR of two registers gives the XOR of their steps. */
  lemma CycLinear(x: nat, y: nat)
    requires x < Pow2(44) && y < Pow2(44)
    ensures GaloisStep(Xor(x, y)) == Xor(GaloisStep(x), GaloisStep(y))
  {
    var gx, gy := GaloisStep(x), GaloisStep(y);
    GaloisStepBits(x);
    GaloisStepBits(y);
    GaloisStepBits(Xor(x, y));
    XorRegister(x, y);
    XorRegister(gx, gy);
    StepLinear(Bits(x, 44), Bits(y, 44));
    XorBound(gx, gy, 44);
    SameBits(GaloisStep(Xor(x, y)), Xor(gx, gy));
  }

  lemma XorRegister(x: nat, y: nat)
    ensures Bits(Xor(x, y), 44) == XorReg(Bits(x, 44), Bits(y, 44))
  {
    XorBits(x, y, 44, XorReg(Bits(x, 44), Bits(y, 44)));
  }

  // ---------------------------------------------------------------- the generator

  /** The elements of s are the first bits of a mask of the seed. */
  ghost predicate HoldsMask(s: seq<int>, seed: nat) {
    exists o: nat -> bool :: IsMask(seed, o) && Follows(s, o)
  }

  ghost predicate Follows(s: seq<int>, o: nat -> bool) {
    forall i :: 0 <= i < |s| ==> s[i] == ToInt(o(i))
  }

  /** The bits packed two to a symbol, high bit first. */
  function Unpack(syms: seq<int>): seq<int> {
    seq(2 * |syms|, i requires 0 <= i < 2 * |syms| => if i % 2 == 0 then syms[i / 2] / 2 else syms[i / 2] % 2)
  }

  type Unsigned = n: nat | n < 0x1_0000_0000

  /** The WACN, the system and the NAC, of 20, 12 and 12 bits, one after another. */
  function Identity(nac: nat, sysid: nat, wacn: nat): (b: seq<int>)
    ensures |b| == 44
  {
    Ints(Bits(wacn, 20) + Bits(sysid, 12) + Bits(nac, 12))
  }

  /** Every bit from the 45th on is the parity of those 4, 9, 15, 20, 34 and 44 places before it. */
  ghost predicate Recurs(s: seq<int>) {
    forall k :: 44 <= k < |s| ==> RecursAt(s, k)
  }

  predicate RecursAt(s: seq<int>, k: nat)
    requires 44 <= k < |s|
  {
    s[k] == (s[k - 4] + s[k - 9] + s[k - 15] + s[k - 20] + s[k - 34] + s[k - 44]) % 2
  }

  lemma MaskParity(seed: nat, o: nat -> bool, k: nat)
    requires IsMask(seed, o) && k >= 44
    ensures ToInt(o(k)) == (ToInt(o(k - 4)) + ToInt(o(k - 9)) + ToInt(o(k - 15)) + ToInt(o(k - 20)) + ToInt(o(k - 34))
                            + ToInt(o(k - 44))) % 2
  {
    assert MaskAt(seed, o, k);
    OddSum(o(k - 4), o(k - 9), o(k - 15), o(k - 20), o(k - 34), o(k - 44));
  }

  /** A mask begins with the bits of its seed and recurs. */
  lemma MaskRecurs(s: seq<int>, seed: nat)
    requires HoldsMask(s, seed) && |s| >= 44
    ensures s[..44] == Ints(Bits(seed, 44)) && Recurs(s)
  {
    hide Bits, ToInt, MaskAt, IsMask;
    var o: nat -> bool :| IsMask(seed, o) && Follows(s, o);
    forall k | 44 <= k < |s| ensures RecursAt(s, k) {
      MaskParity(seed, o, k);
    }
    forall k | 0 <= k < 44 ensures o(k) == Bits(seed, 44)[k] {
      MaskStart(seed, o, k);
    }
    assert s[..44] == Ints(Bits(seed, 44));
  }

  lemma MaskStart(seed: nat, o: nat -> bool, k: nat)
    requires IsMask(seed, o) && k < 44
    ensures o(k) == Bits(seed, 44)[k]
  {
    assert MaskAt(seed, o, k);
  }

  lemma Appended(hi: nat, lo: nat, a: nat, b: nat)
    requires lo < Pow2(b)
    ensures Bits(hi * Pow2(b) + lo, a + b) == Bits(hi, a) + Bits(lo, b)
  {
    hide Bits, Cat, Shl;
    ShlMul(hi, b);
    ShlIsCat(hi, lo, b);
    BitsCat(hi, lo, a, b);
  }

  /** The seed is the three identifiers one after another, if the lower two have 12 bits. */
  lemma SeedBits(nac: nat, sysid: nat, wacn: nat)
    requires nac < 4096 && sysid < 4096
    ensures Ints(Bits(16777216 * wacn + 4096 * sysid + nac, 44)) == Identity(nac, sysid, wacn)
  {
    hide Bits, Cat, Shl;
    assert Pow2(12) == 4096 && Pow2(24) == 16777216;
    Appended(sysid, nac, 12, 12);
    Appended(wacn, 4096 * sysid + nac, 20, 24);
    assert Bits(wacn, 20) + (Bits(sysid, 12) + Bits(nac, 12)) == Bits(wacn, 20) + Bits(sysid, 12) + Bits(nac, 12);
  }

  lemma SeedMask(s: seq<int>, nac: nat, sysid: nat, wacn: nat)
    requires |s| >= 44 && HoldsMask(s, 16777216 * wacn + 4096 * sysid + nac)
    ensures Recurs(s) && (nac < 4096 && sysid < 4096 ==> s[..44] == Identity(nac, sysid, wacn))
  {
    hide HoldsMask, Recurs, Identity;
    MaskRecurs(s, 16777216 * wacn + 4096 * sysid + nac);
    if nac < 4096 && sysid < 4096 { SeedBits(nac, sysid, wacn); }
  }

  class Generator {
    const M: array2<int>
    var xorsyms: array<int>
    var xorChars: string

    ghost predicate MatrixSet()
      reads M
    {
      && M.Length0 == 44 && M.Length1 == 44
      && forall i, j :: 0 <= i < 44 && 0 <= j < 44 ==> M[i, j] == (if InM(i, j) then 1 else 0)
    }

    /** The symbols pair up consecutive bits, first bit high, of the mask of the seed, which
        recurs; where the identifiers have 20, 12 and 12 bits, it begins with those. */
    constructor (nac: Unsigned, sysid: Unsigned, wacn: Unsigned)
      ensures MatrixSet()
      ensures xorsyms.Length == 2160 && |xorChars| == 2160
      ensures HoldsMask(Unpack(xorsyms[..]), 16777216 * wacn + 4096 * sysid + nac) && Recurs(Unpack(xorsyms[..]))
      ensures nac < 4096 && sysid < 4096 ==> forall k :: 0 <= k < 22 ==>
        xorsyms[k] == 2 * Identity(nac, sysid, wacn)[2 * k] + Identity(nac, sysid, wacn)[2 * k + 1]
      ensures forall i :: 0 <= i < 2160 ==> 0 <= xorsyms[i] < 4 && xorChars[i] as int == xorsyms[i]
    {
      M := new int[MSIZE, MSIZE];
      xorsyms := new int[SSIZE / 2];
      xorChars := "";
      new;
      InitMatrix();
      var xorbits := MkXorBits(nac, sysid, wacn);
      ghost var seed := 16777216 * wacn + 4096 * sysid + nac;
      MaskIsBits(xorbits[..], seed);
      PackSymbols(xorbits);
      MaskUnpacked(xorbits[..], xorsyms[..], seed);
      SeedMask(Unpack(xorsyms[..]), nac, sysid, wacn);
      if nac < 4096 && sysid < 4096 { FirstSymbols(xorsyms[..], Identity(nac, sysid, wacn)); }
    }

    method PackSymbols(xorbits: array<int>)
      requires xorbits.Length == 4320 && xorsyms.Length == 2160 && xorsyms != xorbits
      requires forall i :: 0 <= i < 4320 ==> 0 <= xorbits[i] < 2
      modifies xorsyms, `xorChars
      ensures IsPacked(xorbits[..], xorsyms[..])
      ensures |xorChars| == 2160 && forall i :: 0 <= i < 2160 ==> xorChars[i] as int == xorsyms[i]
    {
      var i := 0;
      xorChars := "";
      while i < xorsyms.Length
        invariant 0 <= i <= 2160 && |xorChars| == i
        invariant forall k :: 0 <= k < i ==> xorsyms[k] == 2 * xorbits[2 * k] + xorbits[2 * k + 1]
        invariant forall k :: 0 <= k < i ==> xorChars[k] as int == xorsyms[k]
      {
        xorsyms[i] := xorbits[i * 2] * 2 + xorbits[i * 2 + 1];
        xorChars := xorChars + [(xorsyms[i] % 256) as char];
        i := i + 1;
      }
    }

    method InitMatrix()
      requires M.Length0 == MSIZE && M.Length1 == MSIZE
      modifies M
      ensures MatrixSet()
    {
      for i := 0 to MSIZE
        invariant forall r, c :: 0 <= r < i && 0 <= c < 44 ==> M[r, c] == (if InM(r, c) then 1 else 0)
      {
        for j := 0 to MSIZE
          invariant forall r, c :: 0 <= r < i && 0 <= c < 44 ==> M[r, c] == (if InM(r, c) then 1 else 0)
          invariant forall c :: 0 <= c < j ==> M[i, c] == 0
        {
          M[i, j] := 0;
        }
        M[i, i] := 1;
        if i < MSIZE - 4 { M[i, i + 4] := 1; }
        if i < MSIZE - 9 { M[i, i + 9] := 1; }
        if i < MSIZE - 15 { M[i, i + 15] := 1; }
        if i < MSIZE - 20 { M[i, i + 20] := 1; }
        if i < MSIZE - 34 { M[i, i + 34] := 1; }
      }
    }

    /** The row vector times the matrix. */
    method TimesMatrix(b: seq<int>) returns (p: seq<int>)
      requires MatrixSet() && |b| == 44
      ensures |p| == 44 && forall j :: 0 <= j < 44 ==> p[j] == Product(b, j, 44)
    {
      p := [];
      for j := 0 to 44
        invariant |p| == j && forall c :: 0 <= c < j ==> p[c] == Product(b, c, 44)
      {
        var sum := 0;
        for i := 0 to 44
          invariant sum == Product(b, j, i)
        {
          sum := sum + b[i] * M[i, j];
        }
        p := p + [sum];
      }
    }

    /** The bit vector is the mask of the seed. */
    method MkXorBits(nac: Unsigned, sysid: Unsigned, wacn: Unsigned) returns (s: array<int>)
      requires MatrixSet()
      ensures fresh(s) && s.Length == 4320 && HoldsMask(s[..], 16777216 * wacn + 4096 * sysid + nac)
      ensures Recurs(s[..]) && (nac < 4096 && sysid < 4096 ==> s[..][..44] == Identity(nac, sysid, wacn))
    {
      var n := 16777216 * wacn + 4096 * sysid + nac;
      var reg := MkArray(n, 44);
      var product := TimesMatrix(reg[..]);
      var sreg := MkInt(product);
      ghost var b := Premultiply(Bits(n, 44));
      ProductRegister(product, Bits(n, 44), sreg);
      s := ShiftOut(sreg, b);
      assert Follows(s[..], Outputs(b));
      GaloisRefinesFibonacci(n);
      SeedMask(s[..], nac, sysid, wacn);
    }
  }

  /** The loop that steps the register and keeps the bits that fall out. */
  method ShiftOut(reg: nat, ghost b: Register) returns (s: array<int>)
    requires Bits(reg, 44) == b
    ensures fresh(s) && s.Length == 4320
    ensures forall k {:trigger s[k]} :: 0 <= k < 4320 ==> s[k] == ToInt(Run(b, k)[0])
  {
    s := new int[SSIZE];
    var sreg := reg;
    for i := 0 to SSIZE
      invariant Bits(sreg, 44) == Run(b, i)
      invariant forall k {:trigger s[k]} :: 0 <= k < i ==> s[k] == ToInt(Run(b, k)[0])
    {
      s[i], sreg := ShiftOne(sreg, b, i);
    }
  }

  method ShiftOne(reg: nat, ghost b: Register, ghost i: nat) returns (bit: int, next: nat)
    requires Bits(reg, 44) == Run(b, i)
    ensures bit == ToInt(Run(b, i)[0]) && Bits(next, 44) == Run(b, i + 1)
  {
    TopBit(reg, 44);
    GaloisStepBits(reg);
    bit := And(Shr(reg, 43), 1);
    next := CycReg(reg);
  }

  /** Reading the product back as an integer gives the pre-multiplied register. */
  lemma ProductRegister(product: seq<int>, b: Register, sreg: nat)
    requires |product| == 44 && forall j :: 0 <= j < 44 ==> product[j] == Product(Ints(b), j, 44)
    requires sreg == Val(product)
    ensures Bits(sreg, 44) == Premultiply(b)
  {
    BitsOfVal(product);
    assert Parities(product) == Premultiply(b);
  }

  lemma FirstSymbols(syms: seq<int>, bits: seq<int>)
    requires |syms| >= 22 && |bits| == 44 && Unpack(syms)[..44] == bits
    ensures forall k :: 0 <= k < 22 ==> syms[k] == 2 * bits[2 * k] + bits[2 * k + 1]
  {
    forall k | 0 <= k < 22 ensures syms[k] == 2 * bits[2 * k] + bits[2 * k + 1] {
      assert bits[2 * k] == Unpack(syms)[2 * k] == syms[k] / 2;
      assert bits[2 * k + 1] == Unpack(syms)[2 * k + 1] == syms[k] % 2;
    }
  }

  ghost predicate IsPacked(bits: seq<int>, syms: seq<int>) {
    && |bits| == 2 * |syms|
    && forall k :: 0 <= k < |syms| ==> syms[k] == 2 * bits[2 * k] + bits[2 * k + 1]
  }

  lemma MaskIsBits(s: seq<int>, seed: nat)
    requires HoldsMask(s, seed)
    ensures forall i :: 0 <= i < |s| ==> 0 <= s[i] < 2
  {
    var o: nat -> bool :| IsMask(seed, o) && Follows(s, o);
  }

  lemma MaskUnpacked(bits: seq<int>, syms: seq<int>, seed: nat)
    requires HoldsMask(bits, seed) && IsPacked(bits, syms)
    ensures HoldsMask(Unpack(syms), seed)
    ensures forall k :: 0 <= k < |syms| ==> 0 <= syms[k] < 4
  {
    MaskIsBits(bits, seed);
    forall i | 0 <= i < |bits| ensures Unpack(syms)[i] == bits[i] {
      var k := i / 2;
      assert syms[k] == 2 * bits[2 * k] + bits[2 * k + 1];
    }
    assert Unpack(syms) == bits;
  }
}
