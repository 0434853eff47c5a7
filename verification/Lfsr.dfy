/** The scrambling-mask generator for P25 Phase 2 (lib/lfsr/lfsr.cxx).

    The register is stepped in Galois form on six packed fields, after the seed
    has been multiplied by the matrix M.  The main result is that the bits that
    come out obey the plain Fibonacci recurrence started from the seed itself. */
module Lfsr {
  import opened Words
  import opened BitUtils

  const MSIZE: nat := 44
  const SSIZE: nat := 4320

  // ---------------------------------------------------------------- the specification

  /** The XOR of the elements of o that lie 4, 9, 15, 20 and 34 places before
      place k, leaving out those more than m places back. */
  predicate Feedback(o: nat -> bool, k: nat, m: nat)
    requires m <= k
  {
    (m >= 4 && o(k - 4)) != ((m >= 9 && o(k - 9)) != ((m >= 15 && o(k - 15))
      != ((m >= 20 && o(k - 20)) != (m >= 34 && o(k - 34)))))
  }

  /** A sequence that starts with the bits of the seed, most significant first,
      and where every later bit is the XOR of the bits 4, 9, 15, 20, 34 and 44
      places earlier. */
  ghost predicate IsMask(seed: nat, o: nat -> bool) {
    forall k: nat :: MaskAt(seed, o, k)
  }

  predicate MaskAt(seed: nat, o: nat -> bool, k: nat) {
    if k < 44 then o(k) == Bits(seed, 44)[k]
    else o(k) == (o(k - 44) != Feedback(o, k, 43))
  }

  /** x^40 + x^35 + x^29 + x^24 + x^10 + 1 */
  const POLY: nat := 0x0108_2100_0401

  /** One step of the register, said as arithmetic: shift left inside 44 bits
      and XOR the polynomial in when a one falls out. */
  function GaloisStep(reg: nat): nat {
    Xor(Low(2 * reg, 44), if Bits(reg, 44)[0] then POLY else 0)
  }

  // ---------------------------------------------------------------- registers as bit vectors

  type Register = b: seq<bool> | |b| == 44 witness seq(44, _ => false)

  /** The places, counted from the top, that the outgoing bit is fed back into. */
  predicate IsTap(j: nat) { j == 3 || j == 8 || j == 14 || j == 19 || j == 33 }

  function Step(b: Register): (r: Register) {
    seq(44, j requires 0 <= j < 44 => if j == 43 then b[0] else b[j + 1] != (IsTap(j) && b[0]))
  }

  function Unstep(b: Register): (r: Register) {
    seq(44, j requires 0 <= j < 44 => if j == 0 then b[43] else b[j - 1] != (IsTap(j - 1) && b[43]))
  }

  function Run(b: Register, k: nat): Register {
    if k == 0 then b else Step(Run(b, k - 1))
  }

  /** Stepping is a bijection on registers. */
  lemma StepBijective(b: Register)
    ensures Unstep(Step(b)) == b && Step(Unstep(b)) == b
  {
    var s, u := Step(b), Unstep(b);
    forall j | 0 <= j < 44
      ensures Unstep(s)[j] == b[j] && Step(u)[j] == b[j]
    {
    }
  }

  function XorReg(a: Register, b: Register): Register {
    seq(44, j requires 0 <= j < 44 => a[j] != b[j])
  }

  /** Stepping is linear over GF(2), at every length of run. */
  lemma {:induction false} RunLinear(a: Register, b: Register, k: nat)
    ensures Run(XorReg(a, b), k) == XorReg(Run(a, k), Run(b, k))
  {
    if k > 0 {
      RunLinear(a, b, k - 1);
      StepLinear(Run(a, k - 1), Run(b, k - 1));
    }
  }

  lemma StepLinear(a: Register, b: Register)
    ensures Step(XorReg(a, b)) == XorReg(Step(a), Step(b))
  {
    forall j | 0 <= j < 44
      ensures Step(XorReg(a, b))[j] == XorReg(Step(a), Step(b))[j]
    {
    }
  }

  const ZERO: Register := seq(44, _ => false)

  /** A register that is not all zero never becomes all zero. */
  lemma {:induction false} NeverZero(b: Register, k: nat)
    requires b != ZERO
    ensures Run(b, k) != ZERO
  {
    if k > 0 {
      NeverZero(b, k - 1);
      assert Unstep(ZERO) == ZERO;
      StepBijective(Run(b, k - 1));
    }
  }

  // ---------------------------------------------------------------- Galois against Fibonacci

  /** The stream of bits that fall out of a register. */
  function Outputs(b: Register): nat -> bool {
    (k: nat) => Run(b, k)[0]
  }

  lemma FeedbackStep(o: nat -> bool, k: nat, m: nat)
    requires 0 < m <= k
    ensures Feedback(o, k, m) == (Feedback(o, k, m - 1) != (IsTap(m - 1) && o(k - m)))
  {
  }

  /** Output k is the bit that sat m places down m steps earlier, XORed with the
      feedback it collected since. */
  lemma {:induction false} Telescope(b: Register, k: nat, m: nat)
    requires m <= k && m <= 43
    ensures Outputs(b)(k) == (Run(b, k - m)[m] != Feedback(Outputs(b), k, m))
  {
    if m > 0 {
      Telescope(b, k, m - 1);
      FeedbackStep(Outputs(b), k, m);
      var r := Run(b, k - m);
      assert Run(b, k - m + 1) == Step(r);
      assert Step(r)[m - 1] == (r[m] != (IsTap(m - 1) && r[0]));
      assert r[0] == Outputs(b)(k - m);
    }
  }

  /** Far enough in, the Galois output obeys the Fibonacci recurrence; before
      that it is the register's own bit plus the outputs already out. */
  lemma OutRecurrence(b: Register, k: nat)
    ensures k < 44 ==> Outputs(b)(k) == (b[k] != Feedback(Outputs(b), k, k))
    ensures k >= 44 ==> Outputs(b)(k) == (Outputs(b)(k - 44) != Feedback(Outputs(b), k, 43))
  {
    if k < 44 {
      Telescope(b, k, k);
    } else {
      Telescope(b, k, 43);
      assert Run(b, k - 43)[43] == Step(Run(b, k - 44))[43] == Run(b, k - 44)[0];
    }
  }

  // ---------------------------------------------------------------- the matrix

  /** Entry (i, j) of M. */
  predicate InM(i: nat, j: nat) {
    j == i || j == i + 4 || j == i + 9 || j == i + 15 || j == i + 20 || j == i + 34
  }

  /** The first n terms of entry j of the row vector b times M. */
  function Product(b: seq<int>, j: nat, n: nat): int
    requires n <= |b|
  {
    if n == 0 then 0 else Product(b, j, n - 1) + (if InM(n - 1, j) then b[n - 1] else 0)
  }

  /** The pre-multiplied seed. */
  function Premultiply(b: Register): Register {
    seq(44, j requires 0 <= j < 44 => Odd(Product(Ints(b), j, 44)))
  }

  /** Column j of M picks out the elements 0, 4, 9, 15, 20 and 34 places back. */
  lemma {:induction false} ProductTerms(b: seq<int>, j: nat, n: nat)
    requires |b| == 44 && n <= 44 && j < 44
    ensures Product(b, j, n) == (if j < n then b[j] else 0)
      + (if j >= 4 && j - 4 < n then b[j - 4] else 0) + (if j >= 9 && j - 9 < n then b[j - 9] else 0)
      + (if j >= 15 && j - 15 < n then b[j - 15] else 0) + (if j >= 20 && j - 20 < n then b[j - 20] else 0)
      + (if j >= 34 && j - 34 < n then b[j - 34] else 0)
  {
    if n > 0 { ProductTerms(b, j, n - 1); }
  }

  lemma OddAdd(x: int, b: bool)
    ensures Odd(x + ToInt(b)) == (Odd(x) != b)
  {
  }

  lemma OddSum(a: bool, b: bool, c: bool, d: bool, e: bool, f: bool)
    ensures Odd(ToInt(a) + ToInt(b) + ToInt(c) + ToInt(d) + ToInt(e) + ToInt(f))
      == (a != (b != (c != (d != (e != f)))))
  {
    OddAdd(ToInt(a), b);
    OddAdd(ToInt(a) + ToInt(b), c);
    OddAdd(ToInt(a) + ToInt(b) + ToInt(c), d);
    OddAdd(ToInt(a) + ToInt(b) + ToInt(c) + ToInt(d), e);
    OddAdd(ToInt(a) + ToInt(b) + ToInt(c) + ToInt(d) + ToInt(e), f);
  }

  /** The parity of column j is the bit itself XORed with the bits that the
      feedback of a stream equal to the seed would bring. */
  lemma PremultiplyBit(s: Register, j: nat)
    requires j < 44
    ensures Premultiply(s)[j] == (s[j] != ((j >= 4 && s[j - 4]) != ((j >= 9 && s[j - 9])
      != ((j >= 15 && s[j - 15]) != ((j >= 20 && s[j - 20]) != (j >= 34 && s[j - 34]))))))
  {
    ProductTerms(Ints(s), j, 44);
    OddSum(s[j], j >= 4 && s[j - 4], j >= 9 && s[j - 9], j >= 15 && s[j - 15],
           j >= 20 && s[j - 20], j >= 34 && s[j - 34]);
  }

  /** The Galois register started from seed times M puts out exactly the
      Fibonacci sequence of the seed, for ever. */
  lemma GaloisRefinesFibonacci(seed: nat)
    ensures IsMask(seed, Outputs(Premultiply(Bits(seed, 44))))
  {
    var b := Premultiply(Bits(seed, 44));
    forall k: nat ensures MaskAt(seed, Outputs(b), k) {
      if k < 44 {
        FirstOutputs(seed, k);
      } else {
        OutRecurrence(b, k);
      }
    }
  }

  /** M undoes the feedback during the first 44 steps. */
  lemma {:induction false} FirstOutputs(seed: nat, k: nat)
    requires k < 44
    ensures Outputs(Premultiply(Bits(seed, 44)))(k) == Bits(seed, 44)[k]
  {
    var s: Register := Bits(seed, 44);
    var o := Outputs(Premultiply(s));
    if k >= 4 { FirstOutputs(seed, k - 4); }
    if k >= 9 { FirstOutputs(seed, k - 9); }
    if k >= 15 { FirstOutputs(seed, k - 15); }
    if k >= 20 { FirstOutputs(seed, k - 20); }
    if k >= 34 { FirstOutputs(seed, k - 34); }
    OutRecurrence(Premultiply(s), k);
    PremultiplyBit(s, k);
  }

  // ---------------------------------------------------------------- consequences for masks

  /** A mask is determined by the low 44 bits of its seed. */
  lemma {:induction false} MaskUnique(a: nat, b: nat, o: nat -> bool, p: nat -> bool, k: nat)
    requires IsMask(a, o) && IsMask(b, p) && Low(a, 44) == Low(b, 44)
    ensures o(k) == p(k)
  {
    assert MaskAt(a, o, k) && MaskAt(b, p, k);
    if k < 44 {
      BitsLow(a, 44);
      BitsLow(b, 44);
    } else {
      MaskUnique(a, b, o, p, k - 4);
      MaskUnique(a, b, o, p, k - 9);
      MaskUnique(a, b, o, p, k - 15);
      MaskUnique(a, b, o, p, k - 20);
      MaskUnique(a, b, o, p, k - 34);
      MaskUnique(a, b, o, p, k - 44);
    }
  }

  /** Two seeds with the same first 44 mask bits have the same low 44 bits, so
      distinct 44-bit seeds have distinct masks. */
  lemma MaskInjective(a: nat, b: nat, o: nat -> bool, p: nat -> bool)
    requires IsMask(a, o) && IsMask(b, p)
    requires forall k: nat :: k < 44 ==> o(k) == p(k)
    ensures Low(a, 44) == Low(b, 44)
  {
    forall k: nat | k < 44 ensures Bits(a, 44)[k] == Bits(b, 44)[k] {
      assert MaskAt(a, o, k) && MaskAt(b, p, k);
    }
    assert Bits(a, 44) == Bits(b, 44);
    ValOfBits(a, 44);
    ValOfBits(b, 44);
  }

  /** The mask of two seeds XORed is the XOR of their masks. */
  lemma MaskLinear(a: nat, b: nat, o: nat -> bool, p: nat -> bool)
    requires IsMask(a, o) && IsMask(b, p)
    ensures IsMask(Xor(a, b), (k: nat) => o(k) != p(k))
  {
    var q := (k: nat) => o(k) != p(k);
    forall k: nat ensures MaskAt(Xor(a, b), q, k) {
      assert MaskAt(a, o, k) && MaskAt(b, p, k);
      if k < 44 {
        BitsXor(a, b, 44, k);
      }
    }
  }
}
