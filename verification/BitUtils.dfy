/** Conversions between unsigned integers and bit vectors (lib/lfsr/bit_utils.h). */
module BitUtils {
  import opened Words

  /** The low l bits of n, most significant first. */
  function Bits(n: nat, l: nat): (b: seq<bool>)
    ensures |b| == l
  {
    if l == 0 then [] else Bits(n / 2, l - 1) + [Odd(n)]
  }

  predicate Odd(n: int) { n % 2 == 1 }

  function ToInt(b: bool): nat { if b then 1 else 0 }

  function Ints(b: seq<bool>): (a: seq<int>) {
    seq(|b|, i requires 0 <= i < |b| => ToInt(b[i]))
  }

  function Parities(a: seq<int>): (b: seq<bool>) {
    seq(|a|, i requires 0 <= i < |a| => Odd(a[i]))
  }

  /** The number whose binary digits are the parities of the elements of a,
      cut to 64 bits. */
  function Val(a: seq<int>): nat {
    if a == [] then 0 else (2 * Val(a[..|a| - 1]) + ToInt(Odd(a[|a| - 1]))) % U64
  }

  method MkArray(n: nat, l: nat) returns (a: array<int>)
    ensures fresh(a) && a[..] == Ints(Bits(n, l))
  {
    a := new int[l];
    var rest := n;
    var i := l - 1;
    while i >= 0
      invariant -1 <= i < l
      invariant Ints(Bits(rest, i + 1)) + a[i + 1..] == Ints(Bits(n, l))
    {
      a[i] := And(rest, 1);
      AndOne(rest);
      assert Ints(Bits(rest, i + 1)) == Ints(Bits(rest / 2, i)) + [a[i]];
      assert a[i..] == [a[i]] + a[i + 1..];
      rest := rest / 2;
      i := i - 1;
    }
    assert a[0..] == a[..];
  }

  method MkInt(a: seq<int>) returns (res: nat)
    ensures res == Val(a)
  {
    res := 0;
    for i := 0 to |a|
      invariant res == Val(a[..i]) && res < U64
    {
      assert a[..i + 1][..i] == a[..i];
      res := res * 2;
      res := (res + a[i] % 2) % U64;
    }
    assert a[..|a|] == a;
  }

  lemma AndOne(n: nat)
    ensures And(n, 1) == ToInt(Odd(n))
  {
    AndMask(n, 1);
    assert Pow2(1) == 2;
  }

  lemma {:induction false} ValStep(a: seq<int>)
    requires 0 < |a| <= 63
    ensures Val(a) == 2 * Val(a[..|a| - 1]) + ToInt(Odd(a[|a| - 1]))
    ensures Val(a) < Pow2(|a|)
  {
    var n := |a| - 1;
    if n > 0 { ValStep(a[..n]); }
    Pow2Word(n + 1);
  }

  lemma {:induction false} Pow2Word(k: nat)
    requires k <= 64
    ensures Pow2(k) <= U64
  {
    Pow2Mono(k, 64);
    Pow2Value();
  }

  lemma Pow2Value()
    ensures Pow2(64) == U64
  {
    assert Pow2(8) == 0x100;
    Pow2Add(8, 8);
    Pow2Add(16, 16);
    Pow2Add(32, 32);
  }

  lemma {:induction false} Pow2Mono(j: nat, k: nat)
    requires j <= k
    ensures Pow2(j) <= Pow2(k)
  {
    if j < k { Pow2Mono(j, k - 1); }
  }

  /** Packing the low bits of a number gives the number modulo 2^l ... */
  lemma {:induction false} ValOfBits(n: nat, l: nat)
    requires l <= 63
    ensures Val(Ints(Bits(n, l))) == Low(n, l)
  {
    hide Pow2;
    if l > 0 {
      var a := Ints(Bits(n, l));
      ValOfBits(n / 2, l - 1);
      ValStep(a);
      assert a[..l - 1] == Ints(Bits(n / 2, l - 1));
    }
  }

  /** ... and unpacking a packed vector gives back its parities. */
  lemma {:induction false} BitsOfVal(a: seq<int>)
    requires |a| <= 63
    ensures Bits(Val(a), |a|) == Parities(a)
  {
    if a != [] {
      var n := |a| - 1;
      BitsOfVal(a[..n]);
      ValStep(a);
      BitsDouble(Val(a[..n]), Odd(a[n]), n + 1);
      assert Parities(a) == Parities(a[..n]) + [Odd(a[n])];
    }
  }

  lemma BitsDouble(m: nat, bit: bool, w: nat)
    requires w > 0
    ensures Bits(2 * m + ToInt(bit), w) == Bits(m, w - 1) + [bit]
  {
    assert (2 * m + ToInt(bit)) / 2 == m && Odd(2 * m + ToInt(bit)) == bit;
  }

  lemma {:induction false} BitsCat(hi: nat, lo: nat, a: nat, b: nat)
    ensures Bits(Cat(hi, lo, b), a + b) == Bits(hi, a) + Bits(lo, b)
  {
    if b > 0 {
      var c := Cat(hi, lo / 2, b - 1);
      BitsCat(hi, lo / 2, a, b - 1);
      BitsDouble(c, Odd(lo), a + b);
      assert Cat(hi, lo, b) == 2 * c + ToInt(Odd(lo));
    }
  }

  /** A number split at bit b has the bits of its two parts. */
  lemma BitsSplit(n: nat, a: nat, b: nat)
    ensures Bits(n, a + b) == Bits(Shr(n, b), a) + Bits(Low(n, b), b)
  {
    CatParts(n, b);
    BitsCat(Shr(n, b), Low(n, b), a, b);
  }

  lemma CatBit(hi: nat, lo: nat, a: nat, b: nat, j: nat)
    requires j < a + b
    ensures Bits(Cat(hi, lo, b), a + b)[j] == if j < a then Bits(hi, a)[j] else Bits(lo, b)[j - a]
  {
    BitsCat(hi, lo, a, b);
  }

  lemma SplitBit(n: nat, a: nat, b: nat, j: nat)
    requires j < a + b
    ensures Bits(n, a + b)[j] == if j < a then Bits(Shr(n, b), a)[j] else Bits(n, b)[j - a]
  {
    CatParts(n, b);
    CatBit(Shr(n, b), Low(n, b), a, b, j);
    BitsLow(n, b);
  }

  lemma {:induction false} BitsLow(n: nat, l: nat)
    ensures Bits(Low(n, l), l) == Bits(n, l)
  {
    if l > 0 {
      BitsLow(n / 2, l - 1);
      BitsDouble(Low(n / 2, l - 1), Odd(n), l);
    }
  }

  lemma {:induction false} BitsXor(a: nat, b: nat, l: nat, i: nat)
    requires i < l
    ensures Bits(Xor(a, b), l)[i] == (Bits(a, l)[i] != Bits(b, l)[i])
  {
    XorHalf(a, b);
    if i < l - 1 { BitsXor(a / 2, b / 2, l - 1, i); }
  }

  lemma BitsTail(n: nat, w: nat)
    requires w > 0
    ensures Bits(n, w)[1..] == Bits(n, w - 1)
  {
    BitsSplit(n, 1, w - 1);
    BitsLow(n, w - 1);
  }
}
