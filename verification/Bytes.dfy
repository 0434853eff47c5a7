/** Machine words in memory, for either byte order. */
module Bytes {
  import opened Common
  import opened Words

  datatype Endian = Little | Big

  /** The word that a run of bytes holds. */
  function FromBytes(e: Endian, bs: seq<Byte>): nat {
    if bs == [] then 0
    else if e.Little? then Cat(FromBytes(e, bs[1..]), bs[0], 8)
    else Cat(FromBytes(e, bs[..|bs| - 1]), bs[|bs| - 1], 8)
  }

  /** The n bytes in which a word is stored. */
  function ToBytes(e: Endian, w: nat, n: nat): (bs: seq<Byte>)
    ensures |bs| == n
    decreases n
  {
    assert Pow2(8) == 256;
    if n == 0 then []
    else if e.Little? then [Low(w, 8)] + ToBytes(e, Shr(w, 8), n - 1)
    else ToBytes(e, Shr(w, 8), n - 1) + [Low(w, 8)]
  }

  lemma ByteValues()
    ensures Pow2(8) == 256
  {
  }

  lemma {:induction false} StoreLoad(e: Endian, bs: seq<Byte>)
    ensures ToBytes(e, FromBytes(e, bs), |bs|) == bs
  {
    hide Cat, Low, Shr, Pow2;
    if bs != [] {
      ByteValues();
      var n := |bs| - 1;
      if e.Little? {
        StoreLoad(e, bs[1..]);
        CatInverse(FromBytes(e, bs[1..]), bs[0], 8);
      } else {
        StoreLoad(e, bs[..n]);
        CatInverse(FromBytes(e, bs[..n]), bs[n], 8);
      }
    }
  }

  lemma {:induction false} LoadStore(e: Endian, w: nat, n: nat)
    requires w < Pow2(8 * n)
    ensures FromBytes(e, ToBytes(e, w, n)) == w
    decreases n
  {
    if n > 0 {
      CatParts(w, 8);
      ShrBound(w, 8, 8 * (n - 1));
      LoadStore(e, Shr(w, 8), n - 1);
      var bs := ToBytes(e, w, n);
      if e.Little? {
        assert bs[1..] == ToBytes(e, Shr(w, 8), n - 1);
      } else {
        assert bs[..n - 1] == ToBytes(e, Shr(w, 8), n - 1);
      }
    }
  }

  lemma {:induction false} ShrBound(w: nat, j: nat, k: nat)
    requires w < Pow2(j + k)
    ensures Shr(w, j) < Pow2(k)
  {
    if j > 0 { ShrBound(w / 2, j - 1, k); }
  }

  lemma {:induction false} FromBytesBound(e: Endian, bs: seq<Byte>)
    ensures FromBytes(e, bs) < Pow2(8 * |bs|)
  {
    if bs != [] {
      var n := |bs| - 1;
      if e.Little? {
        FromBytesBound(e, bs[1..]);
        CatBound(FromBytes(e, bs[1..]), bs[0], 8 * n, 8);
      } else {
        FromBytesBound(e, bs[..n]);
        CatBound(FromBytes(e, bs[..n]), bs[n], 8 * n, 8);
      }
    }
  }

  function XorBytes(a: seq<Byte>, b: seq<Byte>): (c: seq<Byte>)
    requires |a| == |b|
    ensures |c| == |a|
  {
    seq(|a|, i requires 0 <= i < |a| => XorByte(a[i], b[i]))
  }

  function XorByte(a: Byte, b: Byte): Byte {
    assert Pow2(8) == 256;
    XorBound(a, b, 8);
    Xor(a, b)
  }

  /** XOR of two words is XOR of their bytes, whatever the byte order. */
  lemma {:induction false} XorIsBytewise(e: Endian, a: seq<Byte>, b: seq<Byte>)
    requires |a| == |b|
    ensures Xor(FromBytes(e, a), FromBytes(e, b)) == FromBytes(e, XorBytes(a, b))
  {
    if a == [] {
    } else {
      assert Pow2(8) == 256;
      var n := |a| - 1;
      if e.Little? {
        XorIsBytewise(e, a[1..], b[1..]);
        XorCat(FromBytes(e, a[1..]), a[0], FromBytes(e, b[1..]), b[0], 8);
        assert XorBytes(a, b)[1..] == XorBytes(a[1..], b[1..]);
      } else {
        XorIsBytewise(e, a[..n], b[..n]);
        XorCat(FromBytes(e, a[..n]), a[n], FromBytes(e, b[..n]), b[n], 8);
        assert XorBytes(a, b)[..n] == XorBytes(a[..n], b[..n]);
      }
    }
  }

  /** A word put together from two parts of whole bytes has the bytes of both. */
  lemma {:induction false} CatBytes(e: Endian, hi: nat, lo: nat, n: nat, m: nat)
    requires lo < Pow2(8 * m)
    ensures ToBytes(e, Cat(hi, lo, 8 * m), n + m)
      == if e.Little? then ToBytes(e, lo, m) + ToBytes(e, hi, n) else ToBytes(e, hi, n) + ToBytes(e, lo, m)
    decreases m
  {
    if m > 0 {
      var l, b := Shr(lo, 8), Low(lo, 8);
      ShrBound(lo, 8, 8 * (m - 1));
      CatParts(lo, 8);
      CatAssoc(hi, l, b, 8 * (m - 1), 8);
      CatBytes(e, hi, l, n, m - 1);
      PushByte(e, Cat(hi, l, 8 * (m - 1)), b, n + m);
      PushByte(e, l, b, m);
    }
  }

  lemma PushByte(e: Endian, w: nat, b: nat, n: nat)
    requires n > 0 && b < Pow2(8)
    ensures b < 256 && ToBytes(e, Cat(w, b, 8), n)
      == if e.Little? then [b] + ToBytes(e, w, n - 1) else ToBytes(e, w, n - 1) + [b]
  {
    assert Pow2(8) == 256;
    CatInverse(w, b, 8);
  }

  lemma {:induction false} CatAssoc(a: nat, b: nat, c: nat, j: nat, k: nat)
    requires c < Pow2(k)
    ensures Cat(a, Cat(b, c, k), j + k) == Cat(Cat(a, b, j), c, k)
  {
    if k > 0 {
      CatAssoc(a, b, c / 2, j, k - 1);
      CatStep(b, c, k);
    }
  }
}
