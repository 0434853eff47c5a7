/** WebSocket frame headers (lib/websocketpp/frame.hpp; RFC 6455, section 5.2):
    building, serialising and reading back. */
module WsHeader {
  import opened Common
  import opened Words
  import opened Bytes

  const PAYLOAD_SIZE_BASIC: nat := 125
  const PAYLOAD_SIZE_EXTENDED: nat := 0xFFFF
  const PAYLOAD_SIZE_JUMBO: nat := 0x7FFF_FFFF_FFFF_FFFF
  const SIZE_CODE_16BIT: nat := 0x7E
  const SIZE_CODE_64BIT: nat := 0x7F
  const MAX_EXTENDED_HEADER_LENGTH: nat := 12

  type Size = n: nat | n < U64

  // ---------------------------------------------------------------- single bits

  predicate TestBit(b: nat, k: nat) {
    if k == 0 then b % 2 == 1 else TestBit(b / 2, k - 1)
  }

  lemma {:induction false} OrBits(a: nat, b: nat, k: nat)
    ensures TestBit(Or(a, b), k) == (TestBit(a, k) || TestBit(b, k))
  {
    hide Or;
    OrStep(a, b);
    if k > 0 { OrBits(a / 2, b / 2, k - 1); }
  }

  lemma {:induction false} AndBits(a: nat, b: nat, k: nat)
    ensures TestBit(And(a, b), k) == (TestBit(a, k) && TestBit(b, k))
  {
    hide And;
    AndStep(a, b);
    if k > 0 { AndBits(a / 2, b / 2, k - 1); }
  }

  lemma {:induction false} PowerBits(j: nat, k: nat)
    ensures TestBit(Pow2(j), k) == (j == k)
  {
    if j == 0 {
      if k > 0 { ZeroBits(k - 1); }
    } else if k > 0 {
      PowerBits(j - 1, k - 1);
    }
  }

  lemma {:induction false} ZeroBits(k: nat)
    ensures !TestBit(0, k)
  {
    if k > 0 { ZeroBits(k - 1); }
  }

  /** ANDing with a single-bit mask leaves the mask exactly when the bit is set. */
  lemma {:induction false} MaskTest(b: nat, k: nat)
    ensures (And(b, Pow2(k)) == Pow2(k)) == TestBit(b, k)
    ensures And(b, Pow2(k)) == 0 || And(b, Pow2(k)) == Pow2(k)
  {
    AndStep(b, Pow2(k));
    if k > 0 {
      MaskTest(b / 2, k - 1);
    } else {
      AndZero(b / 2);
    }
  }

  /** Numbers with the same low n bits agree modulo 2^n. */
  lemma {:induction false} SameBits(a: nat, b: nat, n: nat)
    requires forall k :: 0 <= k < n ==> TestBit(a, k) == TestBit(b, k)
    ensures Low(a, n) == Low(b, n)
  {
    if n > 0 {
      forall k | 0 <= k < n - 1 ensures TestBit(a / 2, k) == TestBit(b / 2, k) {
        assert TestBit(a, k + 1) == TestBit(b, k + 1);
      }
      SameBits(a / 2, b / 2, n - 1);
      assert TestBit(a, 0) == TestBit(b, 0);
    }
  }

  lemma {:induction false} LowBits(a: nat, n: nat, k: nat)
    requires k < n
    ensures TestBit(Low(a, n), k) == TestBit(a, k)
  {
    if k > 0 {
      assert Low(a, n) / 2 == Low(a / 2, n - 1);
      LowBits(a / 2, n - 1, k - 1);
    }
  }

  // ---------------------------------------------------------------- first byte

  /** The first byte as the constructor ORs it together. */
  function FirstByte(op: nat, fin: bool, rsv1: bool, rsv2: bool, rsv3: bool): nat {
    var b := 0;
    var b := if fin then Or(b, 0x80) else b;
    var b := if rsv1 then Or(b, 0x40) else b;
    var b := if rsv2 then Or(b, 0x20) else b;
    var b := if rsv3 then Or(b, 0x10) else b;
    Or(b, And(op, 0x0F))
  }

  /** Bit k of a byte with mask m = 2^k, as the getters test it. */
  predicate GetFlag(b: nat, mask: nat) { And(b, mask) == mask }

  function SetFlag(b: nat, mask: nat, value: bool): nat
    requires mask < 256
  {
    if value then Or(b, mask) else And(b, 255 - mask)
  }

  function GetOpcode(b0: nat): nat { And(b0, 0x0F) }

  lemma Powers()
    ensures Pow2(0) == 1 && Pow2(1) == 2 && Pow2(2) == 4 && Pow2(3) == 8
    ensures Pow2(4) == 0x10 && Pow2(5) == 0x20 && Pow2(6) == 0x40 && Pow2(7) == 0x80 && Pow2(8) == 0x100
  {
  }

  lemma FlagBit(b: nat, k: nat)
    ensures GetFlag(b, Pow2(k)) == TestBit(b, k)
  {
    MaskTest(b, k);
  }

  lemma OrFlag(b: nat, on: bool, j: nat, k: nat)
    ensures TestBit(if on then Or(b, Pow2(j)) else b, k) == (TestBit(b, k) || (on && j == k))
  {
    OrBits(b, Pow2(j), k);
    PowerBits(j, k);
  }

  /** Bit k of the first byte. */
  lemma FirstByteBits(op: nat, fin: bool, rsv1: bool, rsv2: bool, rsv3: bool, k: nat)
    ensures TestBit(FirstByte(op, fin, rsv1, rsv2, rsv3), k)
      == ((fin && k == 7) || (rsv1 && k == 6) || (rsv2 && k == 5) || (rsv3 && k == 4) || (k < 4 && TestBit(op, k)))
  {
    Powers();
    ZeroBits(k);
    var b1 := if fin then Or(0, Pow2(7)) else 0;
    OrFlag(0, fin, 7, k);
    var b2 := if rsv1 then Or(b1, Pow2(6)) else b1;
    OrFlag(b1, rsv1, 6, k);
    var b3 := if rsv2 then Or(b2, Pow2(5)) else b2;
    OrFlag(b2, rsv2, 5, k);
    var b4 := if rsv3 then Or(b3, Pow2(4)) else b3;
    OrFlag(b3, rsv3, 4, k);
    OrBits(b4, And(op, 15), k);
    NibbleBits(op, k);
  }

  lemma NibbleBits(op: nat, k: nat)
    ensures TestBit(And(op, 15), k) == (k < 4 && TestBit(op, k))
  {
    AndBits(op, 15, k);
    OnesBits(4, k);
    Powers();
  }

  lemma {:induction false} OnesBits(n: nat, k: nat)
    ensures TestBit(Pow2(n) - 1, k) == (k < n)
  {
    if n == 0 {
      ZeroBits(k);
    } else if k > 0 {
      OnesBits(n - 1, k - 1);
      assert (Pow2(n) - 1) / 2 == Pow2(n - 1) - 1;
    }
  }

  /** The constructor's flags and opcode come back out of the first byte. */
  lemma FirstByteReadsBack(op: nat, fin: bool, rsv1: bool, rsv2: bool, rsv3: bool)
    ensures var b := FirstByte(op, fin, rsv1, rsv2, rsv3);
      && GetFlag(b, 0x80) == fin && GetFlag(b, 0x40) == rsv1 && GetFlag(b, 0x20) == rsv2 && GetFlag(b, 0x10) == rsv3
      && GetOpcode(b) == Low(op, 4)
  {
    var b := FirstByte(op, fin, rsv1, rsv2, rsv3);
    Powers();
    forall k | 4 <= k < 8 ensures GetFlag(b, Pow2(k)) == TestBit(b, k) { FlagBit(b, k); }
    FirstByteBits(op, fin, rsv1, rsv2, rsv3, 7);
    FirstByteBits(op, fin, rsv1, rsv2, rsv3, 6);
    FirstByteBits(op, fin, rsv1, rsv2, rsv3, 5);
    FirstByteBits(op, fin, rsv1, rsv2, rsv3, 4);
    OpcodeReadsBack(op, fin, rsv1, rsv2, rsv3);
  }

  lemma OpcodeReadsBack(op: nat, fin: bool, rsv1: bool, rsv2: bool, rsv3: bool)
    ensures GetOpcode(FirstByte(op, fin, rsv1, rsv2, rsv3)) == Low(op, 4)
  {
    var b := FirstByte(op, fin, rsv1, rsv2, rsv3);
    forall k | 0 <= k < 4 ensures TestBit(b, k) == TestBit(op, k) {
      FirstByteBits(op, fin, rsv1, rsv2, rsv3, k);
    }
    SameBits(b, op, 4);
    Powers();
    AndMask(b, 4);
  }

  /** Setting a flag changes that flag and no other bit of the byte. */
  lemma SetFlagBits(b: nat, j: nat, value: bool, k: nat)
    requires j < 8 && k < 8
    ensures Pow2(j) < 256
    ensures TestBit(SetFlag(b, Pow2(j), value), k) == if j == k then value else TestBit(b, k)
  {
    Powers();
    assert Pow2(j) < 256 by { BytePower(j); }
    if value {
      OrBits(b, Pow2(j), k);
      PowerBits(j, k);
    } else {
      AndBits(b, 255 - Pow2(j), k);
      ComplementBits(8, j, k);
    }
  }

  lemma {:induction false} BytePower(j: nat)
    requires j < 8
    ensures Pow2(j) < 256
  {
    if j > 0 { Powers(); }
  }

  lemma {:induction false} ComplementBits(n: nat, j: nat, k: nat)
    requires j < n && k < n
    ensures Pow2(j) <= Pow2(n) - 1
    ensures TestBit(Pow2(n) - 1 - Pow2(j), k) == (j != k)
  {
    if j == 0 {
      if k > 0 {
        OnesBits(n - 1, k - 1);
        assert (Pow2(n) - 2) / 2 == Pow2(n - 1) - 1;
      }
    } else if k > 0 {
      ComplementBits(n - 1, j - 1, k - 1);
      assert (Pow2(n) - 1 - Pow2(j)) / 2 == Pow2(n - 1) - 1 - Pow2(j - 1);
    } else {
      ComplementBits(n - 1, j - 1, 0);
    }
  }

  // ---------------------------------------------------------------- second byte

  /** The seven-bit size field: the size itself, or the code for a longer form. */
  function SizeCode(size: Size): (c: nat)
    ensures c < 128
  {
    if size <= PAYLOAD_SIZE_BASIC then size
    else if size <= PAYLOAD_SIZE_EXTENDED then SIZE_CODE_16BIT
    else SIZE_CODE_64BIT
  }

  function SecondByte(size: Size, mask: bool): nat {
    Or(if mask then Or(0, 0x80) else 0, SizeCode(size))
  }

  function GetBasicSize(b1: nat): nat { And(b1, 0x7F) }

  function GetMaskingKeyOffset(b1: nat): nat {
    if GetBasicSize(b1) == SIZE_CODE_16BIT then 2
    else if GetBasicSize(b1) == SIZE_CODE_64BIT then 8
    else 0
  }

  function GetHeaderLen(b1: nat): nat {
    2 + GetMaskingKeyOffset(b1) + (if GetFlag(b1, 0x80) then 4 else 0)
  }

  lemma SecondByteReadsBack(size: Size, mask: bool)
    ensures GetFlag(SecondByte(size, mask), 0x80) == mask
    ensures GetBasicSize(SecondByte(size, mask)) == SizeCode(size)
  {
    Powers();
    var b, c := SecondByte(size, mask), SizeCode(size);
    LowSmall(c, 7);
    forall k | 0 <= k < 8 ensures TestBit(b, k) == if k < 7 then TestBit(c, k) else mask {
      SecondByteBits(size, mask, k);
    }
    FlagBit(b, 7);
    SameBits(b, c, 7);
    AndMask(b, 7);
  }

  lemma SecondByteBits(size: Size, mask: bool, k: nat)
    requires k < 8
    ensures TestBit(SecondByte(size, mask), k) == if k < 7 then TestBit(SizeCode(size), k) else mask
  {
    Powers();
    var m, c := if mask then Or(0, Pow2(7)) else 0, SizeCode(size);
    ZeroBits(k);
    OrFlag(0, mask, 7, k);
    OrBits(m, c, k);
    if k == 7 { SmallBits(c, 7); }
  }

  lemma {:induction false} SmallBits(c: nat, k: nat)
    requires c < Pow2(k)
    ensures !TestBit(c, k)
  {
    if k > 0 { SmallBits(c / 2, k - 1); }
  }

  /** The length of the header, and that the shortest size form is the one used. */
  lemma HeaderLength(size: Size, mask: bool)
    ensures var len := GetHeaderLen(SecondByte(size, mask));
      && len == 2 + (if size <= 125 then 0 else if size <= 65535 then 2 else 8) + (if mask then 4 else 0)
      && len <= 14
  {
    SecondByteReadsBack(size, mask);
  }

  // ---------------------------------------------------------------- extended header

  /** Where the size starts among its eight bytes in network order. */
  function PayloadOffset(size: Size): nat {
    if size <= PAYLOAD_SIZE_BASIC then 8 else if size <= PAYLOAD_SIZE_EXTENDED then 6 else 0
  }

  function SizeBytes(size: Size): (bs: seq<Byte>)
    ensures |bs| == 8 - PayloadOffset(size)
  {
    ToBytes(Big, size, 8)[PayloadOffset(size)..]
  }

  /** The last m of n bytes in network order are the number's low m bytes. */
  lemma {:induction false} LastBytes(w: nat, n: nat, m: nat)
    requires m <= n
    ensures ToBytes(Big, w, n)[n - m..] == ToBytes(Big, w, m)
    decreases n
  {
    if m > 0 {
      LastBytes(Shr(w, 8), n - 1, m - 1);
      var a := ToBytes(Big, Shr(w, 8), n - 1);
      assert ToBytes(Big, w, n)[n - m..] == a[n - m..] + [Low(w, 8)];
    }
  }

  lemma SizeReadsBack(size: Size)
    requires size > PAYLOAD_SIZE_BASIC
    ensures FromBytes(Big, SizeBytes(size)) == size
  {
    var m := 8 - PayloadOffset(size);
    LastBytes(size, 8, m);
    SizeFits(size);
    LoadStore(Big, size, m);
  }

  lemma SizeFits(size: Size)
    requires size > PAYLOAD_SIZE_BASIC
    ensures size < Pow2(8 * (8 - PayloadOffset(size)))
  {
    Powers();
    Pow2Add(8, 8);
    Pow2Add(16, 16);
    Pow2Add(32, 32);
  }

  type Ext = e: seq<Byte> | |e| == 12 witness seq(12, _ => 0)

  function Padded(bs: seq<Byte>): (e: Ext)
    requires |bs| <= 12
    ensures e[..|bs|] == bs
  {
    bs + seq(12 - |bs|, _ => 0)
  }

  function GetPayloadSize(b1: nat, e: Ext): nat {
    var v := GetBasicSize(b1);
    if v <= PAYLOAD_SIZE_BASIC then v
    else if v == SIZE_CODE_16BIT then FromBytes(Big, e[..2])
    else FromBytes(Big, e[..8])
  }

  function GetMaskingKey(endian: Endian, b1: nat, e: Ext): nat {
    if !GetFlag(b1, 0x80) then 0
    else var offset := GetMaskingKeyOffset(b1); FromBytes(endian, e[offset..offset + 4])
  }

  /** The bytes of the wire form after the first two. */
  function Extension(endian: Endian, size: Size, mask: bool, key: nat): (bs: seq<Byte>)
    ensures |bs| == 8 - PayloadOffset(size) + (if mask then 4 else 0) <= 12
  {
    SizeBytes(size) + (if mask then ToBytes(endian, key, 4) else [])
  }

  /** Whatever a header is built from can be read back from its wire form, at
      every payload size; RFC 6455 wants the top bit of a 64-bit size clear,
      which is so exactly for sizes up to 2^63 - 1. */
  lemma HeaderRoundTrip(endian: Endian, size: Size, mask: bool, key: nat, e: Ext)
    requires key < U32
    requires e[..|Extension(endian, size, mask, key)|] == Extension(endian, size, mask, key)
    ensures var b1 := SecondByte(size, mask);
      && GetPayloadSize(b1, e) == size
      && GetMaskingKey(endian, b1, e) == (if mask then key else 0)
      && |Extension(endian, size, mask, key)| == GetHeaderLen(b1) - 2
    ensures size > PAYLOAD_SIZE_EXTENDED ==> (e[0] < 0x80 <==> size <= PAYLOAD_SIZE_JUMBO)
  {
    hide Extension, SizeBytes, ToBytes, FromBytes, Low, Shr, SecondByte;
    var o := 8 - PayloadOffset(size);
    SecondByteReadsBack(size, mask);
    ExtensionParts(endian, size, mask, key, e);
    if size > PAYLOAD_SIZE_BASIC { SizeReadsBack(size); }
    if mask {
      KeyFits(key);
      LoadStore(endian, key, 4);
    }
    if size > PAYLOAD_SIZE_EXTENDED { TopSizeByte(size); assert e[0] == e[..o][0]; }
  }

  lemma ExtensionParts(endian: Endian, size: Size, mask: bool, key: nat, e: Ext)
    requires e[..|Extension(endian, size, mask, key)|] == Extension(endian, size, mask, key)
    ensures var o := 8 - PayloadOffset(size);
      && e[..o] == SizeBytes(size) && (mask ==> e[o..o + 4] == ToBytes(endian, key, 4))
  {
    hide ToBytes, SizeBytes;
    var x := Extension(endian, size, mask, key);
    var o := 8 - PayloadOffset(size);
    assert e[..o] == x[..o] == SizeBytes(size);
    if mask { assert e[o..o + 4] == x[o..o + 4] == ToBytes(endian, key, 4); }
  }

  /** The first byte of a 64-bit size has its top bit clear up to 2^63 - 1. */
  lemma TopSizeByte(size: Size)
    requires size > PAYLOAD_SIZE_EXTENDED
    ensures SizeBytes(size)[0] < 0x80 <==> size <= PAYLOAD_SIZE_JUMBO
  {
    hide Low, Shr;
    TopByte(size, 8);
    TopBit(size);
  }

  lemma KeyFits(key: nat)
    requires key < U32
    ensures key < Pow2(8 * 4)
  {
    Powers();
    Pow2Add(8, 8);
    Pow2Add(16, 16);
  }

  lemma {:induction false} TopByte(w: nat, n: nat)
    requires n > 0
    ensures ToBytes(Big, w, n)[0] == Low(Shr(w, 8 * (n - 1)), 8)
    decreases n
  {
    if n > 1 {
      TopByte(Shr(w, 8), n - 1);
      ShrShr(w, 8, 8 * (n - 2));
    }
  }

  lemma {:induction false} ShrShr(w: nat, j: nat, k: nat)
    ensures Shr(Shr(w, j), k) == Shr(w, j + k)
  {
    if j > 0 { ShrShr(w / 2, j - 1, k); }
  }

  /** The top byte of a 64-bit number is below 128 exactly when its top bit is clear. */
  lemma TopBit(w: Size)
    ensures Low(Shr(w, 8 * 7), 8) < 0x80 <==> w <= PAYLOAD_SIZE_JUMBO
  {
    var hi, lo := Shr(w, 56), Low(w, 56);
    WordPowers();
    ShrBound(w, 56, 8);
    LowSmall(hi, 8);
    CatParts(w, 56);
    ShlIsCat(hi, lo, 56);
    ShlMul(hi, 56);
  }

  lemma WordPowers()
    ensures Pow2(8) == 256 && Pow2(56) == 0x100_0000_0000_0000 && Pow2(64) == U64
  {
    Powers();
    Pow2Add(8, 8);
    Pow2Add(16, 16);
    Pow2Add(32, 16);
    Pow2Add(48, 8);
    Pow2Add(56, 8);
  }

  // ---------------------------------------------------------------- the bytes on the wire

  /** ORing a number below 2^k to a multiple of 2^k adds it. */
  lemma OrAdds(hi: nat, lo: nat, k: nat)
    requires lo < Pow2(k)
    ensures Or(hi * Pow2(k), lo) == hi * Pow2(k) + lo
  {
    hide Or, Shl, Cat, Pow2;
    ShlMul(hi, k);
    ShlIsCat(hi, lo, k);
    OrDisjoint(hi, lo, k);
  }

  function One(b: bool): nat { if b then 1 else 0 }

  /** The first byte in numbers. */
  lemma FirstByteIs(op: nat, fin: bool, rsv1: bool, rsv2: bool, rsv3: bool)
    requires op < 16
    ensures FirstByte(op, fin, rsv1, rsv2, rsv3) == 128 * One(fin) + 64 * One(rsv1) + 32 * One(rsv2) + 16 * One(rsv3) + op
  {
    hide Or, And, Pow2;
    assert Pow2(4) == 16 && Pow2(5) == 32 && Pow2(6) == 64 && Pow2(7) == 128 && Pow2(8) == 256 by { Powers(); }
    OrAdds(0, 128, 8);
    OrAdds(One(fin), 64, 7);
    OrAdds(2 * One(fin) + One(rsv1), 32, 6);
    OrAdds(4 * One(fin) + 2 * One(rsv1) + One(rsv2), 16, 5);
    AndMask(op, 4);
    LowOpcode(op);
    OrAdds(8 * One(fin) + 4 * One(rsv1) + 2 * One(rsv2) + One(rsv3), op, 4);
  }

  /** The second byte in numbers: the size itself up to 125, then 126 up to 65535, then 127. */
  lemma SecondByteIs(size: Size, mask: bool)
    ensures SecondByte(size, mask) == 128 * One(mask) + if size <= 125 then size else if size <= 65535 then 126 else 127
  {
    hide Or, Pow2;
    assert Pow2(7) == 128 && Pow2(8) == 256 by { Powers(); }
    OrAdds(0, 128, 8);
    OrAdds(One(mask), SizeCode(size), 7);
  }

  lemma BigStep(bs: seq<Byte>, n: nat)
    requires n < |bs|
    ensures FromBytes(Big, bs[..n + 1]) == 256 * FromBytes(Big, bs[..n]) + bs[n]
  {
    hide Cat, Shl, Pow2;
    assert bs[..n + 1][..n] == bs[..n];
    CatNumber(FromBytes(Big, bs[..n]), bs[n]);
  }

  lemma LittleStep(bs: seq<Byte>, n: nat)
    requires n < |bs|
    ensures FromBytes(Little, bs[n..]) == bs[n] + 256 * FromBytes(Little, bs[n + 1..])
  {
    hide Cat, Shl, Pow2;
    assert bs[n..][1..] == bs[n + 1..];
    CatNumber(FromBytes(Little, bs[n + 1..]), bs[n]);
  }

  lemma CatNumber(hi: nat, lo: Byte)
    ensures Cat(hi, lo, 8) == 256 * hi + lo
  {
    assert Pow2(8) == 256 by { Powers(); }
    ShlMul(hi, 8);
    ShlIsCat(hi, lo, 8);
  }

  /** Two, four and eight bytes in network order, and four in the other, in numbers. */
  lemma BigTwo(bs: seq<Byte>)
    requires |bs| == 2
    ensures FromBytes(Big, bs) == 256 * (bs[0] as nat) + (bs[1] as nat)
  {
    hide FromBytes;
    assert bs[..2] == bs && FromBytes(Big, bs[..0]) == 0 by { NoBytes(bs); }
    BigStep(bs, 0); BigStep(bs, 1);
  }

  lemma BigFour(bs: seq<Byte>)
    requires |bs| == 4
    ensures FromBytes(Big, bs) == 0x100_0000 * (bs[0] as nat) + 0x1_0000 * (bs[1] as nat) + 0x100 * (bs[2] as nat) + (bs[3] as nat)
  {
    hide FromBytes;
    assert bs[..4] == bs && FromBytes(Big, bs[..0]) == 0 by { NoBytes(bs); }
    BigStep(bs, 0); BigStep(bs, 1); BigStep(bs, 2); BigStep(bs, 3);
  }

  lemma LittleFour(bs: seq<Byte>)
    requires |bs| == 4
    ensures FromBytes(Little, bs) == (bs[0] as nat) + 0x100 * (bs[1] as nat) + 0x1_0000 * (bs[2] as nat) + 0x100_0000 * (bs[3] as nat)
  {
    hide FromBytes;
    assert bs[0..] == bs && FromBytes(Little, bs[4..]) == 0 by { NoBytes(bs); }
    LittleStep(bs, 0); LittleStep(bs, 1); LittleStep(bs, 2); LittleStep(bs, 3);
  }

  lemma BigEight(bs: seq<Byte>)
    requires |bs| == 8
    ensures FromBytes(Big, bs) == 0x100_0000_0000_0000 * (bs[0] as nat) + 0x1_0000_0000_0000 * (bs[1] as nat) + 0x100_0000_0000 * (bs[2] as nat)
      + 0x1_0000_0000 * (bs[3] as nat) + 0x100_0000 * (bs[4] as nat) + 0x1_0000 * (bs[5] as nat) + 0x100 * (bs[6] as nat) + (bs[7] as nat)
  {
    hide FromBytes;
    assert bs[..8] == bs && FromBytes(Big, bs[..0]) == 0 by { NoBytes(bs); }
    BigStep(bs, 0); BigStep(bs, 1); BigStep(bs, 2); BigStep(bs, 3);
    BigStep(bs, 4); BigStep(bs, 5); BigStep(bs, 6); BigStep(bs, 7);
  }

  lemma NoBytes(bs: seq<Byte>)
    ensures bs[..|bs|] == bs == bs[0..] && FromBytes(Big, bs[..0]) == 0 && FromBytes(Little, bs[|bs|..]) == 0
  {
  }

  /** No byte is the size up to 125, two up to 65535 and else eight, in network order. */
  ghost predicate SizeIn(z: seq<nat>, size: nat) {
    && |z| == (if size <= 125 then 0 else if size <= 65535 then 2 else 8)
    && (|z| == 2 ==> size == 256 * z[0] + z[1])
    && (|z| == 8 ==>
          size == 0x100_0000_0000_0000 * z[0] + 0x1_0000_0000_0000 * z[1] + 0x100_0000_0000 * z[2]
                  + 0x1_0000_0000 * z[3] + 0x100_0000 * z[4] + 0x1_0000 * z[5] + 0x100 * z[6] + z[7])
  }

  /** The key as it lies in memory. */
  ghost predicate KeyIn(k: seq<nat>, endian: Endian, key: nat) {
    && |k| == 4
    && (endian == Little ==> key == k[0] + 0x100 * k[1] + 0x1_0000 * k[2] + 0x100_0000 * k[3])
    && (endian == Big ==> key == 0x100_0000 * k[0] + 0x1_0000 * k[1] + 0x100 * k[2] + k[3])
  }

  /** The bytes of a frame's header as section 5.2 of RFC 6455 numbers them: flags and
      opcode; mask flag and size, or the code 126 or 127 for the two or eight bytes that
      follow with the size; and the masking key. */
  ghost predicate IsFrameHeader(w: seq<nat>, endian: Endian, op: nat, size: nat, fin: bool, mask: bool,
                                rsv1: bool, rsv2: bool, rsv3: bool, key: nat)
  {
    var o := if size <= 125 then 2 else if size <= 65535 then 4 else 10;
    && |w| == o + (if mask then 4 else 0) && (forall i :: 0 <= i < |w| ==> w[i] < 256)
    && w[0] == 128 * One(fin) + 64 * One(rsv1) + 32 * One(rsv2) + 16 * One(rsv3) + op
    && w[1] == 128 * One(mask) + (if size <= 125 then size else if size <= 65535 then 126 else 127)
    && SizeIn(w[2..o], size) && (mask ==> KeyIn(w[o..], endian, key))
  }

  lemma SizeBytesIs(size: Size)
    ensures SizeIn(SizeBytes(size), size)
  {
    hide SizeBytes, FromBytes;
    var z := SizeBytes(size);
    if size > 125 { SizeReadsBack(size); }
    if |z| == 2 { BigTwo(z); }
    if |z| == 8 { BigEight(z); }
  }

  lemma KeyBytesIs(endian: Endian, key: nat)
    requires key < U32
    ensures KeyIn(ToBytes(endian, key, 4), endian, key)
  {
    hide ToBytes, FromBytes;
    KeyFits(key);
    LoadStore(endian, key, 4);
    if endian == Little { LittleFour(ToBytes(endian, key, 4)); } else { BigFour(ToBytes(endian, key, 4)); }
  }

  lemma WireIs(w: seq<nat>, endian: Endian, op: nat, size: Size, fin: bool, mask: bool,
               rsv1: bool, rsv2: bool, rsv3: bool, key: nat)
    requires op < 16 && key < U32
    requires w == [FirstByte(op, fin, rsv1, rsv2, rsv3), SecondByte(size, mask)] + Extension(endian, size, mask, key)
    ensures IsFrameHeader(w, endian, op, size, fin, mask, rsv1, rsv2, rsv3, key)
  {
    hide FirstByte, SecondByte, SizeBytes, ToBytes, IsFrameHeader, SizeIn, KeyIn;
    FirstByteIs(op, fin, rsv1, rsv2, rsv3);
    SecondByteIs(size, mask);
    SizeBytesIs(size);
    KeyBytesIs(endian, key);
    Assembled(w, SizeBytes(size), ToBytes(endian, key, 4), endian, op, size, fin, mask, rsv1, rsv2, rsv3, key);
  }

  lemma Assembled(w: seq<nat>, z: seq<Byte>, k: seq<Byte>, endian: Endian, op: nat, size: Size, fin: bool, mask: bool,
                  rsv1: bool, rsv2: bool, rsv3: bool, key: nat)
    requires op < 16 && |w| >= 2 && w == [w[0], w[1]] + (z + if mask then k else [])
    requires SizeIn(z, size) && KeyIn(k, endian, key)
    requires w[0] == 128 * One(fin) + 64 * One(rsv1) + 32 * One(rsv2) + 16 * One(rsv3) + op
    requires w[1] == 128 * One(mask) + if size <= 125 then size else if size <= 65535 then 126 else 127
    ensures IsFrameHeader(w, endian, op, size, fin, mask, rsv1, rsv2, rsv3, key)
  {
    assert |z| == (if size <= 125 then 0 else if size <= 65535 then 2 else 8) && |k| == 4;
    hide SizeIn, KeyIn;
    Slices(w, z, if mask then k else []);
  }

  lemma Slices(w: seq<nat>, z: seq<Byte>, k: seq<Byte>)
    requires |w| >= 2 && w == [w[0], w[1]] + (z + k) && w[0] < 256 && w[1] < 256
    ensures w[2..2 + |z|] == z && w[2 + |z|..] == k && |w| == 2 + |z| + |k|
    ensures forall i :: 0 <= i < |w| ==> w[i] < 256
  {
    forall i | 2 <= i < |w| ensures w[i] < 256 {
      assert w[i] == if i < 2 + |z| then z[i - 2] else k[i - 2 - |z|];
    }
  }

  // ---------------------------------------------------------------- the code

  class BasicHeader {
    var b0: nat
    var b1: nat

    constructor (op: nat, size: Size, fin: bool, mask: bool, rsv1: bool, rsv2: bool, rsv3: bool)
      ensures b0 == FirstByte(op, fin, rsv1, rsv2, rsv3) && b1 == SecondByte(size, mask)
      ensures op < 16 ==> b0 == 128 * One(fin) + 64 * One(rsv1) + 32 * One(rsv2) + 16 * One(rsv3) + op
      ensures b1 == 128 * One(mask) + if size <= 125 then size else if size <= 65535 then 126 else 127
    {
      hide Or, And;
      if op < 16 { FirstByteIs(op, fin, rsv1, rsv2, rsv3); }
      SecondByteIs(size, mask);
      var b := 0;
      if fin { b := Or(b, 0x80); }
      if rsv1 { b := Or(b, 0x40); }
      if rsv2 { b := Or(b, 0x20); }
      if rsv3 { b := Or(b, 0x10); }
      b0 := Or(b, And(op, 0x0F));
      var c := 0;
      if mask { c := Or(c, 0x80); }
      var basicValue: nat;
      if size <= PAYLOAD_SIZE_BASIC {
        basicValue := size;
      } else if size <= PAYLOAD_SIZE_EXTENDED {
        basicValue := SIZE_CODE_16BIT;
      } else {
        basicValue := SIZE_CODE_64BIT;
      }
      b1 := Or(c, basicValue);
    }

    /** Sets one flag of the first byte: FIN, RSV1, RSV2 or RSV3 for k = 7, 6, 5, 4. */
    method SetFirstFlag(ghost k: nat, flag: nat, value: bool)
      requires 4 <= k < 8 && flag == Pow2(k)
      modifies `b0
      ensures GetFlag(b0, flag) == value
      ensures forall j :: 0 <= j < 8 && j != k ==> TestBit(b0, j) == old(TestBit(b0, j))
    {
      BytePower(k);
      forall j | 0 <= j < 8
        ensures TestBit(SetFlag(b0, flag, value), j) == if j == k then value else TestBit(b0, j)
      {
        SetFlagBits(b0, k, value, j);
      }
      FlagBit(SetFlag(b0, flag, value), k);
      b0 := SetFlag(b0, flag, value);
    }

    method SetMasked(value: bool)
      modifies `b1
      ensures GetFlag(b1, 0x80) == value
      ensures forall j :: 0 <= j < 7 ==> TestBit(b1, j) == old(TestBit(b1, j))
    {
      Powers();
      forall j | 0 <= j < 8
        ensures TestBit(SetFlag(b1, 0x80, value), j) == if j == 7 then value else TestBit(b1, j)
      {
        SetFlagBits(b1, 7, value, j);
      }
      FlagBit(SetFlag(b1, 0x80, value), 7);
      b1 := SetFlag(b1, 0x80, value);
    }
  }

  class ExtendedHeader {
    const bytes: array<Byte>

    constructor Unmasked(size: Size)
      ensures bytes.Length == 12 && fresh(bytes)
      ensures bytes[..8 - PayloadOffset(size)] == SizeBytes(size)
    {
      bytes := new Byte[MAX_EXTENDED_HEADER_LENGTH](_ => 0);
      new;
      var offset := CopyPayload(size);
    }

    constructor WithKey(endian: Endian, size: Size, key: nat)
      ensures bytes.Length == 12 && fresh(bytes)
      ensures bytes[..12 - PayloadOffset(size)] == Extension(endian, size, true, key)
    {
      bytes := new Byte[MAX_EXTENDED_HEADER_LENGTH](_ => 0);
      new;
      var offset := CopyPayload(size);
      var temp := ToBytes(endian, key, 4);
      forall i | offset <= i < offset + 4 {
        bytes[i] := temp[i - offset];
      }
      assert bytes[..offset] == SizeBytes(size);
      assert bytes[..offset + 4] == SizeBytes(size) + temp;
    }

    method CopyPayload(size: Size) returns (offset: nat)
      requires bytes.Length == 12
      modifies bytes
      ensures offset == 8 - PayloadOffset(size) && bytes[..offset] == SizeBytes(size)
    {
      var payloadOffset := 0;
      if size <= PAYLOAD_SIZE_BASIC {
        payloadOffset := 8;
      } else if size <= PAYLOAD_SIZE_EXTENDED {
        payloadOffset := 6;
      }
      var temp := ToBytes(Big, size, 8);
      forall i | 0 <= i < 8 - payloadOffset {
        bytes[i] := temp[payloadOffset + i];
      }
      return 8 - payloadOffset;
    }
  }

  /** The wire form: the two bytes and as much of the extension as they call for. */
  method PrepareHeader(h: BasicHeader, e: ExtendedHeader) returns (ret: seq<nat>)
    requires e.bytes.Length == 12
    ensures ret == [h.b0, h.b1] + e.bytes[..GetHeaderLen(h.b1) - 2]
    ensures |ret| == GetHeaderLen(h.b1) <= 14
  {
    ret := [];
    ret := ret + [h.b0];
    ret := ret + [h.b1];
    ret := ret + e.bytes[..GetHeaderLen(h.b1) - 2];
  }

  /** Build and serialise: the bytes on the wire are those of the standard. */
  method Build(endian: Endian, op: nat, size: Size, fin: bool, mask: bool,
               rsv1: bool, rsv2: bool, rsv3: bool, key: nat) returns (wire: seq<nat>)
    requires op < 16 && key < U32
    ensures IsFrameHeader(wire, endian, op, size, fin, mask, rsv1, rsv2, rsv3, key)
    ensures wire == [FirstByte(op, fin, rsv1, rsv2, rsv3), SecondByte(size, mask)] + Extension(endian, size, mask, key)
  {
    hide SizeBytes, ToBytes, FirstByte, SecondByte, IsFrameHeader, GetHeaderLen;
    var h := new BasicHeader(op, size, fin, mask, rsv1, rsv2, rsv3);
    var e: ExtendedHeader;
    if mask {
      e := new ExtendedHeader.WithKey(endian, size, key);
    } else {
      e := new ExtendedHeader.Unmasked(size);
    }
    HeaderLength(size, mask);
    wire := PrepareHeader(h, e);
    WireIs(wire, endian, op, size, fin, mask, rsv1, rsv2, rsv3, key);
  }

  /** Build, serialise, take the bytes off the wire: every getter answers what the
      header was built from. */
  method BuildAndRead(endian: Endian, op: nat, size: Size, fin: bool, mask: bool,
                      rsv1: bool, rsv2: bool, rsv3: bool, key: nat) returns (wire: seq<nat>)
    requires op < 16 && key < U32
    ensures IsFrameHeader(wire, endian, op, size, fin, mask, rsv1, rsv2, rsv3, key)
    ensures 2 <= |wire| <= 14 && |wire| == GetHeaderLen(wire[1])
    ensures forall i :: 0 <= i < |wire| ==> wire[i] < 256
    ensures GetOpcode(wire[0]) == op && GetFlag(wire[0], 0x80) == fin
    ensures GetFlag(wire[0], 0x40) == rsv1 && GetFlag(wire[0], 0x20) == rsv2 && GetFlag(wire[0], 0x10) == rsv3
    ensures GetFlag(wire[1], 0x80) == mask
    ensures GetPayloadSize(wire[1], Padded(wire[2..])) == size
    ensures GetMaskingKey(endian, wire[1], Padded(wire[2..])) == if mask then key else 0
  {
    hide SizeBytes, ToBytes, FromBytes, FirstByte, SecondByte, SizeIn, KeyIn, One, GetPayloadSize, GetMaskingKey, GetFlag;
    wire := Build(endian, op, size, fin, mask, rsv1, rsv2, rsv3, key);
    FirstByteReadsBack(op, fin, rsv1, rsv2, rsv3);
    SecondByteReadsBack(size, mask);
    HeaderLength(size, mask);
    LowOpcode(op);
    assert wire[2..] == Extension(endian, size, mask, key);
    HeaderRoundTrip(endian, size, mask, key, Padded(wire[2..]));
  }

  lemma LowOpcode(op: nat)
    requires op < 16
    ensures Low(op, 4) == op
  {
    Powers();
    LowSmall(op, 4);
  }
}
