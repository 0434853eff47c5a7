/** Masking of WebSocket payloads (lib/websocketpp/frame.hpp; RFC 6455, section
    5.3): the word-at-a-time and streaming forms against the byte-at-a-time one. */
module WsMask {
  import opened Common
  import opened Words
  import opened Bytes

  /** The width of size_t in bytes and the byte order of memory. */
  datatype Machine = Machine(size: nat, endian: Endian)

  predicate Supported(m: Machine) { m.size == 4 || m.size == 8 }

  type Key = k: seq<Byte> | |k| == 4 witness [0, 0, 0, 0]

  // ---------------------------------------------------------------- the specification

  /** The pattern that starts one byte further on. */
  function Next(im: seq<Byte>): (r: seq<Byte>)
    ensures |r| == |im|
  {
    if im == [] then [] else im[1..] + [im[0]]
  }

  /** The pattern that starts n bytes further on. */
  function Turn(im: seq<Byte>, n: nat): (r: seq<Byte>)
    ensures |r| == |im|
    decreases n
  {
    if n == 0 then im else Turn(Next(im), n - 1)
  }

  /** Masking with a pattern of bytes, over and over. */
  function Mask(data: seq<Byte>, im: seq<Byte>): (r: seq<Byte>)
    requires im != []
    ensures |r| == |data|
  {
    if data == [] then [] else [XorByte(data[0], im[0])] + Mask(data[1..], Next(im))
  }

  /** x bytes counted in words of n bytes: whole words, bytes in them, bytes over. */
  function WholeWords(x: nat, n: nat): nat
    requires n == 4 || n == 8
  {
    if n == 4 then x / 4 else x / 8
  }

  function Span(words: nat, n: nat): nat
    requires n == 4 || n == 8
  {
    if n == 4 then words * 4 else words * 8
  }

  function Over(x: nat, n: nat): (r: nat)
    requires n == 4 || n == 8
    ensures r < n
  {
    if n == 4 then x % 4 else x % 8
  }

  /** Turning by n places is turning by what is left over of n. */
  lemma {:induction false} TurnOver(im: seq<Byte>, n: nat)
    requires |im| == 4 || |im| == 8
    ensures Turn(im, n) == im[Over(n, |im|)..] + im[..Over(n, |im|)]
    decreases n
  {
    if n > 0 {
      var o := Over(n - 1, |im|);
      assert Turn(im, n) == Next(im)[o..] + Next(im)[..o] by {
        TurnOver(Next(im), n - 1);
      }
      OverStep(n - 1, |im|);
      NextTurned(im, o);
    }
  }

  lemma OverStep(x: nat, n: nat)
    requires n == 4 || n == 8
    ensures Over(x + 1, n) == if Over(x, n) == n - 1 then 0 else Over(x, n) + 1
  {
  }

  lemma NextTurned(im: seq<Byte>, o: nat)
    requires o < |im|
    ensures Next(im)[o..] + Next(im)[..o] == if o == |im| - 1 then im else im[o + 1..] + im[..o + 1]
  {
  }

  /** Byte i meets the byte of the pattern that lies i places on, round and round. */
  lemma {:induction false} MaskIndex(data: seq<Byte>, im: seq<Byte>, i: nat)
    requires (|im| == 4 || |im| == 8) && i < |data|
    ensures Mask(data, im)[i] == XorByte(data[i], im[Over(i, |im|)])
  {
    if i > 0 {
      MaskIndex(data[1..], Next(im), i - 1);
      OverStep(i - 1, |im|);
    }
  }

  /** The mask of section 5.3: byte i with byte (i + offset) mod 4 of the key. */
  lemma MaskIsRfc(data: seq<Byte>, key: Key, offset: nat, i: nat)
    requires i < |data|
    ensures Mask(data, Turn(key, offset))[i] == XorByte(data[i], key[(i + offset) % 4])
  {
    MaskIndex(data, Turn(key, offset), i);
    TurnIndex(key, offset, i % 4);
    ModSum(i, offset);
  }

  lemma TurnIndex(key: Key, offset: nat, k: nat)
    requires k < 4
    ensures Turn(key, offset)[k] == key[if k + offset % 4 < 4 then k + offset % 4 else k + offset % 4 - 4]
  {
    TurnOver(key, offset);
  }

  lemma ModSum(i: nat, j: nat)
    ensures (i + j) % 4 == if i % 4 + j % 4 < 4 then i % 4 + j % 4 else i % 4 + j % 4 - 4
  {
  }

  /** Masking twice with the same pattern gives the payload back. */
  lemma {:induction false} MaskTwice(data: seq<Byte>, im: seq<Byte>)
    requires im != []
    ensures Mask(Mask(data, im), im) == data
  {
    if data != [] {
      MaskTwice(data[1..], Next(im));
      XorAssoc(data[0], im[0], im[0]);
      XorSelf(im[0]);
      XorZero(data[0]);
      assert Mask(data, im)[1..] == Mask(data[1..], Next(im));
    }
  }

  /** Masking a concatenation masks its parts, the second one further on in the pattern. */
  lemma {:induction false} MaskAppend(a: seq<Byte>, b: seq<Byte>, im: seq<Byte>)
    requires im != []
    ensures Mask(a + b, im) == Mask(a, im) + Mask(b, Turn(im, |a|))
  {
    hide XorByte, Next;
    if a == [] {
      assert a + b == b;
    } else {
      assert Mask(a + b, im) == [XorByte(a[0], im[0])] + Mask(a[1..] + b, Next(im)) by {
        MaskStep(a + b, im);
        assert (a + b)[1..] == a[1..] + b;
      }
      MaskAppend(a[1..], b, Next(im));
      MaskStep(a, im);
    }
  }

  lemma MaskStep(a: seq<Byte>, im: seq<Byte>)
    requires im != [] && a != []
    ensures Mask(a, im) == [XorByte(a[0], im[0])] + Mask(a[1..], Next(im))
  {
  }

  /** A pattern written twice masks like the pattern. */
  lemma {:induction false} MaskDoubled(data: seq<Byte>, im: seq<Byte>)
    requires im != []
    ensures Mask(data, im + im) == Mask(data, im)
  {
    if data != [] {
      MaskDoubled(data[1..], Next(im));
      assert Next(im + im) == Next(im) + Next(im);
    }
  }

  // ---------------------------------------------------------------- prepared keys

  /** The bytes of a word as they lie in memory. */
  function Image(m: Machine, word: nat): (bs: seq<Byte>)
    ensures |bs| == m.size
  {
    ToBytes(m.endian, word, m.size)
  }

  /** The word holds the key, as often as it fits. */
  ghost predicate Holds(m: Machine, word: nat, key: Key)
    requires Supported(m)
  {
    word < Pow2(8 * m.size) && Image(m, word) == if m.size == 8 then key + key else key
  }

  /** The masking key filling a machine word. */
  function PrepareMaskingKey(m: Machine, key: Key): nat {
    var i := FromBytes(m.endian, key);
    if m.size == 8 then Or(Shl(i, 32), i) else i
  }

  lemma PreparedHolds(m: Machine, key: Key)
    requires Supported(m)
    ensures Holds(m, PrepareMaskingKey(m, key), key)
  {
    if m.size == 8 {
      PreparedTwice(m, key, |key|);
    } else {
      StoreLoad(m.endian, key);
      FromBytesBound(m.endian, key);
    }
  }

  lemma PreparedTwice(m: Machine, key: Key, n: nat)
    requires m.size == 8 == n + n && n == |key|
    ensures Holds(m, PrepareMaskingKey(m, key), key)
  {
    Doubled(m.endian, key, n);
    assert 8 * n == 32 && 8 * m.size == 8 * n + 8 * n;
  }

  /** A word that holds the same bytes twice. */
  lemma Doubled(e: Endian, bs: seq<Byte>, n: nat)
    requires |bs| == n
    ensures var i := FromBytes(e, bs);
      Or(Shl(i, 8 * n), i) < Pow2(8 * n + 8 * n) && ToBytes(e, Or(Shl(i, 8 * n), i), n + n) == bs + bs
  {
    var i := FromBytes(e, bs);
    FromBytesBound(e, bs);
    StoreLoad(e, bs);
    OrDisjoint(i, i, 8 * n);
    CatBytes(e, i, i, n, n);
    CatBound(i, i, 8 * n, 8 * n);
  }

  /** The prepared key moved on by offset bytes, as the code shifts it; the left
      shift is cut to the word. */
  function CircshiftPreparedKey(m: Machine, key: nat, offset: nat): nat
    requires offset < m.size
  {
    if offset == 0 then key
    else if m.endian.Little? then
      Or(Shr(key, offset * 8), Low(Shl(key, (m.size - offset) * 8), 8 * m.size))
    else
      Or(Low(Shl(key, offset * 8), 8 * m.size), Shr(key, (m.size - offset) * 8))
  }

  lemma {:induction false} LowShl(a: nat, j: nat, k: nat)
    ensures Low(Shl(a, k), j + k) == Shl(Low(a, j), k)
  {
    if k > 0 {
      LowShl(a, j, k - 1);
      LowEven(Shl(a, k - 1), j + k);
    }
  }

  /** The low 8x bits go to the top, the others move down. */
  function Turned(w: nat, x: nat, y: nat): nat {
    Cat(Low(w, 8 * x), Shr(w, 8 * x), 8 * y)
  }

  lemma CircshiftIsTurn(m: Machine, w: nat, o: nat)
    requires 0 < o < m.size && w < Pow2(8 * m.size)
    ensures CircshiftPreparedKey(m, w, o)
      == if m.endian.Little? then Turned(w, o, m.size - o) else Turned(w, m.size - o, o)
  {
    var x := if m.endian.Little? then o else m.size - o;
    var y := m.size - x;
    assert 8 * m.size == 8 * x + 8 * y;
    LowShl(w, 8 * x, 8 * y);
    ShrBound(w, 8 * x, 8 * y);
    OrDisjoint(Low(w, 8 * x), Shr(w, 8 * x), 8 * y);
  }

  lemma TurnedBytes(e: Endian, w: nat, x: nat, y: nat)
    requires w < Pow2(8 * x + 8 * y)
    ensures Turned(w, x, y) < Pow2(8 * x + 8 * y)
    ensures var l, h := ToBytes(e, Low(w, 8 * x), x), ToBytes(e, Shr(w, 8 * x), y);
      if e.Little? then ToBytes(e, w, x + y) == l + h && ToBytes(e, Turned(w, x, y), x + y) == h + l
      else ToBytes(e, w, x + y) == h + l && ToBytes(e, Turned(w, x, y), x + y) == l + h
  {
    ShrBound(w, 8 * x, 8 * y);
    CatParts(w, 8 * x);
    CatBytes(e, Shr(w, 8 * x), Low(w, 8 * x), y, x);
    CatBytes(e, Low(w, 8 * x), Shr(w, 8 * x), x, y);
    CatBound(Low(w, 8 * x), Shr(w, 8 * x), 8 * x, 8 * y);
  }

  /** In memory the word is turned left by offset bytes. */
  lemma CircshiftRotates(m: Machine, w: nat, o: nat)
    requires o < m.size && w < Pow2(8 * m.size)
    ensures CircshiftPreparedKey(m, w, o) < Pow2(8 * m.size)
    ensures Image(m, CircshiftPreparedKey(m, w, o)) == Image(m, w)[o..] + Image(m, w)[..o]
  {
    if o > 0 {
      var x := if m.endian.Little? then o else m.size - o;
      var y := m.size - x;
      assert 8 * m.size == 8 * x + 8 * y;
      CircshiftIsTurn(m, w, o);
      TurnedBytes(m.endian, w, x, y);
    }
  }

  /** Moving a prepared key on keeps it a prepared key, further on. */
  lemma CircshiftHolds(m: Machine, w: nat, key: Key, o: nat)
    requires Supported(m) && Holds(m, w, key) && o < m.size
    ensures Holds(m, CircshiftPreparedKey(m, w, o), Turn(key, o))
  {
    CircshiftRotates(m, w, o);
    TurnOver(key, o);
    RotatedHeld(Image(m, w), key, o);
  }

  lemma RotatedHeld(im: seq<Byte>, key: Key, o: nat)
    requires (im == key || im == key + key) && o < |im|
    ensures var k := Over(o, 4); var t := key[k..] + key[..k];
      im[o..] + im[..o] == if |im| == 8 then t + t else t
  {
    if |im| == 8 { TwiceTurned(key, o); }
  }

  lemma TwiceTurned(key: Key, o: nat)
    requires o < 8
    ensures var r, k := key + key, Over(o, 4);
      r[o..] + r[..o] == (key[k..] + key[..k]) + (key[k..] + key[..k])
  {
  }

  lemma MaskHeld(m: Machine, data: seq<Byte>, w: nat, key: Key)
    requires Supported(m) && Holds(m, w, key)
    ensures Mask(data, Image(m, w)) == Mask(data, key)
  {
    if m.size == 8 { MaskDoubled(data, key); }
  }

  /** The four bytes that byte_mask_circ takes out of a prepared word. */
  function LowFour(m: Machine, word: nat): (k: Key) {
    ToBytes(m.endian, Low(word, 32), 4)
  }

  lemma LowFourHeld(m: Machine, w: nat, key: Key)
    requires Supported(m) && Holds(m, w, key)
    ensures LowFour(m, w) == key
  {
    if m.size == 8 {
      HalfImage(m, w, |key|);
    } else {
      LowSmall(w, 32);
    }
  }

  lemma HalfImage(m: Machine, w: nat, n: nat)
    requires m.size == n + n && w < Pow2(8 * m.size)
    ensures ToBytes(m.endian, Low(w, 8 * n), n) == (if m.endian.Little? then Image(m, w)[..n] else Image(m, w)[n..])
  {
    assert 8 * m.size == 8 * n + 8 * n;
    TurnedBytes(m.endian, w, n, n);
  }

  // ---------------------------------------------------------------- the code

  /** out is data masked with the pattern, said byte by byte. */
  ghost predicate MaskedBy(out: seq<Byte>, data: seq<Byte>, im: seq<Byte>)
    requires |im| == 4 || |im| == 8
  {
    |out| == |data| && forall j :: 0 <= j < |data| ==> out[j] == XorByte(data[j], im[Over(j, |im|)])
  }

  lemma MaskedByIsMask(out: seq<Byte>, data: seq<Byte>, im: seq<Byte>)
    requires (|im| == 4 || |im| == 8) && MaskedBy(out, data, im)
    ensures out == Mask(data, im)
  {
    forall j | 0 <= j < |data| ensures out[j] == Mask(data, im)[j] {
      MaskIndex(data, im, j);
    }
  }

  /** The byte of the key at a place of the payload. */
  function KeyAt(key: Key, place: nat): Byte { key[place % 4] }

  lemma IndexStep(place: nat)
    ensures (place % 4 + 1) % 4 == (place + 1) % 4
  {
  }

  lemma OffsetIsMask(out: seq<Byte>, data: seq<Byte>, key: Key, offset: nat)
    requires |out| == |data|
    requires forall j :: 0 <= j < |data| ==> out[j] == XorByte(data[j], KeyAt(key, j + offset))
    ensures out == Mask(data, Turn(key, offset))
  {
    forall j | 0 <= j < |data| ensures out[j] == Mask(data, Turn(key, offset))[j] {
      MaskIsRfc(data, key, offset, j);
    }
  }

  /** Byte by byte, from any place in the key; input and output may be the same buffer. */
  method ByteMask(input: array<Byte>, output: array<Byte>, length: nat, key: Key, keyOffset: nat)
    requires length <= input.Length && length <= output.Length
    modifies output
    ensures output[..length] == Mask(old(input[..length]), Turn(key, keyOffset))
    ensures output[length..] == old(output[length..])
  {
    hide XorByte, Mask, Turn;
    var keyIndex := keyOffset % 4;
    var i := 0;
    while i < length
      invariant 0 <= i <= length && keyIndex == (i + keyOffset) % 4
      invariant forall j :: 0 <= j < i ==> output[j] == XorByte(old(input[j]), KeyAt(key, j + keyOffset))
      invariant forall j :: i <= j < length ==> input[j] == old(input[j])
      invariant forall j :: length <= j < output.Length ==> output[j] == old(output[j])
    {
      output[i] := XorByte(input[i], key[keyIndex]);
      assert output[i] == XorByte(old(input[i]), KeyAt(key, i + keyOffset));
      IndexStep(i + keyOffset);
      keyIndex := keyIndex + 1;
      keyIndex := keyIndex % 4;
      i := i + 1;
    }
    OffsetIsMask(output[..length], old(input[..length]), key, keyOffset);
  }

  /** XOR of one word of the payload with the prepared key, as a word. */
  method XorWord(m: Machine, data: seq<Byte>, preparedKey: nat) returns (bytes: seq<Byte>)
    requires |data| == m.size && preparedKey < Pow2(8 * m.size)
    ensures bytes == XorBytes(data, Image(m, preparedKey))
  {
    StoredXor(m, data, preparedKey);
    bytes := ToBytes(m.endian, Xor(FromBytes(m.endian, data), preparedKey), m.size);
  }

  /** XORing a loaded word and storing it masks its bytes. */
  lemma StoredXor(m: Machine, data: seq<Byte>, word: nat)
    requires |data| == m.size && word < Pow2(8 * m.size)
    ensures ToBytes(m.endian, Xor(FromBytes(m.endian, data), word), m.size) == XorBytes(data, Image(m, word))
  {
    LoadStore(m.endian, word, m.size);
    XorIsBytewise(m.endian, data, Image(m, word));
    StoreLoad(m.endian, XorBytes(data, Image(m, word)));
  }

  method Store(output: array<Byte>, start: nat, bytes: seq<Byte>)
    requires start + |bytes| <= output.Length
    modifies output
    ensures forall j :: start <= j < start + |bytes| ==> output[j] == bytes[j - start]
    ensures forall j :: 0 <= j < output.Length && !(start <= j < start + |bytes|) ==> output[j] == old(output[j])
  {
    forall j | start <= j < start + |bytes| {
      output[j] := bytes[j - start];
    }
  }

  /** One word of the buffer, XORed with the prepared key. */
  method MaskWord(m: Machine, input: array<Byte>, output: array<Byte>, start: nat, preparedKey: nat)
    requires Supported(m) && preparedKey < Pow2(8 * m.size)
    requires start + m.size <= input.Length && start + m.size <= output.Length
    modifies output
    ensures forall j :: start <= j < start + m.size ==>
      output[j] == XorByte(old(input[j]), Image(m, preparedKey)[j - start])
    ensures forall j :: 0 <= j < output.Length && !(start <= j < start + m.size) ==> output[j] == old(output[j])
  {
    hide Pow2, XorByte, Image;
    var bytes := XorWord(m, input[start..start + m.size], preparedKey);
    Store(output, start, bytes);
  }

  lemma OverInWord(i: nat, j: nat, n: nat)
    requires (n == 4 || n == 8) && Span(i, n) <= j < Span(i, n) + n
    ensures Over(j, n) == j - Span(i, n)
  {
    if n == 4 { FourOver(i, j - 4 * i); } else { EightOver(i, j - 8 * i); }
  }

  lemma FourOver(i: nat, r: nat)
    requires r < 4
    ensures (4 * i + r) % 4 == r
  {
  }

  lemma EightOver(i: nat, r: nat)
    requires r < 8
    ensures (8 * i + r) % 8 == r
  {
  }

  lemma SpanNext(i: nat, length: nat, n: nat)
    requires (n == 4 || n == 8) && i < WholeWords(length, n)
    ensures Span(i + 1, n) == Span(i, n) + n <= length
    ensures forall j :: Span(i, n) <= j < Span(i, n) + n ==> Over(j, n) == j - Span(i, n)
  {
    forall j | Span(i, n) <= j < Span(i, n) + n ensures Over(j, n) == j - Span(i, n) {
      OverInWord(i, j, n);
    }
  }

  /** The whole words of a buffer of length bytes. */
  method MaskWords(m: Machine, input: array<Byte>, output: array<Byte>, length: nat, preparedKey: nat)
    returns (n: nat)
    requires Supported(m) && preparedKey < Pow2(8 * m.size)
    requires length <= input.Length && length <= output.Length
    modifies output
    ensures n == WholeWords(length, m.size)
    ensures forall j :: 0 <= j < Span(n, m.size) ==>
      output[j] == XorByte(old(input[j]), Image(m, preparedKey)[Over(j, m.size)])
    ensures forall j :: Span(n, m.size) <= j < output.Length ==> output[j] == old(output[j])
  {
    hide XorByte, Pow2, Image;
    n := WholeWords(length, m.size);
    ghost var im := Image(m, preparedKey);
    var i := 0;
    while i < n
      invariant 0 <= i <= n
      invariant forall j :: 0 <= j < Span(i, m.size) ==> output[j] == XorByte(old(input[j]), im[Over(j, m.size)])
      invariant forall j :: Span(i, m.size) <= j < length ==> input[j] == old(input[j])
      invariant forall j :: Span(i, m.size) <= j < output.Length ==> output[j] == old(output[j])
    {
      SpanNext(i, length, m.size);
      MaskWord(m, input, output, Span(i, m.size), preparedKey);
      i := i + 1;
    }
  }

  /** Streaming, word at a time: masks with the prepared key and hands back the
      key for the byte that follows. */
  method WordMaskCirc(m: Machine, input: array<Byte>, output: array<Byte>, length: nat, preparedKey: nat)
    returns (next: nat)
    requires Supported(m) && preparedKey < Pow2(8 * m.size)
    requires length <= input.Length && length <= output.Length
    modifies output
    ensures output[..length] == Mask(old(input[..length]), Image(m, preparedKey))
    ensures output[length..] == old(output[length..])
    ensures next == CircshiftPreparedKey(m, preparedKey, Over(length, m.size))
  {
    hide CircshiftPreparedKey, Pow2, XorByte;
    var n := MaskWords(m, input, output, length, preparedKey);
    var l := length - Span(n, m.size);
    MaskTail(input, output, Span(n, m.size), length, Image(m, preparedKey));
    MaskedByIsMask(output[..length], old(input[..length]), Image(m, preparedKey));
    next := CircshiftPreparedKey(m, preparedKey, l);
  }

  /** The bytes after the last whole word. */
  method MaskTail(input: array<Byte>, output: array<Byte>, start: nat, length: nat, byteKey: seq<Byte>)
    requires |byteKey| == 4 || |byteKey| == 8
    requires start == Span(WholeWords(length, |byteKey|), |byteKey|)
    requires length <= input.Length && length <= output.Length
    modifies output
    ensures forall j :: start <= j < length ==> output[j] == XorByte(old(input[j]), byteKey[Over(j, |byteKey|)])
    ensures forall j :: 0 <= j < output.Length && !(start <= j < length) ==> output[j] == old(output[j])
  {
    var i := 0;
    while i < length - start
      invariant 0 <= i <= length - start
      invariant forall j :: start <= j < start + i ==> output[j] == XorByte(old(input[j]), byteKey[Over(j, |byteKey|)])
      invariant forall j :: start + i <= j < length ==> input[j] == old(input[j])
      invariant forall j :: 0 <= j < output.Length && !(start <= j < start + i) ==> output[j] == old(output[j])
    {
      OverInWord(WholeWords(length, |byteKey|), start + i, |byteKey|);
      output[start + i] := XorByte(input[start + i], byteKey[i]);
      i := i + 1;
    }
  }

  /** Bytes from a place on, each with the byte of the key at its own index mod 4. */
  method MaskFrom(input: array<Byte>, output: array<Byte>, start: nat, length: nat, key: Key)
    requires start <= length <= input.Length && length <= output.Length
    modifies output
    ensures forall j :: start <= j < length ==> output[j] == XorByte(old(input[j]), key[Over(j, 4)])
    ensures forall j :: 0 <= j < output.Length && !(start <= j < length) ==> output[j] == old(output[j])
  {
    var i := start;
    while i < length
      invariant start <= i <= length
      invariant forall j :: start <= j < i ==> output[j] == XorByte(old(input[j]), key[Over(j, 4)])
      invariant forall j :: i <= j < length ==> input[j] == old(input[j])
      invariant forall j :: 0 <= j < output.Length && !(start <= j < i) ==> output[j] == old(output[j])
    {
      output[i] := XorByte(input[i], key[i % 4]);
      i := i + 1;
    }
  }

  /** Streaming, byte at a time, with the same prepared key. */
  method ByteMaskCirc(m: Machine, input: array<Byte>, output: array<Byte>, length: nat, preparedKey: nat)
    returns (next: nat)
    requires Supported(m) && preparedKey < Pow2(8 * m.size)
    requires length <= input.Length && length <= output.Length
    modifies output
    ensures output[..length] == Mask(old(input[..length]), LowFour(m, preparedKey))
    ensures output[length..] == old(output[length..])
    ensures next == CircshiftPreparedKey(m, preparedKey, length % 4)
  {
    var key := LowFour(m, preparedKey);
    MaskFrom(input, output, 0, length, key);
    MaskedByIsMask(output[..length], old(input[..length]), key);
    next := CircshiftPreparedKey(m, preparedKey, length % 4);
  }

  /** The whole message at once, word at a time: the same as byte by byte. */
  method WordMaskExact(m: Machine, input: array<Byte>, output: array<Byte>, length: nat, key: Key)
    requires Supported(m) && length <= input.Length && length <= output.Length
    modifies output
    ensures output[..length] == Mask(old(input[..length]), key)
    ensures output[length..] == old(output[length..])
  {
    var preparedKey := PrepareMaskingKey(m, key);
    PreparedHolds(m, key);
    HeldIndex(m, preparedKey, key);
    var n := MaskWords(m, input, output, length, preparedKey);
    MaskFrom(input, output, Span(n, m.size), length, key);
    MaskedByIsMask(output[..length], old(input[..length]), key);
  }

  lemma HeldIndex(m: Machine, w: nat, key: Key)
    requires Supported(m) && Holds(m, w, key)
    ensures forall j: nat {:trigger Over(j, 4)} :: Image(m, w)[Over(j, m.size)] == key[Over(j, 4)]
  {
    var im := Image(m, w);
    forall j: nat ensures im[Over(j, |im|)] == key[Over(j, 4)] {
      HeldAt(im, key, j);
    }
  }

  lemma HeldAt(im: seq<Byte>, key: Key, j: nat)
    requires im == key || im == key + key
    ensures im[Over(j, |im|)] == key[Over(j, 4)]
  {
    OverFour(j, |im|);
  }

  // ---------------------------------------------------------------- streaming

  datatype Chunk = Chunk(data: seq<Byte>, words: bool)

  function Join(chunks: seq<Chunk>): seq<Byte> {
    if chunks == [] then [] else chunks[0].data + Join(chunks[1..])
  }

  /** What one chunk becomes, and the key handed back for the next one: the
      results of WordMaskCirc and ByteMaskCirc. */
  function MaskChunk(m: Machine, c: Chunk, key: nat): seq<Byte>
    requires Supported(m)
  {
    Mask(c.data, if c.words then Image(m, key) else LowFour(m, key))
  }

  function NextKey(m: Machine, c: Chunk, key: nat): nat
    requires Supported(m)
  {
    CircshiftPreparedKey(m, key, if c.words then Over(|c.data|, m.size) else |c.data| % 4)
  }

  /** Masking the chunks one after the other, each with the function it names,
      handing the returned key on. */
  function MaskChunks(m: Machine, chunks: seq<Chunk>, key: nat): seq<Byte>
    requires Supported(m)
  {
    if chunks == [] then []
    else MaskChunk(m, chunks[0], key) + MaskChunks(m, chunks[1..], NextKey(m, chunks[0], key))
  }

  lemma NextKeyHolds(m: Machine, c: Chunk, word: nat, key: Key)
    requires Supported(m) && Holds(m, word, key)
    ensures Holds(m, NextKey(m, c, word), Turn(key, |c.data|))
  {
    var o := if c.words then Over(|c.data|, m.size) else |c.data| % 4;
    CircshiftHolds(m, word, key, o);
    OverFour(|c.data|, m.size);
    TurnOver(key, o);
    TurnOver(key, |c.data|);
    assert Turn(key, o) == Turn(key, |c.data|);
  }

  lemma OverFour(x: nat, n: nat)
    requires n == 4 || n == 8
    ensures Over(Over(x, n), 4) == Over(x, 4) && Over(x % 4, 4) == Over(x, 4)
  {
  }

  lemma ChunkMasked(m: Machine, c: Chunk, word: nat, key: Key)
    requires Supported(m) && Holds(m, word, key)
    ensures MaskChunk(m, c, word) == Mask(c.data, key)
  {
    if c.words {
      MaskHeld(m, c.data, word, key);
    } else {
      LowFourHeld(m, word, key);
    }
  }

  /** However a payload is split, and whichever function masks each chunk, the
      result is the byte-by-byte mask of the whole. */
  lemma {:induction false} StreamingMask(m: Machine, chunks: seq<Chunk>, word: nat, key: Key)
    requires Supported(m) && Holds(m, word, key)
    ensures MaskChunks(m, chunks, word) == Mask(Join(chunks), key)
    decreases |chunks|
  {
    if chunks != [] {
      var c, rest := chunks[0], chunks[1..];
      ChunkMasked(m, c, word, key);
      NextKeyHolds(m, c, word, key);
      StreamingMask(m, rest, NextKey(m, c, word), Turn(key, |c.data|));
      MaskAppend(c.data, Join(rest), key);
    }
  }

  /** Streaming from a freshly prepared key. */
  lemma StreamingFromStart(m: Machine, chunks: seq<Chunk>, key: Key)
    requires Supported(m)
    ensures MaskChunks(m, chunks, PrepareMaskingKey(m, key)) == Mask(Join(chunks), key)
  {
    PreparedHolds(m, key);
    StreamingMask(m, chunks, PrepareMaskingKey(m, key), key);
  }
}
