/** The 64-bit elements of a bitmap (elem_type in bitmap.c) as numbers below 2^64:
    single bits, masks, and the eight little-endian bytes an element occupies in a file. */
module Words {
  import opened Sector

  const ELEM_BITS := 64
  const ELEM_BYTES := 8
  const ELEM_LIMIT := 0x1_0000_0000_0000_0000

  type Elem = w: nat | w < ELEM_LIMIT

  function Pow2(k: nat): (p: nat)
    ensures p > 0
  {
    if k == 0 then 1 else 2 * Pow2(k - 1)
  }

  /** Bit `k` of `w`, bit 0 being the least significant. */
  predicate Bit(w: nat, k: nat) {
    if k == 0 then w % 2 == 1 else Bit(w / 2, k - 1)
  }

  function Digit(b: bool): nat {
    if b then 1 else 0
  }

  /** A bitwise operator on `n`-bit numbers. */
  function Bitwise(f: (bool, bool) -> bool, a: nat, b: nat, n: nat): (w: nat)
    ensures w < Pow2(n)
  {
    if n == 0 then 0 else Digit(f(a % 2 == 1, b % 2 == 1)) + 2 * Bitwise(f, a / 2, b / 2, n - 1)
  }

  lemma {:induction false} BitwiseBit(f: (bool, bool) -> bool, a: nat, b: nat, n: nat, k: nat)
    requires k < n
    ensures Bit(Bitwise(f, a, b, n), k) == f(Bit(a, k), Bit(b, k))
  {
    if k == 0 {
    } else {
      BitwiseBit(f, a / 2, b / 2, n - 1, k - 1);
      assert Bitwise(f, a, b, n) / 2 == Bitwise(f, a / 2, b / 2, n - 1);
    }
  }

  lemma ElemLimit()
    ensures Pow2(ELEM_BITS) == ELEM_LIMIT
  {
    assert Pow2(8) == 256;
    assert Pow2(16) == 0x1_0000;
    assert Pow2(24) == 0x100_0000;
    assert Pow2(32) == 0x1_0000_0000;
    assert Pow2(40) == 0x100_0000_0000;
    assert Pow2(48) == 0x1_0000_0000_0000;
    assert Pow2(56) == 0x100_0000_0000_0000;
  }

  function Or(a: Elem, b: Elem): Elem {
    ElemLimit(); Bitwise((x, y) => x || y, a, b, ELEM_BITS)
  }

  function And(a: Elem, b: Elem): Elem {
    ElemLimit(); Bitwise((x, y) => x && y, a, b, ELEM_BITS)
  }

  function Xor(a: Elem, b: Elem): Elem {
    ElemLimit(); Bitwise((x, y) => x != y, a, b, ELEM_BITS)
  }

  function Not(a: Elem): Elem {
    ELEM_LIMIT - 1 - a
  }

  lemma {:induction false} NotBit(a: nat, n: nat, k: nat)
    requires a < Pow2(n) && k < n
    ensures Bit(Pow2(n) - 1 - a, k) == !Bit(a, k)
  {
    var p := Pow2(n - 1);
    assert Pow2(n) == 2 * p;
    hide Pow2;
    Complement(a, p);
    if k == 0 {
    } else {
      NotBit(a / 2, n - 1, k - 1);
    }
  }

  lemma Complement(a: nat, p: nat)
    requires a < 2 * p
    ensures (2 * p - 1 - a) / 2 == p - 1 - a / 2 >= 0
    ensures (2 * p - 1 - a) % 2 == 1 <==> a % 2 != 1
  {
  }

  lemma {:induction false} Pow2Bit(j: nat, k: nat)
    ensures Bit(Pow2(j), k) == (j == k)
    decreases k
  {
    if k > 0 && j > 0 {
      Pow2Bit(j - 1, k - 1);
      assert Pow2(j) / 2 == Pow2(j - 1);
    } else if k > 0 {
      ZeroBit(k - 1);
    }
  }

  lemma {:induction false} ZeroBit(k: nat)
    ensures !Bit(0, k)
  {
    if k == 0 {
    } else {
      ZeroBit(k - 1);
    }
  }

  lemma {:induction false} OnesBit(n: nat, k: nat)
    ensures Bit(Pow2(n) - 1, k) == (k < n)
    decreases k
  {
    if n == 0 {
      ZeroBit(k);
    } else if k > 0 {
      OnesBit(n - 1, k - 1);
      assert (Pow2(n) - 1) / 2 == Pow2(n - 1) - 1;
    }
  }

  lemma {:induction false} Pow2Grows(j: nat, k: nat)
    requires j <= k
    ensures Pow2(j) <= Pow2(k)
  {
    if j == k {
    } else {
      Pow2Grows(j, k - 1);
    }
  }

  /** bit_mask: 1 << k. */
  function BitMask(k: nat): Elem
    requires k < ELEM_BITS
  {
    ElemLimit(); Pow2Grows(k + 1, ELEM_BITS); Pow2(k)
  }

  /** last_mask for a bitmap whose last element uses `n` bits, 0 standing for all 64. */
  function LastMask(n: nat): Elem
    requires n < ELEM_BITS
  {
    if n != 0 then BitMask(n) - 1 else ELEM_LIMIT - 1
  }

  lemma MarkBit(w: Elem, j: nat, k: nat)
    requires j < ELEM_BITS && k < ELEM_BITS
    ensures Bit(Or(w, BitMask(j)), k) == (k == j || Bit(w, k))
  {
    BitwiseBit((x, y) => x || y, w, BitMask(j), ELEM_BITS, k);
    Pow2Bit(j, k);
  }

  lemma ResetBit(w: Elem, j: nat, k: nat)
    requires j < ELEM_BITS && k < ELEM_BITS
    ensures Bit(And(w, Not(BitMask(j))), k) == (k != j && Bit(w, k))
  {
    BitwiseBit((x, y) => x && y, w, Not(BitMask(j)), ELEM_BITS, k);
    ElemLimit();
    NotBit(BitMask(j), ELEM_BITS, k);
    Pow2Bit(j, k);
  }

  lemma FlipBit(w: Elem, j: nat, k: nat)
    requires j < ELEM_BITS && k < ELEM_BITS
    ensures Bit(Xor(w, BitMask(j)), k) == if k == j then !Bit(w, k) else Bit(w, k)
  {
    BitwiseBit((x, y) => x != y, w, BitMask(j), ELEM_BITS, k);
    Pow2Bit(j, k);
  }

  /** bitmap_test's expression: masking a word is nonzero exactly when the bit is set. */
  lemma TestBit(w: Elem, j: nat)
    requires j < ELEM_BITS
    ensures (And(w, BitMask(j)) != 0) == Bit(w, j)
  {
    ElemLimit();
    forall k | 0 <= k < ELEM_BITS ensures Bit(And(w, BitMask(j)), k) == (k == j && Bit(w, k)) {
      BitwiseBit((x, y) => x && y, w, BitMask(j), ELEM_BITS, k);
      Pow2Bit(j, k);
    }
    forall k | 0 <= k < ELEM_BITS ensures !Bit(0, k) {
      ZeroBit(k);
    }
    if !Bit(w, j) {
      SameBits(And(w, BitMask(j)), 0, ELEM_BITS);
    }
  }

  lemma LastMaskBit(w: Elem, n: nat, k: nat)
    requires n < ELEM_BITS && k < ELEM_BITS
    ensures Bit(And(w, LastMask(n)), k) == ((n == 0 || k < n) && Bit(w, k))
  {
    BitwiseBit((x, y) => x && y, w, LastMask(n), ELEM_BITS, k);
    ElemLimit();
    OnesBit(if n == 0 then ELEM_BITS else n, k);
  }

  /** A word is determined by its bits. */
  lemma {:induction false} SameBits(a: nat, b: nat, n: nat)
    requires a < Pow2(n) && b < Pow2(n)
    requires forall k :: 0 <= k < n ==> Bit(a, k) == Bit(b, k)
    ensures a == b
  {
    if n == 0 {
    } else {
      forall k | 0 <= k < n - 1 ensures Bit(a / 2, k) == Bit(b / 2, k) {
        assert Bit(a, k + 1) == Bit(b, k + 1);
      }
      SameBits(a / 2, b / 2, n - 1);
      assert Bit(a, 0) == Bit(b, 0);
    }
  }

  function ElemByte(w: Elem, k: nat): byte {
    if k < 4 then WordByte(w % WORD_LIMIT, k) else WordByte(w / WORD_LIMIT, k - 4)
  }

  function ElemAt(bs: seq<byte>, ofs: nat): Elem
    requires ofs + ELEM_BYTES <= |bs|
  {
    WordAtBound(bs, ofs); WordAtBound(bs, ofs + 4);
    WordAt(bs, ofs) + WORD_LIMIT * WordAt(bs, ofs + 4)
  }

  /** The memory image of an array of elements, as bitmap_write hands it to the file. */
  function ElemsBytes(ws: seq<Elem>): (bs: seq<byte>)
    ensures |bs| == ELEM_BYTES * |ws|
  {
    seq(ELEM_BYTES * |ws|, i requires 0 <= i < ELEM_BYTES * |ws| => ElemByte(ws[i / ELEM_BYTES], i % ELEM_BYTES))
  }

  function BytesElems(bs: seq<byte>): (ws: seq<Elem>)
    ensures |ws| == |bs| / ELEM_BYTES
  {
    seq(|bs| / ELEM_BYTES, i requires 0 <= i < |bs| / ELEM_BYTES => ElemAt(bs, ELEM_BYTES * i))
  }

  lemma ElemRoundTrip(w: Elem, bs: seq<byte>, ofs: nat)
    requires ofs + ELEM_BYTES <= |bs| && forall k :: 0 <= k < ELEM_BYTES ==> bs[ofs + k] == ElemByte(w, k)
    ensures ElemAt(bs, ofs) == w
  {
    forall k | 0 <= k < 4 ensures bs[ofs + k] == WordByte(w % WORD_LIMIT, k) {
      assert bs[ofs + k] == ElemByte(w, k);
    }
    forall k | 0 <= k < 4 ensures bs[ofs + 4 + k] == WordByte(w / WORD_LIMIT, k) {
      assert bs[ofs + (4 + k)] == ElemByte(w, 4 + k);
    }
    WordRoundTrip(w % WORD_LIMIT, bs, ofs);
    WordRoundTrip(w / WORD_LIMIT, bs, ofs + 4);
  }

  lemma ElemInImage(ws: seq<Elem>, i: nat)
    requires i < |ws|
    ensures ElemAt(ElemsBytes(ws), ELEM_BYTES * i) == ws[i]
  {
    hide ElemAt, ElemByte;
    var bs := ElemsBytes(ws);
    forall k | 0 <= k < ELEM_BYTES ensures bs[ELEM_BYTES * i + k] == ElemByte(ws[i], k) {
      assert (ELEM_BYTES * i + k) / ELEM_BYTES == i && (ELEM_BYTES * i + k) % ELEM_BYTES == k;
    }
    ElemRoundTrip(ws[i], bs, ELEM_BYTES * i);
  }

  lemma ElemsRoundTrip(ws: seq<Elem>)
    ensures BytesElems(ElemsBytes(ws)) == ws
  {
    forall i | 0 <= i < |ws| ensures ElemAt(ElemsBytes(ws), ELEM_BYTES * i) == ws[i] {
      ElemInImage(ws, i);
    }
  }

  /** The low `n` bits of a number are those of its remainder. */
  lemma {:induction false} LowBit(w: nat, n: nat, k: nat, q: nat, r: nat)
    requires k < n && w == Pow2(n) * q + r && r < Pow2(n)
    ensures Bit(w, k) == Bit(r, k)
  {
    var p := Pow2(n - 1);
    assert Pow2(n) == 2 * p;
    hide Pow2;
    Doubled(p, q);
    if k == 0 {
    } else {
      LowBit(w / 2, n - 1, k - 1, q, r / 2);
    }
  }

  lemma Doubled(p: nat, q: nat)
    ensures 2 * p * q == 2 * (p * q)
  {
  }

  /** Dropping the low byte moves every bit down by eight. */
  lemma ShiftBit(w: nat, k: nat)
    ensures Bit(w / 256, k) == Bit(w, k + 8)
  {
    HalvedTwice(w, k + 4 + 2);
    HalvedTwice(w / 4, k + 4);
    HalvedTwice(w / 16, k + 2);
    HalvedTwice(w / 64, k);
  }

  lemma HalvedTwice(w: nat, k: nat)
    ensures Bit(w, k + 2) == Bit(w / 4, k)
  {
    assert Bit(w, k + 2) == Bit(w / 2, k + 1) == Bit(w / 2 / 2, k);
  }

  lemma LowByteBit(w: nat, j: nat)
    requires j < 8
    ensures Bit(w % 256, j) == Bit(w, j)
  {
    assert Pow2(8) == 256;
    LowBit(w, 8, j, w / 256, w % 256);
  }

  lemma ByteBit(w: nat, k: nat, j: nat)
    requires k < 4 && j < 8
    ensures Bit(WordByte(w, k), j) == Bit(w, 8 * k + j)
  {
    hide Bit;
    var a := w / 256;
    var b := a / 256;
    var c := b / 256;
    assert w / 65536 == b && w / 16777216 == c;
    if k == 0 {
      LowByteBit(w, j);
    } else if k == 1 {
      LowByteBit(a, j);
      ShiftBit(w, j);
    } else if k == 2 {
      LowByteBit(b, j);
      ShiftBit(a, j);
      ShiftBit(w, j + 8);
    } else {
      LowByteBit(c, j);
      ShiftBit(b, j);
      ShiftBit(a, j + 8);
      ShiftBit(w, j + 16);
    }
  }

  /** Bit `j` of byte `k` of a word in memory is the word's bit 8 * k + j. */
  lemma ElemByteBit(w: Elem, k: nat, j: nat)
    requires k < ELEM_BYTES && j < 8
    ensures Bit(ElemByte(w, k), j) == Bit(w, 8 * k + j)
  {
    hide Bit, WordByte;
    if k < 4 {
      ByteBit(w % WORD_LIMIT, k, j);
      LowWordBit(w, 8 * k + j);
    } else {
      ByteBit(w / WORD_LIMIT, k - 4, j);
      HighWordBit(w, 8 * (k - 4) + j);
    }
  }

  lemma LowWordBit(w: nat, i: nat)
    requires i < 32
    ensures Bit(w % WORD_LIMIT, i) == Bit(w, i)
  {
    assert Pow2(8) == 256;
    assert Pow2(16) == 65536;
    assert Pow2(24) == 0x100_0000;
    assert Pow2(32) == WORD_LIMIT;
    hide Pow2, Bit;
    LowBit(w, 32, i, w / WORD_LIMIT, w % WORD_LIMIT);
  }

  lemma HighWordBit(w: nat, i: nat)
    ensures Bit(w / WORD_LIMIT, i) == Bit(w, i + 32)
  {
    hide Bit;
    var a := w / 256;
    var b := a / 256;
    var c := b / 256;
    assert c / 256 == w / WORD_LIMIT;
    ShiftBit(c, i);
    ShiftBit(b, i + 8);
    ShiftBit(a, i + 16);
    ShiftBit(w, i + 24);
  }

  /** Bit `i` of an array of words is, in its memory image, bit i % 8 of byte i / 8. */
  lemma ImageBit(ws: seq<Elem>, i: nat)
    requires i < ELEM_BITS * |ws|
    ensures i / 8 < |ElemsBytes(ws)|
    ensures Bit(ElemsBytes(ws)[i / 8], i % 8) == Bit(ws[i / ELEM_BITS], i % ELEM_BITS)
  {
    hide Bit, ElemByte;
    var k := i / 8;
    assert k / ELEM_BYTES == i / ELEM_BITS && i % ELEM_BITS == 8 * (k % ELEM_BYTES) + i % 8;
    ElemByteBit(ws[i / ELEM_BITS], k % ELEM_BYTES, i % 8);
  }

  /** And an array of words filled from any bytes has those bytes as its image. */
  lemma BytesRoundTrip(bs: seq<byte>)
    requires |bs| % ELEM_BYTES == 0
    ensures ElemsBytes(BytesElems(bs)) == bs
  {
    hide ElemAt, ElemByte;
    forall i | 0 <= i < |bs| ensures i / ELEM_BYTES < |BytesElems(bs)| && ElemsBytes(BytesElems(bs))[i] == bs[i] {
      var at := ELEM_BYTES * (i / ELEM_BYTES);
      assert at + ELEM_BYTES <= |bs| && i == at + i % ELEM_BYTES;
      ElemHasBytes(bs, at, i % ELEM_BYTES);
    }
  }

  lemma ElemHasBytes(bs: seq<byte>, ofs: nat, k: nat)
    requires ofs + ELEM_BYTES <= |bs| && k < ELEM_BYTES
    ensures ElemByte(ElemAt(bs, ofs), k) == bs[ofs + k]
  {
    hide WordByte, WordAt;
    WordAtBound(bs, ofs);
    WordAtBound(bs, ofs + 4);
    TwoWords(WordAt(bs, ofs), WordAt(bs, ofs + 4));
    if k < 4 {
      WordHasBytes(bs, ofs, k);
    } else {
      WordHasBytes(bs, ofs + 4, k - 4);
    }
  }

  lemma TwoWords(low: nat, high: nat)
    requires low < WORD_LIMIT
    ensures (low + WORD_LIMIT * high) % WORD_LIMIT == low && (low + WORD_LIMIT * high) / WORD_LIMIT == high
  {
  }

  lemma WordHasBytes(bs: seq<byte>, ofs: nat, k: nat)
    requires ofs + 4 <= |bs| && k < 4
    ensures WordByte(WordAt(bs, ofs), k) == bs[ofs + k]
  {
    hide WordByte;
    WordDigits(bs[ofs], bs[ofs + 1], bs[ofs + 2], bs[ofs + 3]);
  }
}
