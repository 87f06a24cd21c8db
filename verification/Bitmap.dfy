/** The word-packed bitmap (bitmap.c), proved against the sequence of booleans it stores. */
module Bitmap {
  import opened Sector
  import opened Words
  import opened FreeList

  const BITMAP_ERROR := 0xFFFF_FFFF

  function ElemCount(bitCount: nat): nat {
    (bitCount + (ELEM_BITS - 1)) / ELEM_BITS
  }

  predicate BitAt(words: seq<Elem>, i: nat)
    requires i < ELEM_BITS * |words|
  {
    Bit(words[i / ELEM_BITS], i % ELEM_BITS)
  }

  /** `words` stores `contents`, with every bit past its end zero. */
  ghost predicate Packs(words: seq<Elem>, contents: seq<bool>) {
    && |words| == ElemCount(|contents|)
    && (forall i :: 0 <= i < |contents| ==> contents[i] == BitAt(words, i))
    && (forall i :: |contents| <= i < ELEM_BITS * |words| ==> !BitAt(words, i))
  }

  /** The words are determined by the bits they store. */
  lemma PacksUnique(a: seq<Elem>, b: seq<Elem>, contents: seq<bool>)
    requires Packs(a, contents) && Packs(b, contents)
    ensures a == b
  {
    forall w | 0 <= w < |a| ensures a[w] == b[w] {
      forall k | 0 <= k < ELEM_BITS ensures Bit(a[w], k) == Bit(b[w], k) {
        var i := ELEM_BITS * w + k;
        assert i / ELEM_BITS == w && i % ELEM_BITS == k;
        assert BitAt(a, i) == BitAt(b, i);
      }
      ElemLimit();
      SameBits(a[w], b[w], ELEM_BITS);
    }
  }

  /** Changing one bit of one word changes exactly one bit of the bitmap. */
  lemma PackOne(words: seq<Elem>, contents: seq<bool>, idx: nat, w: Elem, value: bool)
    requires Packs(words, contents) && idx < |contents|
    requires forall k :: 0 <= k < ELEM_BITS ==>
               Bit(w, k) == if k == idx % ELEM_BITS then value else Bit(words[idx / ELEM_BITS], k)
    ensures Packs(words[idx / ELEM_BITS := w], contents[idx := value])
  {
    var after := words[idx / ELEM_BITS := w];
    forall i | 0 <= i < ELEM_BITS * |words|
      ensures BitAt(after, i) == if i == idx then value else BitAt(words, i)
    {
      if i / ELEM_BITS == idx / ELEM_BITS {
        assert BitAt(after, i) == Bit(w, i % ELEM_BITS);
      }
    }
  }

  /** Masking the last element clears the padding and nothing else. */
  lemma PackMasked(words: seq<Elem>, contents: seq<bool>)
    requires |words| == ElemCount(|contents|) && |contents| > 0
    requires forall i :: 0 <= i < |contents| ==> contents[i] == BitAt(words, i)
    ensures Packs(words[|words| - 1 := And(words[|words| - 1], LastMask(|contents| % ELEM_BITS))], contents)
  {
    var last := |words| - 1;
    var after := words[last := And(words[last], LastMask(|contents| % ELEM_BITS))];
    forall i | 0 <= i < ELEM_BITS * |words|
      ensures BitAt(after, i) == (i < |contents| && BitAt(words, i))
    {
      if i / ELEM_BITS == last {
        LastMaskBit(words[last], |contents| % ELEM_BITS, i % ELEM_BITS);
      }
    }
  }

  /** `cnt` bits from `i` on all equal `value`. */
  predicate Run(contents: seq<bool>, i: nat, cnt: nat, value: bool) {
    i + cnt <= |contents| && forall k :: i <= k < i + cnt ==> contents[k] == value
  }

  function SetRange(contents: seq<bool>, start: nat, cnt: nat, value: bool): (r: seq<bool>)
    requires start + cnt <= |contents|
    ensures |r| == |contents|
    ensures forall i :: 0 <= i < |r| ==> r[i] == if start <= i < start + cnt then value else contents[i]
  {
    contents[..start] + seq(cnt, _ => value) + contents[start + cnt..]
  }

  class BitMap {
    const bitCount: nat
    const bits: array<Elem>
    ghost var contents: seq<bool>

    ghost function Repr(): set<object> {
      {this, bits}
    }

    ghost predicate Valid()
      reads Repr()
    {
      bitCount < BITMAP_ERROR && |contents| == bitCount && Packs(bits[..], contents)
    }

    /** bitmap_create. */
    constructor (bitCount: nat)
      requires bitCount < BITMAP_ERROR
      ensures Valid() && this.bitCount == bitCount && fresh(bits)
      ensures contents == seq(bitCount, _ => false)
    {
      this.bitCount := bitCount;
      bits := new Elem[ElemCount(bitCount)](_ => 0);
      contents := seq(bitCount, _ => false);
      new;
      forall i | 0 <= i < ELEM_BITS * bits.Length ensures !BitAt(bits[..], i) {
        ZeroBit(i % ELEM_BITS);
      }
      SetAll(false);
    }

    method Mark(idx: nat)
      requires Valid() && idx < bitCount
      modifies this`contents, bits
      ensures Valid() && contents == old(contents)[idx := true]
    {
      var w := Or(bits[idx / ELEM_BITS], BitMask(idx % ELEM_BITS));
      forall k | 0 <= k < ELEM_BITS ensures Bit(w, k) == (k == idx % ELEM_BITS || Bit(bits[idx / ELEM_BITS], k)) {
        MarkBit(bits[idx / ELEM_BITS], idx % ELEM_BITS, k);
      }
      PackOne(bits[..], contents, idx, w, true);
      bits[idx / ELEM_BITS] := w;
      contents := contents[idx := true];
    }

    method Reset(idx: nat)
      requires Valid() && idx < bitCount
      modifies this`contents, bits
      ensures Valid() && contents == old(contents)[idx := false]
    {
      var w := And(bits[idx / ELEM_BITS], Not(BitMask(idx % ELEM_BITS)));
      forall k | 0 <= k < ELEM_BITS ensures Bit(w, k) == (k != idx % ELEM_BITS && Bit(bits[idx / ELEM_BITS], k)) {
        ResetBit(bits[idx / ELEM_BITS], idx % ELEM_BITS, k);
      }
      PackOne(bits[..], contents, idx, w, false);
      bits[idx / ELEM_BITS] := w;
      contents := contents[idx := false];
    }

    method Flip(idx: nat)
      requires Valid() && idx < bitCount
      modifies this`contents, bits
      ensures Valid() && contents == old(contents)[idx := !old(contents)[idx]]
    {
      var w := Xor(bits[idx / ELEM_BITS], BitMask(idx % ELEM_BITS));
      forall k | 0 <= k < ELEM_BITS
        ensures Bit(w, k) == if k == idx % ELEM_BITS then !contents[idx] else Bit(bits[idx / ELEM_BITS], k)
      {
        FlipBit(bits[idx / ELEM_BITS], idx % ELEM_BITS, k);
        assert contents[idx] == BitAt(bits[..], idx);
      }
      PackOne(bits[..], contents, idx, w, !contents[idx]);
      bits[idx / ELEM_BITS] := w;
      contents := contents[idx := !contents[idx]];
    }

    method Set(idx: nat, value: bool)
      requires Valid() && idx < bitCount
      modifies this`contents, bits
      ensures Valid() && contents == old(contents)[idx := value]
    {
      if value {
        Mark(idx);
      } else {
        Reset(idx);
      }
    }

    method Test(idx: nat) returns (b: bool)
      requires Valid() && idx < bitCount
      ensures b == contents[idx]
    {
      TestBit(bits[idx / ELEM_BITS], idx % ELEM_BITS);
      assert contents[idx] == BitAt(bits[..], idx);
      b := And(bits[idx / ELEM_BITS], BitMask(idx % ELEM_BITS)) != 0;
    }

    method SetMultiple(start: nat, cnt: nat, value: bool)
      requires Valid() && start + cnt <= bitCount
      modifies this`contents, bits
      ensures Valid() && contents == SetRange(old(contents), start, cnt, value)
    {
      var i := 0;
      while i < cnt
        invariant 0 <= i <= cnt && Valid()
        invariant contents == SetRange(old(contents), start, i, value)
      {
        Set(start + i, value);
        i := i + 1;
      }
    }

    method SetAll(value: bool)
      requires Valid()
      modifies this`contents, bits
      ensures Valid() && contents == seq(bitCount, _ => value)
    {
      SetMultiple(0, bitCount, value);
    }

    method Count(start: nat, cnt: nat, value: bool) returns (n: nat)
      requires Valid() && start + cnt <= bitCount
      ensures n == |Positions(contents[start..start + cnt], value, cnt)|
    {
      n := 0;
      var i := 0;
      ghost var window := contents[start..start + cnt];
      while i < cnt
        invariant 0 <= i <= cnt
        invariant n == |Positions(window, value, i)|
      {
        var b := Test(start + i);
        assert window[i] == contents[start + i];
        if b == value {
          n := n + 1;
        }
        i := i + 1;
      }
    }

    method Contains(start: nat, cnt: nat, value: bool) returns (b: bool)
      requires Valid() && start + cnt <= bitCount
      ensures b == !Run(contents, start, cnt, !value)
    {
      var i := 0;
      while i < cnt
        invariant 0 <= i <= cnt
        invariant forall k :: start <= k < start + i ==> contents[k] != value
      {
        var t := Test(start + i);
        if t == value {
          return true;
        }
        i := i + 1;
      }
      return false;
    }

    /** bitmap_all. */
    method All(start: nat, cnt: nat) returns (b: bool)
      requires Valid() && start + cnt <= bitCount
      ensures b == Run(contents, start, cnt, true)
    {
      var c := Contains(start, cnt, false);
      b := !c;
    }

    method Scan(start: nat, cnt: nat, value: bool) returns (r: nat)
      requires Valid() && start <= bitCount
      ensures r != BITMAP_ERROR ==> start <= r && Run(contents, r, cnt, value)
      ensures r != BITMAP_ERROR ==> forall j :: start <= j < r ==> !Run(contents, j, cnt, value)
      ensures r == BITMAP_ERROR ==> forall j :: start <= j ==> !Run(contents, j, cnt, value)
    {
      if cnt <= bitCount {
        var last := bitCount - cnt;
        var i := start;
        while i <= last
          invariant start <= i
          invariant forall j :: start <= j < i ==> !Run(contents, j, cnt, value)
        {
          var c := Contains(i, cnt, !value);
          if !c {
            return i;
          }
          i := i + 1;
        }
      }
      return BITMAP_ERROR;
    }

    method ScanAndFlip(start: nat, cnt: nat, value: bool) returns (r: nat)
      requires Valid() && start <= bitCount
      modifies this`contents, bits
      ensures Valid()
      ensures r != BITMAP_ERROR ==>
                && start <= r && Run(old(contents), r, cnt, value)
                && (forall j :: start <= j < r ==> !Run(old(contents), j, cnt, value))
                && contents == SetRange(old(contents), r, cnt, !value)
      ensures r == BITMAP_ERROR ==>
                contents == old(contents) && forall j :: start <= j ==> !Run(contents, j, cnt, value)
    {
      r := Scan(start, cnt, value);
      if r != BITMAP_ERROR {
        SetMultiple(r, cnt, !value);
      }
    }

    /** The bytes bitmap_write passes to the file: the element array's memory. */
    function FileImage(): (bs: seq<byte>)
      requires Valid()
      reads Repr()
      ensures |bs| == ELEM_BYTES * ElemCount(bitCount)
    {
      ElemsBytes(bits[..])
    }

    /** bitmap_read once the file has delivered all the bytes asked for: fill the element
        array, then mask off the bits of the last element that are past the end. */
    method Load(image: seq<byte>)
      requires Valid() && |image| == ELEM_BYTES * ElemCount(bitCount)
      modifies this`contents, bits
      ensures Valid()
      ensures forall i :: 0 <= i < bitCount ==> contents[i] == Bit(image[i / 8], i % 8)
    {
      hide ElemAt, Bit;
      ghost var words := BytesElems(image);
      var i := 0;
      while i < bits.Length
        invariant 0 <= i <= bits.Length
        invariant forall j :: 0 <= j < i ==> bits[j] == words[j]
      {
        bits[i] := ElemAt(image, ELEM_BYTES * i);
        i := i + 1;
      }
      assert bits[..] == words;
      forall i | 0 <= i < bitCount ensures BitAt(words, i) == Bit(image[i / 8], i % 8) {
        ImageBitRead(image, i);
      }
      contents := seq(bitCount, i requires 0 <= i < bitCount => BitAt(words, i));
      if bitCount > 0 {
        var last := ElemCount(bitCount) - 1;
        PackMasked(words, contents);
        bits[last] := And(bits[last], LastMask(bitCount % ELEM_BITS));
      }
    }
  }

  /** In the file, bit `i` of the map is bit i % 8 of byte i / 8; the bits past the last are zero. */
  lemma FileBit(words: seq<Elem>, contents: seq<bool>, i: nat)
    requires Packs(words, contents) && i < ELEM_BITS * |words|
    ensures |contents| <= ELEM_BITS * |words| < |contents| + ELEM_BITS
    ensures i / 8 < |ElemsBytes(words)|
    ensures Bit(ElemsBytes(words)[i / 8], i % 8) == (i < |contents| && contents[i])
  {
    hide Bit, ElemsBytes;
    ImageBit(words, i);
    assert BitAt(words, i) == Bit(words[i / ELEM_BITS], i % ELEM_BITS);
  }

  /** Read from a file, too, bit `i` of the map is bit i % 8 of byte i / 8. */
  lemma ImageBitRead(image: seq<byte>, i: nat)
    requires |image| % ELEM_BYTES == 0 && i < 8 * |image|
    ensures i / ELEM_BITS < |BytesElems(image)| && BitAt(BytesElems(image), i) == Bit(image[i / 8], i % 8)
  {
    hide Bit, BytesElems, ElemsBytes;
    BytesRoundTrip(image);
    ImageBit(BytesElems(image), i);
  }

  /** Writing a bitmap out and reading it back restores every word. */
  lemma ImageRoundTrip(words: seq<Elem>, contents: seq<bool>, loaded: seq<Elem>, read: seq<bool>)
    requires Packs(words, contents) && Packs(loaded, read) && |read| == |contents|
    requires forall i :: 0 <= i < |read| ==> read[i] == Bit(ElemsBytes(words)[i / 8], i % 8)
    ensures read == contents && loaded == words
  {
    hide Bit, ElemsBytes;
    forall i | 0 <= i < |read| ensures read[i] == contents[i] {
      FileBit(words, contents, i);
    }
    assert read == contents;
    PacksUnique(loaded, words, contents);
  }
}
