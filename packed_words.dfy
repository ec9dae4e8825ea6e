/** The constexpr bit helpers at the top of include/xnu-trace/BitVector.h
    and the meaning of a packed buffer: element idx of an nbits-wide vector
    is bits [nbits * idx, nbits * (idx + 1)) of the buffer read as a
    little-endian bit string. */
module PackedWords {
  import opened Bits
  import opened Bytes

  // ---------------------------------------------------------------------
  // The helpers. A C++ `1 << k` on the int literal 1 is only defined for
  // k < 32; the helpers that shift the literal require it.

  /** `(val >> sb) & ((1 << (eb - sb)) - 1)`: bits [sb, eb) of val. */
  function ExtractBits(val: nat, sb: nat, eb: nat): (r: nat)
    requires sb <= eb && eb - sb < 32
    ensures r == Low(Shr(val, sb), eb - sb)
  {
    AndLowMask(Shr(val, sb), eb - sb);
    And(Shr(val, sb), Pow2(eb - sb) - 1)
  }

  /** `((1 << eb) - 1) ^ ((1 << sb) - 1)`: the bits [sb, eb) set. */
  function BitMask(sb: nat, eb: nat): (r: nat)
    requires sb <= eb
    ensures r == Pow2(eb) - Pow2(sb)
  {
    BitMaskValue(sb, eb);
    Xor(Pow2(eb) - 1, Pow2(sb) - 1)
  }

  /** insert_bits as written, for a w-bit word type: the field [sb, sb + nbits)
      of orig is cleared and `ins << sb` is or-ed in. The shift is evaluated
      in a 32-bit int or unsigned int (the value is promoted, or already 32
      bits wide), ins is not masked to nbits, the shifted value is widened to
      the word type (Widen) and the result is truncated back to w bits. */
  function InsertBits(orig: nat, ins: nat, sb: nat, nbits: nat, w: nat, signed: bool): (r: nat)
    requires orig < Pow2(w) && sb + nbits <= w && sb + nbits < 32
    ensures r < Pow2(w)
  {
    var shifted := Widen(Shl32(ins, sb), w, signed);
    LowBound(Or(And(orig, Not(BitMask(sb, sb + nbits), w)), shifted), w);
    Low(Or(And(orig, Not(BitMask(sb, sb + nbits), w)), shifted), w)
  }

  /** A 32-bit shift result converted to a w-bit unsigned word: a signed
      int32 is sign-extended when the word is wider than 32 bits. */
  function Widen(x: nat, w: nat, signed: bool): nat
  {
    if signed && w > 32 && x >= Pow2(31) then x + Shl(Pow2(w - 32) - 1, 32) else x
  }

  /** The insertion insert_bits is meant to perform: ins is cut to nbits bits
      and shifted within the w-bit word type. */
  function InsertField(orig: nat, ins: nat, sb: nat, nbits: nat, w: nat): (r: nat)
    requires orig < Pow2(w) && sb + nbits <= w
    ensures r < Pow2(w)
  {
    LowBound(Or(And(orig, Not(BitMask(sb, sb + nbits), w)), Shl(Low(ins, nbits), sb)), w);
    Low(Or(And(orig, Not(BitMask(sb, sb + nbits), w)), Shl(Low(ins, nbits), sb)), w)
  }

  /** `(val ^ msb) - msb` with `msb = 1 << (nbits - 1)`. */
  function SignExtend(val: nat, nbits: nat): (r: int)
    requires 1 <= nbits <= 32 && val < Pow2(nbits)
    ensures r == Signed(val, nbits)
  {
    XorSingleBit(val, nbits - 1);
    BitHighHalf(val, nbits - 1);
    Xor(val, Pow2(nbits - 1)) - Pow2(nbits - 1)
  }

  /** The bits of an int or uint32 value as a 32-bit two's-complement word. */
  function Pattern32(val: int): (r: nat)
    requires -(Pow2(31) as int) <= val < Pow2(32)
    ensures r < Pow2(32)
    ensures val >= 0 ==> r == val
    ensures val < 0 ==> r == val + Pow2(32)
  {
    if val >= 0 then val else val + Pow2(32)
  }

  /** val is a value of the nbits-wide integer type (signed or not). */
  predicate InRange(val: int, nbits: nat, signed: bool)
    requires nbits >= 1
  {
    if signed then -(Pow2(nbits - 1) as int) <= val < Pow2(nbits - 1) else 0 <= val < Pow2(nbits)
  }

  /** What an nbits-bit pattern reads as. */
  function Value(pattern: nat, nbits: nat, signed: bool): int
    requires nbits >= 1
  {
    if signed then Signed(pattern, nbits) else pattern
  }

  /** The first bit of element idx: start_bit_idx. */
  function StartBitIdx(nbits: nat, idx: nat): nat
  {
    nbits * idx
  }

  /** One past the last bit of element idx: end_bit_idx. */
  function EndBitIdx(nbits: nat, idx: nat): nat
  {
    nbits * (idx + 1)
  }

  /** The bit pattern of element idx. */
  function Element(s: seq<Byte>, nbits: nat, idx: nat): nat
  {
    LoadBits(s, StartBitIdx(nbits, idx), nbits)
  }

  /** The first n elements as values. */
  function Values(s: seq<Byte>, nbits: nat, signed: bool, n: nat): (r: seq<int>)
    requires nbits >= 1
    ensures |r| == n
  {
    seq(n, i requires 0 <= i < n => Value(Element(s, nbits, i), nbits, signed))
  }

  // ---------------------------------------------------------------------
  // The helpers, bit by bit.

  lemma {:induction false} BitRange(sb: nat, eb: nat, j: nat)
    requires sb <= eb
    ensures Pow2(sb) <= Pow2(eb) && (Bit(Pow2(eb) - Pow2(sb), j) <==> sb <= j < eb)
    decreases sb
  {
    Pow2Mono(sb, eb);
    if sb == 0 {
      BitLowMask(eb, j);
    } else {
      assert Pow2(eb) - Pow2(sb) == 2 * (Pow2(eb - 1) - Pow2(sb - 1)) + 0;
      BitDouble(Pow2(eb - 1) - Pow2(sb - 1), 0, j);
      if j > 0 {
        BitRange(sb - 1, eb - 1, j - 1);
      }
    }
  }

  lemma BitMaskValue(sb: nat, eb: nat)
    requires sb <= eb
    ensures Xor(Pow2(eb) - 1, Pow2(sb) - 1) == Pow2(eb) - Pow2(sb)
  {
    Pow2Mono(sb, eb);
    var x, m := Xor(Pow2(eb) - 1, Pow2(sb) - 1), Pow2(eb) - Pow2(sb);
    forall j: nat | j < eb
      ensures Bit(x, j) <==> Bit(m, j)
    {
      XorBit(Pow2(eb) - 1, Pow2(sb) - 1, j);
      BitLowMask(eb, j);
      BitLowMask(sb, j);
      BitRange(sb, eb, j);
    }
    XorBound(Pow2(eb) - 1, Pow2(sb) - 1, eb);
    Extensionality(x, m, eb);
  }

  lemma ExtractBitsBits(val: nat, sb: nat, eb: nat, j: nat)
    requires sb <= eb && eb - sb < 32
    ensures Bit(ExtractBits(val, sb, eb), j) <==> j < eb - sb && Bit(val, sb + j)
  {
    BitLow(Shr(val, sb), eb - sb, j);
    BitShr(val, sb, j);
  }

  /** Bit j of the cleared word `orig & ~bit_mask(sb, eb)`. */
  lemma ClearedBits(orig: nat, sb: nat, eb: nat, w: nat, j: nat)
    requires sb <= eb <= w && orig < Pow2(w)
    ensures Bit(And(orig, Not(BitMask(sb, eb), w)), j) <==> Bit(orig, j) && !(sb <= j < eb)
  {
    AndBit(orig, Not(BitMask(sb, eb), w), j);
    XorBit(BitMask(sb, eb), Pow2(w) - 1, j);
    BitRange(sb, eb, j);
    BitLowMask(w, j);
    if j >= w {
      BitAbove(orig, w, j);
    }
  }

  /** insert_bits as written puts bits of ins into the field and also or-s
      the bits of ins above nbits into the word above the field, and, for a
      signed value in a word wider than 32 bits, the sign of the shifted
      value into every bit from 32 on. */
  lemma InsertBitsBits(orig: nat, ins: nat, sb: nat, nbits: nat, w: nat, signed: bool, j: nat)
    requires orig < Pow2(w) && sb + nbits <= w && sb + nbits < 32
    ensures Bit(InsertBits(orig, ins, sb, nbits, w, signed), j) <==>
              j < w && (if sb <= j < sb + nbits then Bit(ins, j - sb)
                        else Bit(orig, j) || (sb + nbits <= j < 32 && Bit(ins, j - sb))
                             || (32 <= j && signed && Bit(ins, 31 - sb)))
  {
    var cleared := And(orig, Not(BitMask(sb, sb + nbits), w));
    var shifted := Widen(Shl32(ins, sb), w, signed);
    BitLow(Or(cleared, shifted), w, j);
    OrBit(cleared, shifted, j);
    ClearedBits(orig, sb, sb + nbits, w, j);
    ShiftedBits(ins, sb, w, signed, j);
  }

  /** Bit j of `ins << sb` computed in 32 bits and widened to w bits. */
  lemma ShiftedBits(ins: nat, sb: nat, w: nat, signed: bool, j: nat)
    requires sb < 32
    ensures Bit(Widen(Shl32(ins, sb), w, signed), j) <==>
              if j < 32 then sb <= j && Bit(ins, j - sb) else signed && j < w && Bit(ins, 31 - sb)
  {
    LowBound(Shl(ins, sb), 32);
    WidenBit(Shl32(ins, sb), w, signed, j);
    if j < 32 {
      BitLow(Shl(ins, sb), 32, j);
      BitShl(ins, sb, j);
    } else {
      BitLow(Shl(ins, sb), 32, 31);
      BitShl(ins, sb, 31);
    }
  }

  lemma WidenBit(x: nat, w: nat, signed: bool, j: nat)
    requires x < Pow2(32)
    ensures Bit(Widen(x, w, signed), j) <==> if j < 32 then Bit(x, j) else signed && j < w && Bit(x, 31)
  {
    BitHighHalf(x, 31);
    if signed && w > 32 && x >= Pow2(31) {
      WidenedBit(x, w, j);
    } else if j >= 32 {
      BitAbove(x, 32, j);
    }
  }

  lemma WidenedBit(x: nat, w: nat, j: nat)
    requires x < Pow2(32) && w > 32
    ensures Bit(x + Shl(Pow2(w - 32) - 1, 32), j) <==> if j < 32 then Bit(x, j) else j < w
  {
    OnesOver(x, 32, w - 32, j);
  }

  /** Bits of x followed by m ones from bit k on. */
  lemma OnesOver(x: nat, k: nat, m: nat, j: nat)
    requires x < Pow2(k)
    ensures Bit(x + Shl(Pow2(m) - 1, k), j) <==> if j < k then Bit(x, j) else j < k + m
  {
    BitSplit(x, Pow2(m) - 1, k, j);
    if j >= k {
      BitLowMask(m, j - k);
    }
  }

  /** The intended insertion replaces exactly the field. */
  lemma InsertFieldBits(orig: nat, ins: nat, sb: nat, nbits: nat, w: nat, j: nat)
    requires orig < Pow2(w) && sb + nbits <= w
    ensures Bit(InsertField(orig, ins, sb, nbits, w), j) <==>
              j < w && (if sb <= j < sb + nbits then Bit(ins, j - sb) else Bit(orig, j))
  {
    var cleared := And(orig, Not(BitMask(sb, sb + nbits), w));
    BitLow(Or(cleared, Shl(Low(ins, nbits), sb)), w, j);
    OrBit(cleared, Shl(Low(ins, nbits), sb), j);
    ClearedBits(orig, sb, sb + nbits, w, j);
    BitShl(Low(ins, nbits), sb, j);
    if j >= sb {
      BitLow(ins, nbits, j - sb);
    }
  }

  /** For a value that fits the field, insert_bits as written is the intended insertion. */
  lemma InsertBitsFits(orig: nat, ins: nat, sb: nat, nbits: nat, w: nat, signed: bool)
    requires orig < Pow2(w) && sb + nbits <= w && sb + nbits < 32 && ins < Pow2(nbits)
    ensures InsertBits(orig, ins, sb, nbits, w, signed) == InsertField(orig, ins, sb, nbits, w)
  {
    var x, y := InsertBits(orig, ins, sb, nbits, w, signed), InsertField(orig, ins, sb, nbits, w);
    forall j: nat | j < w
      ensures Bit(x, j) <==> Bit(y, j)
    {
      FitsBit(orig, ins, sb, nbits, w, signed, j);
    }
    Extensionality(x, y, w);
  }

  lemma FitsBit(orig: nat, ins: nat, sb: nat, nbits: nat, w: nat, signed: bool, j: nat)
    requires orig < Pow2(w) && sb + nbits <= w && sb + nbits < 32 && ins < Pow2(nbits)
    ensures Bit(InsertBits(orig, ins, sb, nbits, w, signed), j) <==> Bit(InsertField(orig, ins, sb, nbits, w), j)
  {
    InsertBitsBits(orig, ins, sb, nbits, w, signed, j);
    InsertFieldBits(orig, ins, sb, nbits, w, j);
    if sb + nbits <= j {
      BitAbove(ins, nbits, j - sb);
    }
    BitAbove(ins, nbits, 31 - sb);
  }

  /** The field of a loaded word is the buffer's bits at the word's position plus sb. */
  lemma FieldOfWord(s: seq<Byte>, off: nat, nb: nat, sb: nat, n: nat)
    requires off + nb <= |s| && sb + n <= 8 * nb
    ensures Low(Shr(LoadLE(s, off, nb), sb), n) == LoadBits(s, 8 * off + sb, n)
  {
    var word := LoadLE(s, off, nb);
    forall j: nat | j < n
      ensures Bit(Low(Shr(word, sb), n), j) <==> Bit(LoadBits(s, 8 * off + sb, n), j)
    {
      BitLow(Shr(word, sb), n, j);
      BitShr(word, sb, j);
      LoadLEBit(s, off, nb, sb + j);
      LoadBitsBit(s, 8 * off + sb, n, j);
    }
    LowBound(Shr(word, sb), n);
    LoadBitsBound(s, 8 * off + sb, n);
    Extensionality(Low(Shr(word, sb), n), LoadBits(s, 8 * off + sb, n), n);
  }

  /** Storing a word whose field [sb, sb + n) was replaced by v, and whose other
      bits are those already in the buffer, splices v into the buffer. */
  lemma StoreField(s: seq<Byte>, off: nat, nb: nat, word': nat, sb: nat, n: nat, v: nat)
    requires off + nb <= |s| && sb + n <= 8 * nb
    requires forall j: nat :: j < 8 * nb ==>
               (Bit(word', j) <==> if sb <= j < sb + n then Bit(v, j - sb) else Bit(LoadLE(s, off, nb), j))
    ensures Spliced(s, StoreLE(s, off, nb, word'), 8 * off + sb, n, v)
  {
    LoadLEIsLoadBits(s, off, nb);
    StoreLESplices(s, off, nb, word');
    SplicedInWord(s, StoreLE(s, off, nb, word'), 8 * off, 8 * nb, LoadLE(s, off, nb), word', sb, n, v);
  }

  // ---------------------------------------------------------------------
  // Elements.

  lemma {:induction false} MulMono(a: nat, b: nat, c: nat)
    requires b <= c
    ensures a * b <= a * c
    decreases c - b
  {
    if b < c {
      MulMono(a, b, c - 1);
      assert a * c == a * (c - 1) + a;
    }
  }

  lemma MulStrict(t: nat, a: nat, b: nat)
    requires t * a < t * b
    ensures a < b
  {
    if a >= b {
      MulMono(t, b, a);
    }
  }

  /** Element idx < n ends inside the first n elements. */
  lemma ElementEnd(nbits: nat, n: nat, idx: nat)
    requires idx < n
    ensures nbits * idx + nbits <= nbits * n
    ensures nbits * (idx + 1) == nbits * idx + nbits
  {
    MulMono(nbits, idx + 1, n);
  }

  /** Element idx + 1 starts where element idx ends. */
  lemma NextStart(nbits: nat, idx: nat)
    ensures StartBitIdx(nbits, idx + 1) == StartBitIdx(nbits, idx) + nbits
  {
  }

  /** Splicing an element's bits sets that element and no other one. */
  lemma SpliceElements(s: seq<Byte>, s': seq<Byte>, nbits: nat, signed: bool, n: nat, idx: nat, p: nat, v: nat)
    requires nbits >= 1 && idx < n && v < Pow2(nbits)
    requires p == StartBitIdx(nbits, idx) && Spliced(s, s', p, nbits, v)
    ensures Values(s', nbits, signed, n) == Values(s, nbits, signed, n)[idx := Value(v, nbits, signed)]
  {
    SpliceSetsElement(s, s', nbits, idx, v);
    forall i | 0 <= i < n && i != idx
      ensures Element(s', nbits, i) == Element(s, nbits, i)
    {
      SpliceKeepsElement(s, s', nbits, idx, v, i);
    }
  }

  lemma SpliceSetsElement(s: seq<Byte>, s': seq<Byte>, nbits: nat, idx: nat, v: nat)
    requires v < Pow2(nbits) && Spliced(s, s', StartBitIdx(nbits, idx), nbits, v)
    ensures Element(s', nbits, idx) == v
  {
    forall k: nat | k < nbits
      ensures Bit(Element(s', nbits, idx), k) <==> Bit(v, k)
    {
      assert SplicedBit(s, s', StartBitIdx(nbits, idx), nbits, v, StartBitIdx(nbits, idx) + k);
      LoadBitsBit(s', StartBitIdx(nbits, idx), nbits, k);
    }
    LoadBitsBound(s', StartBitIdx(nbits, idx), nbits);
    Extensionality(Element(s', nbits, idx), v, nbits);
  }

  lemma SpliceKeepsElement(s: seq<Byte>, s': seq<Byte>, nbits: nat, idx: nat, v: nat, i: nat)
    requires i != idx && Spliced(s, s', StartBitIdx(nbits, idx), nbits, v)
    ensures Element(s', nbits, i) == Element(s, nbits, i)
  {
    if i < idx {
      ElementEnd(nbits, idx, i);
    } else {
      ElementEnd(nbits, i, idx);
    }
    forall k: nat | k < nbits
      ensures Bit(Element(s', nbits, i), k) <==> Bit(Element(s, nbits, i), k)
    {
      assert SplicedBit(s, s', StartBitIdx(nbits, idx), nbits, v, StartBitIdx(nbits, i) + k);
      LoadBitsBit(s', StartBitIdx(nbits, i), nbits, k);
      LoadBitsBit(s, StartBitIdx(nbits, i), nbits, k);
    }
    LoadBitsBound(s', StartBitIdx(nbits, i), nbits);
    LoadBitsBound(s, StartBitIdx(nbits, i), nbits);
    Extensionality(Element(s', nbits, i), Element(s, nbits, i), nbits);
  }

  lemma {:induction false} LoadBitsZero(s: seq<Byte>, p: nat, n: nat)
    requires forall i | 0 <= i < |s| :: s[i] == 0
    ensures LoadBits(s, p, n) == 0
    decreases n
  {
    if n > 0 {
      if p / 8 < |s| {
        assert s[p / 8] == 0;
        BitZero(p % 8);
      }
      LoadBitsZero(s, p + 1, n - 1);
    }
  }

  /** A zero-filled buffer holds only zero elements. */
  lemma ZeroValues(s: seq<Byte>, nbits: nat, signed: bool, n: nat)
    requires nbits >= 1 && forall i | 0 <= i < |s| :: s[i] == 0
    ensures Values(s, nbits, signed, n) == seq(n, _ => 0)
  {
    forall i | 0 <= i < n
      ensures Element(s, nbits, i) == 0
    {
      LoadBitsZero(s, StartBitIdx(nbits, i), nbits);
    }
  }

  /** Storing the low nbits bits of a value's 32-bit pattern keeps every value
      of the nbits-wide type. */
  lemma PatternValue(val: int, nbits: nat, signed: bool)
    requires 1 <= nbits <= 32 && InRange(val, nbits, signed)
    ensures -(Pow2(31) as int) <= val < Pow2(32)
    ensures Value(Low(Pattern32(val), nbits), nbits, signed) == val
  {
    Pow2Mono(nbits, 32);
    Pow2Mono(nbits - 1, 31);
    if val >= 0 {
      LowSmall(val, nbits);
    } else {
      NegativePattern(val, nbits);
    }
  }

  /** The 32-bit pattern of a negative val is val + 2^nbits followed by ones. */
  lemma NegativePattern(val: int, nbits: nat)
    requires 1 <= nbits <= 32 && -(Pow2(nbits - 1) as int) <= val < 0
    requires -(Pow2(31) as int) <= val
    ensures Signed(Low(Pattern32(val), nbits), nbits) == val
  {
    NegativeLow(val, nbits, 32, Pattern32(val));
  }

  /** The low nbits bits of the w-bit pattern x of a negative val read back as val. */
  lemma NegativeLow(val: int, nbits: nat, w: nat, x: nat)
    requires 1 <= nbits <= w && -(Pow2(nbits - 1) as int) <= val < 0 && x == val + Pow2(w)
    ensures Signed(Low(x, nbits), nbits) == val
  {
    var p := Pow2(nbits);
    assert p == 2 * Pow2(nbits - 1);
    var lo: nat := val + p;
    OnesAbove(nbits, w - nbits);
    var hi := Shl(Pow2(w - nbits) - 1, nbits);
    assert val + Pow2(w) == lo + hi;
    LowAbove(lo, Pow2(w - nbits) - 1, nbits);
    LowSmall(lo, nbits);
  }

  /** 2^n + ((2^m - 1) << n) == 2^(n + m) */
  lemma {:induction false} OnesAbove(n: nat, m: nat)
    ensures Pow2(n) + Shl(Pow2(m) - 1, n) == Pow2(n + m)
  {
    if n == 0 {
    } else {
      OnesAbove(n - 1, m);
    }
  }

  /** Adding a multiple of 2^n does not change the low n bits. */
  lemma LowAbove(lo: nat, hi: nat, n: nat)
    requires lo < Pow2(n)
    ensures Low(lo + Shl(hi, n), n) == Low(lo, n)
  {
    var x := lo + Shl(hi, n);
    forall j: nat | j < n
      ensures Bit(Low(x, n), j) <==> Bit(Low(lo, n), j)
    {
      BitLow(x, n, j);
      BitLow(lo, n, j);
      BitSplit(lo, hi, n, j);
    }
    LowBound(x, n);
    LowBound(lo, n);
    Extensionality(Low(x, n), Low(lo, n), n);
  }

  /** A splice only looks at the low n bits of the spliced value. */
  lemma SplicedLow(s: seq<Byte>, s': seq<Byte>, lo: nat, n: nat, v: nat)
    requires Spliced(s, s', lo, n, v)
    ensures Spliced(s, s', lo, n, Low(v, n))
    ensures Low(v, n) < Pow2(n)
  {
    forall p: nat
      ensures SplicedBit(s, s', lo, n, Low(v, n), p)
    {
      assert SplicedBit(s, s', lo, n, v, p);
      if lo <= p < lo + n {
        BitLow(v, n, p - lo);
      }
    }
    LowBound(v, n);
  }

  /** Storing a word whose field was rewritten by insert_bits with a value
      that fits the field splices that value into the buffer. */
  lemma StoreInsertBits(s: seq<Byte>, off: nat, nb: nat, sb: nat, nbits: nat, signed: bool, p: nat)
    requires off + nb <= |s| && sb + nbits <= 8 * nb && sb + nbits < 32 && p < Pow2(nbits)
    ensures LoadLE(s, off, nb) < Pow2(8 * nb)
    ensures Spliced(s, StoreLE(s, off, nb, InsertBits(LoadLE(s, off, nb), p, sb, nbits, 8 * nb, signed)), 8 * off + sb, nbits, p)
  {
    LoadLEBound(s, off, nb);
    var word := LoadLE(s, off, nb);
    InsertBitsFits(word, p, sb, nbits, 8 * nb, signed);
    LowSmall(p, nbits);
    StoreInsertField(s, off, nb, sb, nbits, p);
  }

  /** Storing a word whose field was rewritten by the intended insertion
      splices the value into the buffer. */
  lemma StoreInsertField(s: seq<Byte>, off: nat, nb: nat, sb: nat, nbits: nat, p: nat)
    requires off + nb <= |s| && sb + nbits <= 8 * nb
    ensures LoadLE(s, off, nb) < Pow2(8 * nb)
    ensures Spliced(s, StoreLE(s, off, nb, InsertField(LoadLE(s, off, nb), p, sb, nbits, 8 * nb)), 8 * off + sb, nbits, Low(p, nbits))
  {
    LoadLEBound(s, off, nb);
    var word := LoadLE(s, off, nb);
    var word' := InsertField(word, p, sb, nbits, 8 * nb);
    forall j: nat | j < 8 * nb
      ensures Bit(word', j) <==> if sb <= j < sb + nbits then Bit(Low(p, nbits), j - sb) else Bit(word, j)
    {
      InsertFieldBits(word, p, sb, nbits, 8 * nb, j);
      if sb <= j < sb + nbits {
        BitLow(p, nbits, j - sb);
      }
    }
    StoreField(s, off, nb, word', sb, nbits, Low(p, nbits));
  }
}
