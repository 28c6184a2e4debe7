/**
 Line tags: the memory address with its low bits masked off (dynamorio_client/thread_data.cpp,
 add_address), by a mask computed from the line size (dynamorio_client/main.cpp).
 */
module Addresses {
  import opened Common

  type Word = bv64

  function Half(w: Word): Word {
    w >> 1
  }

  predicate Odd(w: Word) {
    w & 1 == 1
  }

  /** The number a word stands for, bit by bit. */
  function Value(w: Word): nat
    decreases w
  {
    if w == 0 then 0
    else
      HalfSmaller(w);
      2 * Value(Half(w)) + if Odd(w) then 1 else 0
  }

  function LineMask(lineSize: Word): Word {
    !(lineSize - 1)
  }

  function Masked(addr: Word, mask: Word): Word {
    addr & mask
  }

  function LineTag(addr: Word, lineMask: Word): nat {
    Value(Masked(addr, lineMask))
  }

  predicate IsPowerOfTwo(w: Word) {
    w != 0 && w & (w - 1) == 0
  }

  // ---------- values ----------

  lemma HalfSmaller(w: Word)
    requires w != 0
    ensures Half(w) < w
  {
  }

  /** The number of bits up to the highest one set. */
  ghost function Bits(w: Word): nat
    decreases w
  {
    if w == 0 then 0
    else
      HalfSmaller(w);
      1 + Bits(Half(w))
  }

  lemma {:induction false} FewerBits(w: Word)
    requires w != 0
    ensures Bits(Half(w)) < Bits(w)
  {
  }

  lemma {:induction false} ValueBits(w: Word)
    ensures Value(w) == 2 * Value(Half(w)) + if Odd(w) then 1 else 0
  {
    if w == 0 {
      assert Half(0) == 0 && !Odd(0);
    }
  }

  /** Every bit of v is one of w. */
  predicate Within(v: Word, w: Word) {
    v & !w == 0
  }

  lemma HalvesWithin(v: Word, w: Word)
    requires Within(v, w)
    ensures Within(Half(v), Half(w)) && (Odd(v) ==> Odd(w)) && (w == 0 ==> v == 0)
  {
  }

  lemma SameHalves(v: Word, w: Word)
    requires Half(v) == Half(w) && (Odd(v) <==> Odd(w))
    ensures v == w
  {
  }

  /** Fewer bits make a smaller number. */
  lemma {:induction false} WithinOrder(v: Word, w: Word)
    requires Within(v, w) && v != w
    ensures Value(v) < Value(w)
    decreases Bits(w)
  {
    hide Value, Half, Odd, Within, Bits;
    ValueBits(v);
    ValueBits(w);
    HalvesWithin(v, w);
    FewerBits(w);
    if Half(v) == Half(w) {
      if Odd(v) <==> Odd(w) {
        SameHalves(v, w);
      }
    } else {
      WithinOrder(Half(v), Half(w));
    }
  }

  /** Different words stand for different numbers. */
  lemma {:induction false} ValueInjective(v: Word, w: Word)
    ensures Value(v) == Value(w) <==> v == w
    decreases Bits(v) + Bits(w)
  {
    hide Value, Half, Odd, Bits;
    if v != w {
      ValueBits(v);
      ValueBits(w);
      HalvesShrink(v, w);
      ValueInjective(Half(v), Half(w));
      if Half(v) == Half(w) && (Odd(v) <==> Odd(w)) {
        SameHalves(v, w);
      }
    }
  }

  lemma {:induction false} HalvesShrink(v: Word, w: Word)
    requires v != w
    ensures Bits(Half(v)) + Bits(Half(w)) < Bits(v) + Bits(w)
  {
    hide Half;
    HalfOfZero();
    if v != 0 {
      FewerBits(v);
    }
    if w != 0 {
      FewerBits(w);
    }
  }

  lemma HalfOfZero()
    ensures Half(0) == 0
  {
  }

  lemma NoBits(w: Word)
    ensures Within(0, w) && Value(0) == 0
  {
  }

  lemma {:induction false} ValuePositive(w: Word)
    requires w != 0
    ensures Value(w) > 0
  {
    hide Value, Within;
    NoBits(w);
    WithinOrder(0, w);
  }

  // ---------- multiples ----------

  /** Doubling address and line size doubles the base of the line. */
  lemma TwiceBase(h: nat, bit: nat, v: nat)
    requires bit < 2 && v > 0
    ensures 2 * (h / v * v) == (2 * h + bit) / (2 * v) * (2 * v)
  {
    var q, r := h / v, h % v;
    assert 2 * h + bit == q * (2 * v) + (2 * r + bit);
    QuotientUnique(2 * h + bit, 2 * v, q, 2 * r + bit);
    assert 2 * (q * v) == q * (2 * v);
  }

  lemma BaseBounds(n: nat, v: nat)
    requires v > 0
    ensures (n / v * v) % v == 0 && n / v * v <= n < n / v * v + v
  {
    var q := n / v;
    assert n == q * v + n % v;
    QuotientUnique(q * v, v, q, 0);
  }

  lemma SameMultiple(q: nat, r: nat, d: nat)
    requires d > 0
    ensures q * d == r * d <==> q == r
  {
    QuotientUnique(q * d, d, q, 0);
    QuotientUnique(r * d, d, r, 0);
  }

  // ---------- tags ----------

  lemma HalveSize(lineSize: Word)
    requires IsPowerOfTwo(lineSize) && lineSize != 1
    ensures IsPowerOfTwo(Half(lineSize)) && !Odd(lineSize)
  {
  }

  function Twice(w: Word): Word {
    w << 1
  }

  lemma TwiceHalf(w: Word)
    requires !Odd(w)
    ensures Twice(Half(w)) == w
  {
  }

  lemma HalveMasked(addr: Word, half: Word)
    ensures Half(Masked(addr, LineMask(Twice(half)))) == Masked(Half(addr), LineMask(half))
    ensures !Odd(Masked(addr, LineMask(Twice(half))))
  {
  }

  lemma NoMask(addr: Word)
    ensures Masked(addr, LineMask(1)) == addr && Value(1) == 1
  {
    assert Half(1) == 0;
  }

  /** With lines of a power of two, the tag is the largest multiple of the line size that is not
      beyond the address. */
  lemma {:induction false} TagIsBase(addr: Word, lineSize: Word)
    requires IsPowerOfTwo(lineSize)
    ensures Value(lineSize) > 0
    ensures LineTag(addr, LineMask(lineSize)) == Value(addr) / Value(lineSize) * Value(lineSize)
    decreases Bits(lineSize)
  {
    hide Value, Half, Odd, LineMask, Masked, IsPowerOfTwo, Bits, Twice;
    SizePositive(lineSize);
    if lineSize == 1 {
      NoMask(addr);
    } else {
      HalveSize(lineSize);
      FewerBits(lineSize);
      TwiceHalf(lineSize);
      HalveMasked(addr, Half(lineSize));
      TagIsBase(Half(addr), Half(lineSize));
      ValueBits(lineSize);
      ValueBits(addr);
      ValueBits(Masked(addr, LineMask(lineSize)));
      TwiceBase(Value(Half(addr)), if Odd(addr) then 1 else 0, Value(Half(lineSize)));
    }
  }

  lemma {:induction false} SizePositive(lineSize: Word)
    requires IsPowerOfTwo(lineSize)
    ensures lineSize != 0 && Value(lineSize) > 0
  {
    hide Value;
    ValuePositive(lineSize);
  }

  /** The address lies in the line that starts at its tag. */
  lemma {:induction false} TagBounds(addr: Word, lineSize: Word)
    requires IsPowerOfTwo(lineSize)
    ensures Value(lineSize) > 0 && LineTag(addr, LineMask(lineSize)) % Value(lineSize) == 0
    ensures LineTag(addr, LineMask(lineSize)) <= Value(addr) < LineTag(addr, LineMask(lineSize)) + Value(lineSize)
  {
    hide Value, LineMask, IsPowerOfTwo, LineTag;
    TagIsBase(addr, lineSize);
    BaseBounds(Value(addr), Value(lineSize));
  }

  /** The two addresses lie in the same line of this size. */
  ghost predicate SameLine(a: Word, b: Word, lineSize: Word)
    requires Value(lineSize) > 0
  {
    Value(a) / Value(lineSize) == Value(b) / Value(lineSize)
  }

  ghost predicate SameTag(a: Word, b: Word, lineSize: Word) {
    LineTag(a, LineMask(lineSize)) == LineTag(b, LineMask(lineSize))
  }

  lemma {:induction false} SameTagSameLine(a: Word, b: Word, lineSize: Word)
    requires IsPowerOfTwo(lineSize)
    ensures Value(lineSize) > 0
    ensures SameTag(a, b, lineSize) <==> SameLine(a, b, lineSize)
  {
    hide Value, LineMask, IsPowerOfTwo, LineTag;
    TagIsBase(a, lineSize);
    TagIsBase(b, lineSize);
    SameMultiple(Value(a) / Value(lineSize), Value(b) / Value(lineSize), Value(lineSize));
  }

  /** Equal tags mean equal lines, for all addresses, exactly when the line size is a power of two. */
  lemma {:induction false} TagsAreLinesIff(lineSize: Word)
    requires lineSize != 0
    ensures Value(lineSize) > 0
    ensures (forall a, b :: SameTag(a, b, lineSize) <==> SameLine(a, b, lineSize)) <==> IsPowerOfTwo(lineSize)
  {
    hide Value, LineMask, IsPowerOfTwo, SameTag, SameLine;
    ValuePositive(lineSize);
    if IsPowerOfTwo(lineSize) {
      forall a, b
        ensures SameTag(a, b, lineSize) <==> SameLine(a, b, lineSize)
      {
        SameTagSameLine(a, b, lineSize);
      }
    } else {
      TwoTagsInALine(lineSize);
    }
  }

  /** The lowest bit of the line size. */
  function LowestBit(lineSize: Word): Word {
    lineSize & !(lineSize - 1)
  }

  lemma WithinAtMost(v: Word, w: Word)
    requires Within(v, w)
    ensures v <= w
  {
  }

  /** If the size is no power of two, its lowest bit is an address of the first line that is not
      masked off. */
  lemma LowestBitUnmasked(lineSize: Word)
    requires lineSize != 0 && !IsPowerOfTwo(lineSize)
    ensures LowestBit(lineSize) != 0 && LowestBit(lineSize) != lineSize && Within(LowestBit(lineSize), lineSize)
    ensures Masked(LowestBit(lineSize), LineMask(lineSize)) == LowestBit(lineSize)
    ensures Masked(0, LineMask(lineSize)) == 0
  {
    if LowestBit(lineSize) == 0 {
      WithinAtMost(lineSize, lineSize - 1);
      assert false;
    }
  }

  lemma {:induction false} TwoTagsInALine(lineSize: Word)
    requires lineSize != 0 && !IsPowerOfTwo(lineSize)
    ensures Value(lineSize) > 0
    ensures SameLine(LowestBit(lineSize), 0, lineSize) && !SameTag(LowestBit(lineSize), 0, lineSize)
  {
    hide Value, LineMask, Masked, LowestBit, IsPowerOfTwo, Within;
    LowestBitUnmasked(lineSize);
    var low := LowestBit(lineSize);
    WithinOrder(low, lineSize);
    ValuePositive(low);
    NoBits(low);
    QuotientUnique(Value(low), Value(lineSize), 0, Value(low));
    QuotientUnique(0, Value(lineSize), 0, 0);
  }
}
