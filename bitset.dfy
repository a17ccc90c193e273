/** The 128-bit dirty bitsets of the coalescing store: two 64-bit words per
    channel, `set_bit` and `collect_bitset` (input.rs:322-340).

    Bit facts are proved on `bv64` with `bv64` positions (the "B" lemmas),
    where the solver can bit-blast them, and lifted to `nat` positions
    through the single conversion `Shift`. */
module Bitset {
  import opened Ints

  /** `[u64; 2]`: word 0 holds indices 0..63, word 1 indices 64..127. */
  type Words = s: seq<bv64> | |s| == 2 witness [0, 0]

  // ---------------------------------------------------------------------
  // Positions and single bits

  /** The shift amount for bit position `i` (`1u64 << i`). */
  function Shift(i: nat): (r: bv64)
    requires i < 64
    ensures r < 64
  {
    ByteBelow64(i);
    (i as bv8) as bv64
  }

  lemma ByteBelow64(i: nat)
    requires i < 64
    ensures (i as bv8) as bv64 < 64
  {
    assert (i as bv8) < 64;
  }

  predicate BitB(w: bv64, i: bv64)
    requires i < 64
  {
    w & (1 << i) != 0
  }

  function MaskB(i: bv64): bv64
    requires i < 64
  {
    (1 << i) - 1
  }

  /** Bit `i` of word `w` is set. */
  predicate Bit(w: bv64, i: nat)
    requires i < 64
  {
    BitB(w, Shift(i))
  }

  /** The bits of `w` below position `i` as a mask. */
  function Mask(i: nat): bv64
    requires i < 64
  {
    MaskB(Shift(i))
  }

  /** No bit of `w` below position `i` is set. */
  predicate ClearBelow(w: bv64, i: nat)
    requires i < 64
  {
    w & Mask(i) == 0
  }

  /** Index `i` of the 128-bit set is present: bit `i % 64` of word `i / 64`. */
  predicate BitAt(bits: Words, i: nat)
    requires i < 128
  {
    Bit(bits[i / 64], i % 64)
  }

  lemma ByteInjective(s: nat, j: nat)
    requires s < 64 && j < 64
    ensures ((s as bv8) == (j as bv8)) == (s == j)
    ensures ((s as bv8) < (j as bv8)) == (s < j)
  {
    ByteRoundTrip(s);
    ByteRoundTrip(j);
  }

  lemma ByteRoundTrip(s: nat)
    requires s < 64
    ensures (s as bv8) as int == s
  {
  }

  lemma ZeroExtend(a: bv8, b: bv8)
    ensures ((a as bv64) == (b as bv64)) == (a == b)
    ensures ((a as bv64) < (b as bv64)) == (a < b)
  {
  }

  lemma ShiftInjective(s: nat, j: nat)
    requires s < 64 && j < 64
    ensures (Shift(s) == Shift(j)) == (s == j)
    ensures (Shift(s) < Shift(j)) == (s < j)
  {
    ByteInjective(s, j);
    ZeroExtend(s as bv8, j as bv8);
  }

  lemma ShiftSuccessor(s: nat)
    requires s < 63
    ensures Shift(s + 1) == Shift(s) + 1
  {
    ByteRoundTrip(s);
    ByteRoundTrip(s + 1);
  }

  // ---------------------------------------------------------------------
  // Word-level facts on bv64 positions

  lemma OrBitB(w: bv64, s: bv64, j: bv64)
    requires s < 64 && j < 64
    ensures BitB(w | (1 << s), j) == (BitB(w, j) || j == s)
  {
  }

  lemma ClearLowestWordB(v: bv64, t: bv64)
    requires t < 64 && v & MaskB(t) == 0 && BitB(v, t)
    ensures v & (v - 1) == v ^ (1 << t)
  {
    MinusOneB(v, 1 << t);
  }

  /** Subtracting one from a word whose lowest set bit is `b` clears `b`
      and sets every bit below it. */
  lemma MinusOneB(v: bv64, b: bv64)
    requires b != 0 && v & (b - 1) == 0 && v & b == b
    ensures v - 1 == (v ^ b) | (b - 1)
  {
  }

  lemma ClearLowestB(v: bv64, t: bv64, j: bv64)
    requires t < 64 && j < 64 && v & MaskB(t) == 0 && BitB(v, t)
    ensures BitB(v & (v - 1), j) == (BitB(v, j) && j != t)
  {
    ClearLowestWordB(v, t);
    XorBitB(v, t, j);
  }

  lemma XorBitB(v: bv64, t: bv64, j: bv64)
    requires t < 64 && j < 64 && BitB(v, t)
    ensures BitB(v ^ (1 << t), j) == (BitB(v, j) && j != t)
  {
  }

  lemma BelowMaskB(v: bv64, a: bv64, b: bv64)
    requires a < 64 && b < a && v & MaskB(a) == 0
    ensures !BitB(v, b)
  {
  }

  lemma MaskStepB(v: bv64, a: bv64)
    requires a < 63 && v & MaskB(a) == 0 && !BitB(v, a)
    ensures v & MaskB(a + 1) == 0
  {
  }

  lemma TopBitB(v: bv64)
    requires v != 0 && v & MaskB(63) == 0
    ensures BitB(v, 63)
  {
  }

  // ---------------------------------------------------------------------
  // The same facts on nat positions

  /** `w | (1 << s)` adds bit `s` and keeps every other bit. */
  lemma OrBit(w: bv64, s: nat, j: nat)
    requires s < 64 && j < 64
    ensures Bit(w | (1 << Shift(s)), j) == (Bit(w, j) || j == s)
  {
    OrBitB(w, Shift(s), Shift(j));
    ShiftInjective(s, j);
  }

  /** When `t` is the lowest set bit of `v`, `v & (v - 1)` removes exactly bit `t`. */
  lemma ClearLowest(v: bv64, t: nat, j: nat)
    requires t < 64 && j < 64 && ClearBelow(v, t) && Bit(v, t)
    ensures Bit(v & (v - 1), j) == (Bit(v, j) && j != t)
  {
    ClearLowestB(v, Shift(t), Shift(j));
    ShiftInjective(t, j);
  }

  lemma BelowMask(v: bv64, i: nat, j: nat)
    requires i < 64 && j < i && ClearBelow(v, i)
    ensures !Bit(v, j)
  {
    ShiftInjective(j, i);
    BelowMaskB(v, Shift(i), Shift(j));
  }

  lemma MaskStep(v: bv64, i: nat)
    requires i < 63 && ClearBelow(v, i) && !Bit(v, i)
    ensures ClearBelow(v, i + 1)
  {
    ShiftSuccessor(i);
    MaskStepB(v, Shift(i));
  }

  lemma TopBit(v: bv64, i: nat)
    requires i == 63 && v != 0 && ClearBelow(v, i)
    ensures Bit(v, i)
  {
    assert Shift(63) == 63;
    TopBitB(v);
  }

  // ---------------------------------------------------------------------
  // set_bit

  /** `set_bit`: `bits[index / 64] |= 1 << (index % 64)`. The index must be
      below 128, otherwise the Rust code indexes past the two words. */
  function SetBit(bits: Words, index: nat): (r: Words)
    requires index < 128
    ensures forall j | 0 <= j < 128 :: BitAt(r, j) == (BitAt(bits, j) || j == index)
    ensures r[1 - index / 64] == bits[1 - index / 64]
  {
    var r := bits[index / 64 := bits[index / 64] | (1 << Shift(index % 64))];
    forall j | 0 <= j < 128
      ensures BitAt(r, j) == (BitAt(bits, j) || j == index)
    {
      SetBitAt(bits, index, j);
    }
    r
  }

  lemma SetBitAt(bits: Words, index: nat, j: nat)
    requires index < 128 && j < 128
    ensures BitAt(bits[index / 64 := bits[index / 64] | (1 << Shift(index % 64))], j) ==
      (BitAt(bits, j) || j == index)
  {
    var r := bits[index / 64 := bits[index / 64] | (1 << Shift(index % 64))];
    if j / 64 == index / 64 {
      OrBit(bits[index / 64], index % 64, j % 64);
      assert r[j / 64] == bits[index / 64] | (1 << Shift(index % 64));
      assert (j % 64 == index % 64) == (j == index);
    } else {
      assert r[j / 64] == bits[j / 64];
    }
  }

  // ---------------------------------------------------------------------
  // Trailing zeros

  /** `u64::trailing_zeros` of a non-zero word: the lowest set bit. */
  function TrailingZeros(v: bv64): (tz: nat)
    requires v != 0
    ensures tz < 64 && Bit(v, tz) && ClearBelow(v, tz)
  {
    assert ClearBelow(v, 0) by { assert Shift(0) == 0; }
    LowestFrom(v, 0)
  }

  /** The lowest set bit of `v` at or above `i`, given none below `i`. */
  function LowestFrom(v: bv64, i: nat): (tz: nat)
    requires v != 0 && i < 64 && ClearBelow(v, i)
    ensures i <= tz < 64 && Bit(v, tz) && ClearBelow(v, tz)
    decreases 64 - i
  {
    if i == 63 then
      TopBit(v, i);
      i
    else if Bit(v, i) then
      i
    else
      MaskStep(v, i);
      LowestFrom(v, i + 1)
  }

  // ---------------------------------------------------------------------
  // The set of indices

  /** The positions `p` in `[from, 64)` with bit `p` of `w` set, ascending,
      each reported as `base + p`. */
  function WordIndices(w: bv64, from: nat, base: nat): seq<nat>
    requires from <= 64
    decreases 64 - from
  {
    if from == 64 then []
    else (if Bit(w, from) then [base + from] else []) + WordIndices(w, from + 1, base)
  }

  /** `[0; 2]`: the empty set. */
  const EMPTY: Words := [0, 0]

  /** The indices present in a 128-bit set, in ascending order. */
  function SetIndices(bits: Words): seq<nat> {
    WordIndices(bits[0], 0, 0) + WordIndices(bits[1], 0, 64)
  }

  predicate StrictlyAscending(s: seq<nat>) {
    forall i, j | 0 <= i < j < |s| :: s[i] < s[j]
  }

  lemma {:induction false} WordIndicesBounds(w: bv64, from: nat, base: nat)
    requires from <= 64
    ensures forall k | 0 <= k < |WordIndices(w, from, base)| ::
      base + from <= WordIndices(w, from, base)[k] < base + 64
    ensures StrictlyAscending(WordIndices(w, from, base))
    decreases 64 - from
  {
    if from < 64 {
      WordIndicesBounds(w, from + 1, base);
    }
  }

  lemma {:induction false} WordIndicesMember(w: bv64, from: nat, base: nat, x: nat)
    requires from <= 64
    ensures x in WordIndices(w, from, base) <==>
      base + from <= x < base + 64 && Bit(w, x - base)
    decreases 64 - from
  {
    if from < 64 {
      WordIndicesMember(w, from + 1, base, x);
      if x == base + from {
        WordIndicesBounds(w, from + 1, base);
        assert x !in WordIndices(w, from + 1, base);
      }
    }
  }

  /** `collect_bitset` yields exactly the set indices, strictly ascending,
      each once. */
  lemma SetIndicesSpec(bits: Words)
    ensures StrictlyAscending(SetIndices(bits))
    ensures forall x :: x in SetIndices(bits) <==> x < 128 && BitAt(bits, x)
  {
    WordIndicesBounds(bits[0], 0, 0);
    WordIndicesBounds(bits[1], 0, 64);
    forall x
      ensures x in SetIndices(bits) <==> x < 128 && BitAt(bits, x)
    {
      WordIndicesMember(bits[0], 0, 0, x);
      WordIndicesMember(bits[1], 0, 64, x);
      if x < 64 {
        assert x / 64 == 0 && x % 64 == x - 0;
      } else if x < 128 {
        assert x / 64 == 1 && x % 64 == x - 64;
      }
    }
  }

  lemma SetIndicesBelow(bits: Words)
    ensures forall k | 0 <= k < |SetIndices(bits)| :: SetIndices(bits)[k] < 128
  {
    SetIndicesSpec(bits);
    forall k | 0 <= k < |SetIndices(bits)|
      ensures SetIndices(bits)[k] < 128
    {
      assert SetIndices(bits)[k] in SetIndices(bits);
    }
  }

  lemma {:induction false} WordIndicesLength(w: bv64, from: nat, base: nat)
    requires from <= 64
    ensures |WordIndices(w, from, base)| <= 64 - from
    decreases 64 - from
  {
    if from < 64 {
      WordIndicesLength(w, from + 1, base);
    }
  }

  /** A 128-bit set lists at most 128 indices. */
  lemma SetIndicesCount(bits: Words)
    ensures |SetIndices(bits)| <= 128
  {
    WordIndicesLength(bits[0], 0, 0);
    WordIndicesLength(bits[1], 0, 64);
  }

  /** The empty set has no indices. */
  lemma EmptyIndices()
    ensures SetIndices(EMPTY) == []
  {
    EmptyWord(0, 0);
    EmptyWord(0, 64);
  }

  lemma {:induction false} SkipZeros(w: bv64, from: nat, to: nat, base: nat)
    requires from <= to <= 64
    requires forall p | from <= p < to :: !Bit(w, p)
    ensures WordIndices(w, from, base) == WordIndices(w, to, base)
    decreases 64 - from
  {
    if from < to {
      SkipZeros(w, from + 1, to, base);
    }
  }

  lemma {:induction false} SameBitsSameIndices(w1: bv64, w2: bv64, from: nat, base: nat)
    requires from <= 64
    requires forall p | from <= p < 64 :: Bit(w1, p) == Bit(w2, p)
    ensures WordIndices(w1, from, base) == WordIndices(w2, from, base)
    decreases 64 - from
  {
    if from < 64 {
      SameBitsSameIndices(w1, w2, from + 1, base);
    }
  }

  /** One step of the `val &= val - 1` loop: the lowest index is reported and
      the rest of the word's indices remain. */
  lemma PopLowest(v: bv64, base: nat)
    requires v != 0
    ensures WordIndices(v, 0, base) ==
      [base + TrailingZeros(v)] + WordIndices(v & (v - 1), 0, base)
  {
    var t := TrailingZeros(v);
    var rest := v & (v - 1);
    forall p | 0 <= p < 64
      ensures Bit(rest, p) == (Bit(v, p) && p != t)
    {
      ClearLowest(v, t, p);
    }
    forall p | 0 <= p < t
      ensures !Bit(v, p)
    {
      BelowMask(v, t, p);
    }
    SkipZeros(v, 0, t, base);
    SkipZeros(rest, 0, t + 1, base);
    SameBitsSameIndices(rest, v, t + 1, base);
  }

  /** The indices of the first `block` words. */
  function CollectedWords(bits: Words, block: nat): seq<nat>
    requires block <= 2
  {
    if block == 0 then []
    else CollectedWords(bits, block - 1) + WordIndices(bits[block - 1], 0, (block - 1) * 64)
  }

  lemma {:induction false} EmptyWord(from: nat, base: nat)
    requires from <= 64
    ensures WordIndices(0, from, base) == []
    decreases 64 - from
  {
    if from < 64 {
      assert !BitB(0, Shift(from));
      EmptyWord(from + 1, base);
    }
  }

  /** Reporting the lowest index of `v` and clearing it keeps the indices
      still to come: what was reported plus what remains is unchanged. */
  lemma ReportLowest(reported: seq<uint8>, v: bv64, base: nat, index: uint8, all: seq<nat>)
    requires v != 0 && index == base + TrailingZeros(v)
    requires reported + WordIndices(v, 0, base) == all
    ensures (reported + [index]) + WordIndices(v & (v - 1), 0, base) == all
    ensures |WordIndices(v & (v - 1), 0, base)| < |WordIndices(v, 0, base)|
  {
    PopLowest(v, base);
    AppendAssoc(reported, [index], WordIndices(v & (v - 1), 0, base));
  }

  /** The inner loop of `collect_bitset` on one word: report the lowest set
      bit and clear it with `val &= val - 1` until the word is empty. */
  method CollectWord(word: bv64, base: nat, before: seq<uint8>) returns (indices: seq<uint8>)
    requires base <= 64
    ensures indices == before + WordIndices(word, 0, base)
  {
    indices := before;
    var val := word;
    while val != 0
      invariant indices + WordIndices(val, 0, base) == before + WordIndices(word, 0, base)
      decreases |WordIndices(val, 0, base)|
    {
      var index: uint8 := base + TrailingZeros(val);
      ReportLowest(indices, val, base, index, before + WordIndices(word, 0, base));
      indices := indices + [index];
      val := val & (val - 1);
    }
    EmptyWord(0, base);
  }

  lemma CollectedAll(bits: Words)
    ensures CollectedWords(bits, 2) == SetIndices(bits)
  {
    CollectedNext(bits, 0);
    CollectedNext(bits, 1);
    assert [] + WordIndices(bits[0], 0, 0) == WordIndices(bits[0], 0, 0);
  }

  lemma CollectedNext(bits: Words, block: nat)
    requires block < 2
    ensures CollectedWords(bits, block + 1) ==
      CollectedWords(bits, block) + WordIndices(bits[block], 0, block * 64)
  {
  }

  /** `collect_bitset`: the set indices of both words, low word first. */
  method CollectBitset(bits: Words) returns (indices: seq<uint8>)
    ensures indices == SetIndices(bits)
  {
    indices := [];
    for block := 0 to 2
      invariant indices == CollectedWords(bits, block)
    {
      indices := CollectWord(bits[block], block * 64, indices);
      CollectedNext(bits, block);
    }
    CollectedAll(bits);
  }
}
