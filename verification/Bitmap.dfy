/** Bitmaps kept in 32-bit words, and the flags that they stand for. */
module Bitmap {
  import opened Machine

  function Mask(j: nat): bv32
    requires j < 32
  {
    1 << j
  }

  predicate HasBit(w: bv32, j: nat)
    requires j < 32
  {
    w & Mask(j) != 0
  }

  /** Bits are counted from the unit place up. */
  lemma BitOrder(w: bv32, j: nat)
    requires j < 31
    ensures HasBit(w, j + 1) <==> HasBit(w >> 1, j)
  {}

  lemma UnitBit(w: bv32)
    ensures HasBit(w, 0) <==> w & 1 == 1
  {}

  lemma MasksDisjoint(j: nat, k: nat)
    requires j < 32 && k < 32 && j != k
    ensures Mask(j) & Mask(k) == 0
  {}

  lemma KeepsBit(w: bv32, v: bv32, k: nat)
    requires k < 32 && HasBit(w, k)
    ensures HasBit(w | v, k)
  {}

  lemma GainsBit(w: bv32, v: bv32, k: nat)
    requires k < 32 && HasBit(v, k)
    ensures HasBit(w | v, k)
  {}

  lemma LacksBit(w: bv32, v: bv32, k: nat)
    requires k < 32 && !HasBit(w, k) && !HasBit(v, k)
    ensures !HasBit(w | v, k)
  {}

  lemma LosesBit(w: bv32, v: bv32, k: nat)
    requires k < 32 && v & Mask(k) == Mask(k)
    ensures !HasBit(w & !v, k)
  {}

  lemma SparesBit(w: bv32, v: bv32, k: nat)
    requires k < 32 && !HasBit(v, k)
    ensures w & !v & Mask(k) == w & Mask(k)
  {}

  lemma MaskHasBit(j: nat, k: nat)
    requires j < 32 && k < 32
    ensures HasBit(Mask(j), k) <==> j == k
  {
    if j != k { MasksDisjoint(j, k); }
  }

  lemma UnionBit(w: bv32, v: bv32, k: nat)
    requires k < 32
    ensures HasBit(w | v, k) <==> HasBit(w, k) || HasBit(v, k)
  {
    if HasBit(w, k) { KeepsBit(w, v, k); }
    else if HasBit(v, k) { GainsBit(w, v, k); }
    else { LacksBit(w, v, k); }
    hide HasBit;
  }

  function WithBit(w: bv32, j: nat): (r: bv32)
    requires j < 32
    ensures forall k: nat | k < 32 :: HasBit(r, k) <==> k == j || HasBit(w, k)
  {
    forall k: nat | k < 32 ensures HasBit(w | Mask(j), k) <==> k == j || HasBit(w, k) {
      MaskHasBit(j, k);
      UnionBit(w, Mask(j), k);
      hide HasBit, Mask;
    }
    w | Mask(j)
  }

  lemma DifferenceBit(w: bv32, j: nat, k: nat)
    requires j < 32 && k < 32
    ensures HasBit(w & !Mask(j), k) <==> j != k && HasBit(w, k)
  {
    if j != k { MasksDisjoint(j, k); SparesBit(w, Mask(j), k); } else { LosesBit(w, Mask(j), k); }
    hide Mask;
  }

  /** What the two operations do to a word. */
  lemma BitWords(w: bv32, j: nat)
    requires j < 32
    ensures WithBit(w, j) == w | (1 << j) && WithoutBit(w, j) == w & !((1 as bv32) << j)
  {
    hide HasBit;
  }

  function WithoutBit(w: bv32, j: nat): (r: bv32)
    requires j < 32
    ensures forall k: nat | k < 32 :: HasBit(r, k) <==> k != j && HasBit(w, k)
  {
    forall k: nat | k < 32 ensures HasBit(w & !Mask(j), k) <==> k != j && HasBit(w, k) {
      DifferenceBit(w, j, k);
      hide HasBit, Mask;
    }
    w & !Mask(j)
  }

  function Flag(words: seq<bv32>, k: nat): bool
    requires k < 32 * |words|
  {
    HasBit(words[k / 32], k % 32)
  }

  /** The words as one flag per block, true for used. */
  function Flags(words: seq<bv32>): (b: seq<bool>)
    ensures |b| == 32 * |words|
  {
    seq(32 * |words|, k requires 0 <= k < 32 * |words| => Flag(words, k))
  }

  lemma SetWord(words: seq<bv32>, bit: nat)
    requires bit < 32 * |words|
    ensures Flags(words[bit / 32 := WithBit(words[bit / 32], bit % 32)]) == Flags(words)[bit := true]
  {
    hide HasBit, WithBit;
  }

  lemma ClearWord(words: seq<bv32>, bit: nat)
    requires bit < 32 * |words|
    ensures Flags(words[bit / 32 := WithoutBit(words[bit / 32], bit % 32)]) == Flags(words)[bit := false]
  {
    hide HasBit, WithoutBit;
  }

  /** Flags `a` to `a + n` replaced by `v`. */
  function Fill(b: seq<bool>, a: nat, n: nat, v: bool): (r: seq<bool>)
    requires a + n <= |b|
    ensures |r| == |b|
    ensures forall k | 0 <= k < |b| :: r[k] == if a <= k < a + n then v else b[k]
  {
    seq(|b|, k requires 0 <= k < |b| => if a <= k < a + n then v else b[k])
  }

  /** Flags `a` to `a + n` are all `v`. */
  predicate All(b: seq<bool>, a: nat, n: nat, v: bool) {
    a + n <= |b| && forall k | a <= k < a + n :: b[k] == v
  }

  /** The number of used blocks among the first `n`. */
  function Count(b: seq<bool>, n: nat): (c: nat)
    requires n <= |b|
    ensures c <= n
  {
    if n == 0 then 0 else Count(b, n - 1) + if b[n - 1] then 1 else 0
  }

  /** Filling a uniform range moves the count by its length. */
  lemma {:induction false} CountFill(b: seq<bool>, a: nat, n: nat, v: bool, max: nat)
    requires max <= |b| && All(b, a, n, !v)
    ensures a + n <= max ==> Count(Fill(b, a, n, v), max) == Count(b, max) + (if v then n else 0 - n)
    ensures max <= a ==> Count(Fill(b, a, n, v), max) == Count(b, max)
    ensures a <= max <= a + n ==> Count(Fill(b, a, n, v), max) == Count(b, max) + (if v then max - a else a - max)
    decreases max
  {
    if max > 0 { CountFill(b, a, n, v, max - 1); }
  }

  // ---------------------------------------------------------------- memset of a bitmap

  function ByteMask(i: nat): bv32
    requires i < 4
  {
    if i == 0 then 0xFF else if i == 1 then 0xFF00 else if i == 2 then 0xFF_0000 else 0xFF00_0000
  }

  lemma ByteMaskBits(i: nat, k: nat)
    requires i < 4 && k < 32
    ensures HasBit(ByteMask(i), k) <==> k / 8 == i
  {}

  function WithByte(w: bv32, i: nat): (r: bv32)
    requires i < 4
    ensures forall k: nat | k < 32 :: HasBit(r, k) <==> k / 8 == i || HasBit(w, k)
  {
    forall k: nat | k < 32 ensures HasBit(w | ByteMask(i), k) <==> k / 8 == i || HasBit(w, k) {
      ByteMaskBits(i, k);
      UnionBit(w, ByteMask(i), k);
      hide HasBit;
    }
    w | ByteMask(i)
  }

  lemma SetByteWord(words: seq<bv32>, i: nat)
    requires i < 4 * |words|
    ensures Flags(words[i / 4 := WithByte(words[i / 4], i % 4)]) == Fill(Flags(words), 8 * i, 8, true)
  {
    hide HasBit, WithByte;
  }

  /** memset(words, 0xFF, length): bytes lie in words low byte first. */
  method SetBytes(words: array<bv32>, length: nat)
    requires length <= 4 * words.Length
    modifies words
    ensures Flags(words[..]) == Fill(old(Flags(words[..])), 0, 8 * length, true)
  {
    ghost var before := Flags(words[..]);
    hide HasBit, WithByte, Flag;
    for i := 0 to length
      invariant Flags(words[..]) == Fill(before, 0, 8 * i, true)
    {
      ghost var last := words[..];
      words[i / 4] := WithByte(words[i / 4], i % 4);
      SetByteWord(last, i);
      assert words[..] == last[i / 4 := WithByte(last[i / 4], i % 4)];
    }
  }
}
