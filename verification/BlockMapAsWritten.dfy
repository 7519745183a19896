/** The lines of Kernel/xxtra.c whose text defeats its purpose, as written, and exactly when they do what is meant. */
module BlockMapAsWritten {
  import opened Machine
  import opened Bitmap
  import opened BlockMap

  // ---------------------------------------------------------------- test

  /** The masked word is cut to 8 bits when it is returned. */
  predicate Test(w: bv32, j: nat)
    requires j < 32
  {
    w & Mask(j) & 0xFF != 0
  }

  /** A used block is seen as used exactly in the low byte of its word. */
  lemma TestIff(w: bv32, j: nat)
    requires j < 32
    ensures (Test(w, j) <==> HasBit(w, j)) <==> j < 8 || !HasBit(w, j)
  {}

  // ---------------------------------------------------------------- find_blocks

  /** Words by their distance from the start of the bitmap; the search also reads words outside it. */
  type Memory = int -> bv32

  function Signed32(x: int): int {
    var u := Wrap32(x);
    if u < 0x8000_0000 then u else u - 0x1_0000_0000
  }

  /** Word index by division toward zero; the processor takes shift counts modulo 32. */
  predicate Reads(mem: Memory, bit: int) {
    Test(mem(WordIndex(bit)), bit % 32)
  }

  function WordIndex(bit: int): int {
    if bit >= 0 then bit / 32 else -((-bit) / 32)
  }

  /** The probing starts at `i * 32 + (1 << j)`, not at the block found clear. */
  function ProbeStart(i: nat, j: nat): int {
    Signed32(32 * i + Pow2(j))
  }

  function FreeProbes(mem: Memory, start: int, n: nat): (c: nat)
    ensures c <= n
  {
    if n == 0 then 0 else FreeProbes(mem, start, n - 1) + if Reads(mem, Signed32(start + n - 1)) then 0 else 1
  }

  /** One of the `n + 1` probes may read used. */
  predicate Accepts(mem: Memory, block: nat, n: nat) {
    FreeProbes(mem, ProbeStart(block / 32, block % 32), n + 1) >= n
  }

  predicate Clear(mem: Memory, block: nat) {
    !HasBit(mem(block / 32), block % 32)
  }

  ghost predicate NoneAccepted(mem: Memory, end: nat, n: nat) {
    forall k | 0 <= k < end && Clear(mem, k) :: !Accepts(mem, k, n)
  }

  /** `r` is the lowest clear block whose probing is accepted. */
  ghost predicate IsAnswer(mem: Memory, max: nat, n: nat, r: int) {
    if r == -1 then
      n == 0 || NoneAccepted(mem, Scanned(max), n)
    else
      n > 0 && 0 <= r < Scanned(max) && Clear(mem, r) && Accepts(mem, r, n) && NoneAccepted(mem, r, n)
  }

  lemma BlockAt(i: nat, j: nat)
    requires j < 32
    ensures (32 * i + j) / 32 == i && (32 * i + j) % 32 == j
  {}

  /** The innermost loop of the search. */
  method Probe(mem: Memory, block: nat, blocks: uint32) returns (accepted: bool)
    requires 0 < blocks < 0xFFFF_FFFF
    ensures accepted <==> Accepts(mem, block, blocks)
  {
    hide *;
    var sb := ProbeStart(block / 32, block % 32);
    var freeBlocks := 0;
    FreeProbesStep(mem, sb, 0);
    for c := 0 to blocks + 1
      invariant freeBlocks == FreeProbes(mem, sb, c) < blocks
    {
      FreeProbesStep(mem, sb, c);
      if !Reads(mem, Signed32(sb + c)) {
        freeBlocks := freeBlocks + 1;
      }
      if freeBlocks == blocks {
        ProbingAccepts(mem, block, c + 1, blocks);
        return true;
      }
    }
    ProbingAccepts(mem, block, blocks + 1, blocks);
    return false;
  }

  /** The search as written. */
  method FindBlocks(mem: Memory, maxBlocks: uint32, blocks: uint32) returns (r: int)
    requires blocks < 0xFFFF_FFFF
    ensures IsAnswer(mem, maxBlocks, blocks, r)
  {
    hide *;
    if blocks == 0 {
      NoAnswer(mem, maxBlocks, blocks);
      return -1;
    }
    NoneBelow(mem, 0, 0, blocks);
    for i := 0 to maxBlocks / 32
      invariant NoneAccepted(mem, 32 * i, blocks)
    {
      if mem(i) != 0xFFFF_FFFF {
        for j := 0 to 32
          invariant NoneAccepted(mem, 32 * i + j, blocks)
        {
          var block := 32 * i + j;
          if Clear(mem, block) {
            BlockAt(i, j);
            var accepted := Probe(mem, block, blocks);
            if accepted {
              BlockAnswers(mem, maxBlocks, blocks, i, j);
              return block;
            }
          }
          NoneBelow(mem, block, block + 1, blocks);
        }
      } else {
        FullWordNotClear(mem, i);
        NoneBelow(mem, 32 * i, 32 * i + 32, blocks);
      }
    }
    NoAnswer(mem, maxBlocks, blocks);
    return -1;
  }

  lemma BlockAnswers(mem: Memory, max: nat, n: nat, i: nat, j: nat)
    requires n > 0 && i < max / 32 && j < 32
    requires NoneAccepted(mem, 32 * i + j, n) && Clear(mem, 32 * i + j) && Accepts(mem, 32 * i + j, n)
    ensures IsAnswer(mem, max, n, 32 * i + j)
  {}

  lemma NoAnswer(mem: Memory, max: nat, n: nat)
    requires n == 0 || NoneAccepted(mem, 32 * (max / 32), n)
    ensures IsAnswer(mem, max, n, -1)
  {}

  lemma NoneBelow(mem: Memory, start: nat, end: nat, n: nat)
    requires start == 0 || NoneAccepted(mem, start, n)
    requires forall k | start <= k < end && Clear(mem, k) :: !Accepts(mem, k, n)
    ensures NoneAccepted(mem, end, n)
  {}

  lemma FreeProbesStep(mem: Memory, start: int, n: nat)
    ensures FreeProbes(mem, start, 0) == 0
    ensures FreeProbes(mem, start, n + 1)
         == FreeProbes(mem, start, n) + if Reads(mem, Signed32(start + n)) then 0 else 1
  {}

  lemma ProbingAccepts(mem: Memory, block: nat, c: nat, n: nat)
    requires c <= n + 1
    ensures FreeProbes(mem, ProbeStart(block / 32, block % 32), c) >= n ==> Accepts(mem, block, n)
    ensures c == n + 1 && FreeProbes(mem, ProbeStart(block / 32, block % 32), c) < n ==> !Accepts(mem, block, n)
  {}

  lemma FullWordNotClear(mem: Memory, i: nat)
    requires mem(i) == 0xFFFF_FFFF
    ensures forall k | 32 * i <= k < 32 * i + 32 :: !Clear(mem, k)
  {}

  function MapFlags(mem: Memory, max: nat): (flags: seq<bool>)
    ensures |flags| == max
  {
    seq(max, k requires k >= 0 => !Clear(mem, k))
  }

  // ---------------------------------------------------------------- when the search is right

  /** Probe `c` from `start` hits a used block at place 0 to 7 of its word; the search sees no other used blocks. */
  predicate Sees(mem: Memory, start: int, c: nat) {
    var bit := Signed32(start + c);
    bit % 32 < 8 && HasBit(mem(WordIndex(bit)), bit % 32)
  }

  predicate SeesNone(mem: Memory, start: int, n: nat) {
    forall c | 0 <= c < n :: !Sees(mem, start, c)
  }

  predicate SeesAtMostOne(mem: Memory, start: int, n: nat) {
    forall c, d | 0 <= c < d < n :: !(Sees(mem, start, c) && Sees(mem, start, d))
  }

  lemma SeesIsReads(mem: Memory, start: int, c: nat)
    ensures Sees(mem, start, c) <==> Reads(mem, Signed32(start + c))
  {
    var bit := Signed32(start + c);
    TestIff(mem(WordIndex(bit)), bit % 32);
    if bit % 32 >= 8 { HighTest(mem(WordIndex(bit)), bit % 32); }
    hide Test, HasBit, Signed32, WordIndex;
  }

  lemma {:induction false} FreeProbesSee(mem: Memory, start: int, n: nat)
    ensures FreeProbes(mem, start, n) == n <==> SeesNone(mem, start, n)
    ensures FreeProbes(mem, start, n) >= n - 1 <==> SeesAtMostOne(mem, start, n)
  {
    if n > 0 {
      FreeProbesSee(mem, start, n - 1);
      SeesIsReads(mem, start, n - 1);
      hide Sees, Reads, Signed32;
    }
  }

  /** A clear block passes when at most one of the `n + 1` probes from its probe start sees a used block. */
  predicate Passes(mem: Memory, block: nat, n: nat) {
    SeesAtMostOne(mem, ProbeStart(block / 32, block % 32), n + 1)
  }

  lemma AcceptsIff(mem: Memory, block: nat, n: nat)
    ensures Accepts(mem, block, n) <==> Passes(mem, block, n)
  {
    FreeProbesSee(mem, ProbeStart(block / 32, block % 32), n + 1);
    hide SeesAtMostOne, SeesNone, FreeProbes, ProbeStart;
  }

  /** The lowest scanned block that is clear. */
  ghost predicate IsLowestClear(mem: Memory, max: nat, k: nat) {
    k < Scanned(max) && Clear(mem, k) && forall j: nat | j < k :: !Clear(mem, j)
  }

  /** The lowest scanned clear block that passes the probing or starts `n` free blocks. */
  ghost predicate IsDecisive(mem: Memory, max: nat, n: nat, k: nat) {
    k < Scanned(max) && Candidate(mem, max, n, k) && forall j: nat | j < k :: !Candidate(mem, max, n, j)
  }

  ghost predicate Candidate(mem: Memory, max: nat, n: nat, k: nat) {
    Clear(mem, k) && (Passes(mem, k, n) || FreeRun(MapFlags(mem, max), k, n))
  }

  lemma FreeRunIsClear(mem: Memory, max: nat, n: nat, k: nat)
    requires n > 0
    ensures FreeRun(MapFlags(mem, max), k, n) ==> Clear(mem, k)
  {
    if FreeRun(MapFlags(mem, max), k, n) { assert !MapFlags(mem, max)[k]; }
  }

  /** Below the first candidate the search neither answers nor should; at it, both depend on the candidate. */
  lemma DecidedAt(mem: Memory, max: nat, n: nat, r: int, d: nat)
    requires n > 0 && IsAnswer(mem, max, n, r) && IsDecisive(mem, max, n, d)
    ensures IsFirstFit(MapFlags(mem, max), n, r) <==> Passes(mem, d, n) && FreeRun(MapFlags(mem, max), d, n)
  {
    var flags := MapFlags(mem, max);
    forall k: nat ensures FreeRun(flags, k, n) ==> Clear(mem, k) { FreeRunIsClear(mem, max, n, k); }
    hide Accepts, Passes, FreeRun, Clear, Scanned;
    AcceptsIff(mem, d, n);
    if r >= 0 {
      AcceptsIff(mem, r, n);
      assert Candidate(mem, max, n, r);
    }
    if Passes(mem, d, n) {
      assert r == d;
      forall s | 0 <= s < r ensures !FreeRun(flags, s, n) { assert !Candidate(mem, max, n, s); }
    } else {
      assert r != d;
    }
  }

  lemma NoCandidate(mem: Memory, max: nat, n: nat, r: int)
    requires n > 0 && IsAnswer(mem, max, n, r)
    requires forall k: nat | k < Scanned(max) :: !Candidate(mem, max, n, k)
    ensures IsFirstFit(MapFlags(mem, max), n, r)
  {
    var flags := MapFlags(mem, max);
    forall k: nat ensures FreeRun(flags, k, n) ==> Clear(mem, k) { FreeRunIsClear(mem, max, n, k); }
    hide Accepts, Passes, FreeRun, Clear, Scanned;
    forall s | 0 <= s < Scanned(max) ensures !FreeRun(flags, s, n) { assert !Candidate(mem, max, n, s); }
    assert r >= 0 ==> !Candidate(mem, max, n, r);
    if r >= 0 { AcceptsIff(mem, r, n); }
  }

  /** The search is right exactly when its first candidate, if any, both passes the probing and starts a free run. */
  lemma AnswerIsFirstFitIff(mem: Memory, max: nat, n: nat, r: int)
    requires n > 0 && IsAnswer(mem, max, n, r)
    ensures IsFirstFit(MapFlags(mem, max), n, r)
      <==> forall k | IsDecisive(mem, max, n, k) :: Passes(mem, k, n) && FreeRun(MapFlags(mem, max), k, n)
  {
    hide IsAnswer, IsFirstFit, Candidate, Passes, FreeRun, MapFlags, Scanned;
    if k: nat :| k < Scanned(max) && Candidate(mem, max, n, k) {
      var d := Decisive(mem, max, n, k);
      forall j | IsDecisive(mem, max, n, j) ensures j == d {}
      DecidedAt(mem, max, n, r, d);
    } else {
      NoCandidate(mem, max, n, r);
    }
  }

  lemma {:induction false} Decisive(mem: Memory, max: nat, n: nat, k: nat) returns (d: nat)
    requires k < Scanned(max) && Candidate(mem, max, n, k)
    ensures IsDecisive(mem, max, n, d)
  {
    if j: nat :| j < k && Candidate(mem, max, n, j) {
      d := Decisive(mem, max, n, j);
    } else {
      d := k;
    }
  }

  /** For one block the search is right exactly when the lowest clear scanned block, if any, passes the probing. */
  lemma SingleBlockIff(mem: Memory, max: nat, r: int)
    requires IsAnswer(mem, max, 1, r)
    ensures IsFirstFit(MapFlags(mem, max), 1, r) <==> forall k | IsLowestClear(mem, max, k) :: Passes(mem, k, 1)
  {
    var flags := MapFlags(mem, max);
    forall k: nat | k < max ensures FreeRun(flags, k, 1) <==> Clear(mem, k) {
      assert flags[k] == !Clear(mem, k);
    }
    AnswerIsFirstFitIff(mem, max, 1, r);
    forall k ensures IsLowestClear(mem, max, k) <==> IsDecisive(mem, max, 1, k) {
      hide Passes, FreeRun, Clear;
      if IsLowestClear(mem, max, k) { assert Candidate(mem, max, 1, k); }
    }
  }

  /** Place `p` of word `w` is used. */
  predicate UsedAt(mem: Memory, w: int, p: nat)
    requires p < 32
  {
    HasBit(mem(w), p)
  }

  lemma TwoProbes(mem: Memory, start: int)
    ensures SeesAtMostOne(mem, start, 2) <==> !(Sees(mem, start, 0) && Sees(mem, start, 1))
  {
    hide Sees;
  }

  /** A probe at place `p` of word `w`, not before the start of the bitmap. */
  lemma SeesAt(mem: Memory, start: int, c: nat, w: nat, p: nat)
    requires start + c == 32 * w + p < 0x8000_0000 && p < 32
    ensures Sees(mem, start, c) <==> p < 8 && UsedAt(mem, w, p)
  {
    assert Signed32(start + c) == 32 * w + p;
    BlockAt(w, p);
    hide Signed32, HasBit;
  }

  /** From place 5 on the two probes are places 0 and 1 of a word far ahead of the clear one, at place 31 behind it. */
  lemma WordsAhead(j: nat)
    requires 5 <= j < 32
    ensures Pow2(j) == 32 * Pow2(j - 5)
    ensures j < 31 ==> Pow2(j - 5) <= 0x200_0000
    ensures Pow2(26) == 0x400_0000
  {
    assert Pow2(j) == 2 * Pow2(j - 1) == 4 * Pow2(j - 2) == 8 * Pow2(j - 3) == 16 * Pow2(j - 4);
    assert Pow2(5) == 32 && Pow2(10) == 32 * Pow2(5) && Pow2(15) == 32 * Pow2(10);
    assert Pow2(20) == 32 * Pow2(15) && Pow2(25) == 32 * Pow2(20) && Pow2(26) == 2 * Pow2(25);
    if j < 31 { Pow2Monotonic(j - 5, 25); }
  }

  /** The first probe for place 31 is before the bitmap; division toward zero puts the second in the next word. */
  lemma SeesBefore(mem: Memory, i: nat)
    requires i < 0x200_0000
    ensures var start := Signed32(32 * i + 0x8000_0000);
      && (Sees(mem, start, 0) <==> UsedAt(mem, i - 0x400_0000, 0))
      && (Sees(mem, start, 1) <==> UsedAt(mem, i - 0x400_0000 + 1, 1))
  {
    var start := 32 * i - 0x8000_0000;
    assert Signed32(32 * i + 0x8000_0000) == start && Signed32(start) == start && Signed32(start + 1) == start + 1;
    assert WordIndex(start) == i - 0x400_0000 && start % 32 == 0;
    assert WordIndex(start + 1) == i - 0x400_0000 + 1 && (start + 1) % 32 == 1;
    hide Signed32, WordIndex, HasBit;
  }

  /** Which two places decide on one block at place `j` of word `i`. */
  lemma PassesOneIff(mem: Memory, i: nat, j: nat)
    requires i < 0x200_0000 && j < 32
    ensures Passes(mem, 32 * i + j, 1) <==>
      if 3 <= j <= 4 then true
      else if j < 3 then !(UsedAt(mem, i, Pow2(j)) && UsedAt(mem, i, Pow2(j) + 1))
      else if j < 31 then !(UsedAt(mem, i + Pow2(j - 5), 0) && UsedAt(mem, i + Pow2(j - 5), 1))
      else !(UsedAt(mem, i - 0x400_0000, 0) && UsedAt(mem, i - 0x400_0000 + 1, 1))
  {
    BlockAt(i, j);
    var start := ProbeStart(i, j);
    TwoProbes(mem, start);
    if j < 5 {
      NearProbes(mem, i, j);
    } else {
      WordsAhead(j);
      if j < 31 {
        assert start == 32 * (i + Pow2(j - 5)) + 0;
        SeesAt(mem, start, 0, i + Pow2(j - 5), 0);
        SeesAt(mem, start, 1, i + Pow2(j - 5), 1);
      } else {
        SeesBefore(mem, i);
      }
    }
    hide Sees, SeesAtMostOne, UsedAt, Signed32;
  }

  lemma FirstPowers(j: nat)
    requires j < 5
    ensures if j < 3 then 1 <= Pow2(j) <= 4 else 8 <= Pow2(j) <= 16
  {
    assert Pow2(0) == 1 && Pow2(1) == 2 && Pow2(2) == 4 && Pow2(3) == 8 && Pow2(4) == 16;
  }

  lemma StartNear(i: nat, j: nat)
    requires i < 0x200_0000 && Pow2(j) <= 16
    ensures ProbeStart(i, j) == 32 * i + Pow2(j)
  {
    hide Pow2;
  }

  lemma NearProbes(mem: Memory, i: nat, j: nat)
    requires i < 0x200_0000 && j < 5
    ensures Pow2(j) + 1 < 32
    ensures Sees(mem, ProbeStart(i, j), 0) <==> j < 3 && UsedAt(mem, i, Pow2(j))
    ensures Sees(mem, ProbeStart(i, j), 1) <==> j < 3 && UsedAt(mem, i, Pow2(j) + 1)
  {
    FirstPowers(j);
    StartNear(i, j);
    hide *;
    SeesAt(mem, ProbeStart(i, j), 0, i, Pow2(j));
    SeesAt(mem, ProbeStart(i, j), 1, i, Pow2(j) + 1);
  }

  /** Clear blocks at places 3 and 4 of a word are accepted for up to 15 blocks, whatever the bitmap holds. */
  lemma AcceptsUnseen(mem: Memory, i: nat, j: nat, n: nat)
    requires i < 0x200_0000
    requires 3 <= j <= 4 && n <= 15
    ensures Accepts(mem, 32 * i + j, n)
  {
    var d := if j == 3 then 8 else 16;
    assert Pow2(3) == 8 && Pow2(4) == 16;
    hide Reads, FreeProbes, Pow2;
    BlockAt(i, j);
    assert ProbeStart(i, j) == 32 * i + d;
    ProbesUnseen(mem, i, d, n + 1);
  }

  lemma {:induction false} ProbesUnseen(mem: Memory, i: nat, d: nat, n: nat)
    requires i < 0x200_0000 && 8 <= d && d + n <= 32
    ensures FreeProbes(mem, 32 * i + d, n) == n
  {
    if n > 0 {
      ProbesUnseen(mem, i, d, n - 1);
      ReadsHigh(mem, i, d + n - 1);
      hide Reads, Signed32;
      assert 32 * i + d + n - 1 == 32 * i + (d + n - 1);
    }
  }

  lemma HighTest(w: bv32, j: nat)
    requires 8 <= j < 32
    ensures !Test(w, j)
  {}

  lemma ReadsHigh(mem: Memory, i: nat, j: nat)
    requires i < 0x200_0000 && 8 <= j < 32
    ensures Signed32(32 * i + j) == 32 * i + j && !Reads(mem, 32 * i + j)
  {}

  /** Two blocks are asked for, only block 3 is free, and the answer is 3. */
  lemma AnswerWithoutRoom()
    ensures var mem: Memory := _ => 0xFFFF_FFF7;
      IsAnswer(mem, 32, 2, 3) && !FreeRun(MapFlags(mem, 32), 3, 2)
  {
    var mem: Memory := _ => 0xFFFF_FFF7;
    AcceptsUnseen(mem, 0, 3, 2);
    forall k: nat | k < 32 ensures Clear(mem, k) <==> k == 3 { OnlyBitThree(k); }
    assert MapFlags(mem, 32)[4];
  }

  lemma OnlyBitThree(k: nat)
    requires k < 32
    ensures HasBit(0xFFFF_FFF7, k) <==> k != 3
  {}

  // ---------------------------------------------------------------- marking

  /** m_alloc marks block `first + 1` once for each block. */
  ghost function Mark(flags: seq<bool>, first: nat, n: nat): (r: seq<bool>)
    requires first + 1 < |flags|
    ensures |r| == |flags|
  {
    if n == 0 then flags else Mark(flags, first, n - 1)[first + 1 := true]
  }

  lemma {:induction false} MarkFlags(flags: seq<bool>, first: nat, n: nat)
    requires first + 1 < |flags|
    ensures n > 0 ==> Mark(flags, first, n) == flags[first + 1 := true]
  {
    if n > 1 { MarkFlags(flags, first, n - 1); }
    assert n == 1 ==> Mark(flags, first, 0) == flags;
  }

  /** The blocks handed out are marked exactly when none were asked for; the first is handed out again. */
  lemma MarkMeetsIntentIff(flags: seq<bool>, first: nat, n: nat)
    requires FreeRun(flags, first, n) && first + 1 < |flags|
    ensures All(Mark(flags, first, n), first, n, true) <==> n == 0
    ensures n > 0 && IsFirstFit(flags, 1, first) ==> IsFirstFit(Mark(flags, first, n), 1, first)
  {
    MarkFlags(flags, first, n);
    if n > 0 {
      assert !flags[first] && !Mark(flags, first, n)[first];
      if IsFirstFit(flags, 1, first) {
        forall s | 0 <= s < first ensures !FreeRun(Mark(flags, first, n), s, 1) {
          assert !FreeRun(flags, s, 1) && flags[s] && Mark(flags, first, n)[s];
        }
      }
    }
  }
}
