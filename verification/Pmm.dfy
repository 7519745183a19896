/** The physical memory map of Kernel/memory.h and the memory-map passes of Kernel/kernel.c. */
module Pmm {
  import opened Machine
  import opened Bitmap

  /** What the name `b` in set_entry and unset_entry denotes: the scan code of that key. */
  const SCANCODE_B := 0x30

  /** The word that set_entry and unset_entry touch, whatever block is named. */
  const TOUCHED := SCANCODE_B / 32

  // ---------------------------------------------------------------- what the entries do

  /** The flag that an entry for block `b` touches. */
  function TouchedFlag(b: nat): (k: nat)
    ensures 32 <= k < 64
  {
    32 * TOUCHED + b % 32
  }

  /** Flags after unset_entry (v = false) or set_entry (v = true) on blocks `a` to `a + n`, as written. */
  ghost function Touch(flags: seq<bool>, a: nat, n: nat, v: bool): (r: seq<bool>)
    requires |flags| >= 64
    ensures |r| == |flags|
  {
    if n == 0 then flags else Touch(flags, a, n - 1, v)[TouchedFlag(a + n - 1) := v]
  }

  /** One entry touches the flag of its residue in word 1. */
  lemma TouchOne(flags: seq<bool>, b: nat, v: bool)
    requires |flags| >= 64
    ensures Touch(flags, b, 1, v) == flags[32 + b % 32 := v]
    ensures SCANCODE_B == 0x30 && TOUCHED == 1
  {
    assert Touch(flags, b, 0, v) == flags;
  }

  lemma TouchStep(flags: seq<bool>, a: nat, n: nat, v: bool)
    requires |flags| >= 64
    ensures Touch(Touch(flags, a, n, v), a + n, 1, v) == Touch(flags, a, n + 1, v)
  {}

  lemma {:induction false} TouchFlags(flags: seq<bool>, a: nat, n: nat, v: bool, k: nat)
    requires |flags| >= 64 && k < |flags|
    ensures !(32 <= k < 64) ==> Touch(flags, a, n, v)[k] == flags[k]
    ensures 32 <= k < 64 && a <= k < a + n ==> Touch(flags, a, n, v)[k] == v
  {
    if n > 0 { TouchFlags(flags, a, n - 1, v, k); }
  }

  /** For blocks 32 to 63 the word touched is the right one. */
  lemma {:induction false} TouchInWindow(flags: seq<bool>, a: nat, n: nat, v: bool)
    requires |flags| >= 64 && 32 <= a && a + n <= 64
    ensures Touch(flags, a, n, v) == Fill(flags, a, n, v)
  {
    if n > 0 { TouchInWindow(flags, a, n - 1, v); }
  }

  predicate InWindow(a: nat, n: nat) { n == 0 || (32 <= a && a + n <= 64) }

  /** On a range that has to change as a whole, the entries do what is meant exactly for blocks 32 to 63. */
  lemma TouchIsFillIff(flags: seq<bool>, a: nat, n: nat, v: bool)
    requires |flags| >= 64 && All(flags, a, n, !v)
    ensures Touch(flags, a, n, v) == Fill(flags, a, n, v) <==> InWindow(a, n)
  {
    if n == 0 {
      assert Touch(flags, a, 0, v) == Fill(flags, a, 0, v);
    } else if InWindow(a, n) {
      TouchInWindow(flags, a, n, v);
    } else {
      var k := if a < 32 then a else a + n - 1;
      TouchFlags(flags, a, n, v, k);
      assert Touch(flags, a, n, v)[k] != Fill(flags, a, n, v)[k];
    }
  }

  /** The entries mark the named blocks, and only them, on every bitmap exactly when all lie in blocks 32 to 63. */
  lemma TouchMeetsIntentIff(a: nat, n: nat)
    ensures (forall flags: seq<bool>, v: bool | |flags| >= 64 && |flags| >= a + n ::
        Touch(flags, a, n, v) == Fill(flags, a, n, v))
      <==> InWindow(a, n)
  {
    if InWindow(a, n) {
      forall flags: seq<bool>, v: bool | |flags| >= 64 && |flags| >= a + n
        ensures Touch(flags, a, n, v) == Fill(flags, a, n, v)
      {
        if n > 0 { TouchInWindow(flags, a, n, v); } else { assert Touch(flags, a, 0, v) == Fill(flags, a, 0, v); }
      }
    } else {
      TouchIsFillIff(seq(a + n + 64, _ => true), a, n, false);
    }
  }

  // ---------------------------------------------------------------- what the entries count

  lemma {:induction false} TouchSpares(flags: seq<bool>, a: nat, n: nat, v: bool, k: nat)
    requires |flags| >= 64 && k < |flags|
    requires forall b | a <= b < a + n :: TouchedFlag(b) != k
    ensures Touch(flags, a, n, v)[k] == flags[k]
  {
    if n > 0 {
      assert TouchedFlag(a + n - 1) != k;
      TouchSpares(flags, a, n - 1, v, k);
    }
  }

  lemma {:induction false} TouchHits(flags: seq<bool>, a: nat, n: nat, v: bool, b: nat)
    requires |flags| >= 64 && a <= b < a + n
    ensures Touch(flags, a, n, v)[TouchedFlag(b)] == v
  {
    if b < a + n - 1 { TouchHits(flags, a, n - 1, v, b); }
  }

  /** Writing one flag moves the count by one if the flag is counted and changes. */
  lemma {:induction false} CountUpdate(flags: seq<bool>, k: nat, v: bool, max: nat)
    requires max <= |flags| && k < |flags|
    ensures Count(flags[k := v], max)
         == Count(flags, max) + if k >= max || flags[k] == v then 0 else if v then 1 else -1
  {
    if max > 0 { CountUpdate(flags, k, v, max - 1); }
  }

  /** The flag of block `b` is counted and not `v` yet. */
  predicate Ready(flags: seq<bool>, b: nat, v: bool, max: nat)
    requires |flags| >= 64 && max <= |flags|
  {
    TouchedFlag(b) < max && flags[TouchedFlag(b)] == !v
  }

  /** No two of the named blocks share a flag, and all their flags are ready. */
  predicate Moves(flags: seq<bool>, a: nat, n: nat, v: bool, max: nat)
    requires |flags| >= 64 && max <= |flags|
  {
    n <= 32 && forall b | a <= b < a + n :: Ready(flags, b, v, max)
  }

  lemma FlagsRepeat(b: nat, c: nat)
    requires b < c <= b + 32
    ensures TouchedFlag(b) == TouchedFlag(c) <==> c == b + 32
  {}

  /** What the next entry finds in its flag. */
  lemma NextFlag(flags: seq<bool>, a: nat, n: nat, v: bool)
    requires |flags| >= 64 && n <= 32
    ensures Touch(flags, a, n, v)[TouchedFlag(a + n)] == if n == 32 then v else flags[TouchedFlag(a + n)]
  {
    forall b | a <= b < a + n ensures TouchedFlag(b) == TouchedFlag(a + n) <==> b + 32 == a + n {
      FlagsRepeat(b, a + n);
    }
    hide TouchedFlag, Touch;
    if n == 32 {
      TouchHits(flags, a, n, v, a);
    } else {
      TouchSpares(flags, a, n, v, TouchedFlag(a + n));
    }
  }

  /** The count moves by at most one for each block, and by all of them exactly when `Moves`. */
  lemma {:induction false} TouchCount(flags: seq<bool>, a: nat, n: nat, v: bool, max: nat)
    requires |flags| >= 64 && max <= |flags|
    ensures var before, after := Count(flags, max), Count(Touch(flags, a, n, v), max);
      var moved := if v then after - before else before - after;
      moved <= n && (moved == n <==> Moves(flags, a, n, v, max))
  {
    if n > 0 {
      TouchCount(flags, a, n - 1, v, max);
      CountUpdate(Touch(flags, a, n - 1, v), TouchedFlag(a + n - 1), v, max);
      if n <= 33 { NextFlag(flags, a, n - 1, v); }
      assert Moves(flags, a, n, v, max)
        <==> n <= 32 && Moves(flags, a, n - 1, v, max) && Ready(flags, a + n - 1, v, max);
      hide TouchedFlag, Count;
    }
  }

  // ---------------------------------------------------------------- runs of region calls

  /** The bitmap with its counters. */
  datatype Pool = Pool(flags: seq<bool>, max: nat, used: int, free: int)

  datatype RegionCall = Init(first: nat, count: nat) | Deinit(first: nat, count: nat)

  /** Counters and bitmap agree. */
  ghost predicate Agrees(p: Pool) {
    p.max <= |p.flags| && p.used == Count(p.flags, p.max) && p.used + p.free == p.max
  }

  /** Init of a wholly used range, deinit of a wholly free one. */
  ghost predicate Proper(p: Pool, c: RegionCall) {
    c.first + c.count <= p.max <= |p.flags| && All(p.flags, c.first, c.count, c.Init?)
  }

  /** A region call whose entries mark the blocks that they name. */
  ghost function Apply(p: Pool, c: RegionCall): Pool
    requires c.first + c.count <= |p.flags|
  {
    var d := if c.Init? then c.count else -(c.count as int);
    Pool(Fill(p.flags, c.first, c.count, c.Deinit?), p.max, p.used - d, p.free + d)
  }

  /** A region call as written. */
  ghost function ApplyTouch(p: Pool, c: RegionCall): Pool
    requires |p.flags| >= 64
  {
    var d := if c.Init? then c.count else -(c.count as int);
    Pool(Touch(p.flags, c.first, c.count, c.Deinit?), p.max, p.used - d, p.free + d)
  }

  /** What the 32-bit counters of the code hold after a region call, as long as they do not wrap. */
  lemma CountersFollow(flags: seq<bool>, max: nat, used: uint32, free: uint32, first: nat, n: nat)
    requires |flags| >= 64
    ensures n <= used && free + n < 0x1_0000_0000 ==>
      ApplyTouch(Pool(flags, max, used, free), Init(first, n))
        == Pool(Touch(flags, first, n, false), max, (used - n) % 0x1_0000_0000, (free + n) % 0x1_0000_0000)
    ensures n <= free && used + n < 0x1_0000_0000 ==>
      ApplyTouch(Pool(flags, max, used, free), Deinit(first, n))
        == Pool(Touch(flags, first, n, true), max, (used + n) % 0x1_0000_0000, (free - n) % 0x1_0000_0000)
  {}

  ghost predicate ProperRun(p: Pool, calls: seq<RegionCall>)
    decreases |calls|
  {
    |calls| == 0 || (Proper(p, calls[0]) && ProperRun(Apply(p, calls[0]), calls[1..]))
  }

  ghost function Run(p: Pool, calls: seq<RegionCall>): Pool
    requires ProperRun(p, calls)
    decreases |calls|
  {
    if |calls| == 0 then p else Run(Apply(p, calls[0]), calls[1..])
  }

  ghost function RunTouch(p: Pool, calls: seq<RegionCall>): Pool
    requires |p.flags| >= 64
    decreases |calls|
  {
    if |calls| == 0 then p else RunTouch(ApplyTouch(p, calls[0]), calls[1..])
  }

  ghost predicate Mentions(calls: seq<RegionCall>, k: nat) {
    exists i | 0 <= i < |calls| :: calls[i].first <= k < calls[i].first + calls[i].count
  }

  /** Counters stay equal to the bitmap's content, and blocks that no call names stay as they were. */
  lemma {:induction false} RunAgrees(p: Pool, calls: seq<RegionCall>)
    requires Agrees(p) && ProperRun(p, calls)
    ensures Agrees(Run(p, calls)) && Run(p, calls).max == p.max && |Run(p, calls).flags| == |p.flags|
    ensures forall k | 0 <= k < |p.flags| && !Mentions(calls, k) :: Run(p, calls).flags[k] == p.flags[k]
    decreases |calls|
  {
    if |calls| > 0 {
      var c, rest := calls[0], calls[1..];
      CountFill(p.flags, c.first, c.count, c.Deinit?, p.max);
      RunAgrees(Apply(p, c), rest);
      forall k | 0 <= k < |p.flags| && !Mentions(calls, k) ensures Run(p, calls).flags[k] == p.flags[k] {
        assert !(calls[0].first <= k < calls[0].first + calls[0].count);
        assert forall i | 0 <= i < |rest| :: rest[i] == calls[i + 1];
        assert !Mentions(rest, k);
      }
    }
  }

  /** Filling moves the count by at most the length of the range, and by that exactly when the whole range changes. */
  lemma {:induction false} FillCount(flags: seq<bool>, a: nat, n: nat, v: bool, max: nat)
    requires a + n <= max <= |flags|
    ensures var before, after := Count(flags, max), Count(Fill(flags, a, n, v), max);
      var moved := if v then after - before else before - after;
      moved <= n && (moved == n <==> All(flags, a, n, !v))
  {
    if n > 0 {
      FillCount(flags, a, n - 1, v, max);
      var b := Fill(flags, a, n - 1, v);
      CountUpdate(b, a + n - 1, v, max);
      assert Fill(flags, a, n, v) == b[a + n - 1 := v];
      assert All(flags, a, n, !v) <==> All(flags, a, n - 1, !v) && flags[a + n - 1] == !v;
      hide Fill, Count, All;
    } else {
      assert Fill(flags, a, 0, v) == flags;
    }
  }

  /** With entries that mark the named block, counters and bitmap still agree exactly when the range was uniform. */
  lemma ApplyAgreesIff(p: Pool, c: RegionCall)
    requires Agrees(p) && c.first + c.count <= p.max
    ensures Agrees(Apply(p, c)) <==> Proper(p, c)
  {
    FillCount(p.flags, c.first, c.count, c.Deinit?, p.max);
    hide Fill, Count, All;
  }

  /** Deinit of the same range undoes init. */
  lemma DeinitUndoesInit(p: Pool, first: nat, count: nat)
    requires Proper(p, Init(first, count))
    ensures Proper(Apply(p, Init(first, count)), Deinit(first, count))
    ensures Apply(Apply(p, Init(first, count)), Deinit(first, count)) == p
  {}

  /** A call as written does what is meant exactly when its range is empty or inside blocks 32 to 63. */
  lemma ApplyTouchIff(p: Pool, c: RegionCall)
    requires |p.flags| >= 64 && Proper(p, c)
    ensures ApplyTouch(p, c) == Apply(p, c) <==> InWindow(c.first, c.count)
  {
    TouchIsFillIff(p.flags, c.first, c.count, c.Deinit?);
  }

  /** As written, counters and bitmap still agree exactly when the touched flags are distinct, counted, and change. */
  lemma TouchAgreesIff(p: Pool, c: RegionCall)
    requires |p.flags| >= 64 && Agrees(p)
    ensures Agrees(ApplyTouch(p, c)) <==> Moves(p.flags, c.first, c.count, c.Deinit?, p.max)
  {
    TouchCount(p.flags, c.first, c.count, c.Deinit?, p.max);
    hide Touch, Count, Moves;
  }

  /** Every call of the run leaves what is meant. */
  ghost predicate Follows(p: Pool, calls: seq<RegionCall>)
    requires |p.flags| >= 64 && ProperRun(p, calls)
    decreases |calls|
  {
    |calls| == 0 || (ApplyTouch(p, calls[0]) == Apply(p, calls[0]) && Follows(Apply(p, calls[0]), calls[1..]))
  }

  /** The calls as written follow the run meant exactly when every range is empty or inside blocks 32 to 63. */
  lemma {:induction false} RunTouchFollowsRun(p: Pool, calls: seq<RegionCall>)
    requires |p.flags| >= 64 && ProperRun(p, calls)
    ensures Follows(p, calls) <==> forall c | c in calls :: InWindow(c.first, c.count)
    ensures Follows(p, calls) ==> RunTouch(p, calls) == Run(p, calls)
    decreases |calls|
  {
    if |calls| > 0 {
      var c := calls[0];
      ApplyTouchIff(p, c);
      RunTouchFollowsRun(Apply(p, c), calls[1..]);
      assert calls == [c] + calls[1..];
      hide InWindow, Touch, Fill;
    }
  }

  // ---------------------------------------------------------------- memory map

  datatype Smap = Smap(base: uint64, length: uint64, kind: uint32)

  const AVAILABLE: uint32 := 1

  /** Sum of the lengths of available regions, in 32 bits. */
  function Total(regions: seq<Smap>): uint32 {
    if |regions| == 0 then 0
    else
      var m := regions[|regions| - 1];
      Wrap32(Total(regions[..|regions| - 1]) + if m.kind == AVAILABLE then m.length else 0)
  }

  /** Whole blocks of an available region, none of others; a length is cut to 32 bits. */
  function BlocksOf(m: Smap): nat { if m.kind == AVAILABLE then Wrap32(m.length) / BLOCK_SIZE else 0 }

  /** Whole blocks of the available regions. */
  function Blocks(regions: seq<Smap>): nat {
    if |regions| == 0 then 0
    else Blocks(regions[..|regions| - 1]) + BlocksOf(regions[|regions| - 1])
  }

  /** The bytes of the available regions, over the integers. */
  function Bytes(regions: seq<Smap>): nat {
    if |regions| == 0 then 0
    else
      var m := regions[|regions| - 1];
      Bytes(regions[..|regions| - 1]) + if m.kind == AVAILABLE then m.length else 0
  }

  /** One more region of the map: type 1 is available. */
  lemma OneMoreRegion(regions: seq<Smap>, m: Smap)
    ensures Bytes(regions + [m]) == Bytes(regions) + (if m.kind == 1 then m.length else 0)
    ensures Blocks(regions + [m]) == Blocks(regions) + (if m.kind == 1 then m.length % 0x1_0000_0000 / 1024 else 0)
    ensures Total(regions + [m]) == (Total(regions) + (if m.kind == 1 then m.length else 0)) % 0x1_0000_0000
  {
    assert (regions + [m])[..|regions|] == regions;
    WrapIsRemainder(m.length);
    WrapIsRemainder(Total(regions) + if m.kind == 1 then m.length else 0);
    hide Wrap32;
  }

  lemma {:induction false} TotalWraps(regions: seq<Smap>)
    ensures Total(regions) == Wrap32(Bytes(regions))
  {
    if |regions| > 0 {
      var m := regions[|regions| - 1];
      TotalWraps(regions[..|regions| - 1]);
      WrapAdd(Bytes(regions[..|regions| - 1]), if m.kind == AVAILABLE then m.length else 0);
      hide Wrap32;
    }
  }

  /** The lengths of available regions fit 32 bits. */
  ghost predicate LengthsFit(regions: seq<Smap>) {
    forall i | 0 <= i < |regions| && regions[i].kind == AVAILABLE :: regions[i].length < 0x1_0000_0000
  }

  /** Rounding each region down to blocks loses less than a block for each region. */
  lemma {:induction false} BlocksOfBytes(regions: seq<Smap>)
    requires LengthsFit(regions)
    ensures Blocks(regions) * BLOCK_SIZE <= Bytes(regions) <= Blocks(regions) * BLOCK_SIZE + 1023 * |regions|
  {
    if |regions| > 0 {
      var m := regions[|regions| - 1];
      BlocksOfBytes(regions[..|regions| - 1]);
      if m.kind == AVAILABLE { WrapNone(m.length); }
      hide Wrap32;
    }
  }

  lemma BlocksFit(bytes: nat, blocks: nat)
    requires blocks * BLOCK_SIZE <= bytes < 0x1_0000_0000
    ensures blocks <= Wrap32(bytes) / BLOCK_SIZE
  {}

  lemma BlocksOverflow(bytes: nat, blocks: nat, n: nat)
    requires 0x1_0000_0000 <= bytes <= blocks * BLOCK_SIZE + 1023 * n && n <= 0x40_0000
    ensures blocks > Wrap32(bytes) / BLOCK_SIZE
  {}

  lemma {:induction false} BytesCover(regions: seq<Smap>, i: nat)
    requires i < |regions| && regions[i].kind == AVAILABLE
    ensures regions[i].length <= Bytes(regions)
  {
    if i < |regions| - 1 { BytesCover(regions[..|regions| - 1], i); }
  }

  lemma {:induction false} BlocksOfPrefix(regions: seq<Smap>, n: nat)
    requires n <= |regions|
    ensures Blocks(regions[..n]) <= Blocks(regions)
    decreases |regions|
  {
    if n < |regions| {
      BlocksOfPrefix(regions[..|regions| - 1], n);
      assert regions[..|regions| - 1][..n] == regions[..n];
    } else {
      assert regions[..n] == regions;
    }
  }

  /** When the total does not wrap, the used counter, sized from it, covers every prefix of the regions. */
  lemma BootCounts(regions: seq<Smap>)
    requires Bytes(regions) < 0x1_0000_0000
    ensures forall n | 0 <= n <= |regions| :: Blocks(regions[..n]) <= Total(regions) / BLOCK_SIZE
  {
    TotalWraps(regions);
    forall i | 0 <= i < |regions| && regions[i].kind == AVAILABLE ensures regions[i].length < 0x1_0000_0000 {
      BytesCover(regions, i);
    }
    BlocksOfBytes(regions);
    BlocksFit(Bytes(regions), Blocks(regions));
    hide Wrap32, Bytes, Total;
    forall n | 0 <= n <= |regions| ensures Blocks(regions[..n]) <= Blocks(regions) { BlocksOfPrefix(regions, n); }
  }

  /** The used counter covers the regions exactly when the total does not wrap, for up to 2^22 regions. */
  lemma BootCountsIff(regions: seq<Smap>)
    requires LengthsFit(regions) && |regions| <= 0x40_0000
    ensures Blocks(regions) <= Total(regions) / BLOCK_SIZE <==> Bytes(regions) < 0x1_0000_0000
  {
    TotalWraps(regions);
    BlocksOfBytes(regions);
    hide Bytes, Total, Blocks;
    if Bytes(regions) < 0x1_0000_0000 {
      BlocksFit(Bytes(regions), Blocks(regions));
    } else {
      BlocksOverflow(Bytes(regions), Blocks(regions), |regions|);
    }
  }

  /** The first block of a region; the base is cut to 32 bits. */
  function FirstOf(m: Smap): nat { Wrap32(m.base) / BLOCK_SIZE }

  /** The flags after the pass that releases the available regions, as written. */
  ghost function Released(flags: seq<bool>, regions: seq<Smap>): (r: seq<bool>)
    requires |flags| >= 64
    ensures |r| == |flags|
  {
    if |regions| == 0 then flags
    else
      var m, before := regions[|regions| - 1], Released(flags, regions[..|regions| - 1]);
      if m.kind != AVAILABLE then before
      else Touch(before, FirstOf(m), BlocksOf(m), false)
  }

  /** The pass frees a block exactly when it is one of 32 to 63 and some available region names its residue. */
  lemma {:induction false} ReleasedIff(flags: seq<bool>, regions: seq<Smap>, k: nat)
    requires |flags| >= 64 && k < |flags| && flags[k]
    ensures !Released(flags, regions)[k] <==> exists i | 0 <= i < |regions| :: Names(regions[i], k)
  {
    if |regions| > 0 {
      var n := |regions| - 1;
      var m, rest := regions[n], regions[..n];
      ReleasedIff(flags, rest, k);
      if m.kind == AVAILABLE {
        TouchClears(Released(flags, rest), FirstOf(m), BlocksOf(m), k);
      }
      assert forall i | 0 <= i < n :: regions[i] == rest[i];
      hide Released, Touch, FirstOf, BlocksOf, Names;
    }
  }

  /** An entry for one of the region's blocks touches flag `k`. */
  ghost predicate Names(m: Smap, k: nat) {
    m.kind == AVAILABLE && TouchNames(FirstOf(m), BlocksOf(m), k)
  }

  ghost predicate TouchNames(a: nat, n: nat, k: nat) {
    exists b | a <= b < a + n :: TouchedFlag(b) == k
  }

  lemma TouchClears(flags: seq<bool>, a: nat, n: nat, k: nat)
    requires |flags| >= 64 && k < |flags|
    ensures !Touch(flags, a, n, false)[k] <==> !flags[k] || TouchNames(a, n, k)
  {
    if b :| a <= b < a + n && TouchedFlag(b) == k {
      TouchHits(flags, a, n, false, b);
    } else {
      TouchSpares(flags, a, n, false, k);
    }
  }

  /** Block `b` lies in the region, by whole blocks from the block of its base on. */
  predicate InBlocks(m: Smap, b: nat) {
    m.base / 1024 <= b < m.base / 1024 + m.length / 1024
  }

  /** A run of `n` numbers from `f` on meets every residue that lies less than `n` after that of `f`. */
  lemma MeetsResidue(f: nat, n: nat, r: nat)
    requires r < 32
    ensures (exists b: nat :: f <= b < f + n && TouchedFlag(b) == 32 + r) <==> (r - f) % 32 < n
  {
    var d := (r - f) % 32;
    NextWithResidue(f, r);
    if d < n {
      assert TouchedFlag(f + d) == 32 + r;
    }
    forall b: nat | f <= b < f + n && TouchedFlag(b) == 32 + r ensures d < n { ResidueDistance(f, b, r); }
  }

  lemma NextWithResidue(f: nat, r: nat)
    requires r < 32
    ensures (f + (r - f) % 32) % 32 == r
  {}

  lemma ResidueDistance(f: nat, b: nat, r: nat)
    requires f <= b && b % 32 == r < 32
    ensures (r - f) % 32 <= b - f
  {}

  /** The pass over the numbers of the map: which of the flags 32 to 63 it clears; it changes no others. */
  lemma ReleasedOfMap(flags: seq<bool>, regions: seq<Smap>, k: nat)
    requires |flags| >= 64 && k < |flags|
    requires forall i | 0 <= i < |regions| :: regions[i].base < 0x1_0000_0000 && regions[i].length < 0x1_0000_0000
    ensures !(32 <= k < 64) ==> Released(flags, regions)[k] == flags[k]
    ensures 32 <= k < 64 && flags[k] ==>
      (!Released(flags, regions)[k] <==> exists i ::
        0 <= i < |regions| && regions[i].kind == 1 && (k - regions[i].base / 1024) % 32 < regions[i].length / 1024)
    ensures 32 <= k < 64 && flags[k] ==>
      (!Released(flags, regions)[k] <==> exists i, b: nat ::
        0 <= i < |regions| && regions[i].kind == 1 && InBlocks(regions[i], b) && b % 32 == k % 32)
  {
    if 32 <= k < 64 {
      if flags[k] {
        ReleasedIff(flags, regions, k);
        forall i | 0 <= i < |regions|
          ensures var m := regions[i];
            && (Names(m, k) <==> m.kind == 1 && (k - m.base / 1024) % 32 < m.length / 1024)
            && (Names(m, k) <==> m.kind == 1 && exists b: nat :: InBlocks(m, b) && b % 32 == k % 32)
        {
          NamesOf(regions[i], k);
        }
        hide Released, Names, InBlocks;
      }
    } else {
      ReleasedElsewhere(flags, regions, k);
    }
  }

  lemma NamesOf(m: Smap, k: nat)
    requires 32 <= k < 64 && m.base < 0x1_0000_0000 && m.length < 0x1_0000_0000
    ensures Names(m, k) <==> m.kind == 1 && (k - m.base / 1024) % 32 < m.length / 1024
    ensures Names(m, k) <==> m.kind == 1 && exists b: nat :: InBlocks(m, b) && b % 32 == k % 32
  {
    WrapNone(m.base);
    WrapNone(m.length);
    var f, n := m.base / 1024, m.length / 1024;
    MeetsResidue(f, n, k - 32);
    assert (k - 32 - f) % 32 == (k - f) % 32;
    forall b: nat ensures TouchedFlag(b) == k <==> b % 32 == k % 32 { FlagOfBlock(b, k); }
    if m.kind == 1 {
      assert FirstOf(m) == f && BlocksOf(m) == n;
      assert TouchNames(f, n, k) <==> exists b: nat :: f <= b < f + n && TouchedFlag(b) == k;
      if b: nat :| f <= b < f + n && TouchedFlag(b) == k { assert InBlocks(m, b) && b % 32 == k % 32; }
      if b: nat :| InBlocks(m, b) && b % 32 == k % 32 { assert f <= b < f + n && TouchedFlag(b) == k; }
    }
    hide Wrap32, TouchedFlag, InBlocks, FirstOf, BlocksOf;
  }

  lemma FlagOfBlock(b: nat, k: nat)
    requires 32 <= k < 64
    ensures TouchedFlag(b) == k <==> b % 32 == k % 32
  {}

  lemma {:induction false} ReleasedElsewhere(flags: seq<bool>, regions: seq<Smap>, k: nat)
    requires |flags| >= 64 && k < |flags| && !(32 <= k < 64)
    ensures Released(flags, regions)[k] == flags[k]
  {
    if |regions| > 0 {
      var m, rest := regions[|regions| - 1], regions[..|regions| - 1];
      ReleasedElsewhere(flags, rest, k);
      TouchFlags(Released(flags, rest), FirstOf(m), BlocksOf(m), false, k);
    }
  }

  /** A map of one available block at 0x8400 and a reserved one: flag 33 is cleared and no other. */
  lemma ReleasedExample(flags: seq<bool>)
    requires |flags| == 64 && forall k | 0 <= k < 64 :: flags[k]
    ensures var regions := [Smap(0x8400, 0x400, 1), Smap(0x8800, 0x400, 2)];
      Released(flags, regions) == flags[33 := false]
      && Blocks(regions) == 1 && Bytes(regions) == 1024 && Total(regions) == 1024
  {
    var a, b := Smap(0x8400, 0x400, 1), Smap(0x8800, 0x400, 2);
    var regions := [a, b];
    assert regions[..1] == [a] && [a][..0] == [];
    assert FirstOf(a) == 33 && BlocksOf(a) == 1 && BlocksOf(b) == 0;
    assert TouchedFlag(33) == 33;
    assert Touch(flags, 33, 0, false) == flags;
    assert Touch(flags, 33, 1, false) == flags[33 := false];
    assert Released(flags, []) == flags && Released(flags, [a]) == flags[33 := false];
    assert Blocks([a]) == 1 && Bytes([a]) == 1024 && Total([a]) == 1024;
    WrapNone(1024);
  }

  /** Every region names at most 32 blocks, whose flags are counted and named by no region before. */
  ghost predicate NoneTwice(regions: seq<Smap>, max: nat) {
    |regions| == 0 ||
    (NoneTwice(regions[..|regions| - 1], max)
      && NewFlags(regions[..|regions| - 1], regions[|regions| - 1], max))
  }

  ghost predicate NewFlags(before: seq<Smap>, m: Smap, max: nat) {
    m.kind == AVAILABLE ==>
      && BlocksOf(m) <= 32
      && forall b | FirstOf(m) <= b < FirstOf(m) + BlocksOf(m) :: NewFlag(before, b, max)
  }

  ghost predicate NewFlag(before: seq<Smap>, b: nat, max: nat) {
    TouchedFlag(b) < max && !Named(before, TouchedFlag(b))
  }

  ghost predicate Named(regions: seq<Smap>, k: nat) {
    exists i | 0 <= i < |regions| :: Names(regions[i], k)
  }

  /** Over a bitmap with all counted flags set, a region moves the count by all its blocks exactly when `NewFlags`. */
  lemma MovesIff(flags: seq<bool>, before: seq<Smap>, m: Smap, max: nat)
    requires |flags| >= 64 && max <= |flags| && (forall k | 0 <= k < max :: flags[k]) && m.kind == AVAILABLE
    ensures Moves(Released(flags, before), FirstOf(m), BlocksOf(m), false, max) <==> NewFlags(before, m, max)
  {
    forall b: nat ensures Ready(Released(flags, before), b, false, max) <==> NewFlag(before, b, max) {
      if TouchedFlag(b) < max { ReleasedIff(flags, before, TouchedFlag(b)); }
    }
    hide Released, NewFlag, Ready, TouchedFlag, BlocksOf, FirstOf;
  }

  /** The pass as written releases at most the blocks that it counts, and all exactly when no flag is named twice. */
  lemma {:induction false} ReleasedCount(flags: seq<bool>, regions: seq<Smap>, max: nat)
    requires |flags| >= 64 && max <= |flags| && (forall k | 0 <= k < max :: flags[k])
    ensures var gone := Count(flags, max) - Count(Released(flags, regions), max);
      gone <= Blocks(regions) && (gone == Blocks(regions) <==> NoneTwice(regions, max))
  {
    if |regions| > 0 {
      var m, rest := regions[|regions| - 1], regions[..|regions| - 1];
      ReleasedCount(flags, rest, max);
      if m.kind == AVAILABLE {
        TouchCount(Released(flags, rest), FirstOf(m), BlocksOf(m), false, max);
        MovesIff(flags, rest, m, max);
      }
      hide Touch, Count, Moves, FirstOf, TouchedFlag, Named;
    }
  }

  /** After the whole pass as written, counters and bitmap agree exactly when no two of the blocks share a flag. */
  lemma BootAgreesIff(flags: seq<bool>, max: nat, regions: seq<Smap>)
    requires |flags| >= 64 && max <= |flags| && (forall k | 0 <= k < max :: flags[k])
    ensures Agrees(Pool(Released(flags, regions), max, max - Blocks(regions), Blocks(regions)))
      <==> NoneTwice(regions, max)
  {
    ReleasedCount(flags, regions, max);
    CountAll(flags, max);
    hide Released, Count, NoneTwice, Blocks;
  }

  lemma {:induction false} CountAll(flags: seq<bool>, n: nat)
    requires n <= |flags| && forall k | 0 <= k < n :: flags[k]
    ensures Count(flags, n) == n
  {
    if n > 0 { CountAll(flags, n - 1); }
  }

  lemma CountersIff(max: uint32, blocks: nat, count: nat)
    requires count <= max && blocks < 0x1_0000_0000
    ensures Wrap32(max - blocks) == count && Wrap32(max - blocks) + Wrap32(blocks) == max <==> max - blocks == count
  {}

  /** The same for the 32-bit counters that the pass leaves, as long as it counts fewer than 2^32 blocks. */
  lemma BootCountersAgreeIff(flags: seq<bool>, max: uint32, regions: seq<Smap>)
    requires |flags| >= 64 && max <= |flags| && (forall k | 0 <= k < max :: flags[k]) && Blocks(regions) < 0x1_0000_0000
    ensures var used, free := Wrap32(max - Blocks(regions)), Wrap32(Blocks(regions));
      used == Count(Released(flags, regions), max) && used + free == max <==> NoneTwice(regions, max)
  {
    BootAgreesIff(flags, max, regions);
    hide Released, Count, NoneTwice, Blocks, Wrap32;
    CountersIff(max, Blocks(regions), Count(Released(flags, regions), max));
  }

  // ---------------------------------------------------------------- the code

  class PhysicalMemory {
    const bitmap: array<bv32>
    var maxBlocks: uint32
    var usedBlocks: uint32
    var freeBlocks: uint32

    constructor (bitmap: array<bv32>)
      ensures this.bitmap == bitmap
    {
      this.bitmap := bitmap;
      maxBlocks, usedBlocks, freeBlocks := 0, 0, 0;
    }

    ghost function View(): seq<bool>
      reads bitmap
    {
      Flags(bitmap[..])
    }

    method SetEntry(bit: uint32)
      requires bitmap.Length >= 2
      modifies bitmap
      ensures View() == Touch(old(View()), bit, 1, true)
    {
      hide HasBit, WithBit;
      SetWord(bitmap[..], TouchedFlag(bit));
      bitmap[TOUCHED] := WithBit(bitmap[TOUCHED], bit % 32);
    }

    method UnsetEntry(bit: uint32)
      requires bitmap.Length >= 2
      modifies bitmap
      ensures View() == Touch(old(View()), bit, 1, false)
    {
      hide HasBit, WithoutBit;
      ClearWord(bitmap[..], TouchedFlag(bit));
      bitmap[TOUCHED] := WithoutBit(bitmap[TOUCHED], bit % 32);
    }

    method InitPmm(totalEntries: uint32)
      requires totalEntries / BLOCK_SIZE <= 4 * bitmap.Length
      modifies this, bitmap
      ensures maxBlocks == usedBlocks == totalEntries / BLOCK_SIZE && freeBlocks == 0
      ensures View() == Fill(old(View()), 0, 8 * maxBlocks, true)
    {
      maxBlocks := totalEntries / BLOCK_SIZE;
      usedBlocks := maxBlocks;
      freeBlocks := 0;
      SetBytes(bitmap, maxBlocks);
    }

    method InitRegion(addr: uint32, length: uint32)
      requires bitmap.Length >= 2
      modifies this, bitmap
      ensures View() == Touch(old(View()), addr / BLOCK_SIZE, length / BLOCK_SIZE, false)
      ensures maxBlocks == old(maxBlocks)
      ensures usedBlocks == Wrap32(old(usedBlocks) - length / BLOCK_SIZE)
      ensures freeBlocks == Wrap32(old(freeBlocks) + length / BLOCK_SIZE)
    {
      var align := addr / BLOCK_SIZE;
      var blocks := length / BLOCK_SIZE;
      var i := blocks;
      assert Touch(old(View()), addr / BLOCK_SIZE, 0, false) == View();
      WrapNone(usedBlocks);
      WrapNone(freeBlocks);
      hide HasBit, Flag, Flags, Touch, Wrap32;
      while i > 0
        invariant 0 <= i <= blocks && align == addr / BLOCK_SIZE + (blocks - i)
        invariant View() == Touch(old(View()), addr / BLOCK_SIZE, blocks - i, false)
        invariant maxBlocks == old(maxBlocks)
        invariant usedBlocks == Wrap32(old(usedBlocks) - (blocks - i))
        invariant freeBlocks == Wrap32(old(freeBlocks) + (blocks - i))
      {
        TouchStep(old(View()), addr / BLOCK_SIZE, blocks - i, false);
        WrapAdd(old(usedBlocks) - (blocks - i), -1);
        WrapAdd(old(freeBlocks) + (blocks - i), 1);
        UnsetEntry(align);
        align := align + 1;
        usedBlocks := Wrap32(usedBlocks - 1);
        freeBlocks := Wrap32(freeBlocks + 1);
        i := i - 1;
      }
    }

    method DeinitRegion(addr: uint32, length: uint32)
      requires bitmap.Length >= 2
      modifies this, bitmap
      ensures View() == Touch(old(View()), addr / BLOCK_SIZE, length / BLOCK_SIZE, true)
      ensures maxBlocks == old(maxBlocks)
      ensures usedBlocks == Wrap32(old(usedBlocks) + length / BLOCK_SIZE)
      ensures freeBlocks == Wrap32(old(freeBlocks) - length / BLOCK_SIZE)
    {
      var align := addr / BLOCK_SIZE;
      var blocks := length / BLOCK_SIZE;
      var i := blocks;
      assert Touch(old(View()), addr / BLOCK_SIZE, 0, true) == View();
      WrapNone(usedBlocks);
      WrapNone(freeBlocks);
      hide HasBit, Flag, Flags, Touch, Wrap32;
      while i > 0
        invariant 0 <= i <= blocks && align == addr / BLOCK_SIZE + (blocks - i)
        invariant View() == Touch(old(View()), addr / BLOCK_SIZE, blocks - i, true)
        invariant maxBlocks == old(maxBlocks)
        invariant usedBlocks == Wrap32(old(usedBlocks) + (blocks - i))
        invariant freeBlocks == Wrap32(old(freeBlocks) - (blocks - i))
      {
        TouchStep(old(View()), addr / BLOCK_SIZE, blocks - i, true);
        WrapAdd(old(usedBlocks) + (blocks - i), 1);
        WrapAdd(old(freeBlocks) - (blocks - i), -1);
        SetEntry(align);
        align := align + 1;
        usedBlocks := Wrap32(usedBlocks + 1);
        freeBlocks := Wrap32(freeBlocks - 1);
        i := i - 1;
      }
    }

    /** First pass over the map. */
    method SizeMemory(regions: seq<Smap>) returns (total: uint32)
      ensures total == Total(regions)
    {
      total := 0;
      for i := 0 to |regions|
        invariant total == Total(regions[..i])
      {
        assert regions[..i + 1][..i] == regions[..i];
        if regions[i].kind == AVAILABLE {
          total := Wrap32(total + regions[i].length);
        }
      }
      assert regions[..|regions|] == regions;
    }

    /** Sizing, initialisation, and the second pass, which frees the available regions. */
    method Boot(regions: seq<Smap>)
      requires bitmap.Length >= 2
      requires Total(regions) / BLOCK_SIZE <= 4 * bitmap.Length
      modifies this, bitmap
      ensures maxBlocks == Total(regions) / BLOCK_SIZE
      ensures usedBlocks == Wrap32(maxBlocks - Blocks(regions))
      ensures freeBlocks == Wrap32(Blocks(regions))
      ensures View() == Released(Fill(old(View()), 0, 8 * maxBlocks, true), regions)
    {
      hide HasBit, Flag, Flags, Touch, Fill, Total;
      var total := SizeMemory(regions);
      InitPmm(total);
      ghost var full := View();
      WrapNone(maxBlocks);
      WrapNone(0);
      hide Wrap32;
      for i := 0 to |regions|
        invariant maxBlocks == Total(regions) / BLOCK_SIZE
        invariant usedBlocks == Wrap32(maxBlocks - Blocks(regions[..i]))
        invariant freeBlocks == Wrap32(Blocks(regions[..i]))
        invariant View() == Released(full, regions[..i])
      {
        assert regions[..i + 1][..i] == regions[..i];
        if regions[i].kind == AVAILABLE {
          WrapAdd(maxBlocks - Blocks(regions[..i]), 0 - Wrap32(regions[i].length) / BLOCK_SIZE);
          WrapAdd(Blocks(regions[..i]), Wrap32(regions[i].length) / BLOCK_SIZE);
          InitRegion(Wrap32(regions[i].base), Wrap32(regions[i].length));
        }
      }
      assert regions[..|regions|] == regions;
    }
  }
}
