/** The block allocator of Kernel/xxtra.c. */
module BlockMap {
  import opened Machine
  import opened Bitmap

  const SLOTS := 25

  // ---------------------------------------------------------------- first fit

  /** `n` consecutive free blocks start at `s`. */
  predicate FreeRun(flags: seq<bool>, s: nat, n: nat) {
    All(flags, s, n, false)
  }

  /** The blocks that the search tries as a start: those in whole words. */
  function Scanned(max: nat): nat { max / 32 * 32 }

  lemma ScannedIff(max: nat, s: nat)
    ensures s < Scanned(max) <==> s / 32 < max / 32
  {}

  /** `r` is the lowest start of `n` free blocks among those tried, or -1 when there is none. */
  ghost predicate IsFirstFit(flags: seq<bool>, n: nat, r: int) {
    if r == -1 then n == 0 || forall s | 0 <= s < Scanned(|flags|) :: !FreeRun(flags, s, n)
    else n > 0 && 0 <= r < Scanned(|flags|) && FreeRun(flags, r, n) && forall s | 0 <= s < r :: !FreeRun(flags, s, n)
  }

  lemma FreeRunExtends(flags: seq<bool>, s: nat, n: nat)
    ensures FreeRun(flags, s, n + 1) <==> FreeRun(flags, s, n) && s + n < |flags| && !flags[s + n]
  {}

  lemma UsedStart(flags: seq<bool>, s: nat, n: nat)
    requires s < |flags| && n > 0
    ensures flags[s] ==> !FreeRun(flags, s, n)
  {}

  /** Every search has a first fit. */
  lemma SomeFirstFit(flags: seq<bool>, n: nat) returns (r: int)
    ensures IsFirstFit(flags, n, r)
  {
    r := -1;
    if n > 0 {
      var s := 0;
      while s < Scanned(|flags|) && !FreeRun(flags, s, n)
        invariant 0 <= s <= Scanned(|flags|)
        invariant forall q | 0 <= q < s :: !FreeRun(flags, q, n)
      {
        s := s + 1;
      }
      if s < Scanned(|flags|) {
        r := s;
      }
    }
  }

  // ---------------------------------------------------------------- the heap meant: a free names its blocks

  datatype Block = Block(first: nat, count: nat)

  /** The flags of the first `max_blocks` blocks, the used counter, and the live allocations. */
  datatype Heap = Heap(flags: seq<bool>, used: int, live: seq<Block>)

  function Sum(live: seq<Block>): nat {
    if |live| == 0 then 0 else Sum(live[..|live| - 1]) + live[|live| - 1].count
  }

  predicate Apart(a: Block, b: Block) {
    a.first + a.count <= b.first || b.first + b.count <= a.first
  }

  /** Live allocations are nonempty, marked used and pairwise disjoint; the counter moves with them. */
  ghost predicate Sound(h: Heap, reserved: nat) {
    && (forall i | 0 <= i < |h.live| :: h.live[i].count > 0 && All(h.flags, h.live[i].first, h.live[i].count, true))
    && (forall i, j | 0 <= i < j < |h.live| :: Apart(h.live[i], h.live[j]))
    && h.used == reserved + Sum(h.live) <= |h.flags|
  }

  /** An allocation when the search answers `r`. */
  ghost function AllocResult(h: Heap, n: nat, r: int): Heap
    requires r == -1 || (0 <= r && r + n <= |h.flags|)
  {
    if |h.flags| - h.used < n || r == -1 then h
    else Heap(Fill(h.flags, r, n, true), h.used + n, h.live + [Block(r, n)])
  }

  /** A free of the live allocation at index `k`. */
  ghost function FreeResult(h: Heap, k: nat): Heap
    requires k < |h.live| && h.live[k].first + h.live[k].count <= |h.flags|
  {
    var b := h.live[k];
    Heap(Fill(h.flags, b.first, b.count, false), h.used - b.count, h.live[..k] + h.live[k + 1..])
  }

  lemma SumSnoc(live: seq<Block>, b: Block)
    ensures Sum(live + [b]) == Sum(live) + b.count
  {}

  lemma {:induction false} SumWithout(live: seq<Block>, k: nat)
    requires k < |live|
    ensures Sum(live) == Sum(live[..k] + live[k + 1..]) + live[k].count
  {
    var n := |live| - 1;
    if k < n {
      SumWithout(live[..n], k);
      assert (live[..k] + live[k + 1..])[..n - 1] == live[..n][..k] + live[..n][k + 1..];
    } else {
      assert live[..k] + live[k + 1..] == live[..n];
    }
  }

  lemma AllocKeepsSound(h: Heap, reserved: nat, n: nat, r: int)
    requires Sound(h, reserved) && IsFirstFit(h.flags, n, r)
    ensures Sound(AllocResult(h, n, r), reserved)
  {
    var h' := AllocResult(h, n, r);
    if h' != h {
      assert h'.live[..|h.live|] == h.live;
      forall i | 0 <= i < |h.live| ensures Apart(h.live[i], Block(r, n)) {
        ApartFromFree(h.flags, h.live[i], Block(r, n));
      }
    }
  }

  lemma ApartFromFree(flags: seq<bool>, a: Block, b: Block)
    requires All(flags, a.first, a.count, true) && All(flags, b.first, b.count, false)
    requires a.count > 0 && b.count > 0
    ensures Apart(a, b)
  {
    assert flags[a.first] && !flags[b.first];
  }

  lemma LiveFits(h: Heap, reserved: nat, k: nat)
    requires Sound(h, reserved) && k < |h.live|
    ensures h.live[k].count <= h.used && h.live[k].first + h.live[k].count <= |h.flags|
  {
    SumWithout(h.live, k);
  }

  lemma FreeSparesApart(flags: seq<bool>, a: Block, b: Block)
    requires All(flags, a.first, a.count, true) && Apart(a, b) && b.first + b.count <= |flags|
    ensures All(Fill(flags, b.first, b.count, false), a.first, a.count, true)
  {}

  /** A free clears exactly its own blocks and keeps the rest sound. */
  lemma FreeKeepsSound(h: Heap, reserved: nat, k: nat)
    requires Sound(h, reserved) && k < |h.live|
    ensures Sound(FreeResult(h, k), reserved)
    ensures FreeRun(FreeResult(h, k).flags, h.live[k].first, h.live[k].count)
  {
    SumWithout(h.live, k);
    var h', b := FreeResult(h, k), h.live[k];
    assert b.first + b.count <= |h.flags| && FreeRun(h'.flags, b.first, b.count);
    hide All, Fill, Sum, FreeRun;
    forall i | 0 <= i < |h'.live|
      ensures h'.live[i].count > 0 && All(h'.flags, h'.live[i].first, h'.live[i].count, true)
    {
      var j := if i < k then i else i + 1;
      assert h'.live[i] == h.live[j] && Apart(h.live[j], b);
      FreeSparesApart(h.flags, h.live[j], b);
    }
  }

  datatype Request = Alloc(n: uint32, answer: int) | Free(index: nat)

  /** Each search answer is the first fit, each free names a live allocation. */
  ghost predicate ProperRun(h: Heap, reserved: nat, requests: seq<Request>)
    requires Sound(h, reserved)
    decreases |requests|
  {
    |requests| == 0 ||
    match requests[0]
    case Alloc(n, r) =>
      && IsFirstFit(h.flags, n, r)
      && (AllocKeepsSound(h, reserved, n, r); ProperRun(AllocResult(h, n, r), reserved, requests[1..]))
    case Free(k) =>
      k < |h.live| && (FreeKeepsSound(h, reserved, k); ProperRun(FreeResult(h, k), reserved, requests[1..]))
  }

  ghost function Run(h: Heap, reserved: nat, requests: seq<Request>): (r: Heap)
    requires Sound(h, reserved) && ProperRun(h, reserved, requests)
    ensures Sound(r, reserved)
    decreases |requests|
  {
    if |requests| == 0 then h
    else
      match requests[0]
      case Alloc(n, r) => AllocKeepsSound(h, reserved, n, r); Run(AllocResult(h, n, r), reserved, requests[1..])
      case Free(k) => FreeKeepsSound(h, reserved, k); Run(FreeResult(h, k), reserved, requests[1..])
  }

  /** Over every run, the used flags are those used before any allocation and those of live allocations. */
  lemma {:induction false} RunUsesLiveBlocks(h: Heap, reserved: nat, requests: seq<Request>, base: seq<bool>)
    requires Sound(h, reserved) && ProperRun(h, reserved, requests)
    requires |base| == |h.flags| && UsedAre(h, base)
    ensures UsedAre(Run(h, reserved, requests), base)
    decreases |requests|
  {
    if |requests| > 0 {
      match requests[0]
      case Alloc(n, r) =>
        AllocKeepsSound(h, reserved, n, r);
        var h' := AllocResult(h, n, r);
        if h' != h { AllocKeepsUsed(h, n, r, base); }
        RunUsesLiveBlocks(h', reserved, requests[1..], base);
      case Free(k) =>
        FreeKeepsSound(h, reserved, k);
        FreeKeepsUsed(h, reserved, k, base);
        RunUsesLiveBlocks(FreeResult(h, k), reserved, requests[1..], base);
    }
  }

  /** How far the bitmap is ahead of the counter. */
  ghost function Ahead(h: Heap): int { Count(h.flags, |h.flags|) - h.used }

  lemma AllocKeepsAhead(h: Heap, n: nat, r: int)
    requires IsFirstFit(h.flags, n, r)
    ensures Ahead(AllocResult(h, n, r)) == Ahead(h)
  {
    if r != -1 { CountFill(h.flags, r, n, true, |h.flags|); }
  }

  lemma FreeKeepsAhead(h: Heap, reserved: nat, k: nat)
    requires Sound(h, reserved) && k < |h.live|
    ensures Ahead(FreeResult(h, k)) == Ahead(h)
  {
    CountFill(h.flags, h.live[k].first, h.live[k].count, false, |h.flags|);
  }

  /** Over every run the counter moves with the number of set bits. */
  lemma {:induction false} RunKeepsAhead(h: Heap, reserved: nat, requests: seq<Request>)
    requires Sound(h, reserved) && ProperRun(h, reserved, requests)
    ensures Ahead(Run(h, reserved, requests)) == Ahead(h)
    decreases |requests|
  {
    if |requests| > 0 {
      match requests[0]
      case Alloc(n, r) =>
        AllocKeepsSound(h, reserved, n, r);
        AllocKeepsAhead(h, n, r);
        RunKeepsAhead(AllocResult(h, n, r), reserved, requests[1..]);
      case Free(k) =>
        FreeKeepsSound(h, reserved, k);
        FreeKeepsAhead(h, reserved, k);
        RunKeepsAhead(FreeResult(h, k), reserved, requests[1..]);
    }
  }

  ghost predicate InLive(live: seq<Block>, k: nat) {
    exists i | 0 <= i < |live| :: live[i].first <= k < live[i].first + live[i].count
  }

  /** No live block was used before, and a block is used exactly when it was before or is live. */
  ghost predicate UsedAre(h: Heap, base: seq<bool>) {
    && |h.flags| == |base|
    && forall k | 0 <= k < |base| :: !(base[k] && InLive(h.live, k)) && (h.flags[k] <==> base[k] || InLive(h.live, k))
  }

  lemma AllocKeepsUsed(h: Heap, n: nat, r: int, base: seq<bool>)
    requires UsedAre(h, base) && IsFirstFit(h.flags, n, r)
    requires AllocResult(h, n, r) != h
    ensures UsedAre(AllocResult(h, n, r), base)
  {
    var live := h.live + [Block(r, n)];
    forall k | 0 <= k < |base| ensures InLive(live, k) <==> InLive(h.live, k) || r <= k < r + n {
      assert live[|h.live|] == Block(r, n);
      assert forall i | 0 <= i < |h.live| :: live[i] == h.live[i];
    }
  }

  lemma FreeKeepsUsed(h: Heap, reserved: nat, k: nat, base: seq<bool>)
    requires Sound(h, reserved) && UsedAre(h, base)
    requires k < |h.live|
    ensures UsedAre(FreeResult(h, k), base)
  {
    var b := h.live[k];
    forall q | 0 <= q < |base|
      ensures InLive(FreeResult(h, k).live, q) <==> InLive(h.live, q) && !(b.first <= q < b.first + b.count)
    {
      LiveWithout(h.live, k, q);
    }
    hide InLive, Sound;
  }

  lemma LiveWithout(live: seq<Block>, k: nat, q: nat)
    requires k < |live|
    requires forall i, j | 0 <= i < j < |live| :: Apart(live[i], live[j])
    ensures InLive(live[..k] + live[k + 1..], q)
      <==> InLive(live, q) && !(live[k].first <= q < live[k].first + live[k].count)
  {
    var rest := live[..k] + live[k + 1..];
    if i :| 0 <= i < |rest| && rest[i].first <= q < rest[i].first + rest[i].count {
      var j := if i < k then i else i + 1;
      assert rest[i] == live[j];
      assert j < k ==> Apart(live[j], live[k]);
      assert k < j ==> Apart(live[k], live[j]);
    }
    if j :| 0 <= j < |live| && j != k && live[j].first <= q < live[j].first + live[j].count {
      assert rest[if j < k then j else j - 1] == live[j];
    }
  }

  // ---------------------------------------------------------------- region calls

  /** The number of blocks that a region call walks: a signed 32-bit count. */
  function BlockCount(size: uint64): nat {
    var q := Wrap32(size / BLOCK_SIZE);
    if q < 0x8000_0000 then q else 0
  }

  /**
   * init_mem marks whole bytes only, so the counter starts equal to the bitmap exactly when the last few flags were
   * set before.
   */
  lemma InitMemCountIff(before: seq<bool>, max: nat)
    requires max <= |before|
    ensures Count(Fill(before, 0, 8 * (max / 8), true), max) == max <==> All(before, 8 * (max / 8), max % 8, true)
  {
    var after := Fill(before, 0, 8 * (max / 8), true);
    CountFull(after, max);
    assert (forall k | 0 <= k < max :: after[k]) <==> All(before, 8 * (max / 8), max % 8, true) by {
      assert forall k | 8 * (max / 8) <= k < max :: after[k] == before[k];
    }
  }

  lemma {:induction false} CountFull(b: seq<bool>, n: nat)
    requires n <= |b|
    ensures Count(b, n) == n <==> forall k | 0 <= k < n :: b[k]
  {
    if n > 0 { CountFull(b, n - 1); }
  }

  /** One region call of this allocator on its flags: init marks block 0 used again at its end. */
  ghost function Region(flags: seq<bool>, first: nat, count: nat, release: bool): (r: seq<bool>)
    requires first + count <= |flags| && |flags| > 0
    ensures |r| == |flags|
  {
    if release then Fill(flags, first, count, false)[0 := true] else Fill(flags, first, count, true)
  }

  /** The counter misses the bitmap by one for each init that covers block 0, and only then. */
  lemma RegionCount(flags: seq<bool>, first: nat, count: nat, release: bool, max: nat)
    requires 0 < max <= |flags| && first + count <= max
    requires flags[0] && All(flags, first, count, release)
    ensures Region(flags, first, count, release)[0]
    ensures Count(Region(flags, first, count, release), max)
         == Count(flags, max) + (if !release then count else if first == 0 && count > 0 then 1 - count else 0 - count)
  {
    CountFill(flags, first, count, !release, max);
    if release {
      var b := Fill(flags, first, count, false);
      if b[0] {
        assert b[0 := true] == b;
      } else {
        CountFill(b, 0, 1, true, max);
        assert b[0 := true] == Fill(b, 0, 1, true);
      }
    }
  }

  datatype RegionCall = RegionCall(first: nat, count: nat, release: bool)

  /** Releases of wholly used ranges and reservations of wholly free ones. */
  ghost predicate ProperRegions(flags: seq<bool>, max: nat, calls: seq<RegionCall>)
    decreases |calls|
  {
    |calls| == 0 ||
    (calls[0].first + calls[0].count <= max <= |flags| && 0 < max
      && All(flags, calls[0].first, calls[0].count, calls[0].release)
      && ProperRegions(Region(flags, calls[0].first, calls[0].count, calls[0].release), max, calls[1..]))
  }

  ghost function RunRegions(flags: seq<bool>, max: nat, calls: seq<RegionCall>): (r: seq<bool>)
    requires ProperRegions(flags, max, calls)
    ensures |r| == |flags|
    decreases |calls|
  {
    if |calls| == 0 then flags
    else RunRegions(Region(flags, calls[0].first, calls[0].count, calls[0].release), max, calls[1..])
  }

  /** What the calls add to the used counter. */
  function CounterChange(calls: seq<RegionCall>): int {
    if |calls| == 0 then 0
    else (if calls[0].release then 0 - calls[0].count else calls[0].count) + CounterChange(calls[1..])
  }

  /** The call that a base address and a size in bytes make. */
  function CallOf(base: uint32, size: uint64, release: bool): RegionCall {
    RegionCall(base / BLOCK_SIZE, BlockCount(size), release)
  }

  /** The blocks of a call: as many as the size holds whole, none when their number has bit 31 set. */
  lemma CallBlocks(base: uint32, size: uint64, release: bool)
    ensures var c := CallOf(base, size, release);
      && c.first * 1024 <= base < c.first * 1024 + 1024 && c.release == release
      && (size < 0x200_0000_0000 ==> c.count * 1024 <= size < c.count * 1024 + 1024)
      && (size / 1024 % 0x1_0000_0000 >= 0x8000_0000 ==> c.count == 0)
      && CounterChange([c]) == if release then 0 - c.count else c.count
  {
    var c := CallOf(base, size, release);
    WrapIsRemainder(size / BLOCK_SIZE);
    assert [c][1..] == [] && CounterChange([]) == 0;
    hide Wrap32;
  }

  /** In bytes: past block 0, a call changes the blocks that lie wholly inside an aligned region, and no others. */
  lemma RegionInBytes(flags: seq<bool>, base: uint32, size: uint64, release: bool, k: nat)
    requires base % 1024 == 0 && size < 0x200_0000_0000
    requires CallOf(base, size, release).first + CallOf(base, size, release).count <= |flags|
    requires 0 < k < |flags|
    ensures var c := CallOf(base, size, release);
      Region(flags, c.first, c.count, release)[k]
        == if base <= 1024 * k && 1024 * k + 1024 <= base + size then !release else flags[k]
  {
    CallBlocks(base, size, release);
    hide CallOf;
  }

  /** 1536 bytes from 1 MB on: one block freed, the counter one lower. */
  lemma RegionOf1536(flags: seq<bool>)
    requires |flags| == 2048 && All(flags, 0, 2048, true)
    ensures CallOf(0x10_0000, 1536, true) == RegionCall(1024, 1, true)
    ensures CounterChange([CallOf(0x10_0000, 1536, true)]) == -1
    ensures Region(flags, 1024, 1, true) == flags[1024 := false]
  {
    CallBlocks(0x10_0000, 1536, true);
    assert flags[0];
    hide CallOf;
  }

  function ReleasesOfBlockZero(calls: seq<RegionCall>): nat {
    if |calls| == 0 then 0
    else
      (if calls[0].release && calls[0].first == 0 && calls[0].count > 0 then 1 else 0) + ReleasesOfBlockZero(calls[1..])
  }

  /** Over every run the bitmap gains on the counter exactly one block for each init that covers block 0. */
  lemma {:induction false} RunRegionsCount(flags: seq<bool>, max: nat, calls: seq<RegionCall>)
    requires 0 < max <= |flags| && flags[0] && ProperRegions(flags, max, calls)
    ensures Count(RunRegions(flags, max, calls), max)
         == Count(flags, max) + CounterChange(calls) + ReleasesOfBlockZero(calls)
    decreases |calls|
  {
    if |calls| > 0 {
      var c := calls[0];
      RegionCount(flags, c.first, c.count, c.release, max);
      RunRegionsCount(Region(flags, c.first, c.count, c.release), max, calls[1..]);
    }
  }

  lemma {:induction false} CountPrefix(b: seq<bool>, m: nat, n: nat)
    requires n <= m <= |b|
    ensures Count(b[..m], n) == Count(b, n)
  {
    if n > 0 { CountPrefix(b, m, n - 1); }
  }

  // ---------------------------------------------------------------- records: a free goes by an address

  datatype Process = Process(address: uint32, allocationSize: uint64)

  /** The block that m_free takes a record to name. */
  function BlockOf(p: Process): nat { p.address / BLOCK_SIZE }

  /** The flags and the used counter, the sizes in the process table, and the records that callers hold. */
  datatype Ledger = Ledger(flags: seq<bool>, used: int, sizes: seq<uint64>, held: seq<Process>)

  /** What m_alloc adds to the next address: the size in the slot before. */
  function Shift(s: Ledger): uint64
    requires |s.held| <= |s.sizes|
  {
    if |s.held| > 0 then s.sizes[|s.held| - 1] else 0
  }

  predicate Grants(s: Ledger, n: uint32, r: int) { |s.flags| - s.used >= n && r != -1 }

  /** What m_alloc does when the search answers `r`. */
  ghost function AllocRecord(s: Ledger, n: uint32, r: int): Ledger
    requires r == -1 || (0 <= r && r + n <= |s.flags|)
    requires Grants(s, n, r) ==> |s.held| < |s.sizes|
  {
    if !Grants(s, n, r) then s
    else
      var p := Process(Wrap32(Shift(s) + r * BLOCK_SIZE), n);
      Ledger(Fill(s.flags, r, n, true), s.used + n, s.sizes[|s.held| := n], s.held + [p])
  }

  /** The flags once the blocks `a` to `a + n` are unset, as far as there are such blocks. */
  function Cleared(flags: seq<bool>, a: nat, n: nat): (r: seq<bool>)
    ensures |r| == |flags|
    ensures forall k | 0 <= k < |flags| :: r[k] == (flags[k] && !(a <= k < a + n))
  {
    seq(|flags|, k requires 0 <= k < |flags| => flags[k] && !(a <= k < a + n))
  }

  /** What m_free does with the held record at `k`: it reads the address, and clears slot 0. */
  ghost function FreeRecord(s: Ledger, k: nat): Ledger
    requires k < |s.held| && |s.sizes| > 0
  {
    var p := s.held[k];
    Ledger(Cleared(s.flags, BlockOf(p), p.allocationSize), s.used - p.allocationSize, s.sizes[0 := 0],
           s.held[..k] + s.held[k + 1..])
  }

  /** The search answer is the first fit, the process table has room, a free passes a held record. */
  ghost predicate Admits(s: Ledger, request: Request)
    requires |s.held| <= |s.sizes| == SLOTS
  {
    match request
    case Alloc(n, r) => IsFirstFit(s.flags, n, r) && (Grants(s, n, r) ==> |s.held| < SLOTS)
    case Free(k) => k < |s.held|
  }

  ghost function Next(s: Ledger, request: Request): (r: Ledger)
    requires |s.held| <= |s.sizes| == SLOTS && Admits(s, request)
    ensures |r.held| <= |r.sizes| == SLOTS
  {
    match request
    case Alloc(n, r) => AllocRecord(s, n, r)
    case Free(k) => FreeRecord(s, k)
  }

  ghost predicate ProperRecords(s: Ledger, requests: seq<Request>)
    requires |s.held| <= |s.sizes| == SLOTS
    decreases |requests|
  {
    |requests| == 0 || (Admits(s, requests[0]) && ProperRecords(Next(s, requests[0]), requests[1..]))
  }

  ghost function RunRecords(s: Ledger, requests: seq<Request>): Ledger
    requires |s.held| <= |s.sizes| == SLOTS && ProperRecords(s, requests)
    decreases |requests|
  {
    if |requests| == 0 then s else RunRecords(Next(s, requests[0]), requests[1..])
  }

  /** The shifted address names its first block exactly when the shift is below 1024. */
  lemma AddressBlockIff(shift: nat, first: nat)
    requires first < 0x40_0000
    ensures Wrap32(shift + first * BLOCK_SIZE) / BLOCK_SIZE == first <==> Wrap32(shift) < BLOCK_SIZE
  {
    var low := Wrap32(shift);
    WrapAdd(shift, first * BLOCK_SIZE);
    if low + first * BLOCK_SIZE >= 0x1_0000_0000 {
      assert Wrap32(low + first * BLOCK_SIZE) == low + first * BLOCK_SIZE - 0x1_0000_0000;
    }
  }

  /** Clearing from block `b` on frees a used range exactly when it starts there. */
  lemma ClearedIsOwnIff(flags: seq<bool>, first: nat, count: nat, b: nat)
    requires count > 0 && All(flags, first, count, true)
    ensures Cleared(flags, b, count) == Fill(flags, first, count, false) <==> b == first
  {
    var k := if b > first then first else first + count - 1;
    assert b != first ==> Cleared(flags, b, count)[k] && !Fill(flags, first, count, false)[k];
  }

  /** A free frees exactly the blocks that its record was granted exactly when the shift was below 1024. */
  lemma FreesOwnBlocksIff(flags: seq<bool>, first: nat, count: nat, shift: nat)
    requires count > 0 && All(flags, first, count, true) && |flags| <= 0x40_0000
    ensures Cleared(flags, Wrap32(shift + first * BLOCK_SIZE) / BLOCK_SIZE, count) == Fill(flags, first, count, false)
      <==> Wrap32(shift) < BLOCK_SIZE
  {
    AddressBlockIff(shift, first);
    ClearedIsOwnIff(flags, first, count, Wrap32(shift + first * BLOCK_SIZE) / BLOCK_SIZE);
    hide Wrap32;
  }

  /** Freeing the record just granted restores bitmap, counter and records exactly when its shift was below 1024. */
  lemma FreeUndoesAllocIff(s: Ledger, n: uint32, r: int)
    requires IsFirstFit(s.flags, n, r) && Grants(s, n, r) && |s.held| < |s.sizes| && |s.flags| <= 0x40_0000
    ensures var t := FreeRecord(AllocRecord(s, n, r), |s.held|);
      && t.used == s.used && t.held == s.held
      && (t.flags == s.flags <==> Wrap32(Shift(s)) < BLOCK_SIZE)
  {
    FreesOwnBlocksIff(Fill(s.flags, r, n, true), r, n, Shift(s));
    assert Fill(Fill(s.flags, r, n, true), r, n, false) == s.flags;
    hide Fill, Cleared, Wrap32;
  }

  // ---------------------------------------------------------------- when a run of records is the run meant

  /** The same flags and counter, and for each held record the live allocation that it was granted. */
  ghost predicate Mirrors(s: Ledger, h: Heap, unshifted: seq<bool>) {
    && s.flags == h.flags && s.used == h.used && |s.held| == |h.live| == |unshifted|
    && (forall i | 0 <= i < |h.live| :: s.held[i].allocationSize == h.live[i].count)
    && (forall i | 0 <= i < |h.live| :: unshifted[i] <==> BlockOf(s.held[i]) == h.live[i].first)
  }

  lemma AllocMirrors(s: Ledger, h: Heap, unshifted: seq<bool>, n: uint32, r: int)
    requires Mirrors(s, h, unshifted) && IsFirstFit(s.flags, n, r) && |s.flags| <= 0x40_0000
    requires Grants(s, n, r) && |s.held| < |s.sizes|
    ensures Mirrors(AllocRecord(s, n, r), AllocResult(h, n, r), unshifted + [Wrap32(Shift(s)) < BLOCK_SIZE])
  {
    AddressBlockIff(Shift(s), r);
    hide Wrap32, Fill;
  }

  /** A free by record frees what a free by index does exactly when the record names its block. */
  lemma FreeMirrorsIff(s: Ledger, h: Heap, reserved: nat, unshifted: seq<bool>, k: nat)
    requires Mirrors(s, h, unshifted) && Sound(h, reserved) && k < |s.held| && |s.sizes| > 0
    ensures FreeRecord(s, k).flags == FreeResult(h, k).flags <==> unshifted[k]
    ensures unshifted[k] ==> Mirrors(FreeRecord(s, k), FreeResult(h, k), unshifted[..k] + unshifted[k + 1..])
  {
    ClearedIsOwnIff(h.flags, h.live[k].first, h.live[k].count, BlockOf(s.held[k]));
    hide Cleared, Fill, All, BlockOf;
  }

  /** Every request of the run of records leaves the bitmap that the run meant has. */
  ghost predicate Follows(s: Ledger, h: Heap, reserved: nat, requests: seq<Request>)
    requires |s.held| <= |s.sizes| == SLOTS && ProperRecords(s, requests)
    requires Sound(h, reserved) && s.flags == h.flags && |s.held| == |h.live|
    decreases |requests|
  {
    |requests| == 0 ||
    match requests[0]
    case Alloc(n, r) =>
      AllocKeepsSound(h, reserved, n, r);
      var s', h' := AllocRecord(s, n, r), AllocResult(h, n, r);
      s'.flags == h'.flags && |s'.held| == |h'.live| && Follows(s', h', reserved, requests[1..])
    case Free(k) =>
      FreeKeepsSound(h, reserved, k);
      var s', h' := FreeRecord(s, k), FreeResult(h, k);
      s'.flags == h'.flags && Follows(s', h', reserved, requests[1..])
  }

  /** Every record that the run frees was granted when the size in the slot before was below 1024. */
  ghost predicate FreesUnshifted(s: Ledger, unshifted: seq<bool>, requests: seq<Request>)
    requires |s.held| <= |s.sizes| == SLOTS && ProperRecords(s, requests) && |unshifted| == |s.held|
    decreases |requests|
  {
    |requests| == 0 ||
    match requests[0]
    case Alloc(n, r) =>
      if Grants(s, n, r)
      then FreesUnshifted(AllocRecord(s, n, r), unshifted + [Wrap32(Shift(s)) < BLOCK_SIZE], requests[1..])
      else FreesUnshifted(s, unshifted, requests[1..])
    case Free(k) => unshifted[k] && FreesUnshifted(FreeRecord(s, k), unshifted[..k] + unshifted[k + 1..], requests[1..])
  }

  /** A run of records is the run meant, request by request, exactly when every record freed was granted unshifted. */
  lemma {:induction false} FollowsIff(s: Ledger, h: Heap, reserved: nat, unshifted: seq<bool>, requests: seq<Request>)
    requires |s.held| <= |s.sizes| == SLOTS && ProperRecords(s, requests) && |s.flags| <= 0x40_0000
    requires Sound(h, reserved) && Mirrors(s, h, unshifted)
    ensures Follows(s, h, reserved, requests) <==> FreesUnshifted(s, unshifted, requests)
    decreases |requests|
  {
    if |requests| > 0 {
      var rest := requests[1..];
      match requests[0]
      case Alloc(n, r) =>
        AllocKeepsSound(h, reserved, n, r);
        var s', h' := AllocRecord(s, n, r), AllocResult(h, n, r);
        assert |s'.flags| == |s.flags|;
        if Grants(s, n, r) {
          AllocMirrors(s, h, unshifted, n, r);
          hide AllocRecord, AllocResult, Shift, Wrap32, Sound;
          FollowsIff(s', h', reserved, unshifted + [Wrap32(Shift(s)) < BLOCK_SIZE], rest);
        } else {
          hide Sound;
          FollowsIff(s, h, reserved, unshifted, rest);
        }
      case Free(k) =>
        FreeKeepsSound(h, reserved, k);
        FreeMirrorsIff(s, h, reserved, unshifted, k);
        var s', h' := FreeRecord(s, k), FreeResult(h, k);
        assert |s'.flags| == |s.flags| && h.live[k].first + h.live[k].count <= |h.flags|;
        hide FreeRecord, FreeResult, Sound;
        if unshifted[k] {
          FollowsIff(s', h', reserved, unshifted[..k] + unshifted[k + 1..], rest);
        }
    }
  }

  /** Each held record as the range of blocks that it names. */
  function Blocks(held: seq<Process>): (live: seq<Block>)
    ensures |live| == |held|
  {
    seq(|held|, i requires 0 <= i < |held| => Block(BlockOf(held[i]), held[i].allocationSize))
  }

  /** What a record adds to the sum of sizes. */
  lemma HeldSum(held: seq<Process>, k: nat)
    requires k < |held|
    ensures Sum(Blocks(held)) == Sum(Blocks(held[..k] + held[k + 1..])) + held[k].allocationSize
  {
    SumWithout(Blocks(held), k);
    assert Blocks(held[..k] + held[k + 1..]) == Blocks(held)[..k] + Blocks(held)[k + 1..];
  }

  function AsHeap(s: Ledger): Heap { Heap(s.flags, s.used, Blocks(s.held)) }

  /** No size in the process table, and no request, reaches 1024 blocks. */
  ghost predicate Small(s: Ledger, requests: seq<Request>) {
    && |s.flags| <= 0x40_0000
    && (forall i | 0 <= i < |s.sizes| :: s.sizes[i] < BLOCK_SIZE)
    && (forall i | 0 <= i < |requests| && requests[i].Alloc? :: requests[i].n < BLOCK_SIZE)
  }

  lemma SmallStep(s: Ledger, requests: seq<Request>)
    requires |s.held| <= |s.sizes| == SLOTS && |requests| > 0 && ProperRecords(s, requests) && Small(s, requests)
    ensures Small(Next(s, requests[0]), requests[1..])
  {
    assert forall i | 0 <= i < |requests| - 1 :: requests[1..][i] == requests[i + 1];
    hide IsFirstFit, Fill, Cleared, Wrap32;
  }

  lemma SmallAlloc(s: Ledger, n: uint32, r: int)
    requires IsFirstFit(s.flags, n, r) && |s.flags| <= 0x40_0000 && |s.held| <= |s.sizes|
    requires Grants(s, n, r) ==> |s.held| < |s.sizes|
    requires forall i | 0 <= i < |s.sizes| :: s.sizes[i] < BLOCK_SIZE
    ensures AsHeap(AllocRecord(s, n, r)) == AllocResult(AsHeap(s), n, r)
  {
    if Grants(s, n, r) {
      WrapNone(Shift(s));
      AddressBlockIff(Shift(s), r);
      hide Wrap32, Fill;
      var p := Process(Wrap32(Shift(s) + r * BLOCK_SIZE), n);
      assert Blocks(s.held + [p]) == Blocks(s.held) + [Block(r, n)];
    }
  }

  /** A record that names its blocks frees them. */
  lemma NamedFree(s: Ledger, reserved: nat, k: nat)
    requires Sound(AsHeap(s), reserved) && k < |s.held| && |s.sizes| > 0
    ensures AsHeap(FreeRecord(s, k)) == FreeResult(AsHeap(s), k)
  {
    var b := AsHeap(s).live[k];
    assert b.count > 0 && All(s.flags, b.first, b.count, true);
    ClearedIsOwnIff(s.flags, b.first, b.count, b.first);
    hide Cleared, Fill, All, BlockOf;
    assert Blocks(s.held[..k] + s.held[k + 1..]) == Blocks(s.held)[..k] + Blocks(s.held)[k + 1..];
  }

  /** With sizes below 1024 the run of records is the run meant: every record names its blocks, and frees them. */
  lemma {:induction false} RecordRunIsIndexRun(s: Ledger, reserved: nat, requests: seq<Request>)
    requires |s.held| <= |s.sizes| == SLOTS && ProperRecords(s, requests) && Small(s, requests)
    requires Sound(AsHeap(s), reserved)
    ensures ProperRun(AsHeap(s), reserved, requests)
    ensures AsHeap(RunRecords(s, requests)) == Run(AsHeap(s), reserved, requests)
    decreases |requests|
  {
    if |requests| > 0 {
      SmallStep(s, requests);
      match requests[0]
      case Alloc(n, r) =>
        AllocKeepsSound(AsHeap(s), reserved, n, r);
        SmallAlloc(s, n, r);
        RecordRunIsIndexRun(AllocRecord(s, n, r), reserved, requests[1..]);
      case Free(k) =>
        FreeKeepsSound(AsHeap(s), reserved, k);
        NamedFree(s, reserved, k);
        RecordRunIsIndexRun(FreeRecord(s, k), reserved, requests[1..]);
    }
  }

  /**
   * Over every run with sizes below 1024: the held records name nonempty, disjoint, used ranges; a block is used
   * exactly when it was before or a held record names it; the counter moves with the number of set bits.
   */
  lemma RecordRunKeeps(s: Ledger, requests: seq<Request>)
    requires s.held == [] && |s.sizes| == SLOTS && 0 <= s.used <= |s.flags|
    requires ProperRecords(s, requests) && Small(s, requests)
    ensures var h := AsHeap(RunRecords(s, requests));
      Sound(h, s.used) && UsedAre(h, s.flags) && Ahead(h) == Ahead(AsHeap(s))
  {
    var h := AsHeap(s);
    assert Sound(h, s.used) && UsedAre(h, s.flags);
    RecordRunIsIndexRun(s, s.used, requests);
    RunUsesLiveBlocks(h, s.used, requests, s.flags);
    RunKeepsAhead(h, s.used, requests);
  }

  /** An empty process table over free blocks. */
  function AllFree(size: nat): Ledger { Ledger(seq(size, _ => false), 0, seq(SLOTS, _ => 0), []) }

  lemma RunOfThree(s: Ledger, a: Request, b: Request, c: Request)
    requires |s.held| <= |s.sizes| == SLOTS
    requires Admits(s, a) && Admits(Next(s, a), b) && Admits(Next(Next(s, a), b), c)
    ensures ProperRecords(s, [a, b, c]) && RunRecords(s, [a, b, c]) == Next(Next(Next(s, a), b), c)
  {
    assert [a, b, c][1..] == [b, c] && [b, c][1..] == [c];
    hide Admits, Next;
    var t := Next(Next(s, a), b);
    assert ProperRecords(t, [c]) && RunRecords(t, [c]) == Next(t, c);
    assert ProperRecords(Next(s, a), [b, c]) && RunRecords(Next(s, a), [b, c]) == Next(t, c);
  }

  /** The lowest block is the first fit when all are free, and block `n` once the first `n` are used. */
  lemma FirstFits(size: nat, n: nat, m: nat)
    requires 0 < m && n < Scanned(size) && n + m <= size
    ensures IsFirstFit(Fill(seq(size, _ => false), 0, n, true), m, n)
  {
    var flags := Fill(seq(size, _ => false), 0, n, true);
    forall s | 0 <= s < n ensures !FreeRun(flags, s, m) { UsedStart(flags, s, m); }
  }

  /**
   * Outside that bound: after `n` blocks, at least 1024, the next record is shifted by `n`, so freeing it clears a
   * block past its own, which stays used with no record to name it.
   */
  lemma ShiftedFree(size: nat, n: uint32)
    requires 0x400 <= n < Scanned(size) && n < size <= 0x40_0000
    ensures |AllFree(size).sizes| == SLOTS
    ensures var requests := [Alloc(n, 0), Alloc(1, n), Free(1)];
      ProperRecords(AllFree(size), requests)
      && !UsedAre(AsHeap(RunRecords(AllFree(size), requests)), AllFree(size).flags)
  {
    var s := AllFree(size);
    assert Fill(s.flags, 0, 0, true) == s.flags;
    FirstFits(size, 0, n);
    FirstFits(size, n, 1);
    var s1 := AllocRecord(s, n, 0);
    assert Grants(s, n, 0) && s1.held == [Process(Wrap32(0), n)] && Shift(s1) == n;
    var s2 := AllocRecord(s1, 1, n);
    AddressBlockIff(n, n);
    WrapNone(n);
    hide IsFirstFit, Wrap32, Scanned;
    RunOfThree(s, Alloc(n, 0), Alloc(1, n), Free(1));
    var s3 := FreeRecord(s2, 1);
    assert s3.flags[n] && s3.held == [Process(Wrap32(0), n)];
    WrapNone(0);
    assert !InLive(Blocks(s3.held), n);
  }

  // ---------------------------------------------------------------- from init_mem on

  /** What init_mem and the region calls leave, with an empty process table. */
  ghost function SetUp(before: seq<bool>, max: nat, calls: seq<RegionCall>): Ledger
    requires max <= |before|
    requires ProperRegions(Fill(before, 0, 8 * (max / 8), true), max, calls)
  {
    var flags := RunRegions(Fill(before, 0, 8 * (max / 8), true), max, calls);
    Ledger(flags[..max], max + CounterChange(calls), seq(SLOTS, _ => 0), [])
  }

  /**
   * From init_mem on, over all region calls and then all allocations and frees below 1024 blocks, the number of set
   * bits is the counter and one block for each init that covered block 0, if the flags past the last whole byte were
   * set to begin with.
   */
  lemma CounterOverLife(before: seq<bool>, max: nat, calls: seq<RegionCall>, requests: seq<Request>)
    requires 8 <= max <= |before| && All(before, 8 * (max / 8), max % 8, true)
    requires ProperRegions(Fill(before, 0, 8 * (max / 8), true), max, calls) && max + CounterChange(calls) >= 0
    ensures var s := SetUp(before, max, calls);
      ProperRecords(s, requests) && Small(s, requests) ==>
        Ahead(AsHeap(RunRecords(s, requests))) == ReleasesOfBlockZero(calls)
  {
    var flags := Fill(before, 0, 8 * (max / 8), true);
    InitMemCountIff(before, max);
    RunRegionsCount(flags, max, calls);
    CountPrefix(RunRegions(flags, max, calls), max, max);
    var s := SetUp(before, max, calls);
    assert Ahead(AsHeap(s)) == ReleasesOfBlockZero(calls);
    if ProperRecords(s, requests) && Small(s, requests) { RecordRunKeeps(s, requests); }
  }

  // ---------------------------------------------------------------- the code

  class Allocator {
    const memoryMap: array<bv32>
    const allProcesses: array<Process>
    const memory: array<uint8>
    var maxBlocks: uint32
    var usedBlocks: uint32
    var totalAllocated: uint32
    var currPid: uint32
    ghost var held: seq<Process>

    constructor (memoryMap: array<bv32>, memory: array<uint8>)
      ensures this.memoryMap == memoryMap && this.memory == memory && fresh(allProcesses)
      ensures allProcesses[..] == seq(25, _ => Process(0, 0))
      ensures maxBlocks == usedBlocks == totalAllocated == currPid == 0 && held == []
    {
      this.memoryMap, this.memory := memoryMap, memory;
      allProcesses := new Process[SLOTS](_ => Process(0, 0));
      maxBlocks, usedBlocks, totalAllocated, currPid := 0, 0, 0, 0;
      held := [];
    }

    ghost function AllFlags(): (flags: seq<bool>)
      reads memoryMap
      ensures |flags| == 32 * memoryMap.Length
    {
      Flags(memoryMap[..])
    }

    /** The sizes in the process table. */
    ghost function Sizes(): (sizes: seq<uint64>)
      reads allProcesses
      ensures |sizes| == allProcesses.Length
    {
      seq(allProcesses.Length,
          i requires 0 <= i < allProcesses.Length reads allProcesses => allProcesses[i].allocationSize)
    }

    ghost function View(): Ledger
      requires maxBlocks <= 32 * memoryMap.Length
      reads this, memoryMap, allProcesses
    {
      Ledger(AllFlags()[..maxBlocks], usedBlocks, Sizes(), held)
    }

    /** The bitmap, the process table and the memory that is handed out are different objects. */
    ghost predicate ArraysApart() {
      && memoryMap as object != allProcesses as object
      && memory as object != memoryMap as object
      && memory as object != allProcesses as object
    }

    /** A state that allocations and frees lead to. */
    ghost predicate Valid()
      reads this, memoryMap, allProcesses
    {
      && ArraysApart()
      && maxBlocks <= 32 * memoryMap.Length && usedBlocks <= maxBlocks
      && totalAllocated == Sum(Blocks(held)) <= usedBlocks
      && allProcesses.Length == SLOTS && currPid == |held| <= SLOTS
    }

    method Set(bit: uint32)
      requires bit < 32 * memoryMap.Length
      modifies memoryMap
      ensures AllFlags() == old(AllFlags())[bit := true]
    {
      hide HasBit, WithBit;
      SetWord(memoryMap[..], bit);
      memoryMap[bit / 32] := WithBit(memoryMap[bit / 32], bit % 32);
    }

    method Unset(bit: uint32)
      requires bit < 32 * memoryMap.Length
      modifies memoryMap
      ensures AllFlags() == old(AllFlags())[bit := false]
    {
      hide HasBit, WithoutBit;
      ClearWord(memoryMap[..], bit);
      memoryMap[bit / 32] := WithoutBit(memoryMap[bit / 32], bit % 32);
    }

    method InitMem(size: uint64)
      requires Wrap32(size / BLOCK_SIZE) <= 32 * memoryMap.Length
      modifies this`maxBlocks, this`usedBlocks, memoryMap
      ensures maxBlocks == usedBlocks == Wrap32(size / BLOCK_SIZE)
      ensures AllFlags() == Fill(old(AllFlags()), 0, 8 * (maxBlocks / 8), true)
    {
      maxBlocks := Wrap32(size / BLOCK_SIZE);
      usedBlocks := maxBlocks;
      SetBytes(memoryMap, maxBlocks / 8);
    }

    method InitRegion(base: uint32, size: uint64)
      requires memoryMap.Length > 0
      requires base / BLOCK_SIZE + BlockCount(size) <= 32 * memoryMap.Length < 0x1_0000_0000
      modifies this`usedBlocks, memoryMap
      ensures var c := CallOf(base, size, true);
        && AllFlags() == Region(old(AllFlags()), c.first, c.count, c.release)
        && usedBlocks == Wrap32(old(usedBlocks) + CounterChange([c]))
    {
      CallBlocks(base, size, true);
      var align := base / BLOCK_SIZE;
      var blocks := BlockCount(size);
      ghost var a, n, flags, used := align, blocks, AllFlags(), usedBlocks;
      WrapNone(usedBlocks);
      hide HasBit, Flag, Flags, Wrap32;
      while blocks > 0
        invariant 0 <= blocks <= n && align == a + (n - blocks)
        invariant AllFlags() == Fill(flags, a, n - blocks, false)
        invariant usedBlocks == Wrap32(used - (n - blocks))
      {
        WrapAdd(used - (n - blocks), -1);
        Unset(align);
        align := align + 1;
        usedBlocks := Wrap32(usedBlocks - 1);
        blocks := blocks - 1;
      }
      Set(0);
    }

    method DeinitRegion(base: uint32, size: uint64)
      requires memoryMap.Length > 0
      requires base / BLOCK_SIZE + BlockCount(size) <= 32 * memoryMap.Length < 0x1_0000_0000
      modifies this`usedBlocks, memoryMap
      ensures var c := CallOf(base, size, false);
        && AllFlags() == Region(old(AllFlags()), c.first, c.count, c.release)
        && usedBlocks == Wrap32(old(usedBlocks) + CounterChange([c]))
    {
      CallBlocks(base, size, false);
      var align := base / BLOCK_SIZE;
      var blocks := BlockCount(size);
      ghost var a, n, flags, used := align, blocks, AllFlags(), usedBlocks;
      WrapNone(usedBlocks);
      hide HasBit, Flag, Flags, Wrap32;
      while blocks > 0
        invariant 0 <= blocks <= n && align == a + (n - blocks)
        invariant AllFlags() == Fill(flags, a, n - blocks, true)
        invariant usedBlocks == Wrap32(used + (n - blocks))
      {
        WrapAdd(used + (n - blocks), 1);
        Set(align);
        align := align + 1;
        usedBlocks := Wrap32(usedBlocks + 1);
        blocks := blocks - 1;
      }
    }

    /** Repaired: probes blocks `sb` to `sb + blocks` with the whole flag, blocks from max_blocks on being used. */
    method FindBlocks(blocks: uint32) returns (r: int)
      requires maxBlocks <= 32 * memoryMap.Length
      ensures IsFirstFit(AllFlags()[..maxBlocks], blocks, r)
      ensures r == -1 || (blocks > 0 && 0 <= r < maxBlocks / 32 * 32 && r + blocks <= maxBlocks)
      ensures r >= 0 ==> forall k | r <= k < r + blocks :: !AllFlags()[k]
      ensures r == -1 && blocks > 0 ==>
        forall s | 0 <= s < maxBlocks / 32 * 32 :: !FreeRun(AllFlags()[..maxBlocks], s, blocks)
    {
      if blocks == 0 {
        return -1;
      }
      ghost var flags := AllFlags()[..maxBlocks];
      hide HasBit;
      for i := 0 to maxBlocks / 32
        invariant forall s | 0 <= s < 32 * i :: !FreeRun(flags, s, blocks)
      {
        if memoryMap[i] != 0xFFFF_FFFF {
          for j := 0 to 32
            invariant forall s | 0 <= s < 32 * i + j :: !FreeRun(flags, s, blocks)
          {
            assert flags[32 * i + j] == HasBit(memoryMap[i], j);
            if !HasBit(memoryMap[i], j) {
              var sb := 32 * i + j;
              var freeBlocks := 0;
              for c := 0 to blocks
                invariant 0 <= freeBlocks <= c && freeBlocks < blocks
                invariant freeBlocks == c <==> FreeRun(flags, sb, c)
              {
                FreeRunExtends(flags, sb, c);
                assert sb + c < maxBlocks ==> flags[sb + c] == HasBit(memoryMap[(sb + c) / 32], (sb + c) % 32);
                if sb + c < maxBlocks && !HasBit(memoryMap[(sb + c) / 32], (sb + c) % 32) {
                  freeBlocks := freeBlocks + 1;
                }
                if freeBlocks == blocks {
                  return sb;
                }
              }
            }
            UsedStart(flags, 32 * i + j, blocks);
          }
        } else {
          FullWord(memoryMap[..], i);
          forall s | 32 * i <= s < 32 * i + 32 ensures !FreeRun(flags, s, blocks) { UsedStart(flags, s, blocks); }
        }
      }
      return -1;
    }

    /** Repaired: marks block `first + i`. A failed request answers with slot 0. */
    method MAlloc(blocks: uint32) returns (p: Process, ghost first: int)
      requires Valid() && currPid < SLOTS
      modifies this`usedBlocks, this`totalAllocated, this`currPid, this`held, memoryMap, allProcesses
      ensures Valid()
      ensures IsFirstFit(old(View()).flags, blocks, first)
      ensures View() == AllocRecord(old(View()), blocks, first)
      ensures p == if Grants(old(View()), blocks, first) then held[|held| - 1] else old(allProcesses[0])
      ensures held == old(held) + [p] <==> maxBlocks - old(usedBlocks) >= blocks && first != -1
      ensures Grants(old(View()), blocks, first) ==> allProcesses[..] == old(allProcesses[..])[old(currPid) := p]
    {
      if maxBlocks - usedBlocks < blocks {
        first := SomeFirstFit(View().flags, blocks);
        return allProcesses[0], first;
      }
      var start := FindBlocks(blocks);
      first := start;
      if start == -1 {
        return allProcesses[0], first;
      }
      hide *;
      p := Commit(start, blocks);
    }

    /** The second half of m_alloc, once blocks were found. */
    method Commit(first: nat, blocks: uint32) returns (p: Process)
      requires Valid() && currPid < SLOTS
      requires first + blocks <= maxBlocks && maxBlocks - usedBlocks >= blocks
      modifies this`usedBlocks, this`totalAllocated, this`currPid, this`held, memoryMap, allProcesses
      ensures Valid()
      ensures View() == AllocRecord(old(View()), blocks, first)
      ensures p == held[|held| - 1]
      ensures allProcesses[..] == old(allProcesses[..])[old(currPid) := p]
    {
      ghost var before := View();
      hide HasBit, Flag, Flags, Fill, Wrap32;
      MarkUsed(first, blocks);
      p := Record(first, blocks);
      SumSnoc(Blocks(old(held)), Block(BlockOf(p), blocks));
      assert Blocks(held) == Blocks(old(held)) + [Block(BlockOf(p), blocks)];
    }

    /** The end of m_alloc: the counters, and the record with its shifted address in the next slot. */
    method Record(first: nat, blocks: uint32) returns (p: Process)
      requires ArraysApart() && allProcesses.Length == SLOTS && currPid == |held| < SLOTS
      requires usedBlocks + blocks < 0x1_0000_0000 && totalAllocated + blocks < 0x1_0000_0000
      modifies this`usedBlocks, this`totalAllocated, this`currPid, this`held, allProcesses
      ensures memoryMap[..] == old(memoryMap[..]) && currPid == old(currPid) + 1 && held == old(held) + [p]
      ensures usedBlocks == old(usedBlocks) + blocks && totalAllocated == old(totalAllocated) + blocks
      ensures allProcesses[..] == old(allProcesses[..])[old(currPid) := p]
      ensures Sizes() == old(Sizes())[old(currPid) := blocks]
      ensures var shift := if old(currPid) > 0 then old(Sizes())[old(currPid) - 1] else 0;
        p == Process(Wrap32(shift + first * BLOCK_SIZE), blocks)
    {
      ghost var shift := if currPid > 0 then Sizes()[currPid - 1] else 0;
      WrapNone(usedBlocks + blocks);
      WrapNone(totalAllocated + blocks);
      var address: uint32 := 0;
      if currPid > 0 {
        address := Wrap32(address + allProcesses[currPid - 1].allocationSize);
      }
      WrapAdd(shift, first * BLOCK_SIZE);
      WrapNone(0);
      address := Wrap32(address + first * BLOCK_SIZE);
      usedBlocks := Wrap32(usedBlocks + blocks);
      totalAllocated := Wrap32(totalAllocated + blocks);
      ghost var words := memoryMap[..];
      allProcesses[currPid] := Process(address, blocks);
      assert memoryMap[..] == words;
      currPid := currPid + 1;
      p := allProcesses[currPid - 1];
      held := held + [p];
    }

    /** The marking loop of m_alloc. */
    method MarkUsed(first: nat, blocks: nat)
      requires ArraysApart() && first + blocks <= maxBlocks <= 32 * memoryMap.Length
      modifies memoryMap
      ensures AllFlags()[..maxBlocks] == Fill(old(AllFlags()[..maxBlocks]), first, blocks, true)
    {
      hide HasBit, Flag, Flags;
      for i := 0 to blocks
        invariant AllFlags() == Fill(old(AllFlags()), first, i, true)
      {
        Set(first + i);
      }
    }

    /** Frees the held record at `k`, by its address. */
    method MFree(p: Process, ghost k: nat)
      requires Valid() && k < |held| && p == held[k]
      requires BlockOf(p) + p.allocationSize <= 32 * memoryMap.Length < 0x1_0000_0000
      requires p.address + 4 * p.allocationSize <= memory.Length
      modifies this`usedBlocks, this`totalAllocated, this`currPid, this`held, memoryMap, allProcesses, memory
      ensures Valid()
      ensures View() == FreeRecord(old(View()), k)
      ensures AllFlags() == Cleared(old(AllFlags()), BlockOf(p), p.allocationSize)
      ensures forall i | 0 <= i < memory.Length ::
        memory[i] == if p.address <= i < p.address + 4 * p.allocationSize then 0 else old(memory[i])
      ensures allProcesses[..] == old(allProcesses[..])[0 := Process(0, 0)]
    {
      HeldSum(held, k);
      WrapNone(usedBlocks - p.allocationSize);
      WrapNone(totalAllocated - p.allocationSize);
      var frame := p.address / BLOCK_SIZE;
      assert frame == BlockOf(p);
      hide HasBit, Flag, Flags, Sum, Wrap32, Blocks, BlockOf, Cleared;
      ClearUsed(frame, p.allocationSize);
      usedBlocks := Wrap32(usedBlocks - p.allocationSize);
      ClearMemory(p.address, p.allocationSize);
      totalAllocated := Wrap32(totalAllocated - p.allocationSize);
      held := held[..k] + held[k + 1..];
      assert totalAllocated == Sum(Blocks(held)) <= usedBlocks;
      DropSlot();
      assert View().flags == FreeRecord(old(View()), k).flags;
    }

    /** The end of m_free: slot 0 is cleared, as the record's index was. */
    method DropSlot()
      requires ArraysApart() && allProcesses.Length == SLOTS && 0 < currPid <= SLOTS
      modifies this`currPid, allProcesses
      ensures memoryMap[..] == old(memoryMap[..]) && memory[..] == old(memory[..])
      ensures currPid == old(currPid) - 1 && Sizes() == old(Sizes())[0 := 0]
      ensures allProcesses[..] == old(allProcesses[..])[0 := Process(0, 0)]
    {
      ghost var words, bytes := memoryMap[..], memory[..];
      allProcesses[0] := Process(0, 0);
      assert memoryMap[..] == words && memory[..] == bytes;
      currPid := currPid - 1;
    }

    /** Zeroes one 32-bit word for each block, from the address on. */
    method ClearMemory(address: nat, size: nat)
      requires ArraysApart() && address + 4 * size <= memory.Length
      modifies memory
      ensures memoryMap[..] == old(memoryMap[..]) && allProcesses[..] == old(allProcesses[..])
      ensures forall i | 0 <= i < memory.Length ::
        memory[i] == if address <= i < address + 4 * size then 0 else old(memory[i])
    {
      ghost var words, slots := memoryMap[..], allProcesses[..];
      for k := 0 to size
        invariant memoryMap[..] == words && allProcesses[..] == slots
        invariant forall i | 0 <= i < memory.Length ::
          memory[i] == if address <= i < address + 4 * k then 0 else old(memory[i])
      {
        var at := address + 4 * k;
        memory[at], memory[at + 1], memory[at + 2], memory[at + 3] := 0, 0, 0, 0;
      }
    }

    /** The clearing loop of m_free. */
    method ClearUsed(first: nat, blocks: nat)
      requires ArraysApart() && first + blocks <= 32 * memoryMap.Length < 0x1_0000_0000
      requires maxBlocks <= 32 * memoryMap.Length
      modifies memoryMap
      ensures AllFlags() == Cleared(old(AllFlags()), first, blocks)
      ensures AllFlags()[..maxBlocks] == Cleared(old(AllFlags()[..maxBlocks]), first, blocks)
    {
      hide HasBit, Flag, Flags;
      for i := 0 to blocks
        invariant AllFlags() == Cleared(old(AllFlags()), first, i)
      {
        Unset(first + i);
      }
    }
  }

  lemma FullWord(words: seq<bv32>, i: nat)
    requires i < |words| && words[i] == 0xFFFF_FFFF
    ensures forall k | 32 * i <= k < 32 * i + 32 :: Flag(words, k)
  {}
}
