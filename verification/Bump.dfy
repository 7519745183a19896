/** The allocators of Kernel/xxtra.c that only move a pointer up. */
module Bump {
  import opened Machine

  // ---------------------------------------------------------------- balloc_aligned, in 64-bit arithmetic

  const BUMP_START: uint64 := 0x100_0000

  /** The bits that both numbers have. */
  function And(x: nat, y: nat): (z: nat)
    ensures z <= x
  {
    if x == 0 || y == 0 then 0 else 2 * And(x / 2, y / 2) + x % 2 * (y % 2)
  }

  /** Masking with a power of two less one takes the remainder. */
  lemma {:induction false} MaskIsRemainder(x: nat, k: nat)
    ensures And(x, Pow2(k) - 1) == x % Pow2(k)
    decreases k
  {
    if k == 0 {
      assert And(x, 0) == 0;
    } else {
      var m := Pow2(k - 1);
      assert Pow2(k) == 2 * m && Pow2(k) - 1 == 2 * (m - 1) + 1;
      hide And, Pow2;
      MaskIsRemainder(x / 2, k - 1);
      AndOdd(x, m - 1);
      HalfRemainder(x, m);
      assert And(x, 2 * (m - 1) + 1) == x % (2 * m);
    }
  }

  lemma AndOdd(x: nat, y: nat)
    ensures And(x, 2 * y + 1) == 2 * And(x / 2, y) + x % 2
  {}

  lemma HalfRemainder(x: nat, m: nat)
    requires m > 0
    ensures x % (2 * m) == 2 * (x / 2 % m) + x % 2
  {
    var h := x / 2;
    var r := 2 * (h % m) + x % 2;
    assert h == m * (h / m) + h % m;
    assert x == 2 * m * (h / m) + r;
    RemainderOf(x, 2 * m, h / m, r);
  }

  lemma RemainderOf(x: nat, n: nat, q: nat, r: nat)
    requires r < n && x == n * q + r
    ensures x % n == r
  {
    var d := x / n - q;
    assert n * d == r - x % n;
    assert d >= 1 ==> n * d >= n;
    assert d <= -1 ==> n * d <= 0 - n;
  }

  /** The base rounded up by masking; the sum may wrap. */
  function AlignUp(base: uint64, alignment: uint64): uint64
    requires alignment > 0
  {
    var low := And(base, alignment - 1);
    if low != 0 then Wrap64(base - low + alignment) else base
  }

  lemma NextMultiple(x: nat, a: nat)
    requires a > 0
    ensures (x - x % a + a) % a == 0
  {
    var q := x / a;
    assert x == a * q + x % a;
    assert x - x % a + a == a * (q + 1) + 0;
    RemainderOf(x - x % a + a, a, q + 1, 0);
  }

  lemma RoundingWraps(v: nat)
    requires v < 0x2_0000_0000_0000_0000
    ensures Wrap64(v) == v || Wrap64(v) == v - 0x1_0000_0000_0000_0000
  {}

  /** Rounding to a power of two aligns, and pads by less than one alignment unless it wraps. */
  lemma AlignUpAligns(base: uint64, k: nat)
    requires Pow2(k) < 0x1_0000_0000_0000_0000
    ensures base <= AlignUp(base, Pow2(k)) ==> AlignUp(base, Pow2(k)) % Pow2(k) == 0
    ensures base <= AlignUp(base, Pow2(k)) ==> AlignUp(base, Pow2(k)) - base < Pow2(k)
    ensures base + Pow2(k) <= 0x1_0000_0000_0000_0000 ==> base <= AlignUp(base, Pow2(k))
  {
    var a := Pow2(k);
    MaskIsRemainder(base, k);
    NextMultiple(base, a);
    var low := base % a;
    RoundingWraps(base - low + a);
    hide And, Pow2, Wrap64;
    assert AlignUp(base, a) == if low != 0 then Wrap64(base - low + a) else base;
  }

  /** One request of a run: a size and the exponent of its alignment. */
  datatype Request = Request(count: uint64, k: nat)

  /** The bytes that a caller gets: `count` from the returned pointer on. */
  datatype Range = Range(start: uint32, count: uint64)

  ghost predicate PowersOfTwo(requests: seq<Request>) {
    forall i | 0 <= i < |requests| :: Pow2(requests[i].k) < 0x1_0000_0000_0000_0000
  }

  /** The pointers that a run returns: each is the 64-bit base cut to 32 bits. */
  ghost function Ranges(base: uint64, requests: seq<Request>): (s: seq<Range>)
    requires PowersOfTwo(requests)
    ensures |s| == |requests|
    decreases |requests|
  {
    if |requests| == 0 then []
    else
      assert Pow2(requests[0].k) < 0x1_0000_0000_0000_0000;
      assert PowersOfTwo(requests[1..]);
      var start := AlignUp(base, Pow2(requests[0].k));
      [Range(Wrap32(start), requests[0].count)] + Ranges(Wrap64(start + requests[0].count), requests[1..])
  }

  /** Every range starts below 2^32 and ends no further than 2^32, before the cut. */
  ghost predicate Fits(base: uint64, requests: seq<Request>)
    requires PowersOfTwo(requests)
    decreases |requests|
  {
    |requests| == 0 ||
    (assert Pow2(requests[0].k) < 0x1_0000_0000_0000_0000;
    assert PowersOfTwo(requests[1..]);
    var start := AlignUp(base, Pow2(requests[0].k));
    start < 0x1_0000_0000 && start + requests[0].count <= 0x1_0000_0000
      && Fits(start + requests[0].count, requests[1..]))
  }

  /** The ranges follow one another from `base` on, inside the 32-bit address space. */
  ghost predicate InOrder(base: nat, s: seq<Range>)
    decreases |s|
  {
    |s| == 0 ||
    (base <= s[0].start && s[0].start + s[0].count <= 0x1_0000_0000 && InOrder(s[0].start + s[0].count, s[1..]))
  }

  /** In order means disjoint: an earlier range ends before a later one starts. */
  lemma {:induction false} InOrderIsDisjoint(base: nat, s: seq<Range>)
    requires InOrder(base, s)
    ensures forall i | 0 <= i < |s| :: base <= s[i].start && s[i].start + s[i].count <= 0x1_0000_0000
    ensures forall i, j | 0 <= i < j < |s| :: s[i].start + s[i].count <= s[j].start
    decreases |s|
  {
    if |s| > 0 {
      InOrderIsDisjoint(s[0].start + s[0].count, s[1..]);
      assert s == [s[0]] + s[1..];
    }
  }

  lemma {:induction false} Pow2Add(j: nat, k: nat)
    ensures Pow2(j + k) == Pow2(j) * Pow2(k)
  {
    if k > 0 {
      Pow2Add(j, k - 1);
      assert Pow2(j + k) == 2 * Pow2(j + (k - 1));
    }
  }

  lemma Pow2At32()
    ensures Pow2(32) == 0x1_0000_0000
  {
    assert Pow2(4) == 16 by { assert Pow2(2) == 4; }
    hide Pow2;
    Pow2Add(4, 4);
    Pow2Add(8, 8);
    Pow2Add(16, 16);
  }

  lemma Pow2At63()
    ensures Pow2(64) == 0x1_0000_0000_0000_0000 && Pow2(63) == 0x8000_0000_0000_0000
  {
    assert Pow2(64) == 2 * Pow2(63);
    hide Pow2;
    Pow2At32();
    Pow2Add(32, 32);
  }

  lemma MultipleOfMultiple(x: nat, a: nat, m: nat)
    requires a > 0 && m > 0 && x % a == 0 && a % m == 0
    ensures x % m == 0
  {
    var q, r := x / a, a / m;
    assert x == q * (r * m) == (q * r) * m;
    RemainderOf(x, m, q * r, 0);
  }

  /** Powers of two in 64 bits: those below 2^32, the multiples of 2^32, and none above 2^63. */
  lemma Pow2Cases(k: nat)
    requires Pow2(k) < 0x1_0000_0000_0000_0000
    ensures Pow2(k) <= 0x8000_0000_0000_0000
    ensures if k < 32 then Pow2(k) <= 0x8000_0000 else Pow2(k) % 0x1_0000_0000 == 0
  {
    Pow2At32();
    Pow2At63();
    assert Pow2(32) == 2 * Pow2(31);
    if k >= 64 {
      Pow2Monotonic(64, k);
    } else {
      Pow2Monotonic(k, 63);
    }
    if k < 32 {
      Pow2Monotonic(k, 31);
    } else {
      Pow2Add(k - 32, 32);
      hide Pow2;
      RemainderOf(Pow2(k), 0x1_0000_0000, Pow2(k - 32), 0);
    }
  }

  lemma CutBelow(base: nat, start: nat, a: nat)
    requires base <= 0x1_0000_0000 <= start && start - base < a && base > 0
    requires a <= 0x8000_0000 || start % 0x1_0000_0000 == 0
    ensures Wrap32(start) < base
  {}

  /** Below 2^32 the rounding does not wrap, and a start that reaches 2^32 comes back below the base. */
  lemma StartCut(base: uint64, k: nat)
    requires Pow2(k) < 0x1_0000_0000_0000_0000 && base <= 0x1_0000_0000
    ensures base <= AlignUp(base, Pow2(k))
    ensures AlignUp(base, Pow2(k)) >= 0x1_0000_0000 ==> Wrap32(AlignUp(base, Pow2(k))) < base
  {
    AlignUpAligns(base, k);
    Pow2Cases(k);
    var start, a := AlignUp(base, Pow2(k)), Pow2(k);
    assert base == 0 ==> start == 0;
    hide AlignUp, Pow2, Wrap32;
    if start >= 0x1_0000_0000 {
      if k >= 32 { MultipleOfMultiple(start, a, 0x1_0000_0000); }
      CutBelow(base, start, a);
    }
  }

  /** The first range of a run, and the rest. */
  lemma RangesStep(base: uint64, requests: seq<Request>)
    requires PowersOfTwo(requests) && |requests| > 0
    ensures Pow2(requests[0].k) < 0x1_0000_0000_0000_0000 && PowersOfTwo(requests[1..])
    ensures var start := AlignUp(base, Pow2(requests[0].k));
      && Ranges(base, requests)[0] == Range(Wrap32(start), requests[0].count)
      && Ranges(base, requests)[1..] == Ranges(Wrap64(start + requests[0].count), requests[1..])
  {
    assert Pow2(requests[0].k) < 0x1_0000_0000_0000_0000;
    hide AlignUp, Pow2, Wrap32, Wrap64;
  }

  lemma InRange64(x: nat)
    requires x <= 0x1_0000_0000
    ensures Wrap64(x) == x
  {}

  /** The ranges as returned are in order exactly when, before the cut, all start below 2^32 and none ends beyond it. */
  lemma {:induction false} RangesInOrderIff(base: uint64, requests: seq<Request>)
    requires PowersOfTwo(requests) && base <= 0x1_0000_0000
    ensures InOrder(base, Ranges(base, requests)) <==> Fits(base, requests)
    decreases |requests|
  {
    if |requests| > 0 {
      RangesStep(base, requests);
      var start := AlignUp(base, Pow2(requests[0].k));
      StartCut(base, requests[0].k);
      var end := start + requests[0].count;
      if start < 0x1_0000_0000 && end <= 0x1_0000_0000 {
        WrapNone(start);
        InRange64(end);
        RangesInOrderIff(end, requests[1..]);
      } else if start < 0x1_0000_0000 {
        WrapNone(start);
      }
      hide AlignUp, Pow2, Wrap32, Wrap64, PowersOfTwo, Ranges;
    }
  }

  /** Range `i` serves its request: alignment, and padding below the alignment. */
  ghost predicate Serves(base: nat, s: seq<Range>, requests: seq<Request>, i: nat)
    requires i < |s| == |requests|
  {
    && s[i].count == requests[i].count
    && s[i].start % Pow2(requests[i].k) == 0
    && s[i].start - (if i == 0 then base else s[i - 1].start + s[i - 1].count) < Pow2(requests[i].k)
  }

  /** Over every run that fits, the ranges are in order, aligned, with padding below the alignment. */
  lemma {:induction false} RunIncreases(base: uint64, requests: seq<Request>)
    requires PowersOfTwo(requests) && base <= 0x1_0000_0000 && Fits(base, requests)
    ensures InOrder(base, Ranges(base, requests))
    ensures forall i: nat | i < |requests| :: Serves(base, Ranges(base, requests), requests, i)
    decreases |requests|
  {
    RangesInOrderIff(base, requests);
    if |requests| > 0 {
      RangesStep(base, requests);
      var start := AlignUp(base, Pow2(requests[0].k));
      var end := start + requests[0].count;
      AlignUpAligns(base, requests[0].k);
      StartCut(base, requests[0].k);
      WrapNone(start);
      InRange64(end);
      var s, rest := Ranges(base, requests), Ranges(end, requests[1..]);
      hide AlignUp, Pow2, Wrap32, Wrap64, PowersOfTwo, Ranges, InOrder;
      RunIncreases(end, requests[1..]);
      assert Serves(base, s, requests, 0);
      forall i: nat | 0 < i < |requests| ensures Serves(base, s, requests, i) {
        assert Serves(end, rest, requests[1..], i - 1);
      }
    }
  }

  /** A multiple of the alignment stays where it is. */
  lemma MultipleStays(base: uint64, k: nat)
    requires Pow2(k) < 0x1_0000_0000_0000_0000 && base % Pow2(k) == 0
    ensures AlignUp(base, Pow2(k)) == base
  {
    MaskIsRemainder(base, k);
  }

  lemma RangesOfTwo(base: uint64, a: Request, b: Request)
    requires PowersOfTwo([a, b])
    ensures Pow2(a.k) < 0x1_0000_0000_0000_0000 && Pow2(b.k) < 0x1_0000_0000_0000_0000
    ensures var start := AlignUp(base, Pow2(a.k));
      && Ranges(base, [a, b])[0].start == Wrap32(start)
      && Ranges(base, [a, b])[1].start == Wrap32(AlignUp(Wrap64(start + a.count), Pow2(b.k)))
  {
    RangesStep(base, [a, b]);
    assert [a, b][1..] == [b];
    RangesStep(Wrap64(AlignUp(base, Pow2(a.k)) + a.count), [b]);
    hide *;
    assert Ranges(base, [a, b])[1] == Ranges(base, [a, b])[1..][0];
  }

  lemma PastTheEnd(base: uint32)
    requires base % 4 == 0
    ensures (base + 0x1_0000_0000) % 4 == 0 && Wrap32(base + 0x1_0000_0000) == base
    ensures Wrap64(base + 0x1_0000_0000) == base + 0x1_0000_0000
  {}

  /** Two requests that return the same pointer: the first takes 2^32 bytes. */
  lemma SamePointerTwice(base: uint32, b: Request)
    requires base % 4 == 0 && b.k == 2
    ensures PowersOfTwo([Request(0x1_0000_0000, 2), b])
    ensures Ranges(base, [Request(0x1_0000_0000, 2), b])[0].start == base
    ensures Ranges(base, [Request(0x1_0000_0000, 2), b])[1].start == base
  {
    assert Pow2(2) == 4;
    PastTheEnd(base);
    WrapNone(base);
    hide AlignUp, Pow2, Ranges, Wrap32, Wrap64;
    RangesOfTwo(base, Request(0x1_0000_0000, 2), b);
    MultipleStays(base, 2);
    MultipleStays(base + 0x1_0000_0000, 2);
  }

  class BumpAllocator {
    var base: uint64

    constructor ()
      ensures base == BUMP_START == 0x100_0000
    {
      base := BUMP_START;
    }

    /** The pointer type is 32 bits wide, the base 64. */
    method BallocAligned(count: uint64, alignment: uint64) returns (ret: uint32)
      requires alignment > 0
      modifies this
      ensures ret == Wrap32(AlignUp(old(base), alignment))
      ensures base == Wrap64(AlignUp(old(base), alignment) + count)
    {
      var newBase := base;
      if And(newBase, alignment - 1) != 0 {
        newBase := newBase - And(newBase, alignment - 1);
        newBase := Wrap64(newBase + alignment);
      }
      ret := Wrap32(newBase);
      newBase := Wrap64(newBase + count);
      base := newBase;
    }
  }

  // ---------------------------------------------------------------- kmalloc and kmalloc_ap, in 32-bit arithmetic

  const KMALLOC_START: uint32 := 0xA000_0000

  /** With align == 1 an address at or above the first page always moves to the next page. */
  function PageUp(addr: uint32, align: int): uint32 {
    if align == 1 && addr / PAGE_SIZE > 0 then Wrap32(addr / PAGE_SIZE * PAGE_SIZE + PAGE_SIZE) else addr
  }

  /** kmalloc is the call with align 0. */
  datatype Call = Call(size: uint64, align: int)

  /** An aligned call moves by at least one byte and at most a page, from page 1 on; other calls do not move. */
  lemma PageUpDistance(addr: uint32, align: int)
    ensures align == 1 && 4096 <= addr < 0x1_0000_0000 - 4096 ==>
      addr < PageUp(addr, align) <= addr + 4096 && PageUp(addr, align) % 4096 == 0
    ensures align != 1 || addr < 4096 ==> PageUp(addr, align) == addr
    ensures align == 1 && addr >= 0x1_0000_0000 - 4096 ==> PageUp(addr, align) == 0
  {}

  /** The pointers that mixed calls return, with what was asked for. */
  ghost function CallRanges(addr: uint32, calls: seq<Call>): (s: seq<Range>)
    ensures |s| == |calls|
    decreases |calls|
  {
    if |calls| == 0 then []
    else
      var start := PageUp(addr, calls[0].align);
      [Range(start, calls[0].size)] + CallRanges(Wrap32(start + calls[0].size), calls[1..])
  }

  /** No rounding wraps, no range ends beyond 2^32, and none is asked for once one has ended there. */
  ghost predicate CallsFit(base: nat, calls: seq<Call>)
    decreases |calls|
  {
    |calls| == 0 ||
    (base < 0x1_0000_0000 && base <= PageUp(base, calls[0].align)
      && PageUp(base, calls[0].align) + calls[0].size <= 0x1_0000_0000
      && CallsFit(PageUp(base, calls[0].align) + calls[0].size, calls[1..]))
  }

  /** An aligned request is page aligned exactly when the pointer is zero or beyond page 0. */
  lemma PageUpAlignsIff(addr: uint32)
    ensures PageUp(addr, 1) % PAGE_SIZE == 0 <==> addr == 0 || addr >= PAGE_SIZE
  {}

  lemma CallRangesStep(base: nat, calls: seq<Call>)
    requires |calls| > 0 && base <= 0x1_0000_0000
    ensures var start := PageUp(Wrap32(base), calls[0].align); var s := CallRanges(Wrap32(base), calls);
      && s[0] == Range(start, calls[0].size) && s[1..] == CallRanges(Wrap32(start + calls[0].size), calls[1..])
      && (base == 0x1_0000_0000 ==> start == 0) && (base < 0x1_0000_0000 ==> Wrap32(base) == base)
  {}

  /** Over every run of mixed calls the ranges returned are in order, hence disjoint, exactly when they fit. */
  lemma {:induction false} CallsInOrderIff(base: nat, calls: seq<Call>)
    requires base <= 0x1_0000_0000
    ensures InOrder(base, CallRanges(Wrap32(base), calls)) <==> CallsFit(base, calls)
    decreases |calls|
  {
    if |calls| > 0 {
      CallRangesStep(base, calls);
      var end := PageUp(Wrap32(base), calls[0].align) + calls[0].size;
      if end <= 0x1_0000_0000 { CallsInOrderIff(end, calls[1..]); }
      hide PageUp, Wrap32, CallRanges;
    }
  }

  lemma PageUpStays(addr: uint32, align: int)
    requires PAGE_SIZE <= addr <= PageUp(addr, align)
    ensures align == 1 ==> PageUp(addr, align) % PAGE_SIZE == 0
  {}

  lemma {:induction false} CallsAligned(base: nat, calls: seq<Call>)
    requires PAGE_SIZE <= base <= 0x1_0000_0000 && CallsFit(base, calls)
    ensures forall i | 0 <= i < |calls| && calls[i].align == 1 ::
      CallRanges(Wrap32(base), calls)[i].start % PAGE_SIZE == 0
    decreases |calls|
  {
    if |calls| > 0 {
      CallRangesStep(base, calls);
      var start := PageUp(base, calls[0].align);
      PageUpStays(base, calls[0].align);
      hide PageUp, Wrap32, CallRanges;
      CallsAligned(start + calls[0].size, calls[1..]);
      var s := CallRanges(Wrap32(base), calls);
      assert forall i | 0 < i < |calls| :: s[i] == s[1..][i - 1] && calls[i] == calls[1..][i - 1];
    }
  }

  /** Over every run that fits, the ranges are disjoint and in order, and page aligned when asked. */
  lemma CallsDisjoint(addr: uint32, calls: seq<Call>)
    requires PAGE_SIZE <= addr && CallsFit(addr, calls)
    ensures var s := CallRanges(addr, calls);
      && (forall i | 0 <= i < |s| :: addr <= s[i].start && s[i].start + s[i].count <= 0x1_0000_0000)
      && (forall i, j | 0 <= i < j < |s| :: s[i].start + s[i].count <= s[j].start)
      && (forall i | 0 <= i < |s| && calls[i].align == 1 :: s[i].start % PAGE_SIZE == 0)
  {
    WrapNone(addr);
    CallsInOrderIff(addr, calls);
    InOrderIsDisjoint(addr, CallRanges(addr, calls));
    CallsAligned(addr, calls);
    hide CallsFit, CallRanges, InOrder, Wrap32;
  }

  class PlacementAllocator {
    var addr: uint32

    constructor ()
      ensures addr == KMALLOC_START == 0xA000_0000
    {
      addr := KMALLOC_START;
    }

    method Kmalloc(size: uint64) returns (tmp: uint32)
      modifies this
      ensures tmp == PageUp(old(addr), 0) && addr == Wrap32(tmp + size)
    {
      tmp := addr;
      addr := Wrap32(addr + size);
    }

    /** `phys` is the value stored through the optional pointer. */
    method KmallocAp(size: uint64, align: int) returns (tmp: uint32, phys: uint32)
      modifies this
      ensures tmp == phys == PageUp(old(addr), align) && addr == Wrap32(tmp + size)
    {
      if align == 1 && addr / PAGE_SIZE > 0 {
        addr := addr - addr % PAGE_SIZE;
        addr := Wrap32(addr + PAGE_SIZE);
      }
      phys := addr;
      tmp := addr;
      addr := Wrap32(addr + size);
    }
  }
}
