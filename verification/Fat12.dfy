/** The FAT12 file reader of try.c: volume layout, packed 12-bit table, cluster-chain walk. */
module Fat12 {
  import opened Machine

  /** The fields of the boot sector that the reader uses. */
  datatype BootSector = BootSector(
    bytesPerSector: uint16,
    sectorsPerCluster: uint8,
    reservedSectors: uint16,
    fatCount: uint8,
    dirEntryCount: uint16,
    sectorsPerFat: uint16)

  /** What the chain walk depends on: the disk image and the globals set before it starts. */
  datatype Volume = Volume(disk: seq<uint8>, boot: BootSector, fat: seq<uint8>, rootEnd: uint32)

  const DIR_ENTRY_SIZE := 32
  const NAME_SIZE := 11
  const END_OF_CHAIN := 0x0FF8

  // ---------------------------------------------------------------- sectors

  /** The seek offset: the product is taken in 32 bits. */
  function SectorOffset(boot: BootSector, lba: uint32): uint32 {
    Wrap32(lba * boot.bytesPerSector)
  }

  /** The image holds every byte that was asked for. */
  predicate ReadOk(disk: seq<uint8>, boot: BootSector, lba: uint32, count: nat) {
    count == 0 || (boot.bytesPerSector > 0 && SectorOffset(boot, lba) + boot.bytesPerSector * count <= |disk|)
  }

  /** The bytes that reach the buffer; a read that meets the end of the image is cut there. */
  function ReadBytes(disk: seq<uint8>, boot: BootSector, lba: uint32, count: nat): (s: seq<uint8>)
    ensures |s| <= boot.bytesPerSector * count
    ensures ReadOk(disk, boot, lba, count) ==> |s| == boot.bytesPerSector * count
  {
    var start := SectorOffset(boot, lba);
    var want: nat := boot.bytesPerSector * count;
    if start + want <= |disk| then disk[start..start + want]
    else if start <= |disk| then disk[start..]
    else []
  }

  /** What a read delivers: bytes from the 32-bit product on, as many as asked for or as there are. */
  lemma ReadIs(disk: seq<uint8>, boot: BootSector, lba: uint32, count: nat, start: nat, want: nat)
    requires start == lba * boot.bytesPerSector % 0x1_0000_0000 && want == boot.bytesPerSector * count
    ensures ReadOk(disk, boot, lba, count) <==> count == 0 || (boot.bytesPerSector > 0 && start + want <= |disk|)
    ensures start + want <= |disk| ==> ReadBytes(disk, boot, lba, count) == disk[start..start + want]
    ensures start <= |disk| < start + want ==> ReadBytes(disk, boot, lba, count) == disk[start..]
    ensures start > |disk| ==> ReadBytes(disk, boot, lba, count) == []
  {
    WrapIsRemainder(lba * boot.bytesPerSector);
    hide Wrap32;
  }

  /** Writes `s` over `b` from index `at`. */
  function Overwrite(b: seq<uint8>, at: nat, s: seq<uint8>): (r: seq<uint8>)
    requires at + |s| <= |b|
    ensures |r| == |b|
  {
    b[..at] + s + b[at + |s|..]
  }

  lemma WholeItems(have: nat, size: nat, count: nat)
    requires size > 0
    ensures have / size >= count <==> have >= size * count
  {
    var q := have / size;
    assert have == size * q + have % size;
    if q >= count {
      assert size * q >= size * count;
    } else {
      assert size * (q + 1) <= size * count;
      assert size * (q + 1) == size * q + size;
    }
  }

  lemma OverwriteAppend(b: seq<uint8>, s: seq<uint8>, t: seq<uint8>)
    requires |s| + |t| <= |b|
    ensures Overwrite(Overwrite(b, 0, s), |s|, t) == Overwrite(b, 0, s + t)
  {}

  lemma OverwritePrefix(b: seq<uint8>, s: seq<uint8>, n: nat)
    requires |s| <= |b| && n <= |b|
    ensures Overwrite(b, 0, s)[..n] <= s || s <= Overwrite(b, 0, s)[..n]
  {}

  // ---------------------------------------------------------------- the table

  /** Byte offset of an entry: three bytes hold two. */
  function FatIndex(cluster: uint16): (i: nat)
    ensures i == 3 * (cluster / 2) + cluster % 2
  {
    cluster * 3 / 2
  }

  /** The two bytes that the load of this entry touches are in the table. */
  predicate EntryInTable(fat: seq<uint8>, cluster: uint16) {
    FatIndex(cluster) + 1 < |fat|
  }

  /** One table entry: a little-endian 16-bit load, masked to its low or shifted to its high 12 bits. */
  function Entry(fat: seq<uint8>, cluster: uint16): uint12
    requires EntryInTable(fat, cluster)
  {
    var i := FatIndex(cluster);
    Extract(fat[i], fat[i + 1], cluster % 2 == 0)
  }

  function Extract(lo: uint8, hi: uint8, even: bool): (v: uint12)
    ensures even ==> v == lo + 0x100 * (hi % 0x10)
    ensures !even ==> v == lo / 0x10 + 0x10 * hi
  {
    var load: uint16 := lo + 0x100 * hi;
    if even then load % 0x1000 else load / 0x10
  }

  function PackPair(a: uint12, b: uint12): (s: seq<uint8>)
    ensures |s| == 3
    ensures Extract(s[0], s[1], true) == a && Extract(s[1], s[2], false) == b
  {
    var middle: uint8 := a / 0x100 + b % 0x10 * 0x10;
    [a % 0x100, middle, b / 0x10]
  }

  /** The on-disk packing of 12-bit values, two in three bytes. */
  function Pack(values: seq<uint12>): (fat: seq<uint8>)
    ensures |fat| == (3 * |values| + 1) / 2
  {
    if |values| == 0 then []
    else if |values| == 1 then [values[0] % 0x100, values[0] / 0x100]
    else PackPair(values[0], values[1]) + Pack(values[2..])
  }

  /** Decoding undoes packing. */
  lemma {:induction false} EntryOfPack(values: seq<uint12>, n: uint16)
    requires n < |values|
    ensures EntryInTable(Pack(values), n)
    ensures Entry(Pack(values), n) == values[n]
  {
    if n >= 2 {
      EntryOfPack(values[2..], n - 2);
      assert FatIndex(n) == FatIndex(n - 2) + 3;
    }
  }

  /** Rewrites one entry in place, leaving the half byte it shares with its neighbour alone. */
  function SetEntry(fat: seq<uint8>, cluster: uint16, v: uint12): (r: seq<uint8>)
    requires EntryInTable(fat, cluster)
    ensures |r| == |fat|
  {
    var i := FatIndex(cluster);
    var (lo, hi) := Insert(fat[i], fat[i + 1], cluster % 2 == 0, v);
    fat[i := lo][i + 1 := hi]
  }

  /** The two bytes of an entry once it holds `v`; the neighbour reads the shared byte as before. */
  function Insert(lo: uint8, hi: uint8, even: bool, v: uint12): (r: (uint8, uint8))
    ensures Extract(r.0, r.1, even) == v
    ensures even ==> r.1 / 0x10 == hi / 0x10
    ensures !even ==> r.0 % 0x10 == lo % 0x10
  {
    var a: uint8 := if even then v % 0x100 else lo % 0x10 + v % 0x10 * 0x10;
    var b: uint8 := if even then hi / 0x10 * 0x10 + v / 0x100 else v / 0x10;
    (a, b)
  }

  /** Entries are independent although neighbours share a byte. */
  lemma EntryOfSetEntry(fat: seq<uint8>, cluster: uint16, v: uint12, n: uint16)
    requires EntryInTable(fat, cluster) && EntryInTable(fat, n)
    ensures Entry(SetEntry(fat, cluster, v), n) == if n == cluster then v else Entry(fat, n)
  {}

  // ---------------------------------------------------------------- the walk

  /** First sector of a cluster, in 32-bit arithmetic. */
  function ClusterLba(v: Volume, cluster: uint16): uint32 {
    Wrap32(v.rootEnd + (cluster - 2) * v.boot.sectorsPerCluster)
  }

  predicate Readable(v: Volume, cluster: uint16) {
    ReadOk(v.disk, v.boot, ClusterLba(v, cluster), v.boot.sectorsPerCluster)
  }

  function ClusterBytes(v: Volume, cluster: uint16): seq<uint8> {
    ReadBytes(v.disk, v.boot, ClusterLba(v, cluster), v.boot.sectorsPerCluster)
  }

  function ClusterSize(boot: BootSector): nat {
    boot.bytesPerSector * boot.sectorsPerCluster
  }

  /** The sector that a cluster starts at, counted from cluster 2 at the end of the root directory. */
  lemma ClusterSector(v: Volume, cluster: uint16)
    ensures ClusterLba(v, cluster) == (v.rootEnd + (cluster - 2) * v.boot.sectorsPerCluster) % 0x1_0000_0000
  {
    WrapIsRemainder(v.rootEnd + (cluster - 2) * v.boot.sectorsPerCluster);
    hide Wrap32;
  }

  /** The loop goes round again after reading `cluster`. */
  predicate Continues(v: Volume, cluster: uint16)
    requires EntryInTable(v.fat, cluster)
  {
    Readable(v, cluster) && Entry(v.fat, cluster) < END_OF_CHAIN
  }

  /** Entries from 0xFF8 on end a chain. */
  lemma ContinuesIff(v: Volume, cluster: uint16)
    requires EntryInTable(v.fat, cluster)
    ensures Continues(v, cluster) <==> Readable(v, cluster) && Entry(v.fat, cluster) <= 0xFF7
  {}

  /** Round `k` of the loop goes on to the cluster at `k + 1`. */
  ghost predicate Linked(v: Volume, w: seq<uint16>, k: nat)
    requires k + 1 < |w|
  {
    EntryInTable(v.fat, w[k]) && Continues(v, w[k]) && w[k + 1] == Entry(v.fat, w[k])
  }

  /** `w` lists clusters that successive rounds of the loop visit, starting at `first`. */
  ghost predicate Visits(v: Volume, first: uint16, w: seq<uint16>) {
    |w| > 0 && w[0] == first && forall k | 0 <= k < |w| - 1 :: Linked(v, w, k)
  }

  /** The last table load is inside the table, as the others are. */
  ghost predicate IsWalk(v: Volume, first: uint16, w: seq<uint16>) {
    Visits(v, first, w) && EntryInTable(v.fat, w[|w| - 1])
  }

  /** A walk at whose end the loop exits. */
  ghost predicate IsRun(v: Volume, first: uint16, w: seq<uint16>) {
    IsWalk(v, first, w) && !Continues(v, w[|w| - 1])
  }

  ghost predicate Halts(v: Volume, first: uint16) {
    exists w :: IsRun(v, first, w)
  }

  ghost predicate Distinct(w: seq<uint16>) {
    forall i, j | 0 <= i < j < |w| :: w[i] != w[j]
  }

  ghost predicate NeverRevisits(v: Volume, first: uint16) {
    forall w | IsWalk(v, first, w) :: Distinct(w)
  }

  /** Every table load that the loop performs stays inside the table. */
  ghost predicate LoadsInTable(v: Volume, first: uint16) {
    && EntryInTable(v.fat, first)
    && forall w | IsWalk(v, first, w) && Continues(v, w[|w| - 1]) :: EntryInTable(v.fat, Entry(v.fat, w[|w| - 1]))
  }

  /** Walks from the same cluster agree as far as both go. */
  lemma {:induction false} WalksAgree(v: Volume, first: uint16, w: seq<uint16>, u: seq<uint16>, k: nat)
    requires Visits(v, first, w) && Visits(v, first, u)
    requires k < |w| && k < |u|
    ensures w[k] == u[k]
  {
    if k > 0 {
      WalksAgree(v, first, w, u, k - 1);
      assert Linked(v, w, k - 1) && Linked(v, u, k - 1);
    }
  }

  /** No walk is longer than a run. */
  lemma RunIsLongest(v: Volume, first: uint16, run: seq<uint16>, w: seq<uint16>)
    requires IsRun(v, first, run) && IsWalk(v, first, w)
    ensures |w| <= |run|
    ensures w == run[..|w|]
  {
    assert |w| > |run| ==> Linked(v, w, |run| - 1);
    if |w| > |run| {
      WalksAgree(v, first, run, w, |run| - 1);
      assert false;
    }
    forall k | 0 <= k < |w| ensures w[k] == run[k] { WalksAgree(v, first, run, w, k); }
  }

  /** The loop has at most one run. */
  lemma RunIsUnique(v: Volume, first: uint16, run: seq<uint16>, w: seq<uint16>)
    requires IsRun(v, first, run) && IsRun(v, first, w)
    ensures w == run
  {
    RunIsLongest(v, first, run, w);
    RunIsLongest(v, first, w, run);
  }

  /** A repeated cluster repeats for ever: equal positions have equal successors. */
  lemma {:induction false} RepeatPropagates(v: Volume, first: uint16, w: seq<uint16>, i: nat, j: nat, t: nat)
    requires IsWalk(v, first, w)
    requires i < j && j + t < |w| && w[i] == w[j]
    ensures w[i + t] == w[j + t]
  {
    if t > 0 {
      RepeatPropagates(v, first, w, i, j, t - 1);
      assert Linked(v, w, i + t - 1) && Linked(v, w, j + t - 1);
    }
  }

  lemma RunIsDistinct(v: Volume, first: uint16, run: seq<uint16>)
    requires IsRun(v, first, run)
    ensures Distinct(run)
  {
    forall i, j | 0 <= i < j < |run| ensures run[i] != run[j] {
      assert Linked(v, run, i + (|run| - 1 - j));
      if run[i] == run[j] {
        RepeatPropagates(v, first, run, i, j, |run| - 1 - j);
        assert false;
      }
    }
  }

  /** Pigeonhole: distinct numbers below a bound are no more than the bound. */
  lemma {:induction false} DistinctBelow(w: seq<uint16>, bound: nat)
    requires Distinct(w)
    requires forall i | 0 <= i < |w| :: w[i] < bound
    ensures |w| <= bound
  {
    if |w| > 0 {
      assert 0 <= w[0] < bound;
      if bound > 0 {
        if k :| 0 <= k < |w| && w[k] == bound - 1 {
          var u := w[..k] + w[k + 1..];
          assert forall i | 0 <= i < |u| :: u[i] == w[if i < k then i else i + 1];
          DistinctBelow(u, bound - 1);
        } else {
          DistinctBelow(w, bound - 1);
        }
      }
    }
  }

  /** Iteration bound: the first cluster, and then each cluster below the end mark at most once. */
  lemma WalkBound(v: Volume, first: uint16, w: seq<uint16>)
    requires IsWalk(v, first, w) && Distinct(w)
    ensures |w| <= 1 + END_OF_CHAIN
  {
    forall k | 0 <= k < |w| - 1 ensures w[1..][k] < END_OF_CHAIN {
      assert Linked(v, w, k);
    }
    DistinctBelow(w[1..], END_OF_CHAIN);
  }

  lemma {:induction false} ExtendToRun(v: Volume, first: uint16, w: seq<uint16>) returns (run: seq<uint16>)
    requires LoadsInTable(v, first) && NeverRevisits(v, first)
    requires IsWalk(v, first, w)
    ensures IsRun(v, first, run)
    decreases 1 + END_OF_CHAIN - |w|
  {
    WalkBound(v, first, w);
    if Continues(v, w[|w| - 1]) {
      var longer := w + [Entry(v.fat, w[|w| - 1])];
      assert forall k | 0 <= k < |w| - 1 :: Linked(v, w, k) ==> Linked(v, longer, k);
      assert Linked(v, longer, |w| - 1);
      assert IsWalk(v, first, longer);
      WalkBound(v, first, longer);
      run := ExtendToRun(v, first, longer);
    } else {
      run := w;
    }
  }

  /** The chain loop terminates exactly when it never comes back to a cluster. */
  lemma HaltsIffNeverRevisits(v: Volume, first: uint16)
    requires LoadsInTable(v, first)
    ensures Halts(v, first) <==> NeverRevisits(v, first)
    ensures forall run | IsRun(v, first, run) :: |run| <= 1 + END_OF_CHAIN
  {
    forall run | IsRun(v, first, run)
      ensures NeverRevisits(v, first) && |run| <= 1 + END_OF_CHAIN
    {
      RunIsDistinct(v, first, run);
      WalkBound(v, first, run);
      forall w | IsWalk(v, first, w) ensures Distinct(w) { RunIsLongest(v, first, run, w); }
    }
    if NeverRevisits(v, first) {
      assert IsWalk(v, first, [first]);
      var run := ExtendToRun(v, first, [first]);
    }
  }

  lemma Distribute(n: int, size: nat)
    ensures (n + 1) * size == n * size + size
  {}

  /** The bytes that the visited clusters deliver, in order. */
  function Output(v: Volume, w: seq<uint16>): seq<uint8> {
    if |w| == 0 then [] else Output(v, w[..|w| - 1]) + ClusterBytes(v, w[|w| - 1])
  }

  ghost predicate AllReadable(v: Volume, run: seq<uint16>) {
    forall k | 0 <= k < |run| :: Readable(v, run[k])
  }

  /** Chain length times cluster size, when every read succeeds; never more. */
  lemma {:induction false} OutputSize(v: Volume, w: seq<uint16>)
    ensures |Output(v, w)| <= |w| * ClusterSize(v.boot)
    ensures AllReadable(v, w) ==> |Output(v, w)| == |w| * ClusterSize(v.boot)
  {
    if |w| > 0 {
      OutputSize(v, w[..|w| - 1]);
      Distribute(|w| - 1, ClusterSize(v.boot));
    }
  }

  /** A prefix of the visits delivers no more. */
  lemma {:induction false} OutputPrefix(v: Volume, w: seq<uint16>, k: nat)
    requires k <= |w|
    ensures |Output(v, w[..k])| <= |Output(v, w)|
    decreases |w| - k
  {
    if k < |w| {
      assert w[..k + 1][..k] == w[..k];
      OutputPrefix(v, w, k + 1);
    } else {
      assert w[..k] == w;
    }
  }

  /** One more round of the loop: what it adds to the output, and that there is room. */
  lemma OutputStep(v: Volume, run: seq<uint16>, k: nat)
    requires k < |run|
    ensures Output(v, run[..k + 1]) == Output(v, run[..k]) + ClusterBytes(v, run[k])
    ensures |Output(v, run[..k + 1])| <= |Output(v, run)|
    ensures Readable(v, run[k]) ==> |ClusterBytes(v, run[k])| == ClusterSize(v.boot)
  {
    assert run[..k + 1][..k] == run[..k];
    OutputPrefix(v, run, k + 1);
  }

  // ---------------------------------------------------------------- layout

  /** Sectors taken by the root directory, rounded up. */
  function RootSectors(boot: BootSector): (n: nat)
    requires boot.bytesPerSector > 0
  {
    var size := DIR_ENTRY_SIZE * boot.dirEntryCount;
    if size % boot.bytesPerSector > 0 then size / boot.bytesPerSector + 1 else size / boot.bytesPerSector
  }

  function RootStart(boot: BootSector): uint32 {
    ProductBound(boot.sectorsPerFat, 0x1_0000, boot.fatCount, 0x100);
    boot.reservedSectors + boot.sectorsPerFat * boot.fatCount
  }

  /** The rounded region holds every directory entry, with less than one sector to spare. */
  lemma RootRegionFits(boot: BootSector)
    requires boot.bytesPerSector > 0
    ensures DIR_ENTRY_SIZE * boot.dirEntryCount <= RootSectors(boot) * boot.bytesPerSector
    ensures RootSectors(boot) * boot.bytesPerSector < DIR_ENTRY_SIZE * boot.dirEntryCount + boot.bytesPerSector
    ensures RootStart(boot) + RootSectors(boot) < 0x1_0000_0000
  {
    var size, n := DIR_ENTRY_SIZE * boot.dirEntryCount, boot.bytesPerSector;
    assert size == n * (size / n) + size % n;
    assert (size / n + 1) * n == size / n * n + n;
    ProductBound(boot.sectorsPerFat, 0x1_0000, boot.fatCount, 0x100);
    assert n * (size / n) >= size / n by { ProductBound(size / n, size / n, 1, n); }
  }

  lemma ProductBound(a: nat, b: nat, c: nat, d: nat)
    requires a <= b && c <= d
    ensures a * c <= b * d
  {}

  /** A data cluster whose sectors fit the image and whose byte offset does not wrap. */
  predicate OnVolume(v: Volume, cluster: uint16) {
    && 2 <= cluster
    && v.boot.bytesPerSector > 0
    && (v.rootEnd + (cluster - 1) * v.boot.sectorsPerCluster) * v.boot.bytesPerSector <= |v.disk|
    && (v.rootEnd + (cluster - 1) * v.boot.sectorsPerCluster) * v.boot.bytesPerSector <= 0x1_0000_0000
  }

  /** First byte of a cluster in the image, over the integers. */
  function ClusterStart(v: Volume, cluster: uint16): int {
    (v.rootEnd + (cluster - 2) * v.boot.sectorsPerCluster) * v.boot.bytesPerSector
  }

  /** Without wrap-around, a cluster is read whole from its place in the image. */
  lemma ClusterOnVolume(v: Volume, cluster: uint16)
    requires OnVolume(v, cluster)
    requires v.boot.sectorsPerCluster > 0
    ensures Readable(v, cluster)
    ensures 0 <= ClusterStart(v, cluster) && ClusterStart(v, cluster) + ClusterSize(v.boot) <= |v.disk|
    ensures ClusterBytes(v, cluster)
         == v.disk[ClusterStart(v, cluster)..ClusterStart(v, cluster) + ClusterSize(v.boot)]
    ensures ClusterStart(v, cluster)
         == (v.rootEnd + (cluster - 2) * v.boot.sectorsPerCluster) * v.boot.bytesPerSector
    ensures ClusterSize(v.boot) == v.boot.bytesPerSector * v.boot.sectorsPerCluster
  {
    var n, spc := v.boot.bytesPerSector, v.boot.sectorsPerCluster;
    var lba := v.rootEnd + (cluster - 2) * spc;
    Distribute(cluster - 2, spc);
    ProductBound(0, cluster - 2, 0, spc);
    assert lba + spc == v.rootEnd + (cluster - 1) * spc;
    NoWrap(lba, spc, n);
    WrapNone(lba);
    hide ReadOk, ReadBytes, Wrap32;
    assert ClusterLba(v, cluster) == lba && ClusterStart(v, cluster) == lba * n && ClusterSize(v.boot) == n * spc;
    ReadWithin(v.disk, v.boot, lba, spc, lba * n, n * spc);
  }

  lemma ReadWithin(disk: seq<uint8>, boot: BootSector, lba: uint32, count: nat, start: nat, size: nat)
    requires boot.bytesPerSector > 0 && lba * boot.bytesPerSector == start < 0x1_0000_0000
    requires boot.bytesPerSector * count == size && start + size <= |disk|
    ensures ReadOk(disk, boot, lba, count) && ReadBytes(disk, boot, lba, count) == disk[start..start + size]
  {}

  lemma NoWrap(lba: nat, count: nat, size: nat)
    requires count > 0 && size > 0
    requires (lba + count) * size <= 0x1_0000_0000
    ensures lba < 0x1_0000_0000 && lba * size < 0x1_0000_0000
    ensures lba * size + size * count == (lba + count) * size
  {}

  datatype Area = Area(start: int, count: nat)

  function FatArea(boot: BootSector): Area { Area(boot.reservedSectors, boot.sectorsPerFat * boot.fatCount) }

  function RootArea(boot: BootSector): Area
    requires boot.bytesPerSector > 0
  {
    Area(RootStart(boot), RootSectors(boot))
  }

  /** The sectors of a cluster, over the integers. */
  function ClusterArea(boot: BootSector, cluster: uint16): Area
    requires boot.bytesPerSector > 0
  {
    Area(RootStart(boot) + RootSectors(boot) + (cluster - 2) * boot.sectorsPerCluster, boot.sectorsPerCluster)
  }

  predicate Before(a: Area, b: Area) { a.start + a.count <= b.start }

  /** The tables, the root directory and any two data clusters occupy disjoint sectors, in this order. */
  lemma AreasDisjoint(boot: BootSector, a: uint16, b: uint16)
    requires boot.bytesPerSector > 0
    requires 2 <= a < b
    ensures Before(FatArea(boot), RootArea(boot))
    ensures Before(RootArea(boot), ClusterArea(boot, a)) && Before(RootArea(boot), ClusterArea(boot, b))
    ensures Before(ClusterArea(boot, a), ClusterArea(boot, b))
  {
    var spc := boot.sectorsPerCluster;
    ProductBound(0, a - 2, 0, spc);
    Distribute(a - 2, spc);
    ProductBound(a - 1, b - 2, spc, spc);
  }

  /** The areas adjoin: tables after the reserved sectors, then the root directory, then cluster after cluster. */
  lemma AreasAdjoin(boot: BootSector, cluster: uint16)
    requires boot.bytesPerSector > 0 && 2 <= cluster < 0xFFFF
    ensures FatArea(boot) == Area(boot.reservedSectors, boot.sectorsPerFat * boot.fatCount)
    ensures RootStart(boot) == RootArea(boot).start == boot.reservedSectors + boot.sectorsPerFat * boot.fatCount
    ensures RootArea(boot).count == RootSectors(boot)
    ensures ClusterArea(boot, 2).start == RootArea(boot).start + RootArea(boot).count
    ensures ClusterArea(boot, cluster + 1).start == ClusterArea(boot, cluster).start + boot.sectorsPerCluster
    ensures ClusterArea(boot, cluster).count == boot.sectorsPerCluster
  {
    Distribute(cluster - 2, boot.sectorsPerCluster);
  }

  /** The clusters that the reader reads are those areas, as long as the sector number does not wrap. */
  lemma ClusterInArea(disk: seq<uint8>, boot: BootSector, cluster: uint16)
    requires boot.bytesPerSector > 0 && 2 <= cluster && ClusterArea(boot, cluster).start < 0x1_0000_0000
    ensures ClusterLba(VolumeOf(disk, boot), cluster) == ClusterArea(boot, cluster).start
  {
    ProductBound(0, cluster - 2, 0, boot.sectorsPerCluster);
    WrapNone(ClusterArea(boot, cluster).start);
    hide Wrap32, RootStart, RootSectors, FatOf;
  }

  /** A 1.44 MB floppy: the root directory at sector 19, cluster 2 at sector 33. */
  lemma FloppyAreas(boot: BootSector)
    requires boot.bytesPerSector == 512 && boot.reservedSectors == 1 && boot.sectorsPerFat == 9
    requires boot.fatCount == 2 && boot.dirEntryCount == 224
    ensures RootStart(boot) == 19 && RootSectors(boot) == 14
  {
    AreasAdjoin(boot, 2);
    RootRegionFits(boot);
    hide RootSectors, RootStart;
  }

  // ---------------------------------------------------------------- storing and reading back

  ghost predicate LinkableChain(fat: seq<uint8>, chain: seq<uint16>) {
    forall i | 0 <= i < |chain| :: EntryInTable(fat, chain[i]) && chain[i] < 0x1000
  }

  /** Links `chain` in the table and marks its end. */
  ghost function Link(fat: seq<uint8>, chain: seq<uint16>, mark: uint12): (r: seq<uint8>)
    requires LinkableChain(fat, chain)
    ensures |r| == |fat|
  {
    if |chain| == 0 then fat
    else
      assert LinkableChain(fat, chain[1..]);
      assert EntryInTable(fat, chain[0]);
      SetEntry(Link(fat, chain[1..], mark), chain[0], if |chain| == 1 then mark else chain[1])
  }

  lemma {:induction false} LinkLeavesOthers(fat: seq<uint8>, chain: seq<uint16>, mark: uint12, n: uint16)
    requires LinkableChain(fat, chain) && EntryInTable(fat, n)
    requires n !in chain
    ensures Entry(Link(fat, chain, mark), n) == Entry(fat, n)
  {
    if |chain| > 0 {
      assert LinkableChain(fat, chain[1..]);
      LinkLeavesOthers(fat, chain[1..], mark, n);
      EntryOfSetEntry(Link(fat, chain[1..], mark), chain[0], if |chain| == 1 then mark else chain[1], n);
    }
  }

  lemma {:induction false} EntryOfLink(fat: seq<uint8>, chain: seq<uint16>, mark: uint12, k: nat)
    requires LinkableChain(fat, chain) && Distinct(chain)
    requires k < |chain|
    ensures EntryInTable(fat, chain[k])
    ensures Entry(Link(fat, chain, mark), chain[k]) == if k == |chain| - 1 then mark else chain[k + 1]
  {
    assert LinkableChain(fat, chain[1..]);
    if k > 0 {
      EntryOfLink(fat, chain[1..], mark, k - 1);
    }
    EntryOfSetEntry(Link(fat, chain[1..], mark), chain[0], if |chain| == 1 then mark else chain[1], chain[k]);
  }

  /** Any list of distinct readable clusters, once linked, is exactly what the reader walks; no other entry changes. */
  lemma LinkedChainIsRun(v: Volume, fat: seq<uint8>, chain: seq<uint16>, mark: uint12)
    requires |chain| > 0 && Distinct(chain)
    requires LinkableChain(fat, chain) && v.fat == Link(fat, chain, mark)
    requires forall k | 0 <= k < |chain| :: chain[k] < END_OF_CHAIN && Readable(v, chain[k])
    requires END_OF_CHAIN <= mark
    ensures IsRun(v, chain[0], chain)
    ensures forall n: uint16 | EntryInTable(fat, n) && n !in chain :: Entry(v.fat, n) == Entry(fat, n)
  {
    EntryOfLink(fat, chain, mark, |chain| - 1);
    forall k | 0 <= k < |chain| - 1 ensures Linked(v, chain, k) {
      EntryOfLink(fat, chain, mark, k);
    }
    forall n: uint16 | EntryInTable(fat, n) && n !in chain ensures Entry(v.fat, n) == Entry(fat, n) {
      LinkLeavesOthers(fat, chain, mark, n);
    }
  }

  function Concat(pieces: seq<seq<uint8>>): seq<uint8> {
    if |pieces| == 0 then [] else Concat(pieces[..|pieces| - 1]) + pieces[|pieces| - 1]
  }

  /** The image holds a cluster-sized piece at each cluster of the chain. */
  ghost predicate Placed(v: Volume, chain: seq<uint16>, pieces: seq<seq<uint8>>)
    requires |chain| == |pieces|
  {
    forall k | 0 <= k < |chain| ::
      && |pieces[k]| == ClusterSize(v.boot)
      && 0 <= ClusterStart(v, chain[k]) && ClusterStart(v, chain[k]) + |pieces[k]| <= |v.disk|
      && v.disk[ClusterStart(v, chain[k])..ClusterStart(v, chain[k]) + |pieces[k]|] == pieces[k]
  }

  /** Cluster-sized pieces placed at the chain's clusters come back as their concatenation. */
  lemma {:induction false} PlacedPiecesReadBack(v: Volume, chain: seq<uint16>, pieces: seq<seq<uint8>>)
    requires |chain| == |pieces| && v.boot.sectorsPerCluster > 0
    requires forall k | 0 <= k < |chain| :: OnVolume(v, chain[k])
    requires Placed(v, chain, pieces)
    ensures Output(v, chain) == Concat(pieces)
  {
    var n := |chain|;
    if n > 0 {
      PlacedPiecesReadBack(v, chain[..n - 1], pieces[..n - 1]);
      ClusterOnVolume(v, chain[n - 1]);
      assert ClusterBytes(v, chain[n - 1]) == pieces[n - 1];
    }
  }

  // ---------------------------------------------------------------- the loop against a buffer

  /** How the loop leaves a buffer: all copied, a short read, a cluster without room, a load outside the table. */
  datatype Copy = Done | Failed | Overran | StrayLoad

  function LastOf(w: seq<uint16>): uint16
    requires |w| > 0
  {
    w[|w| - 1]
  }

  /** What the last round of the loop meets. */
  ghost function Ending(v: Volume, w: seq<uint16>, room: nat): Copy
    requires |w| > 0
  {
    if |Output(v, w)| > room then Overran
    else if !EntryInTable(v.fat, LastOf(w)) then StrayLoad
    else if !Readable(v, LastOf(w)) then Failed
    else Done
  }

  /** The four endings, for a list of clusters that the loop ends with. */
  lemma EndingCases(v: Volume, w: seq<uint16>, room: nat)
    requires |w| > 0
    ensures Ending(v, w, room) == Overran <==> |Output(v, w)| > room
    ensures Ending(v, w, room) == StrayLoad <==> |Output(v, w)| <= room && !EntryInTable(v.fat, w[|w| - 1])
    ensures Ending(v, w, room) == Failed
      <==> |Output(v, w)| <= room && EntryInTable(v.fat, w[|w| - 1]) && !Readable(v, w[|w| - 1])
  {}

  /** Copying the clusters of `w` in order, the loop ends at its last: no room, no table entry, or no next cluster. */
  ghost predicate Ends(v: Volume, first: uint16, w: seq<uint16>, room: nat) {
    && Visits(v, first, w) && |Output(v, w[..|w| - 1])| <= room
    && (|Output(v, w)| <= room && EntryInTable(v.fat, LastOf(w)) ==> !Continues(v, LastOf(w)))
  }

  lemma VisitsAgree(v: Volume, first: uint16, w: seq<uint16>, u: seq<uint16>)
    requires Visits(v, first, w) && Visits(v, first, u) && |w| <= |u|
    ensures w == u[..|w|]
  {
    forall k | 0 <= k < |w| ensures w[k] == u[k] { WalksAgree(v, first, w, u, k); }
  }

  /** Visits that go past the end of the loop: none. */
  lemma EndsFirst(v: Volume, first: uint16, w: seq<uint16>, u: seq<uint16>, room: nat)
    requires Ends(v, first, w, room) && Visits(v, first, u) && |Output(v, u[..|u| - 1])| <= room
    ensures |u| <= |w|
  {
    var n := |w|;
    assert n < |u| ==> Linked(v, u, n - 1);
    assert n < |u| ==> u[..|u| - 1][..n] == u[..n];
    if n < |u| {
      VisitsAgree(v, first, w, u);
      hide Output, Linked, Visits, Continues;
      OutputPrefix(v, u[..|u| - 1], n);
    }
  }

  /** One round of the loop: what it adds to the output, and whether it is the last. */
  lemma LoopStep(v: Volume, first: uint16, w: seq<uint16>, k: nat, room: nat)
    requires Ends(v, first, w, room) && k < |w|
    ensures Output(v, w[..k + 1]) == Output(v, w[..k]) + ClusterBytes(v, w[k])
    ensures Readable(v, w[k]) ==> |ClusterBytes(v, w[k])| == ClusterSize(v.boot)
    ensures k == |w| - 1 ==> w[..k + 1] == w
    ensures k < |w| - 1 ==> |Output(v, w[..k + 1])| <= room && Linked(v, w, k)
  {
    OutputStep(v, w, k);
    if k < |w| - 1 {
      OutputPrefix(v, w[..|w| - 1], k + 1);
      assert w[..|w| - 1][..k + 1] == w[..k + 1];
    }
  }

  /** The loop ends in one way only. */
  lemma EndIsUnique(v: Volume, first: uint16, w: seq<uint16>, u: seq<uint16>, room: nat)
    requires Ends(v, first, w, room) && Ends(v, first, u, room)
    ensures u == w
  {
    EndsFirst(v, first, w, u, room);
    EndsFirst(v, first, u, w, room);
    VisitsAgree(v, first, u, w);
  }

  /** The next round's cluster appended. */
  lemma VisitsLonger(v: Volume, first: uint16, w: seq<uint16>)
    requires Visits(v, first, w) && EntryInTable(v.fat, LastOf(w)) && Continues(v, LastOf(w))
    ensures Visits(v, first, w + [Entry(v.fat, LastOf(w))])
  {
    var longer := w + [Entry(v.fat, LastOf(w))];
    assert forall k | 0 <= k < |w| - 1 :: Linked(v, w, k) ==> Linked(v, longer, k);
    assert Linked(v, longer, |w| - 1);
  }

  /** Readable clusters of at least one byte fill the buffer. */
  lemma LengthBelowRoom(v: Volume, w: seq<uint16>, room: nat)
    requires ClusterSize(v.boot) > 0 && AllReadable(v, w) && |Output(v, w)| <= room
    ensures |w| <= room
  {
    OutputSize(v, w);
    ProductBound(|w|, |w|, 1, ClusterSize(v.boot));
  }

  lemma {:induction false} ExtendToEnd(v: Volume, first: uint16, w: seq<uint16>, room: nat) returns (end: seq<uint16>)
    requires ClusterSize(v.boot) > 0
    requires Visits(v, first, w) && AllReadable(v, w[..|w| - 1]) && |Output(v, w[..|w| - 1])| <= room
    ensures Ends(v, first, end, room)
    decreases room + 1 - |w|
  {
    LengthBelowRoom(v, w[..|w| - 1], room);
    end := w;
    if |Output(v, w)| <= room && EntryInTable(v.fat, LastOf(w)) && Continues(v, LastOf(w)) {
      VisitsLonger(v, first, w);
      var longer := w + [Entry(v.fat, LastOf(w))];
      assert longer[..|longer| - 1] == w && w == w[..|w| - 1] + [LastOf(w)];
      assert AllReadable(v, w);
      LengthBelowRoom(v, w, room);
      hide ClusterSize, Visits, AllReadable, Output, Entry, Ends;
      end := ExtendToEnd(v, first, longer, room);
    }
  }

  /** With clusters of at least one byte the loop always ends, in any buffer and for any table. */
  lemma LoopEnds(v: Volume, first: uint16, room: nat) returns (w: seq<uint16>)
    requires ClusterSize(v.boot) > 0
    ensures Ends(v, first, w, room)
  {
    assert [first][..0] == [];
    w := ExtendToEnd(v, first, [first], room);
  }

  /** The buffer holds a run exactly when the loop ends with it without overrunning. */
  lemma RunEndsIff(v: Volume, first: uint16, run: seq<uint16>, w: seq<uint16>, room: nat)
    requires IsRun(v, first, run) && Ends(v, first, w, room)
    ensures Ending(v, w, room) == Overran <==> |Output(v, run)| > room
    ensures Ending(v, w, room) == Done <==> |Output(v, run)| <= room && AllReadable(v, run)
    ensures |Output(v, run)| <= room ==> w == run
  {
    forall k | 0 <= k < |run| - 1 ensures Readable(v, run[k]) { assert Linked(v, run, k); }
    if |Output(v, run)| <= room {
      OutputPrefix(v, run, |run| - 1);
      EndIsUnique(v, first, run, w, room);
    } else if Ending(v, w, room) != Overran {
      if EntryInTable(v.fat, LastOf(w)) {
        RunIsUnique(v, first, run, w);
      } else {
        StrayIsNoRun(v, first, run, w);
      }
    }
  }

  lemma StrayIsNoRun(v: Volume, first: uint16, run: seq<uint16>, w: seq<uint16>)
    requires IsRun(v, first, run) && Visits(v, first, w)
    ensures EntryInTable(v.fat, LastOf(w))
  {
    assert |w| > |run| ==> Linked(v, w, |run| - 1);
    if |w| > |run| {
      WalksAgree(v, first, run, w, |run| - 1);
      assert false;
    }
    WalksAgree(v, first, run, w, |w| - 1);
    assert |w| < |run| ==> Linked(v, run, |w| - 1);
  }

  /** A chain that comes back to a cluster overruns every buffer. */
  lemma RevisitOverruns(v: Volume, first: uint16, w: seq<uint16>, room: nat)
    requires LoadsInTable(v, first) && !NeverRevisits(v, first) && Ends(v, first, w, room)
    ensures Ending(v, w, room) == Overran
  {
    var n := |w| - 1;
    if n > 0 {
      assert Linked(v, w, n - 1);
      assert forall k | 0 <= k < n - 1 :: Linked(v, w, k) ==> Linked(v, w[..n], k);
      assert IsWalk(v, first, w[..n]);
    }
    assert IsWalk(v, first, w);
    HaltsIffNeverRevisits(v, first);
    assert Ending(v, w, room) != Overran ==> IsRun(v, first, w);
  }

  // ---------------------------------------------------------------- the buffer of main

  /** What main allocates: size plus one sector, in 32 bits. */
  function Room(boot: BootSector, size: uint32): uint32 { Wrap32(size + boot.bytesPerSector) }

  /** A readable chain stays in a buffer exactly when its clusters do; an unreadable cluster can only be the last. */
  lemma ChainFitsIff(v: Volume, first: uint16, run: seq<uint16>, room: nat)
    requires IsRun(v, first, run)
    ensures AllReadable(v, run) ==> (|Output(v, run)| <= room <==> |run| * ClusterSize(v.boot) <= room)
    ensures |Output(v, run)| == (|run| - 1) * ClusterSize(v.boot) + |ClusterBytes(v, run[|run| - 1])|
  {
    OutputSize(v, run);
    var n := |run| - 1;
    forall k | 0 <= k < n ensures Readable(v, run[k]) { assert Linked(v, run, k); }
    OutputSize(v, run[..n]);
  }

  /** The sum that main allocates wraps for files of nearly 4 GB. */
  lemma RoomIs(boot: BootSector, size: uint32)
    ensures Room(boot, size)
         == if size + boot.bytesPerSector < 0x1_0000_0000 then size + boot.bytesPerSector
            else size + boot.bytesPerSector - 0x1_0000_0000
  {}

  /** Whole clusters for `size` bytes. */
  function ClustersFor(size: nat, clusterSize: nat): (n: nat)
    requires clusterSize > 0
  {
    (size + clusterSize - 1) / clusterSize
  }

  lemma RoundUp(size: nat, c: nat)
    requires c > 0
    ensures ClustersFor(size, c) * c == if size % c == 0 then size else size - size % c + c
  {
    var q, r := size / c, size % c;
    assert size == q * c + r;
    Distribute(q, c);
    if r == 0 {
      QuotientOf(size + c - 1, c, q, c - 1);
    } else {
      QuotientOf(size + c - 1, c, q + 1, r - 1);
    }
  }

  lemma QuotientOf(x: nat, c: nat, q: nat, r: nat)
    requires r < c && x == q * c + r
    ensures x / c == q
  {
    var d := x / c - q;
    assert d * c == r - x % c;
    assert d >= 1 ==> d * c >= c;
    assert d <= -1 ==> d * c <= 0 - c;
  }

  /** A chain just long enough for its file fits exactly when the last cluster leaves at most one sector unused. */
  lemma ExactChainFitsIff(v: Volume, first: uint16, run: seq<uint16>, size: uint32)
    requires IsRun(v, first, run) && AllReadable(v, run)
    requires ClusterSize(v.boot) > 0 && |run| == ClustersFor(size, ClusterSize(v.boot))
    requires size + v.boot.bytesPerSector < 0x1_0000_0000
    ensures |Output(v, run)| <= Room(v.boot, size)
      <==> size % ClusterSize(v.boot) == 0 || ClusterSize(v.boot) - size % ClusterSize(v.boot) <= v.boot.bytesPerSector
  {
    ChainFitsIff(v, first, run, Room(v.boot, size));
    RoundUp(size, ClusterSize(v.boot));
    WrapNone(size + v.boot.bytesPerSector);
  }

  /** Every file of this geometry whose chain is just long enough fits the buffer. */
  ghost predicate BufferSuffices(boot: BootSector)
    requires ClusterSize(boot) > 0
  {
    forall v: Volume, first: uint16, run, size: uint32
      | v.boot == boot && IsRun(v, first, run) && AllReadable(v, run) && |run| == ClustersFor(size, ClusterSize(boot))
        && size + boot.bytesPerSector < 0x1_0000_0000 ::
      |Output(v, run)| <= Room(boot, size)
  }

  /** One readable cluster that ends its chain, on a volume of any geometry. */
  lemma OneCluster(boot: BootSector) returns (v: Volume)
    requires ClusterSize(boot) > 0
    ensures v.boot == boot && IsRun(v, 2, [2]) && AllReadable(v, [2])
  {
    v := Volume(seq(ClusterSize(boot), _ => 0), boot, [0, 0, 0, 0xFF, 0x0F], 0);
    ProductBound(1, boot.sectorsPerCluster, 0, boot.bytesPerSector);
    assert boot.bytesPerSector != 0;
    assert ClusterLba(v, 2) == 0;
    assert Readable(v, 2);
    assert Entry(v.fat, 2) == 0xFFF;
  }

  /** The buffer suffices for a geometry exactly when a cluster is one sector, or two sectors of one byte. */
  lemma BufferSufficesIff(boot: BootSector)
    requires ClusterSize(boot) > 0
    ensures BufferSuffices(boot) <==> boot.sectorsPerCluster == 1 || ClusterSize(boot) == 2
  {
    var n, c := boot.bytesPerSector, ClusterSize(boot);
    ClusterOfSectors(n, boot.sectorsPerCluster);
    if boot.sectorsPerCluster == 1 || c == 2 {
      forall v: Volume, first: uint16, run, size: uint32
        | v.boot == boot && IsRun(v, first, run) && AllReadable(v, run) && |run| == ClustersFor(size, c)
          && size + n < 0x1_0000_0000
        ensures |Output(v, run)| <= Room(boot, size)
      {
        ExactChainFitsIff(v, first, run, size);
      }
    } else {
      var v := OneCluster(boot);
      RoundUp(1, c);
      assert ClustersFor(1, c) == 1;
      ExactChainFitsIff(v, 2, [2], 1);
    }
  }

  lemma ClusterOfSectors(n: nat, spc: nat)
    requires n * spc > 0
    ensures n > 0 && (spc == 1 ==> n * spc == n)
    ensures spc == 1 || n * spc == 2 || n * spc - 1 > n
    ensures n * spc == 2 ==> n >= 1
  {
    if spc >= 3 {
      ProductBound(n, n, 3, spc);
    }
  }

  // ---------------------------------------------------------------- directory entries

  function EntryName(root: seq<uint8>, i: nat): seq<uint8>
    requires DIR_ENTRY_SIZE * (i + 1) <= |root|
  {
    root[DIR_ENTRY_SIZE * i..DIR_ENTRY_SIZE * i + NAME_SIZE]
  }

  function FirstClusterLow(root: seq<uint8>, i: nat): uint16
    requires DIR_ENTRY_SIZE * (i + 1) <= |root|
  {
    Word(root, DIR_ENTRY_SIZE * i + 26)
  }

  function FileSize(root: seq<uint8>, i: nat): uint32
    requires DIR_ENTRY_SIZE * (i + 1) <= |root|
  {
    Word(root, DIR_ENTRY_SIZE * i + 28) + 0x1_0000 * Word(root, DIR_ENTRY_SIZE * i + 30)
  }

  /** A little-endian 16-bit field. */
  function Word(s: seq<uint8>, at: nat): uint16
    requires at + 1 < |s|
  {
    var lo: int, hi: int := s[at], s[at + 1];
    lo + 0x100 * hi
  }

  lemma TwoBytes(x: nat)
    ensures x == x % 256 + 256 * (x / 256) && x / 65536 == x / 256 / 256
  {}

  lemma LittleEndian(cluster: uint16, size: uint32)
    ensures cluster % 256 + 256 * (cluster / 256) == cluster
    ensures size % 256 + 256 * (size / 256 % 256) + 65536 * (size / 65536 % 256) + 16777216 * (size / 16777216) == size
  {
    TwoBytes(cluster);
    TwoBytes(size);
    TwoBytes(size / 256);
    TwoBytes(size / 65536);
    assert size / 16777216 == size / 65536 / 256;
  }

  /** Entry `i` from its bytes: 11 of name, at 26 the first cluster, at 28 the size, both low byte first. */
  lemma EntryFields(root: seq<uint8>, i: nat, name: seq<uint8>, cluster: uint16, size: uint32)
    requires 32 * i + 32 <= |root|
    requires root[32 * i..32 * i + 11] == name
    requires root[32 * i + 26] == cluster % 256 && root[32 * i + 27] == cluster / 256
    requires root[32 * i + 28] == size % 256 && root[32 * i + 29] == size / 256 % 256
    requires root[32 * i + 30] == size / 65536 % 256 && root[32 * i + 31] == size / 16777216
    ensures EntryName(root, i) == name && FirstClusterLow(root, i) == cluster && FileSize(root, i) == size
  {
    LittleEndian(cluster, size);
    var c, a, b := Word(root, 32 * i + 26), Word(root, 32 * i + 28), Word(root, 32 * i + 30);
    assert c == cluster % 256 + 256 * (cluster / 256);
    assert a == size % 256 + 256 * (size / 256 % 256);
    assert b == size / 65536 % 256 + 256 * (size / 16777216);
    hide Word;
  }

  /** The bytes at 26 to 31 of entry `i` are this cluster and this size. */
  ghost predicate EntryBytes(root: seq<uint8>, i: nat, cluster: uint16, size: uint32)
    requires 32 * i + 32 <= |root|
  {
    var e := root[32 * i..32 * i + 32];
    && e[26] as int + 256 * e[27] as int == cluster
    && e[28] as int + 256 * e[29] as int + 65536 * e[30] as int + 16777216 * e[31] as int == size
  }

  lemma EntryBytesRead(root: seq<uint8>, i: nat, cluster: uint16, size: uint32)
    requires 32 * i + 32 <= |root| && EntryBytes(root, i, cluster, size)
    ensures FirstClusterLow(root, i) == cluster && FileSize(root, i) == size
  {}

  /** Entry `i` is the first of the `count` entries with this name. */
  ghost predicate IsFirstNamed(root: seq<uint8>, count: nat, name: seq<uint8>, i: nat)
    requires DIR_ENTRY_SIZE * count <= |root|
  {
    i < count && EntryName(root, i) == name && NoneNamed(root, i, name)
  }

  ghost predicate NoneNamed(root: seq<uint8>, count: nat, name: seq<uint8>)
    requires DIR_ENTRY_SIZE * count <= |root|
  {
    forall k | 0 <= k < count :: EntryName(root, k) != name
  }

  /** The tables, as read from the image. */
  function FatOf(disk: seq<uint8>, boot: BootSector): seq<uint8> {
    ReadBytes(disk, boot, boot.reservedSectors, boot.sectorsPerFat)
  }

  function RootOf(disk: seq<uint8>, boot: BootSector): seq<uint8>
    requires boot.bytesPerSector > 0
  {
    ReadBytes(disk, boot, RootStart(boot), RootSectors(boot))
  }

  predicate FatReadable(disk: seq<uint8>, boot: BootSector) {
    ReadOk(disk, boot, boot.reservedSectors, boot.sectorsPerFat)
  }

  predicate RootReadable(disk: seq<uint8>, boot: BootSector)
    requires boot.bytesPerSector > 0
  {
    ReadOk(disk, boot, RootStart(boot), RootSectors(boot))
  }

  /** A readable root directory holds all its entries. */
  lemma RootHoldsEntries(disk: seq<uint8>, boot: BootSector)
    requires boot.bytesPerSector > 0 && RootReadable(disk, boot)
    ensures DIR_ENTRY_SIZE * boot.dirEntryCount <= |RootOf(disk, boot)|
  {
    RootRegionFits(boot);
    assert RootSectors(boot) * boot.bytesPerSector == boot.bytesPerSector * RootSectors(boot);
  }

  /** The volume as the chain walk sees it. */
  function VolumeOf(disk: seq<uint8>, boot: BootSector): Volume
    requires boot.bytesPerSector > 0
  {
    RootRegionFits(boot);
    Volume(disk, boot, FatOf(disk, boot), RootStart(boot) + RootSectors(boot))
  }

  /**
   * Trap: a division by zero bytes per sector. Overrun: the clusters, or the bytes printed, go past the buffer.
   * Stray: a load goes past the table.
   */
  datatype Outcome =
    BadBoot | BadFat | Trap | BadRoot | NotFound | BadFile | Overrun | Stray | Loaded(content: seq<uint8>)

  /** What reading entry `i` gives: the first `Size` bytes of the chain's clusters, as far as they go. */
  ghost predicate IsEntryOutcome(v: Volume, root: seq<uint8>, i: nat, w: seq<uint16>, r: Outcome)
    requires DIR_ENTRY_SIZE * (i + 1) <= |root|
  {
    var size := FileSize(root, i);
    && Ends(v, FirstClusterLow(root, i), w, Room(v.boot, size))
    && match Ending(v, w, Room(v.boot, size))
       case Overran => r.Overrun?
       case StrayLoad => r.Stray?
       case Failed => r.BadFile?
       case Done =>
         if size > Room(v.boot, size) then r.Overrun?
         else r.Loaded? && |r.content| == size && (r.content <= Output(v, w) || Output(v, w) <= r.content)
  }

  /** Which outcome the image calls for, with the clusters visited. */
  ghost predicate IsOutcome(disk: seq<uint8>, boot: BootSector, name: seq<uint8>, w: seq<uint16>, r: Outcome) {
    if !FatReadable(disk, boot) then r.BadFat?
    else if boot.bytesPerSector == 0 then r.Trap?
    else if !RootReadable(disk, boot) then r.BadRoot?
    else
      RootHoldsEntries(disk, boot);
      var root, v := RootOf(disk, boot), VolumeOf(disk, boot);
      if NoneNamed(root, boot.dirEntryCount, name) then r.NotFound?
      else
        exists i | IsFirstNamed(root, boot.dirEntryCount, name, i) :: IsEntryOutcome(v, root, i, w, r)
  }

  /** Each outcome and when it is called for, from a boot sector on. */
  lemma OutcomeCases(disk: seq<uint8>, boot: BootSector, name: seq<uint8>, w: seq<uint16>, r: Outcome)
    requires IsOutcome(disk, boot, name, w, r)
    ensures r.BadFat? <==> !ReadOk(disk, boot, boot.reservedSectors, boot.sectorsPerFat)
    ensures r.Trap? <==> FatReadable(disk, boot) && boot.bytesPerSector == 0
    ensures r.BadRoot? <==> FatReadable(disk, boot) && boot.bytesPerSector > 0 && !RootReadable(disk, boot)
    ensures r.NotFound? ==> FatReadable(disk, boot) && boot.bytesPerSector > 0 && RootReadable(disk, boot)
    ensures !r.BadBoot?
  {
    hide Ends, Ending, ReadOk, RootSectors, RootStart, FileSize, FirstClusterLow, Output;
  }

  /** Each outcome for an entry and how the loop ended. */
  lemma EntryOutcomeCases(v: Volume, root: seq<uint8>, i: nat, w: seq<uint16>, r: Outcome)
    requires DIR_ENTRY_SIZE * (i + 1) <= |root| && IsEntryOutcome(v, root, i, w, r)
    ensures var room := Room(v.boot, FileSize(root, i));
      && (r.BadFile? <==> Ending(v, w, room) == Failed)
      && (r.Stray? <==> Ending(v, w, room) == StrayLoad)
      && (r.Overrun? <==> Ending(v, w, room) == Overran || (Ending(v, w, room) == Done && FileSize(root, i) > room))
      && (r.Loaded? ==> |r.content| == FileSize(root, i))
  {
    hide Ends, Ending, FileSize, FirstClusterLow, Output, Room;
  }

  const BOOT_SIZE := 62

  /** The fields at their places in the packed boot sector. */
  function BootOf(disk: seq<uint8>): BootSector
    requires |disk| >= BOOT_SIZE
  {
    BootSector(Word(disk, 11), disk[13], Word(disk, 14), disk[16], Word(disk, 17), Word(disk, 22))
  }

  /** The fields read back from a packed boot sector, low bytes first. */
  lemma BootFields(disk: seq<uint8>, boot: BootSector)
    requires |disk| >= 62
    requires disk[11] == boot.bytesPerSector % 256 && disk[12] == boot.bytesPerSector / 256
    requires disk[13] == boot.sectorsPerCluster
    requires disk[14] == boot.reservedSectors % 256 && disk[15] == boot.reservedSectors / 256
    requires disk[16] == boot.fatCount
    requires disk[17] == boot.dirEntryCount % 256 && disk[18] == boot.dirEntryCount / 256
    requires disk[22] == boot.sectorsPerFat % 256 && disk[23] == boot.sectorsPerFat / 256
    ensures BootOf(disk) == boot
  {}

  /** The same from the image alone. */
  ghost predicate IsImageOutcome(disk: seq<uint8>, name: seq<uint8>, w: seq<uint16>, r: Outcome) {
    if |disk| < BOOT_SIZE then r.BadBoot? else IsOutcome(disk, BootOf(disk), name, w, r)
  }

  /** The chain loop for entry `i` ends, against the buffer that main allocates. */
  ghost predicate EntryEnds(v: Volume, root: seq<uint8>, i: nat)
    requires DIR_ENTRY_SIZE * (i + 1) <= |root|
  {
    exists w :: Ends(v, FirstClusterLow(root, i), w, Room(v.boot, FileSize(root, i)))
  }

  /** If main gets to the chain loop for this name, the loop ends. */
  ghost predicate LoadEnds(disk: seq<uint8>, boot: BootSector, name: seq<uint8>) {
    FatReadable(disk, boot) && boot.bytesPerSector > 0 && RootReadable(disk, boot) ==>
      (RootHoldsEntries(disk, boot);
      forall i | IsFirstNamed(RootOf(disk, boot), boot.dirEntryCount, name, i) ::
        EntryEnds(VolumeOf(disk, boot), RootOf(disk, boot), i))
  }

  /** It does on every image with at least one sector to a cluster. */
  lemma ClustersLoadEnds(disk: seq<uint8>, boot: BootSector, name: seq<uint8>)
    requires boot.sectorsPerCluster > 0
    ensures LoadEnds(disk, boot, name)
  {
    if FatReadable(disk, boot) && boot.bytesPerSector > 0 && RootReadable(disk, boot) {
      RootHoldsEntries(disk, boot);
      var root, v := RootOf(disk, boot), VolumeOf(disk, boot);
      ProductBound(1, boot.bytesPerSector, 1, boot.sectorsPerCluster);
      assert ClusterSize(v.boot) > 0;
      hide RootOf, VolumeOf, FatReadable, RootReadable, FirstClusterLow, FileSize, Room, Ends, ClusterSize;
      forall i | IsFirstNamed(root, boot.dirEntryCount, name, i) ensures EntryEnds(v, root, i) {
        var w := LoopEnds(v, FirstClusterLow(root, i), Room(v.boot, FileSize(root, i)));
      }
    }
  }

  /** A file kept as cluster-sized pieces in linked clusters, and entered with its size in the directory at `i`. */
  ghost predicate Stored(disk: seq<uint8>, boot: BootSector, name: seq<uint8>, i: nat, size: uint32,
                         fat: seq<uint8>, chain: seq<uint16>, mark: uint12, pieces: seq<seq<uint8>>)
  {
    && boot.bytesPerSector > 0 && boot.sectorsPerCluster > 0
    && FatReadable(disk, boot) && RootReadable(disk, boot)
    && DIR_ENTRY_SIZE * boot.dirEntryCount <= |RootOf(disk, boot)|
    && IsFirstNamed(RootOf(disk, boot), boot.dirEntryCount, name, i)
    && |chain| == |pieces| > 0 && EntryBytes(RootOf(disk, boot), i, chain[0], size)
    && Distinct(chain) && LinkableChain(fat, chain) && END_OF_CHAIN <= mark
    && FatOf(disk, boot) == Link(fat, chain, mark)
    && (forall k | 0 <= k < |chain| :: chain[k] < END_OF_CHAIN && OnVolume(VolumeOf(disk, boot), chain[k]))
    && Placed(VolumeOf(disk, boot), chain, pieces)
    && size <= |Concat(pieces)|
  }

  lemma StoredChainReads(disk: seq<uint8>, boot: BootSector, name: seq<uint8>, i: nat, size: uint32,
                         fat: seq<uint8>, chain: seq<uint16>, mark: uint12, pieces: seq<seq<uint8>>)
    requires Stored(disk, boot, name, i, size, fat, chain, mark, pieces)
    ensures IsRun(VolumeOf(disk, boot), chain[0], chain) && AllReadable(VolumeOf(disk, boot), chain)
    ensures Output(VolumeOf(disk, boot), chain) == Concat(pieces)
  {
    var v := VolumeOf(disk, boot);
    forall k | 0 <= k < |chain| ensures Readable(v, chain[k]) { ClusterOnVolume(v, chain[k]); }
    LinkedChainIsRun(v, fat, chain, mark);
    PlacedPiecesReadBack(v, chain, pieces);
  }

  /** Entry `i` is the only one that can be loaded under its name. */
  lemma StoredEntry(disk: seq<uint8>, boot: BootSector, name: seq<uint8>, i: nat, size: uint32, fat: seq<uint8>,
                    chain: seq<uint16>, mark: uint12, pieces: seq<seq<uint8>>, w: seq<uint16>, r: Outcome)
    requires Stored(disk, boot, name, i, size, fat, chain, mark, pieces)
    ensures IsOutcome(disk, boot, name, w, r) <==> IsEntryOutcome(VolumeOf(disk, boot), RootOf(disk, boot), i, w, r)
    ensures FirstClusterLow(RootOf(disk, boot), i) == chain[0] && FileSize(RootOf(disk, boot), i) == size
  {
    var root := RootOf(disk, boot);
    EntryBytesRead(root, i, chain[0], size);
    forall j | IsFirstNamed(root, boot.dirEntryCount, name, j) ensures j == i {
      FirstNamedIsUnique(root, boot.dirEntryCount, name, i, j);
    }
    hide Link, Placed, OnVolume, ReadOk, ReadBytes, RootSectors, FatReadable, RootReadable, RootOf;
    hide IsEntryOutcome, FileSize, LinkableChain, EntryName, FirstClusterLow, EntryBytes;
  }

  /** An entry with a readable chain of at least its size. */
  lemma ReadableEntryLoads(v: Volume, root: seq<uint8>, i: nat, run: seq<uint16>, w: seq<uint16>, r: Outcome)
    requires DIR_ENTRY_SIZE * (i + 1) <= |root|
    requires IsRun(v, FirstClusterLow(root, i), run) && AllReadable(v, run) && FileSize(root, i) <= |Output(v, run)|
    requires IsEntryOutcome(v, root, i, w, r)
    ensures r == if |Output(v, run)| <= Room(v.boot, FileSize(root, i))
                 then Loaded(Output(v, run)[..FileSize(root, i)]) else Overrun
  {
    RunEndsIff(v, FirstClusterLow(root, i), run, w, Room(v.boot, FileSize(root, i)));
    hide IsRun, Ends, Ending, Output, AllReadable, Room, FirstClusterLow, FileSize;
  }

  /** A stored file loads as the first `size` bytes of its pieces exactly when those fit the buffer. */
  lemma StoredFileLoads(disk: seq<uint8>, boot: BootSector, name: seq<uint8>, i: nat, size: uint32, fat: seq<uint8>,
                        chain: seq<uint16>, mark: uint12, pieces: seq<seq<uint8>>, w: seq<uint16>, r: Outcome)
    requires Stored(disk, boot, name, i, size, fat, chain, mark, pieces)
    requires IsOutcome(disk, boot, name, w, r)
    ensures r == if |Concat(pieces)| <= Room(boot, size) then Loaded(Concat(pieces)[..size]) else Overrun
  {
    StoredChainReads(disk, boot, name, i, size, fat, chain, mark, pieces);
    StoredEntry(disk, boot, name, i, size, fat, chain, mark, pieces, w, r);
    hide IsOutcome, IsEntryOutcome, IsRun, Output, Concat, Link, Placed, OnVolume, AllReadable, RootSectors, Room;
    hide FatReadable, RootReadable, RootOf, FirstClusterLow, IsFirstNamed, LinkableChain, FileSize, EntryBytes;
    ReadableEntryLoads(VolumeOf(disk, boot), RootOf(disk, boot), i, chain, w, r);
  }

  lemma FirstNamedIsUnique(root: seq<uint8>, count: nat, name: seq<uint8>, i: nat, j: nat)
    requires DIR_ENTRY_SIZE * count <= |root|
    requires IsFirstNamed(root, count, name, i) && IsFirstNamed(root, count, name, j)
    ensures i == j
  {}

  /** Sectors of 32 bytes: two for the boot sector, one for the table, the root directory and each cluster. */
  predicate IsSmall(boot: BootSector) {
    && boot.bytesPerSector == 32 && boot.sectorsPerCluster == 1
    && boot.reservedSectors == 2 && boot.fatCount == 1 && boot.dirEntryCount == 1 && boot.sectorsPerFat == 1
  }

  lemma SmallRoot(boot: BootSector)
    requires IsSmall(boot)
    ensures RootStart(boot) == 3 && RootSectors(boot) == 1
  {
    RootRegionFits(boot);
    hide RootSectors;
  }

  lemma Parts(start: seq<uint8>, fat: seq<uint8>, root: seq<uint8>, data: seq<uint8>)
    requires |start| == 64 && |fat| == |root| == |data| == 32
    ensures var disk := start + fat + root + data;
      |disk| == 160 && disk[..64] == start && disk[64..96] == fat && disk[96..128] == root && disk[128..160] == data
  {}

  lemma SmallSector(disk: seq<uint8>, boot: BootSector, lba: uint32)
    requires IsSmall(boot) && lba < 5 && |disk| == 160
    ensures ReadOk(disk, boot, lba, 1) && ReadBytes(disk, boot, lba, 1) == disk[32 * lba..32 * lba + 32]
  {
    ReadWithin(disk, boot, lba, 1, 32 * lba, 32);
    hide ReadOk, ReadBytes;
  }

  lemma FatAt(disk: seq<uint8>, boot: BootSector, start: uint32, count: nat)
    requires boot.reservedSectors == start && boot.sectorsPerFat == count
    ensures FatReadable(disk, boot) == ReadOk(disk, boot, start, count)
    ensures FatOf(disk, boot) == ReadBytes(disk, boot, start, count)
  {
    hide ReadOk, ReadBytes;
  }

  lemma SmallFat(disk: seq<uint8>, boot: BootSector)
    requires IsSmall(boot) && |disk| == 160
    ensures FatReadable(disk, boot) && FatOf(disk, boot) == disk[64..96]
  {
    assert boot.reservedSectors == 2 && boot.sectorsPerFat == 1;
    hide *;
    SmallSector(disk, boot, 2);
    FatAt(disk, boot, 2, 1);
  }

  lemma DirectoryAt(disk: seq<uint8>, boot: BootSector, start: uint32, count: nat)
    requires boot.bytesPerSector > 0 && RootStart(boot) == start && RootSectors(boot) == count
    ensures RootReadable(disk, boot) == ReadOk(disk, boot, start, count)
    ensures RootOf(disk, boot) == ReadBytes(disk, boot, start, count)
  {
    hide RootStart, RootSectors, ReadOk, ReadBytes;
  }

  lemma SmallDirectory(disk: seq<uint8>, boot: BootSector)
    requires IsSmall(boot) && |disk| == 160
    ensures RootReadable(disk, boot) && RootOf(disk, boot) == disk[96..128]
  {
    hide *;
    SmallRoot(boot);
    SmallSector(disk, boot, 3);
    DirectoryAt(disk, boot, 3, 1);
  }

  lemma SmallVolume(disk: seq<uint8>, boot: BootSector)
    requires IsSmall(boot) && |disk| == 160 && FatOf(disk, boot) == disk[64..96]
    ensures VolumeOf(disk, boot) == Volume(disk, boot, disk[64..96], 4)
  {
    SmallRoot(boot);
    hide RootStart, RootSectors, FatOf;
  }

  /** The data cluster of such a volume. */
  lemma SmallCluster(v: Volume, data: seq<uint8>)
    requires IsSmall(v.boot) && v.rootEnd == 4 && |v.disk| == 160 && |data| == 32 && v.disk[128..160] == data
    ensures OnVolume(v, 2) && Placed(v, [2], [data])
  {}

  lemma ConcatOne(piece: seq<uint8>)
    ensures Concat([piece]) == piece
  {
    assert [piece][..0] == [];
  }

  /** A file of one cluster on such a volume. */
  lemma SmallFileIsStored(disk: seq<uint8>, boot: BootSector, fat: seq<uint8>, size: uint32)
    requires IsSmall(boot) && |disk| == 160 && |fat| == 32 && LinkableChain(fat, [2])
    requires disk[64..96] == Link(fat, [2], 0xFFF)
    requires EntryBytes(disk[96..128], 0, 2, size) && size <= 32
    ensures Stored(disk, boot, EntryName(disk[96..128], 0), 0, size, fat, [2], 0xFFF, [disk[128..160]])
  {
    hide Link, FatReadable, RootReadable, VolumeOf, RootOf, FatOf, EntryBytes, EntryName;
    hide Concat, OnVolume, Placed, RootStart, RootSectors, LinkableChain;
    SmallFat(disk, boot);
    SmallDirectory(disk, boot);
    SmallVolume(disk, boot);
    SmallCluster(VolumeOf(disk, boot), disk[128..160]);
    ConcatOne(disk[128..160]);
  }

  /** Room for a directory entry: 11 bytes of name, then the first cluster at 26 and the size at 28. */
  lemma SmallEntry(name: seq<uint8>, rest: seq<uint8>, size: uint8)
    requires |name| == NAME_SIZE && |rest| == 15
    ensures var root := name + rest + [2, 0, size, 0, 0, 0];
      EntryName(root, 0) == name && EntryBytes(root, 0, 2, size)
  {}

  /** The first 64 bytes of a small volume: the boot sector's fields, and zeros. */
  function SmallStart(): (s: seq<uint8>)
    ensures |s| == 64
  {
    seq(11, _ => 0) + [32, 0, 1, 2, 0, 1, 1, 0, 0, 0, 0, 1, 0] + seq(40, _ => 0)
  }

  lemma SmallBoot(disk: seq<uint8>)
    requires |disk| == 160 && disk[..64] == SmallStart()
    ensures IsSmall(BootOf(disk))
  {
    assert forall i | 11 <= i < 24 :: disk[i] == SmallStart()[i];
  }

  /** An image that stores any content of at most one cluster under any name, boot sector included. */
  lemma SomeVolume(name: seq<uint8>, content: seq<uint8>) returns (disk: seq<uint8>, fat: seq<uint8>)
    requires |name| == NAME_SIZE && |content| <= 32
    ensures |disk| == 160 && content <= disk[128..160]
    ensures Stored(disk, BootOf(disk), name, 0, |content|, fat, [2], 0xFFF, [disk[128..160]])
  {
    fat := seq(32, _ => 0);
    assert FatIndex(2) == 3;
    assert LinkableChain(fat, [2]);
    var root := name + seq(15, _ => 0) + [2, 0, |content|, 0, 0, 0];
    var data := content + seq(32 - |content|, _ => 0);
    SmallEntry(name, seq(15, _ => 0), |content|);
    hide Link, EntryBytes, EntryName, Stored, LinkableChain, RootStart, RootSectors, BootOf;
    var linked := Link(fat, [2], 0xFFF);
    var start := SmallStart();
    disk := start + linked + root + data;
    Parts(start, linked, root, data);
    SmallBoot(disk);
    SmallFileIsStored(disk, BootOf(disk), fat, |content|);
  }

  // ---------------------------------------------------------------- the reader

  class Reader {
    const disk: seq<uint8>
    var boot: BootSector
    var fat: array<uint8>
    var rootDirectory: array<uint8>
    var rootDirectoryEnd: uint32

    constructor (image: seq<uint8>)
      ensures disk == image
      ensures fat.Length == 0 && rootDirectory.Length == 0 && rootDirectoryEnd == 0
    {
      disk := image;
      boot := BootSector(0, 0, 0, 0, 0, 0);
      fat := new uint8[0];
      rootDirectory := new uint8[0];
      rootDirectoryEnd := 0;
    }

    function View(): Volume
      reads this, fat
    {
      Volume(disk, boot, fat[..], rootDirectoryEnd)
    }

    /** One item of 62 bytes from the start of the image. */
    method ReadBootSector() returns (ok: bool)
      modifies this`boot
      ensures ok <==> |disk| >= BOOT_SIZE
      ensures ok ==> boot == BootOf(disk)
    {
      if |disk| < BOOT_SIZE {
        return false;
      }
      var b := disk[..BOOT_SIZE];
      boot := BootSector(Word(b, 11), b[13], Word(b, 14), b[16], Word(b, 17), Word(b, 22));
      ok := true;
    }

    method ReadSectors(lba: uint32, count: nat, buffer: array<uint8>, at: nat) returns (ok: bool)
      requires at + |ReadBytes(disk, boot, lba, count)| <= buffer.Length
      modifies buffer
      ensures ok <==> ReadOk(disk, boot, lba, count)
      ensures buffer[..] == Overwrite(old(buffer[..]), at, ReadBytes(disk, boot, lba, count))
    {
      var start := Wrap32(lba * boot.bytesPerSector);
      var have: nat := if start <= |disk| then |disk| - start else 0;
      var want: nat := boot.bytesPerSector * count;
      var n := if want <= have then want else have;
      assert n == |ReadBytes(disk, boot, lba, count)|;
      forall i | 0 <= i < n {
        buffer[at + i] := disk[start + i];
      }
      if boot.bytesPerSector == 0 {
        ok := count == 0;
      } else {
        ok := have / boot.bytesPerSector >= count;
        WholeItems(have, boot.bytesPerSector, count);
        assert count > 0 ==> boot.bytesPerSector * count > 0;
      }
    }

    method ReadFat() returns (ok: bool)
      requires boot.sectorsPerFat * boot.bytesPerSector < 0x8000_0000
      modifies this`fat
      ensures fresh(fat) && fat.Length == boot.sectorsPerFat * boot.bytesPerSector
      ensures ok <==> ReadOk(disk, boot, boot.reservedSectors, boot.sectorsPerFat)
      ensures ok ==> fat[..] == ReadBytes(disk, boot, boot.reservedSectors, boot.sectorsPerFat)
    {
      fat := new uint8[boot.sectorsPerFat * boot.bytesPerSector];
      ok := ReadSectors(boot.reservedSectors, boot.sectorsPerFat, fat, 0);
    }

    method ReadRootDirectory() returns (ok: bool)
      requires boot.bytesPerSector > 0
      modifies this`rootDirectory, this`rootDirectoryEnd
      ensures fresh(rootDirectory)
      ensures rootDirectoryEnd == RootStart(boot) + RootSectors(boot)
      ensures DIR_ENTRY_SIZE * boot.dirEntryCount <= rootDirectory.Length
      ensures rootDirectory.Length < DIR_ENTRY_SIZE * boot.dirEntryCount + boot.bytesPerSector
      ensures ok <==> ReadOk(disk, boot, RootStart(boot), RootSectors(boot))
      ensures ok ==> rootDirectory[..] == ReadBytes(disk, boot, RootStart(boot), RootSectors(boot))
    {
      RootRegionFits(boot);
      var lba: uint32 := boot.reservedSectors + boot.sectorsPerFat * boot.fatCount;
      var size: uint32 := DIR_ENTRY_SIZE * boot.dirEntryCount;
      var sectors := size / boot.bytesPerSector;
      if size % boot.bytesPerSector > 0 {
        sectors := sectors + 1;
      }
      rootDirectoryEnd := Wrap32(lba + sectors);
      assert sectors * boot.bytesPerSector == boot.bytesPerSector * sectors;
      rootDirectory := new uint8[sectors * boot.bytesPerSector];
      ok := ReadSectors(lba, sectors, rootDirectory, 0);
    }

    /** The first directory entry with this name. */
    method FindFile(name: seq<uint8>) returns (found: Option<nat>)
      requires |name| == NAME_SIZE
      requires DIR_ENTRY_SIZE * boot.dirEntryCount <= rootDirectory.Length
      ensures match found
        case Some(i) => IsFirstNamed(rootDirectory[..], boot.dirEntryCount, name, i)
        case None => NoneNamed(rootDirectory[..], boot.dirEntryCount, name)
      ensures found.Some? ==> rootDirectory[32 * found.value..32 * found.value + 11] == name
    {
      var i := 0;
      while i < boot.dirEntryCount
        invariant 0 <= i <= boot.dirEntryCount
        invariant NoneNamed(rootDirectory[..], i, name)
      {
        if rootDirectory[DIR_ENTRY_SIZE * i..DIR_ENTRY_SIZE * i + NAME_SIZE] == name {
          return Some(i);
        }
        i := i + 1;
      }
      return None;
    }

    method ReadCluster(cluster: uint16, output: array<uint8>, at: nat) returns (ok: bool)
      requires at + |ClusterBytes(View(), cluster)| <= output.Length
      requires output != fat
      modifies output
      ensures ok <==> Readable(View(), cluster)
      ensures output[..] == Overwrite(old(output[..]), at, ClusterBytes(View(), cluster))
    {
      var lba := Wrap32(rootDirectoryEnd + (cluster - 2) * boot.sectorsPerCluster);
      ok := ReadSectors(lba, boot.sectorsPerCluster, output, at);
    }

    method NextCluster(cluster: uint16) returns (next: uint12)
      requires EntryInTable(fat[..], cluster)
      ensures next == Entry(fat[..], cluster)
    {
      var fatIndex := cluster * 3 / 2;
      var lo: int, hi: int := fat[fatIndex], fat[fatIndex + 1];
      var load := lo + 0x100 * hi;
      next := if cluster % 2 == 0 then load % 0x1000 else load / 0x10;
    }

    /** Copies the clusters of `w` in order, except a last one without room. */
    method ReadFile(first: uint16, output: array<uint8>, ghost w: seq<uint16>) returns (r: Copy)
      requires Ends(View(), first, w, output.Length)
      requires output != fat
      modifies output
      ensures r == Ending(View(), w, output.Length)
      ensures output[..] == Overwrite(old(output[..]), 0, Output(View(), if r == Overran then w[..|w| - 1] else w))
    {
      ghost var v, before := View(), output[..];
      var currentCluster := first;
      var at := 0;
      ghost var k := 0;
      ghost var written := [];
      while true
        invariant View() == v
        invariant 0 <= k < |w| && currentCluster == w[k]
        invariant written == Output(v, w[..k])
        invariant at == |written| <= |before|
        invariant output[..] == Overwrite(before, 0, written)
        decreases |w| - k
      {
        LoopStep(v, first, w, k, |before|);
        ghost var piece := ClusterBytes(v, w[k]);
        if at + |ClusterBytes(View(), currentCluster)| > output.Length {
          return Overran;
        }
        var ok := ReadCluster(currentCluster, output, at);
        assert output[..] == Overwrite(Overwrite(before, 0, written), at, piece);
        OverwriteAppend(before, written, piece);
        hide Overwrite, ClusterBytes, Readable, Entry, Ends, Ending, Output;
        written := written + piece;
        if !EntryInTable(fat[..], currentCluster) {
          return StrayLoad;
        }
        at := at + boot.bytesPerSector * boot.sectorsPerCluster;
        currentCluster := NextCluster(currentCluster);
        if !(ok && currentCluster < END_OF_CHAIN) {
          return if ok then Done else Failed;
        }
        k := k + 1;
      }
    }

    /** The steps of main from the boot sector to the bytes that it prints. */
    method Load(name: seq<uint8>) returns (r: Outcome)
      requires |name| == NAME_SIZE
      requires |disk| >= BOOT_SIZE ==>
        BootOf(disk).sectorsPerFat * BootOf(disk).bytesPerSector < 0x8000_0000 && LoadEnds(disk, BootOf(disk), name)
      modifies this
      ensures exists w :: IsImageOutcome(disk, name, w, r)
    {
      var ok := ReadBootSector();
      if !ok {
        assert IsImageOutcome(disk, name, [], BadBoot);
        return BadBoot;
      }
      assert boot == BootOf(disk);
      hide BootOf;
      r := LoadFrom(name);
      ghost var w :| IsOutcome(disk, boot, name, w, r);
      assert IsImageOutcome(disk, name, w, r);
    }

    /** The steps of main from the tables on. */
    method LoadFrom(name: seq<uint8>) returns (r: Outcome)
      requires |name| == NAME_SIZE
      requires boot.sectorsPerFat * boot.bytesPerSector < 0x8000_0000 && LoadEnds(disk, boot, name)
      modifies this
      ensures boot == old(boot) && exists w :: IsOutcome(disk, boot, name, w, r)
    {
      var ok := ReadFat();
      if !ok {
        assert IsOutcome(disk, boot, name, [], BadFat);
        return BadFat;
      }
      if boot.bytesPerSector == 0 {
        assert IsOutcome(disk, boot, name, [], Trap);
        return Trap;
      }
      ok := ReadRootDirectory();
      if !ok {
        assert IsOutcome(disk, boot, name, [], BadRoot);
        return BadRoot;
      }
      RootHoldsEntries(disk, boot);
      var found := FindFile(name);
      if found.None? {
        assert IsOutcome(disk, boot, name, [], NotFound);
        return NotFound;
      }
      var i := found.value;
      assert View() == VolumeOf(disk, boot) && rootDirectory[..] == RootOf(disk, boot);
      assert IsFirstNamed(RootOf(disk, boot), boot.dirEntryCount, name, i);
      hide IsFirstNamed, NoneNamed, IsEntryOutcome, EntryEnds, EntryName, ReadOk, ReadBytes, RootSectors;
      r := LoadEntry(i);
      ghost var w :| IsEntryOutcome(VolumeOf(disk, boot), RootOf(disk, boot), i, w, r);
      assert IsOutcome(disk, boot, name, w, r);
    }

    /** The steps of main for the entry found. */
    method LoadEntry(i: nat) returns (r: Outcome)
      requires DIR_ENTRY_SIZE * (i + 1) <= rootDirectory.Length
      requires EntryEnds(View(), rootDirectory[..], i)
      ensures exists w :: IsEntryOutcome(View(), rootDirectory[..], i, w, r)
    {
      ghost var v, root := View(), rootDirectory[..];
      var size := FileSize(rootDirectory[..], i);
      var buffer := new uint8[Wrap32(size + boot.bytesPerSector)];
      assert View() == v && rootDirectory[..] == root;
      hide Ends, Ending, Output, Overwrite, Wrap32, FirstClusterLow, FileSize;
      ghost var w :| Ends(v, FirstClusterLow(root, i), w, Room(v.boot, FileSize(root, i)));
      ghost var before := buffer[..];
      var copy := ReadFile(FirstClusterLow(rootDirectory[..], i), buffer, w);
      assert View() == v && rootDirectory[..] == root;
      match copy {
        case Overran => r := Overrun;
        case StrayLoad => r := Stray;
        case Failed => r := BadFile;
        case Done =>
          if size > buffer.Length {
            r := Overrun;
          } else {
            OverwritePrefix(before, Output(v, w), size);
            r := Loaded(buffer[..size]);
          }
      }
      assert IsEntryOutcome(v, root, i, w, r);
    }
  }
}
