/** Two-level page tables of Kernel/virtual_mem.h in flat physical memory. */
module Paging {
  import opened Machine
  import BlockMap

  const ENTRIES := 1024
  const PAGES := 0x10_0000

  const PRESENT: bv32 := 1
  const WRITABLE: bv32 := 2
  const FRAME: bv32 := 0x7FFF_F000

  function PdIndex(address: uint32): nat { address / 0x40_0000 }

  function PtIndex(address: uint32): nat { address / PAGE_SIZE % 0x400 }

  function PageOf(address: uint32): nat { address / PAGE_SIZE }

  /** PAGE_PHYS_ADDR keeps all but the low 8 bits. */
  function PhysAddr(entry: bv32): bv32 { entry & !0xFF }

  /** Repaired SET_FRAME: the address goes into the frame bits. */
  function SetFrame(entry: bv32, address: bv32): bv32 {
    (entry & !FRAME) | (address & FRAME)
  }

  /** SET_FRAME as written drops the address. */
  function SetFrameAsWritten(entry: bv32, address: bv32): bv32 {
    entry & !FRAME
  }

  /** A frame that an entry can hold: page aligned, below 2^31. */
  predicate IsFrame(address: bv32) { address & !FRAME == 0 }

  /** No bits between the flags and the frame, nor above it. */
  predicate Clean(entry: bv32) { entry & 0x8000_0F00 == 0 }

  /** No bit above the frame. */
  predicate Low(entry: bv32) { entry & 0x8000_0000 == 0 }

  lemma SetFrameAsWrittenIff(entry: bv32, address: bv32)
    ensures SetFrameAsWritten(entry, address) == SetFrame(entry, address) <==> address & FRAME == 0
  {}

  /** As written, a new directory entry points to a table at address 0, whatever table was allocated. */
  lemma AsWrittenTableIsZero(entry: bv32, table: bv32)
    requires Clean(entry)
    ensures PhysAddr(SetFrameAsWritten(entry | PRESENT | WRITABLE, table)) == 0
  {}

  predicate IsPresent(entry: bv32) { entry & PRESENT != 0 }

  /** The frame as the processor reads it, bits 12 to 31 (Intel SDM volume 3A, section 4.3). */
  function FrameOf(entry: bv32): bv32 { entry & 0xFFFF_F000 }

  function WordOf(address: bv32): nat { address as nat / 4 }

  /** First word of the table that a directory entry points to. */
  function TableOf(entry: bv32): nat { WordOf(PhysAddr(entry)) }

  function NewPde(entry: bv32, table: bv32): bv32 {
    SetFrame(entry | PRESENT | WRITABLE, table)
  }

  function NewPte(entry: bv32, phys: bv32): bv32 {
    SetFrame(entry | PRESENT, phys)
  }

  lemma DirectoryEntry(entry: bv32, table: bv32)
    requires Clean(entry) && IsFrame(table)
    ensures IsPresent(NewPde(entry, table)) && Clean(NewPde(entry, table))
    ensures TableOf(NewPde(entry, table)) == WordOf(table)
  {}

  /** The new entry keeps bit 31 of the old one, so it names the frame asked for exactly when that bit was clear. */
  lemma PageEntry(entry: bv32, phys: bv32)
    ensures FrameOf(NewPte(entry, phys)) == phys & FRAME <==> Low(entry)
  {}

  lemma PageEntryFlags(entry: bv32, phys: bv32)
    ensures IsPresent(NewPte(entry, phys))
    ensures Low(NewPte(entry, phys)) <==> Low(entry)
  {}

  lemma ZeroEntry()
    ensures !IsPresent(0) && Low(0)
  {}

  /** The frame is bits 12 to 30, all others stay. */
  lemma FrameBits(entry: bv32, address: bv32)
    ensures SetFrame(entry, address) == (entry & 0x8000_0FFF) | (address & 0x7FFF_F000)
  {}

  lemma FrameBitsAsWritten(entry: bv32, address: bv32)
    ensures SetFrameAsWritten(entry, address) == entry & 0x8000_0FFF
  {}

  lemma PresentIsBit0(entry: bv32)
    ensures IsPresent(entry) <==> entry & 1 == 1
  {}

  /** A table's entry gets bits 0 and 1, present and writable. */
  lemma TableEntryBits(entry: bv32, table: bv32)
    ensures NewPde(entry, table) == ((entry | 3) & 0x8000_0FFF) | (table & 0x7FFF_F000)
  {}

  /** A page's entry gets bit 0. */
  lemma PageEntryBits(entry: bv32, phys: bv32)
    ensures NewPte(entry, phys) == ((entry | 1) & 0x8000_0FFF) | (phys & 0x7FFF_F000)
  {}

  /** The code clears the low 8 bits of an entry for a table's address, the processor the low 12 for a frame. */
  lemma AddressBits(entry: bv32)
    ensures PhysAddr(entry) == (entry >> 8) << 8
  {}

  lemma WalkBits(entry: bv32)
    ensures FrameOf(entry) == (entry >> 12) << 12
  {}

  lemma WordBytes(address: bv32)
    ensures 4 * WordOf(address) <= address as nat < 4 * WordOf(address) + 4
  {}

  // ---------------------------------------------------------------- memory

  /** Physical memory by words, and the word at which the current directory starts. */
  datatype Space = Space(ram: seq<bv32>, dir: nat)

  function Pde(s: Space, i: nat): bv32
    requires i < ENTRIES && s.dir + ENTRIES <= |s.ram|
  {
    s.ram[s.dir + i]
  }

  predicate Present(s: Space, i: nat)
    requires i < ENTRIES && s.dir + ENTRIES <= |s.ram|
  {
    IsPresent(Pde(s, i))
  }

  function Table(s: Space, i: nat): nat
    requires i < ENTRIES && s.dir + ENTRIES <= |s.ram|
  {
    TableOf(Pde(s, i))
  }

  predicate Separate(a: nat, b: nat) { a + ENTRIES <= b || b + ENTRIES <= a }

  /** The directory and every table that it points to lie inside memory. */
  ghost predicate InMemory(s: Space) {
    && s.dir + ENTRIES <= |s.ram|
    && forall i: nat | i < ENTRIES && Present(s, i) :: Table(s, i) + ENTRIES <= |s.ram|
  }

  ghost predicate LowFrom(ram: seq<bv32>, t: nat)
    requires t + ENTRIES <= |ram|
  {
    forall w | t <= w < t + ENTRIES :: Low(ram[w])
  }

  /** Every present entry has a table of its own, apart from the directory; no entry has stray high bits. */
  ghost predicate WellFormed(s: Space) {
    && InMemory(s)
    && (forall i: nat | i < ENTRIES :: Clean(Pde(s, i)))
    && (forall i: nat | i < ENTRIES && Present(s, i) :: Separate(Table(s, i), s.dir) && LowFrom(s.ram, Table(s, i)))
    && (forall i: nat, j: nat | i < j < ENTRIES && Present(s, i) && Present(s, j) :: Separate(Table(s, i), Table(s, j)))
  }

  /** The word that holds the entry of a page. */
  ghost function Slot(s: Space, page: nat): (w: nat)
    requires s.dir + ENTRIES <= |s.ram| && page < PAGES
    ensures w == Table(s, page / ENTRIES) + page % ENTRIES
  {
    Table(s, page / ENTRIES) + page % ENTRIES
  }

  lemma SlotInMemory(s: Space, page: nat)
    requires InMemory(s) && page < PAGES && Present(s, page / ENTRIES)
    ensures Slot(s, page) < |s.ram|
  {}

  lemma TablesSeparate(s: Space, i: nat, j: nat)
    requires WellFormed(s) && i < ENTRIES && j < ENTRIES && Present(s, i) && Present(s, j)
    ensures i != j ==> Separate(Table(s, i), Table(s, j))
  {
    hide IsPresent, TableOf, Clean, Table, Present;
  }

  lemma PlacesDiffer(a: nat, b: nat, p: nat, q: nat)
    requires p != q
    requires if p / ENTRIES == q / ENTRIES then a == b else Separate(a, b)
    ensures a + p % ENTRIES != b + q % ENTRIES
  {}

  lemma SlotsDiffer(s: Space, p: nat, q: nat)
    requires WellFormed(s) && p < PAGES && q < PAGES && p != q
    requires Present(s, p / ENTRIES) && Present(s, q / ENTRIES)
    ensures Slot(s, p) != Slot(s, q)
  {
    hide IsPresent, TableOf, Clean, Table, Present;
    TablesSeparate(s, p / ENTRIES, q / ENTRIES);
    hide WellFormed;
    PlacesDiffer(Table(s, p / ENTRIES), Table(s, q / ENTRIES), p, q);
  }

  /** The two-level walk for a virtual page. */
  ghost function Translate(s: Space, page: nat): Option<bv32>
    requires InMemory(s) && page < PAGES
  {
    if !Present(s, page / ENTRIES) then None else Pointed(s.ram[Slot(s, page)])
  }

  function Pointed(entry: bv32): Option<bv32> {
    if IsPresent(entry) then Some(FrameOf(entry)) else None
  }

  /** Memory at `table` that no table and not the directory occupies. */
  ghost predicate Fresh(s: Space, table: bv32)
    requires s.dir + ENTRIES <= |s.ram|
  {
    && IsFrame(table) && WordOf(table) + ENTRIES <= |s.ram| && Separate(WordOf(table), s.dir)
    && forall i: nat | i < ENTRIES && Present(s, i) :: Separate(WordOf(table), Table(s, i))
  }

  /** Words `t` to `t + 1024` zeroed. */
  ghost function Zeroed(ram: seq<bv32>, t: nat): (r: seq<bv32>)
    requires t + ENTRIES <= |ram|
    ensures |r| == |ram|
    ensures forall w | 0 <= w < |ram| :: r[w] == if t <= w < t + ENTRIES then 0 else ram[w]
  {
    seq(|ram|, w requires 0 <= w < |ram| => if t <= w < t + ENTRIES then 0 else ram[w])
  }

  /** The new table is zeroed and entered in the directory. */
  ghost function AddTable(s: Space, i: nat, table: bv32): Space
    requires i < ENTRIES && s.dir + ENTRIES <= |s.ram| && WordOf(table) + ENTRIES <= |s.ram|
  {
    var ram := Zeroed(s.ram, WordOf(table));
    s.(ram := ram[s.dir + i := NewPde(ram[s.dir + i], table)])
  }

  /** Directories with the same entry at `j` agree on it. */
  lemma SameEntry(s: Space, s': Space, j: nat)
    requires j < ENTRIES && s.dir + ENTRIES <= |s.ram| && s'.dir + ENTRIES <= |s'.ram|
    requires Pde(s', j) == Pde(s, j)
    ensures Present(s', j) == Present(s, j) && Table(s', j) == Table(s, j)
  {}

  /** One more table, apart from all others, keeps the directory well formed. */
  lemma DirectoryGrows(s: Space, s': Space, i: nat, t: nat)
    requires WellFormed(s) && i < ENTRIES && s'.dir == s.dir && |s'.ram| == |s.ram|
    requires forall j: nat | j < ENTRIES && j != i :: Pde(s', j) == Pde(s, j)
    requires Present(s', i) && Clean(Pde(s', i)) && Table(s', i) == t
    requires t + ENTRIES <= |s.ram| && Separate(t, s.dir)
    requires LowFrom(s'.ram, t)
    requires forall j: nat | j < ENTRIES && Present(s, j) && j != i ::
      Separate(t, Table(s, j)) && LowFrom(s'.ram, Table(s, j))
    ensures WellFormed(s')
  {
    forall j: nat | j < ENTRIES && j != i
      ensures Present(s', j) == Present(s, j) && Table(s', j) == Table(s, j) && Clean(Pde(s', j))
    {
      SameEntry(s, s', j);
      assert Clean(Pde(s, j));
    }
    hide Clean, TableOf, IsPresent, Pde, Present, Table, Low, LowFrom;
  }

  /** A table that a write leaves alone keeps its entries. */
  lemma LowKept(ram: seq<bv32>, ram': seq<bv32>, t: nat)
    requires t + ENTRIES <= |ram| && |ram'| == |ram| && LowFrom(ram, t)
    requires forall w | t <= w < t + ENTRIES :: ram'[w] == ram[w] || Low(ram'[w])
    ensures LowFrom(ram', t)
  {
    forall w | t <= w < t + ENTRIES ensures Low(ram'[w]) { assert Low(ram[w]); }
    hide Low;
  }

  /** The other tables keep their words, and the new one is zero. */
  lemma AddTableWords(s: Space, i: nat, table: bv32)
    requires WellFormed(s) && i < ENTRIES && Fresh(s, table)
    ensures var ram := AddTable(s, i, table).ram; var t := WordOf(table);
      && |ram| == |s.ram| && (forall w | t <= w < t + ENTRIES :: ram[w] == 0)
      && forall j: nat, w | j < ENTRIES && Present(s, j) && Table(s, j) <= w < Table(s, j) + ENTRIES ::
        ram[w] == s.ram[w]
  {
    hide Clean, IsFrame, IsPresent, FrameOf, WordOf, TableOf, NewPde, Low, LowFrom;
    forall j: nat, w | j < ENTRIES && Present(s, j) && Table(s, j) <= w < Table(s, j) + ENTRIES
      ensures AddTable(s, i, table).ram[w] == s.ram[w]
    {
      assert Separate(WordOf(table), Table(s, j)) && Separate(Table(s, j), s.dir);
    }
  }

  lemma AddTableEntries(s: Space, i: nat, table: bv32)
    requires WellFormed(s) && i < ENTRIES && !Present(s, i) && Fresh(s, table)
    ensures var s' := AddTable(s, i, table);
      && (forall j: nat | j < ENTRIES && j != i :: Pde(s', j) == Pde(s, j))
      && Present(s', i) && Table(s', i) == WordOf(table)
      && WellFormed(s')
  {
    var s' := AddTable(s, i, table);
    DirectoryEntry(Pde(s, i), table);
    ZeroEntry();
    hide Clean, IsFrame, IsPresent, FrameOf, WordOf, TableOf, NewPde, NewPte, Low;
    assert Pde(s', i) == NewPde(Pde(s, i), table);
    assert forall j: nat | j < ENTRIES && j != i :: Pde(s', j) == Pde(s, j);
    AddTableWords(s, i, table);
    hide AddTable;
    forall j: nat | j < ENTRIES && Present(s, j) ensures LowFrom(s'.ram, Table(s, j)) {
      LowKept(s.ram, s'.ram, Table(s, j));
    }
    DirectoryGrows(s, s', i, WordOf(table));
  }

  /** A table entered at `i` with zeros in it, and all else kept. */
  lemma NewTableTranslates(s: Space, s': Space, i: nat, page: nat)
    requires InMemory(s) && InMemory(s') && i < ENTRIES && page < PAGES && |s'.ram| == |s.ram|
    requires !Present(s, i) && Present(s', i)
    requires page / ENTRIES != i ==> Pde(s', page / ENTRIES) == Pde(s, page / ENTRIES)
    requires forall w | Table(s', i) <= w < Table(s', i) + ENTRIES :: s'.ram[w] == 0
    requires forall j: nat, w | j < ENTRIES && Present(s, j) && Table(s, j) <= w < Table(s, j) + ENTRIES ::
      s'.ram[w] == s.ram[w]
    ensures Translate(s', page) == Translate(s, page)
  {
    ZeroEntry();
    hide IsPresent, FrameOf, TableOf;
    if page / ENTRIES != i { SameEntry(s, s', page / ENTRIES); }
    hide Pde;
  }

  /** A new table changes no translation. */
  lemma AddTableTranslates(s: Space, i: nat, table: bv32)
    requires WellFormed(s) && i < ENTRIES && !Present(s, i) && Fresh(s, table)
    ensures WellFormed(AddTable(s, i, table)) && Present(AddTable(s, i, table), i)
    ensures forall page | 0 <= page < PAGES :: Translate(AddTable(s, i, table), page) == Translate(s, page)
  {
    AddTableEntries(s, i, table);
    AddTableWords(s, i, table);
    var s' := AddTable(s, i, table);
    assert InMemory(s) && InMemory(s');
    hide WellFormed, InMemory, Fresh, AddTable, Translate, Present, Table, Pde;
    forall page | 0 <= page < PAGES ensures Translate(s', page) == Translate(s, page) {
      NewTableTranslates(s, s', i, page);
    }
  }

  /** The page's entry in its table is marked present and gets the frame. */
  ghost function SetPage(s: Space, page: nat, phys: bv32): Space
    requires s.dir + ENTRIES <= |s.ram| && page < PAGES && Slot(s, page) < |s.ram|
  {
    var w := Slot(s, page);
    s.(ram := s.ram[w := NewPte(s.ram[w], phys)])
  }

  /** Writing a page entry leaves the directory alone. */
  lemma SetPageDirectory(s: Space, page: nat, phys: bv32)
    requires WellFormed(s) && page < PAGES && Present(s, page / ENTRIES) && Slot(s, page) < |s.ram|
    ensures forall j: nat | j < ENTRIES :: Pde(SetPage(s, page, phys), j) == Pde(s, j)
    ensures WellFormed(SetPage(s, page, phys))
  {
    var s', i, w := SetPage(s, page, phys), page / ENTRIES, Slot(s, page);
    PageEntryFlags(s.ram[w], phys);
    assert Low(s.ram[w]);
    hide Clean, IsFrame, IsPresent, FrameOf, WordOf, TableOf, NewPde, NewPte, Low;
    assert forall j: nat | j < ENTRIES :: Pde(s', j) == Pde(s, j);
    SameEntry(s, s', i);
    forall j: nat | j < ENTRIES && Present(s, j) ensures LowFrom(s'.ram, Table(s, j)) {
      LowKept(s.ram, s'.ram, Table(s, j));
    }
    forall j: nat | j < ENTRIES && Present(s, j) && j != i ensures Separate(Table(s, i), Table(s, j)) {
      TablesSeparate(s, i, j);
    }
    DirectoryGrows(s, s', i, Table(s, i));
  }

  lemma SetPageTranslatesAt(s: Space, page: nat, phys: bv32, q: nat)
    requires WellFormed(s) && page < PAGES && Present(s, page / ENTRIES) && Slot(s, page) < |s.ram| && q < PAGES
    requires WellFormed(SetPage(s, page, phys))
    requires Pde(SetPage(s, page, phys), q / ENTRIES) == Pde(s, q / ENTRIES)
    ensures Translate(SetPage(s, page, phys), q) == if q == page then Some(phys & FRAME) else Translate(s, q)
  {
    var s', j := SetPage(s, page, phys), q / ENTRIES;
    assert Low(s.ram[Slot(s, page)]);
    PageEntry(s.ram[Slot(s, page)], phys);
    PageEntryFlags(s.ram[Slot(s, page)], phys);
    SameEntry(s, s', j);
    if q != page && Present(s, j) { SlotsDiffer(s, page, q); }
    assert Present(s, j) ==> Slot(s', q) == Slot(s, q) < |s.ram|;
    hide IsFrame, IsPresent, FrameOf, TableOf, NewPte, WellFormed, InMemory, Slot, Low;
  }

  lemma SetPageTranslates(s: Space, page: nat, phys: bv32)
    requires WellFormed(s) && page < PAGES && Present(s, page / ENTRIES) && Slot(s, page) < |s.ram|
    ensures WellFormed(SetPage(s, page, phys))
    ensures forall q | 0 <= q < PAGES ::
      Translate(SetPage(s, page, phys), q) == if q == page then Some(phys & FRAME) else Translate(s, q)
  {
    SetPageDirectory(s, page, phys);
    hide WellFormed, SetPage, Translate, Present, Table, Slot;
    forall q | 0 <= q < PAGES
      ensures Translate(SetPage(s, page, phys), q) == if q == page then Some(phys & FRAME) else Translate(s, q)
    {
      SetPageTranslatesAt(s, page, phys, q);
    }
  }

  /** The same with SET_FRAME as written. */
  ghost function SetPageAsWritten(s: Space, page: nat, phys: bv32): Space
    requires s.dir + ENTRIES <= |s.ram| && page < PAGES && Slot(s, page) < |s.ram|
  {
    var w := Slot(s, page);
    s.(ram := s.ram[w := SetFrameAsWritten(s.ram[w] | PRESENT, phys)])
  }

  lemma SetPageAsWrittenKeeps(s: Space, page: nat, phys: bv32)
    requires WellFormed(s) && page < PAGES && Present(s, page / ENTRIES) && Slot(s, page) < |s.ram|
    ensures WellFormed(SetPageAsWritten(s, page, phys))
  {
    SetPageDirectory(s, page, 0);
    ZeroFrame(s.ram[Slot(s, page)], phys);
    hide WellFormed, Slot, NewPte, SetFrameAsWritten;
    assert SetPageAsWritten(s, page, phys) == SetPage(s, page, 0);
  }

  lemma ZeroFrame(entry: bv32, phys: bv32)
    ensures SetFrameAsWritten(entry | PRESENT, phys) == NewPte(entry, 0)
  {}

  predicate OutsideDirectory(s: Space, w: nat) { w < s.dir || s.dir + ENTRIES <= w }

  /** As written, a page lands at frame 0, so it reaches the frame asked for exactly when that is frame 0. */
  lemma SetPageAsWrittenIff(s: Space, page: nat, phys: bv32)
    requires InMemory(s) && page < PAGES && Present(s, page / ENTRIES)
    requires Slot(s, page) < |s.ram| && OutsideDirectory(s, Slot(s, page)) && Low(s.ram[Slot(s, page)])
    ensures InMemory(SetPageAsWritten(s, page, phys))
    ensures WellFormed(s) ==> WellFormed(SetPageAsWritten(s, page, phys))
    ensures Translate(SetPageAsWritten(s, page, phys), page) == Some(0)
    ensures Translate(SetPageAsWritten(s, page, phys), page) == Some(phys & FRAME) <==> phys & FRAME == 0
  {
    var s', w := SetPageAsWritten(s, page, phys), Slot(s, page);
    if WellFormed(s) { SetPageAsWrittenKeeps(s, page, phys); }
    hide WellFormed;
    EntryAsWritten(s.ram[w], phys);
    hide IsPresent, FrameOf, TableOf, Low, SetFrameAsWritten;
    forall j: nat | j < ENTRIES
      ensures Pde(s', j) == Pde(s, j) && Present(s', j) == Present(s, j) && Table(s', j) == Table(s, j)
    {
      SameEntry(s, s', j);
    }
    assert Slot(s', page) == w;
  }

  lemma EntryAsWritten(entry: bv32, phys: bv32)
    requires Low(entry)
    ensures IsPresent(SetFrameAsWritten(entry | PRESENT, phys))
    ensures FrameOf(SetFrameAsWritten(entry | PRESENT, phys)) == 0
  {}

  // ---------------------------------------------------------------- map_page

  /** A request, and the memory that the allocator offers should a table be needed. */
  datatype Request = Request(phys: bv32, virt: uint32, table: bv32)

  /** The directory once it has a table at entry `i`. */
  ghost function WithTable(s: Space, i: nat, table: bv32): (r: Space)
    requires i < ENTRIES && s.dir + ENTRIES <= |s.ram|
    requires Present(s, i) || WordOf(table) + ENTRIES <= |s.ram|
    ensures r.dir == s.dir && |r.ram| == |s.ram|
  {
    if Present(s, i) then s else AddTable(s, i, table)
  }

  /** The words that the request touches exist. */
  ghost predicate Reaches(s: Space, r: Request) {
    && s.dir + ENTRIES <= |s.ram| && PageOf(r.virt) < PAGES && PdIndex(r.virt) < ENTRIES
    && (Present(s, PdIndex(r.virt)) || WordOf(r.table) + ENTRIES <= |s.ram|)
    && Slot(WithTable(s, PdIndex(r.virt), r.table), PageOf(r.virt)) < |s.ram|
  }

  /** A new table is memory of its own. */
  ghost predicate Proper(s: Space, r: Request) {
    WellFormed(s) && (Present(s, PdIndex(r.virt)) || Fresh(s, r.table))
  }

  lemma IndexOfPage(address: uint32)
    ensures PageOf(address) < PAGES && PageOf(address) == address / 4096
    ensures PdIndex(address) == PageOf(address) / ENTRIES && PtIndex(address) == PageOf(address) % ENTRIES
  {}

  ghost function MapPageResult(s: Space, r: Request): Space
    requires Reaches(s, r)
  {
    SetPage(WithTable(s, PdIndex(r.virt), r.table), PageOf(r.virt), r.phys)
  }

  /** The whole of map_page with both SET_FRAMEs as written. */
  ghost function WithTableAsWritten(s: Space, i: nat, table: bv32): (r: Space)
    requires i < ENTRIES && s.dir + ENTRIES <= |s.ram|
    requires Present(s, i) || WordOf(table) + ENTRIES <= |s.ram|
    ensures r.dir == s.dir && |r.ram| == |s.ram|
  {
    if Present(s, i) then s
    else
      var ram := Zeroed(s.ram, WordOf(table));
      s.(ram := ram[s.dir + i := SetFrameAsWritten(ram[s.dir + i] | PRESENT | WRITABLE, table)])
  }

  ghost predicate ReachesAsWritten(s: Space, r: Request) {
    && s.dir + ENTRIES <= |s.ram| && PageOf(r.virt) < PAGES && PdIndex(r.virt) < ENTRIES
    && (Present(s, PdIndex(r.virt)) || WordOf(r.table) + ENTRIES <= |s.ram|)
    && Slot(WithTableAsWritten(s, PdIndex(r.virt), r.table), PageOf(r.virt)) < |s.ram|
  }

  ghost function MapPageAsWritten(s: Space, r: Request): Space
    requires ReachesAsWritten(s, r)
  {
    SetPageAsWritten(WithTableAsWritten(s, PdIndex(r.virt), r.table), PageOf(r.virt), r.phys)
  }

  lemma NewPdeAsWrittenIff(entry: bv32, table: bv32)
    ensures SetFrameAsWritten(entry | PRESENT | WRITABLE, table) == NewPde(entry, table) <==> table & FRAME == 0
  {}

  lemma NewPteAsWrittenIff(entry: bv32, phys: bv32)
    ensures SetFrameAsWritten(entry | PRESENT, phys) == NewPte(entry, phys) <==> phys & FRAME == 0
  {}

  lemma UpdateEqualIff(ram: seq<bv32>, w: nat, a: bv32, b: bv32)
    requires w < |ram|
    ensures ram[w := a] == ram[w := b] <==> a == b
  {
    assert ram[w := a][w] == a && ram[w := b][w] == b;
  }

  lemma SetPageWords(s: Space, page: nat, phys: bv32)
    requires s.dir + ENTRIES <= |s.ram| && page < PAGES && Slot(s, page) < |s.ram|
    ensures var w := Slot(s, page);
      && SetPage(s, page, phys) == s.(ram := s.ram[w := NewPte(s.ram[w], phys)])
      && SetPageAsWritten(s, page, phys) == s.(ram := s.ram[w := SetFrameAsWritten(s.ram[w] | PRESENT, phys)])
  {
    hide NewPte, SetFrameAsWritten, Slot;
  }

  lemma SetPageEqualIff(s: Space, page: nat, phys: bv32)
    requires s.dir + ENTRIES <= |s.ram| && page < PAGES && Slot(s, page) < |s.ram|
    ensures SetPageAsWritten(s, page, phys) == SetPage(s, page, phys) <==> phys & FRAME == 0
  {
    SetPageWords(s, page, phys);
    hide *;
    NewPteAsWrittenIff(s.ram[Slot(s, page)], phys);
    UpdateEqualIff(s.ram, Slot(s, page), NewPte(s.ram[Slot(s, page)], phys),
                   SetFrameAsWritten(s.ram[Slot(s, page)] | PRESENT, phys));
  }

  /** A directory that differs only at entry `i`, by whether its frame is stored. */
  lemma TablesEqualIff(s: Space, i: nat, table: bv32)
    requires i < ENTRIES && s.dir + ENTRIES <= |s.ram| && WordOf(table) + ENTRIES <= |s.ram| && !Present(s, i)
    ensures var a, b := WithTableAsWritten(s, i, table).ram, WithTable(s, i, table).ram;
      (a == b <==> table & FRAME == 0) && (a == b <==> a[s.dir + i] == b[s.dir + i])
  {
    hide NewPde, SetFrameAsWritten, IsPresent, WordOf, TableOf;
    var ram := Zeroed(s.ram, WordOf(table));
    var e := ram[s.dir + i];
    NewPdeAsWrittenIff(e, table);
    UpdateEqualIff(ram, s.dir + i, SetFrameAsWritten(e | PRESENT | WRITABLE, table), NewPde(e, table));
  }

  lemma SetPageSpares(s: Space, page: nat, phys: bv32, w: nat)
    requires s.dir + ENTRIES <= |s.ram| && page < PAGES && Slot(s, page) < |s.ram| && w < |s.ram| && w != Slot(s, page)
    ensures SetPage(s, page, phys).ram[w] == s.ram[w] && SetPageAsWritten(s, page, phys).ram[w] == s.ram[w]
  {
    hide NewPte, SetFrameAsWritten, Table, Slot;
  }

  /** Two pages entered outside the directory, in spaces that differ at most in one directory word. */
  lemma EnteredEqualIff(t: Space, u: Space, page: nat, phys: bv32, d: nat)
    requires t.dir == u.dir && t.dir + ENTRIES <= |t.ram| == |u.ram| && page < PAGES && d < |t.ram|
    requires t.ram == u.ram <==> t.ram[d] == u.ram[d]
    requires Slot(t, page) < |t.ram| && Slot(u, page) < |u.ram| && Slot(t, page) != d && Slot(u, page) != d
    ensures SetPageAsWritten(u, page, phys) == SetPage(t, page, phys) <==> t.ram == u.ram && phys & FRAME == 0
  {
    SetPageEqualIff(t, page, phys);
    SetPageSpares(t, page, phys, d);
    SetPageSpares(u, page, phys, d);
    hide *;
    assert t.ram == u.ram ==> t == u;
  }

  lemma WithTableEqualIff(s: Space, i: nat, table: bv32)
    requires i < ENTRIES && s.dir + ENTRIES <= |s.ram|
    requires Present(s, i) || WordOf(table) + ENTRIES <= |s.ram|
    ensures var a, b := WithTableAsWritten(s, i, table).ram, WithTable(s, i, table).ram;
      (a == b <==> Present(s, i) || table & FRAME == 0) && (a == b <==> a[s.dir + i] == b[s.dir + i])
  {
    if !Present(s, i) { TablesEqualIff(s, i, table); }
    hide Present, WordOf, AddTable;
  }

  /** The entry of the page is outside the directory. */
  ghost predicate EntersOutside(s: Space, page: nat)
    requires s.dir + ENTRIES <= |s.ram| && page < PAGES
  {
    Slot(s, page) < |s.ram| && OutsideDirectory(s, Slot(s, page))
  }

  lemma OutsideIsNot(s: Space, page: nat, i: nat)
    requires s.dir + ENTRIES <= |s.ram| && page < PAGES && i < ENTRIES && EntersOutside(s, page)
    ensures Slot(s, page) < |s.ram| && Slot(s, page) != s.dir + i
  {
    hide Slot;
  }

  lemma EntriesEqualIff(s: Space, i: nat, table: bv32, page: nat, phys: bv32)
    requires i < ENTRIES && page < PAGES && s.dir + ENTRIES <= |s.ram|
    requires Present(s, i) || WordOf(table) + ENTRIES <= |s.ram|
    requires EntersOutside(WithTable(s, i, table), page) && EntersOutside(WithTableAsWritten(s, i, table), page)
    ensures SetPageAsWritten(WithTableAsWritten(s, i, table), page, phys) == SetPage(WithTable(s, i, table), page, phys)
      <==> phys & FRAME == 0 && (Present(s, i) || table & FRAME == 0)
  {
    WithTableEqualIff(s, i, table);
    hide *;
    var t, u := WithTable(s, i, table), WithTableAsWritten(s, i, table);
    OutsideIsNot(t, page, i);
    OutsideIsNot(u, page, i);
    EnteredEqualIff(t, u, page, phys, s.dir + i);
  }

  /** As written the call leaves the memory meant exactly when the frame is 0, and so is a table that it enters. */
  lemma MapPageAsWrittenIff(s: Space, r: Request)
    requires Reaches(s, r) && ReachesAsWritten(s, r)
    requires EntersOutside(WithTable(s, PdIndex(r.virt), r.table), PageOf(r.virt))
    requires EntersOutside(WithTableAsWritten(s, PdIndex(r.virt), r.table), PageOf(r.virt))
    ensures MapPageAsWritten(s, r) == MapPageResult(s, r)
      <==> r.phys & FRAME == 0 && (Present(s, PdIndex(r.virt)) || r.table & FRAME == 0)
  {
    hide Present, WordOf, Slot, SetPage, SetPageAsWritten, PdIndex, PageOf, WithTable, WithTableAsWritten;
    hide EntersOutside;
    EntriesEqualIff(s, PdIndex(r.virt), r.table, PageOf(r.virt), r.phys);
  }

  lemma ProperReaches(s: Space, r: Request)
    requires Proper(s, r)
    ensures Reaches(s, r)
    ensures WellFormed(WithTable(s, PdIndex(r.virt), r.table))
    ensures Present(WithTable(s, PdIndex(r.virt), r.table), PdIndex(r.virt))
    ensures forall q | 0 <= q < PAGES :: Translate(WithTable(s, PdIndex(r.virt), r.table), q) == Translate(s, q)
  {
    IndexOfPage(r.virt);
    var i := PdIndex(r.virt);
    if !Present(s, i) { AddTableTranslates(s, i, r.table); }
    var s' := WithTable(s, i, r.table);
    SlotInMemory(s', PageOf(r.virt));
    hide Clean, IsFrame, IsPresent, TableOf, AddTable, Translate, Slot, LowFrom, Present;
  }

  /** The page goes to its frame, every other page where it went before, and tables stay apart. */
  lemma MapPageTranslates(s: Space, r: Request)
    requires Proper(s, r)
    ensures Reaches(s, r) && WellFormed(MapPageResult(s, r))
    ensures forall q | 0 <= q < PAGES ::
      Translate(MapPageResult(s, r), q) == if q == PageOf(r.virt) then Some(r.phys & FRAME) else Translate(s, q)
  {
    IndexOfPage(r.virt);
    ProperReaches(s, r);
    hide WellFormed, Proper, SetPage, WithTable, Translate, Present, Table, Slot, InMemory;
    SetPageTranslates(WithTable(s, PdIndex(r.virt), r.table), PageOf(r.virt), r.phys);
  }

  ghost predicate ProperRun(s: Space, requests: seq<Request>)
    decreases |requests|
  {
    |requests| == 0 ||
    (Proper(s, requests[0]) && (ProperReaches(s, requests[0]); ProperRun(MapPageResult(s, requests[0]), requests[1..])))
  }

  ghost function Run(s: Space, requests: seq<Request>): Space
    requires ProperRun(s, requests)
    decreases |requests|
  {
    if |requests| == 0 then s
    else
      ProperReaches(s, requests[0]);
      Run(MapPageResult(s, requests[0]), requests[1..])
  }

  /** The frame of the last request for `page`, or what the page had. */
  ghost function LastFrame(requests: seq<Request>, page: nat, start: Option<bv32>): Option<bv32> {
    if |requests| == 0 then start
    else
      LastFrame(requests[1..], page, if PageOf(requests[0].virt) == page then Some(requests[0].phys & FRAME) else start)
  }

  /** After any run of requests the walk sends every page to the frame last mapped for it. */
  lemma {:induction false} RunTranslates(s: Space, requests: seq<Request>)
    requires WellFormed(s) && ProperRun(s, requests)
    ensures WellFormed(Run(s, requests))
    ensures forall q | 0 <= q < PAGES :: Translate(Run(s, requests), q) == LastFrame(requests, q, Translate(s, q))
    decreases |requests|
  {
    if |requests| > 0 {
      MapPageTranslates(s, requests[0]);
      RunTranslates(MapPageResult(s, requests[0]), requests[1..]);
    }
  }

  // ---------------------------------------------------------------- tables from the block allocator

  /** The address that m_alloc returns for one block; it adds `skew`, the size in the process slot before. */
  function BlockAddress(block: bv32, skew: bv32): bv32 { (block << 10) + skew }

  lemma NewTableAddress(x: bv32)
    ensures PhysAddr(NewPde(0, x)) == x & FRAME
  {}

  lemma FourOfBlock(a: bv32)
    requires a < 0x20_0000
    ensures ((a << 10) & FRAME) >> 12 == a >> 2
  {}

  lemma SharedTableSameFour(a: bv32, b: bv32)
    requires a < 0x20_0000 && b < 0x20_0000
    ensures PhysAddr(NewPde(0, a << 10)) == PhysAddr(NewPde(0, b << 10)) ==> a >> 2 == b >> 2
  {
    NewTableAddress(a << 10);
    NewTableAddress(b << 10);
    FourOfBlock(a);
    FourOfBlock(b);
    hide *;
  }

  lemma TableOfFour(a: bv32, q: bv32)
    requires a < 0x20_0000 && a >> 2 == q
    ensures PhysAddr(NewPde(0, a << 10)) == q << 12
  {}

  lemma SameFourSharesTable(a: bv32, b: bv32, q: bv32)
    requires a < 0x20_0000 && b < 0x20_0000 && a >> 2 == q && b >> 2 == q
    ensures PhysAddr(NewPde(0, a << 10)) == PhysAddr(NewPde(0, b << 10))
  {
    hide *;
    TableOfFour(a, q);
    TableOfFour(b, q);
  }

  /** A table takes four blocks: two blocks give the same table exactly when they lie in the same aligned four. */
  lemma BlocksShareTableIff(a: bv32, b: bv32)
    requires a < 0x20_0000 && b < 0x20_0000
    ensures PhysAddr(NewPde(0, a << 10)) == PhysAddr(NewPde(0, b << 10)) <==> a >> 2 == b >> 2
  {
    hide *;
    SharedTableSameFour(a, b);
    if a >> 2 == b >> 2 { SameFourSharesTable(a, b, a >> 2); }
  }

  lemma BlockBytes(block: bv32, skew: bv32)
    ensures BlockAddress(block, skew) == 1024 * block + skew
  {}

  /** The directory points to the memory that was zeroed exactly for unshifted addresses of every fourth block. */
  lemma BlockIsTableIff(block: bv32, skew: bv32)
    requires block < 0x20_0000 && skew < 0x400
    ensures PhysAddr(NewPde(0, BlockAddress(block, skew))) == BlockAddress(block, skew) <==> skew == 0 && block & 3 == 0
    ensures IsFrame(BlockAddress(block, skew)) <==> skew == 0 && block & 3 == 0
  {}

  /** Directory entries with the same table send their pages to the same places. */
  lemma SharedTableAliases(s: Space, p: nat, q: nat)
    requires InMemory(s) && p < PAGES && q < PAGES && p % ENTRIES == q % ENTRIES
    requires Present(s, p / ENTRIES) && Present(s, q / ENTRIES)
    requires PhysAddr(Pde(s, p / ENTRIES)) == PhysAddr(Pde(s, q / ENTRIES))
    ensures Translate(s, p) == Translate(s, q)
  {
    hide IsPresent, PhysAddr, FrameOf;
  }

  lemma FrameBytes(q: bv32)
    requires q < 0x8_0000
    ensures (q << 12) as nat == PAGE_SIZE * (q as nat)
  {}

  lemma FrameWords(q: bv32, address: bv32)
    requires q < 0x8_0000 && address == q << 12
    ensures WordOf(address) == ENTRIES * (q as nat)
  {
    FrameBytes(q);
  }

  lemma FourBlocks(q: bv32)
    requires q < 0x8_0000
    ensures (q << 2) as nat == 4 * (q as nat)
  {}

  lemma FrameBlock(q: bv32, block: bv32)
    requires q < 0x8_0000 && block == q << 2
    ensures block as nat == 4 * (q as nat)
  {
    FourBlocks(q);
  }

  /** `block` is the first of the aligned four number `q`. */
  predicate StartsFour(block: bv32, q: bv32) {
    block == q << 2 && q < 0x8_0000 && BlockAddress(block, 0) == q << 12
  }

  lemma FourthBlock(block: bv32)
    requires block < 0x20_0000 && block & 3 == 0
    ensures block >> 2 < 0x8_0000 && block == (block >> 2) << 2 && BlockAddress(block, 0) == (block >> 2) << 12
  {}

  lemma FirstBlockOf(q: nat, word: nat, block: nat)
    requires word == ENTRIES * q && block == 4 * q
    ensures word % ENTRIES == 0 && word / 256 == block
  {}

  lemma FourWords(block: bv32, q: bv32)
    requires StartsFour(block, q)
    ensures WordOf(BlockAddress(block, 0)) % ENTRIES == 0
    ensures WordOf(BlockAddress(block, 0)) / 256 == block as nat
  {
    FrameBlock(q, block);
    FrameWords(q, BlockAddress(block, 0));
    FirstBlockOf(q as nat, WordOf(BlockAddress(block, 0)), block as nat);
    hide WordOf, BlockAddress;
  }

  /** The words of every fourth block start a table, and their first block is that block. */
  lemma AlignedBlock(block: bv32)
    requires block < 0x20_0000 && block & 3 == 0
    ensures WordOf(BlockAddress(block, 0)) % ENTRIES == 0
    ensures WordOf(BlockAddress(block, 0)) / 256 == block as nat
  {
    FourthBlock(block);
    assert StartsFour(block, block >> 2);
    hide *;
    FourWords(block, block >> 2);
  }

  lemma CleanEntryTable(entry: bv32)
    requires Clean(entry)
    ensures entry >> 12 < 0x8_0000 && PhysAddr(entry) == (entry >> 12) << 12
  {}

  /** The first block of memory at `word` is marked used. */
  predicate Reserved(flags: seq<bool>, word: nat) {
    word / 256 < |flags| && flags[word / 256]
  }

  /** The directory is page aligned, and its first block and those of the tables are marked used. */
  ghost predicate TablesReserved(s: Space, flags: seq<bool>)
    requires s.dir + ENTRIES <= |s.ram|
  {
    && s.dir % ENTRIES == 0 && Reserved(flags, s.dir)
    && forall i: nat | i < ENTRIES && Present(s, i) :: Reserved(flags, Table(s, i))
  }

  lemma FrameAligned(q: bv32, address: bv32)
    requires q < 0x8_0000 && address == q << 12
    ensures WordOf(address) % ENTRIES == 0
  {
    FrameWords(q, address);
    FirstBlockOf(q as nat, WordOf(address), 4 * (q as nat));
    hide WordOf;
  }

  lemma CleanTableAligned(entry: bv32)
    requires Clean(entry)
    ensures TableOf(entry) % ENTRIES == 0
  {
    CleanEntryTable(entry);
    hide WordOf, PhysAddr, Clean;
    FrameAligned(entry >> 12, PhysAddr(entry));
  }

  lemma TableIsAligned(s: Space, i: nat)
    requires WellFormed(s) && i < ENTRIES
    ensures Table(s, i) % ENTRIES == 0
  {
    hide TableOf, Clean;
    CleanTableAligned(Pde(s, i));
  }

  lemma AlignedApart(a: nat, b: nat, flags: seq<bool>)
    requires a % ENTRIES == 0 && b % ENTRIES == 0
    requires Reserved(flags, b) && !Reserved(flags, a)
    ensures Separate(a, b)
  {}

  /** Aligned memory whose first block is free is apart from the directory and all tables. */
  lemma FreeFrameIsFresh(s: Space, flags: seq<bool>, table: bv32)
    requires WellFormed(s) && TablesReserved(s, flags)
    requires IsFrame(table) && WordOf(table) % ENTRIES == 0 && WordOf(table) + ENTRIES <= |s.ram|
    requires !Reserved(flags, WordOf(table))
    ensures Fresh(s, table)
  {
    hide WordOf, IsFrame, TableOf, IsPresent, Clean, Low, Reserved, Separate;
    AlignedApart(WordOf(table), s.dir, flags);
    forall i: nat | i < ENTRIES && Present(s, i) ensures Separate(WordOf(table), Table(s, i)) {
      TableIsAligned(s, i);
      AlignedApart(WordOf(table), Table(s, i), flags);
    }
  }

  /** The block that the search answers can be a table exactly when it is a fourth block, unshifted, inside memory. */
  lemma AnsweredBlockFreshIff(s: Space, flags: seq<bool>, block: bv32, skew: bv32)
    requires WellFormed(s) && TablesReserved(s, flags)
    requires block < 0x20_0000 && skew < 0x400 && BlockMap.IsFirstFit(flags, 1, block as nat)
    ensures Fresh(s, BlockAddress(block, skew))
      <==> skew == 0 && block & 3 == 0 && WordOf(BlockAddress(block, skew)) + ENTRIES <= |s.ram|
  {
    BlockIsTableIff(block, skew);
    FirstIsFree(flags, block as nat);
    hide WordOf, BlockAddress, IsFrame, Clean, TableOf, IsPresent;
    hide BlockMap.IsFirstFit, WellFormed, TablesReserved;
    if skew == 0 && block & 3 == 0 {
      AlignedBlock(block);
      if WordOf(BlockAddress(block, 0)) + ENTRIES <= |s.ram| {
        FreeFrameIsFresh(s, flags, BlockAddress(block, 0));
      }
    }
  }

  lemma FirstIsFree(flags: seq<bool>, r: nat)
    requires BlockMap.IsFirstFit(flags, 1, r)
    ensures r < |flags| && !flags[r]
  {}

  /** Marking the first block of the new table keeps the first blocks of all tables marked. */
  lemma TablesStayReserved(s: Space, flags: seq<bool>, i: nat, table: bv32)
    requires WellFormed(s) && TablesReserved(s, flags) && i < ENTRIES && !Present(s, i)
    requires Fresh(s, table) && WordOf(table) / 256 < |flags|
    ensures TablesReserved(AddTable(s, i, table), flags[WordOf(table) / 256 := true])
  {
    AddTableEntries(s, i, table);
    var s' := AddTable(s, i, table);
    assert s'.dir == s.dir;
    forall j: nat | j < ENTRIES && j != i ensures Present(s', j) == Present(s, j) && Table(s', j) == Table(s, j) {
      SameEntry(s, s', j);
    }
    hide WordOf, IsFrame, Clean, TableOf, IsPresent, WellFormed, AddTable, Fresh, Present, Table;
  }

  /** A request with what the search answers over `flags`, should a table be needed, and the shift of its address. */
  datatype Offer = Offer(phys: bv32, virt: uint32, flags: seq<bool>, block: bv32, shift: bv32)

  function RequestOf(o: Offer): Request { Request(o.phys, o.virt, BlockAddress(o.block, o.shift)) }

  ghost predicate Answers(s: Space, o: Offer)
    requires s.dir + ENTRIES <= |s.ram|
  {
    && TablesReserved(s, o.flags) && o.block < 0x20_0000 && o.shift < 0x400
    && BlockMap.IsFirstFit(o.flags, 1, o.block as nat)
  }

  ghost predicate Offered(s: Space, o: Offer) {
    WellFormed(s) && PdIndex(o.virt) < ENTRIES && (Present(s, PdIndex(o.virt)) || Answers(s, o))
  }

  /** No table is needed, or the block is a fourth block, unshifted, inside memory. */
  ghost predicate Serves(s: Space, o: Offer)
    requires PdIndex(o.virt) < ENTRIES && s.dir + ENTRIES <= |s.ram|
  {
    || Present(s, PdIndex(o.virt))
    || (o.shift == 0 && o.block & 3 == 0 && WordOf(BlockAddress(o.block, o.shift)) + ENTRIES <= |s.ram|)
  }

  lemma OfferIsProperIff(s: Space, o: Offer)
    requires Offered(s, o)
    ensures Proper(s, RequestOf(o)) <==> Serves(s, o)
  {
    hide TablesReserved, BlockMap.IsFirstFit, Fresh, WordOf, BlockAddress, Present, PdIndex;
    if !Present(s, PdIndex(o.virt)) { AnsweredBlockFreshIff(s, o.flags, o.block, o.shift); }
  }

  /** As long as the offers serve, each is answered by the search. */
  ghost predicate OfferedRun(s: Space, offers: seq<Offer>)
    decreases |offers|
  {
    |offers| == 0 ||
    (Offered(s, offers[0])
      && (Proper(s, RequestOf(offers[0])) ==>
            (ProperReaches(s, RequestOf(offers[0]));
             OfferedRun(MapPageResult(s, RequestOf(offers[0])), offers[1..]))))
  }

  ghost predicate ServingRun(s: Space, offers: seq<Offer>)
    requires OfferedRun(s, offers)
    decreases |offers|
  {
    |offers| == 0 ||
    (Serves(s, offers[0])
      && (OfferIsProperIff(s, offers[0]);
          ProperReaches(s, RequestOf(offers[0]));
          ServingRun(MapPageResult(s, RequestOf(offers[0])), offers[1..])))
  }

  function Requests(offers: seq<Offer>): (r: seq<Request>)
    ensures |r| == |offers|
  {
    seq(|offers|, i requires 0 <= i < |offers| => RequestOf(offers[i]))
  }

  /** Over a run on tables from the search, each is memory of its own exactly when each is a fourth block, unshifted. */
  lemma {:induction false} OfferedRunIff(s: Space, offers: seq<Offer>)
    requires OfferedRun(s, offers)
    ensures ProperRun(s, Requests(offers)) <==> ServingRun(s, offers)
    decreases |offers|
  {
    if |offers| > 0 {
      var r := RequestOf(offers[0]);
      assert Requests(offers)[0] == r && Requests(offers)[1..] == Requests(offers[1..]);
      OfferIsProperIff(s, offers[0]);
      hide Offered, Serves, Proper, MapPageResult, Requests, Reaches;
      if Proper(s, r) {
        ProperReaches(s, r);
        OfferedRunIff(MapPageResult(s, r), offers[1..]);
      }
    }
  }

  /** Then the walk sends every page to the frame last mapped for it. */
  lemma OfferedRunTranslates(s: Space, offers: seq<Offer>)
    requires WellFormed(s) && OfferedRun(s, offers) && ServingRun(s, offers)
    ensures ProperRun(s, Requests(offers)) && WellFormed(Run(s, Requests(offers)))
    ensures forall q | 0 <= q < PAGES ::
      Translate(Run(s, Requests(offers)), q) == LastFrame(Requests(offers), q, Translate(s, q))
  {
    OfferedRunIff(s, offers);
    hide *;
    RunTranslates(s, Requests(offers));
  }

  // ---------------------------------------------------------------- the code

  class Mmu {
    const ram: array<bv32>
    const currentDir: nat

    constructor (ram: array<bv32>, dir: nat)
      ensures this.ram == ram && currentDir == dir
    {
      this.ram := ram;
      currentDir := dir;
    }

    ghost function View(): Space
      reads ram
    {
      Space(ram[..], currentDir)
    }

    /** memset of a table. */
    method ClearTable(table: nat)
      requires table + ENTRIES <= ram.Length
      modifies ram
      ensures ram[..] == Zeroed(old(ram[..]), table)
    {
      for k := 0 to ENTRIES
        invariant forall w | 0 <= w < ram.Length :: ram[w] == if table <= w < table + k then 0 else old(ram[w])
      {
        ram[table + k] := 0;
      }
    }

    method SetDirectoryEntry(e: nat, table: bv32)
      requires e < ram.Length
      modifies ram
      ensures ram[..] == old(ram[..])[e := NewPde(old(ram[e]), table)]
    {
      ram[e] := ram[e] | PRESENT;
      ram[e] := ram[e] | WRITABLE;
      ram[e] := SetFrame(ram[e], table);
    }

    method SetPageEntry(page: nat, phys: bv32)
      requires page < ram.Length
      modifies ram
      ensures ram[..] == old(ram[..])[page := NewPte(old(ram[page]), phys)]
    {
      ram[page] := ram[page] | PRESENT;
      ram[page] := SetFrame(ram[page], phys);
    }

    /** The first half of map_page: a directory entry without a table gets the memory that m_alloc returned. */
    method EnsureTable(virt: uint32, table: bv32)
      requires PdIndex(virt) < ENTRIES && currentDir + ENTRIES <= ram.Length
      requires Present(View(), PdIndex(virt)) || WordOf(table) + ENTRIES <= ram.Length
      modifies ram
      ensures View() == WithTable(old(View()), PdIndex(virt), table)
    {
      var e := currentDir + PdIndex(virt);
      PresentBit(ram[e]);
      if ram[e] & PRESENT != PRESENT {
        assert !IsPresent(ram[e]);
        hide IsPresent, WordOf, TableOf, NewPde;
        ClearTable(WordOf(table));
        SetDirectoryEntry(e, table);
      }
    }

    /** The second half: the page's entry in its table. */
    method EnterPage(phys: bv32, virt: uint32)
      requires PageOf(virt) < PAGES && currentDir + ENTRIES <= ram.Length && Slot(View(), PageOf(virt)) < ram.Length
      modifies ram
      ensures View() == SetPage(old(View()), PageOf(virt), phys)
    {
      IndexOfPage(virt);
      hide IsPresent, WordOf, TableOf, NewPte;
      var e := currentDir + PdIndex(virt);
      ghost var w := Slot(View(), PageOf(virt));
      assert w == TableOf(ram[e]) + PtIndex(virt);
      SetPageEntry(TableOf(ram[e]) + PtIndex(virt), phys);
    }

    method MapPage(phys: bv32, virt: uint32, table: bv32)
      requires Reaches(View(), Request(phys, virt, table))
      modifies ram
      ensures View() == MapPageResult(old(View()), Request(phys, virt, table))
    {
      IndexOfPage(virt);
      hide IsPresent, TableOf, AddTable, SetPage;
      EnsureTable(virt, table);
      EnterPage(phys, virt);
    }
  }

  lemma PresentBit(entry: bv32)
    ensures entry & PRESENT != PRESENT <==> entry & PRESENT == 0
  {}
}
