/** The page allocator and the page-table writers of kernel/vmm/vmm.c, as
    functions on the memory they read and write.

    The free physical pages form a list threaded through memory: the first
    word of each free page holds the address of the next one
    (`pmm_list_hdr.next`) and 0 ends the list. To read or write a physical
    page the kernel borrows a temporary virtual page from the 16-entry stack
    `temp_vpages`, maps the physical page there, and unmaps it again.
    `vmm_map_pages` may need a page for a new page table, which it takes from
    the free list with `pmm_get_page`, which in turn maps that page with
    `vmm_map_pages`. Each nesting borrows one more temporary page, so the
    recursion ends at the latest when the 16 are gone (borrowing a 17th
    panics); the termination measure is the number of pages still on the
    stack.

    Physical memory is a map from a word's address to its value (absent
    words are 0). The page table of directory slot d lives in the physical
    page `dir[d] & PAGE_MASK`; entry t of it is the word at that address plus
    4 * t. */
module Vmm {
  import opened Common
  import opened VmmLayout

  /** VMM_TEMP_PAGES (kernel/kernel/config.h:21). */
  const TEMP_PAGES: int := 16

  const NULL: u32 := 0

  /** The flags pmm_get_page and pmm_free_page map a temporary page with. */
  const TEMP_MAP_FLAGS: u32 := PTE_KDATA | VMM_PHYS_REAL

  /** The state vmm.c works on: `temp_vpages` and `temp_vpages_idx`, the
      page directory `gp_kernel_page_dir`, physical memory, and the free-page
      list head `gp_next_free_4k_page` with its count
      `gp_total_free_4k_pages`. */
  datatype Mmu = Mmu(temp: seq<u32>, tempIdx: int, dir: seq<u32>, phys: map<PhysAddr, u32>,
                     freeHead: u32, freeCount: u32)

  /** The sizes the C arrays have, and the stack index within them. */
  predicate Shaped(m: Mmu) {
    |m.temp| == TEMP_PAGES && 0 <= m.tempIdx <= TEMP_PAGES && |m.dir| == 1024
  }

  /** A physical address, the key of the memory map. */
  datatype PhysAddr = PhysAddr(bits: u32)

  /** The word at physical address a. */
  function Word(phys: map<PhysAddr, u32>, a: u32): u32 {
    if PhysAddr(a) in phys then phys[PhysAddr(a)] else 0
  }

  /** clear_pages on one page: every word of the page that holds `page`
      becomes 0. */
  function ClearPage(phys: map<PhysAddr, u32>, page: u32): (r: map<PhysAddr, u32>)
    ensures forall a :: Word(r, a) == if PageBase(a) == PageBase(page) then 0 else Word(phys, a)
  {
    phys - set a | a in phys && PageBase(a.bits) == PageBase(page)
  }

  /** The directory slot of v as an index. */
  function PdeIndex(v: u32): (i: nat)
    ensures i < 1024
  {
    PdeSlot(v) as int
  }

  /** The directory entry for v. */
  function Pde(dir: seq<u32>, v: u32): u32
    requires |dir| == 1024
  {
    dir[PdeIndex(v)]
  }

  /** The physical address of the page-table entry for virtual address v. */
  function PteAddr(dir: seq<u32>, v: u32): u32
    requires |dir| == 1024
  {
    (Pde(dir, v) & PAGE_MASK) + (PteSlot(v) << 2)
  }

  /** Directory slot of v has a page table. */
  predicate HasTable(dir: seq<u32>, v: u32)
    requires |dir| == 1024
  {
    Pde(dir, v) & PAGE_MASK != 0
  }

  /** The page-table entry for v. */
  function Pte(m: Mmu, v: u32): u32
    requires Shaped(m)
  {
    Word(m.phys, PteAddr(m.dir, v))
  }

  /** The entry vmm_map_pages writes (line 413): the physical address with
      the PTE bits of the request flags. */
  function Entry(p: u32, flags: u32): u32 {
    p | (flags & PTE_ALL_FLAGS)
  }

  /** page_table_virt[pte_slot] = e. */
  function SetPte(m: Mmu, v: u32, e: u32): (r: Mmu)
    requires Shaped(m)
    ensures Shaped(r)
  {
    m.(phys := m.phys[PhysAddr(PteAddr(m.dir, v)) := e])
  }

  /** borrow_vpage (lines 39-71): the page on top of the stack, whose slot
      is zeroed. Borrowing a 17th page panics, and so (with Halt) does a page
      whose directory entry is empty. */
  function Borrow(m: Mmu): (r: Outcome<(Mmu, u32)>)
    requires Shaped(m)
    ensures r.Returns? ==> Shaped(r.value.0) && r.value.0.tempIdx == m.tempIdx + 1
  {
    if m.tempIdx >= TEMP_PAGES then Panics("vmm: Exhausted temp_vpages.")
    else
      var ret := m.temp[m.tempIdx];
      var m1 := Borrowed(m);
      if Pde(m1.dir, ret) == 0 then Panics("borrow_vpage: Halt")
      else Returns((m1, ret))
  }

  /** The stack after its top slot is handed out and zeroed. */
  function Borrowed(m: Mmu): (r: Mmu)
    requires Shaped(m) && m.tempIdx < TEMP_PAGES
    ensures Shaped(r)
  {
    m.(temp := m.temp[m.tempIdx := 0], tempIdx := m.tempIdx + 1)
  }

  /** return_vpage (lines 73-85): push the page back, or panic when none is
      borrowed. */
  function Return(m: Mmu, v: u32): (r: Outcome<Mmu>)
    requires Shaped(m)
    ensures r.Returns? ==> Shaped(r.value) && r.value.tempIdx == m.tempIdx - 1
  {
    if m.tempIdx == 0 then Panics("vmm: Attempt to return vpage when not acquired")
    else Returns(m.(tempIdx := m.tempIdx - 1, temp := m.temp[m.tempIdx - 1 := v]))
  }

  /** vmm_unmap_pages (lines 431-482). */
  function Unmap(m: Mmu, v: u32, count: nat): (r: Outcome<Mmu>)
    requires Shaped(m)
    ensures r.Returns? ==> Shaped(r.value) && r.value.tempIdx == m.tempIdx && r.value.temp == m.temp
  {
    if !IsPageAligned(v) then Panics("unmap_pages: virtual address is not page aligned")
    else UnmapLoop(m, v, count)
  }

  /** The loop of lines 452-481: each entry must exist and be a 4 KiB
      mapping, and is zeroed. */
  function UnmapLoop(m: Mmu, v: u32, count: nat): (r: Outcome<Mmu>)
    requires Shaped(m)
    ensures r.Returns? ==> Shaped(r.value) && r.value.tempIdx == m.tempIdx && r.value.temp == m.temp
    decreases count
  {
    if count == 0 then Returns(m)
    else
      match UnmapEntry(m, v)
      case Panics(e) => Panics(e)
      case Undefined(e) => Undefined(e)
      case Returns(m1) => UnmapLoop(m1, v + PAGE_SIZE, count - 1)
  }

  /** One pass of that loop. */
  function UnmapEntry(m: Mmu, v: u32): (r: Outcome<Mmu>)
    requires Shaped(m)
    ensures r.Returns? ==> Shaped(r.value) && r.value.tempIdx == m.tempIdx && r.value.temp == m.temp
  {
    if Pde(m.dir, v) == 0 then Panics("unmap_pages: page directory entry is not initialized")
    else if Pte(m, v) == 0 then Panics("unmap_pages: vaddr is not mapped")
    else if Pte(m, v) & PTE_4M_PAGE != 0 then Panics("unmap_pages: vaddr is a 4M page")
    else Returns(SetPte(m, v, 0))
  }

  /** pmm_get_page (lines 196-219): pop the head of the free list. The page
      is mapped at a borrowed temporary page to read its link and clear it,
      and unmapped again. */
  function GetPage(m: Mmu): (r: Outcome<(Mmu, u32)>)
    requires Shaped(m)
    ensures r.Returns? ==> Shaped(r.value.0) && r.value.0.tempIdx == m.tempIdx
    decreases TEMP_PAGES - m.tempIdx, 0, 1
  {
    match Borrow(m)
    case Panics(e) => Panics(e)
    case Undefined(e) => Undefined(e)
    case Returns((m1, node)) => GetPageAt(m1, node)
  }

  /** The rest of pmm_get_page once temporary page `node` is borrowed. */
  function GetPageAt(m1: Mmu, node: u32): (r: Outcome<(Mmu, u32)>)
    requires Shaped(m1) && 0 < m1.tempIdx
    ensures r.Returns? ==> Shaped(r.value.0) && r.value.0.tempIdx == m1.tempIdx - 1
    decreases TEMP_PAGES - m1.tempIdx + 1, 0, 0
  {
    if m1.freeHead == NULL then Panics("pmm_get_page: no free pages available.")
    else
      var ret := m1.freeHead;
      match MapPages(m1, node, ret, 1, TEMP_MAP_FLAGS)
      case Panics(e) => Panics(e)
      case Undefined(e) => Undefined(e)
      case Returns((m2, _)) =>
        match Release(Popped(m2, ret), node)
        case Panics(e) => Panics(e)
        case Undefined(e) => Undefined(e)
        case Returns(m6) => Returns((m6, ret))
  }

  /** Lines 208-211, with page ret mapped at the temporary page: the list
      head moves to the link in ret's first word, the count drops (a uint32,
      so it wraps below 0), and the page is cleared. */
  function Popped(m2: Mmu, ret: u32): (r: Mmu)
    requires Shaped(m2)
    ensures Shaped(r)
  {
    m2.(freeHead := Word(m2.phys, ret), freeCount := m2.freeCount - 1, phys := ClearPage(m2.phys, ret))
  }

  /** The last two calls of pmm_get_page and pmm_free_page: the temporary
      page is unmapped and given back. */
  function Release(m4: Mmu, node: u32): (r: Outcome<Mmu>)
    requires Shaped(m4)
    ensures r.Returns? ==> Shaped(r.value) && r.value.tempIdx == m4.tempIdx - 1
  {
    match Unmap(m4, node, 1)
    case Panics(e) => Panics(e)
    case Undefined(e) => Undefined(e)
    case Returns(m5) => Return(m5, node)
  }

  /** vmm_map_pages (lines 340-429): the argument checks, then the loop. */
  function MapPages(m: Mmu, v: u32, p: u32, count: nat, flags: u32): (r: Outcome<(Mmu, nat)>)
    requires Shaped(m)
    ensures r.Returns? ==> Shaped(r.value.0) && r.value.0.tempIdx == m.tempIdx
    ensures r.Returns? ==> r.value.1 <= count
    decreases TEMP_PAGES - m.tempIdx, 2, 0
  {
    if flags & !VMM_MAP_VALID_FLAGS != 0 then Panics("illegal flags")
    else if !IsPageAligned(v) then Panics("virtual address is not page aligned")
    else if flags & VMM_PHYS_REAL != 0 && !IsPageAligned(p) then Panics("physical address is not page aligned")
    else MapLoop(m, v, p, count, flags, 0)
  }

  /** Lines 380-394: a directory slot without a page table gets a fresh
      (cleared) page from the free list, entered with PTE_KDATA. */
  function EnsureTable(m: Mmu, v: u32): (r: Outcome<Mmu>)
    requires Shaped(m)
    ensures r.Returns? ==> Shaped(r.value) && r.value.tempIdx == m.tempIdx
    decreases TEMP_PAGES - m.tempIdx, 0, 2
  {
    var pde := PdeIndex(v);
    if HasTable(m.dir, v) then Returns(m)
    else if m.freeHead == NULL then Panics("ASSERT(gp_next_free_4k_page)")
    else
      match GetPage(m)
      case Panics(e) => Panics(e)
      case Undefined(e) => Undefined(e)
      case Returns((m1, table)) => Returns(m1.(dir := m1.dir[pde := table | PTE_KDATA]))
  }

  /** The loop of lines 373-426, `result` entries written so far (a
      uint32 in C that cannot wrap, as it never exceeds the page count). */
  function MapLoop(m: Mmu, v: u32, p: u32, count: nat, flags: u32, result: nat): (r: Outcome<(Mmu, nat)>)
    requires Shaped(m)
    ensures r.Returns? ==> Shaped(r.value.0) && r.value.0.tempIdx == m.tempIdx
    ensures r.Returns? ==> result <= r.value.1 <= result + count
    decreases TEMP_PAGES - m.tempIdx, 1, count
  {
    if count == 0 then Returns((m, result))
    else
      match MapPass(m, v, p, flags)
      case Panics(e) => Panics(e)
      case Undefined(e) => Undefined(e)
      case Returns((m2, (next, added))) => MapLoop(m2, v + PAGE_SIZE, next, count - 1, flags, result + added)
  }

  /** One pass of the loop: the directory slot of v gets a table if it has
      none, then the entry is handled. Gives the next physical address and
      the number of entries written. */
  function MapPass(m: Mmu, v: u32, p: u32, flags: u32): (r: Outcome<(Mmu, (u32, nat))>)
    requires Shaped(m)
    ensures r.Returns? ==> Shaped(r.value.0) && r.value.0.tempIdx == m.tempIdx && r.value.1.1 <= 1
    decreases TEMP_PAGES - m.tempIdx, 0, 5
  {
    match EnsureTable(m, v)
    case Panics(e) => Panics(e)
    case Undefined(e) => Undefined(e)
    case Returns(m1) => MapEntry(m1, v, p, flags)
  }

  /** Lines 396-420, one entry whose directory slot has a table: the
      already-mapped check comes before the VMM_SKIP_MAPPED skip, and the
      physical address moves on by a page on every pass, skipped ones
      included. */
  function MapEntry(m1: Mmu, v: u32, p: u32, flags: u32): (r: Outcome<(Mmu, (u32, nat))>)
    requires Shaped(m1)
    ensures r.Returns? ==> Shaped(r.value.0) && r.value.0.tempIdx == m1.tempIdx && r.value.1.1 <= 1
    decreases TEMP_PAGES - m1.tempIdx, 0, 4
  {
    var present := Pte(m1, v) & PTE_PRESENT != 0;
    if flags & VMM_REMAP_OK == 0 && present then Panics("page already mapped")
    else if flags & VMM_SKIP_MAPPED != 0 && present then Returns((m1, (p + PAGE_SIZE, 0)))
    else Fill(m1, v, p, flags)
  }

  /** Lines 398-419: the entry gets p, or a fresh page from the free list
      without VMM_PHYS_REAL, and counts as written. */
  function Fill(m1: Mmu, v: u32, p: u32, flags: u32): (r: Outcome<(Mmu, (u32, nat))>)
    requires Shaped(m1)
    ensures r.Returns? ==> Shaped(r.value.0) && r.value.0.tempIdx == m1.tempIdx && r.value.1.1 == 1
    decreases TEMP_PAGES - m1.tempIdx, 0, 3
  {
    if flags & VMM_PHYS_REAL == 0 then
      match GetPage(m1)
      case Panics(e) => Panics(e)
      case Undefined(e) => Undefined(e)
      case Returns((m2, page)) => Returns((SetPte(m2, v, Entry(page, flags)), (page + PAGE_SIZE, 1)))
    else Returns((SetPte(m1, v, Entry(p, flags)), (p + PAGE_SIZE, 1)))
  }

  /** pmm_free_page (lines 221-236): the page is mapped at a borrowed
      temporary page, cleared, linked in front of the list with its size,
      and unmapped. */
  function FreePage(m: Mmu, p: u32): (r: Outcome<Mmu>)
    requires Shaped(m)
    ensures r.Returns? ==> Shaped(r.value) && r.value.tempIdx == m.tempIdx
  {
    match Borrow(m)
    case Panics(e) => Panics(e)
    case Undefined(e) => Undefined(e)
    case Returns((m1, node)) => FreePageAt(m1, node, p)
  }

  /** The rest of pmm_free_page once temporary page `node` is borrowed. */
  function FreePageAt(m1: Mmu, node: u32, p: u32): (r: Outcome<Mmu>)
    requires Shaped(m1) && 0 < m1.tempIdx
    ensures r.Returns? ==> Shaped(r.value) && r.value.tempIdx == m1.tempIdx - 1
  {
    match MapPages(m1, node, p, 1, TEMP_MAP_FLAGS)
    case Panics(e) => Panics(e)
    case Undefined(e) => Undefined(e)
    case Returns((m2, _)) => Release(Pushed(m2, p), node)
  }

  /** Lines 228-232, with page p mapped at the temporary page: the page is
      cleared, its header gets the old head and the page size, and it
      becomes the head; the count grows (a uint32, so it wraps). */
  function Pushed(m2: Mmu, p: u32): (r: Mmu)
    requires Shaped(m2)
    ensures Shaped(r)
  {
    m2.(phys := ClearPage(m2.phys, p)[PhysAddr(p) := m2.freeHead][PhysAddr(p + 4) := PAGE_SIZE],
        freeHead := p, freeCount := m2.freeCount + 1)
  }

  /** init_temp_vpages (lines 523-532): slot i holds the i-th page from
      `_kernel_temp_vpages_start`, in 32-bit arithmetic. */
  function TempPage(start: u32, i: nat): u32
  {
    if i == 0 then start else TempPage(start, i - 1) + PAGE_SIZE
  }

  /** When the area starts on a page boundary, so does every slot. */
  lemma {:induction false} TempPagesAligned(start: u32, i: nat)
    requires IsPageAligned(start)
    ensures IsPageAligned(TempPage(start, i))
  {
    if i > 0 {
      TempPagesAligned(start, i - 1);
      NextPageAligned(TempPage(start, i - 1));
    }
  }

  /** The next page after an aligned address is aligned, wrap-around
      included. */
  lemma NextPageAligned(a: u32)
    requires IsPageAligned(a)
    ensures IsPageAligned(a + PAGE_SIZE)
  {
  }

  /** Borrowing and returning at once leave the stack as it was: the page
      handed out is the one that goes back on top. */
  lemma BorrowThenReturn(m: Mmu)
    requires Shaped(m) && Borrow(m).Returns?
    ensures Return(Borrow(m).value.0, Borrow(m).value.1) == Returns(m)
  {
    var (m1, v) := Borrow(m).value;
    assert m1.temp[m.tempIdx := v] == m.temp;
  }

  /** The stack is last-in first-out: a page just returned is the next one
      borrowed, provided its directory slot is filled. */
  lemma ReturnThenBorrow(m: Mmu, v: u32)
    requires Shaped(m) && 0 < m.tempIdx && Pde(m.dir, v) != 0
    ensures Borrow(Return(m, v).value).Returns?
    ensures Borrow(Return(m, v).value).value.1 == v
  {
  }

  /** Borrowing panics exactly when all 16 pages are out, or when the page on
      top has no directory entry. */
  lemma BorrowPanics(m: Mmu)
    requires Shaped(m)
    ensures Borrow(m).Panics? <==>
            m.tempIdx == TEMP_PAGES || Pde(m.dir, m.temp[m.tempIdx]) == 0
  {
  }

  /** The page on top of the stack. */
  function Top(m: Mmu): u32
    requires Shaped(m) && m.tempIdx < TEMP_PAGES
  {
    m.temp[m.tempIdx]
  }

  /** The page on top of the stack can be mapped: it is page aligned, its
      directory slot has a page table, and its entry there is empty. */
  predicate TopReady(m: Mmu)
    requires Shaped(m)
  {
    m.tempIdx < TEMP_PAGES && IsPageAligned(Top(m))
    && HasTable(m.dir, Top(m)) && Pte(m, Top(m)) == 0
  }

  /** Physical page p is not the page table that maps the top temporary page
      (clearing p would otherwise wipe the mapping in use). */
  predicate ApartFromTop(m: Mmu, p: u32)
    requires Shaped(m) && m.tempIdx < TEMP_PAGES
  {
    PageBase(PteAddr(m.dir, Top(m))) != PageBase(p)
  }

  /** An aligned page has no flag bits, so an entry built from it keeps the
      flags given and never has the 4 MiB bit. */
  lemma AlignedEntry(p: u32, f: u32)
    requires IsPageAligned(p) && f & !PTE_ALL_FLAGS == 0 && f != 0
    ensures p | f != 0 && (p | f) & PTE_4M_PAGE == 0 && (p | f) & PAGE_MASK == p
  {
  }

  /** The second word of an aligned page is on the same page. */
  lemma SecondWord(p: u32)
    requires IsPageAligned(p)
    ensures PageBase(p + 4) == PageBase(p) && p + 4 != p && PageBase(p) == p
  {
  }

  /** Mapping one page at the top temporary page writes just its entry. */
  lemma MapTop(m1: Mmu, node: u32, p: u32)
    requires Shaped(m1) && IsPageAligned(node) && IsPageAligned(p)
    requires HasTable(m1.dir, node) && Pte(m1, node) == 0
    ensures MapPages(m1, node, p, 1, TEMP_MAP_FLAGS)
            == Returns((SetPte(m1, node, p | PTE_KDATA), 1))
  {
    assert TEMP_MAP_FLAGS & !VMM_MAP_VALID_FLAGS == 0 && TEMP_MAP_FLAGS & VMM_PHYS_REAL != 0;
    MapOneReal(m1, node, p, TEMP_MAP_FLAGS);
    assert Entry(p, TEMP_MAP_FLAGS) == p | PTE_KDATA;
  }

  /** Unmapping the top temporary page after it was mapped to an aligned
      page zeroes its entry. */
  lemma UnmapTop(m4: Mmu, node: u32, e: u32)
    requires Shaped(m4) && IsPageAligned(node) && HasTable(m4.dir, node)
    requires Pte(m4, node) == e && e != 0 && e & PTE_4M_PAGE == 0
    ensures Unmap(m4, node, 1) == Returns(SetPte(m4, node, 0))
  {
    assert Pde(m4.dir, node) != 0;
  }

  /** A temporary page mapped to an aligned page unmaps without a panic. */
  lemma UnmapMapped(m4: Mmu, node: u32, p: u32)
    requires Shaped(m4) && IsPageAligned(node) && HasTable(m4.dir, node) && IsPageAligned(p)
    requires Pte(m4, node) == p | PTE_KDATA
    ensures Unmap(m4, node, 1) == Returns(SetPte(m4, node, 0))
  {
    AlignedEntry(p, PTE_KDATA);
    UnmapTop(m4, node, p | PTE_KDATA);
  }

  /** Clearing page p and writing its header leave a word on another page
      alone. */
  lemma ClearKeepsOtherPage(phys: map<PhysAddr, u32>, p: u32, head: u32, pa: u32)
    requires IsPageAligned(p) && PageBase(pa) != PageBase(p)
    ensures Word(ClearPage(phys, p), pa) == Word(phys, pa)
    ensures Word(ClearPage(phys, p)[PhysAddr(p) := head][PhysAddr(p + 4) := PAGE_SIZE], pa) == Word(phys, pa)
  {
    SecondWord(p);
  }

  /** The state after the temporary page `node` is unmapped and given back. */
  function Released(m4: Mmu, node: u32): (r: Mmu)
    requires Shaped(m4) && 0 < m4.tempIdx
  {
    SetPte(m4, node, 0).(tempIdx := m4.tempIdx - 1, temp := m4.temp[m4.tempIdx - 1 := node])
  }

  /** Releasing a temporary page that maps an aligned page succeeds. */
  lemma ReleaseMapped(m4: Mmu, node: u32, p: u32)
    requires Shaped(m4) && 0 < m4.tempIdx && IsPageAligned(node) && HasTable(m4.dir, node) && IsPageAligned(p)
    requires Pte(m4, node) == p | PTE_KDATA
    ensures Release(m4, node) == Returns(Released(m4, node))
  {
    UnmapMapped(m4, node, p);
  }

  /** The state while page p is mapped at the top temporary page. */
  function MappedAtTop(m: Mmu, p: u32): (r: Mmu)
    requires Shaped(m) && m.tempIdx < TEMP_PAGES
    ensures Shaped(r)
  {
    SetPte(Borrowed(m), Top(m), p | PTE_KDATA)
  }

  /** Borrowing the top temporary page and mapping page p there. */
  lemma BorrowAndMap(m: Mmu, p: u32)
    requires Shaped(m) && TopReady(m) && IsPageAligned(p)
    ensures Borrow(m) == Returns((Borrowed(m), Top(m)))
    ensures MapPages(Borrowed(m), Top(m), p, 1, TEMP_MAP_FLAGS) == Returns((MappedAtTop(m, p), 1))
  {
    var m1 := Borrowed(m);
    assert m1.dir == m.dir && m1.phys == m.phys;
    assert Pde(m1.dir, Top(m)) != 0;
    MapTop(m1, Top(m), p);
  }

  /** While p is mapped at the top temporary page, its entry reads p's
      address with PTE_KDATA, before and after the page is cleared and
      written, since the entry lies on another page. */
  lemma MappedEntry(m: Mmu, p: u32)
    requires Shaped(m) && TopReady(m) && IsPageAligned(p) && ApartFromTop(m, p)
    ensures var m2 := MappedAtTop(m, p);
            Pte(m2, Top(m)) == p | PTE_KDATA && Pte(Popped(m2, p), Top(m)) == p | PTE_KDATA
            && Pte(Pushed(m2, p), Top(m)) == p | PTE_KDATA
  {
    var m2 := MappedAtTop(m, p);
    assert m2.dir == m.dir;
    ClearKeepsOtherPage(m2.phys, p, m2.freeHead, PteAddr(m.dir, Top(m)));
  }

  /** The steps of pmm_get_page when the top temporary page is ready. */
  lemma GetPageSteps(m: Mmu)
    requires Shaped(m) && TopReady(m)
    requires m.freeHead != NULL && IsPageAligned(m.freeHead) && ApartFromTop(m, m.freeHead)
    ensures GetPage(m) == Returns((Released(Popped(MappedAtTop(m, m.freeHead), m.freeHead), Top(m)), m.freeHead))
  {
    var p, node := m.freeHead, Top(m);
    BorrowAndMap(m, p);
    var m4 := Popped(MappedAtTop(m, p), p);
    assert Release(m4, node) == Returns(Released(m4, node)) by {
      MappedEntry(m, p);
      ReleaseMapped(m4, node, p);
    }
  }

  /** The steps of pmm_free_page when the top temporary page is ready. */
  lemma FreePageSteps(m: Mmu, p: u32)
    requires Shaped(m) && TopReady(m) && IsPageAligned(p) && ApartFromTop(m, p)
    ensures FreePage(m, p) == Returns(Released(Pushed(MappedAtTop(m, p), p), Top(m)))
  {
    var node := Top(m);
    BorrowAndMap(m, p);
    var m4 := Pushed(MappedAtTop(m, p), p);
    assert Release(m4, node) == Returns(Released(m4, node)) by {
      MappedEntry(m, p);
      ReleaseMapped(m4, node, p);
    }
  }

  /** Giving the borrowed top page back restores the stack. */
  lemma ReleasedStack(m: Mmu, m4: Mmu)
    requires Shaped(m) && m.tempIdx < TEMP_PAGES && Shaped(m4)
    requires m4.temp == Borrowed(m).temp && m4.tempIdx == m.tempIdx + 1 && m4.dir == m.dir
    ensures Released(m4, Top(m)).temp == m.temp && Released(m4, Top(m)).tempIdx == m.tempIdx
    ensures Released(m4, Top(m)).dir == m.dir
  {
    assert m.temp[m.tempIdx := 0][m.tempIdx := Top(m)] == m.temp;
  }

  /** The memory pmm_get_page leaves: the entry at `pa` set to the page,
      the page cleared, then the entry zeroed again. */
  function GetPageMemory(phys: map<PhysAddr, u32>, pa: u32, p: u32): map<PhysAddr, u32>
  {
    ClearPage(phys[PhysAddr(pa) := p | PTE_KDATA], p)[PhysAddr(pa) := 0]
  }

  /** What pmm_get_page leaves, field by field. */
  lemma GetPageState(m: Mmu)
    requires Shaped(m) && TopReady(m)
    requires m.freeHead != NULL && IsPageAligned(m.freeHead) && ApartFromTop(m, m.freeHead)
    ensures var p := m.freeHead;
            var m' := Released(Popped(MappedAtTop(m, p), p), Top(m));
            m'.temp == m.temp && m'.tempIdx == m.tempIdx && m'.dir == m.dir
            && m'.freeHead == Word(m.phys, p) && m'.freeCount == m.freeCount - 1
            && m'.phys == GetPageMemory(m.phys, PteAddr(m.dir, Top(m)), p)
  {
    var p := m.freeHead;
    var m2 := MappedAtTop(m, p);
    ReleasedStack(m, Popped(m2, p));
    assert Word(m2.phys, p) == Word(m.phys, p) by {
      WordUpdate(m.phys, PteAddr(m.dir, Top(m)), p | PTE_KDATA, p);
    }
  }

  /** Apart from page p, which reads as zeros, the memory pmm_get_page
      leaves is the memory it found, provided the entry at `pa` was empty and
      is not on page p. */
  lemma GetPageMemoryWord(phys: map<PhysAddr, u32>, pa: u32, p: u32, a: u32)
    requires PageBase(pa) != PageBase(p) && Word(phys, pa) == 0
    ensures Word(GetPageMemory(phys, pa, p), a) == if PageBase(a) == PageBase(p) then 0 else Word(phys, a)
  {
    GotWordAt(phys, pa, p, a);
  }

  /** GetPageMemory word by word, before the page arithmetic. */
  lemma GotWordAt(phys: map<PhysAddr, u32>, pa: u32, p: u32, a: u32)
    ensures Word(GetPageMemory(phys, pa, p), a)
            == if a == pa then 0 else if PageBase(a) == PageBase(p) then 0 else Word(phys, a)
  {
    var c := ClearPage(phys[PhysAddr(pa) := p | PTE_KDATA], p);
    WordUpdate(c, pa, 0, a);
    WordUpdate(phys, pa, p | PTE_KDATA, a);
  }

  /** pmm_get_page takes the head of the free list: it returns that page,
      the head moves to the page's first word, the count drops by one, the
      page comes back cleared, and the temporary page's mapping is undone,
      so no other word of memory changes. */
  lemma GetPagePops(m: Mmu)
    requires Shaped(m) && TopReady(m)
    requires m.freeHead != NULL && IsPageAligned(m.freeHead) && ApartFromTop(m, m.freeHead)
    ensures GetPage(m).Returns?
    ensures var (m', p) := GetPage(m).value;
            p == m.freeHead && m'.freeHead == Word(m.phys, p) && m'.freeCount == m.freeCount - 1
            && m'.temp == m.temp && m'.tempIdx == m.tempIdx && m'.dir == m.dir
            && forall a :: Word(m'.phys, a) == if PageBase(a) == PageBase(p) then 0 else Word(m.phys, a)
  {
    GetPageSteps(m);
    GetPageState(m);
    var p, pa := m.freeHead, PteAddr(m.dir, Top(m));
    forall a
      ensures Word(GetPageMemory(m.phys, pa, p), a) == if PageBase(a) == PageBase(p) then 0 else Word(m.phys, a)
    {
      GetPageMemoryWord(m.phys, pa, p, a);
    }
  }

  /** pmm_get_page with an empty free list: once a temporary page is
      borrowed it panics, and it never returns. */
  lemma GetPageEmptyPanics(m: Mmu)
    requires Shaped(m) && m.freeHead == NULL
    ensures !GetPage(m).Returns?
    ensures Borrow(m).Returns? ==> GetPage(m) == Panics("pmm_get_page: no free pages available.")
  {
    if Borrow(m).Returns? {
      assert Borrow(m).value.0.freeHead == NULL;
    }
  }

  /** A directory slot with no page table: with an empty free list the early
      ASSERT stops the kernel; otherwise the head of the free list becomes the
      table, entered as a PTE_KDATA entry, and every word of it reads as zero,
      so the new table maps nothing. Nothing else in the directory changes. */
  lemma EnsureTableInstalls(m: Mmu, v: u32)
    requires Shaped(m) && !HasTable(m.dir, v)
    ensures m.freeHead == NULL ==> EnsureTable(m, v) == Panics("ASSERT(gp_next_free_4k_page)")
    ensures m.freeHead != NULL && TopReady(m) && IsPageAligned(m.freeHead) && ApartFromTop(m, m.freeHead) ==>
      EnsureTable(m, v).Returns? &&
      var m' := EnsureTable(m, v).value;
      m'.dir == m.dir[PdeIndex(v) := m.freeHead | PTE_KDATA]
      && m'.freeHead == Word(m.phys, m.freeHead) && m'.freeCount == m.freeCount - 1
      && m'.temp == m.temp && m'.tempIdx == m.tempIdx
      && forall a :: PageBase(a) == PageBase(m.freeHead) ==> Word(m'.phys, a) == 0
  {
    if m.freeHead != NULL && TopReady(m) && IsPageAligned(m.freeHead) && ApartFromTop(m, m.freeHead) {
      GetPagePops(m);
    }
  }

  /** The memory pmm_free_page leaves: the entry at `pa` set to page p, the
      page cleared and given its header (next page, size), then the entry
      zeroed again. */
  function FreePageMemory(phys: map<PhysAddr, u32>, pa: u32, p: u32, head: u32): map<PhysAddr, u32>
  {
    ClearPage(phys[PhysAddr(pa) := p | PTE_KDATA], p)[PhysAddr(p) := head][PhysAddr(p + 4) := PAGE_SIZE][PhysAddr(pa) := 0]
  }

  /** What pmm_free_page leaves, field by field. */
  lemma FreePageState(m: Mmu, p: u32)
    requires Shaped(m) && TopReady(m) && IsPageAligned(p) && ApartFromTop(m, p)
    ensures var m' := Released(Pushed(MappedAtTop(m, p), p), Top(m));
            m'.temp == m.temp && m'.tempIdx == m.tempIdx && m'.dir == m.dir
            && m'.freeHead == p && m'.freeCount == m.freeCount + 1
  {
    ReleasedStack(m, Pushed(MappedAtTop(m, p), p));
  }

  /** The memory pmm_free_page leaves. */
  lemma FreePagePhys(m: Mmu, p: u32)
    requires Shaped(m) && TopReady(m) && IsPageAligned(p) && ApartFromTop(m, p)
    ensures Released(Pushed(MappedAtTop(m, p), p), Top(m)).phys
            == FreePageMemory(m.phys, PteAddr(m.dir, Top(m)), p, m.freeHead)
  {
    var m2 := MappedAtTop(m, p);
    assert m2.dir == m.dir && m2.freeHead == m.freeHead;
    assert m2.phys == m.phys[PhysAddr(PteAddr(m.dir, Top(m))) := p | PTE_KDATA];
  }

  /** Page p of the memory pmm_free_page leaves holds the old head and the
      page size in its first two words and zeros elsewhere; every other word
      is as it was, provided the entry at `pa` was empty and is not on page
      p. */
  lemma FreePageMemoryWord(phys: map<PhysAddr, u32>, pa: u32, p: u32, head: u32, a: u32)
    requires IsPageAligned(p) && PageBase(pa) != PageBase(p) && Word(phys, pa) == 0
    ensures Word(FreePageMemory(phys, pa, p, head), a)
            == if a == p then head else if a == p + 4 then PAGE_SIZE
               else if PageBase(a) == PageBase(p) then 0 else Word(phys, a)
  {
    SecondWord(p);
    FreedWordAt(phys, pa, p, head, a);
  }

  /** FreePageMemory word by word, before the page arithmetic. */
  lemma FreedWordAt(phys: map<PhysAddr, u32>, pa: u32, p: u32, head: u32, a: u32)
    ensures Word(FreePageMemory(phys, pa, p, head), a)
            == if a == pa then 0 else if a == p + 4 then PAGE_SIZE else if a == p then head
               else if PageBase(a) == PageBase(p) then 0 else Word(phys, a)
  {
    var c := ClearPage(phys[PhysAddr(pa) := p | PTE_KDATA], p);
    var c1 := c[PhysAddr(p) := head];
    var c2 := c1[PhysAddr(p + 4) := PAGE_SIZE];
    WordUpdate(c2, pa, 0, a);
    WordUpdate(c1, p + 4, PAGE_SIZE, a);
    WordUpdate(c, p, head, a);
    WordUpdate(phys, pa, p | PTE_KDATA, a);
  }

  /** Writing one word changes that word only. */
  lemma WordUpdate(phys: map<PhysAddr, u32>, k: u32, w: u32, a: u32)
    ensures Word(phys[PhysAddr(k) := w], a) == if a == k then w else Word(phys, a)
  {
  }

  /** pmm_free_page pushes page p on the free list: p becomes the head, the
      count grows by one, p's first word links to the old head and its
      second holds the page size, the rest of p is cleared, and no other word
      of memory changes. Nothing stops p from being NULL or already free. */
  lemma FreePagePushes(m: Mmu, p: u32)
    requires Shaped(m) && TopReady(m) && IsPageAligned(p) && ApartFromTop(m, p)
    ensures FreePage(m, p).Returns?
    ensures var m' := FreePage(m, p).value;
            m'.freeHead == p && m'.freeCount == m.freeCount + 1
            && m'.temp == m.temp && m'.tempIdx == m.tempIdx && m'.dir == m.dir
            && forall a :: Word(m'.phys, a) == if a == p then m.freeHead else if a == p + 4 then PAGE_SIZE
                                               else if PageBase(a) == PageBase(p) then 0 else Word(m.phys, a)
  {
    FreePageSteps(m, p);
    FreePageState(m, p);
    FreePagePhys(m, p);
    var pa := PteAddr(m.dir, Top(m));
    forall a
      ensures Word(FreePageMemory(m.phys, pa, p, m.freeHead), a)
              == if a == p then m.freeHead else if a == p + 4 then PAGE_SIZE
                 else if PageBase(a) == PageBase(p) then 0 else Word(m.phys, a)
    {
      FreePageMemoryWord(m.phys, pa, p, m.freeHead, a);
    }
  }

  /** After pmm_free_page(p) the top temporary page is ready again and p is
      the head, linked to the old head. */
  lemma FreeKeepsReady(m: Mmu, p: u32)
    requires Shaped(m) && TopReady(m) && IsPageAligned(p) && ApartFromTop(m, p)
    ensures FreePage(m, p).Returns?
    ensures var m1 := FreePage(m, p).value;
            Shaped(m1) && TopReady(m1) && ApartFromTop(m1, p) && m1.freeHead == p
            && Word(m1.phys, p) == m.freeHead && m1.freeCount == m.freeCount + 1
            && m1.temp == m.temp && m1.tempIdx == m.tempIdx && m1.dir == m.dir
  {
    FreePageSteps(m, p);
    FreePageState(m, p);
    FreePagePhys(m, p);
    var m1 := FreePage(m, p).value;
    var pa := PteAddr(m.dir, Top(m));
    assert Top(m1) == Top(m) && PteAddr(m1.dir, Top(m1)) == pa;
    assert Word(m1.phys, pa) == 0 by {
      FreePageMemoryWord(m.phys, pa, p, m.freeHead, pa);
      SecondWord(p);
    }
    assert Word(m1.phys, p) == m.freeHead by {
      FreePageMemoryWord(m.phys, pa, p, m.freeHead, p);
    }
  }

  /** Freeing a page and getting one back returns the same page: the list
      head and count are restored, the page comes back cleared, and every
      other word of memory is as it was. */
  lemma FreeThenGet(m: Mmu, p: u32)
    requires Shaped(m) && TopReady(m) && IsPageAligned(p) && p != NULL && ApartFromTop(m, p)
    ensures FreePage(m, p).Returns? && GetPage(FreePage(m, p).value).Returns?
    ensures var (m', q) := GetPage(FreePage(m, p).value).value;
            q == p && m'.freeHead == m.freeHead && m'.freeCount == m.freeCount
            && m'.temp == m.temp && m'.tempIdx == m.tempIdx && m'.dir == m.dir
            && forall a :: Word(m'.phys, a) == if PageBase(a) == PageBase(p) then 0 else Word(m.phys, a)
  {
    FreeKeepsReady(m, p);
    FreePagePushes(m, p);
    var m1 := FreePage(m, p).value;
    GetPagePops(m1);
    var m2 := GetPage(m1).value.0;
    forall a
      ensures Word(m2.phys, a) == if PageBase(a) == PageBase(p) then 0 else Word(m.phys, a)
    {
      if PageBase(a) != PageBase(p) {
        SecondWord(p);
      }
    }
  }

  /** vmm_map_pages checks its arguments before it touches anything: flags
      outside VMM_MAP_VALID_FLAGS, an unaligned virtual address, and an
      unaligned physical address under VMM_PHYS_REAL each panic. */
  lemma MapPagesRejects(m: Mmu, v: u32, p: u32, count: nat, flags: u32)
    requires Shaped(m)
    requires flags & !VMM_MAP_VALID_FLAGS != 0 || !IsPageAligned(v)
             || (flags & VMM_PHYS_REAL != 0 && !IsPageAligned(p))
    ensures MapPages(m, v, p, count, flags).Panics?
  {
  }

  /** Without VMM_REMAP_OK a present entry panics even when VMM_SKIP_MAPPED
      is set: the already-mapped check comes first. */
  lemma SkipNeedsRemapOk(m: Mmu, v: u32, p: u32, count: nat, flags: u32, result: nat)
    requires Shaped(m) && 0 < count && HasTable(m.dir, v) && Pte(m, v) & PTE_PRESENT != 0
    requires flags & VMM_REMAP_OK == 0
    ensures MapLoop(m, v, p, count, flags, result).Panics?
  {
    assert EnsureTable(m, v) == Returns(m);
    assert MapPass(m, v, p, flags).Panics?;
  }

  /** With VMM_REMAP_OK and VMM_SKIP_MAPPED a present entry is left alone and
      not counted, but the physical address still moves on by a page. */
  lemma SkipAdvancesPhysical(m: Mmu, v: u32, p: u32, count: nat, flags: u32, result: nat)
    requires Shaped(m) && 0 < count && HasTable(m.dir, v) && Pte(m, v) & PTE_PRESENT != 0
    requires flags & VMM_REMAP_OK != 0 && flags & VMM_SKIP_MAPPED != 0
    ensures MapLoop(m, v, p, count, flags, result) == MapLoop(m, v + PAGE_SIZE, p + PAGE_SIZE, count - 1, flags, result)
  {
    assert EnsureTable(m, v) == Returns(m);
    assert MapPass(m, v, p, flags) == Returns((m, (p + PAGE_SIZE, 0)));
  }

  /** Mapping one page under VMM_PHYS_REAL where a page table exists and the
      entry is not present writes the entry `p | (flags & 7)` and nothing
      else, and counts it. */
  lemma {:induction false} MapOneReal(m: Mmu, v: u32, p: u32, flags: u32)
    requires Shaped(m) && HasTable(m.dir, v) && Pte(m, v) & PTE_PRESENT == 0
    requires flags & !VMM_MAP_VALID_FLAGS == 0 && flags & VMM_PHYS_REAL != 0 && IsPageAligned(v) && IsPageAligned(p)
    ensures MapPages(m, v, p, 1, flags) == Returns((SetPte(m, v, Entry(p, flags)), 1))
  {
    assert EnsureTable(m, v) == Returns(m);
    var m2 := SetPte(m, v, Entry(p, flags));
    assert Fill(m, v, p, flags) == Returns((m2, (p + PAGE_SIZE, 1)));
    assert MapEntry(m, v, p, flags) == Returns((m2, (p + PAGE_SIZE, 1)));
    assert MapPass(m, v, p, flags) == Returns((m2, (p + PAGE_SIZE, 1)));
    MapLoopStep(m, v, p, 1, flags, 0, m2, p + PAGE_SIZE, 1);
    assert MapLoop(m2, v + PAGE_SIZE, p + PAGE_SIZE, 0, flags, 1) == Returns((m2, 1));
  }

  /** A pass of the map loop that returns hands the rest of the loop the
      new state, the next physical address and the grown count. */
  lemma MapLoopStep(m: Mmu, v: u32, p: u32, count: nat, flags: u32, result: nat, m2: Mmu, next: u32, added: nat)
    requires Shaped(m) && 0 < count && MapPass(m, v, p, flags) == Returns((m2, (next, added)))
    ensures MapLoop(m, v, p, count, flags, result) == MapLoop(m2, v + PAGE_SIZE, next, count - 1, flags, result + added)
  {
  }

  /** vmm_unmap_pages on one page panics exactly when the address is
      unaligned, its directory entry is empty, its entry is zero or it is a
      4 MiB page; otherwise it zeroes that entry. */
  lemma UnmapOne(m: Mmu, v: u32)
    requires Shaped(m)
    ensures Unmap(m, v, 1).Panics? <==>
            !IsPageAligned(v) || Pde(m.dir, v) == 0 || Pte(m, v) == 0 || Pte(m, v) & PTE_4M_PAGE != 0
    ensures Unmap(m, v, 1).Returns? ==> Unmap(m, v, 1).value == SetPte(m, v, 0)
  {
  }

  /** Mapping an empty entry and unmapping it again leaves every word of
      memory as it was. */
  lemma {:induction false} MapThenUnmap(m: Mmu, v: u32, p: u32, flags: u32)
    requires Shaped(m) && HasTable(m.dir, v) && Pte(m, v) == 0
    requires flags & !VMM_MAP_VALID_FLAGS == 0 && flags & VMM_PHYS_REAL != 0 && IsPageAligned(v) && IsPageAligned(p)
    requires Entry(p, flags) != 0
    ensures MapPages(m, v, p, 1, flags).Returns?
    ensures Unmap(MapPages(m, v, p, 1, flags).value.0, v, 1).Returns?
    ensures var m' := Unmap(MapPages(m, v, p, 1, flags).value.0, v, 1).value;
            m'.dir == m.dir && m'.temp == m.temp && m'.tempIdx == m.tempIdx
            && forall a :: Word(m'.phys, a) == Word(m.phys, a)
  {
    MapOneReal(m, v, p, flags);
    var e := Entry(p, flags);
    var m2 := SetPte(m, v, e);
    assert e & PTE_4M_PAGE == 0;
    assert Pte(m2, v) == e;
    assert HasTable(m2.dir, v);
    UnmapOne(m2, v);
  }
}
