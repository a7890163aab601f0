/** The globals of kernel/vmm/vmm.c as one object whose methods update them
    in place, each proved to do what the function of the same name in module
    Vmm says. `temp_vpages` and `gp_kernel_page_dir` are arrays written
    slot by slot; physical memory, the free-list head and its count are
    fields the methods reassign. A panic ends the method with the same
    reason as the function; the C kernel halts there, so nothing is promised
    about the state it leaves. */
module VmmObject {
  import opened Common
  import opened VmmLayout
  import opened Vmm

  /** The method's result and its new state are what the function gives. */
  predicate Follows<T(==)>(spec: Outcome<(Mmu, T)>, r: Outcome<T>, now: Mmu) {
    match spec
    case Returns((m', x)) => r == Returns(x) && now == m'
    case Panics(e) => r == Panics(e)
    case Undefined(e) => r == Undefined(e)
  }

  /** The panic or undefined behaviour of a callee, passed on. */
  function Fail<T, U>(o: Outcome<T>): Outcome<U>
    requires !o.Returns?
  {
    match o
    case Panics(e) => Panics(e)
    case Undefined(e) => Undefined(e)
  }

  /** Follows, for routines that return nothing. */
  predicate Completes(spec: Outcome<Mmu>, r: Outcome<()>, now: Mmu) {
    match spec
    case Returns(m') => r == Returns(()) && now == m'
    case Panics(e) => r == Panics(e)
    case Undefined(e) => r == Undefined(e)
  }

  class MemoryManager {
    const temp: array<u32>
    var tempIdx: int
    const dir: array<u32>
    var phys: map<PhysAddr, u32>
    var freeHead: u32
    var freeCount: u32

    /** The array sizes, and the stack index within them. */
    predicate Valid()
      reads this
    {
      temp.Length == TEMP_PAGES && dir.Length == 1024 && 0 <= tempIdx <= TEMP_PAGES
    }

    /** The state as the functions of module Vmm see it. */
    function State(): (m: Mmu)
      reads this, temp, dir
      requires Valid()
      ensures Shaped(m)
    {
      Mmu(temp[..], tempIdx, dir[..], phys, freeHead, freeCount)
    }

    /** A manager over the given page directory and memory, with an empty
        stack of temporary pages (filled by InitTempVpages). */
    constructor (directory: seq<u32>, memory: map<PhysAddr, u32>, head: u32, count: u32)
      requires |directory| == 1024
      ensures Valid() && fresh(temp) && fresh(dir)
      ensures State() == Mmu(seq(TEMP_PAGES, i => 0), 0, directory, memory, head, count)
    {
      temp := new u32[TEMP_PAGES](i => 0);
      dir := new u32[1024](i requires 0 <= i < 1024 => directory[i]);
      tempIdx := 0;
      phys := memory;
      freeHead := head;
      freeCount := count;
    }

    /** init_temp_vpages (lines 523-532): slot i gets the i-th page from
        `start`. */
    method InitTempVpages(start: u32)
      requires Valid()
      modifies temp
      ensures Valid()
      ensures forall i :: 0 <= i < TEMP_PAGES ==> temp[i] == TempPage(start, i)
    {
      var addr := start;
      for i := 0 to TEMP_PAGES
        invariant forall k :: 0 <= k < i ==> temp[k] == TempPage(start, k)
        invariant addr == TempPage(start, i)
      {
        temp[i] := addr;
        assert TempPage(start, i + 1) == addr + PAGE_SIZE;
        addr := addr + PAGE_SIZE;
      }
    }

    /** borrow_vpage (lines 39-71). */
    method Borrow() returns (r: Outcome<u32>)
      requires Valid()
      modifies this, temp
      ensures Valid() && Follows(Vmm.Borrow(old(State())), r, State())
    {
      if tempIdx >= TEMP_PAGES {
        return Panics("vmm: Exhausted temp_vpages.");
      }
      ghost var s := State();
      var ret := temp[tempIdx];
      temp[tempIdx] := 0;
      tempIdx := tempIdx + 1;
      assert State() == Borrowed(s);
      if dir[PdeIndex(ret)] == 0 {
        return Panics("borrow_vpage: Halt");
      }
      return Returns(ret);
    }

    /** return_vpage (lines 73-85). */
    method Return(v: u32) returns (r: Outcome<()>)
      requires Valid()
      modifies this, temp
      ensures Valid() && Completes(Vmm.Return(old(State()), v), r, State())
    {
      if tempIdx == 0 {
        return Panics("vmm: Attempt to return vpage when not acquired");
      }
      tempIdx := tempIdx - 1;
      temp[tempIdx] := v;
      return Returns(());
    }

    /** vmm_unmap_pages (lines 431-482). */
    method UnmapPages(v: u32, count: nat) returns (r: Outcome<()>)
      requires Valid()
      modifies this
      ensures Valid() && Completes(Unmap(old(State()), v, count), r, State())
    {
      if !IsPageAligned(v) {
        return Panics("unmap_pages: virtual address is not page aligned");
      }
      ghost var goal := UnmapLoop(State(), v, count);
      var x, n := v, count;
      while n > 0
        invariant Valid() && tempIdx == old(tempIdx)
        invariant UnmapLoop(State(), x, n) == goal
        decreases n
      {
        ghost var s0 := State();
        var e := UnmapEntry(x);
        if !e.Returns? {
          return e;
        }
        assert Vmm.UnmapEntry(s0, x) == Returns(State());
        x, n := x + PAGE_SIZE, n - 1;
      }
      return Returns(());
    }

    /** One pass of the loop of vmm_unmap_pages (lines 452-481). */
    method UnmapEntry(x: u32) returns (r: Outcome<()>)
      requires Valid()
      modifies this
      ensures Valid() && Completes(Vmm.UnmapEntry(old(State()), x), r, State())
    {
      var pte := PteAddr(dir[..], x);
      if dir[PdeIndex(x)] == 0 {
        return Panics("unmap_pages: page directory entry is not initialized");
      }
      if Word(phys, pte) == 0 {
        return Panics("unmap_pages: vaddr is not mapped");
      }
      if Word(phys, pte) & PTE_4M_PAGE != 0 {
        return Panics("unmap_pages: vaddr is a 4M page");
      }
      ghost var s := State();
      phys := phys[PhysAddr(pte) := 0];
      assert State() == SetPte(s, x, 0);
      return Returns(());
    }

    /** The last two calls of pmm_get_page and pmm_free_page. */
    method Release(node: u32) returns (r: Outcome<()>)
      requires Valid()
      modifies this, temp
      ensures Valid() && Completes(Vmm.Release(old(State()), node), r, State())
    {
      r := UnmapPages(node, 1);
      if r.Returns? {
        r := Return(node);
      }
    }

    /** pmm_get_page (lines 196-219). */
    method GetPage() returns (r: Outcome<u32>)
      requires Valid()
      modifies this, temp, dir
      ensures Valid() && Follows(Vmm.GetPage(old(State())), r, State())
      decreases TEMP_PAGES - tempIdx, 0, 1
    {
      var b := Borrow();
      if !b.Returns? {
        return Fail(b);
      }
      r := GetPageAt(b.value);
    }

    /** The rest of pmm_get_page once temporary page `node` is borrowed. */
    method GetPageAt(node: u32) returns (r: Outcome<u32>)
      requires Valid() && 0 < tempIdx
      modifies this, temp, dir
      ensures Valid() && Follows(Vmm.GetPageAt(old(State()), node), r, State())
      decreases TEMP_PAGES - tempIdx + 1, 0, 0
    {
      if freeHead == NULL {
        return Panics("pmm_get_page: no free pages available.");
      }
      var ret := freeHead;
      var mapped := MapPages(node, ret, 1, TEMP_MAP_FLAGS);
      if !mapped.Returns? {
        return Fail(mapped);
      }
      var released := Pop(ret, node);
      if !released.Returns? {
        return Fail(released);
      }
      return Returns(ret);
    }

    /** Lines 208-213 of pmm_get_page: with page ret mapped at `node`, the
        head moves to ret's link, the count drops, the page is cleared and
        `node` released. */
    method Pop(ret: u32, node: u32) returns (r: Outcome<()>)
      requires Valid()
      modifies this, temp
      ensures Valid() && Completes(Vmm.Release(Popped(old(State()), ret), node), r, State())
    {
      ghost var s := State();
      freeHead, freeCount := Word(phys, ret), freeCount - 1;
      phys := ClearPage(phys, ret);
      assert State() == Popped(s, ret);
      r := Release(node);
    }

    /** pmm_free_page (lines 221-236). */
    method FreePage(p: u32) returns (r: Outcome<()>)
      requires Valid()
      modifies this, temp, dir
      ensures Valid() && Completes(Vmm.FreePage(old(State()), p), r, State())
    {
      var b := Borrow();
      if !b.Returns? {
        return Fail(b);
      }
      var node := b.value;
      var mapped := MapPages(node, p, 1, TEMP_MAP_FLAGS);
      if !mapped.Returns? {
        return Fail(mapped);
      }
      r := Push(p, node);
    }

    /** Lines 228-234 of pmm_free_page: with page p mapped at `node`, it is
        cleared, linked in front with its size, and `node` released. */
    method Push(p: u32, node: u32) returns (r: Outcome<()>)
      requires Valid()
      modifies this, temp
      ensures Valid() && Completes(Vmm.Release(Pushed(old(State()), p), node), r, State())
    {
      ghost var s := State();
      phys := ClearPage(phys, p)[PhysAddr(p) := freeHead][PhysAddr(p + 4) := PAGE_SIZE];
      freeHead, freeCount := p, freeCount + 1;
      assert State() == Pushed(s, p);
      r := Release(node);
    }

    /** Lines 380-394 of vmm_map_pages: give directory slot of v a page
        table if it has none. */
    method EnsureTable(v: u32) returns (r: Outcome<()>)
      requires Valid()
      modifies this, temp, dir
      ensures Valid() && Completes(Vmm.EnsureTable(old(State()), v), r, State())
      decreases TEMP_PAGES - tempIdx, 0, 2
    {
      var pde := PdeIndex(v);
      if dir[pde] & PAGE_MASK != 0 {
        return Returns(());
      }
      if freeHead == NULL {
        return Panics("ASSERT(gp_next_free_4k_page)");
      }
      var table := GetPage();
      if !table.Returns? {
        return Fail(table);
      }
      dir[pde] := table.value | PTE_KDATA;
      return Returns(());
    }

    /** vmm_map_pages (lines 340-429): the number of entries written. */
    method MapPages(v: u32, p: u32, count: nat, flags: u32) returns (r: Outcome<nat>)
      requires Valid()
      modifies this, temp, dir
      ensures Valid() && Follows(Vmm.MapPages(old(State()), v, p, count, flags), r, State())
      decreases TEMP_PAGES - tempIdx, 2, 0
    {
      if flags & !VMM_MAP_VALID_FLAGS != 0 {
        return Panics("illegal flags");
      }
      if !IsPageAligned(v) {
        return Panics("virtual address is not page aligned");
      }
      if flags & VMM_PHYS_REAL != 0 && !IsPageAligned(p) {
        return Panics("physical address is not page aligned");
      }
      r := MapAll(v, p, count, flags);
    }

    /** The loop of vmm_map_pages (lines 373-426): the number of entries
        written. */
    method MapAll(v: u32, p: u32, count: nat, flags: u32) returns (r: Outcome<nat>)
      requires Valid()
      modifies this, temp, dir
      ensures Valid() && Follows(MapLoop(old(State()), v, p, count, flags, 0), r, State())
      decreases TEMP_PAGES - tempIdx, 1, 0
    {
      ghost var goal := MapLoop(State(), v, p, count, flags, 0);
      var x, y, n := v, p, count;
      var result: nat := 0;
      while n > 0
        invariant Valid() && tempIdx == old(tempIdx)
        invariant MapLoop(State(), x, y, n, flags, result) == goal
        decreases n
      {
        ghost var s0 := State();
        var step := MapPass(x, y, flags);
        if !step.Returns? {
          return Fail(step);
        }
        MapLoopStep(s0, x, y, n, flags, result, State(), step.value.0, step.value.1);
        x, y, n, result := x + PAGE_SIZE, step.value.0, n - 1, result + step.value.1;
      }
      return Returns(result);
    }

    /** One pass of the loop: a table for x's directory slot, then the
        entry. */
    method MapPass(x: u32, y: u32, flags: u32) returns (r: Outcome<(u32, nat)>)
      requires Valid()
      modifies this, temp, dir
      ensures Valid() && Follows(Vmm.MapPass(old(State()), x, y, flags), r, State())
      decreases TEMP_PAGES - tempIdx, 0, 5
    {
      ghost var s0 := State();
      var e := EnsureTable(x);
      if !e.Returns? {
        return Fail(e);
      }
      assert Vmm.EnsureTable(s0, x) == Returns(State());
      r := MapEntry(x, y, flags);
    }

    /** Lines 396-420 of vmm_map_pages: one entry whose directory slot has a
        table. */
    method MapEntry(x: u32, y: u32, flags: u32) returns (r: Outcome<(u32, nat)>)
      requires Valid()
      modifies this, temp, dir
      ensures Valid() && Follows(Vmm.MapEntry(old(State()), x, y, flags), r, State())
      decreases TEMP_PAGES - tempIdx, 0, 4
    {
      var present := Word(phys, PteAddr(dir[..], x)) & PTE_PRESENT != 0;
      if flags & VMM_REMAP_OK == 0 && present {
        return Panics("page already mapped");
      }
      if flags & VMM_SKIP_MAPPED != 0 && present {
        return Returns((y + PAGE_SIZE, 0));
      }
      r := Fill(x, y, flags);
    }

    /** Lines 398-419 of vmm_map_pages: the entry gets y, or a fresh page
        without VMM_PHYS_REAL. */
    method Fill(x: u32, y: u32, flags: u32) returns (r: Outcome<(u32, nat)>)
      requires Valid()
      modifies this, temp, dir
      ensures Valid() && Follows(Vmm.Fill(old(State()), x, y, flags), r, State())
      decreases TEMP_PAGES - tempIdx, 0, 3
    {
      var page := y;
      if flags & VMM_PHYS_REAL == 0 {
        var got := GetPage();
        if !got.Returns? {
          return Fail(got);
        }
        page := got.value;
      }
      ghost var s2 := State();
      phys := phys[PhysAddr(PteAddr(dir[..], x)) := Entry(page, flags)];
      assert State() == SetPte(s2, x, Entry(page, flags));
      return Returns((page + PAGE_SIZE, 1));
    }
  }
}
