// The kernel heap of kernel/vmm/heap.c as the object its functions update
// in place: the two list heads, the block headers and the guard words.
// Each method walks the lists through `next` as the C loops do and is
// proved against the function of module KernelHeap that models it; the
// ghost sequences name the lists the walks follow.

module HeapObject {
  import opened Common
  import opened KernelHeap
  import opened HeapMalloc
  import opened HeapFree

  /** What kmalloc and heap_merge hand back: the block, or how they stopped. */
  function PointerOf(o: Outcome<(Image, int)>): (r: Outcome<int>)
    ensures r.Returns? <==> o.Returns?
    ensures o.Returns? ==> r.value == o.value.1
  {
    match o
    case Returns((_, p)) => Returns(p)
    case Panics(e) => Panics(e)
    case Undefined(e) => Undefined(e)
  }

  /** What kfree hands back: nothing, or how it stopped. */
  function Completion(o: Outcome<Image>): (r: Outcome<()>)
    ensures r.Returns? <==> o.Returns?
  {
    match o
    case Returns(_) => Returns(())
    case Panics(e) => Panics(e)
    case Undefined(e) => Undefined(e)
  }

  /** Following `next` from head visits s and then stops: at NULL, or at a
      block that points at itself. */
  ghost predicate Walk(m: map<int, Block>, head: int, s: seq<int>) {
    && (forall k :: 0 <= k < |s| ==> s[k] != NULL && s[k] in m)
    && (forall k :: 0 <= k < |s| - 1 ==> m[s[k]].next == s[k + 1])
    && (if s == [] then head == NULL
        else head == s[0] && (m[s[|s| - 1]].next == NULL || m[s[|s| - 1]].next == s[|s| - 1]))
  }

  /** No block of the alloc list is a free block or lies inside one. */
  ghost predicate Apart(m: map<int, Block>, fs: seq<int>, al: seq<int>) {
    forall x, y :: x in fs && y in al ==> y != x && !(x < y < x + Hdr(m, x).size)
  }

  /** The heap heap_init (lines 510-537) leaves: one free block at start
      whose header is zero but for its size, bytes - 32 as a uint32. */
  function InitImage(start: int, end: int): Image {
    Image(map[start := Block(U32(U32(end - start) - HEADER), NULL, NULL, 0)], map[], start, NULL)
  }

  /** A list that ends at NULL holds no block that points at itself, so
      heap_count_nodes counts it without a panic. */
  lemma {:induction false} ChainHasNoLoop(m: map<int, Block>, head: int, s: seq<int>, k: nat)
    requires Chain(m, head, s) && k < |s|
    ensures m[s[k]].next != s[k]
    decreases |s| - k
  {
    if k + 1 < |s| {
      ChainHasNoLoop(m, head, s, k + 1);
    }
  }

  /** test_heap's first assertions (lines 485-488) hold on the heap
      heap_init leaves: the alloc list is empty and the free list is the
      one block at start. */
  lemma InitLists(start: int, end: int)
    requires start != NULL
    ensures Chain(InitImage(start, end).blocks, InitImage(start, end).allocList, [])
    ensures Chain(InitImage(start, end).blocks, InitImage(start, end).freeList, [start])
    ensures Walk(InitImage(start, end).blocks, InitImage(start, end).freeList, [start])
  {
  }

  /** Taking the free block b leaves every alloc list apart from the free
      list in place. */
  lemma TakenKeepsAlloc(m0: map<int, Block>, m2: map<int, Block>, head: int, fs: seq<int>, al: seq<int>, b: int, total: int)
    requires Chain(m0, head, al) && Apart(m0, fs, al) && b in fs && b in m0 && total >= 0
    requires m2 == Split(m0, b, total)[b := Split(m0, b, total)[b].(guard := GUARD_MAGIC)]
    ensures Chain(m2, head, al)
  {
    TakeKeeps(m0, b, total, m2);
    forall k | 0 <= k < |al|
      ensures al[k] in m2 && m2[al[k]].next == m0[al[k]].next
    {
      assert al[k] in al;
    }
    ChainFrame(m0, m2, head, al);
  }

  /** The block found for the request is split and guarded; when it was the
      head and the new head is not a heap pointer ASSERT_HEAP panics, and
      otherwise the block is put on the alloc list and the pointer past its
      header is returned. */
  lemma MallocFound(h: Image, bytes: int, flags: bv32, start: int, end: int, fs: seq<int>, al: seq<int>, b: int)
    returns (h2: Image)
    requires 0 <= bytes < TWO32 && fs != [] && b == fs[FirstFit(h.blocks, fs, TotalBytes(bytes), 0)] && b % GRANULARITY == 0
    ensures var m1 := Split(h.blocks, b, TotalBytes(bytes));
      h2 == Guard(h.(blocks := m1, freeList := if h.freeList == b then Hdr(m1, b).next else h.freeList), b)
    ensures Malloc(h, bytes, flags, start, end, fs, al) ==
      if h.freeList == b && !InHeap(h2.freeList, start, end) then Panics("ASSERT_HEAP(free_list)")
      else Returns((AllocInsert(h2, b, al), b + HEADER))
  {
    var m1 := Split(h.blocks, b, TotalBytes(bytes));
    h2 := Guard(h.(blocks := m1, freeList := if h.freeList == b then Hdr(m1, b).next else h.freeList), b);
  }

  /** A pointer that passes the checks of lines 262-292 goes on to the
      poisoning and the release. */
  lemma FreeChecked(h: Image, ptr: int, start: int, end: int, fs: seq<int>, al: seq<int>)
    requires Accepted(h, ptr, start, end) && h.blocks[ptr - HEADER].size >= HEADER
    ensures Free(h, ptr, start, end, fs, al) == Release(Poison(h, ptr - HEADER), ptr - HEADER, fs, al)
  {
  }

  class Heap {
    var blocks: map<int, Block>
    var words: map<int, int>
    var freeList: int
    var allocList: int
    const start: int
    const end: int

    /** The heap as the functions of KernelHeap see it. */
    function State(): Image
      reads this
    {
      Image(blocks, words, freeList, allocList)
    }

    /** heap_init (lines 510-537) on the range [start, end]. The
        vmm_map_pages call and the tests it runs are not part of it here. */
    constructor Init(heapStart: int, heapEnd: int)
      ensures start == heapStart && end == heapEnd
      ensures State() == InitImage(heapStart, heapEnd)
    {
      start, end := heapStart, heapEnd;
      var heapBytes := U32(heapEnd - heapStart);
      freeList := heapStart;
      allocList := NULL;
      blocks := map[heapStart := Block(0, NULL, NULL, 0)];
      words := map[];
      new;
      blocks := blocks[heapStart := blocks[heapStart].(size := U32(heapBytes - HEADER))];
      blocks := blocks[heapStart := blocks[heapStart].(next := NULL)];
    }

    /** heap_count_nodes (lines 376-388): the length of the list, or a
        panic at the first block that points at itself. */
    method CountNodes(list: int, ghost s: seq<int>) returns (r: Outcome<int>)
      requires Walk(blocks, list, s)
      ensures r.Returns? <==> forall k :: 0 <= k < |s| ==> blocks[s[k]].next != s[k]
      ensures r.Returns? ==> r.value == |s|
      ensures !r.Returns? ==> r.Panics?
    {
      var cur := list;
      var count := 0;
      while cur != NULL
        invariant 0 <= count <= |s| && cur == Elem(s, count)
        invariant forall k :: 0 <= k < count ==> blocks[s[k]].next != s[k]
        decreases |s| - count
      {
        if cur == blocks[cur].next {
          return Panics("circular heap list");
        }
        cur := blocks[cur].next;
        count := count + 1;
      }
      r := Returns(count);
    }

    /** The first-fit walk of lines 89-92 over the free list fs. */
    method FindFit(total: int, ghost fs: seq<int>) returns (b: int)
      requires Chain(blocks, freeList, fs) && fs != []
      ensures b == fs[FirstFit(blocks, fs, total, 0)]
    {
      b := freeList;
      ghost var k := 0;
      while blocks[b].next != NULL && total > blocks[b].size
        invariant k < |fs| && b == fs[k]
        invariant FirstFit(blocks, fs, total, k) == FirstFit(blocks, fs, total, 0)
        decreases |fs| - k
      {
        b := blocks[b].next;
        k := k + 1;
      }
    }

    /** The alloc-list walk of lines 168-174 for block b. */
    method FindAllocSlot(b: int, ghost al: seq<int>) returns (node: int)
      requires Chain(blocks, allocList, al) && al != []
      ensures node == al[AllocSlot(al, b, 0)]
    {
      node := allocList;
      ghost var k := 0;
      while blocks[node].next != NULL
        invariant k < |al| && node == al[k]
        invariant AllocSlot(al, b, k) == AllocSlot(al, b, 0)
        decreases |al| - k
      {
        if node < b && blocks[node].next > b {
          break;
        }
        node := blocks[node].next;
        k := k + 1;
      }
    }

    /** The search of line 305 for hdr on the alloc list al. */
    method FindInAlloc(hdr: int, ghost al: seq<int>) returns (tmp: int)
      requires Chain(blocks, allocList, al)
      ensures tmp == Elem(al, IndexOf(al, hdr, 0))
    {
      tmp := allocList;
      ghost var k := 0;
      while tmp != NULL && tmp != hdr
        invariant k <= |al| && tmp == Elem(al, k)
        invariant IndexOf(al, hdr, k) == IndexOf(al, hdr, 0)
        decreases |al| - k
      {
        tmp := blocks[tmp].next;
        k := k + 1;
      }
    }

    /** The free-list walk of lines 343-358 for hdr. */
    method FindFreeSlot(hdr: int, ghost fs: seq<int>) returns (tmp: int)
      requires Chain(blocks, freeList, fs)
      ensures tmp == Elem(fs, FreeSlot(fs, hdr, 0))
    {
      tmp := freeList;
      ghost var k := 0;
      while tmp != NULL
        invariant k <= |fs| && tmp == Elem(fs, k)
        invariant FreeSlot(fs, hdr, k) == FreeSlot(fs, hdr, 0)
        decreases |fs| - k
      {
        assert blocks[tmp].next == Elem(fs, k + 1);
        if tmp < hdr && (blocks[tmp].next > hdr || blocks[tmp].next == NULL) {
          break;
        }
        tmp := blocks[tmp].next;
        k := k + 1;
      }
    }

    /** heap_merge (lines 213-241). */
    method HeapMerge(a: int, b: int) returns (r: Outcome<int>)
      modifies this`blocks
      ensures r == PointerOf(Merge(old(State()), a, b))
      ensures r.Returns? ==> State() == Merge(old(State()), a, b).value.0
    {
      if a == NULL || b == NULL || !(a < b) {
        return Panics("ASSERT(a < b)");
      }
      if Hdr(blocks, a).next == b && Hdr(blocks, b).prev == a && a + Hdr(blocks, a).size == b {
        var bn := Hdr(blocks, b).next;
        blocks := blocks[a := Hdr(blocks, a).(size := Hdr(blocks, a).size + Hdr(blocks, b).size, next := bn)];
        if bn != NULL {
          blocks := blocks[bn := Hdr(blocks, bn).(prev := a)];
        }
        r := Returns(a);
      } else {
        r := Returns(b);
      }
    }
  
    /** Lines 114-154 on the block b found for total bytes: the split, the
        move of the free-list head with its ASSERT_HEAP, and the guards. */
    method TakeBlock(b: int, total: int) returns (r: Outcome<()>)
      modifies this`blocks, this`words, this`freeList
      ensures var m1 := Split(old(blocks), b, total);
        r.Returns? <==> old(freeList) != b || InHeap(Hdr(m1, b).next, start, end)
      ensures !r.Returns? ==> r == Panics("ASSERT_HEAP(free_list)")
      ensures var m1 := Split(old(blocks), b, total);
        r.Returns? ==>
          State() == Guard(old(State()).(blocks := m1, freeList := if old(freeList) == b then Hdr(m1, b).next else old(freeList)), b)
    {
      ghost var m1 := Split(blocks, b, total);
      var blk := Hdr(blocks, b);
      if blk.size > total && blk.size - total > MIN_BLOCK_SIZE {
        blocks := blocks[b + total := Block(blk.size - total, blk.next, blk.prev, GUARD_MAGIC)];
        blocks := blocks[b := Hdr(blocks, b).(next := b + total, size := total)];
      }
      assert blocks == m1;
      if freeList == b {
        freeList := Hdr(blocks, b).next;
        if !InHeap(freeList, start, end) {
          return Panics("ASSERT_HEAP(free_list)");
        }
      }
      WriteRearGuard(b + Hdr(blocks, b).size - 8);
      blocks := blocks[b := Hdr(blocks, b).(guard := GUARD_MAGIC)];
      r := Returns(());
    }

    /** The loop of line 153: the two rear guard words from rear on. */
    method WriteRearGuard(rear: int)
      modifies this`words
      ensures words == old(words)[rear := GUARD_MAGIC][rear + 4 := GUARD_MAGIC]
    {
      var i, p := GRANULARITY, rear;
      while i != 0
        invariant i == 8 || i == 4 || i == 0
        invariant p == rear + 8 - i
        invariant words == if i == 8 then old(words) else if i == 4 then old(words)[rear := GUARD_MAGIC]
          else old(words)[rear := GUARD_MAGIC][rear + 4 := GUARD_MAGIC]
      {
        words := words[p := GUARD_MAGIC];
        p, i := p + 4, i - 4;
      }
    }

    /** Lines 157-192: b joins the alloc list al. */
    method LinkAlloc(b: int, ghost al: seq<int>) returns (r: Outcome<()>)
      requires Chain(blocks, allocList, al)
      modifies this`blocks, this`allocList
      ensures r.Returns? && State() == AllocInsert(old(State()), b, al)
    {
      if allocList == NULL {
        blocks := SetLinks(blocks, b, NULL, NULL);
        allocList := b;
      } else {
        var node := FindAllocSlot(b, al);
        blocks := SetLinks(blocks, b, Hdr(blocks, node).next, node);
        blocks := SetNext(blocks, node, b);
        blocks := SetPrevIfAny(blocks, Hdr(blocks, b).next, b);
      }
      r := Returns(());
    }

    /** __kmalloc (lines 65-209) on a heap whose lists are fs and al. */
    method KMalloc(bytes: int, flags: bv32, ghost fs: seq<int>, ghost al: seq<int>) returns (r: Outcome<int>)
      requires 0 <= bytes < TWO32
      requires Chain(blocks, freeList, fs) && Chain(blocks, allocList, al) && Apart(blocks, fs, al)
      modifies this`blocks, this`words, this`freeList, this`allocList
      ensures r == PointerOf(Malloc(old(State()), bytes, flags, start, end, fs, al))
      ensures r.Returns? ==> State() == Malloc(old(State()), bytes, flags, start, end, fs, al).value.0
    {
      var total := TotalBytes(bytes);
      if freeList == NULL {
        if flags & HEAP_FAILOK != 0 {
          return Returns(NULL);
        }
        return Panics("heap: malloc failed");
      }
      var b := FindFit(total, fs);
      if b % GRANULARITY != 0 {
        return Panics("ASSERT((uint32)block % HEAP_ALLOC_GRANULARITY == 0)");
      }
      ghost var h0 := State();
      ghost var h2 := MallocFound(h0, bytes, flags, start, end, fs, al, b);
      SizingBounds(bytes);
      var taken := TakeBlock(b, total);
      if !taken.Returns? {
        return Panics("ASSERT_HEAP(free_list)");
      }
      assert State() == h2;
      TakenKeepsAlloc(h0.blocks, blocks, allocList, fs, al, b, total);
      var _ := LinkAlloc(b, al);
      r := Returns(b + HEADER);
    }

    /** The loop of lines 281-289 over the two rear guard words. */
    method CheckRearGuard(rear: int) returns (r: Outcome<()>)
      ensures r == RearGuardCheck(words, rear)
    {
      var i, p := GRANULARITY, rear;
      while i != 0
        invariant i == 8 || i == 4 || i == 0
        invariant p == rear + 8 - i
        invariant i <= 4 ==> rear in words && words[rear] == GUARD_MAGIC
        invariant i == 0 ==> rear + 4 in words && words[rear + 4] == GUARD_MAGIC
      {
        if p !in words {
          return Undefined("kfree: reads a rear guard never written");
        }
        if words[p] != GUARD_MAGIC {
          return Panics("kfree: user-chunk was over-run");
        }
        p, i := p + 4, i - 4;
      }
      r := Returns(());
    }

    /** Line 302: memset(ptr, 0xce, size - 32) over the user bytes, which
        end with the rear guard words. */
    method PoisonUser(hdr: int)
      modifies this`words
      ensures State() == Poison(old(State()), hdr)
    {
      var e := hdr + Hdr(blocks, hdr).size;
      if hdr + HEADER <= e - 8 {
        words := words[e - 8 := POISON];
      }
      if hdr + HEADER <= e - 4 {
        words := words[e - 4 := POISON];
      }
    }

    /** Lines 305-321: hdr leaves the alloc list al. */
    method UnlinkAlloc(hdr: int, ghost al: seq<int>) returns (r: Outcome<()>)
      requires Chain(blocks, allocList, al)
      modifies this`blocks, this`allocList
      ensures r == Completion(Unlink(old(State()), hdr, al))
      ensures r.Returns? ==> State() == Unlink(old(State()), hdr, al).value
    {
      var tmp := FindInAlloc(hdr, al);
      if allocList == tmp {
        if tmp == NULL {
          return Undefined("kfree: tmp->next with tmp == NULL");
        }
        allocList := Hdr(blocks, tmp).next;
      } else {
        if tmp == NULL {
          return Undefined("kfree: tmp->prev with tmp == NULL");
        }
        var blk := Hdr(blocks, tmp);
        if blk.prev == NULL {
          return Panics("ASSERT(tmp->prev)");
        }
        blocks := SetNext(blocks, blk.prev, blk.next);
        blocks := SetPrevIfAny(blocks, blk.next, blk.prev);
      }
      r := Returns(());
    }

    /** Lines 325-359: hdr goes into the free list fs in address order. */
    method InsertFree(hdr: int, ghost fs: seq<int>)
      requires Chain(blocks, freeList, fs)
      modifies this`blocks, this`freeList
      ensures State() == Insert(old(State()), hdr, fs)
    {
      if hdr < freeList || freeList == NULL {
        blocks := SetLinks(blocks, hdr, freeList, NULL);
        freeList := hdr;
        blocks := SetPrevIfAny(blocks, Hdr(blocks, hdr).next, hdr);
      } else {
        var tmp := FindFreeSlot(hdr, fs);
        if tmp != NULL {
          blocks := SetLinks(blocks, hdr, Hdr(blocks, tmp).next, tmp);
          blocks := SetPrevIfAny(blocks, Hdr(blocks, tmp).next, hdr);
          blocks := SetNext(blocks, tmp, hdr);
        }
      }
    }

    /** Lines 362-370: merge with the previous block, then with the next. */
    method CoalesceAt(hdr: int) returns (r: Outcome<()>)
      modifies this`blocks
      ensures r == Completion(Coalesce(old(State()), hdr))
      ensures r.Returns? ==> State() == Coalesce(old(State()), hdr).value
    {
      var x := hdr;
      var p := Hdr(blocks, hdr).prev;
      if p != NULL {
        var m := HeapMerge(p, hdr);
        if !m.Returns? {
          return if m.Panics? then Panics(m.reason) else Undefined(m.reason);
        }
        x := m.value;
      }
      ghost var h1 := State();
      var n := Hdr(blocks, x).next;
      if n != NULL {
        var m := HeapMerge(x, n);
        if !m.Returns? {
          return if m.Panics? then Panics(m.reason) else Undefined(m.reason);
        }
      }
      r := Returns(());
    }

    /** The sanity checks of lines 262-292 and 302: a pointer that fails one
        stops kfree as Free says; one that passes them all is Accepted. */
    method FreeChecks(ptr: int, ghost fs: seq<int>, ghost al: seq<int>) returns (r: Outcome<()>)
      ensures r.Returns? <==> Accepted(State(), ptr, start, end) && blocks[ptr - HEADER].size >= HEADER
      ensures !r.Returns? ==> r == Completion(Free(State(), ptr, start, end, fs, al))
    {
      if ptr < start || ptr > end {
        return Panics("kfree: not in valid heap range");
      }
      if ptr % GRANULARITY != 0 {
        return Panics("kfree: not properly aligned");
      }
      var hdr := ptr - HEADER;
      if hdr < start {
        return Panics("kfree: block header not on heap");
      }
      if hdr !in blocks {
        return Undefined("kfree: reads a header no block ever had");
      }
      if blocks[hdr].guard != GUARD_MAGIC {
        return Panics("kfree: block header corrupt");
      }
      r := CheckRearGuard(hdr + blocks[hdr].size - 8);
      if r.Returns? && blocks[hdr].size < HEADER {
        r := Undefined("kfree: memset of size - sizeof(block_t) bytes wraps");
      }
    }

    /** __kfree (lines 247-375) on a heap whose lists are fs and al. */
    method KFree(ptr: int, ghost fs: seq<int>, ghost al: seq<int>) returns (r: Outcome<()>)
      requires Chain(blocks, freeList, fs) && Chain(blocks, allocList, al) && AllocLinked(blocks, al)
      requires forall k :: 0 <= k < |al| ==> al[k] !in fs
      modifies this`blocks, this`words, this`freeList, this`allocList
      ensures r == Completion(Free(old(State()), ptr, start, end, fs, al))
      ensures r.Returns? ==> State() == Free(old(State()), ptr, start, end, fs, al).value
    {
      r := FreeChecks(ptr, fs, al);
      if !r.Returns? {
        return;
      }
      var hdr := ptr - HEADER;
      FreeChecked(State(), ptr, start, end, fs, al);
      PoisonShape(State(), hdr);
      PoisonUser(hdr);
      r := ReleaseBlock(hdr, fs, al);
    }

    /** Lines 305-370: the block leaves the alloc list, joins the free list
        and merges with its neighbours. */
    method ReleaseBlock(hdr: int, ghost fs: seq<int>, ghost al: seq<int>) returns (r: Outcome<()>)
      requires Chain(blocks, freeList, fs) && Chain(blocks, allocList, al) && AllocLinked(blocks, al)
      requires forall k :: 0 <= k < |al| ==> al[k] !in fs
      modifies this`blocks, this`freeList, this`allocList
      ensures r == Completion(Release(old(State()), hdr, fs, al))
      ensures r.Returns? ==> State() == Release(old(State()), hdr, fs, al).value
    {
      ghost var h0 := State();
      r := UnlinkAlloc(hdr, al);
      if !r.Returns? {
        return;
      }
      ghost var t := IndexOf(al, hdr, 0);
      ghost var h2 := UnlinkKeepsFree(h0, fs, al, t);
      InsertFree(hdr, fs);
      r := CoalesceAt(hdr);
    }
}
}
