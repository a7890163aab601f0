// The self-tests of kernel/vmm/heap.c (lines 390-507) on the heap that
// heap_init leaves.

module HeapTests {
  import opened Common
  import opened KernelHeap
  import opened HeapObject

  /** The heap once the one free block at start has had total bytes taken
      from its front by kmalloc on an empty alloc list. */
  function TakeFront(h: Image, start: int, total: int): Image {
    var s := Hdr(h.blocks, start).size;
    var rear := start + total - 8;
    Image(h.blocks[start + total := Block(s - total, NULL, NULL, GUARD_MAGIC)][start := Block(total, NULL, NULL, GUARD_MAGIC)],
          h.words[rear := GUARD_MAGIC][rear + 4 := GUARD_MAGIC], start + total, start)
  }

  /** kmalloc(bytes, 0) on a heap whose free list is the one block at start
      of s bytes, inside the heap [start, end], and whose alloc list is
      empty: the block is split, the remainder, a heap pointer, becomes the
      free list, the front goes to the alloc list and start + 32 is
      returned. */
  lemma MallocOnOneBlock(h: Image, start: int, end: int, bytes: int)
    requires start > NULL && start % GRANULARITY == 0 && 0 <= bytes <= TWO32 - 48
    requires h.freeList == start && h.allocList == NULL && start in h.blocks
    requires h.blocks[start].next == NULL && h.blocks[start].prev == NULL
    requires h.blocks[start].size - TotalBytes(bytes) > MIN_BLOCK_SIZE && start + h.blocks[start].size <= end
    ensures Malloc(h, bytes, 0, start, end, [start], []) == Returns((TakeFront(h, start, TotalBytes(bytes)), start + HEADER))
    ensures var h' := TakeFront(h, start, TotalBytes(bytes));
      Chain(h'.blocks, h'.freeList, [start + TotalBytes(bytes)]) && Chain(h'.blocks, h'.allocList, [start])
  {
    SizingBounds(bytes);
    var total := TotalBytes(bytes);
    var sz := h.blocks[start].size;
    assert FirstFit(h.blocks, [start], total, 0) == 0;
    var m1 := Split(h.blocks, start, total);
    assert m1 == h.blocks[start + total := Block(sz - total, NULL, NULL, GUARD_MAGIC)][start := Block(total, start + total, NULL, h.blocks[start].guard)];
    var h1 := h.(blocks := m1, freeList := start + total);
    var h2 := Guard(h1, start);
    assert h2.blocks == h.blocks[start + total := Block(sz - total, NULL, NULL, GUARD_MAGIC)][start := Block(total, start + total, NULL, GUARD_MAGIC)];
    assert AllocInsert(h2, start, []) == TakeFront(h, start, total);
  }

  /** kfree of that pointer: the block goes back in front of the rest and
      merges with it into one free block of s bytes again. */
  lemma FreeOnOneBlock(h: Image, start: int, end: int, total: int) returns (h': Image)
    requires start > NULL && start % GRANULARITY == 0 && total % GRANULARITY == 0 && total >= HEADER + 8
    requires start + HEADER <= end && start in h.blocks
    requires h.blocks[start].next == NULL && h.blocks[start].prev == NULL
    requires h.blocks[start].size - total > MIN_BLOCK_SIZE
    ensures Free(TakeFront(h, start, total), start + HEADER, start, end, [start + total], [start]) == Returns(h')
    ensures h'.freeList == start && h'.allocList == NULL && start in h'.blocks
    ensures h'.blocks[start] == Block(h.blocks[start].size, NULL, NULL, GUARD_MAGIC)
    ensures Chain(h'.blocks, h'.freeList, [start]) && Chain(h'.blocks, h'.allocList, [])
  {
    var s := h.blocks[start].size;
    var t := TakeFront(h, start, total);
    assert IndexOf([start], start, 0) == 0;
    var hp := Poison(t, start);
    var h1 := hp.(allocList := NULL);
    assert Unlink(hp, start, [start]) == Returns(h1);
    var h2 := Insert(h1, start, [start + total]);
    assert h2.blocks[start] == Block(total, start + total, NULL, GUARD_MAGIC);
    assert h2.blocks[start + total] == Block(s - total, NULL, start, GUARD_MAGIC);
    h' := h2.(blocks := h2.blocks[start := Block(s, NULL, NULL, GUARD_MAGIC)]);
    assert Merge(h2, start, start + total) == Returns((h', start));
  }

  /** kmalloc(bytes, 0) and then kfree of the pointer it returns on a heap
      whose only block is the free block at start: the heap comes back to
      that one block, and the lists are what the steps pass along. */
  lemma CycleOnOneBlock(h: Image, start: int, end: int, bytes: int) returns (a: int, h1: Image, h2: Image)
    requires start > NULL && start % GRANULARITY == 0 && 0 <= bytes <= TWO32 - 48 && start + HEADER <= end
    requires h.freeList == start && h.allocList == NULL && start in h.blocks
    requires h.blocks[start].next == NULL && h.blocks[start].prev == NULL
    requires h.blocks[start].size - TotalBytes(bytes) > MIN_BLOCK_SIZE && start + h.blocks[start].size <= end
    ensures a == start + HEADER
    ensures Malloc(h, bytes, 0, start, end, [start], []) == Returns((h1, a))
    ensures Chain(h1.blocks, h1.freeList, [start + TotalBytes(bytes)]) && Chain(h1.blocks, h1.allocList, [start])
    ensures Free(h1, a, start, end, [start + TotalBytes(bytes)], [start]) == Returns(h2)
    ensures h2.freeList == start && h2.allocList == NULL && start in h2.blocks
    ensures h2.blocks[start] == Block(h.blocks[start].size, NULL, NULL, GUARD_MAGIC)
    ensures Chain(h2.blocks, h2.freeList, [start]) && Chain(h2.blocks, h2.allocList, [])
  {
    SizingBounds(bytes);
    MallocOnOneBlock(h, start, end, bytes);
    a, h1 := start + HEADER, TakeFront(h, start, TotalBytes(bytes));
    h2 := FreeOnOneBlock(h, start, end, TotalBytes(bytes));
  }

  /** The block heap_init makes spans the range less its header. */
  lemma InitSize(start: int, end: int)
    requires HEADER <= end - start < TWO32
    ensures start in InitImage(start, end).blocks && InitImage(start, end).blocks[start].size == end - start - HEADER
  {
    U32Low(end - start);
    U32Low(end - start - HEADER);
  }

  /** The request sizes of the tests: 44 and 129 bytes take blocks of 88
      and 176 bytes, 68 bytes one of 112 and 64 bytes one of 104. */
  lemma TestSizes()
    ensures TotalBytes(44) == 88 && TotalBytes(129) == 176
    ensures TotalBytes(68) == 112 && TotalBytes(64) == 104
  {
    SizingBounds(44);
    SizingBounds(129);
    SizingBounds(68);
    SizingBounds(64);
  }

  /** test_heap_1 (lines 395-407), for any two requests the heap heap_init
      leaves can split off (44 and 129 bytes among them, see TestHeap1Fits):
      the first is allocated and freed, then the second comes back at the
      same address; both lists are as before after each kfree. */
  lemma TestHeap1(start: int, end: int, first: int, second: int) returns (a: int, b: int, h1: Image, h2: Image, h3: Image, h4: Image)
    requires start > NULL && start % GRANULARITY == 0 && HEADER <= end - start < TWO32
    requires 0 <= first <= TWO32 - 48 && end - start - HEADER - TotalBytes(first) > MIN_BLOCK_SIZE
    requires 0 <= second <= TWO32 - 48 && end - start - HEADER - TotalBytes(second) > MIN_BLOCK_SIZE
    ensures Malloc(InitImage(start, end), first, 0, start, end, [start], []) == Returns((h1, a))
    ensures Free(h1, a, start, end, [start + TotalBytes(first)], [start]) == Returns(h2)
    ensures Chain(h2.blocks, h2.freeList, [start]) && Chain(h2.blocks, h2.allocList, [])
    ensures Malloc(h2, second, 0, start, end, [start], []) == Returns((h3, b))
    ensures Free(h3, b, start, end, [start + TotalBytes(second)], [start]) == Returns(h4)
    ensures Chain(h4.blocks, h4.freeList, [start]) && Chain(h4.blocks, h4.allocList, [])
    ensures a == b
  {
    var h0 := InitImage(start, end);
    InitSize(start, end);
    a, h1, h2 := CycleOnOneBlock(h0, start, end, first);
    b, h3, h4 := CycleOnOneBlock(h2, start, end, second);
  }

  /** The requests of test_heap_1 fit a heap of 256 bytes or more. */
  lemma TestHeap1Fits(start: int, end: int)
    requires 256 <= end - start
    ensures end - start - HEADER - TotalBytes(44) > MIN_BLOCK_SIZE
    ensures end - start - HEADER - TotalBytes(129) > MIN_BLOCK_SIZE
  {
    TestSizes();
  }
}
