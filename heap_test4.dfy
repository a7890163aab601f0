// test_heap_4 of kernel/vmm/heap.c (lines 455-473) on the heap that
// heap_init leaves: three blocks of 68 bytes, the middle one freed and
// taken again by a request of 64 bytes, which is too small to split it.
// B0, B1 and B2 are the blocks at s, s + 112 and s + 224; R is the
// remainder at s + 336.

module HeapTest4 {
  import opened Common
  import opened KernelHeap
  import opened HeapObject
  import HeapTests

  /** The block kmalloc(68) takes: TotalBytes(68). */
  const T: int := 112

  /** A header with a good front guard. */
  function Blk(size: int, next: int, prev: int): Block {
    Block(size, next, prev, GUARD_MAGIC)
  }

  /** The header at a holds blk. */
  ghost predicate At(m: map<int, Block>, a: int, blk: Block) {
    a in m && m[a] == blk
  }

  /** The headers of B0, B1, B2 and R. */
  ghost predicate Quad(m: map<int, Block>, s: int, x0: Block, x1: Block, x2: Block, x3: Block) {
    At(m, s, x0) && At(m, s + T, x1) && At(m, s + 2 * T, x2) && At(m, s + 3 * T, x3)
  }

  /** The headers of B0, B1 and B2. */
  ghost predicate Tri(m: map<int, Block>, s: int, x0: Block, x1: Block, x2: Block) {
    At(m, s, x0) && At(m, s + T, x1) && At(m, s + 2 * T, x2)
  }

  /** The heads of the free and alloc lists. */
  ghost predicate Heads(h: Image, free: int, alloc: int) {
    h.freeList == free && h.allocList == alloc
  }

  /** Both rear guard words of a 112-byte block at b hold the magic value. */
  ghost predicate Guarded(h: Image, b: int) {
    && b + T - 8 in h.words && h.words[b + T - 8] == GUARD_MAGIC
    && b + T - 4 in h.words && h.words[b + T - 4] == GUARD_MAGIC
  }

  /** A heap at s of S bytes after its header, with room for three blocks
      of 112 bytes and a remainder that can still be split off. */
  predicate Room(s: int, S: int) {
    s > NULL && s % GRANULARITY == 0 && S - 3 * T > MIN_BLOCK_SIZE
  }

  /** The block addresses and pointers of the test are 8-byte aligned. */
  predicate Aligned4(s: int) {
    && (s + HEADER) % GRANULARITY == 0
    && (s + T) % GRANULARITY == 0 && (s + T + HEADER) % GRANULARITY == 0
    && (s + 2 * T) % GRANULARITY == 0 && (s + 2 * T + HEADER) % GRANULARITY == 0
  }

  lemma AlignedFacts(s: int)
    requires s % GRANULARITY == 0
    ensures Aligned4(s)
  {
  }

  /** kmalloc(bytes) on h, a heap of range [start, end] whose lists are fs
      and al, returns a and leaves h'. */
  ghost predicate Mallocs(h: Image, bytes: int, start: int, end: int, fs: seq<int>, al: seq<int>, h': Image, a: int)
    requires 0 <= bytes < TWO32
  {
    Malloc(h, bytes, 0, start, end, fs, al) == Returns((h', a))
  }

  /** kfree(ptr) on h, a heap of range [start, end] whose lists are fs and
      al, leaves h'. */
  ghost predicate Frees(h: Image, ptr: int, start: int, end: int, fs: seq<int>, al: seq<int>, h': Image) {
    Free(h, ptr, start, end, fs, al) == Returns(h')
  }

  // ---------------------------------------------------------------------
  // The heap after each call of the test
  // ---------------------------------------------------------------------

  /** After the first kmalloc(68): B0 allocated, the rest free. */
  ghost predicate State1(h: Image, s: int, S: int) {
    && Heads(h, s + T, s)
    && At(h.blocks, s, Blk(T, NULL, NULL)) && At(h.blocks, s + T, Blk(S - T, NULL, NULL))
    && Guarded(h, s)
  }

  /** After the second kmalloc(68): B0 and B1 allocated. */
  ghost predicate State2(h: Image, s: int, S: int) {
    && Heads(h, s + 2 * T, s)
    && Tri(h.blocks, s, Blk(T, s + T, NULL), Blk(T, NULL, s), Blk(S - 2 * T, NULL, NULL))
    && Guarded(h, s) && Guarded(h, s + T)
  }

  /** After the third kmalloc(68): B0, B1 and B2 allocated. */
  ghost predicate State3(h: Image, s: int, S: int) {
    && Heads(h, s + 3 * T, s)
    && Quad(h.blocks, s, Blk(T, s + T, NULL), Blk(T, s + 2 * T, s), Blk(T, NULL, s + T), Blk(S - 3 * T, NULL, NULL))
    && Guarded(h, s) && Guarded(h, s + T) && Guarded(h, s + 2 * T)
  }

  /** After kfree of B1: B1 heads the free list in front of R. */
  ghost predicate State4(h: Image, s: int, S: int) {
    && Heads(h, s + T, s)
    && Quad(h.blocks, s, Blk(T, s + 2 * T, NULL), Blk(T, s + 3 * T, NULL), Blk(T, NULL, s), Blk(S - 3 * T, NULL, s + T))
    && Guarded(h, s) && Guarded(h, s + 2 * T)
  }

  /** After kmalloc(64): B1 allocated again, whole; R keeps a stale back
      link to it. */
  ghost predicate State5(h: Image, s: int, S: int) {
    && Heads(h, s + 3 * T, s)
    && Quad(h.blocks, s, Blk(T, s + T, NULL), Blk(T, s + 2 * T, s), Blk(T, NULL, s + T), Blk(S - 3 * T, NULL, s + T))
    && Guarded(h, s) && Guarded(h, s + T) && Guarded(h, s + 2 * T)
  }

  /** After kfree of B0: B0 heads the free list, B1 the alloc list. */
  ghost predicate State6(h: Image, s: int, S: int) {
    && Heads(h, s, s + T)
    && Quad(h.blocks, s, Blk(T, s + 3 * T, NULL), Blk(T, s + 2 * T, s), Blk(T, NULL, s + T), Blk(S - 3 * T, NULL, s))
    && Guarded(h, s + T) && Guarded(h, s + 2 * T)
  }

  /** After kfree of B2: B2 has absorbed R. */
  ghost predicate State7(h: Image, s: int, S: int) {
    && Heads(h, s, s + T)
    && Tri(h.blocks, s, Blk(T, s + 2 * T, NULL), Blk(T, NULL, s), Blk(S - 2 * T, NULL, s))
    && Guarded(h, s + T)
  }

  /** After the last kfree: one free block of the whole heap, no block
      allocated. */
  ghost predicate State8(h: Image, s: int, S: int) {
    Heads(h, s, NULL) && At(h.blocks, s, Blk(S, NULL, NULL))
  }

  // ---------------------------------------------------------------------
  // kmalloc, piece by piece
  // ---------------------------------------------------------------------

  /** Lines 114-154 of kernel/vmm/heap.c: the block b picked for total
      bytes is split if it can be, the free list moves on if b headed it,
      and b is guarded. */
  function Carved(h: Image, b: int, total: int): Image {
    var m1 := Split(h.blocks, b, total);
    Guard(h.(blocks := m1, freeList := if h.freeList == b then Hdr(m1, b).next else h.freeList), b)
  }

  /** kmalloc takes the block its scan picks, joins it to the alloc list
      and returns the address after its header, when the free list is left
      alone or moves to a heap pointer. */
  lemma MallocTakes(h: Image, bytes: int, start: int, end: int, fs: seq<int>, al: seq<int>, i: nat)
    requires 0 <= bytes < TWO32 && i < |fs| && FirstFit(h.blocks, fs, TotalBytes(bytes), 0) == i
    requires fs[i] % GRANULARITY == 0
    requires h.freeList != fs[i] || InHeap(Carved(h, fs[i], TotalBytes(bytes)).freeList, start, end)
    ensures Mallocs(h, bytes, start, end, fs, al, AllocInsert(Carved(h, fs[i], TotalBytes(bytes)), fs[i], al), fs[i] + HEADER)
  {
  }

  /** The free head b, more than MIN_BLOCK_SIZE bytes too long, is split:
      the remainder takes its links and heads the free list. */
  lemma CarveSplit(h: Image, b: int, total: int, size: int)
    requires At(h.blocks, b, Blk(size, NULL, NULL)) && h.freeList == b
    requires size - total > MIN_BLOCK_SIZE && total >= 8
    ensures var c := Carved(h, b, total);
      && c.freeList == b + total && c.allocList == h.allocList
      && At(c.blocks, b, Blk(total, b + total, NULL)) && At(c.blocks, b + total, Blk(size - total, NULL, NULL))
      && (forall a :: a in h.blocks && a != b && a != b + total ==> a in c.blocks && c.blocks[a] == h.blocks[a])
      && c.words == h.words[b + total - 8 := GUARD_MAGIC][b + total - 4 := GUARD_MAGIC]
  {
  }

  /** The free head b fits but is too short to split: it is taken whole and
      the free list moves on to its successor. */
  lemma CarveWhole(h: Image, b: int, total: int, size: int, next: int)
    requires At(h.blocks, b, Blk(size, next, NULL)) && h.freeList == b
    requires size >= total && size - total <= MIN_BLOCK_SIZE
    ensures var c := Carved(h, b, total);
      && c.freeList == next && c.allocList == h.allocList && c.blocks == h.blocks
      && c.words == h.words[b + size - 8 := GUARD_MAGIC][b + size - 4 := GUARD_MAGIC]
  {
    assert Split(h.blocks, b, total) == h.blocks;
    assert h.blocks[b := h.blocks[b]] == h.blocks;
  }

  /** b goes into the alloc list after node, which has successor n; the
      lists' heads and the words stay. */
  lemma LinkAfterFacts(h: Image, b: int, node: int, n: int, al: seq<int>, j: nat)
    requires h.allocList != NULL && j < |al| && AllocSlot(al, b, 0) == j && al[j] == node
    requires node in h.blocks && h.blocks[node].next == n && b in h.blocks && b != node && n != node && n != b
    ensures var h' := AllocInsert(h, b, al);
      && h'.freeList == h.freeList && h'.allocList == h.allocList && h'.words == h.words
      && h'.blocks[b] == h.blocks[b].(next := n, prev := node)
      && h'.blocks[node] == h.blocks[node].(next := b)
      && (n != NULL ==> n in h'.blocks && h'.blocks[n] == Hdr(h.blocks, n).(prev := b))
      && (forall a :: a in h.blocks && a != b && a != node && a != n ==> a in h'.blocks && h'.blocks[a] == h.blocks[a])
  {
  }

  // ---------------------------------------------------------------------
  // kfree, piece by piece
  // ---------------------------------------------------------------------

  /** When the sanity checks of lines 262-292 pass for a 112-byte block and
      the block leaves the alloc list as h1, kfree is the insertion into
      the free list followed by the merges. */
  lemma FreeRuns(h: Image, ptr: int, start: int, end: int, fs: seq<int>, al: seq<int>, h1: Image)
    requires start <= ptr - HEADER && ptr <= end && ptr % GRANULARITY == 0
    requires ptr - HEADER in h.blocks && h.blocks[ptr - HEADER].guard == GUARD_MAGIC
    requires h.blocks[ptr - HEADER].size == T && Guarded(h, ptr - HEADER)
    requires Unlink(Poison(h, ptr - HEADER), ptr - HEADER, al) == Returns(h1)
    ensures Free(h, ptr, start, end, fs, al) == Coalesce(Insert(h1, ptr - HEADER, fs), ptr - HEADER)
  {
  }

  /** Poisoning a 112-byte block at b rewrites only its rear guard words. */
  lemma PoisonFacts(h: Image, b: int)
    requires b in h.blocks && h.blocks[b].size == T
    ensures var hp := Poison(h, b);
      && hp.blocks == h.blocks && hp.freeList == h.freeList && hp.allocList == h.allocList
      && hp.words == h.words[b + T - 8 := POISON][b + T - 4 := POISON]
  {
  }

  /** The rear guards of another block survive the poisoning of b. */
  lemma PoisonSpares(h: Image, b: int, c: int)
    requires b in h.blocks && h.blocks[b].size == T && Guarded(h, c)
    requires c != b && c != b + 4 && c != b - 4
    ensures Guarded(Poison(h, b), c)
  {
    PoisonFacts(h, b);
  }

  // ---------------------------------------------------------------------
  // The steps of test_heap_4
  // ---------------------------------------------------------------------

  /** kmalloc(68) on the heap heap_init leaves splits B0 off its front. */
  lemma Step1(h: Image, s: int, end: int, a: int) returns (h': Image)
    requires HEADER <= end - s < TWO32 && Room(s, end - s - HEADER)
    requires h == InitImage(s, end) && a == s + HEADER
    ensures Mallocs(h, 68, s, end, [s], [], h', a)
    ensures State1(h', s, end - s - HEADER)
  {
    HeapTests.InitSize(s, end);
    HeapTests.TestSizes();
    HeapTests.MallocOnOneBlock(h, s, end, 68);
    h' := HeapTests.TakeFront(h, s, T);
  }

  /** The second kmalloc(68) cuts B1 off the front of R. */
  lemma Carve2(h: Image, s: int, S: int) returns (c: Image)
    requires Room(s, S) && State1(h, s, S)
    ensures c == Carved(h, s + T, T) && Heads(c, s + 2 * T, s)
    ensures Tri(c.blocks, s, Blk(T, NULL, NULL), Blk(T, s + 2 * T, NULL), Blk(S - 2 * T, NULL, NULL))
    ensures Guarded(c, s) && Guarded(c, s + T)
  {
    c := Carved(h, s + T, T);
    CarveSplit(h, s + T, T, S - T);
  }

  /** B1 is linked after B0, the only allocated block. */
  lemma Link2(c: Image, s: int, S: int) returns (h': Image)
    requires Room(s, S) && Heads(c, s + 2 * T, s)
    requires Tri(c.blocks, s, Blk(T, NULL, NULL), Blk(T, s + 2 * T, NULL), Blk(S - 2 * T, NULL, NULL))
    requires Guarded(c, s) && Guarded(c, s + T)
    ensures h' == AllocInsert(c, s + T, [s]) && State2(h', s, S)
  {
    assert AllocSlot([s], s + T, 0) == 0;
    LinkAfterFacts(c, s + T, s, NULL, [s], 0);
    h' := AllocInsert(c, s + T, [s]);
  }

  /** The second kmalloc(68) splits B1 off R and links it after B0. */
  lemma Step2(h: Image, s: int, S: int, end: int, bytes: int, a: int) returns (h': Image)
    requires Room(s, S) && Aligned4(s) && State1(h, s, S) && end == s + S + HEADER
    requires 0 <= bytes < TWO32 && TotalBytes(bytes) == T && a == s + T + HEADER
    ensures Mallocs(h, bytes, s, end, [s + T], [s], h', a)
    ensures State2(h', s, S)
  {
    var b := s + T;
    assert FirstFit(h.blocks, [b], T, 0) == 0;
    var c := Carve2(h, s, S);
    MallocTakes(h, bytes, s, end, [b], [s], 0);
    h' := Link2(c, s, S);
  }

  /** The third kmalloc(68) cuts B2 off the front of R. */
  lemma Carve3(h: Image, s: int, S: int) returns (c: Image)
    requires Room(s, S) && State2(h, s, S)
    ensures c == Carved(h, s + 2 * T, T) && Heads(c, s + 3 * T, s)
    ensures Quad(c.blocks, s, Blk(T, s + T, NULL), Blk(T, NULL, s), Blk(T, s + 3 * T, NULL), Blk(S - 3 * T, NULL, NULL))
    ensures Guarded(c, s) && Guarded(c, s + T) && Guarded(c, s + 2 * T)
  {
    c := Carved(h, s + 2 * T, T);
    CarveSplit(h, s + 2 * T, T, S - 2 * T);
  }

  /** B2 is linked after B1, the last allocated block. */
  lemma Link3(c: Image, s: int, S: int) returns (h': Image)
    requires Room(s, S) && Heads(c, s + 3 * T, s)
    requires Quad(c.blocks, s, Blk(T, s + T, NULL), Blk(T, NULL, s), Blk(T, s + 3 * T, NULL), Blk(S - 3 * T, NULL, NULL))
    requires Guarded(c, s) && Guarded(c, s + T) && Guarded(c, s + 2 * T)
    ensures h' == AllocInsert(c, s + 2 * T, [s, s + T]) && State3(h', s, S)
  {
    assert AllocSlot([s, s + T], s + 2 * T, 0) == 1;
    LinkAfterFacts(c, s + 2 * T, s + T, NULL, [s, s + T], 1);
    h' := AllocInsert(c, s + 2 * T, [s, s + T]);
  }

  /** The third kmalloc(68) splits B2 off R and links it after B1. */
  lemma Step3(h: Image, s: int, S: int, end: int, bytes: int, a: int) returns (h': Image)
    requires Room(s, S) && Aligned4(s) && State2(h, s, S) && end == s + S + HEADER
    requires 0 <= bytes < TWO32 && TotalBytes(bytes) == T && a == s + 2 * T + HEADER
    ensures Mallocs(h, bytes, s, end, [s + 2 * T], [s, s + T], h', a)
    ensures State3(h', s, S)
  {
    var b := s + 2 * T;
    assert FirstFit(h.blocks, [b], T, 0) == 0;
    var c := Carve3(h, s, S);
    MallocTakes(h, bytes, s, end, [b], [s, s + T], 0);
    h' := Link3(c, s, S);
  }

  /** kfree of B1 takes it out of the middle of the alloc list. */
  lemma Unlink4(h: Image, s: int, S: int) returns (h1: Image)
    requires Room(s, S) && Heads(h, s + 3 * T, s)
    requires Quad(h.blocks, s, Blk(T, s + T, NULL), Blk(T, s + 2 * T, s), Blk(T, NULL, s + T), Blk(S - 3 * T, NULL, NULL))
    ensures Unlink(h, s + T, [s, s + T, s + 2 * T]) == Returns(h1)
    ensures Heads(h1, s + 3 * T, s) && h1.words == h.words
    ensures Quad(h1.blocks, s, Blk(T, s + 2 * T, NULL), Blk(T, s + 2 * T, s), Blk(T, NULL, s), Blk(S - 3 * T, NULL, NULL))
  {
    assert IndexOf([s, s + T, s + 2 * T], s + T, 0) == 1;
    h1 := h.(blocks := SetPrevIfAny(SetNext(h.blocks, s, s + 2 * T), s + 2 * T, s));
  }

  /** B1 goes in front of R, the free head. */
  lemma Insert4(h: Image, s: int, S: int) returns (h2: Image)
    requires Room(s, S) && Heads(h, s + 3 * T, s)
    requires Quad(h.blocks, s, Blk(T, s + 2 * T, NULL), Blk(T, s + 2 * T, s), Blk(T, NULL, s), Blk(S - 3 * T, NULL, NULL))
    ensures Insert(h, s + T, [s + 3 * T]) == h2
    ensures Heads(h2, s + T, s) && h2.words == h.words
    ensures Quad(h2.blocks, s, Blk(T, s + 2 * T, NULL), Blk(T, s + 3 * T, NULL), Blk(T, NULL, s), Blk(S - 3 * T, NULL, s + T))
  {
    h2 := Insert(h, s + T, [s + 3 * T]);
  }

  /** B1 and R are linked but not adjacent: nothing merges. */
  lemma Coalesce4(h: Image, s: int, S: int)
    requires Room(s, S)
    requires Quad(h.blocks, s, Blk(T, s + 2 * T, NULL), Blk(T, s + 3 * T, NULL), Blk(T, NULL, s), Blk(S - 3 * T, NULL, s + T))
    ensures Coalesce(h, s + T) == Returns(h)
  {
    assert Merge(h, s + T, s + 3 * T) == Returns((h, s + 3 * T));
  }

  /** kfree of B1: it leaves the middle of the alloc list and goes in front
      of R, which it does not touch, so nothing merges. */
  lemma Step4(h: Image, s: int, S: int, end: int, ptr: int) returns (h': Image)
    requires Room(s, S) && Aligned4(s) && State3(h, s, S) && end == s + S + HEADER
    requires ptr == s + T + HEADER
    ensures Frees(h, ptr, s, end, [s + 3 * T], [s, s + T, s + 2 * T], h')
    ensures State4(h', s, S)
  {
    var b := s + T;
    var hp := Poison(h, b);
    PoisonFacts(h, b);
    PoisonSpares(h, b, s);
    PoisonSpares(h, b, s + 2 * T);
    var h1 := Unlink4(hp, s, S);
    FreeRuns(h, ptr, s, end, [s + 3 * T], [s, b, s + 2 * T], h1);
    h' := Insert4(h1, s, S);
    Coalesce4(h', s, S);
  }

  /** kmalloc(64) finds B1 at the free head and takes it whole. */
  lemma Carve5(h: Image, s: int, S: int) returns (c: Image)
    requires Room(s, S) && State4(h, s, S)
    ensures c == Carved(h, s + T, 104) && Heads(c, s + 3 * T, s)
    ensures Quad(c.blocks, s, Blk(T, s + 2 * T, NULL), Blk(T, s + 3 * T, NULL), Blk(T, NULL, s), Blk(S - 3 * T, NULL, s + T))
    ensures Guarded(c, s) && Guarded(c, s + T) && Guarded(c, s + 2 * T)
  {
    c := Carved(h, s + T, 104);
    CarveWhole(h, s + T, 104, T, s + 3 * T);
  }

  /** B1 is linked between B0 and B2 again. */
  lemma Link5(c: Image, s: int, S: int) returns (h': Image)
    requires Room(s, S) && Heads(c, s + 3 * T, s)
    requires Quad(c.blocks, s, Blk(T, s + 2 * T, NULL), Blk(T, s + 3 * T, NULL), Blk(T, NULL, s), Blk(S - 3 * T, NULL, s + T))
    requires Guarded(c, s) && Guarded(c, s + T) && Guarded(c, s + 2 * T)
    ensures h' == AllocInsert(c, s + T, [s, s + 2 * T]) && State5(h', s, S)
  {
    assert AllocSlot([s, s + 2 * T], s + T, 0) == 0;
    LinkAfterFacts(c, s + T, s, s + 2 * T, [s, s + 2 * T], 0);
    h' := AllocInsert(c, s + T, [s, s + 2 * T]);
  }

  /** kmalloc(64) takes B1 again: it heads the free list and fits, and 112
      bytes less 104 is too little to split, so the block is handed out
      whole at the address the first kmalloc of B1 returned. */
  lemma Step5(h: Image, s: int, S: int, end: int, bytes: int, a: int) returns (h': Image)
    requires Room(s, S) && Aligned4(s) && State4(h, s, S) && end == s + S + HEADER
    requires 0 <= bytes < TWO32 && TotalBytes(bytes) == 104 && a == s + T + HEADER
    ensures Mallocs(h, bytes, s, end, [s + T, s + 3 * T], [s, s + 2 * T], h', a)
    ensures State5(h', s, S)
  {
    var b := s + T;
    assert FirstFit(h.blocks, [b, s + 3 * T], 104, 0) == 0;
    var c := Carve5(h, s, S);
    MallocTakes(h, bytes, s, end, [b, s + 3 * T], [s, s + 2 * T], 0);
    h' := Link5(c, s, S);
  }

  /** kfree of B0 moves the alloc list on to B1. */
  lemma Unlink6(h: Image, s: int, S: int) returns (h1: Image)
    requires Room(s, S) && Heads(h, s + 3 * T, s)
    requires At(h.blocks, s, Blk(T, s + T, NULL))
    ensures Unlink(h, s, [s, s + T, s + 2 * T]) == Returns(h1)
    ensures Heads(h1, s + 3 * T, s + T) && h1.words == h.words && h1.blocks == h.blocks
  {
    assert IndexOf([s, s + T, s + 2 * T], s, 0) == 0;
    h1 := h.(allocList := s + T);
  }

  /** B0 goes in front of R, the free head. */
  lemma Insert6(h: Image, s: int, S: int) returns (h2: Image)
    requires Room(s, S) && Heads(h, s + 3 * T, s + T)
    requires Quad(h.blocks, s, Blk(T, s + T, NULL), Blk(T, s + 2 * T, s), Blk(T, NULL, s + T), Blk(S - 3 * T, NULL, s + T))
    ensures Insert(h, s, [s + 3 * T]) == h2
    ensures Heads(h2, s, s + T) && h2.words == h.words
    ensures Quad(h2.blocks, s, Blk(T, s + 3 * T, NULL), Blk(T, s + 2 * T, s), Blk(T, NULL, s + T), Blk(S - 3 * T, NULL, s))
  {
    h2 := Insert(h, s, [s + 3 * T]);
  }

  /** B0 and R are linked but not adjacent: nothing merges. */
  lemma Coalesce6(h: Image, s: int, S: int)
    requires Room(s, S)
    requires Quad(h.blocks, s, Blk(T, s + 3 * T, NULL), Blk(T, s + 2 * T, s), Blk(T, NULL, s + T), Blk(S - 3 * T, NULL, s))
    ensures Coalesce(h, s) == Returns(h)
  {
    assert Merge(h, s, s + 3 * T) == Returns((h, s + 3 * T));
  }

  /** kfree of B0: the alloc list moves on to B1, and B0 goes in front of R
      without merging. */
  lemma Step6(h: Image, s: int, S: int, end: int, ptr: int) returns (h': Image)
    requires Room(s, S) && Aligned4(s) && State5(h, s, S) && end == s + S + HEADER
    requires ptr == s + HEADER
    ensures Frees(h, ptr, s, end, [s + 3 * T], [s, s + T, s + 2 * T], h')
    ensures State6(h', s, S)
  {
    var hp := Poison(h, s);
    PoisonFacts(h, s);
    PoisonSpares(h, s, s + T);
    PoisonSpares(h, s, s + 2 * T);
    var h1 := Unlink6(hp, s, S);
    FreeRuns(h, ptr, s, end, [s + 3 * T], [s, s + T, s + 2 * T], h1);
    h' := Insert6(h1, s, S);
    Coalesce6(h', s, S);
  }

  /** kfree of B2 takes it off the end of the alloc list. */
  lemma Unlink7(h: Image, s: int, S: int) returns (h1: Image)
    requires Room(s, S) && Heads(h, s, s + T)
    requires Quad(h.blocks, s, Blk(T, s + 3 * T, NULL), Blk(T, s + 2 * T, s), Blk(T, NULL, s + T), Blk(S - 3 * T, NULL, s))
    ensures Unlink(h, s + 2 * T, [s + T, s + 2 * T]) == Returns(h1)
    ensures Heads(h1, s, s + T) && h1.words == h.words
    ensures Quad(h1.blocks, s, Blk(T, s + 3 * T, NULL), Blk(T, NULL, s), Blk(T, NULL, s + T), Blk(S - 3 * T, NULL, s))
  {
    assert IndexOf([s + T, s + 2 * T], s + 2 * T, 0) == 1;
    h1 := h.(blocks := SetNext(h.blocks, s + T, NULL));
  }

  /** B2 goes between B0 and R. */
  lemma Insert7(h: Image, s: int, S: int) returns (h2: Image)
    requires Room(s, S) && Heads(h, s, s + T)
    requires Quad(h.blocks, s, Blk(T, s + 3 * T, NULL), Blk(T, NULL, s), Blk(T, NULL, s + T), Blk(S - 3 * T, NULL, s))
    ensures Insert(h, s + 2 * T, [s, s + 3 * T]) == h2
    ensures Heads(h2, s, s + T) && h2.words == h.words
    ensures Quad(h2.blocks, s, Blk(T, s + 2 * T, NULL), Blk(T, NULL, s), Blk(T, s + 3 * T, s), Blk(S - 3 * T, NULL, s + 2 * T))
  {
    assert FreeSlot([s, s + 3 * T], s + 2 * T, 0) == 0;
    h2 := Insert(h, s + 2 * T, [s, s + 3 * T]);
  }

  /** B0 and B2 are linked but not adjacent; B2 and R are, and merge. */
  lemma Coalesce7(h: Image, s: int, S: int) returns (h': Image)
    requires Room(s, S) && Heads(h, s, s + T)
    requires Quad(h.blocks, s, Blk(T, s + 2 * T, NULL), Blk(T, NULL, s), Blk(T, s + 3 * T, s), Blk(S - 3 * T, NULL, s + 2 * T))
    ensures Coalesce(h, s + 2 * T) == Returns(h') && h'.words == h.words
    ensures Heads(h', s, s + T) && Tri(h'.blocks, s, Blk(T, s + 2 * T, NULL), Blk(T, NULL, s), Blk(S - 2 * T, NULL, s))
  {
    assert Merge(h, s, s + 2 * T) == Returns((h, s + 2 * T));
    h' := h.(blocks := Absorb(h.blocks, s + 2 * T, s + 3 * T));
    assert Merge(h, s + 2 * T, s + 3 * T) == Returns((h', s + 2 * T));
  }

  /** kfree of B2: it leaves the alloc list behind B1, goes between B0 and
      R, does not touch B0 and merges with R. */
  lemma Step7(h: Image, s: int, S: int, end: int, ptr: int) returns (h': Image)
    requires Room(s, S) && Aligned4(s) && State6(h, s, S) && end == s + S + HEADER
    requires ptr == s + 2 * T + HEADER
    ensures Frees(h, ptr, s, end, [s, s + 3 * T], [s + T, s + 2 * T], h')
    ensures State7(h', s, S)
  {
    var b := s + 2 * T;
    var hp := Poison(h, b);
    PoisonFacts(h, b);
    PoisonSpares(h, b, s + T);
    var h1 := Unlink7(hp, s, S);
    FreeRuns(h, ptr, s, end, [s, s + 3 * T], [s + T, b], h1);
    var h2 := Insert7(h1, s, S);
    h' := Coalesce7(h2, s, S);
  }

  /** kfree of B1 empties the alloc list. */
  lemma Unlink8(h: Image, s: int, S: int) returns (h1: Image)
    requires Room(s, S) && Heads(h, s, s + T)
    requires At(h.blocks, s + T, Blk(T, NULL, s))
    ensures Unlink(h, s + T, [s + T]) == Returns(h1)
    ensures Heads(h1, s, NULL) && h1.words == h.words && h1.blocks == h.blocks
  {
    assert IndexOf([s + T], s + T, 0) == 0;
    h1 := h.(allocList := NULL);
  }

  /** B1 goes between B0 and B2. */
  lemma Insert8(h: Image, s: int, S: int) returns (h2: Image)
    requires Room(s, S) && Heads(h, s, NULL)
    requires Tri(h.blocks, s, Blk(T, s + 2 * T, NULL), Blk(T, NULL, s), Blk(S - 2 * T, NULL, s))
    ensures Insert(h, s + T, [s, s + 2 * T]) == h2
    ensures Heads(h2, s, NULL)
    ensures Tri(h2.blocks, s, Blk(T, s + T, NULL), Blk(T, s + 2 * T, s), Blk(S - 2 * T, NULL, s + T))
  {
    assert FreeSlot([s, s + 2 * T], s + T, 0) == 0;
    h2 := Insert(h, s + T, [s, s + 2 * T]);
  }

  /** B1 merges into B0, and then B2 does: one block of S bytes. */
  lemma Coalesce8(h: Image, s: int, S: int) returns (h': Image)
    requires Room(s, S) && Heads(h, s, NULL)
    requires Tri(h.blocks, s, Blk(T, s + T, NULL), Blk(T, s + 2 * T, s), Blk(S - 2 * T, NULL, s + T))
    ensures Coalesce(h, s + T) == Returns(h')
    ensures State8(h', s, S)
  {
    var h1 := h.(blocks := Absorb(h.blocks, s, s + T));
    assert Merge(h, s, s + T) == Returns((h1, s));
    assert Tri(h1.blocks, s, Blk(2 * T, s + 2 * T, NULL), Blk(T, s + 2 * T, s), Blk(S - 2 * T, NULL, s));
    h' := h1.(blocks := Absorb(h1.blocks, s, s + 2 * T));
    assert Merge(h1, s, s + 2 * T) == Returns((h', s));
  }

  /** kfree of B1: it goes between B0 and B2 and merges with both, so the
      free list is one block of the whole heap again and the alloc list is
      empty. */
  lemma Step8(h: Image, s: int, S: int, end: int, ptr: int) returns (h': Image)
    requires Room(s, S) && Aligned4(s) && State7(h, s, S) && end == s + S + HEADER
    requires ptr == s + T + HEADER
    ensures Frees(h, ptr, s, end, [s, s + 2 * T], [s + T], h')
    ensures State8(h', s, S)
  {
    var b := s + T;
    var hp := Poison(h, b);
    PoisonFacts(h, b);
    var h1 := Unlink8(hp, s, S);
    FreeRuns(h, ptr, s, end, [s, s + 2 * T], [b], h1);
    var h2 := Insert8(h1, s, S);
    h' := Coalesce8(h2, s, S);
  }

  // ---------------------------------------------------------------------
  // The lists, read off the headers
  // ---------------------------------------------------------------------

  lemma Lists0(h: Image, s: int, end: int)
    requires HEADER <= end - s < TWO32 && Room(s, end - s - HEADER) && h == InitImage(s, end)
    ensures Chain(h.blocks, h.freeList, [s]) && Chain(h.blocks, h.allocList, [])
  {
  }

  lemma Lists1(h: Image, s: int, S: int)
    requires Room(s, S) && State1(h, s, S)
    ensures Chain(h.blocks, h.freeList, [s + T]) && Chain(h.blocks, h.allocList, [s])
  {
  }

  lemma Lists2(h: Image, s: int, S: int)
    requires Room(s, S) && State2(h, s, S)
    ensures Chain(h.blocks, h.freeList, [s + 2 * T]) && Chain(h.blocks, h.allocList, [s, s + T])
  {
  }

  lemma Lists3(h: Image, s: int, S: int)
    requires Room(s, S) && State3(h, s, S)
    ensures Chain(h.blocks, h.freeList, [s + 3 * T]) && Chain(h.blocks, h.allocList, [s, s + T, s + 2 * T])
  {
  }

  lemma Lists4(h: Image, s: int, S: int)
    requires Room(s, S) && State4(h, s, S)
    ensures Chain(h.blocks, h.freeList, [s + T, s + 3 * T]) && Chain(h.blocks, h.allocList, [s, s + 2 * T])
  {
  }

  lemma Lists5(h: Image, s: int, S: int)
    requires Room(s, S) && State5(h, s, S)
    ensures Chain(h.blocks, h.freeList, [s + 3 * T]) && Chain(h.blocks, h.allocList, [s, s + T, s + 2 * T])
  {
  }

  lemma Lists6(h: Image, s: int, S: int)
    requires Room(s, S) && State6(h, s, S)
    ensures Chain(h.blocks, h.freeList, [s, s + 3 * T]) && Chain(h.blocks, h.allocList, [s + T, s + 2 * T])
  {
  }

  lemma Lists7(h: Image, s: int, S: int)
    requires Room(s, S) && State7(h, s, S)
    ensures Chain(h.blocks, h.freeList, [s, s + 2 * T]) && Chain(h.blocks, h.allocList, [s + T])
  {
  }

  lemma Lists8(h: Image, s: int, S: int)
    requires Room(s, S) && State8(h, s, S)
    ensures Chain(h.blocks, h.freeList, [s]) && Chain(h.blocks, h.allocList, [])
  {
  }

  /** test_heap_4 (lines 455-473) on the heap heap_init leaves, with room
      for three blocks of 68 bytes (any heap of 512 bytes or more, see
      TestHeap4Fits): each kmalloc and kfree runs on the lists as they
      are, kmalloc(64) hands back the address of the freed middle block,
      and at the end the free list is one block of the whole heap and the
      alloc list is empty, as test_heap asserts. */
  lemma TestHeap4(start: int, end: int)
      returns (a0: int, a1: int, a2: int, a3: int, h0: Image, h1: Image, h2: Image, h3: Image, h4: Image,
               h5: Image, h6: Image, h7: Image, h8: Image)
    requires HEADER <= end - start < TWO32 && Room(start, end - start - HEADER)
    ensures h0 == InitImage(start, end)
    ensures Chain(h0.blocks, h0.freeList, [start]) && Chain(h0.blocks, h0.allocList, [])
    ensures Mallocs(h0, 68, start, end, [start], [], h1, a0)
    ensures Chain(h1.blocks, h1.freeList, [start + T]) && Chain(h1.blocks, h1.allocList, [start])
    ensures Mallocs(h1, 68, start, end, [start + T], [start], h2, a1)
    ensures Chain(h2.blocks, h2.freeList, [start + 2 * T]) && Chain(h2.blocks, h2.allocList, [start, start + T])
    ensures Mallocs(h2, 68, start, end, [start + 2 * T], [start, start + T], h3, a2)
    ensures Chain(h3.blocks, h3.freeList, [start + 3 * T])
    ensures Chain(h3.blocks, h3.allocList, [start, start + T, start + 2 * T])
    ensures Frees(h3, a1, start, end, [start + 3 * T], [start, start + T, start + 2 * T], h4)
    ensures Chain(h4.blocks, h4.freeList, [start + T, start + 3 * T])
    ensures Chain(h4.blocks, h4.allocList, [start, start + 2 * T])
    ensures Mallocs(h4, 64, start, end, [start + T, start + 3 * T], [start, start + 2 * T], h5, a3)
    ensures a3 == a1
    ensures Chain(h5.blocks, h5.freeList, [start + 3 * T])
    ensures Chain(h5.blocks, h5.allocList, [start, start + T, start + 2 * T])
    ensures Frees(h5, a0, start, end, [start + 3 * T], [start, start + T, start + 2 * T], h6)
    ensures Chain(h6.blocks, h6.freeList, [start, start + 3 * T])
    ensures Chain(h6.blocks, h6.allocList, [start + T, start + 2 * T])
    ensures Frees(h6, a2, start, end, [start, start + 3 * T], [start + T, start + 2 * T], h7)
    ensures Chain(h7.blocks, h7.freeList, [start, start + 2 * T]) && Chain(h7.blocks, h7.allocList, [start + T])
    ensures Frees(h7, a3, start, end, [start, start + 2 * T], [start + T], h8)
    ensures Chain(h8.blocks, h8.freeList, [start]) && Chain(h8.blocks, h8.allocList, [])
    ensures start in h8.blocks && h8.blocks[start] == Block(end - start - HEADER, NULL, NULL, GUARD_MAGIC)
  {
    var S := end - start - HEADER;
    AlignedFacts(start);
    HeapTests.TestSizes();
    a0, a1, a2, a3 := start + HEADER, start + T + HEADER, start + 2 * T + HEADER, start + T + HEADER;
    h0 := InitImage(start, end);
    Lists0(h0, start, end);
    h1 := Step1(h0, start, end, a0);
    h2 := Step2(h1, start, S, end, 68, a1);
    h3 := Step3(h2, start, S, end, 68, a2);
    h4 := Step4(h3, start, S, end, a1);
    h5 := Step5(h4, start, S, end, 64, a3);
    h6 := Step6(h5, start, S, end, a0);
    h7 := Step7(h6, start, S, end, a2);
    h8 := Step8(h7, start, S, end, a3);
    Lists1(h1, start, S);
    Lists2(h2, start, S);
    Lists3(h3, start, S);
    Lists4(h4, start, S);
    Lists5(h5, start, S);
    Lists6(h6, start, S);
    Lists7(h7, start, S);
    Lists8(h8, start, S);
  }

  /** The blocks of test_heap_4 fit a heap of 512 bytes or more. */
  lemma TestHeap4Fits(start: int, end: int)
    requires start > NULL && start % GRANULARITY == 0 && 512 <= end - start
    ensures Room(start, end - start - HEADER)
  {
  }
}
