/** What __kmalloc of kernel/vmm/heap.c does to the two lists: the split,
    the move of the free-list head, the guard words and the insertion into
    the alloc list; and where the C code lets a block sit on both lists. */
module HeapMalloc {
  import opened Common
  import opened KernelHeap

  // ---------------------------------------------------------------------
  // The split (lines 114-136)
  // ---------------------------------------------------------------------

  /** A block is split only when more than MIN_BLOCK_SIZE bytes would be
      left over. The two pieces then tile the old block: the front piece is
      total bytes long and points at the remainder, which starts where the
      front piece ends and takes over the old links. */
  lemma SplitPieces(m: map<int, Block>, b: int, total: int) returns (split: bool)
    requires b in m && total > 0
    ensures split <==> m[b].size > total && m[b].size - total > MIN_BLOCK_SIZE
    ensures !split ==> Split(m, b, total) == m
    ensures split ==> var m' := Split(m, b, total);
      && b + total in m' && b + m'[b].size == b + total
      && m'[b].size + m'[b + total].size == m[b].size
      && m'[b].next == b + total && m'[b].prev == m[b].prev && m'[b].guard == m[b].guard
      && m'[b + total].next == m[b].next && m'[b + total].prev == m[b].prev
      && m'[b + total].guard == GUARD_MAGIC && m'[b + total].size > MIN_BLOCK_SIZE
      && m'.Keys == m.Keys + {b + total}
      && forall y :: y in m && y != b && y != b + total ==> m'[y] == m[y]
  {
    split := m[b].size > total && m[b].size - total > MIN_BLOCK_SIZE;
  }

  /** With a total of 0 (a request of 2^32 - 40 bytes, whose sizing wraps)
      the remainder is written over the block itself: the block is left
      with size 0 and pointing at itself. */
  lemma SplitOfZeroLoops(m: map<int, Block>, b: int)
    requires b in m && m[b].size > MIN_BLOCK_SIZE
    ensures Split(m, b, 0)[b] == Block(0, b, m[b].prev, GUARD_MAGIC)
  {
  }

  // ---------------------------------------------------------------------
  // The alloc-list insertion (lines 157-192)
  // ---------------------------------------------------------------------

  /** Lines 157-192 on a well-linked alloc list al that b is not on: b goes
      in at position j, right after the block the scan stops at (or as the
      only block of an empty list), and the list stays well linked. No
      size or guard changes, and no block off al other than b is touched. */
  lemma AllocInsertStep(h: Image, b: int, al: seq<int>) returns (h': Image, j: nat)
    requires Chain(h.blocks, h.allocList, al) && AllocLinked(h.blocks, al)
    requires b != NULL && b in h.blocks && b !in al
    ensures AllocInsert(h, b, al) == h'
    ensures j == (if al == [] then 0 else AllocSlot(al, b, 0) + 1) && j <= |al|
    ensures Chain(h'.blocks, h'.allocList, al[..j] + [b] + al[j..])
    ensures AllocLinked(h'.blocks, al[..j] + [b] + al[j..])
    ensures h'.freeList == h.freeList && h'.words == h.words
    ensures SameLayout(h.blocks, h'.blocks) && h'.blocks.Keys == h.blocks.Keys
    ensures forall y :: y in h.blocks && y !in al && y != b ==> h'.blocks[y] == h.blocks[y]
  {
    h' := AllocInsert(h, b, al);
    if al == [] {
      j := 0;
      assert al[..j] + [b] + al[j..] == [b];
    } else {
      j := AllocSlot(al, b, 0) + 1;
      LinkAfterLists(h.blocks, h.allocList, al, b, j, h'.blocks);
    }
  }

  /** The relinking of lines 180-186 on the maps. */
  lemma LinkAfterLists(m: map<int, Block>, head: int, al: seq<int>, b: int, j: nat, m': map<int, Block>)
    requires Chain(m, head, al) && AllocLinked(m, al) && 0 < j <= |al|
    requires b != NULL && b in m && b !in al
    requires m' == LinkAfter(m, al[j - 1], b)
    ensures Chain(m', head, al[..j] + [b] + al[j..]) && AllocLinked(m', al[..j] + [b] + al[j..])
    ensures SameLayout(m, m') && m'.Keys == m.Keys
    ensures forall y :: y in m && y !in al && y != b ==> m'[y] == m[y]
  {
    var node, n := al[j - 1], Elem(al, j);
    assert Hdr(m, node).next == n;
    var m1 := SetLinks(m, b, n, node);
    var m2 := SetNext(m1, node, b);
    assert Hdr(m2, b).next == n;
    assert m' == SetPrevIfAny(m2, n, b);
    forall k | 0 <= k < |al| && k != j - 1
      ensures m'[al[k]].next == m[al[k]].next
    {
      assert al[k] != b && al[k] != node;
    }
    ChainInsert(m, head, al, m', head, j, b);
    forall k | 0 <= k < |al| && k != j
      ensures m'[al[k]].prev == m[al[k]].prev
    {
      assert al[k] != b && (n == NULL || al[k] != n);
    }
    AllocLinkedInsert(m, al, m', j, b);
  }

  /** The back links of al with b inserted at position j, once b points
      back at al[j - 1] and al[j] back at b. */
  lemma AllocLinkedInsert(m: map<int, Block>, al: seq<int>, m': map<int, Block>, j: nat, b: int)
    requires 0 < j <= |al| && (forall k :: 0 <= k < |al| ==> al[k] in m && al[k] in m')
    requires AllocLinked(m, al) && b in m' && b !in al
    requires m'[b].prev == al[j - 1] && (j < |al| ==> m'[al[j]].prev == b)
    requires forall k :: 0 <= k < |al| && k != j ==> m'[al[k]].prev == m[al[k]].prev
    ensures AllocLinked(m', al[..j] + [b] + al[j..])
  {
    var al' := al[..j] + [b] + al[j..];
    forall k | 0 < k < |al'|
      ensures m'[al'[k]].prev == al'[k - 1]
    {
      if k < j {
        assert al'[k] == al[k] && al'[k - 1] == al[k - 1];
      } else if k == j {
        assert al'[k] == b && al'[k - 1] == al[j - 1];
      } else if k == j + 1 {
        assert al'[k] == al[j] && al'[k - 1] == b;
      } else {
        assert al'[k] == al[k - 1] && al'[k - 1] == al[k - 2];
      }
    }
    forall x, y | 0 <= x < y < |al'|
      ensures al'[x] != al'[y]
    {
      if x != j && y != j {
        var x0 := if x < j then x else x - 1;
        var y0 := if y < j then y else y - 1;
        assert al'[x] == al[x0] && al'[y] == al[y0];
      } else if x == j {
        assert al'[y] == al[y - 1];
      } else {
        assert al'[x] == al[x];
      }
    }
  }

  // ---------------------------------------------------------------------
  // __kmalloc on the two lists (lines 76-192)
  // ---------------------------------------------------------------------

  /** Whether a block of the given size is split for total bytes. */
  predicate Splits(size: int, total: int) {
    size > total && size - total > MIN_BLOCK_SIZE
  }

  /** The free list once its head b has been handed out: the remainder of
      b when b was split, then the rest of the old list. */
  ghost function Rest(m: map<int, Block>, fs: seq<int>, total: int): seq<int>
    requires fs != []
  {
    (if Splits(Hdr(m, fs[0]).size, total) then [fs[0] + total] else []) + fs[1..]
  }

  /** After the split of the head, following `next` from the head's new
      successor visits Rest. Every block on it is a block of fs other than
      the head, or lies inside the head. */
  lemma HeadSplitChain(m: map<int, Block>, fs: seq<int>, total: int, m1: map<int, Block>)
    requires fs != [] && Chain(m, fs[0], fs) && Distinct(fs) && total > 0 && fs[0] > NULL
    requires forall y :: y in fs ==> !(fs[0] < y < fs[0] + m[fs[0]].size)
    requires m1 == Split(m, fs[0], total)
    ensures Chain(m1, Hdr(m1, fs[0]).next, Rest(m, fs, total))
    ensures forall y :: y in Rest(m, fs, total) ==>
      y != fs[0] && (y in fs || fs[0] < y < fs[0] + m[fs[0]].size)
  {
    var b := fs[0];
    var split := SplitPieces(m, b, total);
    forall k | 1 <= k < |fs|
      ensures fs[k] != b && fs[k] in m1 && m1[fs[k]] == m[fs[k]]
    {
      assert fs[k] in fs;
    }
    if split {
      RemainderChain(m, fs, total, m1);
    } else {
      var rest := fs[1..];
      forall k | 0 <= k < |rest| - 1
        ensures m1[rest[k]].next == rest[k + 1]
      {
        assert rest[k] == fs[k + 1] && rest[k + 1] == fs[k + 2];
      }
    }
  }

  /** HeadSplitChain when the head is split: the remainder comes first. */
  lemma RemainderChain(m: map<int, Block>, fs: seq<int>, total: int, m1: map<int, Block>)
    requires fs != [] && Chain(m, fs[0], fs) && total > 0 && fs[0] > NULL
    requires Splits(m[fs[0]].size, total) && m1 == Split(m, fs[0], total)
    requires forall k :: 1 <= k < |fs| ==> fs[k] in m1 && m1[fs[k]] == m[fs[k]]
    ensures Chain(m1, Hdr(m1, fs[0]).next, [fs[0] + total] + fs[1..])
  {
    var b, rest := fs[0], [fs[0] + total] + fs[1..];
    var m2 := m[b + total := Block(m[b].size - total, m[b].next, m[b].prev, GUARD_MAGIC)];
    assert m1 == m2[b := Hdr(m2, b).(next := b + total, size := total)];
    assert m1[b + total].next == m[b].next == Elem(fs, 1);
    forall k | 0 <= k < |rest| - 1
      ensures m1[rest[k]].next == rest[k + 1]
    {
      if k > 0 {
        assert rest[k] == fs[k] && rest[k + 1] == fs[k + 1];
      }
    }
    assert rest[|rest| - 1] == if |fs| == 1 then b + total else fs[|fs| - 1];
  }

  /** Lines 76-154 when the head b of the free list fits: b is split,
      the head moves on to b's new successor and b gets its guards; the
      ASSERT_HEAP of line 143 then panics unless that successor lies in
      the heap. */
  lemma MallocShape(h: Image, bytes: int, flags: bv32, start: int, end: int, fs: seq<int>, al: seq<int>)
    returns (h2: Image)
    requires 0 <= bytes < TWO32 && fs != [] && h.freeList == fs[0] && fs[0] % GRANULARITY == 0
    requires Hdr(h.blocks, fs[0]).size >= TotalBytes(bytes)
    ensures var m1 := Split(h.blocks, fs[0], TotalBytes(bytes));
      h2 == Guard(h.(blocks := m1, freeList := Hdr(m1, fs[0]).next), fs[0])
    ensures Malloc(h, bytes, flags, start, end, fs, al) ==
      if InHeap(h2.freeList, start, end) then Returns((AllocInsert(h2, fs[0], al), fs[0] + HEADER))
      else Panics("ASSERT_HEAP(free_list)")
  {
    var total := TotalBytes(bytes);
    assert FirstFit(h.blocks, fs, total, 0) == 0;
    var m1 := Split(h.blocks, fs[0], total);
    h2 := Guard(h.(blocks := m1, freeList := Hdr(m1, fs[0]).next), fs[0]);
  }

  /** Lines 113-143 when the one free block is handed out whole: its
      successor, and so the new free_list, is NULL, which is not a heap
      pointer, and ASSERT_HEAP panics. This holds both when the block fits
      too closely to be split and when it is too small for the request. */
  lemma MallocLastBlockWhole(h: Image, bytes: int, flags: bv32, start: int, end: int, b: int, al: seq<int>)
    requires 0 <= bytes < TWO32 && start > NULL
    requires Chain(h.blocks, h.freeList, [b]) && b % GRANULARITY == 0
    requires !Splits(h.blocks[b].size, TotalBytes(bytes))
    ensures Malloc(h, bytes, flags, start, end, [b], al) == Panics("ASSERT_HEAP(free_list)")
  {
    assert FirstFit(h.blocks, [b], TotalBytes(bytes), 0) == 0;
    assert Split(h.blocks, b, TotalBytes(bytes)) == h.blocks;
  }

  /** Where the rear guard of a block of the given size starts. */
  function Rear(b: int, size: int): int {
    b + size - 8
  }

  /** The two rear guard words written. */
  function RearGuards(w: map<int, int>, rear: int): map<int, int> {
    w[rear := GUARD_MAGIC][rear + 4 := GUARD_MAGIC]
  }

  /** Lines 152-154 on the maps: only b's guard and its two rear words. */
  lemma GuardShape(h1: Image, b: int) returns (h2: Image)
    requires b in h1.blocks
    ensures h2 == Guard(h1, b)
    ensures h2.blocks == h1.blocks[b := h1.blocks[b].(guard := GUARD_MAGIC)]
    ensures h2.words == RearGuards(h1.words, Rear(b, h1.blocks[b].size))
    ensures h2.freeList == h1.freeList && h2.allocList == h1.allocList
  {
    h2 := Guard(h1, b);
  }

  /** Lines 76-192 when the head of the free list is big enough and the
      free list left behind is not empty and starts in the heap, so that
      the ASSERT_HEAP of line 143 holds (MallocShape and
      MallocLastBlockWhole give the other case): the head b is handed out
      as b + 32. Whether or not it was split, the free list moves on past
      it, and b joins the alloc list at the place the scan finds, its front
      guard and both rear guard words holding the magic value. Nothing off
      the two lists changes but b and its remainder. */
  lemma MallocAtHead(h: Image, bytes: int, flags: bv32, start: int, end: int, fs: seq<int>, al: seq<int>)
    returns (h': Image, j: nat)
    requires 0 <= bytes <= TWO32 - 48
    requires Chain(h.blocks, h.freeList, fs) && Chain(h.blocks, h.allocList, al) && AllocLinked(h.blocks, al)
    requires fs != [] && Distinct(fs) && forall y :: y in al ==> y !in fs
    requires fs[0] > NULL && fs[0] % GRANULARITY == 0 && h.blocks[fs[0]].size >= TotalBytes(bytes)
    requires forall y :: y in fs || y in al ==> !(fs[0] < y < fs[0] + h.blocks[fs[0]].size)
    requires Rest(h.blocks, fs, TotalBytes(bytes)) != [] && InHeap(Rest(h.blocks, fs, TotalBytes(bytes))[0], start, end)
    ensures Malloc(h, bytes, flags, start, end, fs, al) == Returns((h', fs[0] + HEADER))
    ensures Chain(h'.blocks, h'.freeList, Rest(h.blocks, fs, TotalBytes(bytes)))
    ensures j <= |al| && Chain(h'.blocks, h'.allocList, al[..j] + [fs[0]] + al[j..])
    ensures AllocLinked(h'.blocks, al[..j] + [fs[0]] + al[j..])
    ensures fs[0] in h'.blocks && h'.blocks[fs[0]].guard == GUARD_MAGIC
    ensures h'.blocks[fs[0]].size ==
      if Splits(h.blocks[fs[0]].size, TotalBytes(bytes)) then TotalBytes(bytes) else h.blocks[fs[0]].size
    ensures h'.words == RearGuards(h.words, Rear(fs[0], h'.blocks[fs[0]].size))
    ensures forall y :: y in h.blocks && y !in al && y != fs[0] && y != fs[0] + TotalBytes(bytes) ==>
      y in h'.blocks && h'.blocks[y] == h.blocks[y]
  {
    var b, total := fs[0], TotalBytes(bytes);
    var h2 := Prepared(h, bytes, fs, al);
    var h2' := MallocShape(h, bytes, flags, start, end, fs, al);
    h', j := AllocInsertStep(h2, b, al);
    RestKept(h2.blocks, h'.blocks, h'.freeList, Rest(h.blocks, fs, total), al, b);
  }

  /** Lines 89-146: whatever kmalloc hands out is NULL, under HEAP_FAILOK on
      an empty free list, or the header plus 32 of a block of the free list,
      and 8-aligned (the ASSERT of line 146 cannot fail). When it returns,
      free_list is where it was or lies in the heap (the ASSERT_HEAP of
      line 143 held). */
  lemma MallocResult(h: Image, bytes: int, flags: bv32, start: int, end: int, fs: seq<int>, al: seq<int>)
    requires 0 <= bytes < TWO32
    requires Malloc(h, bytes, flags, start, end, fs, al).Returns?
    ensures var p := Malloc(h, bytes, flags, start, end, fs, al).value.1;
      || (p == NULL && fs == [] && flags & HEAP_FAILOK != 0)
      || (p - HEADER in fs && p % GRANULARITY == 0)
    ensures var h' := Malloc(h, bytes, flags, start, end, fs, al).value.0;
      h'.freeList == h.freeList || InHeap(h'.freeList, start, end)
  {
    if fs != [] {
      var total := TotalBytes(bytes);
      var b := fs[FirstFit(h.blocks, fs, total, 0)];
      assert b % GRANULARITY == 0;
      assert (b + HEADER) % GRANULARITY == 0;
      var m1 := Split(h.blocks, b, total);
      var h1 := h.(blocks := m1, freeList := if h.freeList == b then Hdr(m1, b).next else h.freeList);
      AllocInsertLayout(Guard(h1, b), b, al);
    }
  }

  /** The split and the front guard touch only the block taken and its
      remainder. */
  lemma TakeKeeps(m: map<int, Block>, b: int, total: int, m2: map<int, Block>)
    requires b in m && total >= 0
    requires m2 == Split(m, b, total)[b := Split(m, b, total)[b].(guard := GUARD_MAGIC)]
    ensures forall y :: y in m && y != b && (y != b + total || !Splits(m[b].size, total)) ==> y in m2 && m2[y] == m[y]
  {
  }

  /** An alloc list clear of b (and of c when that is written too) survives
      a step that touches only those. */
  lemma AllocKeptBut(m: map<int, Block>, m': map<int, Block>, head: int, al: seq<int>, b: int, c: int, both: bool)
    requires Chain(m, head, al) && AllocLinked(m, al)
    requires forall y :: y in al ==> y != b && (y != c || !both)
    requires forall y :: y in m && y != b && (y != c || !both) ==> y in m' && m'[y] == m[y]
    ensures Chain(m', head, al) && AllocLinked(m', al)
  {
    forall k | 0 <= k < |al|
      ensures al[k] in m' && m'[al[k]] == m[al[k]]
    {
      assert al[k] in al;
    }
  }

  /** A list that keeps clear of al and b survives b's insertion into al. */
  lemma RestKept(m: map<int, Block>, m': map<int, Block>, head: int, s: seq<int>, al: seq<int>, b: int)
    requires Chain(m, head, s) && forall y :: y in s ==> y !in al && y != b
    requires forall y :: y in m && y !in al && y != b ==> y in m' && m'[y] == m[y]
    ensures Chain(m', head, s)
  {
    forall k | 0 <= k < |s|
      ensures s[k] in m' && m'[s[k]] == m[s[k]]
    {
      assert s[k] in s;
    }
  }

  /** The heap of MallocAtHead just before b joins the alloc list: the free
      list is Rest, the alloc list is untouched, b has its guards. */
  lemma Prepared(h: Image, bytes: int, fs: seq<int>, al: seq<int>) returns (h2: Image)
    requires 0 <= bytes <= TWO32 - 48
    requires Chain(h.blocks, h.freeList, fs) && Chain(h.blocks, h.allocList, al) && AllocLinked(h.blocks, al)
    requires fs != [] && Distinct(fs) && forall y :: y in al ==> y !in fs
    requires fs[0] > NULL && fs[0] % GRANULARITY == 0 && h.blocks[fs[0]].size >= TotalBytes(bytes)
    requires forall y :: y in fs || y in al ==> !(fs[0] < y < fs[0] + h.blocks[fs[0]].size)
    ensures var m1 := Split(h.blocks, fs[0], TotalBytes(bytes));
      h2 == Guard(h.(blocks := m1, freeList := Hdr(m1, fs[0]).next), fs[0])
    ensures Chain(h2.blocks, h2.freeList, Rest(h.blocks, fs, TotalBytes(bytes)))
    ensures Chain(h2.blocks, h2.allocList, al) && AllocLinked(h2.blocks, al)
    ensures fs[0] in h2.blocks && fs[0] !in al
    ensures forall y :: y in Rest(h.blocks, fs, TotalBytes(bytes)) ==> y !in al && y != fs[0]
    ensures h2.blocks[fs[0]].guard == GUARD_MAGIC
    ensures h2.blocks[fs[0]].size ==
      if Splits(h.blocks[fs[0]].size, TotalBytes(bytes)) then TotalBytes(bytes) else h.blocks[fs[0]].size
    ensures h2.words == RearGuards(h.words, Rear(fs[0], h2.blocks[fs[0]].size))
    ensures forall y :: y in h.blocks && y != fs[0] && y != fs[0] + TotalBytes(bytes) ==>
      y in h2.blocks && h2.blocks[y] == h.blocks[y]
  {
    var b, total := fs[0], TotalBytes(bytes);
    SizingBounds(bytes);
    var split := SplitPieces(h.blocks, b, total);
    var m1 := Split(h.blocks, b, total);
    HeadSplitChain(h.blocks, fs, total, m1);
    var h1 := h.(blocks := m1, freeList := Hdr(m1, b).next);
    h2 := GuardShape(h1, b);
    assert b in fs;
    TakeKeeps(h.blocks, b, total, h2.blocks);
    AllocKeptBut(h.blocks, h2.blocks, h.allocList, al, b, b + total, split);
    var rest := Rest(h.blocks, fs, total);
    forall y | y in rest
      ensures y !in al && y != b
    {
    }
    ChainFrame(m1, h2.blocks, h2.freeList, rest);
  }

  // ---------------------------------------------------------------------
  // The other outcomes of __kmalloc
  // ---------------------------------------------------------------------

  /** Lines 101-111: with an empty free list kmalloc returns NULL, leaving
      the heap as it was, exactly when HEAP_FAILOK is set, and panics
      otherwise. */
  lemma MallocEmpty(h: Image, bytes: int, flags: bv32, start: int, end: int, al: seq<int>)
    requires 0 <= bytes < TWO32
    ensures Malloc(h, bytes, flags, start, end, [], al).Returns? <==> flags & HEAP_FAILOK != 0
    ensures Malloc(h, bytes, flags, start, end, [], al).Returns? ==> Malloc(h, bytes, flags, start, end, [], al).value == (h, NULL)
    ensures !Malloc(h, bytes, flags, start, end, [], al).Returns? ==> Malloc(h, bytes, flags, start, end, [], al).Panics?
  {
  }

  /** Lines 89-92, as the code is written: when no free block is big
      enough the scan stops at the last one, and that block is handed out
      whole although it is smaller than the request needs. Only when that
      block is also the head does free_list move, to its successor, and
      ASSERT_HEAP (line 143) panics unless the successor is in the heap. */
  lemma MallocNoFit(h: Image, bytes: int, flags: bv32, start: int, end: int, fs: seq<int>, al: seq<int>)
    requires 0 <= bytes < TWO32 && fs != [] && fs[|fs| - 1] % GRANULARITY == 0
    requires forall k :: 0 <= k < |fs| ==> Hdr(h.blocks, fs[k]).size < TotalBytes(bytes)
    ensures var b := fs[|fs| - 1];
      Malloc(h, bytes, flags, start, end, fs, al).Returns? <==>
        h.freeList != b || InHeap(Hdr(h.blocks, b).next, start, end)
    ensures !Malloc(h, bytes, flags, start, end, fs, al).Returns? ==>
      Malloc(h, bytes, flags, start, end, fs, al) == Panics("ASSERT_HEAP(free_list)")
    ensures Malloc(h, bytes, flags, start, end, fs, al).Returns? ==>
      Malloc(h, bytes, flags, start, end, fs, al).value.1 == fs[|fs| - 1] + HEADER
    ensures Hdr(h.blocks, fs[|fs| - 1]).size < TotalBytes(bytes)
  {
    var k := FirstFit(h.blocks, fs, TotalBytes(bytes), 0);
    assert k == |fs| - 1;
    assert Split(h.blocks, fs[k], TotalBytes(bytes)) == h.blocks;
  }

  /** Lines 76-154 when the block the scan picks is fs[k], not the head. */
  lemma MallocShapeAt(h: Image, bytes: int, flags: bv32, start: int, end: int, fs: seq<int>, al: seq<int>, k: nat)
    returns (h2: Image)
    requires 0 <= bytes < TWO32 && k < |fs| && k == FirstFit(h.blocks, fs, TotalBytes(bytes), 0)
    requires h.freeList != fs[k] && fs[k] % GRANULARITY == 0
    ensures h2 == Guard(h.(blocks := Split(h.blocks, fs[k], TotalBytes(bytes))), fs[k])
    ensures Malloc(h, bytes, flags, start, end, fs, al) == Returns((AllocInsert(h2, fs[k], al), fs[k] + HEADER))
  {
    h2 := Guard(h.(blocks := Split(h.blocks, fs[k], TotalBytes(bytes))), fs[k]);
  }

  /** Lines 139-143, as the code is written: a block found past the head
      of the free list is handed out but never unlinked from it. The free
      list keeps its head, its block before still points at the block, and
      the block is on the alloc list as well. */
  lemma MallocNonHeadStaysFree(h: Image, bytes: int, flags: bv32, start: int, end: int, fs: seq<int>, al: seq<int>, k: nat)
    returns (h': Image, j: nat)
    requires 0 <= bytes <= TWO32 - 48
    requires Chain(h.blocks, h.freeList, fs) && Chain(h.blocks, h.allocList, al) && AllocLinked(h.blocks, al)
    requires Ascending(fs) && forall y :: y in al ==> y !in fs
    requires 0 < k < |fs| && k == FirstFit(h.blocks, fs, TotalBytes(bytes), 0) && fs[k] % GRANULARITY == 0
    requires forall y :: y in al ==> !(fs[k] < y < fs[k] + h.blocks[fs[k]].size)
    ensures Malloc(h, bytes, flags, start, end, fs, al) == Returns((h', fs[k] + HEADER))
    ensures h'.freeList == h.freeList && fs[k - 1] in h'.blocks && h'.blocks[fs[k - 1]].next == fs[k]
    ensures j <= |al| && Chain(h'.blocks, h'.allocList, al[..j] + [fs[k]] + al[j..])
  {
    var b, total := fs[k], TotalBytes(bytes);
    SizingBounds(bytes);
    assert fs[0] < b && fs[k - 1] < b && b in fs;
    var split := SplitPieces(h.blocks, b, total);
    var h2 := MallocShapeAt(h, bytes, flags, start, end, fs, al, k);
    var h1 := h.(blocks := Split(h.blocks, b, total));
    var h2' := GuardShape(h1, b);
    TakeKeeps(h.blocks, b, total, h2.blocks);
    AllocKeptBut(h.blocks, h2.blocks, h.allocList, al, b, b + total, split);
    assert fs[k - 1] in fs;
    assert h2.blocks[fs[k - 1]] == h.blocks[fs[k - 1]];
    h', j := AllocInsertStep(h2, b, al);
  }

  /** Lines 76-154 on a request of 2^32 - 40 bytes, whose sizing wraps to a
      total of 0: the head of the free list is handed out with size 0, and
      the free list still starts at it, because the split pointed it at
      itself, so the ASSERT_HEAP of line 143 passes. */
  lemma MallocHugeRequest(h: Image, flags: bv32, start: int, end: int, fs: seq<int>, al: seq<int>) returns (h': Image)
    requires fs != [] && h.freeList == fs[0] && fs[0] % GRANULARITY == 0 && InHeap(fs[0], start, end)
    requires fs[0] in h.blocks && h.blocks[fs[0]].size > MIN_BLOCK_SIZE
    ensures Malloc(h, TWO32 - 40, flags, start, end, fs, al) == Returns((h', fs[0] + HEADER))
    ensures h'.freeList == fs[0] && fs[0] in h'.blocks && h'.blocks[fs[0]].size == 0
  {
    SizingWrapsToZero();
    var b := fs[0];
    var h2 := MallocShape(h, TWO32 - 40, flags, start, end, fs, al);
    SplitOfZeroLoops(h.blocks, b);
    assert h2.freeList == b && h2.blocks[b].size == 0;
    h' := AllocInsert(h2, b, al);
    AllocInsertLayout(h2, b, al);
  }

  /** The alloc-list insertion moves no free-list head and no size. */
  lemma AllocInsertLayout(h: Image, b: int, al: seq<int>)
    ensures AllocInsert(h, b, al).freeList == h.freeList && AllocInsert(h, b, al).words == h.words
    ensures SameLayout(h.blocks, AllocInsert(h, b, al).blocks)
  {
    if h.allocList != NULL && al != [] {
      var node := al[AllocSlot(al, b, 0)];
      var m1 := SetLinks(h.blocks, b, Hdr(h.blocks, node).next, node);
      var m2 := SetNext(m1, node, b);
      assert SameLayout(h.blocks, m1) && SameLayout(m1, m2);
    }
  }
}
