/** The first-fit kernel heap of kernel/vmm/heap.c.

    Every block starts with a `struct block_t` header (size, next, prev, the
    HEAP_TRACK bookkeeping and a front guard word; 32 bytes). Free blocks are
    chained from `free_list`, allocated ones from `alloc_list`, both through
    the headers' `next` pointers. The model keeps the headers in a map from
    their address to their fields, and the two guard words at the rear of an
    allocated block in a second map; everything that kmalloc and kfree read
    and write is one of these. Each step of the C code is a function that
    performs its writes in the C order, reading every pointer from the
    memory as it is at that point. The lists, followed from their heads, are
    the ghost sequences `fs` and `al` (`Chain`). */
module KernelHeap {
  import opened Common

  const NULL: int := 0

  /** HEAP_ALLOC_GRANULARITY (kernel/kernel/config.h:24). */
  const GRANULARITY: int := 8

  /** sizeof(struct block_t) with HEAP_TRACK on: eight 32-bit fields. */
  const HEADER: int := 32

  /** MIN_BLOCK_SIZE: a header and one word. */
  const MIN_BLOCK_SIZE: int := HEADER + 4

  const GUARD_MAGIC: int := 0xbdbd_bdbd

  /** What memset(ptr, 0xce, ...) leaves in a word of a freed block. */
  const POISON: int := 0xcece_cece

  /** kmalloc's flag: return NULL rather than panic when nothing fits. */
  const HEAP_FAILOK: bv32 := 2

  /** The fields of a block header that the heap reads and writes. */
  datatype Block = Block(size: int, next: int, prev: int, guard: int)

  /** The heap's memory as kmalloc and kfree see it. */
  datatype Image = Image(blocks: map<int, Block>, words: map<int, int>, freeList: int, allocList: int)

  /** The header at address a (all zeros where none was ever written). */
  function Hdr(m: map<int, Block>, a: int): Block {
    if a in m then m[a] else Block(0, NULL, NULL, 0)
  }

  /** a->next = v. */
  function SetNext(m: map<int, Block>, a: int, v: int): (m': map<int, Block>)
    ensures m'.Keys == m.Keys + {a} && m'[a] == Hdr(m, a).(next := v)
    ensures forall y :: y in m && y != a ==> m'[y] == m[y]
  {
    m[a := Hdr(m, a).(next := v)]
  }

  /** a->next = v; a->prev = u. */
  function SetLinks(m: map<int, Block>, a: int, v: int, u: int): (m': map<int, Block>)
    ensures m'.Keys == m.Keys + {a} && m'[a] == Hdr(m, a).(next := v, prev := u)
    ensures forall y :: y in m && y != a ==> m'[y] == m[y]
  {
    m[a := Hdr(m, a).(next := v, prev := u)]
  }

  /** if (a) a->prev = u. */
  function SetPrevIfAny(m: map<int, Block>, a: int, u: int): (m': map<int, Block>)
    ensures a != NULL ==> m'.Keys == m.Keys + {a} && m'[a] == Hdr(m, a).(prev := u)
    ensures a == NULL ==> m' == m
    ensures forall y :: y in m && y != a ==> m'[y] == m[y]
  {
    if a != NULL then m[a := Hdr(m, a).(prev := u)] else m
  }

  // ---------------------------------------------------------------------
  // Request sizing (lines 76-78)
  // ---------------------------------------------------------------------

  /** ROUND_UP(x, 8) of kernel/lib/lib.h on a uint32: the addition wraps. */
  function RoundUp8(x: int): int
    requires 0 <= x < TWO32
  {
    var s := U32(x + GRANULARITY - 1);
    s - s % GRANULARITY
  }

  /** req_bytes: the user bytes, rounded up. */
  function RequestBytes(bytes: int): int
    requires 0 <= bytes < TWO32
  {
    RoundUp8(bytes)
  }

  /** total_bytes: header, user bytes and rear guard, rounded up. */
  function TotalBytes(bytes: int): int
    requires 0 <= bytes < TWO32
  {
    RoundUp8(U32(HEADER + RequestBytes(bytes) + 4))
  }

  /** Up to 2^32 - 48 bytes a request is rounded up to the next multiple of
      8 and the block adds the 32-byte header and the 8-byte rear guard. Above
      that the uint32 additions wrap and the block is at most 40 bytes, too
      small for the request. */
  lemma SizingBounds(bytes: int)
    requires 0 <= bytes < TWO32
    ensures bytes <= TWO32 - 48 ==>
      && RequestBytes(bytes) % 8 == 0 && bytes <= RequestBytes(bytes) < bytes + 8
      && TotalBytes(bytes) == RequestBytes(bytes) + 40
    ensures bytes > TWO32 - 48 ==> 0 <= TotalBytes(bytes) <= 40 && TotalBytes(bytes) % 8 == 0
    ensures TotalBytes(bytes) >= bytes + HEADER + 4 <==> bytes <= TWO32 - 48
  {
    var req := RequestBytes(bytes);
    RoundUpFacts(bytes);
    if bytes <= TWO32 - 48 {
      U32Low(HEADER + req + 4);
      RoundUpFacts(req + 36);
    } else if bytes <= TWO32 - 8 {
      assert TWO32 - 40 <= req <= TWO32 - 8;
      if req == TWO32 - 40 {
        U32Low(HEADER + req + 4);
        RoundUpFacts(req + 36);
      } else {
        U32High(HEADER + req + 4);
        RoundUpFacts(req + 36 - TWO32);
      }
    } else {
      assert req == 0;
      RoundUpFacts(36);
    }
  }

  /** A value below 2^32 is its own uint32. */
  lemma U32Low(x: int)
    requires 0 <= x < TWO32
    ensures U32(x) == x
  {
    assert x / TWO32 == 0;
  }

  /** A value in [2^32, 2^33) wraps once. */
  lemma U32High(x: int)
    requires TWO32 <= x < TWO32 + TWO32
    ensures U32(x) == x - TWO32
  {
    assert x / TWO32 == 1;
  }

  /** ROUND_UP(x, 8) is the next multiple of 8 unless the addition wraps,
      which makes it 0. */
  lemma RoundUpFacts(x: int)
    requires 0 <= x < TWO32
    ensures RoundUp8(x) % 8 == 0
    ensures x <= TWO32 - 8 ==> x <= RoundUp8(x) < x + 8
    ensures x > TWO32 - 8 ==> RoundUp8(x) == 0
  {
    if x > TWO32 - 8 {
      U32High(x + GRANULARITY - 1);
    } else {
      U32Low(x + GRANULARITY - 1);
    }
  }

  /** A request of 2^32 - 40 bytes wraps to a block of total size 0. */
  lemma SizingWrapsToZero()
    ensures TotalBytes(TWO32 - 40) == 0
  {
  }

  // ---------------------------------------------------------------------
  // The lists
  // ---------------------------------------------------------------------

  /** Following `next` from head visits exactly s, and ends at NULL. */
  ghost predicate Chain(m: map<int, Block>, head: int, s: seq<int>) {
    && (forall k :: 0 <= k < |s| ==> s[k] != NULL && s[k] in m)
    && (forall k :: 0 <= k < |s| - 1 ==> m[s[k]].next == s[k + 1])
    && (if s == [] then head == NULL else head == s[0] && m[s[|s| - 1]].next == NULL)
  }

  /** The first-fit scan of lines 89-92 on the free list fs, from position
      k: the first block at least total bytes long, or the last block when
      none is. */
  function FirstFit(m: map<int, Block>, fs: seq<int>, total: int, k: nat): (i: nat)
    requires k < |fs|
    ensures k <= i < |fs|
    ensures forall j :: k <= j < i ==> Hdr(m, fs[j]).size < total
    ensures i == |fs| - 1 || Hdr(m, fs[i]).size >= total
    decreases |fs| - k
  {
    if k == |fs| - 1 || Hdr(m, fs[k]).size >= total then k else FirstFit(m, fs, total, k + 1)
  }

  /** The alloc-list scan of lines 168-174, from position k: the first block
      followed by a block above b, with b between them, or the last block. */
  function AllocSlot(al: seq<int>, b: int, k: nat): (j: nat)
    requires k < |al|
    ensures k <= j < |al|
    ensures forall i :: k <= i < j ==> !(al[i] < b && al[i + 1] > b)
    ensures j == |al| - 1 || (al[j] < b && al[j + 1] > b)
    decreases |al| - k
  {
    if k == |al| - 1 || (al[k] < b && al[k + 1] > b) then k else AllocSlot(al, b, k + 1)
  }

  /** The search of line 305, from position k: where hdr is in s, or |s|. */
  function IndexOf(s: seq<int>, x: int, k: nat): (i: nat)
    requires k <= |s|
    ensures k <= i <= |s|
    ensures i < |s| ==> s[i] == x
    ensures forall j :: k <= j < i ==> s[j] != x
    decreases |s| - k
  {
    if k == |s| || s[k] == x then k else IndexOf(s, x, k + 1)
  }

  /** The free-list scan of lines 343-358, from position k: the first block
      below hdr whose successor is above hdr or NULL, or |fs| when there is
      none. */
  function FreeSlot(fs: seq<int>, hdr: int, k: nat): (i: nat)
    requires k <= |fs|
    ensures k <= i <= |fs|
    ensures i < |fs| ==> fs[i] < hdr && (i == |fs| - 1 || fs[i + 1] > hdr)
    ensures forall j :: k <= j < i ==> !(fs[j] < hdr && (j == |fs| - 1 || fs[j + 1] > hdr))
    decreases |fs| - k
  {
    if k == |fs| || (fs[k] < hdr && (k == |fs| - 1 || fs[k + 1] > hdr)) then k else FreeSlot(fs, hdr, k + 1)
  }

  // ---------------------------------------------------------------------
  // __kmalloc (lines 65-209)
  // ---------------------------------------------------------------------

  /** Lines 114-136: a block more than MIN_BLOCK_SIZE bytes longer than
      total is split; the remainder at b + total takes over b's links and
      b shrinks to total. */
  function Split(m: map<int, Block>, b: int, total: int): map<int, Block> {
    var blk := Hdr(m, b);
    if blk.size > total && blk.size - total > MIN_BLOCK_SIZE then
      var m1 := m[b + total := Block(blk.size - total, blk.next, blk.prev, GUARD_MAGIC)];
      m1[b := Hdr(m1, b).(next := b + total, size := total)]
    else m
  }

  /** Lines 152-154: both rear guard words and the front guard. */
  function Guard(h: Image, b: int): Image {
    var rear := b + Hdr(h.blocks, b).size - 8;
    h.(words := h.words[rear := GUARD_MAGIC][rear + 4 := GUARD_MAGIC],
       blocks := h.blocks[b := Hdr(h.blocks, b).(guard := GUARD_MAGIC)])
  }

  /** Lines 178-186: b goes in after node. */
  function LinkAfter(m: map<int, Block>, node: int, b: int): map<int, Block> {
    var m1 := SetLinks(m, b, Hdr(m, node).next, node);
    var m2 := SetNext(m1, node, b);
    SetPrevIfAny(m2, Hdr(m2, b).next, b)
  }

  /** Lines 157-192: b joins the alloc list, which is al. */
  function AllocInsert(h: Image, b: int, al: seq<int>): Image {
    if h.allocList == NULL then
      h.(blocks := SetLinks(h.blocks, b, NULL, NULL), allocList := b)
    else if al == [] then h
    else h.(blocks := LinkAfter(h.blocks, al[AllocSlot(al, b, 0)], b))
  }

  /** is_heap_ptr of kernel/vmm/heap.h (lines 30-33): x lies in the heap
      range [start, end). NULL never does, as start > NULL. */
  predicate InHeap(x: int, start: int, end: int) {
    start <= x < end
  }

  /** __kmalloc(bytes, flags) on a heap of range [start, end] whose lists
      are fs and al: the new heap and the pointer returned. The free-list
      head moves on only when the block taken is the head, and then
      ASSERT_HEAP panics unless the new head lies in the heap (lines
      139-143), so taking the last free block whole panics. */
  function Malloc(h: Image, bytes: int, flags: bv32, start: int, end: int, fs: seq<int>, al: seq<int>): Outcome<(Image, int)>
    requires 0 <= bytes < TWO32
  {
    var total := TotalBytes(bytes);
    if fs == [] then
      if flags & HEAP_FAILOK != 0 then Returns((h, NULL)) else Panics("heap: malloc failed")
    else
      var b := fs[FirstFit(h.blocks, fs, total, 0)];
      if b % GRANULARITY != 0 then Panics("ASSERT((uint32)block % HEAP_ALLOC_GRANULARITY == 0)")
      else
        var m1 := Split(h.blocks, b, total);
        if h.freeList == b && !InHeap(Hdr(m1, b).next, start, end) then Panics("ASSERT_HEAP(free_list)")
        else
          var h1 := h.(blocks := m1, freeList := if h.freeList == b then Hdr(m1, b).next else h.freeList);
          Returns((AllocInsert(Guard(h1, b), b, al), b + HEADER))
  }

  // ---------------------------------------------------------------------
  // heap_merge (lines 213-241) and __kfree (lines 247-375)
  // ---------------------------------------------------------------------

  /** heap_merge(a, b): b is absorbed into a when they are linked to each
      other and a ends where b starts; the block that is left is returned. */
  function Merge(h: Image, a: int, b: int): Outcome<(Image, int)> {
    if a == NULL || b == NULL || !(a < b) then Panics("ASSERT(a < b)")
    else if Hdr(h.blocks, a).next == b && Hdr(h.blocks, b).prev == a && a + Hdr(h.blocks, a).size == b then
      Returns((h.(blocks := Absorb(h.blocks, a, b)), a))
    else Returns((h, b))
  }

  /** The writes heap_merge makes when a absorbs b (lines 228-234). */
  function Absorb(m: map<int, Block>, a: int, b: int): map<int, Block> {
    var m1 := m[a := Hdr(m, a).(size := Hdr(m, a).size + Hdr(m, b).size, next := Hdr(m, b).next)];
    SetPrevIfAny(m1, Hdr(m, b).next, a)
  }

  /** Lines 302: memset(ptr, 0xce, size - 32) poisons the rear guard words
      that lie in the user area. */
  function Poison(h: Image, hdr: int): Image {
    var end := hdr + Hdr(h.blocks, hdr).size;
    var w1 := if hdr + HEADER <= end - 8 then h.words[end - 8 := POISON] else h.words;
    var w2 := if hdr + HEADER <= end - 4 then w1[end - 4 := POISON] else w1;
    h.(words := w2)
  }

  /** Lines 305-321: hdr leaves the alloc list al. */
  function Unlink(h: Image, hdr: int, al: seq<int>): Outcome<Image> {
    var t := IndexOf(al, hdr, 0);
    var tmp := if t < |al| then al[t] else NULL;
    if h.allocList == tmp then
      if tmp == NULL then Undefined("kfree: tmp->next with tmp == NULL")
      else Returns(h.(allocList := Hdr(h.blocks, tmp).next))
    else if tmp == NULL then Undefined("kfree: tmp->prev with tmp == NULL")
    else
      var blk := Hdr(h.blocks, tmp);
      if blk.prev == NULL then Panics("ASSERT(tmp->prev)")
      else
        var m1 := SetNext(h.blocks, blk.prev, blk.next);
        Returns(h.(blocks := SetPrevIfAny(m1, blk.next, blk.prev)))
  }

  /** Lines 325-359: hdr goes into the free list fs in address order. */
  function Insert(h: Image, hdr: int, fs: seq<int>): Image {
    if hdr < h.freeList || h.freeList == NULL then
      var m1 := SetLinks(h.blocks, hdr, h.freeList, NULL);
      h.(blocks := SetPrevIfAny(m1, Hdr(m1, hdr).next, hdr), freeList := hdr)
    else
      var k := FreeSlot(fs, hdr, 0);
      if k == |fs| then h
      else
        var t := fs[k];
        var m1 := SetLinks(h.blocks, hdr, Hdr(h.blocks, t).next, t);
        var m2 := SetPrevIfAny(m1, Hdr(m1, t).next, hdr);
        h.(blocks := SetNext(m2, t, hdr))
  }

  /** Lines 362-366: merge with the previous block, then with the next. */
  function Coalesce(h: Image, hdr: int): Outcome<Image> {
    var p := Hdr(h.blocks, hdr).prev;
    match (if p != NULL then Merge(h, p, hdr) else Returns((h, hdr)))
    case Returns((h1, x)) => MergeNext(h1, x)
    case Panics(e) => Panics(e)
    case Undefined(e) => Undefined(e)
  }

  /** Lines 367-370: merge the block left over with its successor. */
  function MergeNext(h: Image, x: int): Outcome<Image> {
    var n := Hdr(h.blocks, x).next;
    if n == NULL then Returns(h)
    else match Merge(h, x, n)
      case Returns((h2, _)) => Returns(h2)
      case Panics(e) => Panics(e)
      case Undefined(e) => Undefined(e)
  }

  /** __kfree(ptr) on a heap of range [start, end] whose lists are fs and
      al: the sanity checks of lines 262-292, then the poisoning, the
      unlinking, the insertion and the merges. */
  function Free(h: Image, ptr: int, start: int, end: int, fs: seq<int>, al: seq<int>): Outcome<Image> {
    if ptr < start || ptr > end then Panics("kfree: not in valid heap range")
    else if ptr % GRANULARITY != 0 then Panics("kfree: not properly aligned")
    else if ptr - HEADER < start then Panics("kfree: block header not on heap")
    else
      var hdr := ptr - HEADER;
      if hdr !in h.blocks then Undefined("kfree: reads a header no block ever had")
      else if h.blocks[hdr].guard != GUARD_MAGIC then Panics("kfree: block header corrupt")
      else
        var check := RearGuardCheck(h.words, hdr + h.blocks[hdr].size - 8);
        if check.Panics? then Panics(check.reason)
        else if check.Undefined? then Undefined(check.reason)
        else if h.blocks[hdr].size < HEADER then Undefined("kfree: memset of size - sizeof(block_t) bytes wraps")
        else
          Release(Poison(h, hdr), hdr, fs, al)
  }

  /** Lines 281-289: the two rear guard words from rear on, in order; a
      word never written is undefined to read. */
  function RearGuardCheck(w: map<int, int>, rear: int): Outcome<()> {
    if rear !in w then Undefined("kfree: reads a rear guard never written")
    else if w[rear] != GUARD_MAGIC then Panics("kfree: user-chunk was over-run")
    else if rear + 4 !in w then Undefined("kfree: reads a rear guard never written")
    else if w[rear + 4] != GUARD_MAGIC then Panics("kfree: user-chunk was over-run")
    else Returns(())
  }

  /** Lines 305-370: the block leaves the alloc list, joins the free list
      and merges with its neighbours. */
  function Release(h: Image, hdr: int, fs: seq<int>, al: seq<int>): Outcome<Image> {
    match Unlink(h, hdr, al)
    case Returns(h1) => Coalesce(Insert(h1, hdr, fs), hdr)
    case Panics(e) => Panics(e)
    case Undefined(e) => Undefined(e)
  }

  // ---------------------------------------------------------------------
  // Lists under relinking
  // ---------------------------------------------------------------------

  /** Every header keeps its size and front guard. */
  ghost predicate SameLayout(m: map<int, Block>, m': map<int, Block>) {
    forall y :: y in m ==> y in m' && m'[y].size == m[y].size && m'[y].guard == m[y].guard
  }

  /** A chain survives any rewrite that keeps its next pointers. */
  lemma ChainFrame(m: map<int, Block>, m': map<int, Block>, head: int, s: seq<int>)
    requires Chain(m, head, s)
    requires forall k :: 0 <= k < |s| ==> s[k] in m' && m'[s[k]].next == m[s[k]].next
    ensures Chain(m', head, s)
  {
  }

  /** Pointing s[i - 1] (or the head) at x, and x at s[i], puts x into the
      chain at position i. */
  lemma ChainInsert(m: map<int, Block>, head: int, s: seq<int>, m': map<int, Block>, head': int, i: nat, x: int)
    requires Chain(m, head, s) && i <= |s| && x != NULL && x in m'
    requires forall k :: 0 <= k < |s| ==> s[k] in m'
    requires forall k :: 0 <= k < |s| && k != i - 1 ==> m'[s[k]].next == m[s[k]].next
    requires m'[x].next == (if i < |s| then s[i] else NULL)
    requires if i == 0 then head' == x else m'[s[i - 1]].next == x && head' == head
    ensures Chain(m', head', s[..i] + [x] + s[i..])
  {
    var s' := s[..i] + [x] + s[i..];
    forall k | 0 <= k < |s'| - 1
      ensures m'[s'[k]].next == s'[k + 1]
    {
      if k < i - 1 {
        assert s'[k] == s[k] && s'[k + 1] == s[k + 1];
      } else if k == i - 1 {
        assert s'[k] == s[i - 1] && s'[k + 1] == x;
      } else if k == i {
        assert s'[k] == x && s'[k + 1] == s[i];
      } else {
        assert s'[k] == s[k - 1] && s'[k + 1] == s[k];
      }
    }
  }

  /** Pointing s[i - 1] (or the head) past s[i] takes s[i] out. */
  lemma ChainRemove(m: map<int, Block>, head: int, s: seq<int>, m': map<int, Block>, head': int, i: nat)
    requires Chain(m, head, s) && i < |s|
    requires forall k :: 0 <= k < |s| ==> s[k] in m'
    requires forall k :: 0 <= k < |s| && k != i - 1 && k != i ==> m'[s[k]].next == m[s[k]].next
    requires if i == 0 then head' == (if |s| > 1 then s[1] else NULL)
             else head' == head && m'[s[i - 1]].next == (if i + 1 < |s| then s[i + 1] else NULL)
    ensures Chain(m', head', s[..i] + s[i + 1..])
  {
    var s' := s[..i] + s[i + 1..];
    forall k | 0 <= k < |s'| - 1
      ensures m'[s'[k]].next == s'[k + 1]
    {
      if k < i - 1 {
        assert s'[k] == s[k] && s'[k + 1] == s[k + 1];
      } else if k == i - 1 {
        assert s'[k] == s[i - 1] && s'[k + 1] == s[i + 1];
      } else {
        assert s'[k] == s[k + 1] && s'[k + 1] == s[k + 2];
      }
    }
  }

  /** The alloc list holds each block once, and every block but the first
      points back at its predecessor. */
  ghost predicate AllocLinked(m: map<int, Block>, al: seq<int>)
    requires forall k :: 0 <= k < |al| ==> al[k] in m
  {
    && (forall i, j :: 0 <= i < j < |al| ==> al[i] != al[j])
    && (forall k :: 0 < k < |al| ==> m[al[k]].prev == al[k - 1])
  }

  /** The block at position i of a list, or NULL past its end. */
  function Elem(s: seq<int>, i: nat): int {
    if i < |s| then s[i] else NULL
  }

  /** Lines 305-321 on the block at position t of a well-linked alloc list:
      the first block only moves the head on; any other has its
      predecessor pointed past it and its successor pointed back. */
  lemma UnlinkShape(h: Image, al: seq<int>, t: nat) returns (h': Image)
    requires Chain(h.blocks, h.allocList, al) && t < |al| && AllocLinked(h.blocks, al)
    ensures Unlink(h, al[t], al) == Returns(h')
    ensures h'.freeList == h.freeList && h'.words == h.words
    ensures t == 0 ==> h'.blocks == h.blocks && h'.allocList == Elem(al, 1)
    ensures t > 0 ==> && h'.allocList == h.allocList && al[t - 1] != Elem(al, t + 1)
                      && h'.blocks == SetPrevIfAny(SetNext(h.blocks, al[t - 1], Elem(al, t + 1)), Elem(al, t + 1), al[t - 1])
  {
    var hdr := al[t];
    assert IndexOf(al, hdr, 0) == t;
    if t > 0 {
      assert h.allocList != hdr && Hdr(h.blocks, hdr).prev == al[t - 1];
      if t + 1 < |al| {
        assert al[t - 1] != al[t + 1];
      }
    }
    h' := Unlink(h, hdr, al).value;
  }

  /** After the unlink the alloc list is al without position t, still
      well linked; the free list and every size and guard are untouched. */
  lemma UnlinkStep(h: Image, al: seq<int>, t: nat) returns (h': Image)
    requires Chain(h.blocks, h.allocList, al) && t < |al| && AllocLinked(h.blocks, al)
    ensures Unlink(h, al[t], al) == Returns(h')
    ensures Chain(h'.blocks, h'.allocList, al[..t] + al[t + 1..])
    ensures AllocLinked(h'.blocks, al[..t] + al[t + 1..])
    ensures h'.freeList == h.freeList && h'.words == h.words
    ensures SameLayout(h.blocks, h'.blocks) && h'.blocks.Keys == h.blocks.Keys
    ensures forall y :: y in h.blocks && y !in al ==> h'.blocks[y] == h.blocks[y]
    ensures al[t] !in al[..t] + al[t + 1..] && forall y :: y in al[..t] + al[t + 1..] ==> y in al
  {
    h' := UnlinkShape(h, al, t);
    UnlinkLists(h, al, t, h');
    RemovedGone(al, t);
  }

  /** A block of a list without repeats is gone once its position is. */
  lemma RemovedGone(al: seq<int>, t: nat)
    requires t < |al| && Distinct(al)
    ensures al[t] !in al[..t] + al[t + 1..] && forall y :: y in al[..t] + al[t + 1..] ==> y in al
  {
    var al' := al[..t] + al[t + 1..];
    forall k | 0 <= k < |al'|
      ensures al'[k] != al[t]
    {
      if k < t {
        assert al'[k] == al[k];
      } else {
        assert al'[k] == al[k + 1];
      }
    }
  }

  /** The list facts of UnlinkStep, from the shape of the new heap. */
  lemma UnlinkLists(h: Image, al: seq<int>, t: nat, h': Image)
    requires Chain(h.blocks, h.allocList, al) && t < |al| && AllocLinked(h.blocks, al)
    requires t == 0 ==> h'.blocks == h.blocks && h'.allocList == Elem(al, 1)
    requires t > 0 ==> && h'.allocList == h.allocList && al[t - 1] != Elem(al, t + 1)
                       && h'.blocks == SetPrevIfAny(SetNext(h.blocks, al[t - 1], Elem(al, t + 1)), Elem(al, t + 1), al[t - 1])
    ensures Chain(h'.blocks, h'.allocList, al[..t] + al[t + 1..])
    ensures AllocLinked(h'.blocks, al[..t] + al[t + 1..])
    ensures SameLayout(h.blocks, h'.blocks) && h'.blocks.Keys == h.blocks.Keys
    ensures forall y :: y in h.blocks && y !in al ==> h'.blocks[y] == h.blocks[y]
  {
    if t == 0 {
      UnlinkFirst(h.blocks, h.allocList, al, h'.allocList);
    } else {
      UnlinkInner(h.blocks, h.allocList, al, h'.blocks, t);
    }
  }

  /** Lines 310-311: the head moves on to the second block. */
  lemma UnlinkFirst(m: map<int, Block>, head: int, al: seq<int>, head': int)
    requires Chain(m, head, al) && 0 < |al| && AllocLinked(m, al) && head' == Elem(al, 1)
    ensures Chain(m, head', al[..0] + al[1..]) && AllocLinked(m, al[..0] + al[1..])
  {
    ChainRemove(m, head, al, m, head', 0);
    assert al[..0] + al[1..] == al[1..];
    AllocLinkedTail(m, al);
  }

  /** The relinking of lines 314-320 on the maps. */
  lemma UnlinkInner(m: map<int, Block>, head: int, al: seq<int>, m': map<int, Block>, t: nat)
    requires Chain(m, head, al) && 0 < t < |al| && AllocLinked(m, al) && al[t - 1] != Elem(al, t + 1)
    requires m' == SetPrevIfAny(SetNext(m, al[t - 1], Elem(al, t + 1)), Elem(al, t + 1), al[t - 1])
    ensures Chain(m', head, al[..t] + al[t + 1..]) && AllocLinked(m', al[..t] + al[t + 1..])
    ensures SameLayout(m, m') && m'.Keys == m.Keys
    ensures forall y :: y in m && y !in al ==> m'[y] == m[y]
  {
    var p, n := al[t - 1], Elem(al, t + 1);
    var m1 := SetNext(m, p, n);
    forall y | y in m && (y != p || y !in al) && (n == NULL || y != n)
      ensures m'[y] == m[y]
    {
      assert m1[y] == m[y];
    }
    forall k | 0 <= k < |al| && k != t - 1
      ensures m'[al[k]].next == m[al[k]].next
    {
      assert al[k] != p;
    }
    ChainRemove(m, head, al, m', head, t);
    forall k | 0 <= k < |al| && k != t + 1
      ensures m'[al[k]].prev == m[al[k]].prev
    {
      assert al[k] != n;
    }
    AllocLinkedRemove(m, al, m', t);
  }

  /** The back links of al without its first block. */
  lemma AllocLinkedTail(m: map<int, Block>, al: seq<int>)
    requires 0 < |al| && (forall k :: 0 <= k < |al| ==> al[k] in m) && AllocLinked(m, al)
    ensures AllocLinked(m, al[1..])
  {
    var al' := al[1..];
    forall k | 0 < k < |al'|
      ensures m[al'[k]].prev == al'[k - 1]
    {
      assert al'[k] == al[k + 1] && al'[k - 1] == al[k];
    }
    forall i, j | 0 <= i < j < |al'|
      ensures al'[i] != al'[j]
    {
      assert al'[i] == al[i + 1] && al'[j] == al[j + 1];
    }
  }

  /** The back links of al without position t, once its successor points
      back at its predecessor. */
  lemma AllocLinkedRemove(m: map<int, Block>, al: seq<int>, m': map<int, Block>, t: nat)
    requires 0 < t < |al| && (forall k :: 0 <= k < |al| ==> al[k] in m && al[k] in m')
    requires AllocLinked(m, al)
    requires t + 1 < |al| ==> m'[al[t + 1]].prev == al[t - 1]
    requires forall k :: 0 <= k < |al| && k != t + 1 ==> m'[al[k]].prev == m[al[k]].prev
    ensures AllocLinked(m', al[..t] + al[t + 1..])
  {
    var al' := al[..t] + al[t + 1..];
    forall k | 0 < k < |al'|
      ensures m'[al'[k]].prev == al'[k - 1]
    {
      if k < t {
        assert al'[k] == al[k] && al'[k - 1] == al[k - 1];
      } else if k == t {
        assert al'[k] == al[t + 1] && al'[k - 1] == al[t - 1];
      } else {
        assert al'[k] == al[k + 1] && al'[k - 1] == al[k];
      }
    }
    forall i, j | 0 <= i < j < |al'|
      ensures al'[i] != al'[j]
    {
      var i0 := if i < t then i else i + 1;
      var j0 := if j < t then j else j + 1;
      assert al'[i] == al[i0] && al'[j] == al[j0];
    }
  }

  // ---------------------------------------------------------------------
  // Address-ordered insertion (lines 325-359)
  // ---------------------------------------------------------------------

  /** Where hdr lands in the free list fs: at the front when it lies below
      the head or the list is empty, otherwise right after the block the
      scan stops at. */
  function FreePos(fs: seq<int>, hdr: int): nat {
    if fs == [] || hdr < fs[0] then 0 else FreeSlot(fs, hdr, 0) + 1
  }

  /** In an ascending list the scan finds a place for any block above the
      head that is not already in the list. */
  lemma {:induction false} FreeSlotFound(fs: seq<int>, hdr: int, k: nat)
    requires k < |fs| && fs[k] < hdr && hdr !in fs
    requires forall j :: 0 <= j < |fs| - 1 ==> fs[j] < fs[j + 1]
    ensures FreeSlot(fs, hdr, k) < |fs|
    decreases |fs| - k
  {
    if k < |fs| - 1 && fs[k + 1] <= hdr {
      assert fs[k + 1] != hdr;
      FreeSlotFound(fs, hdr, k + 1);
    }
  }

  /** The insertion in an ascending free list puts hdr between its address
      neighbours, and is one of the two splices of the C code. */
  lemma InsertShape(h: Image, hdr: int, fs: seq<int>) returns (i: nat)
    requires Chain(h.blocks, h.freeList, fs) && hdr != NULL && hdr !in fs
    requires forall j :: 0 <= j < |fs| - 1 ==> fs[j] < fs[j + 1]
    ensures i == FreePos(fs, hdr) && i <= |fs|
    ensures (i == 0 || fs[i - 1] < hdr) && (i == |fs| || hdr < fs[i])
    ensures i == 0 ==> (Insert(h, hdr, fs) ==
      h.(blocks := SetPrevIfAny(SetLinks(h.blocks, hdr, Elem(fs, 0), NULL), Elem(fs, 0), hdr), freeList := hdr))
    ensures i > 0 ==> (Insert(h, hdr, fs) ==
      h.(blocks := SetNext(SetPrevIfAny(SetLinks(h.blocks, hdr, Elem(fs, i), fs[i - 1]), Elem(fs, i), hdr), fs[i - 1], hdr)))
  {
    i := FreePos(fs, hdr);
    if i > 0 {
      FreeSlotFound(fs, hdr, 0);
      var m1 := SetLinks(h.blocks, hdr, Elem(fs, i), fs[i - 1]);
      assert Hdr(m1, fs[i - 1]).next == Elem(fs, i);
    }
  }

  /** Lines 325-359 on an ascending free list: hdr goes in between its
      address neighbours, which point at it both ways; no size changes. */
  lemma InsertStep(h: Image, hdr: int, fs: seq<int>) returns (i: nat, L: seq<int>)
    requires Chain(h.blocks, h.freeList, fs) && hdr != NULL && hdr !in fs && hdr in h.blocks && Ascending(fs)
    ensures i <= |fs| && (i == 0 || fs[i - 1] < hdr) && (i == |fs| || hdr < fs[i])
    ensures L == fs[..i] + [hdr] + fs[i..] && Ascending(L) && i < |L| && L[i] == hdr
    ensures forall y :: y in L <==> y in fs || y == hdr
    ensures var h' := Insert(h, hdr, fs);
      && h'.words == h.words && h'.allocList == h.allocList
      && Chain(h'.blocks, h'.freeList, L) && SameLayout(h.blocks, h'.blocks) && h'.blocks.Keys == h.blocks.Keys
      && (forall y :: y in h.blocks && y !in fs && y != hdr ==> h'.blocks[y] == h.blocks[y])
      && Hdr(h'.blocks, L[i]).prev == (if i == 0 then NULL else L[i - 1])
      && (i + 1 < |L| ==> Hdr(h'.blocks, L[i + 1]).prev == L[i])
  {
    i := InsertShape(h, hdr, fs);
    var h' := Insert(h, hdr, fs);
    L := fs[..i] + [hdr] + fs[i..];
    if i == 0 {
      InsertFront(h.blocks, fs, hdr, h'.blocks);
      assert L == [hdr] + fs;
    } else {
      InsertAfter(h.blocks, h.freeList, fs, hdr, i, h'.blocks);
    }
    AscendingInsert(fs, i, hdr);
    InsertedMembers(fs, i, hdr);
    assert L[i] == hdr && (i > 0 ==> L[i - 1] == fs[i - 1]) && (i + 1 < |L| ==> L[i + 1] == fs[i]);
  }

  /** Lines 327-334: hdr becomes the head. */
  lemma InsertFront(m: map<int, Block>, fs: seq<int>, hdr: int, m': map<int, Block>)
    requires Chain(m, Elem(fs, 0), fs) && hdr != NULL && hdr !in fs && hdr in m
    requires m' == SetPrevIfAny(SetLinks(m, hdr, Elem(fs, 0), NULL), Elem(fs, 0), hdr)
    ensures Chain(m', hdr, [hdr] + fs) && SameLayout(m, m') && m'.Keys == m.Keys
    ensures forall y :: y in m && y !in fs && y != hdr ==> m'[y] == m[y]
    ensures m'[hdr].prev == NULL && (fs != [] ==> m'[fs[0]].prev == hdr)
  {
    var m1 := SetLinks(m, hdr, Elem(fs, 0), NULL);
    forall k | 0 <= k < |fs|
      ensures m'[fs[k]].next == m[fs[k]].next
    {
      assert fs[k] != hdr;
    }
    ChainInsert(m, Elem(fs, 0), fs, m', hdr, 0, hdr);
    assert fs[..0] + [hdr] + fs[0..] == [hdr] + fs;
  }

  /** Lines 343-358: hdr goes in after fs[i - 1]. */
  lemma InsertAfter(m: map<int, Block>, head: int, fs: seq<int>, hdr: int, i: nat, m': map<int, Block>)
    requires Chain(m, head, fs) && 0 < i <= |fs| && hdr != NULL && hdr !in fs && hdr in m
    requires Ascending(fs)
    requires m' == SetNext(SetPrevIfAny(SetLinks(m, hdr, Elem(fs, i), fs[i - 1]), Elem(fs, i), hdr), fs[i - 1], hdr)
    ensures Chain(m', head, fs[..i] + [hdr] + fs[i..]) && SameLayout(m, m') && m'.Keys == m.Keys
    ensures forall y :: y in m && y !in fs && y != hdr ==> m'[y] == m[y]
    ensures m'[hdr].prev == fs[i - 1] && (i < |fs| ==> m'[fs[i]].prev == hdr)
  {
    var m1 := SetLinks(m, hdr, Elem(fs, i), fs[i - 1]);
    var m2 := SetPrevIfAny(m1, Elem(fs, i), hdr);
    assert i < |fs| ==> fs[i] != fs[i - 1];
    forall k | 0 <= k < |fs| && k != i - 1
      ensures m'[fs[k]].next == m[fs[k]].next
    {
      assert fs[k] != hdr && fs[k] != fs[i - 1];
    }
    ChainInsert(m, head, fs, m', head, i, hdr);
  }

  // ---------------------------------------------------------------------
  // Merging neighbours (lines 213-241, 362-370)
  // ---------------------------------------------------------------------

  /** The blocks of a list are in ascending address order. */
  ghost predicate Ascending(s: seq<int>) {
    forall a, b :: 0 <= a < b < |s| ==> s[a] < s[b]
  }

  /** Taking a block out keeps the order. */
  lemma AscendingRemove(s: seq<int>, i: nat)
    requires Ascending(s) && i < |s|
    ensures Ascending(s[..i] + s[i + 1..])
  {
    var s' := s[..i] + s[i + 1..];
    forall a, b | 0 <= a < b < |s'|
      ensures s'[a] < s'[b]
    {
      var a0 := if a < i then a else a + 1;
      var b0 := if b < i then b else b + 1;
      assert s'[a] == s[a0] && s'[b] == s[b0];
    }
  }

  /** Taking out position i and then the new position i is taking out
      positions i and i + 1. */
  lemma RemoveTwice(s: seq<int>, i: nat)
    requires i + 1 < |s|
    ensures var s' := s[..i] + s[i + 1..]; s'[..i] + s'[i + 1..] == s[..i] + s[i + 2..]
  {
    var s' := s[..i] + s[i + 1..];
    assert s'[..i] == s[..i];
    forall k | i + 1 <= k < |s'|
      ensures s'[k] == s[k + 1]
    {
    }
    assert s'[i + 1..] == s[i + 2..];
  }

  /** The blocks of a list are pairwise distinct. */
  ghost predicate Distinct(s: seq<int>) {
    forall a, b :: 0 <= a < b < |s| ==> s[a] != s[b]
  }

  /** heap_merge on two neighbours of a chain that point at each other:
      they merge exactly when the first ends where the second starts. */
  lemma MergeShape(h: Image, head: int, s: seq<int>, j: nat)
    requires Chain(h.blocks, head, s) && j + 1 < |s| && s[j] < s[j + 1]
    requires Hdr(h.blocks, s[j + 1]).prev == s[j]
    ensures s[j] + h.blocks[s[j]].size == s[j + 1] ==>
      Merge(h, s[j], s[j + 1]) == Returns((h.(blocks := Absorb(h.blocks, s[j], s[j + 1])), s[j]))
    ensures s[j] + h.blocks[s[j]].size != s[j + 1] ==> Merge(h, s[j], s[j + 1]) == Returns((h, s[j + 1]))
  {
  }

  /** Absorbing s[j + 1] into s[j] takes s[j + 1] out of the chain, adds
      its size to s[j] and points s[j + 2] back at s[j]. */
  lemma AbsorbLists(m: map<int, Block>, head: int, s: seq<int>, j: nat, m': map<int, Block>)
    requires Chain(m, head, s) && j + 1 < |s| && Distinct(s) && m' == Absorb(m, s[j], s[j + 1])
    ensures Chain(m', head, s[..j + 1] + s[j + 2..]) && m'.Keys == m.Keys
    ensures m'[s[j]] == m[s[j]].(size := m[s[j]].size + m[s[j + 1]].size, next := Elem(s, j + 2))
    ensures j + 2 < |s| ==> m'[s[j + 2]] == m[s[j + 2]].(prev := s[j])
    ensures forall y :: y in m && y != s[j] && y != Elem(s, j + 2) ==> m'[y] == m[y]
    ensures forall y :: y in m ==> m'[y].guard == m[y].guard
    ensures forall y :: y in m && y != s[j] ==> m'[y].size == m[y].size
  {
    var a, n := s[j], Elem(s, j + 2);
    assert Hdr(m, s[j + 1]).next == n;
    assert j + 2 < |s| ==> s[j + 2] != a;
    var m1 := m[a := Hdr(m, a).(size := Hdr(m, a).size + Hdr(m, s[j + 1]).size, next := n)];
    forall y | y in m && y != a && (n == NULL || y != n)
      ensures m'[y] == m[y]
    {
      assert m1[y] == m[y];
    }
    forall k | 0 <= k < |s| && k != j && k != j + 1
      ensures m'[s[k]].next == m[s[k]].next
    {
      assert s[k] != a;
    }
    ChainRemove(m, head, s, m', head, j + 1);
  }

  /** The block before position i of L ends where L[i] starts. */
  predicate JoinsBack(m: map<int, Block>, L: seq<int>, i: nat)
    requires i < |L|
  {
    i > 0 && L[i - 1] + Hdr(m, L[i - 1]).size == L[i]
  }

  /** L[i] ends where the block after it starts. */
  predicate JoinsNext(m: map<int, Block>, L: seq<int>, i: nat)
    requires i < |L|
  {
    i + 1 < |L| && L[i] + Hdr(m, L[i]).size == L[i + 1]
  }

  /** The list once L[i] has merged with whichever neighbours it touches. */
  function Coalesced(m: map<int, Block>, L: seq<int>, i: nat): seq<int>
    requires i < |L|
  {
    (if JoinsBack(m, L, i) then L[..i] else L[..i + 1]) + (if JoinsNext(m, L, i) then L[i + 2..] else L[i + 1..])
  }

  /** The block the merges leave in place of L[i]. */
  function Survivor(m: map<int, Block>, L: seq<int>, i: nat): int
    requires i < |L|
  {
    if JoinsBack(m, L, i) then L[i - 1] else L[i]
  }

  /** Its size: L[i] with the neighbours it touches. */
  function SurvivorSize(m: map<int, Block>, L: seq<int>, i: nat): int
    requires i < |L|
  {
    (if JoinsBack(m, L, i) then Hdr(m, L[i - 1]).size else 0) + Hdr(m, L[i]).size
      + (if JoinsNext(m, L, i) then Hdr(m, L[i + 1]).size else 0)
  }

  /** Lines 367-370 on an ascending chain whose L[j + 1] points back at
      L[j]: the merge happens exactly when L[j] ends where L[j + 1] starts. */
  lemma NextShape(h: Image, head: int, L: seq<int>, j: nat) returns (h': Image)
    requires Chain(h.blocks, head, L) && j < |L| && Ascending(L)
    requires j + 1 < |L| ==> Hdr(h.blocks, L[j + 1]).prev == L[j]
    ensures MergeNext(h, L[j]) == Returns(h')
    ensures !JoinsNext(h.blocks, L, j) ==> h' == h
    ensures JoinsNext(h.blocks, L, j) ==> h' == h.(blocks := Absorb(h.blocks, L[j], L[j + 1]))
  {
    if j + 1 < |L| {
      MergeShape(h, head, L, j);
    }
    h' := MergeNext(h, L[j]).value;
  }

  /** Lines 362-370 on the free list L just after L[i] went in: the
      merges take out the neighbours L[i] touches, and the block left in
      its place spans them all. */
  lemma CoalesceSteps(h: Image, head: int, L: seq<int>, i: nat) returns (h': Image)
    requires Chain(h.blocks, head, L) && i < |L| && Ascending(L)
    requires Hdr(h.blocks, L[i]).prev == (if i == 0 then NULL else L[i - 1])
    requires i + 1 < |L| ==> Hdr(h.blocks, L[i + 1]).prev == L[i]
    ensures Coalesce(h, L[i]) == Returns(h')
    ensures h'.words == h.words && h'.freeList == h.freeList && h'.allocList == h.allocList
    ensures Chain(h'.blocks, head, Coalesced(h.blocks, L, i)) && h'.blocks.Keys == h.blocks.Keys
    ensures h'.blocks[Survivor(h.blocks, L, i)].size == SurvivorSize(h.blocks, L, i)
    ensures forall y :: y in h.blocks ==> h'.blocks[y].guard == h.blocks[y].guard
    ensures forall y :: y in h.blocks && y != Survivor(h.blocks, L, i) ==> h'.blocks[y].size == h.blocks[y].size
    ensures forall y :: y in h.blocks && y !in L ==> h'.blocks[y] == h.blocks[y]
  {
    assert Distinct(L);
    if JoinsBack(h.blocks, L, i) {
      h' := CoalesceBack(h, head, L, i);
    } else {
      if i > 0 {
        MergeShape(h, head, L, i - 1);
      }
      h' := NextShape(h, head, L, i);
      if JoinsNext(h.blocks, L, i) {
        AbsorbLists(h.blocks, head, L, i, h'.blocks);
      }
    }
  }

  /** CoalesceSteps when L[i - 1] ends where L[i] starts. */
  lemma CoalesceBack(h: Image, head: int, L: seq<int>, i: nat) returns (h': Image)
    requires Chain(h.blocks, head, L) && i < |L| && Ascending(L)
    requires JoinsBack(h.blocks, L, i) && Hdr(h.blocks, L[i]).prev == L[i - 1]
    requires i + 1 < |L| ==> Hdr(h.blocks, L[i + 1]).prev == L[i]
    ensures Coalesce(h, L[i]) == Returns(h')
    ensures h'.words == h.words && h'.freeList == h.freeList && h'.allocList == h.allocList
    ensures Chain(h'.blocks, head, Coalesced(h.blocks, L, i)) && h'.blocks.Keys == h.blocks.Keys
    ensures h'.blocks[L[i - 1]].size == SurvivorSize(h.blocks, L, i)
    ensures forall y :: y in h.blocks ==> h'.blocks[y].guard == h.blocks[y].guard
    ensures forall y :: y in h.blocks && y != L[i - 1] ==> h'.blocks[y].size == h.blocks[y].size
    ensures forall y :: y in h.blocks && y !in L ==> h'.blocks[y] == h.blocks[y]
  {
    assert Distinct(L);
    MergeShape(h, head, L, i - 1);
    var h1 := h.(blocks := Absorb(h.blocks, L[i - 1], L[i]));
    AbsorbLists(h.blocks, head, L, i - 1, h1.blocks);
    var L1 := L[..i] + L[i + 1..];
    AscendingRemove(L, i);
    assert L1[i - 1] == L[i - 1] && (i < |L1| ==> L1[i] == L[i + 1]);
    h' := NextShape(h1, head, L1, i - 1);
    assert h1.blocks[L[i - 1]].size == h.blocks[L[i - 1]].size + h.blocks[L[i]].size;
    assert JoinsNext(h1.blocks, L1, i - 1) == JoinsNext(h.blocks, L, i);
    BackMaps(h.blocks, head, L, i, h'.blocks);
  }

  /** The maps CoalesceBack leaves: L[i - 1] absorbs L[i], and L[i + 1]
      too when L[i] ends where it starts. */
  lemma BackMaps(m: map<int, Block>, head: int, L: seq<int>, i: nat, m': map<int, Block>)
    requires Chain(m, head, L) && i < |L| && Ascending(L) && JoinsBack(m, L, i)
    requires m' == if JoinsNext(m, L, i) then Absorb(Absorb(m, L[i - 1], L[i]), L[i - 1], L[i + 1])
                   else Absorb(m, L[i - 1], L[i])
    ensures Chain(m', head, Coalesced(m, L, i)) && m'.Keys == m.Keys
    ensures m'[L[i - 1]].size == SurvivorSize(m, L, i)
    ensures forall y :: y in m ==> m'[y].guard == m[y].guard
    ensures forall y :: y in m && y != L[i - 1] ==> m'[y].size == m[y].size
    ensures forall y :: y in m && y !in L ==> m'[y] == m[y]
  {
    assert Distinct(L);
    if JoinsNext(m, L, i) {
      BothMaps(m, head, L, i, m');
    } else {
      AbsorbLists(m, head, L, i - 1, m');
      assert Coalesced(m, L, i) == L[..i] + L[i + 1..];
    }
  }

  /** BackMaps when L[i] also ends where L[i + 1] starts. */
  lemma BothMaps(m: map<int, Block>, head: int, L: seq<int>, i: nat, m': map<int, Block>)
    requires Chain(m, head, L) && 0 < i && i + 1 < |L| && Ascending(L)
    requires m' == Absorb(Absorb(m, L[i - 1], L[i]), L[i - 1], L[i + 1])
    ensures Chain(m', head, L[..i] + L[i + 2..]) && m'.Keys == m.Keys
    ensures m'[L[i - 1]].size == m[L[i - 1]].size + m[L[i]].size + m[L[i + 1]].size
    ensures forall y :: y in m ==> m'[y].guard == m[y].guard
    ensures forall y :: y in m && y != L[i - 1] ==> m'[y].size == m[y].size
    ensures forall y :: y in m && y !in L ==> m'[y] == m[y]
  {
    assert Distinct(L);
    var m1 := Absorb(m, L[i - 1], L[i]);
    AbsorbLists(m, head, L, i - 1, m1);
    var L1 := L[..i] + L[i + 1..];
    assert L1[i - 1] == L[i - 1] && L1[i] == L[i + 1];
    AscendingRemove(L, i);
    assert Distinct(L1);
    AbsorbLists(m1, head, L1, i - 1, m');
    RemoveTwice(L, i);
    forall y | y in m
      ensures m'[y].guard == m[y].guard
      ensures y != L[i - 1] ==> m'[y].size == m[y].size
    {
      assert m1[y].guard == m[y].guard;
    }
  }

  /** Inserting x adds x and nothing else. */
  lemma InsertedMembers(s: seq<int>, i: nat, x: int)
    requires i <= |s|
    ensures forall y :: y in s[..i] + [x] + s[i..] <==> y in s || y == x
  {
    assert s == s[..i] + s[i..];
  }

  /** Putting x between its address neighbours keeps the order. */
  lemma AscendingInsert(s: seq<int>, i: nat, x: int)
    requires Ascending(s) && i <= |s| && (i == 0 || s[i - 1] < x) && (i == |s| || x < s[i])
    ensures Ascending(s[..i] + [x] + s[i..])
  {
    var s' := s[..i] + [x] + s[i..];
    forall a, b | 0 <= a < b < |s'|
      ensures s'[a] < s'[b]
    {
      if a < i && b > i {
        assert s'[a] == s[a] && s'[b] == s[b - 1];
        assert s[a] <= s[i - 1];
      } else if a < i && b == i {
        assert s'[a] == s[a] && s[a] <= s[i - 1];
      } else if a == i {
        assert s'[b] == s[b - 1] && s[i] <= s[b - 1];
      } else if a < i {
        assert s'[a] == s[a] && s'[b] == s[b];
      } else {
        assert s'[a] == s[a - 1] && s'[b] == s[b - 1];
      }
    }
  }

  /** Lines 305-370 on a block at position t of the alloc list: it goes
      into the free list between its address neighbours (position i) and
      merges with those it touches; the alloc list loses it. */
  lemma ReleaseSteps(h: Image, fs: seq<int>, al: seq<int>, t: nat) returns (h': Image, i: nat, L: seq<int>)
    requires Chain(h.blocks, h.freeList, fs) && Chain(h.blocks, h.allocList, al) && AllocLinked(h.blocks, al)
    requires Ascending(fs) && t < |al| && (forall k :: 0 <= k < |al| ==> al[k] !in fs)
    ensures Release(h, al[t], fs, al) == Returns(h')
    ensures i <= |fs| && (i == 0 || fs[i - 1] < al[t]) && (i == |fs| || al[t] < fs[i])
    ensures L == fs[..i] + [al[t]] + fs[i..] && Ascending(L)
    ensures h'.words == h.words && h'.blocks.Keys == h.blocks.Keys
    ensures Chain(h'.blocks, h'.freeList, Coalesced(h.blocks, L, i))
    ensures Hdr(h'.blocks, Survivor(h.blocks, L, i)).size == SurvivorSize(h.blocks, L, i)
    ensures Chain(h'.blocks, h'.allocList, al[..t] + al[t + 1..]) && AllocLinked(h'.blocks, al[..t] + al[t + 1..])
    ensures forall y :: y in h.blocks ==> h'.blocks[y].guard == h.blocks[y].guard
    ensures forall y :: y in h.blocks && y != Survivor(h.blocks, L, i) ==> h'.blocks[y].size == h.blocks[y].size
  {
    var h3;
    h3, i, L := UnlinkInsert(h, fs, al, t);
    h' := CoalesceSteps(h3, h3.freeList, L, i);
    AllocKept(h3.blocks, h'.blocks, h3.allocList, al[..t] + al[t + 1..], L);
    SizesKept(h.blocks, h3.blocks, L, i);
  }

  /** The first two steps of ReleaseSteps: the block leaves the alloc list
      and enters the free list; nothing is merged yet. */
  lemma UnlinkInsert(h: Image, fs: seq<int>, al: seq<int>, t: nat) returns (h3: Image, i: nat, L: seq<int>)
    requires Chain(h.blocks, h.freeList, fs) && Chain(h.blocks, h.allocList, al) && AllocLinked(h.blocks, al)
    requires Ascending(fs) && t < |al| && (forall k :: 0 <= k < |al| ==> al[k] !in fs)
    ensures Release(h, al[t], fs, al) == Coalesce(h3, al[t])
    ensures i <= |fs| && (i == 0 || fs[i - 1] < al[t]) && (i == |fs| || al[t] < fs[i])
    ensures L == fs[..i] + [al[t]] + fs[i..] && Ascending(L) && i < |L| && L[i] == al[t]
    ensures h3.words == h.words && h3.blocks.Keys == h.blocks.Keys && SameLayout(h.blocks, h3.blocks)
    ensures Chain(h3.blocks, h3.freeList, L)
    ensures Hdr(h3.blocks, L[i]).prev == (if i == 0 then NULL else L[i - 1])
    ensures i + 1 < |L| ==> Hdr(h3.blocks, L[i + 1]).prev == L[i]
    ensures Chain(h3.blocks, h3.allocList, al[..t] + al[t + 1..]) && AllocLinked(h3.blocks, al[..t] + al[t + 1..])
    ensures forall y :: y in al[..t] + al[t + 1..] ==> y !in L
  {
    var hdr := al[t];
    var h2 := UnlinkKeepsFree(h, fs, al, t);
    var al' := al[..t] + al[t + 1..];
    i, L := InsertStep(h2, hdr, fs);
    h3 := Insert(h2, hdr, fs);
    AllocKept(h2.blocks, h3.blocks, h2.allocList, al', L);
  }

  /** Unlinking a block of the alloc list leaves the free list intact. */
  lemma UnlinkKeepsFree(h: Image, fs: seq<int>, al: seq<int>, t: nat) returns (h2: Image)
    requires Chain(h.blocks, h.freeList, fs) && Chain(h.blocks, h.allocList, al) && AllocLinked(h.blocks, al)
    requires t < |al| && (forall k :: 0 <= k < |al| ==> al[k] !in fs)
    ensures Unlink(h, al[t], al) == Returns(h2)
    ensures Chain(h2.blocks, h2.freeList, fs) && al[t] !in fs && al[t] in h2.blocks && al[t] != NULL
    ensures Chain(h2.blocks, h2.allocList, al[..t] + al[t + 1..]) && AllocLinked(h2.blocks, al[..t] + al[t + 1..])
    ensures h2.words == h.words && SameLayout(h.blocks, h2.blocks) && h2.blocks.Keys == h.blocks.Keys
    ensures forall y :: y in al[..t] + al[t + 1..] ==> y !in fs && y != al[t]
  {
    h2 := UnlinkStep(h, al, t);
    ChainFrame(h.blocks, h2.blocks, h.freeList, fs);
    assert al[t] in al;
  }

  /** An alloc list none of whose blocks a step touches survives it. */
  lemma AllocKept(m: map<int, Block>, m': map<int, Block>, head: int, al: seq<int>, X: seq<int>)
    requires Chain(m, head, al) && AllocLinked(m, al)
    requires forall y :: y in al ==> y !in X
    requires forall y :: y in m && y !in X ==> y in m' && m'[y] == m[y]
    ensures Chain(m', head, al) && AllocLinked(m', al)
  {
    forall k | 0 <= k < |al|
      ensures al[k] in m' && m'[al[k]] == m[al[k]]
    {
      assert al[k] in al;
    }
  }

  /** The insertion changes no size. */
  lemma SizesKept(m: map<int, Block>, m3: map<int, Block>, L: seq<int>, i: nat)
    requires SameLayout(m, m3) && i < |L| && forall y :: y in L ==> y in m
    ensures Survivor(m3, L, i) == Survivor(m, L, i) && SurvivorSize(m3, L, i) == SurvivorSize(m, L, i)
    ensures Coalesced(m3, L, i) == Coalesced(m, L, i)
  {
  }
}
