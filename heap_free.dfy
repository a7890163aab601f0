// __kfree of kernel/vmm/heap.c (lines 247-375): which pointers it refuses,
// and what it does with a block of the alloc list.

module HeapFree {
  import opened Common
  import opened KernelHeap

  /** The sanity checks of lines 262-292 all pass for ptr. */
  ghost predicate Accepted(h: Image, ptr: int, start: int, end: int) {
    var hdr := ptr - HEADER;
    && start <= ptr <= end && ptr % GRANULARITY == 0 && start <= hdr
    && hdr in h.blocks && h.blocks[hdr].guard == GUARD_MAGIC
    && var rear := hdr + h.blocks[hdr].size - 8;
    && rear in h.words && rear + 4 in h.words
    && h.words[rear] == GUARD_MAGIC && h.words[rear + 4] == GUARD_MAGIC
  }

  /** Lines 262-292: a pointer outside [start, end], a misaligned one, one
      whose header would lie below start, a header whose front guard is not
      MAGIC and a block whose rear guard was overwritten each stop kfree
      with a panic; kfree never returns for a pointer that fails a check. */
  lemma FreeRejects(h: Image, ptr: int, start: int, end: int, fs: seq<int>, al: seq<int>)
    ensures ptr < start || ptr > end ==> Free(h, ptr, start, end, fs, al) == Panics("kfree: not in valid heap range")
    ensures start <= ptr <= end && ptr % GRANULARITY != 0 ==> Free(h, ptr, start, end, fs, al).Panics?
    ensures start <= ptr <= end && ptr % GRANULARITY == 0 && ptr - HEADER < start ==>
      Free(h, ptr, start, end, fs, al).Panics?
    ensures (start <= ptr <= end && ptr % GRANULARITY == 0 && start <= ptr - HEADER && ptr - HEADER in h.blocks
             && h.blocks[ptr - HEADER].guard != GUARD_MAGIC) ==> Free(h, ptr, start, end, fs, al).Panics?
    ensures !Accepted(h, ptr, start, end) ==> !Free(h, ptr, start, end, fs, al).Returns?
  {
  }

  /** Line 302 writes the user bytes, so only words change: on a block of
      at least 40 bytes both rear guard words become 0xcececece. */
  lemma PoisonShape(h: Image, hdr: int)
    ensures Poison(h, hdr).blocks == h.blocks
    ensures Poison(h, hdr).freeList == h.freeList && Poison(h, hdr).allocList == h.allocList
    ensures var rear := hdr + Hdr(h.blocks, hdr).size - 8;
      Hdr(h.blocks, hdr).size >= HEADER + 8 ==> Poison(h, hdr).words == h.words[rear := POISON][rear + 4 := POISON]
  {
  }

  /** kfree of the block at position t of a well-linked alloc list whose
      checks pass: the block leaves the alloc list, joins the free list
      between its address neighbours and merges with those it touches. */
  lemma FreeReleases(h: Image, start: int, end: int, fs: seq<int>, al: seq<int>, t: nat)
    returns (h': Image, i: nat, L: seq<int>)
    requires Chain(h.blocks, h.freeList, fs) && Chain(h.blocks, h.allocList, al) && AllocLinked(h.blocks, al)
    requires Ascending(fs) && t < |al| && (forall k :: 0 <= k < |al| ==> al[k] !in fs)
    requires Accepted(h, al[t] + HEADER, start, end) && h.blocks[al[t]].size >= HEADER
    ensures Free(h, al[t] + HEADER, start, end, fs, al) == Returns(h')
    ensures i <= |fs| && L == fs[..i] + [al[t]] + fs[i..] && Ascending(L) && i < |L|
    ensures Chain(h'.blocks, h'.freeList, Coalesced(h.blocks, L, i))
    ensures Hdr(h'.blocks, Survivor(h.blocks, L, i)).size == SurvivorSize(h.blocks, L, i)
    ensures Chain(h'.blocks, h'.allocList, al[..t] + al[t + 1..]) && AllocLinked(h'.blocks, al[..t] + al[t + 1..])
    ensures al[t] !in al[..t] + al[t + 1..]
    ensures h'.blocks.Keys == h.blocks.Keys
  {
    var hdr := al[t];
    PoisonShape(h, hdr);
    var hp := Poison(h, hdr);
    FreeAccepted(h, hdr, start, end, fs, al);
    assert hp.blocks == h.blocks && hp.freeList == h.freeList && hp.allocList == h.allocList;
    h', i, L := ReleaseSteps(hp, fs, al, t);
    RemovedGone(al, t);
  }

  /** A pointer that passes the checks of lines 262-292 is poisoned and
      released. */
  lemma FreeAccepted(h: Image, hdr: int, start: int, end: int, fs: seq<int>, al: seq<int>)
    requires Accepted(h, hdr + HEADER, start, end) && h.blocks[hdr].size >= HEADER
    ensures Free(h, hdr + HEADER, start, end, fs, al) == Release(Poison(h, hdr), hdr, fs, al)
  {
  }

  /** Lines 305-321: a header that is not on the alloc list, a pointer
      freed twice among them, finds tmp == NULL and dereferences it; kfree
      never completes for it. */
  lemma FreeUnknownPointer(h: Image, ptr: int, start: int, end: int, fs: seq<int>, al: seq<int>)
    requires ptr - HEADER !in al
    ensures !Free(h, ptr, start, end, fs, al).Returns?
  {
    var hdr := ptr - HEADER;
    var hp := Poison(h, hdr);
    assert IndexOf(al, hdr, 0) == |al|;
    assert Unlink(hp, hdr, al).Undefined?;
  }

  /** Freeing the same pointer twice: the first kfree completes, the second
      cannot. */
  lemma DoubleFree(h: Image, start: int, end: int, fs: seq<int>, al: seq<int>, t: nat, fs2: seq<int>)
    requires Chain(h.blocks, h.freeList, fs) && Chain(h.blocks, h.allocList, al) && AllocLinked(h.blocks, al)
    requires Ascending(fs) && t < |al| && (forall k :: 0 <= k < |al| ==> al[k] !in fs)
    requires Accepted(h, al[t] + HEADER, start, end) && h.blocks[al[t]].size >= HEADER
    ensures Free(h, al[t] + HEADER, start, end, fs, al).Returns?
    ensures !Free(Free(h, al[t] + HEADER, start, end, fs, al).value, al[t] + HEADER, start, end, fs2, al[..t] + al[t + 1..]).Returns?
  {
    var h', i, L := FreeReleases(h, start, end, fs, al, t);
    FreeUnknownPointer(h', al[t] + HEADER, start, end, fs2, al[..t] + al[t + 1..]);
  }
}
