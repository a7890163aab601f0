/** The global handle table of the object manager (kernel/kernel/obj_array.c).

    `_handle_array` is a fixed array of machine words. A used slot holds the
    address of an hnode (non-NULL, low bit clear); a free slot holds the index of
    the next free slot shifted left once with the low bit set, and the last free
    slot holds -1 (all bits set). `_handle_array_next_free` is the head of that
    intrusive LIFO free list, -1 when it is empty. Slots are kept as the signed
    32-bit words the C code stores in them. */
module ObjArray {
  import opened Common
  import opened Errno
  import opened KernelTypes
  import opened CircularList

  /** INITIAL_OBJECT_ARRAY_SIZE (kernel/kernel/config.h). */
  const INITIAL_OBJECT_ARRAY_SIZE: nat := 4096

  /** The word kmalloc leaves in memory it hands out (MALLOC_FILL 0xcc in every
      byte), read as a signed int: what an onode's extra bytes hold until the
      object type writes them. */
  const FILL_WORD: int := 0xcccc_cccc - TWO32

  /** IS_VALID_HNODE: a non-NULL word with its low bit clear. */
  predicate IsValidHNode(w: int) {
    w != 0 && w % 2 == 0
  }

  /** `(int)word >> 1`: an arithmetic shift, i.e. division rounding down. */
  function Sar1(w: int): (r: int)
    ensures 2 * r <= w < 2 * r + 2
  {
    w / 2
  }

  /** `(next << 1) | 1`: the word a free slot holds when next follows it. */
  function FreeWord(next: int): (w: int)
    ensures w % 2 == 1 && Sar1(w) == next
  {
    2 * next + 1
  }

  /** The slots obj_init leaves behind: slot i links to i + 1, the last one
      ends the list. */
  function InitialSlots(size: nat): (s: seq<int>)
    requires size > 0
    ensures |s| == size
    ensures forall i :: 0 <= i < size - 1 ==> s[i] == FreeWord(i + 1)
    ensures s[size - 1] == -1 && s[size - 1] == FreeWord(-1)
  {
    seq(size, i requires 0 <= i < size => if i < size - 1 then FreeWord(i + 1) else -1)
  }

  /** The onode a freshly created object gets from _obj_open. */
  function NewONode(ops: ONodeOps, name: Option<string>): ONode {
    ONode(ops, name, 1, [], 0, false, SemData(FILL_WORD, FILL_WORD))
  }

  /** The successor of the i-th free slot, -1 after the last one. */
  function FreeNext(fl: seq<int>, i: int): int
    requires 0 <= i < |fl|
  {
    if i + 1 < |fl| then fl[i + 1] else -1
  }

  /** Each free slot holds the link to the next one. */
  ghost predicate Linked(s: seq<int>, fl: seq<int>)
    requires forall i :: 0 <= i < |fl| ==> 0 <= fl[i] < |s|
  {
    forall i {:trigger s[fl[i]]} :: 0 <= i < |fl| ==> s[fl[i]] == FreeWord(FreeNext(fl, i))
  }

  /** The free list threaded through the slots s from nf is exactly fl, and
      every slot holding an odd word is on it. */
  ghost predicate FreeListOk(s: seq<int>, fl: seq<int>, nf: int) {
    && NoDup(fl)
    && (forall i :: 0 <= i < |fl| ==> 0 <= fl[i] < |s|)
    && nf == (if fl == [] then -1 else fl[0])
    && Linked(s, fl)
    && (forall j :: 0 <= j < |s| && s[j] % 2 == 1 ==> j in fl)
  }

  /** Every used slot holds a known hnode that refers to a known onode. */
  ghost predicate HandlesOk(s: seq<int>, hn: map<int, HNode>, on: map<Addr, ONode>) {
    forall j :: 0 <= j < |s| && IsValidHNode(s[j]) ==> s[j] in hn && hn[s[j]].onode in on
  }

  /** The handles whose hnode refers to onode o. */
  ghost function HandlesOf(s: seq<int>, hn: map<int, HNode>, o: Addr): set<int> {
    set j | 0 <= j < |s| && IsValidHNode(s[j]) && s[j] in hn && hn[s[j]].onode == o
  }

  lemma InitialFreeList(size: nat)
    requires size > 0
    ensures FreeListOk(InitialSlots(size), seq(size, i => i), 0)
    ensures forall hn: map<int, HNode>, on: map<Addr, ONode> :: HandlesOk(InitialSlots(size), hn, on)
  {
    var s, fl := InitialSlots(size), seq(size, i => i);
    forall i | 0 <= i < |fl|
      ensures s[fl[i]] == FreeWord(FreeNext(fl, i))
    {
    }
    forall j | 0 <= j < |s| && s[j] % 2 == 1
      ensures j in fl
    {
      assert fl[j] == j;
    }
  }

  /** Popping the head of the free list and leaving its slot NULL keeps the
      list threaded. */
  lemma PopFree(s: seq<int>, fl: seq<int>)
    requires fl != [] && FreeListOk(s, fl, fl[0])
    ensures FreeListOk(s[fl[0] := 0], fl[1..], Sar1(s[fl[0]]))
  {
    TailNoDup(fl);
    PopLinks(s, fl);
    PopMembers(s, fl);
  }

  lemma PopLinks(s: seq<int>, fl: seq<int>)
    requires fl != [] && NoDup(fl) && fl[0] !in fl[1..]
    requires forall i :: 0 <= i < |fl| ==> 0 <= fl[i] < |s|
    requires Linked(s, fl)
    ensures forall i :: 0 <= i < |fl[1..]| ==> 0 <= fl[1..][i] < |s|
    ensures Linked(s[fl[0] := 0], fl[1..])
  {
    var s', fl' := s[fl[0] := 0], fl[1..];
    forall i | 0 <= i < |fl'|
      ensures 0 <= fl'[i] < |s| && s'[fl'[i]] == FreeWord(FreeNext(fl', i))
    {
      assert fl'[i] == fl[i + 1];
      assert s[fl[i + 1]] == FreeWord(FreeNext(fl, i + 1));
      assert FreeNext(fl', i) == FreeNext(fl, i + 1);
    }
  }

  lemma PopMembers(s: seq<int>, fl: seq<int>)
    requires fl != [] && 0 <= fl[0] < |s|
    requires forall j :: 0 <= j < |s| && s[j] % 2 == 1 ==> j in fl
    ensures forall j :: 0 <= j < |s| && s[fl[0] := 0][j] % 2 == 1 ==> j in fl[1..]
  {
    forall j | 0 <= j < |s| && s[fl[0] := 0][j] % 2 == 1
      ensures j in fl[1..]
    {
      TailMember(fl, j);
    }
  }

  lemma TailNoDup<T>(fl: seq<T>)
    requires fl != [] && NoDup(fl)
    ensures NoDup(fl[1..]) && fl[0] !in fl[1..]
  {
    forall i, k | 0 <= i < k < |fl| - 1
      ensures fl[1..][i] != fl[1..][k]
    {
      assert fl[1..][i] == fl[i + 1] && fl[1..][k] == fl[k + 1];
    }
  }

  lemma TailMember<T>(fl: seq<T>, x: T)
    requires fl != [] && x in fl && x != fl[0]
    ensures x in fl[1..]
  {
    var i :| 0 <= i < |fl| && fl[i] == x;
    assert fl[1..][i - 1] == x;
  }

  /** Overwriting a slot that held no hnode with NULL changes no handle. */
  lemma ClearFreeSlot(s: seq<int>, hn: map<int, HNode>, on: map<Addr, ONode>, h: int)
    requires 0 <= h < |s| && !IsValidHNode(s[h]) && HandlesOk(s, hn, on)
    ensures HandlesOk(s[h := 0], hn, on)
    ensures forall o :: HandlesOf(s[h := 0], hn, o) == HandlesOf(s, hn, o)
    ensures RefCountsOk(s, hn, on) ==> RefCountsOk(s[h := 0], hn, on)
  {
    forall o
      ensures HandlesOf(s[h := 0], hn, o) == HandlesOf(s, hn, o)
    {
    }
  }

  /** Pushing a used slot onto the free list keeps the list threaded. */
  lemma PushFree(s: seq<int>, fl: seq<int>, h: int)
    requires FreeListOk(s, fl, if fl == [] then -1 else fl[0])
    requires 0 <= h < |s| && IsValidHNode(s[h])
    ensures FreeListOk(s[h := FreeWord(if fl == [] then -1 else fl[0])], [h] + fl, h)
  {
    var s', fl' := s[h := FreeWord(if fl == [] then -1 else fl[0])], [h] + fl;
    assert h !in fl;
    forall i | 0 <= i < |fl'|
      ensures s'[fl'[i]] == FreeWord(FreeNext(fl', i))
    {
      if i > 0 {
        assert fl'[i] == fl[i - 1];
        assert s[fl[i - 1]] == FreeWord(FreeNext(fl, i - 1));
        assert FreeNext(fl', i) == FreeNext(fl, i - 1);
      }
    }
    forall j | 0 <= j < |s'| && s'[j] % 2 == 1
      ensures j in fl'
    {
      if j != h {
        assert j in fl;
      }
    }
  }

  /** Writing an even word into a slot off the free list keeps it threaded. */
  lemma StoreOffList(s: seq<int>, fl: seq<int>, nf: int, r: int, w: int)
    requires FreeListOk(s, fl, nf) && 0 <= r < |s| && r !in fl && w % 2 == 0
    ensures FreeListOk(s[r := w], fl, nf)
  {
    forall i | 0 <= i < |fl|
      ensures s[r := w][fl[i]] == FreeWord(FreeNext(fl, i))
    {
      assert fl[i] != r && s[fl[i]] == FreeWord(FreeNext(fl, i));
    }
  }

  /** Storing a new hnode in a slot that was free adds that slot to the
      handles of the hnode's onode and to no other. */
  lemma StoreHandle(s: seq<int>, hn: map<int, HNode>, on: map<Addr, ONode>, r: int, mem: Addr, node: HNode)
    requires 0 <= r < |s| && !IsValidHNode(s[r]) && mem !in hn && node.onode in on
    requires HandlesOk(s, hn, on)
    ensures HandlesOk(s[r := mem], hn[mem := node], on)
    ensures forall o :: HandlesOf(s[r := mem], hn[mem := node], o)
                        == HandlesOf(s, hn, o) + (if o == node.onode then {r} else {})
  {
    forall o
      ensures HandlesOf(s[r := mem], hn[mem := node], o)
              == HandlesOf(s, hn, o) + (if o == node.onode then {r} else {})
    {
    }
  }

  /** ref_count is the number of handles open on each object. */
  ghost predicate RefCountsOk(s: seq<int>, hn: map<int, HNode>, on: map<Addr, ONode>) {
    forall o :: o in on ==> on[o].refCount == |HandlesOf(s, hn, o)|
  }

  /** The onode map with one more reference on o. */
  function AddRef(on: map<Addr, ONode>, o: Addr): (r: map<Addr, ONode>)
    requires o in on
    ensures r.Keys == on.Keys && r[o].refCount == on[o].refCount + 1
    ensures forall p :: p in on && p != o ==> r[p] == on[p]
  {
    on[o := on[o].(refCount := on[o].refCount + 1)]
  }

  /** Installing a new hnode in a NULL slot off the free list, with one more
      reference on its onode, keeps every table invariant. */
  lemma InstallKeeps(s: seq<int>, fl: seq<int>, nf: int, hn: map<int, HNode>, on: map<Addr, ONode>,
                     r: int, mem: Addr, node: HNode)
    requires FreeListOk(s, fl, nf) && HandlesOk(s, hn, on) && RefCountsOk(s, hn, on)
    requires 0 <= r < |s| && s[r] == 0 && r !in fl && mem !in hn && node.onode in on
    ensures FreeListOk(s[r := mem], fl, nf)
    ensures HandlesOk(s[r := mem], hn[mem := node], AddRef(on, node.onode))
    ensures RefCountsOk(s[r := mem], hn[mem := node], AddRef(on, node.onode))
  {
    StoreHandle(s, hn, on, r, mem, node);
    StoreOffList(s, fl, nf, r, mem);
    var on' := AddRef(on, node.onode);
    forall o | o in on'
      ensures on'[o].refCount == |HandlesOf(s[r := mem], hn[mem := node], o)|
    {
      if o == node.onode {
        assert r !in HandlesOf(s, hn, o);
      }
    }
  }

  /** Changing an hnode's flags changes no handle. */
  lemma RetagKeeps(s: seq<int>, hn: map<int, HNode>, on: map<Addr, ONode>, k: int, f: bv32)
    requires k in hn && HandlesOk(s, hn, on) && RefCountsOk(s, hn, on)
    ensures HandlesOk(s, hn[k := hn[k].(flags := f)], on)
    ensures RefCountsOk(s, hn[k := hn[k].(flags := f)], on)
  {
    forall o
      ensures HandlesOf(s, hn[k := hn[k].(flags := f)], o) == HandlesOf(s, hn, o)
    {
    }
  }

  /** Storing an hnode and then changing its flags stores the retagged hnode. */
  lemma RetagAfterStore(hn: map<int, HNode>, k: int, node: HNode, f: bv32)
    ensures hn[k := node][k := node.(flags := f)] == hn[k := node.(flags := f)]
  {
  }

  /** A new onode that no handle refers to yet has no handles. */
  lemma AddONodeKeeps(s: seq<int>, hn: map<int, HNode>, on: map<Addr, ONode>, o: Addr, node: ONode)
    requires o !in on && node.refCount == 0 && HandlesOk(s, hn, on) && RefCountsOk(s, hn, on)
    ensures HandlesOk(s, hn, on[o := node]) && RefCountsOk(s, hn, on[o := node])
  {
    assert HandlesOf(s, hn, o) == {};
    forall p | p in on
      ensures on[o := node][p].refCount == |HandlesOf(s, hn, p)|
    {
    }
  }

  /** Adding an onode with no reference and then referring to it once gives
      the onode with one reference. */
  lemma FirstReference(on: map<Addr, ONode>, o: Addr, node: ONode)
    requires node.refCount == 1
    ensures AddRef(on[o := node.(refCount := 0)], o) == on[o := node]
  {
  }

  /** The same objects with the same reference counts; anything else in
      them (wait lists, signalled state, extra bytes) may differ. */
  ghost predicate SameRefs(on: map<Addr, ONode>, on': map<Addr, ONode>) {
    on'.Keys == on.Keys && forall o :: o in on ==> on'[o].refCount == on[o].refCount
  }

  /** What the object types and the wait routines write into onodes does not
      disturb the handle table. */
  lemma ReshapeKeeps(s: seq<int>, hn: map<int, HNode>, on: map<Addr, ONode>, on': map<Addr, ONode>)
    requires SameRefs(on, on')
    ensures HandlesOk(s, hn, on) ==> HandlesOk(s, hn, on')
    ensures RefCountsOk(s, hn, on) ==> RefCountsOk(s, hn, on')
  {
  }

  class ObjectTable {
    /** _handle_array */
    var slots: array<int>
    /** _handle_array_next_free */
    var nextFree: int
    /** The hnode and onode structures, by address. */
    var hnodes: map<int, HNode>
    var onodes: map<Addr, ONode>
    /** The free slots in list order, from nextFree. */
    ghost var freeList: seq<int>
    /** _handle_array_lock and the per-onode locks that are held. */
    ghost var arrayLocked: bool
    var locked: set<Addr>

    ghost predicate Valid()
      reads this`slots, this`nextFree, this`freeList, this`hnodes, this`onodes, slots
    {
      slots.Length == INITIAL_OBJECT_ARRAY_SIZE
      && FreeListOk(slots[..], freeList, nextFree) && HandlesOk(slots[..], hnodes, onodes)
    }

    ghost function Handles(o: Addr): set<int>
      reads this`slots, this`nextFree, this`freeList, this`hnodes, this`onodes, slots
    {
      HandlesOf(slots[..], hnodes, o)
    }

    /** ref_count is the number of handles open on the object. */
    ghost predicate RefCountsExact()
      reads this`slots, this`nextFree, this`freeList, this`hnodes, this`onodes, slots
    {
      RefCountsOk(slots[..], hnodes, onodes)
    }

    /** IS_VALID_HANDLE */
    predicate IsValidHandle(h: int)
      reads this`slots, this`nextFree, this`freeList, this`hnodes, this`onodes, slots
    {
      0 <= h < slots.Length && IsValidHNode(slots[h])
    }

    /** obj_init: every slot is threaded into the free list in index order and
        no object exists yet. */
    constructor Init()
      ensures Valid() && RefCountsExact() && fresh(slots)
      ensures slots.Length == INITIAL_OBJECT_ARRAY_SIZE
      ensures slots[..] == InitialSlots(INITIAL_OBJECT_ARRAY_SIZE)
      ensures nextFree == 0 && freeList == seq(INITIAL_OBJECT_ARRAY_SIZE, i => i)
      ensures hnodes == map[] && onodes == map[]
      ensures !arrayLocked && locked == {}
    {
      var size := INITIAL_OBJECT_ARRAY_SIZE;
      var a := new int[size];
      var i := 0;
      while i < size - 1
        invariant 0 <= i <= size - 1
        invariant forall k :: 0 <= k < i ==> a[k] == FreeWord(k + 1)
      {
        a[i] := FreeWord(i + 1);
        i := i + 1;
      }
      a[i] := -1;
      assert a[..] == InitialSlots(size);
      InitialFreeList(size);
      slots := a;
      nextFree := 0;
      hnodes := map[];
      onodes := map[];
      freeList := seq(size, k => k);
      arrayLocked := false;
      locked := {};
    }

    /** The lookup part of _obj_get: the hnode a handle stands for, or the way
        the C code fails. The range test is `h > size`, so h == size is let
        through to a read one past the end of the array; a free slot's odd word
        is not rejected either and would be dereferenced as an hnode pointer. */
    function Lookup(h: int): (r: Outcome<int>)
      reads this`slots, this`nextFree, this`freeList, this`hnodes, this`onodes, slots
      requires Valid()
      ensures r.Returns? <==> IsValidHandle(h)
      ensures r.Returns? ==> r.value == slots[h] && r.value in hnodes && hnodes[r.value].onode in onodes
      ensures h < 0 || h > slots.Length ==> r.Panics?
      ensures h == slots.Length ==> r.Undefined?
      ensures 0 <= h < slots.Length && slots[h] == 0 ==> r.Panics?
      ensures 0 <= h < slots.Length && h in freeList ==> r.Undefined?
    {
      if h < 0 || h > slots.Length then Panics("handle out of range")
      else if h == slots.Length then Undefined("reads one slot past the end of _handle_array")
      else if slots[h] == 0 then Panics("hnode is NULL")
      else if slots[h] % 2 == 1 then Undefined("a free-list word is dereferenced as an hnode")
      else assert slots[..][h] == slots[h]; Returns(slots[h])
    }

    /** A used slot whose object has the given type and name. */
    predicate Matches(j: int, name: string, t: ObjType)
      reads this`slots, this`nextFree, this`freeList, this`hnodes, this`onodes, slots
    {
      && 0 <= j < slots.Length && IsValidHNode(slots[j])
      && slots[j] in hnodes && hnodes[slots[j]].onode in onodes
      && onodes[hnodes[slots[j]].onode].ops.objType == t
      && onodes[hnodes[slots[j]].onode].name == Some(name)
    }

    /** The first matching slot at or after j, or -ENOENT. */
    function SearchFrom(j: int, name: string, t: ObjType): (r: int)
      reads this`slots, this`nextFree, this`freeList, this`hnodes, this`onodes, slots
      requires 0 <= j <= slots.Length
      ensures r >= 0 ==> j <= r < slots.Length && Matches(r, name, t)
      ensures r >= 0 ==> forall k :: j <= k < r ==> !Matches(k, name, t)
      ensures r < 0 ==> r == -ENOENT && forall k :: j <= k < slots.Length ==> !Matches(k, name, t)
      decreases slots.Length - j
    {
      if j == slots.Length then -ENOENT
      else if Matches(j, name, t) then j
      else SearchFrom(j + 1, name, t)
    }

    function Search(name: string, t: ObjType): (r: int)
      reads this`slots, this`nextFree, this`freeList, this`hnodes, this`onodes, slots
      ensures r >= 0 ==> r < slots.Length && Matches(r, name, t)
      ensures r >= 0 ==> forall k :: 0 <= k < r ==> !Matches(k, name, t)
      ensures r < 0 ==> r == -ENOENT && forall k :: 0 <= k < slots.Length ==> !Matches(k, name, t)
    {
      SearchFrom(0, name, t)
    }

    /** _obj_search: a linear scan of the array for the first used slot whose
        object has the given type and name. */
    method ObjSearch(name: string, t: ObjType) returns (r: int)
      requires Valid() && arrayLocked
      ensures r == Search(name, t)
    {
      var j := 0;
      while j < slots.Length
        invariant 0 <= j <= slots.Length
        invariant SearchFrom(j, name, t) == Search(name, t)
      {
        var w := slots[j];
        if IsValidHNode(w) {
          assert slots[..][j] == w;
          var o := onodes[hnodes[w].onode];
          if o.ops.objType == t && o.name.Some? && o.name.value == name {
            return j;
          }
        }
        j := j + 1;
      }
      return -ENOENT;
    }

    /** _handle_alloc: pops the head of the free list and leaves its slot NULL. */
    method HandleAlloc() returns (h: int)
      requires Valid() && arrayLocked
      modifies this`nextFree, this`freeList, this`hnodes, this`onodes, this`arrayLocked, slots
      ensures Valid() && slots == old(slots)
      ensures hnodes == old(hnodes) && onodes == old(onodes)
      ensures arrayLocked == old(arrayLocked) && locked == old(locked)
      ensures old(nextFree) < 0 <==> old(freeList) == []
      ensures old(nextFree) < 0 ==> h == -ENOMEM && nextFree == old(nextFree) && slots[..] == old(slots[..])
                                    && freeList == old(freeList)
      ensures old(nextFree) >= 0 ==>
        && h == old(nextFree) && 0 <= h < slots.Length
        && nextFree == Sar1(old(slots[h]))
        && slots[..] == old(slots[..])[h := 0]
        && freeList == old(freeList)[1..]
      ensures forall o :: Handles(o) == old(Handles(o))
      ensures old(RefCountsExact()) ==> RefCountsExact()
    {
      if nextFree < 0 {
        return -ENOMEM;
      }
      PopFree(slots[..], freeList);
      ClearFreeSlot(slots[..], hnodes, onodes, nextFree);
      h := nextFree;
      nextFree := Sar1(slots[h]);
      slots[h] := 0;
      freeList := freeList[1..];
    }

    /** _handle_free: pushes a used slot back as the new head of the free list,
        so the next _handle_alloc returns it again. The hnode itself is left
        alone. */
    method HandleFree(h: int)
      requires Valid() && arrayLocked && IsValidHandle(h)
      modifies this`nextFree, this`freeList, this`hnodes, this`onodes, this`arrayLocked, slots
      ensures FreeListOk(slots[..], freeList, nextFree) && slots == old(slots)
      ensures hnodes == old(hnodes) && onodes == old(onodes)
      ensures arrayLocked == old(arrayLocked) && locked == old(locked)
      ensures slots[..] == old(slots[..])[h := FreeWord(old(nextFree))]
      ensures nextFree == h && freeList == [h] + old(freeList)
    {
      PushFree(slots[..], freeList, h);
      slots[h] := FreeWord(nextFree);
      nextFree := h;
      freeList := [h] + freeList;
    }

    /** _obj_dup_internal: a second handle on the same onode. */
    method DupInternal(h: int, task: Option<TaskId>, hnodeMem: Option<Addr>) returns (r: int)
      requires Valid() && RefCountsExact() && arrayLocked && IsValidHandle(h)
      requires hnodeMem.Some? ==> hnodeMem.value !in hnodes
      modifies this`nextFree, this`freeList, this`hnodes, this`onodes, this`arrayLocked, slots
      ensures Valid() && RefCountsExact() && slots == old(slots)
      ensures arrayLocked == old(arrayLocked) && locked == old(locked)
      ensures r < 0 <==> hnodeMem.None? || old(nextFree) < 0
      ensures r < 0 ==> r == -ENOMEM && slots[..] == old(slots[..]) && nextFree == old(nextFree)
                        && hnodes == old(hnodes) && onodes == old(onodes) && freeList == old(freeList)
      ensures r >= 0 ==>
        var src := old(hnodes[slots[h]]);
        && r == old(nextFree) && hnodeMem.Some?
        && slots[..] == old(slots[..])[r := hnodeMem.value]
        && hnodes == old(hnodes)[hnodeMem.value := HNode(src.onode, task, src.fdOffset, 0)]
        && onodes == AddRef(old(onodes), src.onode)
        && freeList == old(freeList)[1..]
    {
      if hnodeMem.None? {
        return -ENOMEM;
      }
      var mem := hnodeMem.value;
      assert slots[..][h] == slots[h];
      var src := hnodes[slots[h]];
      r := HandleAlloc();
      if r < 0 {
        return -ENOMEM;
      }
      InstallHandle(r, mem, HNode(src.onode, task, src.fdOffset, 0));
    }

    /** Lines 131-137 of _obj_dup_internal: the new hnode goes into the slot
        just allocated and its onode gains a reference. */
    method InstallHandle(r: int, mem: Addr, node: HNode)
      requires Valid() && RefCountsExact()
      requires 0 <= r < slots.Length && slots[r] == 0 && r !in freeList
      requires mem !in hnodes && node.onode in onodes
      modifies this`nextFree, this`freeList, this`hnodes, this`onodes, this`arrayLocked, slots
      ensures Valid() && RefCountsExact() && slots == old(slots)
      ensures nextFree == old(nextFree) && freeList == old(freeList)
      ensures arrayLocked == old(arrayLocked) && locked == old(locked)
      ensures slots[..] == old(slots[..])[r := mem]
      ensures hnodes == old(hnodes)[mem := node]
      ensures onodes == AddRef(old(onodes), node.onode)
    {
      InstallKeeps(slots[..], freeList, nextFree, hnodes, onodes, r, mem, node);
      hnodes := hnodes[mem := node];
      onodes := AddRef(onodes, node.onode);
      slots[r] := mem;
    }

    /** _obj_open: find an object of this type and name and open a new
        handle on it, or create it. `disposition` is OBJ_OPEN_EXISTING when an
        existing object was opened and 0 otherwise. The outcomes of kmalloc and
        strdup are the arguments hnodeMem, onodeMem and nameDupOk.

        The test after _handle_alloc is `0 < h` on a pointer, so it is true
        for every slot but 0 and for the negative error code: only an
        allocation of slot 0 goes on to create an object, and any other slot
        is left NULL and off the free list. Once slot 0 holds an hnode,
        creating a second object fails with -ENOMEM. When a kmalloc or strdup
        fails after that, `_handle_free` is handed the still-NULL slot 0 and
        its assertion stops the kernel. */
    method ObjOpen(name: Option<string>, flags: bv32, ops: ONodeOps, current: Option<TaskId>,
                   hnodeMem: Option<Addr>, onodeMem: Option<Addr>, nameDupOk: bool)
      returns (r: Outcome<int>, disposition: int)
      requires Valid() && RefCountsExact()
      requires hnodeMem.Some? ==> hnodeMem.value !in hnodes
      requires onodeMem.Some? ==> onodeMem.value !in onodes
      modifies this`nextFree, this`freeList, this`hnodes, this`onodes, this`arrayLocked, slots
      ensures slots == old(slots) && locked == old(locked)
      ensures r.Returns? ==> Valid() && RefCountsExact() && !arrayLocked
      ensures !r.Returns? || r.value < 0 ==> disposition == 0
      ensures var task := if flags & OBJ_KERNEL != 0 then None else current;
        var found := name.Some? && old(Search(name.value, ops.objType)) >= 0;
        && (found && flags & OBJ_CREATE_NEW != 0 ==>
              r == Returns(-EEXIST) && Unchanged())
        && (found && flags & OBJ_CREATE_NEW == 0 ==>
              r.Returns? &&
              (r.value < 0 <==> hnodeMem.None? || old(nextFree) < 0) &&
              (r.value < 0 ==> r.value == -ENOMEM && Unchanged()) &&
              (r.value >= 0 ==>
                var src := old(hnodes[slots[Search(name.value, ops.objType)]]);
                && r.value == old(nextFree) && disposition == OBJ_OPEN_EXISTING as int
                && slots[..] == old(slots[..])[r.value := hnodeMem.value]
                && hnodes == old(hnodes)[hnodeMem.value := HNode(src.onode, task, src.fdOffset, flags)]
                && onodes == AddRef(old(onodes), src.onode)))
        && (!found && flags & OBJ_OPEN_EXISTING != 0 ==>
              r == Returns(-ENOENT) && Unchanged())
        && (!found && flags & OBJ_OPEN_EXISTING == 0 && old(nextFree) != 0 ==>
              r == Returns(-ENOMEM) && hnodes == old(hnodes) && onodes == old(onodes)
              && slots[..] == (if old(nextFree) < 0 then old(slots[..]) else old(slots[..])[old(nextFree) := 0]))
        && (!found && flags & OBJ_OPEN_EXISTING == 0 && old(nextFree) == 0 ==>
              if hnodeMem.None? || onodeMem.None? || (name.Some? && !nameDupOk) then r.Panics?
              else
                && r == Returns(0) && disposition == 0
                && slots[..] == old(slots[..])[0 := hnodeMem.value]
                && hnodes == old(hnodes)[hnodeMem.value := HNode(onodeMem.value, task, 0, flags)]
                && onodes == old(onodes)[onodeMem.value := NewONode(ops, name)])
    {
      var task := if flags & OBJ_KERNEL != 0 then None else current;
      disposition := 0;
      arrayLocked := true;
      if name.Some? {
        var index := ObjSearch(name.value, ops.objType);
        assert index == old(Search(name.value, ops.objType));
        if 0 <= index {
          ghost var src := hnodes[slots[index]];
          assert src == old(hnodes[slots[Search(name.value, ops.objType)]]);
          var h;
          h, disposition := OpenExisting(index, flags, task, hnodeMem);
          return Returns(h), disposition;
        }
      }
      r := CreateNew(name, flags, ops, task, hnodeMem, onodeMem, nameDupOk);
    }

    /** Lines 204-223 of _obj_open: an object of that name and type exists;
        refuse under OBJ_CREATE_NEW, otherwise dup the handle found and give
        the new hnode the caller's flags. */
    method OpenExisting(index: int, flags: bv32, task: Option<TaskId>, hnodeMem: Option<Addr>)
      returns (h: int, disposition: int)
      requires Valid() && RefCountsExact() && arrayLocked && IsValidHandle(index)
      requires hnodeMem.Some? ==> hnodeMem.value !in hnodes
      modifies this`nextFree, this`freeList, this`hnodes, this`onodes, this`arrayLocked, slots
      ensures Valid() && RefCountsExact() && slots == old(slots) && locked == old(locked) && !arrayLocked
      ensures flags & OBJ_CREATE_NEW != 0 ==> h == -EEXIST && disposition == 0 && Unchanged()
      ensures flags & OBJ_CREATE_NEW == 0 ==> (h < 0 <==> hnodeMem.None? || old(nextFree) < 0)
      ensures flags & OBJ_CREATE_NEW == 0 && h < 0 ==> h == -ENOMEM && disposition == 0 && Unchanged()
      ensures h >= 0 ==>
        var src := old(hnodes[slots[index]]);
        && h == old(nextFree) && hnodeMem.Some? && disposition == OBJ_OPEN_EXISTING as int
        && slots[..] == old(slots[..])[h := hnodeMem.value]
        && hnodes == old(hnodes)[hnodeMem.value := HNode(src.onode, task, src.fdOffset, flags)]
        && onodes == AddRef(old(onodes), src.onode)
    {
      disposition := 0;
      if flags & OBJ_CREATE_NEW != 0 {
        arrayLocked := false;
        return -EEXIST, disposition;
      }
      h := DupInternal(index, task, hnodeMem);
      arrayLocked := false;
      if 0 <= h {
        ghost var hn1 := hnodes;
        var mem := hnodeMem.value;
        Retag(mem, flags);
        RetagAfterStore(old(hnodes), mem, hn1[mem], flags);
        disposition := OBJ_OPEN_EXISTING as int;
      }
    }

    /** Lines 227-286 of _obj_open: no object of that name and type exists;
        refuse under OBJ_OPEN_EXISTING, otherwise allocate a slot, an hnode,
        an onode and a copy of the name, and fill them in. */
    method CreateNew(name: Option<string>, flags: bv32, ops: ONodeOps, task: Option<TaskId>,
                     hnodeMem: Option<Addr>, onodeMem: Option<Addr>, nameDupOk: bool)
      returns (r: Outcome<int>)
      requires Valid() && RefCountsExact() && arrayLocked
      requires hnodeMem.Some? ==> hnodeMem.value !in hnodes
      requires onodeMem.Some? ==> onodeMem.value !in onodes
      modifies this`nextFree, this`freeList, this`hnodes, this`onodes, this`arrayLocked, slots
      ensures slots == old(slots) && locked == old(locked)
      ensures r.Returns? ==> Valid() && RefCountsExact() && !arrayLocked
      ensures flags & OBJ_OPEN_EXISTING != 0 ==> r == Returns(-ENOENT) && Unchanged()
      ensures flags & OBJ_OPEN_EXISTING == 0 && old(nextFree) != 0 ==>
        && r == Returns(-ENOMEM) && hnodes == old(hnodes) && onodes == old(onodes)
        && slots[..] == (if old(nextFree) < 0 then old(slots[..]) else old(slots[..])[old(nextFree) := 0])
      ensures flags & OBJ_OPEN_EXISTING == 0 && old(nextFree) == 0 ==>
        if hnodeMem.None? || onodeMem.None? || (name.Some? && !nameDupOk) then r.Panics?
        else
          && r == Returns(0)
          && slots[..] == old(slots[..])[0 := hnodeMem.value]
          && hnodes == old(hnodes)[hnodeMem.value := HNode(onodeMem.value, task, 0, flags)]
          && onodes == old(onodes)[onodeMem.value := NewONode(ops, name)]
    {
      if flags & OBJ_OPEN_EXISTING != 0 {
        arrayLocked := false;
        return Returns(-ENOENT);
      }
      var h := HandleAlloc();
      PointerAboveZeroExactly(h);
      if PointerAboveZero(h) {
        arrayLocked := false;
        return Returns(-ENOMEM);
      }
      if hnodeMem.None? || onodeMem.None? || (name.Some? && !nameDupOk) {
        return Panics("_handle_free: slot 0 is not a valid handle");
      }
      var onode, on0 := NewONode(ops, name), onodes;
      AddObject(onodeMem.value, onode.(refCount := 0));
      InstallHandle(h, hnodeMem.value, HNode(onodeMem.value, task, 0, flags));
      FirstReference(on0, onodeMem.value, onode);
      arrayLocked := false;
      return Returns(h);
    }

    /** Writes into the onodes that keep every object and its reference
        count (a wait list, a semaphore's count) keep the table sound. */
    twostate lemma OnodesReshaped()
      requires old(Valid()) && SameRefs(old(onodes), onodes)
      requires unchanged(this`slots, this`nextFree, this`freeList, this`hnodes) && unchanged(slots)
      ensures Valid() && (old(RefCountsExact()) ==> RefCountsExact())
    {
      assert old(slots[..]) == slots[..];
      ReshapeKeeps(slots[..], hnodes, old(onodes), onodes);
    }

    /** Lines 269-275 of _obj_open: the new onode joins the objects, with no
        handle on it yet. */
    method AddObject(o: Addr, node: ONode)
      requires Valid() && RefCountsExact() && o !in onodes && node.refCount == 0
      modifies this`onodes
      ensures Valid() && RefCountsExact()
      ensures onodes == old(onodes)[o := node]
    {
      AddONodeKeeps(slots[..], hnodes, onodes, o, node);
      onodes := onodes[o := node];
    }

    /** Line 213 of _obj_open: the new hnode takes the caller's flags, which
        keeps the table sound. */
    method Retag(mem: int, f: bv32)
      requires Valid() && RefCountsExact() && mem in hnodes
      modifies this`hnodes
      ensures Valid() && RefCountsExact()
      ensures hnodes == old(hnodes)[mem := old(hnodes)[mem].(flags := f)]
    {
      RetagKeeps(slots[..], hnodes, onodes, mem, f);
      hnodes := hnodes[mem := hnodes[mem].(flags := f)];
    }

    /** Nothing in the table moved. */
    twostate predicate Unchanged()
      reads this`slots, this`nextFree, this`freeList, this`hnodes, this`onodes, slots
    {
      && slots[..] == old(slots[..]) && nextFree == old(nextFree)
      && hnodes == old(hnodes) && onodes == old(onodes)
    }

    /** _obj_get: the lookup, with the object's lock taken on success. */
    method ObjGet(h: int) returns (r: Outcome<int>)
      requires Valid()
      modifies this`locked
      ensures r == Lookup(h)
      ensures r.Returns? ==> locked == old(locked) + {hnodes[r.value].onode}
      ensures !r.Returns? ==> locked == old(locked)
    {
      r := Lookup(h);
      if r.Returns? {
        locked := locked + {hnodes[r.value].onode};
      }
    }

    /** _obj_release */
    method ObjRelease(hn: int)
      requires hn in hnodes
      modifies this`locked
      ensures locked == old(locked) - {hnodes[hn].onode}
    {
      locked := locked - {hnodes[hn].onode};
    }
  }

  /** obj_close: not implemented; it stops the kernel whatever the handle. */
  function ObjClose(h: int): (r: Outcome<int>)
    ensures r.Panics?
  {
    Panics("obj_close not implemented")
  }

  /** `0 < h` on a `handle`, which is a pointer type: the comparison is unsigned. */
  predicate PointerAboveZero(h: int) {
    0 < U32(h)
  }

  /** On a word that fits in 32 bits the comparison is false only for 0. */
  lemma PointerAboveZeroExactly(h: int)
    requires -TWO32 < h < TWO32
    ensures PointerAboveZero(h) <==> h != 0
  {
    if h < 0 {
      assert h + TWO32 == U32(h) by {
        assert (h + TWO32) % TWO32 == h % TWO32;
      }
    }
  }
}
