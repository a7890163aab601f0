/** The filesystem-type registry of kernel/fs/vfs.c.

    `fs_type_list` is a circular doubly-linked list of `fs_type` records, each
    holding a strdup'd name, an operations table and a reference count. The
    model keeps the list as the sequence of its records read from the head;
    since nothing is ever unlinked (unregistering panics), a record's position
    in that sequence is also its identity, which is what `vfs_find_fs` hands
    out and `vfs_release_fs` takes back. The ring pointers are those of
    CircularList over the sequence of names. */
module Vfs {
  import opened Common
  import opened Errno
  import opened Lib
  import CircularList

  const INT_MAX: int := 0x7fff_ffff

  /** One registered type: its name without the terminator, its operations
      table and `ref_count`. */
  datatype FsType = FsType(name: seq<Byte>, ops: nat, refCount: int)

  /** The registered names, read from the head. */
  function Names(types: seq<FsType>): (r: seq<seq<Byte>>)
    ensures |r| == |types| && forall i | 0 <= i < |types| :: r[i] == types[i].name
  {
    if types == [] then [] else [types[0].name] + Names(types[1..])
  }

  /** What registration and the reference counting keep true of the list:
      names are distinct C strings and counts are int values that never went
      below zero. */
  ghost predicate Registry(types: seq<FsType>) {
    (forall i, j | 0 <= i < j < |types| :: types[i].name != types[j].name) &&
    forall i | 0 <= i < |types| :: NUL !in types[i].name && 0 <= types[i].refCount <= INT_MAX
  }

  /** The registry's names form a ring without repeats. */
  lemma RegistryRing(types: seq<FsType>)
    requires Registry(types)
    ensures CircularList.NoDup(Names(types))
  {
  }

  /** The first record, from the head, whose name is key. */
  function Lookup(types: seq<FsType>, key: seq<Byte>, i: nat): (r: Option<nat>)
    requires i <= |types|
    ensures r.Some? ==> i <= r.value < |types| && types[r.value].name == key
    ensures r.None? <==> forall j | i <= j < |types| :: types[j].name != key
    ensures r.Some? ==> forall j | i <= j < r.value :: types[j].name != key
    decreases |types| - i
  {
    if i == |types| then None
    else if types[i].name == key then Some(i)
    else Lookup(types, key, i + 1)
  }

  /** `vfs_register_fs(name, ops)`: the outcome and the list afterwards.
      `fsAllocFails` and `nameAllocFails` stand for the two kmalloc calls
      (the record's, and strdup's, whose NULL is written through). */
  function RegisterSpec(types: seq<FsType>, name: Option<seq<Byte>>, ops: Option<nat>,
                        fsAllocFails: bool, nameAllocFails: bool): (Outcome<int>, seq<FsType>)
    requires name.Some? ==> Terminated(name.value)
  {
    if name.None? || ops.None? then (Returns(-EINVAL), types)
    else if fsAllocFails then (Returns(-ENOMEM), types)
    else if nameAllocFails then (Undefined("strdup writes through a NULL pointer"), types)
    else if Lookup(types, Str(name.value), 0).Some? then (Returns(-EEXIST), types)
    else (Returns(0), types + [FsType(Str(name.value), ops.value, 0)])
  }

  /** `vfs_find_fs(name)`: the position handed out and the list afterwards. */
  function FindSpec(types: seq<FsType>, name: Option<seq<Byte>>): (Outcome<Option<nat>>, seq<FsType>)
    requires name.Some? ==> Terminated(name.value)
  {
    if types == [] then (Returns(None), types)
    else if name.None? then (Undefined("strcmp reads through a NULL pointer"), types)
    else
      var k := Lookup(types, Str(name.value), 0);
      if k.None? then (Returns(None), types)
      else if types[k.value].refCount == INT_MAX then (Undefined("ref_count++ overflows int"), types)
      else (Returns(k), types[k.value := types[k.value].(refCount := types[k.value].refCount + 1)])
  }

  /** `vfs_release_fs(fs)` for the record at position id. */
  function ReleaseSpec(types: seq<FsType>, id: nat): (Outcome<()>, seq<FsType>)
    requires id < |types|
  {
    if types[id].refCount > 0 then
      (Returns(()), types[id := types[id].(refCount := types[id].refCount - 1)])
    else (Panics("ASSERT(fs->ref_count > 0)"), types)
  }

  lemma NamesAppend(types: seq<FsType>, t: FsType)
    ensures Names(types + [t]) == Names(types) + [t.name]
  {
    var a, b := Names(types + [t]), Names(types) + [t.name];
    assert forall j | 0 <= j < |a| :: a[j] == b[j];
  }

  lemma LookupAbsent(types: seq<FsType>, key: seq<Byte>)
    requires Lookup(types, key, 0).None?
    ensures key !in Names(types)
  {
    var ns := Names(types);
    assert forall j | 0 <= j < |ns| :: ns[j] != key;
  }

  /** Registration keeps the list a registry: a new name is never one already
      registered, and a new count starts at zero. */
  lemma {:induction false} RegisterKeepsRegistry(types: seq<FsType>, name: Option<seq<Byte>>, ops: Option<nat>,
                                               fsAllocFails: bool, nameAllocFails: bool)
    requires Registry(types) && (name.Some? ==> Terminated(name.value))
    ensures Registry(RegisterSpec(types, name, ops, fsAllocFails, nameAllocFails).1)
  {
    var (r, types') := RegisterSpec(types, name, ops, fsAllocFails, nameAllocFails);
    if r == Returns(0) {
      var t := FsType(Str(name.value), ops.value, 0);
      assert types' == types + [t];
      assert forall j | 0 <= j < |types| :: types'[j] == types[j] && types[j].name != t.name;
    }
  }

  /** A successful registration links the new record in at the tail of the
      ring: its next is the old head (itself when the list was empty), its
      prev the old tail, those two point back at it, and the head changes
      only when the list was empty. */
  lemma {:induction false} RegisterAppendsAtTail(types: seq<FsType>, name: seq<Byte>, ops: nat)
    requires Registry(types) && Terminated(name)
    requires RegisterSpec(types, Some(name), Some(ops), false, false).0 == Returns(0)
    ensures var ns := Names(RegisterSpec(types, Some(name), Some(ops), false, false).1);
      ns == Names(types) + [Str(name)] &&
      CircularList.Head(ns) == (if types == [] then Some(Str(name)) else CircularList.Head(Names(types))) &&
      CircularList.Next(ns, Str(name)) == (if types == [] then Str(name) else types[0].name) &&
      CircularList.Prev(ns, Str(name)) == (if types == [] then Str(name) else types[|types| - 1].name) &&
      CircularList.Prev(ns, CircularList.Next(ns, Str(name))) == Str(name) &&
      CircularList.Next(ns, CircularList.Prev(ns, Str(name))) == Str(name)
  {
    var t := FsType(Str(name), ops, 0);
    assert RegisterSpec(types, Some(name), Some(ops), false, false).1 == types + [t];
    RegistryRing(types);
    LookupAbsent(types, t.name);
    NamesAppend(types, t);
    TailLinks(Names(types), t.name);
  }

  lemma TailLinks(ns: seq<seq<Byte>>, y: seq<Byte>)
    requires CircularList.NoDup(ns) && y !in ns
    ensures var ns' := ns + [y];
      CircularList.Head(ns') == (if ns == [] then Some(y) else CircularList.Head(ns)) &&
      CircularList.Next(ns', y) == (if ns == [] then y else ns[0]) &&
      CircularList.Prev(ns', y) == (if ns == [] then y else ns[|ns| - 1]) &&
      CircularList.Prev(ns', CircularList.Next(ns', y)) == y &&
      CircularList.Next(ns', CircularList.Prev(ns', y)) == y
  {
    CircularList.AppendLinks(ns, y);
    CircularList.Reciprocal(ns + [y], y);
  }

  /** Registering a name that is already there is refused with -EEXIST and
      changes nothing. */
  lemma RegisterTwice(types: seq<FsType>, name: seq<Byte>, ops1: nat, ops2: nat)
    requires Terminated(name)
    requires RegisterSpec(types, Some(name), Some(ops1), false, false).0 == Returns(0)
    ensures var types' := RegisterSpec(types, Some(name), Some(ops1), false, false).1;
      RegisterSpec(types', Some(name), Some(ops2), false, false) == (Returns(-EEXIST), types')
  {
    var types' := RegisterSpec(types, Some(name), Some(ops1), false, false).1;
    assert types'[|types|].name == Str(name);
    assert Lookup(types', Str(name), 0).Some?;
  }

  /** Once registered, a name is found: at the tail, with its count raised
      from 0 to 1. */
  lemma RegisterThenFind(types: seq<FsType>, name: seq<Byte>, ops: nat)
    requires Terminated(name)
    requires RegisterSpec(types, Some(name), Some(ops), false, false).0 == Returns(0)
    ensures var types' := RegisterSpec(types, Some(name), Some(ops), false, false).1;
      FindSpec(types', Some(name)) ==
      (Returns(Some(|types|)), types + [FsType(Str(name), ops, 1)])
  {
    var types' := RegisterSpec(types, Some(name), Some(ops), false, false).1;
    assert types'[|types|].name == Str(name);
    assert forall j | 0 <= j < |types| :: types'[j] == types[j];
    assert Lookup(types', Str(name), 0) == Some(|types|);
    assert types'[|types| := FsType(Str(name), ops, 1)] == types + [FsType(Str(name), ops, 1)];
  }

  /** Releasing what a find handed out puts the count back. */
  lemma FindThenRelease(types: seq<FsType>, name: seq<Byte>)
    requires Registry(types) && Terminated(name)
    requires FindSpec(types, Some(name)).0.Returns? && FindSpec(types, Some(name)).0.value.Some?
    ensures var (r, types') := FindSpec(types, Some(name));
      r.value.value < |types'| && ReleaseSpec(types', r.value.value) == (Returns(()), types)
  {
    var (r, types') := FindSpec(types, Some(name));
    var k := r.value.value;
    assert types'[k := types'[k].(refCount := types'[k].refCount - 1)] == types;
  }

  /** Finding and releasing keep the list a registry. */
  lemma {:induction false} FindKeepsRegistry(types: seq<FsType>, name: Option<seq<Byte>>)
    requires Registry(types) && (name.Some? ==> Terminated(name.value))
    ensures Registry(FindSpec(types, name).1)
  {
    var (r, types') := FindSpec(types, name);
    if r.Returns? && r.value.Some? {
      var k := r.value.value;
      assert forall j | 0 <= j < |types| :: types'[j].name == types[j].name;
    }
  }

  lemma {:induction false} ReleaseKeepsRegistry(types: seq<FsType>, id: nat)
    requires Registry(types) && id < |types|
    ensures Registry(ReleaseSpec(types, id).1)
  {
    var (r, types') := ReleaseSpec(types, id);
    if r.Returns? {
      assert forall j | 0 <= j < |types| :: types'[j].name == types[j].name;
    }
  }

  /** A stored name with its terminator put back reads as itself. */
  lemma StoredName(s: seq<Byte>)
    requires NUL !in s
    ensures Terminated(s + [NUL]) && Str(s + [NUL]) == s
  {
    StrlenIs(s + [NUL], |s|);
  }

  /** The walk both `vfs_register_fs` and `vfs_find_fs` make: from the
      head, strcmp against each name, stopping after the tail. */
  method Search(types: seq<FsType>, name: seq<Byte>) returns (k: Option<nat>)
    requires Registry(types) && Terminated(name)
    ensures k == Lookup(types, Str(name), 0)
  {
    var i := 0;
    while i < |types|
      invariant 0 <= i <= |types|
      invariant Lookup(types, Str(name), 0) == Lookup(types, Str(name), i)
    {
      StoredName(types[i].name);
      if Strcmp(types[i].name + [NUL], name) == 0 {
        return Some(i);
      }
      i := i + 1;
    }
    return None;
  }

  /** `fs_type_list` and the operations on it. */
  class FsRegistry {
    var types: seq<FsType>

    ghost predicate Valid()
      reads this
    {
      Registry(types)
    }

    /** The statics as the kernel image starts with them: an empty list. */
    constructor ()
      ensures Valid() && types == []
    {
      types := [];
    }

    /** `vfs_register_fs`. The duplicate scan walks the ring from the head
        and stops after the tail, comparing names with strcmp. */
    method Register(name: Option<seq<Byte>>, ops: Option<nat>, fsAllocFails: bool, nameAllocFails: bool)
      returns (r: Outcome<int>)
      requires Valid() && (name.Some? ==> Terminated(name.value))
      modifies this
      ensures Valid()
      ensures (r, types) == RegisterSpec(old(types), name, ops, fsAllocFails, nameAllocFails)
    {
      RegisterKeepsRegistry(types, name, ops, fsAllocFails, nameAllocFails);
      if name.None? || ops.None? {
        return Returns(-EINVAL);
      }
      if fsAllocFails {
        return Returns(-ENOMEM);
      }
      if nameAllocFails {
        return Undefined("strdup writes through a NULL pointer");
      }
      var ts := types;
      var k := Search(ts, name.value);
      if k.Some? {
        return Returns(-EEXIST);
      }
      types := ts + [FsType(Str(name.value), ops.value, 0)];
      assert (Returns(0), types) == RegisterSpec(ts, name, ops, fsAllocFails, nameAllocFails);
      return Returns(0);
    }

    /** `vfs_unregister_fs`: not implemented, it panics whatever the name. */
    method Unregister(name: Option<seq<Byte>>) returns (r: Outcome<int>)
      ensures r.Panics?
    {
      return Panics("vfs: unregister not implemented");
    }

    /** `vfs_find_fs`: the first record with that name gains a reference. */
    method Find(name: Option<seq<Byte>>) returns (r: Outcome<Option<nat>>)
      requires Valid() && (name.Some? ==> Terminated(name.value))
      modifies this
      ensures Valid()
      ensures (r, types) == FindSpec(old(types), name)
    {
      FindKeepsRegistry(types, name);
      if types == [] {
        return Returns(None);
      }
      if name.None? {
        return Undefined("strcmp reads through a NULL pointer");
      }
      var k := Search(types, name.value);
      if k.None? {
        return Returns(None);
      }
      if types[k.value].refCount == INT_MAX {
        return Undefined("ref_count++ overflows int");
      }
      types := types[k.value := types[k.value].(refCount := types[k.value].refCount + 1)];
      return Returns(k);
    }

    /** `vfs_release_fs` on a record find handed out. */
    method Release(id: nat) returns (r: Outcome<()>)
      requires Valid() && id < |types|
      modifies this
      ensures Valid()
      ensures (r, types) == ReleaseSpec(old(types), id)
    {
      ReleaseKeepsRegistry(types, id);
      if types[id].refCount <= 0 {
        return Panics("ASSERT(fs->ref_count > 0)");
      }
      types := types[id := types[id].(refCount := types[id].refCount - 1)];
      return Returns(());
    }
  }
}
