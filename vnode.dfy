/** Vnodes (kernel/fs/vnode.c): creating one, and descending one level of a
    pathname from a directory vnode.

    A vnode is a kernel object whose fields are set in place, so it is a class.
    The directory search itself is the filesystem's `find` callback, which the
    model cannot see: its return value is a parameter. */
module Vnode {
  import opened Common
  import opened Errno
  import opened Lib

  const TWO64: int := 0x1_0000_0000_0000_0000

  /** mode_t bit of a directory, and the longest name a component may have. */
  const S_IFDIR: bv32 := 0x1000
  const MAX_FNAME_LEN: nat := 255

  const SLASH: Byte := 47

  /** The operations table a filesystem type supplies; only whether it has a
      `find` callback matters here. */
  datatype VnodeOps = VnodeOps(hasFind: bool)

  /** A mounted filesystem as vnode.c sees it: `mount->fs_type->vfs_ops`,
      NULL when the mount has no type. */
  class FsMount {
    const ops: Option<VnodeOps>

    constructor (ops: Option<VnodeOps>)
      ensures this.ops == ops
    {
      this.ops := ops;
    }
  }

  /** struct vnode (the fields vnode.c sets; its spinlock is not modelled). */
  class Vnode {
    var parent: Vnode?
    var next: Vnode?
    var prev: Vnode?
    var mode: bv32
    var fileSize: int
    var blocks: int
    var inodeNum: int
    var refCount: int
    var ops: VnodeOps
    var mount: FsMount
    var privateData: Option<nat>

    /** The initialisation in `vfs_vnode_alloc`. `inode_num` is an unsigned
        64-bit field, so the -1 stored there reads back as 2^64-1. */
    constructor Init(parent: Vnode?, mount: FsMount)
      requires mount.ops.Some?
      ensures this.parent == parent && next == this && prev == this
      ensures mode == 0 && fileSize == 0 && blocks == 0
      ensures inodeNum == TWO64 - 1 && refCount == 1
      ensures ops == mount.ops.value && this.mount == mount && privateData == None
    {
      this.parent := parent;
      mode := 0;
      fileSize := 0;
      blocks := 0;
      inodeNum := -1 % TWO64;
      refCount := 1;
      ops := mount.ops.value;
      this.mount := mount;
      privateData := None;
      new;
      next := this;
      prev := this;
    }
  }

  /** The `struct vnode **` out-parameter. */
  class VnodeSlot {
    var vn: Vnode?

    constructor ()
      ensures vn == null
    {
      vn := null;
    }
  }

  /** `vfs_vnode_alloc(parent, mount, vnode_new)`. The ASSERTs on the
      out-parameter and the mount are the caller's duty; `allocFails` stands
      for kmalloc returning NULL. */
  method Alloc(parent: Vnode?, mount: FsMount, vnodeNew: VnodeSlot, allocFails: bool) returns (r: int)
    requires vnodeNew.vn == null && mount.ops.Some?
    modifies vnodeNew
    ensures allocFails ==> r == -ENOMEM && vnodeNew.vn == null
    ensures !allocFails ==> r == 0 && vnodeNew.vn != null && fresh(vnodeNew.vn)
    ensures !allocFails ==> var vn := vnodeNew.vn;
      vn.parent == parent && vn.next == vn && vn.prev == vn && vn.mode == 0 &&
      vn.inodeNum == TWO64 - 1 && vn.refCount == 1 && vn.mount == mount && vn.ops == mount.ops.value
  {
    if allocFails {
      return -ENOMEM;
    }
    var vn := new Vnode.Init(parent, mount);
    vnodeNew.vn := vn;
    return 0;
  }

  /** `vfs_vnode_free`: not implemented, it panics. */
  method Free(vn: Vnode?) returns (r: Outcome<int>)
    ensures r.Panics?
  {
    return Panics("vfs_vnode_free is not implemented");
  }

  /** How far the copy loop of `vfs_vnode_descend` gets from i on: it stops at
      MAX_FNAME_LEN characters, at the terminator or at a '/'. */
  function ComponentEnd(p: seq<Byte>, i: nat): (k: nat)
    requires Terminated(p) && i <= MAX_FNAME_LEN && i <= Strlen(p)
    ensures i <= k <= MAX_FNAME_LEN && k <= Strlen(p)
    ensures forall j | i <= j < k :: p[j] != SLASH && p[j] != NUL
    ensures k == MAX_FNAME_LEN || p[k] == NUL || p[k] == SLASH
    decreases MAX_FNAME_LEN - i
  {
    if i == MAX_FNAME_LEN || p[i] == NUL || p[i] == SLASH then i else ComponentEnd(p, i + 1)
  }

  /** The number of '/' in s. */
  function Slashes(s: seq<Byte>): (n: nat)
    ensures n <= |s|
  {
    if s == [] then 0 else (if s[0] == SLASH then 1 else 0) + Slashes(s[1..])
  }

  /** What a descent yields besides its code: -EBADPATH, which vnode.c returns
      but nothing defines, is kept apart from the numeric codes. */
  datatype Status = Code(value: int) | BadPath

  /** `vfs_vnode_descend`: the outcome, where `*nextpath` points into the
      pathname (None for NULL), and the name handed to `find`. `findResult`
      is what the `find` callback of the directory returns. */
  datatype Descent = Descent(ret: Outcome<Status>, nextpath: Option<nat>, name: seq<Byte>)

  function DescendSpec(pathname: Option<seq<Byte>>, vnIn: Option<(bv32, VnodeOps)>,
                       haveNextpath: bool, haveOut: bool, findResult: int): (d: Descent)
    requires pathname.Some? ==> Terminated(pathname.value)
  {
    if pathname.None? || vnIn.None? || !haveOut || !haveNextpath then Descent(Returns(Code(-EINVAL)), None, [])
    else if vnIn.value.0 & S_IFDIR == 0 then Descent(Returns(Code(-ENOTDIR)), None, [])
    else
      var p := pathname.value;
      var k := ComponentEnd(p, 0);
      if k >= MAX_FNAME_LEN then Descent(Returns(BadPath), None, p[..k])
      else
        var next := if p[k] == SLASH then Some(k + 1) else None;
        if !vnIn.value.1.hasFind then Descent(Returns(Code(-ENOTIMPL)), next, p[..k])
        else if findResult < 0 then Descent(Returns(Code(findResult)), next, p[..k])
        else if next.None? then Descent(Undefined("the '/' count reads through a NULL nextpath"), next, p[..k])
        else Descent(Returns(Code(Slashes(Str(p[k + 1..])))), next, p[..k])
  }

  /** The first component is the longest prefix free of '/' and of the
      terminator, and a descent that succeeds leaves nextpath just past the
      '/' that ends it: the path is the component, that '/', and the rest,
      and the count returned is that of the rest, one less than the path's. */
  lemma {:induction false} DescendSplits(p: seq<Byte>, mode: bv32, ops: VnodeOps, findResult: int)
    requires Terminated(p)
    requires DescendSpec(Some(p), Some((mode, ops)), true, true, findResult).ret.Returns?
    requires DescendSpec(Some(p), Some((mode, ops)), true, true, findResult).ret.value.Code?
    requires DescendSpec(Some(p), Some((mode, ops)), true, true, findResult).ret.value.value >= 0
    ensures var d := DescendSpec(Some(p), Some((mode, ops)), true, true, findResult);
      d.nextpath.Some? && 0 < d.nextpath.value <= Strlen(p) &&
      Str(p) == d.name + [SLASH] + Str(p[d.nextpath.value..]) &&
      SLASH !in d.name && |d.name| < MAX_FNAME_LEN &&
      Slashes(Str(p)) == d.ret.value.value + 1
  {
    var k := ComponentEnd(p, 0);
    SplitAt(p, k);
  }

  /** Splitting a C string at its first '/'. */
  lemma {:induction false} SplitAt(p: seq<Byte>, k: nat)
    requires Terminated(p) && k < Strlen(p) && p[k] == SLASH
    requires forall j | 0 <= j < k :: p[j] != SLASH
    ensures Str(p) == p[..k] + [SLASH] + Str(p[k + 1..])
    ensures Slashes(Str(p)) == Slashes(Str(p[k + 1..])) + 1
  {
    var rest := p[k + 1..];
    StrSuffix(p, k + 1);
    assert p[..k + 1] == p[..k] + [SLASH];
    SlashesAppend(p[..k], [SLASH] + Str(rest));
    SlashesAppend([SLASH], Str(rest));
    NoSlashes(p[..k]);
    assert [SLASH][1..] == [];
    assert Str(p) == p[..k] + ([SLASH] + Str(rest));
  }

  /** A component of MAX_FNAME_LEN characters or more is refused before the
      directory is searched, even one of exactly 255 characters. */
  lemma {:induction false} LongComponentRejected(p: seq<Byte>, mode: bv32, ops: VnodeOps, findResult: int)
    requires Terminated(p) && mode & S_IFDIR != 0
    requires MAX_FNAME_LEN <= Strlen(p) && forall j | 0 <= j < MAX_FNAME_LEN :: p[j] != SLASH
    ensures DescendSpec(Some(p), Some((mode, ops)), true, true, findResult).ret == Returns(BadPath)
  {
  }

  /** The last component (no '/' after it) is looked up, but once `find`
      succeeds the final count walks a NULL nextpath. */
  lemma {:induction false} LastComponentUndefined(p: seq<Byte>, mode: bv32, findResult: int)
    requires Terminated(p) && mode & S_IFDIR != 0 && findResult >= 0
    requires Strlen(p) < MAX_FNAME_LEN && SLASH !in Str(p)
    ensures var d := DescendSpec(Some(p), Some((mode, VnodeOps(true))), true, true, findResult);
      d.ret.Undefined? && d.name == Str(p) && d.nextpath == None
  {
    assert forall j | 0 <= j < Strlen(p) :: p[j] == Str(p)[j];
  }

  lemma {:induction false} SlashesAppend(a: seq<Byte>, b: seq<Byte>)
    ensures Slashes(a + b) == Slashes(a) + Slashes(b)
    decreases |a|
  {
    if a == [] {
      assert a + b == b;
    } else {
      assert (a + b)[0] == a[0] && (a + b)[1..] == a[1..] + b;
      SlashesAppend(a[1..], b);
    }
  }

  lemma {:induction false} NoSlashes(s: seq<Byte>)
    requires SLASH !in s
    ensures Slashes(s) == 0
    decreases |s|
  {
    if s != [] {
      NoSlashes(s[1..]);
    }
  }

  /** The string that starts at position j of a C string is its tail. */
  lemma {:induction false} StrSuffix(p: seq<Byte>, j: nat)
    requires Terminated(p) && j <= Strlen(p)
    ensures Terminated(p[j..]) && Strlen(p[j..]) == Strlen(p) - j
    ensures Str(p) == p[..j] + Str(p[j..])
  {
    StrlenIs(p[j..], Strlen(p) - j);
  }

  /** The counting loop of `vfs_vnode_descend`: the '/' characters of the
      string at p[from..]. */
  method CountSlashes(p: seq<Byte>, from: nat) returns (n: nat)
    requires Terminated(p) && from <= Strlen(p)
    ensures n == Slashes(Str(p[from..]))
  {
    ghost var len := Strlen(p);
    StrSuffix(p, from);
    assert Str(p[from..]) == p[from..len];
    var q := from;
    n := 0;
    while p[q] != NUL
      invariant from <= q <= len
      invariant n + Slashes(p[q..len]) == Slashes(p[from..len])
      decreases len - q
    {
      SlashesCons(p, q, len);
      n := n + if p[q] == SLASH then 1 else 0;
      q := q + 1;
    }
  }

  lemma {:induction false} SlashesCons(p: seq<Byte>, q: nat, e: nat)
    requires q < e <= |p|
    ensures Slashes(p[q..e]) == (if p[q] == SLASH then 1 else 0) + Slashes(p[q + 1..e])
  {
    assert p[q..e][1..] == p[q + 1..e];
  }

  /** `vfs_vnode_descend(pathname, vn_in, nextpath, vn_out)`. A NULL
      nextpath or vn_out is passed as false. */
  method Descend(pathname: Option<seq<Byte>>, vnIn: Vnode?, haveNextpath: bool, haveOut: bool, findResult: int)
    returns (d: Descent)
    requires pathname.Some? ==> Terminated(pathname.value)
    ensures d == DescendSpec(pathname, if vnIn == null then None else Some((vnIn.mode, vnIn.ops)),
                             haveNextpath, haveOut, findResult)
  {
    if pathname.None? || vnIn == null || !haveOut || !haveNextpath {
      return Descent(Returns(Code(-EINVAL)), None, []);
    }
    if vnIn.mode & S_IFDIR == 0 {
      return Descent(Returns(Code(-ENOTDIR)), None, []);
    }
    var p := pathname.value;
    var nextpath: Option<nat> := None;
    // copy the first component into tmpname
    var tmpname: seq<Byte> := [];
    var i := 0;
    while i < MAX_FNAME_LEN && p[i] != NUL && p[i] != SLASH
      invariant i <= MAX_FNAME_LEN && i <= Strlen(p)
      invariant ComponentEnd(p, 0) == ComponentEnd(p, i)
      invariant tmpname == p[..i]
      decreases MAX_FNAME_LEN - i
    {
      tmpname := tmpname + [p[i]];
      i := i + 1;
    }
    if i >= MAX_FNAME_LEN {
      return Descent(Returns(BadPath), None, tmpname);
    }
    if p[i] == SLASH {
      nextpath := Some(i + 1);
    }
    if !vnIn.ops.hasFind {
      return Descent(Returns(Code(-ENOTIMPL)), nextpath, tmpname);
    }
    if findResult < 0 {
      return Descent(Returns(Code(findResult)), nextpath, tmpname);
    }
    if nextpath.None? {
      return Descent(Undefined("the '/' count reads through a NULL nextpath"), nextpath, tmpname);
    }
    var n := CountSlashes(p, i + 1);
    return Descent(Returns(Code(n)), nextpath, tmpname);
  }
}
