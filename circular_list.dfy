/** The pointer view of an intrusive circular doubly-linked list.

    The kernel threads its wait nodes, its task ring and its filesystem-type
    registry through `next`/`prev` pointers, and keeps a `head` pointer that is
    NULL for an empty list. The model stores each such list as the sequence of
    its elements read from the head; `Next`, `Prev` and `Head` give back the
    pointers, and the lemmas below show that the pointer splices of the C code
    (insert before the head, unlink one node) are what appending to and removing
    from the sequence do to those pointers. */
module CircularList {
  import opened Common

  predicate NoDup<T(==)>(s: seq<T>) {
    forall i, j :: 0 <= i < j < |s| ==> s[i] != s[j]
  }

  /** Position of the first occurrence of x. */
  function IndexOf<T(==)>(s: seq<T>, x: T): (k: nat)
    requires x in s
    ensures k < |s| && s[k] == x
    ensures forall i :: 0 <= i < k ==> s[i] != x
  {
    if s[0] == x then 0 else 1 + IndexOf(s[1..], x)
  }

  /** Ring successor and predecessor of a position. */
  function Succ(i: nat, n: nat): nat
    requires i < n
  {
    if i + 1 == n then 0 else i + 1
  }

  function Pred(i: nat, n: nat): nat
    requires i < n
  {
    if i == 0 then n - 1 else i - 1
  }

  /** The head pointer: NULL for an empty list. */
  function Head<T>(s: seq<T>): Option<T> {
    if s == [] then None else Some(s[0])
  }

  /** `x->next` in the ring. */
  function Next<T(==)>(s: seq<T>, x: T): T
    requires x in s
  {
    s[Succ(IndexOf(s, x), |s|)]
  }

  /** `x->prev` in the ring. */
  function Prev<T(==)>(s: seq<T>, x: T): T
    requires x in s
  {
    s[Pred(IndexOf(s, x), |s|)]
  }

  /** The list after x has been unlinked. */
  function Without<T(==)>(s: seq<T>, x: T): (r: seq<T>)
    requires x in s
    ensures |r| == |s| - 1
  {
    var k := IndexOf(s, x);
    s[..k] + s[k + 1..]
  }

  lemma IndexOfAt<T>(s: seq<T>, i: int)
    requires NoDup(s) && 0 <= i < |s|
    ensures IndexOf(s, s[i]) == i
  {
  }

  /** Every element of a ring without duplicates is the successor of its
      predecessor and the predecessor of its successor: the reciprocal-link
      assertions of the C code. */
  lemma {:induction false} Reciprocal<T>(s: seq<T>, x: T)
    requires NoDup(s) && x in s
    ensures Next(s, x) in s && Prev(s, x) in s
    ensures Prev(s, Next(s, x)) == x
    ensures Next(s, Prev(s, x)) == x
  {
    var k := IndexOf(s, x);
    IndexOfAt(s, Succ(k, |s|));
    IndexOfAt(s, Pred(k, |s|));
  }

  /** A one-element ring is linked to itself. */
  lemma SingletonLinks<T>(y: T)
    ensures Next([y], y) == y && Prev([y], y) == y && Head([y]) == Some(y)
  {
  }

  lemma {:induction false} WithoutMembers<T>(s: seq<T>, x: T)
    requires NoDup(s) && x in s
    ensures NoDup(Without(s, x))
    ensures forall z :: z in Without(s, x) <==> z in s && z != x
  {
    var k := IndexOf(s, x);
    var r := Without(s, x);
    assert forall i :: 0 <= i < |r| ==> r[i] == (if i < k then s[i] else s[i + 1]);
    forall z
      ensures z in r <==> z in s && z != x
    {
      if z in r {
        var i :| 0 <= i < |r| && r[i] == z;
        assert z == s[if i < k then i else i + 1];
      }
      if z in s && z != x {
        var j :| 0 <= j < |s| && s[j] == z;
        assert j != k;
        assert r[if j < k then j else j - 1] == z;
      }
    }
  }

  /** Inserting y before the head of the ring (the tail position), as
      `y->next = head; y->prev = head->prev; head->prev->next = y; head->prev = y`
      does, is appending y to the sequence: the new node links to the head and
      to the old tail, those two link back to it, every other link is kept, and
      the head changes only when the list was empty. */
  lemma {:induction false} AppendLinks<T>(s: seq<T>, y: T)
    requires NoDup(s) && y !in s
    ensures NoDup(s + [y])
    ensures Head(s + [y]) == if s == [] then Some(y) else Head(s)
    ensures Next(s + [y], y) == (if s == [] then y else s[0])
    ensures Prev(s + [y], y) == (if s == [] then y else s[|s| - 1])
    ensures s != [] ==> Next(s + [y], s[|s| - 1]) == y && Prev(s + [y], s[0]) == y
    ensures forall z :: z in s && z != s[|s| - 1] ==> Next(s + [y], z) == Next(s, z)
    ensures forall z :: z in s && z != s[0] ==> Prev(s + [y], z) == Prev(s, z)
  {
    var t := s + [y];
    assert NoDup(t) by {
      forall i, j | 0 <= i < j < |t| ensures t[i] != t[j] {
        if j < |s| { assert t[i] == s[i] && t[j] == s[j]; }
        else { assert t[j] == y && t[i] == s[i]; }
      }
    }
    IndexOfAt(t, |s|);
    forall z | z in s
      ensures IndexOf(t, z) == IndexOf(s, z)
    {
      var k := IndexOf(s, z);
      assert t[k] == z;
      IndexOfAt(t, k);
    }
    if s != [] {
      IndexOfAt(s, |s| - 1);
      IndexOfAt(s, 0);
    }
  }

  /** Where an element other than x sits once x is unlinked. */
  lemma UnlinkPosition<T>(s: seq<T>, x: T, j: int)
    requires NoDup(s) && x in s && 0 <= j < |s| && j != IndexOf(s, x)
    ensures s[j] in Without(s, x)
    ensures IndexOf(Without(s, x), s[j]) == if j < IndexOf(s, x) then j else j - 1
  {
    var k := IndexOf(s, x);
    var r := Without(s, x);
    WithoutMembers(s, x);
    var i := if j < k then j else j - 1;
    assert r[i] == s[j];
    IndexOfAt(r, i);
  }

  /** Unlinking x, as `x->next->prev = x->prev; x->prev->next = x->next` does,
      is removing it from the sequence: the head moves to x's successor when x
      was the head (or to NULL when x was alone), and the list becomes empty
      exactly when x was linked to itself. */
  lemma UnlinkHead<T>(s: seq<T>, x: T)
    requires NoDup(s) && x in s
    ensures Without(s, x) == [] <==> Next(s, x) == x
    ensures Head(Without(s, x)) ==
      if Head(s) == Some(x) then (if Next(s, x) != x then Some(Next(s, x)) else None) else Head(s)
  {
    var k := IndexOf(s, x);
    IndexOfAt(s, Succ(k, |s|));
    if |s| > 1 && k == 0 {
      assert Without(s, x)[0] == s[1];
    }
  }

  /** After the unlink x's two neighbours point at each other. */
  lemma UnlinkNeighbours<T>(s: seq<T>, x: T)
    requires NoDup(s) && x in s && |s| >= 2
    ensures Prev(s, x) in Without(s, x) && Next(s, x) in Without(s, x)
    ensures Next(Without(s, x), Prev(s, x)) == Next(s, x)
    ensures Prev(Without(s, x), Next(s, x)) == Prev(s, x)
  {
    WithoutMembers(s, x);
    Reciprocal(s, x);
    UnlinkBridgeForward(s, x);
    UnlinkBridgeBackward(s, x);
  }

  /** The node before x now links forward to the node after it. */
  lemma UnlinkBridgeForward<T>(s: seq<T>, x: T)
    requires NoDup(s) && x in s && |s| >= 2
    requires Prev(s, x) in Without(s, x)
    ensures Next(Without(s, x), Prev(s, x)) == Next(s, x)
  {
    var n, k := |s|, IndexOf(s, x);
    var r := Without(s, x);
    IndexOfAt(s, Pred(k, n));
    UnlinkPosition(s, x, Pred(k, n));
    assert forall i :: 0 <= i < |r| ==> r[i] == (if i < k then s[i] else s[i + 1]);
  }

  /** The node after x now links back to the node before it. */
  lemma UnlinkBridgeBackward<T>(s: seq<T>, x: T)
    requires NoDup(s) && x in s && |s| >= 2
    requires Next(s, x) in Without(s, x)
    ensures Prev(Without(s, x), Next(s, x)) == Prev(s, x)
  {
    var n, k := |s|, IndexOf(s, x);
    var r := Without(s, x);
    IndexOfAt(s, Succ(k, n));
    UnlinkPosition(s, x, Succ(k, n));
    assert forall i :: 0 <= i < |r| ==> r[i] == (if i < k then s[i] else s[i + 1]);
  }

  /** Every other link survives the unlink. */
  lemma UnlinkKeepsOthers<T>(s: seq<T>, x: T, z: T)
    requires NoDup(s) && x in s && z in Without(s, x)
    ensures z != Prev(s, x) ==> Next(Without(s, x), z) == Next(s, z)
    ensures z != Next(s, x) ==> Prev(Without(s, x), z) == Prev(s, z)
  {
    WithoutMembers(s, x);
    UnlinkKeepsNext(s, x, z);
    UnlinkKeepsPrev(s, x, z);
  }

  lemma UnlinkKeepsNext<T>(s: seq<T>, x: T, z: T)
    requires NoDup(s) && x in s && z in s && z != x
    ensures z in Without(s, x) && NoDup(Without(s, x))
    ensures z != Prev(s, x) ==> Next(Without(s, x), z) == Next(s, z)
  {
    var n, k := |s|, IndexOf(s, x);
    var r := Without(s, x);
    WithoutMembers(s, x);
    var j := IndexOf(s, z);
    IndexOfAt(s, Pred(k, n));
    UnlinkPosition(s, x, j);
    assert forall i :: 0 <= i < |r| ==> r[i] == (if i < k then s[i] else s[i + 1]);
  }

  lemma UnlinkKeepsPrev<T>(s: seq<T>, x: T, z: T)
    requires NoDup(s) && x in s && z in s && z != x
    ensures z in Without(s, x) && NoDup(Without(s, x))
    ensures z != Next(s, x) ==> Prev(Without(s, x), z) == Prev(s, z)
  {
    var n, k := |s|, IndexOf(s, x);
    var r := Without(s, x);
    WithoutMembers(s, x);
    var j := IndexOf(s, z);
    IndexOfAt(s, Succ(k, n));
    UnlinkPosition(s, x, j);
    assert forall i :: 0 <= i < |r| ==> r[i] == (if i < k then s[i] else s[i + 1]);
  }

  /** The other elements of the ring in the order x->next, x->next->next, ...
      that a walk starting after x meets them. */
  function Rotation<T(==)>(s: seq<T>, x: T): (r: seq<T>)
    requires x in s
    ensures |r| == |s| - 1
  {
    var k := IndexOf(s, x);
    s[k + 1..] + s[..k]
  }

  /** Following `next` from x visits the rotation in order and comes back to x. */
  lemma {:induction false} RotationLinks<T>(s: seq<T>, x: T, j: int)
    requires NoDup(s) && x in s && 0 <= j < |s| - 1
    ensures Rotation(s, x)[j] in s && Rotation(s, x)[j] != x
    ensures Next(s, Rotation(s, x)[j]) == if j + 1 < |s| - 1 then Rotation(s, x)[j + 1] else x
  {
    var n, k, r := |s|, IndexOf(s, x), Rotation(s, x);
    var m := if k + 1 + j < n then k + 1 + j else k + 1 + j - n;
    assert r[j] == s[m];
    IndexOfAt(s, m);
    if j + 1 < n - 1 {
      var m' := if k + 2 + j < n then k + 2 + j else k + 2 + j - n;
      assert r[j + 1] == s[m'];
    }
  }

  /** The walk starts at x->next, or at x itself when x is alone. */
  lemma RotationStart<T>(s: seq<T>, x: T)
    requires NoDup(s) && x in s
    ensures Next(s, x) == if |s| > 1 then Rotation(s, x)[0] else x
  {
  }

  lemma RotationMembers<T>(s: seq<T>, x: T)
    requires NoDup(s) && x in s
    ensures forall z :: z in Rotation(s, x) <==> z in s && z != x
  {
    var k := IndexOf(s, x);
    var r := Rotation(s, x);
    forall z
      ensures z in r <==> z in s && z != x
    {
      if z in s && z != x {
        var i :| 0 <= i < |s| && s[i] == z;
        assert i != k;
        assert r[if i > k then i - k - 1 else i + |s| - k - 1] == z;
      }
    }
  }
}
