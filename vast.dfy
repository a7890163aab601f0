/** The VAST symbol map of kernel/kernel/vast.h: a header holding
    VAST_MAGIC and the number of entries, an array of (virtual address,
    name offset) entries, then the symbol names.  Every field is a 32-bit
    word stored little-endian, as on the i386 the kernel runs on; the image
    is modelled by its bytes. */
module Vast {
  import opened Common
  import opened Lib

  /** "VAST" read as a little-endian word. */
  const VAST_MAGIC: int := 0x5453_4156

  /** sizeof(struct vast_hdr_t): magic and count. */
  const HEADER_SIZE: nat := 8

  /** sizeof(struct vast_addr_t): virt_addr and name_offset. */
  const ENTRY_SIZE: nat := 8

  /** The four little-endian bytes of a 32-bit word. */
  function Le32(x: int): (r: seq<Byte>)
    requires 0 <= x < TWO32
    ensures |r| == 4
  {
    var q1 := x / 256;
    var q2 := q1 / 256;
    var q3 := q2 / 256;
    [x % 256, q1 % 256, q2 % 256, q3]
  }

  /** The 32-bit word an i386 load reads at byte offset `at`. */
  function Word(img: seq<Byte>, at: nat): (w: int)
    requires at + 4 <= |img|
    ensures 0 <= w < TWO32
    ensures w == 0 <==> img[at] == 0 && img[at + 1] == 0 && img[at + 2] == 0 && img[at + 3] == 0
  {
    var b0, b1, b2, b3: int := img[at], img[at + 1], img[at + 2], img[at + 3];
    b0 + 256 * b1 + 65536 * b2 + 16777216 * b3
  }

  /** A value that already fits in 32 bits keeps it through a uint32 cast. */
  lemma U32Small(x: int)
    requires 0 <= x < TWO32
    ensures U32(x) == x
  {
  }

  /** A load reads back the word a store wrote. */
  lemma {:induction false} WordOfLe32(x: int)
    requires 0 <= x < TWO32
    ensures Word(Le32(x), 0) == x
  {
    var q1 := x / 256;
    var q2 := q1 / 256;
    var q3 := q2 / 256;
    assert x == x % 256 + 256 * q1;
    assert q1 == q1 % 256 + 256 * q2;
    assert q2 == q2 % 256 + 256 * q3;
  }

  /** A load depends only on the four bytes it reads. */
  lemma {:induction false} WordAt(img: seq<Byte>, at: nat, x: int)
    requires 0 <= x < TWO32 && at + 4 <= |img|
    requires forall j | 0 <= j < 4 :: img[at + j] == Le32(x)[j]
    ensures Word(img, at) == x
  {
    WordOfLe32(x);
    var w := Le32(x);
    assert img[at] == w[0] && img[at + 1] == w[1] && img[at + 2] == w[2] && img[at + 3] == w[3];
  }

  /** The bytes of the middle part of a concatenation sit after the first part. */
  lemma Middle(s: seq<Byte>, a: seq<Byte>, b: seq<Byte>, c: seq<Byte>)
    requires s == a + b + c
    ensures forall j | 0 <= j < |b| :: s[|a| + j] == b[j]
  {
  }

  /** The bytes of the second part of a concatenation sit after the first part. */
  lemma Tail(s: seq<Byte>, a: seq<Byte>, b: seq<Byte>)
    requires s == a + b
    ensures forall j | 0 <= j < |b| :: s[|a| + j] == b[j]
  {
  }

  /** Two consecutive words stored at `at` load back. */
  lemma {:induction false} PairAt(img: seq<Byte>, at: nat, x: int, y: int)
    requires 0 <= x < TWO32 && 0 <= y < TWO32 && at + 8 <= |img|
    requires forall j | 0 <= j < 8 :: img[at + j] == (Le32(x) + Le32(y))[j]
    ensures Word(img, at) == x && Word(img, at + 4) == y
  {
    var pair := Le32(x) + Le32(y);
    assert forall j | 0 <= j < 4 :: img[at + j] == pair[j] == Le32(x)[j];
    WordAt(img, at, x);
    assert forall j | 0 <= j < 4 :: img[at + 4 + j] == pair[4 + j] == Le32(y)[j];
    WordAt(img, at + 4, y);
  }
}
