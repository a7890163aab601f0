/** The core-file reader of tools/core-debugger/init.c: it resolves kernel
    addresses against the generated symbol table, decodes the two-level
    page tables found in a memory dump into one flat table of 1<<20 page
    frames, and reads bytes, words and strings of the dump through it.

    The dump (`core`, whose length is `core_size`) is a constant of the
    object; loading it from a file is not modelled.  Words of the dump are
    read little-endian, as `*(uint32 *)` does on the i386 hosts the tool
    targets. */
module CoreDebugger {
  import opened Common
  import opened Lib
  import opened Vast
  import MakeMap

  /** Entries of the flat page table: one per 4 KiB page of the 4 GiB space. */
  const ENTRIES: nat := 0x10_0000

  const PAGE_SIZE: nat := 4096

  /** Entries per page directory and per page table. */
  const SLOTS: nat := 1024

  const INT_MAX: nat := 0x7fff_ffff

  /** `x & 0x00000001`: the page-present bit of a directory or table entry. */
  predicate Present(x: int) { x % 2 == 1 }

  /** `x & 0xfffff000`: the frame address of a directory or table entry. */
  function FrameOf(x: int): (f: int)
    requires 0 <= x < TWO32
    ensures 0 <= f <= x && f % PAGE_SIZE == 0
  {
    x - x % PAGE_SIZE
  }

  /** `e | (v & 0xfff)` for a 32-bit entry e: the high 20 bits are e's, the
      low 12 bits are the OR of e's and v's. */
  function OrOffset(e: int, v: int): (r: int)
    requires 0 <= e < TWO32 && 0 <= v < TWO32
  {
    FrameOf(e) + OrBits(e % PAGE_SIZE, v % PAGE_SIZE, 12)
  }

  /** The bitwise OR of the low n bits of a and b. */
  function OrBits(a: nat, b: nat, n: nat): nat
  {
    if n == 0 then 0
    else (if a % 2 == 1 || b % 2 == 1 then 1 else 0) + 2 * OrBits(a / 2, b / 2, n - 1)
  }

  function Pow2(n: nat): nat
  {
    if n == 0 then 1 else 2 * Pow2(n - 1)
  }

  /** A flat table of 32-bit entries. */
  predicate Words32(t: seq<int>) {
    |t| == ENTRIES && forall n | 0 <= n < ENTRIES :: 0 <= t[n] < TWO32
  }

  /** Index of (directory slot, table slot) in the flat table. */
  function Index(pde: int, pte: int): int { pde * SLOTS + pte }

  /** `page_dir[pde]`, or None when it lies past the end of the dump. */
  function DirEntry(core: seq<Byte>, cr3: int, pde: nat): Option<int>
    requires 0 <= cr3
  {
    if cr3 + 4 * pde + 4 <= |core| then Some(Word(core, cr3 + 4 * pde)) else None
  }

  /** The loop visits the page table of directory slot `pde`: the entry is
      present and its frame is not above `core_size`. */
  predicate Visited(core: seq<Byte>, cr3: int, pde: nat)
    requires 0 <= cr3
  {
    var d := DirEntry(core, cr3, pde);
    d.Some? && Present(d.value) && FrameOf(d.value) <= |core|
  }

  /** `i = page_dir[pde] & 0xfffff000` with `int i`: the offset of the page
      table in the dump. The test `i > core_size` compares it as unsigned, but
      `core + i` adds it as a signed int, so a frame at 2 GiB or above lands
      before the start of the dump. */
  function TableOffset(dir: int): (i: int)
    requires 0 <= dir < TWO32
    ensures i < 0 <==> FrameOf(dir) >= 0x8000_0000
    ensures i >= 0 ==> i == FrameOf(dir)
  {
    S32(FrameOf(dir))
  }

  /** `page_table[pte]` of a visited directory slot, or None when the slot
      is not visited or the entry lies outside the dump. */
  function TableEntry(core: seq<Byte>, cr3: int, pde: nat, pte: nat): Option<int>
    requires 0 <= cr3
  {
    if Visited(core, cr3, pde) then
      var i := TableOffset(DirEntry(core, cr3, pde).value);
      if 0 <= i && i + 4 * pte + 4 <= |core| then Some(Word(core, i + 4 * pte)) else None
    else None
  }

  /** Every read the decoding loops make lies inside the dump. */
  predicate DirectoryInCore(core: seq<Byte>, cr3: int, pde: nat)
    requires 0 <= cr3
  {
    cr3 + 4 * pde + 4 <= |core| &&
    (Visited(core, cr3, pde) ==>
       0 <= TableOffset(DirEntry(core, cr3, pde).value) && TableOffset(DirEntry(core, cr3, pde).value) + PAGE_SIZE <= |core|)
  }

  predicate InCore(core: seq<Byte>, cr3: int)
    requires 0 <= cr3
  {
    forall pde | 0 <= pde < SLOTS :: DirectoryInCore(core, cr3, pde)
  }

  /** Flat-table entry (pde, pte) after BuildPageTables: the frame of a
      present table entry of a visited directory slot, otherwise whatever
      `malloc` left there. */
  function Decoded(core: seq<Byte>, cr3: int, garbage: seq<int>, pde: nat, pte: nat): int
    requires 0 <= cr3 && |garbage| == ENTRIES && pde < SLOTS && pte < SLOTS
  {
    var e := TableEntry(core, cr3, pde, pte);
    if e.Some? && Present(e.value) then FrameOf(e.value) else garbage[Index(pde, pte)]
  }

  /** The flat table after BuildPageTables. */
  function DecodedTable(core: seq<Byte>, cr3: int, garbage: seq<int>): (t: seq<int>)
    requires 0 <= cr3 && |garbage| == ENTRIES
    ensures |t| == ENTRIES && (Words32(garbage) ==> Words32(t))
    ensures forall pde, pte {:trigger Index(pde, pte)} | 0 <= pde < SLOTS && 0 <= pte < SLOTS ::
      t[Index(pde, pte)] == Decoded(core, cr3, garbage, pde, pte)
  {
    IndexSplits();
    seq(ENTRIES, n requires 0 <= n < ENTRIES => Decoded(core, cr3, garbage, n / SLOTS, n % SLOTS))
  }

  /** Every flat index is one (pde, pte) pair and back. */
  lemma IndexSplits()
    ensures forall pde, pte {:trigger Index(pde, pte)} | 0 <= pde < SLOTS && 0 <= pte < SLOTS ::
      0 <= Index(pde, pte) < ENTRIES && Index(pde, pte) / SLOTS == pde && Index(pde, pte) % SLOTS == pte
  {
  }

  /** How BuildPageTables ends. */
  datatype Build = Built | Exited(code: int) | ReadsOutsideCore

  /** BuildPageTables: exit when CR3 lies above `core_size` or the table
      cannot be allocated; a read outside the dump (past its end, or before its
      start through a negative table offset) is undefined. */
  function BuildOutcome(core: seq<Byte>, cr3: int, allocFails: bool): Build
    requires 0 <= cr3
  {
    if cr3 > |core| then Exited(-1)
    else if allocFails then Exited(-1)
    else if !InCore(core, cr3) then ReadsOutsideCore
    else Built
  }

  /** A present directory entry whose frame lies at 2 GiB or above, in a
      dump at least that large, passes the `i > core_size` test, and its page
      table is then read before the start of the dump. */
  lemma HighFrameReadsOutside(core: seq<Byte>, cr3: int, pde: nat)
    requires 0 <= cr3 <= |core| && pde < SLOTS
    requires DirEntry(core, cr3, pde).Some? && Present(DirEntry(core, cr3, pde).value)
    requires 0x8000_0000 <= FrameOf(DirEntry(core, cr3, pde).value) <= |core|
    ensures Visited(core, cr3, pde)
    ensures BuildOutcome(core, cr3, false) == ReadsOutsideCore
    ensures forall pte :: TableEntry(core, cr3, pde, pte) == None
  {
    assert !DirectoryInCore(core, cr3, pde);
  }

  /** The page-table words that hold (pde, pte) .. are decoded: entries
      before (pde, pte) in loop order hold their decoded value, the others
      what `malloc` left. */
  ghost predicate DecodedUpTo(t: seq<int>, core: seq<Byte>, cr3: int, garbage: seq<int>, pde: nat, pte: nat)
    requires 0 <= cr3 && |garbage| == ENTRIES
  {
    |t| == ENTRIES &&
    forall p, q {:trigger Index(p, q)} | 0 <= p < SLOTS && 0 <= q < SLOTS ::
      t[Index(p, q)] ==
        if p < pde || (p == pde && q < pte) then Decoded(core, cr3, garbage, p, q)
        else garbage[Index(p, q)]
  }

  /** Translation of a virtual address through a flat table: the dump
      offset `table[v >> 12] | (v & 0xfff)`, or None when the entry is 0 or
      the offset is not below `core_size`. */
  function Translate(table: seq<int>, coreSize: int, v: int): Option<int>
    requires |table| == ENTRIES && 0 <= v < TWO32
    requires Words32(table)
  {
    var e := table[v / PAGE_SIZE];
    if e == 0 then None
    else
      var offset := OrOffset(e, v);
      if offset < coreSize then Some(offset) else None
  }

  /** `ReadByte` on a dump and a flat table. */
  function ByteAt(core: seq<Byte>, table: seq<int>, v: int): Byte
    requires |table| == ENTRIES && 0 <= v < TWO32
    requires Words32(table)
  {
    var offset := Translate(table, |core|, v);
    if offset.Some? then core[offset.value] else 0
  }

  /** The byte `ReadByte(virtaddr + j)` reads: the sum wraps at 4 GiB. */
  function CharAt(core: seq<Byte>, table: seq<int>, v: int, j: int): Byte
    requires Words32(table) && 0 <= v < TWO32
  {
    ByteAt(core, table, U32(v + j))
  }

  /** The bytes `ReadByte(virtaddr + j)` reads, for every j. */
  function Reader(core: seq<Byte>, table: seq<int>, v: int): (read: int -> Byte)
    requires Words32(table) && 0 <= v < TWO32
    ensures forall j :: read(j) == CharAt(core, table, v, j)
  {
    j => CharAt(core, table, v, j)
  }

  /** The non-zero bytes read at k, k+1, ... up to the first 0, or None
      when `len` would pass INT_MAX first. */
  function StringFrom(read: int -> Byte, k: nat): (r: Option<seq<Byte>>)
    requires k <= INT_MAX
    ensures r.Some? ==>
      k + |r.value| <= INT_MAX && NUL !in r.value && read(k + |r.value|) == 0 &&
      forall j | k <= j < k + |r.value| :: r.value[j - k] == read(j)
    ensures r.None? <==> forall j | k <= j <= INT_MAX :: read(j) != 0
    decreases INT_MAX - k
  {
    var b := read(k);
    if b == 0 then Some([])
    else if k == INT_MAX then None
    else
      var rest := StringFrom(read, k + 1);
      if rest.None? then None else Some([b] + rest.value)
  }

  /** DupString: the string at v with its NUL, or undefined when `len` or
      `++len` overflows or `malloc` fails (its result is not checked). */
  function DupText(core: seq<Byte>, table: seq<int>, v: int, allocFails: bool): (r: Outcome<seq<Byte>>)
    requires |table| == ENTRIES && 0 <= v < TWO32
    requires Words32(table)
  {
    var s := StringFrom(Reader(core, table, v), 0);
    if s.None? then Undefined("len overflows")
    else if |s.value| == INT_MAX then Undefined("++len overflows")
    else if allocFails then Undefined("malloc returned NULL")
    else Returns(s.value + [NUL])
  }

  /** Symbol i covers v: it starts strictly below v and the next row is the
      terminator-address 0 or starts above v. */
  predicate Covers(rows: seq<MakeMap.Row>, i: nat, v: int)
    requires i + 1 < |rows|
  {
    rows[i].virtAddr < v && (rows[i + 1].virtAddr == 0 || rows[i + 1].virtAddr > v)
  }

  /** The loop of ResolveSymbol from row i: the first covering row. */
  function ResolveFrom(rows: seq<MakeMap.Row>, v: int, i: nat): (r: Option<nat>)
    requires MakeMap.WellFormed(rows) && i <= MakeMap.Count(rows)
    ensures r.Some? ==> i <= r.value < MakeMap.Count(rows) && Covers(rows, r.value, v)
    ensures r.Some? ==> forall j | i <= j < r.value :: !Covers(rows, j, v)
    ensures r.None? <==> forall j | i <= j < MakeMap.Count(rows) :: !Covers(rows, j, v)
    decreases MakeMap.Count(rows) - i
  {
    if rows[i].name.None? then None
    else if Covers(rows, i, v) then Some(i)
    else ResolveFrom(rows, v, i + 1)
  }

  /** `ResolveSymbol`: the name of the first covering symbol, else "?". */
  function ResolveSymbol(rows: seq<MakeMap.Row>, v: int): (name: seq<Byte>)
    requires MakeMap.WellFormed(rows)
    ensures (exists j | 0 <= j < MakeMap.Count(rows) :: Covers(rows, j, v)) || name == [63]
  {
    var r := ResolveFrom(rows, v, 0);
    if r.Some? then rows[r.value].name.value else [63]
  }

  /** The comparison is strict: in a table of rising non-zero addresses the
      exact start of a symbol is covered by no symbol, so it resolves to
      "?" (the kernel's reader, which compares with >=, names the symbol). */
  lemma {:induction false} ExactStartUnresolved(rows: seq<MakeMap.Row>, k: nat)
    requires MakeMap.WellFormed(rows) && k < MakeMap.Count(rows)
    requires forall j | 0 <= j < MakeMap.Count(rows) :: rows[j].virtAddr != 0
    requires forall i, j | 0 <= i < j < MakeMap.Count(rows) :: rows[i].virtAddr < rows[j].virtAddr
    ensures ResolveFrom(rows, rows[k].virtAddr, 0).None?
  {
    var v := rows[k].virtAddr;
    var c := MakeMap.Count(rows);
    forall j | 0 <= j < c
      ensures !Covers(rows, j, v)
    {
      if j + 1 < c {
        assert rows[j + 1].virtAddr != 0;
        if j < k {
          assert rows[j + 1].virtAddr <= v;
        } else {
          assert rows[j].virtAddr >= v;
        }
      } else {
        assert rows[j].virtAddr >= v;
      }
    }
  }

  /** The debugger's state: the dump and the flat page table. */
  class Debugger {
    const core: seq<Byte>
    var pageTables: array<int>

    /** `page_tables` holds one 32-bit entry per page. */
    ghost predicate Valid()
      reads this, pageTables
    {
      |core| < TWO32 && pageTables.Length == ENTRIES &&
      forall n | 0 <= n < ENTRIES :: 0 <= pageTables[n] < TWO32
    }

    constructor (core: seq<Byte>)
      requires |core| < TWO32
      ensures this.core == core && Valid()
    {
      this.core := core;
      pageTables := new int[ENTRIES](n => 0);
    }

    /** `ReadByte(virtaddr)`. */
    function ReadByte(v: int): (b: Byte)
      reads this, pageTables
      requires Valid() && 0 <= v < TWO32
      ensures b == ByteAt(core, pageTables[..], v)
    {
      var offset := Translate(pageTables[..], |core|, v);
      if offset.Some? then core[offset.value] else 0
    }

    /** `ReadDword(virtaddr)`: the same translation, but only the first of
        the four bytes is checked against `core_size`. */
    function ReadDword(v: int): (r: Outcome<int>)
      reads this, pageTables
      requires Valid() && 0 <= v < TWO32
      ensures r.Undefined? <==> Translate(pageTables[..], |core|, v).Some? && Translate(pageTables[..], |core|, v).value + 4 > |core|
      ensures r.Returns? ==> 0 <= r.value < TWO32
    {
      var offset := Translate(pageTables[..], |core|, v);
      if offset.None? then Returns(0)
      else if offset.value + 4 > |core| then Undefined("reads a word past the end of the dump")
      else Returns(Word(core, offset.value))
    }

    /** `ReadByte(virtaddr + j)` is the j-th byte of the reader at virtaddr. */
    lemma ReadsThrough(v: int, j: int)
      requires Valid() && 0 <= v < TWO32
      ensures ReadByte(U32(v + j)) == Reader(core, pageTables[..], v)(j)
    {
    }

    /** `DupString(virtaddr)`: count the bytes up to the first 0, allocate
        one more, copy them with the 0, and terminate the copy. */
    method DupString(v: int, allocFails: bool) returns (r: Outcome<array<Byte>>)
      requires Valid() && 0 <= v < TWO32
      ensures r.Returns? <==> DupText(core, pageTables[..], v, allocFails).Returns?
      ensures r.Returns? ==> fresh(r.value) && r.value[..] == DupText(core, pageTables[..], v, allocFails).value
    {
      ghost var read := Reader(core, pageTables[..], v);
      var len := 0;
      while ReadByte(U32(v + len)) != 0
        invariant 0 <= len <= INT_MAX
        invariant forall j | 0 <= j < len :: read(j) != 0
        decreases INT_MAX - len
      {
        ReadsThrough(v, len);
        if len == INT_MAX {
          return Undefined("len overflows");
        }
        len := len + 1;
      }
      ReadsThrough(v, len);
      if len == INT_MAX {
        FirstZero(read, len);
        return Undefined("++len overflows");
      }
      if allocFails {
        FirstZero(read, len);
        return Undefined("malloc returned NULL");
      }
      var str := CopyString(v, len);
      return Returns(str);
    }

    /** The second loop of `DupString`: copy the string with its 0 into a
        buffer of `len + 1` bytes and terminate the copy. */
    method CopyString(v: int, len: nat) returns (str: array<Byte>)
      requires Valid() && 0 <= v < TWO32 && len < INT_MAX
      requires forall j | 0 <= j < len :: Reader(core, pageTables[..], v)(j) != 0
      requires Reader(core, pageTables[..], v)(len) == 0
      ensures fresh(str)
      ensures StringFrom(Reader(core, pageTables[..], v), 0).Some?
      ensures str[..] == StringFrom(Reader(core, pageTables[..], v), 0).value + [NUL]
    {
      ghost var read := Reader(core, pageTables[..], v);
      str := new Byte[len + 1];
      var i := 0;
      ReadsThrough(v, 0);
      str[0] := ReadByte(U32(v));
      while str[i] != 0
        invariant 0 <= i <= len
        invariant forall j | 0 <= j <= i :: str[j] == read(j)
        decreases len - i
      {
        i := i + 1;
        ReadsThrough(v, i);
        str[i] := ReadByte(U32(v + i));
      }
      str[i] := 0;
      Copied(read, len, str[..]);
    }

    /** `BuildPageTables(cr3)`: check CR3, allocate the flat table (whose
        contents `garbage` stands for: it is not zeroed), then for every
        present directory entry whose frame is not above `core_size`, copy
        the frame of every present table entry. */
    method BuildPageTables(cr3: int, allocFails: bool, garbage: seq<int>) returns (r: Build)
      requires Valid() && 0 <= cr3 < TWO32
      requires |garbage| == ENTRIES && Words32(garbage)
      modifies this
      ensures r == BuildOutcome(core, cr3, allocFails)
      ensures r.Built? ==> Valid() && pageTables[..] == DecodedTable(core, cr3, garbage)
    {
      if cr3 > |core| {
        return Exited(-1);
      }
      if allocFails {
        return Exited(-1);
      }
      var tables := new int[ENTRIES](n requires 0 <= n < ENTRIES => garbage[n]);
      pageTables := tables;
      IndexSplits();
      var pde := 0;
      while pde < SLOTS
        invariant 0 <= pde <= SLOTS && pageTables == tables && tables.Length == ENTRIES
        invariant forall p | 0 <= p < pde :: DirectoryInCore(core, cr3, p)
        invariant DecodedUpTo(tables[..], core, cr3, garbage, pde, 0)
      {
        if cr3 + 4 * pde + 4 > |core| {
          assert !DirectoryInCore(core, cr3, pde);
          return ReadsOutsideCore;
        }
        var dir := Word(core, cr3 + 4 * pde);
        if Present(dir) && FrameOf(dir) <= |core| {
          var i := TableOffset(dir);
          if i < 0 {
            assert !DirectoryInCore(core, cr3, pde);
            return ReadsOutsideCore;
          }
          var pte := 0;
          while pte < SLOTS
            invariant 0 <= pte <= SLOTS && pageTables == tables
            invariant i + 4 * pte <= |core|
            invariant DecodedUpTo(tables[..], core, cr3, garbage, pde, pte)
          {
            if i + 4 * pte + 4 > |core| {
              assert !DirectoryInCore(core, cr3, pde);
              return ReadsOutsideCore;
            }
            var e := Word(core, i + 4 * pte);
            if Present(e) {
              tables[Index(pde, pte)] := FrameOf(e);
            }
            DecodeStep(tables[..], core, cr3, garbage, pde, pte);
            pte := pte + 1;
          }
        } else {
          SkipDirectory(tables[..], core, cr3, garbage, pde);
        }
        NextDirectory(tables[..], core, cr3, garbage, pde);
        pde := pde + 1;
      }
      assert tables[..] == DecodedTable(core, cr3, garbage) by {
        AllDecoded(tables[..], core, cr3, garbage);
      }
      return Built;
    }
  }

  /** The first zero byte at v+len, with non-zero bytes before it, ends the
      string: the string has `len` bytes. */
  lemma FirstZero(read: int -> Byte, len: nat)
    requires len <= INT_MAX
    requires forall j | 0 <= j < len :: read(j) != 0
    requires read(len) == 0
    ensures StringFrom(read, 0).Some? && |StringFrom(read, 0).value| == len
  {
  }

  /** A copy of the bytes read up to the first 0, that 0 included, is the
      string with its NUL. */
  lemma Copied(read: int -> Byte, len: nat, t: seq<Byte>)
    requires len <= INT_MAX && |t| == len + 1
    requires forall j | 0 <= j < len :: read(j) != 0
    requires read(len) == 0
    requires forall j | 0 <= j <= len :: t[j] == read(j)
    ensures StringFrom(read, 0).Some? && t == StringFrom(read, 0).value + [NUL]
  {
    FirstZero(read, len);
    var s := StringFrom(read, 0).value;
    assert |s| == len;
    assert forall j | 0 <= j < len :: s[j] == t[j];
    assert t[..len] == s;
    assert t == t[..len] + [t[len]];
  }

  /** One pass of the inner loop keeps the table decoded one entry further. */
  lemma DecodeStep(t: seq<int>, core: seq<Byte>, cr3: int, garbage: seq<int>, pde: nat, pte: nat)
    requires 0 <= cr3 && |garbage| == ENTRIES && pde < SLOTS && pte < SLOTS
    requires Visited(core, cr3, pde) && 0 <= TableOffset(DirEntry(core, cr3, pde).value)
    requires TableOffset(DirEntry(core, cr3, pde).value) + 4 * pte + 4 <= |core|
    requires |t| == ENTRIES
    requires forall p, q {:trigger Index(p, q)} | 0 <= p < SLOTS && 0 <= q < SLOTS && Index(p, q) != Index(pde, pte) ::
      t[Index(p, q)] ==
        if p < pde || (p == pde && q < pte) then Decoded(core, cr3, garbage, p, q)
        else garbage[Index(p, q)]
    requires t[Index(pde, pte)] == Decoded(core, cr3, garbage, pde, pte)
    ensures DecodedUpTo(t, core, cr3, garbage, pde, pte + 1)
  {
  }

  /** A directory entry that is absent, or whose frame is above `core_size`,
      leaves its 1024 flat entries as `malloc` left them. */
  lemma SkipDirectory(t: seq<int>, core: seq<Byte>, cr3: int, garbage: seq<int>, pde: nat)
    requires 0 <= cr3 && |garbage| == ENTRIES && pde < SLOTS && !Visited(core, cr3, pde)
    requires DecodedUpTo(t, core, cr3, garbage, pde, 0)
    ensures DecodedUpTo(t, core, cr3, garbage, pde, SLOTS)
  {
  }

  /** Finishing directory slot pde is starting slot pde + 1. */
  lemma NextDirectory(t: seq<int>, core: seq<Byte>, cr3: int, garbage: seq<int>, pde: nat)
    requires 0 <= cr3 && |garbage| == ENTRIES && pde < SLOTS
    requires DecodedUpTo(t, core, cr3, garbage, pde, SLOTS)
    ensures DecodedUpTo(t, core, cr3, garbage, pde + 1, 0)
  {
  }

  /** A table decoded in every slot is the decoded table. */
  lemma AllDecoded(t: seq<int>, core: seq<Byte>, cr3: int, garbage: seq<int>)
    requires 0 <= cr3 && |garbage| == ENTRIES
    requires DecodedUpTo(t, core, cr3, garbage, SLOTS, 0)
    ensures t == DecodedTable(core, cr3, garbage)
  {
    var d := DecodedTable(core, cr3, garbage);
    forall n | 0 <= n < ENTRIES
      ensures t[n] == d[n]
    {
      var p, q := n / SLOTS, n % SLOTS;
      assert n == Index(p, q);
    }
  }

  /** A page whose directory and table entries are present (and whose frame
      is not 0) translates to its frame plus the offset within the page. */
  lemma {:induction false} TranslateMapped(core: seq<Byte>, cr3: int, garbage: seq<int>, v: int)
    requires 0 <= cr3 && |garbage| == ENTRIES && Words32(garbage)
    requires 0 <= v < TWO32
    requires var e := TableEntry(core, cr3, v / PAGE_SIZE / SLOTS, v / PAGE_SIZE % SLOTS);
      e.Some? && Present(e.value) && FrameOf(e.value) != 0
    ensures var t := DecodedTable(core, cr3, garbage);
      var frame := FrameOf(TableEntry(core, cr3, v / PAGE_SIZE / SLOTS, v / PAGE_SIZE % SLOTS).value);
      Translate(t, |core|, v) == if frame + v % PAGE_SIZE < |core| then Some(frame + v % PAGE_SIZE) else None
  {
    var t := DecodedTable(core, cr3, garbage);
    var n := v / PAGE_SIZE;
    var p, q := n / SLOTS, n % SLOTS;
    assert n == Index(p, q);
    OrFrame(t[n], v);
  }

  /** OR-ing the offset into a page-aligned frame adds it. */
  lemma OrFrame(f: int, v: int)
    requires 0 <= f < TWO32 && f % PAGE_SIZE == 0 && 0 <= v < TWO32
    ensures OrOffset(f, v) == f + v % PAGE_SIZE
  {
    assert Pow2(12) == PAGE_SIZE;
    OrZero(v % PAGE_SIZE, 12);
  }

  /** OR with zero bits leaves a value of n bits as it was. */
  lemma {:induction false} OrZero(x: nat, n: nat)
    requires x < Pow2(n)
    ensures OrBits(0, x, n) == x
  {
    if n > 0 {
      OrZero(x / 2, n - 1);
    }
  }

  /** The table is never zeroed: a page with no present entries translates
      through whatever `malloc` left in its slot, not as an unmapped page. */
  lemma {:induction false} UnmappedReadsGarbage(core: seq<Byte>, cr3: int, garbage: seq<int>, v: int)
    requires 0 <= cr3 && |garbage| == ENTRIES && Words32(garbage)
    requires 0 <= v < TWO32
    requires var e := TableEntry(core, cr3, v / PAGE_SIZE / SLOTS, v / PAGE_SIZE % SLOTS);
      !(e.Some? && Present(e.value))
    ensures Translate(DecodedTable(core, cr3, garbage), |core|, v) == Translate(garbage, |core|, v)
  {
    var n := v / PAGE_SIZE;
    var p, q := n / SLOTS, n % SLOTS;
    assert n == Index(p, q);
  }
}
