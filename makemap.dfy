/** tools/makemap.c: the host tool that turns the kernel's generated symbol
    table into a VAST image (the layout of kernel/kernel/vast.h) and writes it
    to standard output.  The output stream is modelled by the bytes written;
    the generated table is a parameter. */
module MakeMap {
  import opened Common
  import opened Lib
  import opened Vast

  /** A row of the generated `symbols[]` table; the table ends with a row
      whose name is NULL (`None`). */
  datatype Row = Row(virtAddr: int, name: Option<seq<Byte>>)

  /** A symbol listed before the terminator row, its name without the NUL. */
  datatype Symbol = Symbol(virtAddr: int, name: seq<Byte>)

  /** struct vast_addr_t as held in makemap's `array`. */
  datatype Entry = Entry(virtAddr: int, nameOffset: int)

  /** A generated table: it has a terminator row, addresses are 32-bit and
      every name is a C string (its bytes hold no NUL). */
  predicate WellFormed(rows: seq<Row>) {
    (exists k | 0 <= k < |rows| :: rows[k].name.None?) &&
    forall i | 0 <= i < |rows| ::
      0 <= rows[i].virtAddr < TWO32 && (rows[i].name.Some? ==> NUL !in rows[i].name.value)
  }

  /** Symbols whose addresses are 32-bit and whose names hold no NUL. */
  predicate ValidSymbols(syms: seq<Symbol>) {
    forall i | 0 <= i < |syms| :: 0 <= syms[i].virtAddr < TWO32 && NUL !in syms[i].name
  }

  /** The index of the first terminator row at or after `i`. */
  function CountFrom(rows: seq<Row>, i: nat): (c: nat)
    requires WellFormed(rows) && i <= |rows|
    requires forall j | 0 <= j < i :: rows[j].name.Some?
    ensures i <= c < |rows| && rows[c].name.None?
    ensures forall j | 0 <= j < c :: rows[j].name.Some?
    decreases |rows| - i
  {
    if rows[i].name.None? then i else CountFrom(rows, i + 1)
  }

  /** `count`: the number of rows before the terminator. */
  function Count(rows: seq<Row>): (c: nat)
    requires WellFormed(rows)
    ensures c < |rows| && rows[c].name.None?
    ensures forall j | 0 <= j < c :: rows[j].name.Some?
  {
    CountFrom(rows, 0)
  }

  /** The symbols the table lists. */
  function Listed(rows: seq<Row>): (syms: seq<Symbol>)
    requires WellFormed(rows)
    ensures |syms| == Count(rows) && ValidSymbols(syms)
    ensures forall i | 0 <= i < |syms| ::
      syms[i] == Symbol(rows[i].virtAddr, rows[i].name.value)
  {
    var c := Count(rows);
    seq(c, i requires 0 <= i < c => Symbol(rows[i].virtAddr, rows[i].name.value))
  }

  /** The name area: every name followed by one NUL, in table order. */
  function NameBytes(syms: seq<Symbol>): seq<Byte>
  {
    if |syms| == 0 then [] else NameBytes(syms[..|syms| - 1]) + syms[|syms| - 1].name + [NUL]
  }

  /** `offset` when the filling loop reaches symbol i: it starts past the
      header and the whole address array and grows by each name and its NUL. */
  function NameOffset(syms: seq<Symbol>, i: nat): (off: int)
    requires i <= |syms|
    ensures off >= HEADER_SIZE + ENTRY_SIZE * |syms|
  {
    if i == 0 then HEADER_SIZE + ENTRY_SIZE * |syms|
    else NameOffset(syms, i - 1) + |syms[i - 1].name| + 1
  }

  /** Symbol i's name starts after the header, the whole address array and
      the names (each with its NUL) of the symbols before it. */
  lemma {:induction false} NameOffsetIs(syms: seq<Symbol>, i: nat)
    requires i <= |syms|
    ensures NameOffset(syms, i) == HEADER_SIZE + ENTRY_SIZE * |syms| + |NameBytes(syms[..i])|
  {
    if i > 0 {
      NameOffsetIs(syms, i - 1);
      NameBytesStep(syms, i - 1);
    } else {
      assert syms[..0] == [];
    }
  }

  /** The first k entries `main` puts in `array`: symbol i's address and its
      name offset.  `name_offset` is a uint32 assigned from an `int`, so it
      keeps the low 32 bits. */
  function EntryTable(syms: seq<Symbol>, k: nat): (es: seq<Entry>)
    requires ValidSymbols(syms) && k <= |syms|
    ensures |es| == k && Words(es)
    ensures forall i {:trigger es[i]} | 0 <= i < k ::
      es[i] == Entry(syms[i].virtAddr, U32(NameOffset(syms, i)))
  {
    if k == 0 then []
    else EntryTable(syms, k - 1) + [Entry(syms[k - 1].virtAddr, U32(NameOffset(syms, k - 1)))]
  }

  /** Entries whose two fields fit in 32 bits. */
  predicate Words(es: seq<Entry>) {
    forall i | 0 <= i < |es| :: 0 <= es[i].virtAddr < TWO32 && 0 <= es[i].nameOffset < TWO32
  }

  /** The bytes `fwrite(array, count, sizeof(array[0]), fp)` writes. */
  function EntryArea(es: seq<Entry>): (r: seq<Byte>)
    requires Words(es)
    ensures |r| == ENTRY_SIZE * |es|
  {
    if |es| == 0 then []
    else
      var last := es[|es| - 1];
      EntryArea(es[..|es| - 1]) + Le32(last.virtAddr) + Le32(last.nameOffset)
  }

  /** The image: header, address array, names. */
  function Image(syms: seq<Symbol>): seq<Byte>
    requires ValidSymbols(syms)
  {
    Le32(VAST_MAGIC) + Le32(U32(|syms|)) + EntryArea(EntryTable(syms, |syms|)) + NameBytes(syms)
  }

  /** The first loop of `main`: count the rows before the terminator. */
  method CountRows(symbols: seq<Row>) returns (count: nat)
    requires WellFormed(symbols)
    ensures count == Count(symbols)
  {
    count := 0;
    while symbols[count].name.Some?
      invariant 0 <= count <= Count(symbols)
      decreases Count(symbols) - count
    {
      count := count + 1;
    }
  }

  /** The second loop of `main`: fill `array` while `offset` accumulates the
      lengths of the names (each with its NUL) after the header and array. */
  method FillEntries(symbols: seq<Row>, count: nat) returns (entries: array<Entry>)
    requires WellFormed(symbols) && count == Count(symbols)
    ensures fresh(entries)
    ensures entries[..] == EntryTable(Listed(symbols), count)
  {
    ghost var syms := Listed(symbols);
    entries := new Entry[count];
    var offset := HEADER_SIZE + ENTRY_SIZE * count;
    var i := 0;
    while symbols[i].name.Some?
      invariant 0 <= i <= count && entries.Length == count
      invariant offset == NameOffset(syms, i)
      invariant entries[..i] == EntryTable(syms, i)
      decreases count - i
    {
      entries[i] := Entry(symbols[i].virtAddr, U32(offset));
      assert entries[..i + 1] == entries[..i] + [entries[i]];
      offset := offset + 1 + |symbols[i].name.value|;
      i := i + 1;
    }
    assert entries[..] == entries[..i];
  }

  /** The last loop of `main`: `fputs` each name, then `fputc(0)`. */
  method PutNames(symbols: seq<Row>) returns (out: seq<Byte>)
    requires WellFormed(symbols)
    ensures out == NameBytes(Listed(symbols))
  {
    ghost var syms := Listed(symbols);
    assert syms[..0] == [];
    out := [];
    var count := 0;
    while symbols[count].name.Some?
      invariant 0 <= count <= |syms|
      invariant out == NameBytes(syms[..count])
      decreases |syms| - count
    {
      NameBytesStep(syms, count);
      out := out + symbols[count].name.value + [NUL];
      count := count + 1;
    }
    assert syms[..count] == syms;
  }

  /** `main`: count the rows, fill the entry array, then write the header,
      the array (one `fwrite` of `count` entries) and the names. */
  method Write(symbols: seq<Row>) returns (out: seq<Byte>)
    requires WellFormed(symbols)
    ensures out == Image(Listed(symbols))
  {
    var count := CountRows(symbols);
    var magic, hdrCount := VAST_MAGIC, U32(count);
    var entries := FillEntries(symbols, count);
    var names := PutNames(symbols);
    out := Le32(magic) + Le32(hdrCount) + EntryArea(entries[..]) + names;
  }

  /** The array area grows by one entry per symbol. */
  lemma {:induction false} EntryAreaStep(es: seq<Entry>, k: nat)
    requires Words(es) && k < |es|
    ensures EntryArea(es[..k + 1]) == EntryArea(es[..k]) + Le32(es[k].virtAddr) + Le32(es[k].nameOffset)
  {
    assert es[..k + 1][..k] == es[..k];
  }

  /** The name area grows by one name and its NUL per symbol. */
  lemma {:induction false} NameBytesStep(syms: seq<Symbol>, k: nat)
    requires k < |syms|
    ensures NameBytes(syms[..k + 1]) == NameBytes(syms[..k]) + syms[k].name + [NUL]
  {
    assert syms[..k + 1][..k] == syms[..k];
  }

  /** The names of a prefix of the table start the names of a longer prefix. */
  lemma {:induction false} NamePrefix(syms: seq<Symbol>, j: nat, k: nat)
    requires j <= k <= |syms|
    ensures NameBytes(syms[..j]) <= NameBytes(syms[..k])
    decreases k - j
  {
    if j < k {
      NamePrefix(syms, j + 1, k);
      NameBytesStep(syms, j);
    }
  }

  /** Entry i of the array sits at byte 8*i of the array area. */
  lemma {:induction false} EntrySlice(es: seq<Entry>, k: nat, i: nat)
    requires Words(es) && i < k <= |es|
    ensures EntryArea(es[..k])[ENTRY_SIZE * i..ENTRY_SIZE * i + ENTRY_SIZE]
         == Le32(es[i].virtAddr) + Le32(es[i].nameOffset)
  {
    EntryAreaStep(es, k - 1);
    if i < k - 1 {
      EntrySlice(es, k - 1, i);
      var front := EntryArea(es[..k - 1]);
      assert EntryArea(es[..k])[..ENTRY_SIZE * (k - 1)] == front;
    }
  }

  /** The header holds VAST_MAGIC and the number of symbols. */
  lemma {:induction false} ImageHeader(syms: seq<Symbol>)
    requires ValidSymbols(syms)
    ensures |Image(syms)| >= HEADER_SIZE
    ensures Word(Image(syms), 0) == VAST_MAGIC
    ensures Word(Image(syms), 4) == U32(|syms|)
  {
    var img := Image(syms);
    var head := Le32(VAST_MAGIC) + Le32(U32(|syms|));
    assert forall j | 0 <= j < 8 :: img[j] == head[j];
    WordAt(img, 0, VAST_MAGIC);
    WordAt(img, 4, U32(|syms|));
  }

  /** The image's size is the offset just past the last name. */
  lemma {:induction false} ImageSize(syms: seq<Symbol>)
    requires ValidSymbols(syms)
    ensures |Image(syms)| == NameOffset(syms, |syms|)
  {
    NameOffsetIs(syms, |syms|);
    assert syms[..|syms|] == syms;
  }

  /** Entry i of the image holds symbol i's address and name offset, in
      table order. */
  lemma {:induction false} ImageEntry(syms: seq<Symbol>, i: nat)
    requires ValidSymbols(syms) && i < |syms|
    ensures HEADER_SIZE + ENTRY_SIZE * i + ENTRY_SIZE <= |Image(syms)|
    ensures Word(Image(syms), HEADER_SIZE + ENTRY_SIZE * i) == syms[i].virtAddr
    ensures Word(Image(syms), HEADER_SIZE + ENTRY_SIZE * i + 4) == U32(NameOffset(syms, i))
  {
    var img := Image(syms);
    var es := EntryTable(syms, |syms|);
    var ents := EntryArea(es);
    var at := HEADER_SIZE + ENTRY_SIZE * i;
    var a, o := syms[i].virtAddr, U32(NameOffset(syms, i));
    var pair := Le32(a) + Le32(o);
    assert es[..|es|] == es;
    EntrySlice(es, |es|, i);
    Middle(img, Le32(VAST_MAGIC) + Le32(U32(|syms|)), ents, NameBytes(syms));
    forall j | 0 <= j < 8
      ensures img[at + j] == pair[j]
    {
      assert img[at + j] == ents[ENTRY_SIZE * i + j];
    }
    PairAt(img, at, a, o);
  }

  /** The NUL-terminated string at symbol i's name offset is its name. */
  lemma {:induction false} ImageName(syms: seq<Symbol>, i: nat)
    requires ValidSymbols(syms) && i < |syms|
    ensures NameOffset(syms, i) < |Image(syms)|
    ensures Terminated(Image(syms)[NameOffset(syms, i)..])
    ensures Str(Image(syms)[NameOffset(syms, i)..]) == syms[i].name
  {
    var img := Image(syms);
    var front := Le32(VAST_MAGIC) + Le32(U32(|syms|)) + EntryArea(EntryTable(syms, |syms|));
    var names := NameBytes(syms);
    var pre := NameBytes(syms[..i]);
    var name := syms[i].name;
    var off := NameOffset(syms, i);
    NameOffsetIs(syms, i);
    assert syms[..|syms|] == syms;
    NamePrefix(syms, i + 1, |syms|);
    NameBytesStep(syms, i);
    Tail(img, front, names);
    var s := img[off..];
    forall j | 0 <= j <= |name|
      ensures s[j] == (name + [NUL])[j]
    {
      assert names[|pre| + j] == (pre + name + [NUL])[|pre| + j];
    }
    assert s[..|name|] == name;
    StrlenIs(s, |name|);
  }

  /** Round trip: following the offset stored in entry i of a written image
      (one under 4 GiB, so no offset wraps) leads to symbol i's name. */
  lemma {:induction false} RoundTrip(rows: seq<Row>, i: nat)
    requires WellFormed(rows) && i < Count(rows)
    requires |Image(Listed(rows))| <= TWO32
    ensures var img := Image(Listed(rows));
      var off := Word(img, HEADER_SIZE + ENTRY_SIZE * i + 4);
      Word(img, HEADER_SIZE + ENTRY_SIZE * i) == rows[i].virtAddr &&
      off < |img| && Terminated(img[off..]) && Str(img[off..]) == rows[i].name.value
  {
    var syms := Listed(rows);
    ImageEntry(syms, i);
    ImageName(syms, i);
    U32Small(NameOffset(syms, i));
  }

  /** No zero-address terminator entry follows the array: when the first
      name is not empty, the word after the last entry is the start of the
      name area and is not zero. */
  lemma {:induction false} NoTerminatorEntry(syms: seq<Symbol>)
    requires ValidSymbols(syms) && |syms| > 0 && |syms[0].name| > 0
    ensures HEADER_SIZE + ENTRY_SIZE * |syms| < |Image(syms)|
    ensures Image(syms)[HEADER_SIZE + ENTRY_SIZE * |syms|] == syms[0].name[0] != NUL
  {
    var img := Image(syms);
    NamePrefix(syms, 1, |syms|);
    NameBytesStep(syms, 0);
    assert syms[..0] == [];
    assert syms[..|syms|] == syms;
    assert NameBytes(syms)[0] == syms[0].name[0];
    assert syms[0].name[0] in syms[0].name;
  }
}
