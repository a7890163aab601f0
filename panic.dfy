/** The stack trace printed by `panic` in kernel/kernel/panic.c.
    `ResolveSymbol` looks a return address up in the VAST map the boot
    loader placed at g_pVastMapAddr, `is_valid_frame` checks a frame pointer
    against the heap and stack ranges the linker script lays out, and
    `dump_stack` walks the chain of saved EBP values.

    The map is the bytes of memory from g_pVastMapAddr onwards (`None` when
    the pointer is NULL); a read beyond them is undefined.  Memory for the
    stack walk is a map from word addresses to the 32-bit words stored
    there; a load at an address outside it faults.  The printed lines are
    the model's output. */
module Panic {
  import opened Common
  import opened Lib
  import opened Vast
  import MakeMap

  /** What ResolveSymbol returns: one of its literal strings, or the
      pointer g_pVastMapAddr + name_offset, kept as the offset into the map. */
  datatype SymbolText = Literal(text: string) | InMap(nameOffset: int)

  /** Byte offset of entry i: the entries start right after the header. */
  function EntryAt(i: nat): nat { HEADER_SIZE + ENTRY_SIZE * i }

  /** Entry i is readable and ends the table (its address is 0). */
  predicate Ends(img: seq<Byte>, i: nat) {
    EntryAt(i) + 4 <= |img| && Word(img, EntryAt(i)) == 0
  }

  /** Entry i and the next entry's address are readable, entry i is not the
      end of the table, and entry i covers `addr`: it starts at or below
      it and the next entry starts above it or is the end. */
  predicate Hits(img: seq<Byte>, i: nat, addr: int) {
    EntryAt(i) + 12 <= |img| &&
    var v, next := Word(img, EntryAt(i)), Word(img, EntryAt(i) + 8);
    v != 0 && addr >= v && (addr < next || next == 0)
  }

  /** Entry i is readable, is not the end, and does not cover `addr`. */
  predicate Skips(img: seq<Byte>, i: nat, addr: int) {
    EntryAt(i) + 4 <= |img| &&
    var v := Word(img, EntryAt(i));
    v != 0 &&
    (addr < v || (EntryAt(i) + 12 <= |img| && addr >= Word(img, EntryAt(i) + 8) != 0))
  }

  /** The loop of ResolveSymbol from entry i on.  The next entry's address
      is read only when `addr` is at or above entry i's (the && of C). */
  function Scan(img: seq<Byte>, i: nat, addr: int): (r: Outcome<(SymbolText, int)>)
    requires 0 <= addr < TWO32
    ensures r.Returns? && r.value.0.Literal? ==> r.value == (Literal("??"), 0)
    ensures r.Returns? && r.value.0.InMap? ==>
      exists j | i <= j :: Hits(img, j, addr) &&
        r.value == (InMap(Word(img, EntryAt(j) + 4)), addr - Word(img, EntryAt(j)))
    ensures r.Returns? ==> 0 <= r.value.1 <= addr
    decreases |img| - EntryAt(i)
  {
    var at := EntryAt(i);
    if at + 4 > |img| then Undefined("reads an entry past the end of the map")
    else
      var v := Word(img, at);
      if v == 0 then Returns((Literal("??"), 0))
      else if addr >= v && at + 12 > |img| then Undefined("reads the next entry past the end of the map")
      else if addr >= v && (addr < Word(img, at + 8) || Word(img, at + 8) == 0) then
        Returns((InMap(Word(img, at + 4)), addr - v))
      else Scan(img, i + 1, addr)
  }

  /** `ResolveSymbol(addr, &offset)`: the symbol text and the offset it
      stores (zeroed first, so 0 unless an entry matches). */
  function ResolveSymbol(vast: Option<seq<Byte>>, addr: int): (r: Outcome<(SymbolText, int)>)
    requires 0 <= addr < TWO32
    ensures r.Returns? && r.value.0.InMap? ==>
      vast.Some? && 4 <= |vast.value| && Word(vast.value, 0) == VAST_MAGIC &&
      exists j :: Hits(vast.value, j, addr) &&
        r.value == (InMap(Word(vast.value, EntryAt(j) + 4)), addr - Word(vast.value, EntryAt(j)))
    ensures r.Returns? && r.value.0.Literal? ==> r.value.1 == 0
    ensures r.Undefined? ==> vast.Some?
  {
    if vast.None? then Returns((Literal("<no vast>"), 0))
    else if |vast.value| < 4 then Undefined("reads the header past the end of the map")
    else if Word(vast.value, 0) != VAST_MAGIC then Returns((Literal("<invalid vast>"), 0))
    else Scan(vast.value, 0, addr)
  }

  /** Entries that do not cover `addr` are passed over. */
  lemma {:induction false} ScanSkips(img: seq<Byte>, i: nat, k: nat, addr: int)
    requires 0 <= addr < TWO32 && i <= k
    requires forall j | i <= j < k :: Skips(img, j, addr)
    ensures Scan(img, i, addr) == Scan(img, k, addr)
    decreases k - i
  {
    if i < k {
      assert Skips(img, i, addr);
      ScanSkips(img, i + 1, k, addr);
    }
  }

  /** The lookup returns the first entry that covers `addr`, with the
      offset of `addr` into it, when every earlier entry is passed over. */
  lemma {:induction false} ResolveFirstHit(img: seq<Byte>, k: nat, addr: int, start: int, name: int)
    requires 0 <= addr < TWO32 && 4 <= |img| && Word(img, 0) == VAST_MAGIC
    requires forall j | 0 <= j < k :: Skips(img, j, addr)
    requires Hits(img, k, addr)
    requires start == Word(img, EntryAt(k)) && name == Word(img, EntryAt(k) + 4)
    ensures ResolveSymbol(Some(img), addr) == Returns((InMap(name), addr - start))
  {
    ScanSkips(img, 0, k, addr);
  }

  /** With no entry covering `addr` before the end entry, the lookup
      returns "??" with offset 0; the header's count plays no part. */
  lemma {:induction false} ResolveMiss(img: seq<Byte>, k: nat, addr: int)
    requires 0 <= addr < TWO32 && 4 <= |img| && Word(img, 0) == VAST_MAGIC
    requires forall j | 0 <= j < k :: Skips(img, j, addr)
    requires Ends(img, k)
    ensures ResolveSymbol(Some(img), addr) == Returns((Literal("??"), 0))
  {
    ScanSkips(img, 0, k, addr);
  }

  /** On an image written by makemap, a hit on entry k names symbol k: the
      returned pointer leads to the symbol's name. */
  lemma {:induction false} ResolveWrittenImage(syms: seq<MakeMap.Symbol>, k: nat, addr: int)
    requires MakeMap.ValidSymbols(syms) && |MakeMap.Image(syms)| <= TWO32 && k < |syms|
    requires 0 <= addr < TWO32
    requires forall j | 0 <= j < k :: Skips(MakeMap.Image(syms), j, addr)
    requires Hits(MakeMap.Image(syms), k, addr)
    ensures var img := MakeMap.Image(syms);
      var off := MakeMap.NameOffset(syms, k);
      ResolveSymbol(Some(img), addr) == Returns((InMap(off), addr - syms[k].virtAddr)) &&
      off < |img| && Terminated(img[off..]) && Str(img[off..]) == syms[k].name
  {
    var img := MakeMap.Image(syms);
    MakeMap.ImageHeader(syms);
    MakeMap.ImageEntry(syms, k);
    MakeMap.ImageName(syms, k);
    var off := MakeMap.NameOffset(syms, k);
    U32Small(off);
    ResolveFirstHit(img, k, addr, syms[k].virtAddr, off);
  }

  /** makemap writes no end entry: for a one-symbol image the lookup of the
      symbol's own address reads the next entry past the end of the map. */
  lemma ResolveReadsPastWrittenImage()
    ensures var syms := [MakeMap.Symbol(0x1000, [97])];
      MakeMap.ValidSymbols(syms) &&
      ResolveSymbol(Some(MakeMap.Image(syms)), 0x1000).Undefined?
  {
    var syms := [MakeMap.Symbol(0x1000, [97])];
    var img := MakeMap.Image(syms);
    MakeMap.ImageHeader(syms);
    MakeMap.ImageEntry(syms, 0);
    MakeMap.ImageSize(syms);
    assert |img| == 18;
  }

  /** The addresses the linker script exports for the kernel heap and the
      boot stack. */
  datatype Layout = Layout(heapStart: int, heapEnd: int, stackStart: int, stackSize: int)

  predicate LayoutOk(l: Layout) {
    0 <= l.heapStart < TWO32 && 0 <= l.heapEnd < TWO32 &&
    0 <= l.stackStart < TWO32 && 0 <= l.stackSize < TWO32
  }

  /** `is_valid_frame`: the frame pointer lies in the heap or in the stack.
      The stack's end is a uint32 sum, so a stack reaching the top of the
      address space accepts nothing. */
  function IsValidFrame(ebp: int, l: Layout): (r: bool)
    requires 0 <= ebp < TWO32 && LayoutOk(l)
    ensures r <==>
      (l.heapStart <= ebp < l.heapEnd) ||
      (l.stackStart + l.stackSize < TWO32 && l.stackStart <= ebp < l.stackStart + l.stackSize)
  {
    (ebp >= l.heapStart && ebp < l.heapEnd) ||
    (ebp >= l.stackStart && ebp < U32(l.stackStart + l.stackSize))
  }

  /** Memory for the stack walk: every stored word fits in 32 bits. */
  predicate Memory(mem: map<int, int>) {
    forall a | a in mem :: 0 <= mem[a] < TWO32
  }

  /** A line `dump_stack` prints. */
  datatype Line =
    | Suspect(ebp: int)
    | Frame(frame: int, ret: int, symbol: SymbolText, offset: int)

  /** Lines printed before a walk that goes on. */
  function Prepend(lines: seq<Line>, rest: Outcome<seq<Line>>): (r: Outcome<seq<Line>>)
    ensures r.Returns? <==> rest.Returns?
    ensures r.Returns? ==> r.value == lines + rest.value
  {
    if rest.Returns? then Returns(lines + rest.value) else rest
  }

  /** The frame lines of a trace name strictly rising frames, no lower than
      `low`, each with a non-zero return address. */
  predicate Rising(lines: seq<Line>, low: int) {
    (forall k | 0 <= k < |lines| && lines[k].Frame? :: low <= lines[k].frame && lines[k].ret != 0) &&
    forall k, m | 0 <= k < m < |lines| && lines[k].Frame? && lines[m].Frame? ::
      lines[k].frame < lines[m].frame
  }

  /** `dump_stack` from `frame`: warn about a suspicious frame, load the
      saved EBP and the return address above it, resolve the return
      address, stop at a zero return address, print the frame, and stop
      unless the saved EBP lies strictly above the frame. */
  function Walk(mem: map<int, int>, vast: Option<seq<Byte>>, l: Layout, frame: int): (r: Outcome<seq<Line>>)
    requires Memory(mem) && LayoutOk(l) && 0 <= frame < TWO32
    ensures r.Returns? ==> Rising(r.value, frame)
    decreases TWO32 - frame
  {
    var warn := if IsValidFrame(frame, l) then [] else [Suspect(frame)];
    if frame !in mem || U32(frame + 4) !in mem then Undefined("dump_stack loads from an unmapped frame")
    else
      var next, ret := mem[frame], mem[U32(frame + 4)];
      var sym := ResolveSymbol(vast, ret);
      if !sym.Returns? then Undefined(sym.reason)
      else if ret == 0 then Returns(warn)
      else
        var line := Frame(frame, ret, sym.value.0, sym.value.1);
        if frame >= next then Returns(warn + [line])
        else
          var rest := Walk(mem, vast, l, next);
          RisingCons(warn + [line], rest, frame, next);
          Prepend(warn + [line], rest)
  }

  /** Lines for `frame`, of which only the last is a frame line, followed
      by a trace that starts above `frame`, rise. */
  lemma RisingCons(head: seq<Line>, rest: Outcome<seq<Line>>, frame: int, next: int)
    requires frame < next && |head| > 0
    requires forall k | 0 <= k < |head| - 1 :: !head[k].Frame?
    requires head[|head| - 1].Frame? && head[|head| - 1].frame == frame && head[|head| - 1].ret != 0
    requires rest.Returns? ==> Rising(rest.value, next)
    ensures Prepend(head, rest).Returns? ==> Rising(Prepend(head, rest).value, frame)
  {
    if rest.Returns? {
      var s := head + rest.value;
      var n := |head|;
      forall k | 0 <= k < |s| && s[k].Frame?
        ensures frame <= s[k].frame && s[k].ret != 0
      {
        if k >= n {
          assert s[k] == rest.value[k - n];
        }
      }
      forall k, m | 0 <= k < m < |s| && s[k].Frame? && s[m].Frame?
        ensures s[k].frame < s[m].frame
      {
        if m < n {
          assert false;
        } else if k < n {
          assert s[m] == rest.value[m - n];
        } else {
          assert s[k] == rest.value[k - n];
          assert s[m] == rest.value[m - n];
        }
      }
    }
  }

  /** Printing nothing before a walk leaves it as it is. */
  lemma PrependNothing(rest: Outcome<seq<Line>>)
    ensures Prepend([], rest) == rest
  {
    if rest.Returns? {
      assert [] + rest.value == rest.value;
    }
  }

  /** Printing `a` then `b` before a walk is printing `a + b` before it. */
  lemma PrependTwice(a: seq<Line>, b: seq<Line>, rest: Outcome<seq<Line>>)
    ensures Prepend(a, Prepend(b, rest)) == Prepend(a + b, rest)
  {
    if rest.Returns? {
      assert a + (b + rest.value) == (a + b) + rest.value;
    }
  }

  /** `dump_stack(frame_addr)`: the loop, which ends because each pass
      either stops or moves to a strictly higher frame. */
  method DumpStack(frameAddr: int, mem: map<int, int>, vast: Option<seq<Byte>>, l: Layout)
    returns (r: Outcome<seq<Line>>)
    requires Memory(mem) && LayoutOk(l) && 0 <= frameAddr < TWO32
    ensures r == Walk(mem, vast, l, frameAddr)
  {
    var frame := frameAddr;
    var lines: seq<Line> := [];
    PrependNothing(Walk(mem, vast, l, frame));
    while true
      invariant 0 <= frame < TWO32
      invariant Walk(mem, vast, l, frameAddr) == Prepend(lines, Walk(mem, vast, l, frame))
      decreases TWO32 - frame
    {
      ghost var before := lines;
      if !IsValidFrame(frame, l) {
        lines := lines + [Suspect(frame)];
      }
      ghost var warn := lines[|before|..];
      assert lines == before + warn;
      if frame !in mem || U32(frame + 4) !in mem {
        return Undefined("dump_stack loads from an unmapped frame");
      }
      var next := mem[frame];
      var ret := mem[U32(frame + 4)];
      var sym := ResolveSymbol(vast, ret);
      if !sym.Returns? {
        return Undefined(sym.reason);
      }
      if ret == 0 {
        assert Walk(mem, vast, l, frame) == Returns(warn);
        return Returns(lines);
      }
      var line := Frame(frame, ret, sym.value.0, sym.value.1);
      lines := lines + [line];
      assert lines == before + (warn + [line]);
      if frame >= next {
        assert Walk(mem, vast, l, frame) == Returns(warn + [line]);
        return Returns(lines);
      }
      assert Walk(mem, vast, l, frame) == Prepend(warn + [line], Walk(mem, vast, l, next));
      PrependTwice(before, warn + [line], Walk(mem, vast, l, next));
      frame := next;
    }
  }
}
