/** The segment-descriptor encoder of kernel/arch/gdt.c. `gdt_set_gate` packs a
    32-bit base, a 20-bit limit, the access byte and the flags nibble into the
    split layout of an IA-32 segment descriptor (Intel SDM Vol. 3A, section
    3.4.5); `gdt_install` fills the six descriptors the kernel uses. */
module Gdt {
  import opened Common

  /** GDT_ENTRIES and the selectors of kernel/arch/i386.h. */
  const GDT_ENTRIES: nat := 6
  const GDT_NULL: int := 0x00
  const GDT_KCODE: int := 0x08
  const GDT_KDATA: int := 0x10
  const GDT_UCODE: int := 0x18 + 0x03
  const GDT_UDATA: int := 0x20 + 0x03
  const GDT_TSS: int := 0x28

  /** sizeof(struct tss_t): 104 bytes of registers and the 65536-byte I/O
      permission bitmap; offsetof(struct tss_t, io_bitmap) is 104. */
  const TSS_SIZE: int := 104 + 65536
  const TSS_IO_BITMAP_OFFSET: int := 104

  /** struct gdt_entry_t, field by field (limit_low and base_low are 16 bits,
      the others 8). */
  datatype GdtEntry = GdtEntry(limitLow: int, baseLow: int, baseMiddle: int,
                               access: int, granularity: int, baseHigh: int)

  predicate WellFormed(g: GdtEntry)
  {
    0 <= g.limitLow < 0x1_0000 && 0 <= g.baseLow < 0x1_0000 && 0 <= g.baseMiddle < 0x100 &&
    0 <= g.access < 0x100 && 0 <= g.granularity < 0x100 && 0 <= g.baseHigh < 0x100
  }

  /** The descriptor `gdt_set_gate` writes. On unsigned values `x >> k` is
      `x / 2^k` and `x & (2^k - 1)` is `x % 2^k`; `(limit >> 16) & 0x0F` and
      `granularity & 0xF0` occupy disjoint bits, so `|` adds them. */
  function Encode(base: int, limit: int, access: int, granularity: int): (g: GdtEntry)
    requires 0 <= base < TWO32 && 0 <= limit < TWO32
    requires 0 <= access < 0x100 && 0 <= granularity < 0x100
    ensures WellFormed(g)
  {
    GdtEntry(limit % 0x1_0000, base % 0x1_0000, (base / 0x1_0000) % 0x100,
             access, (limit / 0x1_0000) % 0x10 + (granularity / 0x10) * 0x10,
             (base / 0x100_0000) % 0x100)
  }

  /** The base a processor reassembles from the three base fields. */
  function DecodeBase(g: GdtEntry): (b: int)
    requires WellFormed(g)
    ensures 0 <= b < TWO32
  {
    g.baseLow + g.baseMiddle * 0x1_0000 + g.baseHigh * 0x100_0000
  }

  /** The 20-bit limit a processor reassembles from limit_low and the low
      nibble of the granularity byte. */
  function DecodeLimit(g: GdtEntry): (l: int)
    requires WellFormed(g)
    ensures 0 <= l < 0x10_0000
  {
    g.limitLow + (g.granularity % 0x10) * 0x1_0000
  }

  /** The flags nibble (G, D/B, L, AVL): the high nibble of granularity. */
  function Flags(g: GdtEntry): (f: int)
    requires WellFormed(g)
    ensures 0 <= f < 0x10
  {
    g.granularity / 0x10
  }

  /** The base survives the split into three fields. */
  lemma BaseRoundTrip(base: int, limit: int, access: int, granularity: int)
    requires 0 <= base < TWO32 && 0 <= limit < TWO32
    requires 0 <= access < 0x100 && 0 <= granularity < 0x100
    ensures DecodeBase(Encode(base, limit, access, granularity)) == base
  {
    var g := Encode(base, limit, access, granularity);
    assert base == base % 0x1_0000 + (base / 0x1_0000) * 0x1_0000;
    assert base / 0x1_0000 == (base / 0x1_0000) % 0x100 + (base / 0x100_0000) * 0x100;
  }

  /** The low 20 bits of the limit survive; bits 20-31 are dropped. */
  lemma LimitRoundTrip(base: int, limit: int, access: int, granularity: int)
    requires 0 <= base < TWO32 && 0 <= limit < TWO32
    requires 0 <= access < 0x100 && 0 <= granularity < 0x100
    ensures DecodeLimit(Encode(base, limit, access, granularity)) == limit % 0x10_0000
  {
    var g := Encode(base, limit, access, granularity);
    assert g.granularity % 0x10 == (limit / 0x1_0000) % 0x10;
    assert limit % 0x10_0000 == limit % 0x1_0000 + ((limit / 0x1_0000) % 0x10) * 0x1_0000;
  }

  /** The access byte is stored verbatim; the flags come from the high nibble of
      the granularity argument, whose low nibble is ignored. */
  lemma AccessAndFlags(base: int, limit: int, access: int, granularity: int)
    requires 0 <= base < TWO32 && 0 <= limit < TWO32
    requires 0 <= access < 0x100 && 0 <= granularity < 0x100
    ensures Encode(base, limit, access, granularity).access == access
    ensures Flags(Encode(base, limit, access, granularity)) == granularity / 0x10
  {
  }

  /** The table slot of a selector: the requested privilege level in its low
      two bits (and the table-indicator bit) do not change it. */
  function Slot(selector: int): (i: int)
    requires 0 <= selector < 0x1_0000
    ensures 0 <= i < 0x2000
  {
    selector / 8
  }

  lemma RplIgnored(selector: int, rpl: int)
    requires 0 <= selector < 0x1_0000 && selector % 8 == 0 && 0 <= rpl < 4
    ensures Slot(selector + rpl) == Slot(selector)
  {
  }

  /** The descriptors `gdt_install` leaves in the table, given the address of
      the TSS. */
  function InstalledTable(tssAddr: int): (t: seq<GdtEntry>)
    requires 0 <= tssAddr < TWO32
    ensures |t| == GDT_ENTRIES
    ensures forall i | 0 <= i < |t| :: WellFormed(t[i])
  {
    [Encode(0, 0, 0, 0), Flat(0x9a), Flat(0x92), Flat(0xfe), Flat(0xf2),
     Encode(tssAddr, TSS_SIZE, 0x89, 0xcf)]
  }

  /** The four flat segments gdt_install writes: base 0, limit 0xffffffff,
      granularity 0xcf. */
  function Flat(access: int): (g: GdtEntry)
    requires 0 <= access < 0x100
    ensures WellFormed(g)
  {
    Encode(0, 0xffff_ffff, access, 0xcf)
  }

  /** A flat descriptor spans the whole 4 GiB: base 0, limit 0xfffff in 4 KiB
      units (flags nibble 0xc: 4 KiB granularity, 32-bit). */
  lemma FlatDescriptor(access: int)
    requires 0 <= access < 0x100
    ensures DecodeBase(Flat(access)) == 0 && DecodeLimit(Flat(access)) == 0xf_ffff
    ensures Flags(Flat(access)) == 0xc && Flat(access).access == access
  {
  }

  /** The null descriptor is all zeros. */
  lemma NullDescriptor()
    ensures Encode(0, 0, 0, 0) == GdtEntry(0, 0, 0, 0, 0, 0)
  {
  }

  /** The TSS descriptor: base `&tss`, limit sizeof(tss), access 0x89 (a
      present, available 32-bit TSS). Its flags nibble 0xc selects 4 KiB
      units, so the processor reads the byte count as a count of pages. */
  lemma TssDescriptor(tssAddr: int)
    requires 0 <= tssAddr < TWO32
    ensures var g := Encode(tssAddr, TSS_SIZE, 0x89, 0xcf);
      DecodeBase(g) == tssAddr && DecodeLimit(g) == TSS_SIZE && Flags(g) == 0xc && g.access == 0x89
  {
    BaseRoundTrip(tssAddr, TSS_SIZE, 0x89, 0xcf);
    LimitRoundTrip(tssAddr, TSS_SIZE, 0x89, 0xcf);
  }

  /** The descriptor table, the GDTR image `gp` and the fields of `tss` that
      gdt_install sets. */
  class DescriptorTable {
    const gdt: array<GdtEntry>
    var gpLimit: int
    var tssSs0: int
    var tssIoBitmapOffset: int

    ghost predicate Valid()
      reads this
    {
      gdt.Length == GDT_ENTRIES
    }

    constructor ()
      ensures Valid() && fresh(gdt)
    {
      gdt := new GdtEntry[GDT_ENTRIES](_ => GdtEntry(0, 0, 0, 0, 0, 0));
      gpLimit := 0;
      tssSs0 := 0;
      tssIoBitmapOffset := 0;
    }

    /** `gdt_set_gate`: a selector past the table fails the ASSERT; otherwise
        its slot receives the encoded descriptor and no other slot changes. */
    method SetGate(selector: int, base: int, limit: int, access: int, granularity: int)
      returns (r: Outcome<()>)
      requires Valid()
      requires 0 <= selector < 0x1_0000 && 0 <= base < TWO32 && 0 <= limit < TWO32
      requires 0 <= access < 0x100 && 0 <= granularity < 0x100
      modifies gdt
      ensures !r.Undefined? && (r.Panics? <==> Slot(selector) >= GDT_ENTRIES)
      ensures r.Panics? ==> gdt[..] == old(gdt[..])
      ensures r.Returns? ==> gdt[..] == old(gdt[..])[Slot(selector) := Encode(base, limit, access, granularity)]
    {
      if selector / 8 >= GDT_ENTRIES {
        return Panics("ASSERT((selector / 8) < GDT_ENTRIES)");
      }
      gdt[selector / 8] := Encode(base, limit, access, granularity);
      r := Returns(());
    }

    /** `gdt_install` without the `lgdt`, segment-reload and `ltr`
        instructions: the GDTR limit, the TSS fields and the six descriptors. */
    method Install(tssAddr: int)
      requires Valid() && 0 <= tssAddr < TWO32
      modifies this`gpLimit, this`tssSs0, this`tssIoBitmapOffset, gdt
      ensures gpLimit == 8 * GDT_ENTRIES - 1
      ensures tssSs0 == GDT_KDATA && tssIoBitmapOffset == TSS_IO_BITMAP_OFFSET
      ensures gdt[..] == InstalledTable(tssAddr)
    {
      gpLimit := 8 * GDT_ENTRIES - 1;
      tssSs0 := GDT_KDATA;
      tssIoBitmapOffset := TSS_IO_BITMAP_OFFSET;
      ghost var t := InstalledTable(tssAddr);
      var r := SetGate(GDT_NULL, 0, 0, 0, 0);
      r := SetGate(GDT_KCODE, 0, 0xffff_ffff, 0x9a, 0xcf);
      r := SetGate(GDT_KDATA, 0, 0xffff_ffff, 0x92, 0xcf);
      r := SetGate(GDT_UCODE, 0, 0xffff_ffff, 0xfe, 0xcf);
      r := SetGate(GDT_UDATA, 0, 0xffff_ffff, 0xf2, 0xcf);
      r := SetGate(GDT_TSS, tssAddr, TSS_SIZE, 0x89, 0xcf);
      assert gdt[..] == t;
    }
  }
}
