/** The page and page-table address arithmetic of kernel/vmm/vmm.h. Every macro
    casts its argument to `uint32` first, so the model works on `bv32`, whose
    shifts, masks and additions are the C ones, wrap-around included. */
module VmmLayout {

  type u32 = bv32

  const PAGE_BITS: bv32 := 12
  const PTE_BITS: bv32 := 10
  const PAGE_SIZE: u32 := 1 << 12
  const PAGE_MASK: u32 := !(PAGE_SIZE - 1)
  const PTE_SIZE: u32 := 1 << 10
  const PTE_MEM_MASK: u32 := !(PTE_SIZE - 1)

  /** Flag bits of a page-table entry. */
  const PTE_4M_PAGE: u32 := 0x080
  const PTE_USERMODE: u32 := 0x004
  const PTE_RW: u32 := 0x002
  const PTE_PRESENT: u32 := 0x001
  const PTE_KCODE: u32 := PTE_PRESENT
  const PTE_KDATA: u32 := PTE_RW | PTE_PRESENT
  const PTE_UCODE: u32 := PTE_USERMODE | PTE_PRESENT
  const PTE_UDATA: u32 := PTE_RW | PTE_USERMODE | PTE_PRESENT
  const PTE_ALL_FLAGS: u32 := 0x007

  /** Extra request flags of vmm_map_pages, above the PTE bits. */
  const VMM_PHYS_REAL: u32 := 0x8000_0000
  const VMM_REMAP_OK: u32 := 0x4000_0000
  const VMM_SKIP_MAPPED: u32 := 0x2000_0000
  const VMM_MAP_VALID_FLAGS: u32 := PTE_ALL_FLAGS | VMM_PHYS_REAL | VMM_REMAP_OK | VMM_SKIP_MAPPED

  /** ADDR_TO_PDE_SLOT: the page-directory slot of a virtual address. */
  function PdeSlot(x: u32): (d: u32)
    ensures d < 1024
  {
    x >> (PTE_BITS + PAGE_BITS)
  }

  /** ADDR_TO_PTE_SLOT: the slot within its page table. */
  function PteSlot(x: u32): (t: u32)
    ensures t < 1024
  {
    (x >> PAGE_BITS) & !PTE_MEM_MASK
  }

  /** PDE_PTE_TO_ADDR: the virtual address of a (directory slot, table slot)
      pair. */
  function PdePteToAddr(d: u32, t: u32): (x: u32)
  {
    (d << (PTE_BITS + PAGE_BITS)) | (t << PAGE_BITS)
  }

  /** PAGE_BASE: the address with the offset within the page cleared. */
  function PageBase(x: u32): (b: u32)
    ensures b <= x && x - b < PAGE_SIZE
  {
    x & PAGE_MASK
  }

  /** PAGE_OF: the page number of an address. */
  function PageOf(x: u32): (p: u32)
  {
    x >> PAGE_BITS
  }

  /** PAGE_AFTER: the number of the first page at or after an address; the
      addition is 32-bit and wraps. */
  function PageAfter(x: u32): (p: u32)
  {
    PageOf(x + PAGE_SIZE - 1)
  }

  /** IS_PAGE_ALIGNED */
  predicate IsPageAligned(x: u32)
  {
    x & !PAGE_MASK == 0
  }

  /** The two slots of an address and the address's page base determine each
      other: the slots lead back to the page base ... */
  lemma SlotsRoundTrip(x: u32)
    ensures PdePteToAddr(PdeSlot(x), PteSlot(x)) == PageBase(x)
  {
  }

  /** ... and the address of a slot pair yields the same slots. */
  lemma AddrRoundTrip(d: u32, t: u32)
    requires d < 1024 && t < 1024
    ensures PdeSlot(PdePteToAddr(d, t)) == d && PteSlot(PdePteToAddr(d, t)) == t
    ensures IsPageAligned(PdePteToAddr(d, t))
  {
  }

  /** PAGE_OF rounds down: page PageOf(x) is the 4 KiB page that contains x. */
  lemma PageOfIsFloor(x: u32)
    ensures PageOf(x) < 0x10_0000
    ensures PageOf(x) << PAGE_BITS <= x && x - (PageOf(x) << PAGE_BITS) < PAGE_SIZE
  {
  }

  /** PAGE_AFTER rounds up: below the last page it is the first page that
      starts at or after x. */
  lemma PageAfterIsCeiling(x: u32)
    requires x <= 0xffff_f000
    ensures x <= PageAfter(x) << PAGE_BITS && (PageAfter(x) << PAGE_BITS) - x < PAGE_SIZE
  {
  }

  /** In the last page of the address space the 32-bit addition of
      PAGE_AFTER wraps and the result is page 0. */
  lemma PageAfterWraps(x: u32)
    requires x > 0xffff_f000
    ensures PageAfter(x) == 0
  {
  }

  /** An address is page aligned exactly when it is its own page base. */
  lemma AlignedIffOwnBase(x: u32)
    ensures IsPageAligned(x) <==> x == PageBase(x)
  {
  }

  /** The request flags vmm_map_pages accepts are the three low PTE bits plus
      the three request bits; every PTE_K* and PTE_U* combination is among
      them, and no address bit of a page-table entry (bits 12-28) is. */
  lemma ValidFlagsLayout()
    ensures VMM_MAP_VALID_FLAGS == 0xe000_0007
    ensures PTE_KCODE & !VMM_MAP_VALID_FLAGS == 0 && PTE_KDATA & !VMM_MAP_VALID_FLAGS == 0
    ensures PTE_UCODE & !VMM_MAP_VALID_FLAGS == 0 && PTE_UDATA & !VMM_MAP_VALID_FLAGS == 0
    ensures VMM_MAP_VALID_FLAGS & 0x1fff_f000 == 0
    ensures PTE_4M_PAGE & VMM_MAP_VALID_FLAGS == 0
  {
  }
}
