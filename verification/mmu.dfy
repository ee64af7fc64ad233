/**
 * Two-level x86 address arithmetic (32-bit paging, Intel SDM Vol. 3A section 4.3).
 *
 * A linear address is split into a 10-bit page-directory index, a 10-bit
 * page-table index and a 12-bit offset inside the 4 KiB page.  Every macro
 * of the C header is a pure function on `bv32` here; the C macros work on
 * `uintptr_t`, which is 32 bits wide on i386, so wrap-around is the
 * bit-vector's own.
 */
module Mmu {

  type Addr = bv32

  const NPDENTRIES: bv32 := 1024
  const NPTENTRIES: bv32 := 1024
  const PGSIZE: bv32 := 4096
  const PTXSHIFT: bv32 := 12
  const PDXSHIFT: bv32 := 22

  // Page-table-entry flag bits.
  const PTE_P: bv32 := 0x001
  const PTE_W: bv32 := 0x002
  const PTE_U: bv32 := 0x004
  const PTE_PS: bv32 := 0x080

  /** Page-directory index: bits 31..22 of the address. */
  function PDX(va: Addr): (r: bv32)
    ensures r < NPDENTRIES
  {
    (va >> PDXSHIFT) & 0x3FF
  }

  /** Page-table index: bits 21..12 of the address. */
  function PTX(va: Addr): (r: bv32)
    ensures r < NPTENTRIES
  {
    (va >> PTXSHIFT) & 0x3FF
  }

  /** Offset inside the page: bits 11..0 of the address. */
  function PGOFFSET(va: Addr): (r: bv32)
    ensures r < PGSIZE
  {
    va & 0xFFF
  }

  /** Builds an address from a directory index, a table index and an offset. */
  function PGADDR(d: bv32, t: bv32, o: bv32): (r: Addr)
    ensures d < NPDENTRIES && t < NPTENTRIES && o < PGSIZE ==> PDX(r) == d && PTX(r) == t && PGOFFSET(r) == o
  {
    (d << PDXSHIFT) | (t << PTXSHIFT) | o
  }

  /** Rounds up to the next page boundary, modulo 2^32 like the C macro. */
  function PGROUNDUP(sz: Addr): (r: Addr)
    ensures r & 0xFFF == 0
  {
    (sz + 0xFFF) & !0xFFF
  }

  /** Rounds down to the enclosing page boundary. */
  function PGROUNDDOWN(a: Addr): (r: Addr)
    ensures r & 0xFFF == 0
    ensures r <= a && a - r < PGSIZE
  {
    a & !0xFFF
  }

  /** The frame address held by a page-table or page-directory entry. */
  function PTE_ADDR(pte: bv32): (r: Addr)
    ensures r & 0xFFF == 0
  {
    pte & !0xFFF
  }

  /** The flag bits held by a page-table or page-directory entry. */
  function PTE_FLAGS(pte: bv32): (r: bv32)
    ensures r < PGSIZE
    ensures PTE_ADDR(pte) | r == pte && PTE_ADDR(pte) & r == 0
  {
    pte & 0xFFF
  }

  predicate PageAligned(a: Addr)
  {
    a & 0xFFF == 0
  }

  /** Splitting an address into its three parts and joining them again is the identity. */
  lemma SplitJoin(va: Addr)
    ensures PGADDR(PDX(va), PTX(va), PGOFFSET(va)) == va
  {
  }

  /** In-range parts survive a join followed by a split. */
  lemma JoinSplit(d: bv32, t: bv32, o: bv32)
    requires d < 1024 && t < 1024 && o < 4096
    ensures PDX(PGADDR(d, t, o)) == d
    ensures PTX(PGADDR(d, t, o)) == t
    ensures PGOFFSET(PGADDR(d, t, o)) == o
  {
  }

  /** Without wrap-around, rounding up lands on the first page boundary at or above `sz`. */
  lemma RoundUpBounds(sz: Addr)
    requires sz <= 0xFFFF_F000
    ensures sz <= PGROUNDUP(sz)
    ensures PGROUNDUP(sz) - sz < PGSIZE
  {
  }

  /** Above the last page boundary the C macro wraps to address 0. */
  lemma RoundUpWraps(sz: Addr)
    requires sz > 0xFFFF_F000
    ensures PGROUNDUP(sz) == 0
  {
  }

  lemma RoundUpIdempotent(a: Addr)
    ensures PGROUNDUP(PGROUNDUP(a)) == PGROUNDUP(a)
  {
  }

  lemma RoundDownIdempotent(a: Addr)
    ensures PGROUNDDOWN(PGROUNDDOWN(a)) == PGROUNDDOWN(a)
  {
  }

  /** Both roundings agree exactly on page-aligned addresses. */
  lemma RoundingsAgree(a: Addr)
    ensures PGROUNDUP(a) == PGROUNDDOWN(a) <==> PageAligned(a)
  {
  }

  /** An entry is its frame address joined with its flag bits ... */
  lemma PteJoin(e: bv32)
    ensures PTE_ADDR(e) | PTE_FLAGS(e) == e
  {
  }

  /** ... which never share a bit ... */
  lemma PteDisjoint(e: bv32)
    ensures PTE_ADDR(e) & PTE_FLAGS(e) == 0
  {
  }

  /** ... and the frame address is the entry rounded down to its page. */
  lemma PteAddrIsRoundDown(e: bv32)
    ensures PTE_ADDR(e) == PGROUNDDOWN(e)
  {
  }
}
