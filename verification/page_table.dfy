/**
 * Page-table entries and processes as the samepage-merging sweep sees them.
 *
 * A page-table entry is a record rather than a 64-bit word: the sweep only
 * replaces the physical address, clears the write permission, and sets or
 * keeps bit 8 (a software bit used as "was writable before the merge"); all
 * other flag bits are carried along untouched in `rest`.
 */
module PageTable {

  /** A 64-bit unsigned value (the type of `uint64` hashes). */
  newtype u64 = x: int | 0 <= x < 0x1_0000_0000_0000_0000

  type byte = bv8

  /** The bytes of one physical page. */
  type Page = seq<byte>

  type PhysAddr = nat

  /** The kernel address of a page-table-entry word; 0 is the null pointer. */
  type PtePtr = nat

  const Null: PtePtr := 0

  /** Page size of the RISC-V Sv39 configuration the kernel runs on. */
  const PGSIZE: nat := 4096

  /**
   * One page-table entry: the physical page it maps, the valid bit (PTE_V),
   * the write permission (PTE_W), bit 8 (`cow`, set when a merged page was
   * writable before the merge) and every other flag bit, kept opaque.
   */
  datatype Pte = Pte(pa: PhysAddr, valid: bool, writable: bool, cow: bool, rest: nat)

  /**
   * `after` is `before` redirected to physical page `pa`, with the write
   * permission cleared and bit 8 recording whether `before` was writable or
   * already marked; the valid bit and all other flags are kept.
   */
  predicate WriteProtectedTo(before: Pte, after: Pte, pa: PhysAddr)
  {
    && after.pa == pa
    && !after.writable
    && after.cow == (before.cow || before.writable)
    && after.valid == before.valid
    && after.rest == before.rest
  }

  /**
   * The rewrite of an incoming entry onto a shared page: `PA2PTE(pa)` or-ed
   * with the old flags minus PTE_W, plus bit 8 when the old entry was writable.
   */
  function Remap(e: Pte, pa: PhysAddr): (r: Pte)
    ensures WriteProtectedTo(e, r, pa)
  {
    if e.writable then Pte(pa, e.valid, false, true, e.rest)
    else Pte(pa, e.valid, false, e.cow, e.rest)
  }

  /**
   * The rewrite of a group's representative entry on its first promotion:
   * the physical address stays, PTE_W is cleared, and bit 8 is set when the
   * entry was writable or already had bit 8.
   */
  function Protect(e: Pte): (r: Pte)
    ensures WriteProtectedTo(e, r, e.pa)
  {
    if e.writable || e.cow then e.(writable := false, cow := true)
    else e.(writable := false)
  }

  /**
   * A process as the sweep reads it: its pid, its address-space size, and
   * the result of walking its page table at each virtual address (a pointer
   * to the leaf entry word; an address absent from the map walks to null).
   */
  datatype Proc = Proc(pid: int, sz: nat, pagetable: map<nat, PtePtr>)

  /** `walk(p->pagetable, va, 0)`: the entry pointer for `va`, or null. */
  function Walk(pr: Proc, va: nat): PtePtr
  {
    if va in pr.pagetable then pr.pagetable[va] else Null
  }

  /** Every entry pointer a walk of `pr` can return lies inside memory of `n` words. */
  predicate PointsInto(pr: Proc, n: nat)
  {
    forall va :: va in pr.pagetable ==> pr.pagetable[va] < n
  }
}
