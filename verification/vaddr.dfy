/**
 * The virtual-address constants and helpers the kernel takes from
 * threads/vaddr.h and lib/round.h (neither is part of this model; the values
 * are the standard ones of the i386 kernel: 4 KiB pages, user space below
 * 0xC0000000).
 */
module Vaddr {

  const PGBITS: nat := 12
  const PGSIZE: nat := 4096
  const PGMASK: nat := 0xFFF
  const PHYS_BASE: nat := 0xC000_0000

  /** is_user_vaddr: the address lies below the kernel's half of the address space. */
  predicate IsUserVaddr(va: nat) {
    va < PHYS_BASE
  }

  /** pg_ofs: the offset of an address within its page (va & PGMASK). */
  function PgOfs(va: nat): nat {
    va % PGSIZE
  }

  /** pg_round_down: the base of the page holding va (va & ~PGMASK). */
  function PgRoundDown(va: nat): (p: nat)
    ensures p % PGSIZE == 0 && p <= va < p + PGSIZE
  {
    va - va % PGSIZE
  }

  /** ROUND_UP(x, PGSIZE) computed on unbounded integers: the least page multiple at or above x. */
  function RoundUp(x: nat): (r: nat)
    ensures r % PGSIZE == 0 && x <= r < x + PGSIZE
  {
    (x + PGSIZE - 1) / PGSIZE * PGSIZE
  }

  /** Stepping a page multiple by one page keeps it a page multiple; a positive one is at least a page. */
  lemma PageMultipleStep(x: int)
    requires x % PGSIZE == 0
    ensures (x - PGSIZE) % PGSIZE == 0 && (x + PGSIZE) % PGSIZE == 0
    ensures x > 0 ==> x >= PGSIZE
  {
    var q := x / PGSIZE;
    assert x == PGSIZE * q;
    assert x - PGSIZE == PGSIZE * (q - 1);
    assert x + PGSIZE == PGSIZE * (q + 1);
  }
}
