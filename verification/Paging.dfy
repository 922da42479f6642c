/** What the extended page tables and the ordinary ones share: four levels of 512 entries. */
module Paging {
  import opened Option

  const SIZE_2MB := 0x20_0000
  const SIZE_512GB := 0x80_0000_0000
  const SIZE_256TB := 0x1_0000_0000_0000

  /** What one entry of a level covers. */
  function Span(level: nat): (s: nat)
    requires 1 <= level <= 4
    ensures s > 0
  {
    match level
    case 1 => 0x1000
    case 2 => 0x20_0000
    case 3 => 0x4000_0000
    case 4 => 0x80_0000_0000
  }

  /** Bits 20:12, 29:21, 38:30 or 47:39 of the address. */
  function Index(level: nat, a: nat): (k: nat)
    requires 1 <= level <= 4
    ensures k < 512
  {
    a / Span(level) % 512
  }

  type TableIndex = i: nat | i < 512

  /** The tables lie on distinct page frames of a 52-bit physical address space. */
  ghost predicate Placed<T(!new)>(pa: T -> nat) {
    && (forall t: T :: pa(t) % 0x1000 == 0 && pa(t) < 0x10_0000_0000_0000)
    && (forall t: T, u: T | pa(t) == pa(u) :: t == u)
  }

  /** The table that the hardware finds at a physical address. */
  ghost function TableAt<T(!new)>(pa: T -> nat, address: nat): Option<T> {
    if exists t: T :: pa(t) == address then
      var t: T :| pa(t) == address;
      Some(t)
    else
      None
  }

  lemma TableAtPlacement<T(!new)>(pa: T -> nat, t: T)
    requires Placed(pa)
    ensures TableAt(pa, pa(t)) == Some(t)
  {
  }
}
