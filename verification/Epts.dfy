/**
 The extended page tables and their construction from the MTRRs
 (src/hvcore/src/hypervisor/intel/epts.rs); the hardware walk is in module EptWalk.
 */
module Epts {
  import opened MemoryRanges
  import opened Mtrr
  import opened Paging

  // ---------------------------------------------------------------- entries

  /** An EPT entry; the setters keep as many bits as the field has. */
  datatype Entry = Entry(
    readable: bool, writable: bool, executable: bool, memoryType: nat, large: bool, pfn: nat)
  {
    function SetMemoryType(v: nat): Entry { this.(memoryType := v % 8) }

    function SetPfn(v: nat): Entry { this.(pfn := v % 0x100_0000_0000) }

    predicate Present() { readable || writable || executable }
  }

  const ZERO_ENTRY := Entry(false, false, false, 0, false, 0)

  function Link(tablePa: nat): Entry { Entry(true, true, true, 0, false, tablePa / 0x1000) }

  function Leaf(memoryType: MemoryType, large: bool, pfn: nat): Entry {
    Entry(true, true, true, memoryType.Code(), large, pfn)
  }

  // ---------------------------------------------------------------- placement in physical memory

  datatype TableId = Pml4 | Pdpt(i: TableIndex) | Pd(i: TableIndex) | Pt

  /** `platform_ops::pa` on the address of each table. */
  type Placement = TableId -> nat

  // ---------------------------------------------------------------- the queries behind the leaves

  function PageQuery(k: nat): Range { PageAt(k * 0x1000) }

  function LargeQuery(n: nat): Range { Range(n * 0x20_0000, n * 0x20_0000 + 0x20_0000) }

  /** The window the 1GB pass asks about: 512GB from the start of the leaf. */
  function HugeQuery(p: nat, i: nat): Range {
    var start := (512 * p + i) * 0x4000_0000;
    Range(start, start + 0x80_0000_0000)
  }

  ghost predicate FirstPagesResolve(mtrr: Mtrr) {
    forall k: nat | k < 512 :: mtrr.Lookup(PageQuery(k)).Some?
  }

  /** No query of the 1GB pass is refused. */
  ghost predicate HugeQueriesResolve(mtrr: Mtrr) {
    forall p: nat, i: nat | 1 <= p < 512 && i < 512 :: mtrr.Lookup(HugeQuery(p, i)).Some?
  }

  // ---------------------------------------------------------------- contents after the build

  function PtEntry(mtrr: Mtrr, k: nat): Entry
    requires mtrr.Lookup(PageQuery(k)).Some?
  {
    Leaf(mtrr.Lookup(PageQuery(k)).value, false, k)
  }

  function PdEntry(mtrr: Mtrr, pa: Placement, i: nat, j: nat): Entry {
    if i == 0 && j == 0 then Link(pa(Pt))
    else Leaf(mtrr.Lookup(LargeQuery(512 * i + j)).GetOr(Uncachable), true, (512 * i + j) * 0x200)
  }

  function PdptEntry(mtrr: Mtrr, pa: Placement, p: nat, i: nat): Entry
    requires i < 512 && (p > 0 ==> mtrr.Lookup(HugeQuery(p, i)).Some?)
  {
    if p == 0 then Link(pa(Pd(i)))
    else Leaf(mtrr.Lookup(HugeQuery(p, i)).value, true, (512 * p + i) * 0x4_0000)
  }

  class Epts {
    const pml4: array<Entry>
    const pdpt: array2<Entry>
    const pd: array2<Entry>
    const pt: array<Entry>

    ghost predicate Valid() {
      && pml4.Length == 512 && pt.Length == 512 && pml4 != pt
      && pdpt.Length0 == 512 && pdpt.Length1 == 512
      && pd.Length0 == 512 && pd.Length1 == 512 && pdpt != pd
    }

    /** `zeroed_box`. */
    constructor ()
      ensures Valid() && Zeroed()
      ensures fresh(pml4) && fresh(pdpt) && fresh(pd) && fresh(pt)
    {
      pml4 := new Entry[512](_ => ZERO_ENTRY);
      pdpt := new Entry[512, 512]((_, _) => ZERO_ENTRY);
      pd := new Entry[512, 512]((_, _) => ZERO_ENTRY);
      pt := new Entry[512](_ => ZERO_ENTRY);
    }

    ghost predicate Zeroed()
      requires Valid()
      reads pml4, pdpt, pd, pt
    {
      && (forall k | 0 <= k < 512 :: pml4[k] == ZERO_ENTRY)
      && (forall p, i | 0 <= p < 512 && 0 <= i < 512 :: pdpt[p, i] == ZERO_ENTRY)
      && (forall i, j | 0 <= i < 512 && 0 <= j < 512 :: pd[i, j] == ZERO_ENTRY)
      && (forall k | 0 <= k < 512 :: pt[k] == ZERO_ENTRY)
    }

    /** The contents that `build_identity` leaves. */
    ghost predicate Built(mtrr: Mtrr, pa: Placement)
      requires Valid() && FirstPagesResolve(mtrr) && HugeQueriesResolve(mtrr)
      reads pml4, pdpt, pd, pt
    {
      && (forall k: nat | k < 512 :: pml4[k] == Link(pa(Pdpt(k))))
      && (forall p: nat, i: nat | p < 512 && i < 512 :: pdpt[p, i] == PdptEntry(mtrr, pa, p, i))
      && (forall i: nat, j: nat | i < 512 && j < 512 :: pd[i, j] == PdEntry(mtrr, pa, i, j))
      && (forall k: nat | k < 512 :: pt[k] == PtEntry(mtrr, k))
    }

    /** The 4KB leaves of the first 2MB. */
    method FillPt(mtrr: Mtrr) returns (pa: nat)
      requires Valid() && FirstPagesResolve(mtrr)
      requires forall k | 0 <= k < 512 :: pt[k] == ZERO_ENTRY
      modifies pt
      ensures pa == 0x20_0000
      ensures forall k: nat | k < 512 :: pt[k] == PtEntry(mtrr, k)
    {
      pa := 0;
      for k := 0 to 512
        invariant pa == k * 0x1000
        invariant forall k': nat | k' < k :: pt[k'] == PtEntry(mtrr, k')
        invariant forall k' | k <= k' < 512 :: pt[k'] == ZERO_ENTRY
      {
        var memoryType := mtrr.Find(Range(pa, pa + 0x1000));
        assert Range(pa, pa + 0x1000) == PageQuery(k);
        assert memoryType.Some?;  // the panic of the source cannot happen
        var pte := pt[k].(readable := true, writable := true, executable := true);
        pte := pte.SetMemoryType(memoryType.value.Code());
        pt[k] := pte.SetPfn(pa / 0x1000);
        pa := pa + 0x1000;
      }
    }

    /** One 2MB leaf; it is uncachable when its query is refused. */
    method FillLargePde(mtrr: Mtrr, ghost place: Placement, i: nat, j: nat, start: nat) returns (pa: nat)
      requires Valid() && i < 512 && j < 512 && start == (512 * i + j) * 0x20_0000 && start > 0
      requires pd[i, j] == ZERO_ENTRY
      modifies pd
      ensures pa == start + 0x20_0000
      ensures pd[i, j] == PdEntry(mtrr, place, i, j)
      ensures forall i', j' | 0 <= i' < 512 && 0 <= j' < 512 && (i', j') != (i, j) :: pd[i', j'] == old(pd[i', j'])
    {
      var query := mtrr.Find(Range(start, start + 0x20_0000));
      assert Range(start, start + 0x20_0000) == LargeQuery(512 * i + j);
      var memoryType := if query.Some? then query.value else Uncachable;
      var pde := pd[i, j].(readable := true, writable := true, executable := true);
      pde := pde.SetMemoryType(memoryType.Code()).(large := true);
      pd[i, j] := pde.SetPfn(start / 0x1000);
      pa := start + 0x20_0000;
    }

    /** The entries of one page directory; the very first one leads to the page table. */
    method FillPd(mtrr: Mtrr, place: Placement, i: nat, start: nat) returns (pa: nat)
      requires Valid() && FirstPagesResolve(mtrr) && Placed(place)
      requires i < 512 && start == i * 0x4000_0000
      requires forall j | 0 <= j < 512 :: pd[i, j] == ZERO_ENTRY
      requires i == 0 ==> forall k | 0 <= k < 512 :: pt[k] == ZERO_ENTRY
      requires i > 0 ==> forall k: nat | k < 512 :: pt[k] == PtEntry(mtrr, k)
      modifies pd, pt
      ensures pa == (i + 1) * 0x4000_0000
      ensures forall k: nat | k < 512 :: pt[k] == PtEntry(mtrr, k)
      ensures forall j: nat | j < 512 :: pd[i, j] == PdEntry(mtrr, place, i, j)
      ensures forall i', j | 0 <= i' < 512 && 0 <= j < 512 && i' != i :: pd[i', j] == old(pd[i', j])
    {
      pa := start;
      for j := 0 to 512
        invariant pa == (512 * i + j) * 0x20_0000
        invariant pa == 0 ==> forall k | 0 <= k < 512 :: pt[k] == ZERO_ENTRY
        invariant pa > 0 ==> forall k: nat | k < 512 :: pt[k] == PtEntry(mtrr, k)
        invariant forall j': nat | j' < j :: pd[i, j'] == PdEntry(mtrr, place, i, j')
        invariant forall j' | j <= j' < 512 :: pd[i, j'] == ZERO_ENTRY
        invariant forall i', j' | 0 <= i' < 512 && 0 <= j' < 512 && i' != i :: pd[i', j'] == old(pd[i', j'])
      {
        if pa == 0 {
          var pde := pd[i, j].(readable := true, writable := true, executable := true);
          pd[i, j] := pde.SetPfn(place(Pt) / 0x1000);
          pa := FillPt(mtrr);
        } else {
          pa := FillLargePde(mtrr, place, i, j, pa);
        }
      }
    }

    /** PML4 entry 0 and everything below it: the first 512GB. */
    method FillFirst512GB(mtrr: Mtrr, place: Placement) returns (pa: nat)
      requires Valid() && FirstPagesResolve(mtrr) && Placed(place)
      requires Zeroed()
      modifies pml4, pdpt, pd, pt
      ensures pa == SIZE_512GB
      ensures pml4[0] == Link(place(Pdpt(0)))
      ensures forall k | 1 <= k < 512 :: pml4[k] == ZERO_ENTRY
      ensures forall i: nat | i < 512 :: pdpt[0, i] == Link(place(Pd(i)))
      ensures forall p, i | 1 <= p < 512 && 0 <= i < 512 :: pdpt[p, i] == ZERO_ENTRY
      ensures forall i: nat, j: nat | i < 512 && j < 512 :: pd[i, j] == PdEntry(mtrr, place, i, j)
      ensures forall k: nat | k < 512 :: pt[k] == PtEntry(mtrr, k)
    {
      pa := 0;
      var pml4e := pml4[0].(readable := true, writable := true, executable := true);
      pml4[0] := pml4e.SetPfn(place(Pdpt(0)) / 0x1000);
      for i := 0 to 512
        invariant pa == i * 0x4000_0000
        invariant pml4[0] == Link(place(Pdpt(0)))
        invariant forall k | 1 <= k < 512 :: pml4[k] == ZERO_ENTRY
        invariant forall i': nat | i' < i :: pdpt[0, i'] == Link(place(Pd(i')))
        invariant forall i' | i <= i' < 512 :: pdpt[0, i'] == ZERO_ENTRY
        invariant forall p, i' | 1 <= p < 512 && 0 <= i' < 512 :: pdpt[p, i'] == ZERO_ENTRY
        invariant forall i': nat, j: nat | i' < i && j < 512 :: pd[i', j] == PdEntry(mtrr, place, i', j)
        invariant forall i', j | i <= i' < 512 && 0 <= j < 512 :: pd[i', j] == ZERO_ENTRY
        invariant i == 0 ==> forall k | 0 <= k < 512 :: pt[k] == ZERO_ENTRY
        invariant i > 0 ==> forall k: nat | k < 512 :: pt[k] == PtEntry(mtrr, k)
      {
        var pdpte := pdpt[0, i].(readable := true, writable := true, executable := true);
        pdpt[0, i] := pdpte.SetPfn(place(Pd(i)) / 0x1000);
        pa := FillPd(mtrr, place, i, pa);
      }
    }

    /** The 1GB leaves of one page-directory-pointer table; `ok` is false at the panic. */
    method FillPdpt(mtrr: Mtrr, p: nat, start: nat) returns (pa: nat, ok: bool)
      requires Valid() && 1 <= p < 512 && start == p * 0x80_0000_0000
      requires forall i | 0 <= i < 512 :: pdpt[p, i] == ZERO_ENTRY
      modifies pdpt
      ensures ok <==> forall i: nat | i < 512 :: mtrr.Lookup(HugeQuery(p, i)).Some?
      ensures ok ==> pa == (p + 1) * 0x80_0000_0000
      ensures ok ==> forall i: nat | i < 512 ::
                pdpt[p, i] == Leaf(mtrr.Lookup(HugeQuery(p, i)).value, true, (512 * p + i) * 0x4_0000)
      ensures forall p', i | 0 <= p' < 512 && 0 <= i < 512 && p' != p :: pdpt[p', i] == old(pdpt[p', i])
    {
      pa := start;
      for i := 0 to 512
        invariant pa == (512 * p + i) * 0x4000_0000
        invariant forall i': nat | i' < i :: mtrr.Lookup(HugeQuery(p, i')).Some?
        invariant forall i': nat | i' < i ::
            pdpt[p, i'] == Leaf(mtrr.Lookup(HugeQuery(p, i')).value, true, (512 * p + i') * 0x4_0000)
        invariant forall i' | i <= i' < 512 :: pdpt[p, i'] == ZERO_ENTRY
        invariant forall p', i' | 0 <= p' < 512 && 0 <= i' < 512 && p' != p :: pdpt[p', i'] == old(pdpt[p', i'])
      {
        var memoryType := mtrr.Find(Range(pa, pa + 0x80_0000_0000));
        assert Range(pa, pa + 0x80_0000_0000) == HugeQuery(p, i);
        if memoryType.None? {
          return pa, false;
        }
        var pdpte := pdpt[p, i].(readable := true, writable := true, executable := true);
        pdpte := pdpte.SetMemoryType(memoryType.value.Code()).(large := true);
        pdpt[p, i] := pdpte.SetPfn(pa / 0x1000);
        pa := pa + 0x4000_0000;
      }
      ok := true;
    }

    /** `build_identity` on the decoded MTRRs; `ok` is false at a panic of the 1GB pass. */
    method BuildIdentity(mtrr: Mtrr, place: Placement) returns (ok: bool)
      requires Valid() && Zeroed() && FirstPagesResolve(mtrr) && Placed(place)
      modifies pml4, pdpt, pd, pt
      ensures ok <==> HugeQueriesResolve(mtrr)
      ensures ok ==> Built(mtrr, place)
    {
      var pa := FillFirst512GB(mtrr, place);
      assert pa == SIZE_512GB;
      for p := 1 to 512
        invariant pa == p * 0x80_0000_0000
        invariant forall k: nat | k < p :: pml4[k] == Link(place(Pdpt(k)))
        invariant forall k | p <= k < 512 :: pml4[k] == ZERO_ENTRY
        invariant forall i: nat | i < 512 :: pdpt[0, i] == Link(place(Pd(i)))
        invariant forall p': nat, i: nat | 1 <= p' < p && i < 512 :: mtrr.Lookup(HugeQuery(p', i)).Some?
        invariant forall p': nat, i: nat | p' < p && i < 512 :: pdpt[p', i] == PdptEntry(mtrr, place, p', i)
        invariant forall p', i | p <= p' < 512 && 0 <= i < 512 :: pdpt[p', i] == ZERO_ENTRY
        invariant forall i: nat, j: nat | i < 512 && j < 512 :: pd[i, j] == PdEntry(mtrr, place, i, j)
        invariant forall k: nat | k < 512 :: pt[k] == PtEntry(mtrr, k)
      {
        var pml4e := pml4[p].(readable := true, writable := true, executable := true);
        pml4[p] := pml4e.SetPfn(place(Pdpt(p)) / 0x1000);
        pa, ok := FillPdpt(mtrr, p, pa);
        if !ok {
          var i: nat :| i < 512 && mtrr.Lookup(HugeQuery(p, i)).None?;
          assert !HugeQueriesResolve(mtrr);
          return false;
        }
      }
      assert pa == SIZE_256TB;
      ok := true;
    }
  }
}
