/**
 The host page tables and the AMD nested page tables: one builder for both, the split of the 2MB
 page of the APIC, and the toggle of its write permission; the hardware walk is in module PageWalk
 (src/hvcore/src/hypervisor/paging_structures.rs, src/hvcore/src/hypervisor/amd/npts.rs).
 */
module PagingStructures {
  import opened Option
  import opened Bits
  import opened Paging

  // ---------------------------------------------------------------- entries and placement

  datatype Entry = Entry(present: bool, writable: bool, user: bool, large: bool, pfn: nat) {
    /** The field has 40 bits. */
    function SetPfn(v: nat): Entry { this.(pfn := v % 0x100_0000_0000) }
  }

  const ZERO_ENTRY := Entry(false, false, false, false, 0)

  function Link(tablePa: nat, user: bool): Entry { Entry(true, true, user, false, tablePa / 0x1000) }

  datatype TableId = Pml4 | Pdpt | Pd(i: TableIndex) | Pt | PtApic

  /** `platform_ops::pa` on the address of each table. */
  type Placement = TableId -> nat

  // ---------------------------------------------------------------- contents after the build

  function PtEntry(npt: bool, k: nat): Entry {
    if npt then ZERO_ENTRY else Entry(k != 0, true, false, false, k)
  }

  function PdEntry(npt: bool, pa: Placement, i: nat, j: nat): Entry {
    if i == 0 && j == 0 && !npt then Link(pa(Pt), false)
    else Entry(true, true, npt, true, (512 * i + j) * 0x200)
  }

  function PtApicEntry(pfn: nat, flags: seq<bool>, k: nat): Entry
    requires k < |flags|
  {
    Entry(true, flags[k], true, false, pfn + 0x1000 * k)
  }

  /** Which 2MB region the code splits for an APIC base: bits 38:21. */
  function Region(apicBase: nat): (n: nat)
    ensures n < 0x4_0000
  {
    apicBase / 0x20_0000 % 0x4_0000
  }

  /** Bits 20:12 of the base: the entry that the toggle changes. */
  function ApicIndex(apicBase: nat): (k: nat)
    ensures k < 512
  {
    apicBase / 0x1000 % 512
  }

  class PagingStructuresRaw {
    const pml4: array<Entry>
    const pdpt: array<Entry>
    const pd: array2<Entry>
    const pt: array<Entry>
    const ptApic: array<Entry>

    ghost predicate Valid() {
      && pml4.Length == pdpt.Length == pt.Length == ptApic.Length == 512
      && pd.Length0 == 512 && pd.Length1 == 512
      && pml4 != pdpt && pml4 != pt && pml4 != ptApic && pdpt != pt && pdpt != ptApic && pt != ptApic
    }

    /** `zeroed_box`. */
    constructor ()
      ensures Valid() && Zeroed()
      ensures fresh(pml4) && fresh(pdpt) && fresh(pd) && fresh(pt) && fresh(ptApic)
    {
      pml4 := new Entry[512](_ => ZERO_ENTRY);
      pdpt := new Entry[512](_ => ZERO_ENTRY);
      pd := new Entry[512, 512]((_, _) => ZERO_ENTRY);
      pt := new Entry[512](_ => ZERO_ENTRY);
      ptApic := new Entry[512](_ => ZERO_ENTRY);
    }

    ghost predicate Zeroed()
      requires Valid()
      reads pml4, pdpt, pd, pt, ptApic
    {
      && (forall k | 0 <= k < 512 ::
            pml4[k] == pdpt[k] == pt[k] == ptApic[k] == ZERO_ENTRY)
      && (forall i, j | 0 <= i < 512 && 0 <= j < 512 :: pd[i, j] == ZERO_ENTRY)
    }

    /** Everything but the APIC page table, and except for the entry of region `split`. */
    ghost predicate BuiltExcept(npt: bool, pa: Placement, split: Option<nat>)
      requires Valid()
      reads pml4, pdpt, pd, pt
    {
      && pml4[0] == Link(pa(Pdpt), npt)
      && (forall k | 1 <= k < 512 :: pml4[k] == ZERO_ENTRY)
      && (forall i: nat | i < 512 :: pdpt[i] == Link(pa(Pd(i)), npt))
      && (forall i: nat, j: nat | i < 512 && j < 512 && split != Some(512 * i + j) ::
            pd[i, j] == PdEntry(npt, pa, i, j))
      && (forall k: nat | k < 512 :: pt[k] == PtEntry(npt, k))
    }

    /** The contents that the builder leaves. */
    ghost predicate Built(npt: bool, pa: Placement)
      requires Valid()
      reads pml4, pdpt, pd, pt, ptApic
    {
      && BuiltExcept(npt, pa, None)
      && forall k | 0 <= k < 512 :: ptApic[k] == ZERO_ENTRY
    }

    /** The nested tables after the split of region `n`, with the given write permissions. */
    ghost predicate SplitAt(pa: Placement, n: nat, flags: seq<bool>)
      requires Valid()
      reads pml4, pdpt, pd, pt, ptApic
    {
      && n < 0x4_0000 && |flags| == 512
      && BuiltExcept(true, pa, Some(n))
      && pd[n / 512, n % 512] == Link(pa(PtApic), true)
      && forall k: nat | k < 512 :: ptApic[k] == PtApicEntry(n * 0x200, flags, k)
    }

    /** The 4KB entries of the host variant; the null page is left out. */
    method FillPt() returns (pa: nat)
      requires Valid() && forall k | 0 <= k < 512 :: pt[k] == ZERO_ENTRY
      modifies pt
      ensures pa == 0x20_0000
      ensures forall k: nat | k < 512 :: pt[k] == PtEntry(false, k)
    {
      pa := 0;
      for k := 0 to 512
        invariant pa == k * 0x1000
        invariant forall k': nat | k' < k :: pt[k'] == Entry(true, true, false, false, k')
        invariant forall k' | k <= k' < 512 :: pt[k'] == ZERO_ENTRY
      {
        var pte := pt[k].(present := true, writable := true, user := false);
        pt[k] := pte.SetPfn(pa / 0x1000);
        pa := pa + 0x1000;
      }
      pt[0] := pt[0].(present := false);
    }

    /** The entries of one page directory. */
    method FillPd(npt: bool, place: Placement, i: nat, start: nat) returns (pa: nat)
      requires Valid() && Placed(place) && i < 512 && start == i * 0x4000_0000
      requires forall j | 0 <= j < 512 :: pd[i, j] == ZERO_ENTRY
      requires i == 0 ==> forall k | 0 <= k < 512 :: pt[k] == ZERO_ENTRY
      requires i > 0 ==> forall k: nat | k < 512 :: pt[k] == PtEntry(npt, k)
      modifies pd, pt
      ensures pa == (i + 1) * 0x4000_0000
      ensures forall k: nat | k < 512 :: pt[k] == PtEntry(npt, k)
      ensures forall j: nat | j < 512 :: pd[i, j] == PdEntry(npt, place, i, j)
      ensures forall i', j | 0 <= i' < 512 && 0 <= j < 512 && i' != i :: pd[i', j] == old(pd[i', j])
    {
      pa := start;
      for j := 0 to 512
        invariant pa == (512 * i + j) * 0x20_0000
        invariant pa == 0 ==> forall k | 0 <= k < 512 :: pt[k] == ZERO_ENTRY
        invariant pa > 0 ==> forall k: nat | k < 512 :: pt[k] == PtEntry(npt, k)
        invariant forall j': nat | j' < j :: pd[i, j'] == PdEntry(npt, place, i, j')
        invariant forall j' | j <= j' < 512 :: pd[i, j'] == ZERO_ENTRY
        invariant forall i', j' | 0 <= i' < 512 && 0 <= j' < 512 && i' != i :: pd[i', j'] == old(pd[i', j'])
      {
        var pde := pd[i, j].(present := true, writable := true, user := npt);
        if pa == 0 && !npt {
          pd[i, j] := pde.SetPfn(place(Pt) / 0x1000);
          pa := FillPt();
        } else {
          pd[i, j] := pde.(large := true).SetPfn(pa / 0x1000);
          pa := pa + 0x20_0000;
        }
      }
    }

    /** `build_identity_internal`. */
    method BuildIdentity(npt: bool, place: Placement)
      requires Valid() && Zeroed() && Placed(place)
      modifies pml4, pdpt, pd, pt
      ensures Built(npt, place)
    {
      pml4[0] := pml4[0].(present := true, writable := true, user := npt).SetPfn(place(Pdpt) / 0x1000);
      var pa := 0;
      for i := 0 to 512
        invariant pa == i * 0x4000_0000
        invariant pml4[0] == Link(place(Pdpt), npt)
        invariant forall k | 1 <= k < 512 :: pml4[k] == ZERO_ENTRY
        invariant forall i': nat | i' < i :: pdpt[i'] == Link(place(Pd(i')), npt)
        invariant forall i' | i <= i' < 512 :: pdpt[i'] == ZERO_ENTRY
        invariant forall i': nat, j: nat | i' < i && j < 512 :: pd[i', j] == PdEntry(npt, place, i', j)
        invariant forall i', j | i <= i' < 512 && 0 <= j < 512 :: pd[i', j] == ZERO_ENTRY
        invariant i == 0 ==> forall k | 0 <= k < 512 :: pt[k] == ZERO_ENTRY
        invariant i > 0 ==> forall k: nat | k < 512 :: pt[k] == PtEntry(npt, k)
        invariant forall k | 0 <= k < 512 :: ptApic[k] == ZERO_ENTRY
      {
        pdpt[i] := pdpt[i].(present := true, writable := true, user := npt).SetPfn(place(Pd(i)) / 0x1000);
        pa := FillPd(npt, place, i, pa);
      }
    }

    /** `split_2mb` on entry [i, j]; `ok` is false when one of its asserts fires. */
    method Split2Mb(i: nat, j: nat, place: Placement) returns (ok: bool)
      requires Valid() && Placed(place) && i < 512 && j < 512
      modifies pd, ptApic
      ensures ok <==> old(pd[i, j].present && pd[i, j].large) && forall k | 0 <= k < 512 :: !old(ptApic[k].present)
      ensures ok ==> pd[i, j] == old(pd[i, j]).(large := false, pfn := place(PtApic) / 0x1000)
      ensures forall i', j' | 0 <= i' < 512 && 0 <= j' < 512 && (i', j') != (i, j) :: pd[i', j'] == old(pd[i', j'])
      ensures ok ==> forall k: nat | k < 512 ::
                ptApic[k] == Entry(true, old(pd[i, j].writable), old(pd[i, j].user), false,
                                   (old(pd[i, j].pfn) + 0x1000 * k) % 0x100_0000_0000)
    {
      var pde := pd[i, j];
      if !pde.present || !pde.large {
        return false;
      }
      var pfn := pde.pfn;
      for k := 0 to 512
        invariant pfn == pde.pfn + 0x1000 * k
        invariant forall k' | 0 <= k' < k :: !old(ptApic[k'].present)
        invariant forall k': nat | k' < k ::
            ptApic[k'] == Entry(true, pde.writable, pde.user, false, (pde.pfn + 0x1000 * k') % 0x100_0000_0000)
        invariant forall k' | k <= k' < 512 :: ptApic[k'] == old(ptApic[k'])
        modifies ptApic
      {
        if ptApic[k].present {
          return false;
        }
        var pte := ptApic[k].(present := true, writable := pde.writable, user := pde.user, large := false);
        ptApic[k] := pte.SetPfn(pfn);
        pfn := pfn + 0x1000;
      }
      pd[i, j] := pde.SetPfn(place(PtApic) / 0x1000).(large := false);
      ok := true;
    }

    /** `split_apic_page`, given the raw APIC base register. */
    method SplitApicPage(apicBaseRaw: nat, place: Placement) returns (ok: bool)
      requires Valid() && Placed(place) && Built(true, place)
      modifies pd, ptApic
      ensures ok <==> apicBaseRaw / 0x400 % 2 == 0 && apicBaseRaw / 0x800 % 2 == 1
      ensures ok ==> SplitAt(place, Region(apicBaseRaw), seq(512, _ => true))
    {
      if apicBaseRaw / 0x400 % 2 == 1 || apicBaseRaw / 0x800 % 2 == 0 {
        return false;
      }
      var apicBase := apicBaseRaw - apicBaseRaw % 0x1000;
      var pdptIndex := apicBase / 0x4000_0000 % 512;
      var pdIndex := apicBase / 0x20_0000 % 512;
      RegionIndices(apicBaseRaw);
      ok := Split2Mb(pdptIndex, pdIndex, place);
    }

    /** The page-table part of `intercept_apic_write`. */
    method InterceptApicWrite(apicBaseRaw: nat, enable: bool, ghost place: Placement, ghost n: nat,
                              ghost flags: seq<bool>)
      requires Valid() && SplitAt(place, n, flags)
      modifies ptApic
      ensures SplitAt(place, n, flags[ApicIndex(apicBaseRaw) := !enable])
    {
      var apicBase := apicBaseRaw - apicBaseRaw % 0x1000;
      var ptIndex := apicBase / 0x1000 % 512;
      assert ptIndex == ApicIndex(apicBaseRaw);
      ptApic[ptIndex] := ptApic[ptIndex].(writable := !enable);
    }

    /** Any sequence of toggles with a fixed APIC base: only the last one matters. */
    method Toggle(apicBaseRaw: nat, toggles: seq<bool>, ghost place: Placement, ghost n: nat, ghost flags: seq<bool>)
      requires Valid() && SplitAt(place, n, flags)
      modifies ptApic
      ensures SplitAt(place, n, if toggles == [] then flags
                                else flags[ApicIndex(apicBaseRaw) := !toggles[|toggles| - 1]])
    {
      ghost var now := flags;
      for t := 0 to |toggles|
        invariant |now| == 512 && SplitAt(place, n, now)
        invariant now == if t == 0 then flags else flags[ApicIndex(apicBaseRaw) := !toggles[t - 1]]
      {
        InterceptApicWrite(apicBaseRaw, toggles[t], place, n, now);
        now := now[ApicIndex(apicBaseRaw) := !toggles[t]];
      }
    }
  }

  /** The two indices of the source select the region's entry. */
  lemma RegionIndices(apicBaseRaw: nat)
    ensures var apicBase := apicBaseRaw - apicBaseRaw % 0x1000;
            && apicBase / 0x4000_0000 % 512 == Region(apicBaseRaw) / 512
            && apicBase / 0x20_0000 % 512 == Region(apicBaseRaw) % 512
  {
    var apicBase := apicBaseRaw - apicBaseRaw % 0x1000;
    var m := apicBaseRaw / 0x20_0000;
    var q, r := m / 0x4_0000, m % 0x4_0000;
    DivModUnique(apicBase, 0x20_0000, m, apicBase - m * 0x20_0000);
    DivModUnique(m, 512, 512 * q + r / 512, r % 512);
    DivModUnique(apicBase, 0x4000_0000, m / 512, apicBase - m / 512 * 0x4000_0000);
    DivModUnique(m / 512, 512, q, r / 512);
  }
}
