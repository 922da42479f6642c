/**
 The four-level page walk, and what it returns on the host tables, on the nested tables, and on the
 nested tables after the APIC page was split and its write permission toggled.
 */
module PageWalk {
  import opened Option
  import opened Paging
  import opened PagingStructures

  /** Writable and user are those of every level used. */
  datatype Walk = Fault | Translation(address: nat, writable: bool, user: bool, pageSize: nat) {
    function Under(e: Entry): Walk {
      match this
      case Fault => Fault
      case Translation(a, w, u, s) => Translation(a, w && e.writable, u && e.user, s)
    }
  }

  ghost function EntryAt(ps: PagingStructuresRaw, place: Placement, address: nat, index: nat): Option<Entry>
    requires ps.Valid() && index < 512
    reads ps.pml4, ps.pdpt, ps.pd, ps.pt, ps.ptApic
  {
    match TableAt(place, address)
    case None => None
    case Some(t) =>
      match t
      case Pml4 => Some(ps.pml4[index])
      case Pdpt => Some(ps.pdpt[index])
      case Pd(i) => Some(ps.pd[i, index])
      case Pt => Some(ps.pt[index])
      case PtApic => Some(ps.ptApic[index])
  }

  ghost function WalkFrom(ps: PagingStructuresRaw, place: Placement, level: nat, address: nat, a: nat): Walk
    requires ps.Valid() && 1 <= level <= 4
    reads ps.pml4, ps.pdpt, ps.pd, ps.pt, ps.ptApic
    decreases level
  {
    var entry := EntryAt(ps, place, address, Index(level, a));
    if entry.None? || !entry.value.present then Fault else WalkEntry(ps, place, level, entry.value, a)
  }

  ghost function WalkEntry(ps: PagingStructuresRaw, place: Placement, level: nat, entry: Entry, a: nat): Walk
    requires ps.Valid() && 1 <= level <= 4
    reads ps.pml4, ps.pdpt, ps.pd, ps.pt, ps.ptApic
    decreases level, 0
  {
    if level == 1 || (entry.large && level < 4) then
      if entry.pfn * 0x1000 % Span(level) != 0 then Fault
      else Translation(entry.pfn * 0x1000 + a % Span(level), entry.writable, entry.user, Span(level))
    else if entry.large then Fault
    else WalkFrom(ps, place, level - 1, entry.pfn * 0x1000, a).Under(entry)
  }

  ghost function WalkAddress(ps: PagingStructuresRaw, place: Placement, a: nat): Walk
    requires ps.Valid()
    reads ps.pml4, ps.pdpt, ps.pd, ps.pt, ps.ptApic
  {
    WalkFrom(ps, place, 4, place(Pml4), a)
  }

  // ---------------------------------------------------------------- steps of the walk

  lemma EntryOfTable(ps: PagingStructuresRaw, place: Placement, t: TableId, index: nat, user: bool)
    requires ps.Valid() && Placed(place) && index < 512
    ensures EntryAt(ps, place, Link(place(t), user).pfn * 0x1000, index) == EntryAt(ps, place, place(t), index)
    ensures EntryAt(ps, place, place(t), index) ==
            Some(match t
                 case Pml4 => ps.pml4[index]
                 case Pdpt => ps.pdpt[index]
                 case Pd(i) => ps.pd[i, index]
                 case Pt => ps.pt[index]
                 case PtApic => ps.ptApic[index])
  {
    TableAtPlacement(place, t);
    assert place(t) / 0x1000 * 0x1000 == place(t);
  }

  /** Below 512GB the two upper levels lead to the page directory of the address. */
  lemma WalkToDirectory(ps: PagingStructuresRaw, place: Placement, npt: bool, split: Option<nat>, a: nat)
    requires ps.Valid() && Placed(place) && ps.BuiltExcept(npt, place, split) && a < SIZE_512GB
    ensures WalkAddress(ps, place, a) ==
            WalkFrom(ps, place, 2, place(Pd(Index(3, a))), a).Under(Link(place(Pd(Index(3, a))), npt))
  {
    var i := Index(3, a);
    assert Index(4, a) == 0;
    EntryOfTable(ps, place, Pml4, 0, npt);
    EntryOfTable(ps, place, Pdpt, i, npt);
    EntryOfTable(ps, place, Pd(i), Index(2, a), npt);
    assert ps.pdpt[i] == Link(place(Pd(i)), npt);
    assert WalkFrom(ps, place, 4, place(Pml4), a) == WalkEntry(ps, place, 4, ps.pml4[0], a);
    assert WalkFrom(ps, place, 3, ps.pml4[0].pfn * 0x1000, a) == WalkEntry(ps, place, 3, ps.pdpt[i], a);
    assert WalkFrom(ps, place, 2, ps.pdpt[i].pfn * 0x1000, a) == WalkFrom(ps, place, 2, place(Pd(i)), a);
  }

  lemma LargeFrame(a: nat)
    ensures a / 0x20_0000 * 0x200 * 0x1000 == a / 0x20_0000 * 0x20_0000
    ensures a / 0x20_0000 * 0x20_0000 % 0x20_0000 == 0
    ensures a < SIZE_512GB ==> 512 * Index(3, a) + Index(2, a) == a / 0x20_0000
  {
    var n := a / 0x20_0000;
    assert a / 0x4000_0000 == n / 512;
    assert a < SIZE_512GB ==> n / 512 < 512;
    assert n * 0x200 * 0x1000 == n * 0x20_0000;
  }

  /** A 2MB leaf that was not split maps to itself. */
  lemma WalkLargeLeaf(ps: PagingStructuresRaw, place: Placement, npt: bool, split: Option<nat>, a: nat)
    requires ps.Valid() && Placed(place) && ps.BuiltExcept(npt, place, split) && a < SIZE_512GB
    requires split != Some(a / 0x20_0000) && (npt || a >= SIZE_2MB)
    ensures WalkAddress(ps, place, a) == Translation(a, true, npt, SIZE_2MB)
  {
    var i, j := Index(3, a), Index(2, a);
    WalkToDirectory(ps, place, npt, split, a);
    LargeFrame(a);
    EntryOfTable(ps, place, Pd(i), j, npt);
    assert ps.pd[i, j] == PdEntry(npt, place, i, j) == Entry(true, true, npt, true, a / 0x20_0000 * 0x200);
    assert WalkFrom(ps, place, 2, place(Pd(i)), a) == WalkEntry(ps, place, 2, ps.pd[i, j], a);
  }

  /** Nothing is mapped from 512GB on. */
  lemma WalkAbove(ps: PagingStructuresRaw, place: Placement, npt: bool, split: Option<nat>, a: nat)
    requires ps.Valid() && Placed(place) && ps.BuiltExcept(npt, place, split)
    requires SIZE_512GB <= a < SIZE_256TB
    ensures WalkAddress(ps, place, a) == Fault
  {
    var k := Index(4, a);
    assert 1 <= k;
    EntryOfTable(ps, place, Pml4, k, npt);
  }

  /** A 4KB entry maps to its frame. */
  lemma PageLeaf(ps: PagingStructuresRaw, place: Placement, entry: Entry, a: nat)
    requires ps.Valid()
    ensures WalkEntry(ps, place, 1, entry, a) ==
            Translation(entry.pfn * 0x1000 + a % 0x1000, entry.writable, entry.user, 0x1000)
  {
    assert entry.pfn * 0x1000 % 0x1000 == 0;
  }

  /** A directory entry that links a page table leads to the table's entry. */
  lemma WalkThroughTable(ps: PagingStructuresRaw, place: Placement, i: nat, t: TableId, user: bool, a: nat)
    requires ps.Valid() && Placed(place) && i < 512
    requires ps.pd[i, Index(2, a)] == Link(place(t), user)
    ensures WalkFrom(ps, place, 2, place(Pd(i)), a) ==
            WalkFrom(ps, place, 1, place(t), a).Under(Link(place(t), user))
  {
    EntryOfTable(ps, place, Pd(i), Index(2, a), user);
    EntryOfTable(ps, place, t, Index(1, a), user);
    assert WalkFrom(ps, place, 2, place(Pd(i)), a) == WalkEntry(ps, place, 2, ps.pd[i, Index(2, a)], a);
  }

  lemma LowIndices(a: nat)
    requires a < SIZE_2MB
    ensures Index(3, a) == 0 && Index(2, a) == 0 && Index(1, a) == a / 0x1000
    ensures a / 0x1000 * 0x1000 + a % 0x1000 == a
  {
  }

  /** The first 2MB of the host go through the page table. */
  lemma WalkHostPage(ps: PagingStructuresRaw, place: Placement, a: nat)
    requires ps.Valid() && Placed(place) && ps.Built(false, place) && a < SIZE_2MB
    ensures WalkAddress(ps, place, a) == if a < 0x1000 then Fault else Translation(a, true, false, 0x1000)
  {
    var k := a / 0x1000;
    LowIndices(a);
    WalkToDirectory(ps, place, false, None, a);
    assert ps.pd[0, 0] == PdEntry(false, place, 0, 0);
    WalkThroughTable(ps, place, 0, Pt, false, a);
    EntryOfTable(ps, place, Pt, k, false);
    assert ps.pt[k] == PtEntry(false, k);
    PageLeaf(ps, place, ps.pt[k], a);
  }

  // ---------------------------------------------------------------- the two variants

  /**
   The host tables map every address below 512GB to itself, writable and for the supervisor,
   except the null page; nothing above is mapped.
   */
  lemma HostWalk(ps: PagingStructuresRaw, place: Placement, a: nat)
    requires ps.Valid() && Placed(place) && ps.Built(false, place) && a < SIZE_256TB
    ensures WalkAddress(ps, place, a) ==
            if a < 0x1000 || a >= SIZE_512GB then Fault
            else Translation(a, true, false, if a < SIZE_2MB then 0x1000 else SIZE_2MB)
  {
    if a >= SIZE_512GB {
      WalkAbove(ps, place, false, None, a);
    } else if a < SIZE_2MB {
      WalkHostPage(ps, place, a);
    } else {
      WalkLargeLeaf(ps, place, false, None, a);
    }
  }

  /** The nested tables map every address below 512GB to itself, writable and with the user bit. */
  lemma NestedWalk(ps: PagingStructuresRaw, place: Placement, a: nat)
    requires ps.Valid() && Placed(place) && ps.Built(true, place) && a < SIZE_256TB
    ensures WalkAddress(ps, place, a) == if a >= SIZE_512GB then Fault else Translation(a, true, true, SIZE_2MB)
  {
    if a >= SIZE_512GB {
      WalkAbove(ps, place, true, None, a);
    } else {
      WalkLargeLeaf(ps, place, true, None, a);
    }
  }

  // ---------------------------------------------------------------- after the split

  /** Outside the split region nothing changes. */
  lemma OutsideSplitUnchanged(ps: PagingStructuresRaw, place: Placement, n: nat, flags: seq<bool>, a: nat)
    requires ps.Valid() && Placed(place) && ps.SplitAt(place, n, flags)
    requires a < SIZE_256TB && a / 0x20_0000 != n
    ensures WalkAddress(ps, place, a) == if a >= SIZE_512GB then Fault else Translation(a, true, true, SIZE_2MB)
  {
    if a >= SIZE_512GB {
      WalkAbove(ps, place, true, Some(n), a);
    } else {
      WalkLargeLeaf(ps, place, true, Some(n), a);
    }
  }

  lemma SplitIndices(a: nat)
    requires a < SIZE_512GB
    ensures Index(3, a) == a / 0x20_0000 / 512 && Index(2, a) == a / 0x20_0000 % 512
    ensures Index(1, a) == ApicIndex(a)
  {
  }

  /**
   Inside the split region, page k goes to the frame 4096 * k frames after the region's first one,
   that is 16MB * k further, with the write permission of its entry.
   */
  lemma InsideSplit(ps: PagingStructuresRaw, place: Placement, n: nat, flags: seq<bool>, a: nat)
    requires ps.Valid() && Placed(place) && ps.SplitAt(place, n, flags)
    requires a / 0x20_0000 == n
    ensures WalkAddress(ps, place, a) ==
            Translation(n * 0x20_0000 + ApicIndex(a) * 0x100_0000 + a % 0x1000, flags[ApicIndex(a)], true, 0x1000)
  {
    var k := ApicIndex(a);
    assert a < SIZE_512GB;
    SplitIndices(a);
    WalkToDirectory(ps, place, true, Some(n), a);
    WalkThroughTable(ps, place, Index(3, a), PtApic, true, a);
    EntryOfTable(ps, place, PtApic, k, true);
    assert ps.ptApic[k] == PtApicEntry(n * 0x200, flags, k);
    PageLeaf(ps, place, ps.ptApic[k], a);
    assert (n * 0x200 + 0x1000 * k) * 0x1000 == n * 0x20_0000 + k * 0x100_0000;
  }

  lemma PageOfRegion(a: nat)
    ensures a == a / 0x20_0000 * 0x20_0000 + ApicIndex(a) * 0x1000 + a % 0x1000
    ensures a % 0x20_0000 < 0x1000 <==> ApicIndex(a) == 0
  {
    var m := a / 0x1000;
    assert a == m * 0x1000 + a % 0x1000;
    assert a / 0x20_0000 == m / 512;
    assert a % 0x20_0000 == m % 512 * 0x1000 + a % 0x1000;
  }

  /** The split keeps the translation of exactly the first page of the region. */
  lemma SplitKeepsOnlyFirstPage(ps: PagingStructuresRaw, place: Placement, n: nat, flags: seq<bool>, a: nat)
    requires ps.Valid() && Placed(place) && ps.SplitAt(place, n, flags)
    requires a / 0x20_0000 == n
    ensures WalkAddress(ps, place, a).Translation?
    ensures WalkAddress(ps, place, a).address == a <==> a % 0x20_0000 < 0x1000
  {
    InsideSplit(ps, place, n, flags, a);
    PageOfRegion(a);
  }

  lemma SamePage(apicBase: nat, a: nat)
    requires apicBase < SIZE_256TB && apicBase % 0x1000 == 0 && apicBase <= a < apicBase + 0x1000
    ensures a < SIZE_256TB && (a < SIZE_512GB <==> apicBase < SIZE_512GB)
    ensures ApicIndex(a) == ApicIndex(apicBase)
    ensures apicBase < SIZE_512GB ==> a / 0x20_0000 == Region(apicBase)
    ensures a % 0x20_0000 < 0x1000 <==> apicBase % 0x20_0000 == 0
  {
    var m, d := apicBase / 0x1000, a - apicBase;
    assert apicBase == m * 0x1000 && a == m * 0x1000 + d;
    assert a / 0x1000 == m && a / 0x20_0000 == m / 512;
    assert apicBase < SIZE_512GB ==> m / 512 < 0x4_0000;
    assert a % 0x20_0000 == m % 512 * 0x1000 + d;
    assert apicBase % 0x20_0000 == m % 512 * 0x1000;
  }

  /**
   After the split for an APIC base and any toggles, the APIC page is mapped to itself exactly when
   its base is 2MB-aligned and below 512GB, and its write permission is then that of its entry.
   */
  lemma ApicPageMapsToItself(ps: PagingStructuresRaw, place: Placement, flags: seq<bool>, apicBase: nat, a: nat)
    requires ps.Valid() && Placed(place) && ps.SplitAt(place, Region(apicBase), flags)
    requires apicBase < SIZE_256TB && apicBase % 0x1000 == 0 && apicBase <= a < apicBase + 0x1000
    ensures (WalkAddress(ps, place, a).Translation? && WalkAddress(ps, place, a).address == a) <==>
            (apicBase % 0x20_0000 == 0 && apicBase < SIZE_512GB)
    ensures apicBase < SIZE_512GB ==>
              && WalkAddress(ps, place, a).Translation?
              && WalkAddress(ps, place, a).writable == flags[ApicIndex(apicBase)]
  {
    SamePage(apicBase, a);
    if apicBase < SIZE_512GB {
      InsideSplit(ps, place, Region(apicBase), flags, a);
      SplitKeepsOnlyFirstPage(ps, place, Region(apicBase), flags, a);
    } else {
      WalkAbove(ps, place, true, Some(Region(apicBase)), a);
    }
  }

  /** `SharedGuestData::new` and then any toggles of the interception, with a fixed APIC base. */
  method BuildNested(apicBaseRaw: nat, toggles: seq<bool>, place: Placement)
    returns (ps: PagingStructuresRaw, ok: bool)
    requires Placed(place)
    ensures fresh(ps) && ps.Valid()
    ensures ok <==> apicBaseRaw / 0x400 % 2 == 0 && apicBaseRaw / 0x800 % 2 == 1
    // The region is that of bits 38:21 of the base, and the entry toggled that of bits 20:12.
    ensures ok ==> forall a: nat | a < SIZE_256TB && a / 0x20_0000 != apicBaseRaw / 0x20_0000 % 0x4_0000 ::
              WalkAddress(ps, place, a) ==
              if a >= 0x80_0000_0000 then Fault else Translation(a, true, true, 0x20_0000)
    ensures ok ==> forall a: nat | a / 0x20_0000 == apicBaseRaw / 0x20_0000 % 0x4_0000 ::
              WalkAddress(ps, place, a) ==
              Translation(a / 0x20_0000 * 0x20_0000 + a / 0x1000 % 512 * 0x100_0000 + a % 0x1000,
                          toggles == [] || a / 0x1000 % 512 != apicBaseRaw / 0x1000 % 512
                          || !toggles[|toggles| - 1],
                          true, 0x1000)
  {
    ps := new PagingStructuresRaw();
    ps.BuildIdentity(true, place);
    ok := ps.SplitApicPage(apicBaseRaw, place);
    if ok {
      ghost var n, all := Region(apicBaseRaw), seq(512, _ => true);
      ps.Toggle(apicBaseRaw, toggles, place, n, all);
      ghost var flags := if toggles == [] then all else all[ApicIndex(apicBaseRaw) := !toggles[|toggles| - 1]];
      forall a: nat | a < SIZE_256TB && a / 0x20_0000 != n
        ensures WalkAddress(ps, place, a) == if a >= SIZE_512GB then Fault else Translation(a, true, true, SIZE_2MB)
      {
        OutsideSplitUnchanged(ps, place, n, flags, a);
      }
      forall a: nat | a / 0x20_0000 == n
        ensures WalkAddress(ps, place, a) ==
                Translation(n * 0x20_0000 + ApicIndex(a) * 0x100_0000 + a % 0x1000, flags[ApicIndex(a)], true, 0x1000)
      {
        InsideSplit(ps, place, n, flags, a);
      }
    }
  }
}
