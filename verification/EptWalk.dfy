/**
 The hardware walk of the extended page tables (section 29.3.2 of the Intel SDM Vol. 3C) and what
 it returns on the tables that `build_identity` leaves.
 */
module EptWalk {
  import opened Option
  import opened Bits
  import opened BitFields
  import opened MemoryRanges
  import opened Mtrr
  import opened Paging
  import opened Epts

  // ---------------------------------------------------------------- the walk

  /** Permissions are those of every level used, the type and the size those of the leaf. */
  datatype Walk =
    | Violation
    | Misconfiguration
    | Translation(hpa: nat, readable: bool, writable: bool, executable: bool, memoryType: nat, pageSize: nat)
  {
    function Under(e: Entry): Walk {
      match this
      case Violation => Violation
      case Misconfiguration => Misconfiguration
      case Translation(hpa, r, w, x, t, s) =>
        Translation(hpa, r && e.readable, w && e.writable, x && e.executable, t, s)
    }
  }

  /** The entry the hardware reads from the table page at `address`. */
  ghost function EntryAt(e: Epts, place: Placement, address: nat, index: nat): Option<Entry>
    requires e.Valid() && index < 512
    reads e.pml4, e.pdpt, e.pd, e.pt
  {
    match TableAt(place, address)
    case None => None
    case Some(t) =>
      match t
      case Pml4 => Some(e.pml4[index])
      case Pdpt(i) => Some(e.pdpt[i, index])
      case Pd(i) => Some(e.pd[i, index])
      case Pt => Some(e.pt[index])
  }

  ghost function WalkFrom(e: Epts, place: Placement, level: nat, address: nat, gpa: nat): Walk
    requires e.Valid() && 1 <= level <= 4
    reads e.pml4, e.pdpt, e.pd, e.pt
    decreases level
  {
    var entry := EntryAt(e, place, address, Index(level, gpa));
    if entry.None? || !entry.value.Present() then Violation
    else WalkEntry(e, place, level, entry.value, gpa)
  }

  /** Section 29.3.3.1: the types that a leaf must not have. */
  predicate ReservedType(code: nat) { code == 2 || code == 3 || code >= 7 }

  /**
   A leaf, or the walk of the next table. A writable entry that is not readable, a reserved bit or
   frame bit that is set, and a reserved memory type are misconfigurations.
   */
  ghost function WalkEntry(e: Epts, place: Placement, level: nat, entry: Entry, gpa: nat): Walk
    requires e.Valid() && 1 <= level <= 4
    reads e.pml4, e.pdpt, e.pd, e.pt
    decreases level, 0
  {
    if entry.writable && !entry.readable then Misconfiguration
    else if level == 1 || (entry.large && level < 4) then
      if entry.pfn * 0x1000 % Span(level) != 0 || ReservedType(entry.memoryType) then Misconfiguration
      else
        Translation(entry.pfn * 0x1000 + gpa % Span(level),
                    entry.readable, entry.writable, entry.executable, entry.memoryType, Span(level))
    else if entry.large || entry.memoryType != 0 then Misconfiguration
    else WalkFrom(e, place, level - 1, entry.pfn * 0x1000, gpa).Under(entry)
  }

  /** `eptp`: a zero word on which the source calls three setters. */
  function Eptp(root: nat): nat {
    var eptp := SetField(0, 12, 40, root / 0x1000);
    var eptp := SetField(eptp, 0, 3, WriteBack.Code());
    SetField(eptp, 3, 3, 3)
  }

  /** The walk starts at the frame in the EPT pointer and has one level more than its length field. */
  ghost function WalkGuestAddress(e: Epts, place: Placement, eptp: nat, gpa: nat): Walk
    requires e.Valid() && Field(eptp, 3, 3) == 3
    reads e.pml4, e.pdpt, e.pd, e.pt
  {
    WalkFrom(e, place, Field(eptp, 3, 3) + 1, Field(eptp, 12, 40) * 0x1000, gpa)
  }

  /** The pointer carries write-back, a walk length of four and the frame of the root, and nothing else. */
  lemma EptpFields(root: nat)
    requires root % 0x1000 == 0 && root < 0x10_0000_0000_0000
    ensures Field(Eptp(root), 0, 3) == WriteBack.Code() && Field(Eptp(root), 3, 3) == 3
    ensures Field(Eptp(root), 12, 40) * 0x1000 == root
    ensures Field(Eptp(root), 6, 6) == 0 && Field(Eptp(root), 52, 12) == 0
  {
    var pfn := root / 0x1000;
    assert pfn * 0x1000 == root;
    ThreeSets(0, 12, 40, pfn, 0, 3, WriteBack.Code(), 3, 3, 3, 6, 6);
    ThreeSets(0, 12, 40, pfn, 0, 3, WriteBack.Code(), 3, 3, 3, 52, 12);
    FieldOfZero(6, 6);
    FieldOfZero(52, 12);
    PowersOfFields();
    LowValue(pfn, 40);
    LowValue(WriteBack.Code(), 3);
    LowValue(3, 3);
  }

  lemma LowValue(x: nat, width: nat)
    requires x < Pow2(width)
    ensures Field(x, 0, width) == x
  {
    LowBits(x, width);
    DivModUnique(x, Pow2(width), 0, x);
  }

  // ---------------------------------------------------------------- the identity

  /** The answer of the query that was made for the leaf of `gpa`. */
  function LeafType(mtrr: Mtrr, gpa: nat): MemoryType
    requires gpa < SIZE_256TB
  {
    var answer :=
      if gpa < SIZE_2MB then mtrr.Lookup(PageQuery(gpa / 0x1000))
      else if gpa < SIZE_512GB then mtrr.Lookup(LargeQuery(gpa / 0x20_0000))
      else mtrr.Lookup(HugeQuery(gpa / 0x80_0000_0000, gpa / 0x4000_0000 % 512));
    answer.GetOr(Uncachable)
  }

  function LeafSize(gpa: nat): nat {
    if gpa < SIZE_2MB then 0x1000 else if gpa < SIZE_512GB then 0x20_0000 else 0x4000_0000
  }

  /**
   The identity with full permissions and the type `t`. The one memory type that the code can name
   and a leaf must not have, the encoding 7, is a misconfiguration.
   */
  function LeafWalk(t: MemoryType, gpa: nat, size: nat): Walk {
    if t == UncachableMinus then Misconfiguration else Translation(gpa, true, true, true, t.Code(), size)
  }

  lemma EntryOfTable(e: Epts, place: Placement, t: TableId, index: nat)
    requires e.Valid() && Placed(place) && index < 512
    ensures EntryAt(e, place, Link(place(t)).pfn * 0x1000, index) == EntryAt(e, place, place(t), index)
    ensures EntryAt(e, place, place(t), index) ==
            Some(match t
                 case Pml4 => e.pml4[index]
                 case Pdpt(i) => e.pdpt[i, index]
                 case Pd(i) => e.pd[i, index]
                 case Pt => e.pt[index])
  {
    TableAtPlacement(place, t);
    assert place(t) / 0x1000 * 0x1000 == place(t);
  }

  lemma FrameArithmetic(gpa: nat)
    ensures gpa / 0x20_0000 * 0x200 * 0x1000 == gpa / 0x20_0000 * 0x20_0000
    ensures gpa / 0x20_0000 * 0x20_0000 % 0x20_0000 == 0
    ensures gpa / 0x4000_0000 * 0x4_0000 * 0x1000 == gpa / 0x4000_0000 * 0x4000_0000
    ensures gpa / 0x4000_0000 * 0x4000_0000 % 0x4000_0000 == 0
  {
    var n, m := gpa / 0x20_0000, gpa / 0x4000_0000;
    assert n * 0x200 * 0x1000 == n * 0x20_0000;
    assert m * 0x4_0000 * 0x1000 == m * 0x4000_0000;
  }

  /** What a leaf entry carries for its level. */
  function LeafFrame(level: nat, gpa: nat): nat
    requires 1 <= level <= 3
  {
    match level
    case 1 => gpa / 0x1000
    case 2 => gpa / 0x20_0000 * 0x200
    case 3 => gpa / 0x4000_0000 * 0x4_0000
  }

  /** A leaf with the frame number of the address's own page, large page or huge page. */
  lemma LeafMapsToItself(e: Epts, place: Placement, level: nat, t: MemoryType, gpa: nat)
    requires e.Valid() && 1 <= level <= 3
    ensures WalkEntry(e, place, level, Leaf(t, level > 1, LeafFrame(level, gpa)), gpa) ==
            LeafWalk(t, gpa, Span(level))
  {
    FrameArithmetic(gpa);
  }

  lemma WalkFirst2MB(e: Epts, mtrr: Mtrr, place: Placement, gpa: nat)
    requires e.Valid() && Placed(place) && gpa < SIZE_2MB
    requires FirstPagesResolve(mtrr) && HugeQueriesResolve(mtrr) && e.Built(mtrr, place)
    ensures WalkFrom(e, place, 2, place(Pd(0)), gpa) ==
            LeafWalk(LeafType(mtrr, gpa), gpa, 0x1000)
  {
    var k := gpa / 0x1000;
    assert Index(2, gpa) == 0 && Index(1, gpa) == k;
    EntryOfTable(e, place, Pd(0), 0);
    EntryOfTable(e, place, Pt, k);
    assert e.pd[0, 0] == Link(place(Pt));
    assert e.pt[k] == PtEntry(mtrr, k);
    LeafMapsToItself(e, place, 1, LeafType(mtrr, gpa), gpa);
    assert WalkFrom(e, place, 1, Link(place(Pt)).pfn * 0x1000, gpa) == WalkEntry(e, place, 1, e.pt[k], gpa);
    assert WalkFrom(e, place, 2, place(Pd(0)), gpa) == WalkEntry(e, place, 2, e.pd[0, 0], gpa);
  }

  lemma WalkLarge(e: Epts, mtrr: Mtrr, place: Placement, gpa: nat)
    requires e.Valid() && Placed(place) && SIZE_2MB <= gpa < SIZE_512GB
    requires FirstPagesResolve(mtrr) && HugeQueriesResolve(mtrr) && e.Built(mtrr, place)
    ensures WalkFrom(e, place, 2, place(Pd(Index(3, gpa))), gpa) ==
            LeafWalk(LeafType(mtrr, gpa), gpa, 0x20_0000)
  {
    var i, j := Index(3, gpa), Index(2, gpa);
    assert gpa / 0x20_0000 == 512 * i + j;
    EntryOfTable(e, place, Pd(i), j);
    assert e.pd[i, j] == PdEntry(mtrr, place, i, j);
    LeafMapsToItself(e, place, 2, LeafType(mtrr, gpa), gpa);
    assert WalkFrom(e, place, 2, place(Pd(i)), gpa) == WalkEntry(e, place, 2, e.pd[i, j], gpa);
  }

  lemma WalkFirst512GB(e: Epts, mtrr: Mtrr, place: Placement, gpa: nat)
    requires e.Valid() && Placed(place) && gpa < SIZE_512GB
    requires FirstPagesResolve(mtrr) && HugeQueriesResolve(mtrr) && e.Built(mtrr, place)
    ensures WalkFrom(e, place, 3, place(Pdpt(0)), gpa) ==
            LeafWalk(LeafType(mtrr, gpa), gpa, LeafSize(gpa))
  {
    var i := Index(3, gpa);
    EntryOfTable(e, place, Pdpt(0), i);
    EntryOfTable(e, place, Pd(i), Index(2, gpa));
    assert e.pdpt[0, i] == PdptEntry(mtrr, place, 0, i) == Link(place(Pd(i)));
    assert WalkFrom(e, place, 3, place(Pdpt(0)), gpa) == WalkEntry(e, place, 3, e.pdpt[0, i], gpa);
    assert WalkFrom(e, place, 2, e.pdpt[0, i].pfn * 0x1000, gpa) == WalkFrom(e, place, 2, place(Pd(i)), gpa);
    if gpa < SIZE_2MB {
      WalkFirst2MB(e, mtrr, place, gpa);
    } else {
      WalkLarge(e, mtrr, place, gpa);
    }
  }

  lemma WalkAbove512GB(e: Epts, mtrr: Mtrr, place: Placement, gpa: nat)
    requires e.Valid() && Placed(place) && SIZE_512GB <= gpa < SIZE_256TB
    requires FirstPagesResolve(mtrr) && HugeQueriesResolve(mtrr) && e.Built(mtrr, place)
    ensures WalkFrom(e, place, 3, place(Pdpt(gpa / 0x80_0000_0000)), gpa) ==
            LeafWalk(LeafType(mtrr, gpa), gpa, LeafSize(gpa))
  {
    var p, i := gpa / 0x80_0000_0000, Index(3, gpa);
    EntryOfTable(e, place, Pdpt(p), i);
    assert gpa / 0x4000_0000 == 512 * p + i;
    assert e.pdpt[p, i] == PdptEntry(mtrr, place, p, i);
    LeafMapsToItself(e, place, 3, LeafType(mtrr, gpa), gpa);
    assert WalkFrom(e, place, 3, place(Pdpt(p)), gpa) == WalkEntry(e, place, 3, e.pdpt[p, i], gpa);
  }

  /**
   The walk of every 48-bit guest-physical address ends at a readable, writable, executable leaf
   that maps the address to itself with the type of the query made for that leaf, unless that type
   is the reserved one.
   */
  lemma WalkIsIdentity(e: Epts, mtrr: Mtrr, place: Placement, gpa: nat)
    requires e.Valid() && Placed(place) && gpa < SIZE_256TB
    requires FirstPagesResolve(mtrr) && HugeQueriesResolve(mtrr) && e.Built(mtrr, place)
    ensures Field(Eptp(place(Pml4)), 3, 3) == 3
    ensures WalkGuestAddress(e, place, Eptp(place(Pml4)), gpa) ==
            LeafWalk(LeafType(mtrr, gpa), gpa, LeafSize(gpa))
  {
    var p := gpa / 0x80_0000_0000;
    EptpFields(place(Pml4));
    assert Index(4, gpa) == p;
    EntryOfTable(e, place, Pml4, p);
    EntryOfTable(e, place, Pdpt(p), Index(3, gpa));
    assert e.pml4[p] == Link(place(Pdpt(p)));
    assert WalkFrom(e, place, 4, place(Pml4), gpa) == WalkEntry(e, place, 4, e.pml4[p], gpa);
    assert WalkFrom(e, place, 3, e.pml4[p].pfn * 0x1000, gpa) == WalkFrom(e, place, 3, place(Pdpt(p)), gpa);
    if gpa < SIZE_512GB {
      WalkFirst512GB(e, mtrr, place, gpa);
    } else {
      WalkAbove512GB(e, mtrr, place, gpa);
    }
  }
}
