/**
 When the build of the extended page tables panics, and when the type of a leaf is the type that the
 MTRR registers give to the addresses it maps
 (src/hvcore/src/hypervisor/intel/epts.rs, src/hvcore/src/hypervisor/intel/mtrr.rs).
 */
module EptTypes {
  import opened Option
  import opened Bits
  import opened BitFields
  import opened MemoryRanges
  import opened Mtrr
  import opened Paging
  import opened Epts
  import opened EptWalk
  import opened VariableMtrrProperties
  import opened FixedMtrrProperties

  // ---------------------------------------------------------------- the type of an address

  /** The type that the MTRR registers give to address `a`. */
  ghost function TypeAt(raw: RawMtrrs, a: nat): MemoryType
    requires raw.Decodes()
  {
    if a < ONE_MB then FixedTypeAt(raw.fixed, a)
    else Resolve(PageTypes(raw.variable, a), raw.defaultMemoryType)
  }

  /** All addresses of a page have the type of its first one. */
  lemma TypeConstantOnPage(raw: RawMtrrs, p: nat, a: nat)
    requires raw.Decodes() && p % 0x1000 == 0 && PageAt(p).Contains(a)
    ensures TypeAt(raw, a) == TypeAt(raw, p)
  {
    if p < ONE_MB {
      SamePageSameSubRange(p, a);
    } else {
      var rs := VariableRanges(raw.variable);
      VariableRangesShape(raw.variable);
      forall b: nat | b % 0x1000 == 0 ensures !(p < b < p + 0x1000) {
        assert p == p / 0x1000 * 0x1000 && b == b / 0x1000 * 0x1000;
      }
      assert BoundariesAgree(rs, raw.defaultMemoryType, PageAt(p));
      AgreementSpreads(rs, raw.defaultMemoryType, PageAt(p), a);
    }
  }

  /** Every 4KB query is answered with the type of its page. */
  lemma PageQueryAnswered(raw: RawMtrrs, k: nat)
    requires raw.Decodes()
    ensures Decoded(raw).Lookup(PageQuery(k)) == Some(TypeAt(raw, k * 0x1000))
  {
    var p := k * 0x1000;
    if p < ONE_MB {
      FixedPageAnswered(raw, p);
    } else {
      PageAnswerFromRegisters(raw.variable, raw.defaultMemoryType, p);
    }
  }

  /** The panic of the 4KB pass is unreachable. */
  lemma FirstPagesAlwaysResolve(raw: RawMtrrs)
    requires raw.Decodes()
    ensures FirstPagesResolve(Decoded(raw))
  {
    forall k: nat | k < 512 ensures Decoded(raw).Lookup(PageQuery(k)).Some? {
      PageQueryAnswered(raw, k);
    }
  }

  /** An answer above 1MB is the type of the first address of the query. */
  lemma AnswerIsTypeOfStart(raw: RawMtrrs, query: Range)
    requires raw.Decodes() && query.NonEmpty() && query.start >= ONE_MB
    requires Decoded(raw).Lookup(query).Some?
    ensures Decoded(raw).Lookup(query).value == TypeAt(raw, query.start)
  {
    VariableRangesShape(raw.variable);
    MergingKeepsCover(VariableRanges(raw.variable), query.start);
  }

  /**
   An answer to a query of any size above 1MB is the type of each of its addresses iff the starts and
   ends of the registers' ranges strictly inside the query resolve as its first address does.
   */
  lemma AnswerTypesWholeQuery(raw: RawMtrrs, query: Range)
    requires raw.Decodes() && query.NonEmpty() && query.start >= ONE_MB
    requires Decoded(raw).Lookup(query).Some?
    ensures (forall a: nat | query.Contains(a) :: TypeAt(raw, a) == Decoded(raw).Lookup(query).value) <==>
            BoundariesAgree(VariableRanges(raw.variable), raw.defaultMemoryType, query)
  {
    AnswerIsTypeOfStart(raw, query);
    TypedExactly(raw, query, Decoded(raw).Lookup(query).value);
  }

  /** The same of any type and any region above 1MB. */
  lemma TypedExactly(raw: RawMtrrs, region: Range, t: MemoryType)
    requires raw.Decodes() && region.NonEmpty() && region.start >= ONE_MB
    ensures (forall a: nat | region.Contains(a) :: TypeAt(raw, a) == t) <==>
            TypeAt(raw, region.start) == t
            && BoundariesAgree(VariableRanges(raw.variable), raw.defaultMemoryType, region)
  {
    var rs := VariableRanges(raw.variable);
    UniformExactly(rs, raw.defaultMemoryType, region, t);
    assert forall a: nat | region.Contains(a) :: TypeAt(raw, a) == Resolve(Cover(rs, a), raw.defaultMemoryType);
  }

  // ---------------------------------------------------------------- the panic of the 1GB pass

  /** No range reaches so far that it could contain the last 512GB window. */
  const LAST_WINDOW_END := 0x1_007f_c000_0000

  ghost predicate AllEndBelow(rs: seq<MemoryTypeRange>, top: nat) {
    forall i | 0 <= i < |rs| :: rs[i].range.end < top
  }

  /** A multiple of 1GB from 512GB up to 256TB. */
  predicate WindowBoundary(a: nat) { 0x80_0000_0000 <= a < 0x1_0000_0000_0000 && a % 0x4000_0000 == 0 }

  ghost predicate FreeRange(r: Range) { forall a: nat | WindowBoundary(a) :: !r.Contains(a) }

  /** Those multiples are the starts of the windows that the 1GB pass asks about. */
  lemma WindowStart(p: nat, k: nat)
    requires 1 <= p < 512 && k < 512
    ensures WindowBoundary(HugeQuery(p, k).start)
  {
    var n := 512 * p + k;
    assert n * 0x4000_0000 % 0x4000_0000 == 0;
  }

  lemma WindowAt(a: nat) returns (p: nat, k: nat)
    requires WindowBoundary(a)
    ensures 1 <= p < 512 && k < 512 && a == HugeQuery(p, k).start
  {
    var n := a / 0x4000_0000;
    p, k := n / 512, n % 512;
    assert 512 * p + k == n && n * 0x4000_0000 == a;
  }

  ghost predicate FreeOfBoundaries(rs: seq<MemoryTypeRange>) {
    forall i | 0 <= i < |rs| :: FreeRange(rs[i].range)
  }

  lemma {:induction false} CombineAllEndBelow(rs: seq<MemoryTypeRange>, top: nat)
    requires AllEndBelow(rs, top)
    ensures AllEndBelow(CombineAll(rs), top)
  {
    if rs != [] { CombineAllEndBelow(rs[..|rs| - 1], top); }
  }

  lemma {:induction false} CoveredSomewhere(rs: seq<MemoryTypeRange>, a: nat)
    ensures Cover(rs, a) == [] <==> forall i | 0 <= i < |rs| :: !rs[i].range.Contains(a)
  {
    if rs != [] {
      var n := |rs| - 1;
      CoveredSomewhere(rs[..n], a);
      assert forall i | 0 <= i < n :: rs[..n][i] == rs[i];
    }
  }

  /** A range that contains such a multiple straddles the window that starts at its last one. */
  lemma LastBoundary(r: Range, p: nat, k: nat) returns (p': nat, k': nat)
    requires 1 <= p < 512 && k < 512 && r.Contains(HugeQuery(p, k).start) && r.end < LAST_WINDOW_END
    ensures 1 <= p' < 512 && k' < 512 && Straddles(r, HugeQuery(p', k'))
  {
    var last := (r.end - 1) / 0x4000_0000;
    assert last >= 512 * p + k;
    var m := if last < 0x4_0000 then last else 0x3_ffff;
    p', k' := m / 512, m % 512;
    assert 512 * p' + k' == m;
  }

  lemma FreeOfBoundariesSnoc(rs: seq<MemoryTypeRange>)
    requires rs != []
    ensures FreeOfBoundaries(rs) <==> FreeOfBoundaries(rs[..|rs| - 1]) && FreeRange(rs[|rs| - 1].range)
  {
    assert forall i | 0 <= i < |rs| - 1 :: rs[..|rs| - 1][i] == rs[i];
  }

  /** The first such range of the list blocks a window, whatever its type. */
  lemma {:induction false} BoundaryBlocks(rs: seq<MemoryTypeRange>) returns (p: nat, k: nat)
    requires AllEndBelow(rs, LAST_WINDOW_END) && !FreeOfBoundaries(rs)
    ensures 1 <= p < 512 && k < 512 && Blocked(rs, HugeQuery(p, k))
  {
    var n := |rs| - 1;
    if FreeOfBoundaries(rs[..n]) {
      FreeOfBoundariesSnoc(rs);
      var a: nat :| WindowBoundary(a) && rs[n].range.Contains(a);
      var p0, k0 := WindowAt(a);
      p, k := LastBoundary(rs[n].range, p0, k0);
      WindowStart(p, k);
      CoverEmptyOutside(rs[..n], HugeQuery(p, k).start);
    } else {
      p, k := BoundaryBlocks(rs[..n]);
    }
  }

  lemma UncoveredWindow(rs: seq<MemoryTypeRange>, p: nat, k: nat)
    requires FreeOfBoundaries(rs) && 1 <= p < 512 && k < 512
    ensures !Blocked(rs, HugeQuery(p, k)) && Cover(rs, HugeQuery(p, k).start) == []
  {
    WindowStart(p, k);
    CoverEmptyOutside(rs, HugeQuery(p, k).start);
    UncoveredNotBlocked(rs, HugeQuery(p, k));
  }

  /** The 1GB pass goes through iff no merged range contains a multiple of 1GB from 512GB up to 256TB. */
  lemma HugePassExactly(mtrr: Mtrr)
    requires AllEndBelow(mtrr.variable, LAST_WINDOW_END)
    ensures HugeQueriesResolve(mtrr) <==> FreeOfBoundaries(mtrr.variable)
  {
    if FreeOfBoundaries(mtrr.variable) {
      forall p: nat, k: nat | 1 <= p < 512 && k < 512 ensures mtrr.Lookup(HugeQuery(p, k)).Some? {
        UncoveredWindow(mtrr.variable, p, k);
      }
    } else {
      var p, k := BoundaryBlocks(mtrr.variable);
      assert mtrr.Lookup(HugeQuery(p, k)).None?;
    }
  }

  lemma FreeByCover(rs: seq<MemoryTypeRange>)
    ensures FreeOfBoundaries(rs) <==> forall a: nat | WindowBoundary(a) :: Cover(rs, a) == []
  {
    forall a: nat | WindowBoundary(a)
      ensures Cover(rs, a) == [] <==> forall i | 0 <= i < |rs| :: !rs[i].range.Contains(a)
    {
      CoveredSomewhere(rs, a);
    }
    if FreeOfBoundaries(rs) {
      forall a: nat | WindowBoundary(a) ensures Cover(rs, a) == [] {
        assert forall i | 0 <= i < |rs| :: FreeRange(rs[i].range);
      }
    } else {
      var i :| 0 <= i < |rs| && !FreeRange(rs[i].range);
      var a: nat :| WindowBoundary(a) && rs[i].range.Contains(a);
      assert Cover(rs, a) != [];
    }
  }

  lemma MergingKeepsBoundaries(rs: seq<MemoryTypeRange>)
    requires AllNonEmpty(rs)
    ensures FreeOfBoundaries(CombineAll(rs)) <==> FreeOfBoundaries(rs)
  {
    FreeByCover(rs);
    FreeByCover(CombineAll(rs));
    forall a: nat | WindowBoundary(a) ensures Cover(CombineAll(rs), a) == Cover(rs, a) {
      MergingKeepsCover(rs, a);
    }
  }

  /** The same over the registers: the build panics iff some register's range contains such a multiple. */
  lemma BuildPanicsExactly(raw: RawMtrrs)
    requires raw.Decodes() && AllEndBelow(VariableRanges(raw.variable), LAST_WINDOW_END)
    ensures HugeQueriesResolve(Decoded(raw)) <==> FreeOfBoundaries(VariableRanges(raw.variable))
  {
    var rs := VariableRanges(raw.variable);
    VariableRangesShape(raw.variable);
    CombineAllEndBelow(rs, LAST_WINDOW_END);
    HugePassExactly(Decoded(raw));
    MergingKeepsBoundaries(rs);
  }

  /** Without such a range every query of the 1GB pass is answered with the default type. */
  lemma HugeQueryAnswered(raw: RawMtrrs, p: nat, k: nat)
    requires raw.Decodes() && FreeOfBoundaries(VariableRanges(raw.variable)) && 1 <= p < 512 && k < 512
    ensures Decoded(raw).Lookup(HugeQuery(p, k)) == Some(raw.defaultMemoryType)
  {
    var rs := VariableRanges(raw.variable);
    VariableRangesShape(raw.variable);
    MergingKeepsBoundaries(rs);
    UncoveredWindow(CombineAll(rs), p, k);
  }

  /** Uncachable [512GB, 513GB). */
  const UNCACHABLE_AT_512GB := RawVariableMtrr(0x80_0000_0000, 0xff_c000_0800)

  /** One such register panics the build, although an uncachable type would be right for its leaf. */
  lemma UncachableRangePanicsTheBuild(raw: RawMtrrs)
    requires raw.Decodes() && raw.variable == [UNCACHABLE_AT_512GB]
    ensures !HugeQueriesResolve(Decoded(raw))
  {
    var r := UNCACHABLE_AT_512GB;
    Pow2Values();
    SizeOfShiftedMask(r, 0x3ff, 18);
    VariableRangesSnoc([], r);
    assert [] + [r] == [r];
    assert VariableRanges([r]) == [MemoryTypeRange(Uncachable, Range(0x80_0000_0000, 0x80_4000_0000))];
    assert WindowBoundary(0x80_0000_0000) && VariableRanges([r])[0].range.Contains(0x80_0000_0000);
    BuildPanicsExactly(raw);
  }

  // ---------------------------------------------------------------- when a leaf is exact

  /** The region that the leaf of `gpa` maps. */
  function LeafRange(gpa: nat): (r: Range)
    ensures r.NonEmpty() && r.Contains(gpa)
  {
    if gpa < SIZE_2MB then PageAt(gpa / 0x1000 * 0x1000)
    else if gpa < SIZE_512GB then Range(gpa / 0x20_0000 * 0x20_0000, gpa / 0x20_0000 * 0x20_0000 + 0x20_0000)
    else Range(gpa / 0x4000_0000 * 0x4000_0000, gpa / 0x4000_0000 * 0x4000_0000 + 0x4000_0000)
  }

  lemma SameLeaf(gpa: nat, a: nat)
    requires SIZE_2MB <= gpa < SIZE_256TB && LeafRange(gpa).Contains(a)
    ensures SIZE_2MB <= a < SIZE_256TB && LeafRange(a) == LeafRange(gpa)
    ensures gpa / 0x80_0000_0000 == a / 0x80_0000_0000 || a < SIZE_512GB
    ensures forall mtrr: Mtrr :: LeafType(mtrr, a) == LeafType(mtrr, gpa)
  {
    if gpa < SIZE_512GB {
      assert a / 0x20_0000 == gpa / 0x20_0000;
    } else {
      var n := gpa / 0x4000_0000;
      assert a / 0x4000_0000 == n;
      assert a / 0x80_0000_0000 == n / 512 && gpa / 0x80_0000_0000 == n / 512;
    }
  }

  /** The query that `build_identity` made for the leaf of `gpa`. */
  function LeafQuery(gpa: nat): (q: Range)
    requires SIZE_2MB <= gpa < SIZE_256TB
    ensures q.NonEmpty()
  {
    if gpa < SIZE_512GB then LargeQuery(gpa / 0x20_0000)
    else HugeQuery(gpa / 0x80_0000_0000, gpa / 0x4000_0000 % 512)
  }

  lemma LeafQueryStart(gpa: nat)
    requires SIZE_2MB <= gpa < SIZE_256TB
    ensures LeafQuery(gpa).start == LeafRange(gpa).start >= SIZE_2MB
  {
    if gpa >= SIZE_512GB {
      var n := gpa / 0x4000_0000;
      assert gpa / 0x80_0000_0000 == n / 512;
      assert 512 * (n / 512) + n % 512 == n;
    }
  }

  /**
   What a caller can test of one leaf above 2MB: its query was answered, or its first address is
   uncachable; and the ranges' starts and ends strictly inside it resolve as its first address does.
   */
  ghost predicate LeafFits(raw: RawMtrrs, gpa: nat)
    requires raw.Decodes() && SIZE_2MB <= gpa < SIZE_256TB
  {
    && (Decoded(raw).Lookup(LeafQuery(gpa)).Some? || TypeAt(raw, LeafRange(gpa).start) == Uncachable)
    && BoundariesAgree(VariableRanges(raw.variable), raw.defaultMemoryType, LeafRange(gpa))
  }

  /** A leaf above 2MB has the type of every address it maps iff it passes the test. */
  lemma LeafExactly(raw: RawMtrrs, gpa: nat)
    requires raw.Decodes() && SIZE_2MB <= gpa < SIZE_256TB
    ensures (forall a: nat | LeafRange(gpa).Contains(a) :: TypeAt(raw, a) == LeafType(Decoded(raw), gpa)) <==>
            LeafFits(raw, gpa)
  {
    LeafQueryStart(gpa);
    TypedExactly(raw, LeafRange(gpa), LeafType(Decoded(raw), gpa));
    if Decoded(raw).Lookup(LeafQuery(gpa)).Some? {
      AnswerIsTypeOfStart(raw, LeafQuery(gpa));
    }
  }

  lemma FirstLeavesExact(raw: RawMtrrs, gpa: nat)
    requires raw.Decodes() && gpa < SIZE_2MB
    ensures LeafType(Decoded(raw), gpa) == TypeAt(raw, gpa)
  {
    PageQueryAnswered(raw, gpa / 0x1000);
    TypeConstantOnPage(raw, gpa / 0x1000 * 0x1000, gpa);
  }

  /** Every address of 48 bits has the type of its leaf iff all leaves above 2MB pass the test. */
  lemma AllLeavesExactly(raw: RawMtrrs)
    requires raw.Decodes()
    ensures (forall gpa: nat | gpa < SIZE_256TB :: LeafType(Decoded(raw), gpa) == TypeAt(raw, gpa)) <==>
            (forall gpa: nat | SIZE_2MB <= gpa < SIZE_256TB :: LeafFits(raw, gpa))
  {
    if forall gpa: nat | gpa < SIZE_256TB :: LeafType(Decoded(raw), gpa) == TypeAt(raw, gpa) {
      forall gpa: nat | SIZE_2MB <= gpa < SIZE_256TB ensures LeafFits(raw, gpa) {
        forall a: nat | LeafRange(gpa).Contains(a) ensures TypeAt(raw, a) == LeafType(Decoded(raw), gpa) {
          SameLeaf(gpa, a);
        }
        LeafExactly(raw, gpa);
      }
    }
    if forall gpa: nat | SIZE_2MB <= gpa < SIZE_256TB :: LeafFits(raw, gpa) {
      forall gpa: nat | gpa < SIZE_256TB ensures LeafType(Decoded(raw), gpa) == TypeAt(raw, gpa) {
        if gpa < SIZE_2MB {
          FirstLeavesExact(raw, gpa);
        } else {
          LeafExactly(raw, gpa);
          assert LeafRange(gpa).Contains(gpa);
        }
      }
    }
  }

  /** A range that holds the first byte of [start, end), ends inside, and has no uncachable one before it there. */
  ghost predicate EndsInside(rs: seq<MemoryTypeRange>, start: nat, end: nat) {
    exists i | 0 <= i < |rs| :: rs[i].range.start <= start < rs[i].range.end < end && NoUncachableBefore(rs, i, start)
  }

  /**
   A 2MB leaf is uncachable when some merged range holds its first byte but ends inside the leaf, and
   otherwise has the type that its first byte resolves to.
   */
  lemma LargeLeafType(mtrr: Mtrr, gpa: nat)
    requires 0x20_0000 <= gpa < 0x80_0000_0000
    ensures var start := gpa / 0x20_0000 * 0x20_0000;
            LeafType(mtrr, gpa) == if EndsInside(mtrr.variable, start, start + 0x20_0000) then Uncachable
                                   else Resolve(Cover(mtrr.variable, start), mtrr.defaultMemoryType)
  {
    RefusedExactly(mtrr.variable, mtrr.defaultMemoryType, LargeQuery(gpa / 0x20_0000));
  }

  /** After a build that did not panic, a 1GB leaf has the type that its first byte resolves to. */
  lemma HugeLeafType(mtrr: Mtrr, gpa: nat)
    requires 0x80_0000_0000 <= gpa < 0x1_0000_0000_0000 && HugeQueriesResolve(mtrr)
    ensures LeafType(mtrr, gpa) ==
            Resolve(Cover(mtrr.variable, gpa / 0x4000_0000 * 0x4000_0000), mtrr.defaultMemoryType)
  {
    var n := gpa / 0x4000_0000;
    assert gpa / 0x80_0000_0000 == n / 512;
    assert HugeQuery(n / 512, n % 512).start == n * 0x4000_0000 by { assert 512 * (n / 512) + n % 512 == n; }
  }

  /** Uncachable [3MB, 4MB). */
  const UNCACHABLE_AT_3MB := RawVariableMtrr(0x30_0000, 0xf_fff0_0800)

  /** With one such register the 2MB leaf at 2MB is write-back although half of it is uncachable. */
  lemma UncachableRangeOverlooked(raw: RawMtrrs)
    requires raw.Decodes() && raw.variable == [UNCACHABLE_AT_3MB] && raw.defaultMemoryType == WriteBack
    ensures LeafType(Decoded(raw), 0x20_0000) == WriteBack == TypeAt(raw, 0x20_0000)
    ensures LeafRange(0x20_0000).Contains(0x30_0000) && TypeAt(raw, 0x30_0000) == Uncachable
  {
    var r := UNCACHABLE_AT_3MB;
    var rs := [MemoryTypeRange(Uncachable, Range(0x30_0000, 0x40_0000))];
    Pow2Values();
    SizeOfShiftedMask(r, 0xffff, 8);
    VariableRangesSnoc([], r);
    assert [] + [r] == [r];
    assert VariableRanges([r]) == rs && CombineAll(rs) == rs;
    assert Cover(rs, 0x20_0000) == [];
    CoverSnoc([], rs[0], 0x30_0000);
    assert [] + rs == rs;
  }

  /** Write-back [3MB, 4MB) and [2MB, 3MB). */
  const BACK_AT_3MB := RawVariableMtrr(0x30_0006, 0xf_fff0_0800)
  const BACK_AT_2MB := RawVariableMtrr(0x20_0006, 0xf_fff0_0800)

  /** In this order the second register extends the range of the first downwards, and the leaf is write-back. */
  lemma DownwardNeighbourGivesOneLeaf(raw: RawMtrrs)
    requires raw.Decodes() && raw.variable == [BACK_AT_3MB, BACK_AT_2MB]
    ensures LeafType(Decoded(raw), 0x20_0000) == WriteBack
  {
    var upper := MemoryTypeRange(WriteBack, Range(0x30_0000, 0x40_0000));
    var lower := MemoryTypeRange(WriteBack, Range(0x20_0000, 0x30_0000));
    Pow2Values();
    SizeOfShiftedMask(BACK_AT_3MB, 0xffff, 8);
    SizeOfShiftedMask(BACK_AT_2MB, 0xffff, 8);
    VariableRangesSnoc([], BACK_AT_3MB);
    VariableRangesSnoc([BACK_AT_3MB], BACK_AT_2MB);
    assert [] + [BACK_AT_3MB] == [BACK_AT_3MB];
    assert [BACK_AT_3MB] + [BACK_AT_2MB] == raw.variable;
    assert VariableRanges(raw.variable) == [] + [upper, lower];
    TouchingRangesAnswerAsOne([], upper, lower, raw.defaultMemoryType, LargeQuery(1));
  }

  // ---------------------------------------------------------------- naturally aligned configurations

  /** Every naturally aligned range of at least 2MB is such a range, and so is a merge of them. */
  predicate LargeAligned(r: Range) { r.start % 0x20_0000 == 0 && r.end % 0x20_0000 == 0 }

  ghost predicate AllLargeAligned(rs: seq<MemoryTypeRange>) {
    forall i | 0 <= i < |rs| :: LargeAligned(rs[i].range)
  }

  lemma {:induction false} CombineAllLargeAligned(rs: seq<MemoryTypeRange>)
    requires AllLargeAligned(rs)
    ensures AllLargeAligned(CombineAll(rs))
  {
    if rs != [] { CombineAllLargeAligned(rs[..|rs| - 1]); }
  }

  lemma {:induction false} LargeNeverBlocked(rs: seq<MemoryTypeRange>, n: nat)
    requires AllLargeAligned(rs)
    ensures !Blocked(rs, LargeQuery(n))
  {
    if rs != [] {
      var m := |rs| - 1;
      LargeNeverBlocked(rs[..m], n);
      assert LargeAligned(rs[m].range);
      assert rs[m].range.end == rs[m].range.end / 0x20_0000 * 0x20_0000;
    }
  }

  /** No 2MB leaf has a boundary of such a range strictly inside. */
  lemma NoBoundaryInLarge(b: nat, n: nat)
    requires b % 0x20_0000 == 0
    ensures !(LargeQuery(n).start < b < LargeQuery(n).end)
  {
    assert b == b / 0x20_0000 * 0x20_0000;
  }

  /** With 2MB-aligned ranges the fallback to uncachable never happens, and every 2MB leaf is exact. */
  lemma LargeQueryAnswered(raw: RawMtrrs, n: nat)
    requires raw.Decodes() && n > 0 && AllLargeAligned(VariableRanges(raw.variable))
    ensures Decoded(raw).Lookup(LargeQuery(n)).Some?
    ensures forall a: nat | LargeQuery(n).Contains(a) :: TypeAt(raw, a) == Decoded(raw).Lookup(LargeQuery(n)).value
  {
    var rs := VariableRanges(raw.variable);
    CombineAllLargeAligned(rs);
    LargeNeverBlocked(CombineAll(rs), n);
    forall i | 0 <= i < |rs|
      ensures AgreesAt(rs, raw.defaultMemoryType, LargeQuery(n), rs[i].range.start)
              && AgreesAt(rs, raw.defaultMemoryType, LargeQuery(n), rs[i].range.end)
    {
      assert LargeAligned(rs[i].range);
      NoBoundaryInLarge(rs[i].range.start, n);
      NoBoundaryInLarge(rs[i].range.end, n);
    }
    AnswerTypesWholeQuery(raw, LargeQuery(n));
  }

  /**
   With 2MB-aligned ranges that end by 512GB the build never panics, and the leaf of every address
   has the type that the MTRR registers give to the address.
   */
  lemma AlignedConfigurationIsExact(raw: RawMtrrs, gpa: nat)
    requires raw.Decodes() && gpa < SIZE_256TB
    requires AllLargeAligned(VariableRanges(raw.variable))
    requires AllEndBelow(VariableRanges(raw.variable), SIZE_512GB + 1)
    ensures HugeQueriesResolve(Decoded(raw))
    ensures LeafType(Decoded(raw), gpa) == TypeAt(raw, gpa)
  {
    var rs := VariableRanges(raw.variable);
    BuildPanicsExactly(raw);
    if gpa < SIZE_2MB {
      FirstLeavesExact(raw, gpa);
    } else if gpa < SIZE_512GB {
      LargeQueryAnswered(raw, gpa / 0x20_0000);
      assert LargeQuery(gpa / 0x20_0000).Contains(gpa);
    } else {
      HugeQueryAnswered(raw, gpa / 0x80_0000_0000, gpa / 0x4000_0000 % 512);
      CoverEmptyOutside(rs, gpa);
    }
  }

  // ---------------------------------------------------------------- the reserved type

  /** Some type byte that the registers use is 7. */
  ghost predicate UsesReservedType(raw: RawMtrrs)
    requires raw.Decodes()
  {
    || raw.defaultMemoryType == UncachableMinus
    || (exists n: nat | n < 88 :: FixedRange(raw.fixed, n).memoryType == UncachableMinus)
    || (exists r | r in raw.variable :: r.Decodes() && r.Enabled() && r.Decode().memoryType == UncachableMinus)
  }

  lemma TypeNotReserved(raw: RawMtrrs, a: nat)
    requires raw.Decodes() && !UsesReservedType(raw)
    ensures TypeAt(raw, a) != UncachableMinus
  {
    if a < ONE_MB {
      assert FixedTypeAt(raw.fixed, a) == FixedRange(raw.fixed, SubRangeIndex(a)).memoryType;
    } else {
      var types := PageTypes(raw.variable, a);
      PageTypesMembers(raw.variable, a, UncachableMinus);
      assert UncachableMinus !in types;
    }
  }

  /** Then no leaf has the reserved type. */
  lemma LeafNotReserved(raw: RawMtrrs, gpa: nat)
    requires raw.Decodes() && !UsesReservedType(raw) && gpa < SIZE_256TB
    ensures LeafType(Decoded(raw), gpa) != UncachableMinus
  {
    if gpa < SIZE_2MB {
      FirstLeavesExact(raw, gpa);
      TypeNotReserved(raw, gpa);
    } else if Decoded(raw).Lookup(LeafQuery(gpa)).Some? {
      LeafQueryStart(gpa);
      AnswerIsTypeOfStart(raw, LeafQuery(gpa));
      TypeNotReserved(raw, LeafQuery(gpa).start);
    }
  }

  // ---------------------------------------------------------------- the whole pipeline

  /** From raw MTRRs to the walk. */
  method BuildFromMtrrs(raw: RawMtrrs, place: Placement) returns (epts: Epts, ok: bool)
    requires Placed(place)
    ensures fresh(epts) && epts.Valid()
    ensures ok <==> raw.Decodes() && HugeQueriesResolve(Decoded(raw))
    ensures raw.Decodes() && AllEndBelow(VariableRanges(raw.variable), LAST_WINDOW_END) ==>
              (ok <==> FreeOfBoundaries(VariableRanges(raw.variable)))
    ensures ok ==> Field(Eptp(place(Pml4)), 3, 3) == 3
    ensures ok ==> forall gpa: nat | gpa < SIZE_256TB ::
              WalkGuestAddress(epts, place, Eptp(place(Pml4)), gpa) ==
              LeafWalk(LeafType(Decoded(raw), gpa), gpa, LeafSize(gpa))
    ensures ok && !UsesReservedType(raw) ==> forall gpa: nat | gpa < SIZE_256TB ::
              WalkGuestAddress(epts, place, Eptp(place(Pml4)), gpa) ==
              Translation(gpa, true, true, true, LeafType(Decoded(raw), gpa).Code(), LeafSize(gpa))
  {
    epts := new Epts();
    EptpFields(place(Pml4));
    var mtrr := New(raw);
    if mtrr.None? {
      return epts, false;
    }
    FirstPagesAlwaysResolve(raw);
    if AllEndBelow(VariableRanges(raw.variable), LAST_WINDOW_END) {
      BuildPanicsExactly(raw);
    }
    ok := epts.BuildIdentity(mtrr.value, place);
    if ok {
      forall gpa: nat | gpa < SIZE_256TB
        ensures WalkGuestAddress(epts, place, Eptp(place(Pml4)), gpa) ==
                LeafWalk(LeafType(Decoded(raw), gpa), gpa, LeafSize(gpa))
      {
        WalkIsIdentity(epts, mtrr.value, place, gpa);
      }
      if !UsesReservedType(raw) {
        forall gpa: nat | gpa < SIZE_256TB ensures LeafType(Decoded(raw), gpa) != UncachableMinus {
          LeafNotReserved(raw, gpa);
        }
      }
    }
  }
}
