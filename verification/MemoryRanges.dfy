/**
 Lists of typed address ranges: merging of neighbours, the types that cover an address,
 and the lookup of the type of a query (src/hvcore/src/hypervisor/intel/mtrr.rs).
 */
module MemoryRanges {
  import opened Option

  datatype MemoryType =
    | Uncachable
    | WriteCombining
    | WriteThrough
    | WriteProtected
    | WriteBack
    | UncachableMinus
  {
    /** The hardware encoding, as stored in MTRRs and in EPT entries. */
    function Code(): nat {
      match this
      case Uncachable => 0
      case WriteCombining => 1
      case WriteThrough => 4
      case WriteProtected => 5
      case WriteBack => 6
      case UncachableMinus => 7
    }

    static function FromCode(code: nat): (t: Option<MemoryType>)
      ensures t.Some? ==> t.value.Code() == code
      ensures t.None? ==> forall u: MemoryType :: u.Code() != code
      ensures (t == Some(Uncachable) <==> code == 0) && (t == Some(WriteCombining) <==> code == 1)
      ensures (t == Some(WriteThrough) <==> code == 4) && (t == Some(WriteProtected) <==> code == 5)
      ensures (t == Some(WriteBack) <==> code == 6) && (t == Some(UncachableMinus) <==> code == 7)
    {
      match code
      case 0 => Some(Uncachable)
      case 1 => Some(WriteCombining)
      case 4 => Some(WriteThrough)
      case 5 => Some(WriteProtected)
      case 6 => Some(WriteBack)
      case 7 => Some(UncachableMinus)
      case _ => None
    }
  }

  /** A half-open address range. */
  datatype Range = Range(start: nat, end: nat) {
    predicate Contains(a: nat) { start <= a < end }

    predicate NonEmpty() { start < end }
  }

  datatype MemoryTypeRange = MemoryTypeRange(memoryType: MemoryType, range: Range)

  /** The 4KB page that starts at `p`. */
  function PageAt(p: nat): Range { Range(p, p + 0x1000) }

  predicate PageAligned(r: Range) { r.start % 0x1000 == 0 && r.end % 0x1000 == 0 }

  ghost predicate AllNonEmpty(rs: seq<MemoryTypeRange>) {
    forall i | 0 <= i < |rs| :: rs[i].range.NonEmpty()
  }

  ghost predicate AllPageAligned(rs: seq<MemoryTypeRange>) {
    forall i | 0 <= i < |rs| :: PageAligned(rs[i].range)
  }

  // ---------------------------------------------------------------- meaning of a list

  /** The types of the ranges that contain address `a`, in list order. */
  function Cover(rs: seq<MemoryTypeRange>, a: nat): seq<MemoryType> {
    if rs == [] then []
    else
      var n := |rs| - 1;
      Cover(rs[..n], a) + (if rs[n].range.Contains(a) then [rs[n].memoryType] else [])
  }

  /** How the lookup resolves the ordered types that cover one address. */
  function Resolve(types: seq<MemoryType>, default: MemoryType): MemoryType {
    if Uncachable in types then Uncachable
    else if types == [] then default
    else if types[0] == WriteBack && WriteThrough in types then WriteThrough
    else types[0]
  }

  /** The range contains the first byte of the query but not the last one. */
  predicate Straddles(r: Range, query: Range)
    requires query.NonEmpty()
  {
    r.Contains(query.start) && !r.Contains(query.end - 1)
  }

  /** Some range straddles the query and no uncachable range contains its start earlier in the list. */
  predicate Blocked(rs: seq<MemoryTypeRange>, query: Range)
    requires query.NonEmpty()
  {
    rs != [] &&
    var n := |rs| - 1;
    || Blocked(rs[..n], query)
    || (Straddles(rs[n].range, query) && Uncachable !in Cover(rs[..n], query.start))
  }

  /** The answer of the variable-range lookup. */
  function LookupVariable(rs: seq<MemoryTypeRange>, default: MemoryType, query: Range): Option<MemoryType>
    requires query.NonEmpty()
  {
    if Blocked(rs, query) then None else Some(Resolve(Cover(rs, query.start), default))
  }

  /** The answer of the fixed-range lookup: the first range with both ends of the query. */
  function LookupFixed(rs: seq<MemoryTypeRange>, query: Range): (t: Option<MemoryType>)
    requires query.NonEmpty()
  {
    if rs == [] then None
    else if rs[0].range.Contains(query.start) && rs[0].range.Contains(query.end - 1) then Some(rs[0].memoryType)
    else LookupFixed(rs[1..], query)
  }

  // ---------------------------------------------------------------- merging

  /** The list after one more range was fed to the in-place merge. */
  function Combine(rs: seq<MemoryTypeRange>, r: MemoryTypeRange): seq<MemoryTypeRange> {
    if rs == [] then [r]
    else
      var n := |rs| - 1;
      var last := rs[n];
      if last.memoryType == r.memoryType && last.range.end == r.range.start then
        rs[..n] + [last.(range := Range(last.range.start, r.range.end))]
      else if last.memoryType == r.memoryType && last.range.start == r.range.end then
        rs[..n] + [last.(range := Range(r.range.start, last.range.end))]
      else
        rs + [r]
  }

  function CombineAll(rs: seq<MemoryTypeRange>): seq<MemoryTypeRange> {
    if rs == [] then [] else Combine(CombineAll(rs[..|rs| - 1]), rs[|rs| - 1])
  }

  /** The fed range and the last one have the same type and touch, at either end. */
  predicate Touch(last: MemoryTypeRange, r: MemoryTypeRange) {
    && last.memoryType == r.memoryType
    && (last.range.end == r.range.start || r.range.end == last.range.start)
  }

  /** The vector that the conversions grow and edit in place. */
  class CombinedRanges {
    var ranges: seq<MemoryTypeRange>

    constructor ()
      ensures ranges == []
    {
      ranges := [];
    }

    /** `update_combined_ranges`: extends the last range or pushes a new one. */
    method Update(range: MemoryTypeRange)
      modifies this
      ensures ranges == Combine(old(ranges), range)
      ensures |ranges| == if old(ranges) != [] && Touch(old(ranges)[|old(ranges)| - 1], range) then |old(ranges)|
                          else |old(ranges)| + 1
    {
      if |ranges| > 0 {
        var lastRange := ranges[|ranges| - 1];
        if lastRange.memoryType == range.memoryType {
          if lastRange.range.end == range.range.start {
            ranges := ranges[|ranges| - 1 := lastRange.(range := Range(lastRange.range.start, range.range.end))];
            return;
          } else if lastRange.range.start == range.range.end {
            ranges := ranges[|ranges| - 1 := lastRange.(range := Range(range.range.start, lastRange.range.end))];
            return;
          }
        }
      }
      ranges := ranges + [range];
    }
  }

  lemma CoverSnoc(rs: seq<MemoryTypeRange>, r: MemoryTypeRange, a: nat)
    ensures Cover(rs + [r], a) == Cover(rs, a) + (if r.range.Contains(a) then [r.memoryType] else [])
  {
    assert (rs + [r])[..|rs|] == rs;
  }

  lemma {:induction false} CoverEmptyOutside(rs: seq<MemoryTypeRange>, a: nat)
    requires forall i | 0 <= i < |rs| :: !rs[i].range.Contains(a)
    ensures Cover(rs, a) == []
  {
    if rs != [] { CoverEmptyOutside(rs[..|rs| - 1], a); }
  }

  lemma CombineAllSnoc(rs: seq<MemoryTypeRange>, r: MemoryTypeRange)
    ensures CombineAll(rs + [r]) == Combine(CombineAll(rs), r)
  {
    assert (rs + [r])[..|rs|] == rs;
  }

  lemma CombineKeepsNonEmpty(rs: seq<MemoryTypeRange>, r: MemoryTypeRange)
    requires AllNonEmpty(rs) && r.range.NonEmpty()
    ensures AllNonEmpty(Combine(rs, r))
  {
  }

  /** Merging changes neither the covering types nor their order. */
  lemma CombineKeepsCover(rs: seq<MemoryTypeRange>, r: MemoryTypeRange, a: nat)
    requires AllNonEmpty(rs) && r.range.NonEmpty()
    ensures Cover(Combine(rs, r), a) == Cover(rs + [r], a)
  {
    CoverSnoc(rs, r, a);
    if Combine(rs, r) != rs + [r] {
      var n := |rs| - 1;
      var init, last, merged := rs[..n], rs[n], Combine(rs, r)[n];
      assert rs == init + [last] && Combine(rs, r) == init + [merged];
      CoverSnoc(init, last, a);
      CoverSnoc(init, merged, a);
      assert last.range.NonEmpty() && !(last.range.Contains(a) && r.range.Contains(a));
      assert merged.range.Contains(a) <==> last.range.Contains(a) || r.range.Contains(a);
      assert Cover(init, a) + [] == Cover(init, a);
    }
  }

  lemma {:induction false} CombineAllNonEmpty(rs: seq<MemoryTypeRange>)
    requires AllNonEmpty(rs)
    ensures AllNonEmpty(CombineAll(rs))
  {
    if rs != [] {
      CombineAllNonEmpty(rs[..|rs| - 1]);
      CombineKeepsNonEmpty(CombineAll(rs[..|rs| - 1]), rs[|rs| - 1]);
    }
  }

  lemma {:induction false} CombineAllPageAligned(rs: seq<MemoryTypeRange>)
    requires AllPageAligned(rs)
    ensures AllPageAligned(CombineAll(rs))
  {
    if rs != [] { CombineAllPageAligned(rs[..|rs| - 1]); }
  }

  /** The merged list covers every address with the same types in the same order. */
  lemma {:induction false} MergingKeepsCover(rs: seq<MemoryTypeRange>, a: nat)
    requires AllNonEmpty(rs)
    ensures Cover(CombineAll(rs), a) == Cover(rs, a)
  {
    if rs != [] {
      var n := |rs| - 1;
      MergingKeepsCover(rs[..n], a);
      CombineAllNonEmpty(rs[..n]);
      CombineKeepsCover(CombineAll(rs[..n]), rs[n], a);
      CoverSnoc(CombineAll(rs[..n]), rs[n], a);
    }
  }

  lemma BlockedSnoc(rs: seq<MemoryTypeRange>, r: MemoryTypeRange, query: Range)
    requires query.NonEmpty()
    ensures Blocked(rs + [r], query) <==>
            Blocked(rs, query) || (Straddles(r.range, query) && Uncachable !in Cover(rs, query.start))
  {
    assert (rs + [r])[..|rs|] == rs;
  }

  lemma CombineOnlyUnblocks(rs: seq<MemoryTypeRange>, r: MemoryTypeRange, query: Range)
    requires query.NonEmpty() && AllNonEmpty(rs) && r.range.NonEmpty()
    requires Blocked(Combine(rs, r), query)
    ensures Blocked(rs + [r], query)
  {
    BlockedSnoc(rs, r, query);
    if Combine(rs, r) != rs + [r] {
      var n := |rs| - 1;
      var merged := Combine(rs, r)[n];
      assert rs == rs[..n] + [rs[n]];
      assert Combine(rs, r) == rs[..n] + [merged];
      BlockedSnoc(rs[..n], merged, query);
      BlockedSnoc(rs[..n], rs[n], query);
      CoverSnoc(rs[..n], rs[n], query.start);
    }
  }

  /** Whatever the unmerged list answers, the merged list answers too, for queries of any size. */
  lemma {:induction false} MergingRefinesLookup(rs: seq<MemoryTypeRange>, default: MemoryType, query: Range)
    requires AllNonEmpty(rs) && query.NonEmpty()
    ensures LookupVariable(rs, default, query).Some? ==>
              LookupVariable(CombineAll(rs), default, query) == LookupVariable(rs, default, query)
  {
    MergingKeepsCover(rs, query.start);
    if Blocked(CombineAll(rs), query) {
      MergingOnlyUnblocks(rs, query);
    }
  }

  lemma {:induction false} MergingOnlyUnblocks(rs: seq<MemoryTypeRange>, query: Range)
    requires AllNonEmpty(rs) && query.NonEmpty() && Blocked(CombineAll(rs), query)
    ensures Blocked(rs, query)
  {
    if rs != [] {
      var n := |rs| - 1;
      CombineAllNonEmpty(rs[..n]);
      CombineOnlyUnblocks(CombineAll(rs[..n]), rs[n], query);
      BlockedSnoc(CombineAll(rs[..n]), rs[n], query);
      MergingKeepsCover(rs[..n], query.start);
      if Blocked(CombineAll(rs[..n]), query) {
        MergingOnlyUnblocks(rs[..n], query);
      }
    }
  }

  /** The list grows exactly when the fed range has no such neighbour at its end. */
  lemma MergesExactlyNeighbours(rs: seq<MemoryTypeRange>, r: MemoryTypeRange)
    ensures |Combine(rs, r)| == |rs| <==> rs != [] && Touch(rs[|rs| - 1], r)
    ensures |Combine(rs, r)| == |rs| + 1 <==> rs == [] || !Touch(rs[|rs| - 1], r)
  {
  }

  /** The range from the lower start to the higher end. */
  function Union(a: MemoryTypeRange, b: MemoryTypeRange): MemoryTypeRange {
    MemoryTypeRange(a.memoryType, Range(if a.range.start < b.range.start then a.range.start else b.range.start,
                                        if a.range.end < b.range.end then b.range.end else a.range.end))
  }

  lemma CombineTouching(rs: seq<MemoryTypeRange>, a: MemoryTypeRange, b: MemoryTypeRange)
    requires a.range.NonEmpty() && b.range.NonEmpty() && Touch(a, b)
    ensures Combine(rs + [a], b) == rs + [Union(a, b)]
  {
    assert (rs + [a])[..|rs|] == rs;
  }

  lemma TouchingRangesMerge(rs: seq<MemoryTypeRange>, a: MemoryTypeRange, b: MemoryTypeRange)
    requires a.range.NonEmpty() && b.range.NonEmpty() && Touch(a, b)
    requires CombineAll(rs) == [] || !Touch(CombineAll(rs)[|CombineAll(rs)| - 1], a)
    ensures CombineAll(rs + [a, b]) == CombineAll(rs) + [Union(a, b)]
  {
    assert rs + [a, b] == (rs + [a]) + [b];
    CombineAllSnoc(rs + [a], b);
    CombineAllSnoc(rs, a);
    PushApart(CombineAll(rs), a);
    CombineTouching(CombineAll(rs), a, b);
  }

  lemma PushApart(rs: seq<MemoryTypeRange>, a: MemoryTypeRange)
    requires rs == [] || !Touch(rs[|rs| - 1], a)
    ensures Combine(rs, a) == rs + [a]
  {
  }

  /**
   Two ranges of one type that touch, in either order, answer every query inside their union, behind
   any ranges that are apart from the query's first byte and from the first of the two.
   */
  lemma TouchingRangesAnswerAsOne(rs: seq<MemoryTypeRange>, a: MemoryTypeRange, b: MemoryTypeRange,
                                  default: MemoryType, query: Range)
    requires AllNonEmpty(rs) && a.range.NonEmpty() && b.range.NonEmpty() && query.NonEmpty()
    requires a.memoryType == b.memoryType
    requires a.range.end == b.range.start || b.range.end == a.range.start
    requires forall i | 0 <= i < |rs| :: !rs[i].range.Contains(query.start)
    requires CombineAll(rs) == [] || !Touch(CombineAll(rs)[|CombineAll(rs)| - 1], a)
    requires forall x: nat | query.Contains(x) :: a.range.Contains(x) || b.range.Contains(x)
    ensures LookupVariable(CombineAll(rs + [a, b]), default, query) == Some(a.memoryType)
  {
    var merged, one := CombineAll(rs), Union(a, b);
    TouchingRangesMerge(rs, a, b);
    assert query.Contains(query.start) && query.Contains(query.end - 1);
    MergingKeepsCover(rs, query.start);
    CoverEmptyOutside(rs, query.start);
    UncoveredNotBlocked(merged, query);
    BlockedSnoc(merged, one, query);
    CoverSnoc(merged, one, query.start);
  }

  lemma {:induction false} UncoveredNotBlocked(rs: seq<MemoryTypeRange>, query: Range)
    requires query.NonEmpty() && Cover(rs, query.start) == []
    ensures !Blocked(rs, query)
  {
    if rs != [] { UncoveredNotBlocked(rs[..|rs| - 1], query); }
  }

  /** The ranges before index `i` with the uncachable type do not contain `a`. */
  ghost predicate NoUncachableBefore(rs: seq<MemoryTypeRange>, i: nat, a: nat)
    requires i <= |rs|
  {
    forall j | 0 <= j < i && rs[j].memoryType == Uncachable :: !(rs[j].range.start <= a < rs[j].range.end)
  }

  /**
   A query is refused iff some range holds its first byte, ends inside it, and no uncachable range
   earlier in the list holds the first byte.
   */
  lemma {:induction false} RefusedExactly(rs: seq<MemoryTypeRange>, default: MemoryType, query: Range)
    requires query.NonEmpty()
    ensures LookupVariable(rs, default, query).None? <==>
            exists i | 0 <= i < |rs| ::
              && rs[i].range.start <= query.start < rs[i].range.end < query.end
              && NoUncachableBefore(rs, i, query.start)
  {
    if rs != [] {
      var n := |rs| - 1;
      var init := rs[..n];
      RefusedExactly(init, default, query);
      UncachableCovers(init, query.start);
      forall i: nat | i < n ensures NoUncachableBefore(init, i, query.start) <==> NoUncachableBefore(rs, i, query.start) {
        assert init[..i] == rs[..i];
        assert forall j | 0 <= j < i :: init[j] == rs[j];
      }
      assert forall j | 0 <= j < n :: init[j] == rs[j];
      assert NoUncachableBefore(init, n, query.start) <==> NoUncachableBefore(rs, n, query.start);
    }
  }

  lemma {:induction false} UncachableCovers(rs: seq<MemoryTypeRange>, a: nat)
    ensures Uncachable !in Cover(rs, a) <==> NoUncachableBefore(rs, |rs|, a)
  {
    if rs != [] {
      var n := |rs| - 1;
      UncachableCovers(rs[..n], a);
      assert forall j | 0 <= j < n :: rs[..n][j] == rs[j];
      assert NoUncachableBefore(rs[..n], n, a) <==> NoUncachableBefore(rs, n, a);
    }
  }

  // ---------------------------------------------------------------- page and large queries

  /** No page-sized query straddles a page-aligned range. */
  lemma {:induction false} PageNeverBlocked(rs: seq<MemoryTypeRange>, p: nat)
    requires AllPageAligned(rs) && p % 0x1000 == 0
    ensures !Blocked(rs, PageAt(p))
  {
    if rs != [] {
      var n := |rs| - 1;
      PageNeverBlocked(rs[..n], p);
      var r := rs[n].range;
      assert r.Contains(p) ==> r.end >= p + 0x1000 by {
        if r.Contains(p) { assert r.end / 0x1000 > p / 0x1000; }
      }
    }
  }

  /** No range of the list starts strictly inside the query. */
  ghost predicate NoStartInside(rs: seq<MemoryTypeRange>, query: Range) {
    forall i | 0 <= i < |rs| :: !(query.start < rs[i].range.start < query.end)
  }

  /** Up to the first uncachable range, an unblocked query is covered uniformly. */
  lemma {:induction false} UnblockedCoverConstant(rs: seq<MemoryTypeRange>, query: Range, a: nat)
    requires query.NonEmpty() && query.Contains(a)
    requires NoStartInside(rs, query)
    requires !Blocked(rs, query)
    ensures Uncachable in Cover(rs, query.start) ==> Uncachable in Cover(rs, a)
    ensures Uncachable !in Cover(rs, query.start) ==> Cover(rs, a) == Cover(rs, query.start)
  {
    if rs != [] {
      var n := |rs| - 1;
      UnblockedCoverConstant(rs[..n], query, a);
      assert !(query.start < rs[n].range.start < query.end);
    }
  }

  /** Address `b`, when strictly inside the query, resolves as the first address of the query does. */
  predicate AgreesAt(rs: seq<MemoryTypeRange>, default: MemoryType, query: Range, b: nat) {
    query.start < b < query.end ==>
      Resolve(Cover(rs, b), default) == Resolve(Cover(rs, query.start), default)
  }

  /** So do the starts and ends of all ranges: a finite test on the list. */
  predicate BoundariesAgree(rs: seq<MemoryTypeRange>, default: MemoryType, query: Range) {
    forall i | 0 <= i < |rs| ::
      AgreesAt(rs, default, query, rs[i].range.start) && AgreesAt(rs, default, query, rs[i].range.end)
  }

  /** Every address of the query resolves to `t`. */
  ghost predicate ResolvesTo(rs: seq<MemoryTypeRange>, default: MemoryType, query: Range, t: MemoryType) {
    forall a: nat | query.Contains(a) :: Resolve(Cover(rs, a), default) == t
  }

  /** The covering types change only at the start or the end of some range. */
  lemma {:induction false} CoverChangesAtBoundaries(rs: seq<MemoryTypeRange>, a: nat)
    requires a > 0
    requires forall i | 0 <= i < |rs| :: rs[i].range.start != a && rs[i].range.end != a
    ensures Cover(rs, a) == Cover(rs, a - 1)
  {
    if rs != [] { CoverChangesAtBoundaries(rs[..|rs| - 1], a); }
  }

  lemma {:induction false} AgreementSpreads(rs: seq<MemoryTypeRange>, default: MemoryType, query: Range, a: nat)
    requires BoundariesAgree(rs, default, query) && query.Contains(a)
    ensures Resolve(Cover(rs, a), default) == Resolve(Cover(rs, query.start), default)
    decreases a
  {
    if a > query.start {
      AgreementSpreads(rs, default, query, a - 1);
      if i :| 0 <= i < |rs| && (rs[i].range.start == a || rs[i].range.end == a) {
        assert AgreesAt(rs, default, query, rs[i].range.start) && AgreesAt(rs, default, query, rs[i].range.end);
      } else {
        CoverChangesAtBoundaries(rs, a);
      }
    }
  }

  /** A nonempty query is uniform iff its first address has the type and all boundaries inside it agree. */
  lemma UniformExactly(rs: seq<MemoryTypeRange>, default: MemoryType, query: Range, t: MemoryType)
    requires query.NonEmpty()
    ensures ResolvesTo(rs, default, query, t) <==>
            Resolve(Cover(rs, query.start), default) == t && BoundariesAgree(rs, default, query)
  {
    if ResolvesTo(rs, default, query, t) {
      assert query.Contains(query.start);
      forall i | 0 <= i < |rs|
        ensures AgreesAt(rs, default, query, rs[i].range.start) && AgreesAt(rs, default, query, rs[i].range.end)
      {
        assert query.start < rs[i].range.start < query.end ==> query.Contains(rs[i].range.start);
        assert query.start < rs[i].range.end < query.end ==> query.Contains(rs[i].range.end);
      }
    } else if Resolve(Cover(rs, query.start), default) == t && BoundariesAgree(rs, default, query) {
      forall a: nat | query.Contains(a) ensures Resolve(Cover(rs, a), default) == t {
        AgreementSpreads(rs, default, query, a);
      }
    }
  }

  /**
   The answer to a query of any size is right for every address of the query iff the starts and ends
   of ranges strictly inside the query resolve as its first address does.
   */
  lemma AnsweredQueryExactlySound(rs: seq<MemoryTypeRange>, default: MemoryType, query: Range)
    requires query.NonEmpty() && LookupVariable(rs, default, query).Some?
    ensures ResolvesTo(rs, default, query, LookupVariable(rs, default, query).value) <==>
            BoundariesAgree(rs, default, query)
  {
    UniformExactly(rs, default, query, LookupVariable(rs, default, query).value);
  }

  /** In particular it is right when the query is answered and no range starts strictly inside it. */
  lemma LargeQuerySound(rs: seq<MemoryTypeRange>, default: MemoryType, query: Range)
    requires query.NonEmpty() && NoStartInside(rs, query)
    requires LookupVariable(rs, default, query).Some?
    ensures ResolvesTo(rs, default, query, LookupVariable(rs, default, query).value)
  {
    forall b: nat | query.start < b < query.end ensures AgreesAt(rs, default, query, b) {
      UnblockedCoverConstant(rs, query, b);
    }
    assert BoundariesAgree(rs, default, query);
    AnsweredQueryExactlySound(rs, default, query);
  }

  // ---------------------------------------------------------------- prefixes, for the lookup loop

  lemma {:induction false} BlockedPrefix(rs: seq<MemoryTypeRange>, i: nat, query: Range)
    requires query.NonEmpty() && i <= |rs| && Blocked(rs[..i], query)
    ensures Blocked(rs, query)
    decreases |rs|
  {
    if i == |rs| {
      assert rs[..i] == rs;
    } else {
      assert rs[..|rs| - 1][..i] == rs[..i];
      BlockedPrefix(rs[..|rs| - 1], i, query);
    }
  }

  lemma {:induction false} UncachablePrefixDecides(rs: seq<MemoryTypeRange>, i: nat, query: Range)
    requires query.NonEmpty() && i <= |rs|
    requires !Blocked(rs[..i], query) && Uncachable in Cover(rs[..i], query.start)
    ensures !Blocked(rs, query) && Uncachable in Cover(rs, query.start)
    decreases |rs|
  {
    if i == |rs| {
      assert rs[..i] == rs;
    } else {
      assert rs[..|rs| - 1][..i] == rs[..i];
      UncachablePrefixDecides(rs[..|rs| - 1], i, query);
    }
  }

  /** One more covering type changes the answer only when it is the first, or write-through over write-back. */
  lemma ResolveSnoc(types: seq<MemoryType>, t: MemoryType, default: MemoryType)
    requires Uncachable !in types && t != Uncachable
    ensures Uncachable !in types + [t]
    ensures Resolve(types + [t], default) ==
            if types == [] then t
            else if Resolve(types, default) == WriteBack && t == WriteThrough then WriteThrough
            else Resolve(types, default)
  {
    assert WriteThrough in types ==> WriteThrough in types + [t];
    if types != [] { assert (types + [t])[0] == types[0]; }
  }

  /** `find_from_variable`: one pass over the merged ranges. */
  method FindFromVariable(variable: seq<MemoryTypeRange>, defaultMemoryType: MemoryType, range: Range)
    returns (r: Option<MemoryType>)
    requires range.NonEmpty()
    ensures r == LookupVariable(variable, defaultMemoryType, range)
  {
    var returnMemoryType: Option<MemoryType> := None;
    ghost var types: seq<MemoryType> := [];
    for i := 0 to |variable|
      invariant types == Cover(variable[..i], range.start)
      invariant !Blocked(variable[..i], range)
      invariant Uncachable !in types
      invariant returnMemoryType == if types == [] then None else Some(Resolve(types, defaultMemoryType))
    {
      var mtrr := variable[i];
      assert variable[..i + 1] == variable[..i] + [mtrr];
      CoverSnoc(variable[..i], mtrr, range.start);
      BlockedSnoc(variable[..i], mtrr, range);
      if mtrr.range.Contains(range.start) {
        if !mtrr.range.Contains(range.end - 1) {
          BlockedPrefix(variable, i + 1, range);
          return None;
        }
        if mtrr.memoryType == Uncachable {
          UncachablePrefixDecides(variable, i + 1, range);
          return Some(mtrr.memoryType);
        }
        ResolveSnoc(types, mtrr.memoryType, defaultMemoryType);
        types := types + [mtrr.memoryType];
        if returnMemoryType.Some? {
          if returnMemoryType.value == WriteBack && mtrr.memoryType == WriteThrough {
            returnMemoryType := Some(mtrr.memoryType);
          }
        } else {
          returnMemoryType := Some(mtrr.memoryType);
        }
      }
    }
    assert variable[..|variable|] == variable;
    if returnMemoryType.None? {
      returnMemoryType := Some(defaultMemoryType);
    }
    return returnMemoryType;
  }
}
