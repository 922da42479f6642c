/**
 What the decoding and lookup of the fixed-range MTRRs guarantee for the first megabyte
 (section 12.11.2.2 of the Intel SDM Vol. 3A).
 */
module FixedMtrrProperties {
  import opened Option
  import opened Bits
  import opened MemoryRanges
  import opened Mtrr

  // ---------------------------------------------------------------- sorted partitions

  /** The ranges are nonempty, sorted and leave no gap between `lo` and `hi`. */
  ghost predicate Partition(rs: seq<MemoryTypeRange>, lo: nat, hi: nat) {
    && rs != []
    && rs[0].range.start == lo
    && rs[|rs| - 1].range.end == hi
    && AllNonEmpty(rs)
    && forall i | 0 <= i < |rs| - 1 :: rs[i].range.end == rs[i + 1].range.start
  }

  ghost predicate NeighboursDiffer(rs: seq<MemoryTypeRange>) {
    forall i | 0 <= i < |rs| - 1 :: rs[i].memoryType != rs[i + 1].memoryType
  }

  lemma CombineExtendsPartition(rs: seq<MemoryTypeRange>, lo: nat, mid: nat, r: MemoryTypeRange)
    requires Partition(rs, lo, mid) && NeighboursDiffer(rs)
    requires r.range.NonEmpty() && r.range.start == mid
    ensures Partition(Combine(rs, r), lo, r.range.end) && NeighboursDiffer(Combine(rs, r))
  {
    var n := |rs| - 1;
    assert rs[n].range.NonEmpty();
    if rs[n].memoryType == r.memoryType {
      assert Combine(rs, r) == rs[n := rs[n].(range := Range(rs[n].range.start, r.range.end))];
    } else {
      assert Combine(rs, r) == rs + [r];
    }
  }

  /** Merging a partition gives a partition of the same span, maximally merged. */
  lemma {:induction false} CombineAllOfPartition(rs: seq<MemoryTypeRange>, lo: nat, hi: nat)
    requires Partition(rs, lo, hi)
    ensures Partition(CombineAll(rs), lo, hi) && NeighboursDiffer(CombineAll(rs))
  {
    var n := |rs| - 1;
    if n == 0 {
      assert CombineAll(rs[..0]) == [];
    } else {
      assert rs[n - 1].range.end == rs[n - 1 + 1].range.start;
      CombineAllOfPartition(rs[..n], lo, rs[n].range.start);
      CombineExtendsPartition(CombineAll(rs[..n]), lo, rs[n].range.start, rs[n]);
    }
  }

  lemma {:induction false} PartitionOrdered(rs: seq<MemoryTypeRange>, lo: nat, hi: nat, i: nat, j: nat)
    requires Partition(rs, lo, hi) && i < j < |rs|
    ensures rs[i].range.end <= rs[j].range.start
    decreases j
  {
    if i < j - 1 {
      PartitionOrdered(rs, lo, hi, i, j - 1);
      assert rs[j - 1].range.NonEmpty();
    }
    assert rs[j - 1].range.end == rs[j - 1 + 1].range.start;
  }

  lemma {:induction false} CoverOfDisjoint(rs: seq<MemoryTypeRange>, i: nat, a: nat)
    requires i < |rs| && rs[i].range.Contains(a)
    requires forall j | 0 <= j < |rs| && j != i :: !rs[j].range.Contains(a)
    ensures Cover(rs, a) == [rs[i].memoryType]
  {
    var n := |rs| - 1;
    if i == n {
      CoverEmptyOutside(rs[..n], a);
    } else {
      CoverOfDisjoint(rs[..n], i, a);
    }
  }

  /** Every address of the span has exactly one covering type, that of the range that contains it. */
  lemma CoverOfPartition(rs: seq<MemoryTypeRange>, lo: nat, hi: nat, i: nat, a: nat)
    requires Partition(rs, lo, hi) && i < |rs| && rs[i].range.Contains(a)
    ensures Cover(rs, a) == [rs[i].memoryType]
  {
    forall j | 0 <= j < |rs| && j != i ensures !rs[j].range.Contains(a) {
      if j < i { PartitionOrdered(rs, lo, hi, j, i); } else { PartitionOrdered(rs, lo, hi, i, j); }
    }
    CoverOfDisjoint(rs, i, a);
  }

  lemma {:induction false} PartitionIndex(rs: seq<MemoryTypeRange>, lo: nat, hi: nat, a: nat) returns (i: nat)
    requires Partition(rs, lo, hi) && lo <= a < hi
    ensures i < |rs| && rs[i].range.Contains(a)
  {
    var n := |rs| - 1;
    if rs[n].range.start <= a {
      i := n;
    } else {
      assert n > 0 && rs[n - 1].range.end == rs[n - 1 + 1].range.start;
      i := PartitionIndex(rs[..n], lo, rs[n].range.start, a);
    }
  }

  // ---------------------------------------------------------------- the lookup on a partition

  ghost predicate ContainsBothEnds(r: Range, query: Range)
    requires query.NonEmpty()
  {
    r.Contains(query.start) && r.Contains(query.end - 1)
  }

  lemma {:induction false} LookupFixedFinds(rs: seq<MemoryTypeRange>, query: Range)
    requires query.NonEmpty()
    ensures LookupFixed(rs, query).Some? ==>
              exists i :: 0 <= i < |rs| && ContainsBothEnds(rs[i].range, query)
                          && rs[i].memoryType == LookupFixed(rs, query).value
    ensures LookupFixed(rs, query).None? ==> forall i | 0 <= i < |rs| :: !ContainsBothEnds(rs[i].range, query)
  {
    if rs != [] && !ContainsBothEnds(rs[0].range, query) {
      LookupFixedFinds(rs[1..], query);
      if LookupFixed(rs[1..], query).Some? {
        var i :| 0 <= i < |rs[1..]| && ContainsBothEnds(rs[1..][i].range, query)
                 && rs[1..][i].memoryType == LookupFixed(rs, query).value;
        assert ContainsBothEnds(rs[i + 1].range, query);
      } else {
        forall i | 0 <= i < |rs| ensures !ContainsBothEnds(rs[i].range, query) {
          if i > 0 { assert !ContainsBothEnds(rs[1..][i - 1].range, query); }
        }
      }
    }
  }

  /** An answered query is uniform. */
  lemma AnsweredQueryIsUniform(rs: seq<MemoryTypeRange>, lo: nat, hi: nat, query: Range, a: nat)
    requires Partition(rs, lo, hi)
    requires query.NonEmpty() && query.Contains(a)
    requires LookupFixed(rs, query).Some?
    ensures Cover(rs, a) == [LookupFixed(rs, query).value]
  {
    LookupFixedFinds(rs, query);
    var i :| 0 <= i < |rs| && ContainsBothEnds(rs[i].range, query)
             && rs[i].memoryType == LookupFixed(rs, query).value;
    CoverOfPartition(rs, lo, hi, i, a);
  }

  /** An unanswered query spans an address whose type differs from the type of its first byte. */
  lemma UnansweredQueryIsMixed(rs: seq<MemoryTypeRange>, lo: nat, hi: nat, query: Range) returns (b: nat)
    requires Partition(rs, lo, hi) && NeighboursDiffer(rs)
    requires query.NonEmpty() && lo <= query.start && query.end <= hi
    requires LookupFixed(rs, query).None?
    ensures query.Contains(b) && Cover(rs, b) != Cover(rs, query.start)
  {
    LookupFixedFinds(rs, query);
    var i := PartitionIndex(rs, lo, hi, query.start);
    assert !ContainsBothEnds(rs[i].range, query);
    b := rs[i].range.end;
    assert b < hi;
    assert i + 1 < |rs|;
    assert b == rs[i + 1].range.start && rs[i + 1].range.NonEmpty();
    CoverOfPartition(rs, lo, hi, i, query.start);
    CoverOfPartition(rs, lo, hi, i + 1, b);
  }

  // ---------------------------------------------------------------- the first megabyte

  /** The number of the sub-range that manages address `a`, from the layout of section 12.11.2.2. */
  function SubRangeIndex(a: nat): (n: nat)
    requires a < ONE_MB
    ensures n < 88
  {
    if a < 0x80000 then a / 0x10000
    else if a < 0xC0000 then 8 + (a - 0x80000) / 0x4000
    else 24 + (a - 0xC0000) / 0x1000
  }

  /** The same layout, from number to addresses. */
  function LayoutSpan(n: nat): Range
    requires n < 88
  {
    if n < 8 then Range(n * 0x10000, (n + 1) * 0x10000)
    else if n < 24 then Range(0x80000 + (n - 8) * 0x4000, 0x80000 + (n - 7) * 0x4000)
    else Range(0xC0000 + (n - 24) * 0x1000, 0xC0000 + (n - 23) * 0x1000)
  }

  lemma TableFollowsLayout(n: nat)
    requires n < 88
    ensures FixedSpan(n) == LayoutSpan(n)
  {
    var i, j := n / 8, n % 8;
    assert n == 8 * i + j;
    if i == 0 {
    } else if i <= 2 {
      assert FIXED_MTRR_RANGES[i] == (0x80000 + 0x20000 * (i - 1), 0x4000);
    } else {
      assert FIXED_MTRR_RANGES[i] == (0xC0000 + 0x8000 * (i - 3), 0x1000);
    }
  }

  /** The type of address `a` as the code reads it: most significant byte first. */
  function FixedTypeAt(raw: seq<RawFixedMtrr>, a: nat): MemoryType
    requires |raw| == 11 && a < ONE_MB && FixedByteDecodes(raw, SubRangeIndex(a))
  {
    var n := SubRangeIndex(a);
    MemoryType.FromCode(BigEndianByte(raw[n / 8], n % 8)).value
  }

  lemma DivideByteFirst(v: nat, p: nat)
    requires p > 0
    ensures v / (0x100 * p) == v / 0x100 / p
  {
    var h := v / 0x100;
    var q, r := h / p, h % p;
    assert h == q * p + r;
    assert v == q * (0x100 * p) + (0x100 * r + v % 0x100);
    DivModUnique(v, 0x100 * p, q, 0x100 * r + v % 0x100);
  }

  /** Byte `j` is a shift by 8 * j bits. */
  lemma {:induction false} ByteByDivision(v: nat, j: nat)
    ensures Byte(v, j) == v / Pow2(8 * j) % 0x100
  {
    if j > 0 {
      ByteByDivision(v / 0x100, j - 1);
      Pow2Add(8, 8 * (j - 1));
      Pow2Values();
      DivideByteFirst(v, Pow2(8 * (j - 1)));
    }
  }

  /** Element `j` of the big-endian bytes of a 64-bit value holds its bits 63-8j..56-8j. */
  lemma BigEndianByDivision(v: RawFixedMtrr, j: nat)
    requires j < 8
    ensures BigEndianByte(v, j) == v / Pow2(56 - 8 * j) % 0x100
  {
    ByteByDivision(v, 7 - j);
  }

  /**
   The type of address `a`, register by register of section 12.11.2.2: one register of 64KB sub-ranges,
   two of 16KB and eight of 4KB, each read from its most significant byte on.
   */
  lemma FixedTypeByRegister(raw: seq<RawFixedMtrr>, a: nat)
    requires |raw| == 11 && AllFixedDecode(raw) && a < 0x10_0000
    ensures a < 0x8_0000 ==>
              FixedTypeAt(raw, a).Code() == raw[0] / Pow2(56 - 8 * (a / 0x1_0000)) % 0x100
    ensures 0x8_0000 <= a < 0xc_0000 ==>
              FixedTypeAt(raw, a).Code() == raw[1 + (a - 0x8_0000) / 0x2_0000] / Pow2(56 - 8 * (a / 0x4000 % 8)) % 0x100
    ensures 0xc_0000 <= a ==>
              FixedTypeAt(raw, a).Code() == raw[3 + (a - 0xc_0000) / 0x8000] / Pow2(56 - 8 * (a / 0x1000 % 8)) % 0x100
  {
    var n := SubRangeIndex(a);
    assert FixedByteDecodes(raw, n);
    BigEndianByDivision(raw[n / 8], n % 8);
    RegisterOfSubRange(a);
  }

  lemma EightAtATime(b: nat)
    ensures (8 + b) / 8 == 1 + b / 8 && (8 + b) % 8 == b % 8 && (0x20 + b) % 8 == b % 8
    ensures (24 + b) / 8 == 3 + b / 8 && (24 + b) % 8 == b % 8 && (0xc0 + b) % 8 == b % 8
  {
  }

  lemma RegisterOfSubRange(a: nat)
    requires a < 0x10_0000
    ensures var n := SubRangeIndex(a);
            if a < 0x8_0000 then n / 8 == 0 && n % 8 == a / 0x1_0000
            else if a < 0xc_0000 then n / 8 == 1 + (a - 0x8_0000) / 0x2_0000 && n % 8 == a / 0x4000 % 8
            else n / 8 == 3 + (a - 0xc_0000) / 0x8000 && n % 8 == a / 0x1000 % 8
  {
    if a < 0x8_0000 {
      assert a / 0x1_0000 < 8;
    } else if a < 0xc_0000 {
      var b := (a - 0x8_0000) / 0x4000;
      EightAtATime(b);
      assert (a - 0x8_0000) / 0x2_0000 == b / 8 && a / 0x4000 == 0x20 + b;
    } else {
      var b := (a - 0xc_0000) / 0x1000;
      EightAtATime(b);
      assert (a - 0xc_0000) / 0x8000 == b / 8 && a / 0x1000 == 0xc0 + b;
    }
  }

  lemma FixedRangesPartition(raw: seq<RawFixedMtrr>)
    requires |raw| == 11 && AllFixedDecode(raw)
    ensures Partition(FixedRanges(raw), 0, ONE_MB)
  {
    var rs := FixedRanges(raw);
    forall i: nat | i < 88 ensures rs[i].range == LayoutSpan(i) {
      TableFollowsLayout(i);
    }
  }

  /** The merged fixed ranges are a sorted partition of the first megabyte and keep every type. */
  lemma MergedFixedRanges(raw: seq<RawFixedMtrr>)
    requires |raw| == 11 && AllFixedDecode(raw)
    ensures Partition(CombineAll(FixedRanges(raw)), 0, ONE_MB)
    ensures NeighboursDiffer(CombineAll(FixedRanges(raw)))
    ensures forall a: nat | a < ONE_MB :: Cover(CombineAll(FixedRanges(raw)), a) == [FixedTypeAt(raw, a)]
  {
    var rs := FixedRanges(raw);
    FixedRangesPartition(raw);
    CombineAllOfPartition(rs, 0, ONE_MB);
    forall a: nat | a < ONE_MB ensures Cover(CombineAll(rs), a) == [FixedTypeAt(raw, a)] {
      MergingKeepsCover(rs, a);
      var n := SubRangeIndex(a);
      TableFollowsLayout(n);
      CoverOfPartition(rs, 0, ONE_MB, n, a);
    }
  }

  /** Some two bytes of the query have different types. */
  ghost predicate SpansTwoTypes(raw: seq<RawFixedMtrr>, query: Range)
    requires |raw| == 11 && AllFixedDecode(raw) && query.end <= ONE_MB
  {
    exists a: nat, b: nat ::
      query.Contains(a) && query.Contains(b) && FixedTypeAt(raw, a) != FixedTypeAt(raw, b)
  }

  /**
   Inside the first megabyte `find` answers exactly the uniform queries, with their type, and
   refuses exactly the ones that span two types; a query that leaves the megabyte is refused.
   */
  lemma FindInFirstMegabyte(raw: RawMtrrs, query: Range)
    requires raw.Decodes() && query.NonEmpty() && query.start < ONE_MB
    ensures query.end > ONE_MB ==> Decoded(raw).Lookup(query).None?
    ensures query.end <= ONE_MB ==>
              (Decoded(raw).Lookup(query).None? <==> SpansTwoTypes(raw.fixed, query))
    ensures query.end <= ONE_MB && Decoded(raw).Lookup(query).Some? ==>
              forall a: nat | query.Contains(a) :: FixedTypeAt(raw.fixed, a) == Decoded(raw).Lookup(query).value
  {
    if query.end <= ONE_MB {
      MergedFixedRanges(raw.fixed);
      var rs := CombineAll(FixedRanges(raw.fixed));
      if LookupFixed(rs, query).Some? {
        forall a: nat | query.Contains(a)
          ensures FixedTypeAt(raw.fixed, a) == LookupFixed(rs, query).value
        {
          AnsweredQueryIsUniform(rs, 0, ONE_MB, query, a);
          assert Cover(rs, a) == [FixedTypeAt(raw.fixed, a)];
        }
      } else {
        var b := UnansweredQueryIsMixed(rs, 0, ONE_MB, query);
        assert Cover(rs, b) == [FixedTypeAt(raw.fixed, b)];
        assert Cover(rs, query.start) == [FixedTypeAt(raw.fixed, query.start)];
        assert query.Contains(query.start);
      }
    }
  }

  /** Every 4KB page of the first megabyte is answered. */
  lemma FixedPageAnswered(raw: RawMtrrs, p: nat)
    requires raw.Decodes() && p % 0x1000 == 0 && p < ONE_MB
    ensures Decoded(raw).Lookup(PageAt(p)) == Some(FixedTypeAt(raw.fixed, p))
  {
    FindInFirstMegabyte(raw, PageAt(p));
    forall a: nat | PageAt(p).Contains(a) ensures SubRangeIndex(a) == SubRangeIndex(p) {
      SamePageSameSubRange(p, a);
    }
    assert PageAt(p).Contains(p);
  }

  lemma SamePageSameSubRange(p: nat, a: nat)
    requires p % 0x1000 == 0 && p < ONE_MB && p <= a < p + 0x1000
    ensures a < ONE_MB && SubRangeIndex(a) == SubRangeIndex(p)
  {
    var k := p / 0x1000;
    assert p == k * 0x1000;
    assert a / 0x1000 == k;
    if p < 0x80000 {
      assert a / 0x10000 == k / 0x10;
    } else if p < 0xC0000 {
      assert (a - 0x80000) / 0x4000 == (k - 0x80) / 4;
    }
  }

  // ---------------------------------------------------------------- byte order

  /** The type section 12.11.2.2 gives to address `a`: sub-range j is in bits 8j+7..8j. */
  function ManualTypeAt(raw: seq<RawFixedMtrr>, a: nat): Option<MemoryType>
    requires |raw| == 11 && a < ONE_MB
  {
    var n := SubRangeIndex(a);
    MemoryType.FromCode(Byte(raw[n / 8], n % 8))
  }

  /** The register value reads the same from both ends. */
  predicate ByteSymmetric(v: RawFixedMtrr) {
    forall j: nat | j < 8 :: Byte(v, j) == Byte(v, 7 - j)
  }

  /**
   The code walks each register in big-endian byte order. It therefore agrees with the manual on
   the whole first megabyte exactly when every register is byte-symmetric.
   */
  lemma ByteOrderAgreesExactlyWhenSymmetric(raw: seq<RawFixedMtrr>)
    requires |raw| == 11 && AllFixedDecode(raw)
    ensures (forall a: nat | a < ONE_MB :: ManualTypeAt(raw, a) == Some(FixedTypeAt(raw, a))) <==>
            (forall i | 0 <= i < 11 :: ByteSymmetric(raw[i]))
  {
    if forall a: nat | a < ONE_MB :: ManualTypeAt(raw, a) == Some(FixedTypeAt(raw, a)) {
      forall i, j: nat | 0 <= i < 11 && j < 8 ensures Byte(raw[i], j) == Byte(raw[i], 7 - j) {
        var n := 8 * i + j;
        assert n / 8 == i && n % 8 == j;
        var a := LayoutSpan(n).start;
        assert a < ONE_MB && SubRangeIndex(a) == n;
        assert ManualTypeAt(raw, a) == Some(FixedTypeAt(raw, a));
        assert FixedByteDecodes(raw, n);
      }
    } else {
      var a: nat :| a < ONE_MB && ManualTypeAt(raw, a) != Some(FixedTypeAt(raw, a));
      var n := SubRangeIndex(a);
      assert FixedByteDecodes(raw, n);
      assert Byte(raw[n / 8], n % 8) != Byte(raw[n / 8], 7 - n % 8);
      assert !ByteSymmetric(raw[n / 8]);
    }
  }

  /** A write-back byte for the first 64KB and uncachable elsewhere is read the wrong way round. */
  lemma ByteOrderDiffers()
    ensures var raw := seq(11, i => if i == 0 then 6 else 0);
            && AllFixedDecode(raw)
            && ManualTypeAt(raw, 0) == Some(WriteBack)
            && FixedTypeAt(raw, 0) == Uncachable
  {
    var raw: seq<RawFixedMtrr> := seq(11, i => if i == 0 then 6 else 0);
    assert forall j: nat | j < 8 :: Byte(0, j) == 0 by {
      forall j: nat | j < 8 ensures Byte(0, j) == 0 { ByteOfZero(j); }
    }
    forall n: nat | n < 88 ensures FixedByteDecodes(raw, n) {
      if n < 7 {
        assert n / 8 == 0 && n % 8 == n;
        assert Byte(6, 7 - n) == Byte(0, 6 - n);
      } else if n == 7 {
        assert Byte(6, 0) == 6;
      } else {
        assert raw[n / 8] == 0;
      }
    }
    assert Byte(6, 7) == Byte(0, 6);
  }

  lemma {:induction false} ByteOfZero(j: nat)
    ensures Byte(0, j) == 0
  {
    if j > 0 { ByteOfZero(j - 1); }
  }
}
