/**
 What the decoding and lookup of variable MTRRs guarantee: when the interval computed by bit scan
 is the set the hardware matches, and when register order is irrelevant
 (sections 12.11.2.3, 12.11.3 and 12.11.4.1 of the Intel SDM Vol. 3A).
 */
module VariableMtrrProperties {
  import opened Option
  import opened Bits
  import opened MemoryRanges
  import opened Mtrr

  // ---------------------------------------------------------------- base and mask

  /** The test the hardware applies to an address `a`. */
  predicate Matches(a: nat, base: nat, mask: nat) { And(a, mask) == And(base, mask) }

  /** The range is exactly the set of addresses below `top` that match base under mask. */
  ghost predicate IsMatchedSet(range: Range, base: nat, mask: nat, top: nat) {
    forall a: nat :: range.Contains(a) <==> a < top && Matches(a, base, mask)
  }

  /** The interval that starts at base and is as long as the lowest mask bit. */
  function ScannedRange(base: nat, mask: nat): Range
    requires mask > 0
  {
    Range(base, base + Pow2(BitScanForward(mask)))
  }

  /** The mask is contiguous up to bit m - 1 and the base is a multiple of the size. */
  predicate ContiguousAndAligned(base: nat, mask: nat, m: nat)
    requires mask > 0
  {
    var size := Pow2(BitScanForward(mask));
    mask == Pow2(m) - size && base % size == 0
  }

  lemma ScanBelowWidth(mask: nat, m: nat)
    requires 0 < mask < Pow2(m)
    ensures BitScanForward(mask) < m
  {
    BitScanFindsLowestBit(mask);
    if m <= BitScanForward(mask) { Pow2Monotonic(m, BitScanForward(mask)); }
  }

  lemma MultipleGap(b: nat, top: nat, p: nat)
    requires p > 0 && b % p == 0 && top % p == 0 && b < top
    ensures b + p <= top
  {
    var x, y := b / p, top / p;
    assert b == x * p && top == y * p;
    if y < x {
      Distribute(x, y, p);
      MulAtLeast(x - y, p);
    } else if x < y {
      Distribute(y, x, p);
      MulAtLeast(y - x, p);
    }
  }

  function RoundDown(b: nat, p: nat): (r: nat)
    requires p > 0
    ensures r == b - b % p && r % p == 0
  {
    assert b == b / p * p + b % p;
    var r := b / p * p;
    DivModUnique(r, p, b / p, 0);
    r
  }

  lemma AlignedBlock(a: nat, b: nat, p: nat)
    requires p > 0 && b % p == 0
    ensures b <= a < b + p <==> a - a % p == b
  {
    if b <= a < b + p {
      assert b == b / p * p;
      DivModUnique(a, p, b / p, a - b);
    }
  }

  lemma ContiguousGivesMaskedSet(base: nat, mask: nat, m: nat)
    requires 0 < mask < Pow2(m) && base < Pow2(m)
    requires ContiguousAndAligned(base, mask, m)
    ensures IsMatchedSet(ScannedRange(base, mask), base, mask, Pow2(m))
  {
    var k := BitScanForward(mask);
    ScanBelowWidth(mask, m);
    Pow2Divides(k, m);
    MultipleGap(base, Pow2(m), Pow2(k));
    AndHighMask(base, k, m);
    forall a: nat
      ensures ScannedRange(base, mask).Contains(a) <==> a < Pow2(m) && Matches(a, base, mask)
    {
      AlignedBlock(a, base, Pow2(k));
      if a < Pow2(m) { AndHighMask(a, k, m); }
    }
  }

  lemma HoleBreaksMaskedSet(base: nat, mask: nat, m: nat)
    requires 0 < mask < Pow2(m) && base < Pow2(m)
    requires mask != Pow2(m) - Pow2(BitScanForward(mask))
    ensures !IsMatchedSet(ScannedRange(base, mask), base, mask, Pow2(m))
  {
    var k := BitScanForward(mask);
    ScanBelowWidth(mask, m);
    BitScanFindsLowestBit(mask);
    var j := NotContiguousHasHole(mask, k, m);
    Pow2Monotonic(k, j);
    var other: nat;
    if Bit(base, j) {
      ClearBit(base, j);
      other := base - Pow2(j);
      AndIgnoresClearBit(other, mask, j);
    } else {
      SetBitStaysBelow(base, j, m);
      other := base + Pow2(j);
      AndIgnoresClearBit(base, mask, j);
    }
    assert other < Pow2(m) && Matches(other, base, mask);
    assert !ScannedRange(base, mask).Contains(other);
  }

  lemma MisalignmentBreaksMaskedSet(base: nat, mask: nat, m: nat)
    requires 0 < mask < Pow2(m) && base < Pow2(m)
    requires mask == Pow2(m) - Pow2(BitScanForward(mask)) && base % Pow2(BitScanForward(mask)) != 0
    ensures !IsMatchedSet(ScannedRange(base, mask), base, mask, Pow2(m))
  {
    var p := Pow2(BitScanForward(mask));
    ScanBelowWidth(mask, m);
    var other := RoundDown(base, p);
    AndHighMask(base, BitScanForward(mask), m);
    AndHighMask(other, BitScanForward(mask), m);
    assert other < Pow2(m) && Matches(other, base, mask);
    assert !ScannedRange(base, mask).Contains(other);
  }

  lemma MaskedSetCharacterised(base: nat, mask: nat, m: nat)
    requires 0 < mask < Pow2(m) && base < Pow2(m)
    ensures IsMatchedSet(ScannedRange(base, mask), base, mask, Pow2(m)) <==> ContiguousAndAligned(base, mask, m)
  {
    if ContiguousAndAligned(base, mask, m) {
      ContiguousGivesMaskedSet(base, mask, m);
    } else if mask != Pow2(m) - Pow2(BitScanForward(mask)) {
      HoleBreaksMaskedSet(base, mask, m);
    } else {
      MisalignmentBreaksMaskedSet(base, mask, m);
    }
  }

  lemma ScanOfDouble(v: nat)
    requires v > 0
    ensures BitScanForward(2 * v) == BitScanForward(v) + 1
  {
    assert (2 * v) / 2 == v;
  }

  lemma ScanOfTimes16(v: nat)
    requires v > 0
    ensures BitScanForward(0x10 * v) == BitScanForward(v) + 4
  {
    ScanOfDouble(v);
    ScanOfDouble(2 * v);
    ScanOfDouble(4 * v);
    ScanOfDouble(8 * v);
  }

  lemma ScanOfPageNumber(v: nat)
    requires v > 0
    ensures BitScanForward(v * 0x1000) == BitScanForward(v) + 12
  {
    ScanOfTimes16(v);
    ScanOfTimes16(0x10 * v);
    ScanOfTimes16(0x100 * v);
  }

  lemma SizeIsLowestMaskBit(r: LegalVariableMtrr)
    requires r.Enabled()
    ensures r.Size() == Pow2(BitScanForward(r.MaskAddress()))
  {
    Pow2Values();
    ScanOfPageNumber(r.mask / 0x1000);
    Pow2Add(BitScanForward(r.mask / 0x1000), 12);
  }

  /**
   The range decoded from an enabled register pair is the set of addresses the pair matches, on a
   processor with `m` physical-address bits, exactly when the mask is contiguous and the base aligned.
   */
  lemma DecodedRangeIsMatchedSet(r: LegalVariableMtrr, m: nat)
    requires r.Enabled() && r.Decodes()
    requires r.base < Pow2(m) && r.mask < Pow2(m)
    ensures IsMatchedSet(r.Decode().range, r.BaseAddress(), r.MaskAddress(), Pow2(m)) <==>
            ContiguousAndAligned(r.BaseAddress(), r.MaskAddress(), m)
  {
    SizeIsLowestMaskBit(r);
    MaskedSetCharacterised(r.BaseAddress(), r.MaskAddress(), m);
    assert r.Decode().range == ScannedRange(r.BaseAddress(), r.MaskAddress());
  }

  // ---------------------------------------------------------------- precedence and register order

  /** Section 12.11.4.1: the overlaps for which the manual defines the resulting type. */
  predicate PrecedenceDefined(types: seq<MemoryType>) {
    || Uncachable in types
    || (forall t | t in types :: t == types[0])
    || (forall t | t in types :: t == WriteThrough || t == WriteBack)
  }

  /** The type that section 12.11.4.1 gives to such an overlap, or the default type without any range. */
  function PrecedenceType(types: seq<MemoryType>, default: MemoryType): MemoryType
    requires PrecedenceDefined(types)
  {
    if types == [] then default
    else if Uncachable in types then Uncachable
    else if forall t | t in types :: t == types[0] then types[0]
    else WriteThrough
  }

  lemma ResolveFollowsPrecedence(types: seq<MemoryType>, default: MemoryType)
    requires PrecedenceDefined(types)
    ensures Resolve(types, default) == PrecedenceType(types, default)
  {
    if !(forall t | t in types :: t == types[0]) {
      var t :| t in types && t != types[0];
      assert types[0] in types;
    }
  }

  /** The covering types of a page, straight from the registers. */
  ghost function PageTypes(regs: seq<LegalVariableMtrr>, p: nat): seq<MemoryType>
    requires AllDecode(regs)
  {
    Cover(VariableRanges(regs), p)
  }

  /** What `find` answers for a page through the merged list. */
  ghost function PageAnswer(regs: seq<LegalVariableMtrr>, default: MemoryType, p: nat): Option<MemoryType>
    requires AllDecode(regs)
  {
    LookupVariable(CombineAll(VariableRanges(regs)), default, PageAt(p))
  }

  /** Every page query is answered, and as on the unmerged registers. */
  lemma PageAnswerFromRegisters(regs: seq<LegalVariableMtrr>, default: MemoryType, p: nat)
    requires AllDecode(regs) && p % 0x1000 == 0
    ensures PageAnswer(regs, default, p) == Some(Resolve(PageTypes(regs, p), default))
  {
    var rs := VariableRanges(regs);
    VariableRangesShape(regs);
    CombineAllPageAligned(rs);
    PageNeverBlocked(CombineAll(rs), p);
    MergingKeepsCover(rs, p);
  }

  /** No permutation of the registers changes the answer for page `p`. */
  ghost predicate OrderIndependent(regs: seq<LegalVariableMtrr>, default: MemoryType, p: nat)
    requires AllDecode(regs)
  {
    forall regs': seq<LegalVariableMtrr> | multiset(regs') == multiset(regs) && AllDecode(regs') ::
      PageAnswer(regs', default, p) == PageAnswer(regs, default, p)
  }

  lemma SplitLast<T>(xs: seq<T>, ys: seq<T>)
    requires ys != []
    ensures ys == ys[..|ys| - 1] + [ys[|ys| - 1]]
    ensures xs + ys == (xs + ys[..|ys| - 1]) + [ys[|ys| - 1]]
  {
  }

  lemma {:induction false} CoverConcat(xs: seq<MemoryTypeRange>, ys: seq<MemoryTypeRange>, a: nat)
    ensures Cover(xs + ys, a) == Cover(xs, a) + Cover(ys, a)
  {
    if ys == [] {
      assert xs + ys == xs;
    } else {
      var n := |ys| - 1;
      CoverConcat(xs, ys[..n], a);
      SplitLast(xs, ys);
      CoverSnoc(xs + ys[..n], ys[n], a);
    }
  }

  lemma {:induction false} VariableRangesConcat(xs: seq<LegalVariableMtrr>, ys: seq<LegalVariableMtrr>)
    requires AllDecode(xs) && AllDecode(ys)
    ensures AllDecode(xs + ys)
    ensures VariableRanges(xs + ys) == VariableRanges(xs) + VariableRanges(ys)
  {
    if ys == [] {
      assert xs + ys == xs;
    } else {
      var n := |ys| - 1;
      VariableRangesConcat(xs, ys[..n]);
      SplitLast(xs, ys);
      VariableRangesSnoc(xs + ys[..n], ys[n]);
      VariableRangesSnoc(ys[..n], ys[n]);
    }
  }

  /** `t` is the type of some enabled register whose range contains `p`. */
  ghost predicate HasType(regs: seq<LegalVariableMtrr>, p: nat, t: MemoryType)
    requires AllDecode(regs)
  {
    exists r | r in regs :: TypeOf(r, p) == [t]
  }

  /** What one register contributes to the covering types of `p`. */
  function TypeOf(r: LegalVariableMtrr, p: nat): seq<MemoryType>
    requires r.Decodes()
  {
    if r.Enabled() && r.Decode().range.Contains(p) then [r.Decode().memoryType] else []
  }

  lemma PageTypesConcat(xs: seq<LegalVariableMtrr>, ys: seq<LegalVariableMtrr>, p: nat)
    requires AllDecode(xs) && AllDecode(ys)
    ensures AllDecode(xs + ys)
    ensures PageTypes(xs + ys, p) == PageTypes(xs, p) + PageTypes(ys, p)
  {
    VariableRangesConcat(xs, ys);
    CoverConcat(VariableRanges(xs), VariableRanges(ys), p);
  }

  lemma PageTypesOne(r: LegalVariableMtrr, p: nat)
    requires r.Decodes()
    ensures PageTypes([r], p) == TypeOf(r, p)
  {
    VariableRangesSnoc([], r);
    assert [] + [r] == [r];
    if r.Enabled() {
      assert [] + [r.Decode()] == [r.Decode()];
      CoverSnoc([], r.Decode(), p);
    }
  }

  lemma PageTypesSnoc(regs: seq<LegalVariableMtrr>, p: nat)
    requires AllDecode(regs) && regs != []
    ensures PageTypes(regs, p) == PageTypes(regs[..|regs| - 1], p) + TypeOf(regs[|regs| - 1], p)
  {
    var init, last := regs[..|regs| - 1], regs[|regs| - 1];
    assert regs == init + [last];
    PageTypesConcat(init, [last], p);
    PageTypesOne(last, p);
  }

  lemma HasTypeSnoc(regs: seq<LegalVariableMtrr>, p: nat, t: MemoryType)
    requires AllDecode(regs) && regs != []
    ensures HasType(regs, p, t) <==> HasType(regs[..|regs| - 1], p, t) || t in TypeOf(regs[|regs| - 1], p)
  {
    var init, last := regs[..|regs| - 1], regs[|regs| - 1];
    assert forall r :: r in regs <==> r in init || r == last;
    assert t in TypeOf(last, p) <==> TypeOf(last, p) == [t];
  }

  lemma {:induction false} PageTypesMembers(regs: seq<LegalVariableMtrr>, p: nat, t: MemoryType)
    requires AllDecode(regs)
    ensures t in PageTypes(regs, p) <==> HasType(regs, p, t)
  {
    if regs != [] {
      PageTypesMembers(regs[..|regs| - 1], p, t);
      PageTypesSnoc(regs, p);
      HasTypeSnoc(regs, p, t);
    }
  }

  /** Registers in another order have the same covering types, up to order. */
  lemma PermutationKeepsTypes(regs: seq<LegalVariableMtrr>, regs': seq<LegalVariableMtrr>, p: nat, t: MemoryType)
    requires AllDecode(regs) && AllDecode(regs') && multiset(regs') == multiset(regs)
    ensures t in PageTypes(regs, p) <==> t in PageTypes(regs', p)
  {
    PageTypesMembers(regs, p, t);
    PageTypesMembers(regs', p, t);
    forall r ensures r in regs <==> r in regs' {
      assert r in regs <==> r in multiset(regs);
      assert r in regs' <==> r in multiset(regs');
    }
  }

  lemma SameMembersSamePrecedence(types: seq<MemoryType>, types': seq<MemoryType>, default: MemoryType)
    requires forall t: MemoryType :: t in types <==> t in types'
    requires PrecedenceDefined(types)
    ensures PrecedenceDefined(types') && PrecedenceType(types', default) == PrecedenceType(types, default)
  {
    assert types != [] ==> types[0] in types;
    assert types' != [] ==> types'[0] in types';
  }

  /** Any register that covers the page can be made the first one that does. */
  lemma MoveToFront(regs: seq<LegalVariableMtrr>, p: nat, t: MemoryType) returns (regs': seq<LegalVariableMtrr>)
    requires AllDecode(regs) && t in PageTypes(regs, p)
    ensures AllDecode(regs') && multiset(regs') == multiset(regs)
    ensures PageTypes(regs', p) != [] && PageTypes(regs', p)[0] == t
  {
    PageTypesMembers(regs, p, t);
    var r :| r in regs && TypeOf(r, p) == [t];
    var i :| 0 <= i < |regs| && regs[i] == r;
    var rest := regs[..i] + regs[i + 1..];
    regs' := [r] + rest;
    assert regs == regs[..i] + [r] + regs[i + 1..];
    PageTypesConcat([r], rest, p);
    PageTypesOne(r, p);
  }

  /**
   The answer for a page is independent of the order of the variable MTRRs exactly for the overlaps
   that section 12.11.4.1 defines, and there it is the type that the section gives.
   */
  lemma OrderIrrelevantExactlyWhereDefined(regs: seq<LegalVariableMtrr>, default: MemoryType, p: nat)
    requires AllDecode(regs) && p % 0x1000 == 0
    ensures OrderIndependent(regs, default, p) <==> PrecedenceDefined(PageTypes(regs, p))
    ensures PrecedenceDefined(PageTypes(regs, p)) ==>
              PageAnswer(regs, default, p) == Some(PrecedenceType(PageTypes(regs, p), default))
  {
    var types := PageTypes(regs, p);
    PageAnswerFromRegisters(regs, default, p);
    if PrecedenceDefined(types) {
      ResolveFollowsPrecedence(types, default);
      forall regs': seq<LegalVariableMtrr> | multiset(regs') == multiset(regs) && AllDecode(regs')
        ensures PageAnswer(regs', default, p) == PageAnswer(regs, default, p)
      {
        PageAnswerFromRegisters(regs', default, p);
        forall t: MemoryType ensures t in types <==> t in PageTypes(regs', p) {
          PermutationKeepsTypes(regs, regs', p, t);
        }
        SameMembersSamePrecedence(types, PageTypes(regs', p), default);
        ResolveFollowsPrecedence(PageTypes(regs', p), default);
      }
    } else {
      UndefinedOverlapDependsOnOrder(regs, default, p);
    }
  }

  lemma UndefinedOverlapDependsOnOrder(regs: seq<LegalVariableMtrr>, default: MemoryType, p: nat)
    requires AllDecode(regs) && p % 0x1000 == 0
    requires !PrecedenceDefined(PageTypes(regs, p))
    ensures !OrderIndependent(regs, default, p)
  {
    var types := PageTypes(regs, p);
    var x :| x in types && x != WriteThrough && x != WriteBack;
    var z :| z in types && z != types[0];
    var y := if z == x then types[0] else z;
    var first := MoveToFront(regs, p, x);
    var second := MoveToFront(regs, p, y);
    PageAnswerFromRegisters(first, default, p);
    PageAnswerFromRegisters(second, default, p);
    PermutationKeepsTypes(regs, first, p, Uncachable);
    PermutationKeepsTypes(regs, second, p, Uncachable);
    assert PageAnswer(first, default, p) != PageAnswer(second, default, p);
  }

  // ---------------------------------------------------------------- the hardware rule alone

  /** Bits 12 and up of the base and mask registers, with `m` physical-address bits. */
  function AddressBits(m: nat): (bits: nat)
    requires m >= 12
  {
    Pow2Monotonic(12, m);
    Pow2(m) - Pow2(12)
  }

  /** Sections 12.11.2.3 and 12.11.3: an enabled pair of type `t` whose base `a` matches under its mask. */
  predicate HardwareGives(r: LegalVariableMtrr, m: nat, a: nat, t: MemoryType)
    requires m >= 12
  {
    var mask := And(r.mask, AddressBits(m));
    Bit(r.mask, 11) && r.base % 0x100 == t.Code() && And(a, mask) == And(And(r.base, AddressBits(m)), mask)
  }

  /** What section 12.11.3 demands of software: a contiguous mask and a base aligned to it. */
  predicate SetUpAsDemanded(r: LegalVariableMtrr, m: nat)
    requires m >= 12
  {
    var base, mask := And(r.base, AddressBits(m)), And(r.mask, AddressBits(m));
    && r.base < Pow2(m) && r.mask < Pow2(m)
    && (Bit(r.mask, 11) ==> mask > 0 && ContiguousAndAligned(base, mask, m))
  }

  ghost predicate AllSetUpAsDemanded(regs: seq<LegalVariableMtrr>, m: nat)
    requires m >= 12
  {
    forall r | r in regs :: SetUpAsDemanded(r, m)
  }

  /** `t` is given to `a` by some register pair. */
  ghost predicate SomeGives(regs: seq<LegalVariableMtrr>, m: nat, a: nat, t: MemoryType)
    requires m >= 12
  {
    exists r | r in regs :: HardwareGives(r, m, a, t)
  }

  lemma AddressPart(v: nat, m: nat)
    requires m >= 12 && v < Pow2(m)
    ensures And(v, AddressBits(m)) == v / 0x1000 * 0x1000
  {
    Pow2Values();
    AndHighMask(v, 12, m);
  }

  /** One register pair contributes a type exactly when the hardware rule gives it. */
  lemma TypeOfFollowsHardware(r: LegalVariableMtrr, m: nat, a: nat, t: MemoryType)
    requires m >= 12 && SetUpAsDemanded(r, m) && r.Decodes() && a < Pow2(m)
    ensures TypeOf(r, a) == [t] <==> HardwareGives(r, m, a, t)
  {
    EnabledIsBit11(r);
    if r.Enabled() {
      AddressPart(r.base, m);
      AddressPart(r.mask, m);
      DecodedRangeIsMatchedSet(r, m);
      assert r.Decode().range.Contains(a) <==> Matches(a, r.BaseAddress(), r.MaskAddress());
    }
  }

  /** The covering types of an address are those that the hardware rule gives, and no others. */
  lemma CoveringTypesFollowHardware(regs: seq<LegalVariableMtrr>, m: nat, a: nat, t: MemoryType)
    requires m >= 12 && AllDecode(regs) && AllSetUpAsDemanded(regs, m) && a < Pow2(m)
    ensures t in PageTypes(regs, a) <==> SomeGives(regs, m, a, t)
  {
    PageTypesMembers(regs, a, t);
    forall r | r in regs ensures TypeOf(r, a) == [t] <==> HardwareGives(r, m, a, t) {
      TypeOfFollowsHardware(r, m, a, t);
    }
  }

  /**
   From registers to answer by the manual alone: for registers set up as it demands, `find` answers a
   page with the default type when none matches, with the common type of those that match, with
   uncachable when one of them is, and with write-through for write-through and write-back.
   */
  lemma PageAnswerByManual(regs: seq<LegalVariableMtrr>, default: MemoryType, m: nat, p: nat)
    requires m >= 12 && AllDecode(regs) && AllSetUpAsDemanded(regs, m) && p < Pow2(m) && p % 0x1000 == 0
    ensures (forall t: MemoryType :: !SomeGives(regs, m, p, t)) ==> PageAnswer(regs, default, p) == Some(default)
    ensures SomeGives(regs, m, p, Uncachable) ==> PageAnswer(regs, default, p) == Some(Uncachable)
    ensures forall t: MemoryType | SomeGives(regs, m, p, t) && (forall u | SomeGives(regs, m, p, u) :: u == t) ::
              PageAnswer(regs, default, p) == Some(t)
    ensures (SomeGives(regs, m, p, WriteThrough) && SomeGives(regs, m, p, WriteBack)
             && forall u | SomeGives(regs, m, p, u) :: u == WriteThrough || u == WriteBack) ==>
              PageAnswer(regs, default, p) == Some(WriteThrough)
  {
    var types := PageTypes(regs, p);
    PageAnswerFromRegisters(regs, default, p);
    forall t: MemoryType ensures t in types <==> SomeGives(regs, m, p, t) {
      CoveringTypesFollowHardware(regs, m, p, t);
    }
    assert types != [] ==> types[0] in types;
  }

  // ---------------------------------------------------------------- concrete registers

  lemma {:induction false} ScanOfShifted(odd: nat, k: nat)
    requires odd % 2 == 1
    ensures Pow2(k) * odd > 0 && BitScanForward(Pow2(k) * odd) == k
  {
    if k == 0 {
      assert Pow2(0) * odd == odd;
    } else {
      ScanOfShifted(odd, k - 1);
      assert Pow2(k) * odd == 2 * (Pow2(k - 1) * odd);
      ScanOfDouble(Pow2(k - 1) * odd);
    }
  }

  /** A mask whose page number is an odd multiple of 2^k describes 2^k pages. */
  lemma SizeOfShiftedMask(r: RawVariableMtrr, odd: nat, k: nat)
    requires odd % 2 == 1 && r.mask / 0x1000 == Pow2(k) * odd > 0
    ensures r.Size() == Pow2(k) * 0x1000
  {
    ScanOfShifted(odd, k);
  }

  /** Write-combining and write-protected, both [2MB, 4MB). */
  const COMBINING_2MB := RawVariableMtrr(0x20_0001, 0xf_ffe0_0800)
  const PROTECTED_2MB := RawVariableMtrr(0x20_0005, 0xf_ffe0_0800)

  lemma Decoded2Mb()
    ensures COMBINING_2MB.Legal() && COMBINING_2MB.Enabled() && COMBINING_2MB.Decodes()
    ensures COMBINING_2MB.Decode() == MemoryTypeRange(WriteCombining, Range(0x20_0000, 0x40_0000))
    ensures PROTECTED_2MB.Legal() && PROTECTED_2MB.Enabled() && PROTECTED_2MB.Decodes()
    ensures PROTECTED_2MB.Decode() == MemoryTypeRange(WriteProtected, Range(0x20_0000, 0x40_0000))
  {
    Pow2Values();
    SizeOfShiftedMask(COMBINING_2MB, 0x7fff, 9);
    SizeOfShiftedMask(PROTECTED_2MB, 0x7fff, 9);
  }

  /** Two registers whose order decides the type of a page. */
  lemma OrderMatters(default: MemoryType)
    ensures COMBINING_2MB.Legal() && COMBINING_2MB.Decodes() && PROTECTED_2MB.Legal() && PROTECTED_2MB.Decodes()
    ensures PageAnswer([COMBINING_2MB, PROTECTED_2MB], default, 0x20_0000) == Some(WriteCombining)
    ensures PageAnswer([PROTECTED_2MB, COMBINING_2MB], default, 0x20_0000) == Some(WriteProtected)
  {
    Decoded2Mb();
    BothOrders(COMBINING_2MB, PROTECTED_2MB, default, 0x20_0000);
    BothOrders(PROTECTED_2MB, COMBINING_2MB, default, 0x20_0000);
  }

  lemma BothOrders(first: LegalVariableMtrr, second: LegalVariableMtrr, default: MemoryType, p: nat)
    requires first.Decodes() && second.Decodes() && p % 0x1000 == 0
    ensures PageAnswer([first, second], default, p) == Some(Resolve(TypeOf(first, p) + TypeOf(second, p), default))
  {
    assert [first] + [second] == [first, second];
    PageTypesConcat([first], [second], p);
    PageTypesOne(first, p);
    PageTypesOne(second, p);
    PageAnswerFromRegisters([first, second], default, p);
  }
}
