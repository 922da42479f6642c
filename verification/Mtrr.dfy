/**
 Decoding of the raw fixed and variable MTRRs and the `find` query
 (src/hvcore/src/hypervisor/intel/mtrr.rs).
 */
module Mtrr {
  import opened Option
  import opened Bits
  import opened MemoryRanges

  const ONE_MB := 0x10_0000
  /** Physical addresses have at most 52 bits. */
  const MAX_PHYSICAL := 0x10_0000_0000_0000
  const U64_SIZE := 0x1_0000_0000_0000_0000

  // ---------------------------------------------------------------- variable MTRRs

  datatype RawVariableMtrr = RawVariableMtrr(base: nat, mask: nat) {
    /** IA32_MTRR_PHYSMASK_VALID_FLAG, bit 11. */
    predicate Enabled() { (mask / 0x800) % 2 == 1 }

    /** The mask and base fields as addresses, without the flag and type bits below bit 12. */
    function MaskAddress(): nat { mask / 0x1000 * 0x1000 }

    function BaseAddress(): nat { base / 0x1000 * 0x1000 }

    /**
     What the hardware guarantees of the register pair: no reserved bit from bit 52 on is set, and
     an enabled pair has a mask bit (BSF has no defined result otherwise).
     */
    predicate Legal() {
      base < MAX_PHYSICAL && mask < MAX_PHYSICAL && (Enabled() ==> mask / 0x1000 > 0)
    }

    /** The type byte of an enabled register pair is one that the code can name. */
    predicate Decodes() { Enabled() ==> MemoryType.FromCode(base % 0x100).Some? }

    function Size(): nat
      requires mask / 0x1000 > 0
    {
      Pow2(BitScanForward(mask / 0x1000)) * 0x1000
    }

    function Decode(): MemoryTypeRange
      requires Enabled() && mask / 0x1000 > 0 && Decodes()
    {
      MemoryTypeRange(MemoryType.FromCode(base % 0x100).value, Range(BaseAddress(), BaseAddress() + Size()))
    }
  }

  type LegalVariableMtrr = r: RawVariableMtrr | r.Legal() witness RawVariableMtrr(0, 0)

  ghost predicate AllDecode(regs: seq<LegalVariableMtrr>) {
    forall i | 0 <= i < |regs| :: regs[i].Decodes()
  }

  /** The enabled registers as ranges, one each, in register order and not merged. */
  ghost function VariableRanges(regs: seq<LegalVariableMtrr>): seq<MemoryTypeRange>
    requires AllDecode(regs)
  {
    if regs == [] then []
    else
      var n := |regs| - 1;
      VariableRanges(regs[..n]) + (if regs[n].Enabled() then [regs[n].Decode()] else [])
  }

  /** The code takes a register pair for enabled exactly when bit 11 of its mask is set. */
  lemma EnabledIsBit11(r: RawVariableMtrr)
    ensures r.Enabled() <==> Bit(r.mask, 11)
  {
    Pow2Values();
    BitByDivision(r.mask, 11);
  }

  lemma SizeBounds(r: RawVariableMtrr)
    requires r.mask / 0x1000 > 0
    ensures 0x1000 <= r.Size() <= r.mask
    ensures r.Size() % 0x1000 == 0
  {
    BitScanFindsLowestBit(r.mask / 0x1000);
    var p := Pow2(BitScanForward(r.mask / 0x1000));
    assert 1 <= p <= r.mask / 0x1000;
  }

  /** Decoded ranges are nonempty, page aligned and computed without 64-bit wrap-around. */
  lemma DecodeShape(r: LegalVariableMtrr)
    requires r.Enabled() && r.Decodes()
    ensures r.Decode().range.NonEmpty() && PageAligned(r.Decode().range)
    ensures r.Decode().range.end < U64_SIZE
  {
    SizeBounds(r);
  }

  lemma {:induction false} VariableRangesShape(regs: seq<LegalVariableMtrr>)
    requires AllDecode(regs)
    ensures AllNonEmpty(VariableRanges(regs)) && AllPageAligned(VariableRanges(regs))
  {
    if regs != [] {
      var n := |regs| - 1;
      VariableRangesShape(regs[..n]);
      if regs[n].Enabled() { DecodeShape(regs[n]); }
    }
  }

  lemma VariableRangesSnoc(regs: seq<LegalVariableMtrr>, r: LegalVariableMtrr)
    requires AllDecode(regs) && r.Decodes()
    ensures AllDecode(regs + [r])
    ensures VariableRanges(regs + [r]) ==
            if r.Enabled() then VariableRanges(regs) + [r.Decode()] else VariableRanges(regs)
  {
    assert (regs + [r])[..|regs|] == regs;
  }

  /** The range of one enabled register pair; `None` is the panic on its type byte. */
  method DecodeEnabled(rawVariable: LegalVariableMtrr) returns (r: Option<MemoryTypeRange>)
    requires rawVariable.Enabled()
    ensures r.Some? <==> rawVariable.Decodes()
    ensures r.Some? ==> r.value == rawVariable.Decode()
  {
    var pfn := rawVariable.mask / 0x1000;
    var length := BitScanForward(pfn);
    var sizeInPages := Pow2(length);
    var sizeInBytes := sizeInPages * 0x1000;
    var memoryType := MemoryType.FromCode(rawVariable.base % 0x100);
    if memoryType.None? {
      return None;
    }
    var base := rawVariable.base - rawVariable.base % 0x1000;
    return Some(MemoryTypeRange(memoryType.value, Range(base, base + sizeInBytes)));
  }

  /** `convert_from_raw_variable`; `None` is the panic on a type byte that does not decode. */
  method ConvertFromRawVariable(rawVariableMtrrs: seq<LegalVariableMtrr>) returns (r: Option<seq<MemoryTypeRange>>)
    ensures r.Some? <==> AllDecode(rawVariableMtrrs)
    ensures r.Some? <==> forall i | 0 <= i < |rawVariableMtrrs| && Bit(rawVariableMtrrs[i].mask, 11) ::
                           MemoryType.FromCode(rawVariableMtrrs[i].base % 0x100).Some?
    ensures r.Some? ==> r.value == CombineAll(VariableRanges(rawVariableMtrrs))
  {
    forall i | 0 <= i < |rawVariableMtrrs|
      ensures rawVariableMtrrs[i].Enabled() <==> Bit(rawVariableMtrrs[i].mask, 11)
    {
      EnabledIsBit11(rawVariableMtrrs[i]);
    }
    var combinedRanges := new CombinedRanges();
    for i := 0 to |rawVariableMtrrs|
      invariant fresh(combinedRanges)
      invariant AllDecode(rawVariableMtrrs[..i])
      invariant combinedRanges.ranges == CombineAll(VariableRanges(rawVariableMtrrs[..i]))
    {
      var rawVariable := rawVariableMtrrs[i];
      assert rawVariableMtrrs[..i + 1] == rawVariableMtrrs[..i] + [rawVariable];
      if rawVariable.mask / 0x800 % 2 != 0 {
        var range := DecodeEnabled(rawVariable);
        if range.None? {
          assert !rawVariableMtrrs[i].Decodes();
          return None;
        }
        combinedRanges.Update(range.value);
        CombineAllSnoc(VariableRanges(rawVariableMtrrs[..i]), range.value);
      }
      VariableRangesSnoc(rawVariableMtrrs[..i], rawVariable);
    }
    assert rawVariableMtrrs[..|rawVariableMtrrs|] == rawVariableMtrrs;
    return Some(combinedRanges.ranges);
  }

  // ---------------------------------------------------------------- fixed MTRRs

  /** FIXED_MTRR_RANGES: base address and sub-range size of each of the eleven registers. */
  const FIXED_MTRR_RANGES: seq<(nat, nat)> := [
    (0x0, 0x10000),
    (0x80000, 0x4000),
    (0xA0000, 0x4000),
    (0xC0000, 0x1000),
    (0xC8000, 0x1000),
    (0xD0000, 0x1000),
    (0xD8000, 0x1000),
    (0xE0000, 0x1000),
    (0xE8000, 0x1000),
    (0xF0000, 0x1000),
    (0xF8000, 0x1000)
  ]

  type RawFixedMtrr = v: nat | v < U64_SIZE

  /** Byte `j` of the value, counted from the least significant one. */
  function Byte(value: nat, j: nat): nat {
    if j == 0 then value % 0x100 else Byte(value / 0x100, j - 1)
  }

  /** Element `j` of `value.to_be_bytes()`: the most significant byte comes first. */
  function BigEndianByte(value: nat, j: nat): nat
    requires j < 8
  {
    Byte(value, 7 - j)
  }

  /** Sub-range number n = 8 * register + position has a type byte that the code can name. */
  predicate FixedByteDecodes(raw: seq<RawFixedMtrr>, n: nat)
    requires |raw| == 11 && n < 88
  {
    MemoryType.FromCode(BigEndianByte(raw[n / 8], n % 8)).Some?
  }

  ghost predicate AllFixedDecode(raw: seq<RawFixedMtrr>)
    requires |raw| == 11
  {
    forall n: nat | n < 88 :: FixedByteDecodes(raw, n)
  }

  /** Sub-range `j` of the register that starts at `info.0` and has sub-ranges of `info.1` bytes. */
  function SubRange(info: (nat, nat), j: nat): Range {
    var base := info.0 + info.1 * j;
    Range(base, base + info.1)
  }

  /** The addresses of sub-range `n`. */
  function FixedSpan(n: nat): Range
    requires n < 88
  {
    SubRange(FIXED_MTRR_RANGES[n / 8], n % 8)
  }

  /** Sub-range `n`, not merged. */
  function FixedRange(raw: seq<RawFixedMtrr>, n: nat): MemoryTypeRange
    requires |raw| == 11 && n < 88 && FixedByteDecodes(raw, n)
  {
    MemoryTypeRange(MemoryType.FromCode(BigEndianByte(raw[n / 8], n % 8)).value, FixedSpan(n))
  }

  ghost function FixedRanges(raw: seq<RawFixedMtrr>): seq<MemoryTypeRange>
    requires |raw| == 11 && AllFixedDecode(raw)
  {
    seq(88, n requires 0 <= n < 88 => FixedRange(raw, n))
  }

  /** The first `n` sub-ranges decode and are the ones in `fed`. */
  ghost predicate Fed(raw: seq<RawFixedMtrr>, fed: seq<MemoryTypeRange>, n: nat)
    requires |raw| == 11 && n <= 88
  {
    |fed| == n && forall k: nat | k < n :: FixedByteDecodes(raw, k) && fed[k] == FixedRange(raw, k)
  }

  lemma FedSnoc(raw: seq<RawFixedMtrr>, fed: seq<MemoryTypeRange>, n: nat)
    requires |raw| == 11 && n < 88 && Fed(raw, fed, n) && FixedByteDecodes(raw, n)
    ensures Fed(raw, fed + [FixedRange(raw, n)], n + 1)
  {
  }

  /** The body for one sub-range; `None` is the panic. */
  method DecodeFixedByte(value: RawFixedMtrr, info: (nat, nat), j: nat) returns (r: Option<MemoryTypeRange>)
    requires j < 8
    ensures r.Some? <==> MemoryType.FromCode(BigEndianByte(value, j)).Some?
    ensures r.Some? ==>
              r.value == MemoryTypeRange(MemoryType.FromCode(BigEndianByte(value, j)).value, SubRange(info, j))
  {
    var memoryType := MemoryType.FromCode(BigEndianByte(value, j));
    if memoryType.None? {
      return None;
    }
    var base := info.0 + info.1 * j;
    return Some(MemoryTypeRange(memoryType.value, Range(base, base + info.1)));
  }

  /** The eight sub-ranges of register `i`; `ok` is false at the panic. */
  method ConvertFixedRegister(combinedRanges: CombinedRanges, raw: seq<RawFixedMtrr>, i: nat,
                              ghost fedBefore: seq<MemoryTypeRange>)
    returns (ok: bool, ghost fed: seq<MemoryTypeRange>)
    requires |raw| == 11 && i < 11
    requires Fed(raw, fedBefore, 8 * i) && combinedRanges.ranges == CombineAll(fedBefore)
    modifies combinedRanges
    ensures ok ==> Fed(raw, fed, 8 * i + 8) && combinedRanges.ranges == CombineAll(fed)
    ensures !ok ==> !AllFixedDecode(raw)
  {
    fed := fedBefore;
    for j := 0 to 8
      invariant Fed(raw, fed, 8 * i + j) && combinedRanges.ranges == CombineAll(fed)
    {
      ghost var n := 8 * i + j;
      assert n / 8 == i && n % 8 == j;
      var range := DecodeFixedByte(raw[i], FIXED_MTRR_RANGES[i], j);
      if range.None? {
        assert !FixedByteDecodes(raw, n);
        return false, fed;
      }
      combinedRanges.Update(range.value);
      FedSnoc(raw, fed, n);
      CombineAllSnoc(fed, range.value);
      fed := fed + [range.value];
    }
    ok := true;
  }

  /** `convert_from_raw_fixed`; `None` is the panic on a wrong count or a byte that does not decode. */
  method ConvertFromRawFixed(rawFixedMtrrs: seq<RawFixedMtrr>) returns (r: Option<seq<MemoryTypeRange>>)
    ensures r.Some? <==> |rawFixedMtrrs| == 11 && AllFixedDecode(rawFixedMtrrs)
    ensures r.Some? ==> r.value == CombineAll(FixedRanges(rawFixedMtrrs))
  {
    if |rawFixedMtrrs| != |FIXED_MTRR_RANGES| {
      return None;
    }
    var combinedRanges := new CombinedRanges();
    ghost var fed: seq<MemoryTypeRange> := [];
    for i := 0 to |rawFixedMtrrs|
      invariant fresh(combinedRanges)
      invariant Fed(rawFixedMtrrs, fed, 8 * i) && combinedRanges.ranges == CombineAll(fed)
    {
      var ok;
      ok, fed := ConvertFixedRegister(combinedRanges, rawFixedMtrrs, i, fed);
      if !ok {
        return None;
      }
    }
    assert fed == FixedRanges(rawFixedMtrrs);
    return Some(combinedRanges.ranges);
  }

  // ---------------------------------------------------------------- the decoded MTRRs

  datatype RawMtrrs = RawMtrrs(
    defaultMemoryType: MemoryType, fixed: seq<RawFixedMtrr>, variable: seq<LegalVariableMtrr>)
  {
    ghost predicate Decodes() { |fixed| == 11 && AllFixedDecode(fixed) && AllDecode(variable) }
  }

  datatype Mtrr = Mtrr(defaultMemoryType: MemoryType, fixed: seq<MemoryTypeRange>, variable: seq<MemoryTypeRange>) {

    /** What `find` answers. */
    function Lookup(range: Range): Option<MemoryType>
      requires range.NonEmpty()
    {
      if range.start < ONE_MB then
        if range.end > ONE_MB then None else LookupFixed(fixed, range)
      else
        LookupVariable(variable, defaultMemoryType, range)
    }

    method Find(range: Range) returns (r: Option<MemoryType>)
      requires range.NonEmpty()
      ensures r == Lookup(range)
    {
      if range.start < ONE_MB {
        if range.end > ONE_MB {
          return None;
        }
        return LookupFixed(fixed, range);
      }
      r := FindFromVariable(variable, defaultMemoryType, range);
    }
  }

  /** The MTRRs as `Mtrr::new` decodes them. */
  ghost function Decoded(raw: RawMtrrs): Mtrr
    requires raw.Decodes()
  {
    Mtrr(raw.defaultMemoryType, CombineAll(FixedRanges(raw.fixed)), CombineAll(VariableRanges(raw.variable)))
  }

  method New(raw: RawMtrrs) returns (r: Option<Mtrr>)
    ensures r.Some? <==> raw.Decodes()
    ensures r.Some? ==> r.value == Decoded(raw)
  {
    var fixed := ConvertFromRawFixed(raw.fixed);
    var variable := ConvertFromRawVariable(raw.variable);
    if fixed.None? || variable.None? {
      return None;
    }
    return Some(Mtrr(raw.defaultMemoryType, fixed.value, variable.value));
  }
}
