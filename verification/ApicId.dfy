/** The dense numbering of processors by APIC ID (src/hvcore/src/hypervisor/apic_id.rs). */
module ApicId {
  import opened Option

  type ApicIdType = b: nat | b < 0x100

  ghost predicate Distinct(ids: seq<ApicIdType>) {
    forall i, j | 0 <= i < j < |ids| :: ids[i] != ids[j]
  }

  /** The map gives the processor that registered k-th the number k, and knows no other APIC ID. */
  ghost predicate Numbers(m: map<ApicIdType, nat>, ids: seq<ApicIdType>) {
    && (forall i | 0 <= i < |ids| :: ids[i] in m && m[ids[i]] == i)
    && (forall a | a in m :: m[a] < |ids| && ids[m[a]] == a)
  }

  /** Such a map is a bijection between the APIC IDs and 0..count-1, and the IDs are distinct. */
  lemma NumbersIsBijection(m: map<ApicIdType, nat>, ids: seq<ApicIdType>)
    requires Numbers(m, ids)
    ensures forall a, b | a in m && b in m && m[a] == m[b] :: a == b
    ensures forall i: nat :: i in m.Values <==> i < |ids|
    ensures Distinct(ids)
    ensures |m| == |ids|
  {
    forall i: nat | i < |ids| ensures i in m.Values {
      assert ids[i] in m && m[ids[i]] == i;
    }
    CountKeys(m, ids);
  }

  lemma {:induction false} CountKeys(m: map<ApicIdType, nat>, ids: seq<ApicIdType>)
    requires Numbers(m, ids)
    ensures |m| == |ids|
  {
    if ids == [] {
      assert m == map[];
    } else {
      var n := |ids| - 1;
      var a := ids[n];
      var rest := m - {a};
      assert Numbers(rest, ids[..n]) by {
        forall i | 0 <= i < n ensures ids[i] in rest && rest[ids[i]] == i {
          assert m[ids[i]] == i;
        }
      }
      CountKeys(rest, ids[..n]);
      assert m == rest[a := n];
    }
  }

  /** APIC_ID_MAP and PROCESSOR_COUNT. */
  class ApicIds {
    var apicIdMap: map<ApicIdType, nat>
    var processorCount: nat

    constructor ()
      ensures apicIdMap == map[] && processorCount == 0
    {
      apicIdMap := map[];
      processorCount := 0;
    }

    /** The callback that runs once on each processor; `ok` is false when the assert fires. */
    method Register(apicId: ApicIdType) returns (ok: bool)
      modifies this
      ensures ok <==> apicId !in old(apicIdMap)
      ensures apicIdMap == old(apicIdMap)[apicId := old(processorCount)]
      ensures processorCount == old(processorCount) + 1
    {
      ok := apicId !in apicIdMap;
      apicIdMap := apicIdMap[apicId := processorCount];
      processorCount := processorCount + 1;
    }

    /** `init` with the APIC IDs of the processors in the order in which their callbacks run. */
    method Init(ids: seq<ApicIdType>) returns (ok: bool)
      modifies this
      requires apicIdMap == map[] || processorCount != 0
      ensures ok <==> old(processorCount) == 0 && Distinct(ids)
      ensures ok ==> Numbers(apicIdMap, ids) && processorCount == |ids|
    {
      if processorCount != 0 {
        return false;
      }
      for i := 0 to |ids|
        invariant processorCount == i
        invariant Numbers(apicIdMap, ids[..i])
        invariant Distinct(ids[..i])
      {
        var fresh' := Register(ids[i]);
        if !fresh' {
          return false;
        }
      }
      assert ids[..|ids|] == ids;
      return true;
    }

    /** `processor_id_from`. */
    function ProcessorIdFrom(apicId: ApicIdType): Option<nat>
      reads this
    {
      if apicId in apicIdMap then Some(apicIdMap[apicId]) else None
    }
  }
}
