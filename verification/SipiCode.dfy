/**
 The handlers of src/hvcore/src/hypervisor/amd/guest.rs on the shared activity states, cut at their
 atomic operations. Each method is one step of the transition system in module Sipi.
 */
module SipiCode {
  import opened ApicId
  import opened Sipi

  class SharedGuestData {
    const activityStates: array<nat>
    const pcs: array<Pc>
    const entries: array<Entry>
    const apicIds: ApicIds

    ghost predicate Valid()
      reads activityStates, pcs, entries, apicIds
    {
      && pcs.Length == entries.Length <= ACTIVITY_STATES == activityStates.Length
      && (forall apicId | apicId in apicIds.apicIdMap :: apicIds.apicIdMap[apicId] < pcs.Length)
    }

    /** The processors as the transition system sees them. */
    ghost function View(): State
      requires Valid()
      reads activityStates, pcs, entries, apicIds
    {
      seq(pcs.Length, p requires 0 <= p < pcs.Length reads activityStates, pcs, entries =>
        Processor(activityStates[p], pcs[p], entries[p]))
    }

    constructor (ids: seq<ApicIdType>, apicIds: ApicIds, entry: Entry)
      requires |ids| <= ACTIVITY_STATES && Numbers(apicIds.apicIdMap, ids)
      ensures Valid() && fresh(activityStates) && fresh(pcs) && fresh(entries)
      ensures |View()| == |ids| && Initial(View()) && this.apicIds == apicIds
    {
      activityStates := new nat[ACTIVITY_STATES](_ => ACTIVE);
      pcs := new Pc[|ids|](_ => Guest);
      entries := new Entry[|ids|](_ => entry);
      this.apicIds := apicIds;
    }

    /** AtomicU8::swap. */
    method Swap(p: nat, value: nat) returns (previous: nat)
      requires Valid() && p < activityStates.Length
      modifies activityStates
      ensures previous == old(activityStates[p])
      ensures activityStates[..] == old(activityStates[..])[p := value]
    {
      previous := activityStates[p];
      activityStates[p] := value;
    }

    /** AtomicU8::compare_exchange. */
    method Exchange(p: nat, current: nat, value: nat) returns (ok: bool)
      requires Valid() && p < activityStates.Length
      modifies activityStates
      ensures ok <==> old(activityStates[p]) == current
      ensures activityStates[..] == if ok then old(activityStates[..])[p := value] else old(activityStates[..])
    {
      ok := activityStates[p] == current;
      if ok { activityStates[p] := value; }
    }

    /** `handle_init_signal`: the swap, its assert, and the reset of the guest state. */
    method HandleInitSignal(id: nat)
      requires Valid() && Enabled(View(), TakeInit(id))
      modifies activityStates, pcs, entries
      ensures Valid() && View() == Next(apicIds.apicIdMap, old(View()), TakeInit(id))
    {
      if id == 0 {
        pcs[id] := Panicked(InitOnBsp);
        return;
      }
      var previous := Swap(id, WAIT_FOR_SIPI);
      assert forall q | 0 <= q < pcs.Length && q != id :: activityStates[..][q] == old(activityStates[..])[q];
      if previous != ACTIVE {
        pcs[id] := Panicked(InitWhileNotActive);
        return;
      }
      entries[id] := RESET_ENTRY;
      pcs[id] := Spinning;
    }

    /** One load of the loop in `wait_for_sipi`. */
    method PollActivityState(id: nat)
      requires Valid() && Enabled(View(), SpinLoad(id))
      modifies pcs
      ensures Valid() && View() == Next(apicIds.apicIdMap, old(View()), SpinLoad(id))
    {
      var state := activityStates[id];
      if state != WAIT_FOR_SIPI {
        pcs[id] := Leaving(state);
      }
    }

    /** The swap that returns the vector from `wait_for_sipi`. */
    method TakeVector(id: nat)
      requires Valid() && Enabled(View(), WakeSwap(id))
      modifies activityStates, pcs
      ensures Valid() && View() == Next(apicIds.apicIdMap, old(View()), WakeSwap(id))
    {
      var vector := Swap(id, ACTIVE);
      assert forall q | 0 <= q < pcs.Length && q != id :: activityStates[..][q] == old(activityStates[..])[q];
      pcs[id] := Woken(vector);
    }

    /** `handle_sipi`. */
    method HandleSipi(id: nat)
      requires Valid() && Enabled(View(), StartGuest(id))
      modifies pcs, entries
      ensures Valid() && View() == Next(apicIds.apicIdMap, old(View()), StartGuest(id))
      ensures old(activityStates[id]) == 0 ==>
                entries[id] == Entry(0x100 * old(pcs[id].vector), 0x1000 * old(pcs[id].vector), 0)
    {
      var vector := pcs[id].vector;
      if activityStates[id] != ACTIVE {
        pcs[id] := Panicked(NotActiveOnStart);
        return;
      }
      entries[id] := Entry(vector * 0x100, vector * 0x1000, 0);
      pcs[id] := Guest;
    }

    /** The Startup-IPI part of `handle_nested_page_fault` up to its compare-exchange. */
    method DecodeSipi(id: nat, apicId: ApicIdType, vector: nat)
      requires Valid() && Enabled(View(), BeginSend(id, apicId, vector))
      modifies pcs
      ensures Valid() && View() == Next(apicIds.apicIdMap, old(View()), BeginSend(id, apicId, vector))
    {
      var processorId := apicIds.ProcessorIdFrom(apicId);
      if processorId.None? {
        pcs[id] := Panicked(UnknownApicId);
        return;
      }
      if vector == WAIT_FOR_SIPI {
        pcs[id] := Panicked(VectorTaken);
        return;
      }
      pcs[id] := Sending(processorId.value, vector);
    }

    /** Its compare-exchange on the state of the target. */
    method DeliverSipi(id: nat)
      requires Valid() && Inv(View()) && Enabled(View(), CompareExchange(id))
      modifies activityStates, pcs
      ensures Valid() && View() == Next(apicIds.apicIdMap, old(View()), CompareExchange(id))
    {
      assert GoodProcessor(|View()|, View()[id]);
      var Sending(target, vector) := pcs[id];
      var _ := Exchange(target, WAIT_FOR_SIPI, vector);
      assert forall q | 0 <= q < pcs.Length && q != target :: activityStates[..][q] == old(activityStates[..])[q];
      assert activityStates[..][target] == activityStates[target];
      pcs[id] := Guest;
    }

    /** The guest of one processor runs for a while. */
    method RunGuest(id: nat, entry: Entry)
      requires Valid() && Enabled(View(), Execute(id, entry))
      modifies entries
      ensures Valid() && View() == Next(apicIds.apicIdMap, old(View()), Execute(id, entry))
    {
      entries[id] := entry;
    }

    /** Any interleaving of the handlers of all processors. */
    method Interleave(schedule: seq<Action>)
      requires Valid() && Inv(View()) && IsRun(apicIds.apicIdMap, View(), schedule)
      modifies activityStates, pcs, entries
      ensures Valid() && Inv(View())
      ensures View() == After(apicIds.apicIdMap, old(View()), schedule)
    {
      ghost var start := View();
      for i := 0 to |schedule|
        invariant Valid() && Inv(View())
        invariant |View()| == |start|
        invariant IsRun(apicIds.apicIdMap, View(), schedule[i..])
        invariant After(apicIds.apicIdMap, View(), schedule[i..]) == After(apicIds.apicIdMap, start, schedule)
      {
        var a := schedule[i];
        assert schedule[i..][0] == a && schedule[i..][1..] == schedule[i + 1..];
        NextKeepsInv(apicIds.apicIdMap, View(), a);
        match a {
          case Execute(id, entry) => RunGuest(id, entry);
          case TakeInit(id) => HandleInitSignal(id);
          case SpinLoad(id) => PollActivityState(id);
          case WakeSwap(id) => TakeVector(id);
          case StartGuest(id) => HandleSipi(id);
          case BeginSend(id, apicId, vector) => DecodeSipi(id, apicId, vector);
          case CompareExchange(id) => DeliverSipi(id);
        }
      }
    }
  }

  /**
   The processors register with the APIC IDs `ids` in this order and share their data; from then on a
   schedule of the handlers runs. `ok` is false when an assert of the registration fires.
   */
  method Boot(ids: seq<ApicIdType>, entry: Entry) returns (ok: bool, apicIds: ApicIds, shared: SharedGuestData?)
    requires |ids| <= ACTIVITY_STATES
    ensures ok <==> Distinct(ids)
    ensures ok ==> Numbers(apicIds.apicIdMap, ids)
    ensures ok <==> shared != null
    ensures ok ==> shared.apicIds == apicIds && shared.Valid() && |shared.View()| == |ids| && Initial(shared.View())
    ensures fresh(apicIds) && (ok ==> fresh(shared.activityStates) && fresh(shared.pcs) && fresh(shared.entries))
  {
    apicIds := new ApicIds();
    shared := null;
    ok := apicIds.Init(ids);
    if ok {
      shared := new SharedGuestData(ids, apicIds, entry);
    }
  }
}
