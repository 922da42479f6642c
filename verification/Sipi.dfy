/**
 The emulation of INIT and Startup IPI on AMD: one shared byte per processor, updated by an atomic
 swap on INIT, polled in a spin loop, swapped back on wake-up, and written by the sender's
 compare-exchange (src/hvcore/src/hypervisor/amd/guest.rs). Every atomic operation is one step of
 an interleaved transition system over any number of processors, each of which may also send.
 */
module Sipi {
  import opened Option
  import opened ApicId

  const ACTIVE := 0
  const WAIT_FOR_SIPI := 0xFF
  const ACTIVITY_STATES := 0xFF              // the length of the shared array

  /** Where guest execution continues: the CS selector, the CS base and RIP. */
  datatype Entry = Entry(csSelector: nat, csBase: nat, rip: nat)

  /** A Startup IPI with vector VV starts at VV00:0000, with the base that real mode gives the selector. */
  function StartAt(vector: nat): (e: Entry)
    ensures e.csBase == 0x1000 * vector && e.csBase == 0x10 * e.csSelector && e.rip == 0
  {
    Entry(vector * 0x100, vector * 0x1000, 0)
  }

  /** What `handle_init_signal` writes. */
  const RESET_ENTRY := Entry(0xf000, 0xffff0000, 0xfff0)

  datatype Cause =
    | InitOnBsp            // assert!(self.id != 0)
    | InitWhileNotActive   // assert on the value swapped out on INIT
    | NotActiveOnStart     // assert on the value loaded in handle_sipi
    | VectorTaken          // assert!(vector != WaitForSipi)
    | UnknownApicId        // unwrap of processor_id_from

  /** The next shared-memory operation of a processor. */
  datatype Pc =
    | Guest                                    // in guest mode
    | Spinning                                 // about to load its activity state
    | Leaving(seen: nat)                       // loaded a value that ends the loop, about to swap
    | Woken(vector: nat)                       // swapped out the vector, about to start the guest
    | Sending(target: nat, sipiVector: nat)    // about to compare-exchange the target's state
    | Panicked(cause: Cause)

  datatype Processor = Processor(activity: nat, pc: Pc, entry: Entry)

  type State = seq<Processor>

  datatype Action =
    | Execute(id: nat, entry: Entry)                       // guest code runs
    | TakeInit(id: nat)                                    // #SX: handle_init_signal
    | SpinLoad(id: nat)                                    // one iteration of wait_for_sipi
    | WakeSwap(id: nat)                                    // the swap that ends wait_for_sipi
    | StartGuest(id: nat)                                  // handle_sipi
    | BeginSend(id: nat, apicId: ApicIdType, vector: nat)  // handle_nested_page_fault, up to the lookup
    | CompareExchange(id: nat)                             // the compare-exchange at its end

  predicate Enabled(s: State, a: Action) {
    && a.id < |s|
    && match a
       case Execute(p, _) => s[p].pc == Guest
       case TakeInit(p) => s[p].pc == Guest
       case SpinLoad(p) => s[p].pc == Spinning
       case WakeSwap(p) => s[p].pc.Leaving?
       case StartGuest(p) => s[p].pc.Woken?
       case BeginSend(p, _, vector) => s[p].pc == Guest && vector < 0x100
       case CompareExchange(p) => s[p].pc.Sending?
  }

  function Panic(s: State, p: nat, cause: Cause): State
    requires p < |s|
  {
    s[p := s[p].(pc := Panicked(cause))]
  }

  /** One step, atomic in the shared array. `ids` maps APIC IDs to processors. */
  function Next(ids: map<ApicIdType, nat>, s: State, a: Action): (s': State)
    requires Enabled(s, a)
    requires forall apicId | apicId in ids :: ids[apicId] < |s|
    ensures |s'| == |s|
  {
    var p := a.id;
    match a
    case Execute(_, entry) =>
      s[p := s[p].(entry := entry)]
    case TakeInit(_) =>
      if p == 0 then Panic(s, p, InitOnBsp)
      else
        var swapped := s[p := s[p].(activity := WAIT_FOR_SIPI)];
        if s[p].activity != ACTIVE then Panic(swapped, p, InitWhileNotActive)
        else swapped[p := swapped[p].(pc := Spinning, entry := RESET_ENTRY)]
    case SpinLoad(_) =>
      if s[p].activity == WAIT_FOR_SIPI then s
      else s[p := s[p].(pc := Leaving(s[p].activity))]
    case WakeSwap(_) =>
      s[p := s[p].(activity := ACTIVE, pc := Woken(s[p].activity))]
    case StartGuest(_) =>
      if s[p].activity != ACTIVE then Panic(s, p, NotActiveOnStart)
      else s[p := s[p].(pc := Guest, entry := StartAt(s[p].pc.vector))]
    case BeginSend(_, apicId, vector) =>
      if apicId !in ids then Panic(s, p, UnknownApicId)
      else if vector == WAIT_FOR_SIPI then Panic(s, p, VectorTaken)
      else s[p := s[p].(pc := Sending(ids[apicId], vector))]
    case CompareExchange(_) =>
      var Sending(target, vector) := s[p].pc;
      var done := s[p := s[p].(pc := Guest)];
      if target < |s| && done[target].activity == WAIT_FOR_SIPI then
        done[target := done[target].(activity := vector)]
      else
        done
  }

  // ---------------------------------------------------------------- runs

  ghost predicate Routes(ids: map<ApicIdType, nat>, s: State) {
    forall apicId | apicId in ids :: ids[apicId] < |s|
  }

  /** The actions can be taken one after the other from `s`. */
  ghost predicate IsRun(ids: map<ApicIdType, nat>, s: State, run: seq<Action>)
    requires Routes(ids, s)
    decreases run
  {
    run == [] || (Enabled(s, run[0]) && IsRun(ids, Next(ids, s, run[0]), run[1..]))
  }

  ghost function After(ids: map<ApicIdType, nat>, s: State, run: seq<Action>): (s': State)
    requires Routes(ids, s) && IsRun(ids, s, run)
    ensures |s'| == |s|
    decreases run
  {
    if run == [] then s else After(ids, Next(ids, s, run[0]), run[1..])
  }

  /** `SharedGuestData::new`: every state is active and every processor runs its guest. */
  ghost predicate Initial(s: State) {
    forall p | 0 <= p < |s| :: s[p].activity == ACTIVE && s[p].pc == Guest
  }

  // ---------------------------------------------------------------- the invariant

  predicate StateAssertFailed(cause: Cause) { cause == InitWhileNotActive || cause == NotActiveOnStart }

  ghost predicate GoodProcessor(count: nat, r: Processor) {
    match r.pc
    case Guest => r.activity == ACTIVE
    case Spinning => true
    case Leaving(seen) => seen != WAIT_FOR_SIPI && r.activity == seen
    case Woken(vector) => vector != WAIT_FOR_SIPI && r.activity == ACTIVE
    case Sending(target, vector) => r.activity == ACTIVE && target < count && vector != WAIT_FOR_SIPI
    case Panicked(cause) => r.activity == ACTIVE && !StateAssertFailed(cause)
  }

  ghost predicate Inv(s: State) {
    forall p | 0 <= p < |s| :: GoodProcessor(|s|, s[p])
  }

  lemma NextKeepsInv(ids: map<ApicIdType, nat>, s: State, a: Action)
    requires Routes(ids, s) && Inv(s) && Enabled(s, a)
    ensures Inv(Next(ids, s, a))
  {
    assert GoodProcessor(|s|, s[a.id]);
  }

  /**
   In every interleaving: a processor in its guest has state Active, the value that ended a spin is
   still there when it is swapped out, it is never 0xFF, and neither state assert fails.
   */
  lemma {:induction false} ReachableInv(ids: map<ApicIdType, nat>, s: State, run: seq<Action>)
    requires Routes(ids, s) && Inv(s) && IsRun(ids, s, run)
    ensures Inv(After(ids, s, run))
    decreases run
  {
    if run != [] {
      NextKeepsInv(ids, s, run[0]);
      ReachableInv(ids, Next(ids, s, run[0]), run[1..]);
    }
  }

  /** In every reachable state a processor in its guest has the shared value 0. */
  lemma GuestIsActive(ids: map<ApicIdType, nat>, s: State, run: seq<Action>, p: nat)
    requires Routes(ids, s) && Initial(s) && IsRun(ids, s, run) && p < |s|
    ensures After(ids, s, run)[p].pc == Guest ==> After(ids, s, run)[p].activity == 0
  {
    ReachableInv(ids, s, run);
    assert GoodProcessor(|s|, After(ids, s, run)[p]);
  }

  /**
   In every reachable state a step panics exactly when it is INIT on processor 0 or a Startup IPI to an
   APIC ID without a processor or with vector FFH, and it panics only the processor that takes it.
   */
  lemma PanicsExactly(ids: map<ApicIdType, nat>, s: State, run: seq<Action>, a: Action)
    requires Routes(ids, s) && Initial(s) && IsRun(ids, s, run) && Enabled(After(ids, s, run), a)
    ensures Next(ids, After(ids, s, run), a)[a.id].pc.Panicked? <==>
            (a.TakeInit? && a.id == 0) || (a.BeginSend? && (a.apicId !in ids || a.vector == 0xff))
    ensures forall q | 0 <= q < |s| && q != a.id ::
              Next(ids, After(ids, s, run), a)[q].pc == After(ids, s, run)[q].pc
  {
    ReachableInv(ids, s, run);
    assert GoodProcessor(|s|, After(ids, s, run)[a.id]);
  }

  /**
   INIT on any other processor in its guest leaves it waiting: FFH in the shared array, spinning, and
   at the reset vector F000:FFF0 with base FFFF0000H. A load of the shared value keeps it there.
   */
  lemma InitLeavesItWaiting(ids: map<ApicIdType, nat>, s: State, run: seq<Action>, p: nat)
    requires Routes(ids, s) && Initial(s) && IsRun(ids, s, run) && p != 0
    requires Enabled(After(ids, s, run), TakeInit(p))
    ensures var s' := Next(ids, After(ids, s, run), TakeInit(p));
            && s'[p].pc == Spinning && s'[p].activity == 0xff
            && s'[p].entry.csSelector == 0xf000 && s'[p].entry.csBase == 0xffff_0000
            && s'[p].entry.csBase + s'[p].entry.rip == 0xffff_fff0
            && Next(ids, s', SpinLoad(p)) == s'
  {
    ReachableInv(ids, s, run);
    assert GoodProcessor(|s|, After(ids, s, run)[p]);
  }

  // ---------------------------------------------------------------- the architectural machine

  /** A processor either waits for a Startup IPI or executes. */
  datatype ArchProcessor = WaitForSipi | Running(entry: Entry)

  type ArchState = seq<ArchProcessor>

  datatype ArchAction =
    | ArchExecute(id: nat, entry: Entry)
    | ArchInit(id: nat)
    | ArchSipi(id: nat, vector: nat)
    | Stutter

  /** "SIPI is accepted only in wait-for-SIPI and discarded otherwise". */
  ghost function ArchNext(s: ArchState, a: ArchAction): (s': ArchState)
    ensures |s'| == |s|
  {
    match a
    case ArchExecute(p, entry) => if p < |s| && s[p].Running? then s[p := Running(entry)] else s
    case ArchInit(p) => if p < |s| then s[p := WaitForSipi] else s
    case ArchSipi(p, vector) => if p < |s| && s[p].WaitForSipi? then s[p := Running(StartAt(vector))] else s
    case Stutter => s
  }

  /** A processor that accepted a vector but has not entered its guest yet counts as started. */
  ghost function Arch(r: Processor): ArchProcessor {
    match r.pc
    case Spinning => if r.activity == WAIT_FOR_SIPI then WaitForSipi else Running(StartAt(r.activity))
    case Leaving(seen) => Running(StartAt(r.activity))
    case Woken(vector) => Running(StartAt(vector))
    case _ => Running(r.entry)
  }

  ghost function ArchOf(s: State): ArchState { seq(|s|, p requires 0 <= p < |s| => Arch(s[p])) }

  /** INIT takes effect at the first swap, a Startup IPI at the sender's compare-exchange. */
  ghost function Linearised(s: State, a: Action): ArchAction
    requires Enabled(s, a)
  {
    match a
    case Execute(p, entry) => ArchExecute(p, entry)
    case TakeInit(p) => if p == 0 then Stutter else ArchInit(p)
    case CompareExchange(p) => ArchSipi(s[p].pc.target, s[p].pc.sipiVector)
    case _ => Stutter
  }

  lemma StepRefines(ids: map<ApicIdType, nat>, s: State, a: Action)
    requires Routes(ids, s) && Inv(s) && Enabled(s, a)
    ensures ArchOf(Next(ids, s, a)) == ArchNext(ArchOf(s), Linearised(s, a))
  {
    assert GoodProcessor(|s|, s[a.id]);
    var t := ArchNext(ArchOf(s), Linearised(s, a));
    forall q | 0 <= q < |s| ensures ArchOf(Next(ids, s, a))[q] == t[q] {
      assert GoodProcessor(|s|, s[q]);
    }
  }

  /** The architectural actions of a run, in linearisation order. */
  ghost function Log(ids: map<ApicIdType, nat>, s: State, run: seq<Action>): seq<ArchAction>
    requires Routes(ids, s) && IsRun(ids, s, run)
    decreases run
  {
    if run == [] then []
    else [Linearised(s, run[0])] + Log(ids, Next(ids, s, run[0]), run[1..])
  }

  ghost function ArchAfter(s: ArchState, log: seq<ArchAction>): ArchState
    decreases log
  {
    if log == [] then s else ArchAfter(ArchNext(s, log[0]), log[1..])
  }

  /** Every interleaving of the protocol is a run of the architectural machine. */
  lemma {:induction false} RunRefines(ids: map<ApicIdType, nat>, s: State, run: seq<Action>)
    requires Routes(ids, s) && Inv(s) && IsRun(ids, s, run)
    ensures ArchOf(After(ids, s, run)) == ArchAfter(ArchOf(s), Log(ids, s, run))
    decreases run
  {
    if run != [] {
      StepRefines(ids, s, run[0]);
      NextKeepsInv(ids, s, run[0]);
      RunRefines(ids, Next(ids, s, run[0]), run[1..]);
      assert Log(ids, s, run)[1..] == Log(ids, Next(ids, s, run[0]), run[1..]);
    }
  }

  // ---------------------------------------------------------------- which vector wakes a processor

  /** The part of the log after the last INIT of `p`, if there was one. */
  ghost function SinceInit(log: seq<ArchAction>, p: nat): Option<seq<ArchAction>> {
    if log == [] then None
    else
      var n := |log| - 1;
      if log[n] == ArchInit(p) then Some([])
      else
        match SinceInit(log[..n], p)
        case None => None
        case Some(rest) => Some(rest + [log[n]])
  }

  /** The vector of the first Startup IPI addressed to `p`. */
  ghost function FirstSipi(log: seq<ArchAction>, p: nat): Option<nat> {
    if log == [] then None
    else
      var n := |log| - 1;
      var earlier := FirstSipi(log[..n], p);
      if earlier.Some? then earlier
      else if log[n].ArchSipi? && log[n].id == p then Some(log[n].vector)
      else None
  }

  /** The vector that a processor has accepted since INIT but not started at yet. */
  ghost function Accepted(r: Processor): Option<nat> {
    match r.pc
    case Spinning => if r.activity == WAIT_FOR_SIPI then None else Some(r.activity)
    case Leaving(_) => Some(r.activity)
    case Woken(vector) => Some(vector)
    case _ => None
  }

  predicate InInit(r: Processor) { r.pc.Spinning? || r.pc.Leaving? || r.pc.Woken? }

  /** What the log says about a processor between INIT and the start of its guest. */
  ghost predicate LogExplains(log: seq<ArchAction>, p: nat, r: Processor) {
    InInit(r) ==>
      && SinceInit(log, p).Some?
      && Accepted(r) == FirstSipi(SinceInit(log, p).value, p)
  }

  lemma LogSnoc(log: seq<ArchAction>, e: ArchAction, p: nat)
    ensures e == ArchInit(p) ==> SinceInit(log + [e], p) == Some([])
    ensures e != ArchInit(p) && SinceInit(log, p).Some? ==>
              && SinceInit(log + [e], p) == Some(SinceInit(log, p).value + [e])
              && FirstSipi(SinceInit(log + [e], p).value, p) ==
                 if FirstSipi(SinceInit(log, p).value, p).Some? then FirstSipi(SinceInit(log, p).value, p)
                 else if e.ArchSipi? && e.id == p then Some(e.vector) else None
  {
    assert (log + [e])[..|log|] == log;
    if e != ArchInit(p) && SinceInit(log, p).Some? {
      var rest := SinceInit(log, p).value;
      assert (rest + [e])[..|rest|] == rest;
    }
  }

  lemma StepKeepsExplanation(ids: map<ApicIdType, nat>, s: State, a: Action, log: seq<ArchAction>, p: nat)
    requires Routes(ids, s) && Inv(s) && Enabled(s, a) && p < |s|
    requires LogExplains(log, p, s[p])
    ensures LogExplains(log + [Linearised(s, a)], p, Next(ids, s, a)[p])
  {
    assert GoodProcessor(|s|, s[p]);
    assert GoodProcessor(|s|, s[a.id]);
    LogSnoc(log, Linearised(s, a), p);
  }

  lemma {:induction false} RunKeepsExplanation(
    ids: map<ApicIdType, nat>, s: State, run: seq<Action>, log: seq<ArchAction>, p: nat)
    requires Routes(ids, s) && Inv(s) && IsRun(ids, s, run) && p < |s|
    requires LogExplains(log, p, s[p])
    ensures LogExplains(log + Log(ids, s, run), p, After(ids, s, run)[p])
    decreases run
  {
    if run == [] {
      assert log + [] == log;
    } else {
      var e := Linearised(s, run[0]);
      StepKeepsExplanation(ids, s, run[0], log, p);
      NextKeepsInv(ids, s, run[0]);
      RunKeepsExplanation(ids, Next(ids, s, run[0]), run[1..], log + [e], p);
      assert log + Log(ids, s, run) == log + [e] + Log(ids, Next(ids, s, run[0]), run[1..]);
    }
  }

  /**
   In every reachable state the vector that a processor is about to start at is that of the first
   Startup IPI addressed to it after its INIT swap; without one it is still waiting.
   */
  lemma WakeVectorIsFirstSipiAfterInit(ids: map<ApicIdType, nat>, s: State, run: seq<Action>, p: nat)
    requires Routes(ids, s) && Initial(s) && IsRun(ids, s, run) && p < |s|
    ensures var r := After(ids, s, run)[p];
            InInit(r) ==>
              && SinceInit(Log(ids, s, run), p).Some?
              && Accepted(r) == FirstSipi(SinceInit(Log(ids, s, run), p).value, p)
  {
    RunKeepsExplanation(ids, s, run, [], p);
    assert [] + Log(ids, s, run) == Log(ids, s, run);
  }

  // ---------------------------------------------------------------- an accepted SIPI is not lost

  /** The stages between acceptance of `vector` and the start of the guest. */
  ghost predicate AtStage(r: Processor, vector: nat, stage: nat) {
    match stage
    case 0 => r.pc == Spinning && r.activity == vector
    case 1 => r.pc == Leaving(vector) && r.activity == vector
    case 2 => r.pc == Woken(vector) && r.activity == ACTIVE
    case 3 => r.pc == Guest && r.activity == ACTIVE && r.entry == StartAt(vector)
    case _ => false
  }

  ghost function OwnSteps(run: seq<Action>, p: nat): nat {
    if run == [] then 0 else (if run[0].id == p then 1 else 0) + OwnSteps(run[1..], p)
  }

  lemma StageAdvances(ids: map<ApicIdType, nat>, s: State, a: Action, p: nat, vector: nat, stage: nat)
    requires Routes(ids, s) && Inv(s) && Enabled(s, a) && p < |s|
    requires vector != WAIT_FOR_SIPI && AtStage(s[p], vector, stage)
    requires a.id == p ==> stage < 3
    ensures AtStage(Next(ids, s, a)[p], vector, if a.id == p then stage + 1 else stage)
  {
  }

  /**
   Once a vector is accepted, no interleaving takes it back: after three steps of its own, whatever
   the others do in between, the processor is in its guest at that vector.
   */
  lemma {:induction false} AcceptedSipiStartsGuest(
    ids: map<ApicIdType, nat>, s: State, run: seq<Action>, p: nat, vector: nat, stage: nat)
    requires Routes(ids, s) && Inv(s) && IsRun(ids, s, run) && p < |s|
    requires vector != WAIT_FOR_SIPI && AtStage(s[p], vector, stage)
    requires stage + OwnSteps(run, p) <= 3
    ensures AtStage(After(ids, s, run)[p], vector, stage + OwnSteps(run, p))
    ensures stage + OwnSteps(run, p) == 3 ==>
              && After(ids, s, run)[p].pc == Guest
              && After(ids, s, run)[p].entry.csSelector == 0x100 * vector
              && After(ids, s, run)[p].entry.csBase == 0x1000 * vector
              && After(ids, s, run)[p].entry.rip == 0
    decreases run
  {
    if run != [] {
      StageAdvances(ids, s, run[0], p, vector, stage);
      NextKeepsInv(ids, s, run[0]);
      AcceptedSipiStartsGuest(ids, Next(ids, s, run[0]), run[1..], p, vector,
                              if run[0].id == p then stage + 1 else stage);
    }
  }

  // ---------------------------------------------------------------- routing

  /** Steps of the others leave a processor where it is in its code. */
  lemma {:induction false} OthersKeepPc(ids: map<ApicIdType, nat>, s: State, run: seq<Action>, p: nat)
    requires Routes(ids, s) && IsRun(ids, s, run) && p < |s| && OwnSteps(run, p) == 0
    ensures After(ids, s, run)[p].pc == s[p].pc
    decreases run
  {
    if run != [] {
      assert OwnSteps(run[1..], p) == 0 && run[0].id != p;
      OthersKeepPc(ids, Next(ids, s, run[0]), run[1..], p);
    }
  }

  lemma TargetHasItsApicId(m: map<ApicIdType, nat>, apicIds: seq<ApicIdType>, apicId: ApicIdType, q: nat)
    requires Numbers(m, apicIds) && apicId in m && q < |apicIds|
    ensures apicIds[q] == apicId <==> q == m[apicId]
  {
    assert m[apicIds[q]] == q;
  }

  /**
   A Startup IPI sent to APIC ID `apicId`, with any steps of the others between the lookup of the ID and
   the compare-exchange, touches the processor with that ID and no other, and it delivers the vector
   exactly when that processor is waiting at the compare-exchange.
   */
  lemma SipiReachesOnlyItsTarget(
    m: map<ApicIdType, nat>, apicIds: seq<ApicIdType>, s: State, between: seq<Action>,
    sender: nat, apicId: ApicIdType, vector: nat)
    requires Numbers(m, apicIds) && |s| == |apicIds| && Inv(s)
    requires vector < 0x100 && vector != WAIT_FOR_SIPI && apicId in m
    requires Enabled(s, BeginSend(sender, apicId, vector))
    requires IsRun(m, Next(m, s, BeginSend(sender, apicId, vector)), between) && OwnSteps(between, sender) == 0
    ensures var t := After(m, Next(m, s, BeginSend(sender, apicId, vector)), between);
            && Enabled(t, CompareExchange(sender))
            && forall q | 0 <= q < |s| ::
                 Next(m, t, CompareExchange(sender))[q].activity ==
                 if apicIds[q] == apicId && t[q].activity == WAIT_FOR_SIPI then vector else t[q].activity
  {
    var sending := Next(m, s, BeginSend(sender, apicId, vector));
    var t := After(m, sending, between);
    NextKeepsInv(m, s, BeginSend(sender, apicId, vector));
    ReachableInv(m, sending, between);
    OthersKeepPc(m, sending, between, sender);
    assert GoodProcessor(|t|, t[sender]);
    forall q | 0 <= q < |s| ensures apicIds[q] == apicId <==> q == m[apicId] {
      TargetHasItsApicId(m, apicIds, apicId, q);
    }
  }

  /** The last action of `p` itself, or `before` when the run has none. */
  ghost function LastOwn(before: Option<Action>, run: seq<Action>, p: nat): Option<Action>
    decreases run
  {
    if run == [] then before else LastOwn(if run[0].id == p then Some(run[0]) else before, run[1..], p)
  }

  /** A processor about to compare-exchange looked its target up in its last action. */
  ghost predicate LookedUp(ids: map<ApicIdType, nat>, last: Option<Action>, r: Processor) {
    r.pc.Sending? ==>
      && last.Some? && last.value.BeginSend?
      && last.value.apicId in ids
      && r.pc == Sending(ids[last.value.apicId], last.value.vector)
  }

  lemma {:induction false} RunKeepsLookup(
    ids: map<ApicIdType, nat>, s: State, run: seq<Action>, before: Option<Action>, p: nat)
    requires Routes(ids, s) && IsRun(ids, s, run) && p < |s|
    requires LookedUp(ids, before, s[p])
    ensures LookedUp(ids, LastOwn(before, run, p), After(ids, s, run)[p])
    decreases run
  {
    if run != [] {
      var before' := if run[0].id == p then Some(run[0]) else before;
      RunKeepsLookup(ids, Next(ids, s, run[0]), run[1..], before', p);
    }
  }

  /**
   At the end of any run, the compare-exchange that a processor is about to make is the one of the
   Startup IPI in its last action: it can reach the processor with the APIC ID of that IPI and no other,
   with the vector of that IPI and no other.
   */
  lemma EveryExchangeHasItsIpi(
    m: map<ApicIdType, nat>, apicIds: seq<ApicIdType>, s: State, run: seq<Action>, sender: nat)
    requires Numbers(m, apicIds) && |s| == |apicIds| && Initial(s) && IsRun(m, s, run)
    requires Enabled(After(m, s, run), CompareExchange(sender))
    ensures var t, last := After(m, s, run), LastOwn(None, run, sender);
            && last.Some? && last.value.BeginSend?
            && forall q | 0 <= q < |s| ::
                 Next(m, t, CompareExchange(sender))[q].activity ==
                 if apicIds[q] == last.value.apicId && t[q].activity == WAIT_FOR_SIPI then last.value.vector
                 else t[q].activity
  {
    var t := After(m, s, run);
    ReachableInv(m, s, run);
    RunKeepsLookup(m, s, run, None, sender);
    assert GoodProcessor(|t|, t[sender]);
    var last := LastOwn(None, run, sender).value;
    forall q | 0 <= q < |s| ensures apicIds[q] == last.apicId <==> q == m[last.apicId] {
      TargetHasItsApicId(m, apicIds, last.apicId, q);
    }
  }
}
