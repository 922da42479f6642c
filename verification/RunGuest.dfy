/**
 `run_vmx_guest`, one statement an instruction
 (src/hvcore/src/hypervisor/intel/run_guest.S). The outcomes of VMRESUME and VMLAUNCH are inputs.
 */
module RunGuest {
  import opened Option
  import opened Machine
  import opened CaptureRestore

  /** The fields of the current VMCS that the code relies on. */
  datatype Vmcs = Vmcs(launched: bool, hostRsp: int, hostRip: int)

  /** The label .VmExit. */
  const VM_EXIT := 1
  /** RFLAGS as the processor sets them on VM exit. */
  const VM_EXIT_FLAGS := 2
  const NON_LAUNCHED_VMCS := 5

  /**
   What VMRESUME or VMLAUNCH does: either the guest runs until VM exit, which leaves its registers and
   its writes to memory, or the instruction fails with flags and, when there is a current VMCS, a
   VM-instruction error.
   */
  datatype Outcome =
    | Exits(g: Gprs, x: Xmms, writes: imap<int, int>)
    | Fails(flags: int, error: Option<int>)

  /** Memory after the guest ran. */
  function Overlay(m: Memory, writes: imap<int, int>): (r: Memory)
    ensures forall a: int :: Get(r, a) == if a in writes then writes[a] else Get(m, a)
  {
    m + writes
  }

  /** The guest does not write to the host's stack frame of this call. */
  ghost predicate LeavesFrame(o: Outcome, rsp: int) {
    o.Exits? ==> forall a: int | rsp - 0xe8 <= a <= rsp :: a !in o.writes
  }

  /** The register values with which the guest was entered, or entry was attempted. */
  datatype GuestEntry = GuestEntry(g: Gprs, x: Xmms)

  // ---------------------------------------------------------------- the host frame

  /** The words below `e`, the stack pointer at the call: every register but RAX, and XMM0 to XMM5. */
  ghost predicate HostGprsAt(m: Memory, e: int, g: Gprs) {
    && Get(m, e - 8) == g.rcx && Get(m, e - 16) == g.rdx && Get(m, e - 24) == g.rbx && Get(m, e - 32) == g.rbp
    && Get(m, e - 40) == g.rsi && Get(m, e - 48) == g.rdi && Get(m, e - 56) == g.r8 && Get(m, e - 64) == g.r9
    && Get(m, e - 72) == g.r10 && Get(m, e - 80) == g.r11 && Get(m, e - 88) == g.r12 && Get(m, e - 96) == g.r13
    && Get(m, e - 104) == g.r14 && Get(m, e - 112) == g.r15
  }

  ghost predicate HostXmmsAt(m: Memory, e: int, x: Xmms) {
    && XmmAt(m, e - 0xd8) == x.xmm0 && XmmAt(m, e - 0xc8) == x.xmm1 && XmmAt(m, e - 0xb8) == x.xmm2
    && XmmAt(m, e - 0xa8) == x.xmm3 && XmmAt(m, e - 0x98) == x.xmm4 && XmmAt(m, e - 0x88) == x.xmm5
  }

  /** The saved host state and, above it, the return address. */
  ghost predicate SavedHost(m: Memory, e: int, g: Gprs, x: Xmms, returnAddress: int) {
    HostGprsAt(m, e, g) && HostXmmsAt(m, e, x) && Get(m, e) == returnAddress
  }

  lemma SavedHostKept(m: Memory, m': Memory, e: int, g: Gprs, x: Xmms, returnAddress: int)
    requires SavedHost(m', e, g, x, returnAddress)
    requires forall a: int | e - 0xd8 <= a <= e :: Get(m, a) == Get(m', a)
    ensures SavedHost(m, e, g, x, returnAddress)
  {
  }

  /** The MOVAPS of the host frame are aligned exactly when the call was made with the usual alignment. */
  lemma FrameAligned(e: int)
    ensures e % 16 == 8 <==> (e - 0xd8) % 16 == 0
    ensures e % 16 == 8 ==> (e - 0xc8) % 16 == (e - 0xb8) % 16 == (e - 0xa8) % 16 == 0
    ensures e % 16 == 8 ==> (e - 0x98) % 16 == (e - 0x88) % 16 == 0
  {
  }

  method PushHostGprs(g: Gprs, e: int, memory: Memory) returns (rsp: int, mem: Memory)
    ensures rsp == e - 112 && HostGprsAt(mem, e, g)
    ensures SameOutside(mem, memory, e - 112, e)
  {
    rsp, mem := e, memory;
    rsp := rsp - 8; mem := Set(mem, rsp, g.rcx);
    rsp := rsp - 8; mem := Set(mem, rsp, g.rdx);
    rsp := rsp - 8; mem := Set(mem, rsp, g.rbx);
    rsp := rsp - 8; mem := Set(mem, rsp, g.rbp);
    rsp := rsp - 8; mem := Set(mem, rsp, g.rsi);
    rsp := rsp - 8; mem := Set(mem, rsp, g.rdi);
    rsp := rsp - 8; mem := Set(mem, rsp, g.r8);
    rsp := rsp - 8; mem := Set(mem, rsp, g.r9);
    rsp := rsp - 8; mem := Set(mem, rsp, g.r10);
    rsp := rsp - 8; mem := Set(mem, rsp, g.r11);
    rsp := rsp - 8; mem := Set(mem, rsp, g.r12);
    rsp := rsp - 8; mem := Set(mem, rsp, g.r13);
    rsp := rsp - 8; mem := Set(mem, rsp, g.r14);
    rsp := rsp - 8; mem := Set(mem, rsp, g.r15);
  }

  method SaveHostXmms(x: Xmms, e: int, rspBefore: int, memory: Memory) returns (rsp: int, mem: Memory)
    requires rspBefore == e - 112 && e % 16 == 8
    ensures rsp == e - 0xd8 && HostXmmsAt(mem, e, x)
    ensures forall a: int | a + 8 <= e - 0xd8 || e - 112 <= a :: Get(mem, a) == Get(memory, a)
  {
    FrameAligned(e);
    rsp, mem := rspBefore - 0x68, memory;
    mem := SetXmm(mem, rsp, x.xmm0);
    mem := SetXmm(mem, rsp + 0x10, x.xmm1);
    mem := SetXmm(mem, rsp + 0x20, x.xmm2);
    mem := SetXmm(mem, rsp + 0x30, x.xmm3);
    mem := SetXmm(mem, rsp + 0x40, x.xmm4);
    mem := SetXmm(mem, rsp + 0x50, x.xmm5);
  }

  /** Everything up to the push of the block's address. */
  method SaveHost(g: Gprs, x: Xmms, e: int, memory: Memory) returns (rsp: int, mem: Memory)
    requires e % 16 == 8
    ensures rsp == e - 0xe0 && HostGprsAt(mem, e, g) && HostXmmsAt(mem, e, x) && Get(mem, rsp) == g.rcx
    ensures SameOutside(mem, memory, e - 0xe0, e)
  {
    rsp, mem := PushHostGprs(g, e, memory);
    rsp, mem := SaveHostXmms(x, e, rsp, mem);
    rsp := rsp - 8; mem := Set(mem, rsp, g.rcx);
  }

  /** The loads of the guest registers; R15 holds the block's address until the last one. */
  method LoadGuest(p: int, mem: Memory) returns (g: Gprs, x: Xmms)
    requires p % 16 == 0
    ensures g == GprsAt(mem, p) && x == XmmsAt(mem, p)
  {
    var r15 := p;
    x := LoadXmms(r15, mem);
    var rax := Get(mem, r15 + 0x00);
    var rbx := Get(mem, r15 + 0x08);
    var rcx := Get(mem, r15 + 0x10);
    var rdx := Get(mem, r15 + 0x18);
    var rdi := Get(mem, r15 + 0x20);
    var rsi := Get(mem, r15 + 0x28);
    var rbp := Get(mem, r15 + 0x30);
    var r8 := Get(mem, r15 + 0x38);
    var r9 := Get(mem, r15 + 0x40);
    var r10 := Get(mem, r15 + 0x48);
    var r11 := Get(mem, r15 + 0x50);
    var r12 := Get(mem, r15 + 0x58);
    var r13 := Get(mem, r15 + 0x60);
    var r14 := Get(mem, r15 + 0x68);
    r15 := Get(mem, r15 + 0x70);
    g := Gprs(rax, rbx, rcx, rdx, rdi, rsi, rbp, r8, r9, r10, r11, r12, r13, r14, r15);
  }

  /** .VmExit: the guest registers go to the block whose address is on top of the stack. */
  method StoreGuest(g: Gprs, x: Xmms, rsp: int, memory: Memory) returns (mem: Memory)
    requires Get(memory, rsp) % 16 == 0 && BlockOutside(Get(memory, rsp), rsp, rsp + 8)
    ensures var p := Get(memory, rsp);
            && GprsAt(mem, p) == g && XmmsAt(mem, p) == x
            && forall a: int | OutsideBlock(a, p) && Disjoint(a, rsp) :: Get(mem, a) == Get(memory, a)
  {
    // XCHG R15, [RSP]
    mem := memory;
    var r15 := Get(mem, rsp);
    mem := Set(mem, rsp, g.r15);
    // All stores but that of R15, and the one of the guest's R15 through RAX.
    var rax := Get(mem, rsp);
    mem := StoreGprs(g.(r15 := rax), r15, mem);
    mem := StoreXmms(x, r15, mem);
  }

  /** .Exit: drops the block's address, returns the flags in RAX and restores the host. */
  method RestoreHost(rspBefore: int, rflags: int, memory: Memory,
                     ghost saved: Gprs, ghost savedX: Xmms, ghost returnAddress: int)
    returns (g: Gprs, x: Xmms, rsp: int, rip: int, mem: Memory)
    requires rspBefore % 16 == 8 && SavedHost(memory, rspBefore + 0xe0, saved, savedX, returnAddress)
    ensures g == saved.(rax := rflags) && x == savedX
    ensures rsp == rspBefore + 0xe8 && rip == returnAddress
    ensures SameOutside(mem, memory, rspBefore, rspBefore + 8)
  {
    rsp, mem := rspBefore, memory;
    var rax := Get(mem, rsp); rsp := rsp + 8;
    // PUSHFQ, POP RAX
    rsp := rsp - 8; mem := Set(mem, rsp, rflags);
    rax := Get(mem, rsp); rsp := rsp + 8;
    FrameAligned(rspBefore + 0xe0);
    var xmm5 := GetXmm(mem, rsp + 0x50);
    var xmm4 := GetXmm(mem, rsp + 0x40);
    var xmm3 := GetXmm(mem, rsp + 0x30);
    var xmm2 := GetXmm(mem, rsp + 0x20);
    var xmm1 := GetXmm(mem, rsp + 0x10);
    var xmm0 := GetXmm(mem, rsp);
    x := Xmms(xmm0, xmm1, xmm2, xmm3, xmm4, xmm5);
    rsp := rsp + 0x68;
    var r15 := Get(mem, rsp); rsp := rsp + 8;
    var r14 := Get(mem, rsp); rsp := rsp + 8;
    var r13 := Get(mem, rsp); rsp := rsp + 8;
    var r12 := Get(mem, rsp); rsp := rsp + 8;
    var r11 := Get(mem, rsp); rsp := rsp + 8;
    var r10 := Get(mem, rsp); rsp := rsp + 8;
    var r9 := Get(mem, rsp); rsp := rsp + 8;
    var r8 := Get(mem, rsp); rsp := rsp + 8;
    var rdi := Get(mem, rsp); rsp := rsp + 8;
    var rsi := Get(mem, rsp); rsp := rsp + 8;
    var rbp := Get(mem, rsp); rsp := rsp + 8;
    var rbx := Get(mem, rsp); rsp := rsp + 8;
    var rdx := Get(mem, rsp); rsp := rsp + 8;
    var rcx := Get(mem, rsp); rsp := rsp + 8;
    g := Gprs(rax, rbx, rcx, rdx, rdi, rsi, rbp, r8, r9, r10, r11, r12, r13, r14, r15);
    rip := Get(mem, rsp); rsp := rsp + 8;
  }

  // ---------------------------------------------------------------- the function

  /** VMRESUME fails, the error is read, and the code either gives up or goes on to VMLAUNCH. */
  method AfterFailedResume(guest: Gprs, rspBefore: int, flags: int, error: Option<int>, vmcs: Vmcs, memory: Memory)
    returns (launch: bool, g: Gprs, rsp: int, rflags: int, vmcs': Vmcs, mem: Memory)
    requires GprsAt(memory, Get(memory, rspBefore)) == guest
    requires BlockOutside(Get(memory, rspBefore), rspBefore - 8, rspBefore)
    ensures launch <==> error == Some(5)
    ensures rsp == rspBefore && SameOutside(mem, memory, rspBefore - 8, rspBefore)
    ensures launch ==> g == guest && vmcs' == vmcs.(hostRsp := rsp, hostRip := VM_EXIT)
    ensures !launch ==> vmcs' == vmcs && rflags == flags
  {
    rsp, mem, vmcs', rflags := rspBefore, memory, vmcs, flags;
    // PUSHF
    rsp := rsp - 8; mem := Set(mem, rsp, rflags);
    // VMREAD of the error; it leaves its destination alone when it fails
    var r15 := 0x4400;
    r15 := error.GetOr(r15);
    rflags := *;
    launch := r15 == 5;
    if !launch {
      // POPF
      rflags := Get(mem, rsp); rsp := rsp + 8;
      g := guest.(r15 := r15);
    } else {
      r15 := Get(mem, rsp); rsp := rsp + 8;
      vmcs' := vmcs'.(hostRsp := rsp);
      var r14 := VM_EXIT;
      vmcs' := vmcs'.(hostRip := r14);
      r15 := Get(mem, rsp);
      r14 := Get(mem, r15 + 0x68);
      r15 := Get(mem, r15 + 0x70);
      g := guest.(r14 := r14, r15 := r15);
    }
  }

  // ---------------------------------------------------------------- the two halves of a call

  /** The block holds these registers. */
  ghost predicate BlockHolds(m: Memory, p: int, g: Gprs, x: Xmms) { GprsAt(m, p) == g && XmmsAt(m, p) == x }

  lemma BlockHoldsKept(m: Memory, m': Memory, p: int, g: Gprs, x: Xmms, lo: int, hi: int)
    requires SameOutside(m, m', lo, hi) && BlockOutside(p, lo, hi) && BlockHolds(m', p, g, x)
    ensures BlockHolds(m, p, g, x)
  {
    BlockKept(m, m', p, lo, hi);
  }

  /** VMRESUME is followed by VMLAUNCH exactly when it fails because the VMCS was never launched. */
  predicate TriesLaunch(resume: Outcome) { resume.Fails? && resume.error == Some(NON_LAUNCHED_VMCS) }

  /** The outcome that ends the call. */
  function Final(resume: Outcome, launch: Outcome): Outcome { if TriesLaunch(resume) then launch else resume }

  function FlagsOf(o: Outcome): int {
    match o
    case Exits(_, _, _) => VM_EXIT_FLAGS
    case Fails(flags, _) => flags
  }

  /** A launched VMCS continues at .VmExit with the stack pointer of a call made at `e`. */
  predicate HostStateFor(vmcs: Vmcs, e: int) { vmcs.launched ==> vmcs.hostRsp == e - 0xe0 && vmcs.hostRip == VM_EXIT }

  /** From the call to VMRESUME. */
  method PrepareEntry(g: Gprs, x: Xmms, e: int, memory: Memory)
    returns (guest: Gprs, guestX: Xmms, rsp: int, mem: Memory)
    requires g.rcx % 16 == 0 && e % 16 == 8 && BlockOutside(g.rcx, e - 0xe8, e + 8)
    ensures rsp == e - 0xe0 && SavedHost(mem, e, g, x, Get(memory, e)) && Get(mem, rsp) == g.rcx
    ensures guest == GprsAt(memory, g.rcx) && guestX == XmmsAt(memory, g.rcx)
    ensures BlockHolds(mem, g.rcx, guest, guestX)
  {
    rsp, mem := SaveHost(g, x, e, memory);
    BlockKept(mem, memory, g.rcx, e - 0xe0, e);
    guest, guestX := LoadGuest(g.rcx, mem);
  }

  /** From the call to the last entry instruction. */
  method EnterGuest(g: Gprs, x: Xmms, e: int, memory: Memory, vmcs: Vmcs, resume: Outcome, launch: Outcome)
    returns (rsp: int, rflags: int, mem: Memory, vmcs': Vmcs, entries: seq<GuestEntry>)
    requires g.rcx % 16 == 0 && e % 16 == 8 && BlockOutside(g.rcx, e - 0xe8, e + 8)
    requires HostStateFor(vmcs, e) && (resume.Exits? ==> vmcs.launched)
    ensures rsp == e - 0xe0 && rflags == FlagsOf(Final(resume, launch))
    ensures SavedHost(mem, e, g, x, Get(memory, e)) && Get(mem, rsp) == g.rcx
    ensures BlockHolds(mem, g.rcx, GprsAt(memory, g.rcx), XmmsAt(memory, g.rcx))
    ensures |entries| == (if TriesLaunch(resume) then 2 else 1)
    ensures forall i | 0 <= i < |entries| :: entries[i] == GuestEntry(GprsAt(memory, g.rcx), XmmsAt(memory, g.rcx))
    ensures vmcs'.launched <==> vmcs.launched || (TriesLaunch(resume) && launch.Exits?)
    ensures HostStateFor(vmcs', e)
  {
    var guest, guestX;
    guest, guestX, rsp, mem := PrepareEntry(g, x, e, memory);
    entries := [GuestEntry(guest, guestX)];
    vmcs', rflags := vmcs, VM_EXIT_FLAGS;
    if resume.Fails? {
      ghost var saved := mem;
      var again;
      again, guest, rsp, rflags, vmcs', mem :=
        AfterFailedResume(guest, rsp, resume.flags, resume.error, vmcs', mem);
      BlockKept(mem, saved, g.rcx, e - 0xe8, e - 0xe0);
      SavedHostKept(mem, saved, e, g, x, Get(memory, e));
      if again {
        entries := entries + [GuestEntry(guest, guestX)];
        if launch.Fails? {
          rflags := launch.flags;
        } else {
          vmcs' := vmcs'.(launched := true);
          rflags := VM_EXIT_FLAGS;
        }
      }
    }
  }

  lemma OverlayKeepsHost(m: Memory, exit: Outcome, e: int, g: Gprs, x: Xmms, returnAddress: int)
    requires exit.Exits? && LeavesFrame(exit, e) && SavedHost(m, e, g, x, returnAddress)
    ensures SavedHost(Overlay(m, exit.writes), e, g, x, returnAddress)
    ensures Get(Overlay(m, exit.writes), e - 0xe0) == Get(m, e - 0xe0)
  {
    SavedHostKept(Overlay(m, exit.writes), m, e, g, x, returnAddress);
  }

  lemma StoreKeepsHost(m: Memory, m': Memory, e: int, g: Gprs, x: Xmms, returnAddress: int)
    requires SavedHost(m', e, g, x, returnAddress) && BlockOutside(g.rcx, e - 0xe8, e + 8)
    requires forall a: int | OutsideBlock(a, g.rcx) && Disjoint(a, e - 0xe0) :: Get(m, a) == Get(m', a)
    ensures SavedHost(m, e, g, x, returnAddress)
  {
    SavedHostKept(m, m', e, g, x, returnAddress);
  }

  /** VM exit: the processor loads the host stack pointer and continues at .VmExit. */
  method ReceiveGuest(g: Gprs, x: Xmms, e: int, exit: Outcome, vmcs: Vmcs, memory: Memory, ghost returnAddress: int)
    returns (rsp: int, mem: Memory)
    requires exit.Exits? && LeavesFrame(exit, e)
    requires vmcs.hostRsp == e - 0xe0 && vmcs.hostRip == VM_EXIT
    requires g.rcx % 16 == 0 && BlockOutside(g.rcx, e - 0xe8, e + 8)
    requires SavedHost(memory, e, g, x, returnAddress) && Get(memory, e - 0xe0) == g.rcx
    ensures rsp == e - 0xe0 && BlockHolds(mem, g.rcx, exit.g, exit.x)
    ensures SavedHost(mem, e, g, x, returnAddress)
  {
    rsp := vmcs.hostRsp;
    mem := Overlay(memory, exit.writes);
    OverlayKeepsHost(memory, exit, e, g, x, returnAddress);
    ghost var overlaid := mem;
    mem := StoreGuest(exit.g, exit.x, rsp, mem);
    StoreKeepsHost(mem, overlaid, e, g, x, returnAddress);
  }

  /** From the VM exit, or the failure of the last entry instruction, to the return. */
  method LeaveGuest(g: Gprs, x: Xmms, e: int, rspBefore: int, outcome: Outcome, rflags: int, vmcs: Vmcs,
                    memory: Memory, ghost returnAddress: int)
    returns (g': Gprs, x': Xmms, rsp: int, rip: int, mem: Memory)
    requires g.rcx % 16 == 0 && e % 16 == 8 && BlockOutside(g.rcx, e - 0xe8, e + 8)
    requires rspBefore == e - 0xe0
    requires LeavesFrame(outcome, e) && (outcome.Exits? ==> vmcs.hostRsp == e - 0xe0 && vmcs.hostRip == VM_EXIT)
    requires SavedHost(memory, e, g, x, returnAddress) && Get(memory, e - 0xe0) == g.rcx
    ensures outcome.Exits? ==> BlockHolds(mem, g.rcx, outcome.g, outcome.x)
    ensures outcome.Fails? ==> BlockHolds(mem, g.rcx, GprsAt(memory, g.rcx), XmmsAt(memory, g.rcx))
    ensures g' == g.(rax := rflags) && x' == x && rsp == e + 8 && rip == returnAddress
  {
    rsp, mem := rspBefore, memory;
    ghost var heldG, heldX := GprsAt(memory, g.rcx), XmmsAt(memory, g.rcx);
    if outcome.Exits? {
      rsp, mem := ReceiveGuest(g, x, e, outcome, vmcs, mem, returnAddress);
      heldG, heldX := outcome.g, outcome.x;
    }
    ghost var held := mem;
    g', x', rsp, rip, mem := RestoreHost(rsp, rflags, mem, g, x, returnAddress);
    BlockHoldsKept(mem, held, g.rcx, heldG, heldX, e - 0xe0, e - 0xd8);
  }

  /**
   `run_vmx_guest`, called with the block's address in RCX and the return address on the stack. A
   launched VMCS must carry the host stack pointer of a call made with the same stack pointer. The
   block is 16-byte aligned, as its type demands, and so was the stack before the call.
   */
  method RunVmxGuest(g: Gprs, x: Xmms, e: int, memory: Memory, vmcs: Vmcs, resume: Outcome, launch: Outcome)
    returns (g': Gprs, x': Xmms, rsp: int, rip: int, mem: Memory, vmcs': Vmcs, entries: seq<GuestEntry>)
    requires g.rcx % 16 == 0 && e % 16 == 8 && BlockOutside(g.rcx, e - 0xe8, e + 8)
    requires HostStateFor(vmcs, e) && (resume.Exits? ==> vmcs.launched)
    requires LeavesFrame(resume, e) && LeavesFrame(launch, e)
    // Every entry is made with exactly the registers of the block; VMLAUNCH follows VMRESUME exactly
    // when that fails with "VMRESUME with non-launched VMCS", error 5.
    ensures |entries| == (if resume.Fails? && resume.error == Some(5) then 2 else 1)
    ensures forall i | 0 <= i < |entries| :: entries[i] == GuestEntry(GprsAt(memory, g.rcx), XmmsAt(memory, g.rcx))
    // On VM exit the block receives the guest's registers; on failure it keeps its own. On every path the
    // host's registers are restored, but RAX holds the flags, of which VM exit leaves only bit 1.
    ensures var last := if resume.Fails? && resume.error == Some(5) then launch else resume;
            && g' == g.(rax := g'.rax) && x' == x
            && (last.Exits? ==> g'.rax == 2 && BlockHolds(mem, g.rcx, last.g, last.x))
            && (last.Fails? ==>
                  g'.rax == last.flags && BlockHolds(mem, g.rcx, GprsAt(memory, g.rcx), XmmsAt(memory, g.rcx)))
    ensures rsp == e + 8 && rip == Get(memory, e)
    // The VMCS stays usable for the next call with the same stack pointer, and a first launch is remembered.
    ensures HostStateFor(vmcs', e)
    ensures vmcs'.launched <==>
            vmcs.launched || (resume.Fails? && resume.error == Some(5) && launch.Exits?)
  {
    var rflags;
    rsp, rflags, mem, vmcs', entries := EnterGuest(g, x, e, memory, vmcs, resume, launch);
    var outcome := if TriesLaunch(resume) then launch else resume;
    g', x', rsp, rip, mem := LeaveGuest(g, x, e, rsp, outcome, rflags, vmcs', mem, Get(memory, e));
  }
}
