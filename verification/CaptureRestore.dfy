/**
 `capture_registers` and `restore_registers`, one statement an instruction
 (src/hvcore/src/hypervisor/capture_registers.S, src/hvcore/src/hypervisor/restore_registers.S).
 */
module CaptureRestore {
  import opened Machine

  /** The stores of the general-purpose registers. */
  method StoreGprs(g: Gprs, p: int, memory: Memory) returns (mem: Memory)
    ensures GprsAt(mem, p) == g
    ensures SameOutside(mem, memory, p, p + 0x78)
  {
    mem := memory;
    mem := Set(mem, p + 0x00, g.rax);
    mem := Set(mem, p + 0x08, g.rbx);
    mem := Set(mem, p + 0x10, g.rcx);
    mem := Set(mem, p + 0x18, g.rdx);
    mem := Set(mem, p + 0x28, g.rsi);
    mem := Set(mem, p + 0x20, g.rdi);
    mem := Set(mem, p + 0x30, g.rbp);
    mem := Set(mem, p + 0x38, g.r8);
    mem := Set(mem, p + 0x40, g.r9);
    mem := Set(mem, p + 0x48, g.r10);
    mem := Set(mem, p + 0x50, g.r11);
    mem := Set(mem, p + 0x58, g.r12);
    mem := Set(mem, p + 0x60, g.r13);
    mem := Set(mem, p + 0x68, g.r14);
    mem := Set(mem, p + 0x70, g.r15);
  }

  /** The stores of the XMM registers. */
  method StoreXmms(x: Xmms, p: int, memory: Memory) returns (mem: Memory)
    requires p % 16 == 0
    ensures XmmsAt(mem, p) == x
    ensures SameOutside(mem, memory, p + 0x90, p + 0xf0)
  {
    BlockAligned(p);
    mem := memory;
    mem := SetXmm(mem, p + 0x90, x.xmm0);
    mem := SetXmm(mem, p + 0xa0, x.xmm1);
    mem := SetXmm(mem, p + 0xb0, x.xmm2);
    mem := SetXmm(mem, p + 0xc0, x.xmm3);
    mem := SetXmm(mem, p + 0xd0, x.xmm4);
    mem := SetXmm(mem, p + 0xe0, x.xmm5);
  }

  /** The loads of the XMM registers. */
  method LoadXmms(p: int, mem: Memory) returns (x: Xmms)
    requires p % 16 == 0
    ensures x == XmmsAt(mem, p)
  {
    BlockAligned(p);
    var xmm0 := GetXmm(mem, p + 0x90);
    var xmm1 := GetXmm(mem, p + 0xa0);
    var xmm2 := GetXmm(mem, p + 0xb0);
    var xmm3 := GetXmm(mem, p + 0xc0);
    var xmm4 := GetXmm(mem, p + 0xd0);
    var xmm5 := GetXmm(mem, p + 0xe0);
    x := Xmms(xmm0, xmm1, xmm2, xmm3, xmm4, xmm5);
  }

  /** RFLAGS, the stack pointer before the call and the return address, through RAX. */
  method StoreControl(p: int, rflags: int, rspBefore: int, memory: Memory)
    returns (rax: int, rsp: int, rip: int, mem: Memory)
    requires OutsideBlock(rspBefore, p) && OutsideBlock(rspBefore - 8, p)
    ensures FlagsAt(mem, p) == rflags && RspAt(mem, p) == rsp == rspBefore + 8
    ensures RipAt(mem, p) == rip == Get(memory, rspBefore)
    ensures GprsAt(mem, p) == GprsAt(memory, p) && XmmsAt(mem, p) == XmmsAt(memory, p)
    ensures forall a: int | OutsideBlock(a, p) && Disjoint(a, rspBefore - 8) :: Get(mem, a) == Get(memory, a)
  {
    rsp, mem := rspBefore, memory;
    // PUSHFQ, POP RAX
    rsp := rsp - 8; mem := Set(mem, rsp, rflags);
    rax := Get(mem, rsp); rsp := rsp + 8;
    mem := Set(mem, p + 0x78, rax);
    // MOV RAX, RSP; ADD RAX, 8
    rax := rsp;
    rax := rax + 8;
    mem := Set(mem, p + 0x80, rax);
    rax := Get(mem, rsp);
    mem := Set(mem, p + 0x88, rax);
    // RET
    rip := Get(mem, rsp); rsp := rsp + 8;
  }

  /**
   `capture_registers`, called with the block's address in RCX and the return address on the stack.
   The block is 16-byte aligned, as its type demands, and must not contain the return address nor the
   word below it. On return RAX is lost.
   */
  method Capture(g: Gprs, x: Xmms, rflags: int, rspBefore: int, memory: Memory)
    returns (rax: int, rsp: int, rip: int, mem: Memory)
    requires g.rcx % 16 == 0 && OutsideBlock(rspBefore, g.rcx) && OutsideBlock(rspBefore - 8, g.rcx)
    ensures GprsAt(mem, g.rcx) == g && XmmsAt(mem, g.rcx) == x && FlagsAt(mem, g.rcx) == rflags
    ensures RspAt(mem, g.rcx) == rsp == rspBefore + 8
    ensures RipAt(mem, g.rcx) == rip == Get(memory, rspBefore)
    ensures forall a: int | OutsideBlock(a, g.rcx) && Disjoint(a, rspBefore - 8) :: Get(mem, a) == Get(memory, a)
  {
    mem := StoreGprs(g, g.rcx, memory);
    ghost var stored := mem;
    mem := StoreXmms(x, g.rcx, mem);
    GprsKept(mem, stored, g.rcx, g.rcx + 0x90, g.rcx + 0xf0);
    rax, rsp, rip, mem := StoreControl(g.rcx, rflags, rspBefore, mem);
  }

  /** The pushes at the start of `restore_registers`; R10 keeps the block's address. */
  method Stash(rcx: int, r11: int, rspBefore: int, memory: Memory) returns (r10: int, rsp: int, mem: Memory)
    requires BlockOutside(rcx, rspBefore - 40, rspBefore)
    ensures r10 == rcx && rsp == rspBefore - 40
    ensures Get(mem, rsp) == GprsAt(memory, rcx).r11 && Get(mem, rsp + 8) == GprsAt(memory, rcx).rax
    ensures Get(mem, rsp + 16) == RipAt(memory, rcx) && Get(mem, rsp + 24) == RspAt(memory, rcx)
    ensures SameOutside(mem, memory, rspBefore - 40, rspBefore)
  {
    rsp, mem := rspBefore, memory;
    rsp := rsp - 8; mem := Set(mem, rsp, r11);
    r10 := rcx;
    rsp := rsp - 8; mem := Set(mem, rsp, Get(mem, r10 + 0x80));
    rsp := rsp - 8; mem := Set(mem, rsp, Get(mem, r10 + 0x88));
    rsp := rsp - 8; mem := Set(mem, rsp, Get(mem, r10 + 0x00));
    rsp := rsp - 8; mem := Set(mem, rsp, Get(mem, r10 + 0x50));
  }

  /** The loads between the pushes and POPFQ; RAX gets the flags. */
  method LoadPreserved(r10: int, mem: Memory)
    returns (x: Xmms, rax: int, rbx: int, rbp: int, rsi: int, rdi: int, r12: int, r13: int, r14: int, r15: int)
    requires r10 % 16 == 0
    ensures x == XmmsAt(mem, r10) && rax == FlagsAt(mem, r10)
    ensures var r := GprsAt(mem, r10);
            && rbx == r.rbx && rbp == r.rbp && rsi == r.rsi && rdi == r.rdi
            && r12 == r.r12 && r13 == r.r13 && r14 == r.r14 && r15 == r.r15
  {
    x := LoadXmms(r10, mem);
    r15 := Get(mem, r10 + 0x70);
    r14 := Get(mem, r10 + 0x68);
    r13 := Get(mem, r10 + 0x60);
    r12 := Get(mem, r10 + 0x58);
    rdi := Get(mem, r10 + 0x20);
    rsi := Get(mem, r10 + 0x28);
    rbp := Get(mem, r10 + 0x30);
    rbx := Get(mem, r10 + 0x08);
    rax := Get(mem, r10 + 0x78);
  }

  /** PUSH RAX, POPFQ, the pops in reverse order of the pushes, and the loads of RCX and RDX. */
  method Unstash(r10: int, flags: int, rspBefore: int, memory: Memory)
    returns (rax: int, rcx: int, rdx: int, r8: int, r9: int, r11: int, rflags: int, rsp: int, mem: Memory)
    requires BlockOutside(r10, rspBefore - 8, rspBefore)
    ensures rflags == flags && r11 == Get(memory, rspBefore) && rax == Get(memory, rspBefore + 8)
    ensures r8 == Get(memory, rspBefore + 16) && r9 == Get(memory, rspBefore + 24)
    ensures rcx == GprsAt(memory, r10).rcx && rdx == GprsAt(memory, r10).rdx
    ensures SameOutside(mem, memory, rspBefore - 8, rspBefore)
  {
    rsp, mem := rspBefore, memory;
    rsp := rsp - 8; mem := Set(mem, rsp, flags);
    rflags := Get(mem, rsp); rsp := rsp + 8;
    r11 := Get(mem, rsp); rsp := rsp + 8;
    rax := Get(mem, rsp); rsp := rsp + 8;
    r8 := Get(mem, rsp); rsp := rsp + 8;
    r9 := Get(mem, rsp); rsp := rsp + 8;
    rcx := Get(mem, r10 + 0x10);
    rdx := Get(mem, r10 + 0x18);
  }

  /** Everything before the switch of stacks; R8, R9 and R10 hold the new RIP and RSP and the block's address. */
  method LoadBeforeSwitch(entry: Gprs, rspBefore: int, memory: Memory)
    returns (g: Gprs, x: Xmms, rflags: int, mem: Memory)
    requires entry.rcx % 16 == 0 && BlockOutside(entry.rcx, rspBefore - 48, rspBefore)
    ensures var p := entry.rcx;
            && x == XmmsAt(memory, p) && rflags == FlagsAt(memory, p)
            && g == GprsAt(memory, p).(r8 := RipAt(memory, p), r9 := RspAt(memory, p), r10 := p)
            && GprsAt(mem, p) == GprsAt(memory, p)
    ensures SameOutside(mem, memory, rspBefore - 48, rspBefore)
  {
    var rax, rcx, rdx, rbx, rbp, rsi, rdi, r8, r9, r10, r11, r12, r13, r14, r15, rsp;
    r10, rsp, mem := Stash(entry.rcx, entry.r11, rspBefore, memory);
    BlockKept(mem, memory, entry.rcx, rspBefore - 40, rspBefore);
    x, rax, rbx, rbp, rsi, rdi, r12, r13, r14, r15 := LoadPreserved(r10, mem);
    ghost var stashed := mem;
    rax, rcx, rdx, r8, r9, r11, rflags, rsp, mem := Unstash(r10, rax, rsp, mem);
    BlockKept(mem, stashed, entry.rcx, rspBefore - 48, rspBefore - 40);
    g := Gprs(rax, rbx, rcx, rdx, rdi, rsi, rbp, r8, r9, r10, r11, r12, r13, r14, r15);
  }

  /** The return address in R8 goes below the new stack pointer in R9; then the last loads and RET. */
  method SwitchStack(rip': int, rsp': int, p: int, memory: Memory)
    returns (r8: int, r9: int, r10: int, rsp: int, rip: int, mem: Memory)
    requires p % 16 == 0 && IsWord(rip')
    ensures rsp == rsp' && rip == rip'
    ensures r8 == Overwritten(GprsAt(memory, p).r8, rsp' - 8 - (p + 0x38), rip')
    ensures r9 == Overwritten(GprsAt(memory, p).r9, rsp' - 8 - (p + 0x40), rip')
    ensures r10 == Overwritten(GprsAt(memory, p).r10, rsp' - 8 - (p + 0x48), rip')
    ensures forall a: int | Disjoint(a, rsp' - 8) :: Get(mem, a) == Get(memory, a)
  {
    mem, r8, r9, r10 := memory, rip', rsp', p;
    rsp := r9 - 8;
    mem := Store(mem, rsp, r8);
    BlockAligned(p);
    forall a: int | a % 8 == 0 || Disjoint(a, rsp)
      ensures Get(mem, a) == Overwritten(Get(memory, a), rsp - a, rip')
    {
      StoredWord(memory, rsp, rip', a);
    }
    LoadAfterStore(memory, rsp, rip');
    r8 := Get(mem, r10 + 0x38);
    r9 := Get(mem, r10 + 0x40);
    r10 := Get(mem, r10 + 0x48);
    rip := Load(mem, rsp); rsp := rsp + 8;
  }

  /**
   `restore_registers`, called with the block's address in RCX. Its pushes must not hit the block.
   The return address goes to the slot below the restored stack pointer, whatever its alignment; R8,
   R9 and R10 are loaded after that, so each of them is lost as far as the slot overlaps its word.
   */
  method Restore(entry: Gprs, rspBefore: int, memory: Memory)
    returns (g: Gprs, x: Xmms, rflags: int, rsp: int, rip: int, mem: Memory)
    requires entry.rcx % 16 == 0 && BlockOutside(entry.rcx, rspBefore - 48, rspBefore)
    requires IsWord(RipAt(memory, entry.rcx))
    ensures x == XmmsAt(memory, entry.rcx)
    ensures var p := entry.rcx;
            var r, slot := GprsAt(memory, p), RspAt(memory, p) - 8;
            && rflags == FlagsAt(memory, p) && rsp == RspAt(memory, p) && rip == RipAt(memory, p)
            && g == r.(r8 := Overwritten(r.r8, slot - (p + 0x38), rip),
                       r9 := Overwritten(r.r9, slot - (p + 0x40), rip),
                       r10 := Overwritten(r.r10, slot - (p + 0x48), rip))
    ensures forall a: int | (a + 8 <= rspBefore - 48 || rspBefore <= a)
                            && Disjoint(a, RspAt(memory, entry.rcx) - 8) :: Get(mem, a) == Get(memory, a)
  {
    var r8, r9, r10;
    g, x, rflags, mem := LoadBeforeSwitch(entry, rspBefore, memory);
    r8, r9, r10, rsp, rip, mem := SwitchStack(g.r8, g.r9, g.r10, mem);
    g := g.(r8 := r8, r9 := r9, r10 := r10);
  }

  /**
   Capture, anything at all that leaves the block intact, then restore: execution resumes at the
   captured return address with every saved register, the flags and the stack pointer as they were.
   */
  method CaptureThenRestore(g: Gprs, x: Xmms, rflags: int, rspBefore: int, memory: Memory,
                            later: Gprs, laterRsp: int, laterMemory: Memory)
    returns (captured: Memory, g': Gprs, x': Xmms, rflags': int, rsp': int, rip': int, mem': Memory)
    requires g.rcx % 16 == 0 && OutsideBlock(rspBefore, g.rcx) && OutsideBlock(rspBefore - 8, g.rcx)
    requires later.rcx == g.rcx && BlockOutside(g.rcx, laterRsp - 48, laterRsp)
    requires IsWord(RipAt(laterMemory, g.rcx))
    ensures GprsAt(captured, g.rcx) == g && XmmsAt(captured, g.rcx) == x
    ensures (forall a: int | g.rcx <= a < g.rcx + 0xf0 :: Get(laterMemory, a) == Get(captured, a)) ==>
              && g' == g && x' == x && rflags' == rflags
              && rsp' == rspBefore + 8 && rip' == Get(memory, rspBefore)
  {
    var rax, rsp, rip;
    rax, rsp, rip, captured := Capture(g, x, rflags, rspBefore, memory);
    g', x', rflags', rsp', rip', mem' := Restore(later, laterRsp, laterMemory);
    if forall a: int | g.rcx <= a < g.rcx + 0xf0 :: Get(laterMemory, a) == Get(captured, a) {
      BlockCopied(laterMemory, captured, g.rcx);
    }
  }
}
