/**
 What the hand-written assembly works on: general-purpose and XMM registers, and memory in 8-byte
 words. The assembly only moves words; the one address it computes with is the stack pointer, which
 is taken not to wrap around.
 */
module Machine {

  datatype Gprs = Gprs(
    rax: int, rbx: int, rcx: int, rdx: int, rdi: int, rsi: int, rbp: int,
    r8: int, r9: int, r10: int, r11: int, r12: int, r13: int, r14: int, r15: int)

  datatype Xmm = Xmm(low: int, high: int)

  datatype Xmms = Xmms(xmm0: Xmm, xmm1: Xmm, xmm2: Xmm, xmm3: Xmm, xmm4: Xmm, xmm5: Xmm)

  /** A word at every address; the words at two addresses less than 8 apart are never used together. */
  type Memory = m: imap<int, int> | forall a: int :: a in m ghost witness imap a: int :: 0

  function Get(m: Memory, a: int): int { m[a] }

  function Set(m: Memory, a: int, v: int): (r: Memory)
    ensures forall b: int :: Get(r, b) == if b == a then v else Get(m, b)
  {
    m[a := v]
  }

  /** The words at the two addresses have no byte in common. */
  predicate Disjoint(a: int, b: int) { a + 8 <= b || b + 8 <= a }

  function XmmAt(m: Memory, a: int): Xmm { Xmm(Get(m, a), Get(m, a + 8)) }

  /** MOVAPS from memory, which faults unless its operand is aligned. */
  function GetXmm(m: Memory, a: int): (v: Xmm)
    requires a % 16 == 0
    ensures v == XmmAt(m, a)
  {
    Xmm(Get(m, a), Get(m, a + 8))
  }

  /** MOVAPS to memory. */
  function SetXmm(m: Memory, a: int, v: Xmm): (r: Memory)
    requires a % 16 == 0
    ensures XmmAt(r, a) == v
    ensures forall b: int | b != a && b != a + 8 :: Get(r, b) == Get(m, b)
  {
    Set(Set(m, a, v.low), a + 8, v.high)
  }

  // ---------------------------------------------------------------- struct Registers

  function GprsAt(m: Memory, p: int): Gprs {
    Gprs(Get(m, p + 0x00), Get(m, p + 0x08), Get(m, p + 0x10), Get(m, p + 0x18), Get(m, p + 0x20),
         Get(m, p + 0x28), Get(m, p + 0x30), Get(m, p + 0x38), Get(m, p + 0x40), Get(m, p + 0x48),
         Get(m, p + 0x50), Get(m, p + 0x58), Get(m, p + 0x60), Get(m, p + 0x68), Get(m, p + 0x70))
  }

  function XmmsAt(m: Memory, p: int): Xmms {
    Xmms(XmmAt(m, p + 0x90), XmmAt(m, p + 0xa0), XmmAt(m, p + 0xb0),
         XmmAt(m, p + 0xc0), XmmAt(m, p + 0xd0), XmmAt(m, p + 0xe0))
  }

  function FlagsAt(m: Memory, p: int): int { Get(m, p + 0x78) }

  function RspAt(m: Memory, p: int): int { Get(m, p + 0x80) }

  function RipAt(m: Memory, p: int): int { Get(m, p + 0x88) }

  /** The block is the C layout of the struct: its fields in order of declaration, without gaps. */
  lemma BlockIsStruct(m: Memory, p: int)
    ensures var g := GprsAt(m, p);
            [g.rax, g.rbx, g.rcx, g.rdx, g.rdi, g.rsi, g.rbp, g.r8, g.r9, g.r10, g.r11, g.r12, g.r13, g.r14, g.r15,
             FlagsAt(m, p), RspAt(m, p), RipAt(m, p)] ==
            seq(18, i requires 0 <= i < 18 => Get(m, p + 8 * i))
    ensures var x := XmmsAt(m, p);
            [x.xmm0.low, x.xmm0.high, x.xmm1.low, x.xmm1.high, x.xmm2.low, x.xmm2.high,
             x.xmm3.low, x.xmm3.high, x.xmm4.low, x.xmm4.high, x.xmm5.low, x.xmm5.high] ==
            seq(12, i requires 0 <= i < 12 => Get(m, p + 8 * (18 + i)))
  {
  }

  /** The word at `a` is not part of the block at `p`. */
  predicate OutsideBlock(a: int, p: int) { a + 8 <= p || p + 0xf0 <= a }

  /** No word of [lo, hi) is part of the block. */
  predicate BlockOutside(p: int, lo: int, hi: int) { hi <= p || p + 0xf0 <= lo }

  /** The two memories agree on every word outside [lo, hi). */
  ghost predicate SameOutside(m: Memory, m': Memory, lo: int, hi: int) {
    forall a: int | a + 8 <= lo || hi <= a :: Get(m, a) == Get(m', a)
  }

  /** The registers stored in a block survive writes elsewhere. */
  lemma GprsKept(m: Memory, m': Memory, p: int, lo: int, hi: int)
    requires SameOutside(m, m', lo, hi) && (hi <= p || p + 0x78 <= lo)
    ensures GprsAt(m, p) == GprsAt(m', p)
  {
  }

  lemma XmmsKept(m: Memory, m': Memory, p: int, lo: int, hi: int)
    requires SameOutside(m, m', lo, hi) && (hi <= p + 0x90 || p + 0xf0 <= lo)
    ensures XmmsAt(m, p) == XmmsAt(m', p)
  {
  }

  /** A whole block survives writes elsewhere. */
  lemma BlockKept(m: Memory, m': Memory, p: int, lo: int, hi: int)
    requires SameOutside(m, m', lo, hi) && BlockOutside(p, lo, hi)
    ensures GprsAt(m, p) == GprsAt(m', p) && XmmsAt(m, p) == XmmsAt(m', p)
    ensures FlagsAt(m, p) == FlagsAt(m', p) && RspAt(m, p) == RspAt(m', p) && RipAt(m, p) == RipAt(m', p)
  {
    GprsKept(m, m', p, lo, hi);
    XmmsKept(m, m', p, lo, hi);
  }

  /** Equal words, equal block. */
  lemma BlockCopied(m: Memory, m': Memory, p: int)
    requires forall a: int | p <= a < p + 0xf0 :: Get(m, a) == Get(m', a)
    ensures GprsAt(m, p) == GprsAt(m', p) && XmmsAt(m, p) == XmmsAt(m', p)
    ensures FlagsAt(m, p) == FlagsAt(m', p) && RspAt(m, p) == RspAt(m', p) && RipAt(m, p) == RipAt(m', p)
  {
  }

  /** Within a 16-byte aligned block the operands of MOVAPS are aligned, and so is every word. */
  lemma BlockAligned(p: int)
    requires p % 16 == 0
    ensures (p + 0x90) % 16 == (p + 0xa0) % 16 == (p + 0xb0) % 16 == 0
    ensures (p + 0xc0) % 16 == (p + 0xd0) % 16 == (p + 0xe0) % 16 == 0
    ensures (p + 0x38) % 8 == (p + 0x40) % 8 == (p + 0x48) % 8 == 0
  {
  }

  // ---------------------------------------------------------------- a store at any address

  /** The low `n` bytes. */
  function TakeBytes(x: int, n: nat): int
    decreases n
  {
    if n == 0 then 0 else x % 256 + 256 * TakeBytes(x / 256, n - 1)
  }

  /** The bytes above the low `n`. */
  function DropBytes(x: int, n: nat): int
    decreases n
  {
    if n == 0 then x else DropBytes(x / 256, n - 1)
  }

  /** `high` above the low `n` bytes of `low`. */
  function Join(n: nat, low: int, high: int): int {
    if n == 0 then high else low % 256 + 256 * Join(n - 1, low / 256, high)
  }

  predicate IsWord(v: int) { 0 <= v < 0x1_0000_0000_0000_0000 }

  /** A word after `v` was stored `d` bytes above its address. */
  function Overwritten(word: int, d: int, v: int): int {
    if d == 0 then v
    else if 0 < d < 8 then Join(d, word, TakeBytes(v, 8 - d))
    else if -8 < d < 0 then Join(8 + d, DropBytes(v, -d), DropBytes(word, 8 + d))
    else word
  }

  /** MOV to any address, on the aligned words. */
  function Store(m: Memory, a: int, v: int): Memory {
    var w := a - a % 8;
    Set(Set(m, w, Overwritten(Get(m, w), a - w, v)), w + 8, Overwritten(Get(m, w + 8), a - (w + 8), v))
  }

  /** MOV from any address, on the aligned words. */
  function Load(m: Memory, a: int): int {
    var w, d := a - a % 8, a % 8;
    if d == 0 then Get(m, w) else Join(8 - d, DropBytes(Get(m, w), d), TakeBytes(Get(m, w + 8), d))
  }

  /** Byte number `i`, from the low end. */
  function Byte(x: int, i: nat): int { DropBytes(x, i) % 256 }

  lemma {:induction false} ByteOfJoin(n: nat, low: int, high: int, i: nat)
    ensures Byte(Join(n, low, high), i) == if i < n then Byte(low, i) else Byte(high, i - n)
  {
    if n > 0 {
      var j := Join(n, low, high);
      assert j / 256 == Join(n - 1, low / 256, high) && j % 256 == low % 256;
      if i > 0 { ByteOfJoin(n - 1, low / 256, high, i - 1); }
    }
  }

  lemma {:induction false} ByteOfTake(x: int, n: nat, i: nat)
    requires i < n
    ensures Byte(TakeBytes(x, n), i) == Byte(x, i)
    decreases n
  {
    assert TakeBytes(x, n) / 256 == TakeBytes(x / 256, n - 1);
    if i > 0 { ByteOfTake(x / 256, n - 1, i - 1); }
  }

  lemma {:induction false} ByteOfDrop(x: int, n: nat, i: nat)
    ensures Byte(DropBytes(x, n), i) == Byte(x, n + i)
    decreases n
  {
    if n > 0 { ByteOfDrop(x / 256, n - 1, i); }
  }

  /** An overwritten word has the bytes of `v` where the store reached it and its own elsewhere. */
  lemma OverwrittenBytes(word: int, d: int, v: int, i: nat)
    requires i < 8
    ensures Byte(Overwritten(word, d, v), i) == if 0 <= i - d < 8 then Byte(v, i - d) else Byte(word, i)
  {
    if 0 < d < 8 {
      ByteOfJoin(d, word, TakeBytes(v, 8 - d), i);
      if i >= d { ByteOfTake(v, 8 - d, i - d); }
    } else if -8 < d < 0 {
      ByteOfJoin(8 + d, DropBytes(v, -d), DropBytes(word, 8 + d), i);
      if i < 8 + d {
        ByteOfDrop(v, -d, i);
      } else {
        ByteOfDrop(word, 8 + d, i - (8 + d));
      }
    }
  }

  /** A store reaches every aligned word that it overlaps, and leaves every word that it does not. */
  lemma StoredWord(m: Memory, a: int, v: int, b: int)
    requires b % 8 == 0 || Disjoint(a, b)
    ensures Get(Store(m, a, v), b) == Overwritten(Get(m, b), a - b, v)
  {
    var w := a - a % 8;
    assert b != w && b != w + 8 ==> Disjoint(a, b);
  }

  lemma {:induction false} JoinParts(n: nat, low: int, high: int)
    ensures TakeBytes(Join(n, low, high), n) == TakeBytes(low, n) && DropBytes(Join(n, low, high), n) == high
  {
    if n > 0 {
      JoinParts(n - 1, low / 256, high);
      assert Join(n, low, high) / 256 == Join(n - 1, low / 256, high);
    }
  }

  lemma {:induction false} Rejoined(v: int, n: nat, k: nat)
    ensures Join(n, TakeBytes(v, n), TakeBytes(DropBytes(v, n), k)) == TakeBytes(v, n + k)
    decreases n
  {
    if n > 0 {
      Rejoined(v / 256, n - 1, k);
      assert TakeBytes(v, n) / 256 == TakeBytes(v / 256, n - 1);
    }
  }

  lemma {:induction false} TakeAll(v: int, n: nat)
    requires v >= 0 && DropBytes(v, n) == 0
    ensures TakeBytes(v, n) == v
  {
    if n > 0 { TakeAll(v / 256, n - 1); }
  }

  lemma WordHasEightBytes(v: int)
    requires IsWord(v)
    ensures DropBytes(v, 8) == 0
  {
    assert DropBytes(v, 8) == DropBytes(v / 256 / 256 / 256 / 256, 4);
    assert 0 <= v / 256 / 256 / 256 / 256 < 0x1_0000_0000;
  }

  /** The two parts of a stored word, read back from the two words that received them. */
  lemma Spliced(x: int, y: int, v: int, d: nat, k: nat)
    requires IsWord(v) && k + d == 8
    ensures Join(k, DropBytes(Join(d, x, TakeBytes(v, k)), d),
                 TakeBytes(Join(d, DropBytes(v, k), DropBytes(y, d)), d)) == v
  {
    JoinParts(d, x, TakeBytes(v, k));
    JoinParts(d, DropBytes(v, k), DropBytes(y, d));
    Rejoined(v, k, d);
    WordHasEightBytes(v);
    TakeAll(v, 8);
  }

  /** What was stored is loaded again, whatever the alignment. */
  lemma LoadAfterStore(m: Memory, a: int, v: int)
    requires IsWord(v)
    ensures Load(Store(m, a, v), a) == v
  {
    var d := a % 8;
    if d != 0 {
      Spliced(Get(m, a - d), Get(m, a - d + 8), v, d, 8 - d);
    }
  }
}
