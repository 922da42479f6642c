/**
 Bit fields of a 64-bit word, as the `bitfield!` declarations of the page-table entries define them,
 and the records that the other modules use in their place
 (src/hvcore/src/hypervisor/intel/epts.rs:170-181, src/hvcore/src/hypervisor/paging_structures.rs:61-70).
 */
module BitFields {
  import opened Bits
  import E = Epts
  import P = PagingStructures

  /** The `width` bits of `v` from bit `lo` on. */
  function Field(v: nat, lo: nat, width: nat): nat {
    if lo > 0 then Field(v / 2, lo - 1, width)
    else if width > 0 then 2 * Field(v / 2, 0, width - 1) + v % 2
    else 0
  }

  /** `v` with those bits replaced by the low bits of `x`. */
  function SetField(v: nat, lo: nat, width: nat, x: nat): nat {
    if lo > 0 then 2 * SetField(v / 2, lo - 1, width, x) + v % 2
    else if width > 0 then 2 * SetField(v / 2, 0, width - 1, x / 2) + x % 2
    else v
  }

  lemma Halves(q: nat, r: nat)
    requires r < 2
    ensures (2 * q + r) / 2 == q && (2 * q + r) % 2 == r
  {
  }

  /** A field reads back the low bits of what was written. */
  lemma {:induction false} FieldAfterSet(v: nat, lo: nat, width: nat, x: nat)
    ensures Field(SetField(v, lo, width, x), lo, width) == Field(x, 0, width)
  {
    if lo > 0 {
      Halves(SetField(v / 2, lo - 1, width, x), v % 2);
      FieldAfterSet(v / 2, lo - 1, width, x);
    } else if width > 0 {
      Halves(SetField(v / 2, 0, width - 1, x / 2), x % 2);
      FieldAfterSet(v / 2, 0, width - 1, x / 2);
    }
  }

  /** A write leaves every disjoint field alone. */
  lemma {:induction false} FieldAfterOtherSet(v: nat, lo: nat, width: nat, x: nat, lo': nat, width': nat)
    requires lo + width <= lo' || lo' + width' <= lo
    ensures Field(SetField(v, lo, width, x), lo', width') == Field(v, lo', width')
    decreases lo + width + lo' + width'
  {
    if lo > 0 {
      Halves(SetField(v / 2, lo - 1, width, x), v % 2);
      if lo' > 0 {
        FieldAfterOtherSet(v / 2, lo - 1, width, x, lo' - 1, width');
      } else if width' > 0 {
        FieldAfterOtherSet(v / 2, lo - 1, width, x, 0, width' - 1);
      }
    } else if width > 0 {
      Halves(SetField(v / 2, 0, width - 1, x / 2), x % 2);
      if lo' > 0 {
        FieldAfterOtherSet(v / 2, 0, width - 1, x / 2, lo' - 1, width');
      }
    }
  }

  /** After writes to three disjoint fields each reads back, and any other field is untouched. */
  lemma ThreeSets(v: nat, a: nat, wa: nat, x: nat, b: nat, wb: nat, y: nat, c: nat, wc: nat, z: nat,
                  lo: nat, width: nat)
    requires (a + wa <= b || b + wb <= a) && (a + wa <= c || c + wc <= a) && (b + wb <= c || c + wc <= b)
    requires (a + wa <= lo || lo + width <= a) && (b + wb <= lo || lo + width <= b)
             && (c + wc <= lo || lo + width <= c)
    ensures var w := SetField(SetField(SetField(v, a, wa, x), b, wb, y), c, wc, z);
            && Field(w, a, wa) == Field(x, 0, wa) && Field(w, b, wb) == Field(y, 0, wb)
            && Field(w, c, wc) == Field(z, 0, wc) && Field(w, lo, width) == Field(v, lo, width)
  {
    var v1 := SetField(v, a, wa, x);
    var v2 := SetField(v1, b, wb, y);
    FieldAfterSet(v, a, wa, x);
    FieldAfterSet(v1, b, wb, y);
    FieldAfterSet(v2, c, wc, z);
    FieldAfterOtherSet(v1, b, wb, y, a, wa);
    FieldAfterOtherSet(v2, c, wc, z, a, wa);
    FieldAfterOtherSet(v2, c, wc, z, b, wb);
    FieldAfterOtherSet(v, a, wa, x, lo, width);
    FieldAfterOtherSet(v1, b, wb, y, lo, width);
    FieldAfterOtherSet(v2, c, wc, z, lo, width);
  }

  /** A write to a field of the word keeps it a word of as many bits. */
  lemma {:induction false} SetFieldStaysBelow(v: nat, lo: nat, width: nat, x: nat, m: nat)
    requires v < Pow2(m) && lo + width <= m
    ensures SetField(v, lo, width, x) < Pow2(m)
    decreases lo + width
  {
    if lo > 0 {
      SetFieldStaysBelow(v / 2, lo - 1, width, x, m - 1);
    } else if width > 0 {
      SetFieldStaysBelow(v / 2, 0, width - 1, x / 2, m - 1);
    }
  }

  /** The low bits of a number are its remainder. */
  lemma {:induction false} LowBits(x: nat, width: nat)
    ensures Field(x, 0, width) == x % Pow2(width)
  {
    if width > 0 {
      LowBits(x / 2, width - 1);
      ModDouble(x, width);
    }
  }

  lemma PowersOfFields()
    ensures Pow2(1) == 2 && Pow2(3) == 8 && Pow2(40) == 0x100_0000_0000
  {
    assert Pow2(1) == 2 && Pow2(2) == 4 && Pow2(3) == 8;
    Pow2Add(2, 3);
    Pow2Add(5, 5);
    Pow2Add(10, 10);
    Pow2Add(20, 20);
  }

  function Flag(b: bool): nat { if b then 1 else 0 }

  // ---------------------------------------------------------------- the entries as words

  /** The fields of an EPT entry in its word. */
  function EptEntry(v: nat): E.Entry {
    E.Entry(Field(v, 0, 1) == 1, Field(v, 1, 1) == 1, Field(v, 2, 1) == 1, Field(v, 3, 3),
            Field(v, 7, 1) == 1, Field(v, 12, 40))
  }

  /** The fields of an ordinary page-table entry in its word. */
  function PageEntry(v: nat): P.Entry {
    P.Entry(Field(v, 0, 1) == 1, Field(v, 1, 1) == 1, Field(v, 2, 1) == 1, Field(v, 7, 1) == 1, Field(v, 12, 40))
  }

  /** What all fields that the two formats use read after a write to one of them. */
  lemma FieldsAfterSet(v: nat, lo: nat, width: nat, x: nat)
    requires (lo, width) in {(0, 1), (1, 1), (2, 1), (3, 3), (7, 1), (12, 40)}
    ensures var w := SetField(v, lo, width, x);
            forall f | f in {(0, 1), (1, 1), (2, 1), (3, 3), (7, 1), (12, 40)} ::
              Field(w, f.0, f.1) == if f == (lo, width) then Field(x, 0, width) else Field(v, f.0, f.1)
  {
    forall f | f in {(0, 1), (1, 1), (2, 1), (3, 3), (7, 1), (12, 40)}
      ensures Field(SetField(v, lo, width, x), f.0, f.1) ==
              if f == (lo, width) then Field(x, 0, width) else Field(v, f.0, f.1)
    {
      if f == (lo, width) {
        FieldAfterSet(v, lo, width, x);
      } else {
        FieldAfterOtherSet(v, lo, width, x, f.0, f.1);
      }
    }
  }

  lemma FlagBit(b: bool)
    ensures Field(Flag(b), 0, 1) == Flag(b)
  {
    LowBits(Flag(b), 1);
    PowersOfFields();
  }

  /** A write to one of these fields leaves the bits that belong to none of them alone. */
  lemma UnusedBitsKept(v: nat, lo: nat, width: nat, x: nat)
    requires (lo, width) in {(0, 1), (1, 1), (2, 1), (3, 3), (7, 1), (12, 40)}
    ensures var w := SetField(v, lo, width, x);
            && Field(w, 6, 1) == Field(v, 6, 1) && Field(w, 8, 4) == Field(v, 8, 4)
            && Field(w, 52, 12) == Field(v, 52, 12)
  {
    FieldAfterOtherSet(v, lo, width, x, 6, 1);
    FieldAfterOtherSet(v, lo, width, x, 8, 4);
    FieldAfterOtherSet(v, lo, width, x, 52, 12);
  }

  /** The setters of an EPT entry act on its word as the record updates do. */
  lemma EptSettersOnWord(v: nat, b: bool, x: nat)
    ensures EptEntry(SetField(v, 0, 1, Flag(b))) == EptEntry(v).(readable := b)
    ensures EptEntry(SetField(v, 1, 1, Flag(b))) == EptEntry(v).(writable := b)
    ensures EptEntry(SetField(v, 2, 1, Flag(b))) == EptEntry(v).(executable := b)
    ensures EptEntry(SetField(v, 7, 1, Flag(b))) == EptEntry(v).(large := b)
    ensures EptEntry(SetField(v, 3, 3, x)) == EptEntry(v).SetMemoryType(x)
    ensures EptEntry(SetField(v, 12, 40, x)) == EptEntry(v).SetPfn(x)
  {
    FlagBit(b);
    LowBits(x, 3);
    LowBits(x, 40);
    PowersOfFields();
    FieldsAfterSet(v, 0, 1, Flag(b));
    FieldsAfterSet(v, 1, 1, Flag(b));
    FieldsAfterSet(v, 2, 1, Flag(b));
    FieldsAfterSet(v, 7, 1, Flag(b));
    FieldsAfterSet(v, 3, 3, x);
    FieldsAfterSet(v, 12, 40, x);
  }

  /** So do those of an ordinary entry. */
  lemma PageSettersOnWord(v: nat, b: bool, x: nat)
    ensures PageEntry(SetField(v, 0, 1, Flag(b))) == PageEntry(v).(present := b)
    ensures PageEntry(SetField(v, 1, 1, Flag(b))) == PageEntry(v).(writable := b)
    ensures PageEntry(SetField(v, 2, 1, Flag(b))) == PageEntry(v).(user := b)
    ensures PageEntry(SetField(v, 7, 1, Flag(b))) == PageEntry(v).(large := b)
    ensures PageEntry(SetField(v, 12, 40, x)) == PageEntry(v).SetPfn(x)
  {
    FlagBit(b);
    LowBits(x, 40);
    PowersOfFields();
    FieldsAfterSet(v, 0, 1, Flag(b));
    FieldsAfterSet(v, 1, 1, Flag(b));
    FieldsAfterSet(v, 2, 1, Flag(b));
    FieldsAfterSet(v, 7, 1, Flag(b));
    FieldsAfterSet(v, 12, 40, x);
  }

  /** A zeroed word is the zero entry, so the records start where the zeroed boxes do. */
  lemma ZeroWord()
    ensures EptEntry(0) == E.ZERO_ENTRY && PageEntry(0) == P.ZERO_ENTRY
  {
    FieldOfZero(0, 1); FieldOfZero(1, 1); FieldOfZero(2, 1); FieldOfZero(3, 3); FieldOfZero(7, 1); FieldOfZero(12, 40);
  }

  lemma {:induction false} FieldOfZero(lo: nat, width: nat)
    ensures Field(0, lo, width) == 0
    decreases lo + width
  {
    if lo > 0 {
      FieldOfZero(lo - 1, width);
    } else if width > 0 {
      FieldOfZero(0, width - 1);
    }
  }
}
