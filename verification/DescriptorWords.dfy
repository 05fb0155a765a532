/** The descriptors in numbers: the 64-bit words that end up in memory, and what is read from any word. */
module DescriptorWords {
  import opened Bits
  import opened Fields
  import opened Descriptors

  // ---------- reading ----------

  /** Bit 0 is the valid bit, bit 1 the table bit, and the next table's frame starts at bit 12. */
  lemma EntryReads(e: nat)
    ensures IsValid(e) <==> e % 2 == 1
    ensures IsTable(e) <==> e / 2 % 2 == 1
    ensures NextTable(e) == e / 0x1000 % 0x10_0000_0000
  {
    SmallPow2();
    LayoutPow2();
    hide Pow2;
  }

  /** The attribute bits of a page. */
  lemma AttrReads(e: nat)
    ensures AttrOf(e) == Attr(e / 4 % 8, e / 0x40 % 4, e / 0x100 % 4, e / 0x400 % 2, e / 0x800 % 2,
                              e / 0x20_0000_0000_0000 % 2, e / 0x40_0000_0000_0000 % 2)
  {
    SmallPow2();
    LayoutPow2();
    hide Pow2;
  }

  /** The physical address that an entry gives for va: a 1GB block, a 2MB block or a 4KB page. */
  lemma TargetReads(e: nat, va: nat)
    ensures Target(1, e, va) == e / 0x4000_0000 % 0x4_0000 * 0x4000_0000 + va % 0x4000_0000
    ensures Target(2, e, va) == e / 0x20_0000 % 0x800_0000 * 0x20_0000 + va % 0x20_0000
    ensures Target(3, e, va) == e / 0x1000 % 0x10_0000_0000 * 0x1000 + va % 0x1000
  {
    hide Pow2, Or;
    LayoutPow2();
    OrBelow(e / 0x4000_0000 % 0x4_0000, 30, va % 0x4000_0000);
    OrBelow(e / 0x20_0000 % 0x800_0000, 21, va % 0x20_0000);
    OrBelow(e / 0x1000 % 0x10_0000_0000, 12, va % 0x1000);
  }

  // ---------- writing ----------

  /** The fields of an entry in the order in which they are written. */
  function FieldAt(l: LeafLevel, i: nat): Field {
    if i == 0 then IS_VALID else if i == 1 then IS_TABLE else if i == 2 then PfnField(l)
    else if i == 3 then AP else if i == 4 then UXN else if i == 5 then PXN else if i == 6 then AF
    else if i == 7 then NG else if i == 8 then SH else ATTR_INDEX
  }

  lemma FieldsApart(l: LeafLevel, i: nat, k: nat)
    requires i < k < 10
    ensures Disjoint(FieldAt(l, i), FieldAt(l, k))
  {
  }

  /** The fields from the i-th on are still zero. */
  ghost predicate ZeroFrom(x: nat, l: LeafLevel, i: nat) {
    forall k: nat :: i <= k < 10 ==> Get(x, FieldAt(l, k)) == 0
  }

  /** Writing the next field adds its value in its place. */
  lemma SetNext(x: nat, l: LeafLevel, i: nat, v: nat)
    requires i < 10 && ZeroFrom(x, l, i) && v < Pow2(FieldAt(l, i).width)
    ensures Set(x, FieldAt(l, i), v) == x + v * Pow2(FieldAt(l, i).lo)
    ensures ZeroFrom(Set(x, FieldAt(l, i), v), l, i + 1)
    ensures Get(Set(x, FieldAt(l, i), v), FieldAt(l, i)) == v
  {
    hide Get, Set, Pow2, FieldAt;
    SetClear(x, FieldAt(l, i), v);
    GetSet(x, FieldAt(l, i), v);
    forall k: nat | i + 1 <= k < 10 ensures Get(Set(x, FieldAt(l, i), v), FieldAt(l, k)) == 0 {
      FieldsApart(l, i, k);
      GetOther(x, FieldAt(l, i), v, FieldAt(l, k));
    }
  }

  lemma ZeroIsZero(l: LeafLevel)
    ensures ZeroFrom(0, l, 0)
  {
    forall k: nat | k < 10 ensures Get(0, FieldAt(l, k)) == 0 {
      DivUnique(0, Pow2(FieldAt(l, k).lo), 0, 0);
      DivUnique(0, Pow2(FieldAt(l, k).width), 0, 0);
    }
  }

  /** A table entry for frame p is p * 4096 with the two lowest bits set. */
  lemma TableWord(p: nat)
    requires p < 0x10_0000_0000
    ensures TableDesc(p) == p * 0x1000 + 3
  {
    hide Get, Set, Pow2;
    SmallPow2();
    LayoutPow2();
    ZeroIsZero(3);
    SetNext(0, 3, 0, 1);
    SetNext(1, 3, 1, 1);
    SetNext(3, 3, 2, p);
  }

  /** The word before set_pte_flags: frame, table bit and valid bit. */
  lemma FrameWord(l: LeafLevel, pa: nat, bit: nat) returns (x: nat)
    requires pa < 0x1_0000_0000_0000 && pa % Span(l) == 0 && bit == if l == 3 then 1 else 0
    ensures x == Set(Set(Set(0, IS_VALID, 1), IS_TABLE, bit), PfnField(l), pa / Span(l))
    ensures x == pa + (if l == 3 then 3 else 1) && ZeroFrom(x, l, 3)
  {
    hide Get, Set, Pow2, ZeroFrom;
    SmallPow2();
    LayoutPow2();
    ZeroIsZero(l);
    SetNext(0, l, 0, 1);
    SetNext(1, l, 1, bit);
    SetNext(1 + 2 * bit, l, 2, pa / Span(l));
    x := Set(Set(Set(0, IS_VALID, 1), IS_TABLE, bit), PfnField(l), pa / Span(l));
  }

  /** set_pte_flags adds the permissions, the access flag, nG, shareability and memory type. */
  lemma FlagsWord(x: nat, l: LeafLevel, flags: nat)
    requires ZeroFrom(x, l, 3)
    ensures SetPteFlags(x, flags)
         == x + (if flags / 2 % 2 == 1 then 0x40 else 0xC0)
              + (if flags / 4 % 2 == 1 then 0 else 0x40_0000_0000_0000) + 0x20_0000_0000_0000 + 0x400 + 0x800
              + (if flags / 8 % 2 == 1 then 4 else 0x300 + (if flags / 16 % 2 == 1 then 8 else 0))
  {
    hide Get, Set, Pow2, ZeroFrom;
    SmallPow2();
    LayoutPow2();
    FlagBits(flags);
    var ap := if flags / 2 % 2 == 1 then 1 else 3;
    var xn := if flags / 4 % 2 == 1 then 0 else 1;
    var kind := if flags / 8 % 2 == 1 then 1 else if flags / 16 % 2 == 1 then 2 else 0;
    SetNext(x, l, 3, ap);
    var x1 := Set(x, AP, ap);
    SetNext(x1, l, 4, xn);
    var x2 := Set(x1, UXN, xn);
    SetNext(x2, l, 5, 1);
    var x3 := Set(x2, PXN, 1);
    SetNext(x3, l, 6, 1);
    var x4 := Set(x3, AF, 1);
    SetNext(x4, l, 7, 1);
    var x5 := Set(x4, NG, 1);
    SetNext(x5, l, 8, 3);
    var x6 := Set(x5, SH, 3);
    SetNext(x6, l, 9, kind);
    FieldsApart(l, 8, 9);
    GetOther(x6, ATTR_INDEX, kind, SH);
    SetZero(Set(x6, ATTR_INDEX, kind), SH, 3);
  }

  /** The word that maps an aligned block or page at pa: mem is 1 for device memory, 2 for memory that is not cached
      and else 0; ap is 1 for writable and else 3; sh is 0 for device memory and else 3; xn is set unless executable. */
  lemma LeafWord(l: LeafLevel, pa: nat, flags: nat)
    requires pa < 0x1_0000_0000_0000
    requires pa % (if l == 1 then 0x4000_0000 else if l == 2 then 0x20_0000 else 0x1000) == 0
    ensures
      var mem := if flags / 8 % 2 == 1 then 1 else if flags / 16 % 2 == 1 then 2 else 0;
      var ap := if flags / 2 % 2 == 1 then 1 else 3;
      var sh := if flags / 8 % 2 == 1 then 0 else 3;
      var xn := if flags / 4 % 2 == 1 then 0 else 1;
      LeafDesc(l, pa, flags)
      == pa + (if l == 3 then 3 else 1) + 4 * mem + 0x40 * ap + 0x100 * sh + 0x400 + 0x800
         + 0x20_0000_0000_0000 + 0x40_0000_0000_0000 * xn
  {
    hide Get, Set, Pow2, ZeroFrom, SetPteFlags;
    var x := FrameWord(l, pa, if l == 3 then 1 else 0);
    FlagsWord(x, l, flags);
  }
}
