/** The 64-bit AArch64 descriptors: how map_range_in_pgtbl builds them and what the walk reads from them. */
module Descriptors {
  import opened Bits
  import opened Fields

  // the l3_page view, through which set_pte_flags writes every kind of entry
  const IS_VALID := Field(0, 1)
  const IS_TABLE := Field(1, 1)   // is_page in an L3 entry
  const ATTR_INDEX := Field(2, 3)
  const AP := Field(6, 2)
  const SH := Field(8, 2)
  const AF := Field(10, 1)
  const NG := Field(11, 1)
  const PXN := Field(53, 1)
  const UXN := Field(54, 1)
  const NEXT_TABLE := Field(12, 36)

  // the l1_block and l2_block views place these two one bit higher than the l3_page view
  const BLOCK_PXN := Field(54, 1)
  const BLOCK_UXN := Field(55, 1)

  // vmr_prop_t
  const VMR_WRITE := Field(1, 1)
  const VMR_EXEC := Field(2, 1)
  const VMR_DEVICE := Field(3, 1)
  const VMR_NOCACHE := Field(4, 1)

  const NORMAL_MEMORY: nat := 0
  const DEVICE_MEMORY: nat := 1
  const NORMAL_MEMORY_NOCACHE: nat := 2
  const INNER_SHAREABLE: nat := 3

  predicate IsValid(e: nat) { Get(e, IS_VALID) == 1 }
  predicate IsTable(e: nat) { Get(e, IS_TABLE) == 1 }

  /** The level of an entry that ends a walk: a 1GB block, a 2MB block or a 4KB page. */
  type LeafLevel = l: nat | 1 <= l <= 3 witness 3

  function PfnField(l: LeafLevel): Field {
    if l == 1 then Field(30, 18) else if l == 2 then Field(21, 27) else Field(12, 36)
  }

  /** The bytes that one entry of a level-l table covers. */
  function Span(l: nat): (s: nat)
    ensures s > 0
  {
    if l == 0 then 0x80_0000_0000
    else if l == 1 then 0x4000_0000
    else if l == 2 then 0x20_0000
    else 0x1000
  }

  datatype Attr = Attr(attrIndex: nat, ap: nat, sh: nat, af: nat, ng: nat, pxn: nat, uxn: nat)

  function AttrOf(e: nat): Attr {
    Attr(Get(e, ATTR_INDEX), Get(e, AP), Get(e, SH), Get(e, AF), Get(e, NG), Get(e, PXN), Get(e, UXN))
  }

  /** What the flags ask for: bit 1 is VMR_WRITE, 2 VMR_EXEC, 3 VMR_DEVICE and 4 VMR_NOCACHE. */
  function FlagsAttr(flags: nat): Attr {
    var device := flags / 8 % 2 == 1;
    Attr(if device then 1 else if flags / 16 % 2 == 1 then 2 else 0,
         if flags / 2 % 2 == 1 then 1 else 3,
         if device then 0 else 3,
         1, 1, 1,
         if flags / 4 % 2 == 1 then 0 else 1)
  }

  lemma FlagBits(flags: nat)
    ensures Get(flags, VMR_WRITE) == flags / 2 % 2 && Get(flags, VMR_EXEC) == flags / 4 % 2
    ensures Get(flags, VMR_DEVICE) == flags / 8 % 2 && Get(flags, VMR_NOCACHE) == flags / 16 % 2
  {
    assert Pow2(1) == 2 && Pow2(2) == 4 && Pow2(3) == 8 && Pow2(4) == 16;
  }

  /** set_pte_flags: seven fields, in the order the code writes them. */
  function SetPteFlags(e: nat, flags: nat): (r: nat) {
    hide Get, Set, Pow2;
    var e := Set(e, AP, if Get(flags, VMR_WRITE) == 1 then 1 else 3);
    var e := Set(e, UXN, if Get(flags, VMR_EXEC) == 1 then 0 else 1);
    var e := Set(e, PXN, 1);
    var e := Set(e, AF, 1);
    var e := Set(e, NG, 1);
    var e := Set(e, SH, INNER_SHAREABLE);
    if Get(flags, VMR_DEVICE) == 1 then Set(Set(e, ATTR_INDEX, DEVICE_MEMORY), SH, 0)
    else if Get(flags, VMR_NOCACHE) == 1 then Set(e, ATTR_INDEX, NORMAL_MEMORY_NOCACHE)
    else Set(e, ATTR_INDEX, NORMAL_MEMORY)
  }

  lemma FlagsFit(e: nat, flags: nat)
    requires e < U64
    ensures SetPteFlags(e, flags) < U64
  {
    hide Get, Set;
    var e1 := Set(e, AP, if Get(flags, VMR_WRITE) == 1 then 1 else 3);
    var e2 := Set(e1, UXN, if Get(flags, VMR_EXEC) == 1 then 0 else 1);
    var e3 := Set(e2, PXN, 1);
    var e4 := Set(e3, AF, 1);
    var e5 := Set(e4, NG, 1);
    var e6 := Set(e5, SH, INNER_SHAREABLE);
    SetFits(e, AP, if Get(flags, VMR_WRITE) == 1 then 1 else 3);
    SetFits(e1, UXN, if Get(flags, VMR_EXEC) == 1 then 0 else 1);
    SetFits(e2, PXN, 1);
    SetFits(e3, AF, 1);
    SetFits(e4, NG, 1);
    SetFits(e5, SH, INNER_SHAREABLE);
    SetFits(e6, ATTR_INDEX, DEVICE_MEMORY);
    SetFits(e6, ATTR_INDEX, NORMAL_MEMORY_NOCACHE);
    SetFits(e6, ATTR_INDEX, NORMAL_MEMORY);
    SetFits(Set(e6, ATTR_INDEX, DEVICE_MEMORY), SH, 0);
  }

  predicate ClearOfFlags(g: Field) {
    && Disjoint(AP, g) && Disjoint(UXN, g) && Disjoint(PXN, g) && Disjoint(AF, g)
    && Disjoint(NG, g) && Disjoint(SH, g) && Disjoint(ATTR_INDEX, g)
  }

  /** Whatever the flags are, set_pte_flags leaves every other field of every view as it was:
      the valid bit, the table bit and the frame number of a table, a block or a page. */
  lemma FlagsKeep(e: nat, flags: nat, g: Field)
    requires ClearOfFlags(g)
    ensures Get(SetPteFlags(e, flags), g) == Get(e, g)
  {
    hide Get, Set;
    FlagBits(flags);
    var ap := if Get(flags, VMR_WRITE) == 1 then 1 else 3;
    var uxn := if Get(flags, VMR_EXEC) == 1 then 0 else 1;
    var e1 := Set(e, AP, ap);
    var e2 := Set(e1, UXN, uxn);
    var e3 := Set(e2, PXN, 1);
    var e4 := Set(e3, AF, 1);
    var e5 := Set(e4, NG, 1);
    var e6 := Set(e5, SH, INNER_SHAREABLE);
    GetOther(e, AP, ap, g);
    GetOther(e1, UXN, uxn, g);
    GetOther(e2, PXN, 1, g);
    GetOther(e3, AF, 1, g);
    GetOther(e4, NG, 1, g);
    GetOther(e5, SH, INNER_SHAREABLE, g);
    var kind := FlagsAttr(flags).attrIndex;
    GetOther(e6, ATTR_INDEX, kind, g);
    GetOther(Set(e6, ATTR_INDEX, kind), SH, 0, g);
  }

  lemma AllClear()
    ensures ClearOfFlags(IS_VALID) && ClearOfFlags(IS_TABLE) && ClearOfFlags(NEXT_TABLE)
    ensures forall l: LeafLevel :: ClearOfFlags(PfnField(l))
  {
  }

  lemma SmallPowers()
    ensures Pow2(1) == 2 && Pow2(2) == 4 && Pow2(3) == 8
  {
  }

  /** After set_pte_flags the attributes are those the flags ask for, whatever was there before. */
  lemma FlagsTake(e: nat, flags: nat)
    ensures AttrOf(SetPteFlags(e, flags)) == FlagsAttr(flags)
  {
    SmallPowers();
    FlagBits(flags);
    hide Get, Set, Pow2;
    var want := FlagsAttr(flags);
    var e1 := Set(e, AP, want.ap);
    var e2 := Set(e1, UXN, want.uxn);
    var e3 := Set(e2, PXN, 1);
    var e4 := Set(e3, AF, 1);
    var e5 := Set(e4, NG, 1);
    var e6 := Set(e5, SH, INNER_SHAREABLE);
    var e7 := Set(e6, ATTR_INDEX, want.attrIndex);
    var e8 := Set(e7, SH, 0);
    Kept(e, AP, want.ap, e1); Kept(e1, UXN, want.uxn, e2); Kept(e2, PXN, 1, e3); Kept(e3, AF, 1, e4);
    Kept(e4, NG, 1, e5); Kept(e5, SH, INNER_SHAREABLE, e6); Kept(e6, ATTR_INDEX, want.attrIndex, e7);
    Kept(e7, SH, 0, e8);
  }

  lemma Kept(e: nat, f: Field, v: nat, r: nat)
    requires r == Set(e, f, v) && v < Pow2(f.width)
    ensures Get(r, f) == v
    ensures forall g :: Disjoint(f, g) ==> Get(r, g) == Get(e, g)
  {
    GetSet(e, f, v);
    forall g | Disjoint(f, g) ensures Get(r, g) == Get(e, g) { GetOther(e, f, v, g); }
  }

  /** The block layouts of page_table.h do not agree with the layout the code writes through:
      read as an l1_block or l2_block, PXN shows the UXN bit, and UXN shows what was there before. */
  lemma BlockViewShifted(e: nat, flags: nat)
    ensures var r := SetPteFlags(e, flags);
      && r / 0x20_0000_0000_0000 % 2 == 1                                             // PXN of a page: bit 53
      && (r / 0x40_0000_0000_0000 % 2 == 1 <==> flags / 4 % 2 == 0)                   // UXN of a page, PXN of a block
      && r / 0x80_0000_0000_0000 % 2 == e / 0x80_0000_0000_0000 % 2                   // UXN of a block: bit 55
      && Get(r, BLOCK_PXN) == r / 0x40_0000_0000_0000 % 2 && Get(r, BLOCK_UXN) == r / 0x80_0000_0000_0000 % 2
  {
    hide Pow2, SetPteFlags;
    SmallPow2();
    LayoutPow2();
    FlagsTake(e, flags);
    FlagsKeep(e, flags, BLOCK_UXN);
  }

  // ---------- building entries ----------

  /** A table descriptor for the table in physical frame p. */
  function TableDesc(p: nat): (e: nat) {
    hide Get, Set, Pow2;
    Set(Set(Set(0, IS_VALID, 1), IS_TABLE, 1), NEXT_TABLE, p)
  }

  function NextTable(e: nat): (p: nat) {
    Get(e, NEXT_TABLE)
  }

  /** The entry that maps a 1GB block, a 2MB block or a 4KB page at physical address pa. */
  function LeafDesc(l: LeafLevel, pa: nat, flags: nat): (e: nat) {
    hide Get, Set, Pow2, SetPteFlags;
    SetPteFlags(Set(Set(Set(0, IS_VALID, 1), IS_TABLE, if l == 3 then 1 else 0), PfnField(l), pa / Span(l)), flags)
  }

  /** Every entry that the code builds is a 64-bit word. */
  lemma DescriptorsFit(p: nat, l: LeafLevel, pa: nat, flags: nat)
    ensures TableDesc(p) < U64 && LeafDesc(l, pa, flags) < U64
  {
    hide Get, Set, SetPteFlags;
    var e1 := Set(0, IS_VALID, 1);
    SetFits(0, IS_VALID, 1);
    SetFits(e1, IS_TABLE, 1);
    SetFits(e1, IS_TABLE, 0);
    SetFits(Set(e1, IS_TABLE, 1), NEXT_TABLE, p);
    var e2 := Set(e1, IS_TABLE, if l == 3 then 1 else 0);
    SetFits(e2, PfnField(l), pa / Span(l));
    FlagsFit(Set(e2, PfnField(l), pa / Span(l)), flags);
  }

  lemma TableDescReads(p: nat)
    requires p < Pow2(36)
    ensures IsValid(TableDesc(p)) && IsTable(TableDesc(p)) && NextTable(TableDesc(p)) == p
  {
    SmallPowers();
    hide Get, Set, Pow2;
    var e1 := Set(0, IS_VALID, 1);
    var e2 := Set(e1, IS_TABLE, 1);
    Kept(0, IS_VALID, 1, e1);
    Kept(e1, IS_TABLE, 1, e2);
    Kept(e2, NEXT_TABLE, p, TableDesc(p));
  }

  lemma LeafDescReads(l: LeafLevel, pa: nat, flags: nat)
    requires pa / Span(l) < Pow2(PfnField(l).width)
    ensures var e := LeafDesc(l, pa, flags);
      IsValid(e) && (IsTable(e) <==> l == 3) && Get(e, PfnField(l)) == pa / Span(l) && AttrOf(e) == FlagsAttr(flags)
  {
    SmallPowers();
    AllClear();
    hide Get, Set, Pow2, PfnField, SetPteFlags, AttrOf, FlagsAttr, ClearOfFlags;
    var bit := if l == 3 then 1 else 0;
    var e1 := Set(0, IS_VALID, 1);
    var e2 := Set(e1, IS_TABLE, bit);
    var e3 := Set(e2, PfnField(l), pa / Span(l));
    Kept(0, IS_VALID, 1, e1);
    Kept(e1, IS_TABLE, bit, e2);
    Kept(e2, PfnField(l), pa / Span(l), e3);
    PfnApart(l);
    FlagsKeep(e3, flags, IS_VALID);
    FlagsKeep(e3, flags, IS_TABLE);
    FlagsKeep(e3, flags, PfnField(l));
    FlagsTake(e3, flags);
  }

  lemma PfnApart(l: LeafLevel)
    ensures Disjoint(PfnField(l), IS_VALID) && Disjoint(PfnField(l), IS_TABLE)
  {
  }

  lemma ZeroInvalid()
    ensures !IsValid(0)
  {
    assert Pow2(0) == 1 && Pow2(1) == 2;
  }

  // ---------- reading an address out of an entry ----------

  /** ((pfn << shift) | offset), as query_in_pgtbl computes the physical address. */
  function Target(l: LeafLevel, e: nat, va: nat): (pa: nat) {
    Or(Get(e, PfnField(l)) * Span(l), va % Span(l))
  }

  lemma SpanIsPow2(l: LeafLevel)
    ensures Span(l) == Pow2(PfnField(l).lo)
  {
    assert Pow2(10) == 1024;
    Pow2Add(10, 2); Pow2Add(10, 1); Pow2Add(10, 10); Pow2Add(20, 10); Pow2Add(20, 1);
    assert Pow2(2) == 4 && Pow2(1) == 2;
  }

  /** Encoding and decoding are inverse: an aligned block comes back as the address it was made for. */
  lemma TargetOfLeaf(l: LeafLevel, pa: nat, flags: nat, va: nat)
    requires pa % Span(l) == 0 && pa / Span(l) < Pow2(PfnField(l).width)
    ensures Target(l, LeafDesc(l, pa, flags), va) == pa + va % Span(l)
  {
    LeafDescReads(l, pa, flags);
    SpanIsPow2(l);
    hide Get, Pow2, LeafDesc, Or, PfnField, Span;
    WholeSpans(pa, va, Span(l));
    OrBelow(pa / Span(l), PfnField(l).lo, va % Span(l));
  }

  lemma WholeSpans(pa: nat, va: nat, s: nat)
    requires s > 0 && pa % s == 0
    ensures pa / s * s == pa && va % s < s
  {
  }
}
