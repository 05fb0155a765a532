/** What mapping and unmapping a range means, for 4KB pages and for huge pages,
    and the step lemmas behind the loops of page_table.c. */
module PageTableRanges {
  import opened Bits
  import opened Descriptors
  import opened DescriptorWords
  import opened Fields
  import opened PageTableSpec

  /** One call that maps: [va, end) to physical memory from pa on.  huge: with 1GB and 2MB blocks. */
  datatype Job = Job(va: nat, pa: nat, end: nat, flags: nat, huge: bool)

  const PAGE: nat := 0x1000

  /** page-aligned */
  predicate OnPage(a: nat) {
    a % PAGE == 0
  }

  /** aligned to a level-l block */
  predicate OnSpan(l: nat, a: nat) {
    a % Span(l) == 0
  }

  predicate JobOk(j: Job) {
    && OnPage(j.va) && OnPage(j.pa) && OnPage(j.end)
    && j.va <= j.end <= VA_LIMIT && j.pa + (j.end - j.va) <= VA_LIMIT
  }

  function Frame(l: nat, a: nat): (f: nat)
    ensures f <= a < f + Span(l)
  {
    a / Span(l) * Span(l)
  }

  /** The whole level-l block around a lies in the range, and its physical address is aligned too. */
  predicate Fits(j: Job, l: nat, a: nat) {
    j.va <= Frame(l, a) && Frame(l, a) + Span(l) <= j.end && (j.pa + (Frame(l, a) - j.va)) % Span(l) == 0
  }

  /** The level at which address a of the range gets mapped: the largest block that fits. */
  function Level(j: Job, a: nat): LeafLevel {
    if j.huge && Fits(j, 1, a) then 1 else if j.huge && Fits(j, 2, a) then 2 else 3
  }

  /** Where the block around a is mapped to. */
  function FramePa(j: Job, l: nat, a: nat): nat {
    if j.va <= Frame(l, a) then j.pa + (Frame(l, a) - j.va) else 0
  }

  function MappedLeaf(j: Job, a: nat): Lookup {
    Leaf(Level(j, a), LeafDesc(Level(j, a), FramePa(j, Level(j, a), a), j.flags))
  }

  // ---------- the specifications ----------

  /** Address a after the part of job j below va has been done. */
  function FindAfter(j: Job, sp: Space, va: nat, a: nat): Lookup {
    if j.va <= a < va then MappedLeaf(j, a) else Find(sp, a)
  }

  ghost predicate MappedUpTo(j: Job, sp: Space, w: Space, va: nat) {
    forall a: nat :: a < VA_LIMIT ==> Find(w, a) == FindAfter(j, sp, va, a)
  }

  /** w is sp with the range of j mapped. */
  ghost predicate MapsRange(j: Job, sp: Space, w: Space) {
    MappedUpTo(j, sp, w, j.end)
  }

  /** w is sp with [va, end) unmapped. */
  ghost predicate UnmapsRange(sp: Space, w: Space, va: nat, end: nat) {
    forall a: nat :: a < VA_LIMIT ==> Find(w, a) == if va <= a < end then Unmapped else Find(sp, a)
  }

  /** No block that is already there is larger than what the job writes at its addresses. */
  ghost predicate NoLarger(j: Job, sp: Space) {
    forall a: nat :: j.va <= a < j.end && Find(sp, a).Leaf? ==> Find(sp, a).level >= Level(j, a)
  }

  /** Every block or page that meets the range lies inside it. */
  ghost predicate Inside(sp: Space, va: nat, end: nat) {
    forall a: nat :: va <= a < end && Find(sp, a).Leaf? ==> InsideAt(Find(sp, a).level, va, end, a)
  }

  predicate InsideAt(l: LeafLevel, va: nat, end: nat, a: nat) {
    va <= Frame(l, a) && Frame(l, a) + Span(l) <= end
  }

  ghost predicate PagesOnly(sp: Space, va: nat, end: nat) {
    forall a: nat :: va <= a < end && Find(sp, a).Leaf? ==> Find(sp, a).level == 3
  }

  /** Physical address and attributes of a, as the hardware sees them. */
  datatype Meaning = NoMapping | MapsTo(pa: nat, attr: Attr)

  function MeaningOf(r: Lookup, a: nat): Meaning {
    match r
    case Unmapped => NoMapping
    case Leaf(l, e) => MapsTo(Target(l, e, a), AttrOf(e))
  }

  // ---------- the main theorems ----------

  lemma AlignedInFrame(j: Job, l: LeafLevel, a: nat)
    requires JobOk(j) && j.va <= a < j.end && l == Level(j, a)
    ensures j.va <= Frame(l, a) && FramePa(j, l, a) % Span(l) == 0
    ensures FramePa(j, l, a) + a % Span(l) == j.pa + (a - j.va) < VA_LIMIT
  {
    FrameFacts(l, a);
    hide Span, Frame;
    if l == 3 { PageFrame(j, a); }
  }

  lemma FrameFacts(l: nat, a: nat)
    ensures Frame(l, a) % Span(l) == 0 && a % Span(l) == a - Frame(l, a)
    ensures a % Span(l) == 0 <==> Frame(l, a) == a
  {
    hide Span;
    DivUnique(Frame(l, a), Span(l), a / Span(l), 0);
  }

  lemma PageFrame(j: Job, a: nat)
    requires JobOk(j) && j.va <= a < j.end
    ensures Span(3) == PAGE && j.va <= Frame(3, a) && Frame(3, a) + PAGE <= j.end
    ensures (j.pa + (Frame(3, a) - j.va)) % PAGE == 0
  {
  }

  function Ratio(k: nat, l: nat): (r: nat)
    ensures r > 0
  {
    if l == k then 1 else if l == k + 1 then 512 else 0x40000
  }

  lemma SpanRatio(k: nat, l: nat)
    requires 1 <= k <= l <= 3
    ensures Span(k) == Ratio(k, l) * Span(l)
  {
  }

  lemma MultipleOfPart(x: nat, s: nat, r: nat)
    requires s > 0 && r > 0 && r * s > 0 && x % (r * s) == 0
    ensures x % s == 0
  {
    var q := x / (r * s);
    assert x == q * (r * s) == (q * r) * s;
    DivUnique(x, s, q * r, 0);
  }

  /** One step of a smaller block stays in the frame, or reaches the next. */
  lemma NextFrame(k: nat, l: nat, va: nat)
    requires 1 <= k < l <= 3 && va % Span(l) == 0 && (va + Span(l)) % Span(k) != 0
    ensures Frame(k, va + Span(l)) == Frame(k, va)
  {
    SpanRatio(k, l);
    hide Span, Ratio;
    NextQuotient(va, Span(l), Ratio(k, l));
  }

  lemma NextQuotient(va: nat, s: nat, r: nat)
    requires s > 0 && r > 0 && r * s > 0 && va % s == 0 && (va + s) % (r * s) != 0
    ensures (va + s) / (r * s) == va / (r * s)
  {
    var x := va / s;
    DivUnique(va + s, s, x + 1, 0);
    DivDiv(va, s, r);
    DivDiv(va + s, s, r);
    assert s * r == r * s;
    WholeMultiple(va + s, s, r, x + 1);
    NextOf(x, r);
  }

  lemma WholeMultiple(y: nat, s: nat, r: nat, x: nat)
    requires r > 0 && r * s > 0 && y == x * s
    ensures x % r == 0 ==> y % (r * s) == 0
  {
    if x % r == 0 {
      var q := x / r;
      assert x == q * r;
      assert y == q * (r * s) by { assert (q * r) * s == q * (r * s); }
      DivUnique(y, r * s, q, 0);
    }
  }

  lemma NextOf(x: nat, r: nat)
    requires r > 0 && (x + 1) % r != 0
    ensures (x + 1) / r == x / r
  {
    var q, t := x / r, x % r;
    if t + 1 == r {
      assert x + 1 == (q + 1) * r;
      DivUnique(x + 1, r, q + 1, 0);
    } else {
      DivUnique(x + 1, r, q, t + 1);
    }
  }

  lemma SameFits(j: Job, k: nat, a: nat, b: nat)
    requires Frame(k, a) == Frame(k, b)
    ensures Fits(j, k, a) == Fits(j, k, b)
  {
    hide Frame, Span;
  }

  lemma PfnFits(l: LeafLevel, pa: nat)
    requires pa < VA_LIMIT
    ensures pa / Span(l) < Pow2(PfnField(l).width)
  {
    assert Pow2(9) == 512;
    Pow2Add(9, 9); Pow2Add(18, 9); Pow2Add(27, 9);
  }

  /** A mapped address translates to its place in the physical range, with the attributes asked for,
      whatever block size was chosen for it. */
  lemma MappedMeaning(j: Job, a: nat)
    requires JobOk(j) && j.va <= a < j.end
    ensures MeaningOf(MappedLeaf(j, a), a) == MapsTo(j.pa + (a - j.va), FlagsAttr(j.flags))
  {
    var l := Level(j, a);
    AlignedInFrame(j, l, a);
    var pa := FramePa(j, l, a);
    hide *;
    PfnFits(l, pa);
    LeafDescReads(l, pa, j.flags);
    TargetOfLeaf(l, pa, j.flags, a);
    MappedMeaningOf(j, a, l, pa);
  }

  lemma MappedMeaningOf(j: Job, a: nat, l: LeafLevel, pa: nat)
    requires l == Level(j, a) && pa == FramePa(j, l, a) && j.va <= a
    requires Target(l, LeafDesc(l, pa, j.flags), a) == pa + a % Span(l) == j.pa + (a - j.va)
    requires AttrOf(LeafDesc(l, pa, j.flags)) == FlagsAttr(j.flags)
    ensures MeaningOf(MappedLeaf(j, a), a) == MapsTo(j.pa + (a - j.va), FlagsAttr(j.flags))
  {
    hide LeafDesc, AttrOf, FlagsAttr, Target, Level, FramePa, Span;
  }

  /** The word in memory that maps an address of the range, in numbers: the physical address of its block or page, and
      below and above it the bits that the flags ask for. */
  lemma MappedWord(j: Job, sp: Space, w: Space, a: nat)
    requires JobOk(j) && MapsRange(j, sp, w) && j.va <= a < j.end
    ensures Find(w, a).Leaf?
    ensures
      var l := Find(w, a).level;
      var size := if l == 1 then 0x4000_0000 else if l == 2 then 0x20_0000 else 0x1000;
      var mem := if j.flags / 8 % 2 == 1 then 1 else if j.flags / 16 % 2 == 1 then 2 else 0;
      var ap := if j.flags / 2 % 2 == 1 then 1 else 3;
      var sh := if j.flags / 8 % 2 == 1 then 0 else 3;
      var xn := if j.flags / 4 % 2 == 1 then 0 else 1;
      && (!j.huge ==> l == 3)
      && Find(w, a).desc
         == (j.pa + (a - j.va) - a % size) + (if l == 3 then 3 else 1) + 4 * mem + 0x40 * ap + 0x100 * sh
            + 0x400 + 0x800 + 0x20_0000_0000_0000 + 0x40_0000_0000_0000 * xn
  {
    hide Find, LeafDesc, Fits;
    assert Find(w, a) == MappedLeaf(j, a);
    var l := Level(j, a);
    AlignedInFrame(j, l, a);
    LeafWord(l, FramePa(j, l, a), j.flags);
  }

  /** The huge mapper refines the 4KB mapper: from the same table both give the same address and the
      same attributes for every virtual address, inside the range and outside. */
  lemma HugeRefinesPages(j: Job, k: Job, sp: Space, w: Space, u: Space, a: nat)
    requires JobOk(j) && j.huge && k == j.(huge := false) && a < VA_LIMIT
    requires MapsRange(j, sp, w) && MapsRange(k, sp, u)
    ensures MeaningOf(Find(w, a), a) == MeaningOf(Find(u, a), a)
    ensures j.va <= a < j.end ==> MeaningOf(Find(w, a), a) == MapsTo(j.pa + (a - j.va), FlagsAttr(j.flags))
    ensures !(j.va <= a < j.end) ==> Find(w, a) == Find(sp, a)
  {
    hide Find, MeaningOf, MappedLeaf, FlagsAttr;
    if j.va <= a < j.end {
      MappedMeaning(j, a);
      MappedMeaning(k, a);
    }
  }

  /** After a map, every block in the range lies inside it, so the range can be unmapped again. */
  lemma MappedIsInside(j: Job, sp: Space, w: Space)
    requires JobOk(j) && MapsRange(j, sp, w)
    ensures Inside(w, j.va, j.end)
  {
    hide Find, LeafDesc, InsideAt, JobOk, Level, FramePa;
    forall a: nat | j.va <= a < j.end && Find(w, a).Leaf? ensures InsideAt(Find(w, a).level, j.va, j.end, a) {
      RangeBelowLimit(j);
      LevelInside(j, a);
    }
  }

  lemma RangeBelowLimit(j: Job)
    requires JobOk(j)
    ensures j.end <= VA_LIMIT
  {
  }

  lemma LevelInside(j: Job, a: nat)
    requires JobOk(j) && j.va <= a < j.end
    ensures InsideAt(Level(j, a), j.va, j.end, a)
  {
    hide Span;
    PageInside(j, a);
  }

  lemma PageInside(j: Job, a: nat)
    requires JobOk(j) && j.va <= a < j.end
    ensures InsideAt(3, j.va, j.end, a)
  {
  }

  /** Mapping a range that was unmapped and unmapping it again restores every translation. */
  lemma MapThenUnmap(j: Job, sp: Space, w: Space, u: Space, a: nat)
    requires JobOk(j) && MapsRange(j, sp, w) && UnmapsRange(w, u, j.va, j.end) && a < VA_LIMIT
    requires forall x: nat :: j.va <= x < j.end ==> Find(sp, x) == Unmapped
    ensures Find(u, a) == Find(sp, a)
  {
    hide Find, MappedLeaf;
  }

  /** Mapping over an earlier mapping of the same range replaces it: the last job wins. */
  lemma MapTwice(j: Job, k: Job, sp: Space, w: Space, u: Space)
    requires j.va == k.va && j.end == k.end && MapsRange(j, sp, w) && MapsRange(k, w, u)
    ensures MapsRange(k, sp, u)
  {
    hide Find, MappedLeaf;
  }

  // ---------- where the loop can be ----------

  /** The loop position is never strictly inside a block that fits. */
  predicate AtBoundary(j: Job, va: nat) {
    && OnPage(va) && j.va <= va <= j.end
    && (j.huge && va < j.end && Fits(j, 1, va) ==> va % Span(1) == 0)
    && (j.huge && va < j.end && Fits(j, 2, va) ==> va % Span(2) == 0)
  }

  lemma StartBoundary(j: Job)
    requires JobOk(j)
    ensures AtBoundary(j, j.va)
  {
  }

  /** The tests in map_range_in_pgtbl_huge choose the largest block that fits. */
  lemma TestsChooseLevel(j: Job, va: nat, pa: nat)
    requires JobOk(j) && AtBoundary(j, va) && va < j.end && pa == j.pa + (va - j.va) && j.huge
    ensures OnSpan(1, va) && OnSpan(1, pa) && j.end - va >= Span(1) <==> Level(j, va) == 1
    ensures Level(j, va) != 1 ==> (OnSpan(2, va) && OnSpan(2, pa) && j.end - va >= Span(2) <==> Level(j, va) == 2)
    ensures Level(j, va) == if va % 0x4000_0000 == pa % 0x4000_0000 == 0 && j.end - va >= 0x4000_0000 then 1
                            else if va % 0x20_0000 == pa % 0x20_0000 == 0 && j.end - va >= 0x20_0000 then 2 else 3
  {
    if va % Span(1) == 0 { assert Frame(1, va) == va; }
    if va % Span(2) == 0 { assert Frame(2, va) == va; }
  }

  lemma StepAligned(j: Job, va: nat)
    requires JobOk(j) && AtBoundary(j, va) && va < j.end
    ensures va % Span(Level(j, va)) == 0 && Frame(Level(j, va), va) == va && va + Span(Level(j, va)) <= j.end
    ensures FramePa(j, Level(j, va), va) == j.pa + (va - j.va)
  {
  }

  /** All addresses of the block written in one step are mapped by that block. */
  lemma StepUniform(j: Job, va: nat, a: nat)
    requires JobOk(j) && AtBoundary(j, va) && va < j.end && va <= a < va + Span(Level(j, va))
    ensures Level(j, a) == Level(j, va) && MappedLeaf(j, a) == MappedLeaf(j, va)
    ensures a / Span(Level(j, va)) == va / Span(Level(j, va))
  {
    hide JobOk, AtBoundary, LeafDesc, Span, Level, Frame, Fits, FramePa;
    StepAligned(j, va);
    var l := Level(j, va);
    InBlock(l, va, a);
    SameBlockLevel(j, l, va, a);
  }

  /** Two addresses of one block fit the same levels. */
  lemma SameBlockLevel(j: Job, l: LeafLevel, va: nat, a: nat)
    requires l == Level(j, va) && a / Span(l) == va / Span(l)
    ensures Level(j, a) == l && MappedLeaf(j, a) == MappedLeaf(j, va)
  {
    hide Span, LeafDesc, Fits;
    if l > 1 { SameEntry(1, l, a, va); }
    if l > 2 { SameEntry(2, l, a, va); }
    SameFits(j, 1, a, va);
    if l > 1 { SameFits(j, 2, a, va); }
    assert Frame(l, a) == Frame(l, va);
  }

  lemma InBlock(l: LeafLevel, va: nat, a: nat)
    requires va % Span(l) == 0 && va <= a < va + Span(l)
    ensures a / Span(l) == va / Span(l)
  {
    hide Span;
    DivUnique(a, Span(l), va / Span(l), a - va);
  }

  lemma OutsideBlock(l: LeafLevel, va: nat, a: nat)
    requires va % Span(l) == 0 && a / Span(l) == va / Span(l)
    ensures va <= a < va + Span(l)
  {
    hide Span;
    FrameFacts(l, a);
    FrameFacts(l, va);
  }

  lemma NextBoundary(j: Job, va: nat)
    requires JobOk(j) && AtBoundary(j, va) && va < j.end
    ensures AtBoundary(j, va + Span(Level(j, va)))
  {
    StepAligned(j, va);
    var l := Level(j, va);
    PagesInSpan(l, va);
    BoundaryKept(j, va, l, 1);
    BoundaryKept(j, va, l, 2);
    hide Span, Fits, Level;
  }

  lemma PagesInSpan(l: LeafLevel, va: nat)
    requires OnPage(va)
    ensures OnPage(va + Span(l))
  {
  }

  lemma BoundaryKept(j: Job, va: nat, l: LeafLevel, k: nat)
    requires l == Level(j, va) && va % Span(l) == 0 && 1 <= k <= 2
    ensures j.huge && Fits(j, k, va + Span(l)) ==> (va + Span(l)) % Span(k) == 0
  {
    hide Span, Frame, Fits;
    if k < l {
      assert !(j.huge && Fits(j, k, va));
      if (va + Span(l)) % Span(k) != 0 {
        NextFrame(k, l, va);
        SameFits(j, k, va + Span(l), va);
      }
    } else {
      WholeStep(k, l, va);
    }
  }

  lemma WholeStep(k: nat, l: nat, va: nat)
    requires 1 <= l <= k <= 3 && va % Span(l) == 0
    ensures (va + Span(l)) % Span(k) == 0
  {
    SpanRatio(l, k);
    hide Span, Ratio;
    DivUnique(va + Span(l), Span(l), va / Span(l) + 1, 0);
    MultipleOfPart(va + Span(l), Span(k), Ratio(l, k));
  }
}
