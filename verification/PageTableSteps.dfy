/** The loop invariants of the mapping and unmapping loops, and that each step keeps them. */
module PageTableSteps {
  import opened Bits
  import opened Options
  import opened Descriptors
  import opened PageTableSpec
  import opened PageTableRanges

  // ---------- mapping ----------

  /** The level-m table on the path of a was cut off: a larger block was written over its entry. */
  predicate Cut(j: Job, va: nat, m: nat, a: nat) {
    j.va <= a < va && Level(j, a) < m
  }

  ghost predicate TablesKept(j: Job, sp: Space, w: Space, va: nat) {
    && (forall t :: t in sp.tree ==> t in w.tree && w.tree[t] == sp.tree[t])
    && (forall m: nat, a: nat :: m <= 3 && a < VA_LIMIT && TableAt(sp, m, a).Some? && !Cut(j, va, m, a)
                                 ==> TableAt(w, m, a) == TableAt(sp, m, a))
  }

  /** A table that was there before is on a path only where it was before. */
  ghost predicate NoneBack(sp: Space, w: Space) {
    forall m: nat, a: nat :: m <= 3 && a < VA_LIMIT && TableAt(w, m, a).Some? && TableAt(w, m, a).value in sp.tree
                             ==> TableAt(sp, m, a) == TableAt(w, m, a)
  }

  /** Table t was needed: an address x of the range is mapped by an entry in it or below it. */
  predicate NeededAt(j: Job, w: Space, t: nat, x: nat) {
    && t in w.tree && j.va <= x < j.end && x < VA_LIMIT
    && 1 <= w.tree[t].level <= Level(j, x) && TableAt(w, w.tree[t].level, x) == Some(t)
  }

  ghost predicate Needed(j: Job, w: Space, t: nat) {
    exists x: nat :: NeededAt(j, w, t, x)
  }

  ghost predicate NewTables(j: Job, sp: Space, w: Space) {
    forall t :: t in w.tree && t !in sp.tree ==> Needed(j, w, t)
  }

  ghost predicate MapInv(j: Job, sp: Space, w: Space, va: nat) {
    && WF(w) && w.root == sp.root
    && MappedUpTo(j, sp, w, va) && TablesKept(j, sp, w, va) && NoneBack(sp, w) && NewTables(j, sp, w)
  }

  /** The whole effect of a mapping call: every address of the range is mapped by the largest block that
      fits, every other address finds what it found before, tables stay except below new blocks, and every
      new table was needed. */
  ghost predicate Mapped(j: Job, sp: Space, w: Space) {
    MapInv(j, sp, w, j.end)
  }

  lemma StartMap(j: Job, sp: Space)
    requires WF(sp)
    ensures MapInv(j, sp, sp, j.va)
  {
    hide Find, TableAt, WF, Level;
  }

  lemma InsertMonotone(w: Space, l: nat, va: nat, t: nat, p: nat, m: nat, a: nat)
    requires CanInsert(w, l, va, t, p) && a < VA_LIMIT && m <= 3 && TableAt(w, m, a).Some?
    ensures TableAt(Insert(w, l, va, t, p), m, a) == TableAt(w, m, a)
  {
    InsertTables(w, l, va, t, p, m, a);
    if m == l + 1 && a / Span(l) == va / Span(l) {
      PreRoot(a);
      PreIndex(l, a);
      PreIndex(l, va);
      hide IsValid, IsTable, NextTable, Index, Pre, TableDesc, EntryOk, Span;
      SameTable(w.mem, w.root, 0, l, a, va);
      TableThrough(w, w.root, 0, l, m, a);
    }
  }

  lemma InsertNeeded(j: Job, w: Space, va: nat, l: nat, t: nat, p: nat, s: nat, x: nat)
    requires CanInsert(w, l, va, t, p) && NeededAt(j, w, s, x)
    ensures NeededAt(j, Insert(w, l, va, t, p), s, x)
  {
    hide TableAt, Level;
    assert s != p;
    assert TableOk(w, s);
    InsertMonotone(w, l, va, t, p, w.tree[s].level, x);
  }

  lemma InsertNeedsNew(j: Job, w: Space, va: nat, l: nat, t: nat, p: nat)
    requires CanInsert(w, l, va, t, p) && j.va <= va < j.end && l < Level(j, va)
    ensures NeededAt(j, Insert(w, l, va, t, p), p, va)
  {
    hide TableAt, Level;
    InsertTables(w, l, va, t, p, l + 1, va);
  }

  lemma InsertKeepsTables(j: Job, sp: Space, w: Space, va: nat, l: nat, t: nat, p: nat)
    requires TablesKept(j, sp, w, va) && CanInsert(w, l, va, t, p)
    ensures TablesKept(j, sp, Insert(w, l, va, t, p), va)
  {
    InsertTree(w, l, va, t, p);
    var u := Insert(w, l, va, t, p);
    hide TableAt, Level, CanInsert, Insert, Cut, Pre;
    forall m: nat, a: nat | m <= 3 && a < VA_LIMIT && TableAt(sp, m, a).Some? && !Cut(j, va, m, a)
      ensures TableAt(u, m, a) == TableAt(sp, m, a)
    {
      InsertMonotone(w, l, va, t, p, m, a);
    }
  }

  lemma InsertKeepsOld(j: Job, sp: Space, w: Space, va: nat, l: nat, t: nat, p: nat)
    requires TablesKept(j, sp, w, va) && NoneBack(sp, w) && CanInsert(w, l, va, t, p)
    ensures NoneBack(sp, Insert(w, l, va, t, p))
  {
    InsertTree(w, l, va, t, p);
    var u := Insert(w, l, va, t, p);
    hide TableAt, Level, CanInsert, Insert, Cut, Pre, Span;
    forall m: nat, a: nat | m <= 3 && a < VA_LIMIT && TableAt(u, m, a).Some? && TableAt(u, m, a).value in sp.tree
      ensures TableAt(sp, m, a) == TableAt(u, m, a)
    {
      InsertTables(w, l, va, t, p, m, a);
    }
  }

  lemma InsertKeepsNew(j: Job, sp: Space, w: Space, va: nat, l: nat, t: nat, p: nat)
    requires NewTables(j, sp, w) && CanInsert(w, l, va, t, p) && j.va <= va < j.end && l < Level(j, va)
    ensures NewTables(j, sp, Insert(w, l, va, t, p))
  {
    InsertTree(w, l, va, t, p);
    var u := Insert(w, l, va, t, p);
    hide NeededAt, CanInsert, Insert, Pre, Level;
    forall s | s in u.tree && s !in sp.tree ensures Needed(j, u, s) {
      if s == p {
        InsertNeedsNew(j, w, va, l, t, p);
        assert NeededAt(j, u, p, va);
      } else {
        assert Needed(j, w, s);
        var x: nat :| NeededAt(j, w, s, x);
        InsertNeeded(j, w, va, l, t, p, s, x);
        assert NeededAt(j, u, s, x);
      }
    }
  }

  /** Allocating a table on the way to a page keeps the loop invariant. */
  lemma InsertKeeps(j: Job, sp: Space, w: Space, va: nat, l: nat, t: nat, p: nat)
    requires MapInv(j, sp, w, va) && j.va <= va < j.end && l < Level(j, va) && CanInsert(w, l, va, t, p)
    ensures MapInv(j, sp, Insert(w, l, va, t, p), va)
  {
    var u := Insert(w, l, va, t, p);
    hide WF, Find, TableAt, Level, CanInsert, Insert, FindAfter, TablesKept, NoneBack, NewTables, Pre;
    InsertWF(w, l, va, t, p);
    InsertTree(w, l, va, t, p);
    InsertKeepsTables(j, sp, w, va, l, t, p);
    InsertKeepsOld(j, sp, w, va, l, t, p);
    InsertKeepsNew(j, sp, w, va, l, t, p);
    forall a: nat | a < VA_LIMIT ensures Find(u, a) == FindAfter(j, sp, va, a) {
      InsertFind(w, l, va, t, p, a);
    }
  }

  lemma InsertTree(w: Space, l: nat, va: nat, t: nat, p: nat)
    requires CanInsert(w, l, va, t, p)
    ensures Insert(w, l, va, t, p).root == w.root
    ensures Insert(w, l, va, t, p).tree == w.tree[p := Node(l + 1, Pre(l + 1, va))]
    ensures p !in w.tree
  {
  }

  /** The entry written at va. */
  function LeafAt(j: Job, va: nat): nat {
    LeafDesc(Level(j, va), FramePa(j, Level(j, va), va), j.flags)
  }

  lemma LeafAtReads(j: Job, va: nat)
    requires JobOk(j) && j.va <= va < j.end
    ensures IsValid(LeafAt(j, va)) && (IsTable(LeafAt(j, va)) <==> Level(j, va) == 3) && LeafAt(j, va) < U64
  {
    DescriptorsFit(0, Level(j, va), FramePa(j, Level(j, va), va), j.flags);
    AlignedInFrame(j, Level(j, va), va);
    PfnFits(Level(j, va), FramePa(j, Level(j, va), va));
    LeafDescReads(Level(j, va), FramePa(j, Level(j, va), va), j.flags);
  }

  function Put(j: Job, w: Space, va: nat, t: nat): Space
    requires t in w.mem && |w.mem[t]| == ENTRIES
  {
    Write(w, t, Index(Level(j, va), va), LeafAt(j, va))
  }

  ghost predicate CanPut(j: Job, w: Space, va: nat, t: nat) {
    && JobOk(j) && AtBoundary(j, va) && va < j.end && WF(w) && TableAt(w, Level(j, va), va) == Some(t)
    && t in w.tree && t in w.mem && |w.mem[t]| == ENTRIES
  }

  lemma PutOk(j: Job, w: Space, va: nat, t: nat)
    requires CanPut(j, w, va, t)
    ensures EntryOk(w.tree, w.tree[t], Index(Level(j, va), va), LeafAt(j, va))
    ensures WF(Put(j, w, va, t))
  {
    LeafAtReads(j, va);
    TableAtFor(w, Level(j, va), va);
    hide IsValid, IsTable, LeafAt, Level, TableAt, Index;
    WriteWF(w, t, Index(Level(j, va), va), LeafAt(j, va));
  }

  lemma PutFind(j: Job, w: Space, va: nat, t: nat, a: nat)
    requires CanPut(j, w, va, t) && a < VA_LIMIT
    ensures Find(Put(j, w, va, t), a) == if va <= a < va + Span(Level(j, va)) then MappedLeaf(j, a) else Find(w, a)
  {
    PutOk(j, w, va, t);
    LeafAtReads(j, va);
    StepAligned(j, va);
    if va <= a < va + Span(Level(j, va)) {
      StepUniform(j, va, a);
    } else if a / Span(Level(j, va)) == va / Span(Level(j, va)) {
      OutsideBlock(Level(j, va), va, a);
    }
    hide WF, IsValid, IsTable, Level, TableAt, Index, Span, EntryOk, LeafDesc;
    WriteFind(w, Level(j, va), va, t, LeafAt(j, va), a);
  }

  lemma PutTables(j: Job, w: Space, va: nat, t: nat, m: nat, a: nat)
    requires CanPut(j, w, va, t) && a < VA_LIMIT && m <= 3
    requires va <= a < va + Span(Level(j, va)) ==> m <= Level(j, va)
    ensures TableAt(Put(j, w, va, t), m, a) == TableAt(w, m, a)
  {
    PutOk(j, w, va, t);
    StepAligned(j, va);
    if a / Span(Level(j, va)) == va / Span(Level(j, va)) {
      OutsideBlock(Level(j, va), va, a);
    }
    hide WF, IsValid, IsTable, Level, TableAt, Index, Span, EntryOk, LeafAt;
    WriteTables(w, Level(j, va), va, t, LeafAt(j, va), m, a);
  }

  lemma PutNeeded(j: Job, w: Space, va: nat, t: nat, s: nat, x: nat)
    requires CanPut(j, w, va, t) && NeededAt(j, w, s, x)
    ensures NeededAt(j, Put(j, w, va, t), s, x)
  {
    if va <= x < va + Span(Level(j, va)) { StepUniform(j, va, x); }
    assert TableOk(w, s);
    hide WF, Level, TableAt, Span, LeafAt, Index;
    PutTables(j, w, va, t, w.tree[s].level, x);
  }

  lemma PutKeepsTables(j: Job, sp: Space, w: Space, va: nat, t: nat)
    requires TablesKept(j, sp, w, va) && CanPut(j, w, va, t)
    ensures TablesKept(j, sp, Put(j, w, va, t), va + Span(Level(j, va)))
  {
    var u := Put(j, w, va, t);
    hide TableAt, CanPut, LeafAt, Span, Level;
    var next := va + Span(Level(j, va));
    forall m: nat, a: nat | m <= 3 && a < VA_LIMIT && TableAt(sp, m, a).Some? && !Cut(j, next, m, a)
      ensures TableAt(u, m, a) == TableAt(sp, m, a)
    {
      assert TableAt(w, m, a) == TableAt(sp, m, a);
      PutNotCut(j, w, va, t, m, a);
      PutTables(j, w, va, t, m, a);
    }
  }

  /** Below a new block there is no table on the path any more. */
  lemma PutCuts(j: Job, w: Space, va: nat, t: nat, m: nat, a: nat)
    requires CanPut(j, w, va, t) && a < VA_LIMIT && m <= 3
    ensures TableAt(Put(j, w, va, t), m, a) == TableAt(w, m, a) || TableAt(Put(j, w, va, t), m, a) == None
  {
    PutOk(j, w, va, t);
    LeafAtReads(j, va);
    hide WF, IsValid, IsTable, Level, TableAt, Index, Span, EntryOk, LeafAt;
    WriteTables(w, Level(j, va), va, t, LeafAt(j, va), m, a);
  }

  lemma PutKeepsOld(j: Job, sp: Space, w: Space, va: nat, t: nat)
    requires NoneBack(sp, w) && CanPut(j, w, va, t)
    ensures NoneBack(sp, Put(j, w, va, t))
  {
    var u := Put(j, w, va, t);
    hide TableAt, CanPut, LeafAt, Put;
    forall m: nat, a: nat | m <= 3 && a < VA_LIMIT && TableAt(u, m, a).Some? && TableAt(u, m, a).value in sp.tree
      ensures TableAt(sp, m, a) == TableAt(u, m, a)
    {
      PutCuts(j, w, va, t, m, a);
    }
  }

  lemma PutKeepsNew(j: Job, sp: Space, w: Space, va: nat, t: nat)
    requires NewTables(j, sp, w) && CanPut(j, w, va, t)
    ensures NewTables(j, sp, Put(j, w, va, t))
  {
    var u := Put(j, w, va, t);
    hide NeededAt, CanPut, LeafAt, Index;
    forall s | s in u.tree && s !in sp.tree ensures Needed(j, u, s) {
      assert Needed(j, w, s);
      var x: nat :| NeededAt(j, w, s, x);
      PutNeeded(j, w, va, t, s, x);
      assert NeededAt(j, u, s, x);
    }
  }

  /** Writing the block or page at va keeps the loop invariant, one block further. */
  lemma PutKeeps(j: Job, sp: Space, w: Space, va: nat, t: nat)
    requires MapInv(j, sp, w, va) && CanPut(j, w, va, t)
    ensures MapInv(j, sp, Put(j, w, va, t), va + Span(Level(j, va)))
  {
    PutOk(j, w, va, t);
    PutKeepsTables(j, sp, w, va, t);
    PutKeepsNew(j, sp, w, va, t);
    PutKeepsOld(j, sp, w, va, t);
    assert j.va <= va;
    var u := Put(j, w, va, t);
    hide WF, Find, TableAt, CanPut, TablesKept, NoneBack, NewTables, MappedLeaf, LeafAt, Span, Index, AtBoundary;
    var next := va + Span(Level(j, va));
    forall a: nat | a < VA_LIMIT ensures Find(u, a) == FindAfter(j, sp, next, a) {
      PutFind(j, w, va, t, a);
    }
  }

  lemma PutNotCut(j: Job, w: Space, va: nat, t: nat, m: nat, a: nat)
    requires CanPut(j, w, va, t) && !Cut(j, va + Span(Level(j, va)), m, a)
    ensures va <= a < va + Span(Level(j, va)) ==> m <= Level(j, va)
  {
    if va <= a < va + Span(Level(j, va)) { StepUniform(j, va, a); }
  }

  /** On the way down to the level to be written, every valid entry is a table. */
  lemma WalkIsTables(j: Job, sp: Space, w: Space, va: nat, l: nat, t: nat)
    requires MapInv(j, sp, w, va) && NoLarger(j, sp) && j.va <= va < j.end && va < VA_LIMIT
    requires l < Level(j, va) && TableAt(w, l, va) == Some(t)
    ensures t in w.tree && t in w.mem && |w.mem[t]| == ENTRIES
    ensures IsValid(w.mem[t][Index(l, va)]) ==> IsTable(w.mem[t][Index(l, va)])
  {
    PreRoot(va);
    TableAtFor(w, l, va);
    hide IsValid, IsTable, NextTable, Index, Pre, Level, Span;
    LookupThrough(w, w.root, 0, l, va);
    assert Find(w, va) == FindAfter(j, sp, va, va) == Find(sp, va);
    assert EntryOk(w.tree, w.tree[t], Index(l, va), w.mem[t][Index(l, va)]);
  }

  // ---------- unmapping ----------

  ghost predicate UnmapInv(sp: Space, w: Space, start: nat, va: nat) {
    && WF(w) && w.root == sp.root && w.tree == sp.tree
    && (forall a: nat :: a < VA_LIMIT ==> Find(w, a) == if start <= a < va then Unmapped else Find(sp, a))
    && (forall m: nat, a: nat :: m <= 3 && a < VA_LIMIT ==> TableAt(w, m, a) == TableAt(sp, m, a))
  }

  lemma StartUnmap(sp: Space, start: nat)
    requires WF(sp)
    ensures UnmapInv(sp, sp, start, start)
  {
    hide Find, TableAt, WF;
  }

  /** Addresses that share the entry where the walk ends find the same. */
  lemma {:induction false} SameLookup(mem: Mem, s: nat, k: nat, l: nat, a: nat, b: nat)
    requires k <= l <= 3 && a / Span(l) == b / Span(l)
    requires LookupFrom(mem, s, k, a).Leaf? ==> LookupFrom(mem, s, k, a).level <= l
    requires l == 3 || LookupFrom(mem, s, k, a).Leaf?
    ensures LookupFrom(mem, s, k, b) == LookupFrom(mem, s, k, a)
    decreases 4 - k
  {
    if k < l { SameEntry(k, l, a, b); }
    hide IsValid, IsTable, NextTable, Span;
    assert Index(k, a) == Index(k, b);
    if s in mem && |mem[s]| == ENTRIES {
      var e := mem[s][Index(k, a)];
      if IsValid(e) && !(k == 3 || (k > 0 && !IsTable(e))) {
        if k < l {
          SameLookup(mem, NextTable(e), k + 1, l, a, b);
        } else {
          LeafLevels(mem, NextTable(e), k + 1, a);
        }
      }
    }
  }

  /** A walk that starts at level k ends at level k or below. */
  lemma {:induction false} LeafLevels(mem: Mem, s: nat, k: nat, a: nat)
    ensures LookupFrom(mem, s, k, a).Leaf? ==> LookupFrom(mem, s, k, a).level >= k
    decreases 4 - k
  {
    hide IsValid, IsTable, NextTable, Index;
    if k <= 3 && s in mem && |mem[s]| == ENTRIES {
      LeafLevels(mem, NextTable(mem[s][Index(k, a)]), k + 1, a);
    }
  }

  /** A block looks the same from every address in it, and an unmapped page from every address in the page. */
  lemma SameFind(sp: Space, a: nat, b: nat)
    ensures Find(sp, a).Leaf? && b / Span(Find(sp, a).level) == a / Span(Find(sp, a).level)
        ==> Find(sp, b) == Find(sp, a)
    ensures b / Span(3) == a / Span(3) ==> Find(sp, b) == Find(sp, a)
  {
    hide Span, LookupFrom;
    if Find(sp, a).Leaf? && b / Span(Find(sp, a).level) == a / Span(Find(sp, a).level) {
      SameLookup(sp.mem, sp.root, 0, Find(sp, a).level, a, b);
    }
    if b / Span(3) == a / Span(3) { SameLookup(sp.mem, sp.root, 0, 3, a, b); }
  }

  /** The loop position is never strictly inside a block that is still to be unmapped. */
  ghost predicate AtEdge(sp: Space, va: nat, end: nat) {
    va < end && Find(sp, va).Leaf? ==> Frame(Find(sp, va).level, va) == va
  }

  lemma StartEdge(sp: Space, va: nat, end: nat)
    requires Inside(sp, va, end)
    ensures AtEdge(sp, va, end)
  {
    hide Find;
  }

  /** The stride of the unmapping loops: the size of the block found, or one page. */
  function Stride(r: Lookup): nat {
    if r.Leaf? then Span(r.level) else PAGE
  }

  lemma NextEdge(sp: Space, start: nat, va: nat, end: nat)
    requires Inside(sp, start, end) && AtEdge(sp, va, end) && start <= va < end && OnPage(va)
    ensures AtEdge(sp, va + Stride(Find(sp, va)), end)
  {
    var next := va + Stride(Find(sp, va));
    if next < end && Find(sp, next).Leaf? {
      var l := Find(sp, next).level;
      var f := Frame(l, next);
      StrideFrames(sp, va, next, f, l);
    }
  }

  /** The block that holds the next position does not start before it. */
  lemma StrideFrames(sp: Space, va: nat, next: nat, f: nat, l: LeafLevel)
    requires next == va + Stride(Find(sp, va)) && OnPage(va)
    requires Find(sp, va).Leaf? ==> Frame(Find(sp, va).level, va) == va
    requires Find(sp, next).Leaf? && l == Find(sp, next).level && f == Frame(l, next)
    ensures f == next
  {
    FrameFacts(l, next);
    var r := Find(sp, va);
    assert PAGE == Span(3);
    hide Span, Find;
    if f < next {
      SameBlock(l, next, f);
      SameFind(sp, next, f);
      if f <= va {
        SameBlock(l, next, va);
        SameFind(sp, next, va);
      } else {
        var k := if r.Leaf? then r.level else 3;
        if r.Leaf? {
          FrameFacts(k, va);
          SameBlock(k, va, f);
          SameFind(sp, va, f);
        } else {
          PageAligned(l, f);
        }
        NoneBetween(k, va, f);
      }
    }
  }

  lemma NoneBetween(k: LeafLevel, va: nat, f: nat)
    requires va % Span(k) == 0 && va < f < va + Span(k)
    ensures f % Span(k) != 0
  {
    hide Span;
    DivUnique(f, Span(k), va / Span(k), f - va);
  }

  lemma PageAligned(l: LeafLevel, a: nat)
    requires a % Span(l) == 0
    ensures OnPage(a)
  {
    SpanRatio(l, 3);
    MultipleOfPart(a, Span(3), Ratio(l, 3));
  }

  lemma SameBlock(l: LeafLevel, a: nat, b: nat)
    requires Frame(l, a) <= b < Frame(l, a) + Span(l)
    ensures b / Span(l) == a / Span(l)
  {
    FrameFacts(l, a);
    InBlock(l, Frame(l, a), b);
    InBlock(l, Frame(l, a), a);
  }

  ghost predicate CanClear(sp: Space, va: nat, t: nat) {
    && WF(sp) && va < VA_LIMIT && Find(sp, va).Leaf? && TableAt(sp, Find(sp, va).level, va) == Some(t)
    && t in sp.tree && t in sp.mem && |sp.mem[t]| == ENTRIES
  }

  function Clear(sp: Space, va: nat, l: LeafLevel, t: nat): Space
    requires t in sp.mem && |sp.mem[t]| == ENTRIES
  {
    Write(sp, t, Index(l, va), 0)
  }

  lemma ClearFind(sp: Space, va: nat, l: LeafLevel, t: nat, a: nat)
    requires CanClear(sp, va, t) && l == Find(sp, va).level && Frame(l, va) == va && a < VA_LIMIT
    ensures WF(Clear(sp, va, l, t))
    ensures Find(Clear(sp, va, l, t), a) == if va <= a < va + Span(l) then Unmapped else Find(sp, a)
  {
    ZeroInvalid();
    FrameFacts(l, va);
    if va <= a < va + Span(l) { InBlock(l, va, a); }
    else if a / Span(l) == va / Span(l) { OutsideBlock(l, va, a); }
    hide WF, IsValid, IsTable, Index, TableAt, Find, Span, Frame;
    WriteWF(sp, t, Index(l, va), 0);
    WriteFind(sp, l, va, t, 0, a);
  }

  lemma ClearTables(sp: Space, va: nat, l: LeafLevel, t: nat, m: nat, a: nat)
    requires CanClear(sp, va, t) && l == Find(sp, va).level && a < VA_LIMIT && m <= 3
    ensures TableAt(Clear(sp, va, l, t), m, a) == TableAt(sp, m, a)
  {
    ZeroInvalid();
    PreRoot(va);
    PreRoot(a);
    PreIndex(l, a);
    PreIndex(l, va);
    LookupThrough(sp, sp.root, 0, l, va);
    LeafLevels(sp.mem, NextTable(sp.mem[t][Index(l, va)]), l + 1, va);
    hide IsValid, IsTable, NextTable, Index, Pre, Span, WF;
    WriteTables(sp, l, va, t, 0, m, a);
    if l < m && a / Span(l) == va / Span(l) {
      SameTable(sp.mem, sp.root, 0, l, a, va);
      TableThrough(sp, sp.root, 0, l, m, a);
    }
  }

  /** Clearing the entry found at va keeps the unmapping invariant, one block further. */
  lemma ClearKeeps(sp: Space, w: Space, start: nat, va: nat, end: nat, t: nat)
    requires UnmapInv(sp, w, start, va) && AtEdge(sp, va, end) && start <= va < end <= VA_LIMIT && CanClear(w, va, t)
    ensures Find(w, va) == Find(sp, va)
    ensures UnmapInv(sp, Clear(w, va, Find(w, va).level, t), start, va + Stride(Find(sp, va)))
  {
    assert Find(w, va) == Find(sp, va);
    var l := Find(w, va).level;
    var u := Clear(w, va, l, t);
    assert Frame(l, va) == va;
    ClearFind(w, va, l, t, va);
    hide WF, Find, TableAt, CanClear, Clear, Span, Frame;
    forall a: nat | a < VA_LIMIT
      ensures Find(u, a) == if start <= a < va + Span(l) then Unmapped else Find(sp, a)
    {
      ClearFind(w, va, l, t, a);
    }
    forall m: nat, a: nat | m <= 3 && a < VA_LIMIT ensures TableAt(u, m, a) == TableAt(sp, m, a) {
      ClearTables(w, va, l, t, m, a);
    }
    ClearTree(w, va, l, t);
  }

  lemma ClearTree(w: Space, va: nat, l: LeafLevel, t: nat)
    requires t in w.mem && |w.mem[t]| == ENTRIES
    ensures Clear(w, va, l, t).root == w.root && Clear(w, va, l, t).tree == w.tree
  {
  }

  /** Passing over an unmapped page keeps it too. */
  lemma SkipKeeps(sp: Space, w: Space, start: nat, va: nat)
    requires UnmapInv(sp, w, start, va) && start <= va < VA_LIMIT && OnPage(va) && Find(sp, va) == Unmapped
    ensures UnmapInv(sp, w, start, va + PAGE)
  {
    hide WF, Find, TableAt;
    forall a: nat | va <= a < va + PAGE ensures Find(sp, a) == Unmapped {
      InBlock(3, va, a);
      SameFind(sp, va, a);
    }
  }
}
