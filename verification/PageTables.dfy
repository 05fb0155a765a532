/** The page table code in place: tables are pages taken from the buddy allocator,
    and descriptors are written into them.  A BUG_ON for a failed page request
    stops the kernel; the methods then return `ok == false` at that point. */
module PageTables {
  import opened Options
  import opened Descriptors
  import opened DescriptorWords
  import opened BuddySpec
  import opened BuddyTheory
  import opened BuddyCount
  import opened BuddyAllocator
  import opened PageAlloc
  import opened PageTableSpec
  import opened PageTableRanges
  import opened PageTableSteps
  import opened PageTableOwnership

  const KBASE: nat := 0xFFFF_FF00_0000_0000

  /** What get_next_ptp returns.  Stuck is the BUG_ON(new_ptp == NULL). */
  datatype Step = NormalPtp | BlockPtp | NoEntry | Stuck

  function FrameBase(startAddr: nat): nat {
    if startAddr >= KBASE then (startAddr - KBASE) / PAGE else 0
  }

  /** Every table of the tree is a single page in use. */
  ghost predicate Owned(out: map<nat, nat>, tree: Tree, base: nat) {
    forall t :: t in tree ==> base <= t && t - base in out && out[t - base] == 0
  }

  /** The chunks in use that are not tables. */
  ghost function Rest(out: map<nat, nat>, tree: Tree, base: nat): map<nat, nat> {
    map p | p in out && p + base !in tree :: out[p]
  }

  lemma OwnMore(out: map<nat, nat>, tree: Tree, base: nat, p: nat, nd: Node)
    requires Owned(out, tree, base) && p !in out
    ensures p + base !in tree
    ensures Owned(out[p := 0], tree[p + base := nd], base)
    ensures Rest(out[p := 0], tree[p + base := nd], base) == Rest(out, tree, base)
  {
  }

  lemma FreshPage(v: Pool, p: nat)
    requires Inv(v) && GetPages(v, 0).1 == Some(p)
    ensures p < v.n
  {
    GetCorrect(v, 0);
    InUseHead(GetPages(v, 0).0, p);
  }

  /** What one step of a walk sees and where it leads. */
  lemma Descend(sp: Space, l: nat, va: nat, t: nat)
    requires WF(sp) && l <= 3 && va < VA_LIMIT && TableAt(sp, l, va) == Some(t)
    ensures t in sp.tree && t in sp.mem && |sp.mem[t]| == ENTRIES
    ensures var e := sp.mem[t][Index(l, va)];
      && Find(sp, va) == FromEntry(sp.mem, l, e, va)
      && (l == 0 && IsValid(e) ==> IsTable(e))
      && (l < 3 && IsValid(e) && IsTable(e) ==> TableAt(sp, l + 1, va) == Some(NextTable(e)))
      && (!IsValid(e) ==> Find(sp, va) == Unmapped)
      && (IsValid(e) && 0 < l && !(l < 3 && IsTable(e)) ==> Find(sp, va) == Leaf(l, e))
  {
    PreRoot(va);
    TableAtFor(sp, l, va);
    hide IsValid, IsTable, NextTable, Index, Pre, WF;
    LookupThrough(sp, sp.root, 0, l, va);
    assert EntryOk(sp.tree, sp.tree[t], Index(l, va), sp.mem[t][Index(l, va)]);
    if l < 3 { TableThrough(sp, sp.root, 0, l, l + 1, va); }
  }

  lemma InsertedEntry(sp: Space, l: nat, va: nat, t: nat, p: nat)
    requires CanInsert(sp, l, va, t, p)
    ensures var e := Insert(sp, l, va, t, p).mem[t][Index(l, va)]; IsValid(e) && IsTable(e) && NextTable(e) == p
  {
    FramesBound();
    TableDescReads(p);
  }

  lemma PutReady(j: Job, w: Space, va: nat, t: nat)
    requires JobOk(j) && AtBoundary(j, va) && va < j.end && WF(w) && TableAt(w, Level(j, va), va) == Some(t)
    requires t in w.tree && t in w.mem && |w.mem[t]| == ENTRIES
    ensures CanPut(j, w, va, t) && va < VA_LIMIT
  {
  }

  lemma PutIsWrite(j: Job, w: Space, va: nat, t: nat, level: LeafLevel, pa: nat)
    requires t in w.mem && |w.mem[t]| == ENTRIES && level == Level(j, va) && pa == FramePa(j, level, va)
    ensures LeafAt(j, va) == LeafDesc(level, pa, j.flags)
    ensures Put(j, w, va, t) == Write(w, t, Index(level, va), LeafDesc(level, pa, j.flags))
  {
  }

  lemma ClearReady(w: Space, va: nat, t: nat)
    requires WF(w) && va < VA_LIMIT && Find(w, va).Leaf? && TableAt(w, Find(w, va).level, va) == Some(t)
    requires t in w.tree && t in w.mem && |w.mem[t]| == ENTRIES
    ensures CanClear(w, va, t)
  {
  }

  lemma ClearIsWrite(w: Space, va: nat, l: LeafLevel, t: nat)
    requires t in w.mem && |w.mem[t]| == ENTRIES && t in w.tree
    ensures Clear(w, va, l, t) == Write(w, t, Index(l, va), 0) && EntryOk(w.tree, w.tree[t], Index(l, va), 0)
    ensures forall r: Lookup :: r.Leaf? ==> Stride(r) == Span(r.level)
  {
    ZeroInvalid();
  }

  lemma UntouchedAhead(sp: Space, w: Space, start: nat, va: nat)
    requires UnmapInv(sp, w, start, va) && va < VA_LIMIT
    ensures Find(w, va) == Find(sp, va)
  {
  }

  lemma NextPage(va: nat, end: nat)
    requires va < end && OnPage(va) && OnPage(end)
    ensures va + PAGE <= end && OnPage(va + PAGE)
  {
  }

  lemma PageFacts(va: nat, len: nat)
    requires OnPage(va) && OnPage(len)
    ensures OnPage(va + len) && PAGE > 0 && Span(3) == PAGE
  {
  }

  lemma UnmappedStride()
    ensures Stride(Unmapped) == PAGE
  {
  }

  lemma OnlyPages(sp: Space, w: Space, start: nat, va: nat, end: nat)
    requires UnmapInv(sp, w, start, va) && PagesOnly(sp, start, end) && start <= va < end <= VA_LIMIT
    ensures Find(w, va).Leaf? ==> Find(w, va).level == 3
  {
    hide Find;
  }

  /** A mapping loop for job j, which started in sp, has come to va. */
  ghost predicate Mapping(j: Job, sp: Space, w: Space, va: nat) {
    JobOk(j) && NoLarger(j, sp) && MapInv(j, sp, w, va) && AtBoundary(j, va)
  }

  lemma StartMapping(j: Job, sp: Space)
    requires JobOk(j) && NoLarger(j, sp) && WF(sp)
    ensures Mapping(j, sp, sp, j.va)
  {
    StartMap(j, sp);
    StartBoundary(j);
  }

  lemma MappingFacts(j: Job, sp: Space, w: Space, va: nat)
    requires Mapping(j, sp, w, va)
    ensures JobOk(j) && NoLarger(j, sp) && MapInv(j, sp, w, va) && AtBoundary(j, va)
    ensures j.va <= va <= j.end <= VA_LIMIT && TableAt(w, 0, va) == Some(w.root)
  {
    RootTable(w, va);
  }

  lemma StillMapping(j: Job, sp: Space, w: Space, va: nat, level: LeafLevel)
    requires JobOk(j) && NoLarger(j, sp) && MapInv(j, sp, w, va + Span(level)) && AtBoundary(j, va + Span(level))
    ensures Mapping(j, sp, w, va + Span(level)) && (level == 3 ==> Span(level) == PAGE)
  {
  }

  lemma MappingDone(j: Job, sp: Space, w: Space, va: nat)
    requires Mapping(j, sp, w, va) && va >= j.end
    ensures Mapped(j, sp, w)
  {
  }

  lemma RootTable(sp: Space, va: nat)
    ensures TableAt(sp, 0, va) == Some(sp.root)
  {
  }

  lemma JobFacts(j: Job)
    requires JobOk(j)
    ensures j.va <= j.end <= VA_LIMIT
  {
  }

  lemma PageLevel(j: Job, va: nat)
    ensures !j.huge ==> Level(j, va) == 3
  {
  }

  lemma SpanOfPage()
    ensures Span(3) == PAGE && PAGE > 0
  {
  }

  lemma InsideStep(sp: Space, start: nat, va: nat, end: nat)
    requires Inside(sp, start, end) && AtEdge(sp, va, end) && start <= va < end && Find(sp, va).Leaf?
    ensures va + Span(Find(sp, va).level) <= end
  {
    hide Find;
  }

  lemma PagesInside(sp: Space, start: nat, end: nat)
    requires PagesOnly(sp, start, end) && OnPage(start) && OnPage(end)
    ensures Inside(sp, start, end)
  {
    hide Find;
  }

  /** The chunks in use without the tables in `freed`. */
  ghost function Without(out: map<nat, nat>, freed: set<nat>, base: nat): map<nat, nat> {
    map p | p in out && p + base !in freed :: out[p]
  }

  /** Every table was given back exactly if what is left are the chunks of other owners. */
  lemma AllFreed(out: map<nat, nat>, tree: Tree, freed: set<nat>, base: nat)
    requires Owned(out, tree, base) && freed <= tree.Keys
    ensures freed == tree.Keys <==> Without(out, freed, base) == Rest(out, tree, base)
  {
    forall t | t in tree && t !in freed
      ensures t - base in Without(out, freed, base) && t - base !in Rest(out, tree, base)
    {
    }
  }

  lemma StillInUse(out: map<nat, nat>, tree: Tree, freed: set<nat>, base: nat, c: nat)
    requires Owned(out, tree, base) && c in tree && c !in freed
    ensures base <= c && c - base in Without(out, freed, base)
  {
  }

  lemma WithoutOne(out: map<nat, nat>, freed: set<nat>, base: nat, c: nat)
    requires base <= c
    ensures Without(out, freed, base) - {c - base} == Without(out, freed + {c}, base)
  {
  }

  lemma InUseHeadAt(v: Pool, p: nat)
    requires Inv(v) && p in Outstanding(v)
    ensures p < v.n
  {
    InUseHead(v, p);
  }

  lemma UptoNone(sp: Space, t: nat, freed: set<nat>)
    requires t in sp.tree && BelowUpto(sp, t, 0) == {}
    ensures freed == freed + BelowUpto(sp, t, 0)
  {
  }

  lemma StillThere(sp: Space, t: nat, freed: set<nat>, i: nat)
    requires t in sp.tree && t !in freed
    ensures t !in freed + BelowUpto(sp, t, i)
  {
  }

  lemma LinkIs(sp: Space, t: nat, i: nat)
    requires t in sp.mem && i < |sp.mem[t]|
    ensures LinksTo(sp, t, i) <==> IsValid(sp.mem[t][i]) && IsTable(sp.mem[t][i])
  {
  }

  lemma ChildIs(sp: Space, t: nat, i: nat, freed: set<nat>)
    requires t in sp.tree && t in sp.mem && i < |sp.mem[t]|
    requires Child(sp.tree, NextTable(sp.mem[t][i]), sp.tree[t].level + 1, sp.tree[t].pfx * ENTRIES + i)
    ensures NextTable(sp.mem[t][i]) in sp.tree && sp.tree[NextTable(sp.mem[t][i])].level == sp.tree[t].level + 1
  {
  }

  /** Nothing is below a level-3 table. */
  lemma LastLevel(sp: Space, c: nat)
    requires WF(sp) && c in sp.tree && sp.tree[c].level == 3
    ensures Below(sp, c) - {c} == {}
  {
    forall t | t in Below(sp, c) ensures t == c {
      assert TableOk(sp, t);
    }
  }

  function TablesUpto(tree: Tree, base: nat, i: nat): (r: set<nat>) {
    set t | t in tree && t < base + i
  }

  lemma {:induction false} UsedByTables(out: map<nat, nat>, tree: Tree, base: nat, i: nat)
    requires Owned(out, tree, base)
    ensures UsedPages(out, i) == UsedPages(Rest(out, tree, base), i) + |TablesUpto(tree, base, i)|
  {
    if i == 0 {
      assert TablesUpto(tree, base, 0) == {};
    } else {
      UsedByTables(out, tree, base, i - 1);
      var t := base + i - 1;
      assert TablesUpto(tree, base, i) == TablesUpto(tree, base, i - 1) + (if t in tree then {t} else {});
      if t in tree { assert out[i - 1] == 0; }
    }
  }

  class AddressSpace {
    const pool: PhysMemPool
    const root: nat       // frame of the level-0 table
    var mem: Mem          // the contents of the table pages, by frame
    ghost var tree: Tree

    ghost function View(): Space
      reads this
    {
      Space(root, mem, tree)
    }

    ghost function Others(): map<nat, nat>
      reads this, pool, pool.links
    {
      Rest(Outstanding(pool.View()), tree, FrameBase(pool.startAddr))
    }

    ghost predicate Valid()
      reads this, pool.Repr
    {
      && this !in pool.Repr && pool.Valid() && KBASE <= pool.startAddr
      && WF(View())
      && Owned(Outstanding(pool.View()), tree, FrameBase(pool.startAddr))
    }

    /** An address space whose level-0 table is the page at p, which the caller has taken and cleared. */
    constructor (pool: PhysMemPool, p: nat)
      requires pool.Valid() && KBASE <= pool.startAddr
      requires p in Outstanding(pool.View()) && Outstanding(pool.View())[p] == 0
      ensures Valid() && this.pool == pool
      ensures root == p + FrameBase(pool.startAddr) && tree == map[root := Node(0, 0)]
      ensures Others() == Outstanding(pool.View()) - {p}
      ensures forall a: nat :: a < VA_LIMIT ==> Find(View(), a) == Unmapped
      ensures NoneLost(View())
    {
      hide WF, Inv, Outstanding, Find;
      InUseHeadAt(pool.View(), p);
      FreshSpace(p + FrameBase(pool.startAddr));
      this.pool := pool;
      root := (pool.PageToVirt(p) - KBASE) / PAGE;
      mem := map[(pool.PageToVirt(p) - KBASE) / PAGE := Zeros()];
      tree := map[(pool.PageToVirt(p) - KBASE) / PAGE := Node(0, 0)];
      new;
      FrameOfPageIs(p);
    }

    /** The buddy allocator has no page left. */
    ghost predicate OutOfPages()
      reads this, pool.Repr
      requires Valid()
    {
      GetPages(pool.View(), 0).1.None?
    }

    // ---------- frames and pages ----------

    /** virt_to_phys(addr) >> PAGE_SHIFT */
    function FrameAt(addr: nat): (f: nat)
      requires addr >= KBASE
    {
      (addr - KBASE) / PAGE
    }

    /** the frame of page p */
    function FrameOfPage(p: nat): (f: nat)
      requires KBASE <= pool.startAddr
    {
      FrameAt(pool.PageToVirt(p))
    }

    lemma FrameOfPageIs(p: nat)
      requires KBASE <= pool.startAddr && pool.Shape() && p < pool.pageNum
      ensures FrameOfPage(p) == p + FrameBase(pool.startAddr) < FRAMES
    {
    }

    /** Frame f is where page p lies in physical memory: virtual addresses of the kernel are offset by KBASE. */
    predicate LinkedFrame(f: nat, p: int) {
      f * 0x1000 + 0xFFFF_FF00_0000_0000 == pool.startAddr + p * 0x1000
    }

    lemma FrameIsLinked(p: nat)
      requires KBASE <= pool.startAddr && pool.Shape() && p < pool.pageNum
      ensures FrameOfPage(p) == p + FrameBase(pool.startAddr) && LinkedFrame(FrameOfPage(p), p)
    {
      FrameOfPageIs(p);
    }

    /** Every table lies in the page that is in use for it. */
    lemma TablesLinked(t: nat)
      requires Valid() && t in tree
      ensures t >= FrameBase(pool.startAddr) && t - FrameBase(pool.startAddr) in Outstanding(pool.View())
      ensures LinkedFrame(t, t - FrameBase(pool.startAddr))
    {
      hide WF, Inv, Outstanding;
      ValidMeans();
      InUseHeadAt(pool.View(), t - FrameBase(pool.startAddr));
      FrameIsLinked(t - FrameBase(pool.startAddr));
    }

    /** The page table costs exactly one page per table, and nothing else changes the free memory. */
    lemma MemoryCost()
      requires Valid()
      ensures |pool.View().lists| == MAX_ORDER
      ensures FreeMemSize(pool.View()) == PAGE * (pool.pageNum - UsedPages(Others(), pool.pageNum) - |tree|)
    {
      hide *;
      ValidMeans();
      Conservation(pool.View());
      FourteenLists(pool.View());
      UsedByTables(Outstanding(pool.View()), tree, FrameBase(pool.startAddr), pool.pageNum);
      TablesInPool();
      PageBytes();
    }

    lemma TablesInPool()
      requires Valid()
      ensures TablesUpto(tree, FrameBase(pool.startAddr), pool.pageNum) == tree.Keys
      ensures Others() == Rest(Outstanding(pool.View()), tree, FrameBase(pool.startAddr)) && View().tree == tree
    {
      hide WF, Inv, Outstanding;
      forall t | t in tree ensures t < FrameBase(pool.startAddr) + pool.pageNum {
        InUseHeadAt(pool.View(), t - FrameBase(pool.startAddr));
      }
    }

    lemma PageBytes()
      ensures PAGE == 0x1000
    {
    }

    // ---------- the walk ----------

    /** get_pages(0), as a frame number. */
    method GetFrame() returns (frame: Option<nat>)
      requires Valid()
      modifies pool.Repr
      ensures Valid()
      ensures match frame
        case None => Outstanding(pool.View()) == old(Outstanding(pool.View())) && OutOfPages()
        case Some(f) => (
          && FrameBase(pool.startAddr) <= f < FRAMES
          && f - FrameBase(pool.startAddr) !in old(Outstanding(pool.View()))
          && Outstanding(pool.View()) == old(Outstanding(pool.View()))[f - FrameBase(pool.startAddr) := 0]
          && LinkedFrame(f, f - FrameBase(pool.startAddr)))
    {
      hide *;
      ghost var pv, sp := pool.View(), View();
      ValidMeans();
      GetCorrect(pv, 0);
      var addr := GetPagesAt(pool, 0);
      ghost var page := GetPages(pv, 0).1;
      if addr == None {
        ValidIfNoneTaken(sp, pv);
        return None;
      }
      FreshPage(pv, page.value);
      FrameOfPageIs(page.value);
      ValidIfPageTaken(sp, pv, page.value);
      FrameOf(page.value, addr.value);
      FrameIsLinked(page.value);
      frame := Some(FrameAt(addr.value));
    }

    lemma ValidMeans()
      requires Valid()
      ensures this !in pool.Repr && pool.Valid() && KBASE <= pool.startAddr && pool.Shape() && WF(View())
      ensures Inv(pool.View()) && pool.View().n == pool.pageNum
      ensures Owned(Outstanding(pool.View()), View().tree, FrameBase(pool.startAddr)) && View().tree == tree
    {
    }

    lemma ValidIfNoneTaken(sp: Space, v: Pool)
      requires this !in pool.Repr && pool.Valid() && KBASE <= pool.startAddr && View() == sp && WF(sp)
      requires pool.View() == v && GetPages(v, 0) == (v, None)
      requires Owned(Outstanding(v), sp.tree, FrameBase(pool.startAddr))
      ensures Valid() && OutOfPages()
    {
      hide WF, Inv, Outstanding, Owned, PhysMemPool.Valid, GetPages;
    }

    lemma ValidIfPageTaken(sp: Space, v: Pool, page: nat)
      requires this !in pool.Repr && pool.Valid() && KBASE <= pool.startAddr && View() == sp && WF(sp)
      requires Outstanding(pool.View()) == Outstanding(v)[page := 0] && page !in Outstanding(v)
      requires Owned(Outstanding(v), sp.tree, FrameBase(pool.startAddr))
      ensures Valid()
    {
      hide WF, Inv, Outstanding, PhysMemPool.Valid;
    }

    lemma FrameOf(page: nat, addr: nat)
      requires KBASE <= pool.startAddr && addr == pool.PageToVirt(page)
      ensures addr >= KBASE && FrameAt(addr) == FrameOfPage(page)
    {
    }

    /** The word in memory that links table p, and where p is. */
    ghost predicate NewEntry(cur: nat, level: nat, va: nat, p: nat)
      reads this
    {
      && cur in mem && Index(level, va) < |mem[cur]| && mem[cur][Index(level, va)] == p * 0x1000 + 3
      && p in mem && |mem[p]| == 512 && (forall i :: 0 <= i < 512 ==> mem[p][i] == 0)
      && LinkedFrame(p, p - FrameBase(pool.startAddr))
    }

    /** The case of get_next_ptp that allocates: an empty table is linked below an entry of table cur. */
    method NewPtp(cur: nat, level: nat, va: nat) returns (next: Option<nat>)
      requires Valid() && level < 3 && va < VA_LIMIT && TableAt(View(), level, va) == Some(cur)
      requires cur in mem && |mem[cur]| == ENTRIES && cur in tree && !IsValid(mem[cur][Index(level, va)])
      modifies this, pool.Repr
      ensures Valid() && Others() == old(Others())
      ensures match next
        case None => View() == old(View()) && OutOfPages()
        case Some(p) => CanInsert(old(View()), level, va, cur, p) && View() == Insert(old(View()), level, va, cur, p)
      ensures next != None ==> NewEntry(cur, level, va, next.value)
    {
      hide WF, Inv, Outstanding, TableAt, IsValid, IsTable, NextTable, TableDesc, PhysMemPool.Valid;
      ghost var was, out := View(), Outstanding(pool.View());
      next := GetFrame();
      if next == None { return; }
      var frame := next.value;
      ghost var nd := Node(level + 1, Pre(level + 1, va));
      OwnMore(out, tree, FrameBase(pool.startAddr), frame - FrameBase(pool.startAddr), nd);
      InsertWF(was, level, va, cur, frame);
      mem := mem[frame := Zeros()];
      var row: seq<nat> := mem[cur][Index(level, va) := TableDesc(frame)];
      mem := mem[cur := row];
      tree := tree[frame := nd];
      TableWord(frame);
    }

    /** get_next_ptp with alloc == false: only reads. */
    method PeekNextPtp(cur: nat, level: nat, va: nat) returns (ret: Step, next: nat)
      requires Valid() && level <= 3 && va < VA_LIMIT && TableAt(View(), level, va) == Some(cur)
      ensures Valid() && cur in mem && |mem[cur]| == ENTRIES && cur in tree
      ensures var e := mem[cur][Index(level, va)];
        && next == NextTable(e)
        && ret == (if !IsValid(e) then NoEntry else if level < 3 && IsTable(e) then NormalPtp else BlockPtp)
      ensures ret == NormalPtp ==> TableAt(View(), level + 1, va) == Some(next)
      ensures ret == NoEntry ==> Find(View(), va) == Unmapped
      ensures ret == BlockPtp ==> 0 < level && Find(View(), va) == Leaf(level, mem[cur][Index(level, va)])
    {
      hide WF, TableAt, Find, Index, IsValid, IsTable, NextTable;
      Descend(View(), level, va, cur);
      var e := mem[cur][Index(level, va)];
      next := NextTable(e);
      ret := if !IsValid(e) then NoEntry else if level < 3 && IsTable(e) then NormalPtp else BlockPtp;
    }

    /** get_next_ptp with alloc == true, on the way to the entry that job j writes for va. */
    method GetNextPtp(cur: nat, level: nat, va: nat, ghost j: Job, ghost sp: Space) returns (ret: Step, next: nat)
      requires Valid() && MapInv(j, sp, View(), va) && NoLarger(j, sp)
      requires j.va <= va < j.end && va < VA_LIMIT && level < Level(j, va) && TableAt(View(), level, va) == Some(cur)
      modifies this, pool.Repr
      ensures Valid() && Others() == old(Others()) && MapInv(j, sp, View(), va)
      ensures ret == NormalPtp || ret == Stuck
      ensures ret == NormalPtp ==> TableAt(View(), level + 1, va) == Some(next)
      ensures ret == Stuck ==> OutOfPages()
    {
      hide WF, Inv, Outstanding, TableAt, Find, Index, IsValid, IsTable, NextTable, MapInv, NoLarger, Owned;
      hide PhysMemPool.Valid;
      ghost var was := View();
      WalkIsTables(j, sp, was, va, level, cur);
      Descend(was, level, va, cur);
      var e := mem[cur][Index(level, va)];
      if !IsValid(e) {
        var p := NewPtp(cur, level, va);
        if p == None { return Stuck, 0; }
        InsertKeeps(j, sp, was, va, level, cur, p.value);
        InsertedEntry(was, level, va, cur, p.value);
        InsertTables(was, level, va, cur, p.value, level + 1, va);
        e := mem[cur][Index(level, va)];
      }
      next := NextTable(e);
      ret := if IsTable(e) then NormalPtp else BlockPtp;
    }

    /** pte->pte = e */
    method WritePte(t: nat, level: nat, va: nat, e: nat)
      requires Valid() && level <= 3 && t in tree && t in mem && |mem[t]| == ENTRIES
      requires EntryOk(tree, tree[t], Index(level, va), e)
      modifies this
      ensures Valid() && Others() == old(Others()) && View() == Write(old(View()), t, Index(level, va), e)
    {
      hide WF, Inv, Outstanding, Owned, EntryOk, Index, PhysMemPool.Valid;
      WriteWF(View(), t, Index(level, va), e);
      var row: seq<nat> := mem[t][Index(level, va) := e];
      mem := mem[t := row];
    }

    // ---------- query ----------

    /** query_in_pgtbl: the physical address and the entry, or -ENOMAPPING. */
    method QueryInPgtbl(va: nat) returns (r: Option<(nat, nat)>)
      requires Valid() && va < VA_LIMIT
      ensures match Find(View(), va)
        case Unmapped => r == None
        case Leaf(l, e) => r == Some((Target(l, e, va), e))
    {
      hide *;
      TreeWellFormed();
      RootTable(View(), va);
      var ret, l1 := PeekNextPtp(root, 0, va);
      if ret == NoEntry { return None; }
      var t1 := l1;
      var l2;
      ret, l2 := PeekNextPtp(t1, 1, va);
      if ret == NoEntry { return None; }
      if ret == BlockPtp {
        var e := mem[t1][Index(1, va)];
        return Some((Target(1, e, va), e));
      }
      var l3;
      ret, l3 := PeekNextPtp(l2, 2, va);
      if ret == NoEntry { return None; }
      if ret == BlockPtp {
        var e := mem[l2][Index(2, va)];
        return Some((Target(2, e, va), e));
      }
      var unused;
      ret, unused := PeekNextPtp(l3, 3, va);
      if ret == NoEntry { return None; }
      var e := mem[l3][Index(3, va)];
      r := Some((Target(3, e, va), e));
    }

    // ---------- map ----------

    /** The steps that end one round of a mapping loop: build the entry for va and write it. */
    method PutLeaf(t: nat, level: LeafLevel, va: nat, pa: nat, flags: nat, ghost j: Job, ghost sp: Space)
      requires Valid() && MapInv(j, sp, View(), va) && JobOk(j) && AtBoundary(j, va) && va < j.end && flags == j.flags
      requires level == Level(j, va) && pa == j.pa + (va - j.va) && TableAt(View(), level, va) == Some(t)
      modifies this
      ensures Valid() && Others() == old(Others()) && MapInv(j, sp, View(), va + Span(level))
      ensures va + Span(level) <= j.end && AtBoundary(j, va + Span(level))
    {
      hide *;
      TreeWellFormed();
      JobFacts(j);
      StepAligned(j, va);
      NextBoundary(j, va);
      Descend(View(), level, va, t);
      PutReady(j, View(), va, t);
      PutOk(j, View(), va, t);
      PutKeeps(j, sp, View(), va, t);
      PutIsWrite(j, View(), va, t, level, pa);
      WritePte(t, level, va, LeafDesc(level, pa, flags));
    }

    lemma TreeWellFormed()
      requires Valid()
      ensures WF(View()) && View() == Space(root, mem, tree)
    {
    }

    /** A mapping loop has come to va, and the chunks of other owners are still `others`. */
    ghost predicate Running(j: Job, sp: Space, va: nat, others: map<nat, nat>)
      reads this, pool.Repr
    {
      Valid() && Others() == others && Mapping(j, sp, View(), va)
    }

    lemma RunningMeans(j: Job, sp: Space, va: nat, others: map<nat, nat>)
      requires Running(j, sp, va, others)
      ensures Valid() && Others() == others && Mapping(j, sp, View(), va)
    {
    }

    lemma StillRunning(j: Job, sp: Space, va: nat, others: map<nat, nat>)
      requires Valid() && Others() == others && Mapping(j, sp, View(), va)
      ensures Running(j, sp, va, others)
    {
    }

    lemma RunningDone(j: Job, sp: Space, va: nat, others: map<nat, nat>)
      requires Running(j, sp, va, others) && va >= j.end
      ensures Valid() && Others() == others && Mapped(j, sp, View())
    {
      MappingDone(j, sp, View(), va);
    }

    /** One round of the loop in map_range_in_pgtbl. */
    method MapPage(va: nat, pa: nat, flags: nat, ghost j: Job, ghost sp: Space, ghost others: map<nat, nat>)
      returns (ok: bool)
      requires Running(j, sp, va, others) && j.va <= va < j.end && Level(j, va) == 3
      requires flags == j.flags && pa == j.pa + (va - j.va)
      modifies this, pool.Repr
      ensures ok ==> Running(j, sp, va + PAGE, others)
      ensures !ok ==> Valid() && Others() == others && OutOfPages()
    {
      hide *;
      RunningMeans(j, sp, va, others);
      TreeWellFormed();
      MappingFacts(j, sp, View(), va);
      var ret, l1 := GetNextPtp(root, 0, va, j, sp);
      if ret == Stuck { return false; }
      var l2;
      ret, l2 := GetNextPtp(l1, 1, va, j, sp);
      if ret == Stuck { return false; }
      var l3;
      ret, l3 := GetNextPtp(l2, 2, va, j, sp);
      if ret == Stuck { return false; }
      PutLeaf(l3, 3, va, pa, flags, j, sp);
      StillMapping(j, sp, View(), va, 3);
      StillRunning(j, sp, va + Span(3), others);
      ok := true;
    }

    method MapRangeInPgtbl(start: nat, phys: nat, len: nat, flags: nat) returns (ok: bool)
      requires Valid() && JobOk(Job(start, phys, start + len, flags, false))
      requires NoLarger(Job(start, phys, start + len, flags, false), View())
      modifies this, pool.Repr
      ensures Valid() && Others() == old(Others())
      ensures ok ==> Mapped(Job(start, phys, start + len, flags, false), old(View()), View())
      ensures !ok ==> OutOfPages()
    {
      hide *;
      var va, pa, end := start, phys, start + len;
      ghost var j, sp := Job(start, phys, end, flags, false), View();
      ghost var others := Others();
      TreeWellFormed();
      StartMapping(j, sp);
      StillRunning(j, sp, start, others);
      SpanOfPage();
      while va < end
        invariant pa == phys + (va - start) && start <= va && Running(j, sp, va, others)
      {
        PageLevel(j, va);
        ok := MapPage(va, pa, flags, j, sp, others);
        if !ok { return; }
        va := va + PAGE;
        pa := pa + PAGE;
      }
      RunningDone(j, sp, va, others);
      ok := true;
    }

    /** One round of the loop in map_range_in_pgtbl_huge; `step` is the size of the block written. */
    method MapBlock(va: nat, pa: nat, end: nat, flags: nat, ghost j: Job, ghost sp: Space, ghost others: map<nat, nat>)
      returns (ok: bool, step: nat)
      requires Running(j, sp, va, others) && j.va <= va < j.end == end && j.huge
      requires flags == j.flags && pa == j.pa + (va - j.va)
      modifies this, pool.Repr
      ensures ok ==> step > 0 && Running(j, sp, va + step, others)
      ensures !ok ==> Valid() && Others() == others && OutOfPages()
    {
      hide *;
      RunningMeans(j, sp, va, others);
      TreeWellFormed();
      step := 0;
      MappingFacts(j, sp, View(), va);
      TestsChooseLevel(j, va, pa);
      var ret, l1 := GetNextPtp(root, 0, va, j, sp);
      if ret == Stuck { return false, 0; }
      if OnSpan(1, va) && OnSpan(1, pa) && end - va >= Span(1) {
        PutLeaf(l1, 1, va, pa, flags, j, sp);
        StillMapping(j, sp, View(), va, 1);
        StillRunning(j, sp, va + Span(1), others);
        return true, Span(1);
      }
      var l2;
      ret, l2 := GetNextPtp(l1, 1, va, j, sp);
      if ret == Stuck { return false, 0; }
      if OnSpan(2, va) && OnSpan(2, pa) && end - va >= Span(2) {
        PutLeaf(l2, 2, va, pa, flags, j, sp);
        StillMapping(j, sp, View(), va, 2);
        StillRunning(j, sp, va + Span(2), others);
        return true, Span(2);
      }
      var l3;
      ret, l3 := GetNextPtp(l2, 2, va, j, sp);
      if ret == Stuck { return false, 0; }
      PutLeaf(l3, 3, va, pa, flags, j, sp);
      StillMapping(j, sp, View(), va, 3);
      StillRunning(j, sp, va + Span(3), others);
      return true, Span(3);
    }

    method MapRangeInPgtblHuge(start: nat, phys: nat, len: nat, flags: nat) returns (ok: bool)
      requires Valid() && JobOk(Job(start, phys, start + len, flags, true))
      requires NoLarger(Job(start, phys, start + len, flags, true), View())
      modifies this, pool.Repr
      ensures Valid() && Others() == old(Others())
      ensures ok ==> Mapped(Job(start, phys, start + len, flags, true), old(View()), View())
      ensures !ok ==> OutOfPages()
    {
      hide *;
      var va, pa, end := start, phys, start + len;
      ghost var j, sp := Job(start, phys, end, flags, true), View();
      ghost var others := Others();
      TreeWellFormed();
      StartMapping(j, sp);
      StillRunning(j, sp, start, others);
      while va < end
        invariant pa == phys + (va - start) && start <= va && Running(j, sp, va, others)
        decreases end - va
      {
        var step;
        ok, step := MapBlock(va, pa, end, flags, j, sp, others);
        if !ok { return; }
        va := va + step;
        pa := pa + step;
      }
      RunningDone(j, sp, va, others);
      ok := true;
    }

    // ---------- unmap ----------

    /** pte->pte = PTE_DESCRIPTOR_INVALID for the entry found at va */
    method ClearPte(t: nat, level: LeafLevel, va: nat, ghost sp: Space, ghost start: nat, ghost end: nat)
      requires Valid()
      requires UnmapInv(sp, View(), start, va)
      requires start <= va < end <= VA_LIMIT
      requires Inside(sp, start, end) && AtEdge(sp, va, end) && OnPage(va)
      requires TableAt(View(), level, va) == Some(t) && Find(View(), va).Leaf? && Find(View(), va).level == level
      modifies this
      ensures Valid() && Others() == old(Others()) && UnmapInv(sp, View(), start, va + Span(level))
      ensures va + Span(level) <= end && AtEdge(sp, va + Span(level), end) && OnPage(va + Span(level))
    {
      hide *;
      TreeWellFormed();
      Descend(View(), level, va, t);
      ClearReady(View(), va, t);
      ClearKeeps(sp, View(), start, va, end, t);
      NextEdge(sp, start, va, end);
      PagesInSpan(level, va);
      InsideStep(sp, start, va, end);
      ClearIsWrite(View(), va, level, t);
      WritePte(t, level, va, 0);
    }

    /** Nothing is mapped at va: go on with the next page. */
    lemma SkipUnmapped(sp: Space, start: nat, va: nat, end: nat)
      requires UnmapInv(sp, View(), start, va) && start <= va < end <= VA_LIMIT && OnPage(end)
      requires Inside(sp, start, end) && AtEdge(sp, va, end) && OnPage(va) && Find(View(), va) == Unmapped
      ensures UnmapInv(sp, View(), start, va + PAGE) && va + PAGE <= end
      ensures AtEdge(sp, va + PAGE, end) && OnPage(va + PAGE)
    {
      hide *;
      NextPage(va, end);
      UntouchedAhead(sp, View(), start, va);
      SkipKeeps(sp, View(), start, va);
      NextEdge(sp, start, va, end);
      UnmappedStride();
    }

    method UnmapRangeInPgtbl(start: nat, len: nat)
      requires Valid() && OnPage(start) && OnPage(len) && start + len <= VA_LIMIT
      requires PagesOnly(View(), start, start + len)
      modifies this
      ensures Valid() && Others() == old(Others()) && UnmapInv(old(View()), View(), start, start + len)
    {
      hide *;
      var va, end := start, start + len;
      ghost var sp := View();
      TreeWellFormed();
      PageFacts(start, len);
      PagesInside(sp, start, end);
      StartUnmap(sp, start);
      StartEdge(sp, start, end);
      while va < end
        invariant start <= va <= end && OnPage(va) && AtEdge(sp, va, end)
        invariant Valid()
        invariant Others() == old(Others())
        invariant UnmapInv(sp, View(), start, va)
      {
        TreeWellFormed();
        RootTable(View(), va);
        OnlyPages(sp, View(), start, va, end);
        var ret, l1 := PeekNextPtp(root, 0, va);
        if ret == NoEntry { SkipUnmapped(sp, start, va, end); va := va + PAGE; continue; }
        var l2;
        ret, l2 := PeekNextPtp(l1, 1, va);
        if ret == NoEntry { SkipUnmapped(sp, start, va, end); va := va + PAGE; continue; }
        var l3;
        ret, l3 := PeekNextPtp(l2, 2, va);
        if ret == NoEntry { SkipUnmapped(sp, start, va, end); va := va + PAGE; continue; }
        var unused;
        ret, unused := PeekNextPtp(l3, 3, va);
        if ret == NoEntry { SkipUnmapped(sp, start, va, end); va := va + PAGE; continue; }
        assert ret == BlockPtp;
        ClearPte(l3, 3, va, sp, start, end);
        va := va + PAGE;
      }
    }

    method UnmapRangeInPgtblHuge(start: nat, len: nat)
      requires Valid() && OnPage(start) && OnPage(len) && start + len <= VA_LIMIT
      requires Inside(View(), start, start + len)
      modifies this
      ensures Valid() && Others() == old(Others()) && UnmapInv(old(View()), View(), start, start + len)
    {
      hide *;
      var va, end := start, start + len;
      ghost var sp := View();
      TreeWellFormed();
      PageFacts(start, len);
      StartUnmap(sp, start);
      StartEdge(sp, start, end);
      while va < end
        invariant start <= va <= end && OnPage(va) && AtEdge(sp, va, end)
        invariant Valid()
        invariant Others() == old(Others())
        invariant UnmapInv(sp, View(), start, va)
      {
        TreeWellFormed();
        RootTable(View(), va);
        var ret, l1 := PeekNextPtp(root, 0, va);
        if ret == NoEntry { SkipUnmapped(sp, start, va, end); va := va + PAGE; continue; }
        var l2;
        ret, l2 := PeekNextPtp(l1, 1, va);
        if ret == NoEntry { SkipUnmapped(sp, start, va, end); va := va + PAGE; continue; }
        if ret == BlockPtp {
          ClearPte(l1, 1, va, sp, start, end);
          va := va + Span(1);
          continue;
        }
        var l3;
        ret, l3 := PeekNextPtp(l2, 2, va);
        if ret == NoEntry { SkipUnmapped(sp, start, va, end); va := va + PAGE; continue; }
        if ret == BlockPtp {
          ClearPte(l2, 2, va, sp, start, end);
          va := va + Span(2);
          continue;
        }
        var unused;
        ret, unused := PeekNextPtp(l3, 3, va);
        if ret == NoEntry { SkipUnmapped(sp, start, va, end); va := va + PAGE; continue; }
        ClearPte(l3, 3, va, sp, start, end);
        va := va + PAGE;
      }
    }

    // ---------- free ----------

    /** free_page_table is under way: the tables in `freed` have been given back, and no other page. */
    ghost predicate Freeing(sp: Space, out: map<nat, nat>, freed: set<nat>)
      reads this, pool.Repr
    {
      && this !in pool.Repr && pool.Valid() && KBASE <= pool.startAddr && View() == sp && WF(sp)
      && Owned(out, sp.tree, FrameBase(pool.startAddr)) && freed <= sp.tree.Keys
      && Outstanding(pool.View()) == Without(out, freed, FrameBase(pool.startAddr))
    }

    /** free_pages(phys_to_virt(c << PAGE_SHIFT)).  It is called on a table that is still in use: never twice. */
    method FreeTable(c: nat, ghost sp: Space, ghost out: map<nat, nat>, ghost freed: set<nat>)
      requires Freeing(sp, out, freed) && c in sp.tree && c !in freed
      modifies pool.Repr
      ensures Freeing(sp, out, freed + {c})
    {
      hide *;
      var addr := c * PAGE + KBASE;
      TableAddress(c, sp, out, freed);
      ghost var p := pool.VirtToPage(addr);
      FreeCorrect(pool.View(), p);
      FreePagesAt(pool, addr);
      StillFreeing(c, sp, out, freed);
    }

    lemma TableAddress(c: nat, sp: Space, out: map<nat, nat>, freed: set<nat>)
      requires Freeing(sp, out, freed) && c in sp.tree && c !in freed
      ensures FrameBase(pool.startAddr) <= c
      ensures pool.InPool(c * PAGE + KBASE) && pool.VirtToPage(c * PAGE + KBASE) == c - FrameBase(pool.startAddr)
      ensures c - FrameBase(pool.startAddr) in Outstanding(pool.View()) && Inv(pool.View()) && pool.Valid()
      ensures Outstanding(pool.View()) == Without(out, freed, FrameBase(pool.startAddr))
      ensures this !in pool.Repr && KBASE <= pool.startAddr && View() == sp && WF(sp)
      ensures Owned(out, sp.tree, FrameBase(pool.startAddr)) && freed <= sp.tree.Keys
    {
      hide WF, Inv, Outstanding;
      StillInUse(out, sp.tree, freed, FrameBase(pool.startAddr), c);
      InUseHeadAt(pool.View(), c - FrameBase(pool.startAddr));
    }

    lemma StillFreeing(c: nat, sp: Space, out: map<nat, nat>, freed: set<nat>)
      requires c in sp.tree && FrameBase(pool.startAddr) <= c && pool.Valid()
      requires this !in pool.Repr && KBASE <= pool.startAddr && View() == sp && WF(sp)
      requires Owned(out, sp.tree, FrameBase(pool.startAddr)) && freed <= sp.tree.Keys
      requires Outstanding(pool.View())
            == Without(out, freed, FrameBase(pool.startAddr)) - {c - FrameBase(pool.startAddr)}
      ensures Freeing(sp, out, freed + {c})
    {
      hide WF, Inv, Outstanding, Owned, PhysMemPool.Valid;
      WithoutOne(out, freed, FrameBase(pool.startAddr), c);
    }

    /** The loops of free_page_table, one level per call: free everything below table t. */
    method FreeBelow(t: nat, level: nat, ghost sp: Space, ghost out: map<nat, nat>, ghost freed: set<nat>)
      requires Freeing(sp, out, freed) && t in sp.tree && sp.tree[t].level == level < 3
      requires Below(sp, t) !! freed
      modifies pool.Repr
      ensures Freeing(sp, out, freed + (Below(sp, t) - {t}))
      decreases 3 - level
    {
      hide *;
      FreeingFacts(sp, out, freed, t);
      BelowSelf(sp, t);
      ghost var gone := freed;
      UptoNone(sp, t, freed);
      for i := 0 to ENTRIES
        invariant Freeing(sp, out, gone) && gone == freed + BelowUpto(sp, t, i)
      {
        FreeingFacts(sp, out, gone, t);
        StillThere(sp, t, freed, i);
        assert t !in gone;   // no table is read after it was freed
        BelowNext(sp, t, i);
        LinkIs(sp, t, i);
        if IsValid(mem[t][i]) && IsTable(mem[t][i]) {
          var c := NextTable(mem[t][i]);
          ChildIs(sp, t, i, freed);
          BelowSelf(sp, c);
          assert Below(sp, c) !! gone;
          if level < 2 {
            FreeBelow(c, level + 1, sp, out, gone);
          } else {
            LastLevel(sp, c);
            assert gone + (Below(sp, c) - {c}) == gone;
          }
          gone := gone + (Below(sp, c) - {c});
          FreeTable(c, sp, out, gone);
          gone := gone + {c};
        }
      }
    }

    /** free_page_table: every reachable table is given back, each exactly once, and nothing else. */
    method FreePageTable()
      requires Valid()
      modifies pool.Repr
      ensures pool.Valid()
      ensures Outstanding(pool.View())
           == Without(old(Outstanding(pool.View())), Below(old(View()), root), FrameBase(pool.startAddr))
      ensures NoneLost(old(View())) <==> Outstanding(pool.View()) == old(Others())
    {
      hide *;
      ghost var sp, out := View(), Outstanding(pool.View());
      ghost var others := Others();
      StartFreeing();
      BelowSelf(sp, root);
      FreeBelow(root, 0, sp, out, {});
      FreeTable(root, sp, out, {} + (Below(sp, root) - {root}));
      assert {} + (Below(sp, root) - {root}) + {root} == Below(sp, root);
      DoneFreeing(sp, out, Below(sp, root));
    }

    lemma FreeingFacts(sp: Space, out: map<nat, nat>, freed: set<nat>, t: nat)
      requires Freeing(sp, out, freed) && t in sp.tree
      ensures WF(sp) && t in sp.mem && |sp.mem[t]| == ENTRIES && sp.mem == mem
    {
      assert TableOk(sp, t);
    }

    lemma StartFreeing()
      requires Valid()
      ensures Freeing(View(), Outstanding(pool.View()), {}) && View().root == root
      ensures root in View().tree && View().tree[root].level == 0
      ensures Others() == Rest(Outstanding(pool.View()), View().tree, FrameBase(pool.startAddr))
    {
    }

    lemma DoneFreeing(sp: Space, out: map<nat, nat>, freed: set<nat>)
      requires Freeing(sp, out, freed) && freed == Below(sp, sp.root)
      ensures pool.Valid() && Outstanding(pool.View()) == Without(out, freed, FrameBase(pool.startAddr))
      ensures NoneLost(sp)
         <==> Without(out, freed, FrameBase(pool.startAddr)) == Rest(out, sp.tree, FrameBase(pool.startAddr))
    {
      hide WF, Inv, Outstanding, PhysMemPool.Valid, NoneLost, Below;
      BelowRoot(sp);
      AllFreed(out, sp.tree, freed, FrameBase(pool.startAddr));
    }
  }
}
