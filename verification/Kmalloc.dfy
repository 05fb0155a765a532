/** kmalloc and kfree in place: the slab allocator over the words of the memory it
    manages, and the buddy allocator for larger blocks.  Where the kernel stops at
    a BUG_ON because no chunk is left for a new slab, the result is Stuck. */
module Kmalloc {
  import opened Bits
  import opened Options
  import opened BuddySpec
  import opened BuddyTheory
  import opened BuddyAllocator
  import opened PageAlloc
  import opened SlabSpec
  import opened SlabSteps
  import opened SlabBlocks
  import opened KmallocSpec
  import opened KmallocRuns
  import opened SlabCount
  import opened SlabFrames
  import opened SlabInit

  // ---------- sizes ----------

  /** size_to_order, and the loop of size_to_page_order. */
  method SizeToOrder(size: nat) returns (order: nat)
    ensures LeastOrder(size, order)
  {
    order := 0;
    var tmp := size;
    while tmp > 1
      invariant tmp * Pow2(order) <= size < (tmp + 1) * Pow2(order)
      invariant order > 0 ==> tmp >= 1
      decreases tmp
    {
      HalveStep(tmp, Pow2(order), size);
      tmp := tmp / 2;
      order := order + 1;
    }
    if size > Pow2(order) {
      order := order + 1;
    }
  }

  /** The least order whose chunk holds size bytes; 0 where rounding up wraps. */
  method SizeToPageOrder(size: nat) returns (order: nat)
    requires size < 0x1_0000_0000_0000_0000
    ensures LeastOrder(PagesFor(size), order)
    ensures 0 < size <= 0xFFFF_FFFF_FFFF_F000
        ==> size <= Pow2(order) * 0x1000 && (order > 0 ==> Pow2(order - 1) * 0x1000 < size)
    ensures size == 0 || size > 0xFFFF_FFFF_FFFF_F000 ==> order == 0
  {
    order := SizeToOrder(PagesFor(size));
    PageOrderExact(size, order);
  }

  // ---------- the heap ----------

  class KernelHeap {
    const pool: PhysMemPool
    const slab: array<nat>     // page->slab
    const slabs: array<nat>    // slabs[]
    var mem: Words             // the memory of the pool, by word
    ghost var info: map<nat, Slab>
    ghost var chains: seq<seq<nat>>

    ghost function View(): Heap
      reads this, pool, pool.links
    {
      Heap(pool.startAddr, pool.View(), info, chains)
    }

    ghost predicate Apart() {
      && this !in pool.Repr && slab !in pool.Repr && slabs !in pool.Repr && slab != slabs
      && slabs.Length == SLAB_MAX_ORDER + 1 && slab.Length == pool.pageNum
    }

    ghost predicate Valid()
      reads this, slab, slabs, pool.Repr
    {
      && Apart() && pool.Valid() && HeapInv(View())
      && Threaded(View(), slabs[..], mem) && Marked(View(), slab[..])
    }

    /** init_slab has run. */
    ghost predicate Ready()
      reads this
    {
      |chains| == SLAB_MAX_ORDER + 1 && forall k :: SLAB_MIN_ORDER <= k <= SLAB_MAX_ORDER ==> chains[k] != []
    }

    /** Before init_slab: no slab, and memory with whatever it holds. */
    constructor (pool: PhysMemPool, contents: Words)
      requires pool.Valid() && pool.startAddr > 0
      ensures Valid() && this.pool == pool && info == map[] && fresh(slab) && fresh(slabs)
      ensures chains == seq(SLAB_MAX_ORDER + 1, i => [])
    {
      hide BuddySpec.Inv;
      this.pool := pool;
      slab := new nat[pool.pageNum](i => 0);
      slabs := new nat[SLAB_MAX_ORDER + 1](i => 0);
      mem := contents;
      info := map[];
      chains := seq(SLAB_MAX_ORDER + 1, i => []);
      new;
      hide PhysMemPool.Valid;
    }

    // ---------- one slot ----------

    /** Take the first slot off the free list of the slab at s. */
    method TakeSlot(s: nat) returns (x: nat)
      requires Valid() && s in info && info[s].free != []
      modifies this
      ensures Valid() && chains == old(chains) && View() == Pop(old(View()), s) && x == old(info)[s].free[0]
      ensures WordsKept(old(View()), View(), old(mem), mem)
    {
      hide HeapInv, Threaded, Marked, IsSlot, PhysMemPool.Valid, WordsKept;
      ghost var h := View();
      PopInv(h, s);
      PopThreaded(h, slabs[..], mem, s);
      MarkedSame(h, Pop(h, s), slab[..]);
      x := Word(mem, s);
      PopWords(h, Pop(h, s), mem, s, Word(mem, x));
      mem := mem[s := Word(mem, x)];
      info := info[s := info[s].(free := info[s].free[1..])];
    }

    /** free_in_slab, once the slab is known */
    method GiveSlot(s: nat, x: nat)
      requires Valid() && s in info && IsSlot(info[s].order, s, x) && x !in info[s].free
      modifies this
      ensures Valid() && chains == old(chains) && View() == PushSlot(old(View()), s, x)
      ensures WordsKept(old(View()), View(), old(mem), mem)
    {
      hide HeapInv, Threaded, Marked, IsSlot, PhysMemPool.Valid, WordsKept;
      ghost var h := View();
      PushWords(h, s, x, mem, Word(mem, s));
      PushInv(h, s, x);
      PushThreaded(h, slabs[..], mem, s, x);
      MarkedSame(h, PushSlot(h, s, x), slab[..]);
      mem := mem[x := Word(mem, s)];
      mem := mem[s := x];
      info := info[s := info[s].(free := [x] + info[s].free)];
    }

    /** A user's own write: any word inside a block in use. */
    method UserWrite(y: nat, w: nat, ghost q: Part)
      requires Valid() && WordInBlock(View(), q, y)
      modifies this
      ensures Valid() && View() == old(View())
      ensures Effect(State(old(View()), old(mem)), State(View(), mem), Write(q, y, w))
    {
      hide HeapInv, Threaded, Marked, WordInBlock, PhysMemPool.Valid;
      UserWriteThreaded(View(), slabs[..], mem, q, y, w);
      mem := mem[y := w];
    }

    // ---------- a new slab ----------

    /** Write the header of the slab at s and thread its free list through its slots. */
    method InitSlabCache(s: nat, k: nat, next: nat)
      requires SLAB_MIN_ORDER <= k <= SLAB_MAX_ORDER && s > 0
      modifies this`mem
      ensures forall p :: SlabThreaded(mem, s, Slab(p, k, AllSlots(s, k)))
      ensures Word(mem, s + 8) == next
      ensures forall y: nat :: !(s <= y < s + SLAB_BYTES) ==> Word(mem, y) == Word(old(mem), y)
    {
      hide Pow2, SlotAt, AllSlots;
      var objSize := Pow2(k);
      SlotCounts(k);
      SlotSizes(k);
      var cnt := SLAB_BYTES / objSize - 1;
      ghost var was := mem;
      mem := mem[s := SlotAt(s, objSize, 0)][s + 8 := next][s + 16 := k];
      for i := 0 to cnt - 1
        invariant Word(mem, s) == SlotAt(s, objSize, 0) && Word(mem, s + 8) == next && Word(mem, s + 16) == k
        invariant forall j: nat :: j < i ==> Word(mem, SlotAt(s, objSize, j)) == SlotAt(s, objSize, j + 1)
        invariant forall y: nat :: !(s <= y < s + SLAB_BYTES) ==> Word(mem, y) == Word(was, y)
      {
        SlotBounds(s, k, i);
        EarlierSlots(s, objSize, i);
        mem := mem[SlotAt(s, objSize, i) := SlotAt(s, objSize, i + 1)];
      }
      SlotBounds(s, k, cnt - 1);
      EarlierSlots(s, objSize, cnt - 1);
      mem := mem[SlotAt(s, objSize, cnt - 1) := 0];
      ThreadedSlots(mem, s, k);
    }

    /** alloc_slab_memory: a chunk of 2MB, all of whose pages are marked with its address. */
    method AllocSlabMemory() returns (addr: Option<nat>)
      requires Valid()
      modifies pool.Repr, slab
      ensures pool.Valid() && Apart()
      ensures var (w, r) := GetPages(old(pool.View()), SLAB_CHUNK);
        pool.View() == w && addr == match r case None => None case Some(p) => Some(pool.startAddr + p * PAGE_BYTES)
      ensures addr == None ==> slab[..] == old(slab[..])
      ensures addr != None
          ==> MarkedWith(old(slab[..]), slab[..], GetPages(old(pool.View()), SLAB_CHUNK).1.value, addr.value)
    {
      hide *;
      ghost var v := pool.View();
      ValidMeans();
      addr := GetPagesAt(pool, SLAB_CHUNK);
      if addr == None { return; }
      ghost var p := GetPages(v, SLAB_CHUNK).1.value;
      AddressOf(p);
      ChunkInside(v, p);
      MarkPages(p, addr.value);
    }

    /** for (i = 0; i < page_num; i++) virt_to_page(addr + i * BUDDY_PAGE_SIZE)->slab = addr */
    method MarkPages(ghost p: nat, addr: nat)
      requires pool.Shape() && slab.Length == pool.pageNum && p + SLAB_PAGES <= pool.pageNum
      requires addr == pool.startAddr + p * PAGE_BYTES
      modifies slab
      ensures MarkedWith(old(slab[..]), slab[..], p, addr)
    {
      ghost var was := slab[..];
      for i := 0 to SLAB_PAGES
        invariant forall j :: 0 <= j < |was| ==> slab[j] == if p <= j < p + i then addr else was[j]
      {
        pool.VirtToPageInverts(p + i, 0);
        assert pool.PageToVirt(p + i) == addr + i * PAGE_BYTES;
        slab[pool.VirtToPage(addr + i * PAGE_BYTES)] := addr;
      }
    }

    /** A new slab of slot order k at the head of its chain: init_slab_cache, then new_slab->next_slab = slab_header
        and slabs[order] = new_slab.  (For the first slab of a chain slab_header is NULL.) */
    method NewSlab(k: nat) returns (done: bool)
      requires Valid() && SLAB_MIN_ORDER <= k <= SLAB_MAX_ORDER
      modifies this, slab, slabs, pool.Repr
      ensures Valid()
      ensures !done ==> View() == old(View()) && old(GetPages(pool.View(), SLAB_CHUNK).1.None?)
      ensures done ==> old(GetPages(pool.View(), SLAB_CHUNK).1.Some?) && View() == WithNewSlab(old(View()), k)
      ensures WordsKept(old(View()), View(), old(mem), mem)
    {
      hide *;
      ghost var h, heads, marks := View(), slabs[..], slab[..];
      ValidMeans();
      var s := AllocSlabMemory();
      if s == None {
        GetCorrect(h.pool, SLAB_CHUNK);
        ViewDefinition();
        ValidAgain(h, heads, mem, marks);
        SameWords(h, h, mem);
        return false;
      }
      ghost var was := mem;
      ghost var p := GetPages(h.pool, SLAB_CHUNK).1.value;
      NewSlabOk(h, k, p);
      InitSlabCache(s.value, k, slabs[k]);
      slabs[k] := s.value;
      info := info[s.value := Slab(p, k, AllSlots(s.value, k))];
      chains := chains[k := [s.value] + chains[k]];
      ViewDefinition();
      NewSlabValid(h, heads, was, marks, k, p, s.value, View(), slabs[..], mem, slab[..]);
      NewSlabWords(h, k, was, mem);
      ValidAgain(View(), slabs[..], mem, slab[..]);
      done := true;
    }

    lemma ValidMeans()
      requires Valid()
      ensures Apart() && pool.Valid() && pool.Shape() && pool.startAddr > 0
      ensures HeapInv(View()) && BuddySpec.Inv(pool.View())
      ensures Threaded(View(), slabs[..], mem) && Marked(View(), slab[..])
      ensures View().pool == pool.View() && View().start == pool.startAddr
      ensures View().slabs == info && View().chains == chains
      ensures |chains| == |slabs[..]| == SLAB_MAX_ORDER + 1 && pool.View().n == pool.pageNum == slab.Length
    {
    }

    lemma ViewDefinition()
      ensures View() == Heap(pool.startAddr, pool.View(), info, chains)
    {
    }

    lemma AddressOf(p: nat)
      ensures pool.PageToVirt(p) == pool.startAddr + p * PAGE_BYTES
    {
    }

    lemma ValidAgain(h: Heap, heads: seq<nat>, words: Words, marks: seq<nat>)
      requires Apart() && pool.Valid() && HeapInv(h) && Threaded(h, heads, words) && Marked(h, marks)
      requires View() == h && slabs[..] == heads && mem == words && slab[..] == marks
      ensures Valid()
    {
    }

    // ---------- init, alloc and free in slabs ----------

    /** init_slab: exactly one slab of every slot order, all its slots free, and seven 2MB chunks for them. */
    method InitSlab() returns (done: bool)
      requires Valid() && chains == seq(SLAB_MAX_ORDER + 1, i => [])
      modifies this, slab, slabs, pool.Repr
      ensures Valid() && (!done ==> NoChunkLeft(View()))
      ensures done ==> Ready() && forall q: Part :: UserBlock(View(), q) <==> old(UserBlock(View(), q))
      ensures done ==> |chains| == 12 && |info| == 7 && forall k :: 5 <= k <= 11 ==> OneSlab(View(), k)
      ensures done ==> TookSlabs(old(View()), View())
                       && |Outstanding(pool.View())| == |old(Outstanding(pool.View()))| + 7
      ensures done ==> FreeBytes(View()) == 7 * 0x20_0000 - (32 + 64 + 128 + 256 + 512 + 1024 + 2048)
      ensures WordsKept(old(View()), View(), old(mem), mem)
    {
      hide HeapInv, Threaded, Marked, UserBlock, BuddySpec.Inv, WithNewSlab, PhysMemPool.Valid, WordsKept, Grows;
      hide SlabsUpTo, OneSlab, TookSlabs, FreeBytes, Outstanding;
      ghost var start := View();
      ValidMeans();
      NoSlabsYet(start);
      SameWords(start, start, mem);
      GrowsSame(start);
      for k := SLAB_MIN_ORDER to SLAB_MAX_ORDER + 1
        invariant Valid() && |chains| == SLAB_MAX_ORDER + 1
        invariant forall j :: SLAB_MIN_ORDER <= j < k ==> chains[j] != []
        invariant forall q: Part :: UserBlock(View(), q) <==> UserBlock(start, q)
        invariant Grows(start, View()) && WordsKept(start, View(), old(mem), mem)
        invariant SlabsUpTo(start, View(), k)
      {
        ghost var h, was := View(), mem;
        ValidMeans();
        done := NewSlab(k);
        WordsKeptTwice(start, h, View(), old(mem), was, mem);
        if !done {
          NoChunk(h);
          return;
        }
        NewSlabShape(h, k);
        NextSlab(start, h, k);
        NewSlabFrame(h, k);
        ExtendsTwice(start, h, View());
        ViewDefinition();
        forall q: Part ensures UserBlock(View(), q) <==> UserBlock(start, q) {
          NewSlabBlocks(h, k, q);
        }
      }
      AllSeven(start, View());
      done := true;
    }

    /** What the code reads at the i-th slab of chain k. */
    lemma ChainNode(k: nat, i: nat)
      requires Valid() && k < |chains| && i < |chains[k]|
      ensures chains[k][i] in info && info[chains[k][i]].order == k && chains[k][i] > 0
      ensures Word(mem, chains[k][i]) != 0 <==> info[chains[k][i]].free != []
      ensures Word(mem, chains[k][i] + 8) == Elem(chains[k], i + 1)
    {
      hide BuddySpec.Inv, Marked, PhysMemPool.Valid, SlabThreaded, ChainThreaded, Word, Elem, SlabOk;
      var s := chains[k][i];
      ChainMember(info, chains, k, i);
      ReadSlab(View(), mem, s);
      ReadChain(mem, slabs[..][k], chains[k], i);
    }

    /** The layout of a slab's header: its free list at byte 0, the next slab at byte 8, its order at byte 16. */
    lemma HeaderLayout(k: nat, i: nat)
      requires Valid() && k < |chains| && i < |chains[k]|
      ensures var s := chains[k][i];
        && s in info
        && Word(mem, s) == (if info[s].free == [] then 0 else info[s].free[0])
        && Word(mem, s + 8) == (if i + 1 < |chains[k]| then chains[k][i + 1] else 0)
        && Word(mem, s + 16) == k
    {
      ChainNode(k, i);
      ThreadedHeader(View(), slabs[..], mem, chains[k][i]);
    }

    lemma ChainEndsWithNull(k: nat, i: nat)
      requires Valid() && k < |chains|
      ensures Elem(chains[k], i) != 0 <==> i < |chains[k]|
      ensures k < slabs.Length && slabs[k] == Elem(chains[k], 0)
    {
      HeadOfChain(k);
      if i < |chains[k]| { ChainNode(k, i); }
    }

    lemma HeadOfChain(k: nat)
      requires Valid() && k < |chains|
      ensures k < slabs.Length && slabs[k] == Elem(chains[k], 0)
    {
      hide BuddySpec.Inv, Marked, HeapInv, PhysMemPool.Valid, SlabThreaded;
      assert ChainThreaded(mem, slabs[..][k], chains[k]);
    }

    /** A slab is in the chain of its order, so a chain without free slots means the order is full. */
    lemma ChainFull(k: nat)
      requires Valid() && k < |chains|
      requires forall i :: 0 <= i < |chains[k]| ==> chains[k][i] in info && info[chains[k][i]].free == []
      ensures AllFull(View(), k)
    {
      hide BuddySpec.Inv, Marked, Threaded, PhysMemPool.Valid, SlabOk;
      forall s: nat | s in info && info[s].order == k ensures info[s].free == [] {
        assert s in chains[k];
      }
    }

    /** _alloc_in_slab_nolock: the first slab of the chain with a free slot; if there is none, a new slab. */
    method AllocInSlabNoLock(k: nat) returns (x: Option<nat>, ghost s: nat)
      requires Valid() && Ready() && SLAB_MIN_ORDER <= k <= SLAB_MAX_ORDER
      modifies this, slab, slabs, pool.Repr
      ensures Valid() && Ready()
      ensures x == None ==> View() == old(View()) && NoRoom(old(View()), k)
      ensures x != None ==> Took(old(View()), View(), k, x.value, s)
      ensures WordsKept(old(View()), View(), old(mem), mem)
      decreases if AllFull(View(), k) then 1 else 0
    {
      hide *;
      s := 0;
      ChainNotEmpty(k);
      ChainEndsWithNull(k, 0);
      ChainNode(k, 0);
      ElemIs(chains[k], 0);
      var cur := slabs[k];
      if Word(mem, cur) != 0 {
        x, s := TakeFrom(k, 0, cur);
        return;
      }
      cur := Word(mem, cur + 8);
      ghost var i := 1;
      ChainEndsWithNull(k, 1);
      while cur != 0
        invariant Valid() && Ready() && View() == old(View()) && mem == old(mem) && k < |chains|
        invariant 1 <= i <= |chains[k]| && cur == Elem(chains[k], i) && (cur != 0 <==> i < |chains[k]|)
        invariant forall j :: 0 <= j < i ==> chains[k][j] in info && info[chains[k][j]].free == []
        decreases |chains[k]| - i
      {
        ElemIs(chains[k], i);
        ChainNode(k, i);
        if Word(mem, cur) != 0 {
          x, s := TakeFrom(k, i, cur);
          return;
        }
        cur := Word(mem, cur + 8);
        i := i + 1;
        ChainEndsWithNull(k, i);
      }
      ChainFull(k);
      ghost var h, was := View(), mem;
      ValidMeans();
      ReadyIs();
      var done := NewSlab(k);
      if !done {
        RoomNone(h, k);
        StillReady(h);
        return None, 0;
      }
      NewSlabNotFull(h, k);
      NewSlabReady(h, k);
      ghost var between := mem;
      x, s := AllocInSlabNoLock(k);
      TookAfterNew(h, View(), k, x, s);
      NewSlabThenWords(h, View(), k, was, between, mem);
    }

    lemma ChainNotEmpty(k: nat)
      requires Ready() && SLAB_MIN_ORDER <= k <= SLAB_MAX_ORDER
      ensures k < |chains| && chains[k] != []
    {
    }

    lemma ReadyIs()
      requires Ready()
      ensures ReadyHeap(View())
    {
    }

    lemma NewSlabReady(h: Heap, k: nat)
      requires HeapInv(h) && BuddySpec.Inv(h.pool) && GetPages(h.pool, SLAB_CHUNK).1.Some?
      requires SLAB_MIN_ORDER <= k <= SLAB_MAX_ORDER
      requires ReadyHeap(h) && View() == WithNewSlab(h, k)
      ensures Ready()
    {
      hide HeapInv, BuddySpec.Inv, WithNewSlab, GetPages, AllSlots;
      NewSlabShape(h, k);
    }

    lemma StillReady(h: Heap)
      requires View() == h && ReadyHeap(h)
      ensures Ready()
    {
    }

    /** Take a slot from the i-th slab of chain k, which has one. */
    method TakeFrom(k: nat, ghost i: nat, cur: nat) returns (x: Option<nat>, ghost s: nat)
      requires Valid() && Ready() && k < |chains| && i < |chains[k]| && cur == chains[k][i]
      requires cur in info && info[cur].order == k && info[cur].free != []
      requires forall j :: 0 <= j < i ==> chains[k][j] in info && info[chains[k][j]].free == []
      modifies this
      ensures Valid() && Ready() && x != None && Took(old(View()), View(), k, x.value, s)
      ensures WordsKept(old(View()), View(), old(mem), mem)
    {
      hide HeapInv, Threaded, Marked, PhysMemPool.Valid, BuddySpec.Inv, Took, Pop, FirstRoom, WordsKept;
      ghost var h := View();
      ValidMeans();
      IsFirstRoom(h, k, i);
      var y := TakeSlot(cur);
      x, s := Some(y), cur;
      TookOld(h, View(), k, y, cur);
    }

    /** alloc_in_slab */
    method AllocInSlab(size: nat) returns (x: Option<nat>, ghost k: nat, ghost s: nat)
      requires Valid() && Ready() && size <= Pow2(SLAB_MAX_ORDER)
      modifies this, slab, slabs, pool.Repr
      ensures Valid() && Ready() && SLAB_MIN_ORDER <= k <= SLAB_MAX_ORDER && size <= Pow2(k)
      ensures k > SLAB_MIN_ORDER ==> Pow2(k - 1) < size
      ensures x == None ==> View() == old(View()) && NoRoom(old(View()), k)
      ensures x != None ==> Took(old(View()), View(), k, x.value, s)
      ensures WordsKept(old(View()), View(), old(mem), mem)
    {
      hide *;
      var order := SizeToOrder(size);
      OrderInRange(size, order);
      if order < SLAB_MIN_ORDER { order := SLAB_MIN_ORDER; }
      k := order;
      x, s := AllocInSlabNoLock(order);
    }

    /** get_pages for a large block: NULL, or a chunk of exactly that order. */
    method AllocLarge(order: nat) returns (r: Answer, ghost q: Part)
      requires Valid() && Ready()
      modifies pool.Repr
      ensures Valid() && Ready() && r != Stuck
      ensures r == Null ==> View() == old(View()) && old(GetPages(pool.View(), order).1.None?)
      ensures r != Null ==> q.Large? && Gained(old(View()), View(), q) && Lo(View(), q) == r.addr
                            && TookPages(old(View()), View(), q.page, order)
                            && Capacity(View(), q) == Pow2(order) * PAGE_BYTES
      ensures WordsKept(old(View()), View(), old(mem), mem)
    {
      hide *;
      ghost var h, heads, marks := View(), slabs[..], slab[..];
      ValidMeans();
      ReadyIs();
      GetCorrect(h.pool, order);
      var addr := GetPagesAt(pool, order);
      q := Large(0);
      if addr == None {
        ViewDefinition();
        ValidAgain(h, heads, mem, marks);
        StillReady(h);
        SameWords(h, h, mem);
        return Null, q;
      }
      ghost var p := GetPages(h.pool, order).1.value;
      GetGains(h, pool.View(), p, order);
      ViewDefinition();
      LargeSteps(h, pool.View(), p, heads, mem, marks);
      ValidAgain(View(), heads, mem, marks);
      AddressOf(p);
      NewLargeCapacity(View(), p, order);
      PagesAre(h, View(), p, order);
      StillReadyPool(h);
      SameWords(h, View(), mem);
      r, q := Ptr(addr.value), Large(p);
    }

    lemma StillReadyPool(h: Heap)
      requires View().chains == h.chains && ReadyHeap(h)
      ensures Ready()
    {
    }

    /** kmalloc */
    method Kmalloc(size: nat) returns (r: Answer, ghost q: Part)
      requires Valid() && Ready() && size < 0x1_0000_0000_0000_0000
      modifies this, slab, slabs, pool.Repr
      ensures Valid() && Ready()
      ensures r == Stuck ==> View() == old(View()) && size <= 2048 && NoRoomFor(old(View()), size)
      ensures r == Null ==> View() == old(View()) && size > 2048 && NoChunkFor(old(View()), size)
      ensures r.Ptr? ==> Served(old(View()), View(), size, q, r.addr) && Gained(old(View()), View(), q)
      ensures r.Ptr? ==> (Capacity(View(), q) >= size <==> size <= 0xFFFF_FFFF_FFFF_F000)
      ensures r.Ptr? && 32 < size <= 0xFFFF_FFFF_FFFF_F000 ==> Capacity(View(), q) < 2 * size
      ensures Effect(State(old(View()), old(mem)), State(View(), mem), if r.Ptr? then Take(q) else Idle)
    {
      hide *;
      ghost var h, was := View(), mem;
      ValidMeans();
      q := Large(0);
      MaxSlot();
      if size <= Pow2(SLAB_MAX_ORDER) {
        ghost var k, s;
        var x;
        x, k, s := AllocInSlab(size);
        if x == None {
          NoRoomIs(h, size, k);
          NoEffect(h, was, mem);
          return Stuck, q;
        }
        TookGains(h, View(), k, x.value, s);
        ServedSlot(h, View(), size, k, x.value, s);
        ServedEffect(h, View(), size, Slot(s, x.value), x.value, was, mem);
        ServedSize(h, View(), size, Slot(s, x.value), x.value);
        return Ptr(x.value), Slot(s, x.value);
      }
      var order := 0;
      if size > PAGE_BYTES { order := SizeToPageOrder(size); }
      ChunkOrderIs(size, order);
      r, q := AllocLarge(order);
      if r == Null {
        NoChunkIs(h, size, order);
        NoEffect(h, was, mem);
      } else {
        ServedPages(h, View(), size, order, q, r.addr);
        ServedEffect(h, View(), size, q, r.addr, was, mem);
        ServedSize(h, View(), size, q, r.addr);
      }
    }

    /** kfree: page->slab tells which allocator the block came from. */
    method Kfree(a: nat, ghost q: Part)
      requires Valid() && UserBlock(View(), q) && Lo(View(), q) == a
      modifies this, pool.Repr
      ensures Valid() && chains == old(chains)
      ensures Gained(View(), old(View()), q)
      ensures Effect(State(old(View()), old(mem)), State(View(), mem), Give(q))
    {
      hide *;
      ghost var h, heads, marks, was := View(), slabs[..], slab[..], mem;
      ValidMeans();
      BlockPage(h, marks, q);
      AddressIn(a, h, q);
      var page := pool.VirtToPage(a);
      if slab[page] != 0 {
        ghost var s, x := q.slab, q.addr;
        SlotFacts(h, q);
        PushGives(h, s, x);
        GiveSlot(slab[page], a);
        GaveSlotIs(h, View(), s, x);
      } else {
        LargeFacts(h, q);
        FreeCorrect(h.pool, page);
        InUseNow(h.pool, page);
        pool.BuddyFreePages(page);
        FreeGives(h, pool.View(), page);
        ViewDefinition();
        SameMarks(h, View(), marks, heads, mem);
        ValidAgain(View(), heads, mem, marks);
        SameWords(h, View(), mem);
        GavePagesIs(h, View(), page);
      }
      GiveEffect(h, View(), q, was, mem);
    }

    // ---------- counting ----------

    /** get_free_mem_size_from_slab: walk every chain, and every free list of its slabs. */
    method GetFreeMemSizeFromSlab() returns (total: nat)
      requires Valid()
      ensures total == FreeBytes(View())
    {
      hide *;
      total := 0;
      ghost var h := View();
      SmallOrders();
      for order := SLAB_MIN_ORDER to SLAB_MAX_ORDER + 1
        invariant total == FreeBelow(h, order)
      {
        ChainExists(order);
        var size := Pow2(order);
        var cur := slabs[order];
        ghost var i := 0;
        ChainEndsWithNull(order, 0);
        WholeChain(h, order, total);
        while cur != 0
          invariant i <= |chains[order]| && cur == Elem(chains[order], i) && (cur != 0 <==> i < |chains[order]|)
          invariant total + FreeIn(info, chains[order][i..]) * size == FreeBelow(h, order + 1)
          decreases |chains[order]| - i
        {
          ElemIs(chains[order], i);
          total := CountSlab(order, i, cur, size, total, FreeBelow(h, order + 1));
          ChainNode(order, i);
          cur := Word(mem, cur + 8);
          i := i + 1;
          ChainEndsWithNull(order, i);
        }
        ChainEnd(info, chains[order], i);
      }
      FreeBytesIs(h);
    }

    /** The loop over the free slots of the slab at cur, the i-th of its chain. */
    method CountSlab(order: nat, ghost i: nat, cur: nat, size: nat, before: nat, ghost goal: nat) returns (total: nat)
      requires Valid() && order < |chains| && i < |chains[order]| && cur == Elem(chains[order], i)
      requires before + FreeIn(info, chains[order][i..]) * size == goal
      ensures total + FreeIn(info, chains[order][i + 1..]) * size == goal
    {
      hide *;
      total := before;
      ElemIs(chains[order], i);
      ChainNode(order, i);
      ghost var rest, l := FreeIn(info, chains[order][i + 1..]), info[cur].free;
      FreeInSplit(info, chains[order], i);
      FreeOfIs(info, cur);
      FreeList(cur, 0);
      var slot := Word(mem, cur);
      ghost var j := 0;
      while slot != 0
        invariant j <= |l| && slot == Elem(l, j) && (slot != 0 <==> j < |l|)
        invariant total + (|l| - j + rest) * size == goal
        decreases |l| - j
      {
        total := total + size;
        MulAdd(|l| - j + rest, -1, size);
        FreeList(cur, j);
        slot := Word(mem, slot);
        j := j + 1;
        FreeList(cur, j);
      }
    }

    /** What the code reads along the free list of slab s. */
    lemma FreeList(s: nat, j: nat)
      requires Valid() && s in info
      ensures Word(mem, s) == Elem(info[s].free, 0)
      ensures Elem(info[s].free, j) != 0 <==> j < |info[s].free|
      ensures j < |info[s].free| ==> Word(mem, Elem(info[s].free, j)) == Elem(info[s].free, j + 1)
    {
      ValidMeans();
      hide Valid;
      ReadList(View(), slabs[..], mem, s, j);
    }

    lemma ChainExists(k: nat)
      requires Valid() && k <= SLAB_MAX_ORDER
      ensures k < |chains| == |slabs[..]|
    {
      ValidMeans();
    }

    lemma SmallOrders()
      requires Valid()
      ensures SLAB_MIN_ORDER <= SLAB_MAX_ORDER && FreeBelow(View(), SLAB_MIN_ORDER) == 0
    {
      ValidMeans();
      hide Valid;
      NothingBelow(View());
    }

    lemma WholeChain(h: Heap, k: nat, total: nat)
      requires h == View() && k < |chains|
      ensures chains[k][0..] == chains[k] && FreeBelow(h, k + 1) == FreeBelow(h, k) + FreeIn(info, chains[k]) * Pow2(k)
    {
      hide Pow2, FreeIn;
    }

    lemma AddressIn(a: nat, h: Heap, q: Part)
      requires Valid() && h == View() && h.start <= a < h.start + h.pool.n * PAGE_BYTES
      ensures pool.InPool(a) && pool.VirtToPage(a) == (a - h.start) / PAGE_BYTES < slab.Length
    {
    }
  }
}
