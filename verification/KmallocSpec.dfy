/** What kmalloc and kfree do to the heap, on values: the sizes they ask for, a new
    slab, and taking and giving back a block. */
module KmallocSpec {
  import opened Bits
  import opened Options
  import opened Rings
  import opened BuddySpec
  import opened BuddyTheory
  import opened BuddyCount
  import opened SlabSpec
  import opened SlabSteps
  import opened SlabBlocks

  // ---------- sizes ----------

  /** The smallest order whose power of two is at least n. */
  predicate LeastOrder(n: nat, order: nat) {
    n <= Pow2(order) && (order > 0 ==> Pow2(order - 1) < n)
  }

  lemma LeastOrderUnique(n: nat, k: nat, l: nat)
    requires LeastOrder(n, k) && LeastOrder(n, l)
    ensures k == l
  {
    if k < l { Pow2Mono(k, l - 1); }
    if l < k { Pow2Mono(l, k - 1); }
  }

  lemma HalveStep(tmp: nat, m: nat, size: nat)
    requires tmp * m <= size < (tmp + 1) * m
    ensures (tmp / 2) * (2 * m) <= size < (tmp / 2 + 1) * (2 * m)
  {
    var h, r := tmp / 2, tmp % 2;
    assert tmp == 2 * h + r;
    assert h * (2 * m) == (2 * h) * m && (h + 1) * (2 * m) == (2 * h + 2) * m;
    MulMono(2 * h, tmp, m);
    MulMono(tmp + 1, 2 * h + 2, m);
  }

  /** ROUND_UP(size, BUDDY_PAGE_SIZE) / BUDDY_PAGE_SIZE in 64-bit arithmetic, which wraps. */
  function PagesFor(size: nat): nat {
    ((size + (PAGE_BYTES - 1)) % U64) / PAGE_BYTES
  }

  /** The order that kmalloc asks the buddy allocator for. */
  predicate ChunkOrder(size: nat, order: nat) {
    if size <= PAGE_BYTES then order == 0 else LeastOrder(PagesFor(size), order)
  }

  /** The pages are those that hold the size, and no more. */
  lemma PagesAreEnough(size: nat)
    requires size <= 0xFFFF_FFFF_FFFF_F000
    ensures PagesFor(size) * 0x1000 >= size && (size > 0 ==> (PagesFor(size) - 1) * 0x1000 < size)
  {
  }

  lemma PagesCompare(n: nat, size: nat, m: nat)
    requires n * 0x1000 >= size && (n - 1) * 0x1000 < size
    ensures n <= m <==> size <= m * 0x1000
  {
  }

  /** The order for the pages, in bytes; where rounding up wraps it is 0. */
  lemma PageOrderExact(size: nat, order: nat)
    requires size < 0x1_0000_0000_0000_0000
    ensures 0 < size <= 0xFFFF_FFFF_FFFF_F000 ==>
      (LeastOrder(PagesFor(size), order)
       <==> size <= Pow2(order) * 0x1000 && (order > 0 ==> Pow2(order - 1) * 0x1000 < size))
    ensures size == 0 || size > 0xFFFF_FFFF_FFFF_F000 ==> (LeastOrder(PagesFor(size), order) <==> order == 0)
  {
    if 0 < size <= 0xFFFF_FFFF_FFFF_F000 {
      PagesAreEnough(size);
      PagesCompare(PagesFor(size), size, Pow2(order));
      if order > 0 { PagesCompare(PagesFor(size), size, Pow2(order - 1)); }
    } else {
      assert PagesFor(size) == 0;
      if LeastOrder(0, order) { LeastOrderUnique(0, order, 0); }
    }
  }

  /** For every size above a page that does not wrap, kmalloc asks for the least order whose chunk holds the size in
      bytes; up to a page for order 0; and beyond, where rounding up wraps, for order 0 as well. */
  lemma ChunkOrderExact(size: nat, order: nat)
    requires size < 0x1_0000_0000_0000_0000
    ensures size <= 0x1000 || size > 0xFFFF_FFFF_FFFF_F000 ==> (ChunkOrder(size, order) <==> order == 0)
    ensures 0x1000 < size <= 0xFFFF_FFFF_FFFF_F000 ==>
      (ChunkOrder(size, order)
       <==> size <= Pow2(order) * 0x1000 && (order > 0 ==> Pow2(order - 1) * 0x1000 < size))
  {
    hide LeastOrder, PagesFor;
    PageOrderExact(size, order);
  }

  /** The chunk is large enough exactly when rounding the size up does not wrap; and then, from half a page on, it is
      less than twice as large. */
  lemma ChunkLargeEnough(size: nat, order: nat)
    requires size < 0x1_0000_0000_0000_0000 && ChunkOrder(size, order)
    ensures Pow2(order) * 0x1000 >= size <==> size <= 0xFFFF_FFFF_FFFF_F000
    ensures 0x800 < size <= 0xFFFF_FFFF_FFFF_F000 ==> Pow2(order) * 0x1000 < 2 * size
  {
    hide ChunkOrder;
    ChunkOrderExact(size, order);
    if order > 0 { DoubleOrder(order); }
  }

  lemma DoubleOrder(order: nat)
    requires order > 0
    ensures Pow2(order) == 2 * Pow2(order - 1)
  {
  }

  // ---------- the heap ----------

  datatype Answer = Ptr(addr: nat) | Null | Stuck

  /** Every slab of slot order k is full. */
  ghost predicate AllFull(h: Heap, k: nat) {
    forall s :: s in h.slabs && h.slabs[s].order == k ==> h.slabs[s].free == []
  }

  /** The heap after a new slab of slot order k. */
  ghost function WithNewSlab(h: Heap, k: nat): Heap
    requires BuddySpec.Inv(h.pool) && GetPages(h.pool, SLAB_CHUNK).1.Some? && k < |h.chains|
  {
    var (pool, p) := GetPages(h.pool, SLAB_CHUNK);
    AddSlab(h, pool, p.value, k, AllSlots(h.start + p.value * PAGE_BYTES, k))
  }

  lemma MaxSlot()
    ensures Pow2(SLAB_MAX_ORDER) == 2048 && U64 - PAGE_BYTES > 2048
  {
    SlabPow();
  }

  /** The size of a block in bytes. */
  function Capacity(h: Heap, q: Part): int
    requires q.Header? || q.Slot? ==> q.slab in h.slabs
    requires q.Large? || q.FreeChunk? ==> q.page in h.pool.chunks
  {
    Hi(h, q) - Lo(h, q)
  }

  /** All slabs of order k are full, and the buddy allocator has no chunk for another. */
  ghost predicate NoRoom(h: Heap, k: nat) {
    AllFull(h, k) && BuddySpec.Inv(h.pool) && GetPages(h.pool, SLAB_CHUNK).1.None?
  }

  /** No slab of the order that serves the size, the least from 5 on, has room, and there is no chunk for a new one. */
  ghost predicate NoRoomFor(h: Heap, size: nat) {
    exists k :: && SLAB_MIN_ORDER <= k <= SLAB_MAX_ORDER && size <= Pow2(k) && NoRoom(h, k)
                && (k == SLAB_MIN_ORDER || Pow2(k - 1) < size)
  }

  lemma NoRoomIs(h: Heap, size: nat, k: nat)
    requires SLAB_MIN_ORDER <= k <= SLAB_MAX_ORDER && size <= Pow2(k) && NoRoom(h, k)
    requires k == SLAB_MIN_ORDER || Pow2(k - 1) < size
    ensures NoRoomFor(h, size)
  {
    hide NoRoom, Pow2;
  }

  ghost predicate NoChunkFor(h: Heap, size: nat) {
    BuddySpec.Inv(h.pool) && exists order :: ChunkOrder(size, order) && GetPages(h.pool, order).1.None?
  }

  lemma NoChunkIs(h: Heap, size: nat, order: nat)
    requires BuddySpec.Inv(h.pool) && ChunkOrder(size, order) && GetPages(h.pool, order).1.None?
    ensures NoChunkFor(h, size)
  {
    hide BuddySpec.Inv, ChunkOrder, GetPages;
  }

  lemma ChunkOrderIs(size: nat, order: nat)
    requires size <= PAGE_BYTES ==> order == 0
    requires size > PAGE_BYTES ==> LeastOrder(PagesFor(size), order)
    ensures ChunkOrder(size, order)
  {
  }

  lemma NewLargeCapacity(w: Heap, p: nat, order: nat)
    requires p in Outstanding(w.pool) && Outstanding(w.pool)[p] == order
    ensures p in w.pool.chunks && Lo(w, Large(p)) == w.start + p * PAGE_BYTES
    ensures Capacity(w, Large(p)) == Pow2(order) * PAGE_BYTES
  {
    hide Pow2;
  }

  /** Only the buddy allocator changed. */
  lemma SameMarks(h: Heap, w: Heap, marks: seq<nat>, heads: seq<nat>, mem: Words)
    requires Marked(h, marks) && Threaded(h, heads, mem) && w == h.(pool := w.pool) && w.pool.n == h.pool.n
    ensures Marked(w, marks) && Threaded(w, heads, mem)
  {
    hide SlabThreaded, ChainThreaded;
    MarkedSame(h, w, marks);
  }

  lemma LargeSteps(h: Heap, pool: Pool, p: nat, heads: seq<nat>, mem: Words, marks: seq<nat>)
    requires Marked(h, marks) && Threaded(h, heads, mem) && pool.n == h.pool.n
    ensures Marked(h.(pool := pool), marks) && Threaded(h.(pool := pool), heads, mem)
  {
    SameMarks(h, h.(pool := pool), marks, heads, mem);
  }

  lemma TookGains(h: Heap, w: Heap, k: nat, x: nat, s: nat)
    requires HeapInv(h) && Took(h, w, k, x, s) && SLAB_MIN_ORDER <= k <= SLAB_MAX_ORDER
    ensures s in w.slabs && Gained(h, w, Slot(s, x)) && Lo(w, Slot(s, x)) == x && Capacity(w, Slot(s, x)) == Pow2(k)
  {
    hide *;
    TookIs(h, w, k, x, s);
    if !AllFull(h, k) {
      PopGains(h, s);
      PopSlot(h, s);
    } else {
      var n := WithNewSlab(h, k);
      NewSlabInv(h, k);
      PopGains(n, s);
      PopSlot(n, s);
      forall q: Part ensures UserBlock(n, q) <==> UserBlock(h, q) { NewSlabBlocks(h, k, q); }
      GainedFrom(h, n, w, Slot(s, x));
    }
  }

  lemma TookIs(h: Heap, w: Heap, k: nat, x: nat, s: nat)
    requires Took(h, w, k, x, s)
    ensures BuddySpec.Inv(h.pool)
    ensures !AllFull(h, k) ==> s in h.slabs && h.slabs[s].order == k && h.slabs[s].free != [] && w == Pop(h, s)
                               && x == h.slabs[s].free[0]
    ensures AllFull(h, k) ==>
      && k < |h.chains| && GetPages(h.pool, SLAB_CHUNK).1.Some?
      && var n := WithNewSlab(h, k);
         s in n.slabs && n.slabs[s].order == k && n.slabs[s].free != [] && w == Pop(n, s) && x == n.slabs[s].free[0]
  {
    hide AllFull, WithNewSlab, BuddySpec.Inv, GetPages, Pop, FirstRoom;
  }

  lemma PopSlot(h: Heap, s: nat)
    requires s in h.slabs && h.slabs[s].free != []
    ensures var w, q := Pop(h, s), Slot(s, h.slabs[s].free[0]);
      s in w.slabs && Lo(w, q) == q.addr && Capacity(w, q) == Pow2(h.slabs[s].order)
  {
    hide Pow2;
  }

  lemma GainedFrom(h: Heap, n: Heap, w: Heap, q: Part)
    requires Gained(n, w, q) && forall r: Part :: UserBlock(n, r) <==> UserBlock(h, r)
    ensures Gained(h, w, q)
  {
    hide UserBlock;
  }

  lemma NewSlabInv(h: Heap, k: nat)
    requires HeapInv(h) && BuddySpec.Inv(h.pool) && GetPages(h.pool, SLAB_CHUNK).1.Some?
    requires SLAB_MIN_ORDER <= k <= SLAB_MAX_ORDER
    ensures k < |h.chains| && HeapInv(WithNewSlab(h, k))
  {
    hide HeapInv, BuddySpec.Inv, GetPages, AllSlots, Outstanding, CanAdd;
    var p := GetPages(h.pool, SLAB_CHUNK).1.value;
    NewSlabOk(h, k, p);
    AddInv(h, GetPages(h.pool, SLAB_CHUNK).0, p, k, AllSlots(h.start + p * PAGE_BYTES, k));
  }

  /** A block's page is marked with its slab, or not at all. */
  lemma BlockPage(h: Heap, marks: seq<nat>, q: Part)
    requires HeapInv(h) && Marked(h, marks) && UserBlock(h, q)
    ensures h.start <= Lo(h, q) < h.start + h.pool.n * PAGE_BYTES
    ensures (Lo(h, q) - h.start) / PAGE_BYTES < |marks|
    ensures marks[(Lo(h, q) - h.start) / PAGE_BYTES] == if q.Slot? then q.slab else 0
    ensures q.Slot? || q.Large?
    ensures q.Slot? ==> q.slab != 0
    ensures q.Large? ==> (Lo(h, q) - h.start) / PAGE_BYTES == q.page
  {
    hide HeapInv, Marked;
    if q.Slot? {
      SlotMarked(h, marks, q.slab, q.addr);
    } else {
      LargeUnmarked(h, marks, q.page);
      PoolSize(h, marks);
    }
  }

  lemma PoolSize(h: Heap, marks: seq<nat>)
    requires Marked(h, marks)
    ensures |marks| == h.pool.n
  {
  }

  lemma SlotFacts(h: Heap, q: Part)
    requires UserBlock(h, q) && q.Slot?
    ensures q.slab in h.slabs && IsSlot(h.slabs[q.slab].order, q.slab, q.addr) && q.addr !in h.slabs[q.slab].free
    ensures Lo(h, q) == q.addr
  {
  }

  lemma LargeFacts(h: Heap, q: Part)
    requires UserBlock(h, q) && q.Large?
    ensures q.page in Outstanding(h.pool)
  {
  }

  /** The first word of a slab tells whether it has a free slot. */
  lemma ReadSlab(h: Heap, mem: Words, s: nat)
    requires h.start > 0 && s in h.slabs && SlabOk(h, s, h.slabs[s]) && SlabThreaded(mem, s, h.slabs[s])
    ensures s > 0 && (Word(mem, s) != 0 <==> h.slabs[s].free != [])
  {
    hide Outstanding, Distinct;
    if h.slabs[s].free != [] { assert h.slabs[s].free[0] in h.slabs[s].free; }
  }

  lemma ReadChain(mem: Words, head: nat, chain: seq<nat>, i: nat)
    requires ChainThreaded(mem, head, chain) && i < |chain|
    ensures Word(mem, chain[i] + 8) == Elem(chain, i + 1)
  {
  }

  ghost predicate ReadyHeap(h: Heap) {
    |h.chains| == SLAB_MAX_ORDER + 1 && forall k :: SLAB_MIN_ORDER <= k <= SLAB_MAX_ORDER ==> h.chains[k] != []
  }

  lemma ElemIs(l: seq<nat>, i: nat)
    requires i < |l|
    ensures Elem(l, i) == l[i]
  {
  }

  lemma OrderInRange(size: nat, order: nat)
    requires size <= Pow2(SLAB_MAX_ORDER) && LeastOrder(size, order)
    ensures SLAB_MIN_ORDER <= SLAB_MAX_ORDER && order <= SLAB_MAX_ORDER && size <= Pow2(order)
    ensures order < SLAB_MIN_ORDER ==> size <= Pow2(SLAB_MIN_ORDER)
    ensures order > SLAB_MIN_ORDER ==> Pow2(order - 1) < size
  {
    if order > SLAB_MAX_ORDER { Pow2Mono(SLAB_MAX_ORDER, order - 1); }
    if order < SLAB_MIN_ORDER { Pow2Mono(order, SLAB_MIN_ORDER); }
  }

  /** s is the first slab of chain k that has a free slot. */
  ghost predicate FirstRoom(h: Heap, k: nat, s: nat) {
    && k < |h.chains|
    && exists i: nat :: i < |h.chains[k]| && h.chains[k][i] == s && FullBefore(h, k, i)
  }

  ghost predicate FullBefore(h: Heap, k: nat, i: nat) {
    && k < |h.chains|
    && forall j :: 0 <= j < i && j < |h.chains[k]|
                   ==> h.chains[k][j] in h.slabs && h.slabs[h.chains[k][j]].free == []
  }

  /** Slot x of slab s was taken: from the first slab of the chain with room if one of order k had room, else from a
      new one. */
  ghost predicate Took(h: Heap, w: Heap, k: nat, x: nat, s: nat) {
    && BuddySpec.Inv(h.pool)
    && if !AllFull(h, k) then
         && s in h.slabs && h.slabs[s].order == k && h.slabs[s].free != [] && FirstRoom(h, k, s)
         && w == Pop(h, s) && x == h.slabs[s].free[0]
       else
         && k < |h.chains| && GetPages(h.pool, SLAB_CHUNK).1.Some?
         && var n := WithNewSlab(h, k);
            s !in h.slabs && s in n.slabs && n.slabs[s].order == k && n.slabs[s].free != [] && w == Pop(n, s)
            && x == n.slabs[s].free[0]
  }

  ghost predicate MarkedWith(was: seq<nat>, now: seq<nat>, p: nat, addr: nat) {
    |now| == |was| && forall i :: 0 <= i < |was| ==> now[i] == if p <= i < p + SLAB_PAGES then addr else was[i]
  }

  lemma ChunkInside(v: Pool, p: nat)
    requires BuddySpec.Inv(v) && GetPages(v, SLAB_CHUNK).1 == Some(p)
    ensures p + SLAB_PAGES <= v.n
  {
    GetCorrect(v, SLAB_CHUNK);
    InUseHead(GetPages(v, SLAB_CHUNK).0, p);
    SlabPow();
  }

  lemma NewSlabOk(h: Heap, k: nat, p: nat)
    requires HeapInv(h) && BuddySpec.Inv(h.pool) && SLAB_MIN_ORDER <= k <= SLAB_MAX_ORDER
    requires GetPages(h.pool, SLAB_CHUNK).1 == Some(p)
    ensures CanAdd(h, GetPages(h.pool, SLAB_CHUNK).0, p, k, AllSlots(h.start + p * PAGE_BYTES, k))
    ensures GetPages(h.pool, SLAB_CHUNK).0.n == h.pool.n && GetPages(h.pool, SLAB_CHUNK).0.base == h.pool.base
  {
    hide BuddySpec.Inv, Outstanding, GetPages, HeapInv, IsSlot, AllSlots;
    GetCorrect(h.pool, SLAB_CHUNK);
    AllSlotsOk(h.start + p * PAGE_BYTES, k);
  }

  lemma NewSlabValid(h: Heap, heads: seq<nat>, words: Words, marks: seq<nat>, k: nat, p: nat, s: nat,
                     w: Heap, heads': seq<nat>, words': Words, marks': seq<nat>)
    requires HeapInv(h) && BuddySpec.Inv(h.pool) && Threaded(h, heads, words) && Marked(h, marks)
    requires SLAB_MIN_ORDER <= k <= SLAB_MAX_ORDER && k < |heads| == |h.chains|
    requires GetPages(h.pool, SLAB_CHUNK).1 == Some(p) && s == h.start + p * PAGE_BYTES
    requires w == Heap(h.start, GetPages(h.pool, SLAB_CHUNK).0, h.slabs[s := Slab(p, k, AllSlots(s, k))],
                       h.chains[k := [s] + h.chains[k]])
    requires heads' == heads[k := s] && MarkedWith(marks, marks', p, s)
    requires forall q :: SlabThreaded(words', s, Slab(q, k, AllSlots(s, k)))
    requires Word(words', s + 8) == heads[k]
    requires forall y: nat :: !(s <= y < s + SLAB_BYTES) ==> Word(words', y) == Word(words, y)
    ensures w == WithNewSlab(h, k) && HeapInv(w) && Threaded(w, heads', words') && Marked(w, marks')
  {
    hide BuddySpec.Inv, Outstanding, GetPages, HeapInv, CanAdd, AllSlots, Threaded, Marked, SlabThreaded, Word;
    NewSlabOk(h, k, p);
    var pool := GetPages(h.pool, SLAB_CHUNK).0;
    AddInv(h, pool, p, k, AllSlots(s, k));
    AddThreaded(h, pool, p, k, AllSlots(s, k), heads, words, words');
    MarkedAdd(h, pool, p, k, AllSlots(s, k), marks, marks');
  }

  lemma NewSlabShape(h: Heap, k: nat)
    requires HeapInv(h) && BuddySpec.Inv(h.pool) && GetPages(h.pool, SLAB_CHUNK).1.Some?
    requires SLAB_MIN_ORDER <= k <= SLAB_MAX_ORDER
    ensures var p := GetPages(h.pool, SLAB_CHUNK).1.value; var s := h.start + p * PAGE_BYTES;
      && |h.chains| == SLAB_MAX_ORDER + 1 && s !in h.slabs
      && WithNewSlab(h, k).slabs == h.slabs[s := Slab(p, k, AllSlots(s, k))]
      && WithNewSlab(h, k).chains == h.chains[k := [s] + h.chains[k]]
      && AllSlots(s, k) != []
  {
    hide BuddySpec.Inv, Outstanding, GetPages, AllSlots, IsSlot;
    var p := GetPages(h.pool, SLAB_CHUNK).1.value;
    NewSlabOk(h, k, p);
    AddFresh(h, GetPages(h.pool, SLAB_CHUNK).0, p, k, AllSlots(h.start + p * PAGE_BYTES, k));
    AllSlotsOk(h.start + p * PAGE_BYTES, k);
  }

  lemma NewSlabBlocks(h: Heap, k: nat, q: Part)
    requires HeapInv(h) && BuddySpec.Inv(h.pool) && GetPages(h.pool, SLAB_CHUNK).1.Some?
    requires SLAB_MIN_ORDER <= k <= SLAB_MAX_ORDER
    ensures k < |h.chains| && (UserBlock(WithNewSlab(h, k), q) <==> UserBlock(h, q))
  {
    hide BuddySpec.Inv, Outstanding, GetPages, AllSlots, IsSlot, UserBlock;
    var p := GetPages(h.pool, SLAB_CHUNK).1.value;
    NewSlabOk(h, k, p);
    AllSlotsOk(h.start + p * PAGE_BYTES, k);
    AddKeepsBlocks(h, GetPages(h.pool, SLAB_CHUNK).0, p, k, AllSlots(h.start + p * PAGE_BYTES, k), q);
  }

  lemma RoomNone(h: Heap, k: nat)
    requires AllFull(h, k) && BuddySpec.Inv(h.pool) && GetPages(h.pool, SLAB_CHUNK).1.None?
    ensures NoRoom(h, k)
  {
  }

  lemma NewSlabNotFull(h: Heap, k: nat)
    requires HeapInv(h) && BuddySpec.Inv(h.pool) && GetPages(h.pool, SLAB_CHUNK).1.Some?
    requires SLAB_MIN_ORDER <= k <= SLAB_MAX_ORDER
    ensures k < |h.chains| && !AllFull(WithNewSlab(h, k), k)
  {
    NewSlabShape(h, k);
    hide BuddySpec.Inv, Outstanding, GetPages, AllSlots, WithNewSlab;
    var s := h.start + GetPages(h.pool, SLAB_CHUNK).1.value * PAGE_BYTES;
    assert s in WithNewSlab(h, k).slabs;
  }

  /** The recursive call of _alloc_in_slab_nolock always succeeds, on the fresh slab. */
  lemma TookAfterNew(h: Heap, w: Heap, k: nat, x: Option<nat>, s: nat)
    requires HeapInv(h) && BuddySpec.Inv(h.pool) && GetPages(h.pool, SLAB_CHUNK).1.Some?
    requires SLAB_MIN_ORDER <= k <= SLAB_MAX_ORDER
    requires k < |h.chains| && AllFull(h, k)
    requires x == None ==> NoRoom(WithNewSlab(h, k), k)
    requires x != None ==> Took(WithNewSlab(h, k), w, k, x.value, s)
    ensures x != None && Took(h, w, k, x.value, s)
  {
    hide *;
    NewSlabNotFull(h, k);
    NewSlabShape(h, k);
    RoomIs(WithNewSlab(h, k), k);
    if x != None {
      var n := WithNewSlab(h, k);
      TookIs(n, w, k, x.value, s);
      TookNew(h, w, k, x.value, s, h.start + GetPages(h.pool, SLAB_CHUNK).1.value * PAGE_BYTES);
    }
  }

  lemma RoomIs(h: Heap, k: nat)
    ensures NoRoom(h, k) ==> AllFull(h, k)
  {
  }

  lemma TookNew(h: Heap, w: Heap, k: nat, x: nat, s: nat, new': nat)
    requires BuddySpec.Inv(h.pool) && GetPages(h.pool, SLAB_CHUNK).1.Some? && k < |h.chains| && AllFull(h, k)
    requires var n := WithNewSlab(h, k);
      && new' !in h.slabs && new' in n.slabs && n.slabs == h.slabs[new' := n.slabs[new']]
      && s in n.slabs && n.slabs[s].order == k && n.slabs[s].free != [] && w == Pop(n, s) && x == n.slabs[s].free[0]
    ensures Took(h, w, k, x, s)
  {
    hide BuddySpec.Inv, GetPages, WithNewSlab, Pop;
    assert s == new';
  }

  lemma TookOld(h: Heap, w: Heap, k: nat, x: nat, s: nat)
    requires BuddySpec.Inv(h.pool) && s in h.slabs && h.slabs[s].order == k && h.slabs[s].free != []
    requires w == Pop(h, s) && x == h.slabs[s].free[0] && FirstRoom(h, k, s)
    ensures Took(h, w, k, x, s)
  {
    hide BuddySpec.Inv, Pop, FirstRoom;
  }

  lemma SlotBounds(s: nat, k: nat, i: nat)
    requires SLAB_MIN_ORDER <= k <= SLAB_MAX_ORDER && i < SLAB_BYTES / Pow2(k) - 1
    ensures s + 32 <= SlotAt(s, Pow2(k), i) < s + SLAB_BYTES
  {
    SlotCounts(k);
    SlotSizes(k);
    hide Pow2;
    SlotFits(s, Pow2(k), SLAB_BYTES / Pow2(k), i);
    MulMono(1, i + 1, Pow2(k));
  }

  lemma EarlierSlots(s: nat, m: nat, i: nat)
    requires m > 0
    ensures forall j: nat :: j < i ==> SlotAt(s, m, j) < SlotAt(s, m, i)
  {
    hide SlotAt;
    forall j: nat | j < i ensures SlotAt(s, m, j) < SlotAt(s, m, i) {
      SlotAtGrows(s, m, j, i);
    }
  }

  lemma ThreadedSlots(mem: Words, s: nat, k: nat)
    requires SLAB_MIN_ORDER <= k <= SLAB_MAX_ORDER && SLAB_BYTES / Pow2(k) >= 1024
    requires Word(mem, s) == SlotAt(s, Pow2(k), 0) && Word(mem, s + 16) == k
    requires forall j: nat :: j < SLAB_BYTES / Pow2(k) - 2
                              ==> Word(mem, SlotAt(s, Pow2(k), j)) == SlotAt(s, Pow2(k), j + 1)
    requires Word(mem, SlotAt(s, Pow2(k), SLAB_BYTES / Pow2(k) - 2)) == 0
    ensures forall p :: SlabThreaded(mem, s, Slab(p, k, AllSlots(s, k)))
  {
    hide Pow2, SlotAt, Word;
    var l := AllSlots(s, k);
    assert |l| == SLAB_BYTES / Pow2(k) - 1;
    forall i | 0 <= i < |l| ensures Word(mem, l[i]) == Elem(l, i + 1) {
      assert l[i] == SlotAt(s, Pow2(k), i);
    }
    assert l[0] == SlotAt(s, Pow2(k), 0);
  }

  /** The buddy allocator has no chunk for a slab. */
  ghost predicate NoChunkLeft(h: Heap) {
    BuddySpec.Inv(h.pool) && GetPages(h.pool, SLAB_CHUNK).1.None?
  }

  lemma NoChunk(h: Heap)
    requires BuddySpec.Inv(h.pool) && GetPages(h.pool, SLAB_CHUNK).1.None?
    ensures NoChunkLeft(h)
  {
  }

  lemma IsFirstRoom(h: Heap, k: nat, i: nat)
    requires k < |h.chains| && i < |h.chains[k]|
    requires forall j :: 0 <= j < i ==> h.chains[k][j] in h.slabs && h.slabs[h.chains[k][j]].free == []
    ensures FirstRoom(h, k, h.chains[k][i])
  {
    assert FullBefore(h, k, i);
  }

  lemma ThreadedHeader(h: Heap, heads: seq<nat>, mem: Words, s: nat)
    requires Threaded(h, heads, mem) && s in h.slabs
    ensures Word(mem, s) == Elem(h.slabs[s].free, 0) && Word(mem, s + 16) == h.slabs[s].order
  {
    hide ChainThreaded, Word, Elem;
    assert SlabThreaded(mem, s, h.slabs[s]);
  }
}
