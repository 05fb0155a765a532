/** The blocks that kmalloc hands out, and how each step changes them. */
module SlabBlocks {
  import opened Bits
  import opened Rings
  import opened BuddySpec
  import opened BuddyTheory
  import opened BuddyCount
  import opened SlabSpec
  import opened SlabSteps

  // ---------- the slots of a new slab ----------

  /** size / obj_size - 1 */
  function SlotCount(k: nat): nat {
    if SLAB_BYTES / Pow2(k) >= 1 then SLAB_BYTES / Pow2(k) - 1 else 0
  }

  function SlotAt(s: nat, m: nat, i: nat): nat {
    s + (i + 1) * m
  }

  function AllSlots(s: nat, k: nat): (r: seq<nat>) {
    seq(SlotCount(k), i requires i >= 0 => SlotAt(s, Pow2(k), i))
  }

  lemma SlotCounts(k: nat)
    requires SLAB_MIN_ORDER <= k <= SLAB_MAX_ORDER
    ensures SLAB_BYTES / Pow2(k) >= 1024 && (SLAB_BYTES / Pow2(k)) * Pow2(k) == SLAB_BYTES
  {
    assert Pow2(5) == 32 && Pow2(6) == 64 && Pow2(7) == 128 && Pow2(8) == 256;
    assert Pow2(9) == 512 && Pow2(10) == 1024 && Pow2(11) == 2048;
    if k == 5 {} else if k == 6 {} else if k == 7 {} else if k == 8 {} else if k == 9 {} else if k == 10 {} else {}
  }

  lemma SlotAtIsSlot(s: nat, k: nat, i: nat)
    requires SLAB_MIN_ORDER <= k <= SLAB_MAX_ORDER && i < SLAB_BYTES / Pow2(k) - 1
    ensures IsSlot(k, s, SlotAt(s, Pow2(k), i))
  {
    SlotCounts(k);
    AlignedIff((i + 1) * Pow2(k), k);
    hide Pow2, Aligned;
    SlotFits(s, Pow2(k), SLAB_BYTES / Pow2(k), i);
  }

  lemma SlotFits(s: nat, m: nat, c: nat, i: nat)
    requires m > 0 && i + 1 < c
    ensures SlotAt(s, m, i) - s == (i + 1) * m > 0 && ((i + 1) * m) % m == 0 && SlotAt(s, m, i) + m <= s + c * m
  {
    DivUnique((i + 1) * m, m, i + 1, 0);
    MulAtLeast(i + 1, m);
    MulMono(i + 2, c, m);
  }

  lemma SlotIsListed(s: nat, k: nat, x: nat)
    requires SLAB_MIN_ORDER <= k <= SLAB_MAX_ORDER && IsSlot(k, s, x)
    ensures x in AllSlots(s, k)
  {
    SlotCounts(k);
    AlignedIff(x - s, k);
    hide Pow2, Aligned, AllSlots, SlotAt;
    NumberOf(s, x, Pow2(k), SLAB_BYTES / Pow2(k));
    Listed(s, k, (x - s) / Pow2(k) - 1);
  }

  lemma Listed(s: nat, k: nat, i: nat)
    requires i < SlotCount(k)
    ensures SlotAt(s, Pow2(k), i) in AllSlots(s, k)
  {
    hide Pow2, SlotCount, SlotAt;
    assert AllSlots(s, k)[i] == SlotAt(s, Pow2(k), i);
  }

  lemma NumberOf(s: nat, x: nat, m: nat, c: nat)
    requires m > 0 && s < x && (x - s) % m == 0 && x + m <= s + c * m
    ensures 1 <= (x - s) / m < c && SlotAt(s, m, (x - s) / m - 1) == x
  {
    var q := (x - s) / m;
    assert x - s == q * m;
    SlotNumber(q, m, c);
  }

  lemma SlotNumber(q: nat, m: nat, c: nat)
    requires m > 0 && q * m > 0 && q * m + m <= c * m
    ensures 1 <= q < c
  {
    if c <= q {
      MulMono(c, q, m);
      assert false;
    }
  }

  lemma SlotAtGrows(s: nat, m: nat, i: nat, j: nat)
    requires m > 0 && i < j
    ensures SlotAt(s, m, i) + m <= SlotAt(s, m, j)
  {
    MulAtLeast(j - i, m);
    assert (j - i) * m == (j + 1) * m - (i + 1) * m;
  }

  lemma AllSlotsOk(s: nat, k: nat)
    requires SLAB_MIN_ORDER <= k <= SLAB_MAX_ORDER
    ensures Distinct(AllSlots(s, k)) && |AllSlots(s, k)| == SLAB_BYTES / Pow2(k) - 1 >= 1023
    ensures forall x :: x in AllSlots(s, k) <==> IsSlot(k, s, x)
  {
    SlotCounts(k);
    hide Pow2, IsSlot, SlotAt;
    var l := AllSlots(s, k);
    forall i, j | 0 <= i < j < |l| ensures l[i] != l[j] {
      SlotAtGrows(s, Pow2(k), i, j);
    }
    forall x: nat ensures x in l <==> IsSlot(k, s, x) {
      if x in l {
        var i :| 0 <= i < |l| && l[i] == x;
        SlotAtIsSlot(s, k, i);
      }
      if IsSlot(k, s, x) { SlotIsListed(s, k, x); }
    }
    IsSlotNat(k, s);
  }

  lemma IsSlotNat(k: nat, s: nat)
    ensures forall x: nat :: IsSlot(k, s, x) ==> x > s
  {
  }

  // ---------- steps, as changes of the blocks in use ----------

  /** From h to w exactly block q came into use. */
  ghost predicate Gained(h: Heap, w: Heap, q: Part) {
    && !UserBlock(h, q) && UserBlock(w, q)
    && forall r: Part :: r != q ==> (UserBlock(w, r) <==> UserBlock(h, r))
  }

  /** Changing one free list changes only the slots of that slab. */
  lemma RefillBlocks(h: Heap, s: nat, free: seq<nat>, r: Part)
    requires s in h.slabs
    ensures UserBlock(Refill(h, s, free), r)
       <==> if r.Slot? && r.slab == s then IsSlot(h.slabs[s].order, s, r.addr) && r.addr !in free else UserBlock(h, r)
  {
    hide IsSlot;
    if r.Large? { RefillLarge(h, s, free, r.page); }
  }

  lemma RefillLarge(h: Heap, s: nat, free: seq<nat>, p: nat)
    requires s in h.slabs
    ensures UserBlock(Refill(h, s, free), Large(p)) <==> UserBlock(h, Large(p))
  {
    var w := Refill(h, s, free);
    hide Outstanding;
    assert forall t :: t in h.slabs <==> t in w.slabs;
    assert forall t :: t in h.slabs ==> w.slabs[t].page == h.slabs[t].page;
  }

  lemma RefillGained(h: Heap, s: nat, more: seq<nat>, less: seq<nat>, x: nat)
    requires s in h.slabs && IsSlot(h.slabs[s].order, s, x)
    requires x in more && x !in less && forall y :: y != x ==> (y in more <==> y in less)
    ensures Gained(Refill(h, s, more), Refill(h, s, less), Slot(s, x))
  {
    hide UserBlock, Refill, IsSlot;
    RefillBlocks(h, s, more, Slot(s, x));
    RefillBlocks(h, s, less, Slot(s, x));
    forall r: Part | r != Slot(s, x) ensures UserBlock(Refill(h, s, less), r) <==> UserBlock(Refill(h, s, more), r) {
      RefillBlocks(h, s, more, r);
      RefillBlocks(h, s, less, r);
    }
  }

  lemma PopGains(h: Heap, s: nat)
    requires HeapInv(h) && s in h.slabs && h.slabs[s].free != []
    ensures Gained(h, Pop(h, s), Slot(s, h.slabs[s].free[0]))
  {
    hide HeapInv, Gained, IsSlot;
    var l := h.slabs[s].free;
    FirstSlot(h, s);
    TailMembers(l);
    RefillGained(h, s, l, l[1..], l[0]);
    assert Refill(h, s, l) == h;
  }

  lemma FirstSlot(h: Heap, s: nat)
    requires HeapInv(h) && s in h.slabs && h.slabs[s].free != []
    ensures Distinct(h.slabs[s].free) && IsSlot(h.slabs[s].order, s, h.slabs[s].free[0])
  {
    assert SlabOk(h, s, h.slabs[s]);
    assert h.slabs[s].free[0] in h.slabs[s].free;
  }

  lemma TailMembers(l: seq<nat>)
    requires l != [] && Distinct(l)
    ensures l[0] in l && l[0] !in l[1..] && forall y :: y != l[0] ==> (y in l <==> y in l[1..])
  {
    assert l == [l[0]] + l[1..];
  }

  lemma PushGives(h: Heap, s: nat, x: nat)
    requires HeapInv(h) && s in h.slabs && IsSlot(h.slabs[s].order, s, x) && x !in h.slabs[s].free
    ensures Gained(PushSlot(h, s, x), h, Slot(s, x))
  {
    hide Gained, HeapInv;
    RefillGained(h, s, [x] + h.slabs[s].free, h.slabs[s].free, x);
    assert Refill(h, s, h.slabs[s].free) == h;
  }

  /** A new slab alone brings no block into use: its chunk is a slab and all its slots are free. */
  lemma AddKeepsBlocks(h: Heap, pool: Pool, p: nat, order: nat, free: seq<nat>, r: Part)
    requires CanAdd(h, pool, p, order, free) && order < |h.chains|
    requires forall x :: IsSlot(order, h.start + p * PAGE_BYTES, x) ==> x in free
    ensures UserBlock(AddSlab(h, pool, p, order, free), r) <==> UserBlock(h, r)
  {
    hide *;
    var s := h.start + p * PAGE_BYTES;
    AddFresh(h, pool, p, order, free);
    AddedSlab(h, pool, p, order, free);
    AddedPool(h, pool, p, order, free);
    var w := AddSlab(h, pool, p, order, free);
    match r
    case Slot(t, x) => NewSlot(h, w, s, p, order, free, t, x);
    case Large(q) => NewLarge(h, w, s, p, q);
    case Header(t) => NoUser(h, w, r);
    case FreeChunk(q) => NoUser(h, w, r);
  }

  lemma AddedPool(h: Heap, pool: Pool, p: nat, order: nat, free: seq<nat>)
    requires CanAdd(h, pool, p, order, free) && order < |h.chains|
    ensures AddSlab(h, pool, p, order, free).pool == pool && p !in Outstanding(h.pool)
    ensures Outstanding(pool) == Outstanding(h.pool)[p := SLAB_CHUNK]
  {
  }

  lemma NoUser(h: Heap, w: Heap, r: Part)
    requires r.Header? || r.FreeChunk?
    ensures !UserBlock(h, r) && !UserBlock(w, r)
  {
  }

  lemma NewSlot(h: Heap, w: Heap, s: nat, p: nat, order: nat, free: seq<nat>, t: nat, x: nat)
    requires s !in h.slabs && w.slabs == h.slabs[s := Slab(p, order, free)]
    requires forall y :: IsSlot(order, s, y) ==> y in free
    ensures UserBlock(w, Slot(t, x)) <==> UserBlock(h, Slot(t, x))
  {
    hide IsSlot;
  }

  lemma NewLarge(h: Heap, w: Heap, s: nat, p: nat, q: nat)
    requires s in w.slabs && w.slabs[s].page == p && p !in Outstanding(h.pool) && s !in h.slabs
    requires Outstanding(w.pool) == Outstanding(h.pool)[p := SLAB_CHUNK]
    requires w.slabs == h.slabs[s := w.slabs[s]]
    ensures UserBlock(w, Large(q)) <==> UserBlock(h, Large(q))
  {
    InUseNow(h.pool, q);
    InUseNow(w.pool, q);
    hide Outstanding;
    assert forall t :: t in h.slabs ==> t in w.slabs && w.slabs[t] == h.slabs[t];
    assert forall t :: t in w.slabs ==> t == s || (t in h.slabs && w.slabs[t] == h.slabs[t]);
    if q == p { assert w.slabs[s].page == q; }
  }

  /** get_pages for a large block. */
  lemma GetGains(h: Heap, pool: Pool, p: nat, order: nat)
    requires HeapInv(h) && BuddySpec.Inv(pool) && p !in Outstanding(h.pool) && pool.n == h.pool.n
    requires Outstanding(pool) == Outstanding(h.pool)[p := order]
    ensures HeapInv(h.(pool := pool)) && Gained(h, h.(pool := pool), Large(p))
  {
    var w := h.(pool := pool);
    hide BuddySpec.Inv, Outstanding;
    forall s | s in w.slabs ensures SlabOk(w, s, w.slabs[s]) && w.slabs[s].page != p {
      assert SlabOk(h, s, h.slabs[s]);
    }
    forall r: Part ensures r != Large(p) ==> (UserBlock(w, r) <==> UserBlock(h, r)) {
      if r.Large? {
        InUseNow(h.pool, r.page);
        InUseNow(w.pool, r.page);
      }
    }
    InUseNow(h.pool, p);
    InUseNow(w.pool, p);
  }

  lemma FreeGives(h: Heap, pool: Pool, p: nat)
    requires HeapInv(h) && BuddySpec.Inv(pool) && UserBlock(h, Large(p)) && pool.n == h.pool.n
    requires Outstanding(pool) == Outstanding(h.pool) - {p}
    ensures HeapInv(h.(pool := pool)) && Gained(h.(pool := pool), h, Large(p))
  {
    var w := h.(pool := pool);
    hide BuddySpec.Inv, Outstanding;
    forall s | s in w.slabs ensures SlabOk(w, s, w.slabs[s]) && w.slabs[s].page != p {
      assert SlabOk(h, s, h.slabs[s]);
    }
    forall r: Part ensures r != Large(p) ==> (UserBlock(w, r) <==> UserBlock(h, r)) {
      if r.Large? {
        InUseNow(h.pool, r.page);
        InUseNow(w.pool, r.page);
      }
    }
    InUseNow(h.pool, p);
    InUseNow(w.pool, p);
  }

  // ---------- page->slab ----------

  lemma MarkedSame(h: Heap, w: Heap, marks: seq<nat>)
    requires Marked(h, marks) && h.pool.n == w.pool.n
    requires forall s :: s in h.slabs <==> s in w.slabs
    requires forall s :: s in h.slabs ==> h.slabs[s].page == w.slabs[s].page
    ensures Marked(w, marks)
  {
  }

  lemma MarkedAdd(h: Heap, pool: Pool, p: nat, order: nat, free: seq<nat>, marks: seq<nat>, marks': seq<nat>)
    requires CanAdd(h, pool, p, order, free) && Marked(h, marks) && pool.n == h.pool.n && |marks'| == |marks|
    requires order < |h.chains|
    requires forall i :: 0 <= i < |marks| ==>
               marks'[i] == if p <= i < p + SLAB_PAGES then h.start + p * PAGE_BYTES else marks[i]
    ensures Marked(AddSlab(h, pool, p, order, free), marks')
  {
    hide *;
    AddFresh(h, pool, p, order, free);
    AddInv(h, pool, p, order, free);
    AddedSlab(h, pool, p, order, free);
    AddedPool(h, pool, p, order, free);
    var s := h.start + p * PAGE_BYTES;
    var w := AddSlab(h, pool, p, order, free);
    forall t | t in h.slabs ensures NoCommonPage(w.slabs[t], w.slabs[s]) {
      SlabPagesApart(w, s, t);
    }
    PositiveStart(h);
    MarkedMore(h, w, s, marks, marks');
  }

  ghost predicate NoCommonPage(a: Slab, b: Slab) {
    forall i :: InSlab(a, i) ==> !InSlab(b, i)
  }

  lemma PositiveStart(h: Heap)
    requires HeapInv(h)
    ensures h.start > 0
  {
  }

  lemma MarkedMore(h: Heap, w: Heap, s: nat, marks: seq<nat>, marks': seq<nat>)
    requires Marked(h, marks) && w.pool.n == h.pool.n
    requires s !in h.slabs && s in w.slabs && w.slabs == h.slabs[s := w.slabs[s]]
    requires |marks'| == |marks| && s > 0
    requires forall t :: t in h.slabs ==> NoCommonPage(w.slabs[t], w.slabs[s])
    requires forall i :: 0 <= i < |marks| ==>
               marks'[i] == if w.slabs[s].page <= i < w.slabs[s].page + SLAB_PAGES then s else marks[i]
    ensures Marked(w, marks')
  {
  }

  lemma SlabPagesApart(w: Heap, s: nat, t: nat)
    requires HeapInv(w) && s in w.slabs && t in w.slabs && s != t
    ensures NoCommonPage(w.slabs[t], w.slabs[s])
  {
    assert SlabOk(w, s, w.slabs[s]) && SlabOk(w, t, w.slabs[t]);
    if w.slabs[s].page == w.slabs[t].page { SlabsDiffer(w, s, t); }
    SlabPow();
    hide Pow2;
    if w.slabs[s].page < w.slabs[t].page { InUseApart(w.pool, w.slabs[s].page, w.slabs[t].page); }
    else { InUseApart(w.pool, w.slabs[t].page, w.slabs[s].page); }
  }

  /** kfree picks the right allocator: a slot's page is marked with its slab ... */
  lemma SlotMarked(h: Heap, marks: seq<nat>, s: nat, x: nat)
    requires HeapInv(h) && Marked(h, marks) && s in h.slabs && IsSlot(h.slabs[s].order, s, x)
    ensures h.start <= x < h.start + h.pool.n * PAGE_BYTES
    ensures (x - h.start) / PAGE_BYTES < |marks| && marks[(x - h.start) / PAGE_BYTES] == s != 0
  {
    var b := h.slabs[s];
    assert SlabOk(h, s, b);
    SlabPow();
    InUseHead(h.pool, b.page);
    SlotSizes(b.order);
    hide Pow2, HeapInv, Aligned;
    assert b.page * PAGE_BYTES < x - h.start < (b.page + SLAB_PAGES) * PAGE_BYTES;
    assert InSlab(b, (x - h.start) / PAGE_BYTES);
  }

  /** ... and the first page of a larger block is not marked. */
  lemma LargeUnmarked(h: Heap, marks: seq<nat>, p: nat)
    requires HeapInv(h) && Marked(h, marks) && PartOk(h, Large(p))
    ensures p < |marks| && marks[p] == 0
  {
    InUseHead(h.pool, p);
    if marks[p] != 0 {
      var s := marks[p];
      assert SlabOk(h, s, h.slabs[s]);
      SlabPow();
      InUseApart(h.pool, h.slabs[s].page, p);
      assert false;
    }
  }
}
