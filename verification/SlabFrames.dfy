/** What each step leaves alone: the places of the blocks that stay in use, and the words in them. */
module SlabFrames {
  import opened Bits
  import opened BuddySpec
  import opened BuddyTheory
  import opened SlabSpec
  import opened SlabSteps
  import opened SlabBlocks
  import opened KmallocSpec

  // ---------- places ----------

  lemma SameFrame(h: Heap)
    ensures Extends(h, h)
  {
  }

  lemma BlockReads(h: Heap, q: Part)
    requires UserBlock(h, q)
    ensures q.Slot? || q.Large?
    ensures q.Slot? ==> q.slab in h.slabs && Lo(h, q) == q.addr && Hi(h, q) == q.addr + Pow2(h.slabs[q.slab].order)
    ensures q.Large? ==>
      && q.page in Outstanding(h.pool) && Lo(h, q) == h.start + q.page * PAGE_BYTES
      && Hi(h, q) == h.start + (q.page + Pow2(Outstanding(h.pool)[q.page])) * PAGE_BYTES
  {
    hide Pow2;
  }

  /** w has the slabs and the chunks in use of h, and perhaps more. */
  ghost predicate Extends(h: Heap, w: Heap) {
    && w.start == h.start
    && (forall s :: s in h.slabs && s in w.slabs ==> w.slabs[s].order == h.slabs[s].order)
    && (forall p :: p in Outstanding(h.pool) && p in Outstanding(w.pool)
                    ==> Outstanding(w.pool)[p] == Outstanding(h.pool)[p])
  }

  lemma RefillFrame(h: Heap, w: Heap, s: nat, x: nat)
    requires s in h.slabs && w == PushSlot(h, s, x)
    ensures Extends(h, w)
  {
  }

  lemma PopFrame(h: Heap, s: nat)
    requires s in h.slabs && h.slabs[s].free != []
    ensures Extends(h, Pop(h, s))
  {
  }

  lemma TookFrame(h: Heap, w: Heap, k: nat, x: nat, s: nat)
    requires HeapInv(h) && Took(h, w, k, x, s) && SLAB_MIN_ORDER <= k <= SLAB_MAX_ORDER
    ensures Extends(h, w)
  {
    hide *;
    TookIs(h, w, k, x, s);
    if !AllFull(h, k) {
      PopFrame(h, s);
    } else {
      var n := WithNewSlab(h, k);
      PopFrame(n, s);
      NewSlabFrame(h, k);
      ExtendsTwice(h, n, w);
    }
  }

  lemma NewSlabFrame(h: Heap, k: nat)
    requires HeapInv(h) && BuddySpec.Inv(h.pool) && GetPages(h.pool, SLAB_CHUNK).1.Some?
    requires SLAB_MIN_ORDER <= k <= SLAB_MAX_ORDER
    ensures k < |h.chains| && Grows(h, WithNewSlab(h, k)) && Extends(h, WithNewSlab(h, k))
  {
    hide HeapInv, BuddySpec.Inv, GetPages, Outstanding, AllSlots;
    NewSlabShape(h, k);
    GetCorrect(h.pool, SLAB_CHUNK);
  }

  /** w has all that h has. */
  ghost predicate Grows(h: Heap, w: Heap) {
    && Extends(h, w)
    && (forall s :: s in h.slabs ==> s in w.slabs)
    && (forall p :: p in Outstanding(h.pool) ==> p in Outstanding(w.pool))
  }

  lemma ExtendsTwice(h: Heap, n: Heap, w: Heap)
    requires Grows(h, n) && Extends(n, w)
    ensures Extends(h, w)
    ensures Grows(n, w) ==> Grows(h, w)
  {
    hide Outstanding;
  }

  lemma GrowsSame(h: Heap)
    ensures Grows(h, h)
  {
  }

  /** A block in use before and after has the same place and size. */
  lemma SameExtent(h: Heap, w: Heap, q: Part)
    requires Extends(h, w) && UserBlock(h, q) && UserBlock(w, q)
    ensures Lo(w, q) == Lo(h, q) && Hi(w, q) == Hi(h, q)
  {
    hide UserBlock, Lo, Hi, Pow2, Outstanding;
    BlockReads(h, q);
    BlockReads(w, q);
  }

  lemma WordStays(h: Heap, w: Heap, q: Part, y: nat)
    requires Extends(h, w) && WordInBlock(h, q, y) && UserBlock(w, q)
    ensures WordInBlock(w, q, y)
  {
    hide Extends, UserBlock, Lo, Hi;
    SameExtent(h, w, q);
  }

  // ---------- words ----------

  lemma WordsAre(h: Heap, w: Heap, mem: Words, mem': Words)
    requires forall q: Part, y: nat :: WordInBlock(h, q, y) && UserBlock(w, q) ==> Word(mem', y) == Word(mem, y)
    ensures WordsKept(h, w, mem, mem')
  {
    hide WordInBlock, UserBlock, Word;
  }

  lemma SameWords(h: Heap, w: Heap, mem: Words)
    ensures WordsKept(h, w, mem, mem)
  {
    hide WordInBlock, UserBlock, Word;
  }

  /** Two steps after one another, of which the first takes no block out of use. */
  lemma WordsKeptTwice(h: Heap, n: Heap, w: Heap, mem: Words, mem1: Words, mem2: Words)
    requires Grows(h, n) && forall q: Part :: UserBlock(h, q) ==> UserBlock(n, q)
    requires WordsKept(h, n, mem, mem1) && WordsKept(n, w, mem1, mem2)
    ensures WordsKept(h, w, mem, mem2)
  {
    hide WordInBlock, UserBlock, Word, Extends, Outstanding;
    forall q: Part, y: nat | WordInBlock(h, q, y) && UserBlock(w, q) ensures Word(mem2, y) == Word(mem, y) {
      InUseIs(h, q, y);
      WordStays(h, n, q, y);
    }
  }

  lemma InUseIs(h: Heap, q: Part, y: nat)
    requires WordInBlock(h, q, y)
    ensures UserBlock(h, q)
  {
  }

  /** A block in use lies outside the chunk of a slab that is added. */
  lemma OutsideSlab(w: Heap, s: nat, q: Part, y: nat)
    requires HeapInv(w) && s in w.slabs && WordInBlock(w, q, y) && PageOf(w, q) != w.slabs[s].page
    ensures !(s <= y < s + SLAB_BYTES)
  {
    hide *;
    SlabExtent(w, s);
    InUseIs(w, q, y);
    BlockIsPart(w, q);
    PartInChunk(w, q);
    WordBounds(w, q, y);
    var p, m := w.slabs[s].page, PageOf(w, q);
    if m < p { ChunksApart(w, m, p); } else { ChunksApart(w, p, m); }
  }

  lemma SlabExtent(w: Heap, s: nat)
    requires HeapInv(w) && s in w.slabs
    ensures w.slabs[s].page in w.pool.chunks && s == w.start + w.slabs[s].page * PAGE_BYTES
    ensures w.start + (w.slabs[s].page + Pow2(w.pool.chunks[w.slabs[s].page].order)) * PAGE_BYTES == s + SLAB_BYTES
  {
    assert SlabOk(w, s, w.slabs[s]);
    SlabPow();
    InUseNow(w.pool, w.slabs[s].page);
    hide Pow2;
  }

  lemma WordBounds(w: Heap, q: Part, y: nat)
    requires WordInBlock(w, q, y)
    ensures Lo(w, q) <= y < Hi(w, q)
  {
  }

  /** No block in use lies in the chunk of a slab whose slots are all free. */
  lemma NoBlockInside(w: Heap, s: nat, q: Part)
    requires HeapInv(w) && s in w.slabs && UserBlock(w, q)
    requires forall x :: IsSlot(w.slabs[s].order, s, x) ==> x in w.slabs[s].free
    ensures q.Large? || (q.Slot? && q.slab in w.slabs)
    ensures PageOf(w, q) != w.slabs[s].page
  {
    if q.Slot? && w.slabs[q.slab].page == w.slabs[s].page { SlabsDiffer(w, q.slab, s); }
  }

  /** Words written only inside a new slab are in no block in use. */
  lemma NewSlabWords(h: Heap, k: nat, mem: Words, mem': Words)
    requires HeapInv(h) && BuddySpec.Inv(h.pool) && GetPages(h.pool, SLAB_CHUNK).1.Some?
    requires SLAB_MIN_ORDER <= k <= SLAB_MAX_ORDER
    requires var s := h.start + GetPages(h.pool, SLAB_CHUNK).1.value * PAGE_BYTES;
      forall y: nat :: !(s <= y < s + SLAB_BYTES) ==> Word(mem', y) == Word(mem, y)
    ensures k < |h.chains| && WordsKept(h, WithNewSlab(h, k), mem, mem')
  {
    hide *;
    NewSlabInv(h, k);
    NewSlabShape(h, k);
    var w := WithNewSlab(h, k);
    var s := h.start + GetPages(h.pool, SLAB_CHUNK).1.value * PAGE_BYTES;
    AllSlotsOk(s, k);
    NewSlabFrame(h, k);
    forall q: Part, y: nat | WordInBlock(h, q, y) && UserBlock(w, q) ensures Word(mem', y) == Word(mem, y) {
      WordStays(h, w, q, y);
      NoBlockInside(w, s, q);
      OutsideSlab(w, s, q, y);
    }
    WordsAre(h, w, mem, mem');
  }

  /** A new slab, and then whatever the next step does. */
  lemma NewSlabThenWords(h: Heap, w: Heap, k: nat, mem: Words, mem1: Words, mem2: Words)
    requires HeapInv(h) && BuddySpec.Inv(h.pool) && GetPages(h.pool, SLAB_CHUNK).1.Some?
    requires SLAB_MIN_ORDER <= k <= SLAB_MAX_ORDER && k < |h.chains|
    requires WordsKept(h, WithNewSlab(h, k), mem, mem1) && WordsKept(WithNewSlab(h, k), w, mem1, mem2)
    ensures WordsKept(h, w, mem, mem2)
  {
    hide *;
    NewSlabFrame(h, k);
    forall q: Part ensures UserBlock(h, q) ==> UserBlock(WithNewSlab(h, k), q) { NewSlabBlocks(h, k, q); }
    WordsKeptTwice(h, WithNewSlab(h, k), w, mem, mem1, mem2);
  }
}
