/** The steps of the slab allocator, a user's write and the steps of the buddy
    allocator, and that each keeps the heap and its representation in memory. */
module SlabSteps {
  import opened Bits
  import opened Rings
  import opened BuddySpec
  import opened BuddyTheory
  import opened SlabSpec

  // ---------- which words are which ----------

  lemma HeadersDiffer(h: Heap, s: nat, t: nat)
    requires HeapInv(h) && s in h.slabs && t in h.slabs
    ensures s != t + 8 && s != t + 16 && s + 8 != t + 16
  {
    assert SlabOk(h, s, h.slabs[s]) && SlabOk(h, t, h.slabs[t]);
    SlotSizes(h.slabs[s].order);
    SlotSizes(h.slabs[t].order);
    hide HeapInv, SlabOk;
    if s != t { PartsApart(h, Header(s), Header(t)); }
  }

  lemma SlotIsNoHeader(h: Heap, s: nat, x: nat, t: nat, e: nat)
    requires HeapInv(h) && s in h.slabs && IsSlot(h.slabs[s].order, s, x) && t in h.slabs && e <= 16
    ensures x != t + e
  {
    assert SlabOk(h, s, h.slabs[s]) && SlabOk(h, t, h.slabs[t]);
    SlotSizes(h.slabs[s].order);
    SlotSizes(h.slabs[t].order);
    PartsApart(h, Slot(s, x), Header(t));
  }

  lemma SlotOfOne(h: Heap, s: nat, x: nat, t: nat)
    requires HeapInv(h) && s in h.slabs && IsSlot(h.slabs[s].order, s, x)
    requires t in h.slabs && IsSlot(h.slabs[t].order, t, x)
    ensures s == t
  {
    assert SlabOk(h, s, h.slabs[s]) && SlabOk(h, t, h.slabs[t]);
    SlotSizes(h.slabs[s].order);
    SlotSizes(h.slabs[t].order);
    if s != t { PartsApart(h, Slot(s, x), Slot(t, x)); }
  }

  /** y is a word of slab t's bookkeeping: a header word or the link in a free slot. */
  predicate Owns(h: Heap, t: nat, y: nat)
    requires t in h.slabs
  {
    y == t || y == t + 8 || y == t + 16 || y in h.slabs[t].free
  }

  /** A slab none of whose words were written stays threaded. */
  lemma KeepSlab(h: Heap, mem: Words, mem': Words, t: nat)
    requires t in h.slabs && SlabThreaded(mem, t, h.slabs[t])
    requires forall y :: Owns(h, t, y) ==> Word(mem', y) == Word(mem, y)
    ensures SlabThreaded(mem', t, h.slabs[t])
  {
    assert Owns(h, t, t) && Owns(h, t, t + 16);
    forall i | 0 <= i < |h.slabs[t].free| ensures Word(mem', h.slabs[t].free[i]) == Elem(h.slabs[t].free, i + 1) {
      assert Owns(h, t, h.slabs[t].free[i]);
    }
  }

  /** Writing words that only slab s owns, and not its chain link, keeps everything else threaded. */
  lemma Rethread(h: Heap, heads: seq<nat>, mem: Words, mem': Words, s: nat, b: Slab)
    requires HeapInv(h) && Threaded(h, heads, mem) && s in h.slabs && SlabThreaded(mem', s, b)
    requires forall t, y :: t in h.slabs && Owns(h, t, y) && (t != s || y == t + 8) ==> Word(mem', y) == Word(mem, y)
    ensures Threaded(h.(slabs := h.slabs[s := b]), heads, mem')
  {
    hide HeapInv, SlabThreaded, ChainThreaded, Word;
    forall t | t in h.slabs && t != s ensures SlabThreaded(mem', t, h.slabs[t]) {
      assert SlabThreaded(mem, t, h.slabs[t]);
      KeepSlab(h, mem, mem', t);
    }
    forall t | t in h.slabs ensures Word(mem', t + 8) == Word(mem, t + 8) {
      assert Owns(h, t, t + 8);
    }
    KeepChains(h, heads, mem, mem');
  }

  lemma ChainMember(slabs: map<nat, Slab>, chains: seq<seq<nat>>, k: nat, i: nat)
    requires ChainsOk(slabs, chains) && k < |chains| && i < |chains[k]|
    ensures chains[k][i] in slabs && slabs[chains[k][i]].order == k
  {
    assert chains[k][i] in chains[k];
  }

  lemma KeepChain(h: Heap, mem: Words, mem': Words, head: nat, k: nat)
    requires ChainsOk(h.slabs, h.chains) && k < |h.chains| && ChainThreaded(mem, head, h.chains[k])
    requires forall t :: t in h.slabs ==> Word(mem', t + 8) == Word(mem, t + 8)
    ensures ChainThreaded(mem', head, h.chains[k])
  {
    hide ChainsOk, Word;
    forall i: nat | i < |h.chains[k]| ensures Word(mem', h.chains[k][i] + 8) == Elem(h.chains[k], i + 1) {
      ChainMember(h.slabs, h.chains, k, i);
    }
  }

  lemma KeepChains(h: Heap, heads: seq<nat>, mem: Words, mem': Words)
    requires HeapInv(h) && Threaded(h, heads, mem)
    requires forall t :: t in h.slabs ==> Word(mem', t + 8) == Word(mem, t + 8)
    ensures forall k :: 0 <= k < |h.chains| ==> ChainThreaded(mem', heads[k], h.chains[k])
  {
    hide ChainThreaded, SlabThreaded, Word, ChainsOk;
    forall k | 0 <= k < |h.chains| ensures ChainThreaded(mem', heads[k], h.chains[k]) {
      KeepChain(h, mem, mem', heads[k], k);
    }
  }

  // ---------- taking and returning a slot ----------

  function Refill(h: Heap, s: nat, free: seq<nat>): Heap
    requires s in h.slabs
  {
    h.(slabs := h.slabs[s := h.slabs[s].(free := free)])
  }

  lemma RefillInv(h: Heap, s: nat, free: seq<nat>)
    requires HeapInv(h) && s in h.slabs && Distinct(free) && forall x :: x in free ==> IsSlot(h.slabs[s].order, s, x)
    ensures HeapInv(Refill(h, s, free))
  {
    hide BuddySpec.Inv, Outstanding, Distinct, IsSlot;
    var w := Refill(h, s, free);
    forall t | t in w.slabs ensures SlabOk(w, t, w.slabs[t]) {
      assert SlabOk(h, t, h.slabs[t]);
    }
  }

  /** Take the first free slot of slab s. */
  function Pop(h: Heap, s: nat): Heap
    requires s in h.slabs && h.slabs[s].free != []
  {
    Refill(h, s, h.slabs[s].free[1..])
  }

  lemma PopInv(h: Heap, s: nat)
    requires HeapInv(h) && s in h.slabs && h.slabs[s].free != []
    ensures HeapInv(Pop(h, s))
    ensures IsSlot(h.slabs[s].order, s, h.slabs[s].free[0]) && h.slabs[s].free[0] !in Pop(h, s).slabs[s].free
  {
    assert SlabOk(h, s, h.slabs[s]);
    RefillInv(h, s, h.slabs[s].free[1..]);
  }

  lemma PopThreaded(h: Heap, heads: seq<nat>, mem: Words, s: nat)
    requires HeapInv(h) && Threaded(h, heads, mem) && s in h.slabs && h.slabs[s].free != []
    ensures Word(mem, s) == h.slabs[s].free[0]
    ensures Threaded(Pop(h, s), heads, mem[s := Word(mem, h.slabs[s].free[0])])
  {
    hide HeapInv, Threaded, SlabThreaded, Owns;
    var b := h.slabs[s];
    var mem' := mem[s := Word(mem, b.free[0])];
    PoppedSlab(h, heads, mem, s);
    OwnedElsewhere(h, s, s);
    Rethread(h, heads, mem, mem', s, b.(free := b.free[1..]));
  }

  lemma PoppedSlab(h: Heap, heads: seq<nat>, mem: Words, s: nat)
    requires HeapInv(h) && Threaded(h, heads, mem) && s in h.slabs && h.slabs[s].free != []
    ensures Word(mem, s) == h.slabs[s].free[0]
    ensures SlabThreaded(mem[s := Word(mem, h.slabs[s].free[0])], s, h.slabs[s].(free := h.slabs[s].free[1..]))
  {
    hide HeapInv, IsSlot, ChainThreaded;
    var b := h.slabs[s];
    assert SlabThreaded(mem, s, b);
    SlotsOf(h, s);
    SlotIsNoHeader(h, s, b.free[0], s, 16);
    forall i | 0 <= i < |b.free| ensures b.free[i] != s {
      assert b.free[i] in b.free;
      SlotIsNoHeader(h, s, b.free[i], s, 0);
    }
    SlotIsNoHeader(h, s, b.free[0], s, 0);
  }

  /** The first header word, and every slot, belongs to its slab alone, and is nobody's chain link. */
  lemma OwnedElsewhere(h: Heap, s: nat, y: nat)
    requires HeapInv(h) && s in h.slabs && (y == s || IsSlot(h.slabs[s].order, s, y))
    ensures forall t :: t in h.slabs && (t != s || y == t + 8) ==> !Owns(h, t, y)
    ensures y != s + 8 && y != s + 16
  {
    forall t | t in h.slabs && (t != s || y == t + 8) ensures !Owns(h, t, y) {
      assert SlabOk(h, t, h.slabs[t]);
      if y == s {
        HeadersDiffer(h, s, t);
        if y in h.slabs[t].free { SlotIsNoHeader(h, t, y, s, 0); }
      } else {
        SlotIsNoHeader(h, s, y, t, 0);
        SlotIsNoHeader(h, s, y, t, 8);
        SlotIsNoHeader(h, s, y, t, 16);
        if y in h.slabs[t].free { SlotOfOne(h, s, y, t); }
      }
    }
    if y != s {
      SlotIsNoHeader(h, s, y, s, 8);
      SlotIsNoHeader(h, s, y, s, 16);
    }
  }

  /** Put slot x back at the front of the free list of slab s. */
  function PushSlot(h: Heap, s: nat, x: nat): Heap
    requires s in h.slabs
  {
    Refill(h, s, [x] + h.slabs[s].free)
  }

  lemma PushInv(h: Heap, s: nat, x: nat)
    requires HeapInv(h) && s in h.slabs && IsSlot(h.slabs[s].order, s, x) && x !in h.slabs[s].free
    ensures HeapInv(PushSlot(h, s, x))
  {
    assert SlabOk(h, s, h.slabs[s]);
    RefillInv(h, s, [x] + h.slabs[s].free);
  }

  lemma PushThreaded(h: Heap, heads: seq<nat>, mem: Words, s: nat, x: nat)
    requires HeapInv(h) && Threaded(h, heads, mem) && s in h.slabs && IsSlot(h.slabs[s].order, s, x)
    requires x !in h.slabs[s].free
    ensures Threaded(PushSlot(h, s, x), heads, mem[x := Word(mem, s)][s := x])
  {
    hide HeapInv, Threaded, IsSlot, SlabThreaded, Owns;
    var b := h.slabs[s];
    var mem' := mem[x := Word(mem, s)][s := x];
    OwnedElsewhere(h, s, s);
    OwnedElsewhere(h, s, x);
    PushedSlab(h, heads, mem, s, x);
    Rethread(h, heads, mem, mem', s, b.(free := [x] + b.free));
  }

  lemma PushedSlab(h: Heap, heads: seq<nat>, mem: Words, s: nat, x: nat)
    requires HeapInv(h) && Threaded(h, heads, mem) && s in h.slabs && IsSlot(h.slabs[s].order, s, x)
    requires x !in h.slabs[s].free
    ensures SlabThreaded(mem[x := Word(mem, s)][s := x], s, h.slabs[s].(free := [x] + h.slabs[s].free))
  {
    hide HeapInv, IsSlot, ChainThreaded;
    var b := h.slabs[s];
    assert SlabThreaded(mem, s, b);
    SlotsOf(h, s);
    SlotIsNoHeader(h, s, x, s, 0);
    SlotIsNoHeader(h, s, x, s, 16);
    forall i | 0 <= i < |b.free| ensures b.free[i] != s && b.free[i] != x {
      assert b.free[i] in b.free;
      SlotIsNoHeader(h, s, b.free[i], s, 0);
    }
  }

  lemma SlotsOf(h: Heap, s: nat)
    requires HeapInv(h) && s in h.slabs
    ensures forall x :: x in h.slabs[s].free ==> IsSlot(h.slabs[s].order, s, x)
  {
    assert SlabOk(h, s, h.slabs[s]);
  }

  // ---------- a user writes into a block ----------

  /** The word at y lies inside part q.  Words are aligned, so that different words share no byte; parts are made up
      of whole words. */
  ghost predicate WordIn(h: Heap, q: Part, y: nat)
    requires q.Header? || q.Slot? ==> q.slab in h.slabs
    requires q.Large? || q.FreeChunk? ==> q.page in h.pool.chunks
  {
    y % 8 == 0 && Lo(h, q) <= y && y + 8 <= Hi(h, q)
  }

  /** A block in the hands of a user: a slot that is not on the free list, or a chunk that is no slab. */
  ghost predicate UserBlock(h: Heap, q: Part) {
    && PartOk(h, q) && (q.Slot? || q.Large?)
    && (q.Slot? ==> q.addr !in h.slabs[q.slab].free)
    && (q.Large? ==> q.page in h.pool.chunks)
  }

  /** Word y lies inside q, and q is in use. */
  ghost predicate WordInBlock(h: Heap, q: Part, y: nat) {
    UserBlock(h, q) && WordIn(h, q, y)
  }

  /** No word of the bookkeeping lies in a user's block. */
  lemma UserOwns(h: Heap, q: Part, y: nat, t: nat)
    requires HeapInv(h) && WordInBlock(h, q, y) && t in h.slabs
    ensures !Owns(h, t, y)
  {
    hide HeapInv, PartOk, Lo, Hi;
    BlockIsPart(h, q);
    HeaderExtent(h, t);
    PartsApart(h, q, Header(t));
    if y in h.slabs[t].free {
      FreeSlotExtent(h, t, y);
      PartsApart(h, q, Slot(t, y));
    }
  }

  lemma BlockIsPart(h: Heap, q: Part)
    requires UserBlock(h, q)
    ensures PartOk(h, q) && (q.Slot? || q.Large?)
  {
  }

  lemma HeaderExtent(h: Heap, t: nat)
    requires HeapInv(h) && t in h.slabs
    ensures PartOk(h, Header(t)) && Lo(h, Header(t)) == t && Hi(h, Header(t)) >= t + 32
  {
    assert SlabOk(h, t, h.slabs[t]);
    SlotSizes(h.slabs[t].order);
  }

  lemma FreeSlotExtent(h: Heap, t: nat, x: nat)
    requires HeapInv(h) && t in h.slabs && x in h.slabs[t].free
    ensures PartOk(h, Slot(t, x)) && Lo(h, Slot(t, x)) == x && Hi(h, Slot(t, x)) >= x + 32
  {
    assert SlabOk(h, t, h.slabs[t]);
    SlotSizes(h.slabs[t].order);
  }

  /** Whatever a user writes into a block, the free lists, the chains and the headers survive. */
  lemma UserWriteThreaded(h: Heap, heads: seq<nat>, mem: Words, q: Part, y: nat, w: nat)
    requires HeapInv(h) && Threaded(h, heads, mem) && WordInBlock(h, q, y)
    ensures Threaded(h, heads, mem[y := w])
  {
    hide WordInBlock, HeapInv;
    var mem' := mem[y := w];
    forall t | t in h.slabs ensures SlabThreaded(mem', t, h.slabs[t]) {
      UserOwns(h, q, y, t);
      assert SlabThreaded(mem, t, h.slabs[t]);
    }
    forall t | t in h.slabs ensures Word(mem', t + 8) == Word(mem, t + 8) {
      UserOwns(h, q, y, t);
    }
    KeepChains(h, heads, mem, mem');
  }

  /** No step but a user's own write touches a word inside a block that stays in use. */
  ghost predicate WordsKept(h: Heap, w: Heap, mem: Words, mem': Words) {
    forall q: Part, y: nat :: WordInBlock(h, q, y) && UserBlock(w, q) ==> Word(mem', y) == Word(mem, y)
  }

  lemma PopWords(h: Heap, w: Heap, mem: Words, s: nat, v: nat)
    requires HeapInv(h) && s in h.slabs
    ensures WordsKept(h, w, mem, mem[s := v])
  {
    hide HeapInv, UserBlock, WordInBlock;
    forall q: Part, y: nat | WordInBlock(h, q, y) ensures y != s {
      UserOwns(h, q, y, s);
    }
  }

  lemma PushWords(h: Heap, s: nat, x: nat, mem: Words, v: nat)
    requires HeapInv(h) && s in h.slabs && IsSlot(h.slabs[s].order, s, x)
    ensures WordsKept(h, PushSlot(h, s, x), mem, mem[x := v][s := x])
  {
    hide HeapInv, UserBlock, WordInBlock, IsSlot, PushSlot;
    var w := PushSlot(h, s, x);
    forall q: Part, y: nat | WordInBlock(h, q, y) && UserBlock(w, q) ensures y != s && y != x {
      UserOwns(h, q, y, s);
      OtherWord(h, s, x, q, y);
    }
  }

  /** A block that stays in use when slot x is given back is not that slot. */
  lemma OtherWord(h: Heap, s: nat, x: nat, q: Part, y: nat)
    requires HeapInv(h) && s in h.slabs && IsSlot(h.slabs[s].order, s, x)
    requires WordInBlock(h, q, y) && UserBlock(PushSlot(h, s, x), q)
    ensures y != x
  {
    hide HeapInv, IsSlot;
    PartsApart(h, q, Slot(s, x));
    PartInChunk(h, Slot(s, x));
  }

  // ---------- a new slab ----------

  function AddSlab(h: Heap, pool: Pool, p: nat, order: nat, free: seq<nat>): Heap
    requires order < |h.chains|
  {
    var s := h.start + p * PAGE_BYTES;
    Heap(h.start, pool, h.slabs[s := Slab(p, order, free)], h.chains[order := [s] + h.chains[order]])
  }

  ghost predicate CanAdd(h: Heap, pool: Pool, p: nat, order: nat, free: seq<nat>) {
    && HeapInv(h) && BuddySpec.Inv(pool) && p !in Outstanding(h.pool)
    && Outstanding(pool) == Outstanding(h.pool)[p := SLAB_CHUNK]
    && SLAB_MIN_ORDER <= order <= SLAB_MAX_ORDER
    && Distinct(free) && forall x :: x in free ==> IsSlot(order, h.start + p * PAGE_BYTES, x)
  }

  lemma AddFresh(h: Heap, pool: Pool, p: nat, order: nat, free: seq<nat>)
    requires CanAdd(h, pool, p, order, free)
    ensures h.start + p * PAGE_BYTES !in h.slabs && order < |h.chains|
  {
    forall t | t in h.slabs ensures h.slabs[t].page != p && t == h.start + h.slabs[t].page * PAGE_BYTES {
      assert SlabOk(h, t, h.slabs[t]);
    }
  }

  lemma AddInv(h: Heap, pool: Pool, p: nat, order: nat, free: seq<nat>)
    requires CanAdd(h, pool, p, order, free)
    ensures order < |h.chains| && HeapInv(AddSlab(h, pool, p, order, free))
  {
    hide BuddySpec.Inv, Outstanding, ChainsOk, IsSlot, Distinct;
    AddFresh(h, pool, p, order, free);
    var w := AddSlab(h, pool, p, order, free);
    forall t | t in w.slabs ensures SlabOk(w, t, w.slabs[t]) {
      if t in h.slabs { assert SlabOk(h, t, h.slabs[t]); }
    }
    AddChains(h.slabs, h.chains, h.start + p * PAGE_BYTES, Slab(p, order, free));
  }

  lemma AddChains(slabs: map<nat, Slab>, chains: seq<seq<nat>>, s: nat, b: Slab)
    requires ChainsOk(slabs, chains) && s !in slabs && b.order <= SLAB_MAX_ORDER
    ensures ChainsOk(slabs[s := b], chains[b.order := [s] + chains[b.order]])
  {
  }

  /** Words written only inside the new slab disturb nothing; its own words make it the head of its chain. */
  lemma AddThreaded(h: Heap, pool: Pool, p: nat, order: nat, free: seq<nat>, heads: seq<nat>, mem: Words, mem': Words)
    requires CanAdd(h, pool, p, order, free) && Threaded(h, heads, mem) && order < |heads| == |h.chains|
    requires var s := h.start + p * PAGE_BYTES;
      && SlabThreaded(mem', s, Slab(p, order, free)) && Word(mem', s + 8) == heads[order]
      && forall y: nat :: !(s <= y < s + SLAB_BYTES) ==> Word(mem', y) == Word(mem, y)
    ensures order < |h.chains|
    ensures Threaded(AddSlab(h, pool, p, order, free), heads[order := h.start + p * PAGE_BYTES], mem')
  {
    hide *;
    var s := h.start + p * PAGE_BYTES;
    AddFresh(h, pool, p, order, free);
    AddInv(h, pool, p, order, free);
    AddedSlab(h, pool, p, order, free);
    var w := AddSlab(h, pool, p, order, free);
    forall t, y: nat | t in h.slabs && Owns(h, t, y) ensures Word(mem', y) == Word(mem, y) {
      OutsideNew(h, w, s, t, y);
    }
    ThreadedParts(h, heads, mem);
    forall t | t in h.slabs ensures SlabThreaded(mem', t, h.slabs[t]) {
      KeepSlab(h, mem, mem', t);
    }
    AddChainThreaded(h, heads, mem, mem', s, order, w.chains);
    AllThreaded(w, heads[order := s], mem');
  }

  lemma AddedSlab(h: Heap, pool: Pool, p: nat, order: nat, free: seq<nat>)
    requires CanAdd(h, pool, p, order, free) && order < |h.chains|
    ensures var w, s := AddSlab(h, pool, p, order, free), h.start + p * PAGE_BYTES;
      && w.slabs == h.slabs[s := Slab(p, order, free)] && w.chains == h.chains[order := [s] + h.chains[order]]
      && ChainsOk(h.slabs, h.chains) && HeapInv(h)
  {
  }

  lemma ThreadedParts(h: Heap, heads: seq<nat>, mem: Words)
    requires Threaded(h, heads, mem)
    ensures forall s :: s in h.slabs ==> SlabThreaded(mem, s, h.slabs[s])
  {
  }

  lemma AllThreaded(h: Heap, heads: seq<nat>, mem: Words)
    requires |heads| == |h.chains|
    requires forall s :: s in h.slabs ==> SlabThreaded(mem, s, h.slabs[s])
    requires forall k :: 0 <= k < |h.chains| ==> ChainThreaded(mem, heads[k], h.chains[k])
    ensures Threaded(h, heads, mem)
  {
  }

  lemma OutsideNew(h: Heap, w: Heap, s: nat, t: nat, y: nat)
    requires HeapInv(h) && HeapInv(w) && t in h.slabs && t in w.slabs && w.slabs[t] == h.slabs[t]
    requires s in w.slabs && s != t
    requires Owns(h, t, y)
    ensures !(s <= y < s + SLAB_BYTES)
  {
    assert SlabOk(w, s, w.slabs[s]) && SlabOk(w, t, w.slabs[t]);
    if w.slabs[s].page == w.slabs[t].page { SlabsDiffer(w, s, t); }
    SlabPow();
    SlotSizes(w.slabs[t].order);
    InUseNow(w.pool, w.slabs[s].page);
    InUseNow(w.pool, w.slabs[t].page);
    if w.slabs[s].page < w.slabs[t].page { ChunksApart(w, w.slabs[s].page, w.slabs[t].page); }
    else { ChunksApart(w, w.slabs[t].page, w.slabs[s].page); }
    hide Pow2, Aligned, HeapInv;
  }

  lemma AddChainThreaded(h: Heap, heads: seq<nat>, mem: Words, mem': Words, s: nat, order: nat, chains: seq<seq<nat>>)
    requires ChainsOk(h.slabs, h.chains) && Threaded(h, heads, mem) && order < |h.chains| && s !in h.slabs
    requires chains == h.chains[order := [s] + h.chains[order]] && Word(mem', s + 8) == heads[order]
    requires forall t, y: nat :: t in h.slabs && Owns(h, t, y) ==> Word(mem', y) == Word(mem, y)
    ensures forall k :: 0 <= k < |chains| ==> ChainThreaded(mem', heads[order := s][k], chains[k])
  {
    hide ChainThreaded, SlabThreaded, Word, ChainsOk;
    forall t | t in h.slabs ensures Word(mem', t + 8) == Word(mem, t + 8) {
      assert Owns(h, t, t + 8);
    }
    forall k | 0 <= k < |chains| ensures ChainThreaded(mem', heads[order := s][k], chains[k]) {
      KeepChain(h, mem, mem', heads[k], k);
      if k == order { Prepended(mem', heads[k], h.chains[k], s); }
    }
  }

  lemma Prepended(mem: Words, head: nat, chain: seq<nat>, s: nat)
    requires ChainThreaded(mem, head, chain) && Word(mem, s + 8) == head
    ensures ChainThreaded(mem, s, [s] + chain)
  {
    var c := [s] + chain;
    forall i | 0 <= i < |c| ensures Word(mem, c[i] + 8) == Elem(c, i + 1) {
      if i > 0 { assert c[i] == chain[i - 1]; }
    }
  }
}
