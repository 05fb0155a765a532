/** How much memory lies on the free lists of the slabs. */
module SlabCount {
  import opened Bits
  import opened Rings
  import opened BuddySpec
  import opened SlabSpec
  import opened SlabSteps
  import opened SlabBlocks
  import opened KmallocSpec

  function FreeOf(slabs: map<nat, Slab>, s: nat): nat {
    if s in slabs then |slabs[s].free| else 0
  }

  /** The free slots along a chain. */
  function FreeIn(slabs: map<nat, Slab>, chain: seq<nat>): nat {
    if chain == [] then 0 else FreeOf(slabs, chain[0]) + FreeIn(slabs, chain[1..])
  }

  /** The free bytes of the slabs with slots of less than 2^k bytes. */
  function FreeBelow(h: Heap, k: nat): nat {
    if k == 0 then 0
    else FreeBelow(h, k - 1) + (if k <= |h.chains| then FreeIn(h.slabs, h.chains[k - 1]) * Pow2(k - 1) else 0)
  }

  function FreeBytes(h: Heap): nat {
    FreeBelow(h, SLAB_MAX_ORDER + 1)
  }

  lemma {:induction false} FreeInSame(a: map<nat, Slab>, b: map<nat, Slab>, chain: seq<nat>)
    requires forall s :: s in chain ==> FreeOf(a, s) == FreeOf(b, s)
    ensures FreeIn(a, chain) == FreeIn(b, chain)
  {
    if chain != [] { FreeInSame(a, b, chain[1..]); }
  }

  lemma {:induction false} FreeInChange(a: map<nat, Slab>, b: map<nat, Slab>, chain: seq<nat>, s: nat)
    requires Distinct(chain) && s in chain
    requires forall t :: t in chain && t != s ==> FreeOf(a, t) == FreeOf(b, t)
    ensures FreeIn(b, chain) - FreeOf(b, s) == FreeIn(a, chain) - FreeOf(a, s)
  {
    if chain[0] == s {
      FreeInSame(a, b, chain[1..]);
    } else {
      FreeInChange(a, b, chain[1..], s);
    }
  }

  /** Nothing below k changed. */
  lemma {:induction false} FreeBelowSame(h: Heap, w: Heap, lo: nat, k: nat)
    requires lo <= k && FreeBelow(h, lo) == FreeBelow(w, lo) && |h.chains| == |w.chains|
    requires forall j :: lo <= j < k && j < |h.chains| ==> FreeIn(h.slabs, h.chains[j]) == FreeIn(w.slabs, w.chains[j])
    ensures FreeBelow(h, k) == FreeBelow(w, k)
  {
    hide Pow2;
    if lo < k { FreeBelowSame(h, w, lo, k - 1); }
  }

  /** Only chain order changed, by d slots. */
  lemma {:induction false} FreeBelowChange(h: Heap, w: Heap, order: nat, d: int, k: nat)
    requires order < k <= |h.chains| == |w.chains|
    requires forall j :: 0 <= j < |h.chains| && j != order
                         ==> FreeIn(h.slabs, h.chains[j]) == FreeIn(w.slabs, w.chains[j])
    requires FreeIn(w.slabs, w.chains[order]) == FreeIn(h.slabs, h.chains[order]) + d
    ensures FreeBelow(w, k) == FreeBelow(h, k) + d * Pow2(order)
  {
    hide Pow2, FreeIn;
    if order == k - 1 {
      FreeBelowSame(h, w, 0, k - 1);
      MulAdd(FreeIn(h.slabs, h.chains[order]), d, Pow2(order));
    } else {
      FreeBelowChange(h, w, order, d, k - 1);
    }
  }

  /** Putting a list of other length into slab s. */
  lemma RefillFree(h: Heap, s: nat, free: seq<nat>)
    requires HeapInv(h) && s in h.slabs
    ensures FreeBytes(Refill(h, s, free)) == FreeBytes(h) + (|free| - |h.slabs[s].free|) * Pow2(h.slabs[s].order)
  {
    hide Pow2, BuddySpec.Inv, SlabOk, FreeIn, FreeBelow;
    var w, k := Refill(h, s, free), h.slabs[s].order;
    OrderOk(h, s);
    FreeInChange(h.slabs, w.slabs, h.chains[k], s);
    forall j | 0 <= j < |h.chains| && j != k ensures FreeIn(h.slabs, h.chains[j]) == FreeIn(w.slabs, w.chains[j]) {
      FreeInSame(h.slabs, w.slabs, h.chains[j]);
    }
    FreeBelowChange(h, w, k, |free| - |h.slabs[s].free|, SLAB_MAX_ORDER + 1);
  }

  lemma OrderOk(h: Heap, s: nat)
    requires HeapInv(h) && s in h.slabs
    ensures SLAB_MIN_ORDER <= h.slabs[s].order <= SLAB_MAX_ORDER
  {
    assert SlabOk(h, s, h.slabs[s]);
  }

  /** Taking a slot costs its size ... */
  lemma PopFree(h: Heap, s: nat)
    requires HeapInv(h) && s in h.slabs && h.slabs[s].free != []
    ensures FreeBytes(Pop(h, s)) == FreeBytes(h) - Pow2(h.slabs[s].order)
  {
    hide HeapInv, Pow2, FreeBytes;
    RefillFree(h, s, h.slabs[s].free[1..]);
  }

  /** ... giving it back returns it ... */
  lemma PushFree(h: Heap, s: nat, x: nat)
    requires HeapInv(h) && s in h.slabs
    ensures FreeBytes(PushSlot(h, s, x)) == FreeBytes(h) + Pow2(h.slabs[s].order)
  {
    hide HeapInv, Pow2, FreeBytes;
    RefillFree(h, s, [x] + h.slabs[s].free);
  }

  /** ... and a new slab adds all its bytes but those of the slot that holds its header. */
  lemma NewSlabFree(h: Heap, k: nat)
    requires HeapInv(h) && BuddySpec.Inv(h.pool) && GetPages(h.pool, SLAB_CHUNK).1.Some?
    requires SLAB_MIN_ORDER <= k <= SLAB_MAX_ORDER
    ensures k < |h.chains| && FreeBytes(WithNewSlab(h, k)) == FreeBytes(h) + SLAB_BYTES - Pow2(k)
  {
    hide BuddySpec.Inv, Outstanding, GetPages, AllSlots, IsSlot, Pow2, WithNewSlab, SlabOk, FreeBelow;
    NewSlabShape(h, k);
    var w := WithNewSlab(h, k);
    var s := h.start + GetPages(h.pool, SLAB_CHUNK).1.value * PAGE_BYTES;
    forall j | 0 <= j < |h.chains| ensures FreeIn(w.slabs, h.chains[j]) == FreeIn(h.slabs, h.chains[j]) {
      FreeInSame(h.slabs, w.slabs, h.chains[j]);
    }
    AllSlotsOk(s, k);
    assert ([s] + h.chains[k])[1..] == h.chains[k];
    var c := SLAB_BYTES / Pow2(k);
    FreeBelowChange(h, w, k, c - 1, SLAB_MAX_ORDER + 1);
    SlotCounts(k);
    MulAdd(c, -1, Pow2(k));
  }

  /** An allocation lowers the free bytes by the slot's size, except when a new slab was added. */
  lemma TookFree(h: Heap, w: Heap, k: nat, x: nat, s: nat)
    requires HeapInv(h) && Took(h, w, k, x, s) && SLAB_MIN_ORDER <= k <= SLAB_MAX_ORDER
    ensures !AllFull(h, k) ==> FreeBytes(w) == FreeBytes(h) - Pow2(k)
    ensures AllFull(h, k) ==> FreeBytes(w) == FreeBytes(h) + (SLAB_BYTES - Pow2(k)) - Pow2(k)
  {
    hide *;
    TookIs(h, w, k, x, s);
    if !AllFull(h, k) {
      PopFree(h, s);
    } else {
      NewSlabInv(h, k);
      NewSlabFree(h, k);
      PopFree(WithNewSlab(h, k), s);
    }
  }

  lemma FreeInSplit(slabs: map<nat, Slab>, chain: seq<nat>, i: nat)
    requires i < |chain|
    ensures FreeIn(slabs, chain[i..]) == FreeOf(slabs, chain[i]) + FreeIn(slabs, chain[i + 1..])
  {
    assert chain[i..][1..] == chain[i + 1..];
  }

  // ---------- for the loops that count ----------

  lemma NothingBelow(h: Heap)
    requires HeapInv(h)
    ensures FreeBelow(h, SLAB_MIN_ORDER) == 0
  {
    hide BuddySpec.Inv, SlabOk, Pow2;
    forall k | 0 <= k < SLAB_MIN_ORDER ensures h.chains[k] == [] {
      if h.chains[k] != [] { SmallSlab(h, k); }
    }
    EmptyBelow(h, SLAB_MIN_ORDER);
  }

  lemma SmallSlab(h: Heap, k: nat)
    requires HeapInv(h) && k < SLAB_MIN_ORDER
    ensures h.chains[k] == []
  {
    if h.chains[k] != [] {
      var s := h.chains[k][0];
      assert s in h.chains[k];
      OrderOk(h, s);
      assert false;
    }
  }

  lemma {:induction false} EmptyBelow(h: Heap, k: nat)
    requires k <= |h.chains| && forall j :: 0 <= j < k ==> h.chains[j] == []
    ensures FreeBelow(h, k) == 0
  {
    if k > 0 { EmptyBelow(h, k - 1); }
  }

  lemma ReadList(h: Heap, heads: seq<nat>, mem: Words, s: nat, j: nat)
    requires HeapInv(h) && Threaded(h, heads, mem) && s in h.slabs
    ensures Word(mem, s) == Elem(h.slabs[s].free, 0)
    ensures Elem(h.slabs[s].free, j) != 0 <==> j < |h.slabs[s].free|
    ensures j < |h.slabs[s].free| ==> Word(mem, Elem(h.slabs[s].free, j)) == Elem(h.slabs[s].free, j + 1)
  {
    hide BuddySpec.Inv, Outstanding, ChainThreaded, ChainsOk;
    assert SlabOk(h, s, h.slabs[s]) && SlabThreaded(mem, s, h.slabs[s]);
    if j < |h.slabs[s].free| { assert h.slabs[s].free[j] in h.slabs[s].free; }
  }

  lemma ChainEnd(slabs: map<nat, Slab>, chain: seq<nat>, i: nat)
    requires i == |chain|
    ensures FreeIn(slabs, chain[i..]) == 0
  {
  }

  lemma FreeOfIs(slabs: map<nat, Slab>, s: nat)
    requires s in slabs
    ensures FreeOf(slabs, s) == |slabs[s].free|
  {
  }

  lemma FreeBytesIs(h: Heap)
    ensures FreeBytes(h) == FreeBelow(h, SLAB_MAX_ORDER + 1)
  {
  }
}
