/** What init_slab leaves behind: one empty slab of every slot order. */
module SlabInit {
  import opened Bits
  import opened BuddySpec
  import opened BuddyTheory
  import opened SlabSpec
  import opened SlabBlocks
  import opened KmallocSpec
  import opened SlabCount

  ghost predicate SlabPage(h: Heap, p: nat) {
    exists s :: s in h.slabs && h.slabs[s].page == p
  }

  /** Chain k is a single slab with all its slots free, in the order of their addresses. */
  ghost predicate OneSlab(h: Heap, k: nat) {
    && k < |h.chains| && |h.chains[k]| == 1 && h.chains[k][0] in h.slabs
    && var b := h.slabs[h.chains[k][0]]; b.order == k && b.free == AllSlots(h.chains[k][0], k)
  }

  /** From the heap h without slabs, w has one slab for each slot order from 5 to k - 1, and what those took. */
  ghost predicate SlabsUpTo(h: Heap, w: Heap, k: nat) {
    && |w.chains| == 12 && |w.slabs| == k - 5
    && (forall j :: 5 <= j < k && j < 12 ==> OneSlab(w, j))
    && (forall j :: 0 <= j < 12 && (j < 5 || k <= j) ==> w.chains[j] == [])
    && FreeBytes(w) == FreeSum(k)
    && TookSlabs(h, w) && |Outstanding(w.pool)| == |Outstanding(h.pool)| + (k - 5)
  }

  /** The chunks in use are those of before and, for each slab, one of 2MB. */
  ghost predicate TookSlabs(h: Heap, w: Heap) {
    && (forall p :: p in Outstanding(w.pool) <==> p in Outstanding(h.pool) || SlabPage(w, p))
    && (forall p :: p in Outstanding(h.pool) ==> !SlabPage(w, p) && Outstanding(w.pool)[p] == Outstanding(h.pool)[p])
    && (forall p :: SlabPage(w, p) ==> Outstanding(w.pool)[p] == 9)
  }

  /** The bytes of the free slots of one slab for each slot order from 5 to k - 1. */
  function FreeSum(k: nat): int {
    if k <= 5 then 0 else FreeSum(k - 1) + 0x20_0000 - Pow2(k - 1)
  }

  lemma NoSlabsYet(h: Heap)
    requires HeapInv(h) && h.chains == seq(SLAB_MAX_ORDER + 1, i => [])
    ensures SlabsUpTo(h, h, 5)
  {
    hide BuddySpec.Inv, Outstanding, FreeBytes;
    forall s ensures s !in h.slabs {
      if s in h.slabs { InItsChain(h, s); }
    }
    assert h.slabs == map[];
    EmptyBytes(h);
  }

  lemma InItsChain(h: Heap, s: nat)
    requires HeapInv(h) && s in h.slabs
    ensures |h.chains| == 12 && h.slabs[s].order < 12 && s in h.chains[h.slabs[s].order]
  {
    assert SlabOk(h, s, h.slabs[s]);
  }

  lemma EmptyBytes(h: Heap)
    requires h.chains == seq(SLAB_MAX_ORDER + 1, i => [])
    ensures FreeBytes(h) == 0
  {
    EmptyBelow(h, SLAB_MAX_ORDER + 1);
  }

  /** init_slab_cache for the next order. */
  lemma NextSlab(h: Heap, w: Heap, k: nat)
    requires HeapInv(w) && SlabsUpTo(h, w, k) && BuddySpec.Inv(w.pool) && GetPages(w.pool, SLAB_CHUNK).1.Some?
    requires SLAB_MIN_ORDER <= k <= SLAB_MAX_ORDER
    ensures k < |w.chains| && SlabsUpTo(h, WithNewSlab(w, k), k + 1)
  {
    hide *;
    NewSlabShape(w, k);
    NewSlabFree(w, k);
    GetCorrect(w.pool, SLAB_CHUNK);
    var p := GetPages(w.pool, SLAB_CHUNK).1.value;
    NewSlabPool(w, k);
    NextSlabOf(h, w, WithNewSlab(w, k), k, p, w.start + p * PAGE_BYTES);
  }

  lemma NewSlabPool(h: Heap, k: nat)
    requires BuddySpec.Inv(h.pool) && GetPages(h.pool, SLAB_CHUNK).1.Some? && k < |h.chains|
    ensures WithNewSlab(h, k).pool == GetPages(h.pool, SLAB_CHUNK).0
  {
    hide BuddySpec.Inv, GetPages, AllSlots;
  }

  lemma NextSlabOf(h: Heap, w: Heap, u: Heap, k: nat, p: nat, s: nat)
    requires SlabsUpTo(h, w, k) && SLAB_MIN_ORDER <= k <= SLAB_MAX_ORDER
    requires s !in w.slabs && u.slabs == w.slabs[s := Slab(p, k, AllSlots(s, k))]
    requires u.chains == w.chains[k := [s] + w.chains[k]]
    requires p !in Outstanding(w.pool) && Outstanding(u.pool) == Outstanding(w.pool)[p := SLAB_CHUNK]
    requires FreeBytes(u) == FreeBytes(w) + SLAB_BYTES - Pow2(k)
    ensures SlabsUpTo(h, u, k + 1)
  {
    hide FreeBytes, Outstanding, AllSlots, Pow2;
    NextTook(h, w, u, p, s);
    assert |u.slabs| == |w.slabs| + 1;
    assert |Outstanding(u.pool)| == |Outstanding(w.pool)| + 1;
    forall j | 5 <= j < k + 1 && j < 12 ensures OneSlab(u, j) {
      if j < k {
        assert OneSlab(w, j);
        assert u.chains[j] == w.chains[j];
      } else {
        assert u.chains[k] == [s];
      }
    }
  }

  lemma NextTook(h: Heap, w: Heap, u: Heap, p: nat, s: nat)
    requires TookSlabs(h, w) && s !in w.slabs && s in u.slabs && u.slabs[s].page == p
    requires u.slabs == w.slabs[s := u.slabs[s]]
    requires p !in Outstanding(w.pool) && Outstanding(u.pool) == Outstanding(w.pool)[p := SLAB_CHUNK]
    ensures TookSlabs(h, u)
  {
    hide Outstanding;
    forall q ensures SlabPage(u, q) <==> SlabPage(w, q) || q == p {
      if SlabPage(w, q) {
        var t :| t in w.slabs && w.slabs[t].page == q;
        assert u.slabs[t] == w.slabs[t];
      }
      if q == p { assert s in u.slabs && u.slabs[s].page == q; }
      if SlabPage(u, q) && q != p {
        var t :| t in u.slabs && u.slabs[t].page == q;
        assert w.slabs[t] == u.slabs[t];
      }
    }
  }

  /** All seven: 32, 64, 128, 256, 512, 1024 and 2048 bytes. */
  lemma AllSeven(h: Heap, w: Heap)
    requires SlabsUpTo(h, w, SLAB_MAX_ORDER + 1)
    ensures |w.chains| == 12 && |w.slabs| == 7 && forall k :: 5 <= k <= 11 ==> OneSlab(w, k)
    ensures TookSlabs(h, w) && |Outstanding(w.pool)| == |Outstanding(h.pool)| + 7
    ensures FreeBytes(w) == 7 * 0x20_0000 - (32 + 64 + 128 + 256 + 512 + 1024 + 2048)
  {
    hide FreeBytes, Outstanding, OneSlab, TookSlabs;
    SevenPowers();
    hide Pow2, FreeSum;
    SevenSums();
  }

  lemma SevenPowers()
    ensures Pow2(5) == 32 && Pow2(6) == 64 && Pow2(7) == 128 && Pow2(8) == 256 && Pow2(9) == 512 && Pow2(10) == 1024
    ensures Pow2(11) == 2048
  {
    assert Pow2(5) == 32;
    assert Pow2(8) == 256;
    assert Pow2(11) == 2048;
  }

  lemma SevenSums()
    ensures FreeSum(12) == 7 * 0x20_0000 - (32 + 64 + 128 + 256 + 512 + 1024 + 2048)
  {
    SevenPowers();
    hide Pow2;
    assert FreeSum(6) == 0x20_0000 - 32;
    assert FreeSum(8) == 3 * 0x20_0000 - (32 + 64 + 128);
    assert FreeSum(10) == 5 * 0x20_0000 - (32 + 64 + 128 + 256 + 512);
  }
}
