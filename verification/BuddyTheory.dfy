/** What the buddy allocator promises, proved for every state that satisfies the
    invariant and for every run of calls. */
module BuddyTheory {
  import opened Bits
  import opened Options
  import opened BuddySpec

  // ---------- one call ----------

  /** buddy_get_pages: NULL changes nothing; otherwise one new chunk of exactly
      the requested order is in use, every other chunk in use stays as it was, and
      it was cut from the front of a smallest sufficient free chunk. */
  lemma GetCorrect(v: Pool, order: nat)
    requires Inv(v)
    ensures var (w, r) := GetPages(v, order);
      && Inv(w) && w.base == v.base && w.n == v.n
      && (r.None? ==> w == v)
      && (r.Some? ==> order < MAX_ORDER && r.value !in Outstanding(v)
                      && Outstanding(w) == Outstanding(v)[r.value := order]
                      && SmallestSufficient(v, r.value, order))
  {
    var (w, r) := GetPages(v, order);
    if r.Some? {
      var k := FirstNonEmpty(v.lists, order);
      assert r.value in v.lists[k];
      FromFirst(v, order, r.value, k);
      TakeCorrect(v, order, r.value);
    }
  }

  lemma TakeCorrect(v: Pool, order: nat, p: nat)
    requires Inv(v) && SmallestSufficient(v, p, order)
    ensures |v.lists| == MAX_ORDER && v.chunks[p].order < MAX_ORDER && p in v.lists[v.chunks[p].order]
    ensures p in SplitTo(Unlink(v, p), p, order).chunks
    ensures var w := Mark(SplitTo(Unlink(v, p), p, order), p, Out);
      Inv(w) && w.base == v.base && w.n == v.n
      && p !in Outstanding(v) && Outstanding(w) == Outstanding(v)[p := order]
  {
    UnlinkHeld(v, p);
    UnlinkOutstanding(v, p);
    hide Inv, InvHeld, Outstanding;
    SplitToHeld(Unlink(v, p), p, order);
    var x := SplitTo(Unlink(v, p), p, order);
    MarkOutstanding(x, p);
    MarkOut(x, p);
  }

  lemma UnlinkOutstanding(v: Pool, p: nat)
    requires |v.lists| == MAX_ORDER && p in v.chunks && v.chunks[p].order < MAX_ORDER
    requires p in v.lists[v.chunks[p].order] && v.chunks[p].status == Free
    ensures Outstanding(Unlink(v, p)) == Outstanding(v) && p !in Outstanding(v)
  {
  }

  lemma MarkOutstanding(v: Pool, p: nat)
    requires p in v.chunks
    ensures Outstanding(Mark(v, p, Out)) == Outstanding(v)[p := v.chunks[p].order]
    ensures v.chunks[p].status != Out ==> p !in Outstanding(v)
    ensures v.chunks[p].status == Out ==> Outstanding(Mark(v, p, Held)) == Outstanding(v) - {p}
  {
  }

  /** p is free, large enough, and no smaller sufficient chunk is free. */
  ghost predicate SmallestSufficient(v: Pool, p: nat, order: nat) {
    && p in v.chunks && v.chunks[p].status == Free && order <= v.chunks[p].order
    && forall h :: h in v.chunks && v.chunks[h].status == Free && order <= v.chunks[h].order
                   ==> v.chunks[p].order <= v.chunks[h].order
  }

  lemma FromFirst(v: Pool, order: nat, p: nat, k: nat)
    requires Inv(v) && order < MAX_ORDER && k == FirstNonEmpty(v.lists, order) && k < MAX_ORDER && p in v.lists[k]
    ensures SmallestSufficient(v, p, order)
  {
    forall h | h in v.chunks && v.chunks[h].status == Free && order <= v.chunks[h].order
      ensures v.chunks[p].order <= v.chunks[h].order
    {
      var j := v.chunks[h].order;
      assert ChunkOk(v.base, v.n, h, v.chunks[h]);
      assert h in v.lists[j];
    }
  }

  lemma {:induction false} MergeUpKeeps(v: Pool, p: nat)
    requires InvHeld(v, p)
    ensures Outstanding(MergeUp(v, p).0) == Outstanding(v)
    decreases MAX_ORDER - (if p in v.chunks then v.chunks[p].order else 0)
  {
    assert ChunkOk(v.base, v.n, p, v.chunks[p]);
    hide Inv, InvHeld, Outstanding;
    if CanMerge(v, p) {
      MergeHeld(v, p);
      MergeKeeps(v, p);
      MergeUpKeeps(Merge(v, p), Lower(v, p));
    }
  }

  /** buddy_free_pages: exactly the freed chunk leaves the chunks in use. */
  lemma FreeCorrect(v: Pool, p: nat)
    requires Inv(v) && p in Outstanding(v)
    ensures var w := FreePages(v, p);
      Inv(w) && w.base == v.base && w.n == v.n && Outstanding(w) == Outstanding(v) - {p}
  {
    MarkHeld(v, p);
    MarkOutstanding(v, p);
    var u := Mark(v, p, Held);
    MergeUpKeeps(u, p);
    var (w, q) := MergeUp(u, p);
    PutBack(w, q);
    PutBackOutstanding(w, q, w.chunks[q].order);
  }

  // ---------- free pages ----------

  ghost predicate InUse(out: map<nat, nat>, q: nat) {
    exists h :: h in out && h <= q < h + Pow2(out[h])
  }

  /** Every page of the pool is either free or in a chunk in use, and not both. */
  lemma FreeIffNotInUse(v: Pool, q: nat)
    requires Inv(v)
    ensures FreeAt(v, q) <==> q < v.n && !InUse(Outstanding(v), q)
  {
    if q < v.n {
      assert Covered(v.chunks, q);
      var h: nat :| Covers(v.chunks, h, q);
      assert v.chunks[h].status == Free || v.chunks[h].status == Out;
      OnlyOne(v, h, q);
    } else {
      forall h: nat | h in v.chunks ensures !Covers(v.chunks, h, q) {
        assert ChunkOk(v.base, v.n, h, v.chunks[h]);
      }
    }
  }

  lemma OnlyOne(v: Pool, h: nat, q: nat)
    requires Apart(v.chunks) && Covers(v.chunks, h, q)
    ensures FreeAt(v, q) <==> v.chunks[h].status == Free
    ensures InUse(Outstanding(v), q) <==> v.chunks[h].status == Out
  {
    hide Pow2;
    var out := Outstanding(v);
    if v.chunks[h].status == Out { assert h in out && h <= q < h + Pow2(out[h]); }
    if InUse(out, q) {
      var g :| g in out && g <= q < g + Pow2(out[g]);
      assert g == h;
    }
  }

  /** Allocation takes exactly the pages [p, p + 2^order) out of the free pages, and all of them were free. */
  lemma GetTakes(v: Pool, order: nat, q: nat)
    requires Inv(v) && GetPages(v, order).1.Some?
    ensures var (w, r) := GetPages(v, order);
      && (FreeAt(w, q) <==> FreeAt(v, q) && !(r.value <= q < r.value + Pow2(order)))
      && (r.value <= q < r.value + Pow2(order) ==> FreeAt(v, q))
  {
    GetCorrect(v, order);
    var (w, r) := GetPages(v, order);
    var p := r.value;
    FreeIffNotInUse(v, q);
    FreeIffNotInUse(w, q);
    if p <= q < p + Pow2(order) {
      Pow2Mono(order, v.chunks[p].order);
      assert Covers(v.chunks, p, q);
    }
    hide Outstanding, GetPages, Inv, FreeAt;
    InUseAdd(Outstanding(v), p, order, q);
  }

  lemma InUseAdd(out: map<nat, nat>, p: nat, k: nat, q: nat)
    requires p !in out
    ensures InUse(out[p := k], q) <==> InUse(out, q) || p <= q < p + Pow2(k)
  {
    var out' := out[p := k];
    if InUse(out, q) {
      var h :| h in out && h <= q < h + Pow2(out[h]);
      assert h in out' && h <= q < h + Pow2(out'[h]);
    }
    if p <= q < p + Pow2(k) { assert p in out' && p <= q < p + Pow2(out'[p]); }
  }

  /** An aligned run of 2^k pages inside the pool, all of them free. */
  ghost predicate FreeRun(v: Pool, h: nat, k: nat) {
    h + Pow2(k) <= v.n && Aligned(v.base + h, k) && forall q :: h <= q < h + Pow2(k) ==> FreeAt(v, q)
  }

  /** Coalescing is complete: any free run lies inside a single free chunk. */
  lemma {:induction false} RunInOneChunk(v: Pool, h: nat, k: nat) returns (g: nat)
    requires Inv(v) && k < MAX_ORDER && FreeRun(v, h, k)
    ensures g in v.chunks && v.chunks[g].status == Free && v.chunks[g].order >= k
    ensures g <= h && h + Pow2(k) <= g + Pow2(v.chunks[g].order)
    decreases k
  {
    hide Inv, FreeRun;
    if k == 0 {
      g := PageChunk(v, h);
    } else {
      HalfRuns(v, h, k - 1);
      var lo := RunInOneChunk(v, h, k - 1);
      var hi := RunInOneChunk(v, h + Pow2(k - 1), k - 1);
      g := HalvesMeet(v, h, k - 1, lo, hi);
    }
  }

  lemma PageChunk(v: Pool, h: nat) returns (g: nat)
    requires FreeRun(v, h, 0)
    ensures Covers(v.chunks, g, h) && v.chunks[g].status == Free
  {
    assert FreeAt(v, h);
    g :| Covers(v.chunks, g, h) && v.chunks[g].status == Free;
  }

  /** Free chunks that hold the two halves of an aligned run: one of them holds both. */
  lemma HalvesMeet(v: Pool, h: nat, j: nat, lo: nat, hi: nat) returns (g: nat)
    requires Inv(v) && j + 1 < MAX_ORDER && FreeRun(v, h, j + 1)
    requires lo in v.chunks && v.chunks[lo].status == Free && v.chunks[lo].order >= j
    requires hi in v.chunks && v.chunks[hi].status == Free && v.chunks[hi].order >= j
    requires lo <= h && h + Pow2(j) <= lo + Pow2(v.chunks[lo].order)
    requires hi <= h + Pow2(j) && h + 2 * Pow2(j) <= hi + Pow2(v.chunks[hi].order)
    ensures g in v.chunks && v.chunks[g].status == Free && v.chunks[g].order >= j + 1
    ensures g <= h && h + Pow2(j + 1) <= g + Pow2(v.chunks[g].order)
  {
    hide *;
    NotMergeable(v, lo, hi);
    WouldMerge(v, h, j, lo, hi);
    ChunkFacts(v, lo);
    ChunkFacts(v, hi);
    RunAligned(v, h, j + 1);
    DoublePow(j);
    if v.chunks[lo].order > j {
      Nested(v.base + h, j + 1, v.base + lo, v.chunks[lo].order);
      g := lo;
    } else {
      LargerHolds(v.base + h, j, v.base + hi, v.chunks[hi].order, v.base + (h + Pow2(j)));
      g := hi;
    }
  }

  lemma DoublePow(j: nat)
    ensures Pow2(j + 1) == 2 * Pow2(j)
  {
  }

  lemma NotMergeable(v: Pool, g: nat, h: nat)
    requires Inv(v)
    ensures !Mergeable(v.base, v.chunks, g, h)
  {
    hide Mergeable;
  }

  lemma ChunkFacts(v: Pool, g: nat)
    requires Inv(v) && g in v.chunks
    ensures Aligned(v.base + g, v.chunks[g].order)
    ensures g + Pow2(v.chunks[g].order) <= v.n && v.chunks[g].order < MAX_ORDER
  {
    assert ChunkOk(v.base, v.n, g, v.chunks[g]);
  }

  /** Two free chunks that are exactly the two halves of a block could be merged. */
  lemma WouldMerge(v: Pool, h: nat, j: nat, lo: nat, hi: nat)
    requires j + 1 < MAX_ORDER && FreeRun(v, h, j + 1)
    requires lo in v.chunks && v.chunks[lo].status == Free && hi in v.chunks && v.chunks[hi].status == Free
    requires lo <= h && h + Pow2(j) <= lo + Pow2(v.chunks[lo].order)
    requires hi <= h + Pow2(j) && h + 2 * Pow2(j) <= hi + Pow2(v.chunks[hi].order)
    ensures v.chunks[lo].order == v.chunks[hi].order == j ==> Mergeable(v.base, v.chunks, lo, hi)
  {
    hide Aligned, Pow2;
  }

  lemma RunAligned(v: Pool, h: nat, k: nat)
    requires FreeRun(v, h, k)
    ensures Aligned(v.base + h, k)
  {
  }

  lemma HalfRuns(v: Pool, h: nat, j: nat)
    requires FreeRun(v, h, j + 1)
    ensures FreeRun(v, h, j) && FreeRun(v, h + Pow2(j), j)
  {
    AlignedWeaken(v.base + h, j, j + 1);
    AlignedHalves(v.base + h, j);
    assert v.base + h + Pow2(j) == v.base + (h + Pow2(j));
  }

  lemma ChunkIsRun(v: Pool, g: nat)
    requires Inv(v) && g in v.chunks && v.chunks[g].status == Free
    ensures FreeRun(v, g, v.chunks[g].order)
  {
    assert ChunkOk(v.base, v.n, g, v.chunks[g]);
    forall q | g <= q < g + Pow2(v.chunks[g].order) ensures FreeAt(v, q) {
      assert Covers(v.chunks, g, q);
    }
  }

  /** In every state, two free chunks of one order below 13 are never the two halves of a block; and no chunk is of a
      higher order than 13. */
  lemma NoFreeBuddies(v: Pool, g: nat, h: nat)
    requires Inv(v) && g in v.chunks && h in v.chunks && v.chunks[g].status == Free && v.chunks[h].status == Free
    ensures v.chunks[g].order <= 13
    ensures v.chunks[g].order == v.chunks[h].order < 13 && h == g + Pow2(v.chunks[g].order)
        ==> !Aligned(v.base + g, v.chunks[g].order + 1)
  {
    hide *;
    NotMergeable(v, g, h);
    ChunkFacts(v, g);
    MergeableIs(v, g, h);
  }

  lemma MergeableIs(v: Pool, g: nat, h: nat)
    requires g in v.chunks && h in v.chunks
    ensures MAX_ORDER == 14
    ensures Mergeable(v.base, v.chunks, g, h)
       <==> && v.chunks[g].status == Free && v.chunks[g] == v.chunks[h] && v.chunks[g].order < 13
            && h == g + Pow2(v.chunks[g].order) && Aligned(v.base + g, v.chunks[g].order + 1)
  {
    hide Pow2, Aligned;
  }

  /** Allocation is complete: NULL exactly when no aligned, entirely free run of the requested size exists. */
  lemma GetComplete(v: Pool, order: nat)
    requires Inv(v)
    ensures GetPages(v, order).1.None? <==> order >= 14 || !exists h :: FreeRun(v, h, order)
  {
    if order < MAX_ORDER {
      if h :| FreeRun(v, h, order) {
        var g := RunInOneChunk(v, h, order);
        var k := v.chunks[g].order;
        assert ChunkOk(v.base, v.n, g, v.chunks[g]);
        assert g in v.lists[k];
      }
      if GetPages(v, order).1.Some? {
        GetCorrect(v, order);
        var p := GetPages(v, order).1.value;
        ChunkIsRun(v, p);
        PrefixRun(v, p, v.chunks[p].order, order);
      }
    }
  }

  lemma PrefixRun(v: Pool, h: nat, k: nat, j: nat)
    requires FreeRun(v, h, k) && j <= k
    ensures FreeRun(v, h, j)
  {
    AlignedWeaken(v.base + h, j, k);
    Pow2Mono(j, k);
  }

  // ---------- canonical form ----------

  /** The free chunks depend only on which pages are free. */
  lemma FreePagesDecide(v: Pool, w: Pool, g: nat)
    requires Inv(v) && Inv(w) && v.base == w.base && v.n == w.n
    requires forall q :: FreeAt(v, q) <==> FreeAt(w, q)
    requires g in v.chunks && v.chunks[g].status == Free
    ensures g in w.chunks && w.chunks[g] == v.chunks[g]
  {
    hide *;
    var k := v.chunks[g].order;
    ChunkIsRun(v, g);
    ChunkFacts(v, g);
    SameRun(v, w, g, k);
    var g' := RunInOneChunk(w, g, k);
    var k' := w.chunks[g'].order;
    ChunkIsRun(w, g');
    ChunkFacts(w, g');
    SameRun(w, v, g', k');
    var g'' := RunInOneChunk(v, g', k');
    ChunkFacts(v, g'');
    HolderIs(v, g, g'');
    SameChunkOrder(k, k');
  }

  lemma SameRun(v: Pool, w: Pool, g: nat, k: nat)
    requires FreeRun(v, g, k) && v.base == w.base && v.n == w.n
    requires forall q :: FreeAt(v, q) <==> FreeAt(w, q)
    ensures FreeRun(w, g, k)
  {
    hide FreeAt, Pow2, Aligned;
  }

  /** A chunk that holds the first page of a chunk is that chunk. */
  lemma HolderIs(v: Pool, g: nat, h: nat)
    requires Inv(v) && g in v.chunks && h in v.chunks && h <= g < h + Pow2(v.chunks[h].order)
    ensures g == h
  {
    hide Pow2;
  }

  lemma SameChunkOrder(k: nat, k': nat)
    requires k <= k' && Pow2(k') <= Pow2(k)
    ensures k == k'
  {
    if k < k' {
      Pow2Mono(k + 1, k');
      DoublePow(k);
    }
  }

  /** Two states with the same chunks in use are the same tiling, whatever happened before. */
  lemma OutstandingDecides(v: Pool, w: Pool)
    requires Inv(v) && Inv(w) && v.base == w.base && v.n == w.n && Outstanding(v) == Outstanding(w)
    ensures v.chunks == w.chunks
    ensures forall k, h: nat :: 0 <= k < MAX_ORDER ==> (h in v.lists[k] <==> h in w.lists[k])
  {
    forall q ensures FreeAt(v, q) <==> FreeAt(w, q) {
      if q >= 0 {
        FreeIffNotInUse(v, q);
        FreeIffNotInUse(w, q);
      }
    }
    SubTiling(v, w);
    SubTiling(w, v);
    assert v.chunks.Keys == w.chunks.Keys;
    assert v.chunks == w.chunks;
    forall k, h: nat | 0 <= k < MAX_ORDER ensures h in v.lists[k] <==> h in w.lists[k] {
      assert h in v.lists[k] <==> h in v.chunks && v.chunks[h] == Chunk(k, Free);
    }
  }

  lemma SubTiling(v: Pool, w: Pool)
    requires Inv(v) && Inv(w) && v.base == w.base && v.n == w.n && Outstanding(v) == Outstanding(w)
    requires forall q :: FreeAt(v, q) <==> FreeAt(w, q)
    ensures forall g :: g in v.chunks ==> g in w.chunks && w.chunks[g] == v.chunks[g]
  {
    forall g | g in v.chunks ensures g in w.chunks && w.chunks[g] == v.chunks[g] {
      if v.chunks[g].status == Free {
        FreePagesDecide(v, w, g);
      } else {
        assert g in Outstanding(v);
      }
    }
  }

  lemma InUseNow(v: Pool, p: nat)
    ensures p in Outstanding(v) <==> p in v.chunks && v.chunks[p].status == Out
  {
  }

  /** Freeing a chunk just allocated undoes the allocation. */
  lemma GetThenFree(v: Pool, order: nat, w: Pool, p: nat)
    requires Inv(v) && GetPages(v, order) == (w, Some(p))
    ensures Inv(w) && p in w.chunks && w.chunks[p].status == Out
    ensures FreePages(w, p).chunks == v.chunks
  {
    hide *;
    GetCorrect(v, order);
    InUseNow(w, p);
    FreeCorrect(w, p);
    var out := Outstanding(v);
    assert out[p := order] - {p} == out;
    OutstandingDecides(FreePages(w, p), v);
  }

  // ---------- start and runs ----------

  /** Pages i .. n-1, each as a chunk of order 0. */
  function Singles(i: nat, n: nat): (m: map<nat, nat>)
    ensures forall h :: h in m <==> i <= h < n
    ensures forall h :: h in m ==> m[h] == 0
    decreases n - i
  {
    if i >= n then map[] else Singles(i + 1, n)[i := 0]
  }

  /** Before the second loop of init_buddy: every page is an order-0 chunk marked allocated. */
  function AllPages(base: nat, n: nat): Pool {
    Pool(base, n, seq(MAX_ORDER, i => []), map h | h in Singles(0, n) :: Chunk(0, Out))
  }

  lemma AllPagesInv(base: nat, n: nat)
    ensures Inv(AllPages(base, n))
    ensures Outstanding(AllPages(base, n)) == Singles(0, n)
  {
    var v := AllPages(base, n);
    forall p: nat | p < n ensures Covered(v.chunks, p) {
      assert Covers(v.chunks, p, p);
    }
    forall g, h ensures !Mergeable(base, v.chunks, g, h) {}
  }

  lemma FreeOne(v: Pool, i: nat)
    requires Inv(v) && i < v.n && Outstanding(v) == Singles(i, v.n)
    ensures i in v.chunks && v.chunks[i].status == Out
    ensures Inv(FreePages(v, i)) && FreePages(v, i).base == v.base && FreePages(v, i).n == v.n
    ensures Outstanding(FreePages(v, i)) == Singles(i + 1, v.n)
  {
    hide Inv, FreePages;
    assert i in Outstanding(v);
    FreeCorrect(v, i);
  }

  /** The second loop of init_buddy, from page i on. */
  ghost function FreeAllFrom(v: Pool, i: nat): (w: Pool)
    requires Inv(v) && i <= v.n && Outstanding(v) == Singles(i, v.n)
    ensures Inv(w) && w.base == v.base && w.n == v.n && Outstanding(w) == map[]
    decreases v.n - i
  {
    if i == v.n then v
    else
      FreeOne(v, i);
      hide Inv, Outstanding;
      FreeAllFrom(FreePages(v, i), i + 1)
  }

  ghost function InitPool(base: nat, n: nat): (w: Pool)
    ensures Inv(w) && w.base == base && w.n == n && Outstanding(w) == map[]
  {
    AllPagesInv(base, n);
    FreeAllFrom(AllPages(base, n), 0)
  }

  /** A client call.  Freeing needs a chunk that was handed out and not yet freed. */
  datatype Call = Alloc(order: nat) | Release(page: nat)

  ghost predicate CanDo(v: Pool, c: Call) {
    c.Release? ==> c.page in Outstanding(v)
  }

  ghost function Do(v: Pool, c: Call): (w: Pool)
    requires Inv(v) && CanDo(v, c)
    ensures Inv(w) && w.base == v.base && w.n == v.n
  {
    match c
    case Alloc(order) => GetCorrect(v, order); GetPages(v, order).0
    case Release(page) => FreeCorrect(v, page); FreePages(v, page)
  }

  ghost predicate Legal(v: Pool, calls: seq<Call>)
    requires Inv(v)
    decreases |calls|
  {
    hide *;
    calls == [] || (CanDo(v, calls[0]) && Legal(Do(v, calls[0]), calls[1..]))
  }

  ghost function Run(v: Pool, calls: seq<Call>): (w: Pool)
    requires Inv(v) && Legal(v, calls)
    ensures Inv(w) && w.base == v.base && w.n == v.n
    decreases |calls|
  {
    hide Inv, CanDo, Do;
    if calls == [] then v else Run(Do(v, calls[0]), calls[1..])
  }

  /** After any run that gives everything back, in any order, the pool is as init_buddy left it. */
  lemma RunReturnsToStart(base: nat, n: nat, calls: seq<Call>)
    requires Legal(InitPool(base, n), calls) && Outstanding(Run(InitPool(base, n), calls)) == map[]
    ensures Run(InitPool(base, n), calls).chunks == InitPool(base, n).chunks
    ensures forall k, h: nat :: 0 <= k < MAX_ORDER ==>
              (h in Run(InitPool(base, n), calls).lists[k] <==> h in InitPool(base, n).lists[k])
  {
    OutstandingDecides(Run(InitPool(base, n), calls), InitPool(base, n));
  }
}
