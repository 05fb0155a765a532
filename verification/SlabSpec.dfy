/** What the slab allocator keeps in the memory it manages, on values.

    A slab is a 2MB chunk from the buddy allocator, cut into slots of 2^order bytes.
    Slot 0 is the slab's header; the other slots are in use or on the slab's free
    list, which is threaded through the slots themselves. */
module SlabSpec {
  import opened Bits
  import opened Rings
  import opened BuddySpec

  const SLAB_MIN_ORDER: nat := 5
  const SLAB_MAX_ORDER: nat := 11
  const SLAB_BYTES: nat := 0x20_0000   // SLAB_INIT_SIZE
  const SLAB_PAGES: nat := 512
  const SLAB_CHUNK: nat := 9           // the order of its chunk
  const PAGE_BYTES: nat := 0x1000

  datatype Slab = Slab(page: nat, order: nat, free: seq<nat>)

  /** slabs: by address; chains[k]: the slabs of slot order k, in the order of the chain. */
  datatype Heap = Heap(start: nat, pool: Pool, slabs: map<nat, Slab>, chains: seq<seq<nat>>)

  /** x is a slot of the slab at s, and not its header. */
  predicate IsSlot(order: nat, s: nat, x: nat) {
    s < x && x + Pow2(order) <= s + SLAB_BYTES && Aligned(x - s, order)
  }

  ghost predicate SlabOk(h: Heap, s: nat, b: Slab) {
    && s == h.start + b.page * PAGE_BYTES
    && b.page in Outstanding(h.pool) && Outstanding(h.pool)[b.page] == SLAB_CHUNK
    && SLAB_MIN_ORDER <= b.order <= SLAB_MAX_ORDER
    && Distinct(b.free)
    && forall x :: x in b.free ==> IsSlot(b.order, s, x)
  }

  ghost predicate ChainsOk(slabs: map<nat, Slab>, chains: seq<seq<nat>>) {
    && |chains| == SLAB_MAX_ORDER + 1
    && (forall k :: 0 <= k <= SLAB_MAX_ORDER ==> Distinct(chains[k]))
    && (forall k, s: nat :: 0 <= k <= SLAB_MAX_ORDER ==> (s in chains[k] <==> s in slabs && slabs[s].order == k))
  }

  ghost predicate HeapInv(h: Heap) {
    && BuddySpec.Inv(h.pool) && h.start > 0
    && (forall s :: s in h.slabs ==> SlabOk(h, s, h.slabs[s]))
    && ChainsOk(h.slabs, h.chains)
  }

  // ---------- memory ----------

  type Words = map<nat, nat>

  function Word(mem: Words, a: nat): nat {
    if a in mem then mem[a] else 0
  }

  /** The i-th element of a list that ends with NULL. */
  function Elem(l: seq<nat>, i: nat): nat {
    if i < |l| then l[i] else 0
  }

  ghost predicate SlabThreaded(mem: Words, s: nat, b: Slab) {
    && Word(mem, s) == Elem(b.free, 0)
    && Word(mem, s + 16) == b.order
    && forall i :: 0 <= i < |b.free| ==> Word(mem, b.free[i]) == Elem(b.free, i + 1)
  }

  ghost predicate ChainThreaded(mem: Words, head: nat, chain: seq<nat>) {
    head == Elem(chain, 0) && forall i :: 0 <= i < |chain| ==> Word(mem, chain[i] + 8) == Elem(chain, i + 1)
  }

  /** The words in memory spell out the chains and free lists. */
  ghost predicate Threaded(h: Heap, heads: seq<nat>, mem: Words) {
    && |heads| == |h.chains|
    && (forall s :: s in h.slabs ==> SlabThreaded(mem, s, h.slabs[s]))
    && (forall k :: 0 <= k < |h.chains| ==> ChainThreaded(mem, heads[k], h.chains[k]))
  }

  // ---------- page->slab ----------

  predicate InSlab(b: Slab, p: nat) {
    b.page <= p < b.page + SLAB_PAGES
  }

  ghost predicate Marked(h: Heap, marks: seq<nat>) {
    && |marks| == h.pool.n
    && (forall s, p :: s in h.slabs && 0 <= p < |marks| && InSlab(h.slabs[s], p) ==> marks[p] == s)
    && (forall p :: 0 <= p < |marks| && marks[p] != 0 ==> marks[p] in h.slabs && InSlab(h.slabs[marks[p]], p))
  }

  // ---------- the parts of memory ----------

  /** Everything that owns bytes of the pool. */
  datatype Part =
    | Header(slab: nat)
    | Slot(slab: nat, addr: nat)   // in use or free
    | Large(page: nat)             // a chunk in use that is no slab
    | FreeChunk(page: nat)

  ghost predicate PartOk(h: Heap, q: Part) {
    match q
    case Header(s) => s in h.slabs
    case Slot(s, x) => s in h.slabs && IsSlot(h.slabs[s].order, s, x)
    case Large(p) => p in Outstanding(h.pool) && forall s :: s in h.slabs ==> h.slabs[s].page != p
    case FreeChunk(p) => p in h.pool.chunks && h.pool.chunks[p].status == Free
  }

  /** The chunk a part lies in. */
  function PageOf(h: Heap, q: Part): nat
    requires q.Header? || q.Slot? ==> q.slab in h.slabs
  {
    match q
    case Header(s) => h.slabs[s].page
    case Slot(s, x) => h.slabs[s].page
    case Large(p) => p
    case FreeChunk(p) => p
  }

  function Lo(h: Heap, q: Part): nat
    requires q.Header? || q.Slot? ==> q.slab in h.slabs
  {
    match q
    case Header(s) => s
    case Slot(s, x) => x
    case Large(p) => h.start + p * PAGE_BYTES
    case FreeChunk(p) => h.start + p * PAGE_BYTES
  }

  function Hi(h: Heap, q: Part): nat
    requires q.Header? || q.Slot? ==> q.slab in h.slabs
    requires q.Large? || q.FreeChunk? ==> q.page in h.pool.chunks
  {
    match q
    case Header(s) => s + Pow2(h.slabs[s].order)
    case Slot(s, x) => x + Pow2(h.slabs[s].order)
    case Large(p) => h.start + (p + Pow2(h.pool.chunks[p].order)) * PAGE_BYTES
    case FreeChunk(p) => h.start + (p + Pow2(h.pool.chunks[p].order)) * PAGE_BYTES
  }

  lemma SlabPow()
    ensures Pow2(SLAB_CHUNK) == SLAB_PAGES && Pow2(SLAB_MIN_ORDER) == 32 && Pow2(SLAB_MAX_ORDER) == 2048
  {
    assert Pow2(5) == 32;
    assert Pow2(9) == 512;
    assert Pow2(11) == 2048;
  }

  lemma SlotSizes(k: nat)
    requires SLAB_MIN_ORDER <= k <= SLAB_MAX_ORDER
    ensures 32 <= Pow2(k) <= 2048
  {
    SlabPow();
    Pow2Mono(SLAB_MIN_ORDER, k);
    Pow2Mono(k, SLAB_MAX_ORDER);
  }

  /** The bytes of a part lie inside its chunk. */
  lemma PartInChunk(h: Heap, q: Part)
    requires HeapInv(h) && PartOk(h, q)
    ensures PageOf(h, q) in h.pool.chunks
    ensures q.Large? || q.FreeChunk? ==> q.page in h.pool.chunks
    ensures var c := h.pool.chunks[PageOf(h, q)];
      && h.start + PageOf(h, q) * PAGE_BYTES <= Lo(h, q) < Hi(h, q)
      && Hi(h, q) <= h.start + (PageOf(h, q) + Pow2(c.order)) * PAGE_BYTES
  {
    SlabPow();
    if q.Header? || q.Slot? {
      assert SlabOk(h, q.slab, h.slabs[q.slab]);
      SlotSizes(h.slabs[q.slab].order);
      hide Pow2, Aligned;
    } else {
      hide Pow2, Aligned;
    }
  }

  /** Slots of one slab, and its header, do not overlap. */
  lemma SlotsApart(order: nat, s: nat, x: nat, y: nat)
    requires (x == s || IsSlot(order, s, x)) && IsSlot(order, s, y) && x < y
    ensures x + Pow2(order) <= y
  {
    if y < x + Pow2(order) {
      ZeroAligned(order);
      Nested(y - s, order, x - s, order);
    }
  }

  lemma {:induction false} ZeroAligned(k: nat)
    ensures Aligned(0, k)
  {
    if k > 0 { ZeroAligned(k - 1); }
  }

  /** Two slabs are in different chunks. */
  lemma SlabsDiffer(h: Heap, s: nat, t: nat)
    requires HeapInv(h) && s in h.slabs && t in h.slabs && h.slabs[s].page == h.slabs[t].page
    ensures s == t
  {
    assert SlabOk(h, s, h.slabs[s]) && SlabOk(h, t, h.slabs[t]);
  }

  lemma ChunksApart(h: Heap, p: nat, q: nat)
    requires HeapInv(h) && p in h.pool.chunks && q in h.pool.chunks && p < q
    ensures h.start + (p + Pow2(h.pool.chunks[p].order)) * PAGE_BYTES <= h.start + q * PAGE_BYTES
  {
    hide Pow2;
  }

  /** No two parts of memory overlap: slots in use, free slots, slab headers, larger blocks and free chunks. */
  lemma PartsApart(h: Heap, q: Part, r: Part)
    requires HeapInv(h) && PartOk(h, q) && PartOk(h, r) && q != r
    ensures PageOf(h, q) in h.pool.chunks && PageOf(h, r) in h.pool.chunks
    ensures q.Large? || q.FreeChunk? ==> q.page in h.pool.chunks
    ensures r.Large? || r.FreeChunk? ==> r.page in h.pool.chunks
    ensures Hi(h, q) <= Lo(h, r) || Hi(h, r) <= Lo(h, q)
  {
    PartInChunk(h, q);
    PartInChunk(h, r);
    var m, n := PageOf(h, q), PageOf(h, r);
    if m < n { ChunksApart(h, m, n); }
    else if n < m { ChunksApart(h, n, m); }
    else { SameChunk(h, q, r); }
  }

  lemma SameChunk(h: Heap, q: Part, r: Part)
    requires HeapInv(h) && PartOk(h, q) && PartOk(h, r) && q != r && PageOf(h, q) == PageOf(h, r)
    requires q.Large? || q.FreeChunk? ==> q.page in h.pool.chunks
    requires r.Large? || r.FreeChunk? ==> r.page in h.pool.chunks
    ensures Hi(h, q) <= Lo(h, r) || Hi(h, r) <= Lo(h, q)
  {
    var slabby := q.Header? || q.Slot?;
    if slabby { assert SlabOk(h, q.slab, h.slabs[q.slab]); }
    if r.Header? || r.Slot? {
      assert SlabOk(h, r.slab, h.slabs[r.slab]);
      if slabby {
        SlabsDiffer(h, q.slab, r.slab);
        var k := h.slabs[q.slab].order;
        if Lo(h, q) < Lo(h, r) { SlotsApart(k, q.slab, Lo(h, q), Lo(h, r)); }
        else if r.Slot? || q.Slot? { SlotsApart(k, q.slab, Lo(h, r), Lo(h, q)); }
      }
    }
  }
}
