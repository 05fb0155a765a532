/** What the buddy allocator does, on values: a pool is a tiling of its pages by
    chunks plus the fourteen free lists.  Pages are numbered from 0 within the
    pool; `base` is the absolute number of page 0, and alignment is absolute. */
module BuddySpec {
  import opened Bits
  import opened Rings
  import opened Options

  const MAX_ORDER: nat := LISTS   // BUDDY_MAX_ORDER
  const TOP: nat := MAX_ORDER - 1 // the largest order

  /** Held: neither on a free list nor handed out, as inside split_page and merge_page. */
  datatype Status = Free | Out | Held
  datatype Chunk = Chunk(order: nat, status: Status)
  type Tiling = map<nat, Chunk>   // first page of a chunk -> the chunk

  datatype Pool = Pool(base: nat, n: nat, lists: seq<seq<nat>>, chunks: Tiling)

  // ---------- the invariant ----------

  predicate ChunkOk(base: nat, n: nat, h: nat, c: Chunk) {
    c.order < MAX_ORDER && h + Pow2(c.order) <= n && Aligned(base + h, c.order)
  }

  predicate Covers(t: Tiling, h: nat, p: nat) {
    h in t && h <= p < h + Pow2(t[h].order)
  }

  predicate AllOk(base: nat, n: nat, t: Tiling) {
    forall h :: h in t ==> ChunkOk(base, n, h, t[h])
  }

  predicate Apart(t: Tiling) {
    forall g, h :: g in t && h in t && g < h ==> g + Pow2(t[g].order) <= h
  }

  ghost predicate Covering(n: nat, t: Tiling) {
    forall p: nat :: p < n ==> Covered(t, p)
  }

  /** The chunks are aligned, lie inside the pool, and every page is in exactly one of them. */
  ghost predicate Tiled(base: nat, n: nat, t: Tiling) {
    AllOk(base, n, t) && Apart(t) && Covering(n, t)
  }

  ghost predicate Covered(t: Tiling, p: nat) {
    exists h: nat :: Covers(t, h, p)
  }

  /** Free list k holds exactly the first pages of the free chunks of order k, each once. */
  ghost predicate ListsMatch(lists: seq<seq<nat>>, t: Tiling) {
    && |lists| == MAX_ORDER
    && (forall k :: 0 <= k < MAX_ORDER ==> Distinct(lists[k]))
    && (forall k, h: nat :: 0 <= k < MAX_ORDER ==> (h in lists[k] <==> h in t && t[h] == Chunk(k, Free)))
  }

  /** g and h are free, are the two halves of one block, and are small enough to be joined. */
  predicate Mergeable(base: nat, t: Tiling, g: nat, h: nat) {
    && g in t && h in t && t[g].status == Free && t[g] == t[h] && t[g].order < TOP
    && h == g + Pow2(t[g].order) && Aligned(base + g, t[g].order + 1)
  }

  /** No two free chunks could be merged. */
  ghost predicate Canonical(base: nat, t: Tiling) {
    forall g, h :: !Mergeable(base, t, g, h)
  }

  ghost predicate Common(v: Pool) {
    Tiled(v.base, v.n, v.chunks) && ListsMatch(v.lists, v.chunks) && Canonical(v.base, v.chunks)
  }

  /** The invariant between calls. */
  ghost predicate Inv(v: Pool) {
    Common(v) && forall h :: h in v.chunks ==> v.chunks[h].status != Held
  }

  /** The invariant inside a call: chunk p, and only p, is in the hands of the code. */
  ghost predicate InvHeld(v: Pool, p: nat) {
    && Common(v) && p in v.chunks && v.chunks[p].status == Held
    && forall h :: h in v.chunks && h != p ==> v.chunks[h].status != Held
  }

  /** The chunks in use: first page -> order. */
  function Outstanding(v: Pool): map<nat, nat> {
    map h | h in v.chunks && v.chunks[h].status == Out :: v.chunks[h].order
  }

  ghost predicate FreeAt(v: Pool, p: nat) {
    exists h :: Covers(v.chunks, h, p) && v.chunks[h].status == Free
  }

  // ---------- the operations ----------

  /** The other half of the enclosing block of order k + 1; it may lie outside the pool. */
  function Buddy(v: Pool, p: nat, k: nat): (b: int) {
    if Aligned(v.base + p, k + 1) then p + Pow2(k) else p - Pow2(k)
  }

  function Push(v: Pool, p: nat, k: nat): Pool
    requires k < |v.lists|
  {
    v.(lists := v.lists[k := [p] + v.lists[k]], chunks := v.chunks[p := Chunk(k, Free)])
  }

  /** Halve the held chunk p and put its upper half on a free list. */
  function Split(v: Pool, p: nat): Pool
    requires |v.lists| == MAX_ORDER && p in v.chunks && 0 < v.chunks[p].order < MAX_ORDER
  {
    var k := v.chunks[p].order - 1;
    Push(v.(chunks := v.chunks[p := Chunk(k, Held)]), p + Pow2(k), k)
  }

  function SplitTo(v: Pool, p: nat, order: nat): (w: Pool)
    requires |v.lists| == MAX_ORDER && p in v.chunks && v.chunks[p].order < MAX_ORDER
    decreases if p in v.chunks then v.chunks[p].order else 0
  {
    if v.chunks[p].order <= order then v else SplitTo(Split(v, p), p, order)
  }

  /** The smallest order from k on whose free list is not empty, or MAX_ORDER. */
  function FirstNonEmpty(lists: seq<seq<nat>>, k: nat): (r: nat)
    requires |lists| == MAX_ORDER && k <= MAX_ORDER
    ensures k <= r <= MAX_ORDER
    ensures r < MAX_ORDER ==> lists[r] != []
    ensures forall j :: k <= j < r ==> lists[j] == []
    decreases MAX_ORDER - k
  {
    if k == MAX_ORDER || lists[k] != [] then k else FirstNonEmpty(lists, k + 1)
  }

  /** Take free chunk p off its list. */
  function Unlink(v: Pool, p: nat): Pool
    requires |v.lists| == MAX_ORDER && p in v.chunks && v.chunks[p].order < MAX_ORDER
    requires p in v.lists[v.chunks[p].order]
  {
    var k := v.chunks[p].order;
    v.(lists := v.lists[k := Remove(v.lists[k], p)], chunks := v.chunks[p := Chunk(k, Held)])
  }

  function Mark(v: Pool, p: nat, s: Status): Pool
    requires p in v.chunks
  {
    v.(chunks := v.chunks[p := Chunk(v.chunks[p].order, s)])
  }

  /** buddy_get_pages */
  ghost function GetPages(v: Pool, order: nat): (r: (Pool, Option<nat>))
    requires Inv(v)
  {
    if order >= MAX_ORDER then (v, None)
    else
      var k := FirstNonEmpty(v.lists, order);
      if k == MAX_ORDER then (v, None)
      else
        var p := v.lists[k][0];
        assert p in v.lists[k];
        UnlinkHeld(v, p);
        SplitToHeld(Unlink(v, p), p, order);
        (Mark(SplitTo(Unlink(v, p), p, order), p, Out), Some(p))
  }

  /** merge_page may go on: the buddy is a free chunk of the same order. */
  predicate CanMerge(v: Pool, p: nat)
    requires p in v.chunks
  {
    var k := v.chunks[p].order;
    var b := Buddy(v, p, k);
    k < TOP && 0 <= b < v.n && b in v.chunks && v.chunks[b] == Chunk(k, Free)
  }

  /** Join the held chunk p with its free buddy. */
  function Merge(v: Pool, p: nat): Pool
    requires |v.lists| == MAX_ORDER && p in v.chunks && CanMerge(v, p)
    requires (Buddy(v, p, v.chunks[p].order) as nat) in v.lists[v.chunks[p].order]
  {
    var k := v.chunks[p].order;
    var b: nat := Buddy(v, p, k);
    var lo, hi := if b < p then b else p, if b < p then p else b;
    v.(lists := v.lists[k := Remove(v.lists[k], b)], chunks := (v.chunks - {hi})[lo := Chunk(k + 1, Held)])
  }

  function Lower(v: Pool, p: nat): (lo: nat)
    requires p in v.chunks && CanMerge(v, p)
  {
    var b := Buddy(v, p, v.chunks[p].order);
    if b < p then b else p
  }

  ghost function MergeUp(v: Pool, p: nat): (r: (Pool, nat))
    requires InvHeld(v, p)
    ensures InvHeld(r.0, r.1) && !CanMerge(r.0, r.1)
    ensures r.0.base == v.base && r.0.n == v.n
    decreases MAX_ORDER - (if p in v.chunks then v.chunks[p].order else 0)
  {
    if CanMerge(v, p) then
      MergeHeld(v, p);
      MergeKeeps(v, p);
      MergeUp(Merge(v, p), Lower(v, p))
    else (v, p)
  }

  /** buddy_free_pages */
  ghost function FreePages(v: Pool, p: nat): (w: Pool)
    requires Inv(v) && p in v.chunks && v.chunks[p].status == Out
  {
    MarkHeld(v, p);
    var (w, q) := MergeUp(Mark(v, p, Held), p);
    Push(w, q, w.chunks[q].order)
  }

  // ---------- each step keeps the invariant ----------

  lemma UniqueCover(v: Pool, g: nat, h: nat, p: nat)
    requires Tiled(v.base, v.n, v.chunks) && Covers(v.chunks, g, p) && Covers(v.chunks, h, p)
    ensures g == h
  {
  }

  /** Changing only statuses keeps the tiling. */
  lemma Retile(base: nat, n: nat, t: Tiling, p: nat, s: Status)
    requires Tiled(base, n, t) && p in t
    ensures Tiled(base, n, t[p := Chunk(t[p].order, s)])
  {
    var u := t[p := Chunk(t[p].order, s)];
    forall q: nat | q < n ensures Covered(u, q) {
      assert Covered(t, q);
      var h: nat :| Covers(t, h, q);
      assert Covers(u, h, q);
    }
  }

  /** The two halves of a chunk are chunks. */
  lemma Halves(base: nat, n: nat, p: nat, k: nat, s: Status)
    requires ChunkOk(base, n, p, Chunk(k + 1, s))
    ensures Pow2(k + 1) == 2 * Pow2(k)
    ensures ChunkOk(base, n, p, Chunk(k, s)) && ChunkOk(base, n, p + Pow2(k), Chunk(k, s))
    ensures !Aligned(base + (p + Pow2(k)), k + 1)
  {
    AlignedWeaken(base + p, k, k + 1);
    AlignedHalves(base + p, k);
    assert base + p + Pow2(k) == base + (p + Pow2(k));
  }

  /** u is t with block p of order k + 1 replaced by its halves. */
  ghost predicate Halved(t: Tiling, u: Tiling, p: nat, k: nat) {
    && p in t && t[p].order == k + 1
    && p in u && u[p].order == k
    && p + Pow2(k) in u && u[p + Pow2(k)].order == k
    && forall h :: h != p && h != p + Pow2(k) ==> (h in u <==> h in t) && (h in t && h in u ==> u[h] == t[h])
  }

  lemma HalvedApart(t: Tiling, u: Tiling, p: nat, k: nat)
    requires Halved(t, u, p, k) && p + Pow2(k) !in t && Pow2(k + 1) == 2 * Pow2(k)
    ensures Apart(t) ==> Apart(u)
  {
    hide Pow2;
  }

  lemma HalvedCovering(n: nat, t: Tiling, u: Tiling, p: nat, k: nat)
    requires Halved(t, u, p, k) && p + Pow2(k) !in t && Covering(n, t)
    ensures Covering(n, u)
  {
    assert Pow2(k + 1) == 2 * Pow2(k);
    forall q: nat | q < n ensures Covered(u, q) {
      assert Covered(t, q);
      var h: nat :| Covers(t, h, q);
      assert Covers(u, if h == p && q >= p + Pow2(k) then p + Pow2(k) else h, q);
    }
  }

  /** No chunk starts strictly inside another. */
  lemma NoneInside(t: Tiling, p: nat, b: nat)
    requires Apart(t) && p in t && p < b < p + Pow2(t[p].order)
    ensures b !in t
  {
  }

  lemma HalvedTiled(base: nat, n: nat, t: Tiling, u: Tiling, p: nat, k: nat)
    requires Halved(t, u, p, k) && p + Pow2(k) !in t && Tiled(base, n, t) && Pow2(k + 1) == 2 * Pow2(k)
    requires ChunkOk(base, n, p, u[p]) && ChunkOk(base, n, p + Pow2(k), u[p + Pow2(k)])
    ensures Tiled(base, n, u)
  {
    hide Pow2, Aligned, Covering, Apart, ChunkOk;
    HalvedApart(t, u, p, k);
    HalvedCovering(n, t, u, p, k);
  }

  lemma HalvedByUpdate(t: Tiling, p: nat, k: nat, s: Status, s': Status)
    requires p in t && t[p].order == k + 1 && p + Pow2(k) !in t
    ensures Halved(t, t[p := Chunk(k, s)][p + Pow2(k) := Chunk(k, s')], p, k)
  {
    hide Pow2;
  }

  /** Two halves in place of one block. */
  lemma RetileSplit(base: nat, n: nat, t: Tiling, p: nat, k: nat, s: Status, s': Status)
    requires Tiled(base, n, t) && p in t && t[p].order == k + 1
    ensures p + Pow2(k) !in t
    ensures Tiled(base, n, t[p := Chunk(k, s)][p + Pow2(k) := Chunk(k, s')])
  {
    assert ChunkOk(base, n, p, t[p]);
    Halves(base, n, p, k, s);
    Halves(base, n, p, k, s');
    NoneInside(t, p, p + Pow2(k));
    hide *;
    var u := t[p := Chunk(k, s)][p + Pow2(k) := Chunk(k, s')];
    HalvedByUpdate(t, p, k, s, s');
    assert ChunkOk(base, n, p, u[p]) && ChunkOk(base, n, p + Pow2(k), u[p + Pow2(k)]);
    HalvedTiled(base, n, t, u, p, k);
  }

  lemma DoubledApart(t: Tiling, u: Tiling, p: nat, k: nat)
    requires Halved(u, t, p, k) && p + Pow2(k) !in u && Pow2(k + 1) == 2 * Pow2(k)
    ensures Apart(t) ==> Apart(u)
  {
    hide Pow2;
  }

  lemma DoubledCovering(n: nat, t: Tiling, u: Tiling, p: nat, k: nat)
    requires Halved(u, t, p, k) && p + Pow2(k) !in u && Covering(n, t)
    ensures Covering(n, u)
  {
    assert Pow2(k + 1) == 2 * Pow2(k);
    forall q: nat | q < n ensures Covered(u, q) {
      assert Covered(t, q);
      var h: nat :| Covers(t, h, q);
      assert Covers(u, if h == p + Pow2(k) then p else h, q);
    }
  }

  lemma DoubledTiled(base: nat, n: nat, t: Tiling, u: Tiling, p: nat, k: nat)
    requires Halved(u, t, p, k) && p + Pow2(k) !in u && Tiled(base, n, t) && Pow2(k + 1) == 2 * Pow2(k)
    requires ChunkOk(base, n, p, u[p])
    ensures Tiled(base, n, u)
  {
    hide Pow2, Aligned, Covering, Apart, ChunkOk;
    DoubledApart(t, u, p, k);
    DoubledCovering(n, t, u, p, k);
  }

  /** One block in place of its two halves. */
  lemma RetileMerge(base: nat, n: nat, t: Tiling, lo: nat, k: nat, s: Status)
    requires Tiled(base, n, t) && k < TOP && lo in t && lo + Pow2(k) in t
    requires t[lo].order == k && t[lo + Pow2(k)].order == k && Aligned(base + lo, k + 1)
    ensures Tiled(base, n, (t - {lo + Pow2(k)})[lo := Chunk(k + 1, s)])
  {
    hide Pow2, Aligned, Tiled, Halved, ChunkOk;
    var hi: nat := lo + Pow2(k);
    var u := (t - {hi})[lo := Chunk(k + 1, s)];
    DoubleOk(base, n, t, lo, k, s);
    DoubledByUpdate(t, lo, k, s);
    DoubledTiled(base, n, t, u, lo, k);
  }

  lemma DoubleOk(base: nat, n: nat, t: Tiling, lo: nat, k: nat, s: Status)
    requires Tiled(base, n, t) && k < TOP && lo + Pow2(k) in t && t[lo + Pow2(k)].order == k
    requires Aligned(base + lo, k + 1)
    ensures Pow2(k + 1) == 2 * Pow2(k) && ChunkOk(base, n, lo, Chunk(k + 1, s))
  {
    assert ChunkOk(base, n, lo + Pow2(k), t[lo + Pow2(k)]);
    hide Aligned, Apart, Covering;
  }

  lemma DoubledByUpdate(t: Tiling, lo: nat, k: nat, s: Status)
    requires lo in t && t[lo].order == k && lo + Pow2(k) in t && t[lo + Pow2(k)].order == k
    ensures Halved((t - {lo + Pow2(k)})[lo := Chunk(k + 1, s)], t, lo, k)
  {
  }

  /** Chunks that were not free cannot become mergeable. */
  lemma KeepCanonical(base: nat, t: Tiling, u: Tiling)
    requires Canonical(base, t)
    requires forall h :: h in u && u[h].status == Free ==> h in t && t[h] == u[h]
    ensures Canonical(base, u)
  {
    forall g, h ensures !Mergeable(base, u, g, h) {
      assert !Mergeable(base, t, g, h);
    }
  }

  /** One more free chunk b, whose other half x is not a free chunk of the same order. */
  lemma AddCanonical(base: nat, t: Tiling, b: nat, k: nat, x: int)
    requires Canonical(base, t) && k < MAX_ORDER && Aligned(base + b, k)
    requires x == if Aligned(base + b, k + 1) then b + Pow2(k) else b - Pow2(k)
    requires k < TOP && x >= 0 && x in t ==> t[x] != Chunk(k, Free)
    ensures Canonical(base, t[b := Chunk(k, Free)])
  {
    var u := t[b := Chunk(k, Free)];
    forall g, h ensures !Mergeable(base, u, g, h) {
      assert !Mergeable(base, t, g, h);
      if Mergeable(base, u, g, h) && h == b {
        AlignedWeaken(base + g, k, k + 1);
        AlignedHalves(base + g, k);
      }
    }
  }

  lemma PushLists(lists: seq<seq<nat>>, t: Tiling, p: nat, k: nat)
    requires ListsMatch(lists, t) && k < MAX_ORDER && (p in t ==> t[p].status != Free)
    ensures ListsMatch(lists[k := [p] + lists[k]], t[p := Chunk(k, Free)])
  {
  }

  lemma UnlinkLists(lists: seq<seq<nat>>, t: Tiling, p: nat, c: Chunk)
    requires ListsMatch(lists, t) && p in t && t[p].order < MAX_ORDER && t[p].status == Free && c.status != Free
    ensures p in lists[t[p].order]
    ensures ListsMatch(lists[t[p].order := Remove(lists[t[p].order], p)], t[p := c])
  {
    assert t[p] == Chunk(t[p].order, Free);
    RemoveMembers(lists[t[p].order], p);
  }

  /** Only the status of one chunk changes, and neither status is Free. */
  lemma RestatusLists(lists: seq<seq<nat>>, t: Tiling, p: nat, s: Status)
    requires ListsMatch(lists, t) && p in t && t[p].status != Free && s != Free
    ensures ListsMatch(lists, t[p := Chunk(t[p].order, s)])
  {
  }

  lemma FourteenMatch(lists: seq<seq<nat>>, t: Tiling)
    requires ListsMatch(lists, t)
    ensures |lists| == MAX_ORDER
  {
  }

  lemma UnlinkHeld(v: Pool, p: nat)
    requires Inv(v) && p in v.chunks && v.chunks[p].status == Free
    ensures v.chunks[p].order < MAX_ORDER && p in v.lists[v.chunks[p].order]
    ensures InvHeld(Unlink(v, p), p)
  {
    assert ChunkOk(v.base, v.n, p, v.chunks[p]);
    UnlinkLists(v.lists, v.chunks, p, Chunk(v.chunks[p].order, Held));
    Retile(v.base, v.n, v.chunks, p, Held);
    KeepCanonical(v.base, v.chunks, v.chunks[p := Chunk(v.chunks[p].order, Held)]);
  }

  lemma MarkHeld(v: Pool, p: nat)
    requires Inv(v) && p in v.chunks && v.chunks[p].status == Out
    ensures InvHeld(Mark(v, p, Held), p)
  {
    hide Tiled, ListsMatch, Canonical;
    Retile(v.base, v.n, v.chunks, p, Held);
    RestatusLists(v.lists, v.chunks, p, Held);
    KeepCanonical(v.base, v.chunks, v.chunks[p := Chunk(v.chunks[p].order, Held)]);
  }

  lemma MarkOut(v: Pool, p: nat)
    requires InvHeld(v, p)
    ensures Inv(Mark(v, p, Out))
  {
    hide Tiled, ListsMatch, Canonical;
    Retile(v.base, v.n, v.chunks, p, Out);
    RestatusLists(v.lists, v.chunks, p, Out);
    KeepCanonical(v.base, v.chunks, v.chunks[p := Chunk(v.chunks[p].order, Out)]);
  }

  /** Splitting finds the buddy exactly in the upper half, and it is not the head of any chunk yet. */
  lemma SplitBuddy(v: Pool, p: nat)
    requires InvHeld(v, p) && 0 < v.chunks[p].order
    ensures v.chunks[p].order < MAX_ORDER && |v.lists| == MAX_ORDER
    ensures p + Pow2(v.chunks[p].order - 1) !in v.chunks
    ensures Buddy(v, p, v.chunks[p].order - 1) == p + Pow2(v.chunks[p].order - 1) < v.n
    ensures Aligned(v.base + (p + Pow2(v.chunks[p].order - 1)), v.chunks[p].order - 1)
    ensures !Aligned(v.base + (p + Pow2(v.chunks[p].order - 1)), v.chunks[p].order)
  {
    assert |v.lists| == MAX_ORDER;
    hide Aligned, ListsMatch, Canonical;
    assert ChunkOk(v.base, v.n, p, v.chunks[p]);
    var k := v.chunks[p].order - 1;
    Halves(v.base, v.n, p, k, Held);
  }

  lemma SplitHeld(v: Pool, p: nat)
    requires InvHeld(v, p) && 0 < v.chunks[p].order
    ensures v.chunks[p].order < MAX_ORDER && |v.lists| == MAX_ORDER
    ensures InvHeld(Split(v, p), p)
  {
    hide Pow2, Aligned, Tiled, ListsMatch, Canonical, Buddy;
    SplitBuddy(v, p);
    var k := v.chunks[p].order - 1;
    var b := p + Pow2(k);
    RetileSplit(v.base, v.n, v.chunks, p, k, Held, Free);
    SplitLists(v.lists, v.chunks, p, b, k);
    SplitCanonical(v.base, v.chunks, p, b, k);
    assert Split(v, p).chunks == v.chunks[p := Chunk(k, Held)][b := Chunk(k, Free)];
  }

  lemma SplitCanonical(base: nat, t: Tiling, p: nat, b: nat, k: nat)
    requires Canonical(base, t) && k < MAX_ORDER && p in t && t[p].status == Held && b == p + Pow2(k)
    requires Aligned(base + b, k) && !Aligned(base + b, k + 1)
    ensures Canonical(base, t[p := Chunk(k, Held)][b := Chunk(k, Free)])
  {
    hide Pow2, Aligned, Canonical;
    var u := t[p := Chunk(k, Held)];
    KeepCanonical(base, t, u);
    AddCanonical(base, u, b, k, p);
  }

  lemma SplitLists(lists: seq<seq<nat>>, t: Tiling, p: nat, b: nat, k: nat)
    requires ListsMatch(lists, t) && k < MAX_ORDER && p in t && t[p].status == Held && b !in t
    ensures ListsMatch(lists[k := [b] + lists[k]], t[p := Chunk(k, Held)][b := Chunk(k, Free)])
  {
    var u := t[p := Chunk(k, Held)];
    assert ListsMatch(lists, u);
    PushLists(lists, u, b, k);
  }

  lemma SplitOutstanding(v: Pool, p: nat)
    requires |v.lists| == MAX_ORDER && p in v.chunks && 0 < v.chunks[p].order < MAX_ORDER
    requires v.chunks[p].status == Held && p + Pow2(v.chunks[p].order - 1) !in v.chunks
    ensures Outstanding(Split(v, p)) == Outstanding(v)
  {
  }

  lemma {:induction false} SplitToHeld(v: Pool, p: nat, order: nat)
    requires InvHeld(v, p) && order <= v.chunks[p].order
    ensures v.chunks[p].order < MAX_ORDER
    ensures InvHeld(SplitTo(v, p, order), p)
    ensures SplitTo(v, p, order).chunks[p] == Chunk(order, Held)
    ensures SplitTo(v, p, order).base == v.base && SplitTo(v, p, order).n == v.n
    ensures Outstanding(SplitTo(v, p, order)) == Outstanding(v)
    decreases v.chunks[p].order
  {
    assert ChunkOk(v.base, v.n, p, v.chunks[p]);
    if order < v.chunks[p].order {
      SplitBuddy(v, p);
      SplitHeld(v, p);
      SplitOutstanding(v, p);
      var w := Split(v, p);
      assert w.chunks[p].order == v.chunks[p].order - 1;
      SplitToHeld(w, p, order);
      assert SplitTo(v, p, order) == SplitTo(w, p, order);
    } else {
      assert SplitTo(v, p, order) == v;
    }
  }

  /** The heart of merging: at the time it is read, the buddy position, if it is
      in the pool at all, is the first page of a chunk, and of no larger order.
      So the metadata that merge_page reads there is never stale. */
  lemma BuddyIsHead(v: Pool, p: nat)
    requires InvHeld(v, p) && v.chunks[p].order < TOP
    requires 0 <= Buddy(v, p, v.chunks[p].order) < v.n
    ensures var b: nat := Buddy(v, p, v.chunks[p].order);
            b != p && b in v.chunks && v.chunks[b].order <= v.chunks[p].order && v.chunks[b].status != Held
  {
    assert ChunkOk(v.base, v.n, p, v.chunks[p]);
    HeadOfHalf(v.base, v.n, v.chunks, p, v.chunks[p].order, Buddy(v, p, v.chunks[p].order));
  }

  lemma HeadOfHalf(base: nat, n: nat, t: Tiling, p: nat, k: nat, b: nat)
    requires Tiled(base, n, t) && p in t && t[p].order == k && b < n && Aligned(base + p, k)
    requires b == if Aligned(base + p, k + 1) then p + Pow2(k) else p - Pow2(k)
    ensures b != p && b in t && t[b].order <= k
  {
    assert Covered(t, b);
    var h: nat :| Covers(t, h, b);
    assert ChunkOk(base, n, h, t[h]);
    BlockAtHalf(base, p, k, b, h, t[h].order);
  }

  /** An aligned block that holds the other half of p's parent starts there, or is large enough to hold p too. */
  lemma BlockAtHalf(base: nat, p: nat, k: nat, b: nat, h: nat, j: nat)
    requires Aligned(base + p, k) && Aligned(base + h, j) && h <= b < h + Pow2(j)
    requires b == if Aligned(base + p, k + 1) then p + Pow2(k) else p - Pow2(k)
    ensures j <= k ==> h == b
    ensures j > k ==> h <= p < h + Pow2(j)
  {
    HalfAlignment(base, p, k, b);
    var lo := if b < p then b else p;
    if j > k {
      LargerHolds(base + lo, k, base + h, j, base + b);
    } else {
      SameStart(base + h, j, base + b, k);
    }
  }

  lemma HalfAlignment(base: nat, p: nat, k: nat, b: nat)
    requires Aligned(base + p, k)
    requires b == if Aligned(base + p, k + 1) then p + Pow2(k) else p - Pow2(k)
    ensures Aligned(base + (if b < p then b else p), k + 1) && Aligned(base + b, k)
  {
    AlignedHalves(base + p, k);
    assert base + p + Pow2(k) == base + (p + Pow2(k));
    if b < p {
      assert base + p - Pow2(k) == base + b;
      AlignedWeaken(base + b, k, k + 1);
    }
  }

  /** A block larger than order k that holds one half of an order k + 1 block holds both halves. */
  lemma LargerHolds(lo: nat, k: nat, h: nat, j: nat, q: nat)
    requires k < j && Aligned(lo, k + 1) && Aligned(h, j) && lo <= q < lo + Pow2(k + 1) && h <= q < h + Pow2(j)
    ensures h <= lo && lo + Pow2(k + 1) <= h + Pow2(j)
  {
    AlignedWeaken(h, k + 1, j);
    if lo < h { Nested(h, k + 1, lo, k + 1); }
    Nested(lo, k + 1, h, j);
  }

  lemma MergeHeld(v: Pool, p: nat)
    requires InvHeld(v, p) && CanMerge(v, p)
    ensures |v.lists| == MAX_ORDER
    ensures (Buddy(v, p, v.chunks[p].order) as nat) in v.lists[v.chunks[p].order]
    ensures InvHeld(Merge(v, p), Lower(v, p))
  {
    hide Pow2, Aligned, Tiled, ListsMatch, Canonical, Buddy;
    FourteenMatch(v.lists, v.chunks);
    var k := v.chunks[p].order;
    var b: nat := Buddy(v, p, k);
    UnlinkLists(v.lists, v.chunks, b, Chunk(k, Held));
    BuddyIs(v, p, k);
    MergeParts(v.base, v.n, v.chunks, v.lists, p, k, b);
    MergedHeld(v, p, b);
  }

  lemma BuddyIs(v: Pool, p: nat, k: nat)
    ensures Buddy(v, p, k) == if Aligned(v.base + p, k + 1) then p + Pow2(k) else p - Pow2(k)
  {
  }

  /** The merged chunk is in hand, and no other. */
  lemma MergedHeld(v: Pool, p: nat, b: nat)
    requires InvHeld(v, p) && CanMerge(v, p) && |v.lists| == MAX_ORDER && b == Buddy(v, p, v.chunks[p].order)
    requires b in v.lists[v.chunks[p].order]
    requires var k := v.chunks[p].order;
      var u := (v.chunks - {if b < p then p else b})[if b < p then b else p := Chunk(k + 1, Held)];
      Tiled(v.base, v.n, u) && Canonical(v.base, u) && ListsMatch(v.lists[k := Remove(v.lists[k], b)], u)
    ensures InvHeld(Merge(v, p), Lower(v, p))
  {
    hide Pow2, Aligned, Tiled, ListsMatch, Canonical, Buddy, Remove;
  }

  lemma MergeParts(base: nat, n: nat, t: Tiling, lists: seq<seq<nat>>, p: nat, k: nat, b: nat)
    requires Tiled(base, n, t) && Canonical(base, t) && ListsMatch(lists, t)
    requires p in t && t[p] == Chunk(k, Held) && k < TOP && b in t && t[b] == Chunk(k, Free)
    requires b == if Aligned(base + p, k + 1) then p + Pow2(k) else p - Pow2(k)
    requires |lists| == MAX_ORDER && b in lists[k]
    ensures var u := (t - {if b < p then p else b})[if b < p then b else p := Chunk(k + 1, Held)];
      Tiled(base, n, u) && Canonical(base, u) && ListsMatch(lists[k := Remove(lists[k], b)], u)
  {
    hide Pow2, Aligned, Tiled, Canonical, ListsMatch, Remove;
    var lo, hi := if b < p then b else p, if b < p then p else b;
    MergeTiling(base, n, t, p, k, b);
    var u := (t - {hi})[lo := Chunk(k + 1, Held)];
    KeepCanonical(base, t, u);
    UnlinkLists(lists, t, b, Chunk(k, Held));
    MergeLists(lists[k := Remove(lists[k], b)], t[b := Chunk(k, Held)], u, lo, hi);
  }

  lemma MergeKeeps(v: Pool, p: nat)
    requires InvHeld(v, p) && CanMerge(v, p)
    ensures |v.lists| == MAX_ORDER
    ensures (Buddy(v, p, v.chunks[p].order) as nat) in v.lists[v.chunks[p].order]
    ensures Merge(v, p).chunks[Lower(v, p)].order == v.chunks[p].order + 1
    ensures Outstanding(Merge(v, p)) == Outstanding(v)
  {
    hide Pow2, Aligned, Tiled, ListsMatch, Canonical, Buddy, Outstanding, Remove;
    MergeHeld(v, p);
    var b: nat := Buddy(v, p, v.chunks[p].order);
    MergeOutstanding(v, Merge(v, p), if b < p then b else p, if b < p then p else b);
  }

  lemma MergeTiling(base: nat, n: nat, t: Tiling, p: nat, k: nat, b: nat)
    requires Tiled(base, n, t) && p in t && t[p].order == k < TOP && b in t && t[b].order == k
    requires b == if Aligned(base + p, k + 1) then p + Pow2(k) else p - Pow2(k)
    ensures b != p
    ensures Tiled(base, n, (t - {if b < p then p else b})[if b < p then b else p := Chunk(k + 1, Held)])
  {
    assert ChunkOk(base, n, p, t[p]);
    hide Tiled, Pow2, Aligned;
    HalfAlignment(base, p, k, b);
    RetileMerge(base, n, t, if b < p then b else p, k, Held);
  }

  lemma MergeLists(lists: seq<seq<nat>>, t: Tiling, u: Tiling, lo: nat, hi: nat)
    requires ListsMatch(lists, t) && lo in t && hi in t && t[lo].status != Free && t[hi].status != Free
    requires lo in u && u[lo].status != Free && hi !in u
    requires forall h :: h != lo && h != hi ==> (h in u <==> h in t)
    requires forall h :: h != lo && h in u && h in t ==> u[h] == t[h]
    ensures ListsMatch(lists, u)
  {
  }

  lemma MergeOutstanding(v: Pool, w: Pool, lo: nat, hi: nat)
    requires lo in v.chunks && hi in v.chunks && v.chunks[lo].status != Out && v.chunks[hi].status != Out
    requires lo in w.chunks && w.chunks[lo].status != Out && hi !in w.chunks
    requires forall h :: h != lo && h != hi ==> (h in w.chunks <==> h in v.chunks)
    requires forall h :: h != lo && h in w.chunks && h in v.chunks ==> w.chunks[h] == v.chunks[h]
    ensures Outstanding(w) == Outstanding(v)
  {
  }

  lemma PutBack(v: Pool, p: nat)
    requires InvHeld(v, p) && !CanMerge(v, p)
    ensures v.chunks[p].order < MAX_ORDER && |v.lists| == MAX_ORDER
    ensures Inv(Push(v, p, v.chunks[p].order))
  {
    var k := v.chunks[p].order;
    assert ChunkOk(v.base, v.n, p, v.chunks[p]);
    var x := Buddy(v, p, k);
    if k < TOP && 0 <= x && x in v.chunks {
      assert ChunkOk(v.base, v.n, x, v.chunks[x]);
    }
    assert k < TOP && x >= 0 && x in v.chunks ==> v.chunks[x] != Chunk(k, Free);
    hide Pow2, Aligned, ListsMatch, Canonical, Tiled;
    PushLists(v.lists, v.chunks, p, k);
    Retile(v.base, v.n, v.chunks, p, Free);
    AddCanonical(v.base, v.chunks, p, k, x);
    assert Push(v, p, k).chunks == v.chunks[p := Chunk(k, Free)];
  }

  lemma PutBackOutstanding(v: Pool, p: nat, k: nat)
    requires k < |v.lists| && p in v.chunks && v.chunks[p].status == Held
    ensures Outstanding(Push(v, p, k)) == Outstanding(v)
  {
  }
}
