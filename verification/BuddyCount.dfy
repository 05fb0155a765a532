/** Conservation: what the free lists account for and what is in use always add up to the pool. */
module BuddyCount {
  import opened Bits
  import opened Rings
  import opened BuddySpec
  import opened BuddyTheory

  /** The pages that the first k free lists account for. */
  function ListedPages(lists: seq<seq<nat>>, k: nat): (r: nat)
    requires k <= |lists|
  {
    if k == 0 then 0 else ListedPages(lists, k - 1) + |lists[k - 1]| * Pow2(k - 1)
  }

  /** get_free_mem_size_from_buddy, in bytes. */
  function FreeMemSize(v: Pool): (r: nat)
    requires |v.lists| == MAX_ORDER
  {
    0x1000 * ListedPages(v.lists, MAX_ORDER)
  }

  /** The pages of the chunks in use that start below page i. */
  function UsedPages(out: map<nat, nat>, i: nat): (r: nat) {
    if i == 0 then 0 else UsedPages(out, i - 1) + (if i - 1 in out then Pow2(out[i - 1]) else 0)
  }

  /** The free memory is the pool less the chunks in use, in every state. */
  lemma Conservation(v: Pool)
    requires Inv(v)
    ensures FreeMemSize(v) == 0x1000 * (v.n - UsedPages(Outstanding(v), v.n))
  {
    ListsAccount(v);
    TilesAccount(v);
    UsedIsOut(v, v.n);
  }

  /** The pages of the chunks of status s that start below page i. */
  function TiledPages(t: Tiling, s: Status, i: nat): (r: nat) {
    if i == 0 then 0
    else TiledPages(t, s, i - 1) + (if i - 1 in t && t[i - 1].status == s then Pow2(t[i - 1].order) else 0)
  }

  lemma {:induction false} UsedIsOut(v: Pool, i: nat)
    ensures UsedPages(Outstanding(v), i) == TiledPages(v.chunks, Out, i)
  {
    if i > 0 { UsedIsOut(v, i - 1); }
  }

  lemma TilesAccount(v: Pool)
    requires Inv(v)
    ensures TiledPages(v.chunks, Free, v.n) + TiledPages(v.chunks, Out, v.n) == v.n
  {
    if v.n > 0 {
      var h := TilesUpTo(v, v.n);
      assert ChunkOk(v.base, v.n, h, v.chunks[h]);
    }
  }

  /** The chunks that start below page i end together with the chunk that holds page i - 1. */
  lemma {:induction false} TilesUpTo(v: Pool, i: nat) returns (h: nat)
    requires Inv(v) && 0 < i <= v.n
    ensures Covers(v.chunks, h, i - 1)
    ensures TiledPages(v.chunks, Free, i) + TiledPages(v.chunks, Out, i) == h + Pow2(v.chunks[h].order)
  {
    hide Canonical, ListsMatch;
    assert Covered(v.chunks, i - 1);
    h :| Covers(v.chunks, h, i - 1);
    hide Pow2;
    if i > 1 {
      var g := TilesUpTo(v, i - 1);
      assert ChunkOk(v.base, v.n, g, v.chunks[g]);
      if h == i - 1 {
        assert g + Pow2(v.chunks[g].order) == h;
      } else {
        assert Covers(v.chunks, h, i - 2);
        assert g == h && i - 1 !in v.chunks;
      }
    }
  }

  // ---------- the free lists ----------

  /** The number of free chunks of order k that start below page i. */
  function Count(t: Tiling, k: nat, i: nat): (r: nat) {
    if i == 0 then 0 else Count(t, k, i - 1) + (if i - 1 in t && t[i - 1] == Chunk(k, Free) then 1 else 0)
  }

  function CountedPages(t: Tiling, k: nat, i: nat): (r: nat) {
    if k == 0 then 0 else CountedPages(t, k - 1, i) + Count(t, k - 1, i) * Pow2(k - 1)
  }

  lemma {:induction false} CountedStep(t: Tiling, k: nat, i: nat)
    ensures CountedPages(t, k, i + 1) == CountedPages(t, k, i)
              + (if i in t && t[i].status == Free && t[i].order < k then Pow2(t[i].order) else 0)
  {
    if k > 0 {
      CountedStep(t, k - 1, i);
      var c, m := Count(t, k - 1, i), Pow2(k - 1);
      assert (c + 1) * m == c * m + m;
      assert i in t && t[i].status == Free ==> (t[i] == Chunk(k - 1, Free) <==> t[i].order == k - 1);
    }
  }

  lemma {:induction false} CountedAll(t: Tiling, k: nat, i: nat)
    requires forall h :: h in t ==> t[h].order < k
    ensures TiledPages(t, Free, i) == CountedPages(t, k, i)
  {
    if i == 0 {
      CountedNone(t, k);
    } else {
      CountedAll(t, k, i - 1);
      CountedStep(t, k, i - 1);
    }
  }

  lemma {:induction false} CountedNone(t: Tiling, k: nat)
    ensures CountedPages(t, k, 0) == 0
  {
    if k > 0 { CountedNone(t, k - 1); }
  }

  function Heads(t: Tiling, k: nat, i: nat): (r: set<nat>)
    ensures |r| == Count(t, k, i)
    ensures forall h: nat :: h in r <==> h < i && h in t && t[h] == Chunk(k, Free)
  {
    if i == 0 then {}
    else Heads(t, k, i - 1) + (if i - 1 in t && t[i - 1] == Chunk(k, Free) then {i - 1} else {})
  }

  function Elements(s: seq<nat>): (r: set<nat>) {
    set x | x in s
  }

  lemma {:induction false} DistinctSize(s: seq<nat>)
    requires Distinct(s)
    ensures |Elements(s)| == |s|
  {
    if s != [] {
      var r := s[1..];
      assert Distinct(r);
      DistinctSize(r);
      assert s[0] !in r;
      assert Elements(s) == Elements(r) + {s[0]};
    }
  }

  lemma ListLength(v: Pool, k: nat)
    requires Inv(v) && k < MAX_ORDER
    ensures |v.lists[k]| == Count(v.chunks, k, v.n)
  {
    forall h: nat ensures h in Elements(v.lists[k]) <==> h in Heads(v.chunks, k, v.n) {
      InList(v, k, h);
    }
    DistinctSize(v.lists[k]);
    hide *;
    assert Elements(v.lists[k]) == Heads(v.chunks, k, v.n);
  }

  lemma InList(v: Pool, k: nat, h: nat)
    requires Inv(v) && k < MAX_ORDER
    ensures h in v.lists[k] <==> h < v.n && h in v.chunks && v.chunks[h] == Chunk(k, Free)
  {
    if h in v.chunks {
      assert ChunkOk(v.base, v.n, h, v.chunks[h]);
    }
  }

  lemma FourteenLists(v: Pool)
    requires Inv(v)
    ensures |v.lists| == MAX_ORDER
  {
  }

  lemma ListsAccount(v: Pool)
    requires Inv(v)
    ensures ListedPages(v.lists, MAX_ORDER) == TiledPages(v.chunks, Free, v.n)
  {
    forall h | h in v.chunks ensures v.chunks[h].order < MAX_ORDER {
      assert ChunkOk(v.base, v.n, h, v.chunks[h]);
    }
    CountedAll(v.chunks, MAX_ORDER, v.n);
    ListedIsCounted(v, MAX_ORDER);
  }

  lemma {:induction false} ListedIsCounted(v: Pool, k: nat)
    requires Inv(v) && k <= MAX_ORDER
    ensures ListedPages(v.lists, k) == CountedPages(v.chunks, k, v.n)
  {
    if k > 0 {
      ListedIsCounted(v, k - 1);
      ListLength(v, k - 1);
    }
  }

  /** Allocating takes 4096 * 2^order bytes out of the free memory; NULL takes none. */
  lemma GetCosts(v: Pool, order: nat)
    requires Inv(v)
    ensures var (w, r) := GetPages(v, order);
      |w.lists| == MAX_ORDER && FreeMemSize(w) == FreeMemSize(v) - (if r.Some? then 0x1000 * Pow2(order) else 0)
  {
    GetCorrect(v, order);
    var (w, r) := GetPages(v, order);
    if r.Some? {
      InUseHead(w, r.value);
      UsedAdd(Outstanding(v), r.value, order, v.n);
    }
    Conservation(v);
    Conservation(w);
  }

  /** Freeing gives back what the chunk took. */
  lemma FreeCosts(v: Pool, p: nat)
    requires Inv(v) && p in Outstanding(v)
    ensures |FreePages(v, p).lists| == MAX_ORDER
    ensures FreeMemSize(FreePages(v, p)) == FreeMemSize(v) + 0x1000 * Pow2(Outstanding(v)[p])
  {
    hide *;
    InUseNow(v, p);
    FreeCorrect(v, p);
    var w := FreePages(v, p);
    var out := Outstanding(v);
    InUseHead(v, p);
    HeadBelow(v, p);
    FourteenLists(w);
    assert out == Outstanding(w)[p := out[p]];
    UsedAdd(Outstanding(w), p, out[p], v.n);
    Conservation(v);
    Conservation(w);
  }

  lemma HeadBelow(v: Pool, p: nat)
    requires Inv(v) && p in Outstanding(v)
    ensures p < v.n
  {
    InUseHead(v, p);
  }

  lemma InUseHead(v: Pool, p: nat)
    requires Inv(v) && p in Outstanding(v)
    ensures p + Pow2(Outstanding(v)[p]) <= v.n && Outstanding(v)[p] < MAX_ORDER
    ensures Aligned(v.base + p, Outstanding(v)[p])
  {
    assert ChunkOk(v.base, v.n, p, v.chunks[p]);
  }

  lemma {:induction false} UsedAdd(out: map<nat, nat>, p: nat, k: nat, i: nat)
    requires p !in out
    ensures UsedPages(out[p := k], i) == UsedPages(out, i) + (if p < i then Pow2(k) else 0)
  {
    if i > 0 { UsedAdd(out, p, k, i - 1); }
  }

  /** Chunks in use are pairwise disjoint. */
  lemma InUseApart(v: Pool, p: nat, q: nat)
    requires Inv(v) && p in Outstanding(v) && q in Outstanding(v) && p < q
    ensures p + Pow2(Outstanding(v)[p]) <= q
  {
  }
}
