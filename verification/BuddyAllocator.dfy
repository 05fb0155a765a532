/** The buddy allocator in place: page metadata arrays, fourteen rings and their
    counters, updated by the code of buddy.c.  Pages are named by their index in
    the metadata array.  The metadata of a page that is not the first of a chunk
    is stale, and `Consistent` says nothing about it.  Every BUG_ON is an assert. */
module BuddyAllocator {
  import opened Bits
  import opened Rings
  import opened Options
  import opened BuddySpec
  import opened BuddyTheory
  import opened BuddyCount

  const PAGE_SIZE: nat := 0x1000
  const PAGE_SHIFT: nat := 12

  /** The metadata of the first page of every chunk is accurate. */
  ghost predicate Accurate(t: Tiling, inUse: seq<bool>, order: seq<nat>) {
    forall h :: h in t ==> h < |inUse| && h < |order|
                           && order[h] == t[h].order && inUse[h] == (t[h].status == Out)
  }

  /** Writing the metadata of one first page q keeps all metadata accurate. */
  lemma AccurateWrite(t: Tiling, inUse: seq<bool>, order: seq<nat>, q: nat,
                      u: Tiling, inUse': seq<bool>, order': seq<nat>)
    requires Accurate(t, inUse, order) && q < |inUse| && q < |order|
    requires |inUse'| == |inUse| && |order'| == |order|
    requires forall h :: 0 <= h < |order| && h != q ==> order'[h] == order[h]
    requires forall h :: 0 <= h < |inUse| && h != q ==> inUse'[h] == inUse[h]
    requires q in u ==> order'[q] == u[q].order && inUse'[q] == (u[q].status == Out)
    requires forall h :: h in u && h != q ==> h in t && t[h] == u[h]
    ensures Accurate(u, inUse', order')
  {
  }

  lemma HeadIndex(t: Tiling, inUse: seq<bool>, order: seq<nat>, h: nat)
    requires Accurate(t, inUse, order) && h in t
    ensures h < |inUse| && h < |order| && order[h] == t[h].order && inUse[h] == (t[h].status == Out)
  {
  }

  lemma PageShift()
    ensures Pow2(PAGE_SHIFT) == PAGE_SIZE
  {
    assert Pow2(4) == 16;
    assert Pow2(8) == 256 by { assert Pow2(6) == 64; }
    assert Pow2(10) == 1024;
  }

  /** What init_buddy has set up before it fills the free lists. */
  lemma AllPagesAre(base: nat, n: nat, inUse: seq<bool>, order: seq<nat>)
    requires |inUse| == |order| == n && forall i :: 0 <= i < n ==> inUse[i] && order[i] == 0
    ensures Accurate(AllPages(base, n).chunks, inUse, order)
    ensures AllPages(base, n) == Pool(base, n, seq(LISTS, i => []), AllPages(base, n).chunks)
  {
    assert AllPages(base, n).lists == seq(LISTS, i => []);
  }

  lemma FreeAllStep(v: Pool, i: nat)
    requires Inv(v) && i < v.n && Outstanding(v) == Singles(i, v.n)
    requires i in v.chunks && v.chunks[i].status == Out
    requires Inv(FreePages(v, i)) && FreePages(v, i).n == v.n && Outstanding(FreePages(v, i)) == Singles(i + 1, v.n)
    ensures FreeAllFrom(v, i) == FreeAllFrom(FreePages(v, i), i + 1)
  {
    hide Inv, Outstanding, FreePages;
  }

  lemma FreeAllEnd(v: Pool)
    requires Inv(v) && Outstanding(v) == Singles(v.n, v.n)
    ensures FreeAllFrom(v, v.n) == v
  {
    hide Inv, Outstanding;
  }

  lemma StartIs(base: nat, n: nat)
    requires Inv(AllPages(base, n)) && Outstanding(AllPages(base, n)) == Singles(0, n) && AllPages(base, n).n == n
    ensures FreeAllFrom(AllPages(base, n), 0) == InitPool(base, n)
  {
    hide Inv, Outstanding, FreeAllFrom;
  }

  lemma PagesToBytes(n: nat, m: nat)
    ensures n * (PAGE_SIZE * m) == PAGE_SIZE * (n * m)
  {
  }

  lemma RemoveShortens(s: seq<nat>, x: nat)
    requires x in s
    ensures |Remove(s, x)| == |s| - 1
  {
  }

  lemma NotListed(v: Pool, b: nat)
    requires ListsMatch(v.lists, v.chunks) && (b in v.chunks ==> v.chunks[b].status != Free)
    ensures |v.lists| == MAX_ORDER && forall l :: 0 <= l < LISTS ==> b !in v.lists[l]
  {
  }

  lemma SplitToStep(v: Pool, p: nat, target: nat)
    requires |v.lists| == MAX_ORDER && p in v.chunks && target < v.chunks[p].order < MAX_ORDER
    ensures SplitTo(v, p, target) == SplitTo(Split(v, p), p, target)
  {
  }

  /** What buddy_get_pages does once it has found the first non-empty list. */
  lemma TakeFirst(v: Pool, target: nat, k: nat, p: nat)
    requires Inv(v) && target <= k < MAX_ORDER && FirstNonEmpty(v.lists, target) == k && p == v.lists[k][0]
    ensures p in v.lists[k] && p in v.chunks && v.chunks[p] == Chunk(k, Free)
    ensures InvHeld(Unlink(v, p), p)
    ensures InvHeld(SplitTo(Unlink(v, p), p, target), p)
    ensures SplitTo(Unlink(v, p), p, target).chunks[p] == Chunk(target, Held)
    ensures GetPages(v, target) == (Mark(SplitTo(Unlink(v, p), p, target), p, Out), Some(p))
  {
    assert p in v.lists[k];
    UnlinkHeld(v, p);
    SplitToHeld(Unlink(v, p), p, target);
  }

  class PhysMemPool {
    const startAddr: nat           // pool_start_addr
    const pageNum: nat             // pool_phys_page_num
    const inUse: array<bool>   // page->allocated
    const order: array<nat>        // page->order
    const links: ListRings         // page->node and free_lists[k].free_list
    const nrFree: array<nat>       // free_lists[k].nr_free
    ghost var chunks: Tiling
    ghost const Repr: set<object>  // everything the pool writes to

    ghost function View(): Pool
      reads this, links
    {
      Pool(startAddr / PAGE_SIZE, pageNum, links.rings, chunks)
    }

    ghost predicate Shape() {
      && Repr == {this, inUse, order, nrFree, links, links.next, links.prev}
      && startAddr % PAGE_SIZE == 0 && startAddr + pageNum * PAGE_SIZE < U64
      && inUse.Length == order.Length == links.nodes == pageNum && nrFree.Length == MAX_ORDER
      && order != nrFree && links.next != order && links.next != nrFree
      && links.prev != order && links.prev != nrFree && links.next != links.prev
    }

    ghost predicate Consistent()
      reads Repr
    {
      && Shape() && links.Valid()
      && Accurate(chunks, inUse[..], order[..])
      && forall k :: 0 <= k < MAX_ORDER ==> nrFree[k] == |links.rings[k]|
    }

    /** Between calls. */
    ghost predicate Valid()
      reads Repr
    {
      Consistent() && Inv(View())
    }

    /** Inside a call that holds chunk p. */
    ghost predicate Holding(p: nat)
      reads Repr
    {
      Consistent() && InvHeld(View(), p)
    }

    // ---------- addresses ----------

    function PageToVirt(p: nat): (addr: nat) {
      p * PAGE_SIZE + startAddr
    }

    predicate InPool(addr: nat) {
      startAddr <= addr < startAddr + pageNum * PAGE_SIZE
    }

    /** virt_to_page stops at a BUG_ON for an address outside the pool. */
    function VirtToPage(addr: nat): (p: nat)
      requires InPool(addr)
      ensures p < pageNum
    {
      (addr - startAddr) / PAGE_SIZE
    }

    /** Every byte of a page leads back to the page. */
    lemma VirtToPageInverts(p: nat, offset: nat)
      requires p < pageNum && offset < 0x1000
      ensures PageToVirt(p) == startAddr + p * 0x1000
      ensures InPool(PageToVirt(p) + offset) && VirtToPage(PageToVirt(p) + offset) == p
    {
    }

    method GetBuddyChunk(p: nat) returns (b: Option<nat>)
      requires Shape() && p < pageNum && Aligned(View().base + p, order[p])
      ensures var x := Buddy(View(), p, order[p]);
              b == if 0 <= x < pageNum then Some(x) else None
    {
      var chunkAddr := PageToVirt(p);
      var buddyAddr := Xor(chunkAddr, Pow2(order[p] + PAGE_SHIFT));
      BuddyAddress(p, order[p]);
      if buddyAddr < startAddr || buddyAddr >= startAddr + pageNum * PAGE_SIZE {
        return None;
      }
      b := Some(VirtToPage(buddyAddr));
    }

    lemma BuddyAddress(p: nat, k: nat)
      requires Shape() && Aligned(startAddr / PAGE_SIZE + p, k)
      ensures Xor(PageToVirt(p), Pow2(k + PAGE_SHIFT)) == Buddy(View(), p, k) * PAGE_SIZE + startAddr
    {
      hide Aligned, Pow2, Xor;
      var a := startAddr / PAGE_SIZE + p;
      PageShift();
      XorOfScaled(a, k, PAGE_SHIFT);
      assert a * PAGE_SIZE == PageToVirt(p);
    }

    // ---------- one list operation with its counter ----------

    /** list_add and nr_free++ */
    method Enlist(p: nat, k: nat)
      requires Consistent() && k < MAX_ORDER && p < pageNum && order[p] == k && !inUse[p]
      requires forall l :: 0 <= l < LISTS ==> p !in links.rings[l]
      modifies this, links, links.next, links.prev, nrFree
      ensures Consistent() && View() == Push(old(View()), p, k)
    {
      links.Add(p, k);
      nrFree[k] := nrFree[k] + 1;
      chunks := chunks[p := Chunk(k, Free)];
    }

    /** list_del and nr_free-- */
    method Delist(p: nat)
      requires Consistent() && p in chunks && chunks[p].order < MAX_ORDER && chunks[p].status == Free
      requires p in links.rings[chunks[p].order]
      modifies this, links, links.next, links.prev, nrFree
      ensures Consistent() && View() == Unlink(old(View()), p)
    {
      ghost var k := chunks[p].order;
      links.Delete(p, k);
      RemoveShortens(old(links.rings)[k], p);
      nrFree[order[p]] := nrFree[order[p]] - 1;
      chunks := chunks[p := Chunk(k, Held)];
    }

    /** page->order = k, for the chunk in hand */
    method SetOrder(p: nat, k: nat)
      requires Consistent() && p in chunks && chunks[p].status == Held
      modifies this, order
      ensures Consistent() && View() == old(View()).(chunks := old(chunks)[p := Chunk(k, Held)]) && order[p] == k
    {
      hide ListRings.Valid, Accurate;
      HeadIndex(chunks, inUse[..], order[..], p);
      ghost var t, os := chunks, order[..];
      order[p] := k;
      chunks := chunks[p := Chunk(k, Held)];
      AccurateWrite(t, inUse[..], os, p, chunks, inUse[..], order[..]);
    }

    /** page->allocated = flag */
    method SetAllocated(p: nat, flag: bool, ghost status: Status)
      requires Consistent() && p in chunks && flag == (status == Out)
      modifies this, inUse
      ensures Consistent() && View() == Mark(old(View()), p, status)
    {
      hide ListRings.Valid, Accurate;
      HeadIndex(chunks, inUse[..], order[..], p);
      ghost var t, us := chunks, inUse[..];
      inUse[p] := flag;
      chunks := chunks[p := Chunk(chunks[p].order, status)];
      AccurateWrite(t, us, order[..], p, chunks, inUse[..], order[..]);
    }

    // ---------- split and get ----------

    lemma HoldingMeans(p: nat)
      requires Holding(p)
      ensures p < pageNum && p in chunks && chunks[p].order < MAX_ORDER && chunks[p].status == Held
      ensures order[p] == chunks[p].order && !inUse[p] && Aligned(View().base + p, order[p])
      ensures ListsMatch(View().lists, chunks)
    {
      hide ListRings.Valid;
      assert ChunkOk(View().base, pageNum, p, chunks[p]);
    }

    /** Give the upper half its metadata and put it on its free list. */
    method ListHalf(b: nat, k: nat)
      requires Consistent() && b < pageNum && k < MAX_ORDER && b !in chunks
      requires forall l :: 0 <= l < LISTS ==> b !in links.rings[l]
      modifies Repr
      ensures Consistent() && View() == Push(old(View()), b, k)
      ensures forall i :: 0 <= i < pageNum && i != b ==> order[i] == old(order[i])
    {
      hide ListRings.Valid, Accurate;
      ghost var os, us := order[..], inUse[..];
      order[b] := k;
      inUse[b] := false;
      AccurateWrite(chunks, us, os, b, chunks, inUse[..], order[..]);
      Enlist(b, order[b]);
    }

    /** One level of split_page: halve p and list the upper half. */
    method SplitOnce(p: nat)
      requires Holding(p) && order[p] > 0
      modifies Repr
      ensures Consistent() && View() == Split(old(View()), p)
    {
      hide InvHeld, Inv, ListRings.Valid, SplitTo, Pow2, Aligned, Accurate;
      ghost var was := View();
      HoldingMeans(p);
      SplitBuddy(was, p);
      NotListed(was, p + Pow2(order[p] - 1));
      AlignedWeaken(was.base + p, order[p] - 1, order[p]);
      SetOrder(p, order[p] - 1);
      var buddy := GetBuddyChunk(p);
      assert buddy != None;
      var b := buddy.value;
      ListHalf(b, order[p]);
    }

    method SplitPage(target: nat, p: nat)
      requires Holding(p) && target <= order[p]
      modifies Repr
      ensures Holding(p) && View() == SplitTo(old(View()), p, target)
      decreases order[p]
    {
      ghost var was := View();
      HoldingMeans(p);
      assert !(order[p] < target) && !inUse[p];
      if order[p] == target { return; }
      hide *;
      SplitOnce(p);
      SplitHeld(was, p);
      SplitPage(target, p);
      SplitToStep(was, p, target);
    }

    /** The body of the loop in buddy_get_pages, once list k is found non-empty. */
    method TakeFrom(k: nat, target: nat) returns (p: nat)
      requires Valid() && target <= k < MAX_ORDER && FirstNonEmpty(View().lists, target) == k
      modifies Repr
      ensures Consistent() && (View(), Some(p)) == GetPages(old(View()), target)
    {
      hide Inv, InvHeld, ListRings.Valid, SplitTo, GetPages, Unlink;
      ghost var was := View();
      p := links.First(k);
      TakeFirst(was, target, k, p);
      assert !inUse[p] && order[p] == k;
      Delist(p);
      SplitPage(target, p);
      assert order[p] == target;
      SetAllocated(p, true, Out);
    }

    /** buddy_get_pages: None is NULL. */
    method BuddyGetPages(target: nat) returns (page: Option<nat>)
      requires Valid()
      modifies Repr
      ensures Valid() && (View(), page) == GetPages(old(View()), target)
    {
      hide Inv, Consistent;
      ghost var was := View();
      GetCorrect(was, target);
      FourteenLists(was);
      if target >= MAX_ORDER { return None; }
      var cur := target;
      while cur < MAX_ORDER
        invariant target <= cur <= MAX_ORDER
        invariant Valid() && View() == was
        invariant |was.lists| == MAX_ORDER && FirstNonEmpty(was.lists, target) == FirstNonEmpty(was.lists, cur)
      {
        var some := ListNonEmpty(cur);
        if some {
          var p := TakeFrom(cur, target);
          return Some(p);
        }
        cur := cur + 1;
      }
      page := None;
    }

    /** list->nr_free > 0 */
    method ListNonEmpty(k: nat) returns (some: bool)
      requires Consistent() && k < MAX_ORDER
      ensures |View().lists| == MAX_ORDER && (some <==> View().lists[k] != [])
    {
      some := nrFree[k] > 0;
    }

    // ---------- merge and free ----------

    /** One level of merge_page: join p with its free buddy b. */
    method MergeOnce(p: nat, b: nat) returns (q: nat)
      requires Holding(p) && CanMerge(View(), p) && b == Buddy(View(), p, View().chunks[p].order)
      requires b in View().lists[chunks[p].order]
      modifies Repr
      ensures Consistent() && q == Lower(old(View()), p) && View() == Merge(old(View()), p)
    {
      hide InvHeld, ListRings.Valid, Buddy, Accurate;
      ghost var was := View();
      HoldingMeans(p);
      Delist(b);
      q := if b < p then b else p;
      ghost var t, os := chunks, order[..];
      HeadIndex(t, inUse[..], os, q);
      order[q] := order[q] + 1;
      chunks := Merge(was, p).chunks;
      AccurateWrite(t, inUse[..], os, q, chunks, inUse[..], order[..]);
    }

    /** At a position that is read as a buddy, the metadata tells whether the merge may go on. */
    lemma BuddyMetadata(p: nat, b: nat)
      requires Holding(p) && order[p] < TOP && b == Buddy(View(), p, order[p]) && b < pageNum
      ensures CanMerge(View(), p) <==> !inUse[b] && order[b] >= order[p]
      ensures !inUse[b] ==> order[b] <= order[p]
    {
      HoldingMeans(p);
      BuddyIsHead(View(), p);
    }

    method MergePage(p: nat) returns (q: nat)
      requires Holding(p)
      modifies Repr
      ensures Holding(q) && (View(), q) == MergeUp(old(View()), p)
      decreases MAX_ORDER - order[p]
    {
      ghost var was := View();
      HoldingMeans(p);
      assert !(order[p] > MAX_ORDER - 1 || inUse[p]);
      q := p;
      if order[p] == MAX_ORDER - 1 { return; }
      var buddy := GetBuddyChunk(p);
      if buddy == None { return; }
      var b := buddy.value;
      BuddyMetadata(p, b);
      if inUse[b] || order[b] < order[p] { return; }
      assert !(order[b] > order[p]) && order[b] == order[p];
      hide *;
      MergeHeld(was, p);
      q := MergeOnce(p, b);
      HoldingMeans(q);
      q := MergePage(q);
    }

    method BuddyFreePages(p: nat)
      requires Valid() && p in View().chunks && View().chunks[p].status == Out
      modifies Repr
      ensures Valid() && View() == FreePages(old(View()), p)
    {
      hide Inv, InvHeld, ListRings.Valid;
      ghost var was := View();
      assert inUse[p];
      MarkHeld(was, p);
      SetAllocated(p, false, Held);
      var q := MergePage(p);
      HoldingMeans(q);
      assert !inUse[q];
      PutBack(View(), q);
      NotListed(View(), q);
      Enlist(q, order[q]);
    }

    method GetFreeMemSize() returns (total: nat)
      requires Valid()
      ensures total == FreeMemSize(View())
      ensures total == PAGE_SIZE * (pageNum - UsedPages(Outstanding(View()), pageNum))
    {
      hide Inv, ListRings.Valid, Accurate, Pow2, Outstanding, UsedPages;
      FourteenLists(View());
      total := 0;
      for k := 0 to MAX_ORDER
        invariant total == PAGE_SIZE * ListedPages(links.rings, k)
      {
        var size := PAGE_SIZE * Pow2(k);
        PagesToBytes(nrFree[k], Pow2(k));
        total := total + nrFree[k] * size;
      }
      Conservation(View());
    }

    /** init_buddy, up to the loop that fills the free lists */
    constructor Blank(start: nat, n: nat)
      requires start % PAGE_SIZE == 0 && start + n * PAGE_SIZE < U64
      ensures Consistent() && fresh(Repr) && startAddr == start && pageNum == n
      ensures View() == AllPages(start / PAGE_SIZE, n)
    {
      hide AllPages, Accurate, ListRings.Valid;
      startAddr := start;
      pageNum := n;
      inUse := new bool[n];
      order := new nat[n];
      var rings := new ListRings(n);
      links := rings;
      nrFree := new nat[MAX_ORDER];
      chunks := AllPages(start / PAGE_SIZE, n).chunks;
      Repr := {this, inUse, order, nrFree, rings, rings.next, rings.prev};
      new;
      ClearCounters();
      MarkAllocated();
      AllPagesAre(start / PAGE_SIZE, n, inUse[..], order[..]);
    }

    /** pool->free_lists[order].nr_free = 0 */
    method ClearCounters()
      modifies nrFree
      ensures forall k :: 0 <= k < nrFree.Length ==> nrFree[k] == 0
    {
      for k := 0 to nrFree.Length
        invariant forall j :: 0 <= j < k ==> nrFree[j] == 0
      {
        nrFree[k] := 0;
      }
    }

    /** page->allocated = 1 and page->order = 0, for every page */
    method MarkAllocated()
      requires inUse.Length == order.Length
      modifies inUse, order
      ensures forall i :: 0 <= i < inUse.Length ==> inUse[i] && order[i] == 0
    {
      for i := 0 to inUse.Length
        invariant forall j :: 0 <= j < i ==> inUse[j] && order[j] == 0
      {
        inUse[i] := true;
        order[i] := 0;
      }
    }

    /** The loop that ends init_buddy: put every page into the free lists. */
    method FreeAll()
      requires Consistent() && View() == AllPages(startAddr / PAGE_SIZE, pageNum)
      modifies Repr
      ensures Valid() && View() == InitPool(startAddr / PAGE_SIZE, pageNum)
    {
      hide *;
      ghost var base := View().base;
      ViewBase();
      AllPagesInv(base, pageNum);
      BeginFreeing(base);
      StartIs(base, pageNum);
      for i := 0 to pageNum
        invariant Valid() && Inv(View()) && View().base == base && View().n == pageNum
        invariant Outstanding(View()) == Singles(i, pageNum)
        invariant FreeAllFrom(View(), i) == InitPool(base, pageNum)
      {
        FreeOne(View(), i);
        FreeAllStep(View(), i);
        BuddyFreePages(i);
        ValidMeans();
      }
      FreeAllEnd(View());
    }

    lemma ViewBase()
      ensures View().base == startAddr / PAGE_SIZE
    {
    }

    lemma ValidMeans()
      requires Valid()
      ensures Inv(View())
    {
    }

    lemma BeginFreeing(base: nat)
      requires Consistent() && View() == AllPages(base, pageNum) && Inv(View())
      ensures Valid() && View().base == base && View().n == pageNum
    {
    }
  }

  method InitBuddy(start: nat, n: nat) returns (pool: PhysMemPool)
    requires start % PAGE_SIZE == 0 && start + n * PAGE_SIZE < U64
    ensures pool.Valid() && fresh(pool.Repr) && pool.startAddr == start && pool.pageNum == n
    ensures pool.View() == InitPool(start / PAGE_SIZE, n)
  {
    pool := new PhysMemPool.Blank(start, n);
    pool.FreeAll();
  }
}
