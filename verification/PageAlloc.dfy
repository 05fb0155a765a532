/** get_pages and free_pages of kmalloc.c: the buddy allocator by address. */
module PageAlloc {
  import opened Options
  import opened BuddySpec
  import opened BuddyTheory
  import opened BuddyAllocator

  /** NULL is None.  mm_init sets up exactly one pool, so the loop over pools runs once. */
  method GetPagesAt(pool: PhysMemPool, order: nat) returns (addr: Option<nat>)
    requires pool.Valid()
    modifies pool.Repr
    ensures pool.Valid()
    ensures var (w, r) := GetPages(old(pool.View()), order);
      pool.View() == w && addr == match r case None => None case Some(p) => Some(pool.PageToVirt(p))
  {
    var page := pool.BuddyGetPages(order);
    match page
    case None => addr := None;
    case Some(p) => addr := Some(pool.PageToVirt(p));
  }

  method FreePagesAt(pool: PhysMemPool, addr: nat)
    requires pool.Valid() && pool.InPool(addr) && pool.VirtToPage(addr) in Outstanding(pool.View())
    modifies pool.Repr
    ensures pool.Valid()
    ensures FreeablePage(old(pool.View()), pool.VirtToPage(addr))
    ensures pool.View() == FreePages(old(pool.View()), pool.VirtToPage(addr))
  {
    InUseNow(pool.View(), pool.VirtToPage(addr));
    pool.BuddyFreePages(pool.VirtToPage(addr));
  }

  ghost predicate FreeablePage(v: Pool, p: nat) {
    Inv(v) && p in v.chunks && v.chunks[p].status == Out
  }
}
