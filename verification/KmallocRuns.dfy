/** Runs of kmalloc, kfree and the users' own writes: the blocks in use are at every
    moment those taken and not yet given back, and no two parts of memory overlap. */
module KmallocRuns {
  import opened Bits
  import opened Options
  import opened BuddySpec
  import opened BuddyTheory
  import opened PageAlloc
  import opened SlabSpec
  import opened SlabSteps
  import opened SlabBlocks
  import opened KmallocSpec
  import opened SlabFrames

  /** The bookkeeping, and the words in memory. */
  datatype State = State(heap: Heap, mem: Words)

  /** Write: the holder of a block writes a word of it.  Idle: a call that failed. */
  datatype Event = Take(block: Part) | Give(block: Part) | Write(block: Part, at: nat, word: nat) | Idle

  ghost predicate TookSlot(h: Heap, w: Heap, s: nat, x: nat) {
    exists k :: SLAB_MIN_ORDER <= k <= SLAB_MAX_ORDER && Took(h, w, k, x, s)
  }

  ghost predicate TookPages(h: Heap, w: Heap, p: nat, order: nat) {
    BuddySpec.Inv(h.pool) && GetPages(h.pool, order).1 == Some(p) && w == h.(pool := GetPages(h.pool, order).0)
  }

  ghost predicate GaveSlot(h: Heap, w: Heap, s: nat, x: nat) {
    s in h.slabs && w == PushSlot(h, s, x)
  }

  ghost predicate GavePages(h: Heap, w: Heap, p: nat) {
    FreeablePage(h.pool, p) && w == h.(pool := FreePages(h.pool, p))
  }

  /** What one event does to the bookkeeping; that a caller holds the block it gives back is left to the run. */
  ghost predicate Step(h: Heap, w: Heap, e: Event) {
    match e
    case Idle => w == h
    case Write(_, _, _) => w == h
    case Take(Slot(s, x)) => TookSlot(h, w, s, x)
    case Take(Large(p)) => exists order: nat :: TookPages(h, w, p, order)
    case Give(Slot(s, x)) => GaveSlot(h, w, s, x)
    case Give(Large(p)) => GavePages(h, w, p)
    case _ => false
  }

  /** The callers hold q after the events: it was taken, or theirs from the start, and not given back since. */
  ghost predicate Holds(h: Heap, events: seq<Event>, q: Part) {
    if events == [] then UserBlock(h, q)
    else
      var e := events[|events| - 1];
      if e == Take(q) then true
      else if e == Give(q) then false
      else Holds(h, events[..|events| - 1], q)
  }

  /** What one event does: only a user's write changes words inside blocks that stay in use. */
  ghost predicate Effect(s: State, t: State, e: Event) {
    && Step(s.heap, t.heap, e)
    && if e.Write? then t.mem == s.mem[e.at := e.word] else WordsKept(s.heap, t.heap, s.mem, t.mem)
  }

  /** Callers give back only blocks they hold, and write only inside them. */
  ghost predicate Allowed(first: State, events: seq<Event>, s: State, e: Event) {
    && (e.Give? || e.Write? ==> Holds(first.heap, events, e.block))
    && (e.Write? ==> WordInBlock(s.heap, e.block, e.at))
  }

  ghost predicate Trace(states: seq<State>, events: seq<Event>) {
    && |states| == |events| + 1 && HeapInv(states[0].heap)
    && (forall i :: 0 <= i < |events| ==> Effect(states[i], states[i + 1], events[i]))
    && (forall i :: 0 <= i < |events| ==> Allowed(states[0], events[..i], states[i], events[i]))
  }

  /** One step keeps the invariant and changes the blocks in use by exactly the block it names. */
  lemma StepKeeps(h: Heap, w: Heap, e: Event)
    requires HeapInv(h) && Step(h, w, e) && (e.Give? ==> UserBlock(h, e.block))
    ensures HeapInv(w)
    ensures e.Take? ==> Gained(h, w, e.block)
    ensures e.Give? ==> Gained(w, h, e.block)
    ensures e.Idle? || e.Write? ==> w == h
  {
    hide *;
    StepIs(h, w, e);
    match e
    case Idle => {}
    case Write(_, _, _) => {}
    case Take(q) =>
      if q.Slot? {
        var k :| SLAB_MIN_ORDER <= k <= SLAB_MAX_ORDER && Took(h, w, k, q.addr, q.slab);
        TookKeeps(h, w, k, q.addr, q.slab);
        TookGains(h, w, k, q.addr, q.slab);
      } else {
        var order: nat :| TookPages(h, w, q.page, order);
        PagesTaken(h, w, q.page, order);
      }
    case Give(q) =>
      if q.Slot? {
        SlotFacts(h, q);
        PushInv(h, q.slab, q.addr);
        PushGives(h, q.slab, q.addr);
      } else {
        PagesGiven(h, w, q.page);
      }
  }

  lemma StepIs(h: Heap, w: Heap, e: Event)
    requires Step(h, w, e)
    ensures e.Take? || e.Give? ==> e.block.Slot? || e.block.Large?
    ensures e.Idle? || e.Write? ==> w == h
    ensures e.Take? && e.block.Slot? ==>
      exists k :: SLAB_MIN_ORDER <= k <= SLAB_MAX_ORDER && Took(h, w, k, e.block.addr, e.block.slab)
    ensures e.Take? && e.block.Large? ==> exists order: nat :: TookPages(h, w, e.block.page, order)
    ensures e.Give? && e.block.Slot? ==> e.block.slab in h.slabs && w == PushSlot(h, e.block.slab, e.block.addr)
    ensures e.Give? && e.block.Large? ==> GavePages(h, w, e.block.page)
  {
    hide Took, TookPages, GavePages, PushSlot;
  }

  lemma TookKeeps(h: Heap, w: Heap, k: nat, x: nat, s: nat)
    requires HeapInv(h) && Took(h, w, k, x, s) && SLAB_MIN_ORDER <= k <= SLAB_MAX_ORDER
    ensures HeapInv(w)
  {
    hide *;
    TookIs(h, w, k, x, s);
    if !AllFull(h, k) {
      PopInv(h, s);
    } else {
      NewSlabInv(h, k);
      PopInv(WithNewSlab(h, k), s);
    }
  }

  lemma PagesTaken(h: Heap, w: Heap, p: nat, order: nat)
    requires HeapInv(h) && TookPages(h, w, p, order)
    ensures HeapInv(w) && Gained(h, w, Large(p))
  {
    hide HeapInv, Gained, BuddySpec.Inv, GetPages, Outstanding;
    GetCorrect(h.pool, order);
    GetGains(h, w.pool, p, order);
  }

  lemma PagesGiven(h: Heap, w: Heap, p: nat)
    requires HeapInv(h) && GavePages(h, w, p) && UserBlock(h, Large(p))
    ensures HeapInv(w) && Gained(w, h, Large(p))
  {
    hide HeapInv, UserBlock, Gained, BuddySpec.Inv, FreePages, Outstanding;
    InUseNow(h.pool, p);
    FreeCorrect(h.pool, p);
    FreeGives(h, w.pool, p);
  }

  /** Over every run: the invariant holds, and the blocks in use are those the callers hold. */
  lemma {:induction false} BlocksInUse(states: seq<State>, events: seq<Event>)
    requires Trace(states, events)
    ensures HeapInv(states[|events|].heap)
    ensures forall q :: UserBlock(states[|events|].heap, q) <==> Holds(states[0].heap, events, q)
  {
    var n := |events|;
    hide HeapInv, Step, UserBlock, Gained, WordsKept, WordInBlock;
    if n > 0 {
      Before(states, events);
      BlocksInUse(states[..n], events[..n - 1]);
      var h, w, e := states[n - 1].heap, states[n].heap, events[n - 1];
      StepKeeps(h, w, e);
      forall q ensures UserBlock(w, q) <==> Holds(states[0].heap, events, q) {
        GainedMeans(h, w, e, q);
        assert UserBlock(h, q) <==> Holds(states[0].heap, events[..n - 1], q);
      }
    }
  }

  lemma GainedMeans(h: Heap, w: Heap, e: Event, q: Part)
    requires e.Take? ==> Gained(h, w, e.block)
    requires e.Give? ==> Gained(w, h, e.block)
    requires e.Idle? || e.Write? ==> w == h
    ensures UserBlock(w, q) <==> if e == Take(q) then true else if e == Give(q) then false else UserBlock(h, q)
  {
    hide UserBlock;
  }

  lemma Before(states: seq<State>, events: seq<Event>)
    requires Trace(states, events) && events != []
    ensures Trace(states[..|events|], events[..|events| - 1])
    ensures Effect(states[|events| - 1], states[|events|], events[|events| - 1])
    ensures Allowed(states[0], events[..|events| - 1], states[|events| - 1], events[|events| - 1])
  {
    hide HeapInv, Effect, Holds, Allowed;
    var n := |events|;
    forall i | 0 <= i < n - 1 ensures Allowed(states[0], events[..n - 1][..i], states[i], events[..n - 1][i]) {
      assert events[..n - 1][..i] == events[..i];
    }
    forall i | 0 <= i < n - 1 ensures Effect(states[..n][i], states[..n][i + 1], events[..n - 1][i]) {
      assert Effect(states[i], states[i + 1], events[i]);
    }
  }

  /** The last step of a run, from heap to heap. */
  lemma LastStep(states: seq<State>, events: seq<Event>)
    requires Trace(states, events) && events != []
    ensures var n := |events|; var h, w, e := states[n - 1].heap, states[n].heap, events[n - 1];
      && HeapInv(h) && HeapInv(w) && Step(h, w, e) && (e.Give? || e.Write? ==> UserBlock(h, e.block))
      && (e.Idle? || e.Write? ==> w == h)
      && (forall q: Part :: UserBlock(h, q) <==> Holds(states[0].heap, events[..n - 1], q))
      && (forall q: Part :: UserBlock(w, q)
             <==> if e == Take(q) then true else if e == Give(q) then false else UserBlock(h, q))
  {
    hide HeapInv, Step, UserBlock, Gained, WordsKept, WordInBlock, Holds;
    var n := |events|;
    Before(states, events);
    BlocksInUse(states[..n], events[..n - 1]);
    var h, w, e := states[n - 1].heap, states[n].heap, events[n - 1];
    StepKeeps(h, w, e);
    forall q: Part ensures UserBlock(w, q)
                      <==> if e == Take(q) then true else if e == Give(q) then false else UserBlock(h, q) {
      GainedMeans(h, w, e, q);
    }
  }

  /** At every moment of every run a block that callers hold shares no byte with another such block, a slab's
      header, a free slot or a free chunk. */
  lemma HeldBlocksApart(states: seq<State>, events: seq<Event>, q: Part, r: Part)
    requires Trace(states, events) && Holds(states[0].heap, events, q) && q != r && PartOk(states[|events|].heap, r)
    ensures var h := states[|events|].heap;
      && UserBlock(h, q) && PageOf(h, r) in h.pool.chunks && (r.Large? || r.FreeChunk? ==> r.page in h.pool.chunks)
      && (Hi(h, q) <= Lo(h, r) || Hi(h, r) <= Lo(h, q))
  {
    BlocksInUse(states, events);
    hide *;
    BlockIsPart(states[|events|].heap, q);
    PartsApart(states[|events|].heap, q, r);
  }

  /** One step leaves a block that stays in use where it is. */
  lemma BlockStays(h: Heap, w: Heap, e: Event, q: Part)
    requires HeapInv(h) && Step(h, w, e) && UserBlock(h, q) && UserBlock(w, q)
    ensures Lo(w, q) == Lo(h, q) && Hi(w, q) == Hi(h, q)
  {
    hide *;
    StepFrame(h, w, e);
    SameExtent(h, w, q);
  }

  /** A block keeps its place and size over the whole time that it is in use. */
  lemma {:induction false} HeldBlockStays(states: seq<State>, events: seq<Event>, i: nat, q: Part)
    requires Trace(states, events) && i < |events| && events[i] == Take(q)
    requires forall j :: i < j < |events| ==> events[j] != Give(q)
    ensures var h, w := states[i + 1].heap, states[|events|].heap;
      UserBlock(h, q) && UserBlock(w, q) && Lo(w, q) == Lo(h, q) && Hi(w, q) == Hi(h, q)
    ensures |states| == |events| + 1
    decreases |events|
  {
    hide UserBlock, Lo, Hi, Step, HeapInv, Effect, Allowed;
    var n := |events|;
    LastStep(states, events);
    if i < n - 1 {
      Before(states, events);
      HeldBlockStays(states[..n], events[..n - 1], i, q);
      BlockStays(states[n - 1].heap, states[n].heap, events[n - 1], q);
    }
  }

  // ---------- what users read ----------

  /** The last word that was written to y in block q since it was taken. */
  function LastWritten(events: seq<Event>, q: Part, y: nat): Option<nat> {
    if events == [] then None
    else
      var e := events[|events| - 1];
      if e.Write? && e.block == q && e.at == y then Some(e.word)
      else if e == Take(q) then None
      else LastWritten(events[..|events| - 1], q, y)
  }

  /** Over every run a held block reads back what its holder wrote last: no other call and no other user touches it. */
  lemma {:induction false} HeldBlockReadsBack(states: seq<State>, events: seq<Event>, q: Part, y: nat)
    requires Trace(states, events) && Holds(states[0].heap, events, q) && LastWritten(events, q, y) != None
    ensures WordInBlock(states[|events|].heap, q, y)
    ensures Word(states[|events|].mem, y) == LastWritten(events, q, y).value
  {
    hide UserBlock, Step, HeapInv, WordInBlock, WordsKept;
    var n := |events|;
    LastStep(states, events);
    Before(states, events);
    var s, t, e := states[n - 1], states[n], events[n - 1];
    if !(e.Write? && e.block == q && e.at == y) {
      HeldBlockReadsBack(states[..n], events[..n - 1], q, y);
      if e.Write? {
        OtherWrite(s, t, e, q, y);
      } else {
        OtherCall(s, t, e, q, y);
      }
    }
  }

  /** A write to another word, of the same block or of another, leaves word y of block q. */
  lemma OtherWrite(s: State, t: State, e: Event, q: Part, y: nat)
    requires HeapInv(s.heap) && Effect(s, t, e) && e.Write? && WordInBlock(s.heap, e.block, e.at)
    requires WordInBlock(s.heap, q, y) && !(e.block == q && e.at == y)
    ensures WordInBlock(t.heap, q, y) && Word(t.mem, y) == Word(s.mem, y)
  {
    hide HeapInv, UserBlock, Lo, Hi;
    InUseIs(s.heap, q, y);
    InUseIs(s.heap, e.block, e.at);
    BlockIsPart(s.heap, q);
    BlockIsPart(s.heap, e.block);
    if e.block != q { PartsApart(s.heap, q, e.block); }
  }

  lemma OtherCall(s: State, t: State, e: Event, q: Part, y: nat)
    requires HeapInv(s.heap) && Effect(s, t, e) && !e.Write? && WordInBlock(s.heap, q, y) && UserBlock(t.heap, q)
    ensures WordInBlock(t.heap, q, y) && Word(t.mem, y) == Word(s.mem, y)
  {
    hide HeapInv, UserBlock, WordInBlock, Step, Word;
    StepFrame(s.heap, t.heap, e);
    WordStays(s.heap, t.heap, q, y);
  }

  lemma StepFrame(h: Heap, w: Heap, e: Event)
    requires HeapInv(h) && Step(h, w, e)
    ensures Extends(h, w)
  {
    hide *;
    StepIs(h, w, e);
    match e
    case Idle => SameFrame(h);
    case Write(_, _, _) => SameFrame(h);
    case Take(r) =>
      if r.Slot? {
        var k :| SLAB_MIN_ORDER <= k <= SLAB_MAX_ORDER && Took(h, w, k, r.addr, r.slab);
        TookFrame(h, w, k, r.addr, r.slab);
      } else {
        var order: nat :| TookPages(h, w, r.page, order);
        PagesTakenFrame(h, w, r.page, order);
      }
    case Give(r) =>
      if r.Slot? { RefillFrame(h, w, r.slab, r.addr); } else { PagesGivenFrame(h, w, r.page); }
  }

  lemma PagesTakenFrame(h: Heap, w: Heap, p: nat, order: nat)
    requires TookPages(h, w, p, order)
    ensures Extends(h, w)
  {
    hide BuddySpec.Inv, GetPages, Outstanding;
    GetCorrect(h.pool, order);
  }

  lemma PagesGivenFrame(h: Heap, w: Heap, p: nat)
    requires GavePages(h, w, p)
    ensures Extends(h, w)
  {
    hide BuddySpec.Inv, FreePages, Outstanding;
    InUseNow(h.pool, p);
    FreeCorrect(h.pool, p);
  }

  // ---------- what kmalloc and kfree promise ----------

  /** A request of that size was answered with block q at address a: up to 2048 bytes a slot, of the least power of
      two that is at least 32 and the size, and beyond a chunk, less than twice as large unless rounding wrapped. */
  ghost predicate Served(h: Heap, w: Heap, size: nat, q: Part, a: nat) {
    && Step(h, w, Take(q)) && UserBlock(w, q) && Lo(w, q) == a
    && (size <= 2048 ==> q.Slot? && (Capacity(w, q) == 32 || Capacity(w, q) < 2 * size))
    && (size > 2048 ==>
          q.Large? && exists order: nat :: ChunkOrder(size, order) && Capacity(w, q) == Pow2(order) * 0x1000)
    && (2048 < size <= 0xFFFF_FFFF_FFFF_F000 ==> Capacity(w, q) < 2 * size)
    && (Capacity(w, q) >= size <==> size <= 0xFFFF_FFFF_FFFF_F000)
  }

  /** A block holds the requested bytes as long as it is in use, if the size was not so large that rounding wrapped. */
  lemma RequestHolds(states: seq<State>, events: seq<Event>, i: nat, q: Part, size: nat, a: nat)
    requires Trace(states, events) && i < |events| && events[i] == Take(q)
    requires forall j :: i < j < |events| ==> events[j] != Give(q)
    requires Served(states[i].heap, states[i + 1].heap, size, q, a) && size <= 0xFFFF_FFFF_FFFF_F000
    ensures UserBlock(states[|events|].heap, q) && Lo(states[|events|].heap, q) == a
    ensures Capacity(states[|events|].heap, q) >= size
  {
    hide *;
    HeldBlockStays(states, events, i, q);
    ServedEnough(states[i].heap, states[i + 1].heap, size, q, a);
    SameCapacity(states[i + 1].heap, states[|events|].heap, q);
  }

  lemma ServedEnough(h: Heap, w: Heap, size: nat, q: Part, a: nat)
    requires Served(h, w, size, q, a) && size <= 0xFFFF_FFFF_FFFF_F000
    ensures UserBlock(w, q) && Lo(w, q) == a && Capacity(w, q) >= size
  {
    hide Step, Capacity, Lo, ChunkOrder, Pow2;
  }

  lemma ServedSize(h: Heap, w: Heap, size: nat, q: Part, a: nat)
    requires Served(h, w, size, q, a)
    ensures q.Header? || q.Slot? ==> q.slab in w.slabs
    ensures q.Large? || q.FreeChunk? ==> q.page in w.pool.chunks
    ensures Capacity(w, q) >= size <==> size <= 0xFFFF_FFFF_FFFF_F000
    ensures 32 < size <= 0xFFFF_FFFF_FFFF_F000 ==> Capacity(w, q) < 2 * size
  {
    hide Step, Capacity, Lo, ChunkOrder, Pow2;
  }

  lemma SameCapacity(h: Heap, w: Heap, q: Part)
    requires UserBlock(h, q) && UserBlock(w, q) && Lo(w, q) == Lo(h, q) && Hi(w, q) == Hi(h, q)
    ensures Capacity(w, q) == Capacity(h, q)
  {
    hide Lo, Hi;
  }

  lemma ServedSlot(h: Heap, w: Heap, size: nat, k: nat, x: nat, s: nat)
    requires SLAB_MIN_ORDER <= k <= SLAB_MAX_ORDER && Took(h, w, k, x, s) && Gained(h, w, Slot(s, x))
    requires s in w.slabs && Lo(w, Slot(s, x)) == x && Capacity(w, Slot(s, x)) == Pow2(k)
    requires size <= Pow2(k) && size <= 2048 && (k > SLAB_MIN_ORDER ==> Pow2(k - 1) < size)
    ensures Served(h, w, size, Slot(s, x), x)
  {
    hide Took, Capacity, UserBlock, Lo, Pow2;
    assert Gained(h, w, Slot(s, x));
    SlabPow();
    if k > SLAB_MIN_ORDER { DoubleOrder(k); }
  }

  lemma ServedPages(h: Heap, w: Heap, size: nat, order: nat, q: Part, a: nat)
    requires q.Large? && TookPages(h, w, q.page, order) && Gained(h, w, q) && 2048 < size < 0x1_0000_0000_0000_0000
    requires ChunkOrder(size, order) && Lo(w, q) == a && Capacity(w, q) == Pow2(order) * PAGE_BYTES
    ensures Served(h, w, size, q, a)
  {
    ChunkLargeEnough(size, order);
    hide TookPages, Capacity, UserBlock, Lo, ChunkOrder, Pow2;
  }

  lemma PagesAre(h: Heap, w: Heap, p: nat, order: nat)
    requires BuddySpec.Inv(h.pool) && GetPages(h.pool, order).1 == Some(p) && w == h.(pool := GetPages(h.pool, order).0)
    ensures TookPages(h, w, p, order)
  {
  }

  lemma GaveSlotIs(h: Heap, w: Heap, s: nat, x: nat)
    requires s in h.slabs && w == PushSlot(h, s, x)
    ensures Step(h, w, Give(Slot(s, x)))
  {
  }

  lemma GavePagesIs(h: Heap, w: Heap, p: nat)
    requires BuddySpec.Inv(h.pool) && p in h.pool.chunks && h.pool.chunks[p].status == Out
    requires w == h.(pool := FreePages(h.pool, p))
    ensures Step(h, w, Give(Large(p)))
  {
    hide BuddySpec.Inv, FreePages;
  }

  lemma ServedEffect(h: Heap, w: Heap, size: nat, q: Part, a: nat, mem: Words, mem': Words)
    requires Served(h, w, size, q, a) && WordsKept(h, w, mem, mem')
    ensures Effect(State(h, mem), State(w, mem'), Take(q))
  {
    hide Step, WordsKept, Capacity, UserBlock, Lo;
  }

  lemma NoEffect(h: Heap, mem: Words, mem': Words)
    requires WordsKept(h, h, mem, mem')
    ensures Effect(State(h, mem), State(h, mem'), Idle)
  {
    hide WordsKept;
  }

  lemma GiveEffect(h: Heap, w: Heap, q: Part, mem: Words, mem': Words)
    requires Step(h, w, Give(q)) && WordsKept(h, w, mem, mem')
    ensures Effect(State(h, mem), State(w, mem'), Give(q))
  {
    hide Step, WordsKept;
  }
}
