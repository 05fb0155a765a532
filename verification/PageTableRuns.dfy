/** Runs of map and unmap calls: what every address means after any history of calls, and
    that such a history loses no table unless a block was written over one. */
module PageTableRuns {
  import opened Options
  import opened Descriptors
  import opened PageTableSpec
  import opened PageTableRanges
  import opened PageTableSteps
  import opened PageTableOwnership

  datatype Op = Map(job: Job) | Unmap(va: nat, end: nat)

  ghost predicate Step(sp: Space, w: Space, op: Op) {
    match op
    case Map(j) => JobOk(j) && Mapped(j, sp, w)
    case Unmap(va, end) => UnmapInv(sp, w, va, end)
  }

  /** A run from a table that translates nothing. */
  ghost predicate Trace(spaces: seq<Space>, ops: seq<Op>) {
    && |spaces| == |ops| + 1 && WF(spaces[0])
    && (forall a: nat :: a < VA_LIMIT ==> Find(spaces[0], a) == Unmapped)
    && (forall i :: 0 <= i < |ops| ==> Step(spaces[i], spaces[i + 1], ops[i]))
  }

  predicate Touches(op: Op, a: nat) {
    match op
    case Map(j) => j.va <= a < j.end
    case Unmap(va, end) => va <= a < end
  }

  /** What the calls say about a: the last call that touches it decides. */
  function Translation(ops: seq<Op>, a: nat): Meaning {
    if ops == [] then NoMapping
    else
      var op := ops[|ops| - 1];
      if !Touches(op, a) then Translation(ops[..|ops| - 1], a)
      else
        match op
        case Map(j) => if j.va <= a then MapsTo(j.pa + (a - j.va), FlagsAttr(j.flags)) else NoMapping
        case Unmap(_, _) => NoMapping
  }

  lemma StepMeaning(sp: Space, w: Space, op: Op, a: nat)
    requires Step(sp, w, op) && a < VA_LIMIT
    ensures WF(w)
    ensures !Touches(op, a) ==> Find(w, a) == Find(sp, a)
    ensures Touches(op, a) && op.Map? ==>
              MeaningOf(Find(w, a), a) == MapsTo(op.job.pa + (a - op.job.va), FlagsAttr(op.job.flags))
    ensures Touches(op, a) && op.Unmap? ==> Find(w, a) == Unmapped
  {
    hide WF, Find, MeaningOf, FlagsAttr, MappedLeaf, TablesKept, NewTables, TableAt;
    if op.Map? && Touches(op, a) { MappedMeaning(op.job, a); }
  }

  /** After any run every address means what the last call that touches it says. */
  lemma {:induction false} RunMeaning(spaces: seq<Space>, ops: seq<Op>, a: nat)
    requires Trace(spaces, ops) && a < VA_LIMIT
    ensures WF(spaces[|ops|])
    ensures MeaningOf(Find(spaces[|ops|], a), a) == Translation(ops, a)
  {
    hide WF, Find, Step, FlagsAttr;
    var n := |ops|;
    if n > 0 {
      RunMeaning(spaces[..n], ops[..n - 1], a);
      StepMeaning(spaces[n - 1], spaces[n], ops[n - 1], a);
    }
  }

  /** The same calls, but perhaps with other block sizes. */
  predicate SameCalls(ops: seq<Op>, ops': seq<Op>) {
    && |ops| == |ops'|
    && forall i :: 0 <= i < |ops| ==> SameCall(ops[i], ops'[i])
  }

  predicate SameCall(op: Op, op': Op) {
    if op.Map? && op'.Map? then op'.job == op.job.(huge := op'.job.huge) else op == op'
  }

  lemma {:induction false} SameTranslation(ops: seq<Op>, ops': seq<Op>, a: nat)
    requires SameCalls(ops, ops')
    ensures Translation(ops, a) == Translation(ops', a)
  {
    var n := |ops|;
    if n > 0 {
      SameTranslation(ops[..n - 1], ops'[..n - 1], a);
      assert SameCall(ops[n - 1], ops'[n - 1]);
    }
  }

  /** Over whole runs the huge mapper refines the 4KB mapper: choosing blocks for any of the calls changes
      no translation. */
  lemma RunsAgree(spaces: seq<Space>, ops: seq<Op>, spaces': seq<Space>, ops': seq<Op>, a: nat)
    requires Trace(spaces, ops) && Trace(spaces', ops') && SameCalls(ops, ops') && a < VA_LIMIT
    ensures MeaningOf(Find(spaces[|ops|], a), a) == MeaningOf(Find(spaces'[|ops'|], a), a)
  {
    hide Trace, Find, MeaningOf, Translation;
    RunMeaning(spaces, ops, a);
    RunMeaning(spaces', ops', a);
    SameTranslation(ops, ops', a);
  }

  /** No block of the call is written over a table entry. */
  ghost predicate CutsNone(sp: Space, op: Op) {
    op.Map? ==> forall t :: t in sp.tree ==> !Cut(op.job, op.job.end, sp.tree[t].level, Base(sp.tree[t]))
  }

  /** A run loses no table, so that free_page_table gives all of them back, exactly if no call of it writes a block
      over a table entry. */
  lemma {:induction false} RunLosesNone(spaces: seq<Space>, ops: seq<Op>)
    requires Trace(spaces, ops) && NoneLost(spaces[0])
    ensures WF(spaces[|ops|])
    ensures NoneLost(spaces[|ops|]) <==> forall i :: 0 <= i < |ops| ==> CutsNone(spaces[i], ops[i])
    ensures NoneLost(spaces[|ops|]) <==> Below(spaces[|ops|], spaces[|ops|].root) == spaces[|ops|].tree.Keys
  {
    var n := |ops|;
    hide WF, Find, Step, NoneLost, CutsNone, Below;
    if n > 0 {
      RunLosesNone(spaces[..n], ops[..n - 1]);
      StepLosesNone(spaces[n - 1], spaces[n], ops[n - 1]);
      assert forall i :: 0 <= i < n - 1 ==> CutsNone(spaces[..n][i], ops[..n - 1][i]) == CutsNone(spaces[i], ops[i]);
    }
    BelowRoot(spaces[n]);
  }

  /** One call: a table is lost if it was lost before, or if a block is written over an entry on its path. */
  lemma StepLosesNone(sp: Space, w: Space, op: Op)
    requires WF(sp) && Step(sp, w, op)
    ensures WF(w) && (NoneLost(w) <==> NoneLost(sp) && CutsNone(sp, op))
  {
    hide WF, MappedUpTo, TablesKept, NewTables, NoneBack, Find, TableAt, Cut, Reachable;
    match op
    case Map(j) =>
      if NoneLost(sp) {
        MapLosesNone(j, sp, w);
      } else {
        var t :| t in sp.tree && !Reachable(sp, t);
        MapFindsNone(j, sp, w, t);
      }
    case Unmap(va, end) => UnmapLosesNone(sp, w, va, end);
  }

  // ---------- a run that loses tables ----------

  const LEAK: nat := 0x4000_0000

  /** Map the 4KB page at 0x4000_0000, or the 1GB that starts there. */
  function PageJob(flags: nat): Job {
    Job(LEAK, LEAK, LEAK + 0x1000, flags, false)
  }

  function BlockJob(flags: nat): Job {
    Job(LEAK, LEAK, LEAK + 0x4000_0000, flags, true)
  }

  /** Only a level-0 table, in frame 1. */
  function RootOnly(): Space {
    Space(1, map[1 := Zeros()], map[1 := Node(0, 0)])
  }

  /** Mapping one page and then the 1GB around it leaves the page's level-2 and level-3 table allocated but out of
      reach, so free_page_table does not give them back. */
  lemma LeakHappens(flags: nat) returns (spaces: seq<Space>)
    ensures Trace(spaces, [Map(PageJob(flags)), Map(BlockJob(flags))])
    ensures NoneLost(spaces[0]) && !NoneLost(spaces[2])
    ensures spaces[2].root in spaces[2].tree
    ensures spaces[2].tree.Keys == {1, 2, 3, 4} && Below(spaces[2], spaces[2].root) == {1, 2}
  {
    hide *;
    var sp := RootOnly();
    var w := MapOnePage(flags);
    var u := MapBlockOver(flags, w);
    spaces := [sp, w, u];
    LeakTrace(flags, sp, w, u);
  }

  lemma LeakTrace(flags: nat, sp: Space, w: Space, u: Space)
    requires sp == RootOnly() && JobOk(PageJob(flags)) && JobOk(BlockJob(flags))
    requires Mapped(PageJob(flags), sp, w) && Mapped(BlockJob(flags), w, u) && NoneLost(w)
    ensures Trace([sp, w, u], [Map(PageJob(flags)), Map(BlockJob(flags))]) && NoneLost(sp)
  {
    FreshSpace(1);
    hide Mapped, Find, WF, NoneLost, Reachable, PageJob, BlockJob, JobOk;
    RootReachable(sp);
    var spaces, ops := [sp, w, u], [Map(PageJob(flags)), Map(BlockJob(flags))];
    assert Step(spaces[0], spaces[1], ops[0]) && Step(spaces[1], spaces[2], ops[1]);
  }

  lemma RootReachable(sp: Space)
    requires sp == RootOnly()
    ensures NoneLost(sp)
  {
  }

  /** get_next_ptp inserts table p below table t, which is still empty. */
  lemma OneDown(j: Job, sp: Space, w: Space, l: nat, t: nat, p: nat) returns (u: Space)
    requires MapInv(j, sp, w, LEAK) && j.va <= LEAK < j.end && l < Level(j, LEAK) && TableAt(w, l, LEAK) == Some(t)
    requires t in w.tree && t in w.mem && w.mem[t] == Zeros() && p !in w.tree && p < FRAMES
    ensures MapInv(j, sp, u, LEAK) && u.tree == w.tree[p := Node(l + 1, Pre(l + 1, LEAK))]
    ensures p in u.mem && u.mem[p] == Zeros() && TableAt(u, l + 1, LEAK) == Some(p)
    ensures forall m :: 0 <= m <= l ==> TableAt(u, m, LEAK) == TableAt(w, m, LEAK)
  {
    u := Insert(w, l, LEAK, t, p);
    ZeroInvalid();
    hide Find, TableAt, Level, IsValid, Zeros, Index, Pre, Span, TableDesc;
    InsertKeeps(j, sp, w, LEAK, l, t, p);
    forall m | 0 <= m <= l + 1
      ensures TableAt(u, m, LEAK) == if m == l + 1 then Some(p) else TableAt(w, m, LEAK)
    {
      InsertTables(w, l, LEAK, t, p, m, LEAK);
    }
  }

  lemma LeakFacts(flags: nat)
    ensures JobOk(PageJob(flags)) && JobOk(BlockJob(flags))
    ensures Level(PageJob(flags), LEAK) == 3 && AtBoundary(PageJob(flags), LEAK)
    ensures Level(BlockJob(flags), LEAK) == 1 && AtBoundary(BlockJob(flags), LEAK)
    ensures PageJob(flags).va == LEAK < LEAK + Span(3) == PageJob(flags).end
    ensures BlockJob(flags).va == LEAK < LEAK + Span(1) == BlockJob(flags).end
    ensures !PageJob(flags).huge && Pre(1, LEAK) == 0 && Pre(2, LEAK) == 1 && Pre(3, LEAK) == 512
  {
  }

  lemma RootFacts(sp: Space)
    requires sp == RootOnly()
    ensures WF(sp) && 1 in sp.tree && 1 in sp.mem && sp.mem[1] == Zeros() && TableAt(sp, 0, LEAK) == Some(1)
    ensures sp.tree == map[1 := Node(0, 0)] && 4 < FRAMES
  {
    FreshSpace(1);
  }

  lemma MapOnePage(flags: nat) returns (w: Space)
    ensures JobOk(PageJob(flags)) && JobOk(BlockJob(flags))
    ensures Mapped(PageJob(flags), RootOnly(), w) && NoneLost(w) && WF(w)
    ensures w.tree == map[1 := Node(0, 0), 2 := Node(1, 0), 3 := Node(2, 1), 4 := Node(3, 512)]
    ensures TableAt(w, 1, LEAK) == Some(2) && 2 in w.mem && |w.mem[2]| == ENTRIES
  {
    hide *;
    var j, s1 := PageJob(flags), RootOnly();
    LeakFacts(flags);
    RootFacts(s1);
    StartMap(j, s1);
    var s2 := OneDown(j, s1, s1, 0, 1, 2);
    var s3 := OneDown(j, s1, s2, 1, 2, 3);
    var s4 := OneDown(j, s1, s3, 2, 3, 4);
    w := PutOnLeakPath(j, s1, s4, 4);
    PageLosesNone(j, s1, w);
  }

  /** Write the page or the block at LEAK, which ends the call. */
  lemma PutOnLeakPath(j: Job, sp: Space, w: Space, t: nat) returns (u: Space)
    requires MapInv(j, sp, w, LEAK) && JobOk(j) && AtBoundary(j, LEAK) && LEAK + Span(Level(j, LEAK)) == j.end
    requires TableAt(w, Level(j, LEAK), LEAK) == Some(t) && t in w.tree && TableAt(w, 1, LEAK) == Some(2) && 2 in w.tree
    ensures Mapped(j, sp, u) && WF(u) && u.tree == w.tree && TableAt(u, 1, LEAK) == Some(2)
    ensures 2 in u.mem && |u.mem[2]| == ENTRIES
  {
    hide Find, TableAt, Level, Index, Span, LeafAt, NoneBack, NewTables, TablesKept, MappedUpTo, AtBoundary, JobOk;
    assert TableOk(w, t);
    u := Put(j, w, LEAK, t);
    PutKeeps(j, sp, w, LEAK, t);
    PutTables(j, w, LEAK, t, 1, LEAK);
    assert TableOk(u, 2);
  }

  lemma PageLosesNone(j: Job, sp: Space, w: Space)
    requires sp == RootOnly() && JobOk(j) && !j.huge && Mapped(j, sp, w)
    ensures NoneLost(w)
  {
    RootReachable(sp);
    RootFacts(sp);
    hide NoneLost, JobOk, Cut;
    forall t | t in sp.tree ensures !Cut(j, j.end, sp.tree[t].level, Base(sp.tree[t])) {
      PagesCutNone(j, sp.tree[t].level, Base(sp.tree[t]));
    }
    MapLosesNone(j, sp, w);
  }

  lemma MapBlockOver(flags: nat, w: Space) returns (u: Space)
    requires JobOk(BlockJob(flags)) && NoneLost(w) && WF(w)
    requires w.tree == map[1 := Node(0, 0), 2 := Node(1, 0), 3 := Node(2, 1), 4 := Node(3, 512)]
    requires TableAt(w, 1, LEAK) == Some(2) && 2 in w.mem && |w.mem[2]| == ENTRIES
    ensures Mapped(BlockJob(flags), w, u) && u.tree.Keys == {1, 2, 3, 4} && u.root in u.tree
    ensures !NoneLost(u) && Below(u, u.root) == {1, 2}
  {
    hide *;
    var k := BlockJob(flags);
    LeakFacts(flags);
    StartMap(k, w);
    u := PutOnLeakPath(k, w, w, 2);
    BlockCuts(flags, w, u);
    BelowRoot(u);
    assert u.tree.Keys == {1, 2, 3, 4};
  }

  /** The block is written over the entry that led to tables 3 and 4. */
  lemma BlockCuts(flags: nat, w: Space, u: Space)
    requires JobOk(BlockJob(flags)) && NoneLost(w) && WF(w) && Mapped(BlockJob(flags), w, u)
    requires w.tree == u.tree == map[1 := Node(0, 0), 2 := Node(1, 0), 3 := Node(2, 1), 4 := Node(3, 512)]
    ensures WF(u) && u.root in u.tree
    ensures Reachable(u, 1) && Reachable(u, 2) && !Reachable(u, 3) && !Reachable(u, 4)
  {
    hide Reachable, TablesKept, NoneBack, NewTables, MappedUpTo, Base, Cut, JobOk, BlockJob;
    LeakCuts(flags);
    var k := BlockJob(flags);
    forall t | t in w.tree ensures Reachable(u, t) <==> !Cut(k, k.end, w.tree[t].level, Base(w.tree[t])) {
      SurvivesIff(k, w, u, t);
    }
    assert 1 in w.tree && 2 in w.tree && 3 in w.tree && 4 in w.tree;
  }

  lemma LeakCuts(flags: nat)
    ensures var k := BlockJob(flags);
      && !Cut(k, k.end, 0, Base(Node(0, 0))) && !Cut(k, k.end, 1, Base(Node(1, 0)))
      && Cut(k, k.end, 2, Base(Node(2, 1))) && Cut(k, k.end, 3, Base(Node(3, 512)))
  {
    LeakFacts(flags);
    hide Level, AtBoundary, Pre;
    assert Base(Node(0, 0)) == 0 && Base(Node(1, 0)) == 0 && Base(Node(2, 1)) == LEAK && Base(Node(3, 512)) == LEAK;
  }
}
