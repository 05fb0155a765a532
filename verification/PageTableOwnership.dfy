/** Which tables a page table consists of, which it loses, and how many pages it costs. */
module PageTableOwnership {
  import opened Bits
  import opened Options
  import opened Descriptors
  import opened PageTableSpec
  import opened PageTableRanges
  import opened PageTableSteps

  /** The first virtual address a table covers. */
  function Base(nd: Node): nat {
    nd.pfx * ENTRIES * Span(nd.level)
  }

  lemma PreBase(nd: Node)
    ensures Pre(nd.level, Base(nd)) == nd.pfx
  {
    var s := Span(nd.level);
    hide Span;
    DivUnique(Base(nd), s, nd.pfx * ENTRIES, 0);
  }

  /** Table t is table s or below it. */
  predicate BelowOf(sp: Space, s: nat, t: nat)
    requires s in sp.tree && t in sp.tree
  {
    && sp.tree[s].level <= sp.tree[t].level
    && Pre(sp.tree[s].level, Base(sp.tree[t])) == sp.tree[s].pfx
    && TableFrom(sp.mem, s, sp.tree[s].level, sp.tree[t].level, Base(sp.tree[t])) == Some(t)
  }

  function Below(sp: Space, s: nat): (r: set<nat>)
    requires s in sp.tree
  {
    set t | t in sp.tree && BelowOf(sp, s, t)
  }

  /** The part of it under the first k entries of s. */
  function BelowUpto(sp: Space, s: nat, k: nat): (r: set<nat>)
    requires s in sp.tree
  {
    set t | t in Below(sp, s) && t != s && Index(sp.tree[s].level, Base(sp.tree[t])) < k
  }

  lemma BelowSelf(sp: Space, s: nat)
    requires s in sp.tree
    ensures s in Below(sp, s) && BelowUpto(sp, s, 0) == {} && BelowUpto(sp, s, ENTRIES) == Below(sp, s) - {s}
  {
    PreBase(sp.tree[s]);
    hide Pre, Base, Span;
  }

  predicate LinksTo(sp: Space, s: nat, k: nat)
    requires s in sp.mem && k < |sp.mem[s]|
  {
    IsValid(sp.mem[s][k]) && IsTable(sp.mem[s][k])
  }

  /** What is below entry k is what is below the table it links to. */
  lemma BelowEntry(sp: Space, s: nat, k: nat, t: nat)
    requires WF(sp) && s in sp.tree && sp.tree[s].level < 3 && k < ENTRIES && t in sp.tree
    requires s in sp.mem && |sp.mem[s]| == ENTRIES
    ensures LinksTo(sp, s, k)
        ==> Child(sp.tree, NextTable(sp.mem[s][k]), sp.tree[s].level + 1, sp.tree[s].pfx * ENTRIES + k)
    ensures t in Below(sp, s) && t != s && Index(sp.tree[s].level, Base(sp.tree[t])) == k
       <==> LinksTo(sp, s, k) && t in Below(sp, NextTable(sp.mem[s][k]))
  {
    var l := sp.tree[s].level;
    var a := Base(sp.tree[t]);
    assert TableOk(sp, s) && TableOk(sp, t);
    PreNext(l, a);
    assert EntryOk(sp.tree, sp.tree[s], k, sp.mem[s][k]);
    hide IsValid, IsTable, NextTable, Pre, Index, Span, Base;
    if LinksTo(sp, s, k) && Pre(l + 1, a) == sp.tree[s].pfx * ENTRIES + k {
      EuclidUnique(ENTRIES, Pre(l, a), Index(l, a), sp.tree[s].pfx, k);
    }
  }

  lemma BelowNext(sp: Space, s: nat, k: nat)
    requires WF(sp) && s in sp.tree && sp.tree[s].level < 3 && k < ENTRIES
    requires s in sp.mem && |sp.mem[s]| == ENTRIES
    ensures LinksTo(sp, s, k)
        ==> Child(sp.tree, NextTable(sp.mem[s][k]), sp.tree[s].level + 1, sp.tree[s].pfx * ENTRIES + k)
    ensures BelowUpto(sp, s, k + 1)
         == BelowUpto(sp, s, k) + (if LinksTo(sp, s, k) then Below(sp, NextTable(sp.mem[s][k])) else {})
    ensures LinksTo(sp, s, k) ==> BelowUpto(sp, s, k) !! Below(sp, NextTable(sp.mem[s][k]))
    ensures LinksTo(sp, s, k) ==> Below(sp, NextTable(sp.mem[s][k])) <= Below(sp, s) - {s}
  {
    BelowEntry(sp, s, k, s);
    hide WF, LinksTo, BelowOf, Index, Base, NextTable, Child;
    forall t | t in sp.tree
      ensures t in Below(sp, s) && t != s && Index(sp.tree[s].level, Base(sp.tree[t])) == k
         <==> LinksTo(sp, s, k) && t in Below(sp, NextTable(sp.mem[s][k]))
    {
      BelowEntry(sp, s, k, t);
    }
  }

  /** A table that a walk from the root can reach. */
  predicate Reachable(sp: Space, t: nat)
    requires t in sp.tree
  {
    Base(sp.tree[t]) < VA_LIMIT && TableAt(sp, sp.tree[t].level, Base(sp.tree[t])) == Some(t)
  }

  ghost predicate NoneLost(sp: Space) {
    forall t :: t in sp.tree ==> Reachable(sp, t)
  }

  /** Below the root are exactly the reachable tables. */
  lemma BelowRoot(sp: Space)
    requires WF(sp)
    ensures forall t :: t in Below(sp, sp.root) <==> t in sp.tree && Reachable(sp, t)
    ensures NoneLost(sp) <==> Below(sp, sp.root) == sp.tree.Keys
  {
    forall t | t in sp.tree ensures t in Below(sp, sp.root) <==> Reachable(sp, t) {
      BelowRootOf(sp, t);
    }
    hide Reachable, Below, BelowOf;
    assert forall t :: t in Below(sp, sp.root) ==> t in sp.tree by { BelowIsTree(sp, sp.root); }
  }

  lemma BelowIsTree(sp: Space, s: nat)
    requires s in sp.tree
    ensures Below(sp, s) <= sp.tree.Keys
  {
  }

  lemma BelowRootOf(sp: Space, t: nat)
    requires WF(sp) && t in sp.tree
    ensures t in Below(sp, sp.root) <==> Reachable(sp, t)
  {
    PreRoot(Base(sp.tree[t]));
  }

  /** A table reached for one address of its range is reached for its first. */
  lemma ReachedFrom(w: Space, t: nat, x: nat)
    requires WF(w) && t in w.tree && x < VA_LIMIT && TableAt(w, w.tree[t].level, x) == Some(t)
    ensures Reachable(w, t)
    ensures w.tree[t].pfx == Pre(w.tree[t].level, x)
  {
    var nd := w.tree[t];
    assert TableOk(w, t);
    TableAtFor(w, nd.level, x);
    PreBase(nd);
    BaseBelow(nd, x);
    hide Pre, Base, WF, Span;
    SameTable(w.mem, w.root, 0, nd.level, Base(nd), x);
  }

  lemma BaseBelow(nd: Node, x: nat)
    requires nd.pfx == Pre(nd.level, x)
    ensures Base(nd) <= x
  {
    var s := Span(nd.level);
    hide Span;
    assert x / s >= nd.pfx * ENTRIES;
    assert x == x / s * s + x % s;
    assert (x / s - nd.pfx * ENTRIES) * s >= 0;
  }

  /** Where a table is on the path, the walk does not stop above it. */
  lemma TableMeansDeeper(w: Space, m: nat, a: nat)
    requires WF(w) && a < VA_LIMIT && m <= 3 && TableAt(w, m, a).Some? && Find(w, a).Leaf?
    ensures Find(w, a).level >= m
  {
    PreRoot(a);
    LookupThrough(w, w.root, 0, m, a);
    hide IsValid, IsTable, NextTable, Index;
    var e := w.mem[TableAt(w, m, a).value][Index(m, a)];
    LeafLevels(w.mem, NextTable(e), m + 1, a);
  }

  /** A table survives a mapping call exactly when no block was written over an entry on its path. */
  lemma SurvivesIff(j: Job, sp: Space, w: Space, t: nat)
    requires WF(sp) && JobOk(j) && MapInv(j, sp, w, j.end) && t in sp.tree && Reachable(sp, t)
    ensures t in w.tree && (Reachable(w, t) <==> !Cut(j, j.end, sp.tree[t].level, Base(sp.tree[t])))
  {
    var a := Base(sp.tree[t]);
    assert TableOk(sp, t);
    hide WF, TableAt, Find, Level, Base, Span;
    assert w.tree[t] == sp.tree[t];
    if Cut(j, j.end, sp.tree[t].level, a) && Reachable(w, t) {
      assert Find(w, a) == FindAfter(j, sp, j.end, a);
      TableMeansDeeper(w, sp.tree[t].level, a);
    }
  }

  /** Mapping loses no table exactly if no block is written over an entry on the path of one. */
  lemma MapLosesNone(j: Job, sp: Space, w: Space)
    requires WF(sp) && JobOk(j) && MapInv(j, sp, w, j.end) && NoneLost(sp)
    ensures NoneLost(w) <==> forall t :: t in sp.tree ==> !Cut(j, j.end, sp.tree[t].level, Base(sp.tree[t]))
  {
    hide TableAt, Find, Level, Base, Span, MappedUpTo, Reachable, Cut;
    forall t | t in sp.tree
      ensures t in w.tree && (Reachable(w, t) <==> !Cut(j, j.end, sp.tree[t].level, Base(sp.tree[t])))
    {
      SurvivesIff(j, sp, w, t);
    }
    forall t | t in w.tree && t !in sp.tree ensures Reachable(w, t) {
      assert Needed(j, w, t);
      var x: nat :| NeededAt(j, w, t, x);
      ReachedFrom(w, t, x);
    }
  }

  /** A table that was lost before a mapping call stays lost. */
  lemma MapFindsNone(j: Job, sp: Space, w: Space, t: nat)
    requires WF(sp) && MapInv(j, sp, w, j.end) && t in sp.tree && !Reachable(sp, t)
    ensures t in w.tree && !Reachable(w, t)
  {
    hide TableAt, Find, Level, Base, Span, WF, MappedUpTo, NewTables;
    assert w.tree[t] == sp.tree[t];
    LevelOk(sp, t);
  }

  lemma LevelOk(sp: Space, t: nat)
    requires WF(sp) && t in sp.tree
    ensures sp.tree[t].level <= 3
  {
    assert TableOk(sp, t);
  }

  /** Mapping 4KB pages never writes over a table entry. */
  lemma PagesCutNone(j: Job, m: nat, a: nat)
    requires !j.huge && m <= 3
    ensures !Cut(j, j.end, m, a)
  {
  }

  /** Unmapping neither loses a table nor finds a lost one. */
  lemma UnmapLosesNone(sp: Space, w: Space, start: nat, end: nat)
    requires WF(sp) && UnmapInv(sp, w, start, end)
    ensures NoneLost(w) <==> NoneLost(sp)
  {
    hide TableAt, Find, Base, Span, WF;
    forall t | t in w.tree ensures Reachable(w, t) <==> Reachable(sp, t) {
      LevelOk(sp, t);
    }
  }

  // ---------- how many tables a mapping call takes ----------

  /** The tables of level l that the call added. */
  function Added(sp: Space, w: Space, l: nat): (r: set<nat>) {
    set t | t in w.tree && t !in sp.tree && w.tree[t].level == l
  }

  /** va and pa agree modulo 1GB */
  predicate Congruent(j: Job) {
    j.va % Span(1) == j.pa % Span(1)
  }

  /** A block of the range that does not fit, although its physical address would be aligned, sticks out. */
  lemma SticksOut(j: Job, l: nat, x: nat)
    requires j.va <= x < j.end && Congruent(j) && 1 <= l <= 2 && !Fits(j, l, x)
    ensures x / Span(l) == j.va / Span(l) || x / Span(l) == (j.end - 1) / Span(l)
  {
    FrameFacts(l, x);
    assert j.va <= Frame(l, x) ==> (j.pa + (Frame(l, x) - j.va)) % Span(l) == 0 by {
      if j.va <= Frame(l, x) { SameOffset(j, l, Frame(l, x)); }
    }
    hide Span, Frame, Congruent;
    if Frame(l, x) < j.va {
      SameBlock(l, x, j.va);
    } else {
      SameBlock(l, x, j.end - 1);
    }
  }

  lemma SameOffset(j: Job, l: nat, f: nat)
    requires 1 <= l <= 2 && Congruent(j) && f % Span(l) == 0 && j.va <= f
    ensures (j.pa + (f - j.va)) % Span(l) == 0
  {
    SpanRatio(1, l);
    hide Span, Ratio;
    OffsetOf(j.pa, j.va, f, Span(l), Ratio(1, l));
  }

  lemma OffsetOf(pa: nat, va: nat, f: nat, s: nat, r: nat)
    requires s > 0 && r > 0 && r * s > 0 && va % (r * s) == pa % (r * s) && f % s == 0 && va <= f
    ensures (pa + (f - va)) % s == 0
  {
    var big := r * s;
    var m, n, k := pa / big, va / big, f / s;
    assert pa == m * big + pa % big && va == n * big + va % big && f == k * s;
    assert pa - va == (m - n) * big == ((m - n) * r) * s;
    var q := (m - n) * r + k;
    assert pa + (f - va) == q * s;
    DivUnique(pa + (f - va), s, q, 0);
  }

  lemma AddedAt(j: Job, sp: Space, w: Space, l: nat, t: nat)
    requires JobOk(j) && MapInv(j, sp, w, j.end) && t in Added(sp, w, l)
    ensures exists x: nat :: j.va <= x < j.end && w.tree[t].pfx == x / Span(l - 1) && l <= Level(j, x) && 1 <= l
    ensures Reachable(w, t)
  {
    hide TableAt, Find, Level, Base, Span, MappedUpTo, Reachable;
    assert Needed(j, w, t);
    var x: nat :| NeededAt(j, w, t, x);
    ReachedFrom(w, t, x);
    PreNext(l - 1, x);
  }

  /** Reachable tables of one level that cover the same addresses are the same. */
  lemma SamePlace(w: Space, s: nat, t: nat)
    requires s in w.tree && t in w.tree && Reachable(w, s) && Reachable(w, t) && w.tree[s] == w.tree[t]
    ensures s == t
  {
  }

  /** A reachable level-l table for one of those places. */
  predicate InTree(w: Space, t: nat, l: nat, places: set<nat>) {
    t in w.tree && w.tree[t].level == l && Reachable(w, t) && w.tree[t].pfx in places
  }

  lemma {:induction false} AtMost(w: Space, ts: set<nat>, l: nat, places: set<nat>)
    requires forall t :: t in ts ==> InTree(w, t, l, places)
    ensures |ts| <= |places|
    decreases |ts|
  {
    hide Reachable;
    if t :| t in ts {
      var rest := ts - {t};
      forall s | s in rest ensures InTree(w, s, l, places - {w.tree[t].pfx}) {
        assert InTree(w, s, l, places) && InTree(w, t, l, places);
        if w.tree[s].pfx == w.tree[t].pfx { SamePlace(w, s, t); }
      }
      AtMost(w, rest, l, places - {w.tree[t].pfx});
    }
  }

  function Between(a: nat, b: nat): (r: set<nat>)
    ensures forall x: nat :: x in r <==> a <= x <= b
    ensures |r| == if a <= b then b - a + 1 else 0
    decreases b + 1 - a
  {
    if a > b then {} else {a} + Between(a + 1, b)
  }

  /** However long the range, a huge map whose addresses agree modulo 1GB takes at most two level-3 tables,
      two level-2 tables and one level-1 table for each 512GB slot it touches. */
  lemma HugeMapCost(j: Job, sp: Space, w: Space)
    requires JobOk(j) && j.huge && j.va < j.end && j.va % 0x4000_0000 == j.pa % 0x4000_0000 && MapInv(j, sp, w, j.end)
    ensures |Added(sp, w, 3)| <= 2 && |Added(sp, w, 2)| <= 2
    ensures |Added(sp, w, 1)| <= (j.end - 1) / 0x80_0000_0000 - j.va / 0x80_0000_0000 + 1
    ensures Added(sp, w, 0) == {}
  {
    hide MapInv, Reachable, Added, Level;
    BlockTables(j, sp, w, 1);
    BlockTables(j, sp, w, 2);
    SlotTables(j, sp, w);
    NoNewRoot(j, sp, w);
  }

  lemma NotFitting(j: Job, l: nat, x: nat)
    requires j.huge && 2 <= l <= Level(j, x)
    ensures !Fits(j, l - 1, x)
  {
  }

  /** The places of level l that hold the first and the last address of the range. */
  function Edges(j: Job, l: nat): set<nat> {
    {j.va / Span(l), (if j.end > 0 then j.end - 1 else 0) / Span(l)}
  }

  lemma BlockTables(j: Job, sp: Space, w: Space, l: nat)
    requires JobOk(j) && j.huge && j.va < j.end && Congruent(j) && MapInv(j, sp, w, j.end) && 1 <= l <= 2
    ensures |Added(sp, w, l + 1)| <= 2
  {
    hide *;
    var m, places := l + 1, Edges(j, l);
    forall t | t in Added(sp, w, m) ensures InTree(w, t, m, places) {
      AddedInBlock(j, sp, w, l, t);
    }
    AtMost(w, Added(sp, w, m), m, places);
    EdgesTwo(j, l);
  }

  lemma EdgesTwo(j: Job, l: nat)
    ensures |Edges(j, l)| <= 2
  {
    hide Span;
    var a, b := j.va / Span(l), (if j.end > 0 then j.end - 1 else 0) / Span(l);
    if a == b { assert Edges(j, l) == {a}; } else { assert |{a, b}| == 2; }
  }

  lemma AddedInBlock(j: Job, sp: Space, w: Space, l: nat, t: nat)
    requires JobOk(j) && j.huge && j.va < j.end && Congruent(j) && MapInv(j, sp, w, j.end) && 1 <= l <= 2
    requires t in Added(sp, w, l + 1)
    ensures InTree(w, t, l + 1, Edges(j, l))
  {
    hide JobOk, Congruent, MapInv, Reachable, Span, Level, Fits;
    AddedAt(j, sp, w, l + 1, t);
    var x: nat :| j.va <= x < j.end && w.tree[t].pfx == x / Span(l) && l + 1 <= Level(j, x);
    NotFitting(j, l + 1, x);
    SticksOut(j, l, x);
  }

  lemma SlotTables(j: Job, sp: Space, w: Space)
    requires JobOk(j) && j.va < j.end && MapInv(j, sp, w, j.end)
    ensures |Added(sp, w, 1)| <= (j.end - 1) / Span(0) - j.va / Span(0) + 1
  {
    hide MapInv, Reachable, Level;
    var places := Between(j.va / Span(0), (j.end - 1) / Span(0));
    forall t | t in Added(sp, w, 1) ensures InTree(w, t, 1, places) {
      AddedAt(j, sp, w, 1, t);
    }
    AtMost(w, Added(sp, w, 1), 1, places);
  }

  lemma NoNewRoot(j: Job, sp: Space, w: Space)
    requires JobOk(j) && MapInv(j, sp, w, j.end)
    ensures Added(sp, w, 0) == {}
  {
    hide *;
    if t :| t in Added(sp, w, 0) {
      AddedAt(j, sp, w, 0, t);
      assert false;
    }
  }
}
