/** Four-level page tables as a radix tree in physical memory.  A table is named
    by its physical frame number; `tree` records, for every table that was
    allocated, its level and the prefix of the virtual addresses it covers. */
module PageTableSpec {
  import opened Bits
  import opened Options
  import opened Descriptors
  import opened DescriptorWords

  const ENTRIES: nat := 512                    // PTP_ENTRIES
  const VA_LIMIT: nat := 0x1_0000_0000_0000    // 48-bit virtual addresses
  const FRAMES: nat := 0x10_0000_0000          // 36-bit frame numbers

  type Mem = map<nat, seq<nat>>
  datatype Node = Node(level: nat, pfx: nat)
  type Tree = map<nat, Node>
  datatype Space = Space(root: nat, mem: Mem, tree: Tree)

  datatype Lookup = Unmapped | Leaf(level: LeafLevel, desc: nat)

  // ---------- addresses ----------

  /** GET_Lx_INDEX */
  function Index(l: nat, va: nat): (i: nat)
    ensures i < ENTRIES
  {
    (va / Span(l)) % ENTRIES
  }

  /** The part of va above the bits that a level-l table translates. */
  function Pre(l: nat, va: nat): nat {
    va / Span(l) / ENTRIES
  }

  /** Prefix and index of one level make up the prefix of the next. */
  lemma PreNext(l: nat, va: nat)
    requires l < 3
    ensures Pre(l + 1, va) == va / Span(l) == Pre(l, va) * ENTRIES + Index(l, va)
  {
    if l == 0 {
    } else if l == 1 {
    } else {
    }
  }

  lemma PreIndex(l: nat, va: nat)
    ensures va / Span(l) == Pre(l, va) * ENTRIES + Index(l, va)
  {
  }

  lemma PreRoot(va: nat)
    ensures Pre(0, va) == 0 <==> va < VA_LIMIT
  {
  }

  /** The four 9-bit indices and the 12-bit offset are those of the architecture, and rebuild any 48-bit address. */
  lemma IndicesRebuild(va: nat)
    requires va < 0x1_0000_0000_0000
    ensures Index(0, va) == va / 0x80_0000_0000 && Index(1, va) == va / 0x4000_0000 % 512
    ensures Index(2, va) == va / 0x20_0000 % 512 && Index(3, va) == va / 0x1000 % 512
    ensures va == Index(0, va) * 0x80_0000_0000 + Index(1, va) * 0x4000_0000 + Index(2, va) * 0x20_0000
                  + Index(3, va) * 0x1000 + va % 0x1000
  {
    PreRoot(va);
    PreNext(0, va); PreNext(1, va); PreNext(2, va); PreIndex(3, va);
    hide Pre;
    assert va == va / 0x1000 * 0x1000 + va % 0x1000;
  }

  /** Addresses in one entry of a level share the path down to that level. */
  lemma SameEntry(k: nat, l: nat, a: nat, va: nat)
    requires k < l <= 3 && a / Span(l) == va / Span(l)
    ensures a / Span(k) == va / Span(k)
    decreases l - k
  {
    PreNext(l - 1, a);
    PreNext(l - 1, va);
    if k < l - 1 { SameEntry(k, l - 1, a, va); }
  }

  // ---------- well-formed spaces ----------

  predicate Child(tree: Tree, c: nat, l: nat, x: nat) {
    c in tree && tree[c] == Node(l, x)
  }

  /** An entry is a 64-bit word; a valid one above level 3 that has its table bit set leads to the table for its
      addresses. */
  predicate EntryOk(tree: Tree, nd: Node, i: nat, e: nat) {
    && e < U64
    && (IsValid(e) && nd.level < 3 ==>
          && (nd.level == 0 ==> IsTable(e))
          && (IsTable(e) ==> Child(tree, NextTable(e), nd.level + 1, nd.pfx * ENTRIES + i)))
  }

  ghost predicate TableOk(sp: Space, t: nat)
    requires t in sp.tree
  {
    && sp.tree[t].level <= 3 && t < FRAMES && t in sp.mem && |sp.mem[t]| == ENTRIES
    && forall i :: 0 <= i < ENTRIES ==> EntryOk(sp.tree, sp.tree[t], i, sp.mem[t][i])
  }

  ghost predicate WF(sp: Space) {
    && Child(sp.tree, sp.root, 0, 0)
    && forall t :: t in sp.tree ==> TableOk(sp, t)
  }

  // ---------- the walk ----------

  /** query_in_pgtbl from table s of level k on.  At level 0 the table bit is not looked at. */
  function LookupFrom(mem: Mem, s: nat, k: nat, a: nat): (r: Lookup)
    decreases 4 - k
  {
    if k > 3 || s !in mem || |mem[s]| != ENTRIES then Unmapped
    else
      var e := mem[s][Index(k, a)];
      if !IsValid(e) then Unmapped
      else if k == 3 || (k > 0 && !IsTable(e)) then Leaf(k, e)
      else LookupFrom(mem, NextTable(e), k + 1, a)
  }

  function Find(sp: Space, a: nat): Lookup {
    LookupFrom(sp.mem, sp.root, 0, a)
  }

  /** Entry i of table t; a page that is no table counts as empty. */
  function EntryAt(mem: Mem, t: nat, i: nat): nat {
    if t in mem && |mem[t]| == 512 && i < 512 then mem[t][i] else 0
  }

  /** The walk in numbers: which bits of the address pick the entry of each level, and which bits of an entry say where
      to go on. */
  lemma WalkInNumbers(sp: Space, a: nat)
    requires a < 0x1_0000_0000_0000
    ensures
      var e0 := EntryAt(sp.mem, sp.root, a / 0x80_0000_0000);
      var e1 := EntryAt(sp.mem, e0 / 0x1000 % 0x10_0000_0000, a / 0x4000_0000 % 512);
      var e2 := EntryAt(sp.mem, e1 / 0x1000 % 0x10_0000_0000, a / 0x20_0000 % 512);
      var e3 := EntryAt(sp.mem, e2 / 0x1000 % 0x10_0000_0000, a / 0x1000 % 512);
      Find(sp, a)
      == if e0 % 2 == 0 || e1 % 2 == 0 then Unmapped
         else if e1 / 2 % 2 == 0 then Leaf(1, e1)
         else if e2 % 2 == 0 then Unmapped
         else if e2 / 2 % 2 == 0 then Leaf(2, e2)
         else if e3 % 2 == 0 then Unmapped
         else Leaf(3, e3)
  {
    hide IsValid, IsTable, NextTable, Index, LookupFrom;
    IndicesRebuild(a);
    EntryReads(0);
    var m := sp.mem;
    var e0 := EntryAt(m, sp.root, Index(0, a));
    EntryReads(e0);
    var e1 := EntryAt(m, NextTable(e0), Index(1, a));
    EntryReads(e1);
    var e2 := EntryAt(m, NextTable(e1), Index(2, a));
    EntryReads(e2);
    var e3 := EntryAt(m, NextTable(e2), Index(3, a));
    EntryReads(e3);
    LookupStep(m, sp.root, 0, a);
    LookupStep(m, NextTable(e0), 1, a);
    LookupStep(m, NextTable(e1), 2, a);
    LookupStep(m, NextTable(e2), 3, a);
  }

  lemma LookupStep(mem: Mem, s: nat, k: nat, a: nat)
    requires k <= 3
    ensures var e := EntryAt(mem, s, Index(k, a));
      LookupFrom(mem, s, k, a)
      == if !IsValid(e) then Unmapped
         else if k == 3 || (k > 0 && !IsTable(e)) then Leaf(k, e)
         else LookupFrom(mem, NextTable(e), k + 1, a)
  {
    EntryReads(0);
    hide IsValid, IsTable, NextTable;
  }

  /** The level-l table on the path of a, starting from table s of level k. */
  function TableFrom(mem: Mem, s: nat, k: nat, l: nat, a: nat): (r: Option<nat>)
    decreases 4 - k
  {
    if k == l then Some(s)
    else if k > 3 || s !in mem || |mem[s]| != ENTRIES then None
    else
      var e := mem[s][Index(k, a)];
      if IsValid(e) && IsTable(e) then TableFrom(mem, NextTable(e), k + 1, l, a) else None
  }

  function TableAt(sp: Space, l: nat, a: nat): Option<nat> {
    TableFrom(sp.mem, sp.root, 0, l, a)
  }

  /** s is the level-k table for the addresses around a. */
  predicate IsTableFor(sp: Space, s: nat, k: nat, a: nat) {
    s in sp.tree && sp.tree[s] == Node(k, Pre(k, a))
  }

  lemma ChildFor(sp: Space, s: nat, k: nat, a: nat)
    requires WF(sp) && IsTableFor(sp, s, k, a) && k < 3
    requires IsValid(sp.mem[s][Index(k, a)]) && IsTable(sp.mem[s][Index(k, a)])
    ensures IsTableFor(sp, NextTable(sp.mem[s][Index(k, a)]), k + 1, a)
  {
    hide IsValid, IsTable, NextTable;
    assert TableOk(sp, s);
    PreNext(k, a);
    assert EntryOk(sp.tree, sp.tree[s], Index(k, a), sp.mem[s][Index(k, a)]);
  }

  /** A walk stays inside the tree and ends at the table for its addresses. */
  lemma {:induction false} TableFromFor(sp: Space, s: nat, k: nat, l: nat, a: nat)
    requires WF(sp) && IsTableFor(sp, s, k, a) && k <= l <= 3 && TableFrom(sp.mem, s, k, l, a).Some?
    ensures IsTableFor(sp, TableFrom(sp.mem, s, k, l, a).value, l, a)
    decreases l - k
  {
    hide IsValid, IsTable, NextTable, Index, Pre;
    if k < l {
      assert TableOk(sp, s);
      ChildFor(sp, s, k, a);
      TableFromFor(sp, NextTable(sp.mem[s][Index(k, a)]), k + 1, l, a);
    }
  }

  lemma TableAtFor(sp: Space, l: nat, a: nat)
    requires WF(sp) && l <= 3 && a < VA_LIMIT && TableAt(sp, l, a).Some?
    ensures IsTableFor(sp, TableAt(sp, l, a).value, l, a)
    ensures TableOk(sp, TableAt(sp, l, a).value)
  {
    PreRoot(a);
    TableFromFor(sp, sp.root, 0, l, a);
  }

  // ---------- writing one entry ----------

  function Write(sp: Space, t: nat, i: nat, e: nat): Space
    requires t in sp.mem && i < |sp.mem[t]|
  {
    var row: seq<nat> := sp.mem[t][i := e];
    sp.(mem := sp.mem[t := row])
  }

  lemma WriteWF(sp: Space, t: nat, i: nat, e: nat)
    requires WF(sp) && t in sp.tree && t in sp.mem && i < |sp.mem[t]| && EntryOk(sp.tree, sp.tree[t], i, e)
    ensures WF(Write(sp, t, i, e))
  {
    hide EntryOk;
    var w := Write(sp, t, i, e);
    forall s | s in w.tree ensures TableOk(w, s) {
      assert TableOk(sp, s);
    }
  }

  /** Entry i of table t is on the path of a. */
  predicate OnPath(sp: Space, t: nat, i: nat, a: nat)
    requires t in sp.tree
  {
    sp.tree[t].pfx == Pre(sp.tree[t].level, a) && i == Index(sp.tree[t].level, a)
  }

  /** A write off the path of a does not change what a walk finds. */
  lemma {:induction false} LookupFrame(sp: Space, t: nat, i: nat, e: nat, s: nat, k: nat, a: nat)
    requires WF(sp) && t in sp.tree && t in sp.mem && i < |sp.mem[t]| && !OnPath(sp, t, i, a)
    requires IsTableFor(sp, s, k, a) && k <= 3
    ensures LookupFrom(Write(sp, t, i, e).mem, s, k, a) == LookupFrom(sp.mem, s, k, a)
    decreases 4 - k
  {
    hide IsValid, IsTable, NextTable, Index, Pre;
    assert TableOk(sp, s);
    var old_e := sp.mem[s][Index(k, a)];
    assert Write(sp, t, i, e).mem[s][Index(k, a)] == old_e;
    if IsValid(old_e) && !(k == 3 || (k > 0 && !IsTable(old_e))) {
      assert EntryOk(sp.tree, sp.tree[s], Index(k, a), old_e);
      ChildFor(sp, s, k, a);
      LookupFrame(sp, t, i, e, NextTable(old_e), k + 1, a);
    }
  }

  lemma {:induction false} TableFrame(sp: Space, t: nat, i: nat, e: nat, s: nat, k: nat, l: nat, a: nat)
    requires WF(sp) && t in sp.tree && t in sp.mem && i < |sp.mem[t]|
    requires !OnPath(sp, t, i, a) || l <= sp.tree[t].level
    requires IsTableFor(sp, s, k, a) && k <= l <= 3
    ensures TableFrom(Write(sp, t, i, e).mem, s, k, l, a) == TableFrom(sp.mem, s, k, l, a)
    decreases 4 - k
  {
    hide IsValid, IsTable, NextTable, Index, Pre;
    if k < l {
      assert TableOk(sp, s);
      var old_e := sp.mem[s][Index(k, a)];
      assert Write(sp, t, i, e).mem[s][Index(k, a)] == old_e;
      if IsValid(old_e) && IsTable(old_e) {
        ChildFor(sp, s, k, a);
        TableFrame(sp, t, i, e, NextTable(old_e), k + 1, l, a);
      }
    }
  }

  /** What a walk for a finds when it meets entry e at level l. */
  function FromEntry(mem: Mem, l: nat, e: nat, a: nat): Lookup {
    if !IsValid(e) then Unmapped
    else if l == 3 || (0 < l < 3 && !IsTable(e)) then Leaf(l, e)
    else LookupFrom(mem, NextTable(e), l + 1, a)
  }

  function TableFromEntry(mem: Mem, l: nat, e: nat, m: nat, a: nat): Option<nat> {
    if IsValid(e) && IsTable(e) then TableFrom(mem, NextTable(e), l + 1, m, a) else None
  }

  /** A walk passes through the table on its path. */
  lemma {:induction false} LookupThrough(sp: Space, s: nat, k: nat, l: nat, a: nat)
    requires WF(sp) && IsTableFor(sp, s, k, a) && k <= l <= 3 && TableFrom(sp.mem, s, k, l, a).Some?
    ensures var t := TableFrom(sp.mem, s, k, l, a).value;
      && t in sp.mem && |sp.mem[t]| == ENTRIES
      && LookupFrom(sp.mem, s, k, a) == FromEntry(sp.mem, l, sp.mem[t][Index(l, a)], a)
    decreases l - k
  {
    hide IsValid, IsTable, NextTable, Index, Pre;
    assert TableOk(sp, s);
    if k < l {
      ChildFor(sp, s, k, a);
      LookupThrough(sp, NextTable(sp.mem[s][Index(k, a)]), k + 1, l, a);
    }
  }

  lemma {:induction false} TableThrough(sp: Space, s: nat, k: nat, l: nat, m: nat, a: nat)
    requires WF(sp) && IsTableFor(sp, s, k, a) && k <= l < m <= 3 && TableFrom(sp.mem, s, k, l, a).Some?
    ensures var t := TableFrom(sp.mem, s, k, l, a).value;
      t in sp.mem && |sp.mem[t]| == ENTRIES
      && TableFrom(sp.mem, s, k, m, a) == TableFromEntry(sp.mem, l, sp.mem[t][Index(l, a)], m, a)
    decreases l - k
  {
    hide IsValid, IsTable, NextTable, Index, Pre;
    assert TableOk(sp, s);
    if k < l {
      ChildFor(sp, s, k, a);
      TableThrough(sp, NextTable(sp.mem[s][Index(k, a)]), k + 1, l, m, a);
    }
  }

  /** The path down to level l depends only on the address bits above it. */
  lemma {:induction false} SameTable(mem: Mem, s: nat, k: nat, l: nat, a: nat, va: nat)
    requires k <= l <= 3 && Pre(l, a) == Pre(l, va)
    ensures TableFrom(mem, s, k, l, a) == TableFrom(mem, s, k, l, va)
    decreases l - k
  {
    if k < l {
      PreNext(l - 1, a);
      PreNext(l - 1, va);
      if k < l - 1 { SameEntry(k, l - 1, a, va); }
      PreIndex(k, a);
      PreIndex(k, va);
      hide Pre, Span;
      assert Index(k, a) == Index(k, va);
      if s in mem && |mem[s]| == ENTRIES {
        SameTable(mem, NextTable(mem[s][Index(k, a)]), k + 1, l, a, va);
      }
    }
  }

  lemma OnPathIff(sp: Space, t: nat, l: nat, va: nat, a: nat)
    requires IsTableFor(sp, t, l, va)
    ensures OnPath(sp, t, Index(l, va), a) <==> a / Span(l) == va / Span(l)
  {
    PreIndex(l, a);
    PreIndex(l, va);
  }

  /** Writing an entry changes exactly the addresses of that entry. */
  lemma WriteFind(sp: Space, l: nat, va: nat, t: nat, e: nat, a: nat)
    requires WF(sp) && l <= 3 && va < VA_LIMIT && a < VA_LIMIT && TableAt(sp, l, va) == Some(t)
    requires t in sp.tree && t in sp.mem && |sp.mem[t]| == ENTRIES && EntryOk(sp.tree, sp.tree[t], Index(l, va), e)
    ensures Find(Write(sp, t, Index(l, va), e), a)
         == if a / Span(l) == va / Span(l) then FromEntry(Write(sp, t, Index(l, va), e).mem, l, e, a) else Find(sp, a)
  {
    TableAtFor(sp, l, va);
    OnPathIff(sp, t, l, va, a);
    PreRoot(a);
    PreIndex(l, a);
    PreIndex(l, va);
    hide IsValid, IsTable, NextTable, Index, Pre, EntryOk, Span;
    var i := Index(l, va);
    if a / Span(l) == va / Span(l) {
      SameTable(sp.mem, sp.root, 0, l, a, va);
      var w := Write(sp, t, i, e);
      WriteWF(sp, t, i, e);
      TableFrame(sp, t, i, e, sp.root, 0, l, a);
      LookupThrough(w, sp.root, 0, l, a);
    } else {
      LookupFrame(sp, t, i, e, sp.root, 0, a);
    }
  }

  /** Writing an entry changes the tables only below that entry. */
  lemma WriteTables(sp: Space, l: nat, va: nat, t: nat, e: nat, m: nat, a: nat)
    requires WF(sp) && l <= 3 && m <= 3 && va < VA_LIMIT && a < VA_LIMIT && TableAt(sp, l, va) == Some(t)
    requires t in sp.tree && t in sp.mem && |sp.mem[t]| == ENTRIES && EntryOk(sp.tree, sp.tree[t], Index(l, va), e)
    ensures TableAt(Write(sp, t, Index(l, va), e), m, a)
         == if l < m && a / Span(l) == va / Span(l) then TableFromEntry(Write(sp, t, Index(l, va), e).mem, l, e, m, a)
            else TableAt(sp, m, a)
  {
    TableAtFor(sp, l, va);
    OnPathIff(sp, t, l, va, a);
    PreRoot(a);
    PreIndex(l, a);
    PreIndex(l, va);
    hide IsValid, IsTable, NextTable, Index, Pre, EntryOk, Span;
    var i := Index(l, va);
    if l < m && a / Span(l) == va / Span(l) {
      SameTable(sp.mem, sp.root, 0, l, a, va);
      var w := Write(sp, t, i, e);
      WriteWF(sp, t, i, e);
      TableFrame(sp, t, i, e, sp.root, 0, l, a);
      TableThrough(w, sp.root, 0, l, m, a);
    } else {
      TableFrame(sp, t, i, e, sp.root, 0, m, a);
    }
  }

  // ---------- adding a table ----------

  function Zeros(): (z: seq<nat>)
    ensures |z| == ENTRIES && forall i :: 0 <= i < ENTRIES ==> z[i] == 0
  {
    seq(ENTRIES, i => 0)
  }

  /** A cleared level-0 table translates nothing. */
  lemma FreshSpace(f: nat)
    ensures var sp := Space(f, map[f := Zeros()], map[f := Node(0, 0)]);
      (f < FRAMES ==> WF(sp)) && forall a: nat :: Find(sp, a) == Unmapped
  {
    ZeroInvalid();
  }

  /** A zeroed page joins the tree; nothing points to it yet. */
  function AddTable(sp: Space, p: nat, nd: Node): Space {
    Space(sp.root, sp.mem[p := Zeros()], sp.tree[p := nd])
  }

  lemma AddWF(sp: Space, p: nat, nd: Node)
    requires WF(sp) && p !in sp.tree && p < FRAMES && nd.level <= 3
    ensures WF(AddTable(sp, p, nd))
  {
    ZeroInvalid();
    hide IsValid, IsTable, NextTable;
    var w := AddTable(sp, p, nd);
    forall t | t in w.tree ensures TableOk(w, t) {
      if t != p {
        assert TableOk(sp, t);
        forall i | 0 <= i < ENTRIES ensures EntryOk(w.tree, w.tree[t], i, w.mem[t][i]) {
          assert EntryOk(sp.tree, sp.tree[t], i, sp.mem[t][i]);
        }
      }
    }
  }

  lemma {:induction false} AddLookup(sp: Space, p: nat, nd: Node, s: nat, k: nat, a: nat)
    requires WF(sp) && p !in sp.tree && IsTableFor(sp, s, k, a) && k <= 3
    ensures LookupFrom(AddTable(sp, p, nd).mem, s, k, a) == LookupFrom(sp.mem, s, k, a)
    decreases 4 - k
  {
    hide IsValid, IsTable, NextTable, Index, Pre;
    assert TableOk(sp, s);
    var e := sp.mem[s][Index(k, a)];
    assert AddTable(sp, p, nd).mem[s] == sp.mem[s];
    if IsValid(e) && !(k == 3 || (k > 0 && !IsTable(e))) {
      assert EntryOk(sp.tree, sp.tree[s], Index(k, a), e);
      ChildFor(sp, s, k, a);
      AddLookup(sp, p, nd, NextTable(e), k + 1, a);
    }
  }

  lemma {:induction false} AddTableFrom(sp: Space, p: nat, nd: Node, s: nat, k: nat, l: nat, a: nat)
    requires WF(sp) && p !in sp.tree && IsTableFor(sp, s, k, a) && k <= l <= 3
    ensures TableFrom(AddTable(sp, p, nd).mem, s, k, l, a) == TableFrom(sp.mem, s, k, l, a)
    decreases 4 - k
  {
    hide IsValid, IsTable, NextTable, Index, Pre;
    if k < l {
      assert TableOk(sp, s);
      var e := sp.mem[s][Index(k, a)];
      assert AddTable(sp, p, nd).mem[s] == sp.mem[s];
      if IsValid(e) && IsTable(e) {
        ChildFor(sp, s, k, a);
        AddTableFrom(sp, p, nd, NextTable(e), k + 1, l, a);
      }
    }
  }

  /** get_next_ptp with alloc on an invalid entry: a fresh zeroed table p, linked below table t. */
  function Insert(sp: Space, l: nat, va: nat, t: nat, p: nat): Space
    requires t in sp.mem && |sp.mem[t]| == ENTRIES && p != t
  {
    Write(AddTable(sp, p, Node(l + 1, Pre(l + 1, va))), t, Index(l, va), TableDesc(p))
  }

  ghost predicate CanInsert(sp: Space, l: nat, va: nat, t: nat, p: nat) {
    && WF(sp) && l < 3 && va < VA_LIMIT && TableAt(sp, l, va) == Some(t) && p !in sp.tree && p < FRAMES
    && t in sp.tree && t in sp.mem && |sp.mem[t]| == ENTRIES && !IsValid(sp.mem[t][Index(l, va)])
  }

  lemma FramesBound()
    ensures Pow2(36) == FRAMES
  {
    assert Pow2(9) == 512;
    Pow2Add(9, 9); Pow2Add(18, 18);
  }

  lemma InsertParts(sp: Space, l: nat, va: nat, t: nat, p: nat)
    requires CanInsert(sp, l, va, t, p)
    ensures var u := AddTable(sp, p, Node(l + 1, Pre(l + 1, va)));
      && WF(u) && TableAt(u, l, va) == Some(t) && t in u.tree && u.mem[t] == sp.mem[t] && |u.mem[p]| == ENTRIES
      && EntryOk(u.tree, u.tree[t], Index(l, va), TableDesc(p))
      && IsValid(TableDesc(p)) && IsTable(TableDesc(p)) && NextTable(TableDesc(p)) == p
  {
    hide *;
    InsertFacts(sp, l, va, t, p);
    TableDescReads(p);
    DescriptorsFit(p, 1, 0, 0);
    var nd := Node(l + 1, Pre(l + 1, va));
    AddWF(sp, p, nd);
    AddTableFrom(sp, p, nd, sp.root, 0, l, va);
    PreNext(l, va);
    LinkOk(AddTable(sp, p, nd).tree, sp.tree[t], Index(l, va), TableDesc(p), p);
    AddedTable(sp, p, nd, l, va, t);
  }

  lemma InsertFacts(sp: Space, l: nat, va: nat, t: nat, p: nat)
    requires CanInsert(sp, l, va, t, p)
    ensures WF(sp) && p !in sp.tree && p < FRAMES == Pow2(36) && p != t && l < 3
    ensures t in sp.tree && t in sp.mem && sp.tree[t] == Node(l, Pre(l, va)) && IsTableFor(sp, sp.root, 0, va)
    ensures TableFrom(sp.mem, sp.root, 0, l, va) == Some(t)
    ensures AddTable(sp, p, Node(l + 1, Pre(l + 1, va))).tree == sp.tree[p := Node(l + 1, Pre(l + 1, va))]
  {
    FramesBound();
    TableAtFor(sp, l, va);
    PreRoot(va);
    hide IsValid, IsTable, NextTable, Index, Pre, Pow2;
  }

  /** A table entry for the child table p. */
  lemma LinkOk(tree: Tree, nd: Node, i: nat, e: nat, p: nat)
    requires e < U64 && IsTable(e) && NextTable(e) == p
    requires p in tree && tree[p] == Node(nd.level + 1, nd.pfx * ENTRIES + i)
    ensures EntryOk(tree, nd, i, e)
  {
    hide IsValid, IsTable, NextTable;
  }

  lemma AddedTable(sp: Space, p: nat, nd: Node, l: nat, va: nat, t: nat)
    requires p != t && t in sp.tree && TableFrom(AddTable(sp, p, nd).mem, sp.root, 0, l, va) == Some(t) && t in sp.mem
    ensures var u := AddTable(sp, p, nd);
      TableAt(u, l, va) == Some(t) && t in u.tree && u.tree[t] == sp.tree[t] && u.mem[t] == sp.mem[t]
      && |u.mem[p]| == ENTRIES
  {
    hide TableFrom;
  }

  lemma InsertWF(sp: Space, l: nat, va: nat, t: nat, p: nat)
    requires CanInsert(sp, l, va, t, p)
    ensures WF(Insert(sp, l, va, t, p))
  {
    InsertParts(sp, l, va, t, p);
    hide IsValid, IsTable, NextTable, Index, Pre, TableDesc, EntryOk;
    WriteWF(AddTable(sp, p, Node(l + 1, Pre(l + 1, va))), t, Index(l, va), TableDesc(p));
  }

  /** Inserting an empty table changes no translation. */
  lemma InsertFind(sp: Space, l: nat, va: nat, t: nat, p: nat, a: nat)
    requires CanInsert(sp, l, va, t, p) && a < VA_LIMIT
    ensures Find(Insert(sp, l, va, t, p), a) == Find(sp, a)
  {
    InsertParts(sp, l, va, t, p);
    PreRoot(a);
    PreIndex(l, a);
    PreIndex(l, va);
    ZeroInvalid();
    hide IsValid, IsTable, NextTable, Index, Pre, TableDesc, EntryOk, Span;
    var nd := Node(l + 1, Pre(l + 1, va));
    AddLookup(sp, p, nd, sp.root, 0, a);
    WriteFind(AddTable(sp, p, nd), l, va, t, TableDesc(p), a);
    if a / Span(l) == va / Span(l) {
      SameTable(sp.mem, sp.root, 0, l, a, va);
      LookupThrough(sp, sp.root, 0, l, a);
      assert Insert(sp, l, va, t, p).mem[p] == Zeros();
    }
  }

  /** It adds exactly one table to the paths. */
  lemma InsertTables(sp: Space, l: nat, va: nat, t: nat, p: nat, m: nat, a: nat)
    requires CanInsert(sp, l, va, t, p) && a < VA_LIMIT && m <= 3
    ensures TableAt(Insert(sp, l, va, t, p), m, a)
         == if m == l + 1 && a / Span(l) == va / Span(l) then Some(p) else TableAt(sp, m, a)
  {
    InsertParts(sp, l, va, t, p);
    PreRoot(a);
    PreIndex(l, a);
    PreIndex(l, va);
    ZeroInvalid();
    hide IsValid, IsTable, NextTable, Index, Pre, TableDesc, EntryOk, Span;
    var nd := Node(l + 1, Pre(l + 1, va));
    AddTableFrom(sp, p, nd, sp.root, 0, m, a);
    WriteTables(AddTable(sp, p, nd), l, va, t, TableDesc(p), m, a);
    if l < m && a / Span(l) == va / Span(l) {
      SameTable(sp.mem, sp.root, 0, l, a, va);
      TableThrough(sp, sp.root, 0, l, m, a);
      assert Insert(sp, l, va, t, p).mem[p] == Zeros();
    }
  }
}
