/** The circular doubly linked lists behind the buddy free lists.

    A `list_head` is named by a number: nodes 0 .. nodes-1 are the ones embedded
    in the page metadata, and nodes + k is the head of free list k.  With this
    naming `list_entry` (container_of) is the identity on nodes. */
module Rings {

  const LISTS: nat := 14

  predicate Distinct(s: seq<nat>) {
    forall i, j :: 0 <= i < j < |s| ==> s[i] != s[j]
  }

  /** One step of the ring: x is followed by y, and y is preceded by x. */
  predicate Linked(nx: seq<nat>, pv: seq<nat>, x: nat, y: nat) {
    x < |nx| && y < |pv| && nx[x] == y && pv[y] == x
  }

  /** The pointers of r form one closed ring, in the order of r. */
  predicate IsRing(nx: seq<nat>, pv: seq<nat>, r: seq<nat>) {
    && |r| > 0 && |nx| == |pv|
    && (forall i :: 0 <= i < |r| ==> r[i] < |nx|)
    && Distinct(r)
    && (forall i :: 0 <= i < |r| - 1 ==> Linked(nx, pv, r[i], r[i + 1]))
    && Linked(nx, pv, r[|r| - 1], r[0])
  }

  function RemoveAt(s: seq<nat>, i: nat): (r: seq<nat>)
    requires i < |s|
  {
    s[..i] + s[i + 1..]
  }

  function IndexOf(s: seq<nat>, x: nat): (i: nat)
    requires x in s
    ensures i < |s| && s[i] == x
  {
    if s[0] == x then 0 else 1 + IndexOf(s[1..], x)
  }

  function Remove(s: seq<nat>, x: nat): (r: seq<nat>)
    requires x in s
  {
    RemoveAt(s, IndexOf(s, x))
  }

  /** Removing the only occurrence of x leaves exactly the other elements. */
  lemma RemoveMembers(s: seq<nat>, x: nat)
    requires x in s && Distinct(s)
    ensures Distinct(Remove(s, x)) && |Remove(s, x)| == |s| - 1
    ensures forall y :: y in Remove(s, x) <==> y in s && y != x
  {
    var i := IndexOf(s, x);
    var t := Remove(s, x);
    forall j | 0 <= j < |t| ensures t[j] == (if j < i then s[j] else s[j + 1]) {}
    forall y | y in s && y != x ensures y in t {
      var j :| 0 <= j < |s| && s[j] == y;
      assert t[if j < i then j else j - 1] == y;
    }
  }

  // ---------- pointer updates ----------

  /** `list_add(x, h)` where h is the first node of ring r. */
  lemma RingInsert(nx: seq<nat>, pv: seq<nat>, r: seq<nat>, x: nat, nx': seq<nat>, pv': seq<nat>)
    requires IsRing(nx, pv, r) && x < |nx| && x !in r
    requires r[0] < |nx| && nx[r[0]] < |pv|
    requires nx' == nx[x := nx[r[0]]][r[0] := x]
    requires pv' == pv[x := r[0]][nx[r[0]] := x]
    ensures IsRing(nx', pv', [r[0], x] + r[1..])
  {
    var s := [r[0], x] + r[1..];
    forall i | 2 <= i < |s| ensures s[i] == r[i - 1] {}
    if |r| > 1 { assert Linked(nx, pv, r[0], r[1]); }
    forall i | 0 <= i < |s| - 1 ensures Linked(nx', pv', s[i], s[i + 1]) {
      if i >= 2 { assert Linked(nx, pv, r[i - 1], r[i]); }
    }
  }

  /** `list_del(r[i])` for any node that is not the head. */
  lemma RingDelete(nx: seq<nat>, pv: seq<nat>, r: seq<nat>, i: nat, nx': seq<nat>, pv': seq<nat>)
    requires IsRing(nx, pv, r) && 1 <= i < |r|
    requires pv[r[i]] < |nx| && nx[r[i]] < |pv|
    requires nx' == nx[pv[r[i]] := nx[r[i]]]
    requires pv' == pv[nx[r[i]] := pv[r[i]]]
    ensures IsRing(nx', pv', RemoveAt(r, i))
  {
    var s := RemoveAt(r, i);
    RemoveDistinct(r, i);
    assert Linked(nx, pv, r[i - 1], r[i]);
    if i + 1 < |r| { assert Linked(nx, pv, r[i], r[i + 1]); }
    forall j | 0 <= j < |s| - 1 ensures Linked(nx', pv', s[j], s[j + 1]) {
      if j + 1 < i { assert Linked(nx, pv, r[j], r[j + 1]); }
      if j >= i { assert Linked(nx, pv, r[j + 1], r[j + 2]); }
    }
  }

  lemma RemoveDistinct(r: seq<nat>, i: nat)
    requires Distinct(r) && i < |r|
    ensures Distinct(RemoveAt(r, i)) && |RemoveAt(r, i)| == |r| - 1
    ensures forall j :: 0 <= j < |r| - 1 ==> RemoveAt(r, i)[j] == (if j < i then r[j] else r[j + 1])
  {
    var s := RemoveAt(r, i);
    forall j | 0 <= j < |s| ensures s[j] == (if j < i then r[j] else r[j + 1]) {}
  }

  /** A ring none of whose pointers were written is untouched. */
  lemma RingFrame(nx: seq<nat>, pv: seq<nat>, r: seq<nat>, nx': seq<nat>, pv': seq<nat>)
    requires IsRing(nx, pv, r) && |nx'| == |nx| && |pv'| == |pv|
    requires forall y :: y in r ==> nx'[y] == nx[y] && pv'[y] == pv[y]
    ensures IsRing(nx', pv', r)
  {
    forall i | 0 <= i < |r| - 1 ensures Linked(nx', pv', r[i], r[i + 1]) {
      assert Linked(nx, pv, r[i], r[i + 1]);
      assert r[i] in r && r[i + 1] in r;
    }
    assert r[0] in r && r[|r| - 1] in r;
  }

  /** All free lists at once: one ring per order through its own sentinel, and no node on two rings. */
  predicate RingsOk(nodes: nat, nx: seq<nat>, pv: seq<nat>, rings: seq<seq<nat>>) {
    && |nx| == |pv| == nodes + LISTS && |rings| == LISTS
    && (forall k :: 0 <= k < LISTS ==> RingOk(nodes, nx, pv, k, rings[k]))
    && (forall k, l, x :: 0 <= k < LISTS && 0 <= l < LISTS && x in rings[k] && x in rings[l] ==> k == l)
  }

  predicate RingOk(nodes: nat, nx: seq<nat>, pv: seq<nat>, k: nat, ring: seq<nat>) {
    && IsRing(nx, pv, [nodes + k] + ring)
    && (forall x :: x in ring ==> x < nodes)
  }

  /** In a well-formed ring a neighbour of a node is again a node of that ring. */
  lemma Neighbours(nx: seq<nat>, pv: seq<nat>, r: seq<nat>, i: nat)
    requires IsRing(nx, pv, r) && i < |r|
    ensures nx[r[i]] == r[if i + 1 < |r| then i + 1 else 0]
    ensures pv[r[i]] == r[if i > 0 then i - 1 else |r| - 1]
  {
    if i + 1 < |r| { assert Linked(nx, pv, r[i], r[i + 1]); }
    if i > 0 { assert Linked(nx, pv, r[i - 1], r[i]); }
  }

  /** Writing only pointers of ring k's nodes, or of a node on no ring, keeps every other ring. */
  lemma OtherRing(nodes: nat, nx: seq<nat>, pv: seq<nat>, rings: seq<seq<nat>>, k: nat, l: nat,
                  written: set<nat>, nx': seq<nat>, pv': seq<nat>)
    requires RingsOk(nodes, nx, pv, rings) && k < LISTS && l < LISTS && l != k
    requires |nx'| == |nx| && |pv'| == |pv|
    requires forall y :: 0 <= y < |nx| && y !in written ==> nx'[y] == nx[y] && pv'[y] == pv[y]
    requires forall y :: y in written ==> y == nodes + k || (y < nodes && y !in rings[l])
    ensures RingOk(nodes, nx', pv', l, rings[l])
  {
    assert RingOk(nodes, nx, pv, l, rings[l]);
    var s := [nodes + l] + rings[l];
    forall y | y in s ensures nx'[y] == nx[y] && pv'[y] == pv[y] {
      assert y == nodes + l || y in rings[l];
    }
    RingFrame(nx, pv, s, nx', pv');
  }

  lemma AddToList(nodes: nat, nx: seq<nat>, pv: seq<nat>, rings: seq<seq<nat>>, x: nat, k: nat,
                  nx': seq<nat>, pv': seq<nat>)
    requires RingsOk(nodes, nx, pv, rings) && x < nodes && k < LISTS
    requires forall l :: 0 <= l < LISTS ==> x !in rings[l]
    requires nx[nodes + k] < |pv|
    requires nx' == nx[x := nx[nodes + k]][nodes + k := x]
    requires pv' == pv[x := nodes + k][nx[nodes + k] := x]
    ensures RingsOk(nodes, nx', pv', rings[k := [x] + rings[k]])
  {
    hide IsRing, RingOk;
    var rings' := rings[k := [x] + rings[k]];
    AddOwnRing(nodes, nx, pv, rings[k], x, k, nx', pv');
    var first := nx[nodes + k];
    forall l | 0 <= l < LISTS ensures RingOk(nodes, nx', pv', l, rings'[l]) {
      if l != k { OtherRing(nodes, nx, pv, rings, k, l, {x, nodes + k, first}, nx', pv'); }
    }
    forall l, m, y | 0 <= l < LISTS && 0 <= m < LISTS && y in rings'[l] && y in rings'[m] ensures l == m {
      if y != x { assert y in rings[l] && y in rings[m]; }
    }
  }

  lemma AddOwnRing(nodes: nat, nx: seq<nat>, pv: seq<nat>, ring: seq<nat>, x: nat, k: nat,
                   nx': seq<nat>, pv': seq<nat>)
    requires RingOk(nodes, nx, pv, k, ring) && x < nodes && nodes + k < |nx| == |pv| && x !in ring
    requires nx[nodes + k] < |pv|
    requires nx' == nx[x := nx[nodes + k]][nodes + k := x]
    requires pv' == pv[x := nodes + k][nx[nodes + k] := x]
    ensures RingOk(nodes, nx', pv', k, [x] + ring)
    ensures |nx'| == |nx| && |pv'| == |pv|
    ensures nx[nodes + k] == nodes + k || (nx[nodes + k] in ring && nx[nodes + k] < nodes)
  {
    hide IsRing;
    var r := [nodes + k] + ring;
    assert r[0] == nodes + k && r[1..] == ring;
    RingInsert(nx, pv, r, x, nx', pv');
    assert [r[0], x] + r[1..] == [nodes + k] + ([x] + ring);
    Neighbours(nx, pv, r, 0);
    assert nx[r[0]] == if |ring| > 0 then ring[0] else r[0];
    if |ring| > 0 { assert ring[0] in ring; }
  }

  lemma DeleteFromList(nodes: nat, nx: seq<nat>, pv: seq<nat>, rings: seq<seq<nat>>, x: nat, k: nat,
                       nx': seq<nat>, pv': seq<nat>)
    requires RingsOk(nodes, nx, pv, rings) && k < LISTS && x in rings[k] && x < nodes
    requires pv[x] < |nx| && nx[x] < |pv|
    requires nx' == nx[pv[x] := nx[x]]
    requires pv' == pv[nx[x] := pv[x]]
    ensures RingsOk(nodes, nx', pv', rings[k := Remove(rings[k], x)])
  {
    var rings' := rings[k := Remove(rings[k], x)];
    DeleteOwnRing(nodes, nx, pv, rings[k], x, k, nx', pv');
    assert forall l :: 0 <= l < LISTS && l != k ==> rings'[l] == rings[l];
    forall l | 0 <= l < LISTS ensures RingOk(nodes, nx', pv', l, rings'[l]) {
      if l != k { OtherRing(nodes, nx, pv, rings, k, l, {pv[x], nx[x]}, nx', pv'); }
    }
    forall l, m, y | 0 <= l < LISTS && 0 <= m < LISTS && y in rings'[l] && y in rings'[m] ensures l == m {
      assert y in rings[l] && y in rings[m];
    }
  }

  lemma DeleteOwnRing(nodes: nat, nx: seq<nat>, pv: seq<nat>, ring: seq<nat>, x: nat, k: nat,
                      nx': seq<nat>, pv': seq<nat>)
    requires RingOk(nodes, nx, pv, k, ring) && x in ring && x < |nx|
    requires pv[x] < |nx| && nx[x] < |pv|
    requires nx' == nx[pv[x] := nx[x]]
    requires pv' == pv[nx[x] := pv[x]]
    ensures RingOk(nodes, nx', pv', k, Remove(ring, x))
    ensures pv[x] == nodes + k || pv[x] in ring
    ensures nx[x] == nodes + k || nx[x] in ring
    ensures forall y :: y in Remove(ring, x) ==> y in ring
  {
    hide IsRing;
    var i := IndexOf(ring, x);
    var r := [nodes + k] + ring;
    assert r[i + 1] == x;
    RingDelete(nx, pv, r, i + 1, nx', pv');
    RemoveBehind(nodes + k, ring, i);
    Neighbours(nx, pv, r, i + 1);
    assert pv[x] == if i == 0 then nodes + k else ring[i - 1];
    assert nx[x] == if i + 1 == |ring| then nodes + k else ring[i + 1];
    forall y | y in Remove(ring, x) ensures y in ring {
      RemoveKeeps(ring, i, y);
    }
  }

  lemma RemoveBehind(first: nat, s: seq<nat>, i: nat)
    requires i < |s|
    ensures RemoveAt([first] + s, i + 1) == [first] + RemoveAt(s, i)
  {
    assert ([first] + s)[..i + 1] == [first] + s[..i];
    assert ([first] + s)[i + 2..] == s[i + 1..];
  }

  lemma RemoveKeeps(s: seq<nat>, i: nat, y: nat)
    requires i < |s| && y in RemoveAt(s, i)
    ensures y in s
  {
  }

  /** The rings of the free lists, as pointers in memory. */
  class ListRings {
    const nodes: nat
    const next: array<nat>
    const prev: array<nat>
    ghost var rings: seq<seq<nat>>   // rings[k]: the nodes on list k, from the head on

    ghost predicate Valid()
      reads this, next, prev
    {
      next != prev && RingsOk(nodes, next[..], prev[..], rings)
    }

    /** `init_list_head` on every free list head. */
    constructor (n: nat)
      ensures Valid() && fresh(next) && fresh(prev) && nodes == n
      ensures rings == seq(LISTS, i => [])
    {
      nodes := n;
      next := new nat[n + LISTS](i => i);
      prev := new nat[n + LISTS](i => i);
      rings := seq(LISTS, i => []);
      new;
      forall k | 0 <= k < LISTS ensures RingOk(n, next[..], prev[..], k, rings[k]) {
        assert [n + k] + rings[k] == [n + k];
        assert Linked(next[..], prev[..], n + k, n + k);
      }
    }

    /** `list_add(x, head of list k)` */
    method Add(x: nat, k: nat)
      requires Valid() && x < nodes && k < LISTS
      requires forall l :: 0 <= l < LISTS ==> x !in rings[l]
      modifies this, next, prev
      ensures Valid() && rings == old(rings)[k := [x] + old(rings)[k]]
    {
      var head := nodes + k;
      ghost var nx, pv := next[..], prev[..];
      assert RingOk(nodes, nx, pv, k, rings[k]);
      Neighbours(nx, pv, [head] + rings[k], 0);
      next[x] := next[head];
      prev[x] := head;
      prev[next[head]] := x;
      next[head] := x;
      AddToList(nodes, nx, pv, rings, x, k, next[..], prev[..]);
      rings := rings[k := [x] + rings[k]];
    }

    /** `list_del(x)`: the node can be anywhere on its list, and the code does not know which list it is. */
    method Delete(x: nat, ghost k: nat)
      requires Valid() && k < LISTS && x in rings[k]
      modifies this, next, prev
      ensures Valid() && rings == old(rings)[k := Remove(old(rings)[k], x)]
    {
      ghost var nx, pv := next[..], prev[..];
      assert RingOk(nodes, nx, pv, k, rings[k]);
      assert ([nodes + k] + rings[k])[IndexOf(rings[k], x) + 1] == x;
      Neighbours(nx, pv, [nodes + k] + rings[k], IndexOf(rings[k], x) + 1);
      next[prev[x]] := next[x];
      prev[next[x]] := prev[x];
      DeleteFromList(nodes, nx, pv, rings, x, k, next[..], prev[..]);
      rings := rings[k := Remove(rings[k], x)];
    }

    /** `list_entry(head->next)`: the first node of a non-empty list. */
    method First(k: nat) returns (x: nat)
      requires Valid() && k < LISTS && rings[k] != []
      ensures x == rings[k][0] && x < nodes
    {
      x := next[nodes + k];
      assert RingOk(nodes, next[..], prev[..], k, rings[k]);
      Neighbours(next[..], prev[..], [nodes + k] + rings[k], 0);
      assert rings[k][0] in rings[k];
    }
  }
}
