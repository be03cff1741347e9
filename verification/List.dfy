/**
 The circular doubly linked intrusive lists of include/pj/list_i.h. A ring is given by its nodes in the
 order of `next`; a list is a ring whose first node is the head, and its members are the others.
 */
module List {

  class Node {
    var next: Node
    var prev: Node

    /** pj_list_init on a node that is nowhere yet. */
    constructor ()
      ensures Ring([this])
    {
      next, prev := this, this;
    }

    /** pj_list_init */
    method Init()
      modifies this
      ensures next == this && prev == this
    {
      next, prev := this, this;
    }
  }

  ghost predicate Distinct<T>(s: seq<T>) {
    forall i, j :: 0 <= i < j < |s| ==> s[i] != s[j]
  }

  ghost predicate Disjoint<T>(a: seq<T>, b: seq<T>) {
    forall i, j :: 0 <= i < |a| && 0 <= j < |b| ==> a[i] != b[j]
  }

  ghost predicate Linked(a: Node, b: Node)
    reads a, b
  {
    a.next == b && b.prev == a
  }

  /** Neighbours in `s` point at each other; the outer pointers of its ends are free. */
  ghost predicate Chain(s: seq<Node>)
    reads s
  {
    && (forall i {:trigger s[i].next} :: 0 <= i < |s| - 1 ==> s[i].next == s[i + 1])
    && (forall i {:trigger s[i].prev} :: 0 < i < |s| ==> s[i].prev == s[i - 1])
  }

  /** The nodes of `r`, in this order, form one circular doubly linked ring. */
  ghost predicate Ring(r: seq<Node>)
    reads r
  {
    r != [] && Distinct(r) && Chain(r) && Linked(r[|r| - 1], r[0])
  }

  function Last<T>(s: seq<T>): T
    requires s != []
  {
    s[|s| - 1]
  }

  lemma ChainConcat(a: seq<Node>, b: seq<Node>)
    requires Chain(a) && Chain(b)
    requires a != [] && b != [] ==> Linked(Last(a), b[0])
    ensures Chain(a + b)
  {
    var s := a + b;
    forall i {:trigger s[i].next} | 0 <= i < |s| - 1
      ensures s[i].next == s[i + 1]
    {
      if i >= |a| { assert s[i] == b[i - |a|] && s[i + 1] == b[i + 1 - |a|]; }
    }
    forall i {:trigger s[i].prev} | 0 < i < |s|
      ensures s[i].prev == s[i - 1]
    {
      if i > |a| { assert s[i] == b[i - |a|] && s[i - 1] == b[i - 1 - |a|]; }
    }
  }

  /** Nodes in ring order, and the part m..n that is to be tied to the rest. */
  datatype Splicing = Splicing(t: seq<Node>, m: nat, n: nat)

  /** The nodes form one ring but for the two places where the part is tied to the rest. */
  ghost predicate CutRing(c: Splicing)
    reads c.t
  {
    var Splicing(t, m, n) := c;
    && 0 < m <= n <= |t| && Distinct(t)
    && (forall i {:trigger t[i].next} :: 0 <= i < |t| - 1 && i != m - 1 && i != n - 1 ==> t[i].next == t[i + 1])
    && (forall i {:trigger t[i].prev} :: 0 < i < |t| && i != m && i != n ==> t[i].prev == t[i - 1])
    && (n < |t| ==> Linked(Last(t), t[0]))
  }

  lemma CutDistinct<T>(a: seq<T>, b: seq<T>, c: seq<T>)
    requires Distinct(a + c) && Distinct(b) && Disjoint(a + c, b)
    ensures Distinct(a + b + c)
  {
    var t, r := a + b + c, a + c;
    forall i, j | 0 <= i < j < |t|
      ensures t[i] != t[j]
    {
      assert t[i] == if i < |a| then r[i] else if i < |a| + |b| then b[i - |a|] else r[i - |b|];
      assert t[j] == if j < |a| then r[j] else if j < |a| + |b| then b[j - |a|] else r[j - |b|];
    }
  }

  /** A chain `b` put between two parts of a ring, nothing written yet. */
  lemma Cut(a: seq<Node>, b: seq<Node>, c: seq<Node>)
    requires a != [] && Ring(a + c) && b != [] && Chain(b) && Distinct(b) && Disjoint(a + c, b)
    ensures CutRing(Splicing(a + b + c, |a|, |a| + |b|))
  {
    hide Distinct, Disjoint;
    var t, r, m, n := a + b + c, a + c, |a|, |a| + |b|;
    CutDistinct(a, b, c);
    forall i {:trigger t[i].next} | 0 <= i < |t| - 1 && i != m - 1 && i != n - 1
      ensures t[i].next == t[i + 1]
    {
      if i < m {
        assert t[i] == r[i] && t[i + 1] == r[i + 1];
      } else if i < n {
        assert t[i] == b[i - m] && t[i + 1] == b[i + 1 - m];
      } else {
        assert t[i] == r[i - |b|] && t[i + 1] == r[i + 1 - |b|];
      }
    }
    forall i {:trigger t[i].prev} | 0 < i < |t| && i != m && i != n
      ensures t[i].prev == t[i - 1]
    {
      if i < m {
        assert t[i] == r[i] && t[i - 1] == r[i - 1];
      } else if i < n {
        assert t[i] == b[i - m] && t[i - 1] == b[i - 1 - m];
      } else {
        assert t[i] == r[i - |b|] && t[i - 1] == r[i - 1 - |b|];
      }
    }
    if n < |t| { assert Last(t) == Last(r) && t[0] == r[0]; }
  }

  /** Where the ring goes on behind the first `n`. */
  function Behind<T>(t: seq<T>, n: nat): T
    requires t != []
  {
    if n < |t| then t[n] else t[0]
  }

  /** The two places are tied, and nothing else is written on these nodes. */
  twostate predicate Tied(c: Splicing)
    requires 0 < c.m <= c.n <= |c.t|
    reads c.t
  {
    var Splicing(t, m, n) := c;
    && t[m - 1].next == Behind(t, m) && Behind(t, m).prev == t[m - 1]
    && t[n - 1].next == Behind(t, n) && Behind(t, n).prev == t[n - 1]
    && (forall x <- t :: x == t[m - 1] || x == t[n - 1] || x.next == old(x.next))
    && (forall x <- t :: x == Behind(t, m) || x == Behind(t, n) || x.prev == old(x.prev))
  }

  /** Then they are one ring. */
  twostate lemma TiedRing(c: Splicing)
    requires old(CutRing(c)) && Tied(c)
    ensures Ring(c.t)
  {
  }

  method LinkNode(prev: Node, next: Node)
    modifies prev`next, next`prev
    ensures prev.next == next && next.prev == prev
  {
    prev.next := next;
    next.prev := prev;
  }

  /** Every neighbour of a ring node is in the ring. */
  lemma RingNeighbours(r: seq<Node>, k: nat)
    requires Ring(r) && k < |r|
    ensures r[k].next == (if k + 1 == |r| then r[0] else r[k + 1])
    ensures r[k].prev == (if k == 0 then Last(r) else r[k - 1])
    ensures r[k].next in r && r[k].prev in r
  {
  }

  /** A ring may be entered at any of its nodes. */
  lemma Rotate(r: seq<Node>, k: nat)
    requires Ring(r) && k < |r|
    ensures Ring(r[k..] + r[..k])
  {
    var s := r[k..] + r[..k];
    ChainConcat(r[k..], r[..k]);
    assert s[0] == r[k] && Last(s) == if k == 0 then Last(r) else r[k - 1];
    RingNeighbours(r, k);
    RingNeighbours(r, if k == 0 then |r| - 1 else k - 1);
  }

  // ---------------------------------------------------------------------------------------------
  // Operations
  // ---------------------------------------------------------------------------------------------

  method InsertAfter(pos: Node, node: Node, ghost r: seq<Node>, ghost k: nat)
    requires Ring(r) && k < |r| && r[k] == pos && node !in r
    modifies pos`next, pos.next`prev, node
    ensures Ring(Spliced(r, k + 1, [node]))
  {
    hide Ring, CutRing, Behind, Spliced;
    SingleCut(r, k, node);
    label before:
    node.prev := pos;
    node.next := pos.next;
    pos.next.prev := node;
    pos.next := node;
    TiedRing@before(Splicing(Spliced(r, k + 1, [node]), k + 1, k + 2));
  }

  lemma SingleCut(r: seq<Node>, k: nat, node: Node)
    requires Ring(r) && k < |r| && node !in r
    ensures var t, m := Spliced(r, k + 1, [node]), k + 1;
            && CutRing(Splicing(t, m, m + 1))
            && t[k] == r[k] && t[m] == node && Behind(t, m) == node && Behind(t, m + 1) == r[k].next
            && r[k] in t && node in t && r[k].next in t
    ensures node != r[k] && node != r[k].next
  {
    hide Behind;
    SpliceCut(r, k, [node]);
  }

  /** The chain `b` behind node k of the ring, nothing written yet. */
  lemma SpliceCut(r: seq<Node>, k: nat, b: seq<Node>)
    requires Ring(r) && k < |r| && b != [] && Chain(b) && Distinct(b) && Disjoint(r, b)
    ensures var t, m, n := Spliced(r, k + 1, b), k + 1, k + 1 + |b|;
            && CutRing(Splicing(t, m, n))
            && t[m - 1] == r[k] && Behind(t, m) == b[0] && t[n - 1] == Last(b) && Behind(t, n) == r[k].next
            && r[k] in t && b[0] in t && Last(b) in t && r[k].next in t
    ensures Last(b) != r[k] && b[0] != r[k].next
  {
    assert r[..k + 1] + r[k + 1..] == r;
    Cut(r[..k + 1], b, r[k + 1..]);
  }

  /** `s` inserted in front of position `at`. */
  function Spliced<T>(r: seq<T>, at: nat, s: seq<T>): seq<T>
    requires at <= |r|
  {
    r[..at] + s + r[at..]
  }

  function Removed<T>(r: seq<T>, k: nat): seq<T>
    requires k < |r|
  {
    r[..k] + r[k + 1..]
  }

  /** In front of the head is behind the last member. */
  function Before<T>(r: seq<T>, k: nat): nat
    requires k < |r|
  {
    if k == 0 then |r| else k
  }

  method InsertBefore(pos: Node, node: Node, ghost r: seq<Node>, ghost k: nat)
    requires Ring(r) && k < |r| && r[k] == pos && node !in r
    modifies pos.prev`next, pos`prev, node
    ensures Ring(Spliced(r, Before(r, k), [node]))
  {
    RingNeighbours(r, k);
    RingNeighbours(r, Before(r, k) - 1);
    InsertAfter(pos.prev, node, r, Before(r, k) - 1);
  }

  method PushBack(list: Node, node: Node, ghost r: seq<Node>)
    requires Ring(r) && r[0] == list && node !in r
    modifies list.prev`next, list`prev, node
    ensures Ring(r + [node])
  {
    InsertBefore(list, node, r, 0);
    assert Spliced(r, |r|, [node]) == r + [node];
  }

  method PushFront(list: Node, node: Node, ghost r: seq<Node>)
    requires Ring(r) && r[0] == list && node !in r
    modifies list`next, list.next`prev, node
    ensures Ring([list] + [node] + r[1..])
  {
    InsertAfter(list, node, r, 0);
    assert Spliced(r, 1, [node]) == [list] + [node] + r[1..];
  }

  /** The whole ring of `lst`, `lst` included, goes in behind `pos`. */
  method InsertNodesAfter(pos: Node, lst: Node, ghost r: seq<Node>, ghost k: nat, ghost s: seq<Node>)
    requires Ring(r) && k < |r| && r[k] == pos
    requires Ring(s) && s[0] == lst && Disjoint(r, s)
    modifies pos`next, pos.next`prev, lst`prev, lst.prev`next
    ensures Ring(Spliced(r, k + 1, s))
  {
    RingParts(s);
    hide Ring, CutRing, Behind, Chain, Distinct, Disjoint, Spliced;
    SpliceCut(r, k, s);
    label before:
    var lstLast := lst.prev;
    var posNext := pos.next;
    LinkNode(pos, lst);
    LinkNode(lstLast, posNext);
    TiedRing@before(Splicing(Spliced(r, k + 1, s), k + 1, k + 1 + |s|));
  }

  lemma RingParts(r: seq<Node>)
    requires Ring(r)
    ensures r != [] && Chain(r) && Distinct(r) && r[0].prev == Last(r)
  {
  }

  method InsertNodesBefore(pos: Node, lst: Node, ghost r: seq<Node>, ghost k: nat, ghost s: seq<Node>)
    requires Ring(r) && k < |r| && r[k] == pos
    requires Ring(s) && s[0] == lst && Disjoint(r, s)
    modifies pos.prev`next, pos`prev, lst`prev, lst.prev`next
    ensures Ring(Spliced(r, Before(r, k), s))
  {
    RingNeighbours(r, k);
    RingNeighbours(r, Before(r, k) - 1);
    hide Ring, Disjoint, Spliced, Linked;
    InsertNodesAfter(pos.prev, lst, r, Before(r, k) - 1, s);
  }

  method IsEmpty(list: Node, ghost r: seq<Node>) returns (b: bool)
    requires Ring(r) && r[0] == list
    ensures b <==> r == [list]
  {
    RingNeighbours(r, 0);
    b := list.next == list;
  }

  /** The members of `lst2` go behind the last member of `lst1`; `lst2` is left empty. */
  method MergeLast(lst1: Node, lst2: Node, ghost r: seq<Node>, ghost s: seq<Node>)
    requires Ring(r) && r[0] == lst1 && Ring(s) && s[0] == lst2 && Disjoint(r, s)
    modifies lst1`prev, lst1.prev`next, lst2.next`prev, lst2.prev`next, lst2
    ensures Ring(r + s[1..]) && Ring([lst2])
  {
    RingNeighbours(s, 0);
    var empty := IsEmpty(lst2, s);
    if !empty {
      ghost var m := s[1..];
      LinkNode(lst1.prev, lst2.next);
      LinkNode(lst2.prev, lst1);
      lst2.Init();
      assert Chain(r) && Chain(m);
      ChainConcat(r, m);
      assert Last(r + m) == Last(s);
    } else {
      assert r + s[1..] == r;
    }
  }

  lemma NotEmpty(r: seq<Node>)
    requires Ring(r)
    ensures r != []
  {
  }

  lemma Lone(node: Node)
    requires node.next == node && node.prev == node
    ensures Ring([node])
  {
  }

  /** The members of `s`, not yet tied in behind the head of `r`. */
  lemma MergeFirstCut(r: seq<Node>, s: seq<Node>, t: seq<Node>)
    requires Ring(r) && Ring(s) && Disjoint(r, s) && 1 < |s| && t == [r[0]] + s[1..] + r[1..]
    ensures CutRing(Splicing(t, 1, |s|)) && s[0] !in t
    ensures t[0] == r[0] && Behind(t, 1) == s[0].next && t[|s| - 1] == s[0].prev && Behind(t, |s|) == r[0].next
    ensures s[0].prev != r[0] && s[0].next != r[0].next && s[0].next in t && s[0].prev in t && r[0].next in t
  {
    hide CutRing, Behind;
    MembersChain(r, s, s[1..]);
    hide Ring, Chain, Distinct, Disjoint;
    assert t == Spliced(r, 1, s[1..]);
    SpliceCut(r, 0, s[1..]);
  }

  lemma MembersChain(r: seq<Node>, s: seq<Node>, b: seq<Node>)
    requires Ring(r) && Ring(s) && Disjoint(r, s) && 1 < |s| && b == s[1..]
    ensures r != [] && Chain(b) && Distinct(b) && Disjoint(r, b)
    ensures s[0] !in b && s[0] !in r && s[0].next == b[0] && s[0].prev == Last(b)
  {
  }

  /** The members of `lst2` go in front of the first member of `lst1`; `lst2` is left empty. */
  method MergeFirst(lst1: Node, lst2: Node, ghost r: seq<Node>, ghost s: seq<Node>)
    requires Ring(r) && r[0] == lst1 && Ring(s) && s[0] == lst2 && Disjoint(r, s)
    modifies lst1`next, lst1.next`prev, lst2.next`prev, lst2.prev`next, lst2
    ensures Ring([lst1] + s[1..] + r[1..]) && Ring([lst2])
  {
    hide Ring, CutRing, Disjoint, Behind;
    NotEmpty(r);
    NotEmpty(s);
    var empty := IsEmpty(lst2, s);
    if !empty {
      ghost var t := [lst1] + s[1..] + r[1..];
      MergeFirstCut(r, s, t);
      label before:
      LinkNode(lst2.prev, lst1.next);
      LinkNode(lst1, lst2.next);
      lst2.Init();
      Lone(lst2);
      TiedRing@before(Splicing(t, 1, |s|));
    } else {
      assert [lst1] + s[1..] + r[1..] == r;
    }
  }

  /** The ring without its node k, not yet tied where the node stood. */
  lemma EraseCut(r: seq<Node>, k: nat, t: seq<Node>, j: nat)
    requires Ring(r) && k < |r| && 1 < |r| && t == Removed(r, k) && j == if k == 0 then |r| - 1 else k
    ensures CutRing(Splicing(t, j, j)) && r[k] !in t
    ensures t[j - 1] == r[k].prev && Behind(t, j) == r[k].next && r[k].prev in t && r[k].next in t
  {
  }

  /** The node leaves its ring and is alone afterwards; erasing a lone node changes nothing. */
  method Erase(node: Node, ghost r: seq<Node>, ghost k: nat)
    requires Ring(r) && k < |r| && r[k] == node
    modifies node, node.prev`next, node.next`prev
    ensures Ring([node]) && (1 < |r| ==> Ring(Removed(r, k)))
    ensures |r| == 1 ==> node.next == old(node.next) && node.prev == old(node.prev)
  {
    RingNeighbours(r, k);
    hide Ring, CutRing, Behind, Removed, Linked;
    ghost var j := if k == 0 then |r| - 1 else k;
    if 1 < |r| { EraseCut(r, k, Removed(r, k), j); }
    label before:
    LinkNode(node.prev, node.next);
    node.Init();
    Lone(node);
    if 1 < |r| { TiedRing@before(Splicing(Removed(r, k), j, j)); }
  }

  // ---------------------------------------------------------------------------------------------
  // Traversals
  // ---------------------------------------------------------------------------------------------

  method Size(list: Node, ghost r: seq<Node>) returns (count: nat)
    requires Ring(r) && r[0] == list
    ensures count == |r| - 1
  {
    RingNeighbours(r, 0);
    var node := list.next;
    count := 0;
    while node != list
      invariant count < |r| && node == if count + 1 == |r| then list else r[count + 1]
      decreases |r| - count
    {
      RingNeighbours(r, count + 1);
      count := count + 1;
      node := node.next;
    }
  }

  method FindNode(list: Node, node: Node, ghost r: seq<Node>) returns (p: Node?)
    requires Ring(r) && r[0] == list
    ensures node in r[1..] ==> p == node
    ensures node !in r ==> p == null
    ensures node == list ==> p == list
  {
    RingNeighbours(r, 0);
    var q := list.next;
    ghost var i := 0;
    while q != list && q != node
      invariant i < |r| && q == if i + 1 == |r| then list else r[i + 1]
      invariant node !in r[1..i + 1]
      decreases |r| - i
    {
      RingNeighbours(r, i + 1);
      assert r[1..i + 2] == r[1..i + 1] + [r[i + 1]];
      i := i + 1;
      q := q.next;
    }
    assert i + 1 == |r| ==> r == [list] + r[1..i + 1];
    p := if q == node then q else null;
  }

  /** The first member that `comp`, which may look into the node, maps to zero. */
  method Search(list: Node, comp: Node ~> int, ghost r: seq<Node>) returns (p: Node?)
    requires Ring(r) && r[0] == list && forall x <- r[1..] :: comp.requires(x)
    ensures p == null ==> forall x <- r[1..] :: comp(x) != 0
    ensures p != null ==> exists i :: 0 < i < |r| && r[i] == p && comp(p) == 0 && forall x <- r[1..i] :: comp(x) != 0
  {
    RingNeighbours(r, 0);
    var q := list.next;
    ghost var i := 0;
    while q != list && comp(q) != 0
      invariant i < |r| && q == if i + 1 == |r| then list else r[i + 1]
      invariant forall x <- r[1..i + 1] :: comp(x) != 0
      decreases |r| - i
    {
      RingNeighbours(r, i + 1);
      assert r[1..i + 2] == r[1..i + 1] + [r[i + 1]];
      i := i + 1;
      q := q.next;
    }
    assert i + 1 == |r| ==> r[1..i + 1] == r[1..];
    p := if q == list then null else q;
    assert p != null ==> r[i + 1] == p;
  }
}
