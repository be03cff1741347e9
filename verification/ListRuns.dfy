/**
 Runs of list operations over any number of rings. A world lists every ring by its nodes; a node that is
 in no list is a ring of its own, and an entry whose nodes have all moved elsewhere is empty.
 */
module ListRuns {
  import opened Bytes
  import opened List

  datatype Op =
    | InsertAfter(i: nat, k: nat, j: nat)
    | InsertBefore(i: nat, k: nat, j: nat)
    | PushBack(i: nat, j: nat)
    | PushFront(i: nat, j: nat)
    | InsertNodesAfter(i: nat, k: nat, j: nat, m: nat)
    | InsertNodesBefore(i: nat, k: nat, j: nat, m: nat)
    | MergeLast(i: nat, j: nat)
    | MergeFirst(i: nat, j: nat)
    | Erase(i: nat, k: nat)

  function Rotated<T>(r: seq<T>, m: nat): seq<T>
    requires m < |r|
  {
    r[m..] + r[..m]
  }

  /** The nodes the call names exist; single nodes are inserted only while they are in no list. */
  predicate Enabled<T>(w: seq<seq<T>>, op: Op) {
    && op.i < |w| && w[op.i] != []
    && (!op.Erase? ==> op.j < |w| && op.j != op.i && w[op.j] != [])
    && (op.InsertAfter? || op.InsertBefore? || op.PushBack? || op.PushFront? ==> |w[op.j]| == 1)
    && (op.InsertAfter? || op.InsertBefore? || op.InsertNodesAfter? || op.InsertNodesBefore? || op.Erase? ==> op.k < |w[op.i]|)
    && (op.InsertNodesAfter? || op.InsertNodesBefore? ==> op.m < |w[op.j]|)
  }

  /** Where in ring i the nodes go. */
  function At<T>(w: seq<seq<T>>, op: Op): (at: nat)
    requires Enabled(w, op) && !op.Erase?
    ensures at <= |w[op.i]|
  {
    match op
    case InsertAfter(i, k, _) => k + 1
    case InsertBefore(i, k, _) => Before(w[i], k)
    case PushBack(i, _) => |w[i]|
    case PushFront(i, _) => 1
    case InsertNodesAfter(i, k, _, _) => k + 1
    case InsertNodesBefore(i, k, _, _) => Before(w[i], k)
    case MergeLast(i, _) => |w[i]|
    case MergeFirst(i, _) => 1
  }

  /** The nodes that go there: a merge leaves the head of j behind. */
  function Cargo<T>(w: seq<seq<T>>, op: Op): seq<T>
    requires Enabled(w, op) && !op.Erase?
  {
    if op.InsertNodesAfter? || op.InsertNodesBefore? then Rotated(w[op.j], op.m)
    else if op.MergeLast? || op.MergeFirst? then w[op.j][1..]
    else w[op.j]
  }

  /** The ring at i after the operation. */
  function Target<T>(w: seq<seq<T>>, op: Op): seq<T>
    requires Enabled(w, op)
  {
    if !op.Erase? then Spliced(w[op.i], At(w, op), Cargo(w, op))
    else if |w[op.i]| == 1 then w[op.i]
    else Removed(w[op.i], op.k)
  }

  /** What is left at j. */
  function Remainder<T>(w: seq<seq<T>>, op: Op): seq<T>
    requires Enabled(w, op) && !op.Erase?
  {
    if op.MergeLast? || op.MergeFirst? then [w[op.j][0]] else []
  }

  function Step<T>(w: seq<seq<T>>, op: Op): seq<seq<T>>
    requires Enabled(w, op)
  {
    if !op.Erase? then w[op.i := Target(w, op)][op.j := Remainder(w, op)]
    else if |w[op.i]| == 1 then w
    else w[op.i := Target(w, op)] + [[w[op.i][op.k]]]
  }

  /** The ring after inserting `s` behind the first n nodes. */
  lemma SplicedIs<T>(r: seq<T>, n: nat, s: seq<T>)
    requires n <= |r|
    ensures Spliced(r, n, s) == r[..n] + s + r[n..]
    ensures n == |r| ==> Spliced(r, n, s) == r + s
  {
  }

  /** Every operation on the two sequences it names, written out. */
  lemma StepIs<T>(w: seq<seq<T>>, op: Op)
    requires Enabled(w, op)
    ensures var r := w[op.i];
            match op
            case InsertAfter(i, k, j) => Step(w, op) == w[i := r[..k + 1] + w[j] + r[k + 1..]][j := []]
            case InsertBefore(i, k, j) =>
              Step(w, op) == w[i := if k == 0 then r + w[j] else r[..k] + w[j] + r[k..]][j := []]
            case PushBack(i, j) => Step(w, op) == w[i := r + w[j]][j := []]
            case PushFront(i, j) => Step(w, op) == w[i := [r[0]] + w[j] + r[1..]][j := []]
            case InsertNodesAfter(i, k, j, m) =>
              Step(w, op) == w[i := r[..k + 1] + (w[j][m..] + w[j][..m]) + r[k + 1..]][j := []]
            case InsertNodesBefore(i, k, j, m) =>
              Step(w, op) == w[i := if k == 0 then r + (w[j][m..] + w[j][..m])
                                    else r[..k] + (w[j][m..] + w[j][..m]) + r[k..]][j := []]
            case MergeLast(i, j) => Step(w, op) == w[i := r + w[j][1..]][j := [w[j][0]]]
            case MergeFirst(i, j) => Step(w, op) == w[i := [r[0]] + w[j][1..] + r[1..]][j := [w[j][0]]]
            case Erase(i, k) => Step(w, op) == if |r| == 1 then w else w[i := r[..k] + r[k + 1..]] + [[r[k]]]
  {
    hide Spliced;
    if !op.Erase? {
      SplicedIs(w[op.i], At(w, op), Cargo(w, op));
      assert w[op.i][..1] == [w[op.i][0]];
    }
  }

  ghost predicate EnabledRun<T>(w: seq<seq<T>>, ops: seq<Op>)
    decreases |ops|
  {
    ops == [] || (Enabled(w, ops[0]) && EnabledRun(Step(w, ops[0]), ops[1..]))
  }

  function Run<T>(w: seq<seq<T>>, ops: seq<Op>): seq<seq<T>>
    requires EnabledRun(w, ops)
    decreases |ops|
  {
    if ops == [] then w else Run(Step(w, ops[0]), ops[1..])
  }

  // ---------------------------------------------------------------------------------------------
  // No node is lost or duplicated
  // ---------------------------------------------------------------------------------------------

  lemma SumBoth<T>(p: multiset<T>, x: multiset<T>, y: multiset<T>, a: multiset<T>, b: multiset<T>)
    requires x + a == y + b
    ensures p + x + a == p + y + b
  {
    assert p + x + a == p + (x + a);
    assert p + y + b == p + (y + b);
  }

  lemma Cancel<T>(x: multiset<T>, y: multiset<T>, a: multiset<T>)
    requires x + a == y + a
    ensures x == y
  {
    assert x == (x + a) - a;
    assert y == (y + a) - a;
  }

  lemma ConcatHead<T>(w: seq<seq<T>>)
    requires w != []
    ensures multiset(Concat(w)) == multiset(w[0]) + multiset(Concat(w[1..]))
  {
    assert Concat(w) == w[0] + Concat(w[1..]);
  }

  lemma {:induction false} ConcatUpdate<T>(w: seq<seq<T>>, i: nat, a: seq<T>)
    requires i < |w|
    ensures multiset(Concat(w[i := a])) + multiset(w[i]) == multiset(Concat(w)) + multiset(a)
    decreases |w|
  {
    hide Concat;
    var w' := w[i := a];
    ConcatHead(w);
    ConcatHead(w');
    var rest := multiset(Concat(w[1..]));
    if i == 0 {
      assert w'[1..] == w[1..];
      assert multiset(a) + rest + multiset(w[0]) == multiset(w[0]) + rest + multiset(a);
    } else {
      assert w'[1..] == w[1..][i - 1 := a];
      ConcatUpdate(w[1..], i - 1, a);
      SumBoth(multiset(w[0]), multiset(Concat(w'[1..])), rest, multiset(w[i]), multiset(a));
    }
  }

  lemma SplitAt<T>(r: seq<T>, k: nat)
    requires k <= |r|
    ensures multiset(r) == multiset(r[..k]) + multiset(r[k..])
  {
    assert r == r[..k] + r[k..];
  }

  lemma SplicedConserves<T>(r: seq<T>, at: nat, s: seq<T>)
    requires at <= |r|
    ensures multiset(Spliced(r, at, s)) == multiset(r) + multiset(s)
  {
    SplitAt(r, at);
  }

  lemma RemovedConserves<T>(r: seq<T>, k: nat)
    requires k < |r|
    ensures multiset(Removed(r, k)) + multiset([r[k]]) == multiset(r)
  {
    assert r == r[..k] + [r[k]] + r[k + 1..];
  }

  lemma CargoConserves<T>(w: seq<seq<T>>, op: Op)
    requires Enabled(w, op) && !op.Erase?
    ensures multiset(Cargo(w, op)) + multiset(Remainder(w, op)) == multiset(w[op.j])
  {
    hide Rotated;
    RestConserves(w[op.j]);
    if op.InsertNodesAfter? || op.InsertNodesBefore? { RotatedConserves(w[op.j], op.m); }
  }

  lemma RotatedConserves<T>(r: seq<T>, m: nat)
    requires m < |r|
    ensures multiset(Rotated(r, m)) == multiset(r)
  {
    SplitAt(r, m);
  }

  lemma RestConserves<T>(r: seq<T>)
    requires r != []
    ensures multiset(r[1..]) + multiset([r[0]]) == multiset(r)
    ensures multiset(r) + multiset([]) == multiset(r)
  {
    SplitAt(r, 1);
    assert r[..1] == [r[0]];
  }

  lemma TargetConserves<T>(w: seq<seq<T>>, op: Op)
    requires Enabled(w, op) && !op.Erase?
    ensures multiset(Target(w, op)) + multiset(Remainder(w, op)) == multiset(w[op.i]) + multiset(w[op.j])
  {
    hide At, Cargo, Remainder, Spliced;
    var r, cargo := w[op.i], Cargo(w, op);
    SplicedConserves(r, At(w, op), cargo);
    CargoConserves(w, op);
    assert multiset(r) + multiset(cargo) + multiset(Remainder(w, op)) == multiset(r) + (multiset(cargo) + multiset(Remainder(w, op)));
  }

  lemma StepConserves<T>(w: seq<seq<T>>, op: Op)
    requires Enabled(w, op)
    ensures multiset(Concat(Step(w, op))) == multiset(Concat(w))
  {
    hide Concat, Target, Remainder;
    if !op.Erase? {
      UpdateConserves(w, op);
    } else if 1 < |w[op.i]| {
      EraseConserves(w, op);
    }
  }

  lemma UpdateConserves<T>(w: seq<seq<T>>, op: Op)
    requires Enabled(w, op) && !op.Erase?
    ensures multiset(Concat(Step(w, op))) == multiset(Concat(w))
  {
    hide Concat, Target, Remainder;
    var t, rest := Target(w, op), Remainder(w, op);
    var w1 := w[op.i := t];
    var w2 := w1[op.j := rest];
    ConcatUpdate(w, op.i, t);
    ConcatUpdate(w1, op.j, rest);
    TargetConserves(w, op);
    var c, c1, c2 := multiset(Concat(w)), multiset(Concat(w1)), multiset(Concat(w2));
    var r, s := multiset(w[op.i]), multiset(w[op.j]);
    assert c2 + (r + s) == (c2 + s) + r == (c1 + multiset(rest)) + r == (c1 + r) + multiset(rest);
    assert (c + multiset(t)) + multiset(rest) == c + (multiset(t) + multiset(rest));
    Cancel(c2, c, r + s);
  }

  lemma EraseConserves<T>(w: seq<seq<T>>, op: Op)
    requires Enabled(w, op) && op.Erase? && 1 < |w[op.i]|
    ensures multiset(Concat(Step(w, op))) == multiset(Concat(w))
  {
    hide Removed;
    var r, t := w[op.i], Target(w, op);
    var lone := [[r[op.k]]];
    var w1 := w[op.i := t];
    RemovedConserves(r, op.k);
    ConcatUpdate(w, op.i, t);
    ConcatAppend(w1, lone);
    assert Concat(lone) == lone[0] + Concat(lone[1..]) == lone[0];
    var c, c1, l := multiset(Concat(w)), multiset(Concat(w1)), multiset(lone[0]);
    assert (c1 + l) + multiset(t) == c1 + multiset(r);
    Cancel(c1 + l, c, multiset(t));
  }

  /** Over any run every node stays in exactly as many places as it was. */
  lemma {:induction false} RunConserves<T>(w: seq<seq<T>>, ops: seq<Op>)
    requires EnabledRun(w, ops)
    ensures multiset(Concat(Run(w, ops))) == multiset(Concat(w))
    decreases |ops|
  {
    if ops != [] {
      StepConserves(w, ops[0]);
      RunConserves(Step(w, ops[0]), ops[1..]);
    }
  }

  // ---------------------------------------------------------------------------------------------
  // Every ring stays a ring
  // ---------------------------------------------------------------------------------------------

  /** No node stands in two places. */
  ghost predicate Separate<T>(w: seq<seq<T>>) {
    forall x <- multiset(Concat(w)) :: multiset(Concat(w))[x] <= 1
  }

  lemma {:induction false} PartOfWhole<T>(w: seq<seq<T>>, a: nat)
    requires a < |w|
    ensures multiset(w[a]) <= multiset(Concat(w))
    decreases |w|
  {
    hide Concat;
    ConcatHead(w);
    if a > 0 { PartOfWhole(w[1..], a - 1); }
  }

  lemma {:induction false} TwoPartsOfWhole<T>(w: seq<seq<T>>, a: nat, b: nat)
    requires a < b < |w|
    ensures multiset(w[a]) + multiset(w[b]) <= multiset(Concat(w))
    decreases |w|
  {
    hide Concat;
    ConcatHead(w);
    if a > 0 { TwoPartsOfWhole(w[1..], a - 1, b - 1); } else { PartOfWhole(w[1..], b - 1); }
  }

  lemma SeparateDistinct<T>(w: seq<seq<T>>, a: nat)
    requires Separate(w) && a < |w|
    ensures Distinct(w[a])
  {
    PartOfWhole(w, a);
    var s := w[a];
    forall i, j | 0 <= i < j < |s|
      ensures s[i] != s[j]
    {
      assert s == s[..j] + s[j..];
      assert s[i] in s[..j] && s[j] in s[j..];
      assert multiset(s)[s[j]] == multiset(s[..j])[s[j]] + multiset(s[j..])[s[j]];
    }
  }

  lemma SeparateDisjoint<T>(w: seq<seq<T>>, a: nat, b: nat)
    requires Separate(w) && a < |w| && b < |w| && a != b
    ensures Disjoint(w[a], w[b])
  {
    TwoPartsOfWhole(w, if a < b then a else b, if a < b then b else a);
    PartOfWhole(w, a);
    forall i, j | 0 <= i < |w[a]| && 0 <= j < |w[b]|
      ensures w[a][i] != w[b][j]
    {
      var x := w[a][i];
      assert x in multiset(w[a]) && x in multiset(Concat(w));
      assert (multiset(w[a]) + multiset(w[b]))[x] <= 1;
      assert w[b][j] in multiset(w[b]);
    }
  }

  /** The multiset condition says what it should: no repetition in an entry, nothing shared by two. */
  lemma SeparateIff<T>(w: seq<seq<T>>)
    ensures Separate(w) <==>
            && (forall a :: 0 <= a < |w| ==> Distinct(w[a]))
            && (forall a, b :: 0 <= a < |w| && 0 <= b < |w| && a != b ==> Disjoint(w[a], w[b]))
  {
    hide Separate, Distinct, Disjoint;
    if Separate(w) {
      forall a | 0 <= a < |w| ensures Distinct(w[a]) { SeparateDistinct(w, a); }
      forall a, b | 0 <= a < |w| && 0 <= b < |w| && a != b ensures Disjoint(w[a], w[b]) { SeparateDisjoint(w, a, b); }
    }
    if (forall a :: 0 <= a < |w| ==> Distinct(w[a]))
      && (forall a, b :: 0 <= a < |w| && 0 <= b < |w| && a != b ==> Disjoint(w[a], w[b]))
    {
      ApartSeparate(w);
    }
  }

  lemma {:induction false} DistinctOnce<T>(s: seq<T>, x: T)
    requires Distinct(s)
    ensures multiset(s)[x] <= 1
  {
    if s != [] {
      assert s == [s[0]] + s[1..];
      assert forall i :: 0 <= i < |s| - 1 ==> s[1..][i] == s[i + 1];
      DistinctOnce(s[1..], x);
      if multiset(s[1..])[x] > 0 { assert x in s[1..]; }
    }
  }

  lemma {:induction false} ApartOnce<T>(w: seq<seq<T>>, x: T)
    requires forall a :: 0 <= a < |w| ==> Distinct(w[a])
    requires forall a, b :: 0 <= a < |w| && 0 <= b < |w| && a != b ==> Disjoint(w[a], w[b])
    ensures multiset(Concat(w))[x] <= 1
    ensures x in Concat(w) ==> exists a :: 0 <= a < |w| && x in w[a]
    decreases |w|
  {
    if w != [] {
      hide Concat, Distinct;
      ConcatHead(w);
      ApartOnce(w[1..], x);
      DistinctOnce(w[0], x);
    }
  }

  lemma ApartSeparate<T>(w: seq<seq<T>>)
    requires forall a :: 0 <= a < |w| ==> Distinct(w[a])
    requires forall a, b :: 0 <= a < |w| && 0 <= b < |w| && a != b ==> Disjoint(w[a], w[b])
    ensures Separate(w)
  {
    hide Concat, Distinct, Disjoint;
    forall x | x in multiset(Concat(w)) ensures multiset(Concat(w))[x] <= 1 { ApartOnce(w, x); }
  }

  // ---------------------------------------------------------------------------------------------
  // The heap follows
  // ---------------------------------------------------------------------------------------------

  ghost function Nodes(w: seq<seq<Node>>): set<Node> {
    set x | x in Concat(w)
  }

  lemma NodesOf(w: seq<seq<Node>>, a: nat)
    requires a < |w|
    ensures forall x <- w[a] :: x in Nodes(w)
  {
    PartOfWhole(w, a);
    assert forall x <- w[a] :: x in multiset(w[a]);
  }

  /** Each entry is one ring, and no node is in two of them. */
  ghost predicate World(w: seq<seq<Node>>)
    reads Nodes(w)
  {
    && Separate(w)
    && forall a :: 0 <= a < |w| && w[a] != [] ==> (NodesOf(w, a); Ring(w[a]))
  }

  lemma Neighbours(r: seq<Node>)
    requires Ring(r)
    ensures forall k :: 0 <= k < |r| ==> r[k].next in r && r[k].prev in r
  {
    forall k | 0 <= k < |r| ensures r[k].next in r && r[k].prev in r { RingNeighbours(r, k); }
  }

  lemma NotIn(r: seq<Node>, s: seq<Node>)
    requires Disjoint(r, s)
    ensures forall x <- s :: x !in r
  {
  }

  /** The operations that put a single node into a ring. */
  method InsertOne(r: seq<Node>, s: seq<Node>, w: seq<seq<Node>>, op: Op)
    requires Enabled(w, op) && (op.InsertAfter? || op.InsertBefore? || op.PushBack? || op.PushFront?)
    requires r == w[op.i] && s == w[op.j] && Ring(r) && Ring(s) && Disjoint(r, s)
    modifies r, s
    ensures Ring(Target(w, op))
  {
    hide Ring, Disjoint, Spliced, Target;
    NotIn(r, s);
    Neighbours(r);
    TargetOfOne(w, op);
    if op.InsertAfter? {
      List.InsertAfter(r[op.k], s[0], r, op.k);
    } else if op.InsertBefore? {
      List.InsertBefore(r[op.k], s[0], r, op.k);
    } else if op.PushBack? {
      List.PushBack(r[0], s[0], r);
    } else {
      List.PushFront(r[0], s[0], r);
    }
  }

  lemma TargetOfOne(w: seq<seq<Node>>, op: Op)
    requires Enabled(w, op) && (op.InsertAfter? || op.InsertBefore? || op.PushBack? || op.PushFront?)
    ensures var r, n := w[op.i], w[op.j][0];
            && (op.InsertAfter? ==> Target(w, op) == Spliced(r, op.k + 1, [n]))
            && (op.InsertBefore? ==> Target(w, op) == Spliced(r, Before(r, op.k), [n]))
            && (op.PushBack? ==> Target(w, op) == r + [n])
            && (op.PushFront? ==> Target(w, op) == [r[0]] + [n] + r[1..])
  {
    assert w[op.j] == [w[op.j][0]];
  }

  /** The operations that splice a whole ring in. */
  method InsertMany(r: seq<Node>, s: seq<Node>, w: seq<seq<Node>>, op: Op)
    requires Enabled(w, op) && (op.InsertNodesAfter? || op.InsertNodesBefore?)
    requires r == w[op.i] && s == w[op.j] && Ring(r) && Ring(s) && Disjoint(r, s)
    modifies r, s
    ensures Ring(Target(w, op))
  {
    hide Ring, Disjoint, Spliced, Rotated;
    Neighbours(r);
    Neighbours(s);
    RotatedRing(r, s, op.m);
    if op.InsertNodesAfter? {
      List.InsertNodesAfter(r[op.k], s[op.m], r, op.k, Rotated(s, op.m));
    } else {
      List.InsertNodesBefore(r[op.k], s[op.m], r, op.k, Rotated(s, op.m));
    }
  }

  method Merge(r: seq<Node>, s: seq<Node>, w: seq<seq<Node>>, op: Op)
    requires Enabled(w, op) && (op.MergeLast? || op.MergeFirst?)
    requires r == w[op.i] && s == w[op.j] && Ring(r) && Ring(s) && Disjoint(r, s)
    modifies r, s
    ensures Ring(Target(w, op)) && Ring(Remainder(w, op))
  {
    hide Ring, Disjoint, Spliced;
    Neighbours(r);
    Neighbours(s);
    MergeSplice(r, s);
    if op.MergeLast? {
      List.MergeLast(r[0], s[0], r, s);
    } else {
      List.MergeFirst(r[0], s[0], r, s);
    }
  }

  lemma RotatedRing(r: seq<Node>, s: seq<Node>, m: nat)
    requires Ring(s) && m < |s| && Disjoint(r, s)
    ensures Ring(Rotated(s, m)) && Rotated(s, m)[0] == s[m] && Disjoint(r, Rotated(s, m))
  {
    Rotate(s, m);
  }

  lemma MergeSplice(r: seq<Node>, s: seq<Node>)
    requires r != [] && s != []
    ensures r + s[1..] == Spliced(r, |r|, s[1..])
    ensures [r[0]] + s[1..] + r[1..] == Spliced(r, 1, s[1..])
  {
  }

  /** The list call on the nodes that `op` names: it writes only to the rings it names. */
  method Call(w: seq<seq<Node>>, op: Op)
    requires World(w) && Enabled(w, op)
    modifies w[op.i], if op.Erase? then [] else w[op.j]
    ensures Ring(Target(w, op))
    ensures if op.Erase? then Ring([w[op.i][op.k]]) else Remainder(w, op) != [] ==> Ring(Remainder(w, op))
  {
    hide Ring, Separate, Disjoint, Target, Remainder;
    assert Ring(w[op.i]);
    if op.Erase? {
      Neighbours(w[op.i]);
      List.Erase(w[op.i][op.k], w[op.i], op.k);
      TargetOfErase(w, op);
    } else {
      assert Ring(w[op.j]);
      SeparateDisjoint(w, op.i, op.j);
      if op.MergeLast? || op.MergeFirst? {
        Merge(w[op.i], w[op.j], w, op);
      } else {
        NoRemainder(w, op);
        if op.InsertNodesAfter? || op.InsertNodesBefore? {
          InsertMany(w[op.i], w[op.j], w, op);
        } else {
          InsertOne(w[op.i], w[op.j], w, op);
        }
      }
    }
  }

  lemma NoRemainder(w: seq<seq<Node>>, op: Op)
    requires Enabled(w, op) && !op.Erase? && !op.MergeLast? && !op.MergeFirst?
    ensures Remainder(w, op) == []
  {
  }

  lemma TargetOfErase(w: seq<seq<Node>>, op: Op)
    requires Enabled(w, op) && op.Erase?
    ensures Target(w, op) == if |w[op.i]| == 1 then [w[op.i][op.k]] else Removed(w[op.i], op.k)
    ensures |w[op.i]| == 1 ==> Target(w, op) == w[op.i]
  {
  }

  twostate lemma Untouched(r: seq<Node>)
    requires old(Ring(r))
    requires forall i :: 0 <= i < |r| ==> r[i].next == old(r[i].next) && r[i].prev == old(r[i].prev)
    ensures Ring(r)
  {
  }

  lemma Assemble(w: seq<seq<Node>>, op: Op)
    requires Separate(w) && Enabled(w, op)
    requires forall a :: 0 <= a < |w| && a != op.i && (op.Erase? || a != op.j) && w[a] != [] ==> Ring(w[a])
    requires Ring(Target(w, op))
    requires if op.Erase? then Ring([w[op.i][op.k]]) else Remainder(w, op) != [] ==> Ring(Remainder(w, op))
    ensures World(Step(w, op)) && Nodes(Step(w, op)) == Nodes(w)
  {
    hide Concat, Target, Remainder, Separate, Ring;
    var w' := Step(w, op);
    StepConserves(w, op);
    SameNodes(w, w');
    if op.Erase? { TargetOfErase(w, op); }
    forall a | 0 <= a < |w'| && w'[a] != []
      ensures Ring(w'[a])
    {
      NodesOf(w', a);
    }
  }

  /** One operation turns rings into rings and follows the sequence operation. */
  method Perform(w: seq<seq<Node>>, op: Op)
    requires World(w) && Enabled(w, op)
    modifies Nodes(w)
    ensures World(Step(w, op)) && Nodes(Step(w, op)) == Nodes(w)
  {
    hide Concat, Target, Remainder, Distinct, Disjoint, Separate, Ring;
    NodesOf(w, op.i);
    if !op.Erase? { NodesOf(w, op.j); }
    SeparateIff(w);
    label before:
    Call(w, op);
    forall a | 0 <= a < |w| && a != op.i && (op.Erase? || a != op.j) && w[a] != []
      ensures Ring(w[a])
    {
      Apart(w[a], w[op.i]);
      if !op.Erase? { Apart(w[a], w[op.j]); }
      Untouched@before(w[a]);
    }
    Assemble(w, op);
  }

  lemma Apart(a: seq<Node>, b: seq<Node>)
    requires Disjoint(a, b)
    ensures forall i :: 0 <= i < |a| ==> a[i] !in b
  {
  }

  lemma SameNodes(w: seq<seq<Node>>, w': seq<seq<Node>>)
    requires multiset(Concat(w')) == multiset(Concat(w))
    ensures Nodes(w') == Nodes(w) && (Separate(w) ==> Separate(w'))
  {
    assert forall x :: x in Concat(w) <==> x in multiset(Concat(w));
    assert forall x :: x in Concat(w') <==> x in multiset(Concat(w'));
  }

  /** Any run of operations, on any number of lists. */
  method PerformAll(w: seq<seq<Node>>, ops: seq<Op>)
    requires World(w) && EnabledRun(w, ops)
    modifies Nodes(w)
    ensures World(Run(w, ops)) && Nodes(Run(w, ops)) == Nodes(w)
  {
    hide World, Enabled, Nodes, Step;
    var now, i := w, 0;
    while i < |ops|
      invariant 0 <= i <= |ops|
      invariant World(now) && Nodes(now) == Nodes(w)
      invariant EnabledRun(now, ops[i..]) && Run(now, ops[i..]) == Run(w, ops)
    {
      ghost var rest := ops[i..];
      assert rest[0] == ops[i] && rest[1..] == ops[i + 1..];
      Perform(now, ops[i]);
      now := Step(now, ops[i]);
      i := i + 1;
    }
  }
}
