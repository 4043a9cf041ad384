/** The traversal engine, as a reference definition: depth-bounded
    breadth-first search over CSR arrays with a FIFO frontier of
    (node, depth) pairs, and what it computes. */
module Traversal {
  import opened IdMapping

  /** The CSR arrays the search reads, over internal ids 0..n-1. */
  datatype CsrGraph = CsrGraph(n: nat, rowPtr: seq<int>, col: seq<int>)

  predicate WellFormed(g: CsrGraph)
  {
    |g.rowPtr| == g.n + 1 && g.rowPtr[0] == 0 && g.rowPtr[g.n] == |g.col|
    && (forall r :: 0 <= r < g.n ==> g.rowPtr[r] <= g.rowPtr[r + 1])
    && (forall r :: 0 <= r <= g.n ==> 0 <= g.rowPtr[r] <= |g.col|)
    && (forall k :: 0 <= k < |g.col| ==> 0 <= g.col[k] < g.n)
  }

  /** The out-neighbours of u, in column order. */
  function Succ(g: CsrGraph, u: int): (s: seq<int>)
    requires WellFormed(g) && 0 <= u < g.n
    ensures InRange(s, g.n)
  {
    g.col[g.rowPtr[u]..g.rowPtr[u + 1]]
  }

  /** A depth bound below zero allows no step, like a bound of zero. */
  function Clamp(maxDepth: int): nat
  {
    if maxDepth < 0 then 0 else maxDepth
  }

  /** v can be reached from s along at most k edges. */
  ghost predicate ReachIn(g: CsrGraph, s: int, v: int, k: nat)
    requires WellFormed(g)
    decreases k
  {
    if k == 0 then v == s
    else
      ReachIn(g, s, v, k - 1)
      || exists w :: 0 <= w < g.n && ReachIn(g, s, w, k - 1) && v in Succ(g, w)
  }

  lemma {:induction false} ReachMono(g: CsrGraph, s: int, v: int, k: nat, k': nat)
    requires WellFormed(g) && k <= k' && ReachIn(g, s, v, k)
    ensures ReachIn(g, s, v, k')
    decreases k' - k
  {
    if k < k' {
      ReachMono(g, s, v, k, k' - 1);
    }
  }

  /** The search state: queue_nodes[0..tail) and queue_depths[0..tail).
      Every node ever enqueued stays in the arrays, so `order` is also the
      discovery order (the result) and the set of visited nodes. */
  datatype Frontier = Frontier(order: seq<int>, depths: seq<int>)

  /** The start node enqueued at depth 0. */
  function Start(s: int): Frontier
  {
    Frontier([s], [0])
  }

  ghost predicate Partial(g: CsrGraph, f: Frontier)
  {
    |f.order| == |f.depths| && Distinct(f.order) && InRange(f.order, g.n)
  }

  /** Offers the neighbours succ in turn: each one not yet visited is
      appended at depth d. */
  function Visit(f: Frontier, succ: seq<int>, d: int): (f': Frontier)
    requires |f.order| == |f.depths|
    ensures |f'.order| == |f'.depths| && |f.order| <= |f'.order|
    ensures f'.order[..|f.order|] == f.order && f'.depths[..|f.depths|] == f.depths
    decreases |succ|
  {
    if succ == [] then f
    else
      var prev := Visit(f, succ[..|succ| - 1], d);
      var v := succ[|succ| - 1];
      if v in prev.order then prev else Frontier(prev.order + [v], prev.depths + [d])
  }

  /** Visit enqueues every new node at depth d and never enqueues a node twice. */
  lemma {:induction false} VisitKeeps(f: Frontier, succ: seq<int>, d: int)
    requires |f.order| == |f.depths|
    ensures var f' := Visit(f, succ, d);
            (forall k :: |f.order| <= k < |f'.order| ==> f'.depths[k] == d)
            && (Distinct(f.order) ==> Distinct(f'.order))
    decreases |succ|
  {
    if succ != [] {
      var prev := Visit(f, succ[..|succ| - 1], d);
      VisitKeeps(f, succ[..|succ| - 1], d);
      var v := succ[|succ| - 1];
      if v !in prev.order {
        var o := prev.order + [v];
        if Distinct(f.order) {
          assert Distinct(o) by {
            forall i, j | 0 <= i < j < |o| ensures o[i] != o[j] {
              if j == |prev.order| { assert o[i] == prev.order[i]; }
            }
          }
        }
      }
    }
  }

  /** Visit appends only offered nodes, and afterwards every offered node
      has been visited. */
  lemma {:induction false} VisitContents(f: Frontier, succ: seq<int>, d: int)
    requires |f.order| == |f.depths|
    ensures forall k :: |f.order| <= k < |Visit(f, succ, d).order| ==> Visit(f, succ, d).order[k] in succ
    ensures forall w :: w in succ ==> w in Visit(f, succ, d).order
    decreases |succ|
  {
    if succ != [] {
      var init := succ[..|succ| - 1];
      var v := succ[|succ| - 1];
      assert succ == init + [v];
      VisitContents(f, init, d);
      var prev := Visit(f, init, d);
      var f' := Visit(f, succ, d);
      assert f' == if v in prev.order then prev else Frontier(prev.order + [v], prev.depths + [d]);
      assert prev.order[..|f.order|] == f.order;
      forall k | |f.order| <= k < |f'.order|
        ensures f'.order[k] in succ
      {
        if k < |prev.order| {
          assert f'.order[k] == prev.order[k] && prev.order[k] in init;
        }
      }
      forall w | w in succ
        ensures w in f'.order
      {
        if w in init {
          assert w in prev.order;
          assert prev.order == f'.order[..|prev.order|];
        }
      }
    }
  }

  /** Offering one more neighbour. */
  lemma VisitSnoc(f: Frontier, succ: seq<int>, i: int, d: int)
    requires |f.order| == |f.depths| && 0 <= i < |succ|
    ensures var prev := Visit(f, succ[..i], d);
            Visit(f, succ[..i + 1], d) ==
              if succ[i] in prev.order then prev else Frontier(prev.order + [succ[i]], prev.depths + [d])
  {
    assert succ[..i + 1][..i] == succ[..i];
  }

  /** f' is f with nodes appended at depth d. */
  ghost predicate Extends(f: Frontier, f': Frontier, d: int)
  {
    |f.order| == |f.depths| && |f'.order| == |f'.depths| && |f.order| <= |f'.order|
    && f'.order[..|f.order|] == f.order && f'.depths[..|f.depths|] == f.depths
    && (forall k :: |f.order| <= k < |f'.order| ==> f'.depths[k] == d)
  }

  /** The nodes appended to f are offered ones, and every offered node is in f'. */
  ghost predicate Offered(f: Frontier, f': Frontier, succ: seq<int>)
  {
    (forall k :: |f.order| <= k < |f'.order| ==> f'.order[k] in succ)
    && (forall w :: w in succ ==> w in f'.order)
  }

  /** What one round of offers does, in the terms the invariant uses. */
  lemma VisitSpec(f: Frontier, succ: seq<int>, d: int)
    requires |f.order| == |f.depths|
    ensures Extends(f, Visit(f, succ, d), d) && Offered(f, Visit(f, succ, d), succ)
    ensures Distinct(f.order) ==> Distinct(Visit(f, succ, d).order)
  {
    VisitContents(f, succ, d);
  }

  lemma VisitPartial(g: CsrGraph, f: Frontier, f': Frontier, succ: seq<int>, d: int)
    requires Partial(g, f) && InRange(succ, g.n)
    requires Extends(f, f', d) && Offered(f, f', succ) && Distinct(f'.order)
    ensures Partial(g, f')
  {
    forall k | 0 <= k < |f'.order|
      ensures 0 <= f'.order[k] < g.n
    {
      if k < |f.order| {
        assert f'.order[k] == f.order[k];
      } else {
        var j :| 0 <= j < |succ| && succ[j] == f'.order[k];
      }
    }
  }

  /** One iteration of the search loop at queue position head: a node
      dequeued at depth d >= maxDepth is not expanded; otherwise its
      neighbours are offered at depth d + 1. */
  ghost function Step(g: CsrGraph, maxDepth: int, f: Frontier, head: nat): (f': Frontier)
    requires WellFormed(g) && Partial(g, f) && head < |f.order|
    ensures Partial(g, f') && |f.order| <= |f'.order|
  {
    if f.depths[head] >= maxDepth then f
    else
      var succ := Succ(g, f.order[head]);
      VisitSpec(f, succ, f.depths[head] + 1);
      VisitPartial(g, f, Visit(f, succ, f.depths[head] + 1), succ, f.depths[head] + 1);
      Visit(f, succ, f.depths[head] + 1)
  }

  /** The search loop from queue position head on, until the queue is empty. */
  ghost function Explore(g: CsrGraph, maxDepth: int, f: Frontier, head: nat): Frontier
    requires WellFormed(g) && Partial(g, f) && head <= |f.order|
    decreases g.n - |f.order|, |f.order| - head
  {
    DistinctBound(f.order, g.n);
    if head == |f.order| then f
    else
      var f' := Step(g, maxDepth, f, head);
      DistinctBound(f'.order, g.n);
      Explore(g, maxDepth, f', head + 1)
  }

  /** One turn of the search loop. */
  lemma ExploreUnfold(g: CsrGraph, maxDepth: int, f: Frontier, head: nat)
    requires WellFormed(g) && Partial(g, f) && head < |f.order|
    ensures Explore(g, maxDepth, f, head) == Explore(g, maxDepth, Step(g, maxDepth, f, head), head + 1)
  {
  }

  /** Below the depth bound, a step offers the out-neighbours of the head
      entry at the next depth. */
  lemma StepVisit(g: CsrGraph, maxDepth: int, f: Frontier, head: nat, f': Frontier)
    requires WellFormed(g) && Partial(g, f) && head < |f.order| && f.depths[head] < maxDepth
    requires f' == Visit(f, Succ(g, f.order[head]), f.depths[head] + 1)
    ensures Step(g, maxDepth, f, head) == f'
  {
  }

  /** Depths never decrease along the queue. */
  ghost predicate Ordered(f: Frontier)
    requires |f.order| == |f.depths|
  {
    forall i, j :: 0 <= i < j < |f.order| ==> f.depths[i] <= f.depths[j]
  }

  /** Every discovered node is reachable within its depth, which is within the bound. */
  ghost predicate Sound(g: CsrGraph, s: int, maxDepth: int, f: Frontier)
    requires WellFormed(g) && |f.order| == |f.depths|
  {
    forall i :: 0 <= i < |f.order| ==>
      0 <= f.depths[i] <= Clamp(maxDepth) && ReachIn(g, s, f.order[i], f.depths[i])
  }

  /** w has been discovered, at depth at most d. */
  ghost predicate Discovered(f: Frontier, w: int, d: int)
    requires |f.order| == |f.depths|
  {
    w in f.order && f.depths[IndexOf(f.order, w)] <= d
  }

  /** Appending to the queue does not change what was already discovered. */
  lemma DiscoveredPrefix(f: Frontier, f': Frontier, w: int, d: int, d': int)
    requires Extends(f, f', d')
    requires Discovered(f, w, d)
    ensures Discovered(f', w, d)
  {
    var r := IndexOf(f.order, w);
    assert f'.order[r] == w;
    var r' := IndexOf(f'.order, w);
    assert r' <= r;
    assert f.order[r'] == w;
    assert f'.depths[r] == f.depths[r];
  }

  /** Every node before position head below the bound has all its
      neighbours discovered, one level deeper at most. */
  ghost predicate Expanded(g: CsrGraph, maxDepth: int, f: Frontier, head: nat)
    requires WellFormed(g) && Partial(g, f) && head <= |f.order|
  {
    forall i, w :: 0 <= i < head && f.depths[i] < maxDepth && w in Succ(g, f.order[i]) ==>
      Discovered(f, w, f.depths[i] + 1)
  }

  /** The invariant of the search, at queue position `head`: besides the
      three above, the start is first at depth 0 and the queue from head on
      spans at most two levels. */
  ghost predicate BfsInv(g: CsrGraph, s: int, maxDepth: int, f: Frontier, head: nat)
    requires WellFormed(g)
  {
    Partial(g, f) && head <= |f.order| && 0 < |f.order| && f.order[0] == s && f.depths[0] == 0
    && Ordered(f)
    && (head < |f.order| ==> f.depths[|f.order| - 1] <= f.depths[head] + 1)
    && Sound(g, s, maxDepth, f)
    && Expanded(g, maxDepth, f, head)
  }

  lemma BfsInvStart(g: CsrGraph, s: int, maxDepth: int)
    requires WellFormed(g) && 0 <= s < g.n
    ensures BfsInv(g, s, maxDepth, Start(s), 0)
  {
  }

  /** Depths stay sorted when the new level is at least the last one. */
  lemma VisitOrdered(f: Frontier, f': Frontier, d: int)
    requires Extends(f, f', d) && 0 < |f.order| && f.depths[|f.order| - 1] <= d
    requires Ordered(f)
    ensures Ordered(f')
  {
    var n0 := |f.order|;
    assert forall k :: 0 <= k < n0 ==> f'.depths[k] == f.depths[k];
    forall i, j | 0 <= i < j < |f'.order|
      ensures f'.depths[i] <= f'.depths[j]
    {
      if j >= n0 && i < n0 {
        assert f.depths[i] <= f.depths[n0 - 1];
      }
    }
  }

  /** The nodes discovered from u (reachable within d) are reachable within d + 1. */
  lemma VisitSound(g: CsrGraph, s: int, maxDepth: int, f: Frontier, f': Frontier, u: int, d: int)
    requires WellFormed(g) && 0 <= u < g.n
    requires Extends(f, f', d + 1) && Offered(f, f', Succ(g, u))
    requires 0 <= d < maxDepth && ReachIn(g, s, u, d)
    requires Sound(g, s, maxDepth, f)
    ensures Sound(g, s, maxDepth, f')
  {
    var n0 := |f.order|;
    forall k | 0 <= k < |f'.order|
      ensures 0 <= f'.depths[k] <= Clamp(maxDepth) && ReachIn(g, s, f'.order[k], f'.depths[k])
    {
      if k < n0 {
        assert f'.order[k] == f.order[k] && f'.depths[k] == f.depths[k];
      } else {
        var w := f'.order[k];
        assert w in Succ(g, u);
        assert 0 <= u < g.n && ReachIn(g, s, u, d) && w in Succ(g, u);
      }
    }
  }

  /** Appending to the queue keeps the expanded positions expanded. */
  lemma ExpandedExtend(g: CsrGraph, maxDepth: int, f: Frontier, f': Frontier, head: nat, d: int)
    requires WellFormed(g) && Partial(g, f) && Partial(g, f') && head <= |f.order|
    requires Extends(f, f', d)
    requires Expanded(g, maxDepth, f, head)
    ensures Expanded(g, maxDepth, f', head)
  {
    forall i, w | 0 <= i < head && f'.depths[i] < maxDepth && w in Succ(g, f'.order[i])
      ensures Discovered(f', w, f'.depths[i] + 1)
    {
      assert f'.order[i] == f.order[i] && f'.depths[i] == f.depths[i];
      DiscoveredPrefix(f, f', w, f.depths[i] + 1, d);
    }
  }

  /** After offering the neighbours of the node at head, each of them has
      been discovered at most one level below it. */
  lemma HeadExpanded(f: Frontier, f': Frontier, head: nat, succ: seq<int>, w: int)
    requires head < |f.order| && |f.order| == |f.depths|
    requires Extends(f, f', f.depths[head] + 1) && Offered(f, f', succ)
    requires Ordered(f) && Distinct(f'.order)
    requires f.depths[|f.order| - 1] <= f.depths[head] + 1
    requires w in succ
    ensures Discovered(f', w, f.depths[head] + 1)
  {
    var n0 := |f.order|;
    var j := IndexOf(f'.order, w);
    if j < n0 {
      assert f'.depths[j] == f.depths[j] <= f.depths[n0 - 1];
    }
  }

  /** After expanding position head, every position up to head is expanded. */
  lemma VisitExpanded(g: CsrGraph, maxDepth: int, f: Frontier, f': Frontier, head: nat)
    requires WellFormed(g) && Partial(g, f) && Partial(g, f') && head < |f.order|
    requires Extends(f, f', f.depths[head] + 1) && Offered(f, f', Succ(g, f.order[head]))
    requires Ordered(f) && f.depths[|f.order| - 1] <= f.depths[head] + 1
    requires Expanded(g, maxDepth, f, head)
    ensures Expanded(g, maxDepth, f', head + 1)
  {
    ExpandedExtend(g, maxDepth, f, f', head, f.depths[head] + 1);
    assert f'.order[head] == f.order[head] && f'.depths[head] == f.depths[head];
    forall w | w in Succ(g, f'.order[head])
      ensures Discovered(f', w, f'.depths[head] + 1)
    {
      HeadExpanded(f, f', head, Succ(g, f.order[head]), w);
    }
  }

  /** After expanding the node at head, the queue from head + 1 on still
      spans at most two levels. */
  lemma VisitSpan(f: Frontier, f': Frontier, head: nat)
    requires head < |f.order| && |f.order| == |f.depths| && Ordered(f) && Extends(f, f', f.depths[head] + 1)
    requires f.depths[|f.order| - 1] <= f.depths[head] + 1
    ensures head + 1 < |f'.order| ==> f'.depths[|f'.order| - 1] <= f'.depths[head + 1] + 1
  {
    var d := f.depths[head] + 1;
    var n0 := |f.order|;
    if head + 1 < |f'.order| {
      if |f'.order| > n0 {
        assert f'.depths[|f'.order| - 1] == d;
      } else {
        assert f'.depths[|f'.order| - 1] == f.depths[n0 - 1];
      }
      if head + 1 < n0 {
        assert f'.depths[head + 1] == f.depths[head + 1] >= f.depths[head];
      } else {
        assert f'.depths[head + 1] == d;
      }
    }
  }

  /** Dequeuing a node at the depth bound leaves the rest unchanged. */
  lemma SkipStep(g: CsrGraph, s: int, maxDepth: int, f: Frontier, head: nat)
    requires WellFormed(g) && BfsInv(g, s, maxDepth, f, head) && head < |f.order|
    requires f.depths[head] >= maxDepth
    ensures BfsInv(g, s, maxDepth, f, head + 1)
  {
    if head + 1 < |f.order| {
      assert f.depths[head] <= f.depths[head + 1];
    }
  }

  /** Dequeuing a node below the depth bound and offering its neighbours
      (the result being f') keeps the invariant. */
  lemma ExpandStep(g: CsrGraph, s: int, maxDepth: int, f: Frontier, f': Frontier, head: nat)
    requires WellFormed(g) && BfsInv(g, s, maxDepth, f, head) && head < |f.order|
    requires f.depths[head] < maxDepth
    requires Extends(f, f', f.depths[head] + 1) && Offered(f, f', Succ(g, f.order[head]))
    requires Distinct(f'.order)
    ensures BfsInv(g, s, maxDepth, f', head + 1)
  {
    var u, d := f.order[head], f.depths[head];
    var succ := Succ(g, u);
    VisitPartial(g, f, f', succ, d + 1);
    VisitOrdered(f, f', d + 1);
    VisitSound(g, s, maxDepth, f, f', u, d);
    VisitExpanded(g, maxDepth, f, f', head);
    VisitSpan(f, f', head);
    assert f'.order[0] == s && f'.depths[0] == 0;
  }

  /** One iteration of the search loop keeps the invariant. */
  lemma StepInv(g: CsrGraph, s: int, maxDepth: int, f: Frontier, head: nat)
    requires WellFormed(g) && BfsInv(g, s, maxDepth, f, head) && head < |f.order|
    ensures BfsInv(g, s, maxDepth, Step(g, maxDepth, f, head), head + 1)
  {
    var f' := Step(g, maxDepth, f, head);
    if f.depths[head] >= maxDepth {
      assert f' == f;
      SkipStep(g, s, maxDepth, f, head);
    } else {
      var succ := Succ(g, f.order[head]);
      assert f' == Visit(f, succ, f.depths[head] + 1);
      VisitSpec(f, succ, f.depths[head] + 1);
      ExpandStep(g, s, maxDepth, f, f', head);
    }
  }

  /** The whole search keeps the invariant and ends with an empty queue. */
  lemma {:induction false} ExploreInv(g: CsrGraph, s: int, maxDepth: int, f: Frontier, head: nat)
    requires WellFormed(g) && BfsInv(g, s, maxDepth, f, head)
    ensures BfsInv(g, s, maxDepth, Explore(g, maxDepth, f, head), |Explore(g, maxDepth, f, head).order|)
    decreases g.n - |f.order|, |f.order| - head
  {
    DistinctBound(f.order, g.n);
    if head < |f.order| {
      var f' := Step(g, maxDepth, f, head);
      StepInv(g, s, maxDepth, f, head);
      DistinctBound(f'.order, g.n);
      ExploreInv(g, s, maxDepth, f', head + 1);
    }
  }

  /** A node reached within k > 0 edges is reached within k - 1 (w = -1),
      or has a predecessor w reached within k - 1. */
  lemma ReachSplit(g: CsrGraph, s: int, v: int, k: nat) returns (w: int)
    requires WellFormed(g) && 0 < k && ReachIn(g, s, v, k)
    ensures w == -1 ==> ReachIn(g, s, v, k - 1)
    ensures w != -1 ==> 0 <= w < g.n && ReachIn(g, s, w, k - 1) && v in Succ(g, w)
  {
    if ReachIn(g, s, v, k - 1) {
      w := -1;
    } else {
      w :| 0 <= w < g.n && ReachIn(g, s, w, k - 1) && v in Succ(g, w);
    }
  }

  /** Once the queue is empty, every node within k <= maxDepth edges has been
      discovered, at depth at most k. */
  lemma {:induction false} Complete(g: CsrGraph, s: int, maxDepth: int, f: Frontier, k: nat, v: int)
    requires WellFormed(g) && Partial(g, f) && 0 < |f.order| && f.order[0] == s && f.depths[0] == 0
    requires Expanded(g, maxDepth, f, |f.order|)
    requires k <= Clamp(maxDepth) && ReachIn(g, s, v, k)
    ensures Discovered(f, v, k)
    decreases k
  {
    if k == 0 {
      assert f.order[0] == v;
    } else {
      var w := ReachSplit(g, s, v, k);
      if w == -1 {
        Complete(g, s, maxDepth, f, k - 1, v);
        assert Discovered(f, v, k);
      } else {
        Complete(g, s, maxDepth, f, k - 1, w);
        ExpandedDiscovers(g, maxDepth, f, w, k - 1, v);
      }
    }
  }

  /** In a fully expanded queue, a node discovered below the bound has all
      its neighbours discovered one level deeper at most. */
  lemma ExpandedDiscovers(g: CsrGraph, maxDepth: int, f: Frontier, w: int, d: int, v: int)
    requires WellFormed(g) && Partial(g, f) && Expanded(g, maxDepth, f, |f.order|)
    requires Discovered(f, w, d) && d < maxDepth && v in Succ(g, w)
    ensures Discovered(f, v, d + 1)
  {
    var i := IndexOf(f.order, w);
    assert f.order[i] == w && f.depths[i] < maxDepth;
    assert Discovered(f, v, f.depths[i] + 1);
  }

  /** What bfs(start, maxDepth) computes, in internal ids: the start comes
      first, no node twice, at most n nodes, and exactly the nodes reachable
      within max(maxDepth, 0) edges; with maxDepth <= 0 only the start. */
  lemma BfsTheorem(g: CsrGraph, s: int, maxDepth: int)
    requires WellFormed(g) && 0 <= s < g.n
    ensures var r := Explore(g, maxDepth, Start(s), 0).order;
            0 < |r| && r[0] == s && Distinct(r) && InRange(r, g.n) && |r| <= g.n
            && (forall v :: v in r <==> ReachIn(g, s, v, Clamp(maxDepth)))
            && (maxDepth <= 0 ==> r == [s])
  {
    BfsInvStart(g, s, maxDepth);
    ExploreInv(g, s, maxDepth, Start(s), 0);
    var f := Explore(g, maxDepth, Start(s), 0);
    var r := f.order;
    DistinctBound(r, g.n);
    forall v
      ensures v in r <==> ReachIn(g, s, v, Clamp(maxDepth))
    {
      if v in r {
        var i :| 0 <= i < |r| && r[i] == v;
        ReachMono(g, s, v, f.depths[i], Clamp(maxDepth));
      }
      if ReachIn(g, s, v, Clamp(maxDepth)) {
        Complete(g, s, maxDepth, f, Clamp(maxDepth), v);
      }
    }
    if maxDepth <= 0 {
      assert Step(g, maxDepth, Start(s), 0) == Start(s);
    }
  }
}
