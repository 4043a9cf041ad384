/** Concrete instances of the model: a three-edge file loaded and queried
    through the class, the four-edge file of the smoke-test script
    NeuroNet/verify.py, a file with comments, a malformed line and repeated
    ids, and a directed triangle. */
module Examples {
  import opened Input
  import opened IdMapping
  import opened Csr
  import opened Traversal
  import opened Graph

  // One more offered node: the unfoldings the concrete searches below are
  // driven by.

  lemma VisitOne(f: Frontier, v: int, d: int)
    requires |f.order| == |f.depths|
    ensures Visit(f, [v], d) == if v in f.order then f else Frontier(f.order + [v], f.depths + [d])
  {
    assert [v][..0] == [];
  }

  lemma VisitTwo(f: Frontier, v: int, w: int, d: int)
    requires |f.order| == |f.depths|
    ensures var p := Visit(f, [v], d);
            Visit(f, [v, w], d) == if w in p.order then p else Frontier(p.order + [w], p.depths + [d])
  {
    assert [v, w][..1] == [v];
  }

  /** "0 1\n0 2\n1 3\n2 4\n": four edge lines. */
  function SmokeLines(): seq<Line>
  {
    [Line("0 1", Some(Edge(0, 1))), Line("0 2", Some(Edge(0, 2))),
     Line("1 3", Some(Edge(1, 3))), Line("2 4", Some(Edge(2, 4)))]
  }

  /** The smoke-test file has 4 edges and 5 nodes; the ids 0..4 are numbered
      in order of appearance, so internal and external ids coincide. */
  lemma SmokeLoad(lines: seq<Line>)
    requires lines == SmokeLines()
    ensures Accepted(lines) == [Edge(0, 1), Edge(0, 2), Edge(1, 3), Edge(2, 4)]
    ensures NodeOrder(Accepted(lines)) == [0, 1, 2, 3, 4]
  {
    assert lines[..0] == [];
    AcceptedSnoc(lines, 0);
    AcceptedSnoc(lines, 1);
    AcceptedSnoc(lines, 2);
    AcceptedSnoc(lines, 3);
    assert lines[..4] == lines;
    SmokeOrder(Accepted(lines));
  }

  lemma SmokeOrder(es: seq<Edge>)
    requires es == [Edge(0, 1), Edge(0, 2), Edge(1, 3), Edge(2, 4)]
    ensures NodeOrder(es) == [0, 1, 2, 3, 4]
  {
    SmokeFirstThree(es);
    OrderStep(es, 4, [0, 1, 2, 3], [0, 1, 2, 3, 4]);
    assert es[..4] == es;
  }

  lemma SmokeFirstThree(es: seq<Edge>)
    requires es == [Edge(0, 1), Edge(0, 2), Edge(1, 3), Edge(2, 4)]
    ensures NodeOrder(es[..3]) == [0, 1, 2, 3]
  {
    SmokeFirstTwo(es);
    OrderStep(es, 3, [0, 1, 2], [0, 1, 2, 3]);
  }

  lemma SmokeFirstTwo(es: seq<Edge>)
    requires es == [Edge(0, 1), Edge(0, 2), Edge(1, 3), Edge(2, 4)]
    ensures NodeOrder(es[..2]) == [0, 1, 2]
  {
    assert es[..0] == [];
    OrderStep(es, 1, [], [0, 1]);
    OrderStep(es, 2, [0, 1], [0, 1, 2]);
  }

  /** The CSR form of the smoke-test file: row 0 holds 1 and 2, rows 1 and 2
      hold 3 and 4, rows 3 and 4 are empty. */
  lemma SmokeRows(g: CsrGraph)
    requires g == CsrGraph(5, [0, 2, 3, 4, 4, 4], [1, 2, 3, 4])
    ensures WellFormed(g)
    ensures Succ(g, 0) == [1, 2] && Succ(g, 1) == [3] && Succ(g, 2) == [4]
    ensures Succ(g, 3) == [] && Succ(g, 4) == []
  {
  }

  /** bfs(0, 2) of the smoke test visits every node, level by level. */
  lemma SmokeSearch(g: CsrGraph, maxDepth: int)
    requires WellFormed(g) && g.n == 5 && maxDepth == 2
    requires Succ(g, 0) == [1, 2] && Succ(g, 1) == [3] && Succ(g, 2) == [4]
    ensures Explore(g, maxDepth, Start(0), 0).order == [0, 1, 2, 3, 4]
  {
    var f0 := Start(0);
    var f1 := Frontier([0, 1, 2], [0, 1, 1]);
    var f2 := Frontier([0, 1, 2, 3], [0, 1, 1, 2]);
    var f3 := Frontier([0, 1, 2, 3, 4], [0, 1, 1, 2, 2]);
    VisitOne(f0, 1, 1);
    VisitTwo(f0, 1, 2, 1);
    Expands(g, maxDepth, f0, 0, f1);
    SmokeLevel2(g, maxDepth, f1, f2, f3);
  }

  /** The two depth-1 nodes add their one successor each, at depth 2: node 1
      adds node 3. */
  lemma SmokeLevel2(g: CsrGraph, maxDepth: int, f1: Frontier, f2: Frontier, f3: Frontier)
    requires WellFormed(g) && g.n == 5 && maxDepth == 2
    requires Succ(g, 1) == [3] && Succ(g, 2) == [4]
    requires f1 == Frontier([0, 1, 2], [0, 1, 1]) && f2 == Frontier([0, 1, 2, 3], [0, 1, 1, 2])
    requires f3 == Frontier([0, 1, 2, 3, 4], [0, 1, 1, 2, 2]) && Partial(g, f1)
    ensures Explore(g, maxDepth, f1, 1).order == [0, 1, 2, 3, 4]
  {
    VisitOne(f1, 3, 2);
    Expands(g, maxDepth, f1, 1, f2);
    SmokeNode2(g, maxDepth, f2, f3);
  }

  /** Node 2 adds node 4 at depth 2. */
  lemma SmokeNode2(g: CsrGraph, maxDepth: int, f2: Frontier, f3: Frontier)
    requires WellFormed(g) && g.n == 5 && maxDepth == 2 && Succ(g, 2) == [4]
    requires f2 == Frontier([0, 1, 2, 3], [0, 1, 1, 2]) && Partial(g, f2)
    requires f3 == Frontier([0, 1, 2, 3, 4], [0, 1, 1, 2, 2])
    ensures Explore(g, maxDepth, f2, 2).order == [0, 1, 2, 3, 4]
  {
    VisitOne(f2, 4, 2);
    Expands(g, maxDepth, f2, 2, f3);
    SmokeLevel3(g, maxDepth, f3);
  }

  /** The depth-2 nodes are at the bound and are not expanded. */
  lemma SmokeLevel3(g: CsrGraph, maxDepth: int, f3: Frontier)
    requires WellFormed(g) && g.n == 5 && maxDepth == 2
    requires f3 == Frontier([0, 1, 2, 3, 4], [0, 1, 1, 2, 2]) && Partial(g, f3)
    ensures Explore(g, maxDepth, f3, 3) == f3
  {
    Skips(g, maxDepth, f3, 3);
    Skips(g, maxDepth, f3, 4);
    Ends(g, maxDepth, f3);
  }

  /** With depth 1 only the start's successors are added: bfs(0, 1) of the
      smoke test, and bfs from internal id 0 of any graph whose row 0 holds 1
      and 2. */
  lemma ShallowSearch(g: CsrGraph, maxDepth: int)
    requires WellFormed(g) && 3 <= g.n && maxDepth == 1
    requires Succ(g, 0) == [1, 2]
    ensures Explore(g, maxDepth, Start(0), 0).order == [0, 1, 2]
  {
    var f0 := Start(0);
    var f1 := Frontier([0, 1, 2], [0, 1, 1]);
    VisitOne(f0, 1, 1);
    VisitTwo(f0, 1, 2, 1);
    Expands(g, maxDepth, f0, 0, f1);
    Skips(g, maxDepth, f1, 1);
    Skips(g, maxDepth, f1, 2);
    Ends(g, maxDepth, f1);
  }

  /** One expanding turn of the search loop. */
  lemma Expands(g: CsrGraph, maxDepth: int, f: Frontier, head: nat, f': Frontier)
    requires WellFormed(g) && Partial(g, f) && head < |f.order| && f.depths[head] < maxDepth
    requires f' == Visit(f, Succ(g, f.order[head]), f.depths[head] + 1)
    ensures Partial(g, f') && Explore(g, maxDepth, f, head) == Explore(g, maxDepth, f', head + 1)
  {
    StepVisit(g, maxDepth, f, head, f');
    ExploreUnfold(g, maxDepth, f, head);
  }

  /** The loop ends when the queue is exhausted. */
  lemma Ends(g: CsrGraph, maxDepth: int, f: Frontier)
    requires WellFormed(g) && Partial(g, f)
    ensures Explore(g, maxDepth, f, |f.order|) == f
  {
  }

  /** A turn that dequeues a node at the depth bound. */
  lemma Skips(g: CsrGraph, maxDepth: int, f: Frontier, head: nat)
    requires WellFormed(g) && Partial(g, f) && head < |f.order| && f.depths[head] >= maxDepth
    ensures Explore(g, maxDepth, f, head) == Explore(g, maxDepth, f, head + 1)
  {
    ExploreUnfold(g, maxDepth, f, head);
  }

  /** Comments, an empty line and a line without two integers are skipped;
      a self-loop, a repeated edge and a line with a trailing token are kept. */
  function MixedLines(): seq<Line>
  {
    [Line("# header", None), Line("5 5", Some(Edge(5, 5))), Line("", None),
     Line("x y", None), Line("7 5", Some(Edge(7, 5))), Line("5 7 extra", Some(Edge(5, 7))),
     Line("5 7", Some(Edge(5, 7)))]
  }

  lemma MixedLoad(lines: seq<Line>)
    requires lines == MixedLines()
    ensures Accepted(lines) == [Edge(5, 5), Edge(7, 5), Edge(5, 7), Edge(5, 7)]
  {
    MixedFirstFour(lines);
    AcceptedSnoc(lines, 4);
    AcceptedSnoc(lines, 5);
    AcceptedSnoc(lines, 6);
    assert lines[..7] == lines;
  }

  /** The comment, the self-loop, the empty line and the malformed line. */
  lemma MixedFirstFour(lines: seq<Line>)
    requires lines == MixedLines()
    ensures Accepted(lines[..4]) == [Edge(5, 5)]
  {
    assert lines[..0] == [];
    AcceptedSnoc(lines, 0);
    AcceptedSnoc(lines, 1);
    AcceptedSnoc(lines, 2);
    AcceptedSnoc(lines, 3);
  }

  /** Only two ids: 5, seen first, is internal id 0 and 7 is internal id 1; the
      self-loop uses up one id. */
  lemma MixedOrder(es: seq<Edge>)
    requires es == [Edge(5, 5), Edge(7, 5), Edge(5, 7), Edge(5, 7)]
    ensures NodeOrder(es) == [5, 7]
  {
    MixedFirstTwo(es);
    OrderStep(es, 3, [5, 7], [5, 7]);
    OrderStep(es, 4, [5, 7], [5, 7]);
    assert es[..4] == es;
  }

  lemma MixedFirstTwo(es: seq<Edge>)
    requires es == [Edge(5, 5), Edge(7, 5), Edge(5, 7), Edge(5, 7)]
    ensures NodeOrder(es[..2]) == [5, 7]
  {
    assert es[..0] == [];
    OrderStep(es, 1, [], [5]);
    OrderStep(es, 2, [5], [5, 7]);
  }

  /** A graph holding the mixed file. */
  ghost predicate MixedState(graph: SparseGraph)
    reads graph, graph.rowPtr, graph.colIndices, graph.values, graph.reverseMap
  {
    graph.Valid() && graph.loaded && graph.edges == [Edge(5, 5), Edge(7, 5), Edge(5, 7), Edge(5, 7)]
    && graph.idMap == map[5 := 0, 7 := 1]
  }

  /** The mixed file loaded into a new graph and queried: four edges between
      two nodes; id 5 has degree 3 and neighbours [5, 7, 7]. */
  method MixedScenario() returns (edgeCount: int, nodes: int, degree: int, neighbors: seq<int>)
    ensures edgeCount == 4 && nodes == 2 && degree == 3 && neighbors == [5, 7, 7]
  {
    var graph := MixedLoaded();
    edgeCount := graph.GetNumEdges();
    NodeCount(graph.edges);
    MixedOrder(graph.edges);
    nodes := graph.GetNumNodes();
    MixedTargets(graph.edges);
    degree := graph.GetDegree(5);
    neighbors := graph.GetNeighbors(5);
    MixedNeighbors(neighbors, graph.idMap);
  }

  method MixedLoaded() returns (graph: SparseGraph)
    ensures MixedState(graph)
  {
    graph := new SparseGraph();
    var lines := MixedLines();
    graph.LoadFromFile(Some(lines));
    MixedLoad(lines);
    MixedOrder(graph.edges);
    MixedIds(graph.idMap, graph.reverseMap[..]);
  }

  /** 5 is internal id 0 and 7 is internal id 1. */
  lemma MixedIds(m: map<int, int>, rm: seq<int>)
    requires rm == [5, 7] && IsIndexOf(m, rm)
    ensures m == map[5 := 0, 7 := 1]
  {
    IndexRoundTrip(m, rm, 0);
    IndexRoundTrip(m, rm, 1);
    forall x | x in m
      ensures x in {5, 7}
    {
      assert x in rm;
    }
  }

  /** The neighbours of id 5 put in ascending internal-id order: the
      self-loop first, then both copies of the edge to 7. */
  lemma MixedNeighbors(ns: seq<int>, m: map<int, int>)
    requires m == map[5 := 0, 7 := 1]
    requires multiset(ns) == multiset([5, 7, 7])
    requires forall k :: 0 <= k < |ns| ==> ns[k] in m
    requires forall k, k' :: 0 <= k < k' < |ns| ==> m[ns[k]] <= m[ns[k']]
    ensures ns == [5, 7, 7]
  {
    assert KeySorted(m, [5, 7, 7]);
    KeySortedUnique(m, ns, [5, 7, 7]);
  }

  /** The order after k edges, from the order after k - 1. */
  lemma OrderStep(es: seq<Edge>, k: nat, prev: seq<int>, o: seq<int>)
    requires 0 < k <= |es| && NodeOrder(es[..k - 1]) == prev
    requires o == Assign(Assign(prev, es[k - 1].u), es[k - 1].v)
    ensures NodeOrder(es[..k]) == o
  {
    assert es[..k][..k - 1] == es[..k - 1];
  }

  /** Row 5 keeps the self-loop and the repeated edge to 7; row 7 holds 5. */
  lemma MixedTargets(es: seq<Edge>)
    requires es == [Edge(5, 5), Edge(7, 5), Edge(5, 7), Edge(5, 7)]
    ensures Targets(es, 5) == [5, 7, 7] && Targets(es, 7) == [5]
  {
    assert es[..0] == [];
    TargetsStep(es, 1);
    TargetsStep(es, 2);
    TargetsStep(es, 3);
    TargetsStep(es, 4);
    assert es[..4] == es;
  }

  /** The targets after k edges, from those after k - 1. */
  lemma TargetsStep(es: seq<Edge>, k: nat)
    requires 0 < k <= |es|
    ensures forall x :: Targets(es[..k], x) ==
              Targets(es[..k - 1], x) + (if es[k - 1].u == x then [es[k - 1].v] else [])
  {
    assert es[..k][..k - 1] == es[..k - 1];
  }

  /** A directed triangle 0 -> 1 -> 2 -> 0 in CSR form. */
  lemma TriangleRows(g: CsrGraph)
    requires g == CsrGraph(3, [0, 1, 2, 3], [1, 2, 0])
    ensures WellFormed(g) && Succ(g, 0) == [1] && Succ(g, 1) == [2] && Succ(g, 2) == [0]
  {
  }

  /** From 1 the search goes round the triangle once and stops at the node it
      has already visited. */
  lemma TriangleSearch(g: CsrGraph, maxDepth: int)
    requires WellFormed(g) && g.n == 3 && maxDepth > 2
    requires Succ(g, 0) == [1] && Succ(g, 1) == [2] && Succ(g, 2) == [0]
    ensures Explore(g, maxDepth, Start(1), 0).order == [1, 2, 0]
  {
    var f0 := Start(1);
    var f1 := Frontier([1, 2], [0, 1]);
    VisitOne(f0, 2, 1);
    Expands(g, maxDepth, f0, 0, f1);
    TriangleRest(g, maxDepth, f1, Frontier([1, 2, 0], [0, 1, 2]));
  }

  lemma TriangleRest(g: CsrGraph, maxDepth: int, f1: Frontier, f2: Frontier)
    requires WellFormed(g) && g.n == 3 && maxDepth > 2
    requires Succ(g, 0) == [1] && Succ(g, 2) == [0]
    requires f1 == Frontier([1, 2], [0, 1]) && f2 == Frontier([1, 2, 0], [0, 1, 2]) && Partial(g, f1)
    ensures Explore(g, maxDepth, f1, 1).order == [1, 2, 0]
  {
    VisitOne(f1, 0, 2);
    Expands(g, maxDepth, f1, 1, f2);
    VisitOne(f2, 1, 3);
    Expands(g, maxDepth, f2, 2, f2);
    Ends(g, maxDepth, f2);
  }

  /** The arrays of a loaded graph are determined by its edges: a sorted
      list with the translated edges' multiset, and row starts and columns
      read off it. */
  lemma Determined(es: seq<Edge>, m: map<int, int>, rm: seq<int>, sorted: seq<Edge>,
                   col: seq<int>, vals: seq<int>, rp: seq<int>,
                   target: seq<Edge>, rows: seq<int>, cols: seq<int>)
    requires Consistent(es, m, rm, sorted, col, vals, rp, true)
    requires Sorted(target) && multiset(target) == multiset(Translate(m, es))
    requires |rows| == |rm| + 1 && forall r :: 0 <= r <= |rm| ==> RowBoundary(target, r, rows[r])
    requires |cols| == |target| && forall k :: 0 <= k < |target| ==> cols[k] == target[k].v
    ensures sorted == target && rp == rows && col == cols
  {
    SortedUnique(sorted, target);
    forall r | 0 <= r <= |rm|
      ensures rp[r] == rows[r]
    {
      BoundaryUnique(target, r, rp[r], rows[r]);
    }
  }

  /** "1 2\n2 3\n1 3\n". */
  function TripleLines(): seq<Line>
  {
    [Line("1 2", Some(Edge(1, 2))), Line("2 3", Some(Edge(2, 3))), Line("1 3", Some(Edge(1, 3)))]
  }

  lemma TripleLoad(lines: seq<Line>)
    requires lines == TripleLines()
    ensures Accepted(lines) == [Edge(1, 2), Edge(2, 3), Edge(1, 3)]
  {
    assert lines[..0] == [];
    AcceptedSnoc(lines, 0);
    AcceptedSnoc(lines, 1);
    AcceptedSnoc(lines, 2);
    assert lines[..3] == lines;
  }

  /** Ids 1, 2 and 3 become internal ids 0, 1 and 2. */
  lemma TripleOrder(es: seq<Edge>)
    requires es == [Edge(1, 2), Edge(2, 3), Edge(1, 3)]
    ensures NodeOrder(es) == [1, 2, 3]
  {
    assert es[..0] == [];
    OrderStep(es, 1, [], [1, 2]);
    OrderStep(es, 2, [1, 2], [1, 2, 3]);
    OrderStep(es, 3, [1, 2, 3], [1, 2, 3]);
    assert es[..3] == es;
  }

  /** After loading the three edges, row_ptr is [0, 2, 3, 3] and col_indices
      is [1, 2, 2]: row 0 (id 1) holds 1 and 2, row 1 (id 2) holds 2, row 2
      (id 3) is empty. */
  lemma TripleArrays(es: seq<Edge>, m: map<int, int>, rm: seq<int>, sorted: seq<Edge>,
                     col: seq<int>, vals: seq<int>, rp: seq<int>)
    requires es == [Edge(1, 2), Edge(2, 3), Edge(1, 3)]
    requires Consistent(es, m, rm, sorted, col, vals, rp, true)
    ensures rm == [1, 2, 3] && m == map[1 := 0, 2 := 1, 3 := 2]
    ensures rp == [0, 2, 3, 3] && col == [1, 2, 2] && vals == [1, 1, 1]
  {
    TripleOrder(es);
    TripleIds(m, rm);
    TripleTarget(es, m);
    TripleRows([Edge(0, 1), Edge(0, 2), Edge(1, 2)], [0, 2, 3, 3]);
    Determined(es, m, rm, sorted, col, vals, rp,
               [Edge(0, 1), Edge(0, 2), Edge(1, 2)], [0, 2, 3, 3], [1, 2, 2]);
  }

  /** The translated edges, in lexicographic order. */
  lemma TripleTarget(es: seq<Edge>, m: map<int, int>)
    requires es == [Edge(1, 2), Edge(2, 3), Edge(1, 3)] && m == map[1 := 0, 2 := 1, 3 := 2]
    ensures multiset([Edge(0, 1), Edge(0, 2), Edge(1, 2)]) == multiset(Translate(m, es))
  {
    var t := Translate(m, es);
    assert t[0] == Edge(0, 1) && t[1] == Edge(1, 2) && t[2] == Edge(0, 2);
    assert t == [Edge(0, 1)] + [Edge(1, 2)] + [Edge(0, 2)];
  }

  /** The sorted list and where each of its rows starts. */
  lemma TripleRows(target: seq<Edge>, rows: seq<int>)
    requires target == [Edge(0, 1), Edge(0, 2), Edge(1, 2)] && rows == [0, 2, 3, 3]
    ensures Sorted(target)
    ensures forall r :: 0 <= r <= 3 ==> RowBoundary(target, r, rows[r])
  {
    assert RowBoundary(target, 0, 0) && RowBoundary(target, 1, 2);
    assert RowBoundary(target, 2, 3) && RowBoundary(target, 3, 3);
  }

  lemma TripleIds(m: map<int, int>, rm: seq<int>)
    requires rm == [1, 2, 3] && IsIndexOf(m, rm)
    ensures m == map[1 := 0, 2 := 1, 3 := 2]
  {
    IndexRoundTrip(m, rm, 0);
    IndexRoundTrip(m, rm, 1);
    IndexRoundTrip(m, rm, 2);
    forall x | x in m
      ensures x in {1, 2, 3}
    {
      assert x in rm;
    }
    assert m.Keys == {1, 2, 3};
  }

  /** The CSR arrays of the three-edge file as the traversal reads them. */
  lemma TripleGraph(g: CsrGraph)
    requires g == CsrGraph(3, [0, 2, 3, 3], [1, 2, 2])
    ensures WellFormed(g) && Succ(g, 0) == [1, 2] && Succ(g, 1) == [2] && Succ(g, 2) == []
  {
  }

  /** The out-neighbours of each id of the three-edge file. */
  lemma TripleTargets(es: seq<Edge>)
    requires es == [Edge(1, 2), Edge(2, 3), Edge(1, 3)]
    ensures Targets(es, 1) == [2, 3] && Targets(es, 2) == [3] && Targets(es, 3) == []
  {
    assert es[..0] == [];
    TargetsStep(es, 1);
    TargetsStep(es, 2);
    TargetsStep(es, 3);
    assert es[..3] == es;
  }

  /** The neighbours of id 1 put in ascending internal-id order are 2, 3. */
  lemma TripleNeighbors(ns: seq<int>, m: map<int, int>)
    requires m == map[1 := 0, 2 := 1, 3 := 2]
    requires multiset(ns) == multiset([2, 3]) && |ns| == 2
    requires forall k :: 0 <= k < |ns| ==> ns[k] in m
    requires forall k, k' :: 0 <= k < k' < |ns| ==> m[ns[k]] <= m[ns[k']]
    ensures ns == [2, 3]
  {
    assert ns == [ns[0], ns[1]];
    assert ns[0] in multiset(ns) && ns[1] in multiset(ns);
    assert multiset(ns) == multiset{ns[0], ns[1]};
  }

  /** A graph holding the three-edge file. */
  ghost predicate TripleState(graph: SparseGraph)
    reads graph, graph.rowPtr, graph.colIndices, graph.values, graph.reverseMap
  {
    graph.Valid() && graph.loaded && graph.edges == [Edge(1, 2), Edge(2, 3), Edge(1, 3)]
    && graph.idMap == map[1 := 0, 2 := 1, 3 := 2] && graph.reverseMap[..] == [1, 2, 3]
    && graph.rowPtr[..] == [0, 2, 3, 3] && graph.colIndices[..] == [1, 2, 2]
  }

  /** The three-edge file loaded into a new graph and queried: row_ptr is
      [0, 2, 3, 3] and col_indices [1, 2, 2]; bfs(1, 1) is [1, 2, 3]; id 1
      has degree 2 and neighbours [2, 3] and is the node of maximal degree. */
  method TripleScenario()
    returns (rowPtr: seq<int>, cols: seq<int>, visited: seq<int>, degree: int, neighbors: seq<int>, top: int)
    ensures rowPtr == [0, 2, 3, 3] && cols == [1, 2, 2] && visited == [1, 2, 3]
    ensures degree == 2 && neighbors == [2, 3] && top == 1
  {
    var graph := TripleLoaded();
    rowPtr, cols := graph.rowPtr[..], graph.colIndices[..];
    visited := TripleBfs(graph);
    degree, neighbors, top := TripleQueries(graph);
  }

  method TripleLoaded() returns (graph: SparseGraph)
    ensures TripleState(graph)
  {
    graph := new SparseGraph();
    var lines := TripleLines();
    graph.LoadFromFile(Some(lines));
    TripleLoad(lines);
    TripleArrays(graph.edges, graph.idMap, graph.reverseMap[..], graph.sortedEdges,
                 graph.colIndices[..], graph.values[..], graph.rowPtr[..]);
  }

  method TripleBfs(graph: SparseGraph) returns (visited: seq<int>)
    requires TripleState(graph)
    ensures visited == [1, 2, 3]
  {
    visited := graph.Bfs(1, 1);
    TripleGraph(graph.G());
    TripleVisits(graph.G(), graph.reverseMap[..], visited);
  }

  /** The search from internal id 0 with depth 1, read back as external ids. */
  lemma TripleVisits(g: CsrGraph, rm: seq<int>, visited: seq<int>)
    requires WellFormed(g) && g.n == 3 && rm == [1, 2, 3] && Succ(g, 0) == [1, 2]
    requires visited == Externals(rm, Explore(g, 1, Start(0), 0).order)
    ensures visited == [1, 2, 3]
  {
    ShallowSearch(g, 1);
  }

  method TripleQueries(graph: SparseGraph) returns (degree: int, neighbors: seq<int>, top: int)
    requires TripleState(graph)
    ensures degree == 2 && neighbors == [2, 3] && top == 1
  {
    TripleTargets(graph.edges);
    degree := graph.GetDegree(1);
    neighbors := TripleNeighborsOf(graph);
    top := TripleTop(graph);
  }

  method TripleNeighborsOf(graph: SparseGraph) returns (neighbors: seq<int>)
    requires TripleState(graph)
    ensures neighbors == [2, 3]
  {
    neighbors := graph.GetNeighbors(1);
    TripleTargets(graph.edges);
    TripleNeighbors(neighbors, graph.idMap);
  }

  method TripleTop(graph: SparseGraph) returns (top: int)
    requires TripleState(graph)
    ensures top == 1
  {
    top := graph.GetMaxDegreeNode();
    TripleTargets(graph.edges);
    NodeOrderMembers(graph.edges);
    assert top in [1, 2, 3];
    assert graph.GetDegree(1) == 2 && graph.GetDegree(2) == 1 && graph.GetDegree(3) == 0;
  }

  /** The smoke-test file's ids are their own internal ids. */
  lemma SmokeIds(m: map<int, int>, rm: seq<int>)
    requires rm == [0, 1, 2, 3, 4] && IsIndexOf(m, rm)
    ensures m == map[0 := 0, 1 := 1, 2 := 2, 3 := 3, 4 := 4]
  {
    IndexRoundTrip(m, rm, 0);
    IndexRoundTrip(m, rm, 1);
    IndexRoundTrip(m, rm, 2);
    IndexRoundTrip(m, rm, 3);
    IndexRoundTrip(m, rm, 4);
    forall x | x in m
      ensures x in {0, 1, 2, 3, 4}
    {
      assert x in rm;
    }
    assert m.Keys == {0, 1, 2, 3, 4};
  }

  /** Translated, the smoke-test edges are unchanged, and already sorted. */
  lemma SmokeTarget(es: seq<Edge>, m: map<int, int>)
    requires es == [Edge(0, 1), Edge(0, 2), Edge(1, 3), Edge(2, 4)]
    requires m == map[0 := 0, 1 := 1, 2 := 2, 3 := 3, 4 := 4]
    ensures multiset(es) == multiset(Translate(m, es))
  {
    var t := Translate(m, es);
    assert t[0] == es[0] && t[1] == es[1] && t[2] == es[2] && t[3] == es[3];
    assert t == es;
  }

  lemma SmokeBounds(target: seq<Edge>, rows: seq<int>)
    requires target == [Edge(0, 1), Edge(0, 2), Edge(1, 3), Edge(2, 4)] && rows == [0, 2, 3, 4, 4, 4]
    ensures Sorted(target)
    ensures forall r :: 0 <= r <= 5 ==> RowBoundary(target, r, rows[r])
  {
    assert RowBoundary(target, 0, 0) && RowBoundary(target, 1, 2) && RowBoundary(target, 2, 3);
    assert RowBoundary(target, 3, 4) && RowBoundary(target, 4, 4) && RowBoundary(target, 5, 4);
  }

  /** After loading the smoke-test file, row_ptr is [0, 2, 3, 4, 4, 4] and
      col_indices [1, 2, 3, 4]. */
  lemma SmokeArrays(es: seq<Edge>, m: map<int, int>, rm: seq<int>, sorted: seq<Edge>,
                    col: seq<int>, vals: seq<int>, rp: seq<int>)
    requires es == [Edge(0, 1), Edge(0, 2), Edge(1, 3), Edge(2, 4)]
    requires Consistent(es, m, rm, sorted, col, vals, rp, true)
    ensures rm == [0, 1, 2, 3, 4] && rp == [0, 2, 3, 4, 4, 4] && col == [1, 2, 3, 4]
  {
    SmokeOrder(es);
    SmokeIds(m, rm);
    SmokeTarget(es, m);
    SmokeBounds(es, [0, 2, 3, 4, 4, 4]);
    Determined(es, m, rm, sorted, col, vals, rp, es, [0, 2, 3, 4, 4, 4], [1, 2, 3, 4]);
  }

  /** A graph holding the smoke-test file. */
  ghost predicate SmokeState(graph: SparseGraph)
    reads graph, graph.rowPtr, graph.colIndices, graph.values, graph.reverseMap
  {
    graph.Valid() && graph.loaded && graph.edges == [Edge(0, 1), Edge(0, 2), Edge(1, 3), Edge(2, 4)]
    && graph.reverseMap[..] == [0, 1, 2, 3, 4]
    && graph.rowPtr[..] == [0, 2, 3, 4, 4, 4] && graph.colIndices[..] == [1, 2, 3, 4]
  }

  /** The smoke test of NeuroNet/verify.py: 5 nodes, 4 edges, and bfs(0, 2)
      visits [0, 1, 2, 3, 4]. */
  method SmokeScenario() returns (nodes: int, edgeCount: int, visited: seq<int>)
    ensures nodes == 5 && edgeCount == 4 && visited == [0, 1, 2, 3, 4]
  {
    var graph := SmokeLoaded();
    nodes := graph.GetNumNodes();
    NodeCount(graph.edges);
    SmokeOrder(graph.edges);
    edgeCount := graph.GetNumEdges();
    visited := graph.Bfs(0, 2);
    SmokeRows(graph.G());
    SmokeVisits(graph.G(), graph.reverseMap[..], visited);
  }

  method SmokeLoaded() returns (graph: SparseGraph)
    ensures SmokeState(graph)
  {
    graph := new SparseGraph();
    var lines := SmokeLines();
    graph.LoadFromFile(Some(lines));
    SmokeLoad(lines);
    SmokeArrays(graph.edges, graph.idMap, graph.reverseMap[..], graph.sortedEdges,
                graph.colIndices[..], graph.values[..], graph.rowPtr[..]);
  }

  /** The search from internal id 0 with depth 2, read back as external ids. */
  lemma SmokeVisits(g: CsrGraph, rm: seq<int>, visited: seq<int>)
    requires WellFormed(g) && g.n == 5 && rm == [0, 1, 2, 3, 4]
    requires Succ(g, 0) == [1, 2] && Succ(g, 1) == [3] && Succ(g, 2) == [4]
    requires visited == Externals(rm, Explore(g, 2, Start(0), 0).order)
    ensures visited == [0, 1, 2, 3, 4]
  {
    SmokeSearch(g, 2);
    IdentityIds(rm, Explore(g, 2, Start(0), 0).order, visited);
  }

  lemma IdentityIds(rm: seq<int>, order: seq<int>, visited: seq<int>)
    requires rm == [0, 1, 2, 3, 4] && order == [0, 1, 2, 3, 4] && visited == Externals(rm, order)
    ensures visited == [0, 1, 2, 3, 4]
  {
  }
}
