/** The SparseGraph class: a CSR (compressed sparse row) adjacency structure
    over internal ids 0..numNodes-1, with the maps between the file's
    external ids and the internal ones. */
module Graph {
  import opened Input
  import opened IdMapping
  import opened Csr
  import opened Traversal

  /** The state of a graph, on values: the reverse map rm lists the ids in
      order of first appearance and m is its inverse; sorted is the
      translated edge list in lexicographic order, col and vals its CSR
      columns and values; a loaded graph has one row boundary per node plus
      the sentinel, a graph never loaded has no edges and no row array. */
  ghost predicate Consistent(es: seq<Edge>, m: map<int, int>, rm: seq<int>, sorted: seq<Edge>,
                             col: seq<int>, vals: seq<int>, rp: seq<int>, loaded: bool)
  {
    rm == NodeOrder(es) && IsIndexOf(m, rm)
    && |sorted| == |es| && |col| == |es| && |vals| == |es|
    && Sorted(sorted) && multiset(sorted) == multiset(Translate(m, es))
    && EdgesInRange(sorted, |rm|)
    && (forall k :: 0 <= k < |es| ==> col[k] == sorted[k].v && vals[k] == 1)
    && (loaded ==>
          |rp| == |rm| + 1 && forall r :: 0 <= r <= |rm| ==> RowBoundary(sorted, r, rp[r]))
    && (!loaded ==> es == [] && rp == [])
  }

  /** The external ids of the row of x, read off in column order, are the
      neighbours of x, duplicates kept, in ascending order of internal id. */
  lemma ConsistentRow(es: seq<Edge>, m: map<int, int>, rm: seq<int>, sorted: seq<Edge>,
                      col: seq<int>, vals: seq<int>, rp: seq<int>, x: int, ns: seq<int>)
    requires Consistent(es, m, rm, sorted, col, vals, rp, true) && x in m && 0 <= m[x] < |rm|
    requires 0 <= rp[m[x]] <= rp[m[x] + 1] <= |col|
    requires ns == Externals(rm, col[rp[m[x]]..rp[m[x] + 1]])
    ensures multiset(ns) == multiset(Targets(es, x)) && |ns| == |Targets(es, x)|
    ensures forall k :: 0 <= k < |ns| ==> ns[k] in m
    ensures forall k, k' :: 0 <= k < k' < |ns| ==> m[ns[k]] <= m[ns[k']]
  {
    var u := m[x];
    var p, q := rp[u], rp[u + 1];
    assert RowBoundary(sorted, u, p) && RowBoundary(sorted, u + 1, q);
    CoversOrder(m, es);
    ExternalsSlice(rm, col, p, q, ns);
    RowNeighbors(m, rm, es, sorted, col, x, p, q, ns);
  }

  /** b can be reached from a along at most k edge lines of the file. */
  ghost predicate Reaches(es: seq<Edge>, a: int, b: int, k: nat)
    decreases k
  {
    if k == 0 then b == a
    else Reaches(es, a, b, k - 1) || exists e :: e in es && e.v == b && Reaches(es, a, e.u, k - 1)
  }

  /** One more edge line extends a path by one step. */
  lemma ReachesStep(es: seq<Edge>, a: int, e: Edge, k: nat)
    requires e in es && Reaches(es, a, e.u, k)
    ensures Reaches(es, a, e.v, k + 1)
  {
  }

  /** What can be reached is the start itself or the destination of an edge. */
  lemma {:induction false} ReachesKnown(es: seq<Edge>, a: int, b: int, k: nat)
    requires Reaches(es, a, b, k)
    ensures b == a || exists e :: e in es && e.v == b
    decreases k
  {
    if k > 0 && Reaches(es, a, b, k - 1) {
      ReachesKnown(es, a, b, k - 1);
    }
  }

  /** Row u of g holds w exactly when es has the edge between their external ids. */
  ghost predicate Linked(g: CsrGraph, es: seq<Edge>, rm: seq<int>, u: int, w: int)
    requires WellFormed(g) && |rm| == g.n && 0 <= u < g.n && 0 <= w < g.n
  {
    w in Succ(g, u) <==> Edge(rm[u], rm[w]) in es
  }

  /** The rows of g, read through the reverse map rm, are the edges of es. */
  ghost predicate RowsMatch(g: CsrGraph, es: seq<Edge>, rm: seq<int>)
    requires WellFormed(g)
  {
    |rm| == g.n && forall u, w :: 0 <= u < g.n && 0 <= w < g.n ==> Linked(g, es, rm, u, w)
  }

  /** A path in g is a path along es. */
  lemma {:induction false} ReachToEdges(g: CsrGraph, es: seq<Edge>, rm: seq<int>, s: int, w: int, k: nat)
    requires WellFormed(g) && RowsMatch(g, es, rm) && 0 <= s < g.n && 0 <= w < g.n
    requires ReachIn(g, s, w, k)
    ensures Reaches(es, rm[s], rm[w], k)
    decreases k
  {
    if k > 0 {
      var w' := ReachSplit(g, s, w, k);
      if w' == -1 {
        ReachToEdges(g, es, rm, s, w, k - 1);
      } else {
        ReachToEdges(g, es, rm, s, w', k - 1);
        assert Linked(g, es, rm, w', w);
        ReachesStep(es, rm[s], Edge(rm[w'], rm[w]), k - 1);
      }
    }
  }

  /** A path along es between mapped ids is a path in g. */
  lemma {:induction false} EdgesToReach(g: CsrGraph, es: seq<Edge>, rm: seq<int>, m: map<int, int>,
                                        s: int, w: int, k: nat)
    requires WellFormed(g) && RowsMatch(g, es, rm) && IsIndexOf(m, rm) && Covers(m, es)
    requires 0 <= s < g.n && 0 <= w < g.n
    requires Reaches(es, rm[s], rm[w], k)
    ensures ReachIn(g, s, w, k)
    decreases k
  {
    if k == 0 {
      IndexRoundTrip(m, rm, s);
      IndexRoundTrip(m, rm, w);
    } else if Reaches(es, rm[s], rm[w], k - 1) {
      EdgesToReach(g, es, rm, m, s, w, k - 1);
    } else {
      var e := EdgeBack(es, rm[s], rm[w], k);
      var w' := m[e.u];
      assert rm[w'] == e.u;
      EdgesToReach(g, es, rm, m, s, w', k - 1);
      assert e == Edge(rm[w'], rm[w]);
      assert Linked(g, es, rm, w', w);
    }
  }

  /** A destination first reached in exactly k > 0 steps has an edge into it
      from one reached in k - 1. */
  lemma EdgeBack(es: seq<Edge>, a: int, b: int, k: nat) returns (e: Edge)
    requires 0 < k && Reaches(es, a, b, k) && !Reaches(es, a, b, k - 1)
    ensures e in es && e.v == b && Reaches(es, a, e.u, k - 1)
  {
    e :| e in es && e.v == b && Reaches(es, a, e.u, k - 1);
  }

  class SparseGraph {
    var values: array<int>
    var colIndices: array<int>
    var rowPtr: array<int>
    var numNodes: nat
    var numEdges: nat
    /** external -> internal */
    var idMap: map<int, int>
    /** internal -> external */
    var reverseMap: array<int>

    /** The accepted edges of the loaded file, in file order, external ids. */
    ghost var edges: seq<Edge>
    /** The edge list after translation and sorting, internal ids. */
    ghost var sortedEdges: seq<Edge>
    /** Whether a file has been loaded (the arrays are allocated). */
    ghost var loaded: bool

    /** The arrays, the maps and the counts describe the loaded edges. */
    ghost predicate Valid()
      reads this, rowPtr, colIndices, values, reverseMap
    {
      numNodes == |idMap| && reverseMap.Length == numNodes
      && numEdges == |edges| && colIndices.Length == numEdges && values.Length == numEdges
      && Consistent(edges, idMap, reverseMap[..], sortedEdges, colIndices[..], values[..], rowPtr[..], loaded)
    }

    /** The CSR arrays as the traversal reads them. */
    ghost function G(): CsrGraph
      reads this, rowPtr, colIndices
    {
      CsrGraph(numNodes, rowPtr[..], colIndices[..])
    }

    /** A loaded graph's arrays form a well-formed CSR structure whose row r
        holds the destinations of the edges leaving internal id r. */
    lemma Shape()
      requires Valid() && loaded
      ensures WellFormed(G())
      ensures forall r, k :: 0 <= r < numNodes && rowPtr[r] <= k < rowPtr[r + 1] ==> sortedEdges[k].u == r
    {
      CsrShape(sortedEdges, numNodes, rowPtr[..]);
    }

    /** Row u of a graph is a valid slice of the column array. */
    lemma RowBounds(u: int)
      requires Valid() && 0 <= u < numNodes
      ensures loaded && 0 <= rowPtr[u] <= rowPtr[u + 1] <= colIndices.Length
    {
      Shape();
    }

    /** An empty graph: no nodes, no edges, nothing allocated. */
    constructor()
      ensures Valid() && !loaded && edges == [] && idMap == map[]
      ensures numNodes == 0 && numEdges == 0
    {
      values := new int[0];
      colIndices := new int[0];
      rowPtr := new int[0];
      reverseMap := new int[0];
      numNodes := 0;
      numEdges := 0;
      idMap := map[];
      edges := [];
      sortedEdges := [];
      loaded := false;
    }

    /** Loads an edge-list file into an empty graph; None stands for a file
        that cannot be opened, which leaves the graph as it was. Pass 1
        counts the edge lines and numbers the ids in order of first
        appearance; pass 2 translates the edges to internal ids, which are
        then sorted and laid out as CSR rows. */
    method LoadFromFile(file: Option<seq<Line>>)
      requires Valid() && !loaded
      modifies this
      ensures Valid()
      ensures file.None? ==> unchanged(this)
      ensures file.Some? ==> loaded && edges == Accepted(file.value)
      ensures file.Some? ==> fresh(rowPtr) && fresh(colIndices) && fresh(values) && fresh(reverseMap)
    {
      if file.None? {
        return;
      }
      ghost var es := Accepted(file.value);
      var m, n, rp, col, vals, rm, sorted := BuildCsr(file.value);
      Install(m, n, rp, col, vals, rm, es, sorted);
    }

    /** Stores a loaded graph's arrays and counts in the fields. */
    method Install(m: map<int, int>, n: nat, rp: array<int>, col: array<int>, vals: array<int>,
                   rm: array<int>, ghost es: seq<Edge>, ghost sorted: seq<Edge>)
      requires n == |m| && rm.Length == n && col.Length == |es| && vals.Length == |es|
      requires Consistent(es, m, rm[..], sorted, col[..], vals[..], rp[..], true)
      modifies this
      ensures Valid() && loaded && edges == es
      ensures rowPtr == rp && colIndices == col && values == vals && reverseMap == rm
    {
      idMap, numNodes, numEdges := m, n, col.Length;
      rowPtr, colIndices, values, reverseMap := rp, col, vals, rm;
      edges, sortedEdges, loaded := es, sorted, true;
    }

    /** The number of distinct ids named in the file. */
    function GetNumNodes(): (r: int)
      reads this, rowPtr, colIndices, values, reverseMap
      requires Valid()
      ensures r == |Endpoints(edges)|
    {
      NodeCount(edges);
      numNodes
    }

    /** The number of edge lines in the file, duplicates and self-loops included. */
    function GetNumEdges(): (r: int)
      reads this, rowPtr, colIndices, values, reverseMap
      requires Valid()
      ensures r == |edges|
    {
      numEdges
    }

    /** The internal id of an external id, -1 for an id not in the file. */
    function GetInternalId(externalId: int): (r: int)
      reads this, rowPtr, colIndices, values, reverseMap
      requires Valid()
      ensures r == -1 <==> !IsEndpoint(edges, externalId)
      ensures r != -1 ==> 0 <= r < numNodes && NodeOrder(edges)[r] == externalId
    {
      NodeOrderMembers(edges);
      if externalId in idMap then idMap[externalId] else -1
    }

    /** The external id of an internal id, -1 outside 0..numNodes-1. */
    function GetExternalId(internalId: int): (r: int)
      reads this, rowPtr, colIndices, values, reverseMap
      requires Valid()
      ensures 0 <= internalId < numNodes ==>
                r == NodeOrder(edges)[internalId] && GetInternalId(r) == internalId
      ensures !(0 <= internalId < numNodes) ==> r == -1
    {
      if 0 <= internalId < numNodes then
        IndexRoundTrip(idMap, reverseMap[..], internalId);
        reverseMap[internalId]
      else -1
    }

    /** The length of row u: the number of edge lines leaving the node with
        internal id u (row_ptr[u + 1] - row_ptr[u]). */
    function RowLength(u: int): (r: int)
      reads this, rowPtr, colIndices, values, reverseMap
      requires Valid() && 0 <= u < numNodes
      ensures r == |Targets(edges, NodeOrder(edges)[u])|
    {
      var x := reverseMap[u];
      IndexRoundTrip(idMap, reverseMap[..], u);
      CoversOrder(idMap, edges);
      RowContents(idMap, reverseMap[..], edges, sortedEdges, colIndices[..], x, rowPtr[u], rowPtr[u + 1]);
      rowPtr[u + 1] - rowPtr[u]
    }

    /** Breadth-first search from startNodeExt, expanding only nodes found
        at depth below maxDepth: the external ids in discovery order, the
        start first; [] for an id not in the file. */
    method Bfs(startNodeExt: int, maxDepth: int) returns (visitedExt: seq<int>)
      requires Valid()
      ensures !IsEndpoint(edges, startNodeExt) ==> visitedExt == []
      ensures IsEndpoint(edges, startNodeExt) ==>
                loaded && WellFormed(G()) && startNodeExt in idMap
                && visitedExt == Externals(reverseMap[..], Explore(G(), maxDepth, Start(idMap[startNodeExt]), 0).order)
      ensures IsEndpoint(edges, startNodeExt) ==>
                0 < |visitedExt| && visitedExt[0] == startNodeExt && Distinct(visitedExt)
                && |visitedExt| <= |Endpoints(edges)|
                && (forall x :: x in visitedExt <==> Reaches(edges, startNodeExt, x, Clamp(maxDepth)))
                && (maxDepth <= 0 ==> visitedExt == [startNodeExt])
    {
      visitedExt := [];
      var startNode := GetInternalId(startNodeExt);
      if startNode == -1 {
        return;
      }
      RowBounds(startNode);
      Shape();
      IndexRoundTrip(idMap, reverseMap[..], startNode);
      visitedExt := Search(rowPtr, colIndices, reverseMap, numNodes, startNode, startNodeExt, maxDepth, G());
      BfsOutcome(startNodeExt, maxDepth, visitedExt);
    }

    /** Row u of the CSR arrays holds internal id w exactly when the file
        has an edge line from the external id of u to that of w. */
    lemma SuccEdges(u: int, w: int)
      requires Valid() && loaded && 0 <= u < numNodes && 0 <= w < numNodes
      ensures WellFormed(G())
      ensures Linked(G(), edges, reverseMap[..], u, w)
    {
      Shape();
      var rm := reverseMap[..];
      var x := rm[u];
      IndexRoundTrip(idMap, rm, u);
      IndexRoundTrip(idMap, rm, w);
      CoversOrder(idMap, edges);
      var row := colIndices[rowPtr[u]..rowPtr[u + 1]];
      RowContents(idMap, rm, edges, sortedEdges, colIndices[..], x, rowPtr[u], rowPtr[u + 1]);
      assert InRange(row, numNodes);
      ExternalsIn(idMap, rm, row);
      TargetsIn(edges, x);
      var ext := Externals(rm, row);
      assert rm[w] in ext <==> rm[w] in multiset(ext);
      assert rm[w] in Targets(edges, x) <==> rm[w] in multiset(Targets(edges, x));
    }

    /** Every row, read through the reverse map, is the file's edges. */
    lemma RowsAreEdges()
      requires Valid() && loaded
      ensures WellFormed(G()) && Covers(idMap, edges) && RowsMatch(G(), edges, reverseMap[..])
    {
      Shape();
      CoversOrder(idMap, edges);
      forall u, w | 0 <= u < numNodes && 0 <= w < numNodes
        ensures Linked(G(), edges, reverseMap[..], u, w)
      {
        SuccEdges(u, w);
      }
    }

    /** What the search returns, in the file's terms. */
    lemma BfsOutcome(startExt: int, maxDepth: int, r: seq<int>)
      requires Valid() && loaded && startExt in idMap && WellFormed(G())
      requires r == Externals(reverseMap[..], Explore(G(), maxDepth, Start(idMap[startExt]), 0).order)
      ensures 0 < |r| && r[0] == startExt && Distinct(r) && |r| <= |Endpoints(edges)|
      ensures forall x :: x in r <==> Reaches(edges, startExt, x, Clamp(maxDepth))
      ensures maxDepth <= 0 ==> r == [startExt]
    {
      var g, rm, s := G(), reverseMap[..], idMap[startExt];
      var order := Explore(g, maxDepth, Start(s), 0).order;
      BfsTheorem(g, s, maxDepth);
      RowsAreEdges();
      NodeCount(edges);
      ExternalsDistinct(idMap, rm, order);
      ExternalsIn(idMap, rm, order);
      forall x
        ensures x in r <==> Reaches(edges, startExt, x, Clamp(maxDepth))
      {
        if x in r {
          ReachToEdges(g, edges, rm, s, idMap[x], Clamp(maxDepth));
        }
        if Reaches(edges, startExt, x, Clamp(maxDepth)) {
          ReachesKnown(edges, startExt, x, Clamp(maxDepth));
          EdgesToReach(g, edges, rm, idMap, s, idMap[x], Clamp(maxDepth));
        }
      }
    }

    /** The out-degree of an external id: the number of edge lines with that
        source; 0 for an id not in the file. */
    function GetDegree(nodeExt: int): (r: int)
      reads this, rowPtr, colIndices, values, reverseMap
      requires Valid()
      ensures r == |Targets(edges, nodeExt)|
    {
      var u := GetInternalId(nodeExt);
      if u == -1 then
        TargetsNone(edges, nodeExt);
        0
      else RowLength(u)
    }

    /** The destinations of the edge lines leaving nodeExt, as external ids:
        duplicates kept, in ascending order of internal id; [] for an id not
        in the file. */
    method GetNeighbors(nodeExt: int) returns (neighbors: seq<int>)
      requires Valid()
      ensures multiset(neighbors) == multiset(Targets(edges, nodeExt))
      ensures |neighbors| == |Targets(edges, nodeExt)|
      ensures forall k :: 0 <= k < |neighbors| ==> neighbors[k] in idMap
      ensures forall k, k' :: 0 <= k < k' < |neighbors| ==> idMap[neighbors[k]] <= idMap[neighbors[k']]
    {
      neighbors := [];
      var u := GetInternalId(nodeExt);
      if u == -1 {
        TargetsNone(edges, nodeExt);
        return;
      }
      neighbors := RowExternals(nodeExt, u);
    }

    /** The contract of GetNeighbors leaves one possible result: two lists
        of the neighbours of x, both ascending by internal id, are equal. */
    lemma NeighborsDetermined(nodeExt: int, ns: seq<int>, ns': seq<int>)
      requires Valid()
      requires multiset(ns) == multiset(Targets(edges, nodeExt)) && KeySorted(idMap, ns)
      requires multiset(ns') == multiset(Targets(edges, nodeExt)) && KeySorted(idMap, ns')
      ensures ns == ns'
    {
      forall x, y | x in idMap && y in idMap && idMap[x] == idMap[y]
        ensures x == y
      {
        assert reverseMap[..][idMap[x]] == x && reverseMap[..][idMap[y]] == y;
      }
      KeySortedUnique(idMap, ns, ns');
    }

    /** The columns of row u, read off in order and mapped to external ids:
        the neighbours of x, the node with internal id u. */
    method RowExternals(x: int, u: int) returns (neighbors: seq<int>)
      requires Valid() && x in idMap && idMap[x] == u && 0 <= u < numNodes
      ensures multiset(neighbors) == multiset(Targets(edges, x)) && |neighbors| == |Targets(edges, x)|
      ensures forall k :: 0 <= k < |neighbors| ==> neighbors[k] in idMap
      ensures forall k, k' :: 0 <= k < k' < |neighbors| ==> idMap[neighbors[k]] <= idMap[neighbors[k']]
    {
      RowBounds(u);
      var startIdx := rowPtr[u];
      var endIdx := rowPtr[u + 1];
      ghost var rm, cs := reverseMap[..], colIndices[..];
      assert rm == NodeOrder(edges) && |rm| == numNodes;
      neighbors := [];
      for i := startIdx to endIdx
        invariant neighbors == Externals(rm, cs[startIdx..i])
      {
        var w := GetExternalId(colIndices[i]);
        assert w == ExtOf(rm, cs[i]);
        ExternalsSnoc(rm, cs[startIdx..i], cs[i]);
        assert cs[startIdx..i + 1] == cs[startIdx..i] + [cs[i]];
        neighbors := neighbors + [w];
      }
      ConsistentRow(edges, idMap, rm, sortedEdges, cs, values[..], rowPtr[..], x, neighbors);
    }

    /** The external id of the node with the largest out-degree, the one
        with the lowest internal id (first seen in the file) among equals;
        -1 for an empty graph. */
    method GetMaxDegreeNode() returns (r: int)
      requires Valid()
      ensures numNodes == 0 ==> r == -1
      ensures numNodes > 0 ==> IsEndpoint(edges, r)
      ensures forall y :: IsEndpoint(edges, y) ==> GetDegree(y) <= GetDegree(r)
      ensures forall y :: IsEndpoint(edges, y) && GetInternalId(y) < GetInternalId(r) ==>
                GetDegree(y) < GetDegree(r)
    {
      var maxDeg := -1;
      var maxNode := -1;
      for i := 0 to numNodes
        invariant i == 0 ==> maxNode == -1 && maxDeg == -1
        invariant i > 0 ==> 0 <= maxNode < i && maxDeg == RowLength(maxNode)
        invariant forall j :: 0 <= j < i ==> RowLength(j) <= maxDeg
        invariant forall j :: 0 <= j < maxNode ==> RowLength(j) < maxDeg
      {
        var deg := RowLength(i);
        if deg > maxDeg {
          maxDeg := deg;
          maxNode := i;
        }
      }
      r := GetExternalId(maxNode);
      forall y | IsEndpoint(edges, y)
        ensures GetDegree(y) <= GetDegree(r)
        ensures GetInternalId(y) < GetInternalId(r) ==> GetDegree(y) < GetDegree(r)
      {
        var j := GetInternalId(y);
        assert GetDegree(y) == RowLength(j);
        assert GetDegree(r) == maxDeg;
      }
    }
  }

  /** The array work of the loader, on fresh arrays: the edge list in
      internal ids, sorted, laid out as CSR rows. */
  method BuildCsr(lines: seq<Line>)
    returns (m: map<int, int>, n: nat, rp: array<int>, col: array<int>, vals: array<int>,
             rm: array<int>, ghost sorted: seq<Edge>)
    ensures fresh(rp) && fresh(col) && fresh(vals) && fresh(rm)
    ensures n == |m| && rm.Length == n && col.Length == |Accepted(lines)| && vals.Length == |Accepted(lines)|
    ensures Consistent(Accepted(lines), m, rm[..], sorted, col[..], vals[..], rp[..], true)
  {
    var edgeList;
    m, n, rm, edgeList := SortedEdgeList(lines);
    rp := new int[n + 1];
    col := new int[edgeList.Length];
    vals := new int[edgeList.Length];
    AssembleCsr(edgeList, n, rp, col, vals);
    sorted := edgeList[..];
  }

  /** Pass 1 numbers the ids, the reverse map is filled from the map, pass 2
      translates the edges, which are then sorted. */
  method SortedEdgeList(lines: seq<Line>) returns (m: map<int, int>, n: nat, rm: array<int>, el: array<Edge>)
    ensures fresh(rm) && fresh(el)
    ensures n == |m| && rm[..] == NodeOrder(Accepted(lines)) && IsIndexOf(m, rm[..])
    ensures el.Length == |Accepted(lines)| && Sorted(el[..]) && EdgesInRange(el[..], n)
    ensures multiset(el[..]) == multiset(Translate(m, Accepted(lines)))
  {
    ghost var es := Accepted(lines);
    var edgeCount;
    m, edgeCount := NumberIds(lines);
    CoversOrder(m, es);
    n := |m|;
    rm := new int[n];
    FillReverseMap(m, NodeOrder(es), rm);
    el := SortedTranslation(lines, m, edgeCount, NodeOrder(es));
  }

  /** Pass 2 of the loader and the sort: the edge lines with both endpoints
      replaced by their internal ids, sorted by (source, target). */
  method SortedTranslation(lines: seq<Line>, m: map<int, int>, edgeCount: nat, ghost order: seq<int>)
    returns (el: array<Edge>)
    requires IsIndexOf(m, order) && Covers(m, Accepted(lines)) && edgeCount == |Accepted(lines)|
    ensures fresh(el)
    ensures el.Length == |Accepted(lines)| && Sorted(el[..]) && EdgesInRange(el[..], |order|)
    ensures multiset(el[..]) == multiset(Translate(m, Accepted(lines)))
  {
    el := new Edge[edgeCount];
    TranslateLines(lines, m, el);
    TranslateInRange(m, order, Accepted(lines));
    SortEdges(el);
    InRangePerm(Translate(m, Accepted(lines)), el[..], |order|);
  }

  /** The external ids of a slice of columns, position by position. */
  lemma ExternalsSlice(rm: seq<int>, cs: seq<int>, a: int, b: int, xs: seq<int>)
    requires 0 <= a <= b <= |cs| && xs == Externals(rm, cs[a..b])
    ensures |xs| == b - a && forall k :: 0 <= k < |xs| ==> xs[k] == ExtOf(rm, cs[a + k])
  {
    forall k | 0 <= k < |xs| ensures xs[k] == ExtOf(rm, cs[a + k]) {
      assert cs[a..b][k] == cs[a + k];
    }
  }

  /** The arrays of bfs read as values: the queue holds the nodes q at
      depths qd, vis marks exactly the queued nodes, and ext lists their
      external ids in queue order. */
  ghost predicate QueueState(g: CsrGraph, q: seq<int>, qd: seq<int>, vis: seq<bool>, ext: seq<int>, rm: seq<int>)
  {
    WellFormed(g) && |q| == |qd| && |q| <= g.n && Partial(g, Frontier(q, qd))
    && |vis| == g.n && (forall x :: 0 <= x < g.n ==> (vis[x] <==> x in q))
    && ext == Externals(rm, q)
  }

  /** Halfway through offering succ from the frontier f: the queue is what
      offering the first i neighbours gives. */
  ghost predicate RowScan(g: CsrGraph, f: Frontier, succ: seq<int>, i: int, d: int,
                          q: seq<int>, qd: seq<int>, vis: seq<bool>, ext: seq<int>, rm: seq<int>)
  {
    QueueState(g, q, qd, vis, ext, rm) && Partial(g, f) && 0 <= i <= |succ|
    && Frontier(q, qd) == Visit(f, succ[..i], d)
  }

  /** The outer loop of bfs at queue position head: exploring the rest of
      the queue gives the same result as the whole search from s. */
  ghost predicate SearchState(g: CsrGraph, maxDepth: int, target: Frontier, head: int,
                              q: seq<int>, qd: seq<int>, vis: seq<bool>, ext: seq<int>, rm: seq<int>)
  {
    QueueState(g, q, qd, vis, ext, rm) && Pending(g, maxDepth, target, head, q, qd)
  }

  /** The part of SearchState that is about the queue alone: exploring the
      rest of the queue from head gives target. */
  ghost predicate Pending(g: CsrGraph, maxDepth: int, target: Frontier, head: int, q: seq<int>, qd: seq<int>)
  {
    WellFormed(g) && Partial(g, Frontier(q, qd)) && 0 <= head <= |q|
    && Explore(g, maxDepth, Frontier(q, qd), head) == target
  }

  /** Offering one more neighbour: a visited one leaves the state alone, an
      unvisited one is marked, recorded and enqueued at depth d, and there
      is room for it in the queue. */
  lemma OfferStep(g: CsrGraph, f: Frontier, succ: seq<int>, i: int, d: int,
                  q: seq<int>, qd: seq<int>, vis: seq<bool>, ext: seq<int>, rm: seq<int>)
    returns (q': seq<int>, qd': seq<int>, vis': seq<bool>, ext': seq<int>)
    requires RowScan(g, f, succ, i, d, q, qd, vis, ext, rm) && i < |succ| && InRange(succ, g.n)
    ensures 0 <= succ[i] < g.n
    ensures RowScan(g, f, succ, i + 1, d, q', qd', vis', ext', rm)
    ensures vis[succ[i]] ==> q' == q && qd' == qd && vis' == vis && ext' == ext
    ensures !vis[succ[i]] ==>
              |q| < g.n && q' == q + [succ[i]] && qd' == qd + [d] && vis' == vis[succ[i] := true]
              && ext' == ext + [ExtOf(rm, succ[i])]
  {
    var v := succ[i];
    VisitSnoc(f, succ, i, d);
    if vis[v] {
      q', qd', vis', ext' := q, qd, vis, ext;
    } else {
      DistinctRoom(q, v, g.n);
      ExternalsSnoc(rm, q, v);
      q', qd', vis', ext' := q + [v], qd + [d], vis[v := true], ext + [ExtOf(rm, v)];
      assert Partial(g, Frontier(q', qd')) by {
        assert forall k :: 0 <= k < |q'| ==> 0 <= q'[k] < g.n by {
          forall k | 0 <= k < |q'| ensures 0 <= q'[k] < g.n {
            if k < |q| { assert q'[k] == q[k]; }
          }
        }
      }
      forall x | 0 <= x < g.n ensures vis'[x] <==> x in q' {
        assert x in q' <==> x in q || x == v;
      }
    }
  }

  /** The first entry of the queue, with vis marking exactly that node. */
  lemma SearchStart(g: CsrGraph, maxDepth: int, s: int, vis: seq<bool>, rm: seq<int>)
    requires WellFormed(g) && 0 <= s < g.n && |vis| == g.n
    requires forall x :: 0 <= x < g.n ==> (vis[x] <==> x == s)
    ensures SearchState(g, maxDepth, Explore(g, maxDepth, Start(s), 0), 0, [s], [0], vis, [ExtOf(rm, s)], rm)
  {
    assert Frontier([s], [0]) == Start(s);
  }

  /** A dequeued entry at the depth bound or beyond is not expanded. */
  lemma SearchSkip(g: CsrGraph, maxDepth: int, target: Frontier, head: int, q: seq<int>, qd: seq<int>)
    requires Pending(g, maxDepth, target, head, q, qd) && head < |q| && qd[head] >= maxDepth
    ensures Pending(g, maxDepth, target, head + 1, q, qd)
    ensures Step(g, maxDepth, Frontier(q, qd), head) == Frontier(q, qd)
  {
    ExploreUnfold(g, maxDepth, Frontier(q, qd), head);
  }

  /** A dequeued entry below the depth bound, once all its out-neighbours
      have been offered at the next depth, moves the search one entry on. */
  lemma SearchExpand(g: CsrGraph, maxDepth: int, target: Frontier, head: int, q: seq<int>, qd: seq<int>,
                     f: Frontier, succ: seq<int>, d: int, q': seq<int>, qd': seq<int>)
    requires Pending(g, maxDepth, target, head, q, qd) && head < |q| && qd[head] < maxDepth
    requires f == Frontier(q, qd) && succ == Succ(g, q[head]) && d == qd[head] + 1
    requires Partial(g, Frontier(q', qd')) && Frontier(q', qd') == Visit(f, succ[..|succ|], d)
    ensures Pending(g, maxDepth, target, head + 1, q', qd')
    ensures Step(g, maxDepth, f, head) == Frontier(q', qd')
  {
    assert succ[..|succ|] == succ;
    StepVisit(g, maxDepth, f, head, Frontier(q', qd'));
    ExploreUnfold(g, maxDepth, f, head);
  }

  /** Row u of g is a slice of its column array. */
  lemma RowSpan(g: CsrGraph, u: int)
    requires WellFormed(g) && 0 <= u < g.n
    ensures 0 <= g.rowPtr[u] <= g.rowPtr[u + 1] <= |g.col|
  {
  }

  /** Once the whole queue has been dequeued, it holds the search from s
      and ext its external ids. */
  lemma SearchDone(g: CsrGraph, maxDepth: int, target: Frontier,
                   q: seq<int>, qd: seq<int>, vis: seq<bool>, ext: seq<int>, rm: seq<int>)
    requires SearchState(g, maxDepth, target, |q|, q, qd, vis, ext, rm)
    ensures ext == Externals(rm, target.order)
  {
    assert Explore(g, maxDepth, Frontier(q, qd), |q|) == Frontier(q, qd);
  }

  /** The search loop of bfs over the CSR arrays of g: a FIFO queue of
      (node, depth) pairs in two arrays, a visited array, and the external
      ids in discovery order. */
  method Search(rowPtr: array<int>, col: array<int>, rm: array<int>, n: nat,
                start: int, startExt: int, maxDepth: int, ghost g: CsrGraph)
    returns (visitedExt: seq<int>)
    requires g == CsrGraph(n, rowPtr[..], col[..]) && WellFormed(g)
    requires rm.Length == n && 0 <= start < n && rm[start] == startExt
    ensures visitedExt == Externals(rm[..], Explore(g, maxDepth, Start(start), 0).order)
  {
    var queueNodes := new int[n];
    var queueDepths := new int[n];
    var head := 0;
    var tail := 0;
    var visited := new bool[n](_ => false);

    queueNodes[tail] := start;
    queueDepths[tail] := 0;
    tail := tail + 1;
    visited[start] := true;
    visitedExt := [startExt];
    ghost var rs := rm[..];
    ghost var q, qd, vis := [start], [0], visited[..];
    SearchStart(g, maxDepth, start, vis, rs);
    ghost var target := Explore(g, maxDepth, Start(start), 0);
    assert queueNodes[..tail] == q && queueDepths[..tail] == qd;

    while head < tail
      invariant tail <= n
      invariant queueNodes[..tail] == q && queueDepths[..tail] == qd && visited[..] == vis
      invariant SearchState(g, maxDepth, target, head, q, qd, vis, visitedExt, rs)
      decreases n - tail, tail - head
    {
      ghost var tail0 := tail;
      head, tail, visitedExt, q, qd, vis := Turn(rowPtr, col, rm, rs, n, target, maxDepth, head,
                                                 queueNodes, queueDepths, visited, tail, visitedExt, g, q, qd, vis);
      assert tail0 <= tail;
    }
    SearchDone(g, maxDepth, target, q, qd, vis, visitedExt, rs);
  }

  /** One turn of the outer loop of bfs: dequeues the entry at head and,
      below the depth bound, offers its out-neighbours. */
  method Turn(rowPtr: array<int>, col: array<int>, rm: array<int>, ghost rs: seq<int>, n: nat,
              ghost target: Frontier, maxDepth: int, head0: nat,
              queueNodes: array<int>, queueDepths: array<int>, visited: array<bool>,
              tail0: nat, ext0: seq<int>, ghost g: CsrGraph, ghost q: seq<int>, ghost qd: seq<int>, ghost vis: seq<bool>)
    returns (head: nat, tail: nat, visitedExt: seq<int>, ghost q': seq<int>, ghost qd': seq<int>, ghost vis': seq<bool>)
    requires queueNodes != col && queueNodes != rm && queueDepths != col && queueDepths != rm
    requires queueNodes != queueDepths
    requires g == CsrGraph(n, rowPtr[..], col[..]) && rm.Length == n && rs == rm[..]
    requires queueNodes.Length == n && queueDepths.Length == n
    requires head0 < tail0 <= n && queueNodes[..tail0] == q && queueDepths[..tail0] == qd && visited[..] == vis
    requires SearchState(g, maxDepth, target, head0, q, qd, vis, ext0, rs)
    modifies queueNodes, queueDepths, visited
    ensures head == head0 + 1 && tail0 <= tail <= n
    ensures queueNodes[..tail] == q' && queueDepths[..tail] == qd' && visited[..] == vis'
    ensures SearchState(g, maxDepth, target, head, q', qd', vis', visitedExt, rs)
    ensures Frontier(q', qd') == Step(g, maxDepth, Frontier(q, qd), head0)
  {
    var u := queueNodes[head0];
    var d := queueDepths[head0];
    assert u == q[head0] && d == qd[head0];
    head := head0 + 1;
    if d >= maxDepth {
      SearchSkip(g, maxDepth, target, head0, q, qd);
      tail, visitedExt, q', qd', vis' := tail0, ext0, q, qd, vis;
      return;
    }
    tail, visitedExt, q', qd', vis' := Expand(rowPtr, col, rm, rs, n, u, d, queueNodes, queueDepths, visited,
                                              tail0, ext0, g, q, qd, vis);
    SearchExpand(g, maxDepth, target, head0, q, qd, Frontier(q, qd), Succ(g, u), d + 1, q', qd');
  }

  /** One turn of the outer loop of bfs for a dequeued entry (u, d) below
      the depth bound: offers the out-neighbours of u at depth d + 1. */
  method Expand(rowPtr: array<int>, col: array<int>, rm: array<int>, ghost rs: seq<int>, n: nat, u: int, d: int,
                queueNodes: array<int>, queueDepths: array<int>, visited: array<bool>,
                tail0: nat, ext0: seq<int>, ghost g: CsrGraph, ghost q: seq<int>, ghost qd: seq<int>, ghost vis: seq<bool>)
    returns (tail: nat, visitedExt: seq<int>, ghost q': seq<int>, ghost qd': seq<int>, ghost vis': seq<bool>)
    requires queueNodes != col && queueNodes != rm && queueDepths != col && queueDepths != rm
    requires queueNodes != queueDepths
    requires g == CsrGraph(n, rowPtr[..], col[..]) && rm.Length == n && rs == rm[..]
    requires queueNodes.Length == n && queueDepths.Length == n
    requires tail0 <= n && queueNodes[..tail0] == q && queueDepths[..tail0] == qd && visited[..] == vis
    requires QueueState(g, q, qd, vis, ext0, rs) && 0 <= u < n
    modifies queueNodes, queueDepths, visited
    ensures tail0 <= tail <= n && queueNodes[..tail] == q' && queueDepths[..tail] == qd' && visited[..] == vis'
    ensures RowScan(g, Frontier(q, qd), Succ(g, u), |Succ(g, u)|, d + 1, q', qd', vis', visitedExt, rs)
  {
    RowSpan(g, u);
    var startIdx := rowPtr[u];
    var endIdx := rowPtr[u + 1];
    ghost var succ := Succ(g, u);
    assert col[startIdx..endIdx] == succ;
    assert succ[..0] == [];
    tail, visitedExt := OfferRow(col, rm, rs, n, startIdx, endIdx, d + 1, queueNodes, queueDepths, visited,
                                 tail0, ext0, g, Frontier(q, qd), succ);
    q', qd', vis' := queueNodes[..tail], queueDepths[..tail], visited[..];
  }

  /** The inner loop of bfs: offers the columns startIdx..endIdx in turn;
      each node not yet visited is marked, recorded by its external id and
      enqueued at depth d. */
  method OfferRow(col: array<int>, rm: array<int>, ghost rs: seq<int>, n: nat, startIdx: int, endIdx: int, d: int,
                  queueNodes: array<int>, queueDepths: array<int>, visited: array<bool>,
                  tail0: nat, ext0: seq<int>, ghost g: CsrGraph, ghost f: Frontier, ghost succ: seq<int>)
    returns (tail: nat, visitedExt: seq<int>)
    requires queueNodes != col && queueNodes != rm && queueDepths != col && queueDepths != rm
    requires queueNodes != queueDepths
    requires g.n == n && rm.Length == n && rs == rm[..] && queueNodes.Length == n && queueDepths.Length == n && tail0 <= n
    requires 0 <= startIdx <= endIdx <= col.Length && succ == col[startIdx..endIdx] && InRange(succ, n)
    requires RowScan(g, f, succ, 0, d, queueNodes[..tail0], queueDepths[..tail0], visited[..], ext0, rs)
    modifies queueNodes, queueDepths, visited
    ensures tail0 <= tail <= n
    ensures RowScan(g, f, succ, |succ|, d, queueNodes[..tail], queueDepths[..tail], visited[..], visitedExt, rs)
  {
    tail, visitedExt := tail0, ext0;
    ghost var q, qd, vis := queueNodes[..tail0], queueDepths[..tail0], visited[..];
    for i := startIdx to endIdx
      invariant tail0 <= tail <= n
      invariant queueNodes[..tail] == q && queueDepths[..tail] == qd && visited[..] == vis
      invariant RowScan(g, f, succ, i - startIdx, d, q, qd, vis, visitedExt, rs)
    {
      tail, visitedExt, q, qd, vis := OfferColumn(col, rm, rs, n, startIdx, endIdx, i, d, queueNodes, queueDepths, visited,
                                                  tail, visitedExt, g, f, succ, q, qd, vis);
    }
  }

  /** One turn of the inner loop of bfs: offers the node in column i. */
  method OfferColumn(col: array<int>, rm: array<int>, ghost rs: seq<int>, n: nat, startIdx: int, endIdx: int,
                     i: int, d: int, queueNodes: array<int>, queueDepths: array<int>, visited: array<bool>,
                     tail0: nat, ext0: seq<int>, ghost g: CsrGraph, ghost f: Frontier, ghost succ: seq<int>,
                     ghost q: seq<int>, ghost qd: seq<int>, ghost vis: seq<bool>)
    returns (tail: nat, visitedExt: seq<int>, ghost q': seq<int>, ghost qd': seq<int>, ghost vis': seq<bool>)
    requires queueNodes != rm && queueDepths != rm && queueNodes != queueDepths
    requires g.n == n && rm.Length == n && rs == rm[..] && queueNodes.Length == n && queueDepths.Length == n
    requires 0 <= startIdx <= i < endIdx <= col.Length && succ == col[startIdx..endIdx] && InRange(succ, n)
    requires tail0 <= n && queueNodes[..tail0] == q && queueDepths[..tail0] == qd && visited[..] == vis
    requires RowScan(g, f, succ, i - startIdx, d, q, qd, vis, ext0, rs)
    modifies queueNodes, queueDepths, visited
    ensures tail0 <= tail <= n && queueNodes[..tail] == q' && queueDepths[..tail] == qd' && visited[..] == vis'
    ensures RowScan(g, f, succ, i + 1 - startIdx, d, q', qd', vis', visitedExt, rs)
  {
    ghost var k := i - startIdx;
    ghost var ext';
    q', qd', vis', ext' := OfferStep(g, f, succ, k, d, q, qd, vis, ext0, rs);
    var v := col[i];
    assert v == succ[k];
    assert visited[v] == vis[v];
    tail, visitedExt := tail0, ext0;
    if !visited[v] {
      tail, visitedExt := Enqueue(rm, rs, v, d, queueNodes, queueDepths, visited, tail, visitedExt);
    }
    assert k + 1 == i + 1 - startIdx;
  }

  /** Marks v visited, records its external id and appends it to the queue
      at depth d. */
  method Enqueue(rm: array<int>, ghost rs: seq<int>, v: int, d: int,
                 queueNodes: array<int>, queueDepths: array<int>, visited: array<bool>,
                 tail0: nat, ext0: seq<int>)
    returns (tail: nat, visitedExt: seq<int>)
    requires queueNodes != rm && queueDepths != rm && queueNodes != queueDepths && rs == rm[..]
    requires tail0 < queueNodes.Length && tail0 < queueDepths.Length && 0 <= v < visited.Length && v < rm.Length
    modifies queueNodes, queueDepths, visited
    ensures tail == tail0 + 1 && visitedExt == ext0 + [ExtOf(rs, v)]
    ensures queueNodes[..tail] == old(queueNodes[..tail0]) + [v]
    ensures queueDepths[..tail] == old(queueDepths[..tail0]) + [d]
    ensures visited[..] == old(visited[..])[v := true]
  {
    visited[v] := true;
    visitedExt := ext0 + [rm[v]];
    queueNodes[tail0] := v;
    queueDepths[tail0] := d;
    tail := tail0 + 1;
    assert queueNodes[..tail] == old(queueNodes[..tail0]) + [v];
  }

  /** What reading line i adds to the edges accepted so far. */
  lemma AcceptedStep(lines: seq<Line>, i: int, m: map<int, int>)
    requires 0 <= i < |lines| && Covers(m, Accepted(lines))
    ensures |Accepted(lines[..i])| <= |Accepted(lines[..i + 1])| <= |Accepted(lines)|
    ensures IsEdgeLine(lines[i]) ==>
              Accepted(lines[..i + 1]) == Accepted(lines[..i]) + [lines[i].extracted.value]
              && lines[i].extracted.value.u in m && lines[i].extracted.value.v in m
    ensures !IsEdgeLine(lines[i]) ==> Accepted(lines[..i + 1]) == Accepted(lines[..i])
  {
    var es, pre, next := Accepted(lines), Accepted(lines[..i]), Accepted(lines[..i + 1]);
    AcceptedSnoc(lines, i);
    AcceptedPrefix(lines, i + 1);
    assert |pre| <= |next| <= |es|;
    if IsEdgeLine(lines[i]) {
      var x := lines[i].extracted.value;
      assert next[|pre|] == x;
      assert es[..|next|][|pre|] == es[|pre|];
      assert es[|pre|] in es;
    }
  }

  /** Pass 1 of the loader: the number of edge lines, and the map giving
      each id its position in order of first appearance. */
  method NumberIds(lines: seq<Line>) returns (m: map<int, int>, edgeCount: nat)
    ensures edgeCount == |Accepted(lines)|
    ensures IsIndexOf(m, NodeOrder(Accepted(lines)))
  {
    m := map[];
    edgeCount := 0;
    ghost var es: seq<Edge> := [];
    for i := 0 to |lines|
      invariant es == Accepted(lines[..i])
      invariant edgeCount == |es|
      invariant IsIndexOf(m, NodeOrder(es))
    {
      AcceptedSnoc(lines, i);
      var line := lines[i];
      if IsComment(line) {
        continue;
      }
      if line.extracted.Some? {
        var u, v := line.extracted.value.u, line.extracted.value.v;
        NumberEdge(m, es, Edge(u, v));
        ghost var next := Number(Number(m, u), v);
        edgeCount := edgeCount + 1;
        if u !in m {
          var newId := |m|;
          m := m[u := newId];
        }
        if v !in m {
          var newId := |m|;
          m := m[v := newId];
        }
        assert m == next;
        es := es + [Edge(u, v)];
      }
    }
    assert lines[..|lines|] == lines;
  }

  /** The reverse map, filled key by key: each key writes its own slot. */
  method FillReverseMap(m: map<int, int>, ghost order: seq<int>, rm: array<int>)
    requires IsIndexOf(m, order) && rm.Length == |order|
    modifies rm
    ensures rm[..] == order
  {
    var remaining := m.Keys;
    while remaining != {}
      invariant remaining <= m.Keys
      invariant forall x :: x in m && x !in remaining ==> rm[m[x]] == x
      decreases |remaining|
    {
      if forall x :: x !in remaining {
        assert false;
      }
      var key :| key in remaining;
      rm[m[key]] := key;
      remaining := remaining - {key};
    }
    forall i | 0 <= i < rm.Length
      ensures rm[i] == order[i]
    {
      IndexRoundTrip(m, order, i);
    }
  }

  /** Pass 2 of the loader: the edge lines again, with both ends replaced by
      their internal ids. */
  method TranslateLines(lines: seq<Line>, m: map<int, int>, el: array<Edge>)
    requires Covers(m, Accepted(lines)) && el.Length == |Accepted(lines)|
    modifies el
    ensures el[..] == Translate(m, Accepted(lines))
  {
    ghost var pre: seq<Edge> := [];
    var idx := 0;
    for i := 0 to |lines|
      invariant pre == Accepted(lines[..i]) && idx == |pre| <= el.Length
      invariant el[..idx] == Translate(m, pre)
    {
      AcceptedStep(lines, i, m);
      var line := lines[i];
      if IsComment(line) {
        continue;
      }
      if line.extracted.Some? {
        var u, v := line.extracted.value.u, line.extracted.value.v;
        TranslateSnoc(m, pre, Edge(u, v));
        pre := pre + [Edge(u, v)];
        el[idx] := Edge(m[u], m[v]);
        idx := idx + 1;
        assert el[..idx] == el[..idx - 1] + [el[idx - 1]];
      }
    }
    assert lines[..|lines|] == lines;
    assert el[..] == el[..idx];
  }

}
