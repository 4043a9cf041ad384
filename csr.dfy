/** The CSR builder: the translated edges are sorted by (source, destination)
    and walked once to fill the row offsets, the column indices and the
    placeholder values. */
module Csr {
  import opened Input
  import opened IdMapping

  /** a is not after b in the order of Edge::operator<. */
  predicate EdgeLe(a: Edge, b: Edge)
  {
    a.u < b.u || (a.u == b.u && a.v <= b.v)
  }

  predicate Sorted(s: seq<Edge>)
  {
    forall i, j :: 0 <= i < j < |s| ==> EdgeLe(s[i], s[j])
  }

  predicate EdgesInRange(s: seq<Edge>, n: int)
  {
    forall k :: 0 <= k < |s| ==> 0 <= s[k].u < n && 0 <= s[k].v < n
  }

  /** Reordering the edges keeps them in range. */
  lemma InRangePerm(a: seq<Edge>, b: seq<Edge>, n: int)
    requires EdgesInRange(a, n) && multiset(a) == multiset(b)
    ensures EdgesInRange(b, n)
  {
    forall k | 0 <= k < |b|
      ensures 0 <= b[k].u < n && 0 <= b[k].v < n
    {
      assert b[k] in multiset(b);
      assert b[k] in a;
      var j :| 0 <= j < |a| && a[j] == b[k];
    }
  }

  /** Sorts the edge list in place (stands in for std::sort). */
  method SortEdges(a: array<Edge>)
    modifies a
    ensures Sorted(a[..])
    ensures multiset(a[..]) == old(multiset(a[..]))
  {
    for i := 0 to a.Length
      invariant forall p, q :: 0 <= p < q < i ==> EdgeLe(a[p], a[q])
      invariant multiset(a[..]) == old(multiset(a[..]))
    {
      InsertEdge(a, i);
    }
  }

  /** Moves a[i] down into the sorted prefix a[..i]. */
  method InsertEdge(a: array<Edge>, i: int)
    requires 0 <= i < a.Length
    requires forall p, q :: 0 <= p < q < i ==> EdgeLe(a[p], a[q])
    modifies a
    ensures forall p, q :: 0 <= p < q <= i ==> EdgeLe(a[p], a[q])
    ensures multiset(a[..]) == old(multiset(a[..]))
    ensures forall k :: i < k < a.Length ==> a[k] == old(a[k])
  {
    var j := i;
    while j > 0 && !EdgeLe(a[j - 1], a[j])
      invariant 0 <= j <= i && Inserting(a[..], i, j)
      invariant multiset(a[..]) == old(multiset(a[..]))
      invariant forall k :: i < k < a.Length ==> a[k] == old(a[k])
    {
      ghost var s := a[..];
      a[j - 1], a[j] := a[j], a[j - 1];
      SwapDown(s, a[..], i, j);
      j := j - 1;
    }
    InsertDone(a[..], i, j);
  }

  /** The state of the insertion at position j: the prefix up to i is
      sorted apart from a[j], and a[j] is below everything after it. */
  ghost predicate Inserting(s: seq<Edge>, i: int, j: int)
    requires 0 <= j <= i < |s|
  {
    (forall p, q :: 0 <= p < q <= i && p != j && q != j ==> EdgeLe(s[p], s[q]))
    && (forall q :: j < q <= i ==> EdgeLe(s[j], s[q]))
  }

  /** Swapping a[j] with a larger a[j - 1] moves the insertion one place down,
      keeps the multiset and touches nothing after i. */
  lemma SwapDown(s: seq<Edge>, t: seq<Edge>, i: int, j: int)
    requires 0 < j <= i < |s| && Inserting(s, i, j) && !EdgeLe(s[j - 1], s[j])
    requires t == s[j - 1 := s[j]][j := s[j - 1]]
    ensures Inserting(t, i, j - 1) && multiset(t) == multiset(s)
    ensures forall k :: i < k < |s| ==> t[k] == s[k]
  {
    assert s == s[..j - 1] + [s[j - 1], s[j]] + s[j + 1..];
    assert t == s[..j - 1] + [s[j], s[j - 1]] + s[j + 1..];
  }

  /** The insertion stops at the front or below a smaller element: the
      prefix up to i is sorted. */
  lemma InsertDone(s: seq<Edge>, i: int, j: int)
    requires 0 <= j <= i < |s| && Inserting(s, i, j)
    requires j > 0 ==> EdgeLe(s[j - 1], s[j])
    ensures forall p, q :: 0 <= p < q <= i ==> EdgeLe(s[p], s[q])
  {
  }

  /** Sorting is determined by its input: two sorted arrangements of the same
      edges are equal, so any correct sort yields the same CSR arrays. */
  lemma {:induction false} SortedUnique(a: seq<Edge>, b: seq<Edge>)
    requires Sorted(a) && Sorted(b) && multiset(a) == multiset(b)
    ensures a == b
    decreases |a|
  {
    assert |a| == |multiset(a)| == |multiset(b)| == |b|;
    if a != [] {
      assert a[0] in multiset(b);
      var j :| 0 <= j < |b| && b[j] == a[0];
      assert b[0] in multiset(a);
      var i :| 0 <= i < |a| && a[i] == b[0];
      assert EdgeLe(b[0], b[j]) && EdgeLe(a[0], a[i]);
      assert a[0] == b[0];
      assert a == [a[0]] + a[1..];
      assert b == [b[0]] + b[1..];
      assert multiset(a[1..]) == multiset(a) - multiset{a[0]};
      assert multiset(b[1..]) == multiset(b) - multiset{b[0]};
      SortedUnique(a[1..], b[1..]);
    }
  }

  /** p is where row r starts in the sorted list el: the edges before p have
      a smaller source and those from p on do not. */
  predicate RowBoundary(el: seq<Edge>, r: int, p: int)
  {
    0 <= p <= |el|
    && (forall k :: 0 <= k < p ==> el[k].u < r)
    && (forall k :: p <= k < |el| ==> r <= el[k].u)
  }

  /** Row starts never decrease: row r + 1 starts no earlier than row r. */
  lemma BoundaryMono(el: seq<Edge>, r: int, p: int, q: int)
    requires RowBoundary(el, r, p) && RowBoundary(el, r + 1, q)
    ensures p <= q
  {
    if q < |el| {
      assert r + 1 <= el[q].u;
    }
  }

  /** A row start is determined by the list and the row. */
  lemma BoundaryUnique(el: seq<Edge>, r: int, p: int, q: int)
    requires RowBoundary(el, r, p) && RowBoundary(el, r, q)
    ensures p == q
  {
    if p < |el| {
      assert r <= el[p].u;
    }
    if q < |el| {
      assert r <= el[q].u;
    }
  }

  /** The shape of the row offsets: 0 first, E last, non-decreasing, and each
      row's range holds exactly the edges with that source, in ascending
      destination order. */
  lemma CsrShape(el: seq<Edge>, n: nat, rp: seq<int>)
    requires Sorted(el) && EdgesInRange(el, n) && |rp| == n + 1
    requires forall r :: 0 <= r <= n ==> RowBoundary(el, r, rp[r])
    ensures rp[0] == 0 && rp[n] == |el|
    ensures forall r :: 0 <= r < n ==> rp[r] <= rp[r + 1]
    ensures forall r :: 0 <= r <= n ==> 0 <= rp[r] <= |el|
    ensures forall r, k :: 0 <= r < n && rp[r] <= k < rp[r + 1] ==> el[k].u == r
    ensures forall r, k, k' :: 0 <= r < n && rp[r] <= k < k' < rp[r + 1] ==> el[k].v <= el[k'].v
  {
    assert RowBoundary(el, 0, 0);
    BoundaryUnique(el, 0, rp[0], 0);
    assert RowBoundary(el, n, |el|);
    BoundaryUnique(el, n, rp[n], |el|);
    forall r | 0 <= r < n
      ensures rp[r] <= rp[r + 1]
    {
      BoundaryMono(el, r, rp[r], rp[r + 1]);
    }
    forall r, k | 0 <= r < n && rp[r] <= k < rp[r + 1]
      ensures el[k].u == r
    {
      assert RowBoundary(el, r, rp[r]) && RowBoundary(el, r + 1, rp[r + 1]);
    }
  }

  /** The destinations of the edges whose source is x, in list order. */
  function Targets(es: seq<Edge>, x: int): (ts: seq<int>)
    ensures |ts| <= |es|
    decreases |es|
  {
    if es == [] then []
    else Targets(es[..|es| - 1], x) + (if es[|es| - 1].u == x then [es[|es| - 1].v] else [])
  }

  /** y is a target of x exactly when the edge x -> y is in the list. */
  lemma {:induction false} TargetsIn(es: seq<Edge>, x: int)
    ensures forall y :: y in Targets(es, x) <==> Edge(x, y) in es
    decreases |es|
  {
    if es != [] {
      var init := es[..|es| - 1];
      var e := es[|es| - 1];
      assert es == init + [e];
      TargetsIn(init, x);
    }
  }

  lemma {:induction false} TargetsAppend(a: seq<Edge>, b: seq<Edge>, x: int)
    ensures Targets(a + b, x) == Targets(a, x) + Targets(b, x)
    decreases |b|
  {
    if b == [] {
      assert a + b == a;
    } else {
      var b' := b[..|b| - 1];
      assert (a + b)[..|a + b| - 1] == a + b';
      TargetsAppend(a, b', x);
    }
  }

  /** A list whose edges all leave x has the columns c as its targets. */
  lemma {:induction false} TargetsOfRow(s: seq<Edge>, x: int, c: seq<int>)
    requires |c| == |s|
    requires forall k :: 0 <= k < |s| ==> s[k].u == x && c[k] == s[k].v
    ensures Targets(s, x) == c
    decreases |s|
  {
    if s != [] {
      TargetsOfRow(s[..|s| - 1], x, c[..|c| - 1]);
    }
  }

  lemma {:induction false} TargetsNone(s: seq<Edge>, x: int)
    requires forall k :: 0 <= k < |s| ==> s[k].u != x
    ensures Targets(s, x) == []
    decreases |s|
  {
    if s != [] {
      TargetsNone(s[..|s| - 1], x);
    }
  }

  /** Between the starts of rows r and r + 1, the column slice is the target
      list of r. */
  lemma RowTargets(el: seq<Edge>, col: seq<int>, r: int, p: int, q: int)
    requires |col| == |el|
    requires forall k :: 0 <= k < |el| ==> col[k] == el[k].v
    requires RowBoundary(el, r, p) && RowBoundary(el, r + 1, q)
    ensures p <= q && Targets(el, r) == col[p..q]
  {
    BoundaryMono(el, r, p, q);
    var before, row, after := el[..p], el[p..q], el[q..];
    assert el == before + row + after;
    TargetsAppend(before + row, after, r);
    TargetsAppend(before, row, r);
    TargetsNone(before, r);
    TargetsNone(after, r);
    TargetsOfRow(row, r, col[p..q]);
  }

  /** Removing one occurrence of an element from a permutation. */
  lemma PermRemove<T>(a: seq<T>, b: seq<T>) returns (j: nat)
    requires |a| > 0 && multiset(a) == multiset(b)
    ensures j < |b| && b[j] == a[|a| - 1]
    ensures multiset(a[..|a| - 1]) == multiset(b[..j] + b[j + 1..])
  {
    var x := a[|a| - 1];
    assert a == a[..|a| - 1] + [x];
    assert x in multiset(b);
    j :| 0 <= j < |b| && b[j] == x;
    assert b == b[..j] + [x] + b[j + 1..];
    assert multiset(a[..|a| - 1]) == multiset(a) - multiset{x};
    assert multiset(b[..j] + b[j + 1..]) == multiset(b) - multiset{x};
  }

  /** Reordering the edges reorders each target list. */
  lemma {:induction false} TargetsPerm(a: seq<Edge>, b: seq<Edge>, x: int)
    requires multiset(a) == multiset(b)
    ensures multiset(Targets(a, x)) == multiset(Targets(b, x))
    decreases |a|
  {
    if a == [] {
      assert |b| == |multiset(b)| == 0;
    } else {
      var e := a[|a| - 1];
      var j := PermRemove(a, b);
      TargetsPerm(a[..|a| - 1], b[..j] + b[j + 1..], x);
      assert b == b[..j] + [e] + b[j + 1..];
      TargetsAppend(b[..j] + [e], b[j + 1..], x);
      TargetsAppend(b[..j], [e], x);
      TargetsAppend(b[..j], b[j + 1..], x);
      assert [e][..0] == [];
    }
  }

  /** Reordering internal ids reorders their external ids. */
  lemma {:induction false} ExternalsPerm(order: seq<int>, a: seq<int>, b: seq<int>)
    requires multiset(a) == multiset(b)
    ensures multiset(Externals(order, a)) == multiset(Externals(order, b))
    decreases |a|
  {
    if a == [] {
      assert |b| == |multiset(b)| == 0;
    } else {
      var x := a[|a| - 1];
      var j := PermRemove(a, b);
      var b' := b[..j] + b[j + 1..];
      ExternalsPerm(order, a[..|a| - 1], b');
      assert Externals(order, a) == Externals(order, a[..|a| - 1]) + [ExtOf(order, x)];
      assert Externals(order, b) ==
               Externals(order, b[..j]) + [ExtOf(order, x)] + Externals(order, b[j + 1..]);
      assert Externals(order, b') == Externals(order, b[..j]) + Externals(order, b[j + 1..]);
    }
  }

  /** Translating to internal ids and reading the targets of x back through
      the inverse array gives the targets of x in the file. */
  lemma {:induction false} TargetsRoundTrip(m: map<int, int>, order: seq<int>, es: seq<Edge>, x: int)
    requires IsIndexOf(m, order) && Covers(m, es) && x in m
    ensures Externals(order, Targets(Translate(m, es), m[x])) == Targets(es, x)
    decreases |es|
  {
    if es != [] {
      var init := es[..|es| - 1];
      var e := es[|es| - 1];
      assert es == init + [e];
      assert Covers(m, init);
      assert e in es;
      TargetsRoundTrip(m, order, init, x);
      RoundTripStep(m, order, init, e, x);
    }
  }

  /** One more edge keeps the round trip of the targets of x. */
  lemma RoundTripStep(m: map<int, int>, order: seq<int>, init: seq<Edge>, e: Edge, x: int)
    requires IsIndexOf(m, order) && x in m && e.u in m && e.v in m
    requires Externals(order, Targets(Translate(m, init), m[x])) == Targets(init, x)
    ensures Externals(order, Targets(Translate(m, init + [e]), m[x])) == Targets(init + [e], x)
  {
    var t := Translate(m, init + [e]);
    TranslateSnoc(m, init, e);
    assert t[..|t| - 1] == Translate(m, init);
    assert (init + [e])[..|init|] == init;
    IndexRoundTrip(m, order, m[x]);
    assert m[e.u] == m[x] <==> e.u == x;
    var head := Targets(Translate(m, init), m[x]);
    var tail := if e.u == x then [m[e.v]] else [];
    assert Targets(t, m[x]) == head + tail;
    ExternalsSnoc(order, head, m[e.v]);
  }

  /** What row x of the CSR arrays holds: the file's targets of x, as a
      multiset, in ascending internal order, the row length being the
      number of edge lines whose source is x. */
  lemma RowContents(m: map<int, int>, order: seq<int>, edges: seq<Edge>,
                    el: seq<Edge>, col: seq<int>, x: int, p: int, q: int)
    requires IsIndexOf(m, order) && Covers(m, edges) && x in m
    requires Sorted(el) && multiset(el) == multiset(Translate(m, edges))
    requires |col| == |el| && forall k :: 0 <= k < |el| ==> col[k] == el[k].v
    requires RowBoundary(el, m[x], p) && RowBoundary(el, m[x] + 1, q)
    ensures p <= q
    ensures multiset(Externals(order, col[p..q])) == multiset(Targets(edges, x))
    ensures q - p == |Targets(edges, x)|
    ensures forall k, k' :: p <= k < k' < q ==> col[k] <= col[k']
  {
    RowTargets(el, col, m[x], p, q);
    TargetsPerm(el, Translate(m, edges), m[x]);
    ExternalsPerm(order, Targets(el, m[x]), Targets(Translate(m, edges), m[x]));
    TargetsRoundTrip(m, order, edges, x);
    assert |multiset(Targets(el, m[x]))| == |multiset(Targets(Translate(m, edges), m[x]))|;
    forall k, k' | p <= k < k' < q
      ensures col[k] <= col[k']
    {
      assert EdgeLe(el[k], el[k']);
    }
  }

  /** Every id of s has an internal id under m, and they ascend along s. */
  ghost predicate KeySorted(m: map<int, int>, s: seq<int>)
  {
    (forall k :: 0 <= k < |s| ==> s[k] in m)
    && forall k, k' :: 0 <= k < k' < |s| ==> m[s[k]] <= m[s[k']]
  }

  /** A list of ids is determined by its multiset once it ascends by an
      injective numbering: the neighbour list of a row has exactly one
      possible order. */
  lemma {:induction false} KeySortedUnique(m: map<int, int>, a: seq<int>, b: seq<int>)
    requires forall x, y :: x in m && y in m && m[x] == m[y] ==> x == y
    requires KeySorted(m, a) && KeySorted(m, b) && multiset(a) == multiset(b)
    ensures a == b
    decreases |a|
  {
    assert |a| == |multiset(a)| == |multiset(b)| == |b|;
    if a != [] {
      assert a[0] in multiset(b);
      var j :| 0 <= j < |b| && b[j] == a[0];
      assert b[0] in multiset(a);
      var i :| 0 <= i < |a| && a[i] == b[0];
      assert m[b[0]] <= m[b[j]] && m[a[0]] <= m[a[i]];
      assert a[0] == b[0];
      assert a == [a[0]] + a[1..];
      assert b == [b[0]] + b[1..];
      assert multiset(a[1..]) == multiset(a) - multiset{a[0]};
      assert multiset(b[1..]) == multiset(b) - multiset{b[0]};
      KeySortedTail(m, a);
      KeySortedTail(m, b);
      KeySortedUnique(m, a[1..], b[1..]);
    }
  }

  lemma KeySortedTail(m: map<int, int>, s: seq<int>)
    requires KeySorted(m, s) && s != []
    ensures KeySorted(m, s[1..])
  {
    forall k, k' | 0 <= k < k' < |s| - 1
      ensures m[s[1..][k]] <= m[s[1..][k']]
    {
      assert s[1..][k] == s[k + 1] && s[1..][k'] == s[k' + 1];
    }
  }

  /** Row x read off as external ids, one per column: the same ids as the
      file's targets of x, each mapped back to its column. */
  lemma RowNeighbors(m: map<int, int>, order: seq<int>, edges: seq<Edge>,
                     el: seq<Edge>, col: seq<int>, x: int, p: int, q: int, ns: seq<int>)
    requires IsIndexOf(m, order) && Covers(m, edges) && x in m
    requires Sorted(el) && multiset(el) == multiset(Translate(m, edges)) && EdgesInRange(el, |order|)
    requires |col| == |el| && forall k :: 0 <= k < |el| ==> col[k] == el[k].v
    requires RowBoundary(el, m[x], p) && RowBoundary(el, m[x] + 1, q)
    requires |ns| == q - p && forall k :: 0 <= k < |ns| ==> ns[k] == ExtOf(order, col[p + k])
    ensures multiset(ns) == multiset(Targets(edges, x))
    ensures |ns| == |Targets(edges, x)|
    ensures forall k :: 0 <= k < |ns| ==> ns[k] in m && m[ns[k]] == col[p + k]
    ensures forall k, k' :: 0 <= k < k' < |ns| ==> m[ns[k]] <= m[ns[k']]
  {
    RowContents(m, order, edges, el, col, x, p, q);
    var row := col[p..q];
    forall k | 0 <= k < |ns|
      ensures ns[k] == Externals(order, row)[k] && ns[k] in m && m[ns[k]] == col[p + k]
    {
      assert row[k] == col[p + k];
      assert 0 <= el[p + k].v < |order|;
      IndexRoundTrip(m, order, col[p + k]);
    }
    assert ns == Externals(order, row);
    forall k, k' | 0 <= k < k' < |ns|
      ensures m[ns[k]] <= m[ns[k']]
    {
      assert col[p + k] <= col[p + k'];
    }
  }

  /** Fills the CSR arrays from the sorted edge list: row_ptr is zeroed,
      then every row up to an edge's source is started at that edge, and
      the rows after the last source are closed at E. */
  method AssembleCsr(el: array<Edge>, n: nat, rowPtr: array<int>, col: array<int>, vals: array<int>)
    requires Sorted(el[..]) && EdgesInRange(el[..], n)
    requires rowPtr.Length == n + 1 && col.Length == el.Length && vals.Length == el.Length
    requires rowPtr != col && rowPtr != vals && col != vals
    modifies rowPtr, col, vals
    ensures forall r :: 0 <= r <= n ==> RowBoundary(el[..], r, rowPtr[r])
    ensures forall k :: 0 <= k < el.Length ==> col[k] == el[k].v && vals[k] == 1
  {
    forall r | 0 <= r < rowPtr.Length {
      rowPtr[r] := 0;
    }
    var currentRow := 0;
    for i := 0 to el.Length
      invariant 0 <= currentRow <= n
      invariant i == 0 ==> currentRow == 0
      invariant i > 0 ==> currentRow == el[i - 1].u
      invariant forall k :: 0 <= k < i ==> el[k].u <= currentRow
      invariant rowPtr[0] == 0
      invariant forall r :: 0 < r <= currentRow ==> RowBoundary(el[..], r, rowPtr[r])
      invariant forall k :: 0 <= k < i ==> col[k] == el[k].v && vals[k] == 1
    {
      var u := el[i].u;
      var v := el[i].v;
      assert 0 <= el[..][i].u < n;
      assert forall k :: i <= k < el.Length ==> u <= el[k].u by {
        forall k | i <= k < el.Length ensures u <= el[k].u {
          if k > i { assert EdgeLe(el[..][i], el[..][k]); }
        }
      }
      if i > 0 {
        assert EdgeLe(el[..][i - 1], el[..][i]);
      }
      currentRow := StartRows(el, n, rowPtr, currentRow, u, i);
      col[i] := v;
      vals[i] := 1;
    }
    currentRow := StartRows(el, n, rowPtr, currentRow, n, el.Length);
    rowPtr[n] := el.Length;
  }

  /** Starts every row after row0 up to upTo at position p of the sorted
      edge list (the gap-filling loop of the CSR assembly). */
  method StartRows(el: array<Edge>, n: nat, rowPtr: array<int>, row0: int, upTo: int, p: int) returns (row: int)
    requires rowPtr.Length == n + 1 && 0 <= row0 <= upTo <= n && 0 <= p <= el.Length
    requires forall k :: 0 <= k < p ==> el[k].u <= row0
    requires forall k :: p <= k < el.Length ==> upTo <= el[k].u
    requires rowPtr[0] == 0 && forall r :: 0 < r <= row0 ==> RowBoundary(el[..], r, rowPtr[r])
    modifies rowPtr
    ensures row == upTo && rowPtr[0] == 0
    ensures forall r :: 0 < r <= upTo ==> RowBoundary(el[..], r, rowPtr[r])
    ensures forall r :: upTo < r <= n ==> rowPtr[r] == old(rowPtr[r])
  {
    row := row0;
    while row < upTo
      invariant row0 <= row <= upTo && rowPtr[0] == 0
      invariant forall r :: 0 < r <= row ==> RowBoundary(el[..], r, rowPtr[r])
      invariant forall r :: row < r <= n ==> rowPtr[r] == old(rowPtr[r])
    {
      row := row + 1;
      rowPtr[row] := p;
    }
  }

}
