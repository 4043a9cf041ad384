/** The identifier mapper: external ids are numbered densely 0..N-1 in order
    of first appearance (each edge's source before its destination), and the
    numbering is read back through the inverse array. */
module IdMapping {
  import opened Input

  predicate Distinct(s: seq<int>)
  {
    forall i, j :: 0 <= i < j < |s| ==> s[i] != s[j]
  }

  predicate InRange(s: seq<int>, n: int)
  {
    forall i :: 0 <= i < |s| ==> 0 <= s[i] < n
  }

  /** The elements of a sequence, as a set. */
  ghost function Elems(s: seq<int>): set<int>
    decreases |s|
  {
    if s == [] then {} else Elems(s[..|s| - 1]) + {s[|s| - 1]}
  }

  lemma {:induction false} ElemsIn(s: seq<int>)
    ensures forall x :: x in Elems(s) <==> x in s
    decreases |s|
  {
    if s != [] {
      ElemsIn(s[..|s| - 1]);
      assert s == s[..|s| - 1] + [s[|s| - 1]];
    }
  }

  /** A sequence without repetitions has as many elements as its set. */
  lemma {:induction false} DistinctCard(s: seq<int>)
    requires Distinct(s)
    ensures |Elems(s)| == |s|
    decreases |s|
  {
    if s != [] {
      var init := s[..|s| - 1];
      ElemsIn(init);
      assert s[|s| - 1] !in init;
      DistinctCard(init);
    }
  }

  /** The ids 0..n-1. */
  ghost function Below(n: nat): set<int>
    decreases n
  {
    if n == 0 then {} else Below(n - 1) + {n - 1}
  }

  lemma {:induction false} BelowContents(n: nat)
    ensures |Below(n)| == n
    ensures forall x :: x in Below(n) <==> 0 <= x < n
    decreases n
  {
    if n > 0 {
      BelowContents(n - 1);
    }
  }

  /** Pigeonhole: distinct ids taken from 0..n-1 are at most n many. */
  lemma DistinctBound(s: seq<int>, n: nat)
    requires Distinct(s) && InRange(s, n)
    ensures |s| <= n
  {
    DistinctCard(s);
    ElemsIn(s);
    BelowContents(n);
    forall x | x in Elems(s)
      ensures x in Below(n)
    {
      var i :| 0 <= i < |s| && s[i] == x;
    }
    SubsetCard(Elems(s), Below(n));
  }

  /** A sequence of distinct ids below n that misses one of them has room for it. */
  lemma DistinctRoom(s: seq<int>, x: int, n: nat)
    requires Distinct(s) && InRange(s, n) && 0 <= x < n && x !in s
    ensures |s| < n
  {
    assert Distinct(s + [x]) by {
      forall i, j | 0 <= i < j < |s + [x]|
        ensures (s + [x])[i] != (s + [x])[j]
      {
        if j == |s| {
          assert (s + [x])[i] == s[i];
        }
      }
    }
    DistinctBound(s + [x], n);
  }

  lemma SubsetCard(a: set<int>, b: set<int>)
    requires a <= b
    ensures |a| <= |b|
  {
    assert b == a + (b - a);
    assert a * (b - a) == {};
  }

  /** Position of the first occurrence of x in s. */
  function IndexOf(s: seq<int>, x: int): (r: nat)
    requires x in s
    ensures r < |s| && s[r] == x
    ensures forall j :: 0 <= j < r ==> s[j] != x
  {
    if s[0] == x then 0 else 1 + IndexOf(s[1..], x)
  }

  /** Gives x the next id unless it already has one. */
  function Assign(order: seq<int>, x: int): seq<int>
  {
    if x in order then order else order + [x]
  }

  predicate IsEndpoint(es: seq<Edge>, x: int)
  {
    exists e :: e in es && (e.u == x || e.v == x)
  }

  lemma EndpointSnoc(init: seq<Edge>, e: Edge)
    ensures forall x :: IsEndpoint(init + [e], x) <==> IsEndpoint(init, x) || x == e.u || x == e.v
  {
    forall x
      ensures IsEndpoint(init + [e], x) <==> IsEndpoint(init, x) || x == e.u || x == e.v
    {
      if IsEndpoint(init + [e], x) {
        var e' :| e' in init + [e] && (e'.u == x || e'.v == x);
        assert e' in init || e' == e;
      }
      if IsEndpoint(init, x) {
        var e' :| e' in init && (e'.u == x || e'.v == x);
        assert e' in init + [e];
      }
      if x == e.u || x == e.v {
        assert e in init + [e];
      }
    }
  }

  /** The external ids in order of first appearance: NodeOrder(es)[i] is the
      external id with internal id i after reading edges es. */
  function NodeOrder(es: seq<Edge>): (order: seq<int>)
    ensures Distinct(order)
    decreases |es|
  {
    if es == [] then []
    else
      var e := es[|es| - 1];
      Assign(Assign(NodeOrder(es[..|es| - 1]), e.u), e.v)
  }

  /** The order holds exactly the ids named by the edges. */
  lemma {:induction false} NodeOrderMembers(es: seq<Edge>)
    ensures forall x :: x in NodeOrder(es) <==> IsEndpoint(es, x)
    decreases |es|
  {
    if es != [] {
      var init := es[..|es| - 1];
      var e := es[|es| - 1];
      assert es == init + [e];
      NodeOrderMembers(init);
      EndpointSnoc(init, e);
    }
  }

  /** Ids are never renumbered: the order after a prefix of the edges is a
      prefix of the final order. */
  lemma {:induction false} NodeOrderPrefix(es: seq<Edge>, k: nat)
    requires k <= |es|
    ensures |NodeOrder(es[..k])| <= |NodeOrder(es)|
    ensures NodeOrder(es)[..|NodeOrder(es[..k])|] == NodeOrder(es[..k])
    decreases |es| - k
  {
    if k == |es| {
      assert es[..k] == es;
    } else {
      NodeOrderPrefix(es, k + 1);
      assert es[..k + 1][..k] == es[..k];
      var before := NodeOrder(es[..k]);
      var after := NodeOrder(es[..k + 1]);
      assert after[..|before|] == before;
    }
  }

  /** The first time an id is seen (in edge k) it receives the next free
      internal id, the source before the destination; a self-loop on a new id
      uses up one id. */
  lemma FirstSeen(es: seq<Edge>, k: nat)
    requires k < |es|
    ensures es[k].u in NodeOrder(es) && es[k].v in NodeOrder(es)
    ensures var before := NodeOrder(es[..k]);
            var e := es[k];
            var order := NodeOrder(es);
            |NodeOrder(es[..k + 1])| ==
              |before| + (if e.u in before then 0 else 1)
                       + (if e.v in before || e.v == e.u then 0 else 1)
            && (e.u !in before ==> IndexOf(order, e.u) == |before|)
            && (e.v !in before && e.v != e.u ==>
                  IndexOf(order, e.v) == |before| + (if e.u in before then 0 else 1))
  {
    var before := NodeOrder(es[..k]);
    var e := es[k];
    var order := NodeOrder(es);
    assert es[..k + 1][..k] == es[..k];
    assert es[..k + 1][k] == e;
    var after := NodeOrder(es[..k + 1]);
    assert after == Assign(Assign(before, e.u), e.v);
    AssignTwice(before, e.u, e.v);
    NodeOrderPrefix(es, k + 1);
    assert order[..|after|] == after;
    if e.u !in before {
      assert order[|before|] == e.u;
    }
    if e.v !in before && e.v != e.u {
      assert order[|before| + (if e.u in before then 0 else 1)] == e.v;
    }
  }

  /** Assigning the two ends of an edge appends the new ones, source first. */
  lemma AssignTwice(before: seq<int>, u: int, v: int)
    ensures var after := Assign(Assign(before, u), v);
            var p := |before| + (if u in before then 0 else 1);
            |after| == p + (if v in before || v == u then 0 else 1)
            && after[..|before|] == before
            && u in after && v in after
            && (u !in before ==> after[|before|] == u)
            && (v !in before && v != u ==> after[p] == v)
  {
    var mid := Assign(before, u);
    assert mid[..|before|] == before;
    assert u in mid;
    var after := Assign(mid, v);
    assert after[..|mid|] == mid;
    assert after[..|before|] == mid[..|before|];
  }

  /** The set of all ids named by the edges. */
  ghost function Endpoints(es: seq<Edge>): set<int>
    decreases |es|
  {
    if es == [] then {} else Endpoints(es[..|es| - 1]) + {es[|es| - 1].u, es[|es| - 1].v}
  }

  lemma {:induction false} EndpointsMembers(es: seq<Edge>)
    ensures forall x :: x in Endpoints(es) <==> IsEndpoint(es, x)
    decreases |es|
  {
    if es != [] {
      var init := es[..|es| - 1];
      var e := es[|es| - 1];
      assert es == init + [e];
      EndpointsMembers(init);
      EndpointSnoc(init, e);
    }
  }

  /** N, the length of the order, is the number of distinct ids in the file. */
  lemma NodeCount(es: seq<Edge>)
    ensures |NodeOrder(es)| == |Endpoints(es)|
  {
    var order := NodeOrder(es);
    var ids := Endpoints(es);
    NodeOrderMembers(es);
    EndpointsMembers(es);
    ElemsIn(order);
    forall x
      ensures x in Elems(order) <==> x in ids
    {
      assert x in Elems(order) <==> x in order;
      assert x in ids <==> IsEndpoint(es, x);
    }
    assert Elems(order) == ids;
    DistinctCard(order);
  }

  /** m numbers the ids of `order` by their positions: m is id_map and
      `order` the contents of reverse_map. */
  ghost predicate IsIndexOf(m: map<int, int>, order: seq<int>)
  {
    Distinct(order) && |m| == |order|
    && (forall x :: x in m <==> x in order)
    && (forall x :: x in m ==> 0 <= m[x] < |order| && order[m[x]] == x)
  }

  /** The other direction of the inverse: every position's id maps back to it. */
  lemma IndexRoundTrip(m: map<int, int>, order: seq<int>, i: int)
    requires IsIndexOf(m, order) && 0 <= i < |order|
    ensures order[i] in m && m[order[i]] == i
  {
    assert order[i] in order;
  }

  /** The loader's numbering step: an id not yet in m gets the next number, |m|. */
  function Number(m: map<int, int>, x: int): map<int, int>
  {
    if x in m then m else m[x := |m|]
  }

  /** Numbering an id keeps m the index of the order extended by Assign. */
  lemma AssignIndex(m: map<int, int>, order: seq<int>, x: int)
    requires IsIndexOf(m, order)
    ensures IsIndexOf(Number(m, x), Assign(order, x))
  {
    if x !in m {
      var m' := m[x := |m|];
      var order' := order + [x];
      assert x !in order;
      assert m'.Keys == m.Keys + {x};
      assert |m'| == |order'|;
      assert Distinct(order') by {
        assert forall i :: 0 <= i < |order| ==> order'[i] == order[i];
      }
      assert forall y :: y in m' <==> y in order';
      forall y | y in m'
        ensures 0 <= m'[y] < |order'| && order'[m'[y]] == y
      {
        if y != x {
          assert order'[m[y]] == order[m[y]];
        }
      }
    }
  }

  /** Numbering both ends of one more edge keeps m the index of the order
      of first appearance. */
  lemma NumberEdge(m: map<int, int>, es: seq<Edge>, e: Edge)
    requires IsIndexOf(m, NodeOrder(es))
    ensures IsIndexOf(Number(Number(m, e.u), e.v), NodeOrder(es + [e]))
  {
    assert (es + [e])[..|es|] == es;
    AssignIndex(m, NodeOrder(es), e.u);
    AssignIndex(Number(m, e.u), Assign(NodeOrder(es), e.u), e.v);
  }

  /** m knows both endpoints of every edge. */
  ghost predicate Covers(m: map<int, int>, es: seq<Edge>)
  {
    forall e :: e in es ==> e.u in m && e.v in m
  }

  lemma CoversOrder(m: map<int, int>, es: seq<Edge>)
    requires IsIndexOf(m, NodeOrder(es))
    ensures Covers(m, es)
  {
    NodeOrderMembers(es);
    forall e | e in es
      ensures e.u in m && e.v in m
    {
      assert IsEndpoint(es, e.u) && IsEndpoint(es, e.v);
    }
  }

  /** Internal id of x, -1 when x has none (getInternalId). */
  function Lookup(m: map<int, int>, x: int): int
  {
    if x in m then m[x] else -1
  }

  /** The edges with both endpoints replaced by their internal ids. */
  function Translate(m: map<int, int>, es: seq<Edge>): seq<Edge>
  {
    seq(|es|, k requires 0 <= k < |es| => Edge(Lookup(m, es[k].u), Lookup(m, es[k].v)))
  }

  lemma TranslateSnoc(m: map<int, int>, es: seq<Edge>, e: Edge)
    ensures Translate(m, es + [e]) == Translate(m, es) + [Edge(Lookup(m, e.u), Lookup(m, e.v))]
  {
  }

  lemma TranslateInRange(m: map<int, int>, order: seq<int>, es: seq<Edge>)
    requires IsIndexOf(m, order) && Covers(m, es)
    ensures forall k :: 0 <= k < |es| ==>
              0 <= Translate(m, es)[k].u < |order| && 0 <= Translate(m, es)[k].v < |order|
  {
    forall k | 0 <= k < |es|
      ensures 0 <= Translate(m, es)[k].u < |order| && 0 <= Translate(m, es)[k].v < |order|
    {
      assert es[k] in es;
    }
  }

  /** External id of internal id i, -1 outside 0..N-1 (getExternalId). */
  function ExtOf(order: seq<int>, i: int): int
  {
    if 0 <= i < |order| then order[i] else -1
  }

  /** A sequence of internal ids read back as external ids. */
  function Externals(order: seq<int>, s: seq<int>): seq<int>
  {
    seq(|s|, k requires 0 <= k < |s| => ExtOf(order, s[k]))
  }

  lemma ExternalsSnoc(order: seq<int>, s: seq<int>, i: int)
    ensures Externals(order, s + [i]) == Externals(order, s) + [ExtOf(order, i)]
  {
  }

  /** An external id occurs in the translation of s exactly when it is
      mapped and its internal id occurs in s. */
  lemma ExternalsIn(m: map<int, int>, order: seq<int>, s: seq<int>)
    requires IsIndexOf(m, order) && InRange(s, |order|)
    ensures forall x :: x in Externals(order, s) <==> x in m && m[x] in s
  {
    var xs := Externals(order, s);
    forall x
      ensures x in xs <==> x in m && m[x] in s
    {
      if x in xs {
        var k :| 0 <= k < |xs| && xs[k] == x;
        assert order[s[k]] == x;
        IndexRoundTrip(m, order, s[k]);
      }
      if x in m && m[x] in s {
        var k :| 0 <= k < |s| && s[k] == m[x];
        assert xs[k] == x;
      }
    }
  }

  /** Distinct internal ids read back as distinct external ids. */
  lemma ExternalsDistinct(m: map<int, int>, order: seq<int>, s: seq<int>)
    requires IsIndexOf(m, order) && InRange(s, |order|) && Distinct(s)
    ensures Distinct(Externals(order, s))
  {
    var xs := Externals(order, s);
    forall i, j | 0 <= i < j < |xs|
      ensures xs[i] != xs[j]
    {
      IndexRoundTrip(m, order, s[i]);
      IndexRoundTrip(m, order, s[j]);
    }
  }
}
