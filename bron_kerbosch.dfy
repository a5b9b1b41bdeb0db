/**
 The textbook Bron-Kerbosch recursion without pivoting, as the visualizer
 runs it: R is the clique being built, P the candidates (in a fixed
 enumeration order) and X the nodes already tried. Expand gives, in
 order, every R reported with P and X both empty.
 */
module BronKerbosch {
  import opened Topology
  import opened BestTracking

  /** The cliques one frame (R, P, X) reports, in the order it reports them. */
  ghost function Expand(edges: set<Edge>, r: set<int>, p: seq<int>, x: set<int>): (res: seq<set<int>>)
    requires Loopless(edges)
    ensures forall c :: c in res ==> r <= c
    decreases |p|, 1
  {
    if p == [] && x == {} then [r] else ExpandLoop(edges, r, p, x)
  }

  /**
   The cliques the candidate loop reports from the point where the
   candidates still to visit are p and the tried ones are x: the first
   candidate v is explored with R + {v}, P and X cut down to v's
   neighbours, and then moved from P to X.
   */
  ghost function ExpandLoop(edges: set<Edge>, r: set<int>, p: seq<int>, x: set<int>): (res: seq<set<int>>)
    requires Loopless(edges)
    ensures forall c :: c in res ==> r <= c
    decreases |p|, 0
  {
    if p == [] then []
    else
      var v := p[0];
      var n := Neighbors(edges, v);
      NotOwnNeighbor(edges, v);
      Expand(edges, r + {v}, Intersect(p, n), x * n) + ExpandLoop(edges, r, p[1..], x + {v})
  }

  /**
   The frame invariant: P has no repeats; R is a clique of the graph; P and
   X are disjoint; and P and X together are exactly the nodes outside R
   adjacent to all of R (so R, P, X are pairwise disjoint and every node of
   P and X is adjacent to every node of R).
   */
  ghost predicate FrameInv(edges: set<Edge>, nodes: set<int>, r: set<int>, p: seq<int>, x: set<int>)
  {
    && Distinct(p)
    && r <= nodes
    && IsClique(edges, r)
    && Elems(p) !! x
    && Elems(p) + x == Candidates(edges, nodes, r)
  }

  /** The frame invariant spelled out as the pairwise facts it guarantees. */
  lemma FrameInvMeans(edges: set<Edge>, nodes: set<int>, r: set<int>, p: seq<int>, x: set<int>)
    requires FrameInv(edges, nodes, r, p, x)
    ensures r !! Elems(p) && r !! x && Elems(p) !! x
    ensures forall w, u :: w in Elems(p) + x && u in r ==> Adjacent(edges, w, u)
  {
  }

  /** The root call: empty R, every node a candidate, nothing tried. */
  lemma RootFrame(edges: set<Edge>, nodes: seq<int>)
    requires Distinct(nodes)
    ensures FrameInv(edges, Elems(nodes), {}, nodes, {})
  {
    assert Candidates(edges, Elems(nodes), {}) == Elems(nodes);
  }

  /** Descending into the first candidate v keeps the invariant. */
  lemma DescendKeepsInv(edges: set<Edge>, nodes: set<int>, r: set<int>, p: seq<int>, x: set<int>)
    requires Loopless(edges)
    requires FrameInv(edges, nodes, r, p, x) && p != []
    ensures FrameInv(edges, nodes, r + {p[0]}, Intersect(p, Neighbors(edges, p[0])), x * Neighbors(edges, p[0]))
  {
    var v := p[0];
    var n := Neighbors(edges, v);
    NotOwnNeighbor(edges, v);
    assert v in Elems(p);
    assert v in Candidates(edges, nodes, r);
    var r' := r + {v};
    forall a, b | a in r' && b in r' && a != b ensures Adjacent(edges, a, b) {
      if a == v { assert b in r; } else if b == v { assert a in r; }
    }
    var lhs := Elems(Intersect(p, n)) + x * n;
    var rhs := Candidates(edges, nodes, r');
    forall w ensures w in lhs <==> w in rhs {
      if w in lhs {
        assert w in Elems(p) + x && w in n;
        assert w in Candidates(edges, nodes, r);
        assert w != v;
      }
      if w in rhs {
        assert Adjacent(edges, w, v);
        assert w in Candidates(edges, nodes, r);
      }
    }
  }

  /** Moving the first candidate from P to X keeps the invariant. */
  lemma AdvanceKeepsInv(edges: set<Edge>, nodes: set<int>, r: set<int>, p: seq<int>, x: set<int>)
    requires FrameInv(edges, nodes, r, p, x) && p != []
    ensures FrameInv(edges, nodes, r, p[1..], x + {p[0]})
    ensures Elems(p[1..]) == Elems(p) - {p[0]}
  {
    assert p == [p[0]] + p[1..];
    assert Elems(p) == {p[0]} + Elems(p[1..]);
    assert p[0] !in Elems(p[1..]);
  }

  /** Every set the frame reports is a maximal clique of the graph (soundness). */
  lemma {:induction false} ExpandSound(edges: set<Edge>, nodes: set<int>, r: set<int>, p: seq<int>, x: set<int>)
    requires Loopless(edges) && FrameInv(edges, nodes, r, p, x)
    ensures forall c :: c in Expand(edges, r, p, x) ==> IsMaximalClique(edges, nodes, c)
    decreases |p|, 1
  {
    if p == [] && x == {} {
      MaximalIffNoCandidates(edges, nodes, r);
    } else {
      ExpandLoopSound(edges, nodes, r, p, x);
    }
  }

  /** Every set the candidate loop reports is a maximal clique of the graph. */
  lemma {:induction false} ExpandLoopSound(edges: set<Edge>, nodes: set<int>, r: set<int>, p: seq<int>, x: set<int>)
    requires Loopless(edges) && FrameInv(edges, nodes, r, p, x)
    ensures forall c :: c in ExpandLoop(edges, r, p, x) ==> IsMaximalClique(edges, nodes, c)
    decreases |p|, 0
  {
    if p != [] {
      var v := p[0];
      var n := Neighbors(edges, v);
      NotOwnNeighbor(edges, v);
      DescendKeepsInv(edges, nodes, r, p, x);
      ExpandSound(edges, nodes, r + {v}, Intersect(p, n), x * n);
      AdvanceKeepsInv(edges, nodes, r, p, x);
      ExpandLoopSound(edges, nodes, r, p[1..], x + {v});
    }
  }

  /**
   Every maximal clique that contains R and whose other members are all
   candidates in P is reported by the frame (completeness).
   */
  lemma {:induction false} ExpandComplete(edges: set<Edge>, nodes: set<int>, r: set<int>, p: seq<int>, x: set<int>, c: set<int>)
    requires Loopless(edges) && FrameInv(edges, nodes, r, p, x)
    requires IsMaximalClique(edges, nodes, c) && r <= c && c - r <= Elems(p)
    ensures c in Expand(edges, r, p, x)
    decreases |p|, 1
  {
    if c == r {
      MaximalIffNoCandidates(edges, nodes, c);

    } else {
      var w := ExtraMember(r, c);
      assert w in Elems(p);
      ExpandLoopComplete(edges, nodes, r, p, x, c);
    }
  }

  /** The candidate loop reports every maximal clique strictly above R drawn from P. */
  lemma {:induction false} ExpandLoopComplete(edges: set<Edge>, nodes: set<int>, r: set<int>, p: seq<int>, x: set<int>, c: set<int>)
    requires Loopless(edges) && FrameInv(edges, nodes, r, p, x)
    requires IsMaximalClique(edges, nodes, c) && r < c && c - r <= Elems(p)
    ensures c in ExpandLoop(edges, r, p, x)
    decreases |p|, 0
  {
    var w := ExtraMember(r, c);
    assert w in Elems(p);
    var v := p[0];
    var n := Neighbors(edges, v);
    NotOwnNeighbor(edges, v);
    if v in c {
      DescendKeepsInv(edges, nodes, r, p, x);
      forall u | u in c - (r + {v}) ensures u in Elems(Intersect(p, n)) {
        assert Adjacent(edges, v, u);
      }
      ExpandComplete(edges, nodes, r + {v}, Intersect(p, n), x * n, c);
    } else {
      AdvanceKeepsInv(edges, nodes, r, p, x);
      ExpandLoopComplete(edges, nodes, r, p[1..], x + {v}, c);
    }
  }

  /** Every set the frame reports lies between R and R plus the candidates. */
  lemma {:induction false} ExpandRange(edges: set<Edge>, r: set<int>, p: seq<int>, x: set<int>)
    requires Loopless(edges)
    ensures forall c :: c in Expand(edges, r, p, x) ==> r <= c <= r + Elems(p)
    decreases |p|, 1
  {
    if !(p == [] && x == {}) {
      ExpandLoopRange(edges, r, p, x);
    }
  }

  /** Every set the candidate loop reports lies between R and R plus the candidates still to visit. */
  lemma {:induction false} ExpandLoopRange(edges: set<Edge>, r: set<int>, p: seq<int>, x: set<int>)
    requires Loopless(edges)
    ensures forall c :: c in ExpandLoop(edges, r, p, x) ==> r <= c <= r + Elems(p)
    decreases |p|, 0
  {
    if p != [] {
      var v := p[0];
      var n := Neighbors(edges, v);
      NotOwnNeighbor(edges, v);
      ExpandRange(edges, r + {v}, Intersect(p, n), x * n);
      ExpandLoopRange(edges, r, p[1..], x + {v});
      assert Elems(p) == {v} + Elems(p[1..]);
    }
  }

  /** Two sequences without repeats and without common elements concatenate to one without repeats. */
  lemma DistinctAppend(a: seq<set<int>>, b: seq<set<int>>)
    requires Distinct(a) && Distinct(b)
    requires forall c :: c in a ==> c !in b
    ensures Distinct(a + b)
  {
    forall i, j | 0 <= i < j < |a + b| ensures (a + b)[i] != (a + b)[j] {
      if i < |a| && j >= |a| {
        assert (a + b)[i] in a && (a + b)[j] == b[j - |a|];
      }
    }
  }

  /** No clique is reported twice by a frame. */
  lemma {:induction false} ExpandNoRepeats(edges: set<Edge>, nodes: set<int>, r: set<int>, p: seq<int>, x: set<int>)
    requires Loopless(edges) && FrameInv(edges, nodes, r, p, x)
    ensures Distinct(Expand(edges, r, p, x))
    decreases |p|, 1
  {
    if !(p == [] && x == {}) {
      ExpandLoopNoRepeats(edges, nodes, r, p, x);
    }
  }

  /** No clique is reported twice by the candidate loop. */
  lemma {:induction false} ExpandLoopNoRepeats(edges: set<Edge>, nodes: set<int>, r: set<int>, p: seq<int>, x: set<int>)
    requires Loopless(edges) && FrameInv(edges, nodes, r, p, x)
    ensures Distinct(ExpandLoop(edges, r, p, x))
    decreases |p|, 0
  {
    if p != [] {
      var v := p[0];
      var n := Neighbors(edges, v);
      NotOwnNeighbor(edges, v);
      DescendKeepsInv(edges, nodes, r, p, x);
      AdvanceKeepsInv(edges, nodes, r, p, x);
      var first := Expand(edges, r + {v}, Intersect(p, n), x * n);
      var rest := ExpandLoop(edges, r, p[1..], x + {v});
      ExpandNoRepeats(edges, nodes, r + {v}, Intersect(p, n), x * n);
      ExpandLoopNoRepeats(edges, nodes, r, p[1..], x + {v});
      ExpandRange(edges, r + {v}, Intersect(p, n), x * n);
      ExpandLoopRange(edges, r, p[1..], x + {v});
      assert v !in r;
      forall c | c in first ensures c !in rest {
        assert v in c;
      }
      DistinctAppend(first, rest);
    }
  }

  /** A frame with nothing tried yet reports at least one clique. */
  lemma {:induction false} ExpandNonEmpty(edges: set<Edge>, r: set<int>, p: seq<int>)
    requires Loopless(edges)
    ensures Expand(edges, r, p, {}) != []
    decreases |p|
  {
    if p != [] {
      var v := p[0];
      var n := Neighbors(edges, v);
      NotOwnNeighbor(edges, v);
      assert {} * n == {};
      ExpandNonEmpty(edges, r + {v}, Intersect(p, n));
    }
  }

  /** Every clique among the nodes extends to a maximal one. */
  lemma {:induction false} ExtendToMaximal(edges: set<Edge>, nodes: set<int>, c: set<int>) returns (m: set<int>)
    requires c <= nodes && IsClique(edges, c)
    ensures c <= m && IsMaximalClique(edges, nodes, m)
    decreases |nodes - c|
  {
    MaximalIffNoCandidates(edges, nodes, c);
    var cands := Candidates(edges, nodes, c);
    if cands == {} {
      m := c;
    } else {
      var w := ExtraMember({}, cands);
      var c' := c + {w};
      forall a, b | a in c' && b in c' && a != b ensures Adjacent(edges, a, b) {
        if a == w { assert b in c; } else if b == w { assert a in c; }
      }
      assert nodes - c' == (nodes - c) - {w};
      m := ExtendToMaximal(edges, nodes, c');
    }
  }

  /**
   The root call enumerates the maximal cliques of the graph: each one is
   reported, nothing else is, none twice; and the largest report is as large
   as any clique of the graph.
   */
  lemma RootEnumeratesMaximalCliques(edges: set<Edge>, nodes: seq<int>)
    requires Loopless(edges) && Distinct(nodes)
    ensures var cs := Expand(edges, {}, nodes, {});
      && cs != []
      && Distinct(cs)
      && (forall c :: c in cs <==> IsMaximalClique(edges, Elems(nodes), c))
      && (forall c :: c <= Elems(nodes) && IsClique(edges, c) ==> |c| <= MaxSize(cs))
  {
    var cs := Expand(edges, {}, nodes, {});
    var all := Elems(nodes);
    RootFrame(edges, nodes);
    ExpandNonEmpty(edges, {}, nodes);
    ExpandNoRepeats(edges, all, {}, nodes, {});
    ExpandSound(edges, all, {}, nodes, {});
    forall c | IsMaximalClique(edges, all, c) ensures c in cs {
      ExpandComplete(edges, all, {}, nodes, {}, c);
    }
    forall c | c <= all && IsClique(edges, c) ensures |c| <= MaxSize(cs) {
      var m := ExtendToMaximal(edges, all, c);
      assert m in cs;
      assert |c| <= |m| by { CardinalityMonotone(c, m); }
    }
  }

  /** A subset is no larger than its superset. */
  lemma CardinalityMonotone(a: set<int>, b: set<int>)
    requires a <= b
    ensures |a| <= |b|
  {
    assert b == a + (b - a);
  }

  /**
   What the instant loop has collected after one iteration, followed by what
   the rest of the loop collects, is what it had before followed by the loop
   from that iteration on.
   */
  lemma ExpandIteration(edges: set<Edge>, r: set<int>, p: seq<int>, x: set<int>, before: seq<set<int>>, after: seq<set<int>>)
    requires Loopless(edges) && p != []
    requires var n := Neighbors(edges, p[0]);
             after == before + Expand(edges, r + {p[0]}, Intersect(p, n), x * n)
    ensures after + ExpandLoop(edges, r, p[1..], x + {p[0]}) == before + ExpandLoop(edges, r, p, x)
  {
    var n := Neighbors(edges, p[0]);
    Assoc(before, Expand(edges, r + {p[0]}, Intersect(p, n), x * n), ExpandLoop(edges, r, p[1..], x + {p[0]}));
  }
}
