/**
 The undirected graph the visualizer edits: node ids, an edge set of
 canonical (smaller id, larger id) pairs, the adjacency derived from it,
 and the clique vocabulary the Bron-Kerbosch search is judged by.
 */
module Topology {

  /** An undirected edge, stored as an ordered pair of node ids. */
  type Edge = (int, int)

  /** Every stored pair has its smaller id first, so no pair is a self-loop. */
  ghost predicate Canonical(edges: set<Edge>)
  {
    forall e :: e in edges ==> e.0 < e.1
  }

  /** No stored pair joins a node to itself. */
  ghost predicate Loopless(edges: set<Edge>)
  {
    forall e :: e in edges ==> e.0 != e.1
  }

  /** a and b are joined by an edge, whichever order it is stored in. */
  ghost predicate Adjacent(edges: set<Edge>, a: int, b: int)
  {
    (a, b) in edges || (b, a) in edges
  }

  /** The neighbours of v read off the edge set. */
  function Neighbors(edges: set<Edge>, v: int): (n: set<int>)
    ensures forall u :: u in n <==> Adjacent(edges, v, u)
  {
    var out := set e | e in edges && e.0 == v :: e.1;
    var back := set e | e in edges && e.1 == v :: e.0;
    assert forall u :: Adjacent(edges, v, u) ==> u in out + back by {
      forall u | Adjacent(edges, v, u) ensures u in out + back {
        if (v, u) in edges { assert (v, u).1 == u; } else { assert (u, v).0 == u; }
      }
    }
    out + back
  }

  /** One more stored pair adds at most its other end to a node's neighbours. */
  lemma NeighborsAddEdge(edges: set<Edge>, e: Edge, v: int)
    requires e.0 != e.1
    ensures Neighbors(edges + {e}, v) ==
              Neighbors(edges, v) + (if e.0 == v then {e.1} else if e.1 == v then {e.0} else {})
  {
  }

  /** Adjacency is symmetric. */
  lemma NeighborsSymmetric(edges: set<Edge>, u: int, v: int)
    ensures u in Neighbors(edges, v) <==> v in Neighbors(edges, u)
  {
  }

  /** An id that no edge mentions has no neighbours. */
  lemma NeighborsOfUnmentioned(edges: set<Edge>, v: int)
    requires forall e :: e in edges ==> e.0 != v && e.1 != v
    ensures Neighbors(edges, v) == {}
  {
    assert forall u :: !Adjacent(edges, v, u);
  }

  /** In a loopless edge set no node is its own neighbour. */
  lemma NotOwnNeighbor(edges: set<Edge>, v: int)
    requires Loopless(edges)
    ensures v !in Neighbors(edges, v)
  {
    assert !Adjacent(edges, v, v);
  }

  /** The canonical pair for the edge between a and b. */
  function Key(a: int, b: int): Edge
  {
    if a < b then (a, b) else (b, a)
  }

  /** The edge set after toggling the edge between a and b; a self-loop request changes nothing. */
  ghost function Toggle(edges: set<Edge>, a: int, b: int): (r: set<Edge>)
    ensures a == b ==> r == edges
    ensures a != b ==> (Key(a, b) in r <==> Key(a, b) !in edges)
    ensures forall e :: e != Key(a, b) ==> (e in r <==> e in edges)
  {
    if a == b then edges
    else if Key(a, b) in edges then edges - {Key(a, b)}
    else edges + {Key(a, b)}
  }

  /** Toggling keeps every pair canonical, hence never stores a self-loop. */
  lemma ToggleCanonical(edges: set<Edge>, a: int, b: int)
    requires Canonical(edges)
    ensures Canonical(Toggle(edges, a, b))
  {
  }

  /** Toggling the same endpoints twice restores the edge set. */
  lemma ToggleInvolution(edges: set<Edge>, a: int, b: int)
    ensures Toggle(Toggle(edges, a, b), a, b) == edges
  {
    var once := Toggle(edges, a, b);
    var twice := Toggle(once, a, b);
    forall e ensures e in twice <==> e in edges {
      if a != b && e == Key(a, b) {
        assert (e in twice <==> e !in once) && (e in once <==> e !in edges);
      }
    }
  }

  /**
   Toggling flips the adjacency of exactly the requested pair (when it is
   not a self-loop) and leaves every other pair of nodes as it was.
   */
  lemma ToggleAdjacency(edges: set<Edge>, a: int, b: int, x: int, y: int)
    requires Canonical(edges)
    requires x != y
    ensures Adjacent(Toggle(edges, a, b), x, y) <==>
              if a != b && Key(x, y) == Key(a, b) then !Adjacent(edges, x, y) else Adjacent(edges, x, y)
  {
    var t := Toggle(edges, a, b);
    ToggleCanonical(edges, a, b);
    var k := Key(x, y);
    assert Adjacent(edges, x, y) <==> k in edges by {
      if x < y { assert (y, x) !in edges; } else { assert (x, y) !in edges; }
    }
    assert Adjacent(t, x, y) <==> k in t by {
      if x < y { assert (y, x) !in t; } else { assert (x, y) !in t; }
    }
  }

  /** The edge set with every edge incident to id dropped. */
  ghost function Detach(edges: set<Edge>, id: int): (r: set<Edge>)
    ensures r <= edges
    ensures Neighbors(r, id) == {}
    ensures forall w :: w != id ==> Neighbors(r, w) == Neighbors(edges, w) - {id}
    ensures Canonical(edges) ==> Canonical(r)
  {
    var r := set e | e in edges && e.0 != id && e.1 != id;
    NeighborsOfUnmentioned(r, id);
    r
  }

  /** Every two distinct members of c are adjacent. */
  ghost predicate IsClique(edges: set<Edge>, c: set<int>)
  {
    forall a, b :: a in c && b in c && a != b ==> Adjacent(edges, a, b)
  }

  /** A clique among the nodes that no further node can extend. */
  ghost predicate IsMaximalClique(edges: set<Edge>, nodes: set<int>, c: set<int>)
  {
    && c <= nodes
    && IsClique(edges, c)
    && forall w :: w in nodes && w !in c ==> !IsClique(edges, c + {w})
  }

  /** The nodes outside r that are adjacent to every member of r. */
  ghost function Candidates(edges: set<Edge>, nodes: set<int>, r: set<int>): set<int>
  {
    set w | w in nodes && w !in r && forall u :: u in r ==> Adjacent(edges, w, u)
  }

  /** A clique is maximal exactly when no node is a candidate to extend it. */
  lemma MaximalIffNoCandidates(edges: set<Edge>, nodes: set<int>, c: set<int>)
    requires c <= nodes && IsClique(edges, c)
    ensures IsMaximalClique(edges, nodes, c) <==> Candidates(edges, nodes, c) == {}
  {
    forall w | w in nodes && w !in c
      ensures IsClique(edges, c + {w}) <==> w in Candidates(edges, nodes, c)
    {
      if IsClique(edges, c + {w}) {
        forall u | u in c ensures Adjacent(edges, w, u) {
          assert u in c + {w} && w in c + {w};
        }
      }
      if w in Candidates(edges, nodes, c) {
        forall a, b | a in c + {w} && b in c + {w} && a != b ensures Adjacent(edges, a, b) {
          if a == w { assert b in c; } else if b == w { assert a in c; }
        }
      }
    }
    if Candidates(edges, nodes, c) != {} {
      var w :| w in Candidates(edges, nodes, c);
      assert IsClique(edges, c + {w});
    }
    if !IsMaximalClique(edges, nodes, c) {
      var w :| w in nodes && w !in c && IsClique(edges, c + {w});
      assert w in Candidates(edges, nodes, c);
    }
  }

  /** A proper superset has a member the subset lacks. */
  lemma ExtraMember(r: set<int>, c: set<int>) returns (w: int)
    requires r <= c && c != r
    ensures w in c && w !in r
  {
    if forall u :: u in c ==> u in r {
      assert false;
    }
    w :| w in c && w !in r;
  }

  /** The elements of a sequence as a set. */
  function Elems(s: seq<int>): set<int>
  {
    set x | x in s
  }

  /** Concatenation regrouped; stated as a lemma so that a caller's proof sees only this fact. */
  lemma Assoc<T>(a: seq<T>, b: seq<T>, c: seq<T>)
    ensures a + b + c == a + (b + c)
  {
  }

  /** No element occurs twice. */
  ghost predicate Distinct<T>(s: seq<T>)
  {
    forall i, j :: 0 <= i < j < |s| ==> s[i] != s[j]
  }

  /** The members of s that lie in keep, in the order of s (a set intersection with a fixed order). */
  function Intersect(s: seq<int>, keep: set<int>): (r: seq<int>)
    ensures Elems(r) == Elems(s) * keep
    ensures |r| <= |s|
    ensures s != [] && s[0] !in keep ==> |r| < |s|
    ensures Distinct(s) ==> Distinct(r)
  {
    if s == [] then []
    else
      var tail := Intersect(s[1..], keep);
      assert Elems(s) == {s[0]} + Elems(s[1..]);
      var r := (if s[0] in keep then [s[0]] else []) + tail;
      assert Elems(r) == (if s[0] in keep then {s[0]} else {}) + Elems(tail);
      r
  }

  /** s with every occurrence of x removed. */
  function Without(s: seq<int>, x: int): (r: seq<int>)
    ensures Elems(r) == Elems(s) - {x}
    ensures Distinct(s) ==> Distinct(r)
    ensures x !in s ==> r == s
    ensures Distinct(s) && s != [] && s[0] == x ==> r == s[1..]
  {
    if s == [] then []
    else
      var tail := Without(s[1..], x);
      assert Elems(s) == {s[0]} + Elems(s[1..]);
      if s[0] == x then tail
      else
        assert Distinct(s) ==> s[0] !in Elems(tail);
        assert Elems([s[0]] + tail) == {s[0]} + Elems(tail);
        [s[0]] + tail
  }

  /** On a repeat-free s holding x, removing x splices out the one position where it stands; the rest keep their order. */
  lemma {:induction false} WithoutSplices(s: seq<int>, x: int) returns (i: nat)
    requires Distinct(s) && x in s
    ensures i < |s| && s[i] == x && Without(s, x) == s[..i] + s[i + 1..]
  {
    if s[0] == x {
      i := 0;
    } else {
      assert x in s[1..];
      var j := WithoutSplices(s[1..], x);
      i := j + 1;
      assert s[..i] == [s[0]] + s[1..][..j];
      assert s[i + 1..] == s[1..][j + 1..];
    }
  }
}
