/**
 The visualizer's graph object: the node ids in insertion order, the
 canonical edge set, the id counter, the largest clique found and the
 recursion-stack display, with the editing operations and both runs of
 the Bron-Kerbosch search (all at once, and one record at a time).
 */
module Visualizer {
  import opened Topology
  import opened BestTracking
  import opened BronKerbosch
  import opened StepTrace
  import opened TraceProperties
  import RunProperties

  /** The index of the first longest set in cs, as Python's max with key=len picks it. */
  method FirstLongest(cs: seq<set<int>>) returns (k: nat)
    requires cs != []
    ensures k < |cs|
    ensures forall j :: 0 <= j < |cs| ==> |cs[j]| <= |cs[k]|
    ensures forall j :: 0 <= j < k ==> |cs[j]| < |cs[k]|
  {
    k := 0;
    for i := 1 to |cs|
      invariant k < i
      invariant forall j :: 0 <= j < i ==> |cs[j]| <= |cs[k]|
      invariant forall j :: 0 <= j < k ==> |cs[j]| < |cs[k]|
    {
      if |cs[i]| > |cs[k]| {
        k := i;
      }
    }
  }

  class Graph {
    /** The node ids, in the order the nodes were added. */
    var nodes: seq<int>
    /** The edges, each stored once as (smaller id, larger id). */
    var edges: set<Edge>
    /** The id the next added node gets. */
    var nextId: int
    /** The largest clique found by the last run. */
    var maxClique: set<int>
    /** One entry per active frame of the stepwise run, outermost first. */
    var recursionStack: seq<StackEntry>

    /** Edges are canonical, node ids are distinct and all below the counter, which starts at 1. */
    ghost predicate Valid()
      reads this`nodes, this`edges, this`nextId
    {
      && Canonical(edges)
      && Distinct(nodes)
      && 1 <= nextId
      && forall i :: 0 <= i < |nodes| ==> 1 <= nodes[i] < nextId
    }

    /** An empty graph whose first node gets id 1. */
    constructor ()
      ensures Valid()
      ensures nodes == [] && edges == {} && nextId == 1
      ensures maxClique == {} && recursionStack == []
    {
      nodes := [];
      edges := {};
      nextId := 1;
      maxClique := {};
      recursionStack := [];
    }

    /**
     Adds a node unless the click lies too close to an existing node; the
     new node gets the counter's id, which no node holds, and the counter
     moves on by one.
     */
    method AddNode(tooClose: int -> bool)
      requires Valid()
      modifies this`nodes, this`nextId
      ensures Valid()
      ensures (exists i :: 0 <= i < |old(nodes)| && tooClose(old(nodes)[i])) ==>
                nodes == old(nodes) && nextId == old(nextId)
      ensures (forall i :: 0 <= i < |old(nodes)| ==> !tooClose(old(nodes)[i])) ==>
                nodes == old(nodes) + [old(nextId)] && nextId == old(nextId) + 1 && old(nextId) !in old(nodes)
    {
      for i := 0 to |nodes|
        invariant forall j :: 0 <= j < i ==> !tooClose(nodes[j])
      {
        if tooClose(nodes[i]) {
          return;
        }
      }
      nodes := nodes + [nextId];
      nextId := nextId + 1;
    }

    /** Clears the largest clique and the stack display. */
    method ResetVisuals()
      modifies this`maxClique, this`recursionStack
      ensures maxClique == {} && recursionStack == []
    {
      maxClique := {};
      recursionStack := [];
    }

    /**
     Removes a present node together with every edge that mentions it, and
     clears the visuals; an absent id changes nothing.
     */
    method RemoveNode(id: int)
      requires Valid()
      modifies this`nodes, this`edges, this`maxClique, this`recursionStack
      ensures Valid()
      ensures id !in old(nodes) ==>
                nodes == old(nodes) && edges == old(edges) &&
                maxClique == old(maxClique) && recursionStack == old(recursionStack)
      ensures id in old(nodes) ==>
                && Elems(nodes) == Elems(old(nodes)) - {id}
                && (exists i :: 0 <= i < |old(nodes)| && old(nodes)[i] == id && nodes == old(nodes)[..i] + old(nodes)[i + 1..])
                && edges == set e | e in old(edges) && e.0 != id && e.1 != id
                && Neighbors(edges, id) == {}
                && (forall w :: w != id ==> Neighbors(edges, w) == Neighbors(old(edges), w) - {id})
                && maxClique == {} && recursionStack == []
    {
      if id in nodes {
        ghost var before := edges;
        edges := set e | e in edges && e.0 != id && e.1 != id;
        assert edges == Detach(before, id);
        ghost var k := WithoutSplices(nodes, id);
        nodes := Without(nodes, id);
        forall i | 0 <= i < |nodes| ensures 1 <= nodes[i] < nextId {
          assert nodes[i] in Elems(nodes);
        }
        ResetVisuals();
      }
    }

    /**
     Toggles the edge between a and b and clears the visuals; a request to
     join a node to itself changes nothing.
     */
    method AddEdge(a: int, b: int)
      requires Valid()
      modifies this`edges, this`maxClique, this`recursionStack
      ensures Valid()
      ensures edges == Toggle(old(edges), a, b)
      ensures a == b ==> maxClique == old(maxClique) && recursionStack == old(recursionStack)
      ensures a != b ==> maxClique == {} && recursionStack == []
    {
      if a == b {
        return;
      }
      var u, v := if a < b then a else b, if a < b then b else a;
      if (u, v) in edges {
        edges := edges - {(u, v)};
      } else {
        edges := edges + {(u, v)};
      }
      ResetVisuals();
    }

    /** The neighbours of v, gathered edge by edge. */
    method GetNeighbors(v: int) returns (n: set<int>)
      requires Valid()
      ensures n == Neighbors(edges, v)
    {
      n := {};
      var rest := edges;
      while rest != {}
        invariant rest <= edges
        invariant n == Neighbors(edges - rest, v)
        decreases |rest|
      {
        var e :| e in rest;
        var done := edges - rest;
        NeighborsAddEdge(done, e, v);
        if e.0 == v {
          n := n + {e.1};
        } else if e.1 == v {
          n := n + {e.0};
        }
        rest := rest - {e};
        assert edges - rest == done + {e};
      }
      assert edges - rest == edges;
    }

    /**
     The instant recursion: appends to results every R it reaches with P and
     X both empty, looping over a snapshot of P while moving each candidate
     from P to X.
     */
    method Bk(r: set<int>, p: seq<int>, x: set<int>, results: seq<set<int>>) returns (out: seq<set<int>>)
      requires Valid() && Distinct(p)
      ensures Loopless(edges) && out == results + Expand(edges, r, p, x)
      decreases |p|
    {
      if p == [] && x == {} {
        return results + [r];
      }
      var snapshot := p;
      var P, X := p, x;
      out := results;
      for i := 0 to |snapshot|
        invariant P == snapshot[i..] && Distinct(P)
        invariant out + ExpandLoop(edges, r, P, X) == results + ExpandLoop(edges, r, p, x)
      {
        var v := snapshot[i];
        var n := GetNeighbors(v);
        NotOwnNeighbor(edges, v);
        ghost var before := out;
        out := Bk(r + {v}, Intersect(P, n), X * n, out);
        ExpandIteration(edges, r, P, X, before, out);
        P := Without(P, v);
        X := X + {v};
      }
    }

    /**
     Collects every maximal clique with the instant recursion and keeps the
     first longest one; returns its size.
     */
    method RunInstant() returns (size: nat)
      requires Valid()
      modifies this`maxClique, this`recursionStack
      ensures Loopless(edges)
      ensures maxClique == Champion(Expand(edges, {}, nodes, {}), {})
      ensures maxClique == StepRun(edges, nodes).after.maxClique
      ensures size == |maxClique| && recursionStack == []
      ensures IsMaximalClique(edges, Elems(nodes), maxClique)
      ensures forall c :: c in Expand(edges, {}, nodes, {}) ==> |c| <= size
      ensures forall c :: c <= Elems(nodes) && IsClique(edges, c) ==> |c| <= size
      ensures nodes == [] ==> size == 0
    {
      ResetVisuals();
      var results := Bk({}, nodes, {}, []);
      assert results == Expand(edges, {}, nodes, {});
      if results != [] {
        var k := FirstLongest(results);
        maxClique := results[k];
        assert maxClique == Champion(results, {}) by {
          if |results[k]| == 0 {
            assert results[k] == {};
          }
          ChampionIsFirstLongest(results, {}, k);
        }
      }
      size := |maxClique|;
      RunProperties.InstantBest(edges, nodes);
    }

    /**
     Shows a frame entered at the given depth on the stack display: its
     entry is appended or overwrites that depth, and deeper entries go.
     */
    method EnterFrame(depth: nat, r: set<int>, p: seq<int>)
      modifies this`recursionStack
      ensures recursionStack == EnterStack(old(recursionStack), depth, StackEntry(depth, r, p))
      ensures depth <= |old(recursionStack)| ==> recursionStack == old(recursionStack)[..depth] + [StackEntry(depth, r, p)]
    {
      var entry := StackEntry(depth, r, p);
      if |recursionStack| <= depth {
        recursionStack := recursionStack + [entry];
      } else {
        recursionStack := recursionStack[depth := entry];
      }
      if depth + 1 <= |recursionStack| {
        recursionStack := recursionStack[..depth + 1];
      }
    }

    /**
     The records of a frame whose P and X are both empty: R is reported,
     and when it is strictly larger than the largest clique so far it
     replaces it and is announced.
     */
    method ReportClique(r: set<int>, depth: nat, acc: seq<Step>) returns (steps: seq<Step>)
      modifies this`maxClique
      ensures var report := Event(3, depth, r, [], {}, None, false, Reporting);
              var found := Event(3, depth, r, [], {}, None, true, Largest);
              if |r| > |old(maxClique)| then steps == acc + [report, found] && maxClique == r
              else steps == acc + [report] && maxClique == old(maxClique)
    {
      var report := Event(3, depth, r, [], {}, None, false, Reporting);
      steps := acc + [report];
      if |r| > |maxClique| {
        maxClique := r;
        var found := Event(3, depth, r, [], {}, None, true, Largest);
        steps := steps + [found];
        assert steps == acc + [report, found];
      }
    }

    /**
     One frame of the stepwise run: puts the frame on the stack display,
     emits its records in order after acc, keeps the largest clique, and
     recurses for each candidate of its snapshot of P while moving the
     candidate from P to X.
     */
    method BkGen(r: set<int>, p: seq<int>, x: set<int>, depth: nat, acc: seq<Step>) returns (steps: seq<Step>)
      requires Valid() && Distinct(p)
      modifies this`maxClique, this`recursionStack
      ensures Loopless(edges)
      ensures var g := GenFrame(edges, r, p, x, depth, old(Shared(maxClique, recursionStack)));
              steps == acc + g.steps && Shared(maxClique, recursionStack) == g.after
      decreases |p|, 2
    {
      ghost var start := Shared(maxClique, recursionStack);
      ghost var goal := GenFrame(edges, r, p, x, depth, start);
      EnterFrame(depth, r, p);
      var opening := [Event(1, depth, r, p, x, None, false, Calling), Event(2, depth, r, p, x, None, false, Checking)];
      steps := acc + opening;
      if p == [] && x == {} {
        steps := ReportClique(r, depth, steps);
        assert steps == acc + goal.steps && Shared(maxClique, recursionStack) == goal.after by {
          FrameUnfold(edges, r, p, x, depth, start);
          var report := Event(3, depth, r, p, x, None, false, Reporting);
          var found := Event(3, depth, r, p, x, None, true, Largest);
          Assoc(acc, opening, [report, found]);
          Assoc(acc, opening, [report]);
        }
        return;
      }
      var iterate := Event(4, depth, r, p, x, None, false, Iterating(p));
      steps := steps + [iterate];
      ghost var entered := Shared(maxClique, recursionStack);
      steps := IterateCandidates(r, p, x, depth, steps);
      assert steps == acc + goal.steps && Shared(maxClique, recursionStack) == goal.after by {
        assert entered == Enter(start, depth, r, p);
        FrameUnfold(edges, r, p, x, depth, start);
        var loop := GenLoop(edges, r, p, x, depth, entered);
        Assoc(acc + opening, [iterate], loop.steps);
        Assoc(acc, opening, [iterate] + loop.steps);
      }
    }

    /**
     A frame's candidate loop: walks a snapshot of P, visiting each
     candidate in turn while P shrinks and X grows.
     */
    method IterateCandidates(r: set<int>, p: seq<int>, x: set<int>, depth: nat, acc: seq<Step>) returns (steps: seq<Step>)
      requires Valid() && Distinct(p)
      modifies this`maxClique, this`recursionStack
      ensures Loopless(edges)
      ensures var g := GenLoop(edges, r, p, x, depth, old(Shared(maxClique, recursionStack)));
              steps == acc + g.steps && Shared(maxClique, recursionStack) == g.after
      decreases |p|, 1
    {
      ghost var goal := GenLoop(edges, r, p, x, depth, Shared(maxClique, recursionStack));
      var snapshot := p;
      var P, X := p, x;
      steps := acc;
      ghost var cur := Shared(maxClique, recursionStack);
      for i := 0 to |snapshot|
        invariant P == snapshot[i..] && Distinct(P)
        invariant cur == Shared(maxClique, recursionStack)
        invariant steps + GenLoop(edges, r, P, X, depth, cur).steps == acc + goal.steps
        invariant GenLoop(edges, r, P, X, depth, cur).after == goal.after
      {
        ghost var here, before, P0, X0 := cur, steps, P, X;
        steps, P, X := Visit(r, P, X, depth, steps);
        cur := Shared(maxClique, recursionStack);
        IterationSteps(edges, r, P0, X0, depth, here, before, steps);
      }
    }

    /**
     One turn of a frame's candidate loop for the first remaining candidate
     v: announces it, descends into the frame (R + {v}, P & N(v), X & N(v)),
     then moves v from P to X and announces the return.
     */
    method Visit(r: set<int>, P: seq<int>, X: set<int>, depth: nat, acc: seq<Step>)
      returns (steps: seq<Step>, P': seq<int>, X': set<int>)
      requires Valid() && Distinct(P) && P != []
      modifies this`maxClique, this`recursionStack
      ensures Loopless(edges)
      ensures P' == P[1..] && X' == X + {P[0]} && Distinct(P')
      ensures var v := P[0];
              var n := Neighbors(edges, v);
              var child := GenFrame(edges, r + {v}, Intersect(P, n), X * n, depth + 1, old(Shared(maxClique, recursionStack)));
              && steps == acc + [Event(4, depth, r, P, X, Some(v), false, Choosing)]
                              + [Event(5, depth, r, P, X, Some(v), false, Recursing(n))]
                              + child.steps + [Event(6, depth, r, P', X', Some(v), false, Returning)]
              && Shared(maxClique, recursionStack) == child.after
      decreases |P|, 0
    {
      var v := P[0];
      steps := acc + [Event(4, depth, r, P, X, Some(v), false, Choosing)];
      var n := GetNeighbors(v);
      steps := steps + [Event(5, depth, r, P, X, Some(v), false, Recursing(n))];
      NotOwnNeighbor(edges, v);
      steps := BkGen(r + {v}, Intersect(P, n), X * n, depth + 1, steps);
      P' := Without(P, v);
      X' := X + {v};
      steps := steps + [Event(6, depth, r, P', X', Some(v), false, Returning)];
    }

    /** The whole stepwise run: clears the visuals, runs the root frame, and ends with the final record. */
    method RunStepByStep() returns (steps: seq<Step>)
      requires Valid()
      modifies this`maxClique, this`recursionStack
      ensures Loopless(edges)
      ensures steps == StepRun(edges, nodes).steps
      ensures Shared(maxClique, recursionStack) == StepRun(edges, nodes).after
    {
      ResetVisuals();
      steps := BkGen({}, nodes, {}, 0, []);
      steps := steps + [Finished];
    }
  }
}
