/**
 Properties of a whole step-by-step run, started from cleared shared
 fields on the root frame ({}, all node ids, {}).
 */
module RunProperties {
  import opened Topology
  import opened BestTracking
  import opened BronKerbosch
  import opened StepTrace
  import opened TraceProperties

  /** The reports of a run followed by the final record are the run's reports. */
  lemma RunGather<T>(edges: set<Edge>, nodes: seq<int>, f: Step -> seq<T>)
    requires Loopless(edges)
    requires f(Finished) == []
    ensures Gather(StepRun(edges, nodes).steps, f) == Gather(GenFrame(edges, {}, nodes, {}, 0, Shared({}, [])).steps, f)
  {
    var g := GenFrame(edges, {}, nodes, {}, 0, Shared({}, []));
    GatherAppend(g.steps, [Finished], f);
    GatherSingle(Finished, f);
  }

  /**
   A run opens with the root frame's line-1 record, emits only ordinary
   records after it, and ends with exactly one final record, highlighting
   line -1.
   */
  lemma RunShape(edges: set<Edge>, nodes: seq<int>)
    requires Loopless(edges)
    ensures var s := StepRun(edges, nodes).steps;
            && |s| >= 4
            && s[0] == Event(1, 0, {}, nodes, {}, None, false, Calling)
            && s[|s| - 1] == Finished && s[|s| - 1].Highlight() == -1
            && forall i :: 0 <= i < |s| - 1 ==> s[i].Event? && s[i].Highlight() in {1, 2, 3, 4, 5, 6}
  {
    var g := GenFrame(edges, {}, nodes, {}, 0, Shared({}, []));
    FrameDepths(edges, {}, nodes, {}, 0, Shared({}, []));
    var s := StepRun(edges, nodes).steps;
    forall i | 0 <= i < |s| - 1 ensures s[i].Event? && s[i].Highlight() in {1, 2, 3, 4, 5, 6} {
      assert s[i] == g.steps[i] && g.steps[i] in g.steps;
    }
  }

  /**
   On a graph without nodes the run is the root frame's lines 1, 2 and 3
   and the final record: R = {} is reported, but it never beats the empty
   best, so no new largest clique is announced.
   */
  lemma EmptyGraphRun(edges: set<Edge>)
    requires Loopless(edges)
    ensures var run := StepRun(edges, []);
            && run.steps == [Event(1, 0, {}, [], {}, None, false, Calling),
                             Event(2, 0, {}, [], {}, None, false, Checking),
                             Event(3, 0, {}, [], {}, None, false, Reporting),
                             Finished]
            && Founds(run.steps) == []
            && run.after.maxClique == {}
  {
    var run := StepRun(edges, []);
    FrameUnfold(edges, {}, [], {}, 0, Shared({}, []));
    RunGather(edges, [], FoundOf);
    FrameGather(edges, {}, [], {}, 0, Shared({}, []), FoundOf);
  }

  /**
   The run reports, in order, exactly the cliques the instant search
   collects; with distinct node ids these are the maximal cliques of the
   graph, each reported once.
   */
  lemma RunReports(edges: set<Edge>, nodes: seq<int>)
    requires Loopless(edges)
    ensures Reports(StepRun(edges, nodes).steps) == Expand(edges, {}, nodes, {})
    ensures Distinct(nodes) ==>
              var rs := Reports(StepRun(edges, nodes).steps);
              && Distinct(rs)
              && forall c :: c in rs <==> IsMaximalClique(edges, Elems(nodes), c)
  {
    RunGather(edges, nodes, ReportOf);
    FrameReports(edges, {}, nodes, {}, 0, Shared({}, []));
    if Distinct(nodes) {
      RootEnumeratesMaximalCliques(edges, nodes);
    }
  }

  /**
   Over a whole run a new largest clique is announced exactly at the
   reports larger than every earlier one (and non-empty), so the
   announcements strictly grow; the final best is a maximal clique at
   least as large as every clique of the graph.
   */
  lemma RunBest(edges: set<Edge>, nodes: seq<int>)
    requires Loopless(edges) && Distinct(nodes)
    ensures var run := StepRun(edges, nodes);
            var rs := Reports(run.steps);
            && Founds(run.steps) == Breakers(rs, {})
            && run.after.maxClique == Champion(rs, {})
            && (forall i, j :: 0 <= i < j < |Founds(run.steps)| ==> |Founds(run.steps)[i]| < |Founds(run.steps)[j]|)
            && IsMaximalClique(edges, Elems(nodes), run.after.maxClique)
            && |run.after.maxClique| == MaxSize(rs)
            && forall c :: c <= Elems(nodes) && IsClique(edges, c) ==> |c| <= |run.after.maxClique|
  {
    var run := StepRun(edges, nodes);
    var g := GenFrame(edges, {}, nodes, {}, 0, Shared({}, []));
    var rs := Reports(run.steps);
    RunGather(edges, nodes, ReportOf);
    RunGather(edges, nodes, FoundOf);
    FrameBest(edges, {}, nodes, {}, 0, Shared({}, []));
    RecordsAreBreakers(rs, {});
    RecordsIncrease(rs, {});
    RunReports(edges, nodes);
    RootEnumeratesMaximalCliques(edges, nodes);
    ChampionIsLargest(rs, {});
    var best := run.after.maxClique;
    assert best == Champion(rs, {});
  }

  /**
   With distinct node ids, every record of the run carries sets that keep
   the search invariant over the graph's nodes, and every reported R is a
   maximal clique.
   */
  lemma RunInvariant(edges: set<Edge>, nodes: seq<int>)
    requires Loopless(edges) && Distinct(nodes)
    ensures forall s :: s in StepRun(edges, nodes).steps && s.Event? ==>
              FrameInv(edges, Elems(nodes), s.r, s.p, s.x) &&
              (s.line == 3 ==> IsMaximalClique(edges, Elems(nodes), s.r))
  {
    var g := GenFrame(edges, {}, nodes, {}, 0, Shared({}, []));
    RootFrame(edges, nodes);
    FrameInvSteps(edges, Elems(nodes), {}, nodes, {}, 0, Shared({}, []));
    FrameReportsMaximal(edges, Elems(nodes), {}, nodes, {}, 0, Shared({}, []));
  }

  /** After the run the stack display still starts with the root frame's entry. */
  lemma RunStack(edges: set<Edge>, nodes: seq<int>)
    requires Loopless(edges)
    ensures var stack := StepRun(edges, nodes).after.recursionStack;
            |stack| >= 1 && stack[0] == StackEntry(0, {}, nodes)
  {
    FrameStack(edges, {}, nodes, {}, 0, Shared({}, []));
    var stack := StepRun(edges, nodes).after.recursionStack;
    assert stack[0] == stack[..1][0];
  }

  /**
   The best of the instant search's results under the strict-improvement
   rule is the stepwise run's final best: a maximal clique, as large as any
   result and any clique of the graph, and empty on a graph without nodes.
   */
  lemma InstantBest(edges: set<Edge>, nodes: seq<int>)
    requires Loopless(edges) && Distinct(nodes)
    ensures var cs := Expand(edges, {}, nodes, {});
            var best := Champion(cs, {});
            && best == StepRun(edges, nodes).after.maxClique
            && IsMaximalClique(edges, Elems(nodes), best)
            && (forall c :: c in cs ==> |c| <= |best|)
            && (forall c :: c <= Elems(nodes) && IsClique(edges, c) ==> |c| <= |best|)
            && (nodes == [] ==> |best| == 0)
  {
    var cs := Expand(edges, {}, nodes, {});
    var run := StepRun(edges, nodes);
    assert Reports(run.steps) == cs by {
      RunReports(edges, nodes);
    }
    RunBest(edges, nodes);
    if nodes == [] {
      EmptyGraphRun(edges);
    }
  }
}
