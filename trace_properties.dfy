/**
 What the step-by-step run promises: it reports the same cliques as the
 instant run, in the same order; each frame emits its records in the
 pseudocode's order and visits every candidate of its snapshot once; the
 frame invariant holds at every record; a new largest clique is announced
 only on a strict improvement; and the run ends with one final record.
 */
module TraceProperties {
  import opened Topology
  import opened BestTracking
  import opened BronKerbosch
  import opened StepTrace

  /** A projection of one loop iteration's records splits along its four parts. */
  lemma GatherIteration<T>(pre: seq<Step>, child: seq<Step>, back: Step, rest: seq<Step>, f: Step -> seq<T>)
    ensures Gather(pre + child + [back] + rest, f) == Gather(pre, f) + Gather(child, f) + f(back) + Gather(rest, f)
  {
    GatherAppend(pre + child + [back], rest, f);
    GatherAppend(pre + child, [back], f);
    GatherAppend(pre, child, f);
    GatherSingle(back, f);
  }

  /** Empty pieces of a five-piece concatenation can be dropped; stated apart so that a caller's proof sees only this fact. */
  lemma DropEmpty<T>(a: seq<T>, b: seq<T>)
    ensures [] + [] + a + [] + b == a + b
  {
    assert [] + [] + a == a;
  }

  /** A projection of a two-record prefix followed by more records. */
  lemma GatherPairThen<T>(a: Step, b: Step, rest: seq<Step>, f: Step -> seq<T>)
    ensures Gather([a, b] + rest, f) == f(a) + f(b) + Gather(rest, f)
  {
    GatherAppend([a, b], rest, f);
    GatherAppend([a], [b], f);
    assert [a, b] == [a] + [b];
    GatherSingle(a, f);
    GatherSingle(b, f);
  }

  /** A projection of a two-record sequence. */
  lemma GatherPair<T>(a: Step, b: Step, f: Step -> seq<T>)
    ensures Gather([a, b], f) == f(a) + f(b)
  {
    GatherPairThen(a, b, [], f);
    assert [a, b] + [] == [a, b];
  }

  /** The records of a frame: its two opening records, then the leaf records or the candidate loop. */
  lemma FrameUnfold(edges: set<Edge>, r: set<int>, p: seq<int>, x: set<int>, depth: nat, st: Shared)
    requires Loopless(edges)
    ensures var g := GenFrame(edges, r, p, x, depth, st);
            var head := [Event(1, depth, r, p, x, None, false, Calling), Event(2, depth, r, p, x, None, false, Checking)];
            var entered := Enter(st, depth, r, p);
            && entered.maxClique == st.maxClique
            && (p == [] && x == {} && |r| > |st.maxClique| ==>
                  g.steps == head + [Event(3, depth, r, p, x, None, false, Reporting), Event(3, depth, r, p, x, None, true, Largest)]
                  && g.after == entered.(maxClique := r))
            && (p == [] && x == {} && |r| <= |st.maxClique| ==>
                  g.steps == head + [Event(3, depth, r, p, x, None, false, Reporting)] && g.after == entered)
            && (p != [] || x != {} ==>
                  var loop := GenLoop(edges, r, p, x, depth, entered);
                  g.steps == head + ([Event(4, depth, r, p, x, None, false, Iterating(p))] + loop.steps)
                  && g.after == loop.after)
  {
    if p == [] && x == {} {
      assert GenFrame(edges, r, p, x, depth, st).steps[..2] == [Event(1, depth, r, p, x, None, false, Calling), Event(2, depth, r, p, x, None, false, Checking)];
    }
  }

  /** The step-by-step frame reports exactly the cliques the instant recursion collects, in the same order. */
  lemma {:induction false} FrameReports(edges: set<Edge>, r: set<int>, p: seq<int>, x: set<int>, depth: nat, st: Shared)
    requires Loopless(edges)
    ensures Reports(GenFrame(edges, r, p, x, depth, st).steps) == Expand(edges, r, p, x)
    decreases |p|, 1
  {
    var entered := Enter(st, depth, r, p);
    var e1 := Event(1, depth, r, p, x, None, false, Calling);
    var e2 := Event(2, depth, r, p, x, None, false, Checking);
    FrameUnfold(edges, r, p, x, depth, st);
    if p == [] && x == {} {
      var report := Event(3, depth, r, p, x, None, false, Reporting);
      var found := Event(3, depth, r, p, x, None, true, Largest);
      assert Expand(edges, r, p, x) == [r];
      if |r| > |st.maxClique| {
        GatherPairThen(e1, e2, [report, found], ReportOf);
        GatherPair(report, found, ReportOf);
      } else {
        GatherPairThen(e1, e2, [report], ReportOf);
        GatherSingle(report, ReportOf);
      }
    } else {
      var loop := GenLoop(edges, r, p, x, depth, entered);
      var iter := Event(4, depth, r, p, x, None, false, Iterating(p));
      LoopReports(edges, r, p, x, depth, entered);
      GatherPairThen(e1, e2, [iter] + loop.steps, ReportOf);
      GatherAppend([iter], loop.steps, ReportOf);
      GatherSingle(iter, ReportOf);
    }
  }

  /** The step-by-step candidate loop reports exactly what the instant candidate loop collects. */
  lemma {:induction false} LoopReports(edges: set<Edge>, r: set<int>, p: seq<int>, x: set<int>, depth: nat, st: Shared)
    requires Loopless(edges)
    ensures Reports(GenLoop(edges, r, p, x, depth, st).steps) == ExpandLoop(edges, r, p, x)
    decreases |p|, 0
  {
    if p != [] {
      var v := p[0];
      var n := Neighbors(edges, v);
      NotOwnNeighbor(edges, v);
      var child := GenFrame(edges, r + {v}, Intersect(p, n), x * n, depth + 1, st);
      LoopSplit(edges, r, p, x, depth, st);
      FrameReports(edges, r + {v}, Intersect(p, n), x * n, depth + 1, st);
      LoopReports(edges, r, p[1..], x + {v}, depth, child.after);
      assert ExpandLoop(edges, r, p, x) == Expand(edges, r + {v}, Intersect(p, n), x * n) + ExpandLoop(edges, r, p[1..], x + {v});
    }
  }

  /** The records of one candidate-loop iteration: choose, recurse, the child frame, return, and the rest of the loop. */
  lemma LoopUnfold(edges: set<Edge>, r: set<int>, p: seq<int>, x: set<int>, depth: nat, st: Shared)
    requires Loopless(edges) && p != []
    ensures var v := p[0];
            var n := Neighbors(edges, v);
            var child := GenFrame(edges, r + {v}, Intersect(p, n), x * n, depth + 1, st);
            var rest := GenLoop(edges, r, p[1..], x + {v}, depth, child.after);
            var g := GenLoop(edges, r, p, x, depth, st);
            && g.steps == [Event(4, depth, r, p, x, Some(v), false, Choosing),
                           Event(5, depth, r, p, x, Some(v), false, Recursing(n))]
                          + child.steps + [Event(6, depth, r, p[1..], x + {v}, Some(v), false, Returning)] + rest.steps
            && g.after == rest.after
  {
    NotOwnNeighbor(edges, p[0]);
  }

  /** The records of a frame with something left to try: the two opening records, line 4, then the candidate loop. */
  lemma FrameLoopUnfold(edges: set<Edge>, r: set<int>, p: seq<int>, x: set<int>, depth: nat, st: Shared)
    requires Loopless(edges) && (p != [] || x != {})
    ensures var loop := GenLoop(edges, r, p, x, depth, Enter(st, depth, r, p));
            GenFrame(edges, r, p, x, depth, st).steps ==
              [Event(1, depth, r, p, x, None, false, Calling), Event(2, depth, r, p, x, None, false, Checking)]
              + ([Event(4, depth, r, p, x, None, false, Iterating(p))] + loop.steps)
  {
  }

  /** A projection of a frame's records, split into the opening records and the rest. */
  lemma FrameGather<T>(edges: set<Edge>, r: set<int>, p: seq<int>, x: set<int>, depth: nat, st: Shared, f: Step -> seq<T>)
    requires Loopless(edges)
    ensures var g := GenFrame(edges, r, p, x, depth, st);
            var opening := f(Event(1, depth, r, p, x, None, false, Calling)) + f(Event(2, depth, r, p, x, None, false, Checking));
            var report := f(Event(3, depth, r, p, x, None, false, Reporting));
            && (p == [] && x == {} && |r| > |st.maxClique| ==>
                  Gather(g.steps, f) == opening + report + f(Event(3, depth, r, p, x, None, true, Largest)))
            && (p == [] && x == {} && |r| <= |st.maxClique| ==>
                  Gather(g.steps, f) == opening + report)
            && (p != [] || x != {} ==>
                  Gather(g.steps, f) == opening + f(Event(4, depth, r, p, x, None, false, Iterating(p)))
                                        + Gather(GenLoop(edges, r, p, x, depth, Enter(st, depth, r, p)).steps, f))
  {
    var e1 := Event(1, depth, r, p, x, None, false, Calling);
    var e2 := Event(2, depth, r, p, x, None, false, Checking);
    FrameUnfold(edges, r, p, x, depth, st);
    if p == [] && x == {} {
      var report := Event(3, depth, r, p, x, None, false, Reporting);
      var found := Event(3, depth, r, p, x, None, true, Largest);
      if |r| > |st.maxClique| {
        GatherPairThen(e1, e2, [report, found], f);
        GatherPair(report, found, f);
      } else {
        GatherPairThen(e1, e2, [report], f);
        GatherSingle(report, f);
      }
    } else {
      var loop := GenLoop(edges, r, p, x, depth, Enter(st, depth, r, p));
      var iter := Event(4, depth, r, p, x, None, false, Iterating(p));
      GatherPairThen(e1, e2, [iter] + loop.steps, f);
      GatherAppend([iter], loop.steps, f);
      GatherSingle(iter, f);
    }
  }

  /** A projection of one loop iteration's records. */
  lemma LoopGather<T>(edges: set<Edge>, r: set<int>, p: seq<int>, x: set<int>, depth: nat, st: Shared, f: Step -> seq<T>)
    requires Loopless(edges) && p != []
    ensures var v := p[0];
            var n := Neighbors(edges, v);
            var child := GenFrame(edges, r + {v}, Intersect(p, n), x * n, depth + 1, st);
            var rest := GenLoop(edges, r, p[1..], x + {v}, depth, child.after);
            Gather(GenLoop(edges, r, p, x, depth, st).steps, f) ==
              f(Event(4, depth, r, p, x, Some(v), false, Choosing)) + f(Event(5, depth, r, p, x, Some(v), false, Recursing(n)))
              + Gather(child.steps, f) + f(Event(6, depth, r, p[1..], x + {v}, Some(v), false, Returning)) + Gather(rest.steps, f)
  {
    var v := p[0];
    var n := Neighbors(edges, v);
    var a := Event(4, depth, r, p, x, Some(v), false, Choosing);
    var b := Event(5, depth, r, p, x, Some(v), false, Recursing(n));
    var child := GenFrame(edges, r + {v}, Intersect(p, n), x * n, depth + 1, st);
    var back := Event(6, depth, r, p[1..], x + {v}, Some(v), false, Returning);
    var rest := GenLoop(edges, r, p[1..], x + {v}, depth, child.after);
    LoopUnfold(edges, r, p, x, depth, st);
    GatherIteration([a, b], child.steps, back, rest.steps, f);
    GatherPair(a, b, f);
  }

  /** Reports and announcements of one loop iteration come from the child frame and the rest of the loop only. */
  lemma LoopSplit(edges: set<Edge>, r: set<int>, p: seq<int>, x: set<int>, depth: nat, st: Shared)
    requires Loopless(edges) && p != []
    ensures var v := p[0];
            var n := Neighbors(edges, v);
            var child := GenFrame(edges, r + {v}, Intersect(p, n), x * n, depth + 1, st);
            var rest := GenLoop(edges, r, p[1..], x + {v}, depth, child.after);
            var g := GenLoop(edges, r, p, x, depth, st);
            && Reports(g.steps) == Reports(child.steps) + Reports(rest.steps)
            && Founds(g.steps) == Founds(child.steps) + Founds(rest.steps)
  {
    var v := p[0];
    var n := Neighbors(edges, v);
    var a := Event(4, depth, r, p, x, Some(v), false, Choosing);
    var b := Event(5, depth, r, p, x, Some(v), false, Recursing(n));
    var child := GenFrame(edges, r + {v}, Intersect(p, n), x * n, depth + 1, st);
    var back := Event(6, depth, r, p[1..], x + {v}, Some(v), false, Returning);
    var rest := GenLoop(edges, r, p[1..], x + {v}, depth, child.after);
    LoopGather(edges, r, p, x, depth, st, ReportOf);
    LoopGather(edges, r, p, x, depth, st, FoundOf);
    assert ReportOf(a) == [] && ReportOf(b) == [] && ReportOf(back) == [];
    assert FoundOf(a) == [] && FoundOf(b) == [] && FoundOf(back) == [];
    DropEmpty(Reports(child.steps), Reports(rest.steps));
    DropEmpty(Founds(child.steps), Founds(rest.steps));
  }

  /**
   Every record of one loop iteration comes from the child frame, from the
   rest of the loop, or is one of the iteration's own line 4, 5, 6 records.
   */
  lemma LoopMembers(edges: set<Edge>, r: set<int>, p: seq<int>, x: set<int>, depth: nat, st: Shared)
    requires Loopless(edges) && p != []
    ensures var v := p[0];
            var n := Neighbors(edges, v);
            var child := GenFrame(edges, r + {v}, Intersect(p, n), x * n, depth + 1, st);
            var rest := GenLoop(edges, r, p[1..], x + {v}, depth, child.after);
            forall s :: s in GenLoop(edges, r, p, x, depth, st).steps ==>
              || s in child.steps
              || s in rest.steps
              || (s.Event? && s.depth == depth && s.r == r && (s.line == 4 || s.line == 5) && s.p == p && s.x == x)
              || s == Event(6, depth, r, p[1..], x + {v}, Some(v), false, Returning)
  {
    var v := p[0];
    var n := Neighbors(edges, v);
    var child := GenFrame(edges, r + {v}, Intersect(p, n), x * n, depth + 1, st);
    var rest := GenLoop(edges, r, p[1..], x + {v}, depth, child.after);
    var pre := [Event(4, depth, r, p, x, Some(v), false, Choosing), Event(5, depth, r, p, x, Some(v), false, Recursing(n))];
    var back := Event(6, depth, r, p[1..], x + {v}, Some(v), false, Returning);
    LoopUnfold(edges, r, p, x, depth, st);
    forall s | s in pre + child.steps + [back] + rest.steps
      ensures s in child.steps || s in rest.steps || s in pre || s == back
    {
    }
    forall s | s in pre
      ensures s.Event? && s.depth == depth && s.r == r && (s.line == 4 || s.line == 5) && s.p == p && s.x == x
    {
      assert s == pre[0] || s == pre[1];
    }
  }

  /** Every record of a frame with something left to try comes from its loop, or is its own line 1, 2 or 4 record. */
  lemma FrameLoopMembers(edges: set<Edge>, r: set<int>, p: seq<int>, x: set<int>, depth: nat, st: Shared)
    requires Loopless(edges) && (p != [] || x != {})
    ensures forall s :: s in GenFrame(edges, r, p, x, depth, st).steps ==>
              || s in GenLoop(edges, r, p, x, depth, Enter(st, depth, r, p)).steps
              || (s.Event? && s.depth == depth && s.r == r && s.p == p && s.x == x && (s.line == 1 || s.line == 2 || s.line == 4))
  {
    var loop := GenLoop(edges, r, p, x, depth, Enter(st, depth, r, p));
    var head := [Event(1, depth, r, p, x, None, false, Calling), Event(2, depth, r, p, x, None, false, Checking)];
    var iter := Event(4, depth, r, p, x, None, false, Iterating(p));
    FrameLoopUnfold(edges, r, p, x, depth, st);
    forall s | s in head + ([iter] + loop.steps)
      ensures s in loop.steps || (s.Event? && s.depth == depth && s.r == r && s.p == p && s.x == x && (s.line == 1 || s.line == 2 || s.line == 4))
    {
      if s in head {
        assert s == head[0] || s == head[1];
      }
    }
  }

  /** Every record of a frame with nothing left to try is one of its own line 1, 2 or 3 records. */
  lemma FrameLeafMembers(edges: set<Edge>, r: set<int>, depth: nat, st: Shared)
    requires Loopless(edges)
    ensures var g := GenFrame(edges, r, [], {}, depth, st);
            && |g.steps| >= 3
            && g.steps[0] == Event(1, depth, r, [], {}, None, false, Calling)
            && forall s :: s in g.steps ==> s.Event? && s.depth == depth && s.r == r && s.p == [] && s.x == {} && 1 <= s.line <= 3
  {
    var g := GenFrame(edges, r, [], {}, depth, st);
    FrameUnfold(edges, r, [], {}, depth, st);
    forall s | s in g.steps
      ensures s.Event? && s.depth == depth && s.r == r && s.p == [] && s.x == {} && 1 <= s.line <= 3
    {
      var i :| 0 <= i < |g.steps| && g.steps[i] == s;
    }
  }

  /** The last record of one loop iteration: the line-6 record when the loop ends there, else the rest's last record. */
  lemma LastOfIteration<T>(pre: seq<T>, child: seq<T>, back: T, rest: seq<T>)
    ensures var s := pre + child + [back] + rest;
            |s| > 0 && s[|s| - 1] == if rest == [] then back else rest[|rest| - 1]
  {
  }

  // ----- the running largest clique -----

  /**
   Within a frame, a new largest clique is announced exactly at the reports
   that beat the best so far, and the best afterwards is the winner of the
   frame's reports offered to the best on entry.
   */
  lemma {:induction false} FrameBest(edges: set<Edge>, r: set<int>, p: seq<int>, x: set<int>, depth: nat, st: Shared)
    requires Loopless(edges)
    ensures var g := GenFrame(edges, r, p, x, depth, st);
            && Founds(g.steps) == Records(Reports(g.steps), st.maxClique)
            && g.after.maxClique == Champion(Reports(g.steps), st.maxClique)
    decreases |p|, 1
  {
    if p == [] && x == {} {
      LeafBest(edges, r, depth, st);
    } else {
      var g := GenFrame(edges, r, p, x, depth, st);
      var entered := Enter(st, depth, r, p);
      var loop := GenLoop(edges, r, p, x, depth, entered);
      FrameUnfold(edges, r, p, x, depth, st);
      FrameGather(edges, r, p, x, depth, st, ReportOf);
      FrameGather(edges, r, p, x, depth, st, FoundOf);
      assert Reports(g.steps) == Reports(loop.steps);
      assert Founds(g.steps) == Founds(loop.steps);
      LoopBest(edges, r, p, x, depth, entered);
    }
  }

  /** FrameBest for a frame with nothing left to try: it reports R, and announces it when R beats the best. */
  lemma LeafBest(edges: set<Edge>, r: set<int>, depth: nat, st: Shared)
    requires Loopless(edges)
    ensures var g := GenFrame(edges, r, [], {}, depth, st);
            && Founds(g.steps) == Records(Reports(g.steps), st.maxClique)
            && g.after.maxClique == Champion(Reports(g.steps), st.maxClique)
  {
    var g := GenFrame(edges, r, [], {}, depth, st);
    FrameUnfold(edges, r, [], {}, depth, st);
    FrameGather(edges, r, [], {}, depth, st, ReportOf);
    FrameGather(edges, r, [], {}, depth, st, FoundOf);
    assert Reports(g.steps) == [r];
    assert [r][1..] == [];
    if |r| > |st.maxClique| {
      assert Founds(g.steps) == [r];
      assert Records([r], st.maxClique) == [r] + Records([], r);
    } else {
      assert Founds(g.steps) == [];
      assert Records([r], st.maxClique) == Records([], st.maxClique);
    }
  }

  /** The candidate loop keeps the running largest clique the way FrameBest describes. */
  lemma {:induction false} LoopBest(edges: set<Edge>, r: set<int>, p: seq<int>, x: set<int>, depth: nat, st: Shared)
    requires Loopless(edges)
    ensures var g := GenLoop(edges, r, p, x, depth, st);
            && Founds(g.steps) == Records(Reports(g.steps), st.maxClique)
            && g.after.maxClique == Champion(Reports(g.steps), st.maxClique)
    decreases |p|, 0
  {
    if p != [] {
      var v := p[0];
      var n := Neighbors(edges, v);
      var child := GenFrame(edges, r + {v}, Intersect(p, n), x * n, depth + 1, st);
      var rest := GenLoop(edges, r, p[1..], x + {v}, depth, child.after);
      LoopSplit(edges, r, p, x, depth, st);
      FrameBest(edges, r + {v}, Intersect(p, n), x * n, depth + 1, st);
      LoopBest(edges, r, p[1..], x + {v}, depth, child.after);
      RecordsAppend(Reports(child.steps), Reports(rest.steps), st.maxClique);
    }
  }

  // ----- depths and the frame's own records -----

  /**
   A frame emits only ordinary records, each highlighting one of the lines
   1 to 6, at its own depth or deeper; it opens with its line-1 record.
   */
  lemma {:induction false} FrameDepths(edges: set<Edge>, r: set<int>, p: seq<int>, x: set<int>, depth: nat, st: Shared)
    requires Loopless(edges)
    ensures var g := GenFrame(edges, r, p, x, depth, st);
            && |g.steps| >= 3
            && g.steps[0] == Event(1, depth, r, p, x, None, false, Calling)
            && forall s :: s in g.steps ==> s.Event? && s.depth >= depth && 1 <= s.line <= 6
    decreases |p|, 1
  {
    if p == [] && x == {} {
      FrameLeafMembers(edges, r, depth, st);
    } else {
      FrameLoopUnfold(edges, r, p, x, depth, st);
      FrameLoopMembers(edges, r, p, x, depth, st);
      LoopDepths(edges, r, p, x, depth, Enter(st, depth, r, p));
    }
  }

  /** The candidate loop emits only ordinary records on lines 1 to 6, at the frame's depth or deeper. */
  lemma {:induction false} LoopDepths(edges: set<Edge>, r: set<int>, p: seq<int>, x: set<int>, depth: nat, st: Shared)
    requires Loopless(edges)
    ensures forall s :: s in GenLoop(edges, r, p, x, depth, st).steps ==> s.Event? && s.depth >= depth && 1 <= s.line <= 6
    decreases |p|, 0
  {
    if p != [] {
      var v := p[0];
      var n := Neighbors(edges, v);
      var child := GenFrame(edges, r + {v}, Intersect(p, n), x * n, depth + 1, st);
      var rest := GenLoop(edges, r, p[1..], x + {v}, depth, child.after);
      LoopMembers(edges, r, p, x, depth, st);
      FrameDepths(edges, r + {v}, Intersect(p, n), x * n, depth + 1, st);
      LoopDepths(edges, r, p[1..], x + {v}, depth, child.after);
      forall s | s in GenLoop(edges, r, p, x, depth, st).steps
        ensures s.Event? && s.depth >= depth && 1 <= s.line <= 6
      {
        if s in child.steps {
          assert s.depth >= depth + 1;
        }
      }
    }
  }

  /** Records emitted strictly deeper than a depth contribute nothing to that depth's own records. */
  lemma {:induction false} OwnAbove(steps: seq<Step>, depth: nat)
    requires forall s :: s in steps ==> s.Event? && s.depth > depth
    ensures Own(steps, depth) == []
    decreases |steps|
  {
    if steps != [] {
      assert steps[0] in steps;
      assert forall s :: s in steps[1..] ==> s in steps;
      OwnAbove(steps[1..], depth);
    }
  }

  /**
   The records a frame emits itself: line 1, line 2, then either the report
   (and the announcement when R beats the best) or line 4 followed by the
   line 4, 5, 6 triple of every candidate of its snapshot of P, in order.
   */
  lemma {:induction false} FrameOwn(edges: set<Edge>, r: set<int>, p: seq<int>, x: set<int>, depth: nat, st: Shared)
    requires Loopless(edges)
    ensures Own(GenFrame(edges, r, p, x, depth, st).steps, depth) ==
              [(1, None), (2, None)] +
              if p == [] && x == {} then
                [(3, None)] + (if |r| > |st.maxClique| then [(3, None)] else [])
              else [(4, None)] + Visits(p)
  {
    var entered := Enter(st, depth, r, p);
    var e1 := Event(1, depth, r, p, x, None, false, Calling);
    var e2 := Event(2, depth, r, p, x, None, false, Checking);
    var f := OwnAt(depth);
    FrameUnfold(edges, r, p, x, depth, st);
    if p == [] && x == {} {
      var report := Event(3, depth, r, p, x, None, false, Reporting);
      var found := Event(3, depth, r, p, x, None, true, Largest);
      if |r| > |st.maxClique| {
        GatherPairThen(e1, e2, [report, found], f);
        GatherPair(report, found, f);
      } else {
        GatherPairThen(e1, e2, [report], f);
        GatherSingle(report, f);
      }
    } else {
      var loop := GenLoop(edges, r, p, x, depth, entered);
      var iter := Event(4, depth, r, p, x, None, false, Iterating(p));
      LoopOwn(edges, r, p, x, depth, entered);
      GatherPairThen(e1, e2, [iter] + loop.steps, f);
      GatherAppend([iter], loop.steps, f);
      GatherSingle(iter, f);
    }
  }

  /** The candidate loop's own records are the line 4, 5, 6 triple of each remaining candidate, in order. */
  lemma {:induction false} LoopOwn(edges: set<Edge>, r: set<int>, p: seq<int>, x: set<int>, depth: nat, st: Shared)
    requires Loopless(edges)
    ensures Own(GenLoop(edges, r, p, x, depth, st).steps, depth) == Visits(p)
    decreases |p|
  {
    if p != [] {
      var v := p[0];
      var n := Neighbors(edges, v);
      var child := GenFrame(edges, r + {v}, Intersect(p, n), x * n, depth + 1, st);
      var rest := GenLoop(edges, r, p[1..], x + {v}, depth, child.after);
      var f := OwnAt(depth);
      var g := GenLoop(edges, r, p, x, depth, st);
      assert Own(child.steps, depth) == [] by {
        FrameDepths(edges, r + {v}, Intersect(p, n), x * n, depth + 1, st);
        OwnAbove(child.steps, depth);
      }
      assert Own(g.steps, depth) == [(4, Some(v))] + [(5, Some(v))] + [] + [(6, Some(v))] + Own(rest.steps, depth) by {
        LoopGather(edges, r, p, x, depth, st, f);
        assert f(Event(4, depth, r, p, x, Some(v), false, Choosing)) == [(4, Some(v))];
        assert f(Event(5, depth, r, p, x, Some(v), false, Recursing(n))) == [(5, Some(v))];
        assert f(Event(6, depth, r, p[1..], x + {v}, Some(v), false, Returning)) == [(6, Some(v))];
      }
      LoopOwn(edges, r, p[1..], x + {v}, depth, child.after);
      Triple((4, Some(v)), (5, Some(v)), (6, Some(v)), Visits(p[1..]));
    }
  }

  /** A three-entry prefix written piece by piece, with an empty piece in the middle; stated apart so that a caller's proof sees only this fact. */
  lemma Triple<T>(a: T, b: T, c: T, rest: seq<T>)
    ensures [a] + [b] + [] + [c] + rest == [a, b, c] + rest
  {
    assert [a] + [b] + [] + [c] == [a, b, c];
  }

  lemma {:induction false} ChosenAppend(a: seq<(int, Option<int>)>, b: seq<(int, Option<int>)>, line: int)
    ensures Chosen(a + b, line) == Chosen(a, line) + Chosen(b, line)
    decreases |a|
  {
    if a == [] {
      assert a + b == b;
    } else {
      assert (a + b)[0] == a[0] && (a + b)[1..] == a[1..] + b;
      ChosenAppend(a[1..], b, line);
    }
  }

  /** Of one candidate's line 4, 5, 6 triple, each of those lines names the candidate once. */
  lemma ChosenTriple(v: int, line: int)
    requires line == 4 || line == 5 || line == 6
    ensures Chosen([(4, Some(v)), (5, Some(v)), (6, Some(v))], line) == [v]
  {
    var t: seq<(int, Option<int>)> := [(4, Some(v)), (5, Some(v)), (6, Some(v))];
    assert t[1..] == [(5, Some(v)), (6, Some(v))];
    assert t[1..][1..] == [(6, Some(v))];
    assert |t[1..][1..][1..]| == 0;
    assert Chosen(t[1..][1..][1..], line) == [];
    assert Chosen(t[1..][1..], line) == (if line == 6 then [v] else []);
    assert Chosen(t[1..], line) == (if line == 5 then [v] else []) + Chosen(t[1..][1..], line);
  }

  /** Lines 4, 5 and 6 each name every candidate of p once, in the order of p. */
  lemma {:induction false} ChosenVisits(p: seq<int>, line: int)
    requires line == 4 || line == 5 || line == 6
    ensures Chosen(Visits(p), line) == p
    decreases |p|
  {
    if p != [] {
      var t: seq<(int, Option<int>)> := [(4, Some(p[0])), (5, Some(p[0])), (6, Some(p[0]))];
      ChosenAppend(t, Visits(p[1..]), line);
      ChosenTriple(p[0], line);
      ChosenVisits(p[1..], line);
      assert p == [p[0]] + p[1..];
    }
  }

  /**
   The loop of a frame iterates over the snapshot of P taken on entry: the
   candidates its own line-4, line-5 and line-6 records name are exactly
   the entries of that snapshot, each once, in order.
   */
  lemma FrameVisitsSnapshot(edges: set<Edge>, r: set<int>, p: seq<int>, x: set<int>, depth: nat, st: Shared, line: int)
    requires Loopless(edges)
    requires line == 4 || line == 5 || line == 6
    ensures Chosen(Own(GenFrame(edges, r, p, x, depth, st).steps, depth), line) == p
  {
    FrameOwn(edges, r, p, x, depth, st);
    ChosenOfOwn(p, p == [] && x == {}, |r| > |st.maxClique|, line);
  }

  /** Of the own-record shape FrameOwn describes, lines 4, 5 and 6 name exactly the candidates of p. */
  lemma ChosenOfOwn(p: seq<int>, leaf: bool, largest: bool, line: int)
    requires line == 4 || line == 5 || line == 6
    requires leaf ==> p == []
    ensures Chosen([(1, None), (2, None)] +
                   if leaf then [(3, None)] + (if largest then [(3, None)] else [])
                   else [(4, None)] + Visits(p), line) == p
  {
    var opening: seq<(int, Option<int>)> := [(1, None), (2, None)];
    assert Chosen(opening, line) == [] by {
      assert opening[1..][1..] == [];
    }
    if leaf {
      var leafOwn: seq<(int, Option<int>)> := [(3, None)] + (if largest then [(3, None)] else []);
      ChosenAppend(opening, leafOwn, line);
      assert Chosen(leafOwn, line) == [] by {
        var three: seq<(int, Option<int>)> := [(3, None)];
        ChosenAppend(three, if largest then three else [], line);
        assert |three[1..]| == 0;
      }
    } else {
      var four: seq<(int, Option<int>)> := [(4, None)];
      ChosenAppend(opening, four + Visits(p), line);
      ChosenAppend(four, Visits(p), line);
      assert |four[1..]| == 0;
      ChosenVisits(p, line);
    }
  }

  // ----- the frame invariant along the trace -----

  /**
   Started from a frame that satisfies the search invariant, every record
   carries sets that satisfy it too, and a report is emitted only when P
   and X are both empty.
   */
  lemma {:induction false} FrameInvSteps(edges: set<Edge>, nodes: set<int>, r: set<int>, p: seq<int>, x: set<int>, depth: nat, st: Shared)
    requires Loopless(edges) && FrameInv(edges, nodes, r, p, x)
    ensures forall s :: s in GenFrame(edges, r, p, x, depth, st).steps ==>
              s.Event? && FrameInv(edges, nodes, s.r, s.p, s.x) && (s.line == 3 ==> s.p == [] && s.x == {})
    decreases |p|, 1
  {
    if p == [] && x == {} {
      FrameLeafMembers(edges, r, depth, st);
    } else {
      FrameLoopMembers(edges, r, p, x, depth, st);
      LoopInvSteps(edges, nodes, r, p, x, depth, Enter(st, depth, r, p));
    }
  }

  /** The candidate loop's records satisfy the search invariant, as in FrameInvSteps. */
  lemma {:induction false} LoopInvSteps(edges: set<Edge>, nodes: set<int>, r: set<int>, p: seq<int>, x: set<int>, depth: nat, st: Shared)
    requires Loopless(edges) && FrameInv(edges, nodes, r, p, x)
    ensures forall s :: s in GenLoop(edges, r, p, x, depth, st).steps ==>
              s.Event? && FrameInv(edges, nodes, s.r, s.p, s.x) && (s.line == 3 ==> s.p == [] && s.x == {})
    decreases |p|, 0
  {
    if p != [] {
      var v := p[0];
      var n := Neighbors(edges, v);
      var child := GenFrame(edges, r + {v}, Intersect(p, n), x * n, depth + 1, st);
      LoopMembers(edges, r, p, x, depth, st);
      DescendKeepsInv(edges, nodes, r, p, x);
      AdvanceKeepsInv(edges, nodes, r, p, x);
      FrameInvSteps(edges, nodes, r + {v}, Intersect(p, n), x * n, depth + 1, st);
      LoopInvSteps(edges, nodes, r, p[1..], x + {v}, depth, child.after);
    }
  }

  /** Every clique a frame reports is a maximal clique of the graph. */
  lemma FrameReportsMaximal(edges: set<Edge>, nodes: set<int>, r: set<int>, p: seq<int>, x: set<int>, depth: nat, st: Shared)
    requires Loopless(edges) && FrameInv(edges, nodes, r, p, x)
    ensures forall s :: s in GenFrame(edges, r, p, x, depth, st).steps && s.Event? && s.line == 3 ==>
              IsMaximalClique(edges, nodes, s.r)
  {
    FrameInvSteps(edges, nodes, r, p, x, depth, st);
    forall s | s in GenFrame(edges, r, p, x, depth, st).steps && s.Event? && s.line == 3
      ensures IsMaximalClique(edges, nodes, s.r)
    {
      assert Elems(s.p) == {};
      MaximalIffNoCandidates(edges, nodes, s.r);
    }
  }

  // ----- how a loop ends -----

  /**
   The last record of a loop over a non-empty P is the line-6 record of its
   last candidate, with P exhausted and every candidate moved into X.
   */
  lemma {:induction false} LoopLast(edges: set<Edge>, r: set<int>, p: seq<int>, x: set<int>, depth: nat, st: Shared)
    requires Loopless(edges) && p != []
    ensures var g := GenLoop(edges, r, p, x, depth, st);
            && g.steps != []
            && g.steps[|g.steps| - 1] == Event(6, depth, r, [], x + Elems(p), Some(p[|p| - 1]), false, Returning)
    decreases |p|
  {
    var v := p[0];
    var n := Neighbors(edges, v);
    var child := GenFrame(edges, r + {v}, Intersect(p, n), x * n, depth + 1, st);
    var rest := GenLoop(edges, r, p[1..], x + {v}, depth, child.after);
    var pre := [Event(4, depth, r, p, x, Some(v), false, Choosing), Event(5, depth, r, p, x, Some(v), false, Recursing(n))];
    var back := Event(6, depth, r, p[1..], x + {v}, Some(v), false, Returning);
    LoopUnfold(edges, r, p, x, depth, st);
    LastOfIteration(pre, child.steps, back, rest.steps);
    MoveHead(x, p);
    if p[1..] == [] {
      assert rest.steps == [];
    } else {
      LoopLast(edges, r, p[1..], x + {v}, depth, child.after);
      assert p[1..][|p[1..]| - 1] == p[|p| - 1];
    }
  }

  /** Moving the head of p into x and then the rest of p moves all of p into x. */
  lemma MoveHead(x: set<int>, p: seq<int>)
    requires p != []
    ensures x + {p[0]} + Elems(p[1..]) == x + Elems(p)
    ensures p[1..] == [] ==> x + {p[0]} == x + Elems(p) && p[|p| - 1] == p[0]
  {
    assert Elems(p) == {p[0]} + Elems(p[1..]);
  }

  /** The same for a whole frame: a frame with candidates ends on its last line-6 record. */
  lemma FrameLast(edges: set<Edge>, r: set<int>, p: seq<int>, x: set<int>, depth: nat, st: Shared)
    requires Loopless(edges) && p != []
    ensures var g := GenFrame(edges, r, p, x, depth, st);
            g.steps[|g.steps| - 1] == Event(6, depth, r, [], x + Elems(p), Some(p[|p| - 1]), false, Returning)
  {
    var g := GenFrame(edges, r, p, x, depth, st);
    var loop := GenLoop(edges, r, p, x, depth, Enter(st, depth, r, p));
    var head := [Event(1, depth, r, p, x, None, false, Calling), Event(2, depth, r, p, x, None, false, Checking)];
    var iter := Event(4, depth, r, p, x, None, false, Iterating(p));
    LoopLast(edges, r, p, x, depth, Enter(st, depth, r, p));
    FrameLoopUnfold(edges, r, p, x, depth, st);
    assert ([iter] + loop.steps)[|[iter] + loop.steps| - 1] == loop.steps[|loop.steps| - 1];
    assert g.steps == head + ([iter] + loop.steps);
  }

  // ----- the recursion-stack display -----

  /**
   After a frame at depth d has run, the first d + 1 entries of the stack
   display are its ancestors' entries followed by its own (depth, R, P).
   */
  lemma {:induction false} FrameStack(edges: set<Edge>, r: set<int>, p: seq<int>, x: set<int>, depth: nat, st: Shared)
    requires Loopless(edges) && |st.recursionStack| >= depth
    ensures var after := GenFrame(edges, r, p, x, depth, st).after.recursionStack;
            && |after| >= depth + 1
            && after[..depth + 1] == st.recursionStack[..depth] + [StackEntry(depth, r, p)]
    decreases |p|, 1
  {
    var entered := Enter(st, depth, r, p);
    FrameUnfold(edges, r, p, x, depth, st);
    assert |entered.recursionStack| == depth + 1;
    if p != [] || x != {} {
      LoopStack(edges, r, p, x, depth, entered);
    }
  }

  /** The candidate loop leaves the display's entries down to its own depth as it found them. */
  lemma {:induction false} LoopStack(edges: set<Edge>, r: set<int>, p: seq<int>, x: set<int>, depth: nat, st: Shared)
    requires Loopless(edges) && |st.recursionStack| >= depth + 1
    ensures var after := GenLoop(edges, r, p, x, depth, st).after.recursionStack;
            && |after| >= depth + 1
            && after[..depth + 1] == st.recursionStack[..depth + 1]
    decreases |p|, 0
  {
    if p != [] {
      var v := p[0];
      var n := Neighbors(edges, v);
      var child := GenFrame(edges, r + {v}, Intersect(p, n), x * n, depth + 1, st);
      LoopUnfold(edges, r, p, x, depth, st);
      FrameStack(edges, r + {v}, Intersect(p, n), x * n, depth + 1, st);
      var mid := child.after.recursionStack;
      assert mid[..depth + 1] == mid[..depth + 2][..depth + 1];
      LoopStack(edges, r, p[1..], x + {v}, depth, child.after);
    }
  }

  /**
   The records after one loop iteration, followed by the rest of the loop,
   are the records before it followed by the loop from the iteration on.
   */
  lemma IterationSteps(edges: set<Edge>, r: set<int>, p: seq<int>, x: set<int>, depth: nat, st: Shared,
                       before: seq<Step>, after: seq<Step>)
    requires Loopless(edges) && p != []
    requires var v := p[0];
             var n := Neighbors(edges, v);
             var child := GenFrame(edges, r + {v}, Intersect(p, n), x * n, depth + 1, st);
             after == before + [Event(4, depth, r, p, x, Some(v), false, Choosing)]
                             + [Event(5, depth, r, p, x, Some(v), false, Recursing(n))]
                             + child.steps + [Event(6, depth, r, p[1..], x + {v}, Some(v), false, Returning)]
    ensures var v := p[0];
            var n := Neighbors(edges, v);
            var child := GenFrame(edges, r + {v}, Intersect(p, n), x * n, depth + 1, st);
            var rest := GenLoop(edges, r, p[1..], x + {v}, depth, child.after);
            && after + rest.steps == before + GenLoop(edges, r, p, x, depth, st).steps
            && rest.after == GenLoop(edges, r, p, x, depth, st).after
  {
    var v := p[0];
    var n := Neighbors(edges, v);
    var child := GenFrame(edges, r + {v}, Intersect(p, n), x * n, depth + 1, st);
    var rest := GenLoop(edges, r, p[1..], x + {v}, depth, child.after);
    var a := Event(4, depth, r, p, x, Some(v), false, Choosing);
    var b := Event(5, depth, r, p, x, Some(v), false, Recursing(n));
    var back := Event(6, depth, r, p[1..], x + {v}, Some(v), false, Returning);
    LoopUnfold(edges, r, p, x, depth, st);
    Regroup(before, a, b, child.steps, back, rest.steps);
  }

  /** Appending one record at a time and appending the whole iteration at once agree; stated apart so that a caller's proof sees only this fact. */
  lemma Regroup<T>(s: seq<T>, a: T, b: T, c: seq<T>, d: T, e: seq<T>)
    ensures s + [a] + [b] + c + [d] + e == s + ([a, b] + c + [d] + e)
  {
    assert [a] + [b] == [a, b];
  }
}
