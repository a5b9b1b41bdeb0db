/**
 The step-by-step run: the same recursion as BronKerbosch.Expand, but
 emitting one record per pseudocode event, keeping a running largest
 clique and a display of the recursion stack. The records are values:
 each holds R, P and X as they were when it was emitted.
 */
module StepTrace {
  import opened Topology

  datatype Option<T> = None | Some(value: T)

  /** What a record's narrative says, as a tag with its parameters rather than prose. */
  datatype Narrative =
    | Calling                          // the frame is entered
    | Checking                         // are P and X both empty?
    | Reporting                        // R is a maximal clique
    | Largest                          // R is the largest clique so far
    | Iterating(candidates: seq<int>)  // the loop over the snapshot of P starts
    | Choosing                         // curr is taken from P
    | Recursing(neighbors: set<int>)   // the search descends with curr added to R
    | Returning                        // back from the descent, curr moved from P to X
    | Completed                        // the search is over

  /**
   One emitted record: the pseudocode line it highlights (1 to 6), the
   frame's depth and sets, the candidate being processed, whether it
   announces a new largest clique; or the final record.
   */
  datatype Step =
    | Event(line: int, depth: nat, r: set<int>, p: seq<int>, x: set<int>,
            curr: Option<int>, found: bool, narrative: Narrative)
    | Finished
  {
    /** The highlighted pseudocode line; the final record highlights -1. */
    function Highlight(): int
    {
      if Finished? then -1 else line
    }

    /** The narrative of the record. */
    function Says(): Narrative
    {
      if Finished? then Completed else narrative
    }
  }

  /** One line of the recursion-stack display: a frame's depth, R and P when it was entered. */
  datatype StackEntry = StackEntry(depth: nat, r: set<int>, p: seq<int>)

  /** The graph fields the run writes: the largest clique so far and the stack display. */
  datatype Shared = Shared(maxClique: set<int>, recursionStack: seq<StackEntry>)

  /** The records a piece of the run emits and the shared fields it leaves behind. */
  datatype Emission = Emission(steps: seq<Step>, after: Shared)

  /**
   The stack display on entering a frame at the given depth: the entry is
   appended or overwrites that depth, and deeper entries are cut off. When
   the display already covers the ancestors it ends up as their entries
   followed by the new one.
   */
  function EnterStack(stack: seq<StackEntry>, depth: nat, entry: StackEntry): (s: seq<StackEntry>)
    ensures depth <= |stack| ==> s == stack[..depth] + [entry]
  {
    var grown := if |stack| <= depth then stack + [entry] else stack[depth := entry];
    if depth + 1 <= |grown| then grown[..depth + 1] else grown
  }

  /** The shared fields once a frame (R, P) at the given depth has put itself on the stack display. */
  function Enter(st: Shared, depth: nat, r: set<int>, p: seq<int>): (e: Shared)
    ensures e.maxClique == st.maxClique
    ensures e.recursionStack != [] && e.recursionStack[|e.recursionStack| - 1] == StackEntry(depth, r, p)
  {
    st.(recursionStack := EnterStack(st.recursionStack, depth, StackEntry(depth, r, p)))
  }

  /** The records of one frame (R, P, X) at the given depth, and the shared fields after it. */
  ghost function GenFrame(edges: set<Edge>, r: set<int>, p: seq<int>, x: set<int>, depth: nat, st: Shared): (e: Emission)
    requires Loopless(edges)
    decreases |p|, 1
  {
    var entered := Enter(st, depth, r, p);
    var head := [Event(1, depth, r, p, x, None, false, Calling), Event(2, depth, r, p, x, None, false, Checking)];
    if p == [] && x == {} then
      var report := Event(3, depth, r, p, x, None, false, Reporting);
      if |r| > |entered.maxClique| then
        Emission(head + [report, Event(3, depth, r, p, x, None, true, Largest)], entered.(maxClique := r))
      else
        Emission(head + [report], entered)
    else
      var loop := GenLoop(edges, r, p, x, depth, entered);
      Emission(head + [Event(4, depth, r, p, x, None, false, Iterating(p))] + loop.steps, loop.after)
  }

  /**
   The records of the candidate loop from the point where the candidates
   still to visit are p and the tried ones are x.
   */
  ghost function GenLoop(edges: set<Edge>, r: set<int>, p: seq<int>, x: set<int>, depth: nat, st: Shared): (e: Emission)
    requires Loopless(edges)
    decreases |p|, 0
  {
    if p == [] then Emission([], st)
    else
      var v := p[0];
      var n := Neighbors(edges, v);
      NotOwnNeighbor(edges, v);
      var pre := [Event(4, depth, r, p, x, Some(v), false, Choosing),
                  Event(5, depth, r, p, x, Some(v), false, Recursing(n))];
      var child := GenFrame(edges, r + {v}, Intersect(p, n), x * n, depth + 1, st);
      var back := Event(6, depth, r, p[1..], x + {v}, Some(v), false, Returning);
      var rest := GenLoop(edges, r, p[1..], x + {v}, depth, child.after);
      Emission(pre + child.steps + [back] + rest.steps, rest.after)
  }

  /** A whole step-by-step run over the nodes, from cleared shared fields, ending with the final record. */
  ghost function StepRun(edges: set<Edge>, nodes: seq<int>): (e: Emission)
    requires Loopless(edges)
    ensures |e.steps| >= 4 && e.steps[|e.steps| - 1] == Finished
  {
    var g := GenFrame(edges, {}, nodes, {}, 0, Shared({}, []));
    Emission(g.steps + [Finished], g.after)
  }

  // ----- projections of a record sequence -----

  /** The concatenation of f over the records. */
  function Gather<T>(steps: seq<Step>, f: Step -> seq<T>): seq<T>
  {
    if steps == [] then [] else f(steps[0]) + Gather(steps[1..], f)
  }

  lemma {:induction false} GatherAppend<T>(a: seq<Step>, b: seq<Step>, f: Step -> seq<T>)
    ensures Gather(a + b, f) == Gather(a, f) + Gather(b, f)
    decreases |a|
  {
    if a != [] {
      assert (a + b)[0] == a[0] && (a + b)[1..] == a[1..] + b;
      GatherAppend(a[1..], b, f);
    } else {
      assert a + b == b;
    }
  }

  lemma GatherSingle<T>(s: Step, f: Step -> seq<T>)
    ensures Gather([s], f) == f(s)
  {
    assert [s][1..] == [];
  }

  /** The R of a record that reports a maximal clique. */
  function ReportOf(s: Step): seq<set<int>>
  {
    if s.Event? && s.line == 3 && !s.found then [s.r] else []
  }

  /** The R of a record that announces a new largest clique. */
  function FoundOf(s: Step): seq<set<int>>
  {
    if s.Event? && s.found then [s.r] else []
  }

  /** The line and candidate of a record emitted by a frame at the given depth. */
  function OwnAt(depth: nat): Step -> seq<(int, Option<int>)>
  {
    (s: Step) => if s.Event? && s.depth == depth then [(s.line, s.curr)] else []
  }

  /** The reported maximal cliques, in order. */
  function Reports(steps: seq<Step>): seq<set<int>>
  {
    Gather(steps, ReportOf)
  }

  /** The announced new largest cliques, in order. */
  function Founds(steps: seq<Step>): seq<set<int>>
  {
    Gather(steps, FoundOf)
  }

  /** The (line, candidate) pairs of the records a frame at the given depth emits itself. */
  function Own(steps: seq<Step>, depth: nat): seq<(int, Option<int>)>
  {
    Gather(steps, OwnAt(depth))
  }

  /** The per-candidate records of a loop over p: line 4, line 5, line 6 for each candidate in turn. */
  function Visits(p: seq<int>): seq<(int, Option<int>)>
  {
    if p == [] then [] else [(4, Some(p[0])), (5, Some(p[0])), (6, Some(p[0]))] + Visits(p[1..])
  }

  /** The candidates named by the given line, in order. */
  function Chosen(own: seq<(int, Option<int>)>, line: int): seq<int>
  {
    if own == [] then []
    else (if own[0].0 == line && own[0].1.Some? then [own[0].1.value] else []) + Chosen(own[1..], line)
  }
}
