# Maximum clique visualizer: a verified model of its algorithmic core

The visualizer lets a user draw an undirected graph and then search it for
maximal cliques with the Bron-Kerbosch recursion (no pivoting). It can run
the search in two ways:

- the instant run collects every maximal clique and keeps the first longest;
- the step-by-step run performs the same recursion as a generator. It emits
  one record per pseudocode event (lines 1 to 6 of the textbook
  pseudocode, then a final record highlighting line -1). While it runs it
  keeps the largest clique so far and a display of the recursion stack.

This project models the `Graph` class of `max_clique_visualizer.py` in
Dafny and proves what the search promises.

| file | module | what it holds |
|---|---|---|
| `topology.dfy` | `Topology` | Edge sets of canonical `(smaller, larger)` id pairs. Also adjacency, the edge toggle, removal of a node's edges, cliques and maximal cliques, and the order-keeping set operations on the candidate sequence. |
| `best_tracking.dfy` | `BestTracking` | The running "largest so far" rule: a report replaces the best only when it is strictly larger. |
| `bron_kerbosch.dfy` | `BronKerbosch` | The recursion as a specification function `Expand`, the frame invariant, and soundness, completeness and no-repeat lemmas. |
| `step_trace.dfy` | `StepTrace` | The records of the step-by-step run (`GenFrame`, `GenLoop`, `StepRun`) and projections of a record sequence (the reports, the announcements of a new largest clique, a frame's own records). |
| `trace_properties.dfy` | `TraceProperties` | Frame-by-frame properties of the records. |
| `run_properties.dfy` | `RunProperties` | The same properties for a whole run. |
| `visualizer.dfy` | `Visualizer` | The class `Graph` with its fields and methods. Each method is proved against the functions above. |

Modelling choices:

- **Nodes.** A node is its integer id. `Graph.nodes` is the sequence of ids
  in the order the nodes were added.
- **Candidate order.** The candidate set P is a sequence without repeats.
  Python's set iteration order is unspecified; here it is the order of
  `nodes`. Intersecting with a neighbour set keeps that order. R and X are
  sets.
- **Search variables as values.** In the source, `bk` and `bk_gen` change
  P and X in place inside the candidate loop. The methods
  `Visualizer.Graph.Bk` and `Visualizer.Graph.IterateCandidates` do the
  same with local variables over a snapshot of P.
- **The step-by-step run.** It is the recursive method
  `Visualizer.Graph.BkGen`, which appends each record to a sequence and
  updates the fields `maxClique` and `recursionStack` as the generator
  does. Its contract ties the appended records and the new field values to
  the specification functions `GenFrame`/`GenLoop`.
- **The largest clique** is a set, because the source only uses its length
  and membership.
- **The stack display** holds `StackEntry(depth, R, P)` values in place of
  the formatted strings. A record's narrative is a tag with its parameters
  in place of the text.

What the code does, where a reader might expect otherwise:

- `add_edge` on a single node returns silently; no error is signalled
  (`max_clique_visualizer.py:105`).
- On a graph without nodes, the step-by-step run reports R = {}. It never
  announces it as a new largest clique, because `0 > 0` is false
  (`max_clique_visualizer.py:192`). So that run has lines 1, 2, 3 and the
  final record, and no announcement.
- `add_node` does not clear the visuals.
- `add_edge` accepts any two ids, including ids of removed nodes. So
  "every edge joins two present nodes" is not an invariant, and the model
  does not assume it. The search is unaffected, because candidates are
  always drawn from the present nodes.

## Model

| member | source | states |
|---|---|---|
| Topology.Neighbors | max_clique_visualizer.py:116-121 | u is a neighbour of v exactly when (v, u) or (u, v) is a stored edge |
| Topology.NeighborsSymmetric | max_clique_visualizer.py:116-121 | u is a neighbour of v if and only if v is a neighbour of u |
| Topology.NeighborsOfUnmentioned | max_clique_visualizer.py:116-121 | an id that no edge mentions has no neighbours |
| Topology.NotOwnNeighbor | max_clique_visualizer.py:116-121 | without self-loops, no node is its own neighbour, so the descent's candidates never contain the chosen node |
| Topology.Toggle | max_clique_visualizer.py:104-108 | joining a node to itself changes nothing; otherwise the canonical pair is present afterwards exactly when it was absent before, and every other pair is unchanged |
| Topology.ToggleCanonical | max_clique_visualizer.py:104-108 | the toggle keeps every stored pair ordered smaller id first, so no self-loop is ever stored |
| Topology.ToggleInvolution | max_clique_visualizer.py:104-108 | toggling the same two ids twice restores the edge set |
| Topology.ToggleAdjacency | max_clique_visualizer.py:104-108 | after the toggle, two distinct nodes are adjacent exactly when they were before, except for the toggled pair, whose adjacency flips |
| Topology.Detach | max_clique_visualizer.py:100 | the filtered edge set is a subset of the old one, the removed id has no neighbours, every other node loses exactly that id from its neighbours, and canonical order is kept |
| Topology.MaximalIffNoCandidates | max_clique_visualizer.py:135-137 | a clique is maximal exactly when no node outside it is adjacent to all its members, which is why reporting R when P and X are empty is right |
| Topology.Intersect | max_clique_visualizer.py:140 | `P.intersection(neighbors)` (also at max_clique_visualizer.py:224) keeps exactly the members of P in the neighbour set, never grows, shrinks when the first candidate is dropped, and keeps P free of repeats |
| Topology.Without | max_clique_visualizer.py:141 | `P.remove(v)` takes exactly v out of P; on a repeat-free P whose first entry is v it drops that entry |
| Topology.WithoutSplices | max_clique_visualizer.py:101 | `self.nodes.remove(node)` on repeat-free ids takes the id out of the one position where it stands, and every other id keeps its place in the order |
| BestTracking.MaxSize | max_clique_visualizer.py:144 | the length `max(results, key=len)` reaches: no result is longer, some result has it, and it is 0 when there are no results |
| BestTracking.Champion | max_clique_visualizer.py:192-193 | defines the best after the reports are offered one by one, each replacing it only when strictly larger; the result is never smaller than the initial best, and is the initial best or one of the reports |
| BestTracking.Records | max_clique_visualizer.py:192-198 | defines the reports that replace the best, in order, which are the ones the `found` records announce; there are at most as many as reports, and each is one of them |
| BestTracking.ChampionIsLargest | max_clique_visualizer.py:192-193 | keeping a set until a strictly larger one comes ends with a set of the largest size among the initial best and the offered sets, and that set is one of them |
| BestTracking.RecordsIncrease | max_clique_visualizer.py:192-198 | the sets that replace the best are offered sets larger than the initial best, strictly increasing in size; the last one is the final best, and with none the best is unchanged |
| BestTracking.RecordsAppend | max_clique_visualizer.py:192-193 | offering two batches in turn is offering the first, then the second against what the first left |
| BestTracking.BeatsChampion | max_clique_visualizer.py:192 | a set beats the running best exactly when it is larger than the initial best and than every set offered before it |
| BestTracking.RecordsAreBreakers | max_clique_visualizer.py:192-198 | the replacements are exactly the record-breaking sets, stated without the fold |
| BronKerbosch.Expand | max_clique_visualizer.py:134-142 | defines the cliques one `bk` frame appends to `results`, in order: R itself when P and X are both empty, otherwise what the candidate loop reports; every report contains R |
| BronKerbosch.ExpandLoop | max_clique_visualizer.py:138-142 | defines the candidate loop: the first candidate v is explored with R + {v} and P and X cut down to v's neighbours, then v moves from P to X and the loop goes on; every report contains R |
| BronKerbosch.FrameInvMeans | max_clique_visualizer.py:134-142 | under the frame invariant R, P and X are pairwise disjoint, and every node of P and X is adjacent to every node of R |
| BronKerbosch.RootFrame | max_clique_visualizer.py:132-143 | the root call with empty R, all node ids as P and empty X satisfies the frame invariant |
| BronKerbosch.DescendKeepsInv | max_clique_visualizer.py:138-140 | the descent into (R + {v}, P & N(v), X & N(v)) keeps the frame invariant |
| BronKerbosch.AdvanceKeepsInv | max_clique_visualizer.py:141-142 | moving the chosen candidate from P to X keeps the frame invariant |
| BronKerbosch.ExpandSound | max_clique_visualizer.py:134-142 | every R a frame reports is a maximal clique of the graph |
| BronKerbosch.ExpandLoopSound | max_clique_visualizer.py:138-142 | every R the candidate loop reports is a maximal clique |
| BronKerbosch.ExpandComplete | max_clique_visualizer.py:134-142 | every maximal clique that contains R and lies within R and P is reported by the frame |
| BronKerbosch.ExpandLoopComplete | max_clique_visualizer.py:138-142 | the same for the candidate loop, for cliques strictly larger than R |
| BronKerbosch.ExpandRange | max_clique_visualizer.py:134-142 | every report of a frame lies between R and R plus P |
| BronKerbosch.ExpandLoopRange | max_clique_visualizer.py:138-142 | the same for the candidate loop |
| BronKerbosch.ExpandNoRepeats | max_clique_visualizer.py:134-142 | a frame satisfying the invariant never reports the same clique twice |
| BronKerbosch.ExpandLoopNoRepeats | max_clique_visualizer.py:138-142 | the same for the candidate loop |
| BronKerbosch.ExpandNonEmpty | max_clique_visualizer.py:134-142 | a frame entered with empty X reports at least one clique, so the results are never empty |
| BronKerbosch.RootEnumeratesMaximalCliques | max_clique_visualizer.py:132-143 | the root call reports each maximal clique of the graph exactly once and nothing else, and the longest report is at least as large as any clique |
| StepTrace.GenFrame | max_clique_visualizer.py:166-235 | defines the records one `bk_gen` frame yields and the fields it leaves: it enters the stack display, yields lines 1 and 2, then line 3 and, when R is strictly larger than the best, makes R the best and yields the announcement; otherwise line 4 with the snapshot, then the candidate loop |
| StepTrace.GenLoop | max_clique_visualizer.py:208-235 | defines the loop over the snapshot: for the first candidate, lines 4 and 5, the child frame's records, then line 6 with the candidate moved from P to X, then the rest of the loop from the fields the child left |
| StepTrace.StepRun | max_clique_visualizer.py:237-238 | defines a whole run: the root frame over all node ids from cleared fields, then the final record; it has at least four records and ends with the final one |
| StepTrace.Enter | max_clique_visualizer.py:168-171 | entering a frame puts its entry `StackEntry(depth, R, P)` on top of the display and leaves the largest clique as it was |
| StepTrace.EnterStack | max_clique_visualizer.py:168-171 | when the display covers the frame's ancestors, entering the frame leaves their entries followed by its own |
| TraceProperties.FrameReports | max_clique_visualizer.py:166-235 | the line-3 reports of the step-by-step frame are exactly the instant frame's results, in the same order |
| TraceProperties.LoopReports | max_clique_visualizer.py:208-235 | the same for the candidate loop |
| TraceProperties.FrameBest | max_clique_visualizer.py:192-198 | a frame announces a new largest clique exactly at the reports that beat the best so far, and leaves the winner as the best |
| TraceProperties.LeafBest | max_clique_visualizer.py:185-198 | a frame with P and X empty reports R, and announces it and makes it the best exactly when it is larger than the best |
| TraceProperties.LoopBest | max_clique_visualizer.py:208-235 | the candidate loop keeps the best and announces new largest cliques as FrameBest describes |
| TraceProperties.FrameDepths | max_clique_visualizer.py:166-235 | a frame emits at least three records, starts with its line-1 record, and emits only ordinary records on lines 1 to 6 at its own depth or deeper |
| TraceProperties.LoopDepths | max_clique_visualizer.py:208-235 | the candidate loop emits only ordinary records on lines 1 to 6 at the frame's depth or deeper |
| TraceProperties.FrameOwn | max_clique_visualizer.py:173-235 | the frame's own records are lines 1 and 2, then line 3 (twice when R beats the best), or else line 4 followed by a line 4, 5, 6 triple for each candidate of the snapshot, in order |
| TraceProperties.LoopOwn | max_clique_visualizer.py:208-235 | the loop's own records are the line 4, 5, 6 triple of each remaining candidate, in order |
| TraceProperties.FrameVisitsSnapshot | max_clique_visualizer.py:201-235 | the frame's own line-4, line-5 and line-6 records each name the candidates of P as it was on entry, each once and in order, although P shrinks during the loop |
| TraceProperties.FrameInvSteps | max_clique_visualizer.py:173-235 | from a frame satisfying the invariant, every record carries an R, P and X that satisfy it, and line 3 is emitted only with P and X empty |
| TraceProperties.LoopInvSteps | max_clique_visualizer.py:208-235 | the same for the candidate loop |
| TraceProperties.FrameReportsMaximal | max_clique_visualizer.py:185-190 | every R a line-3 record carries is a maximal clique |
| TraceProperties.LoopLast | max_clique_visualizer.py:229-235 | the loop's last record is line 6 for the last candidate, with P empty and every candidate moved into X |
| TraceProperties.FrameLast | max_clique_visualizer.py:201-235 | a frame with candidates ends on that line-6 record |
| TraceProperties.FrameStack | max_clique_visualizer.py:168-171 | after a frame at depth d, the first d + 1 display entries are its ancestors' entries followed by its own |
| TraceProperties.LoopStack | max_clique_visualizer.py:208-235 | the candidate loop leaves the display's entries up to its own depth as it found them |
| RunProperties.RunShape | max_clique_visualizer.py:237-238 | a run starts with the root frame's line-1 record. Every record before the last is an ordinary record on lines 1 to 6, and the run ends with exactly one final record, which highlights line -1 |
| RunProperties.EmptyGraphRun | max_clique_visualizer.py:185-198 | on a graph without nodes the run is lines 1, 2, 3 and the final record, with no announcement and an empty best |
| RunProperties.RunReports | max_clique_visualizer.py:152-238 | a run's reports are the instant run's results; with distinct ids they are the maximal cliques of the graph, each once |
| RunProperties.RunBest | max_clique_visualizer.py:192-198 | the announcements are exactly the record-breaking reports and strictly grow; the final best is a maximal clique of the largest size among the reports and at least as large as any clique |
| RunProperties.RunInvariant | max_clique_visualizer.py:166-235 | every record of a run satisfies the frame invariant over the graph's nodes, and every reported R is a maximal clique |
| RunProperties.RunStack | max_clique_visualizer.py:168-171 | after a run the display still starts with the root frame's entry |
| RunProperties.InstantBest | max_clique_visualizer.py:130-150 | the instant run's best equals the step-by-step run's final best. It is a maximal clique as large as every result and every clique, and empty on a graph without nodes |
| Visualizer.FirstLongest | max_clique_visualizer.py:144 | `max(results, key=len)` returns the index of the first longest set: none is longer, and every earlier one is strictly shorter |
| BestTracking.ChampionIsFirstLongest | max_clique_visualizer.py:144 | keeping a set until a strictly larger one comes ends with the first longest set |
| Visualizer.Graph.constructor | max_clique_visualizer.py:85-90 | a new graph has no nodes and no edges, its counter at 1, and cleared visuals |
| Visualizer.Graph.AddNode | max_clique_visualizer.py:92-96 | a click too close to a node changes nothing. Otherwise the counter's id, which no node holds, is appended and the counter moves on by one |
| Visualizer.Graph.ResetVisuals | max_clique_visualizer.py:123-125 | clears the largest clique and the stack display |
| Visualizer.Graph.RemoveNode | max_clique_visualizer.py:98-102 | an absent id changes nothing. A present id is taken out of its one position in the node list while every other id keeps its place in the order, every edge mentioning it goes and all others stay, its neighbours lose it, and the visuals are cleared |
| Visualizer.Graph.AddEdge | max_clique_visualizer.py:104-109 | the edge set becomes the toggle of the old one; a self-loop request changes nothing, otherwise the visuals are cleared |
| Visualizer.Graph.GetNeighbors | max_clique_visualizer.py:116-121 | the loop over the edges returns exactly the neighbours of v |
| Visualizer.Graph.Bk | max_clique_visualizer.py:134-142 | the in-place recursion appends to the results exactly what the specification recursion reports, in order |
| Visualizer.Graph.RunInstant | max_clique_visualizer.py:130-150 | the largest clique becomes the first longest result, which is the step-by-step run's final best. It is a maximal clique at least as large as every clique of the graph, the returned size is its size, and the size is 0 on a graph without nodes |
| Visualizer.Graph.EnterFrame | max_clique_visualizer.py:168-171 | the display gets the frame's entry appended or written at its depth, and is cut to depth + 1 entries |
| Visualizer.Graph.ReportClique | max_clique_visualizer.py:185-198 | emits the line-3 report, and when R beats the best, replaces the best and emits the announcement |
| Visualizer.Graph.BkGen | max_clique_visualizer.py:166-235 | the frame appends exactly the specified records, and leaves the largest clique and the display as specified |
| Visualizer.Graph.IterateCandidates | max_clique_visualizer.py:201-235 | the loop over the snapshot of P appends the loop's specified records and leaves the specified fields |
| Visualizer.Graph.Visit | max_clique_visualizer.py:208-235 | one iteration emits lines 4 and 5, the child frame's records and line 6, and afterwards P has lost its first candidate and X has gained it |
| Visualizer.Graph.RunStepByStep | max_clique_visualizer.py:152-238 | the visuals are cleared, then the run emits exactly the specified records ending with the final record, and the fields end as specified |

## Left out

- Rendering, fonts, buttons, the event loop and the pseudocode panel
  (`draw_ui`, `Node.draw`, `ModernButton`). These are user interface only.
- Sound generation. It is floating point in a foreign library.
- Node coordinates, radius easing (`Node.update`) and `get_node_at`. These
  are floating-point geometry.
- Node colours, including the colouring of the result in `run_instant` and
  the colour reset in `reset_visuals`. They are display state that the
  search never reads.
- `generate_random`. It depends on randomness and coordinates.
- `handle_action`, `step_once` and `reset_all`. They are the driver that
  pulls records one at a time and plays sounds, not part of the search.
- Visualizer.Graph.AddNode: the `math.hypot(...) < 50` distance test is the
  parameter `tooClose`, a predicate on the existing node ids. Coordinates
  are not modelled.
- Visualizer.Graph.RemoveNode: takes the node's id, not the node object.
  Ids are distinct, so testing the id is testing the node.
- StepTrace.GenFrame: a record holds R, P and X as they were when it was
  emitted. In the source a record holds references to the frame's live
  sets, so an already emitted record of a frame later shows P and X
  updated by the loop. The model takes the value reading.
- StepTrace.StepRun: the run is modelled with the graph unchanged while
  its records are pulled. The source does not enforce this: the event loop
  handles clicks while a step-by-step run is in progress
  (`max_clique_visualizer.py:498-518`). An `add_edge` or `remove_node`
  mid-run calls `reset_visuals`, which empties the largest clique and the
  stack display, and the later records read the edited edges. After such
  an edit a later report can be announced again at a size already
  announced. The strict growth of the announcements that
  `RunProperties.RunBest` proves, and every other trace property, hold
  only for runs without edits.
- StepTrace.GenFrame: the generator is lazy, and a consumer can stop
  pulling records at any point. The model produces a frame's whole record
  sequence, with the largest clique and the display as they are once the
  frame is done.
- Topology.Intersect: Python iterates a set in an unspecified order. The
  model fixes one order, that of the node list, kept by every
  intersection. Which of several equally large cliques `max` returns
  follows that order.
- Visualizer.Graph.RunInstant: `max_clique` is the list `list(max_c)`. Here
  it is a set, so the order of its elements is not modelled.
- Visualizer.Graph.EnterFrame: the display line is the formatted text
  `Depth d: R=..., P=...`. Here it is the value `StackEntry(d, R, P)`.
- The narrative strings are tags carrying the values they print.
