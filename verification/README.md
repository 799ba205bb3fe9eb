# grapher core in Dafny

A Dafny model of the core of `grapher`, a small Go tool that turns Maven
`dependency:tree` console output into a directed graph of artifacts and
queries that graph. The model covers:

- **`DGraph`** (graph/graph.go): a titled list of nodes and edges. `NewDGraph`
  runs `build`, which derives three indices and rejects a repeated
  `(FromId, ToId)` pair or a repeated node id. The indices are id → node,
  from-id → ascending to-ids (kept sorted with `slices.BinarySearch`) and
  from-id → outgoing edges. On top of that come the queries `FindNodeLike`,
  `node`, `Connected`, `Subgraph` and `TreeShake`/`treeShakeAt`.
- **`KNodeBuilder`** (graph/builder.go): nodes registered under string keys.
  Each new key gets the next id from a counter.
- **`Set`** (datastruct/set.go): a map-backed set.
- **`ParseMvnTree`** (parser/mvn/tree.go). It has three stages:
  - cut the console lines into segments, each opened by
    `[INFO] --- dependency:`;
  - parse each line into an artifact name and a depth (the indent width
    divided by three), then fold the lines into named entries with a stack of
    parents (the `newEntry` and `addDep` closures);
  - emit one node per entry and one edge per dependency.

Files and modules:

| file | module | what |
|---|---|---|
| results.dfy | `Results` | `Result`, `Option`, two cardinality facts |
| text.dfy | `Text` | the `strings` functions the core calls (`HasPrefix`, `CutSuffix`, `TrimSpace`, `Split`, `Join`, `Contains`) and a bounded first-k replace used to describe labels |
| set.dfy | `DataStruct` | `Set` |
| graph.dfy | `Graph` | `Node`, `DEdge`, `DGraph`, `build`, `NewDGraph`, `node`, `FindNodeLike` |
| reach.dfy | `Paths` | paths, reachability and the stack discipline of a depth-first walk |
| connected.dfy | `Connectivity` | `Connected` |
| treeshake.dfy | `Shake` | `treeShakeAt`, `TreeShake` |
| subgraph.dfy | `Subgraphs` | `Subgraph` as written, a corrected walk, and the graph that separates them |
| dangling.dfy | `Dangling` | `Subgraph` as written on an edge into an id without a node, where it never ends |
| builder.dfy | `Builders` | `KNodeBuilder` |
| mvn_tree.dfy | `MvnTree` | `ParseMvnTree` |

Go's methods that mutate their receiver are pure functions here: a function
returns the new value. Go map iteration order is unspecified. Loops over a map
(`CopyKeys`, `Nodes`, the emit loop of `ParseMvnTree`) are therefore methods
that pick an arbitrary remaining key with `:|`, so their contracts hold for
every order. A Go `panic` becomes an `Err` result.

## Model

| member | source | states |
|---|---|---|
| DataStruct.NewSet | datastruct/set.go:39-42 | the new set holds no key |
| DataStruct.Add | datastruct/set.go:21-28 | the result reports whether the key was missing. Afterwards the key is present and every other key is unchanged. A key already present leaves the set as it was, and the size grows by one exactly when the key was new |
| DataStruct.CopyKeys | datastruct/set.go:30-37 | the copy lists every key of the set exactly once and nothing else |
| Text.CutSuffix | parser/mvn/tree.go:97-109 | the cut is reported exactly when the string ends in the suffix. The cut string plus the suffix gives the input back, and without the suffix the input is returned unchanged |
| Text.TrimSpaceShape | parser/mvn/tree.go:71 | the trimmed line is a slice of the input with only white space before and after it, and it neither starts nor ends with white space |
| Text.Split | parser/mvn/tree.go:10 | splitting yields at least one piece, and no piece contains the separator. Joining the pieces with the separator gives the input back |
| Text.Contains | graph/graph.go:84 | true exactly when the query occurs at some position of the label |
| Graph.BinarySearch | graph/graph.go:52 | on a sorted list, the index splits it into entries below the searched id and entries at or above it. The flag is true exactly when the id is in the list |
| Graph.InsertAscending | graph/graph.go:56-58 | inserting the new target at the search index keeps the target list strictly ascending, and adds exactly that target |
| Graph.IndexEdgeStep | graph/graph.go:49-68 | one edge step fails, with that edge's `(FromId, ToId)` as the error, exactly when the pair was seen before. Otherwise the indices describe the edges seen so far plus this one |
| Graph.BuildIndex | graph/graph.go:46-69 | the edge loop succeeds exactly when no `(FromId, ToId)` pair repeats. On failure it reports the first repeat. On success, `neighbours` maps each source id to its distinct targets in ascending order, and `nodeEdges` maps it to its outgoing edges in input order |
| Graph.IndexNodes | graph/graph.go:70-77 | the node loop succeeds exactly when no id repeats. On failure it reports the first repeated id. On success, `nodeMap` maps each listed id to the node that carries it |
| Graph.NewDGraph | graph/graph.go:296-310 | a graph is built exactly when edge pairs and node ids are both unique. A repeated edge is reported before a repeated id. The built graph keeps its title, nodes and edges, and its indices are consistent with them |
| Graph.LookupBuilt | graph/graph.go:91-97 | on a built graph, `node(id)` returns `(n, true)` exactly for the listed node `n` with that id |
| Graph.FindById | graph/graph.go:176-182 | the search finds a node exactly when some listed node has the id, and then returns the first such node |
| Graph.FindNodeLike | graph/graph.go:81-89 | returns exactly the listed nodes whose label contains the query |
| Graph.MatchingConcat | graph/graph.go:83-87 | filtering keeps the listed order: the result for a concatenation is the concatenation of the results |
| Graph.FindNodeLikeEmpty | graph/graph.go:81-89 | the empty query returns every node, in order |
| Connectivity.PushUnvisited | graph/graph.go:239-247 | the inner loop returns early exactly when the target is among the successors. Otherwise it pushes the successors not yet visited, in order |
| Connectivity.PopStep | graph/graph.go:230-248 | one round of the walk keeps the walk invariant. Stacked ids are reachable from the root, every expanded id has its successors visited or stacked, and no expanded id leads to the target. Each round also moves the termination measure down |
| Connectivity.Search | graph/graph.go:228-249 | the stack walk answers true exactly when the target is reachable from the root along one or more edges |
| Connectivity.Connected | graph/graph.go:215-250 | true exactly when a listed node has the root id and the target is reachable from it along one or more edges |
| Shake.TreeShakeAt | graph/graph.go:136-171 | `true` means that the node, or a node reachable from it, satisfies the predicate. With no ids marked at the start, `false` means that none does. The marked set only grows |
| Shake.ExploredNoMatch | graph/graph.go:149-170 | a search that fails from an empty marked set has checked every id reachable from the start |
| Shake.RemoveAt | graph/graph.go:112-124 | removing the i-th node shifts the later nodes down. It drops exactly the edges touching its id and deletes that id from the three indices, leaving other entries unchanged |
| Shake.WithoutConcat | graph/graph.go:121 | removing nodes keeps the survivors in their listed order: filtering a concatenation filters each part |
| Shake.KeepEdgesConcat | graph/graph.go:112-120 | the surviving edges keep their listed order |
| Shake.MatchesSurvive | graph/graph.go:121-124 | deleting the keys of ids that reach no match keeps every match of the other ids, whatever the predicate says of `Node{}` |
| Shake.PruneKeepsMatches | graph/graph.go:121-124 | deleting an id that reaches no match leaves the answer of every other id unchanged, provided `Node{}` fails the predicate |
| Shake.ShakeKeep | graph/graph.go:105-107 | keeping a node that still reaches a match keeps the loop invariant |
| Shake.ShakeDrop | graph/graph.go:112-124 | removing a node that reaches no match keeps the loop invariant |
| Shake.ShakeDone | graph/graph.go:99-134 | after the backward loop, the graph still indexes its nodes, and every node satisfying the predicate survives. If `Node{}` fails the predicate, the removed ids are exactly those of the nodes that reach no match, and every survivor still reaches one |
| Shake.TreeShake | graph/graph.go:99-134 | the result drops exactly the nodes in `gone` and their edges and index entries. Nodes satisfying the predicate always survive. Every removed node reaches no match in the original graph, for any predicate. If `Node{}` fails the predicate, the converse holds too: `gone` is exactly the set of nodes that reach no match, and every survivor still reaches one |
| Subgraphs.NodeAtListed | graph/graph.go:202 | on a built graph, a stored id looks up the listed node with that id |
| Subgraphs.DrainStep | graph/graph.go:192-206 | one round of the walk as written keeps its invariant. Collected ids are the marked ids plus the stacked ones, all are reachable from the root, and the collected edges are exactly those leaving a marked id |
| Subgraphs.TrailDone | graph/graph.go:192-206 | when the stack is empty, the collected ids are exactly the ids reachable from the root, and the collected edges are exactly the edges leaving them |
| Subgraphs.DrainPrefix | graph/graph.go:189-206 | the walk only appends to the collected nodes, so the root, collected first, stays first |
| Subgraphs.Subgraph | graph/graph.go:173-213 | an unknown root is reported as such. A successful result is a built graph with the same title. Its first node is the root, and it holds exactly the nodes reachable from the root and the edges leaving them |
| Subgraphs.SubgraphDiamondFails | graph/graph.go:187-208 | on nodes 1, 2, 3 with edges 1→2, 1→3, 3→2, the walk as written collects node 2 twice. `Subgraph(1)` then fails with a duplicate id 2, although all three nodes are reachable from 1 |
| Dangling.SubgraphDanglingSpins | graph/graph.go:192-206 | `NewDGraph` accepts node 1 with edges 1→5 and 0→5, where no node has id 5. The walk from 1 as written stacks `Node{}` for 5, marks 0 rather than 5, and stacks `Node{}` again on every later round. After `k + 2` rounds its stack still holds `Node{}` and it has collected `k + 3` nodes, so it never ends |
| Subgraphs.MarkedDoneAll | graph/graph.go:187-206 | the walk that marks ids on push ends with each reachable id collected once, and with each edge leaving them collected once |
| Subgraphs.ReachableSubgraph | graph/graph.go:173-213 | the corrected subgraph fails only for an unknown root. Otherwise it is a built graph whose first node is the root, holding exactly the nodes reachable from the root and the edges leaving them |
| Builders.Find | graph/builder.go:9-15 | returns the node stored under the key and true, or `Node{}` and false when the key is unknown. In a valid builder a found id lies in 1..counter |
| Builders.Add | graph/builder.go:17-33 | afterwards the key finds the returned node, and other keys are unaffected. A known key changes nothing and returns the stored node. A new key gets the given node with its id replaced by the next counter value |
| Builders.AddValid | graph/builder.go:24-33 | `Add` keeps the invariant that the counter equals the number of keys and the stored ids are exactly 1..counter, all distinct |
| Builders.AddTwice | graph/builder.go:21 | adding a key again, with any node, returns the node of the first `Add` and changes nothing |
| Builders.Nodes | graph/builder.go:35-41 | lists every stored node once per key. In a valid builder the listed ids are distinct |
| MvnTree.Segments | parser/mvn/tree.go:12-33 | every collected segment line is an `[INFO]` line that does not close a segment |
| MvnTree.ScanBlock | parser/mvn/tree.go:16-31 | an opener line, a body of segment lines, and a closing `[INFO]` or `[INFO] ----` line add exactly that body as one segment |
| MvnTree.ScanSkip | parser/mvn/tree.go:17-19 | a line without the `[INFO]` prefix is skipped, inside a segment or not |
| MvnTree.ScanSkipAll | parser/mvn/tree.go:16-19 | any run of lines without the `[INFO]` prefix leaves the scan unchanged: no segment is opened, closed or extended by them |
| MvnTree.ScanOutside | parser/mvn/tree.go:16-31 | outside a segment, any line that does not open one is skipped, including `[INFO]` lines such as banners, `[INFO] Scanning for projects...` and `[INFO] BUILD SUCCESS` |
| MvnTree.ScanOutsideAll | parser/mvn/tree.go:16-31 | outside a segment, any run of lines that open nothing leaves the scan unchanged |
| MvnTree.ScanMixed | parser/mvn/tree.go:16-31 | inside a segment, a run of segment lines mixed with non-`[INFO]` lines adds exactly its `[INFO]` lines, in order, and closes nothing |
| MvnTree.MixedBlock | parser/mvn/tree.go:16-31 | an opener, such a mixed body and a closer add one segment holding exactly the `[INFO]` lines of the body |
| MvnTree.GapBlock | parser/mvn/tree.go:16-31 | lines that open nothing, then an opener, a mixed body and a closer, add exactly the body's `[INFO]` lines as the next segment. Scanning resumes outside a segment, so whole outputs are scanned block by block from the initial state |
| MvnTree.Unclosed | parser/mvn/tree.go:16-33 | a segment never closed before the input ends is dropped |
| MvnTree.Indent | parser/mvn/tree.go:77-87 | the indent is the longest prefix made of `+ - space \| \` characters |
| MvnTree.CutScope | parser/mvn/tree.go:95-110 | the name is unchanged exactly when it ends in none of `:compile`, `:test`, `:provided`, `:runtime`. Otherwise exactly the first of those suffixes, in that order, is cut off |
| MvnTree.ParseRendered | parser/mvn/tree.go:71-112 | consider a line made of `[INFO]`, one character, an indent and a name. It parses to that name without its scope suffix, at depth (indent width) / 3 |
| MvnTree.Label | parser/mvn/tree.go:157-164 | the label built from the `:`-separated tokens of a name is the name with its first two `:` replaced by line breaks; later `:` stay |
| MvnTree.NewEntry | parser/mvn/tree.go:44-54 | a new name gets the next id and no dependencies. A known name keeps its id and dependencies and only takes the new depth. Other entries are untouched |
| MvnTree.AddDep | parser/mvn/tree.go:55-65 | only the parent's dependency list changes. It gains the name if the name was missing, and it stays free of repeats |
| MvnTree.NewEntryNumbered | parser/mvn/tree.go:44-54 | `newEntry` keeps ids numbered 1..counter, one per name |
| MvnTree.PopWhile | parser/mvn/tree.go:120-123 | pops a suffix of the parent stack, and each popped parent is at least as deep as the line. The loop never pops the last remaining parent, and a kept top above the bottom is shallower than the line |
| MvnTree.Step | parser/mvn/tree.go:114-145 | a line fails exactly when the stack holds one parent and the line is not deeper than the current depth (the Go code panics there). Otherwise the walk moves to the line's depth |
| MvnTree.StepStack | parser/mvn/tree.go:114-145 | after a line, the stack is a prefix of the old stack with the line's name on top. A deeper line is pushed onto the whole old stack |
| MvnTree.StepEntries | parser/mvn/tree.go:114-145 | a line registers its name at its depth. Once a stack exists, the line becomes a dependency of the parent just below it on the new stack |
| MvnTree.StepWellFormed | parser/mvn/tree.go:114-145 | a line keeps the entries numbered, and every dependency remains a registered name listed once |
| MvnTree.RunSegments | parser/mvn/tree.go:67-147 | running the segments in turn, each with a fresh parent stack, registers exactly the names of their lines when no line fails |
| MvnTree.Collect | parser/mvn/tree.go:9-147 | a successful parse has exactly one entry per name in any segment |
| MvnTree.CollectWellFormed | parser/mvn/tree.go:9-147 | the entries of a successful parse are numbered 1..n, and every dependency names an entry exactly once |
| MvnTree.DepEdgesUnique | parser/mvn/tree.go:169-172 | the edges of one entry go to the ids of its dependencies, one edge per dependency, none repeated |
| MvnTree.Emit | parser/mvn/tree.go:153-173 | in any map order, one node per entry (id and label) is emitted with no id repeated. The edge pairs are exactly the (entry, dependency) id pairs, none repeated |
| MvnTree.ParseMvnTree | parser/mvn/tree.go:9-179 | fails exactly when the parent stack would run empty, and reports that error. Otherwise the graph is built with the title. It holds one node per parsed name with ids 1..n, and one edge per dependency |

## Left out

- Draw, writeGraphAttr, DotGen and the OS helpers: they render DOT text and run external programs.
- Logging and the `Debug` branches: they have no effect on results.
- Concurrency, and `cmd/mtree/main.go`.
- Presentation fields: `DisplayId`, `RankSep`, `NodeSep`, `Ratio` and `Pad` (set by `NewDGraph`, copied by `Subgraph`) are not modelled.
- Node and edge `Label`: called `text` in the model, because `label` is a Dafny keyword.
- The `KNodeBuilder` map: the builder has no constructor in the core, and the model starts from an empty map (`EmptyBuilder`).
- Go map iteration order: modelled as an arbitrary choice, so the order of the nodes and edges returned by `Nodes`, `CopyKeys` and `ParseMvnTree` is not determined.
- Characters versus bytes: strings are sequences of characters. `l[7:]` in tree.go cuts seven bytes; the model cuts seven characters. The two agree whenever the character after `[INFO]` is ASCII, which it always is in Maven output.
- `TrimSpace`: covers the Unicode white space of Go's `unicode.IsSpace` as a fixed list.
- The panic at tree.go:126: a line at or above the current depth while the stack holds a single parent makes the Go code index an empty slice. It is modelled as `Err(EmptyParentStack(name))`.
- Unreachable branches in tree.go: the `l == ""` check at tree.go:72 cannot fire on a segment line, which always starts with `[INFO]`. The final `else` at tree.go:140-144 is unreachable. The `NewDGraph` error at tree.go:175-177 never fires, which `ParseMvnTree` proves (the result is `Built`).
- Subgraphs.Subgraph: requires every edge to end at a stored node (`EndsListed`). Without it the program has a defect: on an edge into an id with no node, the walk as written stacks `Node{}` and marks id 0 instead of the target. With an edge out of id 0 into such an id, it never stops. `Dangling.SubgraphDanglingSpins` shows this on node 1 with edges 1→5 and 0→5. No corrected walk for such graphs is modelled, because the source does not say what should happen to an edge whose target has no node.
- Subgraphs.ReachableSubgraph: the same `EndsListed` requirement as `Subgraph`.
- Shake.TreeShake: requires the nodes to have distinct ids indexed by `nodeMap`, which every graph from `NewDGraph` has. That a removed node reaches no match is stated for every predicate. The converse, that every node reaching no match is removed, is stated only when `Node{}` fails the predicate. Removed ids stay in other nodes' neighbour lists, and `treeShakeAt` then reads `Node{}` for them.
- Shake.TreeShake: graphs are values in the model. In Go, `NewDGraph` keeps the caller's `nodes` slice (graph.go:299), and `TreeShake` compacts it in place with `append(d.nodes[:i], d.nodes[i+1:]...)` (graph.go:121). That shifts the caller's backing array, and the model does not reflect this aliasing. The command-line program does not read that slice afterwards, so no result changes.
- Shake.TreeShakeAt: a `true` answer is only claimed to mean "some match is reachable". The converse is stated for a search that starts with nothing marked, which is how `TreeShake` calls it.
- MvnTree.ParseLine: its contract bounds only the depth and the name length. What it parses is stated by `MvnTree.ParseRendered` for lines in the shape Maven prints.
- Graph.LookupNode: its contract states only whether an id is found. The returned node is stated by `Graph.LookupBuilt` for built graphs.

## Findings

| source | as written | input that shows it | evidently intended | confidence | as-written member | corrected member |
|---|---|---|---|---|---|---|
| graph/graph.go:192-206 | `Subgraph` marks an id visited only when it is popped. An id with two predecessors can be stacked and collected twice, and `NewDGraph` then rejects the duplicate | nodes 1, 2, 3; edges 1→2, 1→3, 3→2; `Subgraph(1)` returns the error "Node id duplicate found, id: 2" | the subgraph of the ids reachable from the root (1, 2, 3 with all three edges), which needs marking on push | not executed | Subgraphs.SubgraphDiamondFails | Subgraphs.ReachableSubgraph |
