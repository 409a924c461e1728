# Verified model of llmwiki-serve's graph queries, git syncer and benchmark algorithms

Dafny models of the parts of llmwiki-serve whose behaviour is hardest to see from reading one function, with proofs
about all inputs, all runs and all interleavings.

- **Graph queries** (`GraphView`, `GraphNeighbors`, `GraphPaths`, `GraphOrder`, `GraphAgreement`, `GraphMarkers`,
  `GraphMarkerLimit`, `GraphQuery`, `GraphAnswers`, `GraphAnswerOrder`, `GraphMarkerOrder`).
  The loops over queue, visited set and edge indexes are methods. Their specification is an unbounded enumeration,
  of which a query returns the first `limit` entries: the ball around the start in order of discovery, or all simple
  paths in order of length. Since a limit cuts, order matters: `GraphAnswerOrder` and `GraphMarkerOrder` say, of the
  responses and in terms of nodes and edges alone, in which order everything comes and what a limit keeps. The searches are generic in the node type and take the adjacency as a function, which
  `View.Arcs` supplies for a concrete graph.
- **Git syncer** (`GitRepo`, `GitSyncer`, `GitProtocol`, `GitTheorems`, `GitAnswers`, `GitGeneration`, `GitMoves`, `GitSolo`).
  A git repository
  is a commit graph with HEAD, a dirty flag, the remote's branches and the local record of them; every command may fail, time out or
  raise. A sync thread is a step machine. `Syncer` is the class of the source, written in the source's order, and is
  proved to do what the step machine does for every sequence of command replies. `GitProtocol` lets any number of
  callers, sync threads and an outside world that commits, edits, switches branches, pushes and rewinds take turns;
  lock-protected regions are atomic, and so is a git command together with what its thread stores of the reply: the
  branch, the two commits, `fetch_count` and `generation`. No other thread writes those fields during a sync and
  `ensure_fresh` never reads them, so only `status()`, which is not modelled, could tell the order of these writes. The
  writes of a result and of the in-flight event are steps of their own. `GitTheorems` states what holds in every run,
  `GitAnswers` what `ensure_fresh` answers, `GitGeneration` when the generation counter is right, `GitMoves` which merge moved HEAD and on which branch, `GitSolo`
  what one undisturbed sync does, whichever of its commands go wrong.
- **Bundle validation** (`EvidenceDependencies`, `QrelRows`). The three-colour depth-first search over evidence
  dependencies, and the checks on evidence ids and relevance judgements.
- **Metrics** (`Ndcg`, `RankingMetrics`, `RunRows`, `RunRowNdcg`, `Bootstrap`). nDCG with its rearrangement argument,
  the other retrieval metrics and the inequalities between them, the loader checks that make the row-wise nDCG of the
  verified-source benchmark well defined, and the paired bootstrap interval.
- **Rank fusion and file names** (`RankFusion`, `WikiFileNames`). Reciprocal-rank fusion with its three dictionaries,
  and the allocator that gives every corpus row a file of its own.
- `Sequences`, `Sorting` and `Quotients` hold what the others share. A Python dictionary is a map, together with a list of its keys
  where insertion order is used.

## Where the code differs from what one might expect

- `GitSyncError` says that after a failed sync the served files are unchanged (src/llmwiki_serve/git_sync.py:57). That
  is so for every refused sync and for every failure before the merge. It is not so when the merge is cut off by its
  timeout or another exception after it has moved HEAD (`GitSolo.KilledMergeMovesHead`), nor when the merge succeeds and
  reading the new HEAD goes wrong, in whichever way. `GitSolo.FailedAndMoved` shows that these are the only cases of an
  undisturbed sync, whatever goes wrong. For runs, `GitTheorems.FailedSyncsLeaveHead` gives the results after which HEAD
  may have moved, and `GitMoves.MovedExactlyWhenLacking` says of a failed read when it has.
- A sync refuses to run on another branch than the configured one, but only looks once: when somebody checks out another
  branch between that look and the merge, the other branch is fast-forwarded (`GitMoves.SwitchedBranchIsMerged`);
  otherwise the merge acts on the branch that was checked (`GitMoves.MergeOnCheckedBranch`).
- `generation` can exceed the number of merges that moved HEAD: `merge --ff-only` succeeds without moving anything when
  HEAD already contains the target, which a user can bring about after the ancestor check
  (`GitTheorems.GenerationWithoutMove`). `GitGeneration` says exactly when it does, and that it takes somebody moving
  HEAD onto a commit that contains the target between the sync's read of HEAD and its merge.
- A lookup by source reference or tag may return `limit` + 1 nodes, because the limit is checked only after an edge
  (`GraphMarkerLimit.OneOverOnGraph` says for which graphs, `GraphMarkerLimit.OneOverIsReached` that there is one for
  every limit).
- Rank fusion lets a page that is repeated within one channel overtake pages ranked before it
  (`RankFusion.RepeatsOvertake`). Pages come back in order of first appearance exactly when no page within the limit
  scores less than a later one (`RankFusion.KeepsFirstSeenOrder`), and dominance needs only that the dominated page is
  not repeated.
- The page id in the sort key of rank fusion, and the second "document" fallback for file stems, never take effect.

## Model

| member | source | states |
|---|---|---|
| `GraphView.View.NodeById` | src/llmwiki_serve/graph_engine.py:219 | Looking an id up gives the last node with that id: later duplicates win, as in the id index. |
| `GraphView.AdjacentCovers` | src/llmwiki_serve/graph_engine.py:228-252 | The adjacency of a node holds exactly the arcs that an edge offers in the query direction, if its relation is allowed and both its ends are nodes of the graph. |
| `GraphView.AdjacentInOrder` | src/llmwiki_serve/graph_engine.py:243-252 | Arcs are tried in the order of their edges: edge indexes never decrease along an adjacency list. |
| `GraphView.AdjacentDistinct` | src/llmwiki_serve/graph_engine.py:228-241 | Only a self-loop can offer the same edge twice; all other arcs out of a node use different edges. |
| `GraphView.ReversedAdjacent` | src/llmwiki_serve/graph_engine.py:228-241 | Following edges in direction `in` is following the reversed graph in direction `out`, arc by arc, in the same order. |
| `GraphNeighbors.OrderIsBall` | src/llmwiki_serve/graph_engine.py:92-112 | The unbounded search of depth k lists a node if and only if it is reachable in at most k hops along allowed, correctly directed edges. |
| `GraphNeighbors.OrderByDistance` | src/llmwiki_serve/graph_engine.py:98-112 | Along that list the distance from the start never decreases and never exceeds the depth. |
| `GraphNeighbors.OrderPrefix` | src/llmwiki_serve/graph_engine.py:98-112 | The list of a smaller depth is a prefix of the list of a larger one. |
| `GraphNeighbors.ScanGivesOrder` | src/llmwiki_serve/graph_engine.py:98-112 | Scanning the arcs out of the nodes nearer than the depth, node by node, discovers exactly that list. |
| `GraphNeighbors.Expand` | src/llmwiki_serve/graph_engine.py:102-112 | One dequeued node: its arcs are tried in order until they run out or the limit is reached, and the queue stays in step with the nodes found. |
| `GraphNeighbors.Search` | src/llmwiki_serve/graph_engine.py:92-112 | The queue loop stops at the first arc that completes `limit` nodes and otherwise scans every arc of the depth-bounded ball; nodes and edge indexes are exactly those of the scanned arcs. It terminates on every graph. |
| `GraphNeighbors.LimitTruncates` | src/llmwiki_serve/graph_engine.py:98-112 | The limit only truncates: the nodes returned are the first `limit` nodes of the unbounded search, and a shorter result means nothing was cut. |
| `GraphNeighbors.NearestReturned` | src/llmwiki_serve/graph_engine.py:98-112 | A node inside the depth that was left out is at least as far away as every node that was returned. |
| `GraphNeighbors.UntruncatedEdges` | src/llmwiki_serve/graph_engine.py:102-105 | Without truncation the selected edges are exactly the allowed edges leaving, in the query direction, a node at distance below the depth. |
| `GraphNeighbors.EdgesUsedMembers` | src/llmwiki_serve/graph_engine.py:103-105 | Selected edge indexes are duplicate-free and are exactly those of the arcs tried. |
| `GraphOrder.DiscoverInOrder` | src/llmwiki_serve/graph_engine.py:102-112 | Nodes are listed in the order in which arcs first reach them. |
| `GraphOrder.EdgesUsedInOrder` | src/llmwiki_serve/graph_engine.py:103-105 | Edge indexes are selected in the order in which arcs first use them. |
| `GraphPaths.AllPathsMembers` | src/llmwiki_serve/graph_engine.py:137-166 | Sound and complete: the unbounded enumeration lists a path if and only if it is node-simple, runs from start to target along arcs of the graph, and has at most `max_depth` edges. |
| `GraphPaths.TreeMembers` | src/llmwiki_serve/graph_engine.py:141-166 | The partial paths that are ever queued are exactly the simple walks within the depth that have not met the target; this finite tree is what bounds the loop on cycles, self-loops and parallel edges. |
| `GraphPaths.TreeDistinct` | src/llmwiki_serve/graph_engine.py:145-166 | No partial path and no listed path occurs twice. |
| `GraphPaths.EdgesDeterminePath` | src/llmwiki_serve/graph_engine.py:145-155 | Two simple walks with the same edge indexes are the same path, so no edge-index sequence repeats either. |
| `GraphPaths.PathsByLength` | src/llmwiki_serve/graph_engine.py:141-166 | Along the unbounded list path lengths never decrease. |
| `GraphPaths.TreePrefix` | src/llmwiki_serve/graph_engine.py:141-166 | The list for a smaller depth is a prefix of the list for a larger one. |
| `GraphOrder.AllPathsInOrder` | src/llmwiki_serve/graph_engine.py:141-166 | The paths come shortest first, and equally long ones in the lexicographic order of their edge indexes. With soundness and completeness this fixes the list. |
| `GraphOrder.EdgesOnInOrder` | src/llmwiki_serve/graph_engine.py:159-162 | The selected edges stand in the order in which walking the listed paths first meets them. |
| `GraphOrder.NodesOnInOrder` | src/llmwiki_serve/graph_engine.py:156-158 | So do the selected nodes. |
| `GraphPaths.ExtendOne` | src/llmwiki_serve/graph_engine.py:142-166 | One dequeued partial path: each arc that does not return to it yields a listed path or a queued one, until the arcs or the limit run out. |
| `GraphPaths.ListPaths` | src/llmwiki_serve/graph_engine.py:133-166 | The loop returns the first `limit` paths of the unbounded enumeration, with the distinct nodes and edges on them; it terminates on every graph. |
| `GraphAgreement.SearchesAgree` | src/llmwiki_serve/graph_engine.py:81-173 | For start != target and equal depth, direction and filter, the untruncated neighbourhood contains the target if and only if some path is listed. |
| `GraphAgreement.FirstPathIsShortest` | src/llmwiki_serve/graph_engine.py:120-173 | The length of the first listed path is the search distance of the target. |
| `GraphAgreement.UnlistedNotShorter` | src/llmwiki_serve/graph_engine.py:120-173 | A path beyond the limit is at least as long as every listed one. |
| `GraphAgreement.ScanLengthUnique` | src/llmwiki_serve/graph_engine.py:98-112 | The search contract leaves no choice of where to stop. |
| `GraphAgreement.BacklinksAreReversedNeighbors` | src/llmwiki_serve/graph_engine.py:55-60 | Backlinks, at any depth and limit, return the same nodes and edge indexes, in the same order, as forward neighbours on the reversed graph. |
| `GraphAgreement.BothIsSymmetric` | src/llmwiki_serve/graph_engine.py:228-241 | In direction `both`, u is within depth k of v if and only if v is within depth k of u. |
| `GraphAgreement.StepIsLeads` | src/llmwiki_serve/graph_engine.py:228-252 | One hop is possible exactly when some allowed edge leads that way. |
| `GraphMarkers.MatchMarkerIds` | src/llmwiki_serve/graph_engine.py:254-268 | Marker nodes are exactly the nodes of the kind whose id or label is the value, or whose id is the prefixed value when the value has no prefix yet. |
| `GraphMarkerOrder.MarkersInNodeOrder` | src/llmwiki_serve/graph_engine.py:264-268 | The marker ids come in node order, one for every matching node. |
| `GraphMarkers.UntruncatedNodes` | src/llmwiki_serve/graph_engine.py:192-206 | Without truncation a lookup lists exactly the markers and the nodes pointing at one by the relation. |
| `GraphMarkers.UntruncatedMarkerEdges` | src/llmwiki_serve/graph_engine.py:197-202 | Without truncation it meets exactly the edges between nodes of the graph that have the relation and end at a marker. |
| `GraphMarkers.AtMostOneOver` | src/llmwiki_serve/graph_engine.py:203-206 | The limit is checked late, so at most `limit` + 1 nodes are listed, and fewer than `limit` only when nothing was cut. |
| `GraphMarkerLimit.OneOverExactly` | src/llmwiki_serve/graph_engine.py:195-206 | A lookup exceeds its limit if and only if its last unchecked step filled the last slot and the next step lists a new node. |
| `GraphMarkerLimit.OneOverOnGraph` | src/llmwiki_serve/graph_engine.py:192-206 | On the graph: a lookup exceeds its limit if and only if some marker that is not listed yet finds limit - 1 nodes listed and the first edge pointing at it comes from yet another node. |
| `GraphMarkerLimit.OneOverIsReached` | src/llmwiki_serve/graph_engine.py:192-206 | The bound limit + 1 is tight for every limit and every relation filter: there is a graph whose lookup by a tag can stop in one place only, with limit + 1 nodes. |
| `GraphAnswers.AnswerOverLimit` | src/llmwiki_serve/graph_engine.py:175-207 | A marker response has more nodes than the limit if and only if some marker overflows it in that way, and then exactly limit + 1. |
| `GraphAnswers.CrowdAnswer` | src/llmwiki_serve/graph_engine.py:70-78 | For every limit and filter there is a graph on which every by-tag answer has limit + 1 nodes. |
| `GraphAnswers.LookupEdgesKept` | src/llmwiki_serve/graph_engine.py:278-287 | The closing step of a marker response, truncated or not, drops nothing but repeated edge indexes. |
| `GraphAnswers.MarkerMeaning` | src/llmwiki_serve/graph_engine.py:175-207 | Below the limit a marker response holds exactly the markers and the nodes pointing at one by the relation, and, up to the edge limit, exactly those edges, each once. |
| `GraphMarkerOrder.MarkersInOrder` | src/llmwiki_serve/graph_engine.py:192-207 | A marker response holds nodes and edges in the order of the lookup: marker by marker, each followed by the edges that point at it, by index. From the limit on, it holds exactly those up to the first place where the limit is looked at and the limit-th node has shown up. |
| `GraphMarkers.MarksChecked` | src/llmwiki_serve/graph_engine.py:194-206 | Every step of a lookup that is not followed by a limit check is followed by one that is, which is what the late check rests on. |
| `GraphMarkers.FollowMarker` | src/llmwiki_serve/graph_engine.py:195-204 | One marker: list it, then every source pointing at it, with the limit looked at after each edge. |
| `GraphMarkers.Lookup` | src/llmwiki_serve/graph_engine.py:192-206 | The nested loops stop at the first check point with at least `limit` nodes and otherwise take every step. |
| `GraphQuery.Closed` | src/llmwiki_serve/graph_engine.py:278-287 | The closing step keeps an edge index, once, if and only if it was selected and both endpoints are returned. |
| `GraphQuery.ClosedInOrder` | src/llmwiki_serve/graph_engine.py:278-287 | What the closing step keeps stays in the order in which it was first selected. |
| `GraphQuery.ClosedKeepsAll` | src/llmwiki_serve/graph_engine.py:278-287 | Closing drops nothing from distinct edges that run between selected nodes. |
| `GraphQuery.AnswerIsSubgraph` | src/llmwiki_serve/graph_engine.py:270-296 | Every response is a well-formed subgraph: duplicate-free known nodes, edges from distinct input indexes with both endpoints returned, at most `limit` edges. |
| `GraphQuery.Respond` | src/llmwiki_serve/graph_engine.py:270-296 | The response loop returns exactly the selected nodes, the closed edges cut at the limit, and the paths. |
| `GraphQuery.NeighborsQuery` | src/llmwiki_serve/graph_engine.py:81-118 | Missing or unknown start nodes are errors; otherwise the response is that of the bounded search, a subgraph of at most `limit` nodes. |
| `GraphQuery.NeighborsMeaning` | src/llmwiki_serve/graph_engine.py:92-118 | The nodes of the response are the first `limit` nodes of the unbounded order; below the limit its edges are, up to the edge limit, all edges that search uses. |
| `GraphAnswerOrder.NeighborsInOrder` | src/llmwiki_serve/graph_engine.py:92-118 | A neighbours or backlinks response: the start, then each node in the order in which edges of the nodes before it first reach it, by position of that node and then by edge index; the edges are the first `limit` of those used, in the order in which they first leave a listed node. Below the limit those used are all that leave a node nearer than the depth; when the last node fills the limit, those that leave a listed node no later than the last node is reached. |
| `GraphQuery.PathsQuery` | src/llmwiki_serve/graph_engine.py:120-173 | Missing or unknown endpoints are errors, start = target answers the trivial path, otherwise the first `limit` paths with their nodes and edges. |
| `GraphQuery.PathsMeaning` | src/llmwiki_serve/graph_engine.py:168-173 | Closing drops no edge of a listed path. |
| `GraphAnswerOrder.PathsInAnswer` | src/llmwiki_serve/graph_engine.py:133-173 | A paths response lists simple paths of the graph within the depth, shortest first and then by edge indexes; a path that is left out comes after all of them, and none is left out below the limit. Its nodes are those on the listed paths, its edges the first `limit` distinct edges met when walking the listed paths in order. |
| `GraphAnswerOrder.TrivialAnswer` | src/llmwiki_serve/graph_engine.py:125-131 | From a node to itself the response is that node and one path without edges. |
| `GraphQuery.MarkerQuery` | src/llmwiki_serve/graph_engine.py:175-207 | A missing value is an error; otherwise the response is that of the lookup, a subgraph of at most `limit` + 1 nodes. |
| `GraphAnswers.BacklinksAnswer` | src/llmwiki_serve/graph_engine.py:55-60 | Backlinks on a graph and forward neighbours on the reversed graph answer with the same nodes in the same order and the same edges turned round. |
| `GraphAnswers.NeighborsAgreeWithPaths` | src/llmwiki_serve/graph_engine.py:81-173 | For equal start, depth, direction and filter: a node in a neighbours answer is the target of some path in the paths answer, and the other way round if the neighbours answer is below its limit. |
| `GraphQuery.Query` | src/llmwiki_serve/graph_engine.py:48-79 | Every operation answers as its own search specifies, unknown operations fail, and every answer is a well-formed subgraph. |
| `GitRepo.CommandKeepsHead` | src/llmwiki_serve/git_sync.py:263-291 | Whatever git command the syncer runs, and however it ends, HEAD stays or moves to a descendant, and only a merge that did not exit with an error code moves it. |
| `GitRepo.AncestorTransitive` | src/llmwiki_serve/git_sync.py:284-290 | The ancestor relation behind the checks is transitive. |
| `GitRepo.AncestorStable` | src/llmwiki_serve/git_sync.py:284-290 | New commits do not change the ancestors of old ones, so an ancestor check stays true under interference. |
| `GitSyncer.ReceiveLowersRank` | src/llmwiki_serve/git_sync.py:246-293 | Every reply brings the step machine of a sync nearer to its end. |
| `GitSyncer.Syncer.constructor` | src/llmwiki_serve/git_sync.py:133-159 | A new syncer is idle, has tried nothing and knows nothing. |
| `GitSyncer.Syncer.EnterLocked` | src/llmwiki_serve/git_sync.py:163-174 | Under the lock a caller joins the sync in flight, or starts a due one and stamps it, or changes nothing. |
| `GitSyncer.Syncer.ResolveRoot` | src/llmwiki_serve/git_sync.py:247-252 | The root is resolved once; any failure to resolve it is an unexpected failure. The root is known afterwards exactly when it was, or the reply is a success. |
| `GitSyncer.Syncer.CheckBranch` | src/llmwiki_serve/git_sync.py:253-260 | A branch other than the configured one blocks the sync; the branch field is set exactly when the sync goes on. |
| `GitSyncer.Syncer.UpstreamBranch` | src/llmwiki_serve/git_sync.py:261-303 | The upstream branch is the configured one, or the current branch if the reply names none or exits nonzero; the fetch is counted before it runs, exactly when the sync goes on. |
| `GitSyncer.Syncer.FetchHeads` | src/llmwiki_serve/git_sync.py:264-279 | Fetch, then read the fetched commit and HEAD; both are stored when all three succeed, and equal commits end the sync unchanged; otherwise the first failure is reported and nothing is stored. |
| `GitSyncer.Syncer.CheckFastForward` | src/llmwiki_serve/git_sync.py:280-289 | Dirty, ahead and diverged checkouts are refused, each with its own reason. Same as the step machine. |
| `GitSyncer.Syncer.FastForward` | src/llmwiki_serve/git_sync.py:290-293 | When the merge and the read of the new HEAD succeed, the new HEAD is stored and the generation counted; otherwise the first failure is reported and nothing is stored. |
| `GitSyncer.Syncer.SyncOnce` | src/llmwiki_serve/git_sync.py:246-293 | For every sequence of command replies the method ends with the result, and the fields, of the step machine. |
| `GitSyncer.Syncer.RunSync` | src/llmwiki_serve/git_sync.py:215-244 | However the sync ends, its result is written and the in-flight event is cleared, exactly as the step machine does with the same replies. |
| `GitSyncer.RunResult` | src/llmwiki_serve/git_sync.py:218-239 | From a result to its end a sync thread makes exactly the writes of success or failure and clears the in-flight event. |
| `GitProtocol.StepInv` | src/llmwiki_serve/git_sync.py:161-293 | Every step of callers, sync threads and the outside world keeps all invariants: single flight, agreement of error and state, cooldown, counters, HEAD safety. |
| `GitProtocol.SingleFlightKept` | src/llmwiki_serve/git_sync.py:163-174 | The in-flight event always belongs to the one thread that is inside the sync body. |
| `GitProtocol.ResultsKept` | src/llmwiki_serve/git_sync.py:218-243 | `_last_error` always tells the last recorded result, and agrees with `_state` except between the two writes. |
| `GitProtocol.CooldownKept` | src/llmwiki_serve/git_sync.py:163-174 | Start stamps stay at least a cooldown apart although the clock is read twice per start. |
| `GitProtocol.CountersKept` | src/llmwiki_serve/git_sync.py:263-292 | The counters stay ordered, and every counted generation stands for a successful merge. |
| `GitProtocol.HeadsKept` | src/llmwiki_serve/git_sync.py:274-293 | A thread about to merge has seen that its HEAD is an ancestor of the fetched commit, and a thread that moved HEAD can only end in a result that admits it. |
| `GitProtocol.EnterSyncer` | src/llmwiki_serve/git_sync.py:163-174 | The step of a caller that enters and the locked method of the class leave the same fields, start a thread in the same cases, and hand out the same event. |
| `GitTheorems.RunInv` | src/llmwiki_serve/git_sync.py:161-293 | The invariants hold in every state of every run. |
| `GitTheorems.AtMostOneSync` | src/llmwiki_serve/git_sync.py:163-174 | In every interleaving at most one thread is inside the sync body, and it owns the in-flight event. |
| `GitTheorems.OwnStepsBounded` | src/llmwiki_serve/git_sync.py:215-239 | Between any two states of a run, a sync thread takes at most as many own steps as its remaining rank, whatever happens in between. |
| `GitTheorems.ThreadCanStep` | src/llmwiki_serve/git_sync.py:215-239 | An unfinished sync thread can always take a step. |
| `GitTheorems.NoLostWakeup` | src/llmwiki_serve/git_sync.py:175-183 | A blocked caller waits on an event that is set or whose thread can go on, and after 16 own steps of that thread, successful or not, the event is set. |
| `GitTheorems.SyncerNeverLosesCommits` | src/llmwiki_serve/git_sync.py:246-293 | Under arbitrary interference no step of the syncer loses a commit reachable from HEAD: the new HEAD is the old one or a descendant. |
| `GitTheorems.FailedSyncsLeaveHead` | src/llmwiki_serve/git_sync.py:254-291 | A blocked sync never moved HEAD, nor did a failing one, except when it failed reading HEAD after the merge or its merge was cut off by a timeout or another exception. |
| `GitAnswers.RunRecords` | src/llmwiki_serve/git_sync.py:218-243 | In every state of every run the recorded results are how the syncs ended, in the order in which they were started, and only the sync started last can be inside the sync body. |
| `GitAnswers.AnswersTellLatestResult` | src/llmwiki_serve/git_sync.py:175-183 | A caller is answered in two ways only: it gives up waiting for an event that is not set and is answered True, or it reads and is answered True if and only if the latest sync that has recorded a result failed; then there is such a sync. |
| `GitAnswers.WokenAfterResult` | src/llmwiki_serve/git_sync.py:177-183 | A caller is woken only when the sync it waits for is over, recorded and no longer in flight, and then still has to read. |
| `GitAnswers.WokenReadsOwnOrLater` | src/llmwiki_serve/git_sync.py:177-183 | What a woken caller reads is the result of the sync it waited for or of a later one. |
| `GitTheorems.IdleStateAgrees` | src/llmwiki_serve/git_sync.py:218-244 | With no sync in flight an error is stored if and only if the state is not idle, synced or updated, and every started sync has recorded its result. |
| `GitTheorems.CountersOrdered` | src/llmwiki_serve/git_sync.py:263-292 | generation <= fetch_count <= attempts started, in every state of every run. |
| `GitGeneration.GenerationCountsMerges` | src/llmwiki_serve/git_sync.py:290-292 | In every state of every run each successful merge has been counted, or its read was lost, or the read is pending; the generation exceeds the merges that moved HEAD if and only if merges into a HEAD that already contained the target outnumber the lost and pending reads. Without such merges it never exceeds the merges that moved HEAD, and equals their number if and only if no read is lost or pending. |
| `GitGeneration.IdleZero` | src/llmwiki_serve/git_sync.py:290 | No merge so far found the target in HEAD already if and only if HEAD lacked the target at every successful merge. |
| `GitGeneration.GenerationWithoutOvertaking` | src/llmwiki_serve/git_sync.py:275-292 | In a run in which nobody outside moves HEAD onto a commit containing the target between a sync's read of HEAD and its merge, no merge finds its target in HEAD already, and the generation counts the moves of HEAD, up to reads that are lost or pending. |
| `GitTheorems.MergeMovesHead` | src/llmwiki_serve/git_sync.py:284-290 | A successful merge moves HEAD if and only if HEAD did not contain the fetched commit yet, which is so whenever HEAD is still the commit the sync read. |
| `GitMoves.MovedExactlyWhenLacking` | src/llmwiki_serve/git_sync.py:290-293 | In every run, a thread that reports an update, or fails at the read of the new HEAD, has merged, and has moved HEAD if and only if HEAD did not contain its target yet at that merge. |
| `GitMoves.MergeOnCheckedBranch` | src/llmwiki_serve/git_sync.py:253-260 | In every run a merge acts on the branch the thread has checked, the configured one if there is one, unless somebody outside has checked out another branch in between. |
| `GitMoves.SwitchedBranchIsMerged` | src/llmwiki_serve/git_sync.py:253-290 | From every reachable state with a thread about to merge into the HEAD it has read, the outside world can switch to any other branch, and then that branch is fast-forwarded. |
| `GitTheorems.GenerationWithoutMove` | src/llmwiki_serve/git_sync.py:284-293 | A run in which the user pulls between the ancestor check and the merge: generation is 1 and no merge moved HEAD. |
| `GitTheorems.StartsExactlyWhenDue` | src/llmwiki_serve/git_sync.py:161-174 | A caller that enters starts a sync if and only if no thread is inside the sync body and every earlier start is at least a cooldown ago; otherwise it waits for the sync in flight, or is answered from a result that has been recorded. |
| `GitTheorems.AttemptsSpaced` | src/llmwiki_serve/git_sync.py:163-174 | The a-th and b-th starts are at least b - a cooldowns apart. |
| `GitTheorems.AttemptsInWindow` | src/llmwiki_serve/git_sync.py:163-213 | Any window of width T holds at most floor(T / cooldown) + 1 starts, for a positive cooldown and every interleaving. |
| `GitTheorems.PossibleRepliesFit` | src/llmwiki_serve/git_sync.py:305-313 | Every reply git can give makes sense for its command, so the step system rules nothing out. |
| `GitSolo.SoloFollowsVerdict` | src/llmwiki_serve/git_sync.py:246-293 | Without interference or failure the result is decided by the repository alone: equal, dirty, behind, ahead and diverged match the ancestor relation, and only a clean checkout that is behind moves, to the fetched commit. |
| `GitSolo.SoloStopsEarly` | src/llmwiki_serve/git_sync.py:253-273 | A detached HEAD, a branch other than the configured one or a missing upstream ends the sync before the repository is changed; all fields afterwards, of which only the missing upstream has counted a fetch and set the branch. |
| `GitSolo.SecondSyncChangesNothing` | src/llmwiki_serve/git_sync.py:246-293 | A clean checkout that is behind reaches the fetched commit, and a second sync answers False and leaves the repository as it is. |
| `GitSolo.FailureAfterMergeMovesHead` | src/llmwiki_serve/git_sync.py:290-292 | Every clean checkout that is behind moves HEAD and then reports a failure, without counting a generation, when the merge is cut off after it took effect or the read of the new HEAD goes wrong. |
| `GitSolo.KilledMergeMovesHead` | src/llmwiki_serve/git_sync.py:233-234 | In particular when the merge has moved HEAD and is then killed by its timeout: the sync reports that timeout. |
| `GitSolo.FailedAndMoved` | src/llmwiki_serve/git_sync.py:56-57 | Whichever commands go wrong, with a nonzero exit, a timeout or another exception, before or after taking effect: an undisturbed sync fails with HEAD moved if and only if nothing keeps it from its merge, the checkout as the sync learns of it is clean and behind, and the merge is cut off after it took effect, or succeeds and the read of the new HEAD goes wrong. |
| `GitSolo.OneFaultMovesHead` | src/llmwiki_serve/git_sync.py:56-57 | With one command going wrong: if and only if the checkout is clean and behind, and that command is the read of the new HEAD, or the merge after it took effect. |
| `GitSolo.OneFaultReported` | src/llmwiki_serve/git_sync.py:230-243 | Where the checkout would be fast-forwarded, one command that goes wrong is reported with its own stage and kind: nonzero exit, timeout or unexpected failure; a failing root is always unexpected, and a question about ancestors that exits nonzero is taken for a no. No generation is counted, and a fetch exactly when the upstream had been found. |
| `GitSolo.SoloIsRun` | src/llmwiki_serve/git_sync.py:246-293 | From every reachable state, and whichever commands go wrong, the concurrent system can go on so that a sync thread ends exactly as it does undisturbed, with the same fields and the same repository. |
| `EvidenceDependencies.CheckUniqueIds` | scripts/benchmark_adapters/bundle_validator.py:484-505 | The loader accepts if and only if no evidence id occurs twice. |
| `EvidenceDependencies.CheckReferences` | scripts/benchmark_adapters/bundle_validator.py:547-564 | The first loop accepts if and only if every dependency is another, known evidence row of the same query; otherwise it reports the defect of the first dependency, in file order, that is not. |
| `EvidenceDependencies.Walk.Visit` | scripts/benchmark_adapters/bundle_validator.py:566-577 | The three-colour visit either finds a cycle or finishes the node, keeping grey = current path and black = a topologically ordered list; the uncoloured nodes bound its recursion. |
| `EvidenceDependencies.ValidateDependencies` | scripts/benchmark_adapters/bundle_validator.py:546-580 | The validator accepts if and only if the references are in order and the dependency graph is acyclic, and then a topological order exists; it reports a cycle exactly when there is one, and otherwise the defect of the first dependency that is not in order. |
| `EvidenceDependencies.TopologicalIsAcyclic` | scripts/benchmark_adapters/bundle_validator.py:566-580 | A complete topological order excludes every cycle. |
| `EvidenceDependencies.ChainStaysInQuery` | scripts/benchmark_adapters/bundle_validator.py:560-564 | A chain of accepted dependencies never leaves the query it starts in. |
| `Ndcg.BestGainsAreBest` | scripts/benchmark_adapters/nomiracl_ko_runner.py:1114-1121 | Any distinct documents together gain at most as much as the same number of best judgements. |
| `Ndcg.DominatedDiscounts` | scripts/benchmark_adapters/nomiracl_ko_runner.py:1124-1127 | Rearrangement: a list whose prefix sums are nowhere larger has no larger discounted sum, for any positive falling discount. |
| `Ndcg.EqualDiscountsEqualLists` | scripts/benchmark_adapters/nomiracl_ko_runner.py:1124-1127 | And it has an equal discounted sum only if it is the same list. |
| `Ndcg.IdealDominates` | scripts/benchmark_adapters/nomiracl_ko_runner.py:1109-1121 | Every prefix of a duplicate-free ranking gains at most as much as the same prefix of the ideal. |
| `Ndcg.NdcgBounded` | scripts/benchmark_adapters/nomiracl_ko_runner.py:1109-1127 | nDCG@k is at most 1 for every duplicate-free ranking and all judgements, and at least 0 if no judgement is negative. |
| `Ndcg.IdealPositive` | scripts/benchmark_adapters/nomiracl_ko_runner.py:1114-1119 | The ideal sum is positive if and only if k is positive and some document is judged relevant. |
| `Ndcg.NdcgOneMeansIdeal` | scripts/benchmark_adapters/nomiracl_ko_runner.py:1109-1127 | With a relevant judgement and a positive k, nDCG@k is 1 if and only if the gains of the first k places are the sorted ideal ones, place by place. |
| `Ndcg.DcgAddsUp` | scripts/benchmark_adapters/nomiracl_ko_runner.py:1124-1127 | The discounted sum starts at nothing, and each further relevance adds its gain times the discount of its place. |
| `Sorting.SortLaws` | scripts/benchmark_adapters/nomiracl_ko_runner.py:1114-1116 | Sorting gives an ordered permutation. |
| `RankingMetrics.MrrAt` | scripts/benchmark_adapters/nomiracl_ko_runner.py:1138-1142 | The early-return loop gives 1 over the place of the first relevant document, or 0. |
| `RankingMetrics.MapLoop` | scripts/benchmark_adapters/nomiracl_ko_runner.py:1151-1161 | The accumulating loop computes the sum of precisions at relevant places among the first k over the number of relevant documents. |
| `RankingMetrics.EachPlaceCounts` | scripts/benchmark_adapters/nomiracl_ko_runner.py:1130-1161 | Recall@k is the share of relevant documents among the first k places. MAP starts at nothing, and the next place adds, if it holds a relevant document, the precision up to there over the number of relevant documents, and otherwise nothing. |
| `RankingMetrics.CutoffCounts` | scripts/benchmark_adapters/nomiracl_ko_runner.py:1130-1161 | For j <= k, recall and MAP at k exceed those at j if and only if a relevant document stands at a place from j to k - 1. |
| `RankingMetrics.MetricChain` | scripts/benchmark_adapters/nomiracl_ko_runner.py:1089-1106 | MRR@10 / P <= MAP@100 <= Recall@100 <= 1, with P the number of relevant documents, for every duplicate-free ranking. |
| `RankingMetrics.RecallGrows` | scripts/benchmark_adapters/nomiracl_ko_runner.py:1130-1135 | Recall does not fall as the cutoff grows. |
| `RankingMetrics.PrecisionAndRecall` | scripts/benchmark_adapters/nomiracl_ko_runner.py:1130-1148 | k times Precision@k equals the number of relevant documents times Recall@k. |
| `RankingMetrics.SwapHits` | scripts/benchmark_adapters/nomiracl_ko_runner.py:1130-1161 | Swapping a relevant document ahead of an adjacent irrelevant one lowers no hit count and no precision sum at any cutoff. |
| `RankingMetrics.SwapReciprocalRank` | scripts/benchmark_adapters/nomiracl_ko_runner.py:1138-1142 | Nor does it lower the reciprocal rank. |
| `RankingMetrics.SwapNdcg` | scripts/benchmark_adapters/nomiracl_ko_runner.py:1109-1127 | Nor does it lower nDCG, as long as the document that moves up is judged at least as relevant. |
| `RankingMetrics.PositiveIsRelevant` | scripts/benchmark_adapters/nomiracl_ko_runner.py:1095 | The positive ids are exactly the documents whose judgement is positive. |
| `RankingMetrics.SwapLowersNothing` | scripts/benchmark_adapters/nomiracl_ko_runner.py:1089-1106 | Swapping a relevant document ahead of an adjacent irrelevant one lowers none of the seven metrics of the query. |
| `RankingMetrics.ComputeQueryMetrics` | scripts/benchmark_adapters/nomiracl_ko_runner.py:1089-1106 | Duplicate rankings and queries without a positive judgement are errors; otherwise all seven metrics are returned, for negative judgements too, and they satisfy the chain and the upper bounds; nDCG is not negative when no judgement is. |
| `RankingMetrics.OneRelevant` | scripts/benchmark_adapters/nomiracl_ko_runner.py:1089-1106 | All seven numbers of a ranking whose only relevant document among the first 100 stands at place i: for instance MAP@100 is 1 / (i + 1) over the number of relevant documents, MRR@10 is 1 / (i + 1) below 10 and 0 from there on, and nDCG@10 the quotient of two discounts when no other document is relevant. |
| `RankingMetrics.IdealAttained` | scripts/benchmark_adapters/nomiracl_ko_runner.py:1114-1121 | Ranking exactly the relevant documents, most relevant first, has nDCG 1 at every cutoff. |
| `QrelRows.CheckQrels` | scripts/benchmark_adapters/bundle_validator.py:449-475 | Judgement rows are accepted if and only if every query has distinct documents and non-negative relevances; otherwise the first row that spoils this is reported, as a repetition if it repeats a document of its query and as negative if it does not. |
| `QrelRows.AcceptedNdcgBounded` | scripts/benchmark_adapters/bundle_validator.py:449-475 | So accepted judgements give an nDCG between 0 and 1 for every query and every duplicate-free ranking. |
| `RunRows.CheckRows` | scripts/verified_source_benchmark.py:470-532 | The reading loop accepts if and only if all ranks are positive and, within a run and query, no rank and no document occurs twice. |
| `RunRows.ContiguousRanks` | scripts/verified_source_benchmark.py:595-600 | Sorted ranks equal 1, 2, ..., n if and only if the ranks are distinct and between 1 and n. |
| `RunRows.ValidateGroups` | scripts/verified_source_benchmark.py:581-600 | The grouping loops accept if and only if the sorted ranks of every run and query count up from 1. |
| `RunRows.LoadRuns` | scripts/verified_source_benchmark.py:470-578 | Rows are accepted if and only if there are some and every run and query has distinct documents and each rank from 1 to n once; each error is reported only for its own defect. |
| `RunRowNdcg.RowNdcgIsNdcg` | scripts/verified_source_benchmark.py:979-991 | On every accepted group the row-wise nDCG equals the nDCG of the documents listed by rank, which are distinct, so it lies between 0 and 1. |
| `RunRowNdcg.RowDcgPermuted` | scripts/verified_source_benchmark.py:979-984 | The row-wise sum does not depend on the order of the rows. |
| `RunRowNdcg.SameIdeal` | scripts/verified_source_benchmark.py:985-986 | Keeping irrelevant judgements in the ideal list does not change the ideal sum. |
| `RunRowNdcg.RankOrder` | scripts/verified_source_benchmark.py:595-600 | In a well-ranked group sorted by rank, place i holds rank i + 1 and the documents are distinct. |
| `Bootstrap.PercentileIsNearestRank` | scripts/verified_source_benchmark.py:1847-1854 | For percentages from 0 to 100 the percentile is the least of the values that at least that share of the values does not exceed, counted by places. |
| `Bootstrap.PercentileMonotone` | scripts/verified_source_benchmark.py:1847-1854 | The percentile is one of the values, never falls as the percentage grows, and is the minimum or maximum outside 0 to 100. |
| `Bootstrap.MeanBounds` | scripts/verified_source_benchmark.py:1843-1844 | A mean lies between any bounds of its values. |
| `Bootstrap.PairedBootstrap` | scripts/verified_source_benchmark.py:927-962 | For every sequence of draws: different query ids, no queries and no samples are told apart, and otherwise the interval is the two percentiles of the resampled means. |
| `Bootstrap.IntervalInRange` | scripts/verified_source_benchmark.py:946-957 | For every sequence of draws lower <= upper, both are resampled means, and both bounds and the observed mean stay within any bounds of the per-query deltas. |
| `Bootstrap.EqualDeltasGivePoint` | scripts/verified_source_benchmark.py:946-957 | When all deltas are equal the interval is that point. |
| `Bootstrap.MeansOfRuns` | scripts/verified_source_benchmark.py:946-954 | The number of queries times the mean delta is the total of the candidate less that of the baseline; the same holds of every resample with the queries it drew. |
| `Bootstrap.TotalLaws` | scripts/verified_source_benchmark.py:1843-1844 | Totals add up over concatenation, from nothing and from single values. |
| `Bootstrap.IntervalOfRuns` | scripts/verified_source_benchmark.py:927-962 | If on every query the candidate lies between lo and hi above the baseline, so do the mean and both bounds, and the bounds are in order. |
| `Bootstrap.BetterEverywhere` | scripts/verified_source_benchmark.py:927-962 | A candidate that is nowhere below the baseline has a mean and a lower bound of at least 0, and one that is above it everywhere positive ones. |
| `RankFusion.RrfFuse` | scripts/benchmark_adapters/agent_guided_lexical_runner.py:744-772 | The result is the best `limit` distinct pages under score descending and then first appearance, each with its score and its first payload. |
| `RankFusion.Collect` | scripts/benchmark_adapters/agent_guided_lexical_runner.py:749-757 | After the nested loops the three dictionaries hold, for exactly the pages that occur, the score, the first place and the payload seen there. |
| `RankFusion.NoTies` | scripts/benchmark_adapters/agent_guided_lexical_runner.py:758-766 | Different pages are first seen at different places, so exactly one of them is ahead and the page id never decides. |
| `RankFusion.FusionUnique` | scripts/benchmark_adapters/agent_guided_lexical_runner.py:758-771 | Only one page list meets that specification. |
| `RankFusion.FirstSeenLaws` | scripts/benchmark_adapters/agent_guided_lexical_runner.py:756 | The recorded first place is an occurrence of the page, and there is none before it. |
| `RankFusion.ScoreAddsUp` | scripts/benchmark_adapters/agent_guided_lexical_runner.py:752-755 | Scores start at nothing, and each result adds 1 / (61 + its place) to the score of its page and nothing to others. |
| `RankFusion.SingleAppearance` | scripts/benchmark_adapters/agent_guided_lexical_runner.py:752-755 | A page listed once, at place p of one channel, scores 1 / (61 + p). |
| `RankFusion.Dominance` | scripts/benchmark_adapters/agent_guided_lexical_runner.py:752-755 | A page that is nowhere behind another and somewhere in front of it has the higher score, if no channel repeats the other; absence counts as the last place. |
| `RankFusion.DominanceInFusion` | scripts/benchmark_adapters/agent_guided_lexical_runner.py:758-771 | So a dominated page is never returned without, or ahead of, the page that dominates it. |
| `RankFusion.SingleChannel` | scripts/benchmark_adapters/agent_guided_lexical_runner.py:744-772 | A single duplicate-free channel comes back as its own prefix. |
| `RankFusion.SeenInOrder` | scripts/benchmark_adapters/agent_guided_lexical_runner.py:749-757 | The keys of the dictionaries are listed in order of first channel and first place. |
| `RankFusion.KeepsFirstSeenOrder` | scripts/benchmark_adapters/agent_guided_lexical_runner.py:758-771 | For all channels, the fusion is the first `limit` pages in order of first appearance if and only if no page within the limit scores less than a page that appears after it. |
| `RankFusion.RepeatsOvertake` | scripts/benchmark_adapters/agent_guided_lexical_runner.py:752-771 | A channel that lists one page and then another one twice is fused with the second page in front, whatever the limit from 2 on. |
| `WikiFileNames.StemIsSlug` | scripts/benchmark_adapters/beir_scifact.py:550-552 | A safe stem is a slug; a string is left alone if and only if it is a slug; so the function is idempotent. |
| `WikiFileNames.StemOneMore` | scripts/benchmark_adapters/beir_scifact.py:550-552 | A safe stem, character by character: letters and digits are added in lower case, behind a dash if anything else came in between; nothing else is added. |
| `WikiFileNames.JoinSplit` | scripts/benchmark_adapters/beir_scifact.py:552 | Splitting at dashes and joining with dashes gives the string back. |
| `WikiFileNames.StemLaws` | scripts/benchmark_adapters/beir_scifact.py:535-536 | The stem of a row is a slug of 1 to 80 characters, and the fallback after cutting is never needed. |
| `WikiFileNames.StemChoice` | scripts/benchmark_adapters/beir_scifact.py:535-536 | The title decides the stem if it has a slug, else the corpus id if that has one, else it is "document"; a slug of at most 80 characters is the stem, a longer one is cut after 80 characters, or after 79 where a dash would end it. |
| `WikiFileNames.CandidatesDiffer` | scripts/benchmark_adapters/beir_scifact.py:541-546 | All names tried for a row are pairwise different. |
| `WikiFileNames.NamesInTurn` | scripts/benchmark_adapters/beir_scifact.py:537-546 | The plain name is tried first, then the one with the digest, then the one with the digest and the suffix 1. |
| `WikiFileNames.DecimalRoundTrip` | scripts/benchmark_adapters/beir_scifact.py:545 | The decimal suffix consists of digits, has no leading zero and determines its number. |
| `WikiFileNames.TriedStep` | scripts/benchmark_adapters/beir_scifact.py:544-546 | Each further name in use is a new one, so the number of names in use bounds the suffix loop. |
| `WikiFileNames.WikiFileName` | scripts/benchmark_adapters/beir_scifact.py:534-547 | The name is the plain one if that is free, else the first free candidate; at most one more name is tried than are in use, and the name is not in use up to case. |
| `WikiFileNames.WriteWikiDocuments` | scripts/benchmark_adapters/beir_scifact.py:521-531 | No two rows get names equal up to case, each name is the first free one in turn, and every row survives in a file of its own. |

## Left out

- Request validation: `limit` is any number from 1 on and `max_depth` any natural number; the request model's upper
  bounds of 500 and 8 are not used.
- Node and edge fields that no query reads (summaries, metadata), provider capabilities, and the wording of errors.
- `_GraphView` is a value, because nothing changes it after construction.
- The event's bounded wait: a waiting caller may give up at any moment before the event is set, however long it waited.
- GitSyncer.Syncer.RunSync: does not model other threads running between its writes; the interleaving is in
  `GitProtocol`, whose sync threads are the same step machine.
- `status()`, `wait_idle()`, wall-clock stamps, log text and error texts; an error is its kind, and the redaction and
  clipping in `sanitize_git_message` are not part of this model.
- Environment parsing and configuration checks, except that the cooldown is not negative.
- Real git beyond its contract here: merge conflicts, hooks, worktrees, submodules and untracked files are not modelled;
  `merge --ff-only` may fail for any reason.
- A `merge-base` that cannot answer counts as "not an ancestor", as in the code; the classification of ahead and
  diverged is proved for answers that match the graph.
- BaseException and a failing thread start.
- Floating-point rounding: scores, gains and means are reals. The gain 2^r - 1 is any non-decreasing gain that is zero
  at zero and positive above it, the discount 1 / log2(rank + 1) any positive sequence that falls from rank to rank.
- `random.Random`: the draws are arbitrary indexes. The sorted list of query ids is a parameter of the bootstrap.
- Field checks of evidence, judgement and run rows other than ids, ranks, documents and relevances, such as locators,
  surfaces, token counts and latencies.
- `canonical_text_bytes`, which strips a byte-order mark and unifies line ends before a file is hashed: nothing modelled
  here depends on file contents or hashes.
- `effective_channels`, which trims and deduplicates the query texts whose results are fused: the fusion is modelled for
  every list of channels, so it does not matter here how the channels were chosen.
- `map_at_k` of the agent-guided runner, which runs the loop of `RankingMetrics.MapLoop` but divides by the smaller of
  the number of relevant documents and the cutoff, and the row-wise recall, hit and reciprocal-rank functions of the
  verified-source benchmark: no result here uses their values.
- Python's recursion limit: `visit` raises RecursionError on an acyclic dependency chain deeper than the interpreter
  allows, where `EvidenceDependencies.Walk.Visit` accepts.
- A negative `limit` of `rrf_fuse`, and results without a page id, which raise before the fusion.
- SHA-256: a digest is any twelve hexadecimal digits. `casefold` is given on ASCII, which is all a file name contains.
- Writing files: the wiki directory is a map from names to rows; the Markdown text is not modelled.
