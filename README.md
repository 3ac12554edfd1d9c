# Trip-graph analytics: breadth-first path search and PageRank extremes

This project models two pieces of the `Interface` class that queries a
Neo4j graph of `Location` nodes joined by `TRIP` relationships.

- `bfs(start_node, end_node)` is a breadth-first search with a FIFO queue.
  Each queue entry pairs a node with the path by which it was first
  reached. A `visited` set grows when a node is dequeued and when it is
  enqueued. The search returns the path the first time `end_node` is
  dequeued, or nothing once the queue is empty.
- The tail of `pagerank` returns the first and the last row of the ranking
  the database sends back, or a pair of `None` when there are no rows.

The database's neighbour query becomes a given adjacency map: for each node
name, the names of its outgoing `TRIP` neighbours, in record order. A name
repeats when there are parallel relationships.

- `Interface.Bfs` is a `while` loop over an explicit queue and visited set,
  as in the source.
- The `for record in result` loop is its own method, `Interface.EnqueueFresh`.
  Its effect is specified by the function `Interface.Fresh`.
- The method returns `Option<seq<Name>>`. `Some(path)` stands for
  `[{'path': path}]`, `None` for `[]`, and a path of `{'name': n}` records
  becomes a sequence of names.

The proofs show that a returned path:

- is a walk from the start to the target along outgoing relationships;
- has no fewer hops than any such walk;
- has no repeated node.

They also show that the result is absent exactly when the target cannot be
reached, and that a search from a node to itself returns the one-node path.
No node is enqueued twice: the ghost out-parameter `trace` lists the
enqueued entries in order, and no node appears in it twice. The loop
terminates: each turn either visits a new name of a finite universe or
shortens the queue.

Among several paths with the fewest hops, the proofs also constrain which one
is returned. The ghost out-parameter `parents` gives, for each traced entry,
the entry whose expansion appended it. Four facts hold:

- each entry's path is its parent's path plus its own node;
- the parent is the earliest traced entry that has the node as a neighbour;
- parents are expanded in trace order;
- siblings appear in the order of their parent's neighbour records.

Every entry traced before the target's own entry had all of its neighbours
traced. These facts describe how the returned path is chosen among the
shortest ones: it is the path breadth-first search finds first, in record
order.

The model states these facts about the code:

- the search follows outgoing relationships only, and it has no parameter
  for the direction;
- the search returns no hop count;
- `pagerank` returns only the first and the last row of the ranking;
- the drop at interface.py:45 runs only when the ranking query returns,
  because it is not in a `finally` block.

Files:

- `options.dfy` holds the `Option` datatype.
- `graph.dfy` holds walks, reachability and hop-minimality, and the lemmas
  about them.
- `interface.dfy` holds the search, its loop invariants and step lemmas,
  and the PageRank selection.

## Model

| member | source | states |
|---|---|---|
| Interface.Bfs | interface.py:54-78 | A returned path is a hop-minimal walk from `start_node` to `end_node` with no repeated node. The result is absent exactly when `end_node` is unreachable, and `start_node == end_node` gives `[start_node]`. Each enqueued node appears once in the trace, every traced path is hop-minimal, and when nothing is found every reachable node was traced. The trace follows the discovery rule: each entry is reached from the earliest traced entry that has it as a neighbour, parents in order, siblings in record order. The returned path is the path of a traced target entry. Every entry traced before that one had all its neighbours traced. The loop terminates. |
| Interface.EnqueueFresh | interface.py:72-76 | The neighbour loop appends exactly `Fresh(neighbours, visited, path)` to the queue, and every neighbour name ends up in `visited`. |
| Interface.Fresh | interface.py:72-76 | Each appended entry is a neighbour not yet visited, paired with the current path extended by that neighbour. No node is appended twice, even when the records repeat a name. The appended nodes are exactly the neighbours that were not visited, in the order of their first record. |
| Interface.FreshIsShortest | interface.py:59-76 | When the dequeued node's path is hop-minimal and every node nearer than it has been expanded, each entry the neighbour loop appends carries a hop-minimal path. |
| Interface.EnqueueIsShortest | interface.py:74-75 | Extending a hop-minimal path by an unvisited neighbour gives a hop-minimal path to that neighbour, given that all nodes nearer than the path's end have been expanded. |
| Interface.FrontierAdvances | interface.py:59-60 | FIFO order: after the head is expanded, every walk shorter than the next head's path ends at an already-expanded node. |
| Interface.SearchStarts | interface.py:56-57 | The initial queue `[(start, [start])]` and the empty `visited` set satisfy the loop invariant. |
| Interface.PopTarget | interface.py:60-62 | When the dequeued node is the target, its path is a hop-minimal, repetition-free walk. The path is `[start]` when start and target coincide, and the target was traced. |
| Interface.PopOther | interface.py:60-64 | Dequeuing a node other than the target and adding it to `visited` establishes the invariant of its expansion. |
| Interface.ExpandAll | interface.py:64-76 | Reading all neighbour records of the dequeued node keeps the expansion invariant. The queue stays sorted by path length, with lengths in two adjacent layers; every queued and traced path is hop-minimal; and no node is traced twice. |
| Interface.ExpandDone | interface.py:64-76 | Once every neighbour of the dequeued node is visited, that node counts as expanded and the loop invariant holds again. |
| Interface.Expand | interface.py:59-76 | A full turn of the `while queue:` loop that dequeues a non-target node restores the loop invariant. It never enlarges the set of unvisited names, and strictly shrinks it whenever something is appended. |
| Interface.RemainderShrinks | interface.py:64 | Growing `visited` never enlarges the set of unvisited names. |
| Interface.RemainderShrinksStrictly | interface.py:76 | Adding a new name to `visited` strictly shrinks the set of unvisited names. |
| Interface.DiscoverStep | interface.py:59-76 | A turn that dequeues a non-target node keeps the discovery rule. The dequeued entry is the next traced one, and the entries its expansion appends have it as their parent. |
| Interface.DiscoveryExtend | interface.py:72-76 | Appending the children of the entry being expanded keeps the discovery rule: parents before children, path links, earliest parents, parents in order, siblings in record order. |
| Interface.ExtendParentsBefore | interface.py:72-76 | After the children of entry `m` are appended, every entry's parent still comes before it. |
| Interface.ExtendLinks | interface.py:74-75 | After the append, each entry is still a neighbour of its parent's node, and its path is still the parent's path plus its node. |
| Interface.ExtendEarliest | interface.py:74 | After the append, no traced entry before an entry's parent has that entry's node as a neighbour. |
| Interface.ExtendSorted | interface.py:60 | After the append, parents still follow trace order, because the queue is FIFO. |
| Interface.ExtendSiblings | interface.py:72 | After the append, the children of one parent still follow that parent's neighbour records. |
| Interface.FreshAreChildren | interface.py:72-76 | Every entry the neighbour loop appends is a neighbour of the dequeued node, one hop further, and not a neighbour of any earlier-expanded entry. The appended entries are in record order. |
| Interface.LinkAdvances | interface.py:60-75 | Popping the head and appending the new entries moves the split between expanded entries and the queue by one entry. |
| Interface.TargetDiscovered | interface.py:60-62 | When the target is dequeued, its entry is the next traced one, and every entry before it had all its neighbours traced. |
| Interface.SearchExhausted | interface.py:59-78 | When the queue empties, the target is unreachable and every reachable node was traced. |
| Graph.Neighbours | interface.py:66-73 | The query yields the recorded neighbour names of the node, in record order, with repeats for parallel edges. A name that matches no node yields no records. |
| Graph.ShortestIsSimple | interface.py:59-76 | A hop-minimal walk repeats no node. |
| Graph.ClosedContainsWalks | interface.py:78 | A set that holds the start and all outgoing neighbours of its members contains the end of every walk from the start. |
| Graph.WalkExtend | interface.py:75 | Appending an outgoing neighbour of a walk's last node gives a walk to that neighbour. |
| Graph.ShortcutIsWalk | interface.py:59-76 | Cutting the stretch between two visits of one node gives a strictly shorter walk with the same ends. |
| Interface.PageRankExtremes | interface.py:47-52 | Both components are present exactly when there are rows. The first is the first row and the second is the last row. |
| Interface.DescendingBetween | interface.py:36 | In a ranking ordered by descending score, an earlier row scores at least as high as every later row. |
| Interface.TopAndBottom | interface.py:36-50 | If the database honours `ORDER BY score DESC`, `max_score_node` has the highest score of all rows and `min_score_node` the lowest. |

## Left out

- The driver constructor and `close` (interface.py:5-9), and every `session`: these are network I/O through the Neo4j driver.
- `deleteProjection` (interface.py:11-14), the projection create (interface.py:17-26) and the drop at interface.py:45. These are foreign procedure calls whose only effect is on the database.
- `gds.pageRank.stream` (interface.py:28-43). The scores and their order are computed by the database. The model takes the returned rows as given, with the score as a `real`. Floating-point arithmetic, `max_iter`, the damping factor and the weight property are not modelled.
- The neighbour query (interface.py:66-70) is modelled as a given adjacency map. A neighbour without a `name` property (Python's `None`) is not modelled, and neither are several nodes sharing one name beyond the union of their neighbours in the map.
- The paths `[{'name': n}, ...]` and the result `[{'path': path}]` or `[]` are modelled as sequences of names and an `Option`.
- Interface.Bfs: the contract states the discovery rule that the trace and the returned path follow. No lemma proves that this rule admits only one trace for a given adjacency map.
- TopAndBottom: the tie-break `name ASC` of the ranking is not modelled. The lemma states the score bounds only, and takes the descending order as a hypothesis about the database's response.
- `scores` is always a list when `pagerank` tests it (interface.py:43), so the test `if scores` adds nothing beyond emptiness. The model takes the list as a sequence.
