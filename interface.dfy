/**
 The two analytics of the `Interface` class: the breadth-first path search
 and the selection of the top and bottom rows of a PageRank ranking.
 */
module Interface {

  import opened Options
  import opened Graph

  /** A queue entry: a node and the path by which it was first reached. */
  datatype Entry = Entry(node: Name, path: seq<Name>)

  ghost function Nodes(queue: seq<Entry>): set<Name>
  {
    set k | 0 <= k < |queue| :: queue[k].node
  }

  /** Every queued path is a hop-minimal walk from `start` to its node. */
  ghost predicate ShortestEntries(adj: Adjacency, start: Name, queue: seq<Entry>)
  {
    forall k :: 0 <= k < |queue| ==> IsShortest(adj, start, queue[k].node, queue[k].path)
  }

  /** Queued path lengths never decrease and differ by at most one. */
  ghost predicate Layered(queue: seq<Entry>)
  {
    forall k, l :: 0 <= k <= l < |queue| ==> |queue[k].path| <= |queue[l].path| <= |queue[k].path| + 1
  }

  /** Every walk from `start` with fewer than `d` nodes ends at a node of `done`. */
  ghost predicate ShorterWalksEndIn(adj: Adjacency, start: Name, d: nat, done: set<Name>)
  {
    forall q {:trigger IsWalkFrom(adj, start, q)} :: IsWalkFrom(adj, start, q) && |q| < d ==> Last(q) in done
  }

  /** Appending a neighbour that has not been seen to a hop-minimal path gives
      a hop-minimal path, once every node nearer than the path's own end has
      been expanded. */
  lemma EnqueueIsShortest(adj: Adjacency, start: Name, cur: Name, path: seq<Name>, nb: Name,
                          done: set<Name>, visited: set<Name>)
    requires IsShortest(adj, start, cur, path)
    requires nb in Neighbours(adj, cur)
    requires nb !in visited && start in visited
    requires SuccessorsIn(adj, done, visited)
    requires ShorterWalksEndIn(adj, start, |path|, done)
    ensures IsShortest(adj, start, nb, path + [nb])
  {
    WalkExtend(adj, start, path, nb);
    forall q | IsWalkFromTo(adj, start, nb, q) ensures |path + [nb]| <= |q| {
      if |q| <= |path| {
        assert |q| > 1 by {
          if |q| == 1 {
            assert q[0] == start;
          }
        }
        var q' := q[..|q| - 1];
        WalkPrefix(adj, q, |q| - 1);
        assert IsWalkFrom(adj, start, q');
        assert false;
      }
    }
  }

  /** Once the popped node has been expanded, every walk shorter than the new
      head's path ends at an expanded node (FIFO order of the queue). */
  lemma FrontierAdvances(adj: Adjacency, start: Name, queue: seq<Entry>, d: nat,
                         done: set<Name>, visited: set<Name>)
    requires ShorterWalksEndIn(adj, start, d, done)
    requires SuccessorsIn(adj, done, visited)
    requires start in done
    requires visited <= done + Nodes(queue)
    requires ShortestEntries(adj, start, queue)
    requires queue != [] && d <= |queue[0].path| <= d + 1
    requires forall k :: 0 <= k < |queue| ==> |queue[0].path| <= |queue[k].path|
    ensures ShorterWalksEndIn(adj, start, |queue[0].path|, done)
  {
    forall q | IsWalkFrom(adj, start, q) && |q| < |queue[0].path| ensures Last(q) in done {
      if d <= |q| && |q| > 1 {
        var q' := q[..|q| - 1];
        WalkPrefix(adj, q, |q| - 1);
        assert IsWalkFrom(adj, start, q') && Last(q') in done;
        assert Last(q) in Neighbours(adj, Last(q'));
        assert Last(q) in visited;
        if Last(q) !in done {
          assert Last(q) in Nodes(queue);
          var k :| 0 <= k < |queue| && queue[k].node == Last(q);
          assert IsWalkFromTo(adj, start, queue[k].node, q);
          assert false;
        }
      }
    }
  }

  /** No node appears in two entries. */
  ghost predicate DistinctNodes(entries: seq<Entry>)
  {
    forall k, l :: 0 <= k < l < |entries| ==> entries[k].node != entries[l].node
  }

  /** The entries appended to the queue so far, in order: the start entry
      first, each hop-minimal, no node twice, and their nodes exactly `start`
      and `visited`. */
  ghost predicate TraceOk(adj: Adjacency, start: Name, trace: seq<Entry>, visited: set<Name>)
  {
    && |trace| > 0 && trace[0] == Entry(start, [start])
    && ShortestEntries(adj, start, trace)
    && DistinctNodes(trace)
    && Nodes(trace) == visited + {start}
  }


  /** The invariant of the `while queue:` loop. `done` holds the nodes that
      have been dequeued and expanded. */
  ghost predicate Searching(adj: Adjacency, start: Name, target: Name,
                            queue: seq<Entry>, visited: set<Name>, done: set<Name>, trace: seq<Entry>)
  {
    && visited <= Universe(adj, start)
    && done <= visited
    && target !in done
    && (done == {} ==> queue == [Entry(start, [start])] && visited == {})
    && (done != {} ==> start in done)
    && visited <= done + Nodes(queue)
    && Nodes(queue) <= visited + {start}
    && ShortestEntries(adj, start, queue)
    && Layered(queue)
    && (queue != [] ==> ShorterWalksEndIn(adj, start, |queue[0].path|, done))
    && SuccessorsIn(adj, done, visited)
    && TraceOk(adj, start, trace, visited)
  }

  /** What holds while the neighbour records of `cur`, dequeued with `path`,
      are being read. */
  ghost predicate Expanding(adj: Adjacency, start: Name, target: Name, cur: Name, path: seq<Name>,
                            queue: seq<Entry>, visited: set<Name>, done: set<Name>, trace: seq<Entry>)
  {
    && done <= visited && cur in visited && start in done + {cur}
    && target !in done && cur != target
    && visited <= done + {cur} + Nodes(queue)
    && Nodes(queue) <= visited
    && IsShortest(adj, start, cur, path)
    && ShorterWalksEndIn(adj, start, |path|, done)
    && ShortestEntries(adj, start, queue)
    && (forall k :: 0 <= k < |queue| ==> |path| <= |queue[k].path| <= |path| + 1)
    && (forall k, l :: 0 <= k <= l < |queue| ==> |queue[k].path| <= |queue[l].path|)
    && SuccessorsIn(adj, done, visited)
    && TraceOk(adj, start, trace, visited)
  }

  ghost function Elements(s: seq<Name>): set<Name>
  {
    set x | x in s
  }

  lemma NodesPop(queue: seq<Entry>)
    requires queue != []
    ensures Nodes(queue) == {queue[0].node} + Nodes(queue[1..])
  {
  }

  lemma NodesConcat(a: seq<Entry>, b: seq<Entry>)
    ensures Nodes(a + b) == Nodes(a) + Nodes(b)
  {
    var q := a + b;
    forall n | n in Nodes(q) ensures n in Nodes(a) + Nodes(b) {
      var k :| 0 <= k < |q| && q[k].node == n;
      if k < |a| {
        assert a[k].node == n;
      } else {
        assert b[k - |a|].node == n;
      }
    }
    forall n | n in Nodes(a) ensures n in Nodes(q) {
      var k :| 0 <= k < |a| && a[k].node == n;
      assert q[k].node == n;
    }
    forall n | n in Nodes(b) ensures n in Nodes(q) {
      var k :| 0 <= k < |b| && b[k].node == n;
      assert q[|a| + k].node == n;
    }
  }

  lemma DistinctConcat(a: seq<Entry>, b: seq<Entry>)
    requires DistinctNodes(a) && DistinctNodes(b) && Nodes(a) !! Nodes(b)
    ensures DistinctNodes(a + b)
  {
    var q := a + b;
    forall k, l | 0 <= k < l < |q| ensures q[k].node != q[l].node {
      if l < |a| {
        assert q[k] == a[k] && q[l] == a[l];
      } else if |a| <= k {
        assert q[k] == b[k - |a|] && q[l] == b[l - |a|];
      } else {
        assert q[k] == a[k] && q[l] == b[l - |a|];
        assert a[k].node in Nodes(a) && b[l - |a|].node in Nodes(b);
      }
    }
  }

  lemma ShortestConcat(adj: Adjacency, start: Name, a: seq<Entry>, b: seq<Entry>)
    requires ShortestEntries(adj, start, a) && ShortestEntries(adj, start, b)
    ensures ShortestEntries(adj, start, a + b)
  {
  }

  /** The position of the first record that names `x`. */
  ghost function Index(ns: seq<Name>, x: Name): nat
    requires x in ns
  {
    if ns[0] == x then 0 else 1 + Index(ns[1..], x)
  }

  /** `Index` is the first position holding `x`. */
  lemma {:induction false} IndexIsFirst(ns: seq<Name>, x: Name)
    requires x in ns
    ensures Index(ns, x) < |ns| && ns[Index(ns, x)] == x && x !in ns[..Index(ns, x)]
  {
    if ns[0] != x {
      var j := Index(ns[1..], x);
      IndexIsFirst(ns[1..], x);
      assert ns[..j + 1] == [ns[0]] + ns[1..][..j];
    }
  }

  /** A name met among the first `k` records is first met at the same place
      in the whole sequence. */
  lemma IndexPrefix(ns: seq<Name>, k: nat, x: Name)
    requires k <= |ns| && x in ns[..k]
    ensures Index(ns[..k], x) == Index(ns, x)
  {
    var i, j := Index(ns, x), Index(ns[..k], x);
    IndexIsFirst(ns, x);
    IndexIsFirst(ns[..k], x);
    assert ns[j] == x && ns[..k][..j] == ns[..j];
  }

  /** What the loop over the neighbour records appends to the queue (and
      adds to `visited`): an entry for each neighbour that is neither
      visited nor met earlier among the records, in record order. */
  function Fresh(neighbours: seq<Name>, visited: set<Name>, path: seq<Name>): (r: seq<Entry>)
    ensures forall k :: 0 <= k < |r| ==>
      r[k].node in neighbours && r[k].node !in visited && r[k].path == path + [r[k].node]
    ensures DistinctNodes(r)
    ensures Nodes(r) == Elements(neighbours) - visited
    ensures forall k, l :: 0 <= k < l < |r| ==> Index(neighbours, r[k].node) < Index(neighbours, r[l].node)
    decreases |neighbours|
  {
    if neighbours == [] then []
    else
      var init, x := neighbours[..|neighbours| - 1], neighbours[|neighbours| - 1];
      var f := Fresh(init, visited, path);
      assert Elements(neighbours) == Elements(init) + {x} by {
        assert neighbours == init + [x];
      }
      assert forall k :: 0 <= k < |f| ==> Index(neighbours, f[k].node) == Index(init, f[k].node) < |init| by {
        forall k | 0 <= k < |f| ensures Index(neighbours, f[k].node) == Index(init, f[k].node) < |init| {
          IndexPrefix(neighbours, |init|, f[k].node);
          IndexIsFirst(init, f[k].node);
        }
      }
      if x in visited || x in init then f
      else
        var e := Entry(x, path + [x]);
        assert Nodes([e]) == {x} by {
          assert [e][0].node == x;
        }
        NodesConcat(f, [e]);
        assert Index(neighbours, x) == |init| by {
          IndexIsFirst(neighbours, x);
        }
        f + [e]
  }

  /** Enlarging the visited set never enlarges what is left of a universe. */
  lemma RemainderShrinks(universe: set<Name>, smaller: set<Name>, larger: set<Name>)
    requires smaller <= larger
    ensures |universe - larger| <= |universe - smaller|
  {
    var rest := (universe - smaller) - (universe - larger);
    assert universe - smaller == (universe - larger) + rest;
    assert (universe - larger) !! rest;
  }

  /** Adding a new member of the universe strictly shrinks what is left of it. */
  lemma RemainderShrinksStrictly(universe: set<Name>, smaller: set<Name>, larger: set<Name>, x: Name)
    requires smaller <= larger && x in universe && x in larger && x !in smaller
    ensures |universe - larger| < |universe - smaller|
  {
    var rest := (universe - smaller) - (universe - larger);
    assert universe - smaller == (universe - larger) + rest;
    assert (universe - larger) !! rest;
    assert x in rest;
  }

  lemma SearchStarts(adj: Adjacency, start: Name, target: Name)
    ensures Searching(adj, start, target, [Entry(start, [start])], {}, {}, [Entry(start, [start])])
    ensures Discovered(adj, [Entry(start, [start])], [0], 0, [Entry(start, [start])], {})
  {
  }

  /** Dequeuing the target: its recorded path is the answer. */
  lemma PopTarget(adj: Adjacency, start: Name, target: Name,
                  queue: seq<Entry>, visited: set<Name>, done: set<Name>, trace: seq<Entry>)
    requires Searching(adj, start, target, queue, visited, done, trace)
    requires queue != [] && queue[0].node == target
    ensures IsShortest(adj, start, target, queue[0].path)
    ensures NoRepeats(queue[0].path)
    ensures start == target ==> queue[0].path == [start]
    ensures target in Nodes(trace)
  {
    ShortestIsSimple(adj, start, target, queue[0].path);
    assert target in Nodes(queue);
  }

  /** Dequeuing any other node and marking it visited starts its expansion. */
  lemma PopOther(adj: Adjacency, start: Name, target: Name,
                 queue: seq<Entry>, visited: set<Name>, done: set<Name>, trace: seq<Entry>)
    requires Searching(adj, start, target, queue, visited, done, trace)
    requires queue != [] && queue[0].node != target
    ensures queue[0].node in Universe(adj, start)
    ensures Expanding(adj, start, target, queue[0].node, queue[0].path,
                      queue[1..], visited + {queue[0].node}, done, trace)
  {
    NodesPop(queue);
    var cur, path := queue[0].node, queue[0].path;
    if done == {} {
      assert cur == start && queue[1..] == [];
    }
    assert IsShortest(adj, start, cur, path);
    forall k | 0 <= k < |queue[1..]|
      ensures IsShortest(adj, start, queue[1..][k].node, queue[1..][k].path)
      ensures |path| <= |queue[1..][k].path| <= |path| + 1
    {
      assert queue[1..][k] == queue[k + 1];
    }
    forall k, l | 0 <= k <= l < |queue[1..]| ensures |queue[1..][k].path| <= |queue[1..][l].path| {
      assert queue[1..][k] == queue[k + 1] && queue[1..][l] == queue[l + 1];
    }
  }

  /** Every entry the neighbour loop appends carries a shortest walk to its
      node: the dequeued node's shortest walk extended by one hop. */
  lemma FreshIsShortest(adj: Adjacency, start: Name, cur: Name, path: seq<Name>,
                        visited: set<Name>, done: set<Name>)
    requires IsShortest(adj, start, cur, path)
    requires start in visited && SuccessorsIn(adj, done, visited)
    requires ShorterWalksEndIn(adj, start, |path|, done)
    ensures ShortestEntries(adj, start, Fresh(Neighbours(adj, cur), visited, path))
  {
    var f := Fresh(Neighbours(adj, cur), visited, path);
    forall k | 0 <= k < |f| ensures IsShortest(adj, start, f[k].node, f[k].path) {
      EnqueueIsShortest(adj, start, cur, path, f[k].node, done, visited);
    }
  }

  /** Appending entries one hop longer than `path` to a queue whose paths are
      sorted and have `|path|` or `|path| + 1` nodes keeps both facts. */
  lemma LayersConcat(path: seq<Name>, queue: seq<Entry>, f: seq<Entry>)
    requires forall k :: 0 <= k < |queue| ==> |path| <= |queue[k].path| <= |path| + 1
    requires forall k, l :: 0 <= k <= l < |queue| ==> |queue[k].path| <= |queue[l].path|
    requires forall k :: 0 <= k < |f| ==> |f[k].path| == |path| + 1
    ensures forall k :: 0 <= k < |queue + f| ==> |path| <= |(queue + f)[k].path| <= |path| + 1
    ensures forall k, l :: 0 <= k <= l < |queue + f| ==> |(queue + f)[k].path| <= |(queue + f)[l].path|
  {
  }

  /** Reading all neighbour records of `cur` keeps the expansion invariant. */
  lemma ExpandAll(adj: Adjacency, start: Name, target: Name, cur: Name, path: seq<Name>,
                  queue: seq<Entry>, visited: set<Name>, done: set<Name>, trace: seq<Entry>)
    requires Expanding(adj, start, target, cur, path, queue, visited, done, trace)
    ensures Expanding(adj, start, target, cur, path,
                      queue + Fresh(Neighbours(adj, cur), visited, path),
                      visited + Elements(Neighbours(adj, cur)), done,
                      trace + Fresh(Neighbours(adj, cur), visited, path))
  {
    var f := Fresh(Neighbours(adj, cur), visited, path);
    FreshIsShortest(adj, start, cur, path, visited, done);
    ShortestConcat(adj, start, queue, f);
    ShortestConcat(adj, start, trace, f);
    NodesConcat(queue, f);
    NodesConcat(trace, f);
    DistinctConcat(trace, f);
    LayersConcat(path, queue, f);
    assert (trace + f)[0] == trace[0];
  }

  /** Once every neighbour record of `cur` has been read, `cur` counts as
      expanded and the loop invariant holds again. */
  lemma ExpandDone(adj: Adjacency, start: Name, target: Name, cur: Name, path: seq<Name>,
                   queue: seq<Entry>, visited: set<Name>, done: set<Name>, trace: seq<Entry>)
    requires Expanding(adj, start, target, cur, path, queue, visited, done, trace)
    requires visited <= Universe(adj, start)
    requires forall v :: v in Neighbours(adj, cur) ==> v in visited
    ensures Searching(adj, start, target, queue, visited, done + {cur}, trace)
  {
    var done' := done + {cur};
    assert SuccessorsIn(adj, done', visited);
    if queue != [] {
      FrontierAdvances(adj, start, queue, |path|, done', visited);
    }
  }

  /** One turn of the `while queue:` loop that dequeues a node other than the
      target: the loop invariant holds again, and the search has progressed
      (fewer unvisited names, or the same and a shorter queue). */
  lemma Expand(adj: Adjacency, start: Name, target: Name,
               queue: seq<Entry>, visited: set<Name>, done: set<Name>, trace: seq<Entry>)
    requires Searching(adj, start, target, queue, visited, done, trace)
    requires queue != [] && queue[0].node != target
    ensures Searching(adj, start, target,
                      queue[1..] + Fresh(Neighbours(adj, queue[0].node), visited + {queue[0].node}, queue[0].path),
                      visited + {queue[0].node} + Elements(Neighbours(adj, queue[0].node)),
                      done + {queue[0].node},
                      trace + Fresh(Neighbours(adj, queue[0].node), visited + {queue[0].node}, queue[0].path))
    ensures |Universe(adj, start) - (visited + {queue[0].node} + Elements(Neighbours(adj, queue[0].node)))|
            <= |Universe(adj, start) - visited|
    ensures Fresh(Neighbours(adj, queue[0].node), visited + {queue[0].node}, queue[0].path) != [] ==>
            |Universe(adj, start) - (visited + {queue[0].node} + Elements(Neighbours(adj, queue[0].node)))|
            < |Universe(adj, start) - visited|
  {
    var cur, path := queue[0].node, queue[0].path;
    var ns := Neighbours(adj, cur);
    var visited1 := visited + {cur};
    PopOther(adj, start, target, queue, visited, done, trace);
    ExpandAll(adj, start, target, cur, path, queue[1..], visited1, done, trace);
    var f := Fresh(ns, visited1, path);
    var visited2 := visited1 + Elements(ns);
    forall v | v in Elements(ns) ensures v in Universe(adj, start) {
      NeighbourInUniverse(adj, start, cur, v);
    }
    ExpandDone(adj, start, target, cur, path, queue[1..] + f, visited2, done, trace + f);
    RemainderShrinks(Universe(adj, start), visited, visited2);
    if f != [] {
      RemainderShrinksStrictly(Universe(adj, start), visited, visited2, f[0].node);
    }
  }

  /** `n` copies of `m`: the parent positions of the `n` entries appended
      while entry `m` is expanded. */
  ghost function Repeat(m: nat, n: nat): (r: seq<nat>)
    ensures |r| == n && forall i :: 0 <= i < n ==> r[i] == m
  {
    if n == 0 then [] else Repeat(m, n - 1) + [m]
  }

  /** `parents` names, for each traced entry after the first, the earlier
      entry whose expansion appended it. */
  ghost predicate ParentsBefore(trace: seq<Entry>, parents: seq<nat>)
  {
    |parents| == |trace| && forall k :: 0 < k < |trace| ==> parents[k] < k
  }

  /** Each traced path extends its parent's path by one hop to a neighbour. */
  ghost predicate ParentLinks(adj: Adjacency, trace: seq<Entry>, parents: seq<nat>)
    requires ParentsBefore(trace, parents)
  {
    forall k {:trigger parents[k]} :: 0 < k < |trace| ==>
      trace[k].node in Neighbours(adj, trace[parents[k]].node) &&
      trace[k].path == trace[parents[k]].path + [trace[k].node]
  }

  /** No entry before an entry's parent has that entry's node as a neighbour. */
  ghost predicate EarliestParents(adj: Adjacency, trace: seq<Entry>, parents: seq<nat>)
    requires ParentsBefore(trace, parents)
  {
    forall k, i {:trigger trace[i], parents[k]} :: 0 < k < |trace| && 0 <= i < parents[k] ==>
      trace[k].node !in Neighbours(adj, trace[i].node)
  }

  /** Parents never go back: entries are appended in the order their parents
      were dequeued. */
  ghost predicate ParentsSorted(parents: seq<nat>)
  {
    forall k, l :: 0 < k < l < |parents| ==> parents[k] <= parents[l]
  }

  /** The children of one parent come in the order of its neighbour records. */
  ghost predicate SiblingsInOrder(adj: Adjacency, trace: seq<Entry>, parents: seq<nat>)
    requires ParentsBefore(trace, parents) && ParentLinks(adj, trace, parents)
  {
    forall k, l {:trigger parents[k], parents[l]} :: 0 < k < l < |trace| && parents[k] == parents[l] ==>
      Index(Neighbours(adj, trace[parents[k]].node), trace[k].node)
      < Index(Neighbours(adj, trace[parents[l]].node), trace[l].node)
  }

  /** The discovery rule of breadth-first search, stated on the entries in
      the order they were appended: every entry is reached from the earliest
      entry that has it as a neighbour, parents are dequeued in order, and
      siblings follow the neighbour records. */
  ghost predicate DiscoveryOrder(adj: Adjacency, trace: seq<Entry>, parents: seq<nat>)
  {
    && ParentsBefore(trace, parents)
    && ParentLinks(adj, trace, parents)
    && EarliestParents(adj, trace, parents)
    && ParentsSorted(parents)
    && SiblingsInOrder(adj, trace, parents)
  }

  /** The link between the trace and the loop's state: the first `m` traced
      entries have been dequeued and expanded, the queue holds the rest, and
      the parent of the last entry is among the expanded ones. */
  ghost predicate QueueLink(trace: seq<Entry>, parents: seq<nat>, m: nat, queue: seq<Entry>, done: set<Name>)
  {
    && m <= |trace| && |queue| == |trace| - m
    && (forall j {:trigger queue[j]} :: 0 <= j < |queue| ==> queue[j] == trace[m + j])
    && (forall i {:trigger trace[i]} :: 0 <= i < m ==> trace[i].node in done)
    && (1 < |trace| == |parents| ==> parents[|trace| - 1] < m)
  }

  /** The discovery rule together with its link to the loop's state. */
  ghost predicate Discovered(adj: Adjacency, trace: seq<Entry>, parents: seq<nat>, m: nat,
                             queue: seq<Entry>, done: set<Name>)
  {
    DiscoveryOrder(adj, trace, parents) && QueueLink(trace, parents, m, queue, done)
  }

  /** Every neighbour of an entry traced before entry `m` was traced too. */
  ghost predicate ExpandedBefore(adj: Adjacency, trace: seq<Entry>, m: nat)
    requires m <= |trace|
  {
    forall i, v {:trigger v in Neighbours(adj, trace[i].node)} ::
      0 <= i < m && v in Neighbours(adj, trace[i].node) ==> v in Nodes(trace)
  }

  /** What the expansion of entry `m` appends: neighbours of its node, one
      hop further, that no earlier entry has as a neighbour, in record
      order. */
  ghost predicate Children(adj: Adjacency, trace: seq<Entry>, m: nat, f: seq<Entry>)
    requires m < |trace|
  {
    && (forall j :: 0 <= j < |f| ==>
          f[j].node in Neighbours(adj, trace[m].node) && f[j].path == trace[m].path + [f[j].node])
    && (forall j, i :: 0 <= j < |f| && 0 <= i < m ==> f[j].node !in Neighbours(adj, trace[i].node))
    && (forall j, l :: 0 <= j < l < |f| ==>
          Index(Neighbours(adj, trace[m].node), f[j].node) < Index(Neighbours(adj, trace[m].node), f[l].node))
  }

  lemma ExtendParentsBefore(trace: seq<Entry>, parents: seq<nat>, m: nat, f: seq<Entry>)
    requires ParentsBefore(trace, parents) && m < |trace|
    ensures ParentsBefore(trace + f, parents + Repeat(m, |f|))
  {
    var t, p := trace + f, parents + Repeat(m, |f|);
    forall k | 0 < k < |t| ensures p[k] < k {
      if k < |trace| {
        assert p[k] == parents[k];
      } else {
        assert p[k] == m;
      }
    }
  }

  lemma ExtendLinks(adj: Adjacency, trace: seq<Entry>, parents: seq<nat>, m: nat, f: seq<Entry>)
    requires ParentsBefore(trace, parents) && ParentLinks(adj, trace, parents)
    requires m < |trace| && Children(adj, trace, m, f)
    requires ParentsBefore(trace + f, parents + Repeat(m, |f|))
    ensures ParentLinks(adj, trace + f, parents + Repeat(m, |f|))
  {
    var t, p := trace + f, parents + Repeat(m, |f|);
    forall k | 0 < k < |t|
      ensures t[k].node in Neighbours(adj, t[p[k]].node) && t[k].path == t[p[k]].path + [t[k].node]
    {
      if k < |trace| {
        assert t[k] == trace[k] && p[k] == parents[k] && t[p[k]] == trace[parents[k]];
      } else {
        assert t[k] == f[k - |trace|] && p[k] == m && t[m] == trace[m];
      }
    }
  }

  lemma ExtendEarliest(adj: Adjacency, trace: seq<Entry>, parents: seq<nat>, m: nat, f: seq<Entry>)
    requires ParentsBefore(trace, parents) && EarliestParents(adj, trace, parents)
    requires m < |trace| && Children(adj, trace, m, f)
    requires ParentsBefore(trace + f, parents + Repeat(m, |f|))
    ensures EarliestParents(adj, trace + f, parents + Repeat(m, |f|))
  {
    var t, p := trace + f, parents + Repeat(m, |f|);
    forall k, i | 0 < k < |t| && 0 <= i < p[k] ensures t[k].node !in Neighbours(adj, t[i].node) {
      if k < |trace| {
        assert t[k] == trace[k] && p[k] == parents[k] && t[i] == trace[i];
      } else {
        assert t[k] == f[k - |trace|] && p[k] == m && t[i] == trace[i];
      }
    }
  }

  lemma ExtendSorted(trace: seq<Entry>, parents: seq<nat>, m: nat, f: seq<Entry>)
    requires ParentsBefore(trace, parents) && ParentsSorted(parents)
    requires |trace| > 1 ==> parents[|trace| - 1] < m
    ensures ParentsSorted(parents + Repeat(m, |f|))
    ensures forall k :: 0 < k < |parents| ==> parents[k] < m
  {
    var p := parents + Repeat(m, |f|);
    forall k | 0 < k < |parents| ensures parents[k] < m {
      assert parents[k] <= parents[|parents| - 1];
    }
    forall k, l | 0 < k < l < |p| ensures p[k] <= p[l] {
      if l < |parents| {
        assert p[k] == parents[k] && p[l] == parents[l];
      } else if k < |parents| {
        assert p[k] == parents[k] && p[l] == m;
      } else {
        assert p[k] == m && p[l] == m;
      }
    }
  }

  lemma ExtendSiblings(adj: Adjacency, trace: seq<Entry>, parents: seq<nat>, m: nat, f: seq<Entry>)
    requires ParentsBefore(trace, parents) && ParentLinks(adj, trace, parents)
    requires SiblingsInOrder(adj, trace, parents)
    requires m < |trace| && Children(adj, trace, m, f)
    requires forall k :: 0 < k < |parents| ==> parents[k] < m
    requires ParentsBefore(trace + f, parents + Repeat(m, |f|))
    requires ParentLinks(adj, trace + f, parents + Repeat(m, |f|))
    ensures SiblingsInOrder(adj, trace + f, parents + Repeat(m, |f|))
  {
    var t, p := trace + f, parents + Repeat(m, |f|);
    forall k, l | 0 < k < l < |t| && p[k] == p[l]
      ensures Index(Neighbours(adj, t[p[k]].node), t[k].node) < Index(Neighbours(adj, t[p[l]].node), t[l].node)
    {
      if l < |trace| {
        assert t[k] == trace[k] && p[k] == parents[k] && t[p[k]] == trace[parents[k]];
        assert t[l] == trace[l] && p[l] == parents[l] && t[p[l]] == trace[parents[l]];
      } else if |trace| <= k {
        assert t[k] == f[k - |trace|] && t[l] == f[l - |trace|] && p[k] == m && p[l] == m && t[m] == trace[m];
      }
    }
  }

  /** Appending the children of entry `m` keeps the discovery rule. */
  lemma DiscoveryExtend(adj: Adjacency, trace: seq<Entry>, parents: seq<nat>, m: nat, f: seq<Entry>)
    requires DiscoveryOrder(adj, trace, parents)
    requires m < |trace| && (|trace| > 1 ==> parents[|trace| - 1] < m)
    requires Children(adj, trace, m, f)
    ensures DiscoveryOrder(adj, trace + f, parents + Repeat(m, |f|))
  {
    ExtendParentsBefore(trace, parents, m, f);
    ExtendLinks(adj, trace, parents, m, f);
    ExtendEarliest(adj, trace, parents, m, f);
    ExtendSorted(trace, parents, m, f);
    ExtendSiblings(adj, trace, parents, m, f);
  }

  /** What the neighbour loop appends while entry `m` is expanded are that
      entry's children: every earlier entry has been expanded, so its
      neighbours are already visited. */
  lemma FreshAreChildren(adj: Adjacency, trace: seq<Entry>, m: nat, visited: set<Name>, done: set<Name>)
    requires m < |trace| && (forall i {:trigger trace[i]} :: 0 <= i < m ==> trace[i].node in done)
    requires SuccessorsIn(adj, done, visited)
    ensures Children(adj, trace, m, Fresh(Neighbours(adj, trace[m].node), visited + {trace[m].node}, trace[m].path))
  {
  }

  /** Dequeuing entry `m` and appending `f`, whose entries all have parent
      `m`, moves the boundary between the expanded entries and the queue by
      one. */
  lemma LinkAdvances(trace: seq<Entry>, parents: seq<nat>, m: nat, queue: seq<Entry>, done: set<Name>, f: seq<Entry>)
    requires QueueLink(trace, parents, m, queue, done) && |parents| == |trace| && m < |trace|
    ensures QueueLink(trace + f, parents + Repeat(m, |f|), m + 1, queue[1..] + f, done + {queue[0].node})
  {
    assert queue[0] == trace[m];
    var t, p := trace + f, parents + Repeat(m, |f|);
    if f == [] {
      assert p == parents && t == trace;
    } else {
      assert p[|t| - 1] == m;
    }
  }

  /** One turn of the `while queue:` loop that dequeues a node other than the
      target keeps the discovery rule and its link to the queue: the
      dequeued entry is the next traced one, and what its expansion appends
      are its children. */
  lemma DiscoverStep(adj: Adjacency, queue: seq<Entry>, visited: set<Name>, done: set<Name>,
                     trace: seq<Entry>, parents: seq<nat>, m: nat)
    requires Discovered(adj, trace, parents, m, queue, done)
    requires queue != [] && SuccessorsIn(adj, done, visited)
    ensures Discovered(adj,
                       trace + Fresh(Neighbours(adj, queue[0].node), visited + {queue[0].node}, queue[0].path),
                       parents + Repeat(m, |Fresh(Neighbours(adj, queue[0].node), visited + {queue[0].node}, queue[0].path)|),
                       m + 1,
                       queue[1..] + Fresh(Neighbours(adj, queue[0].node), visited + {queue[0].node}, queue[0].path),
                       done + {queue[0].node})
  {
    assert trace[m] == queue[0];
    var f := Fresh(Neighbours(adj, queue[0].node), visited + {queue[0].node}, queue[0].path);
    FreshAreChildren(adj, trace, m, visited, done);
    DiscoveryExtend(adj, trace, parents, m, f);
    LinkAdvances(trace, parents, m, queue, done, f);
  }

  /** Dequeuing the target: it is the next traced entry, and every entry
      dequeued before it had all its neighbours traced. */
  lemma TargetDiscovered(adj: Adjacency, start: Name, target: Name, queue: seq<Entry>, visited: set<Name>,
                         done: set<Name>, trace: seq<Entry>, parents: seq<nat>, m: nat)
    requires Searching(adj, start, target, queue, visited, done, trace)
    requires Discovered(adj, trace, parents, m, queue, done)
    requires queue != [] && queue[0].node == target
    ensures m < |trace| && trace[m] == Entry(target, queue[0].path)
    ensures ExpandedBefore(adj, trace, m)
  {
    assert trace[m] == queue[0];
  }

  /** An empty frontier: the expanded nodes hold everything reachable. */
  lemma SearchExhausted(adj: Adjacency, start: Name, target: Name,
                        visited: set<Name>, done: set<Name>, trace: seq<Entry>)
    requires Searching(adj, start, target, [], visited, done, trace)
    ensures !Reachable(adj, start, target)
    ensures forall n :: Reachable(adj, start, n) ==> n in Nodes(trace)
  {
    forall p | IsWalkFrom(adj, start, p) ensures Last(p) in done {
      ClosedContainsWalks(adj, start, done, p);
    }
  }

  /** The loop over the neighbour records of the node just dequeued with
      `path`: each name not yet visited is marked visited and appended to
      the queue with its path, in record order. */
  method EnqueueFresh(neighbours: seq<Name>, path: seq<Name>, queue: seq<Entry>, visited: set<Name>)
    returns (queue': seq<Entry>, visited': set<Name>)
    ensures queue' == queue + Fresh(neighbours, visited, path)
    ensures visited' == visited + Elements(neighbours)
  {
    queue', visited' := queue, visited;
    for i := 0 to |neighbours|
      invariant queue' == queue + Fresh(neighbours[..i], visited, path)
      invariant visited' == visited + Elements(neighbours[..i])
    {
      var nb := neighbours[i];
      assert neighbours[..i + 1][..i] == neighbours[..i] && neighbours[..i + 1][i] == nb;
      assert Elements(neighbours[..i + 1]) == Elements(neighbours[..i]) + {nb} by {
        assert neighbours[..i + 1] == neighbours[..i] + [nb];
      }
      if nb !in visited' {
        queue' := queue' + [Entry(nb, path + [nb])];
        visited' := visited' + {nb};
      }
    }
    assert neighbours[..|neighbours|] == neighbours;
  }

  /** Breadth-first search from `start` along outgoing TRIP edges; the
      path recorded when `target` is first dequeued, or None once the
      frontier is empty. `trace` lists the entries in the order they were
      appended to the queue. */
  method Bfs(adj: Adjacency, start: Name, target: Name)
    returns (r: Option<seq<Name>>, ghost trace: seq<Entry>, ghost parents: seq<nat>)
    ensures r.Some? ==> IsShortest(adj, start, target, r.value)
    ensures r.Some? ==> NoRepeats(r.value)
    ensures r.None? <==> !Reachable(adj, start, target)
    ensures start == target ==> r == Some([start])
    ensures |trace| > 0 && trace[0] == Entry(start, [start])
    ensures DistinctNodes(trace)
    ensures ShortestEntries(adj, start, trace)
    ensures r.Some? ==> target in Nodes(trace)
    ensures r.None? ==> forall n :: Reachable(adj, start, n) ==> n in Nodes(trace)
    ensures DiscoveryOrder(adj, trace, parents)
    ensures r.Some? ==> exists m :: 0 <= m < |trace| && trace[m] == Entry(target, r.value) &&
                                   ExpandedBefore(adj, trace, m)
  {
    var queue := [Entry(start, [start])];
    var visited: set<Name> := {};
    ghost var done: set<Name> := {};
    trace, parents := [Entry(start, [start])], [0];
    ghost var m: nat := 0;
    SearchStarts(adj, start, target);
    while queue != []
      invariant Searching(adj, start, target, queue, visited, done, trace)
      invariant Discovered(adj, trace, parents, m, queue, done)
      decreases |Universe(adj, start) - visited|, |queue|
    {
      if queue[0].node == target {
        PopTarget(adj, start, target, queue, visited, done, trace);
        TargetDiscovered(adj, start, target, queue, visited, done, trace, parents, m);
      } else {
        Expand(adj, start, target, queue, visited, done, trace);
        DiscoverStep(adj, queue, visited, done, trace, parents, m);
      }
      var cur, path := queue[0].node, queue[0].path;
      queue := queue[1..];
      if cur == target {
        r := Some(path);
        return;
      }
      visited := visited + {cur};
      var neighbours := Neighbours(adj, cur);
      ghost var visited1 := visited;
      queue, visited := EnqueueFresh(neighbours, path, queue, visited);
      ghost var appended := Fresh(neighbours, visited1, path);
      trace, parents, m := trace + appended, parents + Repeat(m, |appended|), m + 1;
      done := done + {cur};
    }
    SearchExhausted(adj, start, target, visited, done, trace);
    r := None;
  }

  /** The result selection at the end of `pagerank`: the first and the last
      row of the ranking the database returned, or a pair of None when it
      returned no rows. */
  function PageRankExtremes<T>(scores: seq<T>): (r: (Option<T>, Option<T>))
    ensures r.0.Some? <==> |scores| > 0
    ensures r.1.Some? <==> |scores| > 0
    ensures r.0.Some? ==> r.0.value == scores[0]
    ensures r.1.Some? ==> r.1.value == scores[|scores| - 1]
  {
    if |scores| > 0 then (Some(scores[0]), Some(scores[|scores| - 1])) else (None, None)
  }

  /** A row of the PageRank response: a location name and its score. */
  datatype Row = Row(name: Name, score: real)

  /** The order the ranking query asks the database for (`ORDER BY score
      DESC`): no row scores below the row after it. */
  ghost predicate DescendingScores(rows: seq<Row>)
  {
    forall i :: 0 <= i < |rows| - 1 ==> rows[i].score >= rows[i + 1].score
  }

  /** In a ranking ordered by descending score, an earlier row scores at least
      as high as any later one. */
  lemma {:induction false} DescendingBetween(rows: seq<Row>, i: nat, j: nat)
    requires DescendingScores(rows) && i <= j < |rows|
    ensures rows[i].score >= rows[j].score
    decreases j - i
  {
    if i < j {
      DescendingBetween(rows, i + 1, j);
    }
  }

  /** When the database returns its ranking in the requested order, the rows
      `pagerank` reports as `max_score_node` and `min_score_node` hold the
      highest and the lowest score of all rows. */
  lemma TopAndBottom(rows: seq<Row>)
    requires DescendingScores(rows)
    ensures |rows| > 0 ==> forall r :: r in rows ==>
      PageRankExtremes(rows).0.value.score >= r.score >= PageRankExtremes(rows).1.value.score
  {
    forall r | r in rows
      ensures PageRankExtremes(rows).0.value.score >= r.score >= PageRankExtremes(rows).1.value.score
    {
      var k :| 0 <= k < |rows| && rows[k] == r;
      DescendingBetween(rows, 0, k);
      DescendingBetween(rows, k, |rows| - 1);
    }
  }
}
