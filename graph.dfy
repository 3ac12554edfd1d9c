/**
 The graph of locations as the breadth-first search sees it: a node is
 known only by its name, and the database's neighbour query (outgoing
 TRIP relationships of the node with that name) is a given adjacency map.
 */
module Graph {

  type Name = string

  /** For each node name, the names of its outgoing TRIP neighbours in the
      order the query yields its records (a parallel edge repeats a name). */
  type Adjacency = map<Name, seq<Name>>

  /** What the neighbour query returns for `n`: a name that matches no node
      yields no records. */
  function Neighbours(adj: Adjacency, n: Name): (r: seq<Name>)
    ensures n !in adj ==> r == []
    ensures n in adj ==> r == adj[n]
  {
    if n in adj then adj[n] else []
  }

  function Last(p: seq<Name>): Name
    requires |p| > 0
  {
    p[|p| - 1]
  }

  /** A non-empty sequence of names in which each name is an outgoing
      neighbour of the one before it. */
  predicate IsWalk(adj: Adjacency, p: seq<Name>)
  {
    |p| > 0 && forall i :: 0 <= i < |p| - 1 ==> p[i + 1] in Neighbours(adj, p[i])
  }

  predicate IsWalkFrom(adj: Adjacency, s: Name, p: seq<Name>)
  {
    IsWalk(adj, p) && p[0] == s
  }

  predicate IsWalkFromTo(adj: Adjacency, s: Name, t: Name, p: seq<Name>)
  {
    IsWalkFrom(adj, s, p) && Last(p) == t
  }

  ghost predicate Reachable(adj: Adjacency, s: Name, t: Name)
  {
    exists p :: IsWalkFromTo(adj, s, t, p)
  }

  /** `p` is a walk from `s` to `t` with as few hops as any such walk. */
  ghost predicate IsShortest(adj: Adjacency, s: Name, t: Name, p: seq<Name>)
  {
    IsWalkFromTo(adj, s, t, p) && forall q {:trigger IsWalkFromTo(adj, s, t, q)} :: IsWalkFromTo(adj, s, t, q) ==> |p| <= |q|
  }

  predicate NoRepeats(p: seq<Name>)
  {
    forall i, j :: 0 <= i < j < |p| ==> p[i] != p[j]
  }

  /** Every outgoing neighbour of a node in `from` is in `into`. */
  ghost predicate SuccessorsIn(adj: Adjacency, from: set<Name>, into: set<Name>)
  {
    forall u, v {:trigger v in Neighbours(adj, u)} :: u in from && v in Neighbours(adj, u) ==> v in into
  }

  /** Every name the search can ever meet: the start, the nodes the query
      knows, and the neighbours it returns. */
  ghost function Universe(adj: Adjacency, start: Name): (u: set<Name>)
    ensures start in u
  {
    {start} + adj.Keys + (set n, v | n in adj && v in adj[n] :: v)
  }

  lemma NeighbourInUniverse(adj: Adjacency, start: Name, n: Name, v: Name)
    requires v in Neighbours(adj, n)
    ensures v in Universe(adj, start)
  {
  }

  lemma WalkPrefix(adj: Adjacency, p: seq<Name>, k: nat)
    requires IsWalk(adj, p) && 0 < k <= |p|
    ensures IsWalk(adj, p[..k]) && p[..k][0] == p[0] && Last(p[..k]) == p[k - 1]
  {
  }

  lemma WalkExtend(adj: Adjacency, s: Name, p: seq<Name>, v: Name)
    requires IsWalkFrom(adj, s, p) && v in Neighbours(adj, Last(p))
    ensures IsWalkFromTo(adj, s, v, p + [v])
  {
  }

  /** If a set holds `s` and all outgoing neighbours of its members, every
      walk from `s` stays inside it. */
  lemma {:induction false} ClosedContainsWalks(adj: Adjacency, s: Name, closed: set<Name>, p: seq<Name>)
    requires s in closed && SuccessorsIn(adj, closed, closed)
    requires IsWalkFrom(adj, s, p)
    ensures Last(p) in closed
    decreases |p|
  {
    if |p| > 1 {
      var p' := p[..|p| - 1];
      WalkPrefix(adj, p, |p| - 1);
      ClosedContainsWalks(adj, s, closed, p');
      assert p[|p| - 1] in Neighbours(adj, Last(p'));
    }
  }

  /** Cutting out the stretch between two visits of one node shortens a walk
      without changing where it starts and ends. */
  lemma ShortcutIsWalk(adj: Adjacency, s: Name, t: Name, p: seq<Name>, i: nat, j: nat)
    requires IsWalkFromTo(adj, s, t, p) && i < j < |p| && p[i] == p[j]
    ensures IsWalkFromTo(adj, s, t, p[..i] + p[j..]) && |p[..i] + p[j..]| < |p|
  {
  }

  /** A walk with the fewest hops never visits a node twice. */
  lemma {:induction false} ShortestIsSimple(adj: Adjacency, s: Name, t: Name, p: seq<Name>)
    requires IsShortest(adj, s, t, p)
    ensures NoRepeats(p)
  {
    if !NoRepeats(p) {
      var i, j :| 0 <= i < j < |p| && p[i] == p[j];
      ShortcutIsWalk(adj, s, t, p, i, j);
      assert false;
    }
  }
}
