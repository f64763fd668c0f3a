/** Directed, weighted multigraphs as adjacency lists, and reachability over them.
    Vertex x's list holds its outgoing edges in insertion order; a vertex is an
    index in [0, |lists|). */
module Digraph {

  /** One entry of an adjacency list: the edge's destination vertex and its cost. */
  datatype Edge = Edge(dest: int, cost: int)

  /** lists[x] is the adjacency list of vertex x. */
  type AdjLists = seq<seq<Edge>>

  /** Every edge leads to a vertex of the graph. */
  ghost predicate WellFormed(lists: AdjLists) {
    forall x, k :: 0 <= x < |lists| && 0 <= k < |lists[x]| ==> 0 <= lists[x][k].dest < |lists|
  }

  /** Some edge of x's list leads to y. */
  ghost predicate HasEdge(lists: AdjLists, x: int, y: int) {
    0 <= x < |lists| && exists k :: 0 <= k < |lists[x]| && lists[x][k].dest == y
  }

  /** p is a non-empty walk along edges of the graph. */
  ghost predicate IsPath(lists: AdjLists, p: seq<int>) {
    && |p| > 0
    && (forall m :: 0 <= m < |p| ==> 0 <= p[m] < |lists|)
    && (forall m :: 0 < m < |p| ==> HasEdge(lists, p[m - 1], p[m]))
  }

  /** p is a walk whose every vertex lies in s. */
  ghost predicate PathWithin(lists: AdjLists, p: seq<int>, s: set<int>) {
    IsPath(lists, p) && forall m :: 0 <= m < |p| ==> p[m] in s
  }

  /** d can be reached from o by a walk that stays inside s (o and d included). */
  ghost predicate ReachableWithin(lists: AdjLists, s: set<int>, o: int, d: int) {
    exists p :: PathWithin(lists, p, s) && p[0] == o && p[|p| - 1] == d
  }

  /** The vertex indices [0, n). */
  function Vertices(n: nat): (r: set<int>)
    ensures forall x :: x in r <==> 0 <= x < n
    ensures |r| == n
  {
    if n == 0 then {} else Vertices(n - 1) + {n - 1}
  }

  /** There is a directed path from o to d (of length zero when o == d). */
  ghost predicate Reachable(lists: AdjLists, o: int, d: int) {
    ReachableWithin(lists, Vertices(|lists|), o, d)
  }

  /** Every successor of x lies in s. */
  ghost predicate SuccessorsIn(lists: AdjLists, x: int, s: set<int>)
    requires 0 <= x < |lists|
  {
    forall k :: 0 <= k < |lists[x]| ==> lists[x][k].dest in s
  }

  /** The vertices flagged in a visited array. */
  function Marked(vis: seq<bool>): set<int> {
    set x | 0 <= x < |vis| && vis[x]
  }

  /** The vertices not flagged in a visited array. */
  function Unmarked(vis: seq<bool>): set<int> {
    set x | 0 <= x < |vis| && !vis[x]
  }

  /** The vertices flagged in `after` but not in `before`. */
  function Newly(before: seq<bool>, after: seq<bool>): set<int>
    requires |before| == |after|
  {
    set x | 0 <= x < |after| && after[x] && !before[x]
  }

  lemma ReachableWithinStart(lists: AdjLists, s: set<int>, o: int)
    requires 0 <= o < |lists| && o in s
    ensures ReachableWithin(lists, s, o, o)
  {
    assert PathWithin(lists, [o], s);
  }

  /** An edge o -> x in front of a walk from x gives a walk from o. */
  lemma ReachableWithinPrepend(lists: AdjLists, s: set<int>, o: int, x: int, d: int)
    requires o in s && HasEdge(lists, o, x) && ReachableWithin(lists, s, x, d)
    ensures ReachableWithin(lists, s, o, d)
  {
    var p :| PathWithin(lists, p, s) && p[0] == x && p[|p| - 1] == d;
    var q := [o] + p;
    forall m | 0 < m < |q|
      ensures HasEdge(lists, q[m - 1], q[m])
    {
      if m > 1 {
        assert q[m - 1] == p[m - 2] && q[m] == p[m - 1];
      }
    }
    assert PathWithin(lists, q, s);
  }

  /** An edge x -> d after a walk to x gives a walk to d. */
  lemma ReachableWithinAppend(lists: AdjLists, s: set<int>, o: int, x: int, d: int)
    requires d in s && 0 <= d < |lists| && HasEdge(lists, x, d) && ReachableWithin(lists, s, o, x)
    ensures ReachableWithin(lists, s, o, d)
  {
    var p :| PathWithin(lists, p, s) && p[0] == o && p[|p| - 1] == x;
    var q := p + [d];
    forall m | 0 < m < |q|
      ensures HasEdge(lists, q[m - 1], q[m])
    {
      if m < |p| {
        assert q[m - 1] == p[m - 1] && q[m] == p[m];
      }
    }
    assert PathWithin(lists, q, s);
  }

  /** A walk inside s is also a walk inside any superset of s. */
  lemma ReachableWithinGrow(lists: AdjLists, s: set<int>, t: set<int>, o: int, d: int)
    requires s <= t && ReachableWithin(lists, s, o, d)
    ensures ReachableWithin(lists, t, o, d)
  {
    var p :| PathWithin(lists, p, s) && p[0] == o && p[|p| - 1] == d;
    assert PathWithin(lists, p, t);
  }

  /** A walk that starts in `inside`, never enters `outside`, and only moves
      through vertices of `inside` whose successors are in `inside` or `outside`,
      stays in `inside` up to index m. */
  lemma {:induction false} PathConfinedAt(lists: AdjLists, p: seq<int>, inside: set<int>, outside: set<int>, m: int)
    requires IsPath(lists, p) && p[0] in inside
    requires forall x :: x in inside ==> 0 <= x < |lists| && SuccessorsIn(lists, x, inside + outside)
    requires forall j :: 0 <= j < |p| ==> p[j] !in outside
    requires 0 <= m < |p|
    ensures p[m] in inside
  {
    if m > 0 {
      PathConfinedAt(lists, p, inside, outside, m - 1);
      assert HasEdge(lists, p[m - 1], p[m]);
      var k :| 0 <= k < |lists[p[m - 1]]| && lists[p[m - 1]][k].dest == p[m];
    }
  }

  /** Whatever o reaches while avoiding `outside` is in `inside`, when `inside`
      holds o and only has edges into `inside` or `outside`. */
  lemma ConfinedReach(lists: AdjLists, s: set<int>, inside: set<int>, outside: set<int>, o: int, d: int)
    requires o in inside && s !! outside
    requires forall x :: x in inside ==> 0 <= x < |lists| && SuccessorsIn(lists, x, inside + outside)
    requires ReachableWithin(lists, s, o, d)
    ensures d in inside
  {
    var p :| PathWithin(lists, p, s) && p[0] == o && p[|p| - 1] == d;
    PathConfinedAt(lists, p, inside, outside, |p| - 1);
  }

  /** A set of vertices that holds o, not d, and is closed under edges shows
      that d is not reachable from o. */
  lemma ClosedSetBlocks(lists: AdjLists, closed: set<int>, o: int, d: int)
    requires o in closed && d !in closed
    requires forall x :: x in closed ==> 0 <= x < |lists| && SuccessorsIn(lists, x, closed)
    ensures !Reachable(lists, o, d)
  {
    if Reachable(lists, o, d) {
      assert closed + {} == closed;
      ConfinedReach(lists, Vertices(|lists|), closed, {}, o, d);
    }
  }
}
