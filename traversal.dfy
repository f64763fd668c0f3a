/** The traversal engine of adjList.c: reachability by recursive depth-first
    search (dfs/dfsRec) and by breadth-first search with an array-backed queue
    (bfs), and component labelling by repeated depth-first search
    (dfsComp/dfsCompRec). None of them changes the graph. */
module Traversal {
  import opened Digraph
  import opened GraphStore
  import opened Components
  import opened SearchState

  /** dfsRec: marks o visited, answers true at once when o is d, and otherwise
      recurses, in list order, into each successor not yet visited, until one
      of those calls answers true. The visited array is shared by all calls and
      only ever gains marks; each call marks one more vertex, which bounds the
      recursion. A true answer means d is reached from o through vertices this
      call marked, which were all unvisited on entry, and so is every vertex
      the call marks: nothing else is marked. A false answer leaves d
      unvisited if it was unvisited on entry, and every vertex this call marked
      with all its successors marked. */
  method DfsRec(g: Graph, v: array<bool>, o: int, d: int) returns (found: bool)
    requires g.Valid() && v.Length == g.nv && 0 <= o < g.nv
    requires !v[o]
    modifies v
    decreases Unmarked(v[..])
    ensures forall x :: 0 <= x < v.Length && old(v[x]) ==> v[x]
    ensures v[o]
    ensures o == d ==> found
    ensures found ==> Reachable(g.Lists(), o, d)
    ensures found ==> ReachableWithin(g.Lists(), Newly(old(v[..]), v[..]), o, d)
    ensures forall x :: x in Newly(old(v[..]), v[..]) ==> ReachableWithin(g.Lists(), Newly(old(v[..]), v[..]), o, x)
    ensures !found && d !in Marked(old(v[..])) ==> d !in Marked(v[..])
    ensures !found ==> forall x :: x in Newly(old(v[..]), v[..]) ==> SuccessorsIn(g.Lists(), x, Marked(v[..]))
  {
    ghost var lists := g.Lists();
    ghost var v0 := v[..];
    v[o] := true;
    if o == d {
      found := true;
      ReachableWithinStart(lists, Vertices(|lists|), o);
      ReachableWithinStart(lists, Newly(v0, v[..]), o);
      assert v[..] == v0[o := true];
    } else {
      assert v[..] == v0[o := true];
      ReachableWithinStart(lists, Newly(v0, v[..]), o);
      found := false;
      var edges := g.adj[o];
      var k := 0;
      while k < |edges| && !found
        invariant 0 <= k <= |edges| && edges == lists[o]
        invariant v[o] && forall x :: 0 <= x < v.Length && v0[x] ==> v[x]
        invariant found ==> Reachable(lists, o, d)
        invariant found ==> ReachableWithin(lists, Newly(v0, v[..]), o, d)
        invariant forall x :: x in Newly(v0, v[..]) ==> ReachableWithin(lists, Newly(v0, v[..]), o, x)
        invariant !found && d !in Marked(v0) ==> d !in Marked(v[..])
        invariant !found ==> forall j :: 0 <= j < k ==> v[edges[j].dest]
        invariant !found ==> forall x :: x in Newly(v0, v[..]) && x != o ==> SuccessorsIn(lists, x, Marked(v[..]))
      {
        var w := edges[k].dest;
        if !v[w] {
          ghost var before := v[..];
          assert o in Unmarked(v0) - Unmarked(before);
          found := DfsRec(g, v, w, d);
          assert HasEdge(lists, o, w);
          assert o in Newly(v0, v[..]);
          assert Newly(v0, before) <= Newly(v0, v[..]) && Newly(before, v[..]) <= Newly(v0, v[..]);
          forall x | x in Newly(v0, v[..])
            ensures ReachableWithin(lists, Newly(v0, v[..]), o, x)
          {
            if x in Newly(before, v[..]) {
              ReachableWithinGrow(lists, Newly(before, v[..]), Newly(v0, v[..]), w, x);
              ReachableWithinPrepend(lists, Newly(v0, v[..]), o, w, x);
            } else {
              assert x in Newly(v0, before);
              ReachableWithinGrow(lists, Newly(v0, before), Newly(v0, v[..]), o, x);
            }
          }
          if found {
            ReachableWithinPrepend(lists, Vertices(|lists|), o, w, d);
            assert o in Newly(v0, v[..]) && Newly(before, v[..]) <= Newly(v0, v[..]);
            ReachableWithinGrow(lists, Newly(before, v[..]), Newly(v0, v[..]), w, d);
            ReachableWithinPrepend(lists, Newly(v0, v[..]), o, w, d);
          } else {
            assert Marked(before) <= Marked(v[..]);
            forall x | x in Newly(v0, v[..]) && x != o
              ensures SuccessorsIn(lists, x, Marked(v[..]))
            {
              if !before[x] {
                assert x in Newly(before, v[..]);
              } else {
                assert x in Newly(v0, before);
              }
            }
          }
        }
        k := k + 1;
      }
    }
  }

  /** dfs: true exactly when d can be reached from o; in particular always
      true when d is o. */
  method Dfs(g: Graph, o: int, d: int) returns (found: bool)
    requires g.Valid() && 0 <= o < g.nv
    ensures o == d ==> found
    ensures found == Reachable(g.Lists(), o, d)
  {
    var v := new bool[g.nv](_ => false);
    ghost var v0 := v[..];
    found := DfsRec(g, v, o, d);
    if !found {
      ghost var lists := g.Lists();
      forall x | x in Marked(v[..])
        ensures 0 <= x < |lists| && SuccessorsIn(lists, x, Marked(v[..]))
      {
        assert x in Newly(v0, v[..]);
      }
      ClosedSetBlocks(lists, Marked(v[..]), o, d);
    }
  }

  /** bfs: true exactly when d can be reached from o. The queue q has room for
      nv vertices; j is its tail and i its head. The origin is marked visited
      when it is dequeued, every other vertex when it is enqueued, so no vertex
      is enqueued twice and j never exceeds nv. After d has been dequeued
      (found), nothing more is enqueued and the remaining entries are only
      dequeued. */
  method Bfs(g: Graph, o: int, d: int) returns (found: bool)
    requires g.Valid() && 0 <= o < g.nv
    ensures found == Reachable(g.Lists(), o, d)
  {
    ghost var lists := g.Lists();
    var n := g.nv;
    var q := new int[n];
    var v := new bool[n](_ => false);
    var i, j := 0, 0;
    found := false;
    q[j] := o;
    j := j + 1;
    ghost var queue := [o];
    ghost var jf := 0;  // the tail of the queue when d was dequeued
    BfsStart(lists, o, d, v[..]);
    while i < j
      invariant j == |queue| <= n && q[..j] == queue
      invariant BfsInv(lists, o, d, queue, i, found, v[..])
      invariant found ==> j == jf
      decreases n - i
    {
      Dequeue(lists, o, d, queue, i, found, v[..]);
      ghost var vs := v[..];
      var node := q[i];
      assert node == queue[i];
      i := i + 1;
      v[node] := true;
      assert v[..] == vs[node := true];
      if node == d {
        found := true;
        jf := j;
      }
      var edges := g.adj[node];
      var k := 0;
      while k < |edges| && !found
        invariant j == |queue| <= n && q[..j] == queue && edges == lists[node]
        invariant ScanInv(lists, o, d, queue, i, found, v[..], node, k)
        invariant found ==> j == jf
      {
        var w := edges[k].dest;
        if !v[w] {
          EnqueueStep(lists, o, d, queue, i, v[..], node, k);
          ghost var vs := v[..];
          q[j] := w;
          PrefixSnoc(q[..], j);
          j := j + 1;
          v[w] := true;
          assert v[..] == vs[w := true];
          queue := queue + [w];
        } else {
          SkipStep(lists, o, d, queue, i, found, v[..], node, k);
        }
        k := k + 1;
      }
      ScanDone(lists, o, d, queue, i, found, v[..], node, k);
    }
    BfsDone(lists, o, d, queue, found, v[..]);
  }

  /** dfsCompRec: marks o visited with label `color`, then recurses into each
      successor not yet visited. Afterwards the vertices this call marked are
      exactly those o reaches through vertices unvisited on entry; they, and no
      others, now carry `color`; each is reached from o through vertices this
      call marked; and all their successors are marked. */
  method DfsCompRec(g: Graph, o: int, v: array<bool>, c: array<int>, color: int)
    requires g.Valid() && v.Length == g.nv && c.Length == g.nv && 0 <= o < g.nv && !v[o]
    modifies v, c
    decreases Unmarked(v[..])
    ensures RecEffect(g.Lists(), old(v[..]), old(c[..]), v[..], c[..], o, color)
    ensures forall x :: ReachableWithin(g.Lists(), Unmarked(old(v[..])), o, x) ==> x in Newly(old(v[..]), v[..])
  {
    ghost var lists := g.Lists();
    ghost var v0, c0 := v[..], c[..];
    v[o] := true;
    c[o] := color;
    RecStart(lists, v0, c0, v[..], c[..], o, color);
    var edges := g.adj[o];
    var k := 0;
    while k < |edges|
      invariant edges == lists[o] && RecLoopInv(lists, v0, c0, v[..], c[..], o, color, k)
    {
      var w := edges[k].dest;
      if !v[w] {
        ghost var vb, cb := v[..], c[..];
        UnmarkedShrinks(v0, vb, o);
        DfsCompRec(g, w, v, c, color);
        RecChild(lists, v0, c0, vb, cb, v[..], c[..], o, color, k);
      } else {
        RecSkip(lists, v0, c0, v[..], c[..], o, color, k);
      }
      k := k + 1;
    }
    RecDone(lists, v0, c0, v[..], c[..], o, color, k);
  }

  /** dfsComp: labels the vertices by running dfsCompRec, with a fresh label,
      from each vertex that is still unvisited when the index-order scan reaches
      it. The labels are returned instead of printed. */
  method DfsComp(g: Graph) returns (labels: seq<int>)
    requires g.Valid()
    ensures IsComponentLabelling(g.Lists(), labels)
  {
    ghost var lists := g.Lists();
    var n := g.nv;
    var v := new bool[n](_ => false);
    var c := new int[n](_ => 0);
    var color := 0;
    ghost var roots: seq<int> := [];
    CompStart(lists, v[..], c[..]);
    var i := 0;
    while i < n
      invariant g.Valid() && g.Lists() == lists
      invariant color == |roots| && CompInv(lists, v[..], c[..], roots, i)
    {
      if !v[i] {
        ghost var vb, cb := v[..], c[..];
        DfsCompRec(g, i, v, c, color);
        CompStep(lists, vb, cb, v[..], c[..], roots, i);
        roots := roots + [i];
        color := color + 1;
      } else {
        CompSkip(lists, v[..], c[..], roots, i);
      }
      i := i + 1;
    }
    CompDone(lists, v[..], c[..], roots, i);
    labels := c[..];
  }
}
