/** The states that the searches of adjList.c pass through, over snapshots of
    their arrays: the queue of bfs, the visited and label arrays of dfsComp,
    and the lemmas that carry these states from one step of a search to the
    next. */
module SearchState {
  import opened Digraph
  import opened Components
  /** The elements of a sequence. */
  function Elements(s: seq<int>): set<int> {
    set x | x in s
  }

  /** A sequence without repetitions has as many elements as entries. */
  lemma {:induction false} DistinctElements(s: seq<int>)
    requires forall a, b :: 0 <= a < b < |s| ==> s[a] != s[b]
    ensures |Elements(s)| == |s|
  {
    if s != [] {
      var t := s[..|s| - 1];
      DistinctElements(t);
      assert Elements(s) == Elements(t) + {s[|s| - 1]};
    }
  }

  lemma SubsetSize(a: set<int>, b: set<int>)
    requires a <= b
    ensures |a| <= |b|
  {
    assert b == a + (b - a);
  }

  /** Queue bound of bfs: a queue in which no vertex occurs twice holds at most
      n vertices of [0, n). */
  lemma QueueBound(s: seq<int>, n: nat)
    requires forall a, b :: 0 <= a < b < |s| ==> s[a] != s[b]
    requires forall a :: 0 <= a < |s| ==> 0 <= s[a] < n
    ensures |s| <= n
  {
    DistinctElements(s);
    assert Elements(s) <= Vertices(n);
    SubsetSize(Elements(s), Vertices(n));
  }

  /** The queue holds vertices of the graph, each at most once, each reachable from o. */
  ghost predicate QueueOk(lists: AdjLists, o: int, queue: seq<int>) {
    && (forall m :: 0 <= m < |queue| ==> 0 <= queue[m] < |lists|)
    && (forall m {:trigger Reachable(lists, o, queue[m])} :: 0 <= m < |queue| ==> Reachable(lists, o, queue[m]))
    && (forall a, b :: 0 <= a < b < |queue| ==> queue[a] != queue[b])
  }

  /** Every successor of the first h queue entries has been enqueued. */
  ghost predicate ExpandedUpTo(lists: AdjLists, queue: seq<int>, h: int) {
    forall m, e :: 0 <= m < h && m < |queue| && 0 <= queue[m] < |lists| && 0 <= e < |lists[queue[m]]| ==>
      lists[queue[m]][e].dest in queue
  }

  /** Enqueueing an unvisited successor of a queued vertex keeps the queue
      without repetitions and reachable from o. */
  lemma Enqueue(lists: AdjLists, o: int, queue: seq<int>, node: int, k: int)
    requires QueueOk(lists, o, queue) && WellFormed(lists) && node in queue
    requires 0 <= node < |lists| && 0 <= k < |lists[node]| && lists[node][k].dest !in queue
    ensures QueueOk(lists, o, queue + [lists[node][k].dest])
  {
    var w := lists[node][k].dest;
    var m :| 0 <= m < |queue| && queue[m] == node;
    assert Reachable(lists, o, queue[m]);
    assert HasEdge(lists, node, w);
    ReachableWithinAppend(lists, Vertices(|lists|), o, node, w);
  }

  /** The state of bfs between two dequeues, over snapshots of its arrays:
      queue is q[..j], i the head, vs the visited flags. Before the first
      dequeue only o is queued and nothing is visited; afterwards exactly the
      queued vertices are visited. found records whether d has been dequeued;
      until then every successor of a dequeued vertex has been enqueued. */
  ghost predicate BfsInv(lists: AdjLists, o: int, d: int, queue: seq<int>, i: int, found: bool, vs: seq<bool>) {
    && |vs| == |lists| && 0 <= i <= |queue| <= |lists| && 0 < |queue| && queue[0] == o
    && QueueOk(lists, o, queue)
    && (i == 0 ==> |queue| == 1 && forall x :: 0 <= x < |vs| ==> !vs[x])
    && (i > 0 ==> forall x :: 0 <= x < |vs| ==> (vs[x] <==> x in queue))
    && (found <==> d in queue[..i])
    && (!found ==> ExpandedUpTo(lists, queue, i))
  }

  /** The state of bfs while it scans the list of node, the vertex dequeued
      last, having looked at its first k edges. */
  ghost predicate ScanInv(lists: AdjLists, o: int, d: int, queue: seq<int>, i: int, found: bool, vs: seq<bool>, node: int, k: int) {
    && |vs| == |lists| && 0 < i <= |queue| <= |lists| && queue[0] == o && queue[i - 1] == node
    && 0 <= node < |lists| && 0 <= k <= |lists[node]|
    && QueueOk(lists, o, queue)
    && (forall x :: 0 <= x < |vs| ==> (vs[x] <==> x in queue))
    && (found <==> d in queue[..i])
    && (!found ==> ExpandedUpTo(lists, queue, i - 1))
    && (!found ==> forall e :: 0 <= e < k ==> lists[node][e].dest in queue)
  }

  /** bfs's initial state: o queued, nothing visited. */
  lemma BfsStart(lists: AdjLists, o: int, d: int, vs: seq<bool>)
    requires 0 <= o < |lists| && |vs| == |lists| && forall x :: 0 <= x < |vs| ==> !vs[x]
    ensures BfsInv(lists, o, d, [o], 0, false, vs)
  {
    ReachableWithinStart(lists, Vertices(|lists|), o);
  }

  /** Dequeueing queue[i] and marking it visited starts the scan of its list. */
  lemma Dequeue(lists: AdjLists, o: int, d: int, queue: seq<int>, i: int, found: bool, vs: seq<bool>)
    requires BfsInv(lists, o, d, queue, i, found, vs) && i < |queue|
    ensures ScanInv(lists, o, d, queue, i + 1, found || queue[i] == d, vs[queue[i] := true], queue[i], 0)
  {
    assert queue[..i + 1] == queue[..i] + [queue[i]];
  }

  /** Enqueueing an unvisited successor w of node and marking it visited. */
  lemma EnqueueStep(lists: AdjLists, o: int, d: int, queue: seq<int>, i: int, vs: seq<bool>, node: int, k: int)
    requires ScanInv(lists, o, d, queue, i, false, vs, node, k) && WellFormed(lists)
    requires k < |lists[node]| && !vs[lists[node][k].dest]
    ensures |queue| < |lists|
    ensures ScanInv(lists, o, d, queue + [lists[node][k].dest], i, false,
                    vs[lists[node][k].dest := true], node, k + 1)
  {
    var w := lists[node][k].dest;
    var queue' := queue + [w];
    Enqueue(lists, o, queue, node, k);
    QueueBound(queue', |lists|);
    assert queue'[..i] == queue[..i];
    forall m, e | 0 <= m < i - 1 && 0 <= queue'[m] < |lists| && 0 <= e < |lists[queue'[m]]|
      ensures lists[queue'[m]][e].dest in queue'
    {
      assert queue'[m] == queue[m];
    }
  }

  /** Passing over a successor of node that is already visited. */
  lemma SkipStep(lists: AdjLists, o: int, d: int, queue: seq<int>, i: int, found: bool, vs: seq<bool>, node: int, k: int)
    requires ScanInv(lists, o, d, queue, i, found, vs, node, k) && WellFormed(lists)
    requires k < |lists[node]| && vs[lists[node][k].dest]
    ensures ScanInv(lists, o, d, queue, i, found, vs, node, k + 1)
  {
  }

  /** The scan of node's list ends when the list is exhausted or d was found. */
  lemma ScanDone(lists: AdjLists, o: int, d: int, queue: seq<int>, i: int, found: bool, vs: seq<bool>, node: int, k: int)
    requires ScanInv(lists, o, d, queue, i, found, vs, node, k)
    requires k == |lists[node]| || found
    ensures BfsInv(lists, o, d, queue, i, found, vs)
  {
  }

  lemma PrefixSnoc(s: seq<int>, j: int)
    requires 0 <= j < |s|
    ensures s[..j + 1] == s[..j] + [s[j]]
  {
  }

  /** A queue that starts at o, has every successor of every entry enqueued,
      and does not hold d, shows that d is not reachable from o. */
  lemma QueueExhausted(lists: AdjLists, o: int, d: int, queue: seq<int>)
    requires QueueOk(lists, o, queue) && |queue| > 0 && queue[0] == o && d !in queue
    requires ExpandedUpTo(lists, queue, |queue|)
    ensures !Reachable(lists, o, d)
  {
    var closed := Elements(queue);
    forall x | x in closed
      ensures 0 <= x < |lists| && SuccessorsIn(lists, x, closed)
    {
      var m :| 0 <= m < |queue| && queue[m] == x;
    }
    ClosedSetBlocks(lists, closed, o, d);
  }

  /** When the queue is empty, found tells whether o reaches d. */
  lemma BfsDone(lists: AdjLists, o: int, d: int, queue: seq<int>, found: bool, vs: seq<bool>)
    requires BfsInv(lists, o, d, queue, |queue|, found, vs)
    ensures found == Reachable(lists, o, d)
  {
    assert queue[..|queue|] == queue;
    if !found {
      QueueExhausted(lists, o, d, queue);
    }
  }

  /** The vertices that are marked visited and carry label k. */
  function LabelledVisited(vis: seq<bool>, lab: seq<int>, k: int): set<int>
    requires |vis| == |lab|
  {
    set y | 0 <= y < |vis| && vis[y] && lab[y] == k
  }

  /** The effect of one dfsCompRec(o, color) call, over snapshots of the visited
      and label arrays before (vb, cb) and after (va, ca) it, as DfsCompRec
      ensures it. */
  ghost predicate RecEffect(lists: AdjLists, vb: seq<bool>, cb: seq<int>, va: seq<bool>, ca: seq<int>, o: int, color: int) {
    && |vb| == |cb| == |va| == |ca| == |lists|
    && (forall x :: 0 <= x < |va| && vb[x] ==> va[x])
    && (forall x :: 0 <= x < |ca| ==> ca[x] == (if va[x] && !vb[x] then color else cb[x]))
    && o in Newly(vb, va)
    && (forall x :: x in Newly(vb, va) ==> SuccessorsIn(lists, x, Marked(va)))
    && (forall x {:trigger ReachableWithin(lists, Newly(vb, va), o, x)} ::
          x in Newly(vb, va) ==> ReachableWithin(lists, Newly(vb, va), o, x))
  }

  /** The state of dfsCompRec(o, color) after it has looked at the first k
      edges of o, over snapshots of the visited and label arrays on entry
      (v0, c0) and now (vs, cs). */
  ghost predicate RecLoopInv(lists: AdjLists, v0: seq<bool>, c0: seq<int>, vs: seq<bool>, cs: seq<int>, o: int, color: int, k: int) {
    && |v0| == |c0| == |vs| == |cs| == |lists| && 0 <= o < |lists| && 0 <= k <= |lists[o]|
    && vs[o] && !v0[o]
    && (forall x :: 0 <= x < |vs| && v0[x] ==> vs[x])
    && (forall x :: 0 <= x < |cs| ==> cs[x] == (if vs[x] && !v0[x] then color else c0[x]))
    && (forall j :: 0 <= j < k ==> lists[o][j].dest in Marked(vs))
    && (forall x :: x in Newly(v0, vs) && x != o ==> SuccessorsIn(lists, x, Marked(vs)))
    && (forall x {:trigger ReachableWithin(lists, Newly(v0, vs), o, x)} ::
          x in Newly(v0, vs) ==> ReachableWithin(lists, Newly(v0, vs), o, x))
  }

  /** Marking o and labelling it starts the scan of o's list. */
  lemma RecStart(lists: AdjLists, v0: seq<bool>, c0: seq<int>, vs: seq<bool>, cs: seq<int>, o: int, color: int)
    requires |v0| == |c0| == |lists| && 0 <= o < |lists| && !v0[o]
    requires vs == v0[o := true] && cs == c0[o := color]
    ensures RecLoopInv(lists, v0, c0, vs, cs, o, color, 0)
  {
    assert Newly(v0, vs) == {o};
    ReachableWithinStart(lists, Newly(v0, vs), o);
  }

  /** Marking one more vertex shrinks the set of unmarked ones. */
  lemma UnmarkedShrinks(v0: seq<bool>, vs: seq<bool>, o: int)
    requires |v0| == |vs| && 0 <= o < |vs| && !v0[o] && vs[o]
    requires forall x :: 0 <= x < |vs| && v0[x] ==> vs[x]
    ensures Unmarked(vs) < Unmarked(v0)
  {
    assert o in Unmarked(v0) - Unmarked(vs);
  }

  /** A recursive call on the unvisited successor w = lists[o][k]. */
  lemma RecChild(lists: AdjLists, v0: seq<bool>, c0: seq<int>, vb: seq<bool>, cb: seq<int>, va: seq<bool>, ca: seq<int>,
                 o: int, color: int, k: int)
    requires RecLoopInv(lists, v0, c0, vb, cb, o, color, k) && k < |lists[o]|
    requires RecEffect(lists, vb, cb, va, ca, lists[o][k].dest, color)
    ensures RecLoopInv(lists, v0, c0, va, ca, o, color, k + 1)
  {
    var w := lists[o][k].dest;
    assert HasEdge(lists, o, w);
    assert Marked(vb) <= Marked(va);
    assert Newly(v0, vb) <= Newly(v0, va);
    assert Newly(vb, va) <= Newly(v0, va);
    forall x | x in Newly(v0, va)
      ensures ReachableWithin(lists, Newly(v0, va), o, x)
      ensures x != o ==> SuccessorsIn(lists, x, Marked(va))
    {
      if x in Newly(vb, va) {
        ReachableWithinGrow(lists, Newly(vb, va), Newly(v0, va), w, x);
        ReachableWithinPrepend(lists, Newly(v0, va), o, w, x);
      } else {
        assert x in Newly(v0, vb);
        ReachableWithinGrow(lists, Newly(v0, vb), Newly(v0, va), o, x);
      }
    }
  }

  /** Passing over a successor of o that is already visited. */
  lemma RecSkip(lists: AdjLists, v0: seq<bool>, c0: seq<int>, vs: seq<bool>, cs: seq<int>, o: int, color: int, k: int)
    requires RecLoopInv(lists, v0, c0, vs, cs, o, color, k) && k < |lists[o]|
    requires 0 <= lists[o][k].dest < |vs| && vs[lists[o][k].dest]
    ensures RecLoopInv(lists, v0, c0, vs, cs, o, color, k + 1)
  {
  }

  /** When o's list is exhausted, the call has the effect RecEffect, and it has
      marked everything o reaches through vertices unmarked on entry. */
  lemma RecDone(lists: AdjLists, v0: seq<bool>, c0: seq<int>, vs: seq<bool>, cs: seq<int>, o: int, color: int, k: int)
    requires RecLoopInv(lists, v0, c0, vs, cs, o, color, k) && k == |lists[o]|
    ensures RecEffect(lists, v0, c0, vs, cs, o, color)
    ensures forall x :: ReachableWithin(lists, Unmarked(v0), o, x) ==> x in Newly(v0, vs)
  {
    var newly := Newly(v0, vs);
    assert Marked(vs) <= newly + Marked(v0);
    forall x | x in newly
      ensures 0 <= x < |lists| && SuccessorsIn(lists, x, newly + Marked(v0))
    {
    }
    forall x | ReachableWithin(lists, Unmarked(v0), o, x)
      ensures x in newly
    {
      ConfinedReach(lists, Unmarked(v0), newly, Marked(v0), o, x);
    }
  }

  /** The state of dfsComp before index i, over snapshots vs and cs of its
      visited and label arrays; roots[k] is the vertex from which label k was
      handed out, so |roots| is the next label. */
  ghost predicate CompInv(lists: AdjLists, vs: seq<bool>, cs: seq<int>, roots: seq<int>, i: int) {
    && |vs| == |cs| == |lists| && 0 <= |roots| <= i <= |lists|
    && (forall x :: 0 <= x < i ==> vs[x])
    && (forall k :: 0 <= k < |roots| ==> k <= roots[k] < i && vs[roots[k]] && cs[roots[k]] == k)
    && (forall a, b :: 0 <= a < b < |roots| ==> roots[a] < roots[b])
    && (forall x :: 0 <= x < |vs| && vs[x] ==> 0 <= cs[x] < |roots|)
    && (forall x {:trigger roots[cs[x]]} :: 0 <= x < |vs| && vs[x] ==> roots[cs[x]] <= x)
    && (forall k, y :: 0 <= k < |roots| && 0 <= y < roots[k] ==> vs[y] && cs[y] < k)
    && (forall x :: 0 <= x < |vs| && vs[x] ==> SuccessorsIn(lists, x, Marked(vs)))
    && (forall x, e {:trigger cs[lists[x][e].dest], cs[x]} ::
          0 <= x < |vs| && vs[x] && 0 <= e < |lists[x]| && 0 <= lists[x][e].dest < |cs| ==>
          cs[lists[x][e].dest] <= cs[x])
    && (forall x {:trigger ReachableWithin(lists, LabelledVisited(vs, cs, cs[x]), roots[cs[x]], x)} ::
          0 <= x < |vs| && vs[x] ==> ReachableWithin(lists, LabelledVisited(vs, cs, cs[x]), roots[cs[x]], x))
  }

  /** dfsComp's initial state: nothing visited, no label handed out. */
  lemma CompStart(lists: AdjLists, vs: seq<bool>, cs: seq<int>)
    requires |vs| == |cs| == |lists| && forall x :: 0 <= x < |vs| ==> !vs[x]
    ensures CompInv(lists, vs, cs, [], 0)
  {
  }

  /** Passing over a vertex that an earlier search already visited. */
  lemma CompSkip(lists: AdjLists, vs: seq<bool>, cs: seq<int>, roots: seq<int>, i: int)
    requires CompInv(lists, vs, cs, roots, i) && i < |lists| && vs[i]
    ensures CompInv(lists, vs, cs, roots, i + 1)
  {
  }

  /** After a search from i, every visited vertex is still reached from the
      root of its label through vertices carrying that label. */
  lemma StepReach(lists: AdjLists, vb: seq<bool>, cb: seq<int>, va: seq<bool>, ca: seq<int>, roots: seq<int>, i: int)
    requires CompInv(lists, vb, cb, roots, i) && i < |lists| && !vb[i]
    requires RecEffect(lists, vb, cb, va, ca, i, |roots|)
    ensures forall x {:trigger ReachableWithin(lists, LabelledVisited(va, ca, ca[x]), (roots + [i])[ca[x]], x)} ::
              0 <= x < |va| && va[x] ==> ReachableWithin(lists, LabelledVisited(va, ca, ca[x]), (roots + [i])[ca[x]], x)
  {
    var roots' := roots + [i];
    forall x | 0 <= x < |va| && va[x]
      ensures ReachableWithin(lists, LabelledVisited(va, ca, ca[x]), roots'[ca[x]], x)
    {
      if vb[x] {
        assert 0 <= cb[x] < |roots| && roots'[ca[x]] == roots[cb[x]];
        assert LabelledVisited(vb, cb, cb[x]) <= LabelledVisited(va, ca, ca[x]);
        ReachableWithinGrow(lists, LabelledVisited(vb, cb, cb[x]), LabelledVisited(va, ca, ca[x]), roots[cb[x]], x);
      } else {
        assert x in Newly(vb, va);
        assert Newly(vb, va) <= LabelledVisited(va, ca, |roots|);
        ReachableWithinGrow(lists, Newly(vb, va), LabelledVisited(va, ca, ca[x]), i, x);
      }
    }
  }

  /** After a search from i, an edge still never leads to a larger label. */
  lemma StepEdges(lists: AdjLists, vb: seq<bool>, cb: seq<int>, va: seq<bool>, ca: seq<int>, roots: seq<int>, i: int)
    requires CompInv(lists, vb, cb, roots, i) && i < |lists| && !vb[i]
    requires RecEffect(lists, vb, cb, va, ca, i, |roots|)
    ensures forall x, e {:trigger ca[lists[x][e].dest], ca[x]} ::
              0 <= x < |va| && va[x] && 0 <= e < |lists[x]| && 0 <= lists[x][e].dest < |ca| ==>
              ca[lists[x][e].dest] <= ca[x]
  {
    forall x, e | 0 <= x < |va| && va[x] && 0 <= e < |lists[x]| && 0 <= lists[x][e].dest < |ca|
      ensures ca[lists[x][e].dest] <= ca[x]
    {
      var y := lists[x][e].dest;
      if vb[x] {
        assert SuccessorsIn(lists, x, Marked(vb));
        assert y in Marked(vb);
        assert cb[y] <= cb[x];
      } else {
        assert x in Newly(vb, va);
        assert SuccessorsIn(lists, x, Marked(va));
        assert y in Marked(va);
        if vb[y] {
          assert 0 <= cb[y] < |roots|;
        }
      }
    }
  }

  /** After a search from i, the visited vertices with their successors, and
      the roots with the labels below them, are as CompInv demands. */
  lemma StepRoots(lists: AdjLists, vb: seq<bool>, cb: seq<int>, va: seq<bool>, ca: seq<int>, roots: seq<int>, i: int)
    requires CompInv(lists, vb, cb, roots, i) && i < |lists| && !vb[i]
    requires RecEffect(lists, vb, cb, va, ca, i, |roots|)
    ensures forall x :: 0 <= x < i + 1 ==> va[x]
    ensures forall k :: 0 <= k < |roots| + 1 ==> k <= (roots + [i])[k] < i + 1 && va[(roots + [i])[k]] && ca[(roots + [i])[k]] == k
    ensures forall a, b :: 0 <= a < b < |roots| + 1 ==> (roots + [i])[a] < (roots + [i])[b]
    ensures forall x :: 0 <= x < |va| && va[x] ==> 0 <= ca[x] < |roots| + 1
    ensures forall x {:trigger (roots + [i])[ca[x]]} :: 0 <= x < |va| && va[x] ==> (roots + [i])[ca[x]] <= x
    ensures forall k, y :: 0 <= k < |roots| + 1 && 0 <= y < (roots + [i])[k] ==> va[y] && ca[y] < k
    ensures forall x :: 0 <= x < |va| && va[x] ==> SuccessorsIn(lists, x, Marked(va))
  {
    var roots' := roots + [i];
    assert Marked(vb) <= Marked(va);
    forall x | 0 <= x < |va| && va[x]
      ensures 0 <= ca[x] < |roots'| && roots'[ca[x]] <= x
    {
      if vb[x] {
        assert roots[cb[x]] <= x;
      } else {
        assert x in Newly(vb, va);
      }
    }
    forall x | 0 <= x < |va| && va[x]
      ensures SuccessorsIn(lists, x, Marked(va))
    {
      if !vb[x] {
        assert x in Newly(vb, va);
      }
    }
  }

  /** A search from the unvisited vertex i labels everything it marks with a
      fresh label and makes i that label's root. */
  lemma CompStep(lists: AdjLists, vb: seq<bool>, cb: seq<int>, va: seq<bool>, ca: seq<int>, roots: seq<int>, i: int)
    requires CompInv(lists, vb, cb, roots, i) && i < |lists| && !vb[i]
    requires RecEffect(lists, vb, cb, va, ca, i, |roots|)
    ensures CompInv(lists, va, ca, roots + [i], i + 1)
  {
    StepRoots(lists, vb, cb, va, ca, roots, i);
    StepEdges(lists, vb, cb, va, ca, roots, i);
    StepReach(lists, vb, cb, va, ca, roots, i);
  }

  /** After the last index, the labels form the component labelling. */
  lemma CompDone(lists: AdjLists, vs: seq<bool>, cs: seq<int>, roots: seq<int>, i: int)
    requires CompInv(lists, vs, cs, roots, i) && i == |lists|
    ensures IsComponentLabelling(lists, cs)
  {
    forall x | 0 <= x < |cs|
      ensures 0 <= cs[x] <= x
      ensures PredecessorLabelBelow(cs, x)
      ensures ReachedFromRoot(lists, cs, x)
    {
      var k := cs[x];
      assert roots[k] <= x;
      if k > 0 {
        assert cs[roots[k - 1]] == k - 1;
      }
      assert LabelledVisited(vs, cs, k) <= LabelClass(cs, k);
      ReachableWithinGrow(lists, LabelledVisited(vs, cs, k), LabelClass(cs, k), roots[k], x);
      assert IsLabelRoot(cs, roots[k], k);
    }
  }
}
