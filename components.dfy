/** What dfsComp computes: a label ("color") for every vertex, obtained by
    running a depth-first search from each not yet visited vertex in index
    order. Only outgoing edges are followed, so this is a forward-reachability
    partition of a directed graph, not undirected connectivity. */
module Components {
  import opened Digraph

  /** The vertices carrying label k. */
  function LabelClass(labels: seq<int>, k: int): set<int> {
    set y | 0 <= y < |labels| && labels[y] == k
  }

  /** r is the lowest-numbered vertex with label k: the root whose search
      handed out k. */
  ghost predicate IsLabelRoot(labels: seq<int>, r: int, k: int) {
    0 <= r < |labels| && labels[r] == k && forall y :: 0 <= y < r ==> labels[y] != k
  }

  /** If x's label is positive, the label before it occurs on a lower vertex. */
  ghost predicate PredecessorLabelBelow(labels: seq<int>, x: int)
    requires 0 <= x < |labels|
  {
    labels[x] > 0 ==> exists y :: 0 <= y < x && labels[y] == labels[x] - 1
  }

  /** Every positive label has its predecessor label on a lower vertex: labels
      start at 0, are dense, and are handed out in order of first appearance. */
  ghost predicate InDiscoveryOrder(labels: seq<int>) {
    forall x :: 0 <= x < |labels| ==> PredecessorLabelBelow(labels, x)
  }

  /** x is reached from the root of its label through vertices carrying that label. */
  ghost predicate ReachedFromRoot(lists: AdjLists, labels: seq<int>, x: int)
    requires 0 <= x < |labels|
  {
    exists r :: IsLabelRoot(labels, r, labels[x]) && ReachableWithin(lists, LabelClass(labels, labels[x]), r, x)
  }

  /** The labelling produced by dfsComp:
      - one label per vertex, with 0 <= label of x <= x;
      - labels in discovery order (InDiscoveryOrder);
      - an edge never leads to a vertex with a larger label (its target was
        labelled by the same search or by an earlier one);
      - every vertex is reached from the root of its label through vertices
        carrying that label. */
  ghost predicate IsComponentLabelling(lists: AdjLists, labels: seq<int>) {
    && |labels| == |lists|
    && (forall x :: 0 <= x < |labels| ==> 0 <= labels[x] <= x)
    && InDiscoveryOrder(labels)
    && (forall x, k :: 0 <= x < |lists| && 0 <= k < |lists[x]| && 0 <= lists[x][k].dest < |labels| ==>
          labels[lists[x][k].dest] <= labels[x])
    && (forall x :: 0 <= x < |labels| ==> ReachedFromRoot(lists, labels, x))
  }

  /** Along a walk, labels never increase. */
  lemma {:induction false} LabelsFallAlongPath(lists: AdjLists, labels: seq<int>, p: seq<int>, m: int)
    requires IsComponentLabelling(lists, labels) && IsPath(lists, p) && 0 <= m < |p|
    ensures labels[p[m]] <= labels[p[0]]
  {
    if m > 0 {
      LabelsFallAlongPath(lists, labels, p, m - 1);
      assert HasEdge(lists, p[m - 1], p[m]);
      var k :| 0 <= k < |lists[p[m - 1]]| && lists[p[m - 1]][k].dest == p[m];
    }
  }

  lemma LabelsFallWithin(lists: AdjLists, labels: seq<int>, s: set<int>, o: int, d: int)
    requires IsComponentLabelling(lists, labels) && ReachableWithin(lists, s, o, d)
    ensures 0 <= o < |labels| && 0 <= d < |labels| && labels[d] <= labels[o]
  {
    var p :| PathWithin(lists, p, s) && p[0] == o && p[|p| - 1] == d;
    LabelsFallAlongPath(lists, labels, p, |p| - 1);
  }

  /** If o reaches d then d's label is at most o's. (The converse "same label"
      claim does not hold: see Scenario.OneWayEdgeSplitsLabels.) */
  lemma ReachableLabelOrder(lists: AdjLists, labels: seq<int>, o: int, d: int)
    requires IsComponentLabelling(lists, labels) && Reachable(lists, o, d)
    ensures labels[d] <= labels[o]
  {
    LabelsFallWithin(lists, labels, Vertices(|lists|), o, d);
  }

  /** Every label j up to x's label occurs on some vertex z <= x. */
  lemma {:induction false} LowerLabelsOccur(labels: seq<int>, x: int, j: int)
    requires InDiscoveryOrder(labels) && 0 <= x < |labels| && 0 <= j <= labels[x]
    ensures exists z :: 0 <= z <= x && labels[z] == j
    decreases labels[x] - j
  {
    if j < labels[x] {
      assert PredecessorLabelBelow(labels, x);
      var y :| 0 <= y < x && labels[y] == labels[x] - 1;
      LowerLabelsOccur(labels, y, j);
    }
  }

  /** Every vertex below a root has a smaller label than the root. */
  lemma BelowRootSmaller(labels: seq<int>, x: int, y: int)
    requires InDiscoveryOrder(labels) && 0 <= x < |labels| && 0 <= labels[x]
    requires IsLabelRoot(labels, x, labels[x]) && 0 <= y < x
    ensures labels[y] < labels[x]
  {
    if labels[y] > labels[x] {
      LowerLabelsOccur(labels, y, labels[x]);
    }
  }

  /** The root r of x's label in labelling a lies at or below x, and in any
      other labelling b, x's label is at most r's. */
  lemma RootAbove(lists: AdjLists, a: seq<int>, b: seq<int>, x: int) returns (r: int)
    requires IsComponentLabelling(lists, a) && IsComponentLabelling(lists, b) && 0 <= x < |a|
    ensures IsLabelRoot(a, r, a[x]) && r <= x && b[x] <= b[r]
  {
    assert ReachedFromRoot(lists, a, x);
    r :| IsLabelRoot(a, r, a[x]) && ReachableWithin(lists, LabelClass(a, a[x]), r, x);
    LabelsFallWithin(lists, b, LabelClass(a, a[x]), r, x);
  }

  /** The case analysis behind AgreeStep, on the facts it needs. */
  lemma AgreeFromRoots(a: seq<int>, b: seq<int>, x: int, ra: int, rb: int)
    requires InDiscoveryOrder(a) && InDiscoveryOrder(b) && |a| == |b| && 0 <= x < |a|
    requires 0 <= a[x] && 0 <= b[x]
    requires forall y :: 0 <= y < x ==> a[y] == b[y]
    requires IsLabelRoot(a, ra, a[x]) && ra <= x && b[x] <= b[ra]
    requires IsLabelRoot(b, rb, b[x]) && rb <= x && a[x] <= a[rb]
    ensures a[x] == b[x]
  {
    if ra == x && rb == x {
      if a[x] < b[x] {
        LowerLabelsOccur(b, x, a[x]);
      } else if b[x] < a[x] {
        LowerLabelsOccur(a, x, b[x]);
      }
    } else if ra == x {
      BelowRootSmaller(a, x, rb);
    } else if rb == x {
      BelowRootSmaller(b, x, ra);
    }
  }

  /** Two labellings that agree below x agree on x. */
  lemma AgreeStep(lists: AdjLists, a: seq<int>, b: seq<int>, x: int)
    requires IsComponentLabelling(lists, a) && IsComponentLabelling(lists, b)
    requires 0 <= x < |a| && forall y :: 0 <= y < x ==> a[y] == b[y]
    ensures a[x] == b[x]
  {
    var ra := RootAbove(lists, a, b, x);
    var rb := RootAbove(lists, b, a, x);
    AgreeFromRoots(a, b, x, ra, rb);
  }

  lemma {:induction false} AgreeBelow(lists: AdjLists, a: seq<int>, b: seq<int>, m: int)
    requires IsComponentLabelling(lists, a) && IsComponentLabelling(lists, b) && 0 <= m <= |a|
    ensures forall y :: 0 <= y < m ==> a[y] == b[y]
  {
    if m > 0 {
      AgreeBelow(lists, a, b, m - 1);
      AgreeStep(lists, a, b, m - 1);
    }
  }

  /** The properties of IsComponentLabelling pin the labelling down: a graph has
      exactly one such labelling. */
  lemma ComponentLabellingUnique(lists: AdjLists, a: seq<int>, b: seq<int>)
    requires IsComponentLabelling(lists, a) && IsComponentLabelling(lists, b)
    ensures a == b
  {
    AgreeBelow(lists, a, b, |a|);
  }
}
