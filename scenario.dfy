/** Concrete graphs worked through in the model: the three-vertex graph with edges
    0 -> 1 (cost 3) and 0 -> 2 (cost 1), and the two-vertex graph with the
    single edge 1 -> 0. */
module Scenario {
  import opened Digraph
  import opened GraphStore
  import opened Components

  /** The lists after addEdge(0, 1, 3) and addEdge(0, 2, 1) on three vertices. */
  function Fan(): (lists: AdjLists)
    ensures |lists| == 3 && WellFormed(lists)
  {
    [[Edge(1, 3), Edge(2, 1)], [], []]
  }

  /** The two insertions build Fan, in insertion order. */
  lemma FanIsBuilt()
    ensures Built(3, [Insertion(0, 1, 3), Insertion(0, 2, 1)]) == Fan()
  {
    var calls := [Insertion(0, 1, 3), Insertion(0, 2, 1)];
    var empty: AdjLists := seq(3, _ => []);
    assert empty == [[], [], []];
    assert calls[..1] == [Insertion(0, 1, 3)];
    assert calls[..1][..0] == [];
    assert Built(3, calls[..1][..0]) == empty;
    var one := Built(3, calls[..1]);
    assert one == Appended(empty, 0, Edge(1, 3));
    assert empty[0] + [Edge(1, 3)] == [Edge(1, 3)];
    assert one == [[Edge(1, 3)], [], []];
    assert Built(3, calls) == Appended(one, 0, Edge(2, 1));
    assert one[0] + [Edge(2, 1)] == [Edge(1, 3), Edge(2, 1)];
  }

  /** Looking up 0 -> 2 finds the second entry of vertex 0's list, with cost 1;
      vertex 0 has two outgoing edges and vertex 2 one incoming edge. */
  lemma FanCostsAndDegrees()
    ensures FirstMatch(Fan()[0], 2) == 1 && Fan()[0][1].cost == 1
    ensures FirstMatch(Fan()[1], 2) == 0 && |Fan()[1]| == 0
    ensures |Fan()[0]| == 2 && InCount(Fan(), 2) == 1 && InCount(Fan(), 0) == 0
  {
    var calls := [Insertion(0, 1, 3), Insertion(0, 2, 1)];
    FanIsBuilt();
    InCountIsCallsInto(3, calls, 2);
    InCountIsCallsInto(3, calls, 0);
    assert calls[..1] == [Insertion(0, 1, 3)];
    assert calls[..1][..0] == [];
  }

  /** 0 reaches 2 along its edge; 1 has no outgoing edge and reaches only itself. */
  lemma FanReachability()
    ensures Reachable(Fan(), 0, 2) && !Reachable(Fan(), 1, 2)
  {
    var lists := Fan();
    assert HasEdge(lists, 0, 2) by {
      assert lists[0][1].dest == 2;
    }
    assert PathWithin(lists, [0, 2], Vertices(3));
    ClosedSetBlocks(lists, {1}, 1, 2);
  }

  /** dfsComp on Fan labels all three vertices 0: the search from 0 marks 1
      and 2 before the scan reaches them. */
  lemma FanLabels(labels: seq<int>)
    requires IsComponentLabelling(Fan(), labels)
    ensures labels == [0, 0, 0]
  {
    var lists := Fan();
    var expected := [0, 0, 0];
    assert LabelClass(expected, 0) == {0, 1, 2};
    forall x | 0 <= x < 3
      ensures ReachedFromRoot(lists, expected, x)
    {
      assert lists[0][0].dest == 1 && lists[0][1].dest == 2;
      assert PathWithin(lists, [0, x], LabelClass(expected, 0)) || x == 0;
      if x == 0 {
        ReachableWithinStart(lists, LabelClass(expected, 0), 0);
      }
      assert IsLabelRoot(expected, 0, 0);
    }
    assert InDiscoveryOrder(expected) by {
      forall x | 0 <= x < 3
        ensures PredecessorLabelBelow(expected, x)
      {
      }
    }
    ComponentLabellingUnique(lists, labels, expected);
  }

  /** With the single edge 1 -> 0, vertex 1 reaches vertex 0, yet dfsComp gives
      them different labels: the scan starts at 0, which reaches nothing else,
      and 1 then starts a search of its own. Reachability between two vertices
      therefore does not imply equal labels. */
  lemma OneWayEdgeSplitsLabels(labels: seq<int>)
    requires IsComponentLabelling([[], [Edge(0, 7)]], labels)
    ensures labels == [0, 1]
    ensures Reachable([[], [Edge(0, 7)]], 1, 0)
  {
    var lists: AdjLists := [[], [Edge(0, 7)]];
    var expected := [0, 1];
    assert HasEdge(lists, 1, 0) by {
      assert lists[1][0].dest == 0;
    }
    assert PathWithin(lists, [1, 0], Vertices(2));
    assert LabelClass(expected, 0) == {0};
    assert LabelClass(expected, 1) == {1};
    ReachableWithinStart(lists, LabelClass(expected, 0), 0);
    ReachableWithinStart(lists, LabelClass(expected, 1), 1);
    assert IsLabelRoot(expected, 0, 0) && IsLabelRoot(expected, 1, 1);
    assert ReachedFromRoot(lists, expected, 0) && ReachedFromRoot(lists, expected, 1);
    assert PredecessorLabelBelow(expected, 1);
    assert InDiscoveryOrder(expected) by {
      forall x | 0 <= x < 2
        ensures PredecessorLabelBelow(expected, x)
      {
      }
    }
    ComponentLabellingUnique(lists, labels, expected);
  }
}
