/** The graph store of adjList.c: a fixed number of vertices, each owning the
    list of its outgoing edges in insertion order, with edge insertion,
    edge-weight lookup and the two degree queries. */
module GraphStore {
  import opened Digraph

  /** A graph with `nv` vertices. The C code keeps the vertex count in the
      global NV; here it is a field of the graph. `adj` is the array of list
      heads, one adjacency list per vertex. */
  class Graph {
    const nv: nat
    const adj: array<seq<Edge>>

    /** One list per vertex, and every edge leads to a vertex. */
    ghost predicate Valid()
      reads adj
    {
      adj.Length == nv && WellFormed(adj[..])
    }

    /** The adjacency lists as a value. */
    ghost function Lists(): (lists: AdjLists)
      reads adj
      ensures |lists| == adj.Length
    {
      adj[..]
    }

    /** initGraph: nv vertices, each with an empty adjacency list. */
    constructor (n: nat)
      ensures Valid() && nv == n && fresh(adj)
      ensures forall x :: 0 <= x < n ==> Lists()[x] == []
    {
      nv := n;
      adj := new seq<Edge>[n](_ => []);
    }

    /** addEdge: the new edge goes at the tail of s's list; every other list,
        and the earlier entries of s's list, stay as they were. */
    method AddEdge(s: int, d: int, cost: int)
      requires Valid() && 0 <= s < nv && 0 <= d < nv
      modifies adj
      ensures Valid()
      ensures Lists() == Appended(old(Lists()), s, Edge(d, cost))
    {
      adj[s] := adj[s] + [Edge(d, cost)];
    }
  }

  /** The adjacency lists after edge e is appended to s's list: s's list gains
      exactly one entry, at the tail, and keeps its earlier entries in order;
      every other list is as it was, so the out-degree of s grows by one and
      no other out-degree changes. */
  function Appended(lists: AdjLists, s: int, e: Edge): (after: AdjLists)
    requires 0 <= s < |lists|
    ensures |after| == |lists|
    ensures |after[s]| == |lists[s]| + 1
    ensures after[s][..|lists[s]|] == lists[s] && after[s][|lists[s]|] == e
    ensures forall x :: 0 <= x < |lists| && x != s ==> after[x] == lists[x]
  {
    lists[s := lists[s] + [e]]
  }

  /** One call addEdge(g, src, dest, cost). */
  datatype Insertion = Insertion(src: int, dest: int, cost: int)

  /** Every insertion names a source vertex below n. */
  predicate SourcesBelow(n: nat, calls: seq<Insertion>) {
    forall i :: 0 <= i < |calls| ==> 0 <= calls[i].src < n
  }

  /** The adjacency lists of initGraph(n) followed by the given addEdge calls. */
  function Built(n: nat, calls: seq<Insertion>): (lists: AdjLists)
    requires SourcesBelow(n, calls)
    ensures |lists| == n
  {
    if calls == [] then seq(n, _ => [])
    else
      var last := calls[|calls| - 1];
      Appended(Built(n, calls[..|calls| - 1]), last.src, Edge(last.dest, last.cost))
  }

  /** The edges of the calls whose source is v, in call order. */
  function EdgesFrom(calls: seq<Insertion>, v: int): seq<Edge> {
    if calls == [] then []
    else
      var last := calls[|calls| - 1];
      EdgesFrom(calls[..|calls| - 1], v) + (if last.src == v then [Edge(last.dest, last.cost)] else [])
  }

  /** The number of calls whose destination is o. */
  function CallsInto(calls: seq<Insertion>, o: int): nat {
    if calls == [] then 0
    else CallsInto(calls[..|calls| - 1], o) + (if calls[|calls| - 1].dest == o then 1 else 0)
  }

  /** After any sequence of addEdge calls, v's list is exactly the edges of the
      calls with source v, in the order the calls were made; in particular its
      length (the out-degree) is the number of those calls. */
  lemma {:induction false} BuiltListIsCallOrder(n: nat, calls: seq<Insertion>, v: int)
    requires SourcesBelow(n, calls) && 0 <= v < n
    ensures |Built(n, calls)| == n && Built(n, calls)[v] == EdgesFrom(calls, v)
  {
    if calls != [] {
      BuiltListIsCallOrder(n, calls[..|calls| - 1], v);
    }
  }

  /** Index of the first edge of `edges` that leads to d; |edges| when none does. */
  function FirstMatch(edges: seq<Edge>, d: int): (k: nat)
    ensures k <= |edges|
    ensures forall j :: 0 <= j < k ==> edges[j].dest != d
    ensures k < |edges| ==> edges[k].dest == d
  {
    if edges == [] then 0
    else if edges[0].dest == d then 0
    else 1 + FirstMatch(edges[1..], d)
  }

  /** Appending an edge never changes the answer of a lookup that already
      succeeded: the first-inserted edge to d keeps winning. When no edge to d
      existed, a lookup after appending an edge to d finds that edge's cost. */
  lemma {:induction false} FirstInsertedWins(lists: AdjLists, s: int, d: int, e: Edge)
    requires 0 <= s < |lists|
    ensures var before := lists[s];
            var after := Appended(lists, s, e)[s];
            var k := FirstMatch(before, d);
            var k' := FirstMatch(after, d);
            && (k < |before| ==> k' == k && after[k'].cost == before[k].cost)
            && (k == |before| ==> (k' < |after| <==> e.dest == d))
            && (k == |before| && e.dest == d ==> after[k'].cost == e.cost)
  {
    var before := lists[s];
    var after := Appended(lists, s, e)[s];
    assert after == before + [e];
    var k := FirstMatch(before, d);
    var k' := FirstMatch(after, d);
    if k < |before| {
      assert after[k] == before[k];
    } else {
      assert forall j :: 0 <= j < |before| ==> after[j] == before[j];
      assert after[|before|] == e;
    }
  }

  /** The number of edges of `edges` that lead to o. */
  function CountDest(edges: seq<Edge>, o: int): nat {
    if edges == [] then 0
    else CountDest(edges[..|edges| - 1], o) + (if edges[|edges| - 1].dest == o then 1 else 0)
  }

  /** The number of edges, over all lists, that lead to o: the in-degree of o. */
  function InCount(lists: AdjLists, o: int): nat {
    if lists == [] then 0
    else InCount(lists[..|lists| - 1], o) + CountDest(lists[|lists| - 1], o)
  }

  /** Appending an edge raises the in-degree of its destination by one and
      leaves every other in-degree alone. */
  lemma {:induction false} InCountAppended(lists: AdjLists, s: int, e: Edge, o: int)
    requires 0 <= s < |lists|
    ensures InCount(Appended(lists, s, e), o) == InCount(lists, o) + (if e.dest == o then 1 else 0)
  {
    var n := |lists|;
    var after := Appended(lists, s, e);
    if s == n - 1 {
      assert after[..n - 1] == lists[..n - 1];
      assert (lists[s] + [e])[..|lists[s]|] == lists[s];
    } else {
      assert after[..n - 1] == Appended(lists[..n - 1], s, e);
      InCountAppended(lists[..n - 1], s, e, o);
    }
  }

  lemma {:induction false} InCountEmpty(n: nat, o: int)
    ensures InCount(seq(n, _ => []), o) == 0
  {
    if n > 0 {
      var empty: AdjLists := seq(n, _ => []);
      var shorter: AdjLists := seq(n - 1, _ => []);
      assert empty[..n - 1] == shorter;
      InCountEmpty(n - 1, o);
    }
  }

  /** After any sequence of addEdge calls, the in-degree of o is the number of
      calls whose destination is o. */
  lemma {:induction false} InCountIsCallsInto(n: nat, calls: seq<Insertion>, o: int)
    requires SourcesBelow(n, calls)
    ensures InCount(Built(n, calls), o) == CallsInto(calls, o)
  {
    if calls == [] {
      InCountEmpty(n, o);
    } else {
      var last := calls[|calls| - 1];
      InCountIsCallsInto(n, calls[..|calls| - 1], o);
      InCountAppended(Built(n, calls[..|calls| - 1]), last.src, Edge(last.dest, last.cost), o);
    }
  }

  /** edgeWeight: scans o's list in insertion order and stops at the first edge
      to d. `c` is the value *c holds on entry; `cost` is *c on exit, left as it
      was when there is no such edge. */
  method EdgeWeight(g: Graph, o: int, d: int, c: int) returns (found: bool, cost: int)
    requires g.Valid() && 0 <= o < g.nv
    ensures var edges := g.Lists()[o];
            var k := FirstMatch(edges, d);
            && (found <==> exists j :: 0 <= j < |edges| && edges[j].dest == d)
            && (found ==> k < |edges| && cost == edges[k].cost)
            && (!found ==> cost == c)
  {
    var edges := g.adj[o];
    found, cost := false, c;
    var k := 0;
    while k < |edges| && !found
      invariant 0 <= k <= |edges|
      invariant !found ==> cost == c && forall j :: 0 <= j < k ==> edges[j].dest != d
      invariant found ==> 0 < k && FirstMatch(edges, d) == k - 1 && cost == edges[k - 1].cost
    {
      if edges[k].dest == d {
        found, cost := true, edges[k].cost;
      }
      k := k + 1;
    }
  }

  /** outDegree: the length of o's list. */
  method OutDegree(g: Graph, o: int) returns (c: nat)
    requires g.Valid() && 0 <= o < g.nv
    ensures c == |g.Lists()[o]|
  {
    var rest := g.adj[o];
    c := 0;
    while rest != []
      invariant c + |rest| == |g.Lists()[o]|
    {
      c, rest := c + 1, rest[1..];
    }
  }

  /** inDegree as documented: the number of edges, over all lists, whose
      destination is o. The code as written compares each edge's link field
      instead (see InCountAsWritten). */
  method InDegree(g: Graph, o: int) returns (c: nat)
    requires g.Valid()
    ensures c == InCount(g.Lists(), o)
  {
    ghost var lists := g.Lists();
    c := 0;
    var i := 0;
    while i < g.nv
      invariant 0 <= i <= g.nv
      invariant c == InCount(lists[..i], o)
    {
      var edges := g.adj[i];
      var k := 0;
      while k < |edges|
        invariant 0 <= k <= |edges|
        invariant c == InCount(lists[..i], o) + CountDest(edges[..k], o)
      {
        assert edges[..k + 1][..k] == edges[..k];
        if edges[k].dest == o {
          c := c + 1;
        }
        k := k + 1;
      }
      assert edges[..k] == edges == lists[i];
      assert lists[..i + 1][..i] == lists[..i];
      i := i + 1;
    }
    assert lists[..i] == lists;
  }

  /** The comparison `tmp->adj == o` of inDegree as written: the link of the
      k-th node is NULL exactly when that node is the last one, NULL compares
      equal to the integer 0, and a link to a node (a heap address) is taken
      never to equal a vertex index. */
  predicate LinkEquals(edges: seq<Edge>, k: nat, o: int)
    requires k < |edges|
  {
    k == |edges| - 1 && o == 0
  }

  /** The count the inner loop of inDegree as written adds for one list: every
      node is visited (the `found` flag is never set) and counted when its link
      compares equal to o. Only the last link is NULL, so a list adds at most
      one, and it adds one exactly when o is 0 and a node remains. */
  function LinksEqualFrom(edges: seq<Edge>, o: int, k: nat): (r: nat)
    requires k <= |edges|
    ensures r <= 1
    ensures r == 1 <==> o == 0 && k < |edges|
    decreases |edges| - k
  {
    if k == |edges| then 0
    else (if LinkEquals(edges, k, o) then 1 else 0) + LinksEqualFrom(edges, o, k + 1)
  }

  /** inDegree as written, summed over the lists of vertices [0, |lists|):
      each list adds at most one, so the result never exceeds the number of
      vertices, whatever the number of edges. */
  function InCountAsWritten(lists: AdjLists, o: int): (r: nat)
    ensures r <= |lists|
  {
    if lists == [] then 0
    else InCountAsWritten(lists[..|lists| - 1], o) + LinksEqualFrom(lists[|lists| - 1], o, 0)
  }

  /** inDegree as written reports 0 for every vertex other than 0, whatever
      edges lead to it. */
  lemma {:induction false} AsWrittenIgnoresEdges(lists: AdjLists, o: int)
    requires o != 0
    ensures InCountAsWritten(lists, o) == 0
  {
    if lists != [] {
      AsWrittenIgnoresEdges(lists[..|lists| - 1], o);
    }
  }

  /** On the graph with the single edge 0 -> 1, the documented in-degrees are
      0 for vertex 0 and 1 for vertex 1, while inDegree as written gives 1 and 0. */
  lemma InDegreeAsWrittenDiffers()
    ensures var lists := [[Edge(1, 5)], []];
            && InCount(lists, 1) == 1 && InCountAsWritten(lists, 1) == 0
            && InCount(lists, 0) == 0 && InCountAsWritten(lists, 0) == 1
  {
    var lists: AdjLists := [[Edge(1, 5)], []];
    assert lists[..1] == [[Edge(1, 5)]];
    assert lists[..1][..0] == [];
    assert [Edge(1, 5)][..0] == [];
    AsWrittenIgnoresEdges(lists, 1);
  }
}
