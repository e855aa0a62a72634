/** The search that refuses a set of units whose dependencies form a cycle. */
module UnitGraph {
  import opened Common

  type Graph = map<string, seq<string>>

  function Edges(g: Graph, u: string): seq<string> {
    if u in g then g[u] else []
  }

  predicate Edge(g: Graph, u: string, v: string) {
    v in Edges(g, u)
  }

  /** Every dependency the graph lists is itself one of its units. */
  ghost predicate Closed(g: Graph) {
    forall u, v :: u in g && v in g[u] ==> v in g
  }

  ghost predicate IsWalk(g: Graph, walk: seq<string>) {
    forall i :: 0 <= i < |walk| - 1 ==> Edge(g, walk[i], walk[i + 1])
  }

  /** A walk of at least one step that comes back to where it began. */
  ghost predicate IsCycle(g: Graph, walk: seq<string>) {
    |walk| >= 2 && walk[0] == walk[|walk| - 1] && IsWalk(g, walk)
  }

  predicate Distinct(s: seq<string>) {
    forall i, j :: 0 <= i < j < |s| ==> s[i] != s[j]
  }

  /** Each unit comes after everything it depends on. */
  ghost predicate IsStartOrder(g: Graph, order: seq<string>) {
    && Distinct(order)
    && forall i, v :: 0 <= i < |order| && Edge(g, order[i], v) ==> v in order[..i]
  }

  /** An order of that kind leaves no room for a cycle. */
  lemma OrderedMeansAcyclic(g: Graph, order: seq<string>, walk: seq<string>)
    requires IsStartOrder(g, order) && (forall u :: u in g ==> u in order)
    ensures !IsCycle(g, walk)
  {
    if IsCycle(g, walk) {
      assert Edge(g, walk[0], walk[1]);
      var i := PositionOf(order, walk[0]);
      var j := WalkGoesBack(g, order, walk, i);
      assert false;
    }
  }

  lemma PositionOf(order: seq<string>, u: string) returns (i: nat)
    requires u in order
    ensures i < |order| && order[i] == u
  {
    i :| 0 <= i < |order| && order[i] == u;
  }

  /** Following dependencies leads strictly back in the order. */
  lemma {:induction false} WalkGoesBack(g: Graph, order: seq<string>, walk: seq<string>, i: nat) returns (j: nat)
    requires IsStartOrder(g, order) && IsWalk(g, walk) && |walk| >= 2
    requires i < |order| && order[i] == walk[0]
    ensures j < i && order[j] == walk[|walk| - 1]
    decreases |walk|
  {
    assert Edge(g, walk[0], walk[1]);
    var k := PositionOf(order[..i], walk[1]);
    if |walk| == 2 {
      j := k;
    } else {
      var rest := walk[1..];
      forall m | 0 <= m < |rest| - 1 ensures Edge(g, rest[m], rest[m + 1]) {
        assert Edge(g, walk[m + 1], walk[m + 1 + 1]);
      }
      j := WalkGoesBack(g, order, rest, k);
    }
  }

  /** A search under way: the units being visited form a walk, and those settled an order
      each can be started in. */
  ghost predicate Searching(g: Graph, visiting: seq<string>, settled: set<string>, order: seq<string>) {
    && Closed(g)
    && (forall u :: u in order <==> u in settled)
    && settled <= g.Keys
    && IsStartOrder(g, order)
    && Distinct(visiting) && IsWalk(g, visiting)
    && (forall u :: u in visiting ==> u in g && u !in settled)
  }

  class CycleSearch {
    const graph: Graph
    var visiting: seq<string>
    var settled: set<string>
    ghost var order: seq<string>  // the units of `settled`, as they settled

    constructor (graph: Graph)
      ensures this.graph == graph && visiting == [] && settled == {} && order == []
    {
      this.graph := graph;
      visiting, settled, order := [], {}, [];
    }

    ghost predicate Valid()
      reads this
    {
      Searching(graph, visiting, settled, order)
    }

    method Walk(unit: string) returns (cycle: Option<seq<string>>)
      requires Valid() && unit in graph
      requires visiting != [] ==> Edge(graph, visiting[|visiting| - 1], unit)
      modifies this
      ensures cycle.Some? ==> IsCycle(graph, cycle.value)
      ensures cycle.None? ==> Valid() && visiting == old(visiting) && old(settled) + {unit} <= settled
      decreases Unvisited(graph, visiting)
    {
      if unit in settled {
        return None;
      }
      if unit in visiting {
        var at :| 0 <= at < |visiting| && visiting[at] == unit;
        BackEdge(graph, visiting, at, unit);
        return Some(visiting[at..] + [unit]);
      }
      hide Searching, Unvisited, Edge;
      ghost var above := visiting;
      VisitNext(graph, visiting, settled, order, unit);
      visiting := visiting + [unit];
      var dependencies := Edges(graph, unit);
      for i := 0 to |dependencies|
        invariant Valid() && visiting == above + [unit] && old(settled) <= settled
        invariant forall k :: 0 <= k < i ==> dependencies[k] in settled
      {
        cycle := Walk(dependencies[i]);
        if cycle.Some? {
          return;
        }
      }
      SettleNext(graph, above, settled, order, unit);
      visiting := visiting[..|visiting| - 1];
      assert visiting == above;
      settled := settled + {unit};
      order := order + [unit];
      return None;
    }
  }

  ghost function Unvisited(g: Graph, visiting: seq<string>): set<string> {
    g.Keys - set u | u in visiting
  }

  lemma VisitNext(g: Graph, visiting: seq<string>, settled: set<string>, order: seq<string>, unit: string)
    requires Searching(g, visiting, settled, order) && unit in g && unit !in settled && unit !in visiting
    requires visiting != [] ==> Edge(g, visiting[|visiting| - 1], unit)
    ensures Searching(g, visiting + [unit], settled, order)
    ensures forall k :: 0 <= k < |Edges(g, unit)| ==> Edges(g, unit)[k] in g && Edge(g, unit, Edges(g, unit)[k])
    ensures Unvisited(g, visiting + [unit]) < Unvisited(g, visiting)
  {
    assert unit in visiting + [unit] && unit in Unvisited(g, visiting);
  }

  lemma BackEdge(g: Graph, visiting: seq<string>, at: nat, unit: string)
    requires at < |visiting| && visiting[at] == unit && IsWalk(g, visiting)
    requires Edge(g, visiting[|visiting| - 1], unit)
    ensures IsCycle(g, visiting[at..] + [unit])
  {
    var walk := visiting[at..] + [unit];
    forall i | 0 <= i < |walk| - 1 ensures Edge(g, walk[i], walk[i + 1]) {
      if i + 1 < |visiting[at..]| {
        assert Edge(g, visiting[at + i], visiting[at + i + 1]);
      }
    }
  }

  lemma SettleNext(g: Graph, above: seq<string>, settled: set<string>, order: seq<string>, unit: string)
    requires Searching(g, above + [unit], settled, order)
    requires forall k :: 0 <= k < |Edges(g, unit)| ==> Edges(g, unit)[k] in settled
    ensures Searching(g, above, settled + {unit}, order + [unit])
  {
    hide Closed;
    var visiting := above + [unit];
    assert forall i :: 0 <= i < |above| ==> visiting[i] == above[i] && above[i] in visiting;
    assert visiting[|above|] == unit && unit in visiting;
    assert IsWalk(g, above) by {
      forall i | 0 <= i < |above| - 1 ensures Edge(g, above[i], above[i + 1]) {
        assert Edge(g, visiting[i], visiting[i + 1]);
      }
    }
    StartNext(g, order, unit);
  }

  lemma StartNext(g: Graph, order: seq<string>, unit: string)
    requires IsStartOrder(g, order) && unit !in order
    requires forall v :: Edge(g, unit, v) ==> v in order
    ensures IsStartOrder(g, order + [unit])
  {
    var longer := order + [unit];
    forall i, v | 0 <= i < |longer| && Edge(g, longer[i], v) ensures v in longer[..i] {
      if i < |order| {
        assert longer[..i] == order[..i];
      } else {
        assert longer[..i] == order;
      }
    }
  }

  /** The search ends on every graph, and names a real cycle exactly when there is one;
      otherwise the units settled in an order each can be started in. */
  method RefuseCycles(graph: Graph) returns (cycle: Option<seq<string>>, ghost order: seq<string>)
    requires Closed(graph)
    ensures cycle.Some? <==> exists walk :: IsCycle(graph, walk)
    ensures cycle.Some? ==> IsCycle(graph, cycle.value)
    ensures cycle.None? ==> IsStartOrder(graph, order) && forall u :: u in order <==> u in graph
  {
    var search := new CycleSearch(graph);
    var left := graph.Keys;
    while left != {}
      invariant search.Valid() && search.graph == graph && search.visiting == [] && fresh(search)
      invariant left <= graph.Keys && forall u :: u in graph.Keys - left ==> u in search.settled
      decreases left
    {
      var unit :| unit in left;
      cycle := search.Walk(unit);
      if cycle.Some? {
        order := [];
        return;
      }
      left := left - {unit};
    }
    order := search.order;
    forall walk ensures !IsCycle(graph, walk) {
      OrderedMeansAcyclic(graph, order, walk);
    }
    return None, order;
  }
}
