/** The part of `networkx.Graph` that `src/nodes.py` relies on: building a
    simple undirected graph from an edge list and asking a node's degree. */
module Graph {

  /** An edge between two named nodes; the graph ignores its direction. */
  type Edge = (string, string)

  /** A simple undirected graph as an adjacency map: each node to the set of
      its neighbours. A self-loop makes a node its own neighbour. */
  type Adjacency = map<string, set<string>>

  /** `n` is an endpoint of some edge of the list. */
  ghost predicate IsEndpoint(edges: seq<Edge>, n: string) {
    exists i :: 0 <= i < |edges| && (edges[i].0 == n || edges[i].1 == n)
  }

  /** Some edge of the list joins `n` and `m`, in either direction. */
  ghost predicate Joins(edges: seq<Edge>, n: string, m: string) {
    exists i :: 0 <= i < |edges| &&
      ((edges[i].0 == n && edges[i].1 == m) || (edges[i].0 == m && edges[i].1 == n))
  }

  /** Every endpoint of the list. */
  function Endpoints(edges: seq<Edge>): (nodes: set<string>)
    ensures forall n :: n in nodes <==> IsEndpoint(edges, n)
  {
    var froms := set i | 0 <= i < |edges| :: edges[i].0;
    var tos := set i | 0 <= i < |edges| :: edges[i].1;
    assert forall n :: IsEndpoint(edges, n) ==> n in froms + tos;
    froms + tos
  }

  /** The distinct neighbours of `n` in the graph the list describes. */
  ghost function Neighbours(edges: seq<Edge>, n: string): set<string> {
    set m | m in Endpoints(edges) && Joins(edges, n, m)
  }

  /** `G.add_edge(u, v)`: both nodes are added if missing, and each becomes
      a neighbour of the other; adding an edge twice changes nothing. */
  function AddEdge(g: Adjacency, u: string, v: string): Adjacency {
    var g1 := g[u := (if u in g then g[u] else {}) + {v}];
    g1[v := (if v in g1 then g1[v] else {}) + {u}]
  }

  /** `G = nx.Graph(); G.add_edges_from(edges)`. */
  function BuildGraph(edges: seq<Edge>): Adjacency {
    if |edges| == 0 then map[]
    else
      var e := edges[|edges| - 1];
      AddEdge(BuildGraph(edges[..|edges| - 1]), e.0, e.1)
  }

  /** Adding an edge keeps the nodes equal to the endpoints. */
  lemma AddEdgeNodes(g: Adjacency, p: seq<Edge>, e: Edge)
    requires forall n :: n in g <==> IsEndpoint(p, n)
    ensures forall n :: n in AddEdge(g, e.0, e.1) <==> IsEndpoint(p + [e], n)
  {
    var edges := p + [e];
    var h := AddEdge(g, e.0, e.1);
    forall n ensures n in h <==> IsEndpoint(edges, n) {
      if IsEndpoint(p, n) {
        var i :| 0 <= i < |p| && (p[i].0 == n || p[i].1 == n);
        assert edges[i] == p[i];
      }
      if n == e.0 || n == e.1 {
        assert edges[|p|] == e;
      }
      if IsEndpoint(edges, n) && n != e.0 && n != e.1 {
        var i :| 0 <= i < |edges| && (edges[i].0 == n || edges[i].1 == n);
        assert i < |p| && p[i] == edges[i];
      }
    }
  }

  /** Adding an edge keeps adjacency equal to "some edge joins". */
  lemma AddEdgeJoins(g: Adjacency, p: seq<Edge>, e: Edge)
    requires forall n :: n in g <==> IsEndpoint(p, n)
    requires forall n, m :: n in g ==> (m in g[n] <==> Joins(p, n, m))
    ensures forall n, m :: n in AddEdge(g, e.0, e.1) ==>
      (m in AddEdge(g, e.0, e.1)[n] <==> Joins(p + [e], n, m))
  {
    var edges := p + [e];
    var h := AddEdge(g, e.0, e.1);
    forall n, m | n in h ensures m in h[n] <==> Joins(edges, n, m) {
      if Joins(p, n, m) {
        var i :| 0 <= i < |p| &&
          ((p[i].0 == n && p[i].1 == m) || (p[i].0 == m && p[i].1 == n));
        assert edges[i] == p[i];
        assert IsEndpoint(p, n);
      }
      if (e.0 == n && e.1 == m) || (e.0 == m && e.1 == n) {
        assert edges[|p|] == e;
      }
      if Joins(edges, n, m) && !((e.0 == n && e.1 == m) || (e.0 == m && e.1 == n)) {
        var i :| 0 <= i < |edges| &&
          ((edges[i].0 == n && edges[i].1 == m) || (edges[i].0 == m && edges[i].1 == n));
        assert i < |p| && p[i] == edges[i];
        assert IsEndpoint(p, n);
      }
    }
  }

  /** The graph built from a list holds exactly the list's endpoints, and two
      nodes are neighbours exactly when some edge of the list joins them. */
  lemma {:induction false} BuildGraphSpec(edges: seq<Edge>)
    ensures forall n :: n in BuildGraph(edges) <==> IsEndpoint(edges, n)
    ensures forall n, m :: n in BuildGraph(edges) ==>
      (m in BuildGraph(edges)[n] <==> Joins(edges, n, m))
    decreases |edges|
  {
    if |edges| > 0 {
      var p := edges[..|edges| - 1];
      var e := edges[|edges| - 1];
      assert edges == p + [e];
      BuildGraphSpec(p);
      AddEdgeNodes(BuildGraph(p), p, e);
      AddEdgeJoins(BuildGraph(p), p, e);
    }
  }

  /** `G.degree(n)`: the number of neighbours, a self-loop counting twice. */
  function Degree(g: Adjacency, n: string): nat
    requires n in g
  {
    |g[n]| + (if n in g[n] then 1 else 0)
  }

  /** The degree of a node of the built graph is the number of its distinct
      neighbours in the edge list, plus one when some edge is a self-loop
      on it. */
  lemma DegreeSpec(edges: seq<Edge>, n: string)
    requires IsEndpoint(edges, n)
    ensures n in BuildGraph(edges)
    ensures Degree(BuildGraph(edges), n) ==
      |Neighbours(edges, n)| + (if Joins(edges, n, n) then 1 else 0)
  {
    BuildGraphSpec(edges);
    var g := BuildGraph(edges);
    forall m ensures m in g[n] <==> m in Neighbours(edges, n) {
      if Joins(edges, n, m) {
        var i :| 0 <= i < |edges| &&
          ((edges[i].0 == n && edges[i].1 == m) || (edges[i].0 == m && edges[i].1 == n));
        assert IsEndpoint(edges, m);
      }
    }
    assert g[n] == Neighbours(edges, n);
  }
}
