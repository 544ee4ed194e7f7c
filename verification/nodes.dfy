/** `main` of `src/nodes.py`: one coordinate (x, y or degree weight) per
    input row, read from a graph layout of the rows marked "original". */
module Nodes {
  import opened Basics
  import opened Graph

  /** A node position as a layout returns it. */
  type Point = (real, real)

  /** One input row, `(from_node, to_node, base)`; a node may be `None`. */
  datatype Triple = Triple(from: Option<string>, to: Option<string>, base: string)

  /** One output entry: a float, or `None`. */
  datatype Value = Null | Num(v: real)

  /** networkx refuses `None` as a node (`ValueError`). */
  datatype NodesError = NoneNode

  /** The layout names `main` dispatches on. */
  const Layouts: set<string> :=
    {"spring", "circular", "random", "shell", "kamada_kawai", "spectral", "spiral"}

  function Min(a: nat, b: nat): nat {
    if a <= b then a else b
  }

  /** `list(zip(from_nodes, to_nodes, bases))`: as long as the shortest. */
  function Zip3(froms: seq<Option<string>>, tos: seq<Option<string>>, bases: seq<string>): seq<Triple>
  {
    seq(Min(Min(|froms|, |tos|), |bases|), i requires 0 <= i < Min(Min(|froms|, |tos|), |bases|) =>
      Triple(froms[i], tos[i], bases[i]))
  }

  predicate IsOriginal(t: Triple) {
    t.base == "original"
  }

  /** The `(from_node, to_node)` pairs of the rows whose base is exactly
      "original", in row order. */
  function OriginalPairs(rows: seq<Triple>): seq<(Option<string>, Option<string>)> {
    if |rows| == 0 then []
    else
      var last := rows[|rows| - 1];
      OriginalPairs(rows[..|rows| - 1]) + (if IsOriginal(last) then [(last.from, last.to)] else [])
  }

  ghost predicate FromOriginalRow(rows: seq<Triple>, pair: (Option<string>, Option<string>)) {
    exists i :: 0 <= i < |rows| && IsOriginal(rows[i]) && pair == (rows[i].from, rows[i].to)
  }

  /** Every pair comes from an "original" row, and every "original" row
      gives a pair. */
  lemma {:induction false} OriginalPairsSpec(rows: seq<Triple>)
    ensures |OriginalPairs(rows)| <= |rows|
    ensures forall k :: 0 <= k < |OriginalPairs(rows)| ==> FromOriginalRow(rows, OriginalPairs(rows)[k])
    ensures forall i :: 0 <= i < |rows| && IsOriginal(rows[i]) ==>
      (rows[i].from, rows[i].to) in OriginalPairs(rows)
    decreases |rows|
  {
    if |rows| > 0 {
      var p := rows[..|rows| - 1];
      OriginalPairsSpec(p);
      var q := OriginalPairs(p);
      var r := OriginalPairs(rows);
      forall k | 0 <= k < |r| ensures FromOriginalRow(rows, r[k]) {
        if k < |q| {
          assert r[k] == q[k];
          var i :| 0 <= i < |p| && IsOriginal(p[i]) && q[k] == (p[i].from, p[i].to);
          assert rows[i] == p[i];
        } else {
          var j := |rows| - 1;
          assert IsOriginal(rows[j]) && r == q + [(rows[j].from, rows[j].to)];
          assert r[k] == (rows[j].from, rows[j].to);
        }
      }
      forall i | 0 <= i < |rows| && IsOriginal(rows[i])
        ensures (rows[i].from, rows[i].to) in r
      {
        if i < |p| {
          assert rows[i] == p[i];
        }
      }
    }
  }

  /** The pairs of two stretches of rows are those of the first followed
      by those of the second: row order is kept. */
  lemma {:induction false} OriginalPairsAppend(a: seq<Triple>, b: seq<Triple>)
    ensures OriginalPairs(a + b) == OriginalPairs(a) + OriginalPairs(b)
    decreases |b|
  {
    if |b| == 0 {
      assert a + b == a;
    } else {
      var b' := b[..|b| - 1];
      OriginalPairsAppend(a, b');
      assert (a + b)[..|a + b| - 1] == a + b';
      assert (a + b)[|a + b| - 1] == b[|b| - 1];
    }
  }

  /** Rows none of whose bases is "original" give no pair. */
  lemma {:induction false} NoOriginalRows(rows: seq<Triple>)
    requires forall i :: 0 <= i < |rows| ==> !IsOriginal(rows[i])
    ensures OriginalPairs(rows) == []
    decreases |rows|
  {
    if |rows| > 0 {
      var p := rows[..|rows| - 1];
      assert forall i :: 0 <= i < |p| ==> p[i] == rows[i];
      NoOriginalRows(p);
    }
  }

  /** The first pair, `edges[0]`, is the pair of the first row whose base is
      "original". */
  lemma FirstOriginalPair(rows: seq<Triple>, j: nat)
    requires j < |rows| && IsOriginal(rows[j])
    requires forall i :: 0 <= i < j ==> !IsOriginal(rows[i])
    ensures |OriginalPairs(rows)| > 0
    ensures OriginalPairs(rows)[0] == (rows[j].from, rows[j].to)
  {
    var front, t, back := rows[..j], rows[j], rows[j + 1..];
    assert rows == front + [t] + back;
    NoOriginalRows(front);
    assert OriginalPairs([t]) == [(t.from, t.to)] by {
      assert [t][..0] == [];
    }
    OriginalPairsAppend(front, [t]);
    OriginalPairsAppend(front + [t], back);
  }

  /** A row whose base is not "original" contributes no edge, wherever it
      stands. */
  lemma {:induction false} OtherRowsAddNoEdges(a: seq<Triple>, t: Triple, b: seq<Triple>)
    requires !IsOriginal(t)
    ensures OriginalPairs(a + [t] + b) == OriginalPairs(a + b)
    decreases |b|
  {
    if |b| == 0 {
      assert a + [t] + b == a + [t];
      assert (a + [t])[..|a|] == a;
      assert a + b == a;
    } else {
      var b' := b[..|b| - 1];
      OtherRowsAddNoEdges(a, t, b');
      assert (a + [t] + b)[..|a + [t] + b| - 1] == a + [t] + b';
      assert (a + b)[..|a + b| - 1] == a + b';
    }
  }

  predicate HasNone(pairs: seq<(Option<string>, Option<string>)>) {
    exists k :: 0 <= k < |pairs| && (pairs[k].0.None? || pairs[k].1.None?)
  }

  /** The graph's edges once no endpoint is `None`. */
  function Names(pairs: seq<(Option<string>, Option<string>)>): seq<Edge>
    requires !HasNone(pairs)
  {
    seq(|pairs|, k requires 0 <= k < |pairs| => (pairs[k].0.value, pairs[k].1.value))
  }

  /** `[None] * n`. */
  function Nulls(n: nat): seq<Value>
  {
    seq(n, _ => Null)
  }

  /** The per-row step of `main`'s loop, given the graph, the layout and
      the lower-cased dimension. */
  function ProjectRow(t: Triple, g: Adjacency, positions: map<string, Point>, dim: string): (r: Value)
    requires positions.Keys <= g.Keys
    ensures r.Num?
    ensures t.from.None? || t.to.None? || t.from.value !in positions || t.to.value !in positions
      ==> r == Num(0.0)
  {
    if t.from.None? || t.to.None? || t.from.value !in positions || t.to.value !in positions then
      Num(0.0)
    else
      var n := if t.base == "mirrored" then t.to.value else t.from.value;
      if dim == "weight" then Num(Degree(g, n) as real)
      else if dim == "x" then Num(positions[n].0)
      else Num(positions[n].1)
  }

  /** The name held by an endpoint, if any. */
  function Named(o: Option<string>): set<string> {
    if o.Some? then {o.value} else {}
  }

  /** The nodes named by the rows whose base is exactly "original". */
  function OriginalNodes(rows: seq<Triple>): set<string> {
    if |rows| == 0 then {}
    else
      var last := rows[|rows| - 1];
      OriginalNodes(rows[..|rows| - 1]) + (if IsOriginal(last) then Named(last.from) + Named(last.to) else {})
  }

  /** A node is named by an "original" row exactly when some such row has
      it as an endpoint. */
  lemma {:induction false} OriginalNodesSpec(rows: seq<Triple>)
    ensures forall n :: n in OriginalNodes(rows) <==>
      exists i :: 0 <= i < |rows| && IsOriginal(rows[i]) && (rows[i].from == Some(n) || rows[i].to == Some(n))
    decreases |rows|
  {
    if |rows| > 0 {
      var p := rows[..|rows| - 1];
      var j := |rows| - 1;
      OriginalNodesSpec(p);
      forall n ensures n in OriginalNodes(rows) <==>
        exists i :: 0 <= i < |rows| && IsOriginal(rows[i]) && (rows[i].from == Some(n) || rows[i].to == Some(n))
      {
        if n in OriginalNodes(p) {
          var i :| 0 <= i < |p| && IsOriginal(p[i]) && (p[i].from == Some(n) || p[i].to == Some(n));
          assert rows[i] == p[i];
        }
        if exists i :: 0 <= i < |rows| && IsOriginal(rows[i]) && (rows[i].from == Some(n) || rows[i].to == Some(n)) {
          var i :| 0 <= i < |rows| && IsOriginal(rows[i]) && (rows[i].from == Some(n) || rows[i].to == Some(n));
          if i < j {
            assert p[i] == rows[i];
          }
        }
      }
    }
  }

  /** The layout only places nodes of the graph, as every networkx layout
      does. */
  predicate PlacesGraphNodes(positions: map<string, Point>, rows: seq<Triple>) {
    positions.Keys <= OriginalNodes(rows)
  }

  /** No original edge at all, or a `None` endpoint on the first one. */
  predicate Degenerate(pairs: seq<(Option<string>, Option<string>)>) {
    |pairs| == 0 || pairs[0].0.None? || pairs[0].1.None?
  }

  /** `main(from_nodes, to_nodes, bases, dimension, k, layout)`, where
      `positions` is what the named networkx layout returns for the graph of
      the original edges (with spring constant `k` and the fixed seed); it
      is consulted only when the name is one of `Layouts`. */
  function Coordinates(froms: seq<Option<string>>, tos: seq<Option<string>>, bases: seq<string>,
                       dimension: string, layout: string, positions: map<string, Point>)
    : (r: Result<seq<Value>, NodesError>)
    requires PlacesGraphNodes(positions, Zip3(froms, tos, bases))
    ensures var pairs := OriginalPairs(Zip3(froms, tos, bases));
      && (Degenerate(pairs) ==> r == Success(Nulls(|tos|)))
      && (r.Failure? <==> !Degenerate(pairs) && HasNone(pairs))
      && (!Degenerate(pairs) && !HasNone(pairs) && layout !in Layouts ==> r == Success(Nulls(|froms|)))
      && (!Degenerate(pairs) && layout in Layouts && r.Success? ==>
            |r.value| == Min(Min(|froms|, |tos|), |bases|) &&
            forall i :: 0 <= i < |r.value| ==> r.value[i].Num?)
  {
    var dim := Lower(dimension);
    var rows := Zip3(froms, tos, bases);
    var pairs := OriginalPairs(rows);
    if Degenerate(pairs) then Success(Nulls(|tos|))
    else if HasNone(pairs) then Failure(NoneNode)
    else
      var edges := Names(pairs);
      var g := BuildGraph(edges);
      if layout !in Layouts then Success(Nulls(|froms|))
      else
        GraphHoldsPlaced(rows, positions);
        Success(seq(|rows|, i requires 0 <= i < |rows| => ProjectRow(rows[i], g, positions, dim)))
  }

  /** Every placed node is a node of the graph of the original edges. */
  lemma GraphHoldsPlaced(rows: seq<Triple>, positions: map<string, Point>)
    requires PlacesGraphNodes(positions, rows)
    requires !HasNone(OriginalPairs(rows))
    ensures positions.Keys <= BuildGraph(Names(OriginalPairs(rows))).Keys
  {
    var pairs := OriginalPairs(rows);
    var edges := Names(pairs);
    OriginalNodesSpec(rows);
    OriginalPairsSpec(rows);
    BuildGraphSpec(edges);
    forall n | n in positions ensures n in BuildGraph(edges) {
      var i :| 0 <= i < |rows| && IsOriginal(rows[i]) && (rows[i].from == Some(n) || rows[i].to == Some(n));
      assert (rows[i].from, rows[i].to) in pairs;
      var k :| 0 <= k < |pairs| && pairs[k] == (rows[i].from, rows[i].to);
      assert edges[k].0 == n || edges[k].1 == n;
    }
  }

  /** The graph's edge list: the original pairs, once none has a `None`. */
  function OriginalEdges(rows: seq<Triple>): seq<Edge>
    requires !HasNone(OriginalPairs(rows))
  {
    Names(OriginalPairs(rows))
  }

  /** The graph built from the original edges has exactly the nodes named
      by the rows whose base is "original". */
  lemma GraphNodesAreOriginalNodes(rows: seq<Triple>)
    requires !HasNone(OriginalPairs(rows))
    ensures BuildGraph(OriginalEdges(rows)).Keys == OriginalNodes(rows)
  {
    var pairs := OriginalPairs(rows);
    var edges := OriginalEdges(rows);
    OriginalNodesSpec(rows);
    OriginalPairsSpec(rows);
    BuildGraphSpec(edges);
    forall n | n in BuildGraph(edges) ensures n in OriginalNodes(rows) {
      var k :| 0 <= k < |edges| && (edges[k].0 == n || edges[k].1 == n);
      assert FromOriginalRow(rows, pairs[k]);
      var i :| 0 <= i < |rows| && IsOriginal(rows[i]) && pairs[k] == (rows[i].from, rows[i].to);
      assert rows[i].from == Some(n) || rows[i].to == Some(n);
    }
    forall n | n in OriginalNodes(rows) ensures n in BuildGraph(edges) {
      var i :| 0 <= i < |rows| && IsOriginal(rows[i]) && (rows[i].from == Some(n) || rows[i].to == Some(n));
      assert (rows[i].from, rows[i].to) in pairs;
      var k :| 0 <= k < |pairs| && pairs[k] == (rows[i].from, rows[i].to);
      assert edges[k].0 == n || edges[k].1 == n;
    }
  }

  /** A row with an endpoint that is `None` or that the layout did not place
      yields 0.0, whatever the dimension. */
  lemma MissingEndpointIsZero(froms: seq<Option<string>>, tos: seq<Option<string>>, bases: seq<string>,
                            dimension: string, layout: string, positions: map<string, Point>, i: nat)
    requires PlacesGraphNodes(positions, Zip3(froms, tos, bases))
    requires layout in Layouts
    requires !Degenerate(OriginalPairs(Zip3(froms, tos, bases)))
    requires !HasNone(OriginalPairs(Zip3(froms, tos, bases)))
    requires i < |froms| && i < |tos| && i < |bases|
    requires froms[i].None? || tos[i].None? || froms[i].value !in positions || tos[i].value !in positions
    ensures i < |Coordinates(froms, tos, bases, dimension, layout, positions).value|
    ensures Coordinates(froms, tos, bases, dimension, layout, positions).value[i] == Num(0.0)
  {
  }

  /** Inside the projection branch, entry `i` of the result is the per-row
      step on row `i`. */
  lemma CoordinatesRow(froms: seq<Option<string>>, tos: seq<Option<string>>, bases: seq<string>,
                dimension: string, layout: string, positions: map<string, Point>, i: nat)
    requires PlacesGraphNodes(positions, Zip3(froms, tos, bases))
    requires layout in Layouts
    requires !Degenerate(OriginalPairs(Zip3(froms, tos, bases)))
    requires !HasNone(OriginalPairs(Zip3(froms, tos, bases)))
    requires i < |froms| && i < |tos| && i < |bases|
    ensures positions.Keys <= BuildGraph(OriginalEdges(Zip3(froms, tos, bases))).Keys
    ensures i < |Coordinates(froms, tos, bases, dimension, layout, positions).value|
    ensures Coordinates(froms, tos, bases, dimension, layout, positions).value[i]
         == ProjectRow(Triple(froms[i], tos[i], bases[i]), BuildGraph(OriginalEdges(Zip3(froms, tos, bases))),
                       positions, Lower(dimension))
  {
    GraphHoldsPlaced(Zip3(froms, tos, bases), positions);
  }

  /** With both endpoints placed, a row reads the to-node when it is
      "mirrored" and the from-node otherwise; dimension "weight" gives that
      node's degree in the graph of the original edges (its distinct
      neighbours, a self-loop counting twice), "x" its first coordinate, and
      any other dimension its second. */
  lemma PlacedRowValue(froms: seq<Option<string>>, tos: seq<Option<string>>, bases: seq<string>,
                  dimension: string, layout: string, positions: map<string, Point>, i: nat)
    requires PlacesGraphNodes(positions, Zip3(froms, tos, bases))
    requires layout in Layouts
    requires !Degenerate(OriginalPairs(Zip3(froms, tos, bases)))
    requires !HasNone(OriginalPairs(Zip3(froms, tos, bases)))
    requires i < |froms| && i < |tos| && i < |bases|
    requires froms[i].Some? && tos[i].Some? && froms[i].value in positions && tos[i].value in positions
    ensures var n := if bases[i] == "mirrored" then tos[i].value else froms[i].value;
      var edges := OriginalEdges(Zip3(froms, tos, bases));
      var r := Coordinates(froms, tos, bases, dimension, layout, positions);
      var dim := Lower(dimension);
      && i < |r.value|
      && (dim == "weight" ==>
            r.value[i] == Num((|Neighbours(edges, n)| + (if Joins(edges, n, n) then 1 else 0)) as real))
      && (dim == "x" ==> r.value[i] == Num(positions[n].0))
      && (dim != "x" && dim != "weight" ==> r.value[i] == Num(positions[n].1))
  {
    var edges := OriginalEdges(Zip3(froms, tos, bases));
    CoordinatesRow(froms, tos, bases, dimension, layout, positions, i);
    PlacedRowStep(Triple(froms[i], tos[i], bases[i]), edges, positions, Lower(dimension));
  }

  /** `PlacedRowValue` for the per-row step alone. */
  lemma PlacedRowStep(t: Triple, edges: seq<Edge>, positions: map<string, Point>, dim: string)
    requires positions.Keys <= BuildGraph(edges).Keys
    requires t.from.Some? && t.to.Some? && t.from.value in positions && t.to.value in positions
    ensures var n := if t.base == "mirrored" then t.to.value else t.from.value;
      var r := ProjectRow(t, BuildGraph(edges), positions, dim);
      && (dim == "weight" ==> r == Num((|Neighbours(edges, n)| + (if Joins(edges, n, n) then 1 else 0)) as real))
      && (dim == "x" ==> r == Num(positions[n].0))
      && (dim != "x" && dim != "weight" ==> r == Num(positions[n].1))
  {
    var n := if t.base == "mirrored" then t.to.value else t.from.value;
    assert IsEndpoint(edges, n) by {
      BuildGraphSpec(edges);
    }
    DegreeSpec(edges, n);
  }

  /** A "mirrored" row (a, b) has the value of a non-mirrored row (b, a). */
  lemma MirroredSwapsEndpoints(a: Option<string>, b: Option<string>, base: string,
                               g: Adjacency, positions: map<string, Point>, dim: string)
    requires positions.Keys <= g.Keys
    requires base != "mirrored"
    ensures ProjectRow(Triple(a, b, "mirrored"), g, positions, dim)
         == ProjectRow(Triple(b, a, base), g, positions, dim)
  {
  }

  /** The dimension is matched without regard to ASCII case. */
  lemma DimensionCaseInsensitive(froms: seq<Option<string>>, tos: seq<Option<string>>, bases: seq<string>,
                                 dimension: string, layout: string, positions: map<string, Point>)
    requires PlacesGraphNodes(positions, Zip3(froms, tos, bases))
    ensures Coordinates(froms, tos, bases, dimension, layout, positions)
         == Coordinates(froms, tos, bases, Lower(dimension), layout, positions)
  {
    LowerIdempotent(dimension);
  }

  /** Exactly "x" and "X" select the first coordinate. */
  lemma SelectsFirstCoordinate(dimension: string)
    ensures Lower(dimension) == "x" <==> dimension == "x" || dimension == "X"
  {
    assert Lower("x") == "x";
    LowerEqual(dimension, "x");
    if Lower(dimension) == "x" {
      assert dimension == [dimension[0]];
    }
  }

  /** Two rows over nodes A and B, the second the mirror (B, A) of the
      first, under the circular layout: the mirrored row swaps back to A, so
      both rows read A's x. */
  lemma CircularScenario(pa: Point, pb: Point)
    ensures PlacesGraphNodes(map["A" := pa, "B" := pb],
                             Zip3([Some("A"), Some("B")], [Some("B"), Some("A")], ["original", "mirrored"]))
         && Coordinates([Some("A"), Some("B")], [Some("B"), Some("A")], ["original", "mirrored"],
                 "x", "circular", map["A" := pa, "B" := pb])
         == Success([Num(pa.0), Num(pa.0)])
  {
    var froms, tos, bases := [Some("A"), Some("B")], [Some("B"), Some("A")], ["original", "mirrored"];
    var positions := map["A" := pa, "B" := pb];
    var rows := Zip3(froms, tos, bases);
    assert rows == [Triple(Some("A"), Some("B"), "original"), Triple(Some("B"), Some("A"), "mirrored")];
    assert rows[..1] == [rows[0]];
    assert OriginalPairs(rows[..1]) == [(Some("A"), Some("B"))];
    assert OriginalPairs(rows) == [(Some("A"), Some("B"))];
    assert OriginalNodes(rows[..1]) == {"A", "B"};
    assert PlacesGraphNodes(positions, rows);
    assert Lower("x") == "x";
    var g := BuildGraph(OriginalEdges(rows));
    CoordinatesRow(froms, tos, bases, "x", "circular", positions, 0);
    CoordinatesRow(froms, tos, bases, "x", "circular", positions, 1);
    var r := Coordinates(froms, tos, bases, "x", "circular", positions);
    assert r.value[0] == ProjectRow(rows[0], g, positions, "x") == Num(pa.0);
    assert r.value[1] == ProjectRow(rows[1], g, positions, "x") == Num(pa.0);
    assert r.value == [Num(pa.0), Num(pa.0)];
  }
}
