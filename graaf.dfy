/** The weighted directed graph of ADP_2024/Graaf/Graaf.cs: a dictionary
    from vertex ids to vertices, each with its list of outgoing edges and
    the Distance and Previous fields that Dijkstra fills in.

    Vertices are values in the dictionary: an edge names its destination
    by id and Previous is the id of the vertex it refers to. */
module Graaf {
  import opened Wrappers

  /** int.MaxValue: the Distance of a vertex not reached. */
  const IntMax: int := 0x7fff_ffff

  /** An edge to the vertex whose id is `destination`. */
  datatype Edge = Edge(destination: int, weight: int)

  /** A vertex: its id, its outgoing edges in the order they were added,
      its Distance and its Previous vertex. */
  datatype Vertex = Vertex(id: int, edges: seq<Edge>, distance: int, previous: Option<int>)

  /** new Vertex(id): no edges, Distance int.MaxValue, Previous null. */
  function NewVertex(id: int): Vertex {
    Vertex(id, [], IntMax, None)
  }

  /** The vertex stored under `id`, or the one AddVertex(id) would create. */
  function VertexOr(vs: map<int, Vertex>, id: int): Vertex {
    if id in vs then vs[id] else NewVertex(id)
  }

  /** Every vertex is stored under its own id and every edge leads to a
      vertex of the graph. */
  ghost predicate Closed(vs: map<int, Vertex>) {
    && (forall x :: x in vs ==> vs[x].id == x)
    && (forall x, e :: x in vs && e in vs[x].edges ==> e.destination in vs)
  }

  // ---------------------------------------------------------------------
  // The four single-step operations, on the dictionary.

  /** The dictionary after AddVertex(id). */
  function WithVertex(vs: map<int, Vertex>, id: int): map<int, Vertex> {
    if id in vs then vs else vs[id := NewVertex(id)]
  }

  /** The dictionary after AddEdge(id1, id2, weight). */
  function WithEdge(vs: map<int, Vertex>, id1: int, id2: int, weight: int): map<int, Vertex> {
    var ws := WithVertex(WithVertex(vs, id1), id2);
    ws[id1 := ws[id1].(edges := ws[id1].edges + [Edge(id2, weight)])]
  }

  /** Edges.RemoveAll(e => e.Destination.Id == id). */
  function Without(es: seq<Edge>, id: int): seq<Edge> {
    if es == [] then []
    else (if es[0].destination == id then [] else [es[0]]) + Without(es[1..], id)
  }

  /** The dictionary after RemoveVertex(id). */
  function WithoutVertex(vs: map<int, Vertex>, id: int): map<int, Vertex> {
    if id !in vs then vs
    else map x | x in vs.Keys - {id} :: vs[x].(edges := Without(vs[x].edges, id))
  }

  /** The dictionary after RemoveEdge(id1, id2). */
  function WithoutEdge(vs: map<int, Vertex>, id1: int, id2: int): map<int, Vertex> {
    if id1 in vs && id2 in vs then vs[id1 := vs[id1].(edges := Without(vs[id1].edges, id2))] else vs
  }

  /** AddVertex(id) makes `id` a vertex and changes no vertex already
      there: a new vertex appears only when `id` was missing. */
  lemma WithVertexMeans(vs: map<int, Vertex>, id: int)
    ensures WithVertex(vs, id).Keys == vs.Keys + {id}
    ensures forall x :: x in WithVertex(vs, id) ==> WithVertex(vs, id)[x] == VertexOr(vs, x)
  {
  }

  /** AddVertex is idempotent. */
  lemma AddVertexIdempotent(vs: map<int, Vertex>, id: int)
    ensures WithVertex(WithVertex(vs, id), id) == WithVertex(vs, id)
  {
  }

  /** AddEdge(id1, id2, weight) makes both endpoints vertices, appends
      exactly one edge at the end of the list of id1 and changes nothing
      else. */
  lemma WithEdgeMeans(vs: map<int, Vertex>, id1: int, id2: int, weight: int)
    ensures WithEdge(vs, id1, id2, weight).Keys == vs.Keys + {id1, id2}
    ensures WithEdge(vs, id1, id2, weight)[id1] ==
              VertexOr(vs, id1).(edges := VertexOr(vs, id1).edges + [Edge(id2, weight)])
    ensures forall x :: x in WithEdge(vs, id1, id2, weight) && x != id1 ==>
              WithEdge(vs, id1, id2, weight)[x] == VertexOr(vs, x)
  {
  }

  /** RemoveAll keeps exactly the edges that do not lead to `id`. */
  lemma {:induction false} WithoutMeans(es: seq<Edge>, id: int)
    ensures |Without(es, id)| <= |es|
    ensures forall e :: e in Without(es, id) <==> e in es && e.destination != id
  {
    if es != [] {
      WithoutMeans(es[1..], id);
      assert es == [es[0]] + es[1..];
    }
  }

  /** RemoveAll keeps the order of the edges it does not remove: it
      distributes over concatenation. */
  lemma {:induction false} WithoutAppend(a: seq<Edge>, b: seq<Edge>, id: int)
    ensures Without(a + b, id) == Without(a, id) + Without(b, id)
  {
    if a == [] {
      assert a + b == b;
    } else {
      assert (a + b)[1..] == a[1..] + b;
      WithoutAppend(a[1..], b, id);
    }
  }

  /** A list without an edge to `id` is left as it is. */
  lemma {:induction false} WithoutNothing(es: seq<Edge>, id: int)
    requires forall e :: e in es ==> e.destination != id
    ensures Without(es, id) == es
  {
    if es != [] {
      WithoutNothing(es[1..], id);
    }
  }

  /** RemoveVertex(id) on a vertex: it is gone, every other vertex keeps
      its id, Distance and Previous, and its edges are the old ones except
      those to `id`. An absent id changes nothing. */
  lemma WithoutVertexMeans(vs: map<int, Vertex>, id: int)
    ensures id !in vs ==> WithoutVertex(vs, id) == vs
    ensures id in vs ==> WithoutVertex(vs, id).Keys == vs.Keys - {id}
    ensures id in vs ==> forall x :: x in WithoutVertex(vs, id) ==>
              WithoutVertex(vs, id)[x] == vs[x].(edges := Without(vs[x].edges, id))
    ensures forall x, e :: x in WithoutVertex(vs, id) && e in WithoutVertex(vs, id)[x].edges ==>
              e.destination != id || id !in vs
  {
    forall x, e | x in WithoutVertex(vs, id) && e in WithoutVertex(vs, id)[x].edges && id in vs
      ensures e.destination != id
    {
      WithoutMeans(vs[x].edges, id);
    }
  }

  /** RemoveEdge(id1, id2) with both ids vertices: the list of id1 loses
      its edges to id2 and keeps the rest in order; nothing else changes.
      Otherwise nothing changes at all. */
  lemma WithoutEdgeMeans(vs: map<int, Vertex>, id1: int, id2: int)
    ensures WithoutEdge(vs, id1, id2).Keys == vs.Keys
    ensures id1 in vs && id2 in vs ==>
              WithoutEdge(vs, id1, id2)[id1] == vs[id1].(edges := Without(vs[id1].edges, id2))
    ensures forall x :: x in vs && (x != id1 || id2 !in vs) ==> WithoutEdge(vs, id1, id2)[x] == vs[x]
  {
  }

  /** After RemoveEdge(id1, id2) the list of id1 holds exactly its old
      edges that do not lead to id2. */
  lemma WithoutEdgeGone(vs: map<int, Vertex>, id1: int, id2: int)
    requires id1 in vs && id2 in vs
    ensures forall e :: e in WithoutEdge(vs, id1, id2)[id1].edges <==> e in vs[id1].edges && e.destination != id2
  {
    WithoutMeans(vs[id1].edges, id2);
  }

  /** RemoveEdge undoes AddEdge between two vertices: adding the edge and
      removing the edges between them is removing them. */
  lemma RemoveEdgeUndoesAddEdge(vs: map<int, Vertex>, id1: int, id2: int, weight: int)
    requires id1 in vs && id2 in vs
    ensures WithoutEdge(WithEdge(vs, id1, id2, weight), id1, id2) == WithoutEdge(vs, id1, id2)
  {
    var ws := WithEdge(vs, id1, id2, weight);
    WithEdgeMeans(vs, id1, id2, weight);
    WithoutAppend(vs[id1].edges, [Edge(id2, weight)], id2);
    assert [Edge(id2, weight)][1..] == [];
    assert Without(ws[id1].edges, id2) == Without(vs[id1].edges, id2);
    var l, r := WithoutEdge(ws, id1, id2), WithoutEdge(vs, id1, id2);
    assert l.Keys == r.Keys;
    assert forall x :: x in l ==> l[x] == r[x];
  }

  lemma WithVertexClosed(vs: map<int, Vertex>, id: int)
    requires Closed(vs)
    ensures Closed(WithVertex(vs, id))
  {
  }

  lemma WithEdgeClosed(vs: map<int, Vertex>, id1: int, id2: int, weight: int)
    requires Closed(vs)
    ensures Closed(WithEdge(vs, id1, id2, weight))
  {
    var r := WithEdge(vs, id1, id2, weight);
    WithEdgeMeans(vs, id1, id2, weight);
    forall x, e | x in r && e in r[x].edges ensures e.destination in r {
      if x == id1 && e !in VertexOr(vs, id1).edges {
        assert e == Edge(id2, weight);
      }
    }
  }

  /** RemoveVertex keeps the graph closed: no edge is left pointing at the
      removed vertex. */
  lemma WithoutVertexClosed(vs: map<int, Vertex>, id: int)
    requires Closed(vs)
    ensures Closed(WithoutVertex(vs, id))
  {
    if id in vs {
      var r := WithoutVertex(vs, id);
      forall x, e | x in r && e in r[x].edges ensures e.destination in r {
        WithoutMeans(vs[x].edges, id);
      }
    }
  }

  lemma WithoutEdgeClosed(vs: map<int, Vertex>, id1: int, id2: int)
    requires Closed(vs)
    ensures Closed(WithoutEdge(vs, id1, id2))
  {
    if id1 in vs && id2 in vs {
      WithoutMeans(vs[id1].edges, id2);
    }
  }

  // ---------------------------------------------------------------------
  // The bulk builders, as a sequence of AddEdge calls.

  /** One AddEdge call: from `source` to `destination` with `weight`. */
  datatype Arc = Arc(source: int, destination: int, weight: int)

  /** The dictionary after calling AddEdge for each arc in turn. */
  function AddArcs(vs: map<int, Vertex>, arcs: seq<Arc>): map<int, Vertex>
    decreases |arcs|
  {
    if arcs == [] then vs
    else AddArcs(WithEdge(vs, arcs[0].source, arcs[0].destination, arcs[0].weight), arcs[1..])
  }

  /** The ids the arcs mention. */
  function Endpoints(arcs: seq<Arc>): set<int> {
    (set a | a in arcs :: a.source) + (set a | a in arcs :: a.destination)
  }

  /** The edges the arcs add to the list of `x`, in order. */
  function Outgoing(arcs: seq<Arc>, x: int): seq<Edge> {
    if arcs == [] then []
    else (if arcs[0].source == x then [Edge(arcs[0].destination, arcs[0].weight)] else []) + Outgoing(arcs[1..], x)
  }

  lemma {:induction false} OutgoingAppend(a: seq<Arc>, b: seq<Arc>, x: int)
    ensures Outgoing(a + b, x) == Outgoing(a, x) + Outgoing(b, x)
  {
    if a == [] {
      assert a + b == b;
    } else {
      var h: seq<Edge> := if a[0].source == x then [Edge(a[0].destination, a[0].weight)] else [];
      assert (a + b)[0] == a[0] && (a + b)[1..] == a[1..] + b;
      assert Outgoing(a + b, x) == h + Outgoing(a[1..] + b, x);
      OutgoingAppend(a[1..], b, x);
      assert Outgoing(a, x) == h + Outgoing(a[1..], x);
    }
  }

  /** Adding arcs in two batches is adding them all. */
  lemma {:induction false} AddArcsAppend(vs: map<int, Vertex>, a: seq<Arc>, b: seq<Arc>)
    ensures AddArcs(vs, a + b) == AddArcs(AddArcs(vs, a), b)
    decreases |a|
  {
    if a == [] {
      assert a + b == b;
    } else {
      assert (a + b)[1..] == a[1..] + b;
      AddArcsAppend(WithEdge(vs, a[0].source, a[0].destination, a[0].weight), a[1..], b);
    }
  }

  /** One more AddEdge call after a batch. */
  lemma AddArcsSnoc(vs: map<int, Vertex>, a: seq<Arc>, x: Arc)
    ensures AddArcs(vs, a + [x]) == WithEdge(AddArcs(vs, a), x.source, x.destination, x.weight)
  {
    AddArcsAppend(vs, a, [x]);
    assert [x][1..] == [];
  }

  /** The vertices after a sequence of AddEdge calls are the old ones and
      every endpoint. */
  lemma {:induction false} AddArcsKeys(vs: map<int, Vertex>, arcs: seq<Arc>)
    ensures AddArcs(vs, arcs).Keys == vs.Keys + Endpoints(arcs)
    decreases |arcs|
  {
    if arcs == [] {
      assert Endpoints(arcs) == {};
    } else {
      var a := arcs[0];
      WithEdgeMeans(vs, a.source, a.destination, a.weight);
      AddArcsKeys(WithEdge(vs, a.source, a.destination, a.weight), arcs[1..]);
      assert Endpoints(arcs) == {a.source, a.destination} + Endpoints(arcs[1..]) by {
        assert arcs == [a] + arcs[1..];
      }
    }
  }

  /** After a sequence of AddEdge calls a vertex keeps its id, Distance
      and Previous, and its edge list has grown by the arcs that leave it,
      in the order of the calls. */
  lemma {:induction false} AddArcsVertex(vs: map<int, Vertex>, arcs: seq<Arc>, x: int)
    requires x in AddArcs(vs, arcs)
    ensures AddArcs(vs, arcs)[x] == VertexOr(vs, x).(edges := VertexOr(vs, x).edges + Outgoing(arcs, x))
    decreases |arcs|
  {
    if arcs != [] {
      var a := arcs[0];
      var ws := WithEdge(vs, a.source, a.destination, a.weight);
      WithEdgeMeans(vs, a.source, a.destination, a.weight);
      AddArcsVertex(ws, arcs[1..], x);
      if x == a.source {
        assert VertexOr(ws, x) == VertexOr(vs, x).(edges := VertexOr(vs, x).edges + [Edge(a.destination, a.weight)]);
      } else {
        assert VertexOr(ws, x) == VertexOr(vs, x);
      }
    }
  }

  /** What a sequence of AddEdge calls does: both of the above. */
  lemma AddArcsMeans(vs: map<int, Vertex>, arcs: seq<Arc>)
    ensures AddArcs(vs, arcs).Keys == vs.Keys + Endpoints(arcs)
    ensures forall x :: x in AddArcs(vs, arcs) ==>
              AddArcs(vs, arcs)[x] == VertexOr(vs, x).(edges := VertexOr(vs, x).edges + Outgoing(arcs, x))
  {
    AddArcsKeys(vs, arcs);
    forall x | x in AddArcs(vs, arcs)
      ensures AddArcs(vs, arcs)[x] == VertexOr(vs, x).(edges := VertexOr(vs, x).edges + Outgoing(arcs, x))
    {
      AddArcsVertex(vs, arcs, x);
    }
  }

  /** AddEdge keeps the graph closed, so a sequence of them does too. */
  lemma {:induction false} AddArcsClosed(vs: map<int, Vertex>, arcs: seq<Arc>)
    requires Closed(vs)
    ensures Closed(AddArcs(vs, arcs))
    decreases |arcs|
  {
    if arcs != [] {
      var a := arcs[0];
      WithEdgeClosed(vs, a.source, a.destination, a.weight);
      AddArcsClosed(WithEdge(vs, a.source, a.destination, a.weight), arcs[1..]);
    }
  }

  /** The arcs of the entries before the first malformed one (None): the
      calls a builder makes before an index exception stops it. */
  function Parsed(entries: seq<Option<Arc>>): seq<Arc> {
    if entries == [] || entries[0] == None then []
    else [entries[0].value] + Parsed(entries[1..])
  }

  /** Parsed is the longest run of well-formed entries at the front. */
  lemma {:induction false} ParsedMeans(entries: seq<Option<Arc>>)
    ensures |Parsed(entries)| <= |entries|
    ensures forall i :: 0 <= i < |Parsed(entries)| ==> entries[i] == Some(Parsed(entries)[i])
    ensures |Parsed(entries)| < |entries| ==> entries[|Parsed(entries)|] == None
    ensures None !in entries ==> |Parsed(entries)| == |entries|
  {
    if entries != [] && entries[0] != None {
      ParsedMeans(entries[1..]);
      assert entries == [entries[0]] + entries[1..];
    }
  }

  /** A well-formed entry after well-formed ones adds its arc. */
  lemma {:induction false} ParsedSnoc(entries: seq<Option<Arc>>, a: Arc)
    requires None !in entries
    ensures Parsed(entries + [Some(a)]) == Parsed(entries) + [a]
  {
    if entries == [] {
      assert entries + [Some(a)] == [Some(a)];
    } else {
      assert (entries + [Some(a)])[1..] == entries[1..] + [Some(a)];
      ParsedSnoc(entries[1..], a);
    }
  }

  /** A malformed entry after well-formed ones ends the parse. */
  lemma {:induction false} ParsedStops(entries: seq<Option<Arc>>, i: nat)
    requires i < |entries| && entries[i] == None && None !in entries[..i]
    ensures Parsed(entries) == Parsed(entries[..i])
  {
    if i > 0 {
      assert entries[1..][..i - 1] == entries[1..i] && entries[..i][1..] == entries[1..i];
      ParsedStops(entries[1..], i - 1);
    }
  }

  /** Well-formed entries are parsed whole, and what follows them is
      parsed on its own. */
  lemma {:induction false} ParsedAppend(a: seq<Option<Arc>>, b: seq<Option<Arc>>)
    requires None !in a
    ensures Parsed(a + b) == Parsed(a) + Parsed(b)
  {
    if a == [] {
      assert a + b == b;
    } else {
      assert (a + b)[1..] == a[1..] + b;
      ParsedAppend(a[1..], b);
    }
  }

  /** edge[0], edge[1] and, when the row has it, edge[2] (weight 0 when
      it does not): None when edge[0] or edge[1] is out of range. */
  function RowArc(row: seq<int>): Option<Arc> {
    if |row| < 2 then None else Some(Arc(row[0], row[1], if |row| >= 3 then row[2] else 0))
  }

  /** The rows of an edge list, parsed one by one. */
  function EdgeListEntries(rows: seq<seq<int>>): seq<Option<Arc>> {
    seq(|rows|, k requires 0 <= k < |rows| => RowArc(rows[k]))
  }

  /** The AddEdge(i, n) calls of BuildFromAdjacencyList for row `i`. */
  function NeighbourArcs(i: int, ns: seq<int>): seq<Arc> {
    seq(|ns|, k requires 0 <= k < |ns| => Arc(i, ns[k], 0))
  }

  /** The AddEdge calls of BuildFromAdjacencyList, row after row. */
  function AdjacencyListArcs(lists: seq<seq<int>>): seq<Arc>
    decreases |lists|
  {
    if lists == [] then []
    else AdjacencyListArcs(lists[..|lists| - 1]) + NeighbourArcs(|lists| - 1, lists[|lists| - 1])
  }

  /** [destination, weight] of row `i` of a weighted adjacency list: None
      when neighbor[0] or neighbor[1] is out of range. */
  function PairArc(i: int, p: seq<int>): Option<Arc> {
    if |p| < 2 then None else Some(Arc(i, p[0], p[1]))
  }

  /** The pairs of row `i`, parsed one by one. */
  function PairEntries(i: int, ps: seq<seq<int>>): seq<Option<Arc>> {
    seq(|ps|, k requires 0 <= k < |ps| => PairArc(i, ps[k]))
  }

  /** The pairs of a weighted adjacency list, row after row. */
  function WeightedEntries(lists: seq<seq<seq<int>>>): seq<Option<Arc>>
    decreases |lists|
  {
    if lists == [] then []
    else WeightedEntries(lists[..|lists| - 1]) + PairEntries(|lists| - 1, lists[|lists| - 1])
  }

  /** The pairs of the first rows come first. */
  lemma {:induction false} WeightedPrefix(lists: seq<seq<seq<int>>>, k: nat)
    requires k <= |lists|
    ensures WeightedEntries(lists[..k]) <= WeightedEntries(lists)
    decreases |lists|
  {
    if k < |lists| {
      var n := |lists| - 1;
      WeightedPrefix(lists[..n], k);
      assert lists[..n][..k] == lists[..k];
    } else {
      assert lists[..k] == lists;
    }
  }

  /** What BuildFromEdgeList gives vertex `x`, read off the rows: an edge
      to row[1], weighted row[2] or 0, for each row whose row[0] is `x`,
      in the order of the rows. */
  function RowEdges(rows: seq<seq<int>>, x: int): seq<Edge> {
    if rows == [] then []
    else (if |rows[0]| >= 2 && rows[0][0] == x
          then [Edge(rows[0][1], if |rows[0]| >= 3 then rows[0][2] else 0)] else [])
         + RowEdges(rows[1..], x)
  }

  /** Without a short row, the builder adds exactly the edges of the rows. */
  lemma {:induction false} EdgeListOutgoing(rows: seq<seq<int>>, x: int)
    requires forall k :: 0 <= k < |rows| ==> |rows[k]| >= 2
    ensures Outgoing(Parsed(EdgeListEntries(rows)), x) == RowEdges(rows, x)
  {
    if rows != [] {
      assert EdgeListEntries(rows)[1..] == EdgeListEntries(rows[1..]);
      EdgeListOutgoing(rows[1..], x);
    }
  }

  /** The edges of one adjacency list row: weight 0 to each neighbour. */
  function NeighbourEdges(ns: seq<int>): seq<Edge> {
    seq(|ns|, k requires 0 <= k < |ns| => Edge(ns[k], 0))
  }

  lemma {:induction false} NeighbourOutgoing(i: int, ns: seq<int>, x: int)
    ensures Outgoing(NeighbourArcs(i, ns), x) == if x == i then NeighbourEdges(ns) else []
  {
    if ns != [] {
      assert NeighbourArcs(i, ns)[1..] == NeighbourArcs(i, ns[1..]);
      NeighbourOutgoing(i, ns[1..], x);
      assert NeighbourEdges(ns) == [Edge(ns[0], 0)] + NeighbourEdges(ns[1..]);
    }
  }

  /** BuildFromAdjacencyList gives vertex i exactly the neighbours of row
      i, in order, and no other id any edge. */
  lemma {:induction false} AdjacencyListOutgoing(lists: seq<seq<int>>, x: int)
    ensures Outgoing(AdjacencyListArcs(lists), x) == if 0 <= x < |lists| then NeighbourEdges(lists[x]) else []
    decreases |lists|
  {
    if lists != [] {
      var n := |lists| - 1;
      var front, last := AdjacencyListArcs(lists[..n]), NeighbourArcs(n, lists[n]);
      assert AdjacencyListArcs(lists) == front + last;
      OutgoingAppend(front, last, x);
      AdjacencyListOutgoing(lists[..n], x);
      NeighbourOutgoing(n, lists[n], x);
      if 0 <= x < n {
        assert lists[..n][x] == lists[x];
        assert Outgoing(last, x) == [];
      } else if x == n {
        assert Outgoing(front, x) == [];
      } else {
        assert Outgoing(front, x) == [] && Outgoing(last, x) == [];
      }
    }
  }

  /** The edges of the well-formed pairs of a weighted row, in order. */
  function PairEdges(ps: seq<seq<int>>): seq<Edge> {
    if ps == [] then []
    else (if |ps[0]| >= 2 then [Edge(ps[0][0], ps[0][1])] else []) + PairEdges(ps[1..])
  }

  lemma {:induction false} PairOutgoing(i: int, ps: seq<seq<int>>, x: int)
    requires None !in PairEntries(i, ps)
    ensures Outgoing(Parsed(PairEntries(i, ps)), x) == if x == i then PairEdges(ps) else []
  {
    if ps != [] {
      assert PairEntries(i, ps) == [PairArc(i, ps[0])] + PairEntries(i, ps[1..]);
      PairOutgoing(i, ps[1..], x);
    }
  }

  /** Without a short pair, BuildFromAdjacencyListWeighted gives vertex i
      exactly the pairs of row i, in order, and no other id any edge. */
  lemma {:induction false} WeightedOutgoing(lists: seq<seq<seq<int>>>, x: int)
    requires None !in WeightedEntries(lists)
    ensures Outgoing(Parsed(WeightedEntries(lists)), x) == if 0 <= x < |lists| then PairEdges(lists[x]) else []
    decreases |lists|
  {
    if lists != [] {
      var n := |lists| - 1;
      var front := WeightedEntries(lists[..n]);
      var last := PairEntries(n, lists[n]);
      assert WeightedEntries(lists) == front + last;
      ParsedAppend(front, last);
      OutgoingAppend(Parsed(front), Parsed(last), x);
      WeightedOutgoing(lists[..n], x);
      PairOutgoing(n, lists[n], x);
    }
  }

  /** The entries a weighted builder has read when it is at pair `j` of
      row `i`. */
  function WeightedUpTo(lists: seq<seq<seq<int>>>, i: nat, j: nat): seq<Option<Arc>>
    requires i < |lists| && j <= |lists[i]|
  {
    WeightedEntries(lists[..i]) + PairEntries(i, lists[i][..j])
  }

  /** Reading one more pair adds its entry; a whole row reads the row. */
  lemma WeightedUpToStep(lists: seq<seq<seq<int>>>, i: nat, j: nat)
    requires i < |lists| && j <= |lists[i]|
    ensures WeightedUpTo(lists, i, 0) == WeightedEntries(lists[..i])
    ensures j < |lists[i]| ==> WeightedUpTo(lists, i, j + 1) == WeightedUpTo(lists, i, j) + [PairArc(i, lists[i][j])]
    ensures j == |lists[i]| ==> WeightedUpTo(lists, i, j) == WeightedEntries(lists[..i + 1])
    ensures WeightedUpTo(lists, i, j) <= WeightedEntries(lists)
  {
    assert PairEntries(i, lists[i][..0]) == [];
    if j < |lists[i]| {
      assert PairEntries(i, lists[i][..j + 1]) == PairEntries(i, lists[i][..j]) + [PairArc(i, lists[i][j])];
    }
    assert lists[..i + 1][..i] == lists[..i];
    assert lists[i][..|lists[i]|] == lists[i];
    assert WeightedEntries(lists[..i + 1]) == WeightedEntries(lists[..i]) + PairEntries(i, lists[i]);
    WeightedPrefix(lists, i + 1);
  }

  // ---------------------------------------------------------------------
  // The adjacency matrix builder.

  /** The dictionary after AddVertex(0), AddVertex(1), ..., AddVertex(n - 1). */
  function Numbered(vs: map<int, Vertex>, n: nat): map<int, Vertex> {
    if n == 0 then vs else WithVertex(Numbered(vs, n - 1), n - 1)
  }

  /** The AddEdge calls for cells (i, 0), ..., (i, k - 1) of the matrix:
      one per non-zero cell, with the cell as weight. */
  function CellArcs(m: array2<int>, i: nat, k: nat): seq<Arc>
    reads m
    requires i < m.Length0 && k <= m.Length1
  {
    if k == 0 then []
    else CellArcs(m, i, k - 1) + (if m[i, k - 1] != 0 then [Arc(i, k - 1, m[i, k - 1])] else [])
  }

  /** The AddEdge calls for rows 0, ..., i - 1 of a matrix at least as wide
      as it is tall. */
  function MatrixArcs(m: array2<int>, i: nat): seq<Arc>
    reads m
    requires i <= m.Length0 <= m.Length1
  {
    if i == 0 then [] else MatrixArcs(m, i - 1) + CellArcs(m, i - 1, m.Length0)
  }

  /** AddVertex(0), ..., AddVertex(n - 1) add the ids 0 to n - 1 and
      change no vertex already there. */
  lemma {:induction false} NumberedMeans(vs: map<int, Vertex>, n: nat)
    ensures forall x :: x in Numbered(vs, n) <==> x in vs || 0 <= x < n
    ensures forall x :: x in Numbered(vs, n) ==> Numbered(vs, n)[x] == VertexOr(vs, x)
  {
    if n > 0 {
      NumberedMeans(vs, n - 1);
      WithVertexMeans(Numbered(vs, n - 1), n - 1);
    }
  }

  /** Destinations strictly increase along the list. */
  ghost predicate Increasing(es: seq<Edge>) {
    forall a, b :: 0 <= a < b < |es| ==> es[a].destination < es[b].destination
  }

  /** The edges the last cell of a row prefix adds. */
  lemma CellStep(m: array2<int>, i: nat, k: nat, x: int)
    requires i < m.Length0 && 0 < k <= m.Length1
    ensures Outgoing(CellArcs(m, i, k), x) ==
              Outgoing(CellArcs(m, i, k - 1), x) +
              (if x == i && m[i, k - 1] != 0 then [Edge(k - 1, m[i, k - 1])] else [])
  {
    var tail := if m[i, k - 1] != 0 then [Arc(i, k - 1, m[i, k - 1])] else [];
    OutgoingAppend(CellArcs(m, i, k - 1), tail, x);
    assert tail != [] ==> tail[1..] == [];
  }

  /** Row i gives no other id an edge. */
  lemma {:induction false} CellOutgoingOther(m: array2<int>, i: nat, k: nat, x: int)
    requires i < m.Length0 && k <= m.Length1 && x != i
    ensures Outgoing(CellArcs(m, i, k), x) == []
  {
    if k > 0 {
      CellStep(m, i, k, x);
      CellOutgoingOther(m, i, k - 1, x);
    }
  }

  /** The edges of row i, cells 0 to k - 1: one to each column with a
      non-zero cell, weighted by the cell. */
  lemma {:induction false} CellOutgoing(m: array2<int>, i: nat, k: nat, x: int)
    requires i < m.Length0 && k <= m.Length1
    ensures forall e :: e in Outgoing(CellArcs(m, i, k), x) <==>
              x == i && 0 <= e.destination < k && m[i, e.destination] != 0 && e.weight == m[i, e.destination]
  {
    if k > 0 {
      CellStep(m, i, k, x);
      CellOutgoing(m, i, k - 1, x);
    }
  }

  /** ... and they come in column order. */
  lemma {:induction false} CellIncreasing(m: array2<int>, i: nat, k: nat)
    requires i < m.Length0 && k <= m.Length1
    ensures Increasing(Outgoing(CellArcs(m, i, k), i))
  {
    if k > 0 {
      var o := Outgoing(CellArcs(m, i, k - 1), i);
      var t: seq<Edge> := if m[i, k - 1] != 0 then [Edge(k - 1, m[i, k - 1])] else [];
      CellStep(m, i, k, i);
      CellIncreasing(m, i, k - 1);
      CellOutgoing(m, i, k - 1, i);
      IncreasingSnoc(o, t, k - 1);
    }
  }

  /** Appending at most one edge past every destination keeps the order. */
  lemma IncreasingSnoc(o: seq<Edge>, t: seq<Edge>, d: int)
    requires Increasing(o) && |t| <= 1
    requires forall e :: e in o ==> e.destination < d
    requires forall e :: e in t ==> e.destination == d
    ensures Increasing(o + t)
  {
    forall a, b | 0 <= a < b < |o + t|
      ensures (o + t)[a].destination < (o + t)[b].destination
    {
      assert (o + t)[a] == o[a] && o[a] in o;
      if b < |o| {
        assert (o + t)[b] == o[b];
      } else {
        assert (o + t)[b] in t;
      }
    }
  }

  /** One more cell of row i: an AddEdge when it is non-zero. */
  lemma CellArcsNext(m: array2<int>, i: nat, j: nat, vs: map<int, Vertex>, done: seq<Arc>)
    requires i < m.Length0 && j < m.Length1
    ensures AddArcs(vs, done + CellArcs(m, i, j + 1)) ==
              if m[i, j] != 0 then WithEdge(AddArcs(vs, done + CellArcs(m, i, j)), i, j, m[i, j])
              else AddArcs(vs, done + CellArcs(m, i, j))
  {
    if m[i, j] != 0 {
      assert done + CellArcs(m, i, j + 1) == (done + CellArcs(m, i, j)) + [Arc(i, j, m[i, j])];
      AddArcsSnoc(vs, done + CellArcs(m, i, j), Arc(i, j, m[i, j]));
    } else {
      assert done + CellArcs(m, i, j + 1) == done + CellArcs(m, i, j);
    }
  }

  /** The edges the matrix gives row x are those of its own cells. */
  lemma {:induction false} MatrixOutgoing(m: array2<int>, n: nat, x: int)
    requires n <= m.Length0 <= m.Length1
    ensures Outgoing(MatrixArcs(m, n), x) == if 0 <= x < n then Outgoing(CellArcs(m, x, m.Length0), x) else []
  {
    if n > 0 {
      var front, row := MatrixArcs(m, n - 1), CellArcs(m, n - 1, m.Length0);
      assert MatrixArcs(m, n) == front + row;
      OutgoingAppend(front, row, x);
      MatrixOutgoing(m, n - 1, x);
      if x != n - 1 {
        CellOutgoingOther(m, n - 1, m.Length0, x);
      }
    }
  }

  /** Every id a matrix mentions is a row number. */
  lemma {:induction false} MatrixEndpoints(m: array2<int>, n: nat)
    requires n <= m.Length0 <= m.Length1
    ensures forall y :: y in Endpoints(MatrixArcs(m, n)) ==> 0 <= y < m.Length0
  {
    if n > 0 {
      var front, row := MatrixArcs(m, n - 1), CellArcs(m, n - 1, m.Length0);
      assert MatrixArcs(m, n) == front + row;
      MatrixEndpoints(m, n - 1);
      CellEndpoints(m, n - 1, m.Length0);
      EndpointsAppend(front, row);
    }
  }

  lemma {:induction false} CellEndpoints(m: array2<int>, i: nat, k: nat)
    requires i < m.Length0 && k <= m.Length1 && k <= m.Length0
    ensures forall y :: y in Endpoints(CellArcs(m, i, k)) ==> 0 <= y < m.Length0
  {
    if k > 0 {
      var tail := if m[i, k - 1] != 0 then [Arc(i, k - 1, m[i, k - 1])] else [];
      assert CellArcs(m, i, k) == CellArcs(m, i, k - 1) + tail;
      CellEndpoints(m, i, k - 1);
      EndpointsAppend(CellArcs(m, i, k - 1), tail);
    }
  }

  lemma EndpointsAppend(a: seq<Arc>, b: seq<Arc>)
    ensures Endpoints(a + b) == Endpoints(a) + Endpoints(b)
  {
    forall y ensures y in Endpoints(a + b) <==> y in Endpoints(a) + Endpoints(b) {
      if y in Endpoints(a + b) {
        var c :| c in a + b && (c.source == y || c.destination == y);
        assert c in a || c in b;
      }
      if y in Endpoints(a) + Endpoints(b) {
        var c :| (c in a || c in b) && (c.source == y || c.destination == y);
        assert c in a + b;
      }
    }
  }

  /** A matrix at least as wide as it is tall, loaded into an empty graph:
      the vertices are 0 to n - 1, each reset, and vertex x has an edge to
      y exactly when cell (x, y) is non-zero, weighted by the cell, in
      column order. */
  lemma MatrixGraph(m: array2<int>)
    requires m.Length0 <= m.Length1
    ensures var g := AddArcs(Numbered(map[], m.Length0), MatrixArcs(m, m.Length0));
            && (forall x :: x in g <==> 0 <= x < m.Length0)
            && (forall x :: x in g ==> g[x].id == x && g[x].distance == IntMax && g[x].previous == None)
            && (forall x :: x in g ==> Increasing(g[x].edges))
            && (forall x, e :: x in g ==>
                  (e in g[x].edges <==>
                     0 <= e.destination < m.Length0 && m[x, e.destination] != 0 && e.weight == m[x, e.destination]))
  {
    var n := m.Length0;
    var ns := Numbered(map[], n);
    var g := AddArcs(ns, MatrixArcs(m, n));
    NumberedMeans(map[], n);
    AddArcsKeys(ns, MatrixArcs(m, n));
    MatrixEndpoints(m, n);
    forall x | x in g
      ensures g[x].id == x && g[x].distance == IntMax && g[x].previous == None
      ensures g[x].edges == Outgoing(CellArcs(m, x, n), x)
    {
      AddArcsVertex(ns, MatrixArcs(m, n), x);
      MatrixOutgoing(m, n, x);
    }
    forall x | x in g
      ensures Increasing(g[x].edges)
      ensures forall e :: e in g[x].edges <==>
                0 <= e.destination < n && m[x, e.destination] != 0 && e.weight == m[x, e.destination]
    {
      CellOutgoing(m, x, n, x);
      CellIncreasing(m, x, n);
    }
  }

  /** A non-empty set has an element: the next vertex a foreach over the
      dictionary visits. */
  lemma NonEmptyHasElement(s: set<int>)
    requires s != {}
    ensures exists x :: x in s
  {
    if forall x :: x !in s {
      assert false;
    }
  }

  // ---------------------------------------------------------------------

  /** Graaf: the Vertices dictionary, changed in place. */
  class Graaf {
    var vertices: map<int, Vertex>

    ghost predicate Valid()
      reads this
    {
      Closed(vertices)
    }

    /** new Graaf(): no vertices. */
    constructor ()
      ensures Valid() && vertices == map[]
    {
      vertices := map[];
    }

    /** AddVertex(id): a new vertex only when `id` is not yet one. */
    method AddVertex(id: int)
      requires Valid()
      modifies this
      ensures Valid() && vertices == WithVertex(old(vertices), id)
    {
      WithVertexClosed(vertices, id);
      if id !in vertices {
        vertices := vertices[id := NewVertex(id)];
      }
    }

    /** AddEdge(id1, id2, weight): missing endpoints are created, then the
        edge is appended to the list of id1. */
    method AddEdge(id1: int, id2: int, weight: int)
      requires Valid()
      modifies this
      ensures Valid() && vertices == WithEdge(old(vertices), id1, id2, weight)
    {
      WithEdgeClosed(vertices, id1, id2, weight);
      if id1 !in vertices {
        AddVertex(id1);
      }
      if id2 !in vertices {
        AddVertex(id2);
      }
      var v1 := vertices[id1];
      vertices := vertices[id1 := v1.(edges := v1.edges + [Edge(id2, weight)])];
    }

    /** RemoveVertex(id): the edges to `id` are removed from every list,
        then the vertex itself. */
    method RemoveVertex(id: int)
      requires Valid()
      modifies this
      ensures Valid() && vertices == WithoutVertex(old(vertices), id)
    {
      WithoutVertexClosed(vertices, id);
      if id in vertices {
        ghost var v0 := vertices;
        var rest := vertices.Keys;
        while rest != {}
          invariant rest <= v0.Keys && vertices.Keys == v0.Keys
          invariant forall x :: x in vertices ==>
                      vertices[x] == if x in rest then v0[x] else v0[x].(edges := Without(v0[x].edges, id))
          decreases rest
        {
          NonEmptyHasElement(rest);
          var x :| x in rest;
          var v := vertices[x];
          vertices := vertices[x := v.(edges := Without(v.edges, id))];
          rest := rest - {x};
        }
        vertices := vertices - {id};
        WithoutVertexMeans(v0, id);
        assert vertices.Keys == WithoutVertex(v0, id).Keys;
        assert forall x :: x in vertices ==> vertices[x] == WithoutVertex(v0, id)[x];
      }
    }

    /** RemoveEdge(id1, id2): when both are vertices, every edge from id1
        to id2 is removed. */
    method RemoveEdge(id1: int, id2: int)
      requires Valid()
      modifies this
      ensures Valid() && vertices == WithoutEdge(old(vertices), id1, id2)
    {
      WithoutEdgeClosed(vertices, id1, id2);
      if id1 in vertices && id2 in vertices {
        var v1 := vertices[id1];
        vertices := vertices[id1 := v1.(edges := Without(v1.edges, id2))];
      }
    }

    /** BuildFromEdgeList(edgeList): AddEdge(row[0], row[1], row[2] or 0)
        for each row; a row with fewer than two entries throws
        ArgumentOutOfRangeException after the rows before it were added. */
    method BuildFromEdgeList(edgeList: seq<seq<int>>) returns (r: Outcome)
      requires Valid()
      modifies this
      ensures Valid()
      ensures vertices == AddArcs(old(vertices), Parsed(EdgeListEntries(edgeList)))
      ensures r == Pass <==> forall k :: 0 <= k < |edgeList| ==> |edgeList[k]| >= 2
      ensures r != Pass ==> r == Fail(ArgumentOutOfRange)
    {
      ghost var v0 := vertices;
      ghost var entries := EdgeListEntries(edgeList);
      var i := 0;
      while i < |edgeList|
        invariant 0 <= i <= |edgeList| && Valid()
        invariant forall k :: 0 <= k < i ==> |edgeList[k]| >= 2
        invariant None !in entries[..i]
        invariant vertices == AddArcs(v0, Parsed(entries[..i]))
      {
        var edge := edgeList[i];
        if |edge| < 2 {
          ParsedStops(entries, i);
          return Fail(ArgumentOutOfRange);
        }
        var weight := if |edge| >= 3 then edge[2] else 0;
        assert entries[..i + 1] == entries[..i] + [Some(Arc(edge[0], edge[1], weight))];
        ParsedSnoc(entries[..i], Arc(edge[0], edge[1], weight));
        AddArcsSnoc(v0, Parsed(entries[..i]), Arc(edge[0], edge[1], weight));
        AddEdge(edge[0], edge[1], weight);
        i := i + 1;
      }
      assert entries[..i] == entries;
      return Pass;
    }

    /** BuildFromAdjacencyList(edgeList): AddEdge(i, n) with weight 0 for
        each neighbour n of row i, row after row. */
    method BuildFromAdjacencyList(edgeList: seq<seq<int>>)
      requires Valid()
      modifies this
      ensures Valid() && vertices == AddArcs(old(vertices), AdjacencyListArcs(edgeList))
    {
      ghost var v0 := vertices;
      var i := 0;
      while i < |edgeList|
        invariant 0 <= i <= |edgeList| && Valid()
        invariant vertices == AddArcs(v0, AdjacencyListArcs(edgeList[..i]))
      {
        var neighbors := edgeList[i];
        ghost var done := AdjacencyListArcs(edgeList[..i]);
        assert NeighbourArcs(i, neighbors[..0]) == [];
        assert done + NeighbourArcs(i, neighbors[..0]) == done;
        var j := 0;
        while j < |neighbors|
          invariant 0 <= j <= |neighbors| && Valid()
          invariant vertices == AddArcs(v0, done + NeighbourArcs(i, neighbors[..j]))
        {
          assert done + NeighbourArcs(i, neighbors[..j + 1]) ==
                 (done + NeighbourArcs(i, neighbors[..j])) + [Arc(i, neighbors[j], 0)];
          AddArcsSnoc(v0, done + NeighbourArcs(i, neighbors[..j]), Arc(i, neighbors[j], 0));
          AddEdge(i, neighbors[j], 0);
          j := j + 1;
        }
        assert edgeList[..i + 1][..i] == edgeList[..i] && neighbors[..j] == neighbors;
        i := i + 1;
      }
      assert edgeList[..i] == edgeList;
    }

    /** The inner loop of BuildFromAdjacencyListWeighted over row i: an
        AddEdge per pair, until the first pair shorter than two. */
    method AddPairs(edgeList: seq<seq<seq<int>>>, i: nat, ghost v0: map<int, Vertex>) returns (ok: bool)
      requires Valid() && i < |edgeList|
      requires None !in WeightedEntries(edgeList[..i])
      requires vertices == AddArcs(v0, Parsed(WeightedEntries(edgeList[..i])))
      modifies this
      ensures Valid()
      ensures ok ==> None !in WeightedEntries(edgeList[..i + 1])
      ensures ok ==> vertices == AddArcs(v0, Parsed(WeightedEntries(edgeList[..i + 1])))
      ensures !ok ==> None in WeightedEntries(edgeList)
      ensures !ok ==> vertices == AddArcs(v0, Parsed(WeightedEntries(edgeList)))
    {
      ghost var all := WeightedEntries(edgeList);
      var neighbors := edgeList[i];
      WeightedUpToStep(edgeList, i, 0);
      var j := 0;
      while j < |neighbors|
        invariant 0 <= j <= |neighbors| && Valid()
        invariant None !in WeightedUpTo(edgeList, i, j)
        invariant vertices == AddArcs(v0, Parsed(WeightedUpTo(edgeList, i, j)))
      {
        var neighbor := neighbors[j];
        ghost var before := WeightedUpTo(edgeList, i, j);
        WeightedUpToStep(edgeList, i, j);
        WeightedUpToStep(edgeList, i, j + 1);
        if |neighbor| < 2 {
          assert all[..|before|] == before && all[|before|] == None;
          ParsedStops(all, |before|);
          return false;
        }
        ParsedSnoc(before, Arc(i, neighbor[0], neighbor[1]));
        AddArcsSnoc(v0, Parsed(before), Arc(i, neighbor[0], neighbor[1]));
        AddEdge(i, neighbor[0], neighbor[1]);
        j := j + 1;
      }
      WeightedUpToStep(edgeList, i, j);
      return true;
    }

    /** BuildFromAdjacencyListWeighted(edgeList): AddEdge(i, p[0], p[1])
        for each pair p of row i; a pair with fewer than two entries throws
        ArgumentOutOfRangeException after the pairs before it were added. */
    method BuildFromAdjacencyListWeighted(edgeList: seq<seq<seq<int>>>) returns (r: Outcome)
      requires Valid()
      modifies this
      ensures Valid()
      ensures vertices == AddArcs(old(vertices), Parsed(WeightedEntries(edgeList)))
      ensures r == Pass <==> None !in WeightedEntries(edgeList)
      ensures r != Pass ==> r == Fail(ArgumentOutOfRange)
    {
      ghost var v0 := vertices;
      var i := 0;
      while i < |edgeList|
        invariant 0 <= i <= |edgeList| && Valid()
        invariant None !in WeightedEntries(edgeList[..i])
        invariant vertices == AddArcs(v0, Parsed(WeightedEntries(edgeList[..i])))
      {
        var ok := AddPairs(edgeList, i, v0);
        if !ok {
          return Fail(ArgumentOutOfRange);
        }
        i := i + 1;
      }
      assert edgeList[..i] == edgeList;
      return Pass;
    }

    /** The inner loop of BuildFromAdjacencyMatrix over row i: an AddEdge
        per non-zero cell, until column Length0 or the first column past
        the matrix. */
    method AddCells(matrix: array2<int>, i: nat, ghost v0: map<int, Vertex>, ghost done: seq<Arc>)
        returns (ok: bool)
      requires Valid() && i < matrix.Length0 && vertices == AddArcs(v0, done)
      modifies this
      ensures Valid()
      ensures ok <==> matrix.Length0 <= matrix.Length1
      ensures ok ==> vertices == AddArcs(v0, done + CellArcs(matrix, i, matrix.Length0))
      ensures !ok ==> vertices == AddArcs(v0, done + CellArcs(matrix, i, matrix.Length1))
    {
      assert done + CellArcs(matrix, i, 0) == done;
      var j := 0;
      while j < matrix.Length0
        invariant 0 <= j <= matrix.Length0 && j <= matrix.Length1 && Valid()
        invariant vertices == AddArcs(v0, done + CellArcs(matrix, i, j))
      {
        if j >= matrix.Length1 {
          return false;
        }
        CellArcsNext(matrix, i, j, v0, done);
        if matrix[i, j] != 0 {
          AddEdge(i, j, matrix[i, j]);
        }
        j := j + 1;
      }
      return true;
    }

    /** BuildFromAdjacencyMatrix(matrix): AddVertex(i) for every row, then
        AddEdge(i, j, m[i, j]) for every non-zero cell with j below the
        number of rows, row by row. A matrix narrower than it is tall
        throws IndexOutOfRangeException in row 0, once the cells of row 0
        that exist have been added. */
    method BuildFromAdjacencyMatrix(matrix: array2<int>) returns (r: Outcome)
      requires Valid()
      modifies this
      ensures Valid()
      ensures r == Pass <==> matrix.Length0 <= matrix.Length1
      ensures r == Pass ==>
                vertices == AddArcs(Numbered(old(vertices), matrix.Length0), MatrixArcs(matrix, matrix.Length0))
      ensures r != Pass ==>
                r == Fail(IndexOutOfRange) &&
                vertices == AddArcs(Numbered(old(vertices), matrix.Length0), CellArcs(matrix, 0, matrix.Length1))
    {
      var size := matrix.Length0;
      var i := 0;
      while i < size
        invariant 0 <= i <= size && Valid()
        invariant vertices == Numbered(old(vertices), i)
      {
        AddVertex(i);
        i := i + 1;
      }
      ghost var v0 := vertices;
      i := 0;
      while i < size
        invariant 0 <= i <= size && Valid()
        invariant i > 0 ==> size <= matrix.Length1
        invariant i > 0 ==> vertices == AddArcs(v0, MatrixArcs(matrix, i))
        invariant i == 0 ==> vertices == v0
      {
        ghost var done: seq<Arc> := if i == 0 then [] else MatrixArcs(matrix, i);
        var ok := AddCells(matrix, i, v0, done);
        if !ok {
          assert i == 0 && done + CellArcs(matrix, i, matrix.Length1) == CellArcs(matrix, 0, matrix.Length1);
          return Fail(IndexOutOfRange);
        }
        assert MatrixArcs(matrix, i + 1) == done + CellArcs(matrix, i, size);
        i := i + 1;
      }
      return Pass;
    }
  }
}
