/** Dijkstra's algorithm of ADP_2024/Dijkstra/DijkstraAlgorithm.cs, run on
    the dictionary of a Graaf, and the walk back along the Previous links
    that GetShortestPath makes.

    The .NET PriorityQueue is a multiset of (vertex id, priority) entries
    from which Dequeue takes one of least priority. The sum
    Distance + Weight is a C# int: `Int32` wraps it around as the source
    does, `Unbounded` is the evidently intended mathematical sum. */
module DijkstraAlgorithm {
  import opened Wrappers
  import opened Graaf

  /** int.MinValue. */
  const IntMin: int := -0x8000_0000

  /** A C# int addition result: the two's complement wrap-around of x. */
  function Wrap32(x: int): int {
    (x - IntMin) % 0x1_0000_0000 + IntMin
  }

  lemma Wrap32Means(x: int)
    ensures IntMin <= Wrap32(x) <= IntMax
    ensures IntMin <= x <= IntMax ==> Wrap32(x) == x
    ensures IntMax < x <= IntMax - IntMin + IntMax ==> Wrap32(x) == x - 0x1_0000_0000
  {
  }

  /** How `currentVertex.Distance + edge.Weight` is evaluated. */
  datatype Arithmetic = Int32 | Unbounded

  function Add(a: Arithmetic, d: int, w: int): int {
    match a
    case Int32 => Wrap32(d + w)
    case Unbounded => d + w
  }

  // ---------------------------------------------------------------------
  // Walks and their weights.

  /** One edge of a walk, taken from vertex `from`. */
  datatype Step = Step(from: int, edge: Edge)

  /** `p` leads from `s` to `v` along edges of the graph. */
  ghost predicate IsWalk(g: map<int, Vertex>, s: int, v: int, p: seq<Step>)
    decreases |p|
  {
    if p == [] then v == s
    else
      var last := p[|p| - 1];
      && last.from in g
      && last.edge in g[last.from].edges
      && last.edge.destination == v
      && IsWalk(g, s, last.from, p[..|p| - 1])
  }

  /** Every edge of the walk has a non-negative weight. */
  ghost predicate Nonneg(p: seq<Step>) {
    forall k :: 0 <= k < |p| ==> p[k].edge.weight >= 0
  }

  /** The weight of a walk, summed with the given arithmetic. */
  function Weight(a: Arithmetic, p: seq<Step>): int
    decreases |p|
  {
    if p == [] then 0 else Add(a, Weight(a, p[..|p| - 1]), p[|p| - 1].edge.weight)
  }

  /** A walk one edge longer. */
  lemma WalkSnoc(g: map<int, Vertex>, s: int, u: int, p: seq<Step>, e: Edge, a: Arithmetic)
    requires IsWalk(g, s, u, p) && u in g && e in g[u].edges
    ensures IsWalk(g, s, e.destination, p + [Step(u, e)])
    ensures Weight(a, p + [Step(u, e)]) == Add(a, Weight(a, p), e.weight)
    ensures Nonneg(p) && e.weight >= 0 ==> Nonneg(p + [Step(u, e)])
  {
    assert (p + [Step(u, e)])[..|p|] == p;
  }

  /** A walk only looks at ids and edges. */
  lemma {:induction false} WalkSameShape(g: map<int, Vertex>, h: map<int, Vertex>, s: int, v: int, p: seq<Step>)
    requires SameShape(g, h) && IsWalk(g, s, v, p)
    ensures IsWalk(h, s, v, p)
    decreases |p|
  {
    if p != [] {
      WalkSameShape(g, h, s, p[|p| - 1].from, p[..|p| - 1]);
    }
  }

  /** Two dictionaries with the same vertices, ids and edges. */
  ghost predicate SameShape(g: map<int, Vertex>, h: map<int, Vertex>) {
    && g.Keys == h.Keys
    && forall x :: x in g ==> h[x].id == g[x].id && h[x].edges == g[x].edges
  }

  // ---------------------------------------------------------------------
  // The state of a run and what holds of it.

  /** The reset of lines 14 to 19: every vertex at int.MaxValue, no
      Previous. */
  function Reset(vs: map<int, Vertex>): map<int, Vertex> {
    map x | x in vs :: vs[x].(distance := IntMax, previous := None)
  }

  /** The dictionary, the queue, and for the proof: a walk per reached
      vertex, the time of its last update and the clock. */
  datatype State = State(vs: map<int, Vertex>, queue: multiset<(int, int)>,
                         walks: map<int, seq<Step>>, stamp: map<int, nat>, clock: nat)

  ghost predicate Bounded(a: Arithmetic, vs: map<int, Vertex>) {
    forall v :: v in vs ==> IntMin <= vs[v].distance <= IntMax && (a == Unbounded ==> 0 <= vs[v].distance)
  }

  /** Every entry names a vertex, at or above its current Distance. */
  ghost predicate Queued(vs: map<int, Vertex>, queue: multiset<(int, int)>) {
    forall e :: e in queue ==> e.0 in vs && vs[e.0].distance <= e.1 < IntMax
  }

  /** Edge `e` of `u` is non-negative and relaxing it would change nothing. */
  ghost predicate EdgeOk(a: Arithmetic, vs: map<int, Vertex>, u: int, e: Edge)
    requires u in vs
  {
    e.weight >= 0 && e.destination in vs && vs[e.destination].distance <= Add(a, vs[u].distance, e.weight)
  }

  ghost predicate Relaxed(a: Arithmetic, vs: map<int, Vertex>, u: int)
    requires u in vs
  {
    forall e :: e in vs[u].edges ==> EdgeOk(a, vs, u, e)
  }

  /** A reached vertex is in the queue at its Distance, or its edges have
      been relaxed. */
  ghost predicate DoneFor(a: Arithmetic, vs: map<int, Vertex>, queue: multiset<(int, int)>, u: int)
    requires u in vs
  {
    vs[u].distance < IntMax ==> (u, vs[u].distance) in queue || Relaxed(a, vs, u)
  }

  /** Every reached vertex has a non-negative walk from `s` that weighs its
      Distance. */
  ghost predicate Witnessed(a: Arithmetic, g: map<int, Vertex>, s: int, vs: map<int, Vertex>, walks: map<int, seq<Step>>) {
    forall v :: v in vs && vs[v].distance < IntMax ==>
      v in walks && IsWalk(g, s, v, walks[v]) && Nonneg(walks[v]) && Weight(a, walks[v]) == vs[v].distance
  }

  /** `u` is reached and has a non-negative edge to `v` (not heavier than
      the difference of their Distances, with unbounded sums). */
  ghost predicate PrevEdge(a: Arithmetic, g: map<int, Vertex>, vs: map<int, Vertex>, u: int, v: int) {
    && u in vs && v in vs && u in g && vs[u].distance < IntMax
    && exists e :: e in g[u].edges && e.destination == v && e.weight >= 0 &&
                   (a == Unbounded ==> vs[u].distance + e.weight <= vs[v].distance)
  }

  /** The Previous links: none on an unreached vertex, one along an edge
      on every reached vertex but the start, none on the start with
      unbounded sums. */
  ghost predicate Linked(a: Arithmetic, g: map<int, Vertex>, s: int, vs: map<int, Vertex>) {
    && (forall v :: v in vs && vs[v].distance == IntMax ==> vs[v].previous == None)
    && (forall v :: v in vs && vs[v].previous.Some? ==> PrevEdge(a, g, vs, vs[v].previous.value, v))
    && (forall v :: v in vs && v != s && vs[v].distance < IntMax ==> vs[v].previous.Some?)
    && (s in vs ==> vs[s].distance <= 0)
    && (a == Unbounded && s in vs ==> vs[s].distance == 0 && vs[s].previous == None)
  }

  /** `u` comes before `v`: a smaller Distance, or the same one set earlier. */
  ghost predicate Before(vs: map<int, Vertex>, stamp: map<int, nat>, u: int, v: int)
    requires u in vs && v in vs && u in stamp && v in stamp
  {
    vs[u].distance < vs[v].distance || (vs[u].distance == vs[v].distance && stamp[u] < stamp[v])
  }

  /** Following Previous goes strictly backwards in (Distance, stamp), so
      it ends. */
  ghost predicate Ranked(vs: map<int, Vertex>, stamp: map<int, nat>) {
    forall v :: v in vs ==>
      && v in stamp && 0 <= vs[v].distance
      && (vs[v].previous.Some? ==> vs[v].previous.value in vs && vs[v].previous.value in stamp &&
                                    Before(vs, stamp, vs[v].previous.value, v))
  }

  ghost predicate Stamped(a: Arithmetic, vs: map<int, Vertex>, stamp: map<int, nat>, clock: nat) {
    && (forall v :: v in vs ==> v in stamp && stamp[v] < clock)
    && (a == Unbounded ==> Ranked(vs, stamp))
  }

  ghost predicate Shared(a: Arithmetic, g: map<int, Vertex>, s: int, st: State) {
    && Closed(g) && s in g && SameShape(g, st.vs)
    && Bounded(a, st.vs)
    && Queued(st.vs, st.queue)
    && Witnessed(a, g, s, st.vs, st.walks)
    && Linked(a, g, s, st.vs)
    && Stamped(a, st.vs, st.stamp, st.clock)
  }

  /** Between two dequeues. */
  ghost predicate Outer(a: Arithmetic, g: map<int, Vertex>, s: int, st: State) {
    && Shared(a, g, s, st)
    && forall u :: u in st.vs ==> DoneFor(a, st.vs, st.queue, u)
  }

  /** While the edges of `x` are relaxed: the first `j` are done. */
  ghost predicate Inner(a: Arithmetic, g: map<int, Vertex>, s: int, st: State, x: int, j: nat) {
    && Shared(a, g, s, st)
    && x in st.vs && x in g && st.vs[x].distance < IntMax && j <= |g[x].edges|
    && (forall u :: u in st.vs && u != x ==> DoneFor(a, st.vs, st.queue, u))
    && ((x, st.vs[x].distance) in st.queue || forall k :: 0 <= k < j ==> EdgeOk(a, st.vs, x, g[x].edges[k]))
  }

  // ---------------------------------------------------------------------
  // One lemma per step of the run.

  /** Lines 14 to 25: the reset, Distance 0 on the start and the start in
      the queue. */
  lemma InitOuter(a: Arithmetic, g: map<int, Vertex>, s: int)
    requires Closed(g) && s in g
    requires forall v :: v in g ==> g[v].distance == IntMax && g[v].previous == None
    ensures Outer(a, g, s, State(g[s := g[s].(distance := 0)], multiset{(s, 0)}, map[s := []],
                                 map x | x in g :: 0, 1))
  {
    var st := State(g[s := g[s].(distance := 0)], multiset{(s, 0)}, map[s := []], map x | x in g :: 0, 1);
    assert Weight(a, []) == 0;
    assert SameShape(g, st.vs);
    assert Witnessed(a, g, s, st.vs, st.walks);
  }

  /** Line 29: taking an entry out of the queue. */
  lemma DequeueInner(a: Arithmetic, g: map<int, Vertex>, s: int, st: State, x: int, p: int)
    requires Outer(a, g, s, st) && (x, p) in st.queue
    ensures Inner(a, g, s, st.(queue := st.queue - multiset{(x, p)}), x, 0)
  {
    var st' := st.(queue := st.queue - multiset{(x, p)});
    assert Queued(st'.vs, st'.queue);
    forall u | u in st.vs && u != x ensures DoneFor(a, st'.vs, st'.queue, u) {
      assert DoneFor(a, st.vs, st.queue, u);
    }
  }

  /** Lines 31 to 50 for an edge that does not improve its destination. */
  lemma SkipInner(a: Arithmetic, g: map<int, Vertex>, s: int, st: State, x: int, j: nat)
    requires Inner(a, g, s, st, x, j) && j < |g[x].edges|
    requires g[x].edges[j].weight >= 0
    requires !(Add(a, st.vs[x].distance, g[x].edges[j].weight) < st.vs[g[x].edges[j].destination].distance)
    ensures Inner(a, g, s, st, x, j + 1)
  {
    assert g[x].edges[j] in g[x].edges;
  }

  /** The state after edge `e` of `x` lowered the Distance of its
      destination to `nd`: Previous is `x`, the destination is queued at
      `nd`, and its walk is the walk of `x` and `e`. */
  function RelaxState(st: State, x: int, e: Edge, nd: int): State
    requires e.destination in st.vs && x in st.walks
  {
    var y := e.destination;
    State(st.vs[y := st.vs[y].(distance := nd, previous := Some(x))],
          st.queue + multiset{(y, nd)},
          st.walks[y := st.walks[x] + [Step(x, e)]],
          st.stamp[y := st.clock],
          st.clock + 1)
  }

  lemma RelaxShape(a: Arithmetic, g: map<int, Vertex>, s: int, st: State, x: int, j: nat, nd: int)
    requires Inner(a, g, s, st, x, j) && j < |g[x].edges|
    requires x in st.walks
    ensures var e := g[x].edges[j]; e.destination in st.vs && SameShape(g, RelaxState(st, x, e, nd).vs)
  {
    assert g[x].edges[j] in g[x].edges;
  }

  lemma RelaxWitnessed(a: Arithmetic, g: map<int, Vertex>, s: int, st: State, x: int, j: nat)
    requires Inner(a, g, s, st, x, j) && j < |g[x].edges|
    requires var e := g[x].edges[j]; e.weight >= 0 && Add(a, st.vs[x].distance, e.weight) < st.vs[e.destination].distance
    ensures x in st.walks && g[x].edges[j].destination in st.vs
    ensures var e := g[x].edges[j]; var nd := Add(a, st.vs[x].distance, e.weight);
            Witnessed(a, g, s, RelaxState(st, x, e, nd).vs, RelaxState(st, x, e, nd).walks)
  {
    var e := g[x].edges[j];
    assert e in g[x].edges;
    var nd := Add(a, st.vs[x].distance, e.weight);
    WalkSnoc(g, s, x, st.walks[x], e, a);
  }

  /** Relaxing edge `e` of `x` keeps the Previous links along edges. */
  lemma RelaxLinked(a: Arithmetic, g: map<int, Vertex>, s: int, vs: map<int, Vertex>, x: int, e: Edge, nd: int)
    requires x in vs && x in g && e in g[x].edges && e.destination in vs && vs[x].distance < IntMax
    requires e.weight >= 0 && (a == Unbounded ==> nd == vs[x].distance + e.weight) && nd < vs[e.destination].distance
    requires Linked(a, g, s, vs) && Bounded(a, vs)
    ensures Linked(a, g, s, vs[e.destination := vs[e.destination].(distance := nd, previous := Some(x))])
  {
    var y := e.destination;
    var ws := vs[y := vs[y].(distance := nd, previous := Some(x))];
    RelaxLinks(a, g, vs, x, e, nd);
    assert forall v :: v in ws && ws[v].distance == IntMax ==> ws[v].previous == None;
    assert forall v :: v in ws && v != s && ws[v].distance < IntMax ==> ws[v].previous.Some?;
  }

  /** The Previous links after a relaxation: the new one along `e`, the
      others as they were. */
  lemma RelaxLinks(a: Arithmetic, g: map<int, Vertex>, vs: map<int, Vertex>, x: int, e: Edge, nd: int)
    requires x in vs && x in g && e in g[x].edges && e.destination in vs && vs[x].distance < IntMax
    requires e.weight >= 0 && (a == Unbounded ==> nd == vs[x].distance + e.weight) && nd < vs[e.destination].distance
    requires forall v :: v in vs && vs[v].previous.Some? ==> PrevEdge(a, g, vs, vs[v].previous.value, v)
    ensures var ws := vs[e.destination := vs[e.destination].(distance := nd, previous := Some(x))];
            forall v :: v in ws && ws[v].previous.Some? ==> PrevEdge(a, g, ws, ws[v].previous.value, v)
  {
    var y := e.destination;
    var ws := vs[y := vs[y].(distance := nd, previous := Some(x))];
    assert x != y ==> ws[x] == vs[x];
    assert PrevEdge(a, g, ws, x, y);
    forall v | v in ws && ws[v].previous.Some?
      ensures PrevEdge(a, g, ws, ws[v].previous.value, v)
    {
      if v != y {
        RelaxKeepsPrev(a, g, vs, y, nd, x, vs[v].previous.value, v);
      }
    }
  }

  /** A link into another vertex survives the relaxation of `y`, which
      only lowers a Distance. */
  lemma RelaxKeepsPrev(a: Arithmetic, g: map<int, Vertex>, vs: map<int, Vertex>, y: int, nd: int, x: int,
                       u: int, v: int)
    requires y in vs && nd < vs[y].distance && v != y
    requires PrevEdge(a, g, vs, u, v)
    ensures PrevEdge(a, g, vs[y := vs[y].(distance := nd, previous := Some(x))], u, v)
  {
    var ws := vs[y := vs[y].(distance := nd, previous := Some(x))];
    var f :| f in g[u].edges && f.destination == v && f.weight >= 0 &&
             (a == Unbounded ==> vs[u].distance + f.weight <= vs[v].distance);
    assert f in g[u].edges && f.destination == v && f.weight >= 0 &&
           (a == Unbounded ==> ws[u].distance + f.weight <= ws[v].distance);
  }

  /** ... and, with unbounded sums, their ranking. */
  lemma RelaxStamped(a: Arithmetic, s: int, vs: map<int, Vertex>, stamp: map<int, nat>, clock: nat,
                     x: int, y: int, w: int, nd: int)
    requires x in vs && y in vs && vs[x].distance < IntMax
    requires w >= 0 && nd == Add(a, vs[x].distance, w) && nd < vs[y].distance
    requires Stamped(a, vs, stamp, clock) && Bounded(a, vs)
    ensures Stamped(a, vs[y := vs[y].(distance := nd, previous := Some(x))], stamp[y := clock], clock + 1)
  {
    var ws := vs[y := vs[y].(distance := nd, previous := Some(x))];
    var st := stamp[y := clock];
    if a == Unbounded {
      forall v | v in ws
        ensures v in st && 0 <= ws[v].distance
        ensures ws[v].previous.Some? ==> ws[v].previous.value in ws && ws[v].previous.value in st &&
                                         Before(ws, st, ws[v].previous.value, v)
      {
        if v != y && ws[v].previous.Some? {
          var u := vs[v].previous.value;
          assert Before(vs, stamp, u, v);
        }
      }
    }
  }

  /** Lowering the Distance of `y` to `nd` and queueing it keeps the
      queue sound and every vertex but `x` done. */
  lemma RelaxDone(a: Arithmetic, vs: map<int, Vertex>, queue: multiset<(int, int)>, x: int, y: int, nd: int)
    requires y in vs && nd < vs[y].distance <= IntMax
    requires Queued(vs, queue) && forall u :: u in vs && u != x ==> DoneFor(a, vs, queue, u)
    ensures var ws := vs[y := vs[y].(distance := nd, previous := Some(x))];
            && Queued(ws, queue + multiset{(y, nd)})
            && forall u :: u in ws && u != x ==> DoneFor(a, ws, queue + multiset{(y, nd)}, u)
  {
    var ws := vs[y := vs[y].(distance := nd, previous := Some(x))];
    var q := queue + multiset{(y, nd)};
    forall u | u in ws && u != x ensures DoneFor(a, ws, q, u) {
      if u != y && ws[u].distance < IntMax && (u, ws[u].distance) !in q {
        assert DoneFor(a, vs, queue, u);
        forall f | f in ws[u].edges ensures EdgeOk(a, ws, u, f) {
          assert EdgeOk(a, vs, u, f);
        }
      }
    }
  }

  /** ... and the edges of `x` up to the relaxed one are done. */
  lemma RelaxDoneSelf(a: Arithmetic, g: map<int, Vertex>, vs: map<int, Vertex>, queue: multiset<(int, int)>,
                      x: int, j: nat, nd: int)
    requires x in vs && x in g && j < |g[x].edges|
    requires var e := g[x].edges[j];
             e.destination in vs && e.weight >= 0 && nd == Add(a, vs[x].distance, e.weight) && nd < vs[e.destination].distance
    requires (x, vs[x].distance) in queue || forall k :: 0 <= k < j ==> EdgeOk(a, vs, x, g[x].edges[k])
    ensures var y := g[x].edges[j].destination;
            var ws := vs[y := vs[y].(distance := nd, previous := Some(x))];
            (x, ws[x].distance) in queue + multiset{(y, nd)} || forall k :: 0 <= k < j + 1 ==> EdgeOk(a, ws, x, g[x].edges[k])
  {
    var y := g[x].edges[j].destination;
    var ws := vs[y := vs[y].(distance := nd, previous := Some(x))];
    if y != x && (x, vs[x].distance) !in queue {
      forall k | 0 <= k < j + 1 ensures EdgeOk(a, ws, x, g[x].edges[k]) {
        if k < j {
          assert EdgeOk(a, vs, x, g[x].edges[k]);
        }
      }
    }
  }

  /** Lines 42 to 48 for an edge that improves its destination. */
  lemma RelaxInner(a: Arithmetic, g: map<int, Vertex>, s: int, st: State, x: int, j: nat)
    requires Inner(a, g, s, st, x, j) && j < |g[x].edges|
    requires var e := g[x].edges[j]; e.weight >= 0 && Add(a, st.vs[x].distance, e.weight) < st.vs[e.destination].distance
    ensures x in st.walks && g[x].edges[j].destination in st.vs
    ensures var e := g[x].edges[j]; Inner(a, g, s, RelaxState(st, x, e, Add(a, st.vs[x].distance, e.weight)), x, j + 1)
  {
    var e := g[x].edges[j];
    var nd := Add(a, st.vs[x].distance, e.weight);
    RelaxShared(a, g, s, st, x, j);
    RelaxDone(a, st.vs, st.queue, x, e.destination, nd);
    RelaxDoneSelf(a, g, st.vs, st.queue, x, j, nd);
  }

  /** The invariants both loops share survive a relaxation. */
  lemma RelaxShared(a: Arithmetic, g: map<int, Vertex>, s: int, st: State, x: int, j: nat)
    requires Inner(a, g, s, st, x, j) && j < |g[x].edges|
    requires var e := g[x].edges[j]; e.weight >= 0 && Add(a, st.vs[x].distance, e.weight) < st.vs[e.destination].distance
    ensures x in st.walks && g[x].edges[j].destination in st.vs
    ensures var e := g[x].edges[j]; Shared(a, g, s, RelaxState(st, x, e, Add(a, st.vs[x].distance, e.weight)))
  {
    var e := g[x].edges[j];
    var y := e.destination;
    var nd := Add(a, st.vs[x].distance, e.weight);
    RelaxShape(a, g, s, st, x, j, nd);
    RelaxWitnessed(a, g, s, st, x, j);
    assert e in g[x].edges;
    RelaxLinked(a, g, s, st.vs, x, e, nd);
    RelaxStamped(a, s, st.vs, st.stamp, st.clock, x, y, e.weight, nd);
    RelaxDone(a, st.vs, st.queue, x, y, nd);
    Wrap32Means(st.vs[x].distance + e.weight);
    assert Bounded(a, RelaxState(st, x, e, nd).vs);
  }

  /** After the last edge of `x`. */
  lemma FinishOuter(a: Arithmetic, g: map<int, Vertex>, s: int, st: State, x: int)
    requires x in g && Inner(a, g, s, st, x, |g[x].edges|)
    ensures Outer(a, g, s, st)
  {
    assert DoneFor(a, st.vs, st.queue, x) by {
      if (x, st.vs[x].distance) !in st.queue {
        forall e | e in st.vs[x].edges ensures EdgeOk(a, st.vs, x, e) {
          var k :| 0 <= k < |g[x].edges| && g[x].edges[k] == e;
        }
      }
    }
  }

  // ---------------------------------------------------------------------
  // Termination: the sum of the Distances above int.MinValue.

  ghost function Gap(d: int): nat {
    if d < IntMin then 0 else d - IntMin
  }

  ghost function Potential(vs: map<int, Vertex>, ks: seq<int>): nat
    requires forall k :: 0 <= k < |ks| ==> ks[k] in vs
  {
    if ks == [] then 0 else Gap(vs[ks[0]].distance) + Potential(vs, ks[1..])
  }

  /** Lowering one Distance lowers the potential. */
  lemma {:induction false} PotentialLower(vs: map<int, Vertex>, ks: seq<int>, y: int, nv: Vertex)
    requires forall k :: 0 <= k < |ks| ==> ks[k] in vs
    requires y in vs && IntMin <= nv.distance < vs[y].distance
    ensures Potential(vs[y := nv], ks) <= Potential(vs, ks)
    ensures y in ks ==> Potential(vs[y := nv], ks) < Potential(vs, ks)
  {
    if ks != [] {
      PotentialLower(vs, ks[1..], y, nv);
      assert ks[0] != y ==> y in ks ==> y in ks[1..];
    }
  }

  /** The ids of a set, in some order. */
  ghost method KeySeq(s: set<int>) returns (ks: seq<int>)
    ensures forall x :: x in ks <==> x in s
    ensures forall k :: 0 <= k < |ks| ==> ks[k] in s
  {
    ks := [];
    var rest := s;
    while rest != {}
      invariant rest <= s
      invariant forall x :: x in ks <==> x in s && x !in rest
      decreases rest
    {
      NonEmptyHasElement(rest);
      var x :| x in rest;
      ks := ks + [x];
      rest := rest - {x};
    }
  }

  /** A non-empty queue has an entry of least priority. */
  lemma {:induction false} LeastEntry(q: multiset<(int, int)>)
    requires |q| > 0
    ensures exists e :: e in q && forall f :: f in q ==> e.1 <= f.1
    decreases |q|
  {
    var e :| e in q;
    var rest := q - multiset{e};
    assert q == rest + multiset{e};
    if |rest| == 0 {
      assert forall f :: f in q ==> f == e by {
        assert rest == multiset{};
      }
      assert e in q && forall f :: f in q ==> e.1 <= f.1;
    } else {
      LeastEntry(rest);
      var m :| m in rest && forall f :: f in rest ==> m.1 <= f.1;
      var best := if e.1 <= m.1 then e else m;
      assert forall f :: f in q ==> f in rest || f == e;
      assert best in q && forall f :: f in q ==> best.1 <= f.1;
    }
  }

  // ---------------------------------------------------------------------
  // What a run leaves behind, stated on the dictionary alone.

  /** Every reached vertex has a non-negative walk from `s` that weighs its
      Distance. */
  ghost predicate Reached(a: Arithmetic, s: int, vs: map<int, Vertex>) {
    forall v :: v in vs && vs[v].distance < IntMax ==>
      exists p :: IsWalk(vs, s, v, p) && Nonneg(p) && Weight(a, p) == vs[v].distance
  }

  /** Every reached vertex has only non-negative edges, none of which can
      lower the Distance of its destination. */
  ghost predicate Settled(a: Arithmetic, vs: map<int, Vertex>) {
    forall u :: u in vs && vs[u].distance < IntMax ==> Relaxed(a, vs, u)
  }

  /** Some vertex with a negative edge is reachable from `s` by a
      non-negative walk lighter than int.MaxValue. */
  ghost predicate NegativeReachable(s: int, vs: map<int, Vertex>) {
    exists v, p :: v in vs && IsWalk(vs, s, v, p) && Nonneg(p) && Weight(Unbounded, p) < IntMax &&
                   exists e :: e in vs[v].edges && e.weight < 0
  }

  /** The state a run without a negative edge leaves, with unbounded sums. */
  ghost predicate Solved(s: int, vs: map<int, Vertex>) {
    && s in vs && Closed(vs)
    && Bounded(Unbounded, vs)
    && Reached(Unbounded, s, vs)
    && Linked(Unbounded, vs, s, vs)
    && Settled(Unbounded, vs)
  }

  lemma SameShapeSymmetric(g: map<int, Vertex>, h: map<int, Vertex>)
    requires SameShape(g, h)
    ensures SameShape(h, g)
  {
  }

  /** The shared invariant, moved from the reset dictionary to the current
      one. */
  lemma Conclude(a: Arithmetic, g: map<int, Vertex>, s: int, st: State)
    requires Shared(a, g, s, st)
    ensures Closed(st.vs) && s in st.vs
    ensures Reached(a, s, st.vs) && Linked(a, st.vs, s, st.vs)
  {
    var vs := st.vs;
    forall v | v in vs && vs[v].distance < IntMax
      ensures exists p :: IsWalk(vs, s, v, p) && Nonneg(p) && Weight(a, p) == vs[v].distance
    {
      WalkSameShape(g, vs, s, v, st.walks[v]);
    }
    forall v | v in vs && vs[v].previous.Some?
      ensures PrevEdge(a, vs, vs, vs[v].previous.value, v)
    {
      var u := vs[v].previous.value;
      assert PrevEdge(a, g, vs, u, v);
      var e :| e in g[u].edges && e.destination == v && e.weight >= 0 &&
               (a == Unbounded ==> vs[u].distance + e.weight <= vs[v].distance);
      assert e in vs[u].edges;
    }
    forall x, e | x in vs && e in vs[x].edges ensures e.destination in vs {
      assert e in g[x].edges;
    }
  }

  /** The dictionary after the reset loop. */
  lemma ResetMeans(vs: map<int, Vertex>)
    requires Closed(vs)
    ensures Closed(Reset(vs)) && SameShape(vs, Reset(vs))
    ensures forall v :: v in Reset(vs) ==> Reset(vs)[v].distance == IntMax && Reset(vs)[v].previous == None
  {
  }

  /** What a run that got past the start check leaves: the dictionary has
      the shape it had, the invariant holds on it, a completed run has
      settled every reached vertex and a stopped one reached a negative
      edge. */
  ghost predicate RunEnd(a: Arithmetic, g: map<int, Vertex>, s: int, vs: map<int, Vertex>,
                         stamp: map<int, nat>, r: Outcome) {
    && (r == Pass || r == Fail(InvalidOperation))
    && Closed(vs) && s in vs && SameShape(g, vs)
    && Bounded(a, vs)
    && Reached(a, s, vs)
    && Linked(a, vs, s, vs)
    && (a == Unbounded ==> Ranked(vs, stamp))
    && (r == Pass ==> Settled(a, vs))
    && (r == Fail(InvalidOperation) ==>
          exists u, e :: u in vs && vs[u].distance < IntMax && e in vs[u].edges && e.weight < 0)
  }

  /** An empty queue ends the run: every reached vertex is settled. */
  lemma DrainedEnd(a: Arithmetic, g: map<int, Vertex>, s: int, st: State)
    requires Outer(a, g, s, st) && |st.queue| == 0
    ensures RunEnd(a, g, s, st.vs, st.stamp, Pass)
  {
    Conclude(a, g, s, st);
    forall u | u in st.vs && st.vs[u].distance < IntMax
      ensures Relaxed(a, st.vs, u)
    {
      assert DoneFor(a, st.vs, st.queue, u);
    }
  }

  /** A negative edge of the dequeued vertex ends the run. */
  lemma StoppedEnd(a: Arithmetic, g: map<int, Vertex>, s: int, st: State, x: int, j: nat)
    requires Inner(a, g, s, st, x, j) && j < |g[x].edges| && g[x].edges[j].weight < 0
    ensures RunEnd(a, g, s, st.vs, st.stamp, Fail(InvalidOperation))
  {
    Conclude(a, g, s, st);
    var e := g[x].edges[j];
    assert e in g[x].edges;
    NegativeFound(a, s, st.vs, x, e);
  }

  /** Dijkstra(graph, startId): an unknown start throws ArgumentException
      and changes nothing. Otherwise every vertex is reset, the start gets
      Distance 0 and is queued, and the queue is drained. The result pairs
      the outcome with a ghost ranking of the Previous links. */
  method Dijkstra(graph: Graaf, startId: int, a: Arithmetic) returns (r: Outcome, ghost stamp: map<int, nat>)
    requires graph.Valid()
    modifies graph
    ensures graph.Valid()
    ensures startId !in old(graph.vertices) ==> r == Fail(Argument) && graph.vertices == old(graph.vertices)
    ensures startId in old(graph.vertices) ==> RunEnd(a, old(graph.vertices), startId, graph.vertices, stamp, r)
    ensures startId in old(graph.vertices) && a == Unbounded ==>
              (r == Pass <==> Solved(startId, graph.vertices)) &&
              (r == Fail(InvalidOperation) <==> NegativeReachable(startId, graph.vertices))
  {
    stamp := map[];
    if startId !in graph.vertices {
      return Fail(Argument), stamp;
    }
    ghost var v0 := graph.vertices;
    ResetDistances(graph);
    ResetMeans(v0);
    ghost var g := graph.vertices;
    var sv := graph.vertices[startId];
    graph.vertices := graph.vertices[startId := sv.(distance := 0)];
    var queue := multiset{(startId, 0)};
    InitOuter(a, g, startId);
    r, stamp := Drain(graph, a, g, startId, queue, map[startId := []], map x | x in g :: 0, 1);
    SameShapeTrans(v0, g, graph.vertices);
    if a == Unbounded {
      UnboundedEnd(g, startId, graph.vertices, stamp, r);
    }
  }

  /** With unbounded sums a run completes exactly when no negative edge is
      reachable. */
  lemma UnboundedEnd(g: map<int, Vertex>, s: int, vs: map<int, Vertex>, stamp: map<int, nat>, r: Outcome)
    requires RunEnd(Unbounded, g, s, vs, stamp, r)
    ensures r == Pass <==> Solved(s, vs)
    ensures r == Fail(InvalidOperation) <==> NegativeReachable(s, vs)
  {
    if r == Pass {
      NoNegativeReachable(s, vs);
    } else {
      var u, e :| u in vs && vs[u].distance < IntMax && e in vs[u].edges && e.weight < 0;
      NegativeFound(Unbounded, s, vs, u, e);
    }
  }

  lemma SameShapeTrans(f: map<int, Vertex>, g: map<int, Vertex>, h: map<int, Vertex>)
    requires SameShape(f, g) && SameShape(g, h)
    ensures SameShape(f, h)
  {
  }

  /** Lines 14 to 19: Distance int.MaxValue and no Previous on every
      vertex. */
  method ResetDistances(graph: Graaf)
    modifies graph
    ensures graph.vertices == Reset(old(graph.vertices))
  {
    ghost var v0 := graph.vertices;
    var rest := graph.vertices.Keys;
    while rest != {}
      invariant rest <= v0.Keys && graph.vertices.Keys == v0.Keys
      invariant forall x :: x in graph.vertices ==>
                  graph.vertices[x] == if x in rest then v0[x] else Reset(v0)[x]
      decreases rest
    {
      NonEmptyHasElement(rest);
      var x :| x in rest;
      var v := graph.vertices[x];
      graph.vertices := graph.vertices[x := v.(distance := IntMax, previous := None)];
      rest := rest - {x};
    }
    assert graph.vertices.Keys == Reset(v0).Keys;
    assert forall x :: x in graph.vertices ==> graph.vertices[x] == Reset(v0)[x];
  }

  /** Lines 27 to 51: dequeue an entry of least priority and relax the
      edges of its vertex until the queue is empty or a negative edge is
      met. */
  method Drain(graph: Graaf, a: Arithmetic, ghost g: map<int, Vertex>, s: int, queue0: multiset<(int, int)>,
               ghost walks0: map<int, seq<Step>>, ghost stamp0: map<int, nat>, ghost clock0: nat)
    returns (r: Outcome, ghost stamp: map<int, nat>)
    requires Outer(a, g, s, State(graph.vertices, queue0, walks0, stamp0, clock0))
    modifies graph
    ensures RunEnd(a, g, s, graph.vertices, stamp, r)
    ensures graph.Valid()
  {
    var queue := queue0;
    ghost var walks, clock := walks0, clock0;
    stamp := stamp0;
    ghost var ks := KeySeq(g.Keys);
    while |queue| > 0
      invariant Outer(a, g, s, State(graph.vertices, queue, walks, stamp, clock))
      invariant forall k :: 0 <= k < |ks| ==> ks[k] in graph.vertices
      invariant forall x :: x in graph.vertices ==> x in ks
      decreases Potential(graph.vertices, ks), |queue|
    {
      LeastEntry(queue);
      var least :| least in queue && forall f :: f in queue ==> least.1 <= f.1;
      var x, p := least.0, least.1;
      DequeueInner(a, g, s, State(graph.vertices, queue, walks, stamp, clock), x, p);
      queue := queue - multiset{(x, p)};
      var failed;
      ghost var q0 := queue;
      failed, queue, walks, stamp, clock := RelaxEdges(graph, a, g, s, x, queue, walks, stamp, clock, ks);
      if failed {
        return Fail(InvalidOperation), stamp;
      }
    }
    DrainedEnd(a, g, s, State(graph.vertices, queue, walks, stamp, clock));
    return Pass, stamp;
  }

  /** Lines 31 to 50: the edges of the dequeued vertex `x` in order. A
      negative one stops the run; any other lowers the Distance of its
      destination when Distance + Weight is smaller, sets its Previous to
      `x` and queues it. */
  method RelaxEdges(graph: Graaf, a: Arithmetic, ghost g: map<int, Vertex>, s: int, x: int,
                    queue0: multiset<(int, int)>, ghost walks0: map<int, seq<Step>>,
                    ghost stamp0: map<int, nat>, ghost clock0: nat, ghost ks: seq<int>)
    returns (failed: bool, queue: multiset<(int, int)>, ghost walks: map<int, seq<Step>>,
             ghost stamp: map<int, nat>, ghost clock: nat)
    requires Inner(a, g, s, State(graph.vertices, queue0, walks0, stamp0, clock0), x, 0)
    requires forall k :: 0 <= k < |ks| ==> ks[k] in graph.vertices
    requires forall x :: x in graph.vertices ==> x in ks
    modifies graph
    ensures failed ==> RunEnd(a, g, s, graph.vertices, stamp, Fail(InvalidOperation)) && graph.Valid()
    ensures !failed ==> Outer(a, g, s, State(graph.vertices, queue, walks, stamp, clock))
    ensures forall k :: 0 <= k < |ks| ==> ks[k] in graph.vertices
    ensures forall x :: x in graph.vertices ==> x in ks
    ensures Potential(graph.vertices, ks) <= Potential(old(graph.vertices), ks)
    ensures !failed ==> Potential(graph.vertices, ks) < Potential(old(graph.vertices), ks) || queue == queue0
  {
    queue, walks, stamp, clock := queue0, walks0, stamp0, clock0;
    ghost var pot0 := Potential(graph.vertices, ks);
    var currentVertex := graph.vertices[x];
    var edges := currentVertex.edges;
    var j := 0;
    while j < |edges|
      invariant x in g && edges == g[x].edges
      invariant Inner(a, g, s, State(graph.vertices, queue, walks, stamp, clock), x, j)
      invariant forall k :: 0 <= k < |ks| ==> ks[k] in graph.vertices
      invariant forall x :: x in graph.vertices ==> x in ks
      invariant Potential(graph.vertices, ks) <= pot0
      invariant Potential(graph.vertices, ks) < pot0 || queue == queue0
    {
      var edge := edges[j];
      if edge.weight < 0 {
        StoppedEnd(a, g, s, State(graph.vertices, queue, walks, stamp, clock), x, j);
        return true, queue, walks, stamp, clock;
      }
      assert edge in g[x].edges;
      var neighbor := graph.vertices[edge.destination];
      var newDistance := Add(a, graph.vertices[x].distance, edge.weight);
      if newDistance < neighbor.distance {
        ghost var st := State(graph.vertices, queue, walks, stamp, clock);
        RelaxInner(a, g, s, st, x, j);
        Wrap32Means(graph.vertices[x].distance + edge.weight);
        PotentialLower(graph.vertices, ks, edge.destination,
                       neighbor.(distance := newDistance, previous := Some(x)));
        graph.vertices := graph.vertices[edge.destination := neighbor.(distance := newDistance, previous := Some(x))];
        queue := queue + multiset{(edge.destination, newDistance)};
        walks := walks[edge.destination := walks[x] + [Step(x, edge)]];
        stamp := stamp[edge.destination := clock];
        clock := clock + 1;
      } else {
        SkipInner(a, g, s, State(graph.vertices, queue, walks, stamp, clock), x, j);
      }
      j := j + 1;
    }
    FinishOuter(a, g, s, State(graph.vertices, queue, walks, stamp, clock), x);
    failed := false;
  }

  /** The vertex whose negative edge stopped a run was reached, so a
      non-negative walk weighing its Distance leads to it. */
  lemma NegativeFound(a: Arithmetic, s: int, vs: map<int, Vertex>, x: int, e: Edge)
    requires Reached(a, s, vs) && Bounded(a, vs)
    requires x in vs && vs[x].distance < IntMax && e in vs[x].edges && e.weight < 0
    ensures exists u, f :: u in vs && vs[u].distance < IntMax && f in vs[u].edges && f.weight < 0
    ensures a == Unbounded ==> NegativeReachable(s, vs)
  {
    var p :| IsWalk(vs, s, x, p) && Nonneg(p) && Weight(a, p) == vs[x].distance;
    assert e in vs[x].edges && e.weight < 0;
  }

  // ---------------------------------------------------------------------
  // What a run with unbounded sums computes.

  /** No non-negative walk from the start is lighter than the Distance at
      its end. */
  lemma {:induction false} WalkBound(s: int, vs: map<int, Vertex>, v: int, p: seq<Step>)
    requires Solved(s, vs) && v in vs && IsWalk(vs, s, v, p) && Nonneg(p)
    ensures vs[v].distance <= Weight(Unbounded, p)
    decreases |p|
  {
    if p != [] {
      var last := p[|p| - 1];
      var q := p[..|p| - 1];
      var u := last.from;
      assert Nonneg(q) by {
        forall k | 0 <= k < |q| ensures q[k].edge.weight >= 0 {
          assert q[k] == p[k];
        }
      }
      assert last.edge.weight >= 0 by {
        assert p[|p| - 1] == last;
      }
      WalkBound(s, vs, u, q);
      if vs[u].distance < IntMax {
        assert EdgeOk(Unbounded, vs, u, last.edge);
      }
    }
  }

  /** With unbounded sums, Distance is the weight of a lightest
      non-negative walk from the start: no such walk is lighter, one
      weighs exactly that, and a vertex is left at int.MaxValue exactly
      when every such walk to it weighs int.MaxValue or more. */
  lemma ShortestDistances(s: int, vs: map<int, Vertex>)
    requires Solved(s, vs)
    ensures forall v, p :: v in vs && IsWalk(vs, s, v, p) && Nonneg(p) ==> vs[v].distance <= Weight(Unbounded, p)
    ensures forall v :: v in vs && vs[v].distance < IntMax ==>
              exists p :: IsWalk(vs, s, v, p) && Nonneg(p) && Weight(Unbounded, p) == vs[v].distance
    ensures forall v :: v in vs ==>
              (vs[v].distance < IntMax <==> exists p :: IsWalk(vs, s, v, p) && Nonneg(p) && Weight(Unbounded, p) < IntMax)
  {
    forall v, p | v in vs && IsWalk(vs, s, v, p) && Nonneg(p)
      ensures vs[v].distance <= Weight(Unbounded, p)
    {
      WalkBound(s, vs, v, p);
    }
  }

  /** After a run without a throw, no vertex reachable within int range by
      non-negative edges has a negative edge. */
  lemma NoNegativeReachable(s: int, vs: map<int, Vertex>)
    requires Solved(s, vs)
    ensures !NegativeReachable(s, vs)
  {
    if NegativeReachable(s, vs) {
      var v, p :| v in vs && IsWalk(vs, s, v, p) && Nonneg(p) && Weight(Unbounded, p) < IntMax &&
                  exists e :: e in vs[v].edges && e.weight < 0;
      var e :| e in vs[v].edges && e.weight < 0;
      WalkBound(s, vs, v, p);
    }
  }

  // ---------------------------------------------------------------------
  // GetShortestPath.

  /** `path` lists the Previous links in order: its first vertex has none,
      and each later one has the one before it. */
  ghost predicate PrevChain(vs: map<int, Vertex>, path: seq<int>) {
    && |path| > 0
    && (forall k :: 0 <= k < |path| ==> path[k] in vs)
    && vs[path[0]].previous == None
    && (forall k :: 0 <= k < |path| - 1 ==> vs[path[k + 1]].previous == Some(path[k]))
  }

  /** GetShortestPath(target): prepend the id of `current` and move to its
      Previous until there is none. The ghost `stamp` ranks the links, so
      the walk back ends. */
  method GetShortestPath(vs: map<int, Vertex>, target: int, ghost stamp: map<int, nat>) returns (path: seq<int>)
    requires target in vs && Ranked(vs, stamp)
    ensures PrevChain(vs, path) && path[|path| - 1] == target
    ensures vs[target].previous == None ==> path == [target]
  {
    path := [];
    var current: Option<int> := Some(target);
    while current.Some?
      invariant current.Some? ==> current.value in vs && current.value in stamp
      invariant forall k :: 0 <= k < |path| ==> path[k] in vs
      invariant path == [] ==> current == Some(target)
      invariant path != [] ==> path[|path| - 1] == target && vs[path[0]].previous == current
      invariant forall k :: 0 <= k < |path| - 1 ==> vs[path[k + 1]].previous == Some(path[k])
      invariant vs[target].previous == None ==> |path| <= 1 && (path != [] ==> current == None)
      decreases if current.Some? then 1 else 0,
                if current.Some? then vs[current.value].distance else 0,
                if current.Some? && current.value in stamp then stamp[current.value] else 0
    {
      var c := current.value;
      path := [c] + path;
      current := vs[c].previous;
    }
  }

  /** A chain of Previous links that ends at a reached vertex starts at
      the start. */
  lemma ChainStart(s: int, vs: map<int, Vertex>, path: seq<int>)
    requires Linked(Unbounded, vs, s, vs) && PrevChain(vs, path) && vs[path[|path| - 1]].distance < IntMax
    ensures path[0] == s
  {
    if |path| > 1 {
      assert vs[path[1]].previous == Some(path[0]);
      assert PrevEdge(Unbounded, vs, vs, path[0], path[1]);
    }
  }

  /** The edges along such a chain make a walk from the start that weighs
      no more than the Distance at its end. */
  lemma {:induction false} ChainWalk(s: int, vs: map<int, Vertex>, path: seq<int>) returns (p: seq<Step>)
    requires Linked(Unbounded, vs, s, vs) && PrevChain(vs, path) && vs[path[|path| - 1]].distance < IntMax
    ensures |p| == |path| - 1 && forall k :: 0 <= k < |p| ==> p[k].from == path[k]
    ensures IsWalk(vs, s, path[|path| - 1], p) && Nonneg(p)
    ensures Weight(Unbounded, p) <= vs[path[|path| - 1]].distance
    decreases |path|
  {
    var n := |path| - 1;
    ChainStart(s, vs, path);
    if n == 0 {
      p := [];
    } else {
      var u, v := path[n - 1], path[n];
      assert vs[v].previous == Some(u);
      assert PrevEdge(Unbounded, vs, vs, u, v);
      var e :| e in vs[u].edges && e.destination == v && e.weight >= 0 && vs[u].distance + e.weight <= vs[v].distance;
      assert PrevChain(vs, path[..n]);
      var q := ChainWalk(s, vs, path[..n]);
      p := q + [Step(u, e)];
      WalkSnoc(vs, s, u, q, e, Unbounded);
    }
  }

  /** After a run with unbounded sums, the path to a reached vertex starts
      at the start and follows edges, and it is a lightest walk: the walk
      along its edges weighs the Distance of its last vertex. */
  lemma PathFromStart(s: int, vs: map<int, Vertex>, path: seq<int>) returns (p: seq<Step>)
    requires Solved(s, vs) && PrevChain(vs, path) && vs[path[|path| - 1]].distance < IntMax
    ensures path[0] == s
    ensures |p| == |path| - 1 && forall k :: 0 <= k < |p| ==> p[k].from == path[k]
    ensures IsWalk(vs, s, path[|path| - 1], p) && Nonneg(p)
    ensures Weight(Unbounded, p) == vs[path[|path| - 1]].distance
  {
    ChainStart(s, vs, path);
    p := ChainWalk(s, vs, path);
    WalkBound(s, vs, path[|path| - 1], p);
  }

  // ---------------------------------------------------------------------
  // The overflow of line 40, on the graph 0 -> 1 -> 2.

  /** The edges of the graph built by AddEdge(0, 1, int.MaxValue - 1) and
      AddEdge(1, 2, 2). */
  ghost predicate ChainShape(vs: map<int, Vertex>) {
    && vs.Keys == {0, 1, 2}
    && vs[0].edges == [Edge(1, IntMax - 1)]
    && vs[1].edges == [Edge(2, 2)]
    && vs[2].edges == []
  }

  lemma WalksToZero(vs: map<int, Vertex>, p: seq<Step>)
    requires ChainShape(vs) && IsWalk(vs, 0, 0, p)
    ensures p == []
  {
  }

  lemma WalksToOne(vs: map<int, Vertex>, p: seq<Step>)
    requires ChainShape(vs) && IsWalk(vs, 0, 1, p)
    ensures p == [Step(0, Edge(1, IntMax - 1))]
  {
    var last := p[|p| - 1];
    assert last.edge in vs[last.from].edges;
    assert last.from == 0;
    WalksToZero(vs, p[..|p| - 1]);
    assert p == p[..|p| - 1] + [last];
  }

  lemma WalksToTwo(vs: map<int, Vertex>, p: seq<Step>)
    requires ChainShape(vs) && IsWalk(vs, 0, 2, p)
    ensures Weight(Unbounded, p) == IntMax + 1
  {
    var last := p[|p| - 1];
    assert last.edge in vs[last.from].edges;
    assert last.from == 1 && last.edge == Edge(2, 2);
    var q := p[..|p| - 1];
    WalksToOne(vs, q);
    assert q[..0] == [];
    assert Weight(Unbounded, q) == IntMax - 1;
  }

  /** The two AddEdge calls build that shape. */
  lemma ChainBuilt()
    ensures ChainShape(WithEdge(WithEdge(map[], 0, 1, IntMax - 1), 1, 2, 2))
  {
    WithEdgeMeans(map[], 0, 1, IntMax - 1);
    WithEdgeMeans(WithEdge(map[], 0, 1, IntMax - 1), 1, 2, 2);
  }

  /** No edge of the shape is negative. */
  lemma ChainNonneg(vs: map<int, Vertex>)
    requires ChainShape(vs)
    ensures !exists u, e :: u in vs && vs[u].distance < IntMax && e in vs[u].edges && e.weight < 0
  {
  }

  /** As written: vertex 2 ends at int.MinValue. */
  lemma ChainWraps(vs: map<int, Vertex>)
    requires ChainShape(vs) && 0 in vs && vs[0].distance <= 0
    requires Bounded(Int32, vs) && Reached(Int32, 0, vs) && Settled(Int32, vs)
    ensures vs[2].distance == IntMin
  {
    var p0 :| IsWalk(vs, 0, 0, p0) && Nonneg(p0) && Weight(Int32, p0) == vs[0].distance;
    WalksToZero(vs, p0);
    assert EdgeOk(Int32, vs, 0, Edge(1, IntMax - 1));
    Wrap32Means(IntMax - 1);
    var p1 :| IsWalk(vs, 0, 1, p1) && Nonneg(p1) && Weight(Int32, p1) == vs[1].distance;
    WalksToOne(vs, p1);
    assert p1[..0] == [];
    assert EdgeOk(Int32, vs, 1, Edge(2, 2));
    Wrap32Means(IntMax + 1);
  }

  /** With unbounded sums: the only walk to 2 is too heavy, so 2 is
      left at int.MaxValue. */
  lemma ChainUnreached(vs: map<int, Vertex>)
    requires ChainShape(vs) && Solved(0, vs)
    ensures vs[2].distance == IntMax
  {
    ShortestDistances(0, vs);
    if vs[2].distance < IntMax {
      var p :| IsWalk(vs, 0, 2, p) && Nonneg(p) && Weight(Unbounded, p) < IntMax;
      WalksToTwo(vs, p);
    }
  }

  /** Dijkstra from 0 on the graph 0 -> 1 (weight int.MaxValue - 1) ->
      2 (weight 2). The only walk to 2 weighs int.MaxValue + 1. As
      written, the sum at line 40 wraps around and vertex 2 is given
      Distance int.MinValue, below the Distance of 0; with unbounded sums
      it stays unreached at int.MaxValue. */
  method OverflowScenario(a: Arithmetic) returns (r: Outcome, d2: int)
    ensures r == Pass
    ensures a == Int32 ==> d2 == IntMin
    ensures a == Unbounded ==> d2 == IntMax
  {
    var graph := new Graaf();
    graph.AddEdge(0, 1, IntMax - 1);
    graph.AddEdge(1, 2, 2);
    ChainBuilt();
    ghost var stamp;
    r, stamp := Dijkstra(graph, 0, a);
    ChainNonneg(graph.vertices);
    if a == Int32 {
      ChainWraps(graph.vertices);
    } else {
      ChainUnreached(graph.vertices);
    }
    d2 := graph.vertices[2].distance;
  }

  // ---------------------------------------------------------------------
  // A cycle of Previous links from the same overflow, on 0 -> 1 -> 2 -> 1.

  /** The edges of the graph built by AddEdge(0, 1, int.MaxValue - 1),
      AddEdge(1, 2, 2) and AddEdge(2, 1, 0). */
  ghost predicate LoopShape(vs: map<int, Vertex>) {
    && vs.Keys == {0, 1, 2}
    && (forall x :: x in vs ==> vs[x].id == x)
    && vs[0].edges == [Edge(1, IntMax - 1)]
    && vs[1].edges == [Edge(2, 2)]
    && vs[2].edges == [Edge(1, 0)]
  }

  /** The three AddEdge calls build that shape. */
  lemma LoopBuilt()
    ensures LoopShape(WithEdge(WithEdge(WithEdge(map[], 0, 1, IntMax - 1), 1, 2, 2), 2, 1, 0))
  {
    var g1 := WithEdge(map[], 0, 1, IntMax - 1);
    var g2 := WithEdge(g1, 1, 2, 2);
    WithEdgeMeans(map[], 0, 1, IntMax - 1);
    WithEdgeMeans(g1, 1, 2, 2);
    WithEdgeMeans(g2, 2, 1, 0);
  }

  /** With unbounded sums, every walk from 0 to 1 weighs at least
      int.MaxValue - 1 and every walk to 2 at least int.MaxValue + 1; the
      only walk to 0 is empty. */
  lemma {:induction false} LoopWalks(vs: map<int, Vertex>, v: int, p: seq<Step>)
    requires LoopShape(vs) && IsWalk(vs, 0, v, p)
    ensures v == 0 ==> p == []
    ensures v == 1 ==> Weight(Unbounded, p) >= IntMax - 1
    ensures v == 2 ==> Weight(Unbounded, p) >= IntMax + 1
    decreases |p|
  {
    if p != [] {
      var last := p[|p| - 1];
      assert last.edge in vs[last.from].edges;
      LoopWalks(vs, last.from, p[..|p| - 1]);
    }
  }

  /** The dictionary the C# run from 0 ends with, following lines 27 to
      51 with C# int sums:
      - (0, 0) is dequeued and 1 gets int.MaxValue - 1, Previous 0;
      - (1, int.MaxValue - 1): the sum for 1 -> 2 wraps to int.MinValue,
        so 2 gets int.MinValue, Previous 1;
      - (2, int.MinValue): 2 -> 1 sums to int.MinValue, below the Distance
        of 1, so 1 gets int.MinValue, Previous 2;
      - (1, int.MinValue): 1 -> 2 sums to int.MinValue + 2, which is not
        smaller, and the queue is empty. */
  function LoopEnd(g: map<int, Vertex>): map<int, Vertex>
    requires 0 in g && 1 in g && 2 in g
  {
    g[0 := g[0].(distance := 0, previous := None)]
     [1 := g[1].(distance := IntMin, previous := Some(2))]
     [2 := g[2].(distance := IntMin, previous := Some(1))]
  }

  /** Walking back along Previous links that join 1 and 2 to each other
      never leaves them. */
  lemma {:induction false} LoopChain(vs: map<int, Vertex>, path: seq<int>, k: int)
    requires 1 in vs && 2 in vs && vs[1].previous == Some(2) && vs[2].previous == Some(1)
    requires PrevChain(vs, path) && (path[|path| - 1] == 1 || path[|path| - 1] == 2)
    requires 0 <= k < |path|
    ensures path[k] == 1 || path[k] == 2
    decreases |path| - k
  {
    if k < |path| - 1 {
      LoopChain(vs, path, k + 1);
      assert vs[path[k + 1]].previous == Some(path[k]);
    }
  }

  /** The walks the run's Distances are the weights of: p1 to 1 by its
      first edge, p2 on to 2, p3 back to 1. */
  lemma LoopWalksWrap(vs: map<int, Vertex>)
    requires LoopShape(vs)
    ensures var p1 := [Step(0, Edge(1, IntMax - 1))];
            var p2 := p1 + [Step(1, Edge(2, 2))];
            var p3 := p2 + [Step(2, Edge(1, 0))];
            && IsWalk(vs, 0, 2, p2) && Nonneg(p2) && Weight(Int32, p2) == IntMin
            && IsWalk(vs, 0, 1, p3) && Nonneg(p3) && Weight(Int32, p3) == IntMin
  {
    var p1 := [Step(0, Edge(1, IntMax - 1))];
    assert p1[..0] == [];
    assert IsWalk(vs, 0, 1, p1) && Nonneg(p1);
    Wrap32Means(IntMax - 1);
    assert Weight(Int32, p1) == IntMax - 1;
    WalkSnoc(vs, 0, 1, p1, Edge(2, 2), Int32);
    var p2 := p1 + [Step(1, Edge(2, 2))];
    Wrap32Means(IntMax + 1);
    WalkSnoc(vs, 0, 2, p2, Edge(1, 0), Int32);
    Wrap32Means(IntMin);
  }

  /** Every finite Distance of that dictionary is the Int32 weight of a
      walk from 0. */
  lemma LoopEndReached(g: map<int, Vertex>)
    requires LoopShape(g)
    ensures Reached(Int32, 0, LoopEnd(g))
  {
    var vs := LoopEnd(g);
    assert LoopShape(vs);
    LoopWalksWrap(vs);
    var p1 := [Step(0, Edge(1, IntMax - 1))];
    var p2 := p1 + [Step(1, Edge(2, 2))];
    var p3 := p2 + [Step(2, Edge(1, 0))];
    assert IsWalk(vs, 0, 0, []) && Nonneg([]) && Weight(Int32, []) == vs[0].distance;
  }

  /** Its Previous links follow edges and every edge is relaxed under
      Int32 sums. */
  lemma LoopEndLinked(g: map<int, Vertex>)
    requires LoopShape(g)
    ensures Linked(Int32, LoopEnd(g), 0, LoopEnd(g)) && Settled(Int32, LoopEnd(g))
  {
    var vs := LoopEnd(g);
    assert LoopShape(vs);
    assert PrevEdge(Int32, vs, vs, 0, 1) by { assert vs[0].edges[0] == Edge(1, IntMax - 1); }
    assert PrevEdge(Int32, vs, vs, 2, 1) by { assert vs[2].edges[0] == Edge(1, 0); }
    assert PrevEdge(Int32, vs, vs, 1, 2) by { assert vs[1].edges[0] == Edge(2, 2); }
    Wrap32Means(IntMax - 1);
    Wrap32Means(IntMin + 2);
    Wrap32Means(IntMin);
    assert Relaxed(Int32, vs, 0) by { assert EdgeOk(Int32, vs, 0, Edge(1, IntMax - 1)); }
    assert Relaxed(Int32, vs, 1) by { assert EdgeOk(Int32, vs, 1, Edge(2, 2)); }
    assert Relaxed(Int32, vs, 2) by { assert EdgeOk(Int32, vs, 2, Edge(1, 0)); }
  }

  /** As written: that dictionary meets everything Dijkstra promises for a
      run with C# int sums, and in it the Previous links of 1 and 2 point
      at each other. No chain of Previous links that starts at a vertex
      without one ends at 1, so the loop of GetShortestPath(1) (lines 60
      to 65) never stops. */
  lemma LoopAdmitted(g: map<int, Vertex>, stamp: map<int, nat>)
    requires LoopShape(g)
    ensures RunEnd(Int32, g, 0, LoopEnd(g), stamp, Pass)
    ensures LoopEnd(g)[1].previous == Some(2) && LoopEnd(g)[2].previous == Some(1)
    ensures forall path :: PrevChain(LoopEnd(g), path) ==> path[|path| - 1] != 1
  {
    LoopEndFrame(g);
    LoopEndReached(g);
    LoopEndLinked(g);
    LoopNoPath(LoopEnd(g));
  }

  /** That dictionary keeps the vertices, ids and edges of the graph and
      holds only C# int Distances. */
  lemma LoopEndFrame(g: map<int, Vertex>)
    requires LoopShape(g)
    ensures Closed(LoopEnd(g)) && SameShape(g, LoopEnd(g)) && Bounded(Int32, LoopEnd(g))
  {
  }

  /** With the Previous links of 1 and 2 pointing at each other, no chain
      of Previous links ends at 1. */
  lemma LoopNoPath(vs: map<int, Vertex>)
    requires 1 in vs && 2 in vs && vs[1].previous == Some(2) && vs[2].previous == Some(1)
    ensures forall path :: PrevChain(vs, path) ==> path[|path| - 1] != 1
  {
    forall path | PrevChain(vs, path) ensures path[|path| - 1] != 1 {
      if path[|path| - 1] == 1 {
        LoopChain(vs, path, 0);
      }
    }
  }

  /** With unbounded sums vertex 2 of that graph stays unreached: every
      walk to it is too heavy. */
  lemma LoopUnreached(vs: map<int, Vertex>)
    requires LoopShape(vs) && Solved(0, vs)
    ensures vs[2].distance == IntMax && vs[2].previous == None
  {
    ShortestDistances(0, vs);
    if vs[2].distance < IntMax {
      var p :| IsWalk(vs, 0, 2, p) && Nonneg(p) && Weight(Unbounded, p) < IntMax;
      LoopWalks(vs, 2, p);
    }
  }

  /** With unbounded sums vertex 1 of that graph ends at int.MaxValue - 1,
      the weight of its lightest walk. */
  lemma LoopOne(vs: map<int, Vertex>)
    requires LoopShape(vs) && Solved(0, vs)
    ensures vs[1].distance == IntMax - 1
  {
    assert vs[0].distance == 0;
    assert Relaxed(Unbounded, vs, 0);
    assert EdgeOk(Unbounded, vs, 0, vs[0].edges[0]);
    ShortestDistances(0, vs);
    var p1 :| IsWalk(vs, 0, 1, p1) && Nonneg(p1) && Weight(Unbounded, p1) == vs[1].distance;
    LoopWalks(vs, 1, p1);
  }

  /** With unbounded sums a run on that graph leaves 0 as the start, 1 at
      int.MaxValue - 1 with Previous 0, and 2 unreached. */
  lemma LoopSolved(vs: map<int, Vertex>)
    requires LoopShape(vs) && Solved(0, vs)
    ensures vs[0].previous == None
    ensures vs[1].distance == IntMax - 1 && vs[1].previous == Some(0)
    ensures vs[2].distance == IntMax && vs[2].previous == None
  {
    LoopUnreached(vs);
    LoopOne(vs);
    assert Linked(Unbounded, vs, 0, vs);
    var u := vs[1].previous.value;
    assert PrevEdge(Unbounded, vs, vs, u, 1);
    var e :| e in vs[u].edges && e.destination == 1;
    assert u != 1 && u != 2;
  }

  /** The only chain of Previous links to 1 there is [0, 1]. */
  lemma LoopPath(vs: map<int, Vertex>, path: seq<int>)
    requires 0 in vs && 1 in vs && vs[0].previous == None && vs[1].previous == Some(0)
    requires PrevChain(vs, path) && path[|path| - 1] == 1
    ensures path == [0, 1]
  {
    assert |path| >= 2;
    assert path[|path| - 2] == 0;
    forall k | 0 < k < |path| ensures path[k] != 0 {
      assert vs[path[(k - 1) + 1]].previous == Some(path[k - 1]);
    }
    assert path[0] == 0 && path[1] == 1;
  }

  /** No edge of the shape is negative. */
  lemma LoopNonneg(vs: map<int, Vertex>)
    requires LoopShape(vs)
    ensures !exists u, e :: u in vs && vs[u].distance < IntMax && e in vs[u].edges && e.weight < 0
  {
  }

  /** Dijkstra from 0 on the graph 0 -> 1 -> 2 -> 1 with unbounded sums:
      the run completes, its Previous links are ranked, and
      GetShortestPath(1) answers [0, 1]. */
  method LoopScenario() returns (r: Outcome, path: seq<int>)
    ensures r == Pass && path == [0, 1]
  {
    var graph := new Graaf();
    graph.AddEdge(0, 1, IntMax - 1);
    graph.AddEdge(1, 2, 2);
    graph.AddEdge(2, 1, 0);
    LoopBuilt();
    ghost var stamp;
    r, stamp := Dijkstra(graph, 0, Unbounded);
    var vs := graph.vertices;
    LoopNonneg(vs);
    LoopSolved(vs);
    path := GetShortestPath(vs, 1, stamp);
    LoopPath(vs, path);
  }
}
