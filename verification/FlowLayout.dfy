/**
 Placing the lineage graph (`layout` in `frontend/packages/flow/src/layout.ts`): set the isolated nodes
 apart, layer the connected ones by depth, order each layer by its neighbours' barycentres in four sweeps,
 and give every node a position. Coordinates are whole pixels, since half of 110 is; barycentres are reals.
 */
module FlowLayout {
  import opened Outcomes
  import opened LayerDepths

  datatype Placed = Placed(x: int, y: int)

  const COL_W := 240
  const ROW_H := 110
  const HALF_ROW := 55
  const X0 := 30
  const Y0 := 40
  const SWEEPS := 4

  type Layers = seq<seq<string>>

  predicate Apart(a: Placed, b: Placed) {
    || a.x - b.x >= COL_W || b.x - a.x >= COL_W
    || a.y - b.y >= ROW_H || b.y - a.y >= ROW_H
  }

  // ---------------------------------------------------------------- partitioning

  predicate Touches(e: Edge, id: string) {
    e.source != e.target && (e.source == id || e.target == id)
  }

  predicate Connected(edges: seq<Edge>, id: string) {
    exists i :: 0 <= i < |edges| && Touches(edges[i], id)
  }

  method Degrees(ids: seq<string>, edges: seq<Edge>) returns (degree: map<string, nat>)
    ensures forall id :: id in ids ==> id in degree && (degree[id] > 0 <==> Connected(edges, id))
  {
    degree := map id | id in ids :: 0;
    var i := 0;
    while i < |edges|
      invariant 0 <= i <= |edges|
      invariant forall id :: id in ids ==> id in degree
      invariant forall id :: id in ids ==> (degree[id] > 0 <==> exists k :: 0 <= k < i && Touches(edges[k], id))
    {
      var e := edges[i];
      if e.source != e.target {
        degree := degree[e.source := OrZero(degree, e.source) + 1];
        degree := degree[e.target := OrZero(degree, e.target) + 1];
      }
      assert forall id :: id in ids ==>
             (degree[id] > 0 <==> Touches(edges[i], id) || exists k :: 0 <= k < i && Touches(edges[k], id));
      i := i + 1;
    }
  }

  /** The ids some edge touches, or those none does, in the order given. */
  function Part(ids: seq<string>, edges: seq<Edge>, connected: bool): seq<string>
    decreases |ids|
  {
    if ids == [] then []
    else
      var rest, id := Part(ids[..|ids| - 1], edges, connected), ids[|ids| - 1];
      if Connected(edges, id) == connected then rest + [id] else rest
  }

  lemma {:induction false} PartIsExact(ids: seq<string>, edges: seq<Edge>, connected: bool, id: string)
    ensures id in Part(ids, edges, connected) <==> id in ids && Connected(edges, id) == connected
    decreases |ids|
  {
    hide Connected;
    if ids != [] {
      var n := |ids| - 1;
      PartIsExact(ids[..n], edges, connected, id);
      assert ids == ids[..n] + [ids[n]];
    }
  }

  method Partition(ids: seq<string>, edges: seq<Edge>) returns (connected: seq<string>, isolated: seq<string>)
    ensures connected == Part(ids, edges, true) && isolated == Part(ids, edges, false)
    ensures forall id :: id in connected <==> id in ids && Connected(edges, id)
    ensures forall id :: id in isolated <==> id in ids && !Connected(edges, id)
  {
    hide Connected;
    var degree := Degrees(ids, edges);
    connected, isolated := [], [];
    var i := 0;
    while i < |ids|
      invariant 0 <= i <= |ids|
      invariant connected == Part(ids[..i], edges, true) && isolated == Part(ids[..i], edges, false)
    {
      assert ids[..i + 1][..i] == ids[..i];
      assert ids[i] in ids;
      if degree[ids[i]] > 0 {
        connected := connected + [ids[i]];
      } else {
        isolated := isolated + [ids[i]];
      }
      i := i + 1;
    }
    assert ids[..i] == ids;
    forall id ensures id in connected <==> id in ids && Connected(edges, id) {
      PartIsExact(ids, edges, true, id);
    }
    forall id ensures id in isolated <==> id in ids && !Connected(edges, id) {
      PartIsExact(ids, edges, false, id);
    }
  }

  // ---------------------------------------------------------------- layering

  function Padded(layers: Layers, n: nat): (longer: Layers)
    ensures |longer| == if |layers| < n then n else |layers|
    ensures forall d :: 0 <= d < |longer| ==> longer[d] == if d < |layers| then layers[d] else []
  {
    if |layers| < n then layers + seq(n - |layers|, _ => []) else layers
  }

  /** Layer `d` holds exactly the nodes of depth `d`. */
  ghost predicate Layered(layers: Layers, nodes: seq<string>, depthOf: string -> nat) {
    && (forall d, id :: 0 <= d < |layers| && id in layers[d] ==> id in nodes && depthOf(id) == d)
    && (forall id :: id in nodes ==> depthOf(id) < |layers| && id in layers[depthOf(id)])
  }

  /** Node by node, each behind those of its depth already there. */
  function LayersOf(nodes: seq<string>, depthOf: string -> nat): Layers
    decreases |nodes|
  {
    if nodes == [] then []
    else
      var id := nodes[|nodes| - 1];
      var layers := Padded(LayersOf(nodes[..|nodes| - 1], depthOf), depthOf(id) + 1);
      layers[depthOf(id) := layers[depthOf(id)] + [id]]
  }

  lemma {:induction false} LayersAreLayered(nodes: seq<string>, depthOf: string -> nat)
    ensures Layered(LayersOf(nodes, depthOf), nodes, depthOf)
    decreases |nodes|
  {
    if nodes != [] {
      var n := |nodes| - 1;
      LayersAreLayered(nodes[..n], depthOf);
      OneMoreLayered(LayersOf(nodes[..n], depthOf), nodes[..n], nodes[n], depthOf);
      hide Layered, Padded;
      assert nodes == nodes[..n] + [nodes[n]];
    }
  }

  lemma {:induction false} OneMoreLayered(layers: Layers, nodes: seq<string>, id: string, depthOf: string -> nat)
    requires Layered(layers, nodes, depthOf)
    ensures var padded := Padded(layers, depthOf(id) + 1);
            Layered(padded[depthOf(id) := padded[depthOf(id)] + [id]], nodes + [id], depthOf)
  {
    var padded := Padded(layers, depthOf(id) + 1);
    var more := padded[depthOf(id) := padded[depthOf(id)] + [id]];
    hide Padded;
    forall d, x | 0 <= d < |more| && x in more[d] ensures x in nodes + [id] && depthOf(x) == d {
      if d < |layers| && x in layers[d] {
        assert x in nodes;
      }
    }
    forall x | x in nodes + [id] ensures depthOf(x) < |more| && x in more[depthOf(x)] {
      if x in nodes {
        assert x in layers[depthOf(x)];
      }
    }
  }

  method LayerNodes(nodes: seq<string>, depthOf: string -> nat) returns (layers: Layers)
    ensures layers == LayersOf(nodes, depthOf)
    ensures Layered(layers, nodes, depthOf)
  {
    hide Layered;
    layers := [];
    var i := 0;
    while i < |nodes|
      invariant 0 <= i <= |nodes|
      invariant layers == LayersOf(nodes[..i], depthOf)
    {
      assert nodes[..i + 1][..i] == nodes[..i];
      var id := nodes[i];
      var d := depthOf(id);
      layers := Padded(layers, d + 1);
      layers := layers[d := layers[d] + [id]];
      i := i + 1;
    }
    assert nodes[..i] == nodes;
    LayersAreLayered(nodes, depthOf);
  }

  // ---------------------------------------------------------------- ordering

  type Ranks = map<string, nat>

  /** Upstream neighbours when `up`, downstream ones otherwise, in edge order. */
  function Neighbours(edges: seq<Edge>, id: string, up: bool): seq<string> {
    if edges == [] then []
    else
      var e := edges[0];
      var here := if e.source == e.target then [] else if up && e.source == id then [e.target]
                  else if !up && e.target == id then [e.source] else [];
      here + Neighbours(edges[1..], id, up)
  }

  function Ranked(ids: seq<string>, rank: Ranks): seq<nat> {
    if ids == [] then [] else (if ids[0] in rank then [rank[ids[0]]] else []) + Ranked(ids[1..], rank)
  }

  function Sum(ranks: seq<nat>): nat {
    if ranks == [] then 0 else ranks[0] + Sum(ranks[1..])
  }

  /** Mean rank of the neighbours that have one; None when none has. */
  function Barycentre(edges: seq<Edge>, id: string, up: bool, rank: Ranks): Option<real> {
    var ranks := Ranked(Neighbours(edges, id, up), rank);
    if ranks == [] then None else Some(Sum(ranks) as real / |ranks| as real)
  }

  /** A node's neighbours upstream are the targets of its own edges, downstream the sources of the edges into it, each
      as often as there are such edges; an edge to itself counts for neither. */
  lemma {:induction false} NeighboursExactly(edges: seq<Edge>, id: string, other: string)
    ensures other != id ==>
              && multiset(Neighbours(edges, id, true))[other] == multiset(edges)[Edge(id, other)]
              && multiset(Neighbours(edges, id, false))[other] == multiset(edges)[Edge(other, id)]
    ensures id !in Neighbours(edges, id, true) && id !in Neighbours(edges, id, false)
  {
    if edges != [] {
      NeighboursExactly(edges[1..], id, other);
      assert edges == [edges[0]] + edges[1..];
    }
  }

  /** The ranks a mean is taken over: those of the listed nodes that have one, one by one. */
  lemma {:induction false} RankedExactly(ids: seq<string>, id: string, rank: Ranks)
    ensures Ranked([], rank) == [] && Sum([]) == 0
    ensures Ranked([id] + ids, rank) == (if id in rank then [rank[id]] else []) + Ranked(ids, rank)
    ensures id in rank ==> Sum([rank[id]] + Ranked(ids, rank)) == rank[id] + Sum(Ranked(ids, rank))
  {
    assert ([id] + ids)[1..] == ids;
    if id in rank {
      assert ([rank[id]] + Ranked(ids, rank))[1..] == Ranked(ids, rank);
    }
  }

  /** A node is sorted by the mean rank of its ranked neighbours: that many times the key is the sum of their ranks; and
      by its own rank, or 0 without one, where no neighbour has a rank. */
  lemma {:induction false} KeyExactly(edges: seq<Edge>, id: string, up: bool, rank: Ranks)
    ensures var ranks := Ranked(Neighbours(edges, id, up), rank);
            && (ranks != [] ==> KeyOf(edges, id, up, rank) * |ranks| as real == Sum(ranks) as real)
            && (ranks == [] ==> KeyOf(edges, id, up, rank) == if id in rank then rank[id] as real else 0.0)
  {
    hide Neighbours, Ranked, Sum;
  }

  function KeyOf(edges: seq<Edge>, id: string, up: bool, rank: Ranks): real {
    var b := Barycentre(edges, id, up, rank);
    if b.Some? then b.value else OrZero(rank, id) as real
  }

  ghost predicate SortedBy(s: seq<string>, key: string -> real) {
    forall i, j :: 0 <= i < j < |s| ==> key(s[i]) <= key(s[j])
  }

  function InsertBy(s: seq<string>, id: string, key: string -> real): seq<string>
    decreases |s|
  {
    if s == [] then [id]
    else
      var n := |s| - 1;
      if key(s[n]) <= key(id) then s + [id] else InsertBy(s[..n], id, key) + [s[n]]
  }

  lemma {:induction false} AppendSorts(s: seq<string>, id: string, key: string -> real)
    requires SortedBy(s, key) && forall x :: x in s ==> key(x) <= key(id)
    ensures SortedBy(s + [id], key)
  {
    assert forall i :: 0 <= i < |s| ==> s[i] in s;
  }

  lemma {:induction false} InsertAddsOne(s: seq<string>, id: string, key: string -> real)
    ensures multiset(InsertBy(s, id, key)) == multiset(s) + multiset{id}
    decreases |s|
  {
    if s != [] && key(s[|s| - 1]) > key(id) {
      var n := |s| - 1;
      InsertAddsOne(s[..n], id, key);
      assert InsertBy(s, id, key) == InsertBy(s[..n], id, key) + [s[n]];
      hide InsertBy;
      assert s == s[..n] + [s[n]];
    }
  }

  lemma {:induction false} InsertSorts(s: seq<string>, id: string, key: string -> real)
    requires SortedBy(s, key)
    ensures SortedBy(InsertBy(s, id, key), key)
    decreases |s|
  {
    if s != [] && key(s[|s| - 1]) <= key(id) {
      AppendSorts(s, id, key);
    } else if s != [] {
      var n := |s| - 1;
      var rest := InsertBy(s[..n], id, key);
      InsertSorts(s[..n], id, key);
      InsertAddsOne(s[..n], id, key);
      assert InsertBy(s, id, key) == rest + [s[n]];
      hide InsertBy;
      forall x | x in rest ensures key(x) <= key(s[n]) {
        assert x in multiset(rest);
        if x != id {
          assert x in s[..n];
        }
      }
      AppendSorts(rest, s[n], key);
    }
  }

  /** The host's stable sort by key. */
  function SortBy(s: seq<string>, key: string -> real): (sorted: seq<string>)
    ensures SortedBy(sorted, key) && multiset(sorted) == multiset(s)
    decreases |s|
  {
    if s == [] then []
    else
      assert s == s[..|s| - 1] + [s[|s| - 1]];
      InsertSorts(SortBy(s[..|s| - 1], key), s[|s| - 1], key);
      InsertAddsOne(SortBy(s[..|s| - 1], key), s[|s| - 1], key);
      InsertBy(SortBy(s[..|s| - 1], key), s[|s| - 1], key)
  }

  /** The nodes whose key is `k`, in order. */
  function WithKey(s: seq<string>, key: string -> real, k: real): seq<string>
    decreases |s|
  {
    if s == [] then []
    else WithKey(s[..|s| - 1], key, k) + (if key(s[|s| - 1]) == k then [s[|s| - 1]] else [])
  }

  lemma {:induction false} WithKeyOfMore(s: seq<string>, id: string, key: string -> real, k: real)
    ensures WithKey(s + [id], key, k) == WithKey(s, key, k) + (if key(id) == k then [id] else [])
  {
    assert (s + [id])[..|s|] == s;
  }

  lemma {:induction false} InsertIsStable(s: seq<string>, id: string, key: string -> real, k: real)
    requires SortedBy(s, key)
    ensures WithKey(InsertBy(s, id, key), key, k) == WithKey(s + [id], key, k)
    decreases |s|
  {
    hide WithKey;
    if s == [] {
      assert InsertBy(s, id, key) == s + [id];
    } else {
      var n := |s| - 1;
      WithKeyOfMore(s, id, key, k);
      if key(s[n]) > key(id) {
        InsertIsStable(s[..n], id, key, k);
        WithKeyOfMore(InsertBy(s[..n], id, key), s[n], key, k);
        WithKeyOfMore(s[..n], id, key, k);
        WithKeyOfMore(s[..n], s[n], key, k);
        assert s[..n] + [s[n]] == s;
      }
    }
  }

  /** Sorting keeps nodes of equal key in the order they came, so those a sweep cannot tell apart stay put. */
  lemma {:induction false} SortIsStable(s: seq<string>, key: string -> real, k: real)
    ensures WithKey(SortBy(s, key), key, k) == WithKey(s, key, k)
    decreases |s|
  {
    if s != [] {
      var n := |s| - 1;
      SortIsStable(s[..n], key, k);
      InsertIsStable(SortBy(s[..n], key), s[n], key, k);
      WithKeyOfMore(SortBy(s[..n], key), s[n], key, k);
    }
  }

  /** Layer by layer the same nodes, in whatever order. */
  ghost predicate SameLayers(a: Layers, b: Layers) {
    |a| == |b| && forall d :: 0 <= d < |a| ==> multiset(a[d]) == multiset(b[d])
  }

  function RankedOnto(rank: Ranks, layer: seq<string>): Ranks
    decreases |layer|
  {
    if layer == [] then rank
    else RankedOnto(rank, layer[..|layer| - 1])[layer[|layer| - 1] := |layer| - 1]
  }

  function RankedAll(layers: Layers): Ranks
    decreases |layers|
  {
    if layers == [] then map[] else RankedOnto(RankedAll(layers[..|layers| - 1]), layers[|layers| - 1])
  }

  /** The layers as they stand, and the ranks the next barycentre is taken from. */
  datatype Sweep = Sweep(layers: Layers, rank: Ranks)

  function KeyBy(edges: seq<Edge>, up: bool, rank: Ranks): string -> real {
    (id: string) => KeyOf(edges, id, up, rank)
  }

  /** One layer put in order and ranked anew. */
  function Visited(s: Sweep, edges: seq<Edge>, forward: bool, at: nat): (t: Sweep)
    requires at < |s.layers|
    ensures |t.layers| == |s.layers|
  {
    if |s.layers[at]| < 2 then s
    else
      var ordered := SortBy(s.layers[at], KeyBy(edges, forward, s.rank));
      Sweep(s.layers[at := ordered], RankedOnto(s.rank, ordered))
  }

  /** The first `k` layers of a sweep, from the left when forward and from the right when not. */
  function SweptTo(s: Sweep, edges: seq<Edge>, forward: bool, k: nat): (t: Sweep)
    requires k <= |s.layers|
    ensures |t.layers| == |s.layers|
    decreases k
  {
    if k == 0 then s
    else Visited(SweptTo(s, edges, forward, k - 1), edges, forward, if forward then k - 1 else |s.layers| - k)
  }

  /** Sweeps in turn, the first of them forward. */
  function Swept(s: Sweep, edges: seq<Edge>, n: nat): (t: Sweep)
    ensures |t.layers| == |s.layers|
  {
    if n == 0 then s
    else
      var before := Swept(s, edges, n - 1);
      SweptTo(before, edges, (n - 1) % 2 == 0, |before.layers|)
  }

  function Ordered(layers: Layers, edges: seq<Edge>): Layers {
    Swept(Sweep(layers, RankedAll(layers)), edges, SWEEPS).layers
  }

  /** Every node of the layer is ranked by a position it holds there, and no other rank changes. */
  method RankLayer(rank0: Ranks, layer: seq<string>) returns (rank: Ranks)
    ensures rank == RankedOnto(rank0, layer)
    ensures forall id :: id in layer ==> id in rank && rank[id] < |layer| && layer[rank[id]] == id
    ensures forall id :: id !in layer ==> (id in rank <==> id in rank0) && (id in rank0 ==> rank[id] == rank0[id])
  {
    rank := rank0;
    var i := 0;
    while i < |layer|
      invariant 0 <= i <= |layer| && rank == RankedOnto(rank0, layer[..i])
      invariant forall k :: 0 <= k < i ==> layer[k] in rank && rank[layer[k]] < i && layer[rank[layer[k]]] == layer[k]
      invariant forall id :: id !in layer ==> (id in rank <==> id in rank0) && (id in rank0 ==> rank[id] == rank0[id])
    {
      assert layer[..i + 1][..i] == layer[..i];
      rank := rank[layer[i] := i];
      i := i + 1;
    }
    assert layer[..i] == layer;
  }

  /** One layer put in barycentre order: a permutation of it, in the order of its keys. */
  method OrderLayer(layer: seq<string>, edges: seq<Edge>, up: bool, rank: Ranks) returns (ordered: seq<string>)
    ensures ordered == SortBy(layer, KeyBy(edges, up, rank))
    ensures multiset(ordered) == multiset(layer)
    ensures forall i, j :: 0 <= i < j < |ordered| ==>
            KeyOf(edges, ordered[i], up, rank) <= KeyOf(edges, ordered[j], up, rank)
  {
    ordered := SortBy(layer, KeyBy(edges, up, rank));
  }

  lemma {:induction false} SweepingPermutes(s: Sweep, edges: seq<Edge>, forward: bool, k: nat)
    requires k <= |s.layers|
    ensures SameLayers(SweptTo(s, edges, forward, k).layers, s.layers)
    decreases k
  {
    hide SortBy, KeyBy, RankedOnto;
    if k > 0 {
      SweepingPermutes(s, edges, forward, k - 1);
    }
  }

  lemma {:induction false} SweepsPermute(s: Sweep, edges: seq<Edge>, n: nat)
    ensures SameLayers(Swept(s, edges, n).layers, s.layers)
  {
    hide SweptTo;
    if n > 0 {
      SweepsPermute(s, edges, n - 1);
      var before := Swept(s, edges, n - 1);
      SweepingPermutes(before, edges, (n - 1) % 2 == 0, |before.layers|);
    }
  }

  /** One sweep over every layer. */
  method SweepLayers(
      layers0: Layers, rank0: Ranks, edges: seq<Edge>, forward: bool)
      returns (layers: Layers, rank: Ranks)
    ensures Sweep(layers, rank) == SweptTo(Sweep(layers0, rank0), edges, forward, |layers0|)
  {
    hide SortBy, KeyBy, RankedOnto, KeyOf;
    layers, rank := layers0, rank0;
    var k := 0;
    while k < |layers|
      invariant 0 <= k <= |layers| == |layers0|
      invariant Sweep(layers, rank) == SweptTo(Sweep(layers0, rank0), edges, forward, k)
    {
      var at := if forward then k else |layers| - 1 - k;
      if |layers[at]| >= 2 {
        var ordered := OrderLayer(layers[at], edges, forward, rank);
        layers := layers[at := ordered];
        rank := RankLayer(rank, ordered);
      }
      k := k + 1;
    }
  }

  /** The four sweeps, forward and backward in turn, each layer sorted by the ranks the ones before it left; they
      permute every layer. */
  method OrderLayers(layers0: Layers, edges: seq<Edge>) returns (layers: Layers)
    ensures layers == Ordered(layers0, edges)
    ensures layers == Swept(Sweep(layers0, RankedAll(layers0)), edges, 4).layers
    ensures SameLayers(layers, layers0)
  {
    hide SweptTo, RankedOnto, SameLayers;
    layers := layers0;
    var rank: Ranks := map[];
    var d := 0;
    while d < |layers|
      invariant 0 <= d <= |layers| && rank == RankedAll(layers[..d])
    {
      assert layers[..d + 1][..d] == layers[..d];
      rank := RankLayer(rank, layers[d]);
      d := d + 1;
    }
    assert layers[..d] == layers;
    ghost var start := Sweep(layers, rank);
    var s := 0;
    while s < SWEEPS
      invariant 0 <= s <= SWEEPS && Sweep(layers, rank) == Swept(start, edges, s)
    {
      layers, rank := SweepLayers(layers, rank, edges, s % 2 == 0);
      s := s + 1;
    }
    SweepsPermute(start, edges, SWEEPS);
  }

  // ---------------------------------------------------------------- coordinates

  function Tallest(layers: Layers): (t: nat)
    ensures forall d :: 0 <= d < |layers| ==> |layers[d]| <= t
    ensures t > 0 ==> exists d :: 0 <= d < |layers| && |layers[d]| == t
  {
    if layers == [] then 0
    else
      var n := |layers| - 1;
      var rest := Tallest(layers[..n]);
      if |layers[n]| > rest then |layers[n]| else rest
  }

  function LayerSeat(layers: Layers, d: nat, i: nat): Placed
    requires d < |layers| && i < |layers[d]|
  {
    Placed(X0 + d * COL_W, Y0 + (Tallest(layers) - |layers[d]|) * HALF_ROW + i * ROW_H)
  }

  function GridSeat(tallest: nat, cols: nat, i: nat): Placed
    requires cols >= 1
  {
    Placed(X0 + (i % cols) * COL_W, Y0 + tallest * ROW_H + ROW_H + (i / cols) * ROW_H)
  }

  /** Seats 110 apart down a layer and 240 across, each layer as far below the top of the tallest as it ends above the
      tallest's foot. */
  lemma {:induction false} LayersAreCentred(layers: Layers, d: nat, i: nat)
    requires d < |layers| && i < |layers[d]|
    ensures LayerSeat(layers, d, i).x == 30 + 240 * d
    ensures i > 0 ==> LayerSeat(layers, d, i).y == LayerSeat(layers, d, i - 1).y + 110
    ensures var foot := 40 + 110 * (Tallest(layers) - 1);
            LayerSeat(layers, d, 0).y - 40 == foot - LayerSeat(layers, d, |layers[d]| - 1).y >= 0
  {
  }

  /** Grid seats row by row, 240 across and 110 down, the first row two layer rows below the tallest layer's foot. */
  lemma {:induction false} GridIsRowByRow(tallest: nat, cols: nat, row: nat, col: nat)
    requires col < cols
    ensures cols * row >= 0
    ensures GridSeat(tallest, cols, cols * row + col) == Placed(30 + 240 * col, 40 + 110 * tallest + 110 + 110 * row)
  {
    var i := cols * row + col;
    assert cols * row >= 0;
    OneRowAndColumn(cols, i / cols, i % cols, row, col);
  }

  lemma {:induction false} OneRowAndColumn(d: nat, p: nat, k: nat, q: nat, m: nat)
    requires k < d && m < d && d * p + k == d * q + m
    ensures p == q && k == m
  {
    if p < q {
      TimesAtLeastOne(d, p, q);
    } else if q < p {
      TimesAtLeastOne(d, q, p);
    }
  }

  lemma {:induction false} TimesAtLeastOne(d: nat, p: nat, q: nat)
    requires p < q
    ensures d * q >= d * p + d
  {
    if p + 1 < q {
      TimesAtLeastOne(d, p, q - 1);
    }
    assert d * q == d * (q - 1) + d;
  }

  function RootFrom(n: nat, r: nat): nat
    decreases n - r * r
  {
    if r * r >= n then r else RootFrom(n, r + 1)
  }

  /** The columns of the isolated grid. */
  function Columns(layers: nat, isolated: nat): (cols: nat)
    ensures cols >= 1
  {
    var wide := if layers > 1 then layers else 1;
    if RootFrom(isolated, 0) > wide then RootFrom(isolated, 0) else wide
  }

  /** The least whole number whose square is at least `n`. */
  method CeilSqrt(n: nat) returns (r: nat)
    ensures r == RootFrom(n, 0)
    ensures r * r >= n && (r == 0 || (r - 1) * (r - 1) < n)
  {
    r := 0;
    while r * r < n
      invariant r == 0 || (r - 1) * (r - 1) < n
      invariant RootFrom(n, r) == RootFrom(n, 0)
      decreases n - r * r
    {
      r := r + 1;
    }
  }

  ghost predicate SeatedInLayer(layers: Layers, id: string, at: Placed, d: nat, i: nat) {
    d < |layers| && i < |layers[d]| && layers[d][i] == id && at == LayerSeat(layers, d, i)
  }

  ghost predicate SeatedInGrid(tallest: nat, cols: nat, isolated: seq<string>, id: string, at: Placed, i: nat) {
    cols >= 1 && i < |isolated| && isolated[i] == id && at == GridSeat(tallest, cols, i)
  }

  ghost predicate InLayers(layers: Layers, id: string, at: Placed) {
    exists d: nat, i: nat :: SeatedInLayer(layers, id, at, d, i)
  }

  ghost predicate InGrid(tallest: nat, cols: nat, isolated: seq<string>, id: string, at: Placed) {
    exists i: nat :: SeatedInGrid(tallest, cols, isolated, id, at, i)
  }

  lemma {:induction false} LayerSeatsApart(layers: Layers, d: nat, i: nat, e: nat, j: nat)
    requires d < |layers| && i < |layers[d]| && e < |layers| && j < |layers[e]| && (d != e || i != j)
    ensures Apart(LayerSeat(layers, d, i), LayerSeat(layers, e, j))
  {
  }

  lemma {:induction false} GridSeatsApart(tallest: nat, cols: nat, i: nat, j: nat)
    requires cols >= 1 && i != j
    ensures Apart(GridSeat(tallest, cols, i), GridSeat(tallest, cols, j))
  {
    if i % cols == j % cols {
      assert i == cols * (i / cols) + i % cols && j == cols * (j / cols) + j % cols;
      assert i / cols != j / cols;
    }
  }

  /** The isolated grid starts below the lowest layered node, however the layers are centred. */
  lemma {:induction false} GridIsBelowTheLayers(layers: Layers, d: nat, i: nat, cols: nat, j: nat)
    requires d < |layers| && i < |layers[d]| && cols >= 1
    ensures Apart(LayerSeat(layers, d, i), GridSeat(Tallest(layers), cols, j))
  {
    assert j / cols >= 0;
  }

  /** Every placed node has a seat of its own kind. */
  ghost predicate Seated(layers: Layers, cols: nat, isolated: seq<string>, placed: map<string, Placed>) {
    forall id :: id in placed ==>
      InLayers(layers, id, placed[id]) || InGrid(Tallest(layers), cols, isolated, id, placed[id])
  }

  lemma {:induction false} SeatedIsApart(
      layers: Layers, cols: nat, isolated: seq<string>, placed: map<string, Placed>, a: string, b: string)
    requires Seated(layers, cols, isolated, placed) && a in placed && b in placed && a != b
    ensures Apart(placed[a], placed[b])
  {
    hide LayerSeat, GridSeat, Apart;
    var t := Tallest(layers);
    if InLayers(layers, a, placed[a]) {
      var d: nat, i: nat :| SeatedInLayer(layers, a, placed[a], d, i);
      if e: nat, j: nat :| SeatedInLayer(layers, b, placed[b], e, j) {
        LayerSeatsApart(layers, d, i, e, j);
      } else {
        var j: nat :| SeatedInGrid(t, cols, isolated, b, placed[b], j);
        GridIsBelowTheLayers(layers, d, i, cols, j);
      }
    } else {
      var i: nat :| SeatedInGrid(t, cols, isolated, a, placed[a], i);
      if e: nat, j: nat :| SeatedInLayer(layers, b, placed[b], e, j) {
        GridIsBelowTheLayers(layers, e, j, cols, i);
        ApartIsSymmetric(placed[b], placed[a]);
      } else {
        var j: nat :| SeatedInGrid(t, cols, isolated, b, placed[b], j);
        GridSeatsApart(t, cols, i, j);
      }
    }
  }

  lemma {:induction false} ApartIsSymmetric(a: Placed, b: Placed)
    requires Apart(a, b)
    ensures Apart(b, a)
  {
  }

  method PlaceLayers(layers: Layers, ghost cols: nat, ghost isolated: seq<string>) returns (placed: map<string, Placed>)
    ensures Seated(layers, cols, isolated, placed)
    ensures forall id :: id in placed <==> exists d :: 0 <= d < |layers| && id in layers[d]
    ensures forall id :: id in placed ==> InLayers(layers, id, placed[id])
  {
    hide LayerSeat, Tallest, GridSeat;
    placed := map[];
    var d := 0;
    while d < |layers|
      invariant 0 <= d <= |layers|
      invariant forall id :: id in placed ==> InLayers(layers, id, placed[id])
      invariant forall id :: id in placed <==> exists e :: 0 <= e < d && id in layers[e]
    {
      var i := 0;
      while i < |layers[d]|
        invariant 0 <= i <= |layers[d]|
        invariant forall id :: id in placed ==> InLayers(layers, id, placed[id])
        invariant forall id :: id in placed <==> id in layers[d][..i] || exists e :: 0 <= e < d && id in layers[e]
      {
        assert layers[d][..i + 1] == layers[d][..i] + [layers[d][i]];
        var seat := LayerSeat(layers, d, i);
        assert SeatedInLayer(layers, layers[d][i], seat, d, i);
        placed := placed[layers[d][i] := seat];
        i := i + 1;
      }
      assert layers[d][..i] == layers[d];
      d := d + 1;
    }
  }

  method PlaceGrid(
      placed0: map<string, Placed>, layers: Layers, cols: nat, isolated: seq<string>)
      returns (placed: map<string, Placed>)
    requires cols >= 1 && Seated(layers, cols, isolated, placed0)
    ensures Seated(layers, cols, isolated, placed)
    ensures forall id :: id in placed <==> id in placed0 || id in isolated
    ensures forall id :: id in placed0 && id !in isolated ==> placed[id] == placed0[id]
    ensures forall id :: id in isolated ==> InGrid(Tallest(layers), cols, isolated, id, placed[id])
  {
    hide LayerSeat, Tallest, GridSeat;
    placed := placed0;
    var i := 0;
    while i < |isolated|
      invariant 0 <= i <= |isolated| && Seated(layers, cols, isolated, placed)
      invariant forall id :: id in placed <==> id in placed0 || id in isolated[..i]
      invariant forall id :: id in placed0 && id !in isolated ==> id in placed && placed[id] == placed0[id]
      invariant forall id :: id in isolated[..i] ==>
        id in placed && InGrid(Tallest(layers), cols, isolated, id, placed[id])
    {
      assert isolated[..i + 1] == isolated[..i] + [isolated[i]];
      var seat := GridSeat(Tallest(layers), cols, i);
      assert SeatedInGrid(Tallest(layers), cols, isolated, isolated[i], seat, i);
      placed := placed[isolated[i] := seat];
      i := i + 1;
    }
    assert isolated[..i] == isolated;
  }

  /** The layers `layout` seats from: the connected nodes, layered and put in order. */
  function Final(ids: seq<string>, edges: seq<Edge>, depthOf: string -> nat): Layers {
    Ordered(LayersOf(Part(ids, edges, true), depthOf), edges)
  }

  /** Where everything goes: a connected node to its seat in the ordered layers, an isolated one to its seat in the
      grid, and nothing else anywhere. */
  ghost predicate LaidOut(ids: seq<string>, edges: seq<Edge>, depthOf: string -> nat, placed: map<string, Placed>) {
    var layers, isolated := Final(ids, edges, depthOf), Part(ids, edges, false);
    && (forall id :: id in placed <==> id in ids)
    && (forall id :: id in placed && Connected(edges, id) ==> InLayers(layers, id, placed[id]))
    && (forall id :: id in placed && !Connected(edges, id) ==>
          InGrid(Tallest(layers), Columns(|layers|, |isolated|), isolated, id, placed[id]))
  }

  /** `layout` lays every node out where the ordered layers and the grid put it: exactly the given ids are placed,
      any two of them a column or a row apart, each connected node in the column of its depth. */
  method Layout(ids: seq<string>, edges: seq<Edge>, depthOf: string -> nat) returns (placed: map<string, Placed>)
    ensures LaidOut(ids, edges, depthOf, placed)
    ensures forall id :: id in placed <==> id in ids
    ensures forall a, b :: a in placed && b in placed && a != b ==>
              || placed[a].x - placed[b].x >= 240 || placed[b].x - placed[a].x >= 240
              || placed[a].y - placed[b].y >= 110 || placed[b].y - placed[a].y >= 110
    ensures forall id :: id in placed && Connected(edges, id) ==> placed[id].x == 30 + depthOf(id) * 240
  {
    hide Connected, Ordered, LayersOf, Part, LayerSeat, GridSeat, Tallest, RootFrom, LaidOut, InLayers;
    hide InGrid, Seated, Layered, SameLayers;
    var connected, isolated := Partition(ids, edges);
    var layers0 := LayerNodes(connected, depthOf);
    var layers := OrderLayers(layers0, edges);
    assert layers == Final(ids, edges, depthOf);
    var root := CeilSqrt(|isolated|);
    var cols := if |layers| > 1 then |layers| else 1;
    cols := if root > cols then root else cols;
    assert cols == Columns(|layers|, |isolated|);
    var inLayers := PlaceLayers(layers, cols, isolated);
    placed := PlaceGrid(inLayers, layers, cols, isolated);
    PutTogether(ids, edges, depthOf, layers, cols, isolated, inLayers, placed);
    LaidOutIsApart(ids, edges, depthOf, placed);
  }

  /** The layers of the given ids are those of the connected ones, depth by depth. */
  lemma {:induction false} FinalIsLayered(ids: seq<string>, edges: seq<Edge>, depthOf: string -> nat)
    ensures Layered(Final(ids, edges, depthOf), Part(ids, edges, true), depthOf)
  {
    hide Layered, SameLayers;
    var layers0 := LayersOf(Part(ids, edges, true), depthOf);
    LayersAreLayered(Part(ids, edges, true), depthOf);
    SweepsPermute(Sweep(layers0, RankedAll(layers0)), edges, SWEEPS);
    SameLayersAreLayered(Ordered(layers0, edges), layers0, Part(ids, edges, true), depthOf);
  }

  lemma {:induction false} PutTogether(
      ids: seq<string>, edges: seq<Edge>, depthOf: string -> nat, layers: Layers, cols: nat, isolated: seq<string>,
      inLayers: map<string, Placed>, placed: map<string, Placed>)
    requires layers == Final(ids, edges, depthOf) && isolated == Part(ids, edges, false)
             && cols == Columns(|layers|, |isolated|)
    requires forall id :: id in inLayers <==> exists d :: 0 <= d < |layers| && id in layers[d]
    requires forall id :: id in inLayers ==> InLayers(layers, id, inLayers[id])
    requires forall id :: id in placed <==> id in inLayers || id in isolated
    requires forall id :: id in inLayers && id !in isolated ==> placed[id] == inLayers[id]
    requires forall id :: id in isolated ==> InGrid(Tallest(layers), cols, isolated, id, placed[id])
    ensures LaidOut(ids, edges, depthOf, placed)
  {
    hide Connected, Final, LayerSeat, GridSeat, Tallest, Part, InLayers, InGrid, Columns;
    FinalIsLayered(ids, edges, depthOf);
    forall id ensures id in inLayers <==> id in ids && Connected(edges, id) {
      PartIsExact(ids, edges, true, id);
      if id in inLayers {
        var d :| 0 <= d < |layers| && id in layers[d];
      }
    }
    forall id ensures id in Part(ids, edges, false) <==> id in ids && !Connected(edges, id) {
      PartIsExact(ids, edges, false, id);
    }
  }

  lemma {:induction false} LaidOutIsApart(
      ids: seq<string>, edges: seq<Edge>, depthOf: string -> nat, placed: map<string, Placed>)
    requires LaidOut(ids, edges, depthOf, placed)
    ensures forall id :: id in placed <==> id in ids
    ensures forall a, b :: a in placed && b in placed && a != b ==> Apart(placed[a], placed[b])
    ensures forall id :: id in placed && Connected(edges, id) ==> placed[id].x == X0 + depthOf(id) * COL_W
  {
    hide Connected, Apart, Final, Part, Tallest;
    var layers, isolated := Final(ids, edges, depthOf), Part(ids, edges, false);
    forall a, b | a in placed && b in placed && a != b ensures Apart(placed[a], placed[b]) {
      SeatedIsApart(layers, Columns(|layers|, |isolated|), isolated, placed, a, b);
    }
    FinalIsLayered(ids, edges, depthOf);
    forall id | id in placed && Connected(edges, id) ensures placed[id].x == X0 + depthOf(id) * COL_W {
      var d: nat, i: nat :| SeatedInLayer(layers, id, placed[id], d, i);
      assert layers[d][i] in layers[d];
    }
  }

  // ---------------------------------------------------------------- the same graph, the same picture

  ghost predicate NoRepeats(s: seq<string>) {
    forall i, j :: 0 <= i < j < |s| ==> s[i] != s[j]
  }

  lemma {:induction false} RepeatsAreCounted(s: seq<string>)
    ensures NoRepeats(s) <==> forall id :: multiset(s)[id] <= 1
    decreases |s|
  {
    if s != [] {
      var n := |s| - 1;
      RepeatsAreCounted(s[..n]);
      assert s == s[..n] + [s[n]];
      assert multiset(s) == multiset(s[..n]) + multiset{s[n]};
      assert forall id :: multiset(s)[id] == multiset(s[..n])[id] + if id == s[n] then 1 else 0;
      assert s[n] in s[..n] <==> multiset(s[..n])[s[n]] >= 1;
      assert NoRepeats(s) <==> NoRepeats(s[..n]) && s[n] !in s[..n];
    }
  }

  lemma {:induction false} PartRepeatsNothing(ids: seq<string>, edges: seq<Edge>, connected: bool)
    requires NoRepeats(ids)
    ensures NoRepeats(Part(ids, edges, connected))
    decreases |ids|
  {
    hide Connected;
    if ids != [] {
      var n := |ids| - 1;
      PartRepeatsNothing(ids[..n], edges, connected);
      PartIsExact(ids[..n], edges, connected, ids[n]);
      assert ids[n] !in ids[..n];
    }
  }

  ghost predicate NoneRepeats(layers: Layers) {
    forall d :: 0 <= d < |layers| ==> NoRepeats(layers[d])
  }

  ghost predicate NowhereIn(layers: Layers, id: string) {
    forall d :: 0 <= d < |layers| ==> id !in layers[d]
  }

  lemma {:induction false} LayersRepeatNothing(nodes: seq<string>, depthOf: string -> nat)
    requires NoRepeats(nodes)
    ensures NoneRepeats(LayersOf(nodes, depthOf))
    decreases |nodes|
  {
    if nodes != [] {
      var n := |nodes| - 1;
      var head, id := nodes[..n], nodes[n];
      assert NoRepeats(head) && id !in head;
      hide NoRepeats, NoneRepeats, NowhereIn, Padded;
      LayersRepeatNothing(head, depthOf);
      assert NowhereIn(LayersOf(head, depthOf), id) by { OnlyTheNodes(head, depthOf, id); }
      OneMoreRepeatsNothing(LayersOf(head, depthOf), id, depthOf(id));
    }
  }

  lemma {:induction false} OnlyTheNodes(nodes: seq<string>, depthOf: string -> nat, id: string)
    requires id !in nodes
    ensures NowhereIn(LayersOf(nodes, depthOf), id)
  {
    hide LayersOf;
    LayersAreLayered(nodes, depthOf);
  }

  lemma {:induction false} OneMoreRepeatsNothing(layers: Layers, id: string, d: nat)
    requires NoneRepeats(layers) && NowhereIn(layers, id)
    ensures var padded := Padded(layers, d + 1);
            NoneRepeats(padded[d := padded[d] + [id]])
  {
    var padded := Padded(layers, d + 1);
    var more := padded[d := padded[d] + [id]];
    hide Padded;
    forall e | 0 <= e < |more| ensures NoRepeats(more[e]) {
      if e == d {
        assert id !in padded[d] && NoRepeats(padded[d]);
      }
    }
  }

  lemma {:induction false} FinalRepeatsNothing(ids: seq<string>, edges: seq<Edge>, depthOf: string -> nat, d: nat)
    requires NoRepeats(ids) && d < |Final(ids, edges, depthOf)|
    ensures NoRepeats(Final(ids, edges, depthOf)[d])
  {
    var layers0 := LayersOf(Part(ids, edges, true), depthOf);
    PartRepeatsNothing(ids, edges, true);
    LayersRepeatNothing(Part(ids, edges, true), depthOf);
    SweepsPermute(Sweep(layers0, RankedAll(layers0)), edges, SWEEPS);
    hide LayersOf, Part, Swept;
    RepeatsAreCounted(layers0[d]);
    RepeatsAreCounted(Final(ids, edges, depthOf)[d]);
  }

  /** Two layouts of the same distinct ids, edges and depths are the same layout, whatever else has happened. */
  lemma {:induction false} LayoutIsDeterministic(
      ids: seq<string>, edges: seq<Edge>, depthOf: string -> nat, one: map<string, Placed>, two: map<string, Placed>)
    requires NoRepeats(ids) && LaidOut(ids, edges, depthOf, one) && LaidOut(ids, edges, depthOf, two)
    ensures one == two
  {
    hide Connected, Final, Part, Tallest, LayerSeat, GridSeat, Columns;
    var layers, isolated := Final(ids, edges, depthOf), Part(ids, edges, false);
    FinalIsLayered(ids, edges, depthOf);
    PartRepeatsNothing(ids, edges, false);
    forall id | id in ids ensures one[id] == two[id] {
      if Connected(edges, id) {
        var d: nat, i: nat :| SeatedInLayer(layers, id, one[id], d, i);
        var e: nat, j: nat :| SeatedInLayer(layers, id, two[id], e, j);
        assert layers[d][i] in layers[d] && layers[e][j] in layers[e];
        assert id in layers[d] && id in layers[e];
        assert depthOf(id) == d && depthOf(id) == e;
        FinalRepeatsNothing(ids, edges, depthOf, d);
        assert NoRepeats(layers[d]);
        assert i == j;
      } else {
        var t, cols := Tallest(layers), Columns(|layers|, |isolated|);
        var i: nat :| SeatedInGrid(t, cols, isolated, id, one[id], i);
        var j: nat :| SeatedInGrid(t, cols, isolated, id, two[id], j);
        assert i == j;
      }
    }
  }

  lemma {:induction false} SameLayersAreLayered(
      layers: Layers, layers0: Layers, nodes: seq<string>, depthOf: string -> nat)
    requires SameLayers(layers, layers0) && Layered(layers0, nodes, depthOf)
    ensures Layered(layers, nodes, depthOf)
  {
    forall d, id | 0 <= d < |layers| ensures id in layers[d] <==> id in layers0[d] {
      assert id in layers[d] <==> id in multiset(layers[d]);
    }
  }

  /** The nodes of an edge whose source has a longest upstream chain, both placed. */
  ghost predicate Derives(edges: seq<Edge>, e: Edge, length: nat, placed: map<string, Placed>) {
    e in edges && e.source != e.target && e.source in placed && e.target in placed && Longest(edges, e.source, length)
  }

  /** Layering and placing together: every derivation reads from left to right, each node at least a column right of
      what it is derived from, wherever it has a longest chain upstream, so everywhere on an acyclic graph. */
  method PlaceLineage(ids: seq<string>, edges: seq<Edge>) returns (placed: map<string, Placed>)
    ensures forall id :: id in placed <==> id in ids
    ensures forall e, length: nat :: Derives(edges, e, length, placed) ==>
            placed[e.source].x - placed[e.target].x >= COL_W
    ensures Acyclic(edges) ==>
      forall e :: e in edges && e.source != e.target && e.source in placed && e.target in placed
                  ==> placed[e.source].x - placed[e.target].x >= COL_W
  {
    hide Acyclic, Longest, Apart, LaidOut;
    var depth, rounds := ComputeDepths(ids, edges);
    placed := Layout(ids, edges, id => OrZero(depth, id));
    forall e, length: nat | Derives(edges, e, length, placed)
      ensures placed[e.source].x - placed[e.target].x >= COL_W
    {
      var k :| 0 <= k < |edges| && edges[k] == e;
      assert Touches(edges[k], e.source) && Touches(edges[k], e.target);
      var target := UpstreamIsBoundedToo(edges, e, length);
      assert ids != [];
    }
    if Acyclic(edges) {
      forall e | e in edges && e.source != e.target && e.source in placed && e.target in placed
        ensures placed[e.source].x - placed[e.target].x >= COL_W
      {
        assert ids != [];
        assert Derives(edges, e, OrZero(depth, e.source), placed);
      }
    }
  }
}
