/**
 Longest-path layering of the lineage graph (`depths` in `frontend/packages/flow/src/layout.ts`): relax a
 map of depths in place, edge by edge, until a round changes nothing or as many rounds have run as the map
 has nodes. An edge's `source` is derived from its `target`, so the target is upstream.
 */
module LayerDepths {
  import opened SetSizes

  datatype Edge = Edge(source: string, target: string)

  type Depths = map<string, nat>

  /** A node the map does not hold counts 0. */
  function OrZero(depth: Depths, id: string): nat {
    if id in depth then depth[id] else 0
  }

  // ---------------------------------------------------------------- upstream chains

  predicate Proper(edges: seq<Edge>, a: string, b: string) {
    a != b && Edge(a, b) in edges
  }

  /** `p` follows edges upstream, self-loops aside. */
  predicate Chain(edges: seq<Edge>, p: seq<string>) {
    |p| > 0 && forall i :: 0 <= i < |p| - 1 ==> Proper(edges, p[i], p[i + 1])
  }

  ghost predicate HasChain(edges: seq<Edge>, id: string, length: nat) {
    exists p :: Chain(edges, p) && p[0] == id && |p| == length + 1
  }

  /** `length` is the length of the longest upstream chain from `id`. */
  ghost predicate Longest(edges: seq<Edge>, id: string, length: nat) {
    HasChain(edges, id, length) && forall p :: Chain(edges, p) && p[0] == id ==> |p| <= length + 1
  }

  ghost predicate Acyclic(edges: seq<Edge>) {
    forall p :: Chain(edges, p) && |p| > 1 ==> p[0] != p[|p| - 1]
  }

  function Sources(edges: seq<Edge>): set<string> {
    set i | 0 <= i < |edges| && edges[i].source != edges[i].target :: edges[i].source
  }

  lemma {:induction false} PartOfChain(edges: seq<Edge>, p: seq<string>, lo: nat, hi: nat)
    requires Chain(edges, p) && lo < hi <= |p|
    ensures Chain(edges, p[lo..hi])
  {
    forall k | 0 <= k < hi - lo - 1 ensures Proper(edges, p[lo..hi][k], p[lo..hi][k + 1]) {
      var i := lo + k;
      assert Proper(edges, p[i], p[i + 1]);
    }
  }

  lemma {:induction false} DistinctNodesCount(p: seq<string>, n: nat, among: set<string>)
    requires n <= |p| && forall i, j :: 0 <= i < j < n ==> p[i] != p[j]
    requires forall i :: 0 <= i < n ==> p[i] in among
    ensures n <= |among|
  {
    if n > 0 {
      DistinctNodesCount(p, n - 1, among - {p[n - 1]});
    }
  }

  /** Without cycles a chain visits each node once, so it is no longer than there are sources. */
  lemma {:induction false} ChainsAreShort(edges: seq<Edge>, p: seq<string>)
    requires Acyclic(edges) && Chain(edges, p)
    ensures |p| - 1 <= |Sources(edges)|
  {
    forall i, j | 0 <= i < j < |p| - 1 ensures p[i] != p[j] {
      var loop := p[i..j + 1];
      PartOfChain(edges, p, i, j + 1);
    }
    AllButTheLastAreSources(edges, p);
    DistinctNodesCount(p, |p| - 1, Sources(edges));
  }

  /** A chain that meets a node twice can go round as often as it likes. */
  lemma {:induction false} RoundAndRound(edges: seq<Edge>, p: seq<string>, i: nat, j: nat, length: nat)
    requires Chain(edges, p) && i < j < |p| && p[i] == p[j]
    ensures exists longer :: Chain(edges, longer) && longer[0] == p[0] && |longer| > length
    decreases length - |p|
  {
    if |p| <= length {
      var longer := p[..j] + p[i..];
      forall k | 0 <= k < |longer| - 1 ensures Proper(edges, longer[k], longer[k + 1]) {
        var m := if k < j then k else k - j + i;
        assert Proper(edges, p[m], p[m + 1]);
      }
      assert Chain(edges, longer);
      RoundAndRound(edges, longer, i, j, length);
    }
  }

  /** A node whose chains are bounded has only chains that meet each node once, whatever cycles there are
      elsewhere; so they are no longer than there are sources. */
  lemma {:induction false} BoundedChainsAreShort(edges: seq<Edge>, id: string, length: nat, p: seq<string>)
    requires Longest(edges, id, length) && Chain(edges, p) && p[0] == id
    ensures |p| - 1 <= |Sources(edges)|
  {
    forall i, j | 0 <= i < j < |p| - 1 ensures p[i] != p[j] {
      if p[i] == p[j] {
        RoundAndRound(edges, p, i, j, length + 1);
        assert false;
      }
    }
    AllButTheLastAreSources(edges, p);
    DistinctNodesCount(p, |p| - 1, Sources(edges));
  }

  lemma {:induction false} AllButTheLastAreSources(edges: seq<Edge>, p: seq<string>)
    requires Chain(edges, p)
    ensures forall i :: 0 <= i < |p| - 1 ==> p[i] in Sources(edges)
  {
    forall i | 0 <= i < |p| - 1 ensures p[i] in Sources(edges) {
      assert Proper(edges, p[i], p[i + 1]);
      var k :| 0 <= k < |edges| && edges[k] == Edge(p[i], p[i + 1]);
    }
  }

  // ---------------------------------------------------------------- what relaxing keeps

  function Relaxed(depth: Depths, e: Edge): Depths {
    var next := OrZero(depth, e.target) + 1;
    if e.source != e.target && next > OrZero(depth, e.source) then depth[e.source := next] else depth
  }

  /** Every depth is the length of some upstream chain. */
  ghost predicate Witnessed(edges: seq<Edge>, depth: Depths) {
    forall id :: HasChain(edges, id, OrZero(depth, id))
  }

  /** Every chain of at most `length` edges is accounted for. */
  ghost predicate Covered(edges: seq<Edge>, depth: Depths, length: nat) {
    forall p :: Chain(edges, p) && |p| <= length + 1 ==> |p| - 1 <= OrZero(depth, p[0])
  }

  ghost predicate AtLeast(depth: Depths, than: Depths) {
    forall id :: OrZero(than, id) <= OrZero(depth, id)
  }

  lemma {:induction false} RelaxingIsWitnessed(edges: seq<Edge>, depth: Depths, e: Edge)
    requires Witnessed(edges, depth) && e in edges
    ensures Witnessed(edges, Relaxed(depth, e)) && AtLeast(Relaxed(depth, e), depth)
  {
    var next := OrZero(depth, e.target) + 1;
    if e.source != e.target && next > OrZero(depth, e.source) {
      assert HasChain(edges, e.target, OrZero(depth, e.target));
      var p :| Chain(edges, p) && p[0] == e.target && |p| == next;
      var longer := [e.source] + p;
      assert Proper(edges, e.source, e.target);
      assert Chain(edges, longer);
      assert HasChain(edges, e.source, next);
      forall id ensures HasChain(edges, id, OrZero(Relaxed(depth, e), id)) {
        if id != e.source {
          assert HasChain(edges, id, OrZero(depth, id));
        }
      }
    }
  }

  /** No edge can raise a depth any more. */
  ghost predicate Settled(edges: seq<Edge>, depth: Depths) {
    forall a, b :: Proper(edges, a, b) ==> OrZero(depth, b) + 1 <= OrZero(depth, a)
  }

  lemma {:induction false} SettledCovers(edges: seq<Edge>, depth: Depths, p: seq<string>)
    requires Settled(edges, depth) && Chain(edges, p)
    ensures |p| - 1 <= OrZero(depth, p[0])
    decreases |p|
  {
    if |p| > 1 {
      PartOfChain(edges, p, 1, |p|);
      SettledCovers(edges, depth, p[1..]);
      assert Proper(edges, p[0], p[0 + 1]);
    }
  }

  /** Chains that start with one of the first `done` edges and have at most `length` edges are accounted for. */
  ghost predicate CoveredBy(edges: seq<Edge>, done: nat, depth: Depths, length: nat) {
    forall p, k :: 0 <= k < done && k < |edges| && Chain(edges, p) && 1 < |p| <= length + 1
                   && edges[k] == Edge(p[0], p[1])
                   ==> |p| - 1 <= OrZero(depth, p[0])
  }

  lemma {:induction false} RelaxingCovers(edges: seq<Edge>, done: nat, depth: Depths, length: nat)
    requires done < |edges| && Covered(edges, depth, length) && CoveredBy(edges, done, depth, length + 1)
    requires AtLeast(Relaxed(depth, edges[done]), depth)
    ensures Covered(edges, Relaxed(depth, edges[done]), length)
    ensures CoveredBy(edges, done + 1, Relaxed(depth, edges[done]), length + 1)
  {
    var more, e := Relaxed(depth, edges[done]), edges[done];
    assert OrZero(more, e.source) >= OrZero(depth, e.target) + 1 || e.source == e.target;
    forall p, k | 0 <= k < done + 1 && k < |edges| && Chain(edges, p) && 1 < |p| <= length + 2
                  && edges[k] == Edge(p[0], p[1])
      ensures |p| - 1 <= OrZero(more, p[0])
    {
      if k == done {
        var rest := p[1..];
        PartOfChain(edges, p, 1, |p|);
        assert Proper(edges, p[0], p[0 + 1]);
        assert OrZero(depth, rest[0]) >= |rest| - 1;
      }
    }
  }

  lemma {:induction false} RoundCovers(edges: seq<Edge>, depth: Depths, length: nat)
    requires CoveredBy(edges, |edges|, depth, length)
    ensures Covered(edges, depth, length)
  {
    forall p | Chain(edges, p) && |p| <= length + 1 ensures |p| - 1 <= OrZero(depth, p[0]) {
      if |p| > 1 {
        assert Proper(edges, p[0], p[0 + 1]);
        var k :| 0 <= k < |edges| && edges[k] == Edge(p[0], p[1]);
      }
    }
  }

  // ---------------------------------------------------------------- the algorithm

  /** One round over the edges, in place; whether it changed anything. */
  method Round(depth0: Depths, edges: seq<Edge>, ghost length: nat) returns (depth: Depths, changed: bool)
    requires Witnessed(edges, depth0) && Covered(edges, depth0, length)
    ensures Witnessed(edges, depth) && Covered(edges, depth, length + 1)
    ensures !changed ==> depth == depth0 && Settled(edges, depth)
    ensures depth0.Keys <= depth.Keys <= depth0.Keys + Sources(edges)
  {
    hide Witnessed, Covered, CoveredBy, AtLeast;
    depth, changed := depth0, false;
    var j := 0;
    assert CoveredBy(edges, 0, depth, length + 1) by { CoveredByNone(edges, depth, length + 1); }
    while j < |edges|
      invariant 0 <= j <= |edges|
      invariant Witnessed(edges, depth) && Covered(edges, depth, length) && CoveredBy(edges, j, depth, length + 1)
      invariant !changed ==> depth == depth0
      invariant !changed ==> forall k :: 0 <= k < j && edges[k].source != edges[k].target
                                         ==> OrZero(depth, edges[k].target) + 1 <= OrZero(depth, edges[k].source)
      invariant depth0.Keys <= depth.Keys <= depth0.Keys + Sources(edges)
    {
      var e := edges[j];
      RelaxingIsWitnessed(edges, depth, e);
      RelaxingCovers(edges, j, depth, length);
      var next := OrZero(depth, e.target) + 1;
      if e.source != e.target && next > OrZero(depth, e.source) {
        depth := depth[e.source := next];
        changed := true;
      }
      j := j + 1;
    }
    RoundCovers(edges, depth, length + 1);
  }

  lemma {:induction false} CoveredByNone(edges: seq<Edge>, depth: Depths, length: nat)
    ensures CoveredBy(edges, 0, depth, length)
  {
  }

  function AllAtZero(ids: seq<string>): Depths {
    map id | id in ids :: 0
  }

  lemma {:induction false} StartIsWitnessed(ids: seq<string>, edges: seq<Edge>)
    ensures Witnessed(edges, AllAtZero(ids)) && Covered(edges, AllAtZero(ids), 0)
  {
    forall id ensures HasChain(edges, id, OrZero(AllAtZero(ids), id)) {
      assert Chain(edges, [id]);
    }
  }

  lemma {:induction false} NoMoreSourcesThanEdges(edges: seq<Edge>)
    ensures |Sources(edges)| <= |edges|
    decreases |edges|
  {
    if edges != [] {
      var n := |edges| - 1;
      NoMoreSourcesThanEdges(edges[..n]);
      assert Sources(edges) <= Sources(edges[..n]) + {edges[n].source};
      SubsetIsNoLarger(Sources(edges), Sources(edges[..n]) + {edges[n].source});
    }
  }

  /** On every input, cyclic ones included, there are no more rounds than nodes and each depth is the length of
      some upstream chain; and every node that has a longest one gets its length, cycles elsewhere or not. So on
      an acyclic input every node whatever does. The one exception is an input with an edge and no id: there no
      round runs at all. */
  method ComputeDepths(ids: seq<string>, edges: seq<Edge>) returns (depth: Depths, rounds: nat)
    ensures rounds <= |depth|
    ensures ids != [] || Sources(edges) == {} ==>
      forall id, length: nat :: Longest(edges, id, length) ==> length == OrZero(depth, id)
    ensures (set id | id in ids) <= depth.Keys <= (set id | id in ids) + Sources(edges)
    ensures forall id :: HasChain(edges, id, OrZero(depth, id))
    ensures Acyclic(edges) && (ids != [] || Sources(edges) == {}) ==> forall id :: Longest(edges, id, OrZero(depth, id))
    ensures ids == [] ==> depth == map[]
  {
    hide Acyclic, Longest, Settled;
    depth := AllAtZero(ids);
    StartIsWitnessed(ids, edges);
    ghost var given := set id | id in ids;
    ghost var bound := |given| + |edges|;
    rounds := 0;
    var i := 0;
    while i < |depth|
      invariant 0 <= i <= |depth| && rounds == i && Witnessed(edges, depth) && Covered(edges, depth, i)
      invariant given <= depth.Keys <= given + Sources(edges)
      invariant i == 0 ==> depth == AllAtZero(ids)
      invariant ids == [] ==> depth == map[]
      decreases bound - i
    {
      assert |depth| <= bound by {
        NoMoreSourcesThanEdges(edges);
        SubsetIsNoLarger(depth.Keys, given + Sources(edges));
      }
      var changed;
      ghost var before := depth;
      depth, changed := Round(depth, edges, i);
      rounds := rounds + 1;
      SubsetIsNoLarger(before.Keys, depth.Keys);
      assert |before.Keys| == |before| && |depth.Keys| == |depth|;
      if !changed {
        EndsSettled(edges, depth);
        OneLongest(edges, depth);
        return;
      }
      i := i + 1;
    }
    if Acyclic(edges) && (ids != [] || Sources(edges) == {}) {
      assert ids != [] ==> i > 0 by {
        if ids != [] {
          assert ids[0] in depth;
        }
      }
      EndsCapped(edges, depth, i);
    }
    if ids != [] || Sources(edges) == {} {
      assert ids != [] ==> i > 0 by {
        if ids != [] {
          assert ids[0] in depth;
        }
      }
      EndsCappedForTheBounded(edges, depth, i);
    }
  }

  lemma {:induction false} OneLongest(edges: seq<Edge>, depth: Depths)
    requires forall id :: Longest(edges, id, OrZero(depth, id))
    ensures forall id, length: nat :: Longest(edges, id, length) ==> length == OrZero(depth, id)
  {
    forall id, length: nat | Longest(edges, id, length) ensures length == OrZero(depth, id) {
      assert Longest(edges, id, OrZero(depth, id));
      var p :| Chain(edges, p) && p[0] == id && |p| == length + 1;
      var q :| Chain(edges, q) && q[0] == id && |q| == OrZero(depth, id) + 1;
    }
  }

  lemma {:induction false} SourcesAreListed(edges: seq<Edge>, depth: Depths, rounds: nat)
    requires Covered(edges, depth, rounds) && (rounds > 0 || Sources(edges) == {})
    ensures |Sources(edges)| <= |depth|
  {
    forall id | id in Sources(edges) ensures id in depth.Keys {
      var k :| 0 <= k < |edges| && edges[k].source != edges[k].target && edges[k].source == id;
      assert Proper(edges, id, edges[k].target);
      assert Chain(edges, [id, edges[k].target]);
    }
    SubsetIsNoLarger(Sources(edges), depth.Keys);
    assert |depth.Keys| == |depth|;
  }

  /** The cap on the rounds cuts no bounded node short. */
  lemma {:induction false} EndsCappedForTheBounded(edges: seq<Edge>, depth: Depths, rounds: nat)
    requires Witnessed(edges, depth) && Covered(edges, depth, rounds)
    requires |depth| <= rounds && (rounds > 0 || Sources(edges) == {})
    ensures forall id, length: nat :: Longest(edges, id, length) ==> length == OrZero(depth, id)
  {
    SourcesAreListed(edges, depth, rounds);
    forall id, length: nat | Longest(edges, id, length) ensures length == OrZero(depth, id) {
      var p :| Chain(edges, p) && p[0] == id && |p| == length + 1;
      BoundedChainsAreShort(edges, id, length, p);
      assert length <= OrZero(depth, id);
      assert HasChain(edges, id, OrZero(depth, id));
    }
  }

  lemma {:induction false} EndsSettled(edges: seq<Edge>, depth: Depths)
    requires Witnessed(edges, depth) && Settled(edges, depth)
    ensures forall id :: Longest(edges, id, OrZero(depth, id))
  {
    forall id ensures Longest(edges, id, OrZero(depth, id)) {
      forall p | Chain(edges, p) && p[0] == id ensures |p| <= OrZero(depth, id) + 1 {
        SettledCovers(edges, depth, p);
      }
    }
  }

  lemma {:induction false} EndsCapped(edges: seq<Edge>, depth: Depths, rounds: nat)
    requires Acyclic(edges) && Witnessed(edges, depth) && Covered(edges, depth, rounds)
    requires |depth| <= rounds && (rounds > 0 || Sources(edges) == {})
    ensures forall id :: Longest(edges, id, OrZero(depth, id))
  {
    SourcesAreListed(edges, depth, rounds);
    forall id ensures Longest(edges, id, OrZero(depth, id)) {
      forall p | Chain(edges, p) && p[0] == id ensures |p| <= OrZero(depth, id) + 1 {
        ChainsAreShort(edges, p);
      }
    }
  }

  /** Chains that are bounded have a longest among them. */
  lemma {:induction false} SomeChainIsLongest(edges: seq<Edge>, id: string, bound: nat) returns (length: nat)
    requires forall p :: Chain(edges, p) && p[0] == id ==> |p| <= bound + 1
    ensures Longest(edges, id, length)
  {
    if HasChain(edges, id, bound) {
      length := bound;
    } else {
      assert Chain(edges, [id]);
      assert forall p :: Chain(edges, p) && p[0] == id ==> |p| != bound + 1;
      length := SomeChainIsLongest(edges, id, bound - 1);
    }
  }

  /** What an edge's source derives from has a longest chain if the source has one. */
  lemma {:induction false} UpstreamIsBoundedToo(edges: seq<Edge>, e: Edge, source: nat) returns (target: nat)
    requires e in edges && e.source != e.target && Longest(edges, e.source, source)
    ensures Longest(edges, e.target, target) && source > target
  {
    forall p | Chain(edges, p) && p[0] == e.target ensures |p| <= source + 1 {
      var longer := [e.source] + p;
      assert Proper(edges, e.source, e.target);
      assert Chain(edges, longer);
    }
    target := SomeChainIsLongest(edges, e.target, source);
    EdgesIncreaseDepth(edges, e, source, target);
  }

  /** Whatever assigns every node its longest upstream chain sends every edge strictly to the right. */
  lemma {:induction false} EdgesIncreaseDepth(edges: seq<Edge>, e: Edge, source: nat, target: nat)
    requires e in edges && e.source != e.target
    requires Longest(edges, e.source, source) && Longest(edges, e.target, target)
    ensures source > target
  {
    var p :| Chain(edges, p) && p[0] == e.target && |p| == target + 1;
    var longer := [e.source] + p;
    assert Proper(edges, e.source, e.target);
    assert Chain(edges, longer);
  }

  /** The one input on which it falls short: with no ids, an edge's source still has a chain above it, and the
      map says depth 0 of it. */
  lemma {:induction false} NoIdsMeansNoDepths(edges: seq<Edge>, e: Edge)
    requires e in edges && e.source != e.target
    ensures !Longest(edges, e.source, OrZero(map[], e.source))
  {
    assert Proper(edges, e.source, e.target);
    assert Chain(edges, [e.source, e.target]);
  }
}
