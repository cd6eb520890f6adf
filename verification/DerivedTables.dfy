/**
 What a table fed (`lakehouse_kit/derived_tables.py`): the breadth-first walk of the provenance edge list,
 to a depth or to the end, whatever cycles the edges hold.

 The edge list answers `rows(inputs)` in any order it likes; all that is asked of it is that every call of
 one walk reads the same edges.
 */
module DerivedTables {
  import opened Outcomes

  /** A run wrote `output` from `input`; `name` is what its event called the output, possibly nothing. */
  datatype Row = Row(input: string, output: string, name: string, receivedAt: int)

  type Rows = set<string> -> seq<Row>

  datatype DerivedWalk = DerivedWalk(depths: map<string, nat>, names: map<string, string>, complete: bool)

  ghost predicate Answers(rows: Rows, edges: set<Row>) {
    forall inputs: set<string>, r: Row :: r in rows(inputs) <==> r in edges && r.input in inputs
  }

  // ---------------------------------------------------------------- reachability

  function Outputs(edges: set<Row>, inputs: set<string>): set<string> {
    set r | r in edges && r.input in inputs :: r.output
  }

  /** The keys within `n` hops of the sources, the sources included. */
  function Reach(edges: set<Row>, sources: set<string>, n: nat): set<string> {
    if n == 0 then sources else Reach(edges, sources, n - 1) + Outputs(edges, Reach(edges, sources, n - 1))
  }

  /** A chain of edges, key by key. */
  ghost predicate Chain(edges: set<Row>, keys: seq<string>) {
    |keys| > 0 && forall i :: 0 <= i < |keys| - 1 ==> Linked(edges, keys[i], keys[i + 1])
  }

  ghost predicate Linked(edges: set<Row>, input: string, output: string) {
    exists r :: r in edges && r.input == input && r.output == output
  }

  ghost predicate ChainTo(edges: set<Row>, sources: set<string>, key: string, keys: seq<string>) {
    Chain(edges, keys) && keys[0] in sources && keys[|keys| - 1] == key
  }

  /** Within n hops means at the end of a chain of at most n edges from a source. */
  lemma {:induction false} ReachIsByChains(edges: set<Row>, sources: set<string>, n: nat, key: string)
    ensures key in Reach(edges, sources, n) <==> exists keys :: ChainTo(edges, sources, key, keys) && |keys| <= n + 1
  {
    if key in Reach(edges, sources, n) {
      var keys := ChainOf(edges, sources, n, key);
    }
    if keys :| ChainTo(edges, sources, key, keys) && |keys| <= n + 1 {
      ChainStaysInReach(edges, sources, n, keys);
    }
  }

  lemma {:induction false} ChainOf(
      edges: set<Row>, sources: set<string>, n: nat, key: string)
      returns (keys: seq<string>)
    requires key in Reach(edges, sources, n)
    ensures ChainTo(edges, sources, key, keys) && |keys| <= n + 1
  {
    if n == 0 {
      keys := [key];
    } else if key in Reach(edges, sources, n - 1) {
      keys := ChainOf(edges, sources, n - 1, key);
    } else {
      var r :| r in edges && r.input in Reach(edges, sources, n - 1) && r.output == key;
      var shorter := ChainOf(edges, sources, n - 1, r.input);
      keys := shorter + [key];
      assert Linked(edges, r.input, key);
    }
  }

  lemma {:induction false} ChainStaysInReach(edges: set<Row>, sources: set<string>, n: nat, keys: seq<string>)
    requires Chain(edges, keys) && keys[0] in sources && |keys| <= n + 1
    ensures keys[|keys| - 1] in Reach(edges, sources, n)
    decreases |keys|
  {
    if |keys| == 1 {
      ReachGrows(edges, sources, 0, n);
    } else {
      var m := |keys| - 1;
      ChainStaysInReach(edges, sources, n - 1, keys[..m]);
      assert Linked(edges, keys[m - 1], keys[m - 1 + 1]);
    }
  }

  lemma {:induction false} ReachGrows(edges: set<Row>, sources: set<string>, m: nat, n: nat)
    requires m <= n
    ensures Reach(edges, sources, m) <= Reach(edges, sources, n)
  {
    if m < n {
      ReachGrows(edges, sources, m, n - 1);
    }
  }

  lemma {:induction false} SameReachSameHop(edges: set<Row>, sources: set<string>, m: nat, n: nat)
    requires Reach(edges, sources, m) == Reach(edges, sources, n)
    ensures Reach(edges, sources, m + 1) == Reach(edges, sources, n + 1)
  {
    hide Outputs;
  }

  lemma {:induction false} ReachSettles(edges: set<Row>, sources: set<string>, m: nat, n: nat)
    requires m <= n && Reach(edges, sources, m + 1) == Reach(edges, sources, m)
    ensures Reach(edges, sources, n) == Reach(edges, sources, m)
    decreases n
  {
    hide *;
    if m < n {
      ReachSettles(edges, sources, m, n - 1);
      SameReachSameHop(edges, sources, m, n - 1);
    }
  }

  // ---------------------------------------------------------------- the newest name

  function NameOf(r: Row): string {
    if r.name == "" then r.output else r.name
  }

  function From(edges: set<Row>, inputs: set<string>): set<Row> {
    set r | r in edges && r.input in inputs
  }

  ghost predicate IsNewest(r: Row, considered: set<Row>) {
    && r in considered
    && forall other :: other in considered && other.output == r.output ==> other.receivedAt <= r.receivedAt
  }

  /** `newest` holds, for exactly the keys `considered` writes, the time and name of an edge none is newer than. */
  ghost predicate NewestOf(newest: map<string, (int, string)>, considered: set<Row>) {
    && (forall r :: r in considered ==> r.output in newest)
    && (forall key :: key in newest ==>
          exists r :: IsNewest(r, considered) && r.output == key && newest[key] == (r.receivedAt, NameOf(r)))
  }

  function Noted(newest: map<string, (int, string)>, r: Row): map<string, (int, string)> {
    if r.output !in newest || r.receivedAt >= newest[r.output].0
    then newest[r.output := (r.receivedAt, NameOf(r))]
    else newest
  }

  lemma {:induction false} NotingKeepsNewest(newest: map<string, (int, string)>, considered: set<Row>, r: Row)
    requires NewestOf(newest, considered)
    ensures NewestOf(Noted(newest, r), considered + {r})
  {
    var newer, more := Noted(newest, r), considered + {r};
    forall key | key in newer
      ensures exists x :: IsNewest(x, more) && x.output == key && newer[key] == (x.receivedAt, NameOf(x))
    {
      if key == r.output && newer[key] == (r.receivedAt, NameOf(r))
         && (key in newest ==> r.receivedAt >= newest[key].0) {
        if key in newest {
          var earlier :| IsNewest(earlier, considered) && earlier.output == key
                         && newest[key] == (earlier.receivedAt, NameOf(earlier));
        }
        assert IsNewest(r, more);
      } else {
        var x :| IsNewest(x, considered) && x.output == key && newest[key] == (x.receivedAt, NameOf(x));
        assert IsNewest(x, more);
      }
    }
  }

  /** `_outputs`: the keys written from `inputs`, and `newest` brought up to date with their edges. */
  method OutputsOf(
      rows: Rows, inputs: set<string>, newest: map<string, (int, string)>, ghost edges: set<Row>,
      ghost considered: set<Row>)
    returns (found: set<string>, newer: map<string, (int, string)>)
    requires Answers(rows, edges) && NewestOf(newest, considered)
    ensures found == Outputs(edges, inputs)
    ensures NewestOf(newer, considered + From(edges, inputs))
  {
    hide NewestOf, NameOf;
    var answer := rows(inputs);
    found := {};
    newer := newest;
    ghost var done: set<Row> := {};
    assert considered + done == considered;
    var i := 0;
    while i < |answer|
      invariant 0 <= i <= |answer|
      invariant forall r :: r in done <==> r in answer[..i]
      invariant found == Written(done)
      invariant NewestOf(newer, considered + done)
    {
      var r := answer[i];
      NotingKeepsNewest(newer, considered + done, r);
      assert considered + done + {r} == considered + (done + {r});
      assert answer[..i + 1] == answer[..i] + [r];
      WrittenOfMore(done, r);
      done := done + {r};
      found := found + {r.output};
      if r.output !in newer || r.receivedAt >= newer[r.output].0 {
        newer := newer[r.output := (r.receivedAt, NameOf(r))];
      }
      i := i + 1;
    }
    assert answer[..i] == answer;
    assert done == From(edges, inputs);
    assert Written(done) == Outputs(edges, inputs);
  }

  function Written(rows: set<Row>): set<string> {
    set r | r in rows :: r.output
  }

  lemma {:induction false} WrittenOfMore(rows: set<Row>, r: Row)
    ensures Written(rows + {r}) == Written(rows) + {r.output}
  {
    assert r in rows + {r};
    forall k | k in Written(rows) ensures k in Written(rows + {r}) {
      var x :| x in rows && x.output == k;
      assert x in rows + {r};
    }
  }

  // ---------------------------------------------------------------- the walk

  /** Within the walk's limit: None, and any negative depth, is no limit. */
  ghost predicate WithinLimit(edges: set<Row>, sources: set<string>, maxDepth: Option<int>, key: string) {
    exists n: nat :: (maxDepth.Some? && maxDepth.value >= 0 ==> n <= maxDepth.value) && key in Reach(edges, sources, n)
  }

  ghost predicate Shortest(edges: set<Row>, sources: set<string>, key: string, hops: nat) {
    key in Reach(edges, sources, hops) && forall m: nat :: m < hops ==> key !in Reach(edges, sources, m)
  }

  /** The keys of `depths` are the non-sources within `d` hops, each at its shortest hop count. */
  ghost predicate WalkedTo(edges: set<Row>, sources: set<string>, d: nat, depths: map<string, nat>) {
    && depths.Keys == Reach(edges, sources, d) - sources
    && forall k :: k in depths ==> depths[k] <= d && Shortest(edges, sources, k, depths[k])
  }

  /** What the last hop reached first. */
  ghost function Frontier(edges: set<Row>, sources: set<string>, d: nat): set<string> {
    if d == 0 then sources else Reach(edges, sources, d) - Reach(edges, sources, d - 1)
  }

  lemma {:induction false} OneHopFurther(edges: set<Row>, sources: set<string>, d: nat)
    ensures Reach(edges, sources, d + 1) == Reach(edges, sources, d) + Outputs(edges, Frontier(edges, sources, d))
  {
    var here, front := Reach(edges, sources, d), Frontier(edges, sources, d);
    forall k | k in Outputs(edges, here) && k !in here ensures k in Outputs(edges, front) {
      var r :| r in edges && r.input in here && r.output == k;
      if d > 0 {
        var back := Reach(edges, sources, d - 1);
        assert r.input in back ==> k in Outputs(edges, back);
      }
    }
  }

  lemma {:induction false} WalkedOneHopFurther(
      edges: set<Row>, sources: set<string>, d: nat, depths: map<string, nat>, more: map<string, nat>)
    requires WalkedTo(edges, sources, d, depths)
    requires more.Keys == depths.Keys + Frontier(edges, sources, d + 1)
    requires forall k :: k in depths ==> more[k] == depths[k]
    requires forall k :: k in Frontier(edges, sources, d + 1) ==> more[k] == d + 1
    ensures WalkedTo(edges, sources, d + 1, more)
  {
    ReachGrows(edges, sources, 0, d);
    ReachGrows(edges, sources, d, d + 1);
    var front := Frontier(edges, sources, d + 1);
    forall k | k in front ensures Shortest(edges, sources, k, d + 1) {
      forall m: nat | m < d + 1 ensures k !in Reach(edges, sources, m) {
        ReachGrows(edges, sources, m, d);
      }
    }
  }

  /** `r` is an edge into `key` from `inputs` that none is newer than. */
  ghost predicate NewestInto(r: Row, edges: set<Row>, inputs: set<string>, key: string) {
    IsNewest(r, From(edges, inputs)) && r.output == key
  }

  /** The keys the next hop reaches first, their edges noted. */
  method Hop(
      rows: Rows, frontier: set<string>, depths: map<string, nat>, newest: map<string, (int, string)>,
      sources: set<string>, ghost edges: set<Row>, ghost d: nat)
    returns (found: set<string>, newer: map<string, (int, string)>)
    requires Answers(rows, edges) && WalkedTo(edges, sources, d, depths) && frontier == Frontier(edges, sources, d)
    requires NewestOf(newest, From(edges, Reach(edges, sources, d) - frontier))
    ensures found == Frontier(edges, sources, d + 1) && found <= Written(edges)
    ensures NewestOf(newer, From(edges, Reach(edges, sources, d)))
  {
    hide NewestOf, Shortest, Answers;
    ghost var here := Reach(edges, sources, d);
    var all;
    all, newer := OutputsOf(rows, frontier, newest, edges, From(edges, here - frontier));
    assert From(edges, here - frontier) + From(edges, frontier) == From(edges, here);
    found := all - depths.Keys - sources;
    OneHopFurther(edges, sources, d);
    ReachGrows(edges, sources, 0, d);
    assert found <= Written(edges);
  }

  /** `walk` finds exactly the non-source keys within the limit, each at its shortest distance; it says
      complete exactly when no reachable key is missing; each name is that of an edge into the key, from a
      source or a reached key, that none is newer than; and it always ends, cycles or not. */
  method Walk(rows: Rows, sources: set<string>, maxDepth: Option<int>, ghost edges: set<Row>)
    returns (walk: DerivedWalk)
    requires Answers(rows, edges)
    ensures forall k :: k in walk.depths <==> k !in sources && WithinLimit(edges, sources, maxDepth, k)
    ensures forall k :: k in walk.depths ==> Shortest(edges, sources, k, walk.depths[k])
    ensures walk.complete <==> forall k, n: nat :: k in Reach(edges, sources, n) ==> k in sources || k in walk.depths
    ensures walk.names.Keys == walk.depths.Keys
    ensures forall k :: k in walk.names ==>
      exists r ::
        NewestInto(r, edges, sources + walk.depths.Keys, k) && walk.names[k] == if r.name != "" then r.name else k
  {
    hide NewestOf, Shortest, NewestInto, WithinLimit, Answers, Frontier, WalkedTo, IsNewest;
    var depths: map<string, nat> := map[];
    var newest: map<string, (int, string)> := map[];
    var frontier, depth := sources, 0;
    WalkStarts(edges, sources);
    while frontier != {}
      invariant depth >= 0 && WalkedTo(edges, sources, depth, depths)
      invariant maxDepth.Some? && maxDepth.value >= 0 ==> depth <= maxDepth.value
      invariant frontier == Frontier(edges, sources, depth)
      invariant NewestOf(newest, From(edges, Reach(edges, sources, depth) - frontier))
      decreases Written(edges) - depths.Keys, if frontier == {} then 0 else 1
    {
      var found;
      found, newest := Hop(rows, frontier, depths, newest, sources, edges, depth);
      if maxDepth == Some(depth) {
        StoppedAt(edges, sources, maxDepth, depth, depths);
        CompleteExactly(edges, sources, depth, depths);
        walk := Walked(depths, newest, found == {}, sources, edges, depth);
        return;
      }
      var more := depths + map k | k in found :: depth + 1;
      FoundIsNew(edges, sources, depth, depths);
      WalkedOneHopFurther(edges, sources, depth, depths, more);
      depth, depths, frontier := depth + 1, more, found;
    }
    assert Reach(edges, sources, depth) - frontier == Reach(edges, sources, depth);
    NothingFound(edges, sources, depth);
    StoppedAt(edges, sources, maxDepth, depth, depths);
    CompleteExactly(edges, sources, depth, depths);
    walk := Walked(depths, newest, true, sources, edges, depth);
  }

  lemma {:induction false} NothingFound(edges: set<Row>, sources: set<string>, d: nat)
    requires Frontier(edges, sources, d) == {}
    ensures Frontier(edges, sources, d + 1) == {}
  {
    OneHopFurther(edges, sources, d);
  }

  lemma {:induction false} FoundIsNew(edges: set<Row>, sources: set<string>, d: nat, depths: map<string, nat>)
    requires WalkedTo(edges, sources, d, depths)
    ensures Reach(edges, sources, d + 1) - Frontier(edges, sources, d + 1) == Reach(edges, sources, d)
    ensures Frontier(edges, sources, d + 1) !! depths.Keys
  {
    ReachGrows(edges, sources, d, d + 1);
  }

  lemma {:induction false} WalkStarts(edges: set<Row>, sources: set<string>)
    ensures WalkedTo(edges, sources, 0, map[]) && Frontier(edges, sources, 0) == sources
    ensures From(edges, Reach(edges, sources, 0) - sources) == {} && NewestOf(map[], {})
  {
  }

  /** `_walked`. */
  method Walked(depths: map<string, nat>, newest: map<string, (int, string)>, complete: bool,
                ghost sources: set<string>, ghost edges: set<Row>, ghost d: nat)
    returns (walk: DerivedWalk)
    requires WalkedTo(edges, sources, d, depths) && NewestOf(newest, From(edges, Reach(edges, sources, d)))
    ensures walk.depths == depths && walk.complete == complete && walk.names.Keys == depths.Keys
    ensures forall k :: k in walk.names ==>
      exists r :: NewestInto(r, edges, sources + depths.Keys, k) && walk.names[k] == if r.name != "" then r.name else k
  {
    walk := DerivedWalk(depths, map k | k in depths && k in newest :: newest[k].1, complete);
    ReachGrows(edges, sources, 0, d);
    assert sources + depths.Keys == Reach(edges, sources, d);
    forall k | k in depths ensures k in newest {
      var hops := depths[k];
      assert Shortest(edges, sources, k, hops);
      assert hops > 0 && k !in Reach(edges, sources, hops - 1);
      var r :| r in edges && r.input in Reach(edges, sources, hops - 1) && r.output == k;
      ReachGrows(edges, sources, hops - 1, d);
      assert r in From(edges, Reach(edges, sources, d));
    }
  }

  /** What a walk that stopped after `d` hops has found, when it stopped at its limit or with nothing left. */
  lemma {:induction false} StoppedAt(
      edges: set<Row>, sources: set<string>, maxDepth: Option<int>, d: nat, depths: map<string, nat>)
    requires WalkedTo(edges, sources, d, depths)
    requires maxDepth == Some(d) || Frontier(edges, sources, d + 1) == {}
    requires maxDepth.Some? && maxDepth.value >= 0 ==> d <= maxDepth.value
    ensures forall k :: k in depths <==> k !in sources && WithinLimit(edges, sources, maxDepth, k)
    ensures forall k :: k in depths ==> Shortest(edges, sources, k, depths[k])
  {
    forall k | WithinLimit(edges, sources, maxDepth, k) ensures k in Reach(edges, sources, d) {
      var n: nat :| (maxDepth.Some? && maxDepth.value >= 0 ==> n <= maxDepth.value) && k in Reach(edges, sources, n);
      if n <= d {
        ReachGrows(edges, sources, n, d);
      } else {
        NothingFurther(edges, sources, d, n);
      }
    }
  }

  lemma {:induction false} NothingFurther(edges: set<Row>, sources: set<string>, d: nat, n: nat)
    requires d <= n && Frontier(edges, sources, d + 1) == {}
    ensures Reach(edges, sources, n) == Reach(edges, sources, d)
  {
    ReachGrows(edges, sources, d, d + 1);
    var here, further := Reach(edges, sources, d), Reach(edges, sources, d + 1);
    forall k | k in further ensures k in here {
      assert k !in further - here;
    }
    assert here == further;
    ReachSettles(edges, sources, d, n);
  }

  lemma {:induction false} CompleteExactly(edges: set<Row>, sources: set<string>, d: nat, depths: map<string, nat>)
    requires WalkedTo(edges, sources, d, depths)
    ensures Frontier(edges, sources, d + 1) == {}
            <==> forall k, n: nat :: k in Reach(edges, sources, n) ==> k in sources || k in depths
  {
    ReachGrows(edges, sources, d, d + 1);
    if Frontier(edges, sources, d + 1) == {} {
      forall k, n: nat | k in Reach(edges, sources, n) ensures k in Reach(edges, sources, d) {
        if n <= d {
          ReachGrows(edges, sources, n, d);
        } else {
          NothingFurther(edges, sources, d, n);
        }
      }
    } else {
      ReachGrows(edges, sources, 0, d);
      var k :| k in Reach(edges, sources, d + 1) && k !in Reach(edges, sources, d);
      assert k !in sources && k !in depths;
    }
  }
}
