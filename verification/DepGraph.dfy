/** Facts about the dependency graph that `crates/iac-controlplane/src/depsort.rs` sorts.
    Node `i` depends on the nodes listed in `g[i]`. */
module DepGraph {
  import opened Common

  type Graph = seq<seq<nat>>

  /** Every edge points at a node, and a node lists each dependency once. */
  ghost predicate ValidGraph(g: Graph) {
    forall i | 0 <= i < |g| :: Distinct(g[i]) && forall d | d in g[i] :: d < |g|
  }

  // ---- counting what is still missing ----

  /** How many of `deps` have not been emitted: the in-degree that remains. */
  ghost function Missing(deps: seq<nat>, done: seq<nat>): nat {
    if deps == [] then 0
    else (if deps[0] in done then 0 else 1) + Missing(deps[1..], done)
  }

  lemma {:induction false} MissingZero(deps: seq<nat>, done: seq<nat>)
    ensures Missing(deps, done) == 0 <==> forall d | d in deps :: d in done
  {
    if deps != [] {
      MissingZero(deps[1..], done);
      assert forall d :: d in deps <==> d == deps[0] || d in deps[1..];
    }
  }

  lemma {:induction false} MissingAfter(deps: seq<nat>, done: seq<nat>, x: nat)
    requires Distinct(deps) && x !in done
    ensures Missing(deps, done) == Missing(deps, done + [x]) + (if x in deps then 1 else 0)
  {
    if deps != [] {
      MissingAfter(deps[1..], done, x);
      assert deps == [deps[0]] + deps[1..];
      assert deps[0] in done + [x] <==> deps[0] in done || deps[0] == x;
      if deps[0] == x {
        assert x !in deps[1..];
      }
    }
  }

  lemma {:induction false} MissingNone(deps: seq<nat>)
    ensures Missing(deps, []) == |deps|
  {
    if deps != [] {
      MissingNone(deps[1..]);
    }
  }

  // ---- the order a FIFO queue produces ----

  /** `deps` is complete within the first `t` entries of `s` and not before. */
  ghost predicate ReadyExactlyAt(s: seq<nat>, deps: seq<nat>, t: nat) {
    t <= |s| && (forall d | d in deps :: d in s[..t]) && (t > 0 ==> s[t - 1] in deps)
  }

  /** The `k`-th node was ready after `times[k]` nodes had been listed, before its own turn. */
  ghost predicate ListedOnTime(g: Graph, s: seq<nat>, times: seq<nat>, k: nat)
    requires k < |s| == |times|
  {
    s[k] < |g| && times[k] <= k && ReadyExactlyAt(s, g[s[k]], times[k])
  }

  /** `s` lists distinct nodes by the moment their last dependency was listed (`times`), nodes that became
      ready at the same moment by their index. */
  ghost predicate FifoListing(g: Graph, s: seq<nat>, times: seq<nat>) {
    && |times| == |s|
    && Distinct(s)
    && (forall k | 0 <= k < |s| :: ListedOnTime(g, s, times, k))
    && (forall a, b | 0 <= a < b < |s| :: times[a] <= times[b] && (times[a] == times[b] ==> s[a] < s[b]))
  }

  ghost predicate Complete(g: Graph, s: seq<nat>) {
    forall i | 0 <= i < |g| :: i in s
  }

  /** The full order Kahn's algorithm with a FIFO queue yields. */
  ghost predicate IsFifoOrder(g: Graph, s: seq<nat>) {
    Complete(g, s) && exists times :: FifoListing(g, s, times)
  }

  lemma FifoAppend(g: Graph, s: seq<nat>, times: seq<nat>, x: nat, t: nat)
    requires FifoListing(g, s, times) && x !in s && x < |g| && t <= |s| && ReadyExactlyAt(s, g[x], t)
    requires forall k | 0 <= k < |times| :: times[k] <= t && (times[k] == t ==> s[k] < x)
    ensures FifoListing(g, s + [x], times + [t])
  {
    var s', times' := s + [x], times + [t];
    assert s'[..t] == s[..t];
    forall k | 0 <= k < |s|
      ensures ListedOnTime(g, s', times', k)
    {
      assert ListedOnTime(g, s, times, k);
      assert s'[..times[k]] == s[..times[k]];
    }
    assert ListedOnTime(g, s', times', |s|);
  }

  lemma ReadyTimeUnique(s: seq<nat>, r: seq<nat>, k: nat, deps: seq<nat>, t: nat, u: nat)
    requires Distinct(s) && Distinct(r) && k <= |s| && k <= |r| && s[..k] == r[..k] && t <= k
    requires ReadyExactlyAt(s, deps, t) && ReadyExactlyAt(r, deps, u)
    ensures t == u
  {
    assert s[..t] == s[..k][..t] == r[..k][..t] == r[..t];
    if t > 0 {
      assert s[t - 1] == s[..k][t - 1] == r[..k][t - 1] == r[t - 1];
    }
  }

  /** Two FIFO orders of one graph agree on every prefix. */
  lemma {:induction false} FifoPrefixUnique(g: Graph, s: seq<nat>, ts: seq<nat>, r: seq<nat>, tr: seq<nat>, k: nat)
    requires FifoListing(g, s, ts) && FifoListing(g, r, tr) && Complete(g, s) && Complete(g, r)
    requires k <= |s| && k <= |r|
    ensures s[..k] == r[..k]
  {
    if k > 0 {
      FifoPrefixUnique(g, s, ts, r, tr, k - 1);
      var m := k - 1;
      var x, y := s[m], r[m];
      if x != y {
        assert ListedOnTime(g, s, ts, m) && ListedOnTime(g, r, tr, m);
        var j := PositionAfter(s, r, m, x);
        var i := PositionAfter(r, s, m, y);
        assert ListedOnTime(g, r, tr, j) && ListedOnTime(g, s, ts, i);
        ReadyTimeUnique(s, r, m, g[x], ts[m], tr[j]);
        ReadyTimeUnique(r, s, m, g[y], tr[m], ts[i]);
        assert false;
      }
      assert s[..k] == s[..m] + [x] && r[..k] == r[..m] + [y];
    }
  }

  lemma PositionAfter(s: seq<nat>, r: seq<nat>, m: nat, x: nat) returns (j: nat)
    requires m < |s| && m < |r| && s[..m] == r[..m] && Distinct(s) && x == s[m] && x in r && x != r[m]
    ensures m < j < |r| && r[j] == x
  {
    j :| 0 <= j < |r| && r[j] == x;
    assert forall i | 0 <= i < m :: s[..m][i] == s[i] && r[..m][i] == r[i];
  }

  lemma {:induction false} CompleteLength(g: Graph, s: seq<nat>)
    requires Complete(g, s) && Distinct(s) && forall k | 0 <= k < |s| :: s[k] < |g|
    ensures |s| == |g|
  {
    DistinctCardinality(s);
    DistinctCardinality(Identity(|g|));
    forall i: nat | i < |g|
      ensures i in Identity(|g|)
    {
      assert Identity(|g|)[i] == i;
    }
    assert Elements(s) == Elements(Identity(|g|));
  }

  lemma {:induction false} DistinctCardinality<T(!new)>(s: seq<T>)
    requires Distinct(s)
    ensures |Elements(s)| == |s|
  {
    if s != [] {
      var k := |s| - 1;
      DistinctCardinality(s[..k]);
      assert s == s[..k] + [s[k]];
      assert s[k] !in s[..k];
      assert Elements(s) == Elements(s[..k]) + {s[k]};
    }
  }

  lemma FifoNodes(g: Graph, s: seq<nat>, times: seq<nat>)
    requires FifoListing(g, s, times)
    ensures DependenciesFirst(g, s)
  {
    forall k | 0 <= k < |s|
      ensures s[k] < |g| && forall d | d in g[s[k]] :: d in s[..k]
    {
      assert ListedOnTime(g, s, times, k);
      assert s[..times[k]] == s[..k][..times[k]];
    }
  }

  /** The FIFO order is a function of the graph. */
  lemma FifoOrderUnique(g: Graph, s: seq<nat>, r: seq<nat>)
    requires IsFifoOrder(g, s) && IsFifoOrder(g, r)
    ensures s == r
  {
    var ts :| FifoListing(g, s, ts);
    var tr :| FifoListing(g, r, tr);
    FifoNodes(g, s, ts);
    FifoNodes(g, r, tr);
    CompleteLength(g, s);
    CompleteLength(g, r);
    FifoPrefixUnique(g, s, ts, r, tr, |s|);
    assert s[..|s|] == s && r[..|s|] == r;
  }

  lemma DistinctBound(s: seq<nat>, n: nat)
    requires Distinct(s) && forall k | 0 <= k < |s| :: s[k] < n
    ensures |s| <= n
  {
    DistinctCardinality(s);
    DistinctCardinality(Identity(n));
    forall i: nat | i < n
      ensures i in Identity(n)
    {
      assert Identity(n)[i] == i;
    }
    assert Elements(s) <= Elements(Identity(n));
    SubsetSize(Elements(s), Elements(Identity(n)));
  }

  // ---- dependents ----

  /** The nodes among the first `k` that depend on `d`, in index order. */
  ghost function Dependents(g: Graph, d: nat, k: nat): (s: seq<nat>)
    requires k <= |g|
    ensures forall x: nat :: x in s <==> x < k && d in g[x]
    ensures forall i | 0 <= i < |s| :: s[i] < k
    ensures forall i, j | 0 <= i < j < |s| :: s[i] < s[j]
  {
    if k == 0 then []
    else
      var before := Dependents(g, d, k - 1);
      if d in g[k - 1] then before + [k - 1] else before
  }

  // ---- cycles ----

  /** Each node depends on the next one. */
  ghost predicate IsWalk(g: Graph, w: seq<nat>) {
    && (forall k | 0 <= k < |w| :: w[k] < |g|)
    && (forall k | 0 <= k < |w| - 1 :: w[k + 1] in g[w[k]])
  }

  /** A walk whose last node depends on its first. */
  ghost predicate IsCycle(g: Graph, c: seq<nat>) {
    c != [] && IsWalk(g, c) && c[0] in g[c[|c| - 1]]
  }

  ghost predicate HasCycle(g: Graph) {
    exists c :: IsCycle(g, c)
  }

  /** Every listed node comes after all its dependencies. */
  ghost predicate DependenciesFirst(g: Graph, s: seq<nat>) {
    forall k | 0 <= k < |s| :: s[k] < |g| && forall d | d in g[s[k]] :: d in s[..k]
  }

  /** A node on a cycle is never listed. */
  lemma {:induction false} CycleNeverListed(g: Graph, s: seq<nat>, c: seq<nat>, p: nat)
    requires DependenciesFirst(g, s) && IsCycle(g, c) && p <= |s|
    ensures forall k | 0 <= k < |c| :: c[k] !in s[..p]
  {
    if p > 0 {
      CycleNeverListed(g, s, c, p - 1);
      assert s[..p] == s[..p - 1] + [s[p - 1]];
      forall k | 0 <= k < |c|
        ensures c[k] !in s[..p]
      {
        var next := if k + 1 < |c| then c[k + 1] else c[0];
        assert next in g[c[k]] && next !in s[..p - 1];
      }
    }
  }

  ghost predicate WaitsWithin(g: Graph, stuck: set<nat>, x: nat) {
    x < |g| && exists k :: 0 <= k < |g[x]| && g[x][k] in stuck
  }

  ghost predicate WalksWithin(g: Graph, stuck: set<nat>, path: seq<nat>) {
    path != [] && IsWalk(g, path) && Elements(path) <= stuck
  }

  /** Nodes each of which waits for another one of them contain a cycle: follow the waiting until a node repeats. */
  lemma {:induction false} StuckWalk(g: Graph, stuck: set<nat>, path: seq<nat>) returns (c: seq<nat>)
    requires forall x | x in stuck :: WaitsWithin(g, stuck, x)
    requires WalksWithin(g, stuck, path)
    ensures IsCycle(g, c) && Elements(c) <= stuck
    decreases stuck - Elements(path)
  {
    var last := path[|path| - 1];
    assert last in Elements(path) && WaitsWithin(g, stuck, last);
    var k :| 0 <= k < |g[last]| && g[last][k] in stuck;
    var d := g[last][k];
    assert WaitsWithin(g, stuck, d);
    if d in path {
      var j :| 0 <= j < |path| && path[j] == d;
      c := path[j..];
      assert Elements(c) <= Elements(path);
    } else {
      assert Elements(path + [d]) == Elements(path) + {d} && d !in Elements(path);
      assert WalksWithin(g, stuck, path + [d]);
      c := StuckWalk(g, stuck, path + [d]);
    }
  }

  /** The nodes left out by a listing to which no node can be added all wait for each other. */
  lemma StuckNodesWait(g: Graph, s: seq<nat>, stuck: set<nat>, x: nat)
    requires ValidGraph(g) && x < |g| && Missing(g[x], s) > 0
    requires forall i: nat :: i in stuck <==> i < |g| && i !in s
    ensures WaitsWithin(g, stuck, x)
  {
    MissingZero(g[x], s);
    var d :| d in g[x] && d !in s;
    var k :| 0 <= k < |g[x]| && g[x][k] == d;
  }

  /** A listing to which no node can be added contains every node of every listing. */
  lemma {:induction false} MaximalListingContainsAll(g: Graph, s: seq<nat>, other: seq<nat>)
    requires forall i | 0 <= i < |g| && i !in s :: Missing(g[i], s) > 0
    requires DependenciesFirst(g, other)
    ensures forall x | x in other :: x in s
  {
    if other != [] {
      var last := |other| - 1;
      var rest := other[..last];
      forall k | 0 <= k < |rest|
        ensures rest[k] < |g| && forall d | d in g[rest[k]] :: d in rest[..k]
      {
        assert rest[..k] == other[..k];
      }
      MaximalListingContainsAll(g, s, rest);
      MissingZero(g[other[last]], s);
      assert other == rest + [other[last]];
    }
  }

  /** A listing to which no node can be added is complete exactly when the graph has no cycle. */
  lemma MaximalListingCompleteIffAcyclic(g: Graph, s: seq<nat>)
    requires ValidGraph(g) && DependenciesFirst(g, s)
    requires forall i | 0 <= i < |g| && i !in s :: Missing(g[i], s) > 0
    ensures Complete(g, s) <==> !HasCycle(g)
  {
    if Complete(g, s) {
      assert s[..|s|] == s;
      forall c
        ensures !IsCycle(g, c)
      {
        if IsCycle(g, c) {
          assert c[0] in s;
          CycleNeverListed(g, s, c, |s|);
        }
      }
    } else {
      var stuck := set i: nat | i < |g| && i !in s;
      forall x | x in stuck
        ensures WaitsWithin(g, stuck, x)
      {
        StuckNodesWait(g, s, stuck, x);
      }
      var start: nat :| start < |g| && start !in s;
      assert WalksWithin(g, stuck, [start]);
      var c := StuckWalk(g, stuck, [start]);
    }
  }

  // ---- layers ----

  /** The highest layer among `deps`, or -1. */
  function MaxLayer(layers: seq<int>, deps: seq<nat>): int
    requires forall k | 0 <= k < |deps| :: deps[k] < |layers|
  {
    if deps == [] then -1
    else
      var last := |deps| - 1;
      var before := MaxLayer(layers, deps[..last]);
      if layers[deps[last]] > before then layers[deps[last]] else before
  }

  lemma {:induction false} MaxLayerBounds(layers: seq<int>, deps: seq<nat>)
    requires forall k | 0 <= k < |deps| :: deps[k] < |layers|
    requires forall k | 0 <= k < |deps| :: layers[deps[k]] >= 0
    ensures forall k | 0 <= k < |deps| :: layers[deps[k]] <= MaxLayer(layers, deps)
    ensures if deps == [] then MaxLayer(layers, deps) == -1
            else exists k :: 0 <= k < |deps| && layers[deps[k]] == MaxLayer(layers, deps)
  {
    if deps != [] {
      MaxLayerBounds(layers, deps[..|deps| - 1]);
    }
  }

  ghost predicate AllBefore(deps: seq<nat>, i: nat) {
    forall k | 0 <= k < |deps| :: deps[k] < i
  }

  /** Node `i` comes after its dependencies and sits one layer above the highest of them. */
  ghost predicate Layered(g: Graph, layers: seq<int>, i: nat)
    requires i < |g| == |layers|
  {
    AllBefore(g[i], i) && layers[i] == MaxLayer(layers, g[i]) + 1
  }

  ghost predicate IsLayering(g: Graph, layers: seq<int>) {
    |layers| == |g| && forall i | 0 <= i < |g| :: Layered(g, layers, i)
  }

  lemma {:induction false} LayersNonNegative(g: Graph, layers: seq<int>, k: nat)
    requires IsLayering(g, layers) && k <= |g|
    ensures forall i | 0 <= i < k :: layers[i] >= 0
  {
    if k > 0 {
      LayersNonNegative(g, layers, k - 1);
      assert Layered(g, layers, k - 1);
      MaxLayerBounds(layers, g[k - 1]);
    }
  }

  /** A dependency chain: each node is a dependency of the next one. */
  ghost predicate IsChain(g: Graph, c: seq<nat>) {
    && c != []
    && (forall k | 0 <= k < |c| :: c[k] < |g|)
    && (forall k | 0 <= k < |c| - 1 :: c[k] in g[c[k + 1]])
  }

  ghost predicate ChainEndingAt(g: Graph, c: seq<nat>, i: nat) {
    IsChain(g, c) && c[|c| - 1] == i
  }

  /** A chain ending at `i` of `layers[i] + 1` nodes. */
  lemma {:induction false} LayerChain(g: Graph, layers: seq<int>, i: nat) returns (c: seq<nat>)
    requires IsLayering(g, layers) && i < |g|
    ensures ChainEndingAt(g, c, i) && |c| == layers[i] + 1
    decreases i
  {
    LayersNonNegative(g, layers, |g|);
    assert Layered(g, layers, i);
    MaxLayerBounds(layers, g[i]);
    if g[i] == [] {
      c := [i];
    } else {
      var k :| 0 <= k < |g[i]| && layers[g[i][k]] == MaxLayer(layers, g[i]);
      c := LayerChain(g, layers, g[i][k]);
      c := c + [i];
    }
  }

  /** No chain ending at `i` is longer. */
  lemma {:induction false} ChainBound(g: Graph, layers: seq<int>, c: seq<nat>)
    requires IsLayering(g, layers) && IsChain(g, c)
    ensures |c| <= layers[c[|c| - 1]] + 1
    decreases |c|
  {
    LayersNonNegative(g, layers, |g|);
    if |c| > 1 {
      var shorter := c[..|c| - 1];
      ChainBound(g, layers, shorter);
      assert Layered(g, layers, c[|c| - 1]);
      MaxLayerBounds(layers, g[c[|c| - 1]]);
      assert c[|c| - 2] in g[c[|c| - 1]];
    }
  }

  /** On a list already in FIFO order the layers start at 0, never decrease and never skip a value. */
  ghost predicate StaircaseFromZero(layers: seq<int>) {
    && (layers != [] ==> layers[0] == 0)
    && (forall i | 0 <= i < |layers| - 1 :: layers[i] <= layers[i + 1] <= layers[i] + 1)
  }

  ghost predicate NonDecreasing(layers: seq<int>, k: nat)
    requires k <= |layers|
  {
    forall i, j | 0 <= i <= j < k :: layers[i] <= layers[j]
  }

  ghost function Identity(n: nat): (s: seq<nat>)
    ensures |s| == n && forall k | 0 <= k < n :: s[k] == k
  {
    seq(n, k => k)
  }

  /** Among earlier nodes whose layers do not decrease, the last dependency has the highest layer. */
  lemma LastDependencyIsHighest(g: Graph, layers: seq<int>, times: seq<nat>, k: nat)
    requires IsLayering(g, layers) && FifoListing(g, Identity(|g|), times)
    requires k < |g| && NonDecreasing(layers, k)
    ensures times[k] <= k && layers[k] == if times[k] == 0 then 0 else layers[times[k] - 1] + 1
  {
    var id := Identity(|g|);
    LayersNonNegative(g, layers, |g|);
    assert Layered(g, layers, k);
    MaxLayerBounds(layers, g[k]);
    assert id[k] == k && ListedOnTime(g, id, times, k);
    forall j | 0 <= j < |g[k]|
      ensures g[k][j] < times[k]
    {
      assert g[k][j] in id[..times[k]];
    }
    if times[k] > 0 {
      assert id[times[k] - 1] == times[k] - 1;
    }
  }

  lemma AdjacentTimes(g: Graph, s: seq<nat>, times: seq<nat>, k: nat)
    requires FifoListing(g, s, times) && k + 1 < |s|
    ensures times[k] <= times[k + 1] <= k + 1 && times[k] <= k
  {
    assert ListedOnTime(g, s, times, k) && ListedOnTime(g, s, times, k + 1);
  }

  lemma NextLayerNoLower(g: Graph, layers: seq<int>, times: seq<nat>, k: nat)
    requires IsLayering(g, layers) && FifoListing(g, Identity(|g|), times)
    requires k + 1 < |g| && NonDecreasing(layers, k + 1)
    ensures layers[k] <= layers[k + 1] <= layers[k] + 1
  {
    AdjacentTimes(g, Identity(|g|), times, k);
    var t, u := times[k], times[k + 1];
    assert layers[k] == if t == 0 then 0 else layers[t - 1] + 1 by { LastDependencyIsHighest(g, layers, times, k); }
    assert layers[k + 1] == if u == 0 then 0 else layers[u - 1] + 1 by {
      LastDependencyIsHighest(g, layers, times, k + 1);
    }
    assert layers[k] >= 0 && (u > 0 ==> layers[u - 1] >= 0) by { LayersNonNegative(g, layers, |g|); }
    assert u > 0 && t > 0 ==> layers[t - 1] <= layers[u - 1];
    assert u > 0 ==> layers[u - 1] <= layers[k];
  }

  lemma {:induction false} FifoLayersNonDecreasing(g: Graph, layers: seq<int>, times: seq<nat>, k: nat)
    requires IsLayering(g, layers) && FifoListing(g, Identity(|g|), times) && k <= |g|
    ensures NonDecreasing(layers, k)
  {
    if k > 1 {
      FifoLayersNonDecreasing(g, layers, times, k - 1);
      NextLayerNoLower(g, layers, times, k - 2);
    }
  }

  lemma FifoLayersStaircase(g: Graph, layers: seq<int>)
    requires IsLayering(g, layers) && IsFifoOrder(g, Identity(|g|))
    ensures StaircaseFromZero(layers)
  {
    var times :| FifoListing(g, Identity(|g|), times);
    FifoLayersNonDecreasing(g, layers, times, |g|);
    if layers != [] {
      assert ListedOnTime(g, Identity(|g|), times, 0);
      LastDependencyIsHighest(g, layers, times, 0);
    }
    forall i | 0 <= i < |layers| - 1
      ensures layers[i] <= layers[i + 1] <= layers[i] + 1
    {
      NextLayerNoLower(g, layers, times, i);
    }
  }
}
