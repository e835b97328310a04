/** What the dependency sort and the layer pass guarantee about each other. */
module DepSortProperties {
  import opened Common
  import opened DepGraph
  import opened DepSort

  // ---- a sorted list is a permutation ----

  lemma LastIndexOccurs(order: seq<nat>, last: nat) returns (p: nat)
    requires Distinct(order) && InRange(order, last + 1) && |order| == last + 1
    ensures p < |order| && order[p] == last
  {
    if last !in order {
      DistinctBound(order, last);
    }
    p :| 0 <= p < |order| && order[p] == last;
  }

  lemma WithoutLast(order: seq<nat>, p: nat, a: seq<nat>, b: seq<nat>)
    requires Distinct(order) && InRange(order, |order|) && p < |order| && order[p] == |order| - 1
    requires a == order[..p] && b == order[p + 1..]
    ensures Distinct(a + b) && InRange(a + b, |order| - 1) && |a + b| == |order| - 1
  {
    forall k | 0 <= k < |a + b|
      ensures (a + b)[k] == order[if k < p then k else k + 1]
    {
    }
  }

  lemma InsertedMultiset<T>(r: seq<T>, p: nat, x: T)
    requires p <= |r|
    ensures multiset(r[..p] + [x] + r[p..]) == multiset(r) + multiset{x}
  {
    assert r == r[..p] + r[p..];
  }

  lemma {:induction false} PermutedMultiset<T>(s: seq<T>, order: seq<nat>)
    requires Distinct(order) && InRange(order, |s|) && |order| == |s|
    ensures multiset(Permuted(s, order)) == multiset(s)
  {
    if s != [] {
      var last := |s| - 1;
      var p := LastIndexOccurs(order, last);
      var a, b := order[..p], order[p + 1..];
      WithoutLast(order, p, a, b);
      var init := s[..last];
      PermutedMultiset(init, a + b);
      var r := Permuted(init, a + b);
      assert Permuted(s, order) == r[..p] + [s[last]] + r[p..];
      InsertedMultiset(r, p, s[last]);
      assert s == init + [s[last]];
    }
  }

  lemma SortOrder(before: seq<Resource>, after: seq<Resource>) returns (order: seq<nat>, times: seq<nat>)
    requires IsSortOf(before, after)
    ensures FifoListing(Edges(before).value, order, times) && Complete(Edges(before).value, order)
    ensures InRange(order, |before|) && |order| == |before| && after == Permuted(before, order)
    ensures |Edges(before).value| == |before| && ValidGraph(Edges(before).value)
  {
    var g := Edges(before).value;
    order :| IsFifoOrder(g, order) && InRange(order, |before|) && after == Permuted(before, order);
    times :| FifoListing(g, order, times);
    EdgesValid(before);
    FifoNodes(g, order, times);
    CompleteLength(g, order);
  }

  lemma SortIsPermutation(before: seq<Resource>, after: seq<Resource>)
    requires IsSortOf(before, after)
    ensures multiset(after) == multiset(before)
  {
    var order, times := SortOrder(before, after);
    PermutedMultiset(before, order);
  }

  /** The result of sorting is unique. */
  lemma SortIsFunctional(before: seq<Resource>, a: seq<Resource>, b: seq<Resource>)
    requires IsSortOf(before, a) && IsSortOf(before, b)
    ensures a == b
  {
    var g := Edges(before).value;
    var oa :| IsFifoOrder(g, oa) && InRange(oa, |before|) && a == Permuted(before, oa);
    var ob :| IsFifoOrder(g, ob) && InRange(ob, |before|) && b == Permuted(before, ob);
    FifoOrderUnique(g, oa, ob);
  }

  /** Every id a resource declares names a resource placed before it. */
  lemma SortPutsDependenciesFirst(before: seq<Resource>, after: seq<Resource>, k: nat)
    requires IsSortOf(before, after) && k < |after|
    ensures Declared(after[k].dependsOn).Ok?
    ensures forall id | id in Declared(after[k].dependsOn).value :: exists j :: 0 <= j < k && after[j].id == id
  {
    var order, times := SortOrder(before, after);
    var g := Edges(before).value;
    FifoNodes(g, order, times);
    var i := order[k];
    RowPointsAtNames(before, i);
    var names := Declared(before[i].dependsOn).value;
    forall id | id in names
      ensures exists j :: 0 <= j < k && after[j].id == id
    {
      var m :| 0 <= m < |names| && names[m] == id;
      var d := g[i][m];
      assert d in g[i] && d in order[..k];
      var j :| 0 <= j < k && order[j] == d;
      assert after[j] == before[d];
    }
  }

  // ---- dependency-free resources come first, in their original order ----

  ghost predicate DependencyFree(r: Resource) {
    Declared(r.dependsOn) == Ok([])
  }

  ghost function DependencyFreeOnly(s: seq<Resource>): seq<Resource> {
    if s == [] then []
    else DependencyFreeOnly(s[..|s| - 1]) + (if DependencyFree(s[|s| - 1]) then [s[|s| - 1]] else [])
  }

  ghost function FreeNodes(g: Graph, k: nat): (s: seq<nat>)
    requires k <= |g|
    ensures forall x: nat :: x in s <==> x < k && g[x] == []
    ensures forall i | 0 <= i < |s| :: s[i] < k
    ensures Increasing(s)
  {
    if k == 0 then []
    else
      var before := FreeNodes(g, k - 1);
      if g[k - 1] == [] then before + [k - 1] else before
  }

  ghost predicate Increasing(a: seq<nat>) {
    forall i, j | 0 <= i < j < |a| :: a[i] < a[j]
  }

  lemma DropLast(a: seq<nat>)
    requires a != [] && Increasing(a)
    ensures Increasing(a[..|a| - 1])
    ensures forall z: nat :: z in a[..|a| - 1] <==> z in a && z != a[|a| - 1]
    ensures forall z: nat :: z in a ==> z <= a[|a| - 1]
  {
    assert a == a[..|a| - 1] + [a[|a| - 1]];
  }

  lemma {:induction false} IncreasingUnique(a: seq<nat>, b: seq<nat>)
    requires Increasing(a) && Increasing(b)
    requires forall x: nat :: x in a <==> x in b
    ensures a == b
  {
    assert a != [] ==> a[0] in b;
    assert b != [] ==> b[0] in a;
    if a != [] && b != [] {
      DropLast(a);
      DropLast(b);
      assert a[|a| - 1] in b && b[|b| - 1] in a;
      assert a[|a| - 1] == b[|b| - 1];
      var a', b' := a[..|a| - 1], b[..|b| - 1];
      forall z: nat
        ensures z in a' <==> z in b'
      {
        assert z in a <==> z in b;
      }
      IncreasingUnique(a', b');
    }
  }

  lemma {:induction false} FreeNodesAreResources(before: seq<Resource>, g: Graph, k: nat)
    requires k <= |before| == |g|
    requires forall i | 0 <= i < |before| :: DependencyFree(before[i]) <==> g[i] == []
    ensures Permuted(before, FreeNodes(g, k)) == DependencyFreeOnly(before[..k])
  {
    if k > 0 {
      FreeNodesAreResources(before, g, k - 1);
      assert before[..k][..k - 1] == before[..k - 1];
    }
  }

  /** The nodes listed at time 0 are a prefix: exactly the dependency-free ones, by index. */
  lemma FreePrefix(g: Graph, order: seq<nat>, times: seq<nat>) returns (m: nat)
    requires FifoListing(g, order, times) && Complete(g, order)
    ensures m <= |order| && order[..m] == FreeNodes(g, |g|)
    ensures forall k | m <= k < |order| :: order[k] < |g| && g[order[k]] != []
  {
    m := 0;
    while m < |order| && times[m] == 0
      invariant m <= |order| && forall k | 0 <= k < m :: times[k] == 0
    {
      m := m + 1;
    }
    forall k | 0 <= k < |order|
      ensures order[k] < |g| && (g[order[k]] == [] <==> k < m)
    {
      assert ListedOnTime(g, order, times, k);
      if g[order[k]] != [] {
        assert g[order[k]][0] in g[order[k]];
      }
    }
    var free := FreeNodes(g, |g|);
    forall x: nat
      ensures x in order[..m] <==> x in free
    {
      if x in free {
        assert x in order;
        var k :| 0 <= k < |order| && order[k] == x;
        assert order[..m][k] == x;
      }
    }
    IncreasingUnique(order[..m], free);
  }

  lemma DependencyFreeFirst(before: seq<Resource>, after: seq<Resource>)
    requires IsSortOf(before, after)
    ensures exists m :: 0 <= m <= |after| && after[..m] == DependencyFreeOnly(before)
                        && forall k | m <= k < |after| :: !DependencyFree(after[k])
  {
    var order, times := SortOrder(before, after);
    var g := Edges(before).value;
    EdgesRow(before, |before|);
    forall i | 0 <= i < |before|
      ensures DependencyFree(before[i]) <==> g[i] == []
    {
      RowWellFormed(before, i);
    }
    var m := FreePrefix(g, order, times);
    FreeNodesAreResources(before, g, |before|);
    assert before[..|before|] == before;
    assert after[..m] == Permuted(before, order[..m]);
  }

  // ---- sorting again ----

  /** The edges of a list rearranged by `order`: every row moves and every target is renamed. */
  ghost predicate Rearranged(g: Graph, order: seq<nat>, g': Graph) {
    && |g'| == |g| == |order|
    && forall k | 0 <= k < |g'| :: RowRearranged(g, order, g', k)
  }

  ghost predicate RowRearranged(g: Graph, order: seq<nat>, g': Graph, k: nat)
    requires k < |g'| && k < |order|
  {
    && order[k] < |g|
    && |g'[k]| == |g[order[k]]|
    && forall j | 0 <= j < |g'[k]| :: g'[k][j] < |order| && order[g'[k][j]] == g[order[k]][j]
  }

  lemma RowAfterSort(before: seq<Resource>, after: seq<Resource>, order: seq<nat>, times: seq<nat>, k: nat)
    requires UniqueIds(before) && Edges(before).Ok? && |Edges(before).value| == |before| == |order|
    requires InRange(order, |before|) && Distinct(order) && after == Permuted(before, order) && k < |after|
    requires FifoListing(Edges(before).value, order, times)
    ensures RowEdges(after, k).Ok?
    ensures |RowEdges(after, k).value| == |Edges(before).value[order[k]]|
    ensures forall j | 0 <= j < |RowEdges(after, k).value| ::
              RowEdges(after, k).value[j] < |order|
                && order[RowEdges(after, k).value[j]] == Edges(before).value[order[k]][j]
  {
    var g := Edges(before).value;
    var i := order[k];
    RowPointsAtNames(before, i);
    FifoNodes(g, order, times);
    var names := Declared(before[i].dependsOn).value;
    var index := IdIndex(after);
    forall j | 0 <= j < |names|
      ensures names[j] in index && index[names[j]] < k && order[index[names[j]]] == g[i][j]
    {
      var d := g[i][j];
      assert d in g[i] && d in order[..k];
      var p :| 0 <= p < k && order[p] == d;
      IdAfterSort(before, after, order, p);
      assert after[p].id == names[j];
    }
    ResolveExactly(index, after[k].id, k, names);
  }

  lemma IdAfterSort(before: seq<Resource>, after: seq<Resource>, order: seq<nat>, p: nat)
    requires UniqueIds(before) && InRange(order, |before|) && Distinct(order) && after == Permuted(before, order)
        && p < |after|
    ensures after[p].id in IdIndex(after) && IdIndex(after)[after[p].id] == p
  {
    IdIndexExactly(after);
    var q := IdIndex(after)[after[p].id];
    assert after[q].id == after[p].id && after[q] == before[order[q]] && after[p] == before[order[p]];
    assert order[q] == order[p];
  }

  /** With unique ids the sorted list resolves to the same edges, rearranged. */
  lemma EdgesAfterSort(before: seq<Resource>, after: seq<Resource>) returns (order: seq<nat>, times: seq<nat>)
    requires IsSortOf(before, after) && UniqueIds(before)
    ensures FifoListing(Edges(before).value, order, times) && Edges(after).Ok?
    ensures Rearranged(Edges(before).value, order, Edges(after).value)
    ensures |order| == |before| && InRange(order, |before|) && after == Permuted(before, order)
  {
    order, times := SortOrder(before, after);
    forall k | 0 <= k < |after|
      ensures RowEdges(after, k).Ok?
    {
      RowAfterSort(before, after, order, times, k);
    }
    EdgesRow(after, |after|);
    var g, g' := Edges(before).value, Edges(after).value;
    forall k | 0 <= k < |g'|
      ensures RowRearranged(g, order, g', k)
    {
      RowAfterSort(before, after, order, times, k);
      assert RowEdges(after, k) == Ok(g'[k]);
    }
  }

  /** A rearranged graph is listed by the identity, with the same times. */
  lemma RearrangedIsListedByIdentity(g: Graph, order: seq<nat>, times: seq<nat>, g': Graph)
    requires FifoListing(g, order, times) && Rearranged(g, order, g')
    ensures FifoListing(g', Identity(|g'|), times)
  {
    var id := Identity(|g'|);
    forall k | 0 <= k < |id|
      ensures ListedOnTime(g', id, times, k)
    {
      assert ListedOnTime(g, order, times, k) && RowRearranged(g, order, g', k);
      var t := times[k];
      forall d | d in g'[k]
        ensures d in id[..t]
      {
        var j :| 0 <= j < |g'[k]| && g'[k][j] == d;
        assert order[d] == g[order[k]][j] && order[d] in order[..t];
        var p :| 0 <= p < t && order[p] == order[d];
        assert d == p && id[..t][d] == d;
      }
      if t > 0 {
        var j :| 0 <= j < |g[order[k]]| && g[order[k]][j] == order[t - 1];
        assert order[g'[k][j]] == order[t - 1];
        assert g'[k][j] == t - 1;
      }
    }
  }

  /** Sorting a sorted list succeeds and changes nothing. */
  lemma SecondSortChangesNothing(before: seq<Resource>, after: seq<Resource>)
    requires IsSortOf(before, after) && UniqueIds(before)
    ensures Edges(after).Ok? && !HasCycle(Edges(after).value)
    ensures forall again :: IsSortOf(after, again) <==> again == after
  {
    var order, times := EdgesAfterSort(before, after);
    var g' := Edges(after).value;
    RearrangedIsListedByIdentity(Edges(before).value, order, times, g');
    var id := Identity(|g'|);
    forall i | 0 <= i < |g'|
      ensures i in id
    {
      assert id[i] == i;
    }
    FifoNodes(g', id, times);
    EdgesValid(after);
    assert Complete(g', id);
    MaximalListingCompleteIffAcyclic(g', id);
    assert IsFifoOrder(g', id);
    assert after == Permuted(after, id);
    assert IsSortOf(after, after);
    forall again | IsSortOf(after, again)
      ensures again == after
    {
      SortIsFunctional(after, after, again);
    }
  }

  // ---- layers of a sorted list ----

  /** With unique ids the layer pass succeeds on the sort's output; each layer is the length of the longest
      dependency chain ending there; and the layers start at 0, never decrease and never skip a value. */
  lemma LayersOfSortedList(before: seq<Resource>, after: seq<Resource>, layers: seq<int>)
    requires IsSortOf(before, after) && UniqueIds(before)
    ensures Edges(after).Ok? && AlreadySorted(Edges(after).value)
    ensures IsLayering(Edges(after).value, layers) ==>
              && StaircaseFromZero(layers)
              && forall i: nat | i < |layers| :: IsLongestChain(Edges(after).value, i, layers[i] + 1)
  {
    var order, times := EdgesAfterSort(before, after);
    var g' := Edges(after).value;
    RearrangedIsListedByIdentity(Edges(before).value, order, times, g');
    var id := Identity(|g'|);
    forall i | 0 <= i < |g'|
      ensures AllBefore(g'[i], i) && i in id
    {
      assert id[i] == i && ListedOnTime(g', id, times, i);
      forall k | 0 <= k < |g'[i]|
        ensures g'[i][k] < i
      {
        assert g'[i][k] in g'[i] && g'[i][k] in id[..times[i]];
      }
    }
    assert IsFifoOrder(g', id);
    if IsLayering(g', layers) {
      FifoLayersStaircase(g', layers);
      forall i: nat | i < |layers|
        ensures IsLongestChain(g', i, layers[i] + 1)
      {
        LayerIsLongestChain(g', layers, i);
      }
    }
  }

  /** Some dependency chain of `n` nodes ends at `i`, and none is longer. */
  ghost predicate IsLongestChain(g: Graph, i: nat, n: int) {
    (exists c :: ChainEndingAt(g, c, i) && |c| == n) && forall c | ChainEndingAt(g, c, i) :: |c| <= n
  }

  lemma LayerIsLongestChain(g: Graph, layers: seq<int>, i: nat)
    requires IsLayering(g, layers) && i < |g|
    ensures IsLongestChain(g, i, layers[i] + 1)
  {
    var c := LayerChain(g, layers, i);
    forall c' | ChainEndingAt(g, c', i)
      ensures |c'| <= layers[i] + 1
    {
      ChainBound(g, layers, c');
    }
  }

  // ---- lists in which an id occurs twice ----

  ghost predicate Declares(r: Resource, id: string) {
    Declared(r.dependsOn).Ok? && id in Declared(r.dependsOn).value
  }

  /** Every resource that bears a declared id, not only the one the id resolved to, comes before the declaring one. */
  ghost predicate HoldersComeFirst(routing: seq<Resource>) {
    forall k, j | 0 <= k < |routing| && 0 <= j < |routing| && Declares(routing[k], routing[j].id) :: j < k
  }

  /** Whatever the ids, the layer pass accepts the sort's output exactly when no holder of a declared id comes after
      the resource that declares it. */
  lemma LayersSucceedExactly(before: seq<Resource>, after: seq<Resource>)
    requires IsSortOf(before, after)
    ensures Edges(after).Ok? && AlreadySorted(Edges(after).value) <==> HoldersComeFirst(after)
  {
    EdgesRow(after, |after|);
    if HoldersComeFirst(after) {
      forall k | 0 <= k < |after|
        ensures RowEdges(after, k).Ok? && AllBefore(RowEdges(after, k).value, k)
      {
        HoldersGiveRow(before, after, k);
      }
    }
    if Edges(after).Ok? && AlreadySorted(Edges(after).value) {
      forall k, j | 0 <= k < |after| && 0 <= j < |after| && Declares(after[k], after[j].id)
        ensures j < k
      {
        HolderBeforeRow(after, k, j);
      }
    }
  }

  lemma HoldersGiveRow(before: seq<Resource>, after: seq<Resource>, k: nat)
    requires IsSortOf(before, after) && HoldersComeFirst(after) && k < |after|
    ensures RowEdges(after, k).Ok? && AllBefore(RowEdges(after, k).value, k)
  {
    SortPutsDependenciesFirst(before, after, k);
    var names, index := Declared(after[k].dependsOn).value, IdIndex(after);
    IdIndexExactly(after);
    forall m | 0 <= m < |names|
      ensures names[m] in index && index[names[m]] < k
    {
      assert names[m] in names;
      var j :| 0 <= j < k && after[j].id == names[m];
      assert Declares(after[k], after[index[names[m]]].id);
    }
    ResolveExactly(index, after[k].id, k, names);
  }

  lemma HolderBeforeRow(routing: seq<Resource>, k: nat, j: nat)
    requires Edges(routing).Ok? && AlreadySorted(Edges(routing).value)
    requires k < |routing| && j < |routing| && Declares(routing[k], routing[j].id)
    ensures j < k
  {
    EdgesRow(routing, |routing|);
    RowWellFormed(routing, k);
    IdIndexExactly(routing);
    var names, row := Declared(routing[k].dependsOn).value, Edges(routing).value[k];
    var m :| 0 <= m < |names| && names[m] == routing[j].id;
    assert row[m] == IdIndex(routing)[names[m]] && AllBefore(row, k);
  }

  /** Some need is at `d` or later. */
  ghost predicate Reaches(deps: seq<nat>, d: nat) {
    exists e :: e in deps && d <= e
  }

  /** What a later resource waits for last is no earlier than what an earlier one waits for. */
  ghost predicate NeedsDoNotStepBack(g: Graph) {
    forall a: nat, b: nat, d: nat | a < b < |g| && d in g[a] :: Reaches(g[b], d)
  }

  /** Whatever the ids, sorting the sort's output again changes nothing exactly when the layer pass accepts it and the
      needs do not step back. */
  lemma SecondSortExactly(before: seq<Resource>, after: seq<Resource>)
    requires IsSortOf(before, after)
    ensures IsSortOf(after, after) <==>
            HoldersComeFirst(after) && Edges(after).Ok? && NeedsDoNotStepBack(Edges(after).value)
  {
    LayersSucceedExactly(before, after);
    SelfSortIsIdentity(after);
    if Edges(after).Ok? {
      IdentityOrderExactly(Edges(after).value);
    }
  }

  lemma SelfSortIsIdentity(s: seq<Resource>)
    ensures IsSortOf(s, s) <==> Edges(s).Ok? && IsFifoOrder(Edges(s).value, Identity(|Edges(s).value|))
  {
    if Edges(s).Ok? {
      EdgesValid(s);
      var id := Identity(|s|);
      assert s == Permuted(s, id);
      if IsSortOf(s, s) {
        var order, times := SortOrder(s, s);
        EqualResourcesEqualRows(s);
        OnlyIdentityFixes(s, Edges(s).value, order, times, |s|);
        assert order == id;
      }
    }
  }

  /** The identity is the first-in-first-out order exactly of the graphs that are sorted and whose needs do not step
      back. */
  lemma IdentityOrderExactly(g: Graph)
    ensures IsFifoOrder(g, Identity(|g|)) <==> AlreadySorted(g) && NeedsDoNotStepBack(g)
  {
    if AlreadySorted(g) && NeedsDoNotStepBack(g) {
      IdentityIsListing(g);
      forall i | 0 <= i < |g|
        ensures i in Identity(|g|)
      {
        assert Identity(|g|)[i] == i;
      }
      assert Complete(g, Identity(|g|));
    }
    if IsFifoOrder(g, Identity(|g|)) {
      var times :| FifoListing(g, Identity(|g|), times);
      ListedByIdentity(g, times);
    }
  }

  lemma IdentityIsListing(g: Graph)
    requires AlreadySorted(g) && NeedsDoNotStepBack(g)
    ensures exists times :: FifoListing(g, Identity(|g|), times)
  {
    var id := Identity(|g|);
    var times := seq(|g|, k requires 0 <= k < |g| => After(g[k]));
    forall k | 0 <= k < |g|
      ensures ListedOnTime(g, id, times, k)
    {
      AfterExactly(g[k]);
      assert AllBefore(g[k], k);
      forall d | d in g[k]
        ensures d in id[..times[k]]
      {
        assert id[..times[k]][d] == d;
      }
    }
    forall a: nat, b: nat | a < b < |g|
      ensures times[a] <= times[b]
    {
      AfterExactly(g[a]);
      AfterExactly(g[b]);
      assert times[a] > 0 ==> Reaches(g[b], times[a] - 1);
    }
    assert FifoListing(g, id, times);
  }

  lemma ListedByIdentity(g: Graph, times: seq<nat>)
    requires FifoListing(g, Identity(|g|), times)
    ensures AlreadySorted(g) && NeedsDoNotStepBack(g)
  {
    forall k | 0 <= k < |g|
      ensures AllBefore(g[k], k)
    {
      IdentityTime(g, times, k);
      assert forall j | 0 <= j < |g[k]| :: g[k][j] in g[k];
    }
    forall a: nat, b: nat, d: nat | a < b < |g| && d in g[a]
      ensures Reaches(g[b], d)
    {
      IdentityTime(g, times, a);
      IdentityTime(g, times, b);
      assert d <= times[b] - 1 && times[b] - 1 in g[b];
    }
  }

  lemma IdentityTime(g: Graph, times: seq<nat>, k: nat)
    requires FifoListing(g, Identity(|g|), times) && k < |g|
    ensures times[k] <= k && (times[k] > 0 ==> times[k] - 1 in g[k]) && forall d | d in g[k] :: d < times[k]
  {
    var id := Identity(|g|);
    assert ListedOnTime(g, id, times, k) && id[k] == k;
    forall d | d in g[k]
      ensures d < times[k]
    {
      assert d in id[..times[k]];
    }
  }

  /** One more than the largest of `deps`, or 0. */
  ghost function After(deps: seq<nat>): nat {
    if deps == [] then 0
    else
      var before, last := After(deps[..|deps| - 1]), deps[|deps| - 1];
      if last < before then before else last + 1
  }

  lemma {:induction false} AfterExactly(deps: seq<nat>)
    ensures forall d | d in deps :: d < After(deps)
    ensures After(deps) > 0 ==> After(deps) - 1 in deps
  {
    if deps != [] {
      AfterExactly(deps[..|deps| - 1]);
      assert deps == deps[..|deps| - 1] + [deps[|deps| - 1]];
    }
  }

  /** Equal entries of the list have equal rows. */
  ghost predicate SameRows<T>(s: seq<T>, g: Graph) {
    |g| == |s| && forall i, j | 0 <= i < |s| && 0 <= j < |s| && s[i] == s[j] :: g[i] == g[j]
  }

  /** A first-in-first-out order that gives the list back moves nothing: equal resources keep their order too. */
  lemma {:induction false} OnlyIdentityFixes<T>(s: seq<T>, g: Graph, order: seq<nat>, times: seq<nat>, n: nat)
    requires SameRows(s, g) && FifoListing(g, order, times) && Complete(g, order)
    requires InRange(order, |s|) && s == Permuted(s, order) && n <= |s|
    ensures forall k | 0 <= k < n :: order[k] == k
  {
    if n > 0 {
      OnlyIdentityFixes(s, g, order, times, n - 1);
      NextIsFixed(s, g, order, times, n - 1);
    }
  }

  lemma NextIsFixed<T>(s: seq<T>, g: Graph, order: seq<nat>, times: seq<nat>, k: nat)
    requires SameRows(s, g) && FifoListing(g, order, times) && Complete(g, order)
    requires InRange(order, |s|) && s == Permuted(s, order) && k < |s|
    requires forall j | 0 <= j < k :: order[j] == j
    ensures order[k] == k
  {
    assert k in order;
    var p :| 0 <= p < |order| && order[p] == k;
    LaterPlaces(order, k, p);
    assert s[order[k]] == s[k];
    if p > k {
      EqualNeedsKeepOrder(g, order, times, k, p);
    }
  }

  /** Behind a prefix that lists itself come only larger entries. */
  lemma LaterPlaces(order: seq<nat>, k: nat, p: nat)
    requires Distinct(order) && k < |order| && p < |order| && order[p] == k
    requires forall j | 0 <= j < k :: order[j] == j
    ensures k <= p && k <= order[k]
  {
    if order[k] < k {
      TakenEarlier(order, k, order[k]);
    }
  }

  lemma TakenEarlier(order: seq<nat>, k: nat, m: nat)
    requires Distinct(order) && m < k < |order| && order[m] == m
    ensures order[k] != m
  {
  }

  lemma EqualNeedsKeepOrder(g: Graph, order: seq<nat>, times: seq<nat>, p: nat, q: nat)
    requires FifoListing(g, order, times) && p < q < |order| && order[p] < |g| && order[q] < |g|
    requires g[order[p]] == g[order[q]]
    ensures order[p] < order[q]
  {
    assert ListedOnTime(g, order, times, p) && ListedOnTime(g, order, times, q);
    ReadyTimeUnique(order, order, |order|, g[order[p]], times[p], times[q]);
  }

  lemma EqualResourcesEqualRows(s: seq<Resource>)
    requires Edges(s).Ok?
    ensures SameRows(s, Edges(s).value)
  {
    EdgesRow(s, |s|);
    forall i, j | 0 <= i < |s| && 0 <= j < |s| && s[i] == s[j]
      ensures Edges(s).value[i] == Edges(s).value[j]
    {
      RowWellFormed(s, i);
      RowWellFormed(s, j);
    }
  }

  /** Without unique ids the layer pass can refuse what the sort returns, and so does a second sort: `b` depends on the
      last `a`, the first `a` on `b`, and in the sorted list the first `a` is the last. */
  lemma DuplicateIdsBreakLayers()
    ensures exists before, after :: IsSortOf(before, after) && Edges(after).Ok?
                                    && !AlreadySorted(Edges(after).value) && HasCycle(Edges(after).value)
  {
    var a0 := Resource("a", Entries([Text("b")]), "");
    var b := Resource("b", Entries([Text("a")]), "");
    var a1 := Resource("a", Absent, "");
    var before, after := [a0, b, a1], [a1, b, a0];
    DeclaredSingle("a");
    DeclaredSingle("b");
    ThreeInACircle(a0, b, a1);
    SortsToReverse(a0, b, a1);
    var row := Edges(after).value[1];
    assert row == [2] && row[0] == 2 && !AllBefore(row, 1);
    assert IsCycle(Edges(after).value, [1, 2]);
  }

  lemma ThreeInACircle(a0: Resource, b: Resource, a1: Resource)
    requires a0.id == a1.id == "a" && b.id == "b" && a1.dependsOn == Absent
    requires Declared(a0.dependsOn) == Ok(["b"]) && Declared(b.dependsOn) == Ok(["a"])
    ensures Edges([a0, b, a1]) == Ok([[1], [2], []]) && Edges([a1, b, a0]) == Ok([[], [2], [1]])
  {
    var before, after := [a0, b, a1], [a1, b, a0];
    IndexOfThree(a0, b, a1);
    IndexOfThree(a1, b, a0);
    ResolveSingle(IdIndex(before), "a", 0, "b");
    ResolveSingle(IdIndex(before), "b", 1, "a");
    ResolveSingle(IdIndex(after), "b", 1, "a");
    ResolveSingle(IdIndex(after), "a", 2, "b");
    EdgesOfThree(a0, b, a1, [1], [2], []);
    EdgesOfThree(a1, b, a0, [], [2], [1]);
  }

  lemma SortsToReverse(x: Resource, y: Resource, z: Resource)
    requires Edges([x, y, z]) == Ok([[1], [2], []])
    ensures IsSortOf([x, y, z], [z, y, x])
  {
    var g: Graph, order: seq<nat>, times: seq<nat> := [[1], [2], []], [2, 1, 0], [0, 1, 2];
    assert ReadyExactlyAt(order, g[order[0]], 0);
    assert order[..1] == [2] && order[..2] == [2, 1];
    assert ListedOnTime(g, order, times, 0) && ListedOnTime(g, order, times, 1) && ListedOnTime(g, order, times, 2);
    assert FifoListing(g, order, times);
    assert order[2] == 0 && order[1] == 1 && order[0] == 2;
    assert Complete(g, order);
    assert [z, y, x] == Permuted([x, y, z], order);
  }

  lemma DeclaredSingle(id: string)
    ensures DeclaredItems([Text(id)]) == Ok([id])
  {
    var items := [Text(id)];
    assert items[..|items| - 1] == [] && DeclaredItems([]) == Ok([]);
    var none: seq<string> := [];
    assert none + [id] == [id];
  }

  lemma ResolveSingle(index: map<string, nat>, owner: string, i: nat, name: string)
    requires name in index && index[name] != i
    ensures Resolve(index, owner, i, [name]) == Ok([index[name]])
  {
    var names := [name];
    assert names[..|names| - 1] == [] && Resolve(index, owner, i, []) == Ok([]);
    var none: seq<nat> := [];
    assert none + [index[name]] == [index[name]];
  }

  lemma IndexOfThree(x: Resource, y: Resource, z: Resource)
    requires x.id == z.id != y.id
    ensures IdIndex([x, y, z]) == map[x.id := 2, y.id := 1]
  {
    var one, two, three := [x], [x, y], [x, y, z];
    assert one[..|one| - 1] == [] && two[..|two| - 1] == one && three[..|three| - 1] == two;
    assert IdIndex(one) == map[x.id := 0];
    assert IdIndex(two) == map[x.id := 0, y.id := 1];
  }

  lemma EdgesOfThree(x: Resource, y: Resource, z: Resource, rx: seq<nat>, ry: seq<nat>, rz: seq<nat>)
    requires RowEdges([x, y, z], 0) == Ok(rx) && RowEdges([x, y, z], 1) == Ok(ry) && RowEdges([x, y, z], 2) == Ok(rz)
    ensures Edges([x, y, z]) == Ok([rx, ry, rz])
  {
    var s := [x, y, z];
    EdgesRow(s, 3);
    assert EdgesUpTo(s, 3).value == [rx, ry, rz];
  }
}
