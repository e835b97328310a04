/** Ordering and layering of the resources of one operation by `metadata.dependsOn`
    (`crates/iac-controlplane/src/depsort.rs`). */
module DepSort {
  import opened Common
  import opened DepGraph

  /** What the resource JSON holds at `metadata.dependsOn`. */
  datatype DependsOn = MalformedJson | Absent | NotAnArray | Entries(items: seq<Entry>)

  datatype Entry = Text(id: string) | NotText

  datatype Resource = Resource(id: string, dependsOn: DependsOn, body: string)

  datatype SortError =
    | Malformed
    | NotAnArrayOfIds
    | EntryNotText
    | DuplicateEntry(entry: string)
    | UnknownReference(resource: string, entry: string)
    | SelfReference(resource: string)
    | CycleDetected(stuck: seq<string>)
    | NotYetVisited(dependency: nat, node: nat)

  // ---- reading one resource ----

  /** The ids in `items`, or the first reason to refuse them. */
  ghost function DeclaredItems(items: seq<Entry>): Result<seq<string>, SortError> {
    if items == [] then Ok([])
    else
      var before := DeclaredItems(items[..|items| - 1]);
      if before.Err? then before
      else match items[|items| - 1]
        case NotText => Err(EntryNotText)
        case Text(id) => if id in before.value then Err(DuplicateEntry(id)) else Ok(before.value + [id])
  }

  ghost function Declared(d: DependsOn): Result<seq<string>, SortError> {
    match d
    case MalformedJson => Err(Malformed)
    case Absent => Ok([])
    case NotAnArray => Err(NotAnArrayOfIds)
    case Entries(items) => DeclaredItems(items)
  }

  /** Once a prefix is refused, the whole list is, for the same reason. */
  lemma {:induction false} FirstRefusalStands(items: seq<Entry>, k: nat)
    requires k <= |items| && DeclaredItems(items[..k]).Err?
    ensures DeclaredItems(items) == DeclaredItems(items[..k])
    decreases |items|
  {
    if k < |items| {
      var shorter := items[..|items| - 1];
      assert shorter[..k] == items[..k];
      FirstRefusalStands(shorter, k);
    } else {
      assert items[..k] == items;
    }
  }

  /** A list is accepted exactly when every entry is text and none repeats; the ids come back in order. */
  lemma {:induction false} DeclaredExactly(items: seq<Entry>)
    ensures DeclaredItems(items).Ok? <==> Distinct(items) && forall k | 0 <= k < |items| :: items[k].Text?
    ensures DeclaredItems(items).Ok? ==>
              && |DeclaredItems(items).value| == |items|
              && forall k | 0 <= k < |items| :: items[k] == Text(DeclaredItems(items).value[k])
  {
    if items != [] {
      var last := |items| - 1;
      var before := items[..last];
      DeclaredExactly(before);
      assert forall k | 0 <= k < last :: before[k] == items[k];
      if DeclaredItems(before).Ok? && items[last].Text? {
        var ids := DeclaredItems(before).value;
        if items[last].id in ids {
          var k :| 0 <= k < |ids| && ids[k] == items[last].id;
          assert items[k] == items[last];
        }
      }
    }
  }

  /** The forms of `dependsOn`: unreadable JSON, no field, something other than a list, and a list. */
  lemma DeclaredForms(items: seq<Entry>)
    ensures Declared(MalformedJson) == Err(Malformed)
    ensures Declared(Absent) == Ok([])
    ensures Declared(NotAnArray) == Err(NotAnArrayOfIds)
    ensures Declared(Entries(items)) == DeclaredItems(items)
  {
  }

  /** A list is refused for its first entry that is no text or repeats an earlier one. */
  lemma {:induction false} RefusedItem(items: seq<Entry>) returns (k: nat)
    requires DeclaredItems(items).Err?
    ensures k < |items| && DeclaredItems(items[..k]).Ok?
    ensures items[k] == NotText ==> DeclaredItems(items) == Err(EntryNotText)
    ensures items[k].Text? ==>
              DeclaredItems(items) == Err(DuplicateEntry(items[k].id)) && exists j :: 0 <= j < k && items[j] == items[k]
  {
    var before := items[..|items| - 1];
    if DeclaredItems(before).Err? {
      k := RefusedItem(before);
      assert before[..k] == items[..k];
    } else {
      k := |items| - 1;
      DeclaredExactly(before);
      if items[k].Text? {
        var ids := DeclaredItems(before).value;
        var j :| 0 <= j < |ids| && ids[j] == items[k].id;
        assert before[j] == items[j];
      }
    }
  }

  lemma DeclaredStep(items: seq<Entry>, k: nat, ids: seq<string>)
    requires k < |items| && DeclaredItems(items[..k]) == Ok(ids)
    ensures DeclaredItems(items[..k + 1]) ==
            match items[k]
            case NotText => Err(EntryNotText)
            case Text(id) => if id in ids then Err(DuplicateEntry(id)) else Ok(ids + [id])
  {
    assert items[..k + 1][..k] == items[..k];
  }

  method ReadDependsOn(d: DependsOn) returns (r: Result<seq<string>, SortError>)
    ensures r == Declared(d)
  {
    match d
    case MalformedJson => return Err(Malformed);
    case Absent => return Ok([]);
    case NotAnArray => return Err(NotAnArrayOfIds);
    case Entries(items) =>
      var out: seq<string> := [];
      var seen: set<string> := {};
      for k := 0 to |items|
        invariant DeclaredItems(items[..k]) == Ok(out)
        invariant seen == Elements(out)
      {
        DeclaredStep(items, k, out);
        match items[k] {
          case NotText =>
            FirstRefusalStands(items, k + 1);
            return Err(EntryNotText);
          case Text(id) =>
            if id in seen {
              FirstRefusalStands(items, k + 1);
              return Err(DuplicateEntry(id));
            }
            seen := seen + {id};
            out := out + [id];
        }
      }
      assert items[..|items|] == items;
      return Ok(out);
  }

  // ---- resolving ids to positions ----

  /** Position of each id; the last of several resources with one id wins. */
  ghost function IdIndex(routing: seq<Resource>): map<string, nat> {
    if routing == [] then map[]
    else
      var last := |routing| - 1;
      IdIndex(routing[..last])[routing[last].id := last]
  }

  /** The index holds exactly the ids of the list, each at its last position. */
  lemma {:induction false} IdIndexExactly(routing: seq<Resource>)
    ensures forall id | id in IdIndex(routing) ::
              IdIndex(routing)[id] < |routing| && routing[IdIndex(routing)[id]].id == id
    ensures forall i | 0 <= i < |routing| :: routing[i].id in IdIndex(routing) && i <= IdIndex(routing)[routing[i].id]
  {
    if routing != [] {
      IdIndexExactly(routing[..|routing| - 1]);
    }
  }

  ghost predicate UniqueIds(routing: seq<Resource>) {
    forall i, j | 0 <= i < j < |routing| :: routing[i].id != routing[j].id
  }

  /** Positions of `names`, or the first reason to refuse one of them for the resource at `i`. */
  ghost function Resolve(index: map<string, nat>, owner: string, i: nat, names: seq<string>)
    : Result<seq<nat>, SortError>
  {
    if names == [] then Ok([])
    else
      var last := names[|names| - 1];
      var before := Resolve(index, owner, i, names[..|names| - 1]);
      if before.Err? then before
      else if last !in index then Err(UnknownReference(owner, last))
      else if index[last] == i then Err(SelfReference(owner))
      else Ok(before.value + [index[last]])
  }

  ghost function RowEdges(routing: seq<Resource>, i: nat): Result<seq<nat>, SortError>
    requires i < |routing|
  {
    var names := Declared(routing[i].dependsOn);
    if names.Err? then Err(names.error) else Resolve(IdIndex(routing), routing[i].id, i, names.value)
  }

  /** The edges of the first `k` resources, or the first refusal. */
  ghost function EdgesUpTo(routing: seq<Resource>, k: nat): Result<Graph, SortError>
    requires k <= |routing|
  {
    if k == 0 then Ok([])
    else
      var before := EdgesUpTo(routing, k - 1);
      if before.Err? then before
      else
        var row := RowEdges(routing, k - 1);
        if row.Err? then Err(row.error) else Ok(before.value + [row.value])
  }

  ghost function Edges(routing: seq<Resource>): Result<Graph, SortError> {
    EdgesUpTo(routing, |routing|)
  }

  lemma {:induction false} ResolveExactly(index: map<string, nat>, owner: string, i: nat, names: seq<string>)
    ensures Resolve(index, owner, i, names).Ok? <==>
            forall k | 0 <= k < |names| :: names[k] in index && index[names[k]] != i
    ensures Resolve(index, owner, i, names).Ok? ==>
              && |Resolve(index, owner, i, names).value| == |names|
              && forall k | 0 <= k < |names| ::
                   names[k] in index && Resolve(index, owner, i, names).value[k] == index[names[k]]
  {
    if names != [] {
      var before := names[..|names| - 1];
      ResolveExactly(index, owner, i, before);
      assert forall k | 0 <= k < |before| :: before[k] == names[k];
    }
  }

  lemma {:induction false} ResolveRefusalStands(index: map<string, nat>, owner: string, i: nat, names: seq<string>,
                                                k: nat)
    requires k <= |names| && Resolve(index, owner, i, names[..k]).Err?
    ensures Resolve(index, owner, i, names) == Resolve(index, owner, i, names[..k])
    decreases |names|
  {
    if k < |names| {
      var shorter := names[..|names| - 1];
      assert shorter[..k] == names[..k];
      ResolveRefusalStands(index, owner, i, shorter, k);
    } else {
      assert names[..k] == names;
    }
  }

  lemma {:induction false} EdgesRefusalStands(routing: seq<Resource>, k: nat, n: nat)
    requires k <= n <= |routing| && EdgesUpTo(routing, k).Err?
    ensures EdgesUpTo(routing, n) == EdgesUpTo(routing, k)
    decreases n
  {
    if k < n {
      EdgesRefusalStands(routing, k, n - 1);
    }
  }

  /** Rows of an accepted edge list: what each resource declared, resolved. */
  lemma {:induction false} EdgesRow(routing: seq<Resource>, k: nat)
    requires k <= |routing|
    ensures EdgesUpTo(routing, k).Ok? <==> forall i | 0 <= i < k :: RowEdges(routing, i).Ok?
    ensures EdgesUpTo(routing, k).Ok? ==>
              && |EdgesUpTo(routing, k).value| == k
              && forall i | 0 <= i < k :: RowEdges(routing, i) == Ok(EdgesUpTo(routing, k).value[i])
  {
    if k > 0 {
      EdgesRow(routing, k - 1);
    }
  }

  lemma RowWellFormed(routing: seq<Resource>, i: nat)
    requires i < |routing| && RowEdges(routing, i).Ok?
    ensures
      var names := Declared(routing[i].dependsOn).value;
      var row := RowEdges(routing, i).value;
      && |row| == |names|
      && (forall k | 0 <= k < |names| :: names[k] in IdIndex(routing) && row[k] == IdIndex(routing)[names[k]])
      && Distinct(row) && i !in row && (forall k | 0 <= k < |row| :: row[k] < |routing|)
  {
    var d := routing[i].dependsOn;
    if d.Entries? {
      DeclaredExactly(d.items);
    }
    var names := Declared(d).value;
    var index := IdIndex(routing);
    IdIndexExactly(routing);
    ResolveExactly(index, routing[i].id, i, names);
    var row := RowEdges(routing, i).value;
    forall a, b | 0 <= a < b < |row|
      ensures row[a] != row[b]
    {
      assert names[a] != names[b];
      assert routing[index[names[a]]].id == names[a] && routing[index[names[b]]].id == names[b];
    }
  }

  /** The last resource with the id stands at `i`. */
  ghost predicate LastHolder(routing: seq<Resource>, i: nat, id: string) {
    i < |routing| && routing[i].id == id && forall j | i < j < |routing| :: routing[j].id != id
  }

  lemma IndexIsLastHolder(routing: seq<Resource>, id: string, i: nat)
    ensures id in IdIndex(routing) && IdIndex(routing)[id] == i <==> LastHolder(routing, i, id)
  {
    IdIndexExactly(routing);
    if id in IdIndex(routing) {
      forall j | IdIndex(routing)[id] < j < |routing|
        ensures routing[j].id != id
      {
        assert j <= IdIndex(routing)[routing[j].id];
      }
    }
  }

  /** The `k`th id declared at `i` is the first one there that no resource bears, or that names the resource itself. */
  ghost predicate BadReference(routing: seq<Resource>, i: nat, k: nat, error: SortError) {
    && i < |routing| && Declared(routing[i].dependsOn).Ok? && k < |Declared(routing[i].dependsOn).value|
    && var names := Declared(routing[i].dependsOn).value;
       && (forall m | 0 <= m < k ::
             !LastHolder(routing, i, names[m]) && exists j: nat :: LastHolder(routing, j, names[m]))
       && if LastHolder(routing, i, names[k]) then error == SelfReference(routing[i].id)
          else
            && error == UnknownReference(routing[i].id, names[k])
            && forall j | 0 <= j < |routing| :: routing[j].id != names[k]
  }

  /** Why the row at `i` is refused: its list cannot be read, or one of its ids is bad. */
  ghost predicate BadRow(routing: seq<Resource>, i: nat, error: SortError) {
    && i < |routing|
    && (Declared(routing[i].dependsOn) == Err(error) || exists k: nat :: BadReference(routing, i, k, error))
  }

  lemma {:induction false} ResolveRefused(routing: seq<Resource>, i: nat, names: seq<string>, n: nat) returns (k: nat)
    requires i < |routing| && Declared(routing[i].dependsOn) == Ok(names) && n <= |names|
    requires Resolve(IdIndex(routing), routing[i].id, i, names[..n]).Err?
    ensures BadReference(routing, i, k, Resolve(IdIndex(routing), routing[i].id, i, names[..n]).error)
    decreases n
  {
    assert names[..n][..n - 1] == names[..n - 1];
    if Resolve(IdIndex(routing), routing[i].id, i, names[..n - 1]).Err? {
      k := ResolveRefused(routing, i, names, n - 1);
    } else {
      k := n - 1;
      ResolveExactly(IdIndex(routing), routing[i].id, i, names[..k]);
      forall m | 0 <= m < k
        ensures !LastHolder(routing, i, names[m]) && exists j: nat :: LastHolder(routing, j, names[m])
      {
        assert names[..k][m] == names[m];
        IndexIsLastHolder(routing, names[m], i);
        IndexIsLastHolder(routing, names[m], IdIndex(routing)[names[m]]);
      }
      IndexIsLastHolder(routing, names[k], i);
      IdIndexExactly(routing);
    }
  }

  /** Edges are refused for the first row that is, for its first bad reference. */
  lemma {:induction false} EdgesRefused(routing: seq<Resource>, n: nat) returns (i: nat)
    requires n <= |routing| && EdgesUpTo(routing, n).Err?
    ensures BadRow(routing, i, EdgesUpTo(routing, n).error) && forall j | 0 <= j < i :: RowEdges(routing, j).Ok?
  {
    if EdgesUpTo(routing, n - 1).Err? {
      i := EdgesRefused(routing, n - 1);
    } else {
      i := n - 1;
      EdgesRow(routing, n - 1);
      var names := Declared(routing[i].dependsOn);
      if names.Ok? {
        assert names.value[..|names.value|] == names.value;
        var k := ResolveRefused(routing, i, names.value, |names.value|);
      }
    }
  }

  /** `row` holds the position of each id in `names`. */
  ghost predicate PointsAt(routing: seq<Resource>, row: seq<nat>, names: seq<string>) {
    |row| == |names| && forall k | 0 <= k < |row| :: row[k] < |routing| && routing[row[k]].id == names[k]
  }

  lemma RowPointsAtNames(routing: seq<Resource>, i: nat)
    requires i < |routing| && Edges(routing).Ok?
    ensures |Edges(routing).value| == |routing| && Declared(routing[i].dependsOn).Ok?
    ensures PointsAt(routing, Edges(routing).value[i], Declared(routing[i].dependsOn).value)
  {
    EdgesRow(routing, |routing|);
    RowWellFormed(routing, i);
    IdIndexExactly(routing);
    assert RowEdges(routing, i) == Ok(Edges(routing).value[i]);
  }

  lemma EdgesValid(routing: seq<Resource>)
    requires Edges(routing).Ok?
    ensures |Edges(routing).value| == |routing| && ValidGraph(Edges(routing).value)
  {
    EdgesRow(routing, |routing|);
    forall i | 0 <= i < |routing| {
      RowWellFormed(routing, i);
    }
  }

  // ---- building in-degrees and adjacency ----

  /** `inDegree` and `adjacency` hold the edges of the first `k` nodes. */
  ghost predicate HoldsEdges(g: Graph, k: nat, inDegree: seq<nat>, adjacency: seq<seq<nat>>)
    requires k <= |g|
  {
    && |inDegree| == |adjacency|
    && k <= |inDegree|
    && (forall i | 0 <= i < |inDegree| :: inDegree[i] == if i < k then |g[i]| else 0)
    && (forall d | 0 <= d < |adjacency| :: adjacency[d] == Dependents(g, d, k))
  }

  /** Partway through node `i`: the edges to the dependencies in `row` have been added as well. */
  ghost predicate HoldsPartialRow(g: Graph, i: nat, row: seq<nat>, inDegree: seq<nat>, adjacency: seq<seq<nat>>)
    requires i <= |g|
  {
    && |inDegree| == |adjacency|
    && i < |inDegree|
    && (forall j | 0 <= j < |inDegree| :: inDegree[j] == if j < i then |g[j]| else if j == i then |row| else 0)
    && (forall d | 0 <= d < |adjacency| :: adjacency[d] == Dependents(g, d, i) + if d in row then [i] else [])
  }

  lemma {:induction false} DependentsPrefix(g: Graph, row: seq<nat>, d: nat, k: nat)
    requires k <= |g|
    ensures Dependents(g + [row], d, k) == Dependents(g, d, k)
  {
    if k > 0 {
      DependentsPrefix(g, row, d, k - 1);
    }
  }

  lemma RowComplete(g: Graph, row: seq<nat>, inDegree: seq<nat>, adjacency: seq<seq<nat>>)
    requires HoldsPartialRow(g, |g|, row, inDegree, adjacency)
    ensures HoldsEdges(g + [row], |g| + 1, inDegree, adjacency)
  {
    forall d | 0 <= d < |adjacency|
      ensures adjacency[d] == Dependents(g + [row], d, |g| + 1)
    {
      DependentsPrefix(g, row, d, |g|);
    }
  }

  method BuildIndex(routing: seq<Resource>) returns (index: map<string, nat>)
    ensures index == IdIndex(routing)
  {
    index := map[];
    for i := 0 to |routing|
      invariant index == IdIndex(routing[..i])
    {
      assert routing[..i + 1][..i] == routing[..i];
      index := index[routing[i].id := i];
    }
    assert routing[..|routing|] == routing;
  }

  lemma PartialRowStep(g: Graph, i: nat, row: seq<nat>, inDegree: seq<nat>, adjacency: seq<seq<nat>>, dep: nat)
    requires i <= |g| && HoldsPartialRow(g, i, row, inDegree, adjacency) && dep < |adjacency| && dep !in row
    ensures HoldsPartialRow(g, i, row + [dep], inDegree[i := inDegree[i] + 1], adjacency[dep := adjacency[dep] + [i]])
  {
  }

  lemma ResolveStep(index: map<string, nat>, owner: string, i: nat, names: seq<string>, k: nat, row: seq<nat>)
    requires k < |names| && Resolve(index, owner, i, names[..k]) == Ok(row)
    ensures Resolve(index, owner, i, names[..k + 1]) ==
            if names[k] !in index then Err(UnknownReference(owner, names[k]))
            else if index[names[k]] == i then Err(SelfReference(owner))
            else Ok(row + [index[names[k]]])
  {
    assert names[..k + 1][..k] == names[..k];
  }

  /** Add the edges of the resource at `i`. */
  method AddRow(routing: seq<Resource>, index: map<string, nat>, i: nat, inDegree: array<nat>,
                adjacency: array<seq<nat>>, ghost g: Graph)
    returns (error: Option<SortError>)
    requires i < |routing| == inDegree.Length == adjacency.Length && index == IdIndex(routing)
    requires i == |g| && HoldsEdges(g, i, inDegree[..], adjacency[..])
    modifies inDegree, adjacency
    ensures error.Some? ==> RowEdges(routing, i) == Err(error.value)
    ensures error.None? ==> RowEdges(routing, i).Ok? &&
                            HoldsEdges(g + [RowEdges(routing, i).value], i + 1, inDegree[..], adjacency[..])
  {
    var names := ReadDependsOn(routing[i].dependsOn);
    if names.Err? {
      return Some(names.error);
    }
    var owner := routing[i].id;
    ghost var row: seq<nat> := [];
    for k := 0 to |names.value|
      invariant Resolve(index, owner, i, names.value[..k]) == Ok(row)
      invariant HoldsPartialRow(g, i, row, inDegree[..], adjacency[..])
    {
      var name := names.value[k];
      ResolveStep(index, owner, i, names.value, k, row);
      if name !in index {
        ResolveRefusalStands(index, owner, i, names.value, k + 1);
        return Some(UnknownReference(owner, name));
      }
      var dep := index[name];
      if dep == i {
        ResolveRefusalStands(index, owner, i, names.value, k + 1);
        return Some(SelfReference(owner));
      }
      FreshDependency(routing, i, names.value, row, k);
      PartialRowStep(g, i, row, inDegree[..], adjacency[..], dep);
      adjacency[dep] := adjacency[dep] + [i];
      inDegree[i] := inDegree[i] + 1;
      row := row + [dep];
    }
    assert names.value[..|names.value|] == names.value;
    RowComplete(g, row, inDegree[..], adjacency[..]);
    return None;
  }

  /** Two different ids never resolve to one position, so an edge is added once. */
  lemma FreshDependency(routing: seq<Resource>, i: nat, names: seq<string>, row: seq<nat>, k: nat)
    requires i < |routing| && Declared(routing[i].dependsOn) == Ok(names) && k < |names|
    requires Resolve(IdIndex(routing), routing[i].id, i, names[..k]) == Ok(row)
    requires names[k] in IdIndex(routing)
    ensures |row| == k && IdIndex(routing)[names[k]] !in row && IdIndex(routing)[names[k]] < |routing|
  {
    var d := routing[i].dependsOn;
    if d.Entries? {
      DeclaredExactly(d.items);
    }
    var index := IdIndex(routing);
    IdIndexExactly(routing);
    ResolveExactly(index, routing[i].id, i, names[..k]);
    forall j | 0 <= j < k
      ensures row[j] != index[names[k]]
    {
      assert names[..k][j] == names[j] && d.items[j] != d.items[k];
      assert routing[index[names[j]]].id == names[j] && routing[index[names[k]]].id == names[k];
    }
  }

  method BuildEdges(routing: seq<Resource>, inDegree: array<nat>, adjacency: array<seq<nat>>)
    returns (error: Option<SortError>)
    requires inDegree.Length == adjacency.Length == |routing|
    requires forall i | 0 <= i < |routing| :: inDegree[i] == 0 && adjacency[i] == []
    modifies inDegree, adjacency
    ensures error.Some? ==> Edges(routing) == Err(error.value)
    ensures error.None? ==> Edges(routing).Ok? && |Edges(routing).value| == |routing| &&
                            HoldsEdges(Edges(routing).value, |routing|, inDegree[..], adjacency[..])
  {
    var index := BuildIndex(routing);
    ghost var g: Graph := [];
    for i := 0 to |routing|
      invariant |g| == i && EdgesUpTo(routing, i) == Ok(g)
      invariant HoldsEdges(g, i, inDegree[..], adjacency[..])
    {
      var refused := AddRow(routing, index, i, inDegree, adjacency, g);
      if refused.Some? {
        EdgesRefusalStands(routing, i + 1, |routing|);
        return refused;
      }
      g := g + [RowEdges(routing, i).value];
    }
    return None;
  }

  // ---- draining the queue ----

  /** `listed` (what was emitted plus what is queued) is in FIFO order, and everything in it became ready
      no later than after the `done` nodes emitted so far. */
  ghost predicate QueueInvariant(g: Graph, listed: seq<nat>, times: seq<nat>, done: nat) {
    FifoListing(g, listed, times) && done <= |listed| && forall k | 0 <= k < |times| :: times[k] <= done
  }

  /** The in-degrees while the dependents of the node emitted last are being visited. */
  ghost predicate CountsMidway(g: Graph, inDegree: seq<nat>, before: seq<nat>, order: seq<nat>, visited: seq<nat>) {
    && |inDegree| == |g|
    && forall i | 0 <= i < |g| :: inDegree[i] == if i in visited then Missing(g[i], order) else Missing(g[i], before)
  }

  ghost predicate ListsReady(g: Graph, listed: seq<nat>, inDegree: seq<nat>) {
    |inDegree| == |g| && forall i: nat | i < |g| :: i in listed <==> inDegree[i] == 0
  }

  method SeedQueue(inDegree: array<nat>, ghost g: Graph) returns (queue: seq<nat>, ghost times: seq<nat>)
    requires inDegree.Length == |g| && forall i | 0 <= i < |g| :: inDegree[i] == |g[i]|
    ensures QueueInvariant(g, queue, times, 0) && ListsReady(g, queue, inDegree[..])
  {
    queue := [];
    times := [];
    for i := 0 to inDegree.Length
      invariant QueueInvariant(g, queue, times, 0)
      invariant forall k | 0 <= k < |queue| :: queue[k] < i
      invariant forall k: nat | k < i :: k in queue <==> inDegree[k] == 0
    {
      if inDegree[i] == 0 {
        FifoAppend(g, queue, times, i, 0);
        queue, times := queue + [i], times + [0];
      }
    }
  }

  /** Emit the queue front after front; a dependent joins the back when its last dependency is emitted. */
  method Drain(inDegree: array<nat>, adjacency: array<seq<nat>>, ghost g: Graph)
    returns (order: seq<nat>, ghost times: seq<nat>)
    requires ValidGraph(g) && inDegree.Length == adjacency.Length == |g|
    requires HoldsEdges(g, |g|, inDegree[..], adjacency[..])
    modifies inDegree
    ensures FifoListing(g, order, times)
    ensures forall i | 0 <= i < |g| :: inDegree[i] == Missing(g[i], order)
    ensures ListsReady(g, order, inDegree[..])
  {
    var queue;
    queue, times := SeedQueue(inDegree, g);
    order := [];
    forall i | 0 <= i < |g| {
      MissingNone(g[i]);
    }
    assert [] + queue == queue;
    while queue != []
      invariant QueueInvariant(g, order + queue, times, |order|)
      invariant forall i | 0 <= i < |g| :: inDegree[i] == Missing(g[i], order)
      invariant ListsReady(g, order + queue, inDegree[..])
      invariant |order| <= |g|
      decreases |g| - |order|
    {
      var idx := queue[0];
      ghost var before := order;
      assert order + queue == (order + [idx]) + queue[1..];
      ListedWithinGraph(g, order + queue, times);
      assert (order + queue)[|order|] == idx;
      assert forall k | 0 <= k < |order| :: (order + queue)[k] == order[k];
      queue := queue[1..];
      order := order + [idx];
      queue, times := VisitDependents(inDegree, adjacency[idx], g, before, order, idx, queue, times);
      assert forall i | 0 <= i < |g| :: inDegree[i] == Missing(g[i], order);
    }
    assert order + queue == order;
  }

  lemma ListedWithinGraph(g: Graph, s: seq<nat>, times: seq<nat>)
    requires FifoListing(g, s, times)
    ensures |s| <= |g| && forall k | 0 <= k < |s| :: s[k] < |g|
  {
    forall k | 0 <= k < |s|
      ensures s[k] < |g|
    {
      assert ListedOnTime(g, s, times, k);
    }
    DistinctBound(s, |g|);
  }

  /** A node whose last dependency has just been emitted joins the back of the queue. */
  lemma ReadyJoinsQueue(g: Graph, listed: seq<nat>, times: seq<nat>, order: seq<nat>, next: nat)
    requires QueueInvariant(g, listed, times, |order|) && order != [] && order <= listed
    requires forall k | 0 <= k < |times| && times[k] == |order| :: listed[k] < next
    requires next < |g| && next !in listed
    requires order[|order| - 1] in g[next] && Missing(g[next], order) == 0
    ensures QueueInvariant(g, listed + [next], times + [|order|], |order|)
  {
    MissingZero(g[next], order);
    assert listed[..|order|] == order;
    FifoAppend(g, listed, times, next, |order|);
  }

  /** The state while the dependents of the node emitted last are being visited. */
  ghost predicate MidVisit(g: Graph, inDegree: seq<nat>, before: seq<nat>, order: seq<nat>, visited: seq<nat>,
                           listed: seq<nat>, times: seq<nat>) {
    && QueueInvariant(g, listed, times, |order|)
    && (forall k | 0 <= k < |times| && times[k] == |order| :: listed[k] in visited)
    && CountsMidway(g, inDegree, before, order, visited)
    && ListsReady(g, listed, inDegree)
  }

  /** A dependent not visited yet still counts the node emitted last among what it misses. */
  lemma CountsStep(g: Graph, inDegree: seq<nat>, before: seq<nat>, idx: nat, order: seq<nat>, visited: seq<nat>,
                   next: nat)
    requires ValidGraph(g) && next < |g| && idx in g[next] && idx !in before && order == before + [idx]
    requires next !in visited && CountsMidway(g, inDegree, before, order, visited)
    ensures inDegree[next] == Missing(g[next], order) + 1
    ensures CountsMidway(g, inDegree[next := inDegree[next] - 1], before, order, visited + [next])
  {
    MissingAfter(g[next], before, idx);
  }

  lemma ReadyStep(g: Graph, inDegree: seq<nat>, listed: seq<nat>, next: nat)
    requires next < |g| && ListsReady(g, listed, inDegree) && inDegree[next] > 0
    ensures if inDegree[next] == 1 then ListsReady(g, listed + [next], inDegree[next := 0])
            else ListsReady(g, listed, inDegree[next := inDegree[next] - 1])
  {
  }

  lemma NextDependent(g: Graph, idx: nat, dependents: seq<nat>, j: nat)
    requires dependents == Dependents(g, idx, |g|) && j < |dependents|
    ensures dependents[j] < |g| && idx in g[dependents[j]]
    ensures dependents[j] !in dependents[..j] && forall x | x in dependents[..j] :: x < dependents[j]
    ensures dependents[..j + 1] == dependents[..j] + [dependents[j]]
  {
    assert dependents[j] in dependents;
  }

  lemma VisitStep(g: Graph, inDegree: seq<nat>, before: seq<nat>, idx: nat, order: seq<nat>, dependents: seq<nat>,
                  j: nat, listed: seq<nat>, times: seq<nat>)
    requires ValidGraph(g) && idx < |g| && dependents == Dependents(g, idx, |g|) && j < |dependents|
    requires order == before + [idx] && idx !in before && order <= listed
    requires MidVisit(g, inDegree, before, order, dependents[..j], listed, times)
    ensures dependents[j] < |g| && inDegree[dependents[j]] > 0
    ensures
      var next := dependents[j];
      var left := inDegree[next] - 1;
      var inDegree' := inDegree[next := left];
      if left == 0 then MidVisit(g, inDegree', before, order, dependents[..j + 1], listed + [next], times + [|order|])
      else MidVisit(g, inDegree', before, order, dependents[..j + 1], listed, times)
  {
    var next := dependents[j];
    NextDependent(g, idx, dependents, j);
    CountsStep(g, inDegree, before, idx, order, dependents[..j], next);
    ReadyStep(g, inDegree, listed, next);
    if inDegree[next] == 1 {
      ReadyJoinsQueue(g, listed, times, order, next);
    }
  }

  /** Decrement each dependent of the node emitted last; enqueue those that reach zero. */
  method VisitDependents(inDegree: array<nat>, dependents: seq<nat>, ghost g: Graph, ghost before: seq<nat>,
                         ghost order: seq<nat>, idx: nat, queue: seq<nat>, ghost times: seq<nat>)
    returns (queue': seq<nat>, ghost times': seq<nat>)
    requires ValidGraph(g) && inDegree.Length == |g| && idx < |g| && dependents == Dependents(g, idx, |g|)
    requires order == before + [idx] && idx !in before
    requires QueueInvariant(g, order + queue, times, |before|)
    requires forall i | 0 <= i < |g| :: inDegree[i] == Missing(g[i], before)
    requires ListsReady(g, order + queue, inDegree[..])
    modifies inDegree
    ensures QueueInvariant(g, order + queue', times', |order|)
    ensures forall i | 0 <= i < |g| :: inDegree[i] == Missing(g[i], order)
    ensures ListsReady(g, order + queue', inDegree[..])
  {
    queue', times' := queue, times;
    assert dependents[..0] == [];
    for j := 0 to |dependents|
      invariant MidVisit(g, inDegree[..], before, order, dependents[..j], order + queue', times')
    {
      var next := dependents[j];
      VisitStep(g, inDegree[..], before, idx, order, dependents, j, order + queue', times');
      assert order + (queue' + [next]) == order + queue' + [next];
      inDegree[next] := inDegree[next] - 1;
      if inDegree[next] == 0 {
        queue', times' := queue' + [next], times' + [|order|];
      }
    }
    assert dependents[..|dependents|] == dependents;
    forall i | 0 <= i < |g|
      ensures inDegree[i] == Missing(g[i], order)
    {
      MissingAfter(g[i], before, idx);
    }
  }

  // ---- applying the order ----

  ghost predicate InRange(order: seq<nat>, n: nat) {
    forall k | 0 <= k < |order| :: order[k] < n
  }

  ghost function Permuted<T>(s: seq<T>, order: seq<nat>): (r: seq<T>)
    requires InRange(order, |s|)
    ensures |r| == |order| && forall k | 0 <= k < |r| :: r[k] == s[order[k]]
  {
    seq(|order|, k requires 0 <= k < |order| => s[order[k]])
  }

  /** `after` is the list that sorting `before` yields. */
  ghost predicate IsSortOf(before: seq<Resource>, after: seq<Resource>) {
    && Edges(before).Ok?
    && exists order ::
         IsFifoOrder(Edges(before).value, order) && InRange(order, |before|) && after == Permuted(before, order)
  }

  /** No listing that puts dependencies first can contain node `i`: it is on a cycle or depends on one. */
  ghost predicate Unplaceable(g: Graph, i: nat) {
    i < |g| && forall s | DependenciesFirst(g, s) :: i !in s
  }

  /** Move the resources out one at a time; every cell is visited once, so each `take` finds its resource. */
  method TakeInOrder(routing: seq<Resource>, order: seq<nat>) returns (sorted: seq<Resource>)
    requires Distinct(order) && InRange(order, |routing|)
    ensures sorted == Permuted(routing, order)
  {
    var taker := new Option<Resource>[|routing|](k requires 0 <= k < |routing| => Some(routing[k]));
    sorted := [];
    for k := 0 to |order|
      invariant |sorted| == k && forall j | 0 <= j < k :: sorted[j] == routing[order[j]]
      invariant forall i | 0 <= i < |routing| && i !in order[..k] :: taker[i] == Some(routing[i])
    {
      assert order[k] !in order[..k];
      var entry := taker[order[k]];
      assert entry.Some?;
      taker[order[k]] := None;
      sorted := sorted + [entry.value];
      assert order[..k + 1] == order[..k] + [order[k]];
    }
  }

  /** The ids of the flagged resources, in order. */
  ghost function IdsWhere(routing: seq<Resource>, flags: seq<bool>): seq<string>
    requires |flags| == |routing|
  {
    if routing == [] then []
    else
      var last := |routing| - 1;
      var before := IdsWhere(routing[..last], flags[..last]);
      if flags[last] then before + [routing[last].id] else before
  }

  ghost function IdsOf(routing: seq<Resource>): (ids: seq<string>)
    ensures |ids| == |routing| && forall i | 0 <= i < |ids| :: ids[i] == routing[i].id
  {
    seq(|routing|, i requires 0 <= i < |routing| => routing[i].id)
  }

  /** These are, in order, the ids at exactly the flagged positions. */
  lemma {:induction false} IdsWhereExactly(routing: seq<Resource>, flags: seq<bool>, n: nat) returns (which: seq<nat>)
    requires |flags| == |routing| && n <= |routing|
    ensures Filters(IdsWhere(routing[..n], flags[..n]), IdsOf(routing), which, n, FlagAt(flags))
    decreases n
  {
    if n == 0 {
      which := [];
    } else {
      var before := IdsWhere(routing[..n - 1], flags[..n - 1]);
      which := IdsWhereExactly(routing, flags, n - 1);
      IdsStep(routing, flags, n - 1);
      which := FilterNext(before, IdsWhere(routing[..n], flags[..n]), IdsOf(routing), which, n - 1, FlagAt(flags));
    }
  }

  ghost function FlagAt(flags: seq<bool>): nat -> bool {
    (k: nat) => k < |flags| && flags[k]
  }

  function FirstFive(names: seq<string>): seq<string> {
    if |names| <= 5 then names else names[..5]
  }

  ghost function Positive(degrees: seq<nat>): (flags: seq<bool>)
    ensures |flags| == |degrees| && forall i | 0 <= i < |flags| :: flags[i] == (degrees[i] > 0)
  {
    seq(|degrees|, i requires 0 <= i < |degrees| => degrees[i] > 0)
  }

  ghost function UnplaceableFlags(g: Graph): (flags: seq<bool>)
    ensures |flags| == |g| && forall i | 0 <= i < |flags| :: flags[i] == Unplaceable(g, i)
  {
    seq(|g|, i requires 0 <= i < |g| => Unplaceable(g, i))
  }

  lemma IdsStep(routing: seq<Resource>, flags: seq<bool>, i: nat)
    requires |flags| == |routing| && i < |routing|
    ensures
      var before := IdsWhere(routing[..i], flags[..i]);
      IdsWhere(routing[..i + 1], flags[..i + 1]) == if flags[i] then before + [routing[i].id] else before
  {
    assert routing[..i + 1][..i] == routing[..i] && flags[..i + 1][..i] == flags[..i];
  }

  /** Ids of the first five nodes whose in-degree never reached zero. */
  method NameStuck(routing: seq<Resource>, inDegree: array<nat>) returns (names: seq<string>)
    requires inDegree.Length == |routing|
    ensures names == FirstFive(IdsWhere(routing, Positive(inDegree[..])))
  {
    names := [];
    ghost var flags := Positive(inDegree[..]);
    for i := 0 to |routing|
      invariant names == FirstFive(IdsWhere(routing[..i], flags[..i]))
    {
      IdsStep(routing, flags, i);
      if inDegree[i] > 0 && |names| < 5 {
        names := names + [routing[i].id];
      }
    }
    assert routing[..|routing|] == routing && flags[..|routing|] == flags;
  }

  /** What is left when nothing more can be listed is exactly what no listing can contain. */
  lemma StuckIsUnplaceable(g: Graph, order: seq<nat>, i: nat)
    requires DependenciesFirst(g, order)
    requires forall j | 0 <= j < |g| && j !in order :: Missing(g[j], order) > 0
    requires i < |g|
    ensures Unplaceable(g, i) <==> i !in order
    ensures Unplaceable(g, i) <==> Missing(g[i], order) > 0
  {
    if i in order {
      var k :| 0 <= k < |order| && order[k] == i;
      assert forall d | d in g[order[k]] :: d in order[..k];
      MissingZero(g[i], order);
    } else {
      forall s | DependenciesFirst(g, s)
        ensures i !in s
      {
        MaximalListingContainsAll(g, order, s);
      }
    }
  }

  /** The in-degrees left over flag the nodes that cannot be placed. */
  lemma FlagsAreUnplaceable(g: Graph, order: seq<nat>, degrees: seq<nat>)
    requires DependenciesFirst(g, order) && |degrees| == |g|
    requires forall j | 0 <= j < |g| && j !in order :: Missing(g[j], order) > 0
    requires forall j | 0 <= j < |g| :: degrees[j] == Missing(g[j], order)
    ensures Positive(degrees) == UnplaceableFlags(g)
  {
    forall i | 0 <= i < |g|
      ensures (degrees[i] > 0) == Unplaceable(g, i)
    {
      StuckIsUnplaceable(g, order, i);
    }
  }

  /** The routing list of one operation. */
  class RoutingList {
    var items: seq<Resource>

    constructor (items: seq<Resource>)
      ensures this.items == items
    {
      this.items := items;
    }

    /** Sort in place. Fails, leaving the list as it was, exactly when an entry cannot be resolved or there is a
        cycle. */
    method SortByDependsOn() returns (error: Option<SortError>)
      modifies this
      ensures error.None? <==> Edges(old(items)).Ok? && !HasCycle(Edges(old(items)).value)
      ensures error.None? ==> IsSortOf(old(items), items)
      ensures error.Some? ==> items == old(items)
      ensures Edges(old(items)).Err? ==>
                && error == Some(Edges(old(items)).error)
                && exists i: nat :: BadRow(items, i, error.value) && forall j | 0 <= j < i :: RowEdges(items, j).Ok?
      ensures error.Some? && Edges(old(items)).Ok? ==>
                var g := Edges(old(items)).value;
                && |g| == |items|
                && var ids := IdsWhere(items, UnplaceableFlags(g));
                   error == Some(CycleDetected(if |ids| <= 5 then ids else ids[..5]))
    {
      var n := |items|;
      var inDegree := new nat[n](_ => 0);
      var adjacency := new seq<nat>[n](_ => []);
      var refused := BuildEdges(items, inDegree, adjacency);
      if refused.Some? {
        ghost var i := EdgesRefused(items, n);
        return refused;
      }
      ghost var g := Edges(items).value;
      EdgesValid(items);
      var order, times := Drain(inDegree, adjacency, g);
      ListedWithinGraph(g, order, times);
      FifoNodes(g, order, times);
      MaximalListingCompleteIffAcyclic(g, order);
      if |order| != n {
        if Complete(g, order) {
          CompleteLength(g, order);
        }
        var stuck := NameStuck(items, inDegree);
        FlagsAreUnplaceable(g, order, inDegree[..]);
        return Some(CycleDetected(stuck));
      }
      FullLengthIsComplete(g, order);
      var sorted := TakeInOrder(items, order);
      items := sorted;
      return None;
    }
  }

  lemma FullLengthIsComplete(g: Graph, s: seq<nat>)
    requires Distinct(s) && |s| == |g| && forall k | 0 <= k < |s| :: s[k] < |g|
    ensures Complete(g, s)
  {
    forall i | 0 <= i < |g|
      ensures i in s
    {
      if i !in s {
        DistinctBound(s + [i], |g|);
      }
    }
  }

  // ---- layers ----

  lemma {:induction false} MaxLayerAgrees(a: seq<int>, b: seq<int>, deps: seq<nat>)
    requires forall k | 0 <= k < |deps| :: deps[k] < |a| && deps[k] < |b| && a[deps[k]] == b[deps[k]]
    ensures MaxLayer(a, deps) == MaxLayer(b, deps)
  {
    if deps != [] {
      MaxLayerAgrees(a, b, deps[..|deps| - 1]);
    }
  }

  ghost predicate LayeredUpTo(g: Graph, layers: seq<int>, k: nat) {
    k <= |g| == |layers| && forall i | 0 <= i < k :: Layered(g, layers, i)
  }

  lemma LayeredAppend(g: Graph, layers: seq<int>, row: seq<nat>, v: int)
    requires LayeredUpTo(g, layers, |g|)
    requires AllBefore(row, |g|) && v == MaxLayer(layers, row) + 1
    ensures LayeredUpTo(g + [row], layers + [v], |g| + 1)
  {
    var g', layers' := g + [row], layers + [v];
    forall a | 0 <= a < |g'|
      ensures Layered(g', layers', a)
    {
      if a < |g| {
        assert Layered(g, layers, a);
      }
      MaxLayerAgrees(layers, layers', g'[a]);
    }
  }

  /** Every dependency sits before its dependent. */
  ghost predicate AlreadySorted(g: Graph) {
    forall i | 0 <= i < |g| :: AllBefore(g[i], i)
  }

  /** `deps` are the positions, all before `i`, of the first ids in `names`. */
  ghost predicate PositionsBefore(index: map<string, nat>, names: seq<string>, deps: seq<nat>, i: nat) {
    |deps| <= |names| && forall k | 0 <= k < |deps| :: names[k] in index && deps[k] == index[names[k]] && deps[k] < i
  }

  lemma EarlierPositionsAreTheRow(routing: seq<Resource>, i: nat, names: seq<string>, deps: seq<nat>)
    requires i < |routing| && Declared(routing[i].dependsOn) == Ok(names)
    requires PositionsBefore(IdIndex(routing), names, deps, i) && |deps| == |names|
    ensures RowEdges(routing, i) == Ok(deps)
  {
    ResolveExactly(IdIndex(routing), routing[i].id, i, names);
    assert RowEdges(routing, i).value == deps;
  }

  lemma UnreadableRow(routing: seq<Resource>, i: nat)
    requires i < |routing|
    requires Declared(routing[i].dependsOn).Err? ||
             exists k :: 0 <= k < |Declared(routing[i].dependsOn).value|
               && Declared(routing[i].dependsOn).value[k] !in IdIndex(routing)
    ensures Edges(routing).Err?
  {
    EdgesRow(routing, |routing|);
    if Declared(routing[i].dependsOn).Ok? {
      ResolveExactly(IdIndex(routing), routing[i].id, i, Declared(routing[i].dependsOn).value);
    }
    assert RowEdges(routing, i).Err?;
  }

  /** The `k`th id declared at `i` is the first one there that does not name an earlier resource. */
  ghost predicate RefusedEntry(routing: seq<Resource>, i: nat, k: nat, error: SortError) {
    && i < |routing| && Declared(routing[i].dependsOn).Ok? && k < |Declared(routing[i].dependsOn).value|
    && var names, index := Declared(routing[i].dependsOn).value, IdIndex(routing);
       && (forall m | 0 <= m < k :: names[m] in index && index[names[m]] < i)
       && if names[k] !in index then error == UnknownReference(routing[i].id, names[k])
          else index[names[k]] >= i && error == NotYetVisited(index[names[k]], i)
  }

  /** Why the resource at `i` gets no layer: its list cannot be read, or one of its ids is refused. */
  ghost predicate RefusedRow(routing: seq<Resource>, i: nat, error: SortError) {
    && i < |routing|
    && (Declared(routing[i].dependsOn) == Err(error) || exists k: nat :: RefusedEntry(routing, i, k, error))
  }

  /** The row at `j` resolves to earlier positions. */
  ghost predicate EarlierRow(routing: seq<Resource>, j: nat)
    requires j < |routing|
  {
    RowEdges(routing, j).Ok? && AllBefore(RowEdges(routing, j).value, j)
  }

  /** The first resource that gets no layer, and why. */
  ghost predicate FirstRefusedRow(routing: seq<Resource>, i: nat, error: SortError) {
    RefusedRow(routing, i, error) && forall j | 0 <= j < i :: EarlierRow(routing, j)
  }

  /** The highest layer among the dependencies of the resource at `i`, all of which must come before it. */
  method HighestDependency(routing: seq<Resource>, index: map<string, nat>, i: nat, layers: array<int>,
                           ghost done: seq<int>)
    returns (r: Result<int, SortError>)
    requires i < |routing| == layers.Length && index == IdIndex(routing) && done == layers[..i]
    ensures r.Ok? ==>
              && RowEdges(routing, i).Ok?
              && AllBefore(RowEdges(routing, i).value, i)
              && r.value == MaxLayer(done, RowEdges(routing, i).value)
    ensures r.Err? ==> !(Edges(routing).Ok? && AlreadySorted(Edges(routing).value)) && RefusedRow(routing, i, r.error)
  {
    var names := ReadDependsOn(routing[i].dependsOn);
    if names.Err? {
      UnreadableRow(routing, i);
      return Err(names.error);
    }
    var maxDepLayer := -1;
    ghost var deps: seq<nat> := [];
    for k := 0 to |names.value|
      invariant |deps| == k && PositionsBefore(index, names.value, deps, i)
      invariant maxDepLayer == MaxLayer(done, deps)
    {
      var name := names.value[k];
      if name !in index {
        UnreadableRow(routing, i);
        assert RefusedEntry(routing, i, k, UnknownReference(routing[i].id, name));
        return Err(UnknownReference(routing[i].id, name));
      }
      var dep := index[name];
      if dep >= i {
        UnsortedRow(routing, i, names.value, k);
        assert RefusedEntry(routing, i, k, NotYetVisited(dep, i));
        return Err(NotYetVisited(dep, i));
      }
      assert (deps + [dep])[..k] == deps;
      maxDepLayer := if layers[dep] > maxDepLayer then layers[dep] else maxDepLayer;
      deps := deps + [dep];
    }
    EarlierPositionsAreTheRow(routing, i, names.value, deps);
    return Ok(maxDepLayer);
  }

  /** `layers` are the layers of the first `k` resources, whose edges are accepted. */
  ghost predicate LayersSoFar(routing: seq<Resource>, k: nat, layers: seq<int>) {
    && k <= |routing|
    && EdgesUpTo(routing, k).Ok?
    && IsLayering(EdgesUpTo(routing, k).value, layers)
  }

  lemma LayersGrow(routing: seq<Resource>, k: nat, layers: seq<int>, v: int)
    requires LayersSoFar(routing, k, layers) && k < |routing| && RowEdges(routing, k).Ok? && |layers| == k
    requires AllBefore(RowEdges(routing, k).value, k)
    requires v == MaxLayer(layers, RowEdges(routing, k).value) + 1
    ensures LayersSoFar(routing, k + 1, layers + [v])
  {
    LayeredAppend(EdgesUpTo(routing, k).value, layers, RowEdges(routing, k).value, v);
  }

  method ComputeResourceLayers(routing: seq<Resource>) returns (r: Result<seq<int>, SortError>)
    ensures r.Ok? <==> Edges(routing).Ok? && AlreadySorted(Edges(routing).value)
    ensures r.Ok? ==> IsLayering(Edges(routing).value, r.value)
    ensures r.Err? ==> exists i: nat :: FirstRefusedRow(routing, i, r.error)
  {
    var index := BuildIndex(routing);
    var layers := new int[|routing|](_ => 0);
    ghost var done: seq<int> := [];
    for i := 0 to |routing|
      invariant layers[..i] == done && |done| == i && LayersSoFar(routing, i, done)
    {
      var highest := HighestDependency(routing, index, i, layers, done);
      if highest.Err? {
        LayeredRowsAreEarlier(routing, i, done);
        assert FirstRefusedRow(routing, i, highest.error);
        return Err(highest.error);
      }
      LayersGrow(routing, i, done, highest.value + 1);
      layers[i] := highest.value + 1;
      done := done + [highest.value + 1];
    }
    assert layers[..] == done;
    LayeringIsSorted(Edges(routing).value, done);
    return Ok(layers[..]);
  }

  lemma LayeredRowsAreEarlier(routing: seq<Resource>, k: nat, layers: seq<int>)
    requires LayersSoFar(routing, k, layers)
    ensures forall j | 0 <= j < k :: EarlierRow(routing, j)
  {
    EdgesRow(routing, k);
    forall j | 0 <= j < k
      ensures EarlierRow(routing, j)
    {
      assert Layered(EdgesUpTo(routing, k).value, layers, j);
    }
  }

  lemma LayeringIsSorted(g: Graph, layers: seq<int>)
    requires IsLayering(g, layers)
    ensures AlreadySorted(g)
  {
    forall i | 0 <= i < |g|
      ensures AllBefore(g[i], i)
    {
      assert Layered(g, layers, i);
    }
  }

  lemma UnsortedRow(routing: seq<Resource>, i: nat, names: seq<string>, k: nat)
    requires i < |routing| && Declared(routing[i].dependsOn) == Ok(names) && k < |names|
    requires names[k] in IdIndex(routing) && IdIndex(routing)[names[k]] >= i
    ensures Edges(routing).Ok? ==> !AlreadySorted(Edges(routing).value)
  {
    if Edges(routing).Ok? {
      EdgesRow(routing, |routing|);
      RowWellFormed(routing, i);
      assert Edges(routing).value[i][k] >= i;
    }
  }
}
