/** Bounded expansion of composite resources (`crates/iac-controlplane/src/expansion.rs`). The individual expanders are
    arbitrary partial functions from a resource to its children. */
module Expansion {
  import opened Common
  import opened Json

  const MAX_EXPANSION_DEPTH: nat := 8

  datatype Module = Module(name: string, source: string)

  type Step = Result<seq<Json>, string>

  datatype Expanders = Expanders(
    service: Json -> Step,
    cronJobBundle: Json -> Step,
    webWithMonitoring: Json -> Step,
    fromModule: (Module, Json) -> Step)

  datatype Catalog = Catalog(expanders: Expanders, modules: seq<Module>)

  datatype ExpandError = MissingKind | StepFailed(reason: string) | TooDeep(remaining: set<string>)

  type Expanded = Result<seq<Json>, ExpandError>

  // ---- one resource ----

  /** The text under `kind`, if the resource is an object holding one. */
  function KindOf(raw: Json): Option<string> {
    if !raw.Obj? then None
    else
      var kind := Get(raw.members, "kind");
      if kind.Some? && kind.value.Str? then Some(kind.value.text) else None
  }

  function FindModule(modules: seq<Module>, name: string): Option<Module> {
    if modules == [] then None
    else if modules[0].name == name then Some(modules[0])
    else FindModule(modules[1..], name)
  }

  predicate IsBuiltIn(kind: string) {
    kind == "service" || kind == "cron-job-bundle" || kind == "web-with-monitoring"
  }

  predicate IsCompositeKind(kind: string, modules: seq<Module>) {
    IsBuiltIn(kind) || exists i | 0 <= i < |modules| :: modules[i].name == kind
  }

  predicate IsComposite(raw: Json, cat: Catalog) {
    KindOf(raw).Some? && IsCompositeKind(KindOf(raw).value, cat.modules)
  }

  lemma {:induction false} ModuleFound(modules: seq<Module>, name: string)
    ensures FindModule(modules, name).Some? <==> exists i | 0 <= i < |modules| :: modules[i].name == name
  {
    if modules != [] {
      ModuleFound(modules[1..], name);
      if i :| 0 <= i < |modules| && modules[i].name == name && i > 0 {
        assert modules[1..][i - 1].name == name;
      }
      if j :| 0 <= j < |modules[1..]| && modules[1..][j].name == name {
        assert modules[j + 1].name == name;
      }
    }
  }

  /** The children of a composite: by the built-in of that kind, or else the first module of that name. */
  function ChildrenOf(raw: Json, cat: Catalog): Step
    requires IsComposite(raw, cat)
  {
    var kind := KindOf(raw).value;
    if kind == "service" then cat.expanders.service(raw)
    else if kind == "cron-job-bundle" then cat.expanders.cronJobBundle(raw)
    else if kind == "web-with-monitoring" then cat.expanders.webWithMonitoring(raw)
    else
      ModuleFound(cat.modules, kind);
      cat.expanders.fromModule(FindModule(cat.modules, kind).value, raw)
  }

  // ---- which expander serves which resource ----

  /** The resource is an object whose first `kind` member is that text. */
  lemma {:induction false} KindExactly(members: seq<Member>, kind: string)
    ensures KindOf(Obj(members)) == Some(kind) <==>
            exists i ::
              && 0 <= i < |members| && members[i] == Member("kind", Str(kind))
              && forall j | 0 <= j < i :: members[j].key != "kind"
  {
    var i := FirstNamed(members, "kind");
    if i < |members| {
      assert Get(members, "kind") == Some(members[i].value);
    }
  }

  /** Where the first member with the key stands, or the length. */
  lemma {:induction false} FirstNamed(members: seq<Member>, key: string) returns (i: nat)
    ensures i <= |members| && forall j | 0 <= j < i :: members[j].key != key
    ensures if i < |members| then members[i].key == key && Get(members, key) == Some(members[i].value)
            else Get(members, key) == None
  {
    if members == [] || members[0].key == key {
      i := 0;
    } else {
      i := FirstNamed(members[1..], key);
      i := i + 1;
    }
  }

  lemma {:induction false} FirstModule(modules: seq<Module>, name: string) returns (i: nat)
    requires exists j :: 0 <= j < |modules| && modules[j].name == name
    ensures i < |modules| && modules[i].name == name && forall j | 0 <= j < i :: modules[j].name != name
    ensures FindModule(modules, name) == Some(modules[i])
  {
    if modules[0].name == name {
      i := 0;
    } else {
      var j :| 0 <= j < |modules| && modules[j].name == name;
      assert modules[1..][j - 1].name == name;
      i := FirstModule(modules[1..], name);
      i := i + 1;
    }
  }

  /** A resource is composite exactly when its kind is one of the three built-in ones or the name of a module. */
  lemma CompositeExactly(raw: Json, cat: Catalog)
    ensures IsComposite(raw, cat) <==>
            && KindOf(raw).Some?
            && (|| KindOf(raw).value in ["service", "cron-job-bundle", "web-with-monitoring"]
                || exists i :: 0 <= i < |cat.modules| && cat.modules[i].name == KindOf(raw).value)
  {
  }

  /** The built-ins serve their own kinds, whatever the modules are called; the first module of the name serves any
      other. */
  lemma ServedBy(raw: Json, cat: Catalog)
    requires IsComposite(raw, cat)
    ensures KindOf(raw).value == "service" ==> ChildrenOf(raw, cat) == cat.expanders.service(raw)
    ensures KindOf(raw).value == "cron-job-bundle" ==> ChildrenOf(raw, cat) == cat.expanders.cronJobBundle(raw)
    ensures KindOf(raw).value == "web-with-monitoring" ==> ChildrenOf(raw, cat) == cat.expanders.webWithMonitoring(raw)
    ensures KindOf(raw).value !in ["service", "cron-job-bundle", "web-with-monitoring"] ==>
              exists i ::
                && 0 <= i < |cat.modules| && cat.modules[i].name == KindOf(raw).value
                && (forall j | 0 <= j < i :: cat.modules[j].name != KindOf(raw).value)
                && ChildrenOf(raw, cat) == cat.expanders.fromModule(cat.modules[i], raw)
  {
    if !IsBuiltIn(KindOf(raw).value) {
      var i := FirstModule(cat.modules, KindOf(raw).value);
    }
  }

  // ---- the breadth-first form ----

  /** What one pass puts in the place of a resource. */
  ghost function Replacement(raw: Json, cat: Catalog): Expanded {
    if KindOf(raw).None? then Err(MissingKind)
    else if !IsComposite(raw, cat) then Ok([raw])
    else
      var step := ChildrenOf(raw, cat);
      if step.Ok? then Ok(step.value) else Err(StepFailed(step.error))
  }

  ghost function Both(a: Expanded, b: Expanded): Expanded {
    if a.Err? then a else if b.Err? then b else Ok(a.value + b.value)
  }

  /** One pass, left to right; the first failure wins. */
  ghost function Pass(resources: seq<Json>, cat: Catalog): Expanded {
    if resources == [] then Ok([])
    else Both(Replacement(resources[0], cat), Pass(resources[1..], cat))
  }

  ghost function Passes(resources: seq<Json>, cat: Catalog, n: nat): Expanded
    decreases n
  {
    if n == 0 then Ok(resources)
    else
      var first := Pass(resources, cat);
      if first.Err? then first else Passes(first.value, cat, n - 1)
  }

  /** A pass over one resource: refused without a kind, kept as it is, or given way to its children. */
  lemma PassOverOne(raw: Json, cat: Catalog)
    ensures Pass([raw], cat) ==
            if KindOf(raw).None? then Err(MissingKind)
            else if !IsComposite(raw, cat) then Ok([raw])
            else
              var step := ChildrenOf(raw, cat);
              if step.Ok? then Ok(step.value) else Err(StepFailed(step.error))
  {
    assert [raw][1..] == [];
    EmptyIsUnit(Replacement(raw, cat));
  }

  /** A pass goes left to right: the first failure is the result, otherwise the parts follow one another. */
  lemma {:induction false} PassInOrder(a: seq<Json>, b: seq<Json>, cat: Catalog)
    ensures Pass(a + b, cat) ==
            if Pass(a, cat).Err? then Pass(a, cat)
            else if Pass(b, cat).Err? then Pass(b, cat)
            else Ok(Pass(a, cat).value + Pass(b, cat).value)
  {
    if a == [] {
      assert a + b == b;
      EmptyIsUnit(Pass(b, cat));
    } else {
      PassInOrder(a[1..], b, cat);
      assert (a + b)[1..] == a[1..] + b && (a + b)[0] == a[0];
      BothAssoc(Replacement(a[0], cat), Pass(a[1..], cat), Pass(b, cat));
    }
  }

  ghost predicate AnyComposite(resources: seq<Json>, cat: Catalog) {
    exists i | 0 <= i < |resources| :: IsComposite(resources[i], cat)
  }

  /** Every resource has a kind, and none is composite. */
  ghost predicate Flat(resources: seq<Json>, cat: Catalog) {
    forall i | 0 <= i < |resources| :: KindOf(resources[i]).Some? && !IsComposite(resources[i], cat)
  }

  // ---- the tree form ----

  ghost function Tree(raw: Json, cat: Catalog, fuel: nat): Expanded
    decreases fuel, 1, 0
  {
    if KindOf(raw).None? then Err(MissingKind)
    else if !IsComposite(raw, cat) then Ok([raw])
    else
      var step := ChildrenOf(raw, cat);
      if step.Err? then Err(StepFailed(step.error))
      else if fuel == 0 then Err(TooDeep({}))
      else Forest(step.value, cat, fuel - 1)
  }

  /** Each resource expanded to the leaves of its own tree, left to right, at most `fuel` composites deep. */
  ghost function Forest(resources: seq<Json>, cat: Catalog, fuel: nat): Expanded
    decreases fuel, 2, |resources|
  {
    if resources == [] then Ok([])
    else Both(Tree(resources[0], cat, fuel), Forest(resources[1..], cat, fuel))
  }

  /** Equal, or both failures. */
  ghost predicate Agree(a: Expanded, b: Expanded) {
    a == b || (a.Err? && b.Err?)
  }

  lemma {:induction false} ForestSum(a: seq<Json>, b: seq<Json>, cat: Catalog, fuel: nat)
    ensures Agree(Forest(a + b, cat, fuel), Both(Forest(a, cat, fuel), Forest(b, cat, fuel)))
  {
    if a == [] {
      assert a + b == b;
      EmptyIsUnit(Forest(b, cat, fuel));
    } else {
      ForestSum(a[1..], b, cat, fuel);
      assert (a + b)[1..] == a[1..] + b && (a + b)[0] == a[0];
      BothAssoc(Tree(a[0], cat, fuel), Forest(a[1..], cat, fuel), Forest(b, cat, fuel));
    }
  }

  lemma EmptyIsUnit(a: Expanded)
    ensures Both(Ok([]), a) == a && Both(a, Ok([])) == a
  {
    assert a.Ok? ==> [] + a.value == a.value && a.value + [] == a.value;
  }

  lemma BothAssoc(a: Expanded, b: Expanded, c: Expanded)
    ensures Both(Both(a, b), c) == Both(a, Both(b, c))
  {
    assert a.Ok? && b.Ok? && c.Ok? ==> (a.value + b.value) + c.value == a.value + (b.value + c.value);
  }

  lemma LeafForest(raw: Json, cat: Catalog, fuel: nat)
    requires KindOf(raw).Some? && !IsComposite(raw, cat)
    ensures Forest([raw], cat, fuel) == Ok([raw])
  {
    assert [raw][1..] == [] && [raw] + [] == [raw];
  }

  /** Replacing a resource and then expanding with one level less is expanding it. */
  lemma ReplacementThenForest(raw: Json, cat: Catalog, fuel: nat)
    ensures
      var r := Replacement(raw, cat);
      if r.Err? then Tree(raw, cat, fuel).Err? else Tree(raw, cat, fuel + 1) == Forest(r.value, cat, fuel)
  {
    if KindOf(raw).Some? && !IsComposite(raw, cat) {
      LeafForest(raw, cat, fuel);
    }
  }

  /** A pass takes one level off every tree. */
  lemma {:induction false} PassThenForest(resources: seq<Json>, cat: Catalog, fuel: nat)
    ensures
      var p := Pass(resources, cat);
      if p.Err? then Forest(resources, cat, fuel).Err?
        else Agree(Forest(resources, cat, fuel + 1), Forest(p.value, cat, fuel))
  {
    if resources != [] {
      PassThenForest(resources[1..], cat, fuel);
      ReplacementThenForest(resources[0], cat, fuel);
      var head, tail := Replacement(resources[0], cat), Pass(resources[1..], cat);
      if head.Ok? && tail.Ok? {
        ForestSum(head.value, tail.value, cat, fuel);
      }
    }
  }

  lemma {:induction false} NoFuelNeedsFlat(resources: seq<Json>, cat: Catalog)
    ensures Forest(resources, cat, 0).Ok? <==> Flat(resources, cat)
    ensures Flat(resources, cat) ==> forall fuel :: Forest(resources, cat, fuel) == Ok(resources)
    ensures Flat(resources, cat) ==> Pass(resources, cat) == Ok(resources)
  {
    if resources != [] {
      NoFuelNeedsFlat(resources[1..], cat);
      assert resources == [resources[0]] + resources[1..];
      if Flat(resources, cat) {
        assert Flat(resources[1..], cat);
      } else if Flat(resources[1..], cat) {
        assert KindOf(resources[0]).None? || IsComposite(resources[0], cat);
      }
    }
  }

  /** The tree expansion succeeds exactly when that many passes lead to a flat list, and that list is its result. */
  lemma {:induction false} ForestIsPasses(resources: seq<Json>, cat: Catalog, fuel: nat)
    ensures
      var p := Passes(resources, cat, fuel);
      && (Forest(resources, cat, fuel).Ok? <==> p.Ok? && Flat(p.value, cat))
      && (Forest(resources, cat, fuel).Ok? ==> Forest(resources, cat, fuel) == p)
    decreases fuel
  {
    if fuel == 0 {
      NoFuelNeedsFlat(resources, cat);
    } else {
      PassThenForest(resources, cat, fuel - 1);
      var p := Pass(resources, cat);
      if p.Ok? {
        ForestIsPasses(p.value, cat, fuel - 1);
      } else {
        PassThenForest(resources, cat, fuel);
      }
    }
  }

  /** Passes over a flat list change nothing. */
  lemma {:induction false} FlatStays(resources: seq<Json>, cat: Catalog, n: nat)
    requires Flat(resources, cat)
    ensures Passes(resources, cat, n) == Ok(resources)
    decreases n
  {
    if n > 0 {
      NoFuelNeedsFlat(resources, cat);
      FlatStays(resources, cat, n - 1);
    }
  }

  /** The pass after `n` passes. */
  lemma {:induction false} PassesStep(resources: seq<Json>, cat: Catalog, n: nat)
    ensures
      var p := Passes(resources, cat, n);
      Passes(resources, cat, n + 1) == if p.Err? then p else Pass(p.value, cat)
    decreases n
  {
    if n > 0 && Pass(resources, cat).Ok? {
      PassesStep(Pass(resources, cat).value, cat, n - 1);
    }
  }

  /** A failed pass fails every longer sequence of passes, the same way. */
  lemma {:induction false} FailureStays(resources: seq<Json>, cat: Catalog, n: nat, m: nat)
    requires Passes(resources, cat, n).Err? && n <= m
    ensures Passes(resources, cat, m) == Passes(resources, cat, n)
    decreases n
  {
    if n > 0 && Pass(resources, cat).Ok? {
      FailureStays(Pass(resources, cat).value, cat, n - 1, m - 1);
    }
  }

  // ---- when it succeeds ----

  /** A way down from one of `resources`: each step goes from a composite to one of its children. */
  ghost predicate Chain(resources: seq<Json>, cat: Catalog, chain: seq<Json>)
    decreases |chain|
  {
    && chain != []
    && chain[0] in resources
    && (|chain| > 1 ==>
          && IsComposite(chain[0], cat)
          && ChildrenOf(chain[0], cat).Ok?
          && Chain(ChildrenOf(chain[0], cat).value, cat, chain[1..]))
  }

  /** The resource has a kind; if it is composite its expander succeeds, and it is at most `fuel` composites deep. */
  ghost predicate GoodEnd(raw: Json, cat: Catalog, depth: nat, fuel: nat) {
    KindOf(raw).Some? && (IsComposite(raw, cat) ==> ChildrenOf(raw, cat).Ok? && depth <= fuel)
  }

  lemma {:induction false} MemberSucceeds(resources: seq<Json>, cat: Catalog, raw: Json, fuel: nat)
    requires Forest(resources, cat, fuel).Ok? && raw in resources
    ensures Tree(raw, cat, fuel).Ok?
  {
    if raw != resources[0] {
      MemberSucceeds(resources[1..], cat, raw, fuel);
    }
  }

  lemma {:induction false} GoodChains(resources: seq<Json>, cat: Catalog, chain: seq<Json>, fuel: nat)
    requires Forest(resources, cat, fuel).Ok? && Chain(resources, cat, chain)
    ensures GoodEnd(chain[|chain| - 1], cat, |chain|, fuel)
    decreases |chain|
  {
    MemberSucceeds(resources, cat, chain[0], fuel);
    if |chain| > 1 {
      GoodChains(ChildrenOf(chain[0], cat).value, cat, chain[1..], fuel - 1);
    }
  }

  lemma {:induction false} BadChain(resources: seq<Json>, cat: Catalog, fuel: nat) returns (chain: seq<Json>)
    requires Forest(resources, cat, fuel).Err?
    ensures Chain(resources, cat, chain) && !GoodEnd(chain[|chain| - 1], cat, |chain|, fuel)
    decreases fuel, |resources|
  {
    var raw := resources[0];
    if Tree(raw, cat, fuel).Ok? {
      chain := BadChain(resources[1..], cat, fuel);
    } else if KindOf(raw).None? || ChildrenOf(raw, cat).Err? || fuel == 0 {
      chain := [raw];
    } else {
      var rest := BadChain(ChildrenOf(raw, cat).value, cat, fuel - 1);
      chain := [raw] + rest;
      assert chain[1..] == rest;
    }
  }

  /** Tree expansion succeeds exactly when on every way down each resource has a kind, each composite's expander
      succeeds, and no composite is more than `fuel` deep. */
  lemma SucceedsIffEveryChainIsGood(resources: seq<Json>, cat: Catalog, fuel: nat)
    ensures Forest(resources, cat, fuel).Ok? <==>
            forall chain | Chain(resources, cat, chain) :: GoodEnd(chain[|chain| - 1], cat, |chain|, fuel)
  {
    if Forest(resources, cat, fuel).Ok? {
      forall chain | Chain(resources, cat, chain)
        ensures GoodEnd(chain[|chain| - 1], cat, |chain|, fuel)
      {
        GoodChains(resources, cat, chain, fuel);
      }
    } else {
      var chain := BadChain(resources, cat, fuel);
    }
  }

  // ---- the program ----

  lemma {:induction false} PassSnoc(resources: seq<Json>, i: nat, cat: Catalog)
    requires i < |resources|
    ensures Pass(resources[..i + 1], cat) == Both(Pass(resources[..i], cat), Replacement(resources[i], cat))
    decreases i
  {
    var upTo, before := resources[..i + 1], resources[..i];
    if i == 0 {
      assert upTo[1..] == [] && before == [];
      EmptyIsUnit(Replacement(resources[0], cat));
    } else {
      PassSnoc(resources[1..], i - 1, cat);
      assert upTo[1..] == resources[1..][..i] && before[1..] == resources[1..][..i - 1];
      BothAssoc(Replacement(resources[0], cat), Pass(before[1..], cat), Replacement(resources[i], cat));
    }
  }

  lemma {:induction false} FailedPrefix(resources: seq<Json>, i: nat, cat: Catalog)
    requires i <= |resources| && Pass(resources[..i], cat).Err?
    ensures Pass(resources, cat) == Pass(resources[..i], cat)
    decreases i
  {
    var before := resources[..i];
    assert before[1..] == resources[1..][..i - 1];
    if Replacement(resources[0], cat).Ok? {
      FailedPrefix(resources[1..], i - 1, cat);
    }
  }

  method ExpandResourcesOnePass(resources: seq<Json>, cat: Catalog) returns (r: Result<(seq<Json>, bool), ExpandError>)
    ensures r.Err? <==> Pass(resources, cat).Err?
    ensures r.Err? ==> Pass(resources, cat) == Err(r.error)
    ensures r.Ok? ==> Pass(resources, cat) == Ok(r.value.0) && (r.value.1 <==> AnyComposite(resources, cat))
  {
    var out: seq<Json> := [];
    var changed := false;
    for i := 0 to |resources|
      invariant Pass(resources[..i], cat) == Ok(out)
      invariant changed <==> AnyComposite(resources[..i], cat)
    {
      var raw := resources[i];
      PassSnoc(resources, i, cat);
      CompositeSnoc(resources, i, cat);
      if Pass(resources[..i + 1], cat).Err? {
        FailedPrefix(resources, i + 1, cat);
      }
      var kind := KindOf(raw);
      if kind.None? {
        return Err(MissingKind);
      }
      if IsComposite(raw, cat) {
        changed := true;
        var children := ChildrenOf(raw, cat);
        if children.Err? {
          return Err(StepFailed(children.error));
        }
        out := out + children.value;
      } else {
        out := out + [raw];
      }
    }
    assert resources[..|resources|] == resources;
    return Ok((out, changed));
  }

  lemma CompositeSnoc(resources: seq<Json>, i: nat, cat: Catalog)
    requires i < |resources|
    ensures AnyComposite(resources[..i + 1], cat) <==>
            AnyComposite(resources[..i], cat) || IsComposite(resources[i], cat)
  {
    if AnyComposite(resources[..i], cat) {
      var j :| 0 <= j < i && IsComposite(resources[..i][j], cat);
      assert resources[..i + 1][j] == resources[j];
    }
    if IsComposite(resources[i], cat) {
      assert resources[..i + 1][i] == resources[i];
    }
  }

  /** A pass that succeeds without finding a composite leaves the list as it was. */
  lemma {:induction false} UnchangedPass(resources: seq<Json>, cat: Catalog)
    requires Pass(resources, cat).Ok? && !AnyComposite(resources, cat)
    ensures Flat(resources, cat) && Pass(resources, cat) == Ok(resources)
  {
    if resources != [] {
      assert !IsComposite(resources[0], cat);
      forall j | 0 <= j < |resources[1..]|
        ensures !IsComposite(resources[1..][j], cat)
      {
        assert !IsComposite(resources[j + 1], cat);
      }
      UnchangedPass(resources[1..], cat);
      assert resources == [resources[0]] + resources[1..];
    }
  }

  function CompositeKinds(resources: seq<Json>, cat: Catalog): set<string> {
    set i | 0 <= i < |resources| && IsComposite(resources[i], cat) :: KindOf(resources[i]).value
  }

  /** Succeeds exactly when the tree expansion eight levels deep does, with its result. Otherwise it reports the first
      failure that nine passes meet, or else the composite kinds that are left after them. */
  method ExpandResources(resources: seq<Json>, cat: Catalog) returns (r: Expanded)
    ensures r.Ok? <==> Forest(resources, cat, MAX_EXPANSION_DEPTH).Ok?
    ensures r.Ok? ==> r == Forest(resources, cat, MAX_EXPANSION_DEPTH) && Flat(r.value, cat)
    ensures
      var nine := Passes(resources, cat, MAX_EXPANSION_DEPTH + 1);
      r.Err? ==> r == if nine.Err? then nine else Err(TooDeep(CompositeKinds(nine.value, cat)))
  {
    var current := resources;
    var depth := 0;
    while depth <= MAX_EXPANSION_DEPTH
      invariant depth <= MAX_EXPANSION_DEPTH && Passes(resources, cat, depth) == Ok(current)
    {
      DepthStep(resources, cat, depth, current);
      var pass := ExpandResourcesOnePass(current, cat);
      if pass.Err? {
        return Err(pass.error);
      }
      var (next, changed) := pass.value;
      if !changed {
        return Ok(next);
      }
      if depth == MAX_EXPANSION_DEPTH {
        return Err(TooDeep(CompositeKinds(next, cat)));
      }
      current := next;
      depth := depth + 1;
    }
    assert false;
  }

  /** What the pass at one depth decides about the whole. */
  lemma DepthStep(resources: seq<Json>, cat: Catalog, depth: nat, current: seq<Json>)
    requires depth <= MAX_EXPANSION_DEPTH && Passes(resources, cat, depth) == Ok(current)
    ensures
      var pass, forest := Pass(current, cat), Forest(resources, cat, MAX_EXPANSION_DEPTH);
      var nine := Passes(resources, cat, MAX_EXPANSION_DEPTH + 1);
      && Passes(resources, cat, depth + 1) == pass
      && (pass.Err? ==> forest.Err? && nine == pass)
      && (pass.Ok? && !AnyComposite(current, cat) ==> forest == pass && Flat(pass.value, cat))
      && (pass.Ok? && AnyComposite(current, cat) && depth == MAX_EXPANSION_DEPTH ==> forest.Err? && nine == pass)
  {
    var pass := Pass(current, cat);
    ForestIsPasses(resources, cat, MAX_EXPANSION_DEPTH);
    PassesStep(resources, cat, depth);
    if pass.Err? {
      FailureStays(resources, cat, depth + 1, MAX_EXPANSION_DEPTH + 1);
      LateFailure(resources, cat, depth);
    } else if !AnyComposite(current, cat) {
      UnchangedPass(current, cat);
      FlatAtDepth(resources, cat, depth, current, MAX_EXPANSION_DEPTH);
    }
  }

  /** A pass that fails at any of the nine depths rules out a flat list after eight. */
  lemma LateFailure(resources: seq<Json>, cat: Catalog, depth: nat)
    requires depth <= MAX_EXPANSION_DEPTH && Passes(resources, cat, depth + 1).Err?
    ensures
      var eight := Passes(resources, cat, MAX_EXPANSION_DEPTH);
      !(eight.Ok? && Flat(eight.value, cat))
  {
    if depth < MAX_EXPANSION_DEPTH {
      FailureStays(resources, cat, depth + 1, MAX_EXPANSION_DEPTH);
    } else {
      PassesStep(resources, cat, depth);
      var eight := Passes(resources, cat, MAX_EXPANSION_DEPTH);
      if eight.Ok? {
        NoFuelNeedsFlat(eight.value, cat);
      }
    }
  }

  lemma {:induction false} FlatAtDepth(resources: seq<Json>, cat: Catalog, n: nat, flat: seq<Json>, m: nat)
    requires Passes(resources, cat, n) == Ok(flat) && Flat(flat, cat) && n <= m
    ensures Passes(resources, cat, m) == Ok(flat)
    decreases n
  {
    if n == 0 {
      FlatStays(resources, cat, m);
    } else {
      FlatAtDepth(Pass(resources, cat).value, cat, n - 1, flat, m - 1);
    }
  }

  // ---- what follows ----

  /** The result holds no composite, and expanding it again, to any depth, gives it back. */
  lemma ExpandedIsFixed(resources: seq<Json>, cat: Catalog, fuel: nat, again: nat)
    requires Forest(resources, cat, fuel).Ok?
    ensures
      var out := Forest(resources, cat, fuel).value;
      Flat(out, cat) && Forest(out, cat, again) == Ok(out)
  {
    ForestIsPasses(resources, cat, fuel);
    NoFuelNeedsFlat(Forest(resources, cat, fuel).value, cat);
  }

  // ---- what the refusal lists ----

  /** A composite that `n` passes lead to is the end of a way down of length `n + 1`. */
  lemma {:induction false} WayDownTo(resources: seq<Json>, cat: Catalog, n: nat, raw: Json) returns (chain: seq<Json>)
    requires Passes(resources, cat, n).Ok? && raw in Passes(resources, cat, n).value && IsComposite(raw, cat)
    ensures Chain(resources, cat, chain) && |chain| == n + 1 && chain[n] == raw
    decreases n
  {
    if n == 0 {
      chain := [raw];
    } else {
      var rest := WayDownTo(Pass(resources, cat).value, cat, n - 1, raw);
      ChainIsComposite(Pass(resources, cat).value, cat, rest, 0);
      var parent := ParentOf(resources, cat, rest[0]);
      chain := [parent] + rest;
      assert chain[1..] == rest;
    }
  }

  /** The composite in the list that a composite in the next list came from. */
  lemma {:induction false} ParentOf(resources: seq<Json>, cat: Catalog, raw: Json) returns (parent: Json)
    requires Pass(resources, cat).Ok? && raw in Pass(resources, cat).value && IsComposite(raw, cat)
    ensures parent in resources && IsComposite(parent, cat) && ChildrenOf(parent, cat).Ok?
    ensures raw in ChildrenOf(parent, cat).value
  {
    if raw in Replacement(resources[0], cat).value {
      parent := resources[0];
    } else {
      parent := ParentOf(resources[1..], cat, raw);
    }
  }

  lemma {:induction false} ChildrenArePassed(resources: seq<Json>, cat: Catalog, parent: Json, raw: Json)
    requires Pass(resources, cat).Ok? && parent in resources && IsComposite(parent, cat)
    requires ChildrenOf(parent, cat).Ok? && raw in ChildrenOf(parent, cat).value
    ensures raw in Pass(resources, cat).value
  {
    if parent != resources[0] {
      ChildrenArePassed(resources[1..], cat, parent, raw);
    }
  }

  /** The end of a way down of length `n + 1` is among what `n` passes lead to. */
  lemma {:induction false} EndIsReached(resources: seq<Json>, cat: Catalog, n: nat, chain: seq<Json>)
    requires Passes(resources, cat, n).Ok? && Chain(resources, cat, chain) && |chain| == n + 1
    ensures chain[n] in Passes(resources, cat, n).value
    decreases n
  {
    if n > 0 {
      ChildrenArePassed(resources, cat, chain[0], chain[1]);
      ChainFrom(ChildrenOf(chain[0], cat).value, Pass(resources, cat).value, cat, chain[1..]);
      EndIsReached(Pass(resources, cat).value, cat, n - 1, chain[1..]);
    }
  }

  lemma ChainFrom(from: seq<Json>, others: seq<Json>, cat: Catalog, chain: seq<Json>)
    requires Chain(from, cat, chain) && chain[0] in others
    ensures Chain(others, cat, chain)
  {
  }

  /** All but the last of a way down are composite; if the last is too, all are. */
  lemma {:induction false} ChainIsComposite(resources: seq<Json>, cat: Catalog, chain: seq<Json>, i: nat)
    requires Chain(resources, cat, chain) && i < |chain| && IsComposite(chain[|chain| - 1], cat)
    ensures IsComposite(chain[i], cat)
    decreases |chain|
  {
    if i > 0 {
      ChainIsComposite(ChildrenOf(chain[0], cat).value, cat, chain[1..], i - 1);
    }
  }

  lemma {:induction false} ChainPrefix(resources: seq<Json>, cat: Catalog, chain: seq<Json>, n: nat)
    requires Chain(resources, cat, chain) && 0 < n <= |chain|
    ensures Chain(resources, cat, chain[..n])
    decreases |chain|
  {
    if n > 1 {
      ChainPrefix(ChildrenOf(chain[0], cat).value, cat, chain[1..], n - 1);
      assert chain[..n][1..] == chain[1..][..n - 1];
    }
  }

  /** No way down ends in a composite more than `n` deep. */
  ghost predicate CompositesWithin(resources: seq<Json>, cat: Catalog, n: nat) {
    forall chain | Chain(resources, cat, chain) && IsComposite(chain[|chain| - 1], cat) :: |chain| <= n
  }

  /** Where the passes succeed, none of them leaves a composite exactly when no composite is more than `n` deep. */
  lemma LeftoverComposites(resources: seq<Json>, cat: Catalog, n: nat)
    requires Passes(resources, cat, n).Ok?
    ensures CompositeKinds(Passes(resources, cat, n).value, cat) == {} <==> CompositesWithin(resources, cat, n)
  {
    var left := Passes(resources, cat, n).value;
    if i :| 0 <= i < |left| && IsComposite(left[i], cat) {
      assert KindOf(left[i]).value in CompositeKinds(left, cat);
      var chain := WayDownTo(resources, cat, n, left[i]);
    }
    if !CompositesWithin(resources, cat, n) {
      var chain :| Chain(resources, cat, chain) && IsComposite(chain[|chain| - 1], cat) && |chain| > n;
      DeepOneIsLeft(resources, cat, n, chain);
    }
  }

  lemma DeepOneIsLeft(resources: seq<Json>, cat: Catalog, n: nat, chain: seq<Json>)
    requires Passes(resources, cat, n).Ok? && Chain(resources, cat, chain) && |chain| > n
    requires IsComposite(chain[|chain| - 1], cat)
    ensures CompositeKinds(Passes(resources, cat, n).value, cat) != {}
  {
    var left := Passes(resources, cat, n).value;
    ChainPrefix(resources, cat, chain, n + 1);
    ChainIsComposite(resources, cat, chain, n);
    EndIsReached(resources, cat, n, chain[..n + 1]);
    var i :| 0 <= i < |left| && left[i] == chain[n];
    assert KindOf(left[i]).value in CompositeKinds(left, cat);
  }

  /** The refusal lists no kind exactly when no composite is more than nine deep. */
  lemma NoKindsRemaining(resources: seq<Json>, cat: Catalog)
    requires Passes(resources, cat, 9).Ok?
    ensures CompositeKinds(Passes(resources, cat, 9).value, cat) == {} <==> CompositesWithin(resources, cat, 9)
  {
    LeftoverComposites(resources, cat, 9);
  }

  /** Nine levels would have been enough exactly when it lists no kind and no resource without one came up there. */
  lemma NineLevelsSuffice(resources: seq<Json>, cat: Catalog)
    requires Passes(resources, cat, 9).Ok?
    ensures
      var nine := Passes(resources, cat, 9).value;
      Forest(resources, cat, 9).Ok? <==>
      CompositeKinds(nine, cat) == {} && forall i | 0 <= i < |nine| :: KindOf(nine[i]).Some?
  {
    ForestIsPasses(resources, cat, 9);
    var nine := Passes(resources, cat, 9).value;
    forall i | 0 <= i < |nine| && IsComposite(nine[i], cat)
      ensures CompositeKinds(nine, cat) != {}
    {
      assert KindOf(nine[i]).value in CompositeKinds(nine, cat);
    }
  }

  // ---- nine modules, each naming the next ----

  function Name(i: nat): (name: string)
    ensures |name| == i + 1 && name[0] == 'm'
  {
    seq(i + 1, j => 'm')
  }

  function OfKind(kind: string): Json {
    Obj([Member("kind", Str(kind))])
  }

  /** The template of each module is one resource of the kind that its source names; the built-ins play no part. */
  function Relay(levels: nat): Catalog {
    var refuse := (raw: Json) => Err("invalid spec");
    Catalog(
      Expanders(refuse, refuse, refuse, (m: Module, raw: Json) => Ok([OfKind(m.source)])),
      seq(levels, i requires 0 <= i < levels => Module(Name(i + 1), Name(i))))
  }

  lemma KindOfKind(kind: string)
    ensures KindOf(OfKind(kind)) == Some(kind)
  {
    assert OfKind(kind).members[0] == Member("kind", Str(kind));
  }

  lemma {:induction false} FindAt(modules: seq<Module>, i: nat)
    requires i < |modules| && forall j | 0 <= j < i :: modules[j].name != modules[i].name
    ensures FindModule(modules, modules[i].name) == Some(modules[i])
  {
    if i > 0 {
      FindAt(modules[1..], i - 1);
    }
  }

  lemma NotBuiltIn(i: nat)
    ensures !IsBuiltIn(Name(i))
  {
    assert "service"[0] == 's' && "cron-job-bundle"[0] == 'c' && "web-with-monitoring"[0] == 'w';
  }

  lemma RelayStep(levels: nat, n: nat)
    requires n <= levels
    ensures IsComposite(OfKind(Name(n)), Relay(levels)) <==> n > 0
    ensures n > 0 ==> Replacement(OfKind(Name(n)), Relay(levels)) == Ok([OfKind(Name(n - 1))])
  {
    var modules := Relay(levels).modules;
    KindOfKind(Name(n));
    NotBuiltIn(n);
    forall i | 0 <= i < |modules|
      ensures |modules[i].name| == i + 2
    {
    }
    if n > 0 {
      assert modules[n - 1] == Module(Name(n), Name(n - 1));
      FindAt(modules, n - 1);
    }
  }

  lemma PassOfOne(raw: Json, cat: Catalog, next: Json)
    requires Replacement(raw, cat) == Ok([next])
    ensures Pass([raw], cat) == Ok([next])
  {
    assert [raw][1..] == [] && [next] + [] == [next];
  }

  /** Where each resource is replaced by the next one, `k` passes lead from the first to the one `k` further. */
  lemma {:induction false} PassesAlong(chain: seq<Json>, cat: Catalog, k: nat)
    requires k < |chain| && forall i | 0 <= i < |chain| - 1 :: Replacement(chain[i], cat) == Ok([chain[i + 1]])
    ensures Passes([chain[0]], cat, k) == Ok([chain[k]])
    decreases k
  {
    if k > 0 {
      PassOfOne(chain[0], cat, chain[1]);
      PassesAlong(chain[1..], cat, k - 1);
    }
  }

  /** A row of nine composites, each the only child of the one before, around something else. */
  ghost predicate NineInARow(chain: seq<Json>, cat: Catalog) {
    && |chain| == 10 && IsComposite(chain[8], cat) && !IsComposite(chain[9], cat)
    && forall i | 0 <= i < 9 :: Replacement(chain[i], cat) == Ok([chain[i + 1]])
  }

  lemma NineInARowNameNoKind(chain: seq<Json>, cat: Catalog)
    requires NineInARow(chain, cat)
    ensures Forest([chain[0]], cat, MAX_EXPANSION_DEPTH).Err?
    ensures Passes([chain[0]], cat, MAX_EXPANSION_DEPTH + 1) == Ok([chain[9]])
    ensures CompositeKinds([chain[9]], cat) == {}
  {
    PassesAlong(chain, cat, 8);
    PassesAlong(chain, cat, 9);
    ForestIsPasses([chain[0]], cat, 8);
    assert IsComposite([chain[8]][0], cat);
  }

  function RelayRow(): (chain: seq<Json>)
    ensures |chain| == 10 && forall i | 0 <= i < 10 :: chain[i] == OfKind(Name(9 - i))
  {
    seq(10, i requires 0 <= i < 10 => OfKind(Name(9 - i)))
  }

  lemma RelayRowHolds()
    ensures NineInARow(RelayRow(), Relay(9))
  {
    var chain := RelayRow();
    forall i | 0 <= i < 9
      ensures Replacement(chain[i], Relay(9)) == Ok([chain[i + 1]])
    {
      RelayStep(9, 9 - i);
    }
    RelayStep(9, 1);
    RelayStep(9, 0);
  }

  /** Nine modules in a row are refused, and the message then lists no kind. */
  lemma NineLevelsNameNoKind()
    ensures
      var start, cat := [OfKind(Name(9))], Relay(9);
      && Forest(start, cat, MAX_EXPANSION_DEPTH).Err?
      && Passes(start, cat, MAX_EXPANSION_DEPTH + 1) == Ok([OfKind(Name(0))])
      && CompositeKinds([OfKind(Name(0))], cat) == {}
  {
    RelayRowHolds();
    NineInARowNameNoKind(RelayRow(), Relay(9));
  }

  /** A module named like a built-in, or like an earlier module, changes nothing. */
  lemma {:induction false} ShadowedModuleIsInert(resources: seq<Json>, cat: Catalog, late: Module, fuel: nat)
    requires IsCompositeKind(late.name, cat.modules)
    ensures Forest(resources, cat.(modules := cat.modules + [late]), fuel) == Forest(resources, cat, fuel)
    decreases fuel, |resources|
  {
    if resources != [] {
      var more := cat.(modules := cat.modules + [late]);
      ShadowedModuleIsInert(resources[1..], cat, late, fuel);
      ShadowedStep(resources[0], cat, late);
      if IsComposite(resources[0], cat) && ChildrenOf(resources[0], cat).Ok? && fuel > 0 {
        ShadowedModuleIsInert(ChildrenOf(resources[0], cat).value, cat, late, fuel - 1);
      }
    }
  }

  lemma ShadowedStep(raw: Json, cat: Catalog, late: Module)
    requires IsCompositeKind(late.name, cat.modules)
    ensures
      var more := cat.(modules := cat.modules + [late]);
      && (IsComposite(raw, more) <==> IsComposite(raw, cat))
      && (IsComposite(raw, cat) ==> ChildrenOf(raw, more) == ChildrenOf(raw, cat))
  {
    if KindOf(raw).Some? {
      var kind := KindOf(raw).value;
      SameKinds(kind, cat.modules, late);
      ModuleFound(cat.modules, kind);
      if FindModule(cat.modules, kind).Some? {
        FoundFirst(cat.modules, late, kind);
      }
    }
  }

  lemma SameKinds(kind: string, modules: seq<Module>, late: Module)
    requires IsCompositeKind(late.name, modules)
    ensures IsCompositeKind(kind, modules + [late]) <==> IsCompositeKind(kind, modules)
  {
    var more := modules + [late];
    if i :| 0 <= i < |modules| && modules[i].name == kind {
      assert more[i].name == kind;
    }
  }

  lemma {:induction false} FoundFirst(modules: seq<Module>, late: Module, name: string)
    requires FindModule(modules, name).Some?
    ensures FindModule(modules + [late], name) == FindModule(modules, name)
  {
    if modules[0].name != name {
      FoundFirst(modules[1..], late, name);
      assert (modules + [late])[1..] == modules[1..] + [late];
    }
  }
}
