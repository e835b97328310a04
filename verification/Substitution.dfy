/** In-place substitution of secret references in a JSON value (`SecretRegistry::substitute_with_pointers` in
    `crates/iac-controlplane/src/secrets.rs`). The backends are one partial function from reference to text. */
module Substitution {
  import opened Common
  import opened Json
  import opened JsonPointers
  import opened SecretRefs

  type Resolver = SecretRef -> Option<string>

  /** The string with every reference replaced at once, if all of them resolve. */
  ghost function Rendered(s: string, resolve: Resolver): Option<string> {
    Render(Template(s), resolve)
  }

  ghost function Substituted(s: string, resolve: Resolver): string {
    if Rendered(s, resolve).Some? then Rendered(s, resolve).value else s
  }

  ghost function OnePass(resolve: Resolver): string -> string {
    s => Substituted(s, resolve)
  }

  lemma NoRefsNoChange(s: string, resolve: Resolver)
    requires Refs(s) == []
    ensures Rendered(s, resolve) == Some(s)
  {
    assert s[0..] == s;
    RenderText(s, resolve);
  }

  // ---- one string ----

  /** Rendering from `cursor` on what remains. */
  ghost function Remaining(s: string, spans: seq<Span>, cursor: nat, resolve: Resolver): Option<string>
    requires cursor <= |s| && OrderedSpans(spans, cursor, |s|)
  {
    Render(Pieces(s, spans, cursor), resolve)
  }

  lemma RemainingStep(s: string, spans: seq<Span>, cursor: nat, resolve: Resolver)
    requires cursor <= |s| && OrderedSpans(spans, cursor, |s|) && spans != []
    ensures
      var rest := Remaining(s, spans[1..], spans[0].end, resolve);
      Remaining(s, spans, cursor, resolve) ==
      if resolve(spans[0].sref).None? || rest.None? then None
      else Some(s[cursor..spans[0].start] + resolve(spans[0].sref).value + rest.value)
  {
    RenderHead(s[cursor..spans[0].start], spans[0].sref, Pieces(s, spans[1..], spans[0].end), resolve);
  }

  ghost function Prepend(out: string, rest: Option<string>): Option<string> {
    if rest.None? then None else Some(out + rest.value)
  }

  lemma PrependNothing(rest: Option<string>)
    ensures Prepend("", rest) == rest
  {
    assert rest.Some? ==> "" + rest.value == rest.value;
  }

  lemma PrependAgain(out: string, a: string, b: string, rest: Option<string>)
    ensures Prepend(out + a + b, rest) == Prepend(out, if rest.None? then None else Some(a + b + rest.value))
  {
    if rest.Some? {
      assert out + a + b + rest.value == out + (a + b + rest.value);
    }
  }

  /** `error` is the first of the references that does not resolve. */
  ghost predicate FirstUnresolved(refs: seq<Span>, resolve: Resolver, error: SecretRef) {
    exists k ::
      && 0 <= k < |refs| && refs[k].sref == error && resolve(error).None?
      && forall j | 0 <= j < k :: resolve(refs[j].sref).Some?
  }

  /** Copy the text between references and the resolved value of each. */
  method SubstituteInString(original: string, refs: seq<Span>, resolve: Resolver) returns (r: Result<string, SecretRef>)
    requires refs == Refs(original) && OrderedSpans(refs, 0, |original|)
    ensures r.Ok? ==> Rendered(original, resolve) == Some(r.value)
    ensures r.Err? ==> Rendered(original, resolve).None? && FirstUnresolved(refs, resolve, r.error)
  {
    var out: string := [];
    var cursor: nat := 0;
    assert refs[0..] == refs;
    PrependNothing(Rendered(original, resolve));
    for k := 0 to |refs|
      invariant cursor <= |original| && OrderedSpans(refs[k..], cursor, |original|)
      invariant Rendered(original, resolve) == Prepend(out, Remaining(original, refs[k..], cursor, resolve))
      invariant forall j | 0 <= j < k :: resolve(refs[j].sref).Some?
    {
      RemainingStep(original, refs[k..], cursor, resolve);
      assert refs[k..][1..] == refs[k + 1..];
      if resolve(refs[k].sref).Some? {
        PrependAgain(out, original[cursor..refs[k].start], resolve(refs[k].sref).value,
                     Remaining(original, refs[k + 1..], refs[k].end, resolve));
      }
      out := out + original[cursor..refs[k].start];
      var resolved := resolve(refs[k].sref);
      if resolved.None? {
        return Err(refs[k].sref);
      }
      out := out + resolved.value;
      cursor := refs[k].end;
    }
    RenderText(original[cursor..], resolve);
    return Ok(out + original[cursor..]);
  }

  /** Text in which no printed reference stands is left alone. */
  lemma SubstitutionOfText(s: string, resolve: Resolver)
    requires forall p: nat, r: SecretRef | p < |s| :: !StandsAt(s, p, r)
    ensures Rendered(s, resolve) == Some(s)
  {
    TemplateOfText(s);
    RenderText(s, resolve);
  }

  /** The text before the first printed reference is kept, the reference gives way to its value, which is not looked at
      again, and the rest is substituted on its own. With `SubstitutionOfText` this decides every string. */
  lemma SubstitutionByToken(a: string, r: SecretRef, b: string, resolve: Resolver)
    requires StandsAt(a + Print(r) + b, |a|, r)
    requires forall p: nat, q: SecretRef | p < |a| :: !StandsAt(a + Print(r) + b, p, q)
    ensures Rendered(a + Print(r) + b, resolve) ==
            if resolve(r).None? || Rendered(b, resolve).None? then None
            else Some(a + resolve(r).value + Rendered(b, resolve).value)
  {
    TemplateOfToken(a, r, b);
    RenderHead(a, r, Template(b), resolve);
  }

  /** A string holds a reference exactly when a printed one stands in it. */
  lemma HoldsReferenceExactly(s: string)
    ensures Refs(s) != [] <==> exists p: nat, r: SecretRef :: p < |s| && StandsAt(s, p, r)
  {
    ScanIsOrdered(Tokens(s), |s|, 0);
    if Refs(s) != [] {
      var first := Refs(s)[0];
      assert TokenAt(s, first.start) == Some(first);
      TokenIffStands(s, first.start, first.end, first.sref);
    }
    if p: nat, r: SecretRef :| p < |s| && StandsAt(s, p, r) {
      ScannerMissesNothing(s, p, r);
    }
  }

  // ---- writing through a pointer ----

  function AssignTokens(v: Json, tokens: seq<string>, c: Json): Json
    decreases |tokens|
  {
    if tokens == [] then c
    else
      var i := Select(v, tokens[0]);
      if i.None? then v else WithChild(v, i.value, AssignTokens(Children(v)[i.value], tokens[1..], c))
  }

  /** `*value.pointer_mut(pointer) = c`, or nothing if the pointer leads nowhere. */
  function Assign(v: Json, pointer: string, c: Json): Json {
    var tokens := DecodePointer(pointer);
    if tokens.None? then v else AssignTokens(v, tokens.value, c)
  }

  lemma {:induction false} AssignSetsAddress(v: Json, addr: Address, c: Json)
    requires DistinctKeys(v) && At(v, addr).Some?
    ensures AssignTokens(v, TokensAt(v, addr), c) == SetAt(v, addr, c)
    decreases |addr|
  {
    if addr != [] {
      SelectLabel(v, addr[0]);
      assert TokensAt(v, addr)[1..] == TokensAt(Children(v)[addr[0]], addr[1..]);
      AssignSetsAddress(Children(v)[addr[0]], addr[1..], c);
    }
  }

  lemma {:induction false} ShapeKeepsTokens(a: Json, b: Json, addr: Address)
    requires SameShape(a, b) && At(a, addr).Some?
    ensures At(b, addr).Some? && TokensAt(b, addr) == TokensAt(a, addr)
    decreases |addr|
  {
    if addr != [] {
      SameShapeChildren(a, b, addr[0]);
      ShapeKeepsTokens(Children(a)[addr[0]], Children(b)[addr[0]], addr[1..]);
    }
  }

  lemma {:induction false} ShapeKeepsDistinctKeys(a: Json, b: Json)
    requires SameShape(a, b) && DistinctKeys(a)
    ensures DistinctKeys(b)
    decreases a
  {
    ShapeCount(a, b);
    forall i | 0 <= i < |Children(b)|
      ensures DistinctKeys(Children(b)[i])
    {
      SameShapeChildren(a, b, i);
      ShapeKeepsDistinctKeys(Children(a)[i], Children(b)[i]);
    }
  }

  // ---- the whole value ----

  ghost predicate AllResolve(v: Json, resolve: Resolver) {
    forall addr | IsStringAt(v, addr) :: Rendered(TextAt(v, addr), resolve).Some?
  }

  /** Every string of `now` is that of `before` or its substitution; nothing else differs. */
  ghost predicate PartlySubstituted(before: Json, now: Json, resolve: Resolver) {
    && SameShape(before, now)
    && forall addr | IsStringAt(before, addr) ::
         && IsStringAt(now, addr)
         && (TextAt(now, addr) == TextAt(before, addr)
           || Rendered(TextAt(before, addr), resolve) == Some(TextAt(now, addr)))
  }

  ghost predicate AllStrings(v: Json, addrs: seq<Address>) {
    forall k | 0 <= k < |addrs| :: IsStringAt(v, addrs[k])
  }

  /** The references in the strings at `addrs`. */
  ghost function CountRefs(v: Json, addrs: seq<Address>): nat
    requires AllStrings(v, addrs)
  {
    if addrs == [] then 0
    else CountRefs(v, addrs[..|addrs| - 1]) + |Refs(TextAt(v, addrs[|addrs| - 1]))|
  }

  /** The pointers, among those of `addrs`, of strings that hold a reference. */
  ghost function SecretPointers(v: Json, addrs: seq<Address>, pointers: seq<string>): seq<string>
    requires AllStrings(v, addrs) && |pointers| == |addrs|
  {
    if addrs == [] then []
    else
      var last := |addrs| - 1;
      var before := SecretPointers(v, addrs[..last], pointers[..last]);
      if Refs(TextAt(v, addrs[last])) != [] then before + [pointers[last]] else before
  }

  /** The references of all the strings at `addrs`, one after the other. */
  ghost function AllRefs(v: Json, addrs: seq<Address>): seq<Span>
    requires AllStrings(v, addrs)
  {
    if addrs == [] then [] else AllRefs(v, addrs[..|addrs| - 1]) + Refs(TextAt(v, addrs[|addrs| - 1]))
  }

  /** The count is that of all references. */
  lemma {:induction false} CountExactly(v: Json, addrs: seq<Address>)
    requires AllStrings(v, addrs)
    ensures CountRefs(v, addrs) == |AllRefs(v, addrs)|
  {
    if addrs != [] {
      CountExactly(v, addrs[..|addrs| - 1]);
    }
  }

  ghost function HoldsReferenceAt(v: Json, addrs: seq<Address>): nat -> bool {
    (k: nat) => k < |addrs| && IsStringAt(v, addrs[k]) && Refs(TextAt(v, addrs[k])) != []
  }

  lemma SecretPointersNext(v: Json, addrs: seq<Address>, pointers: seq<string>, k: nat)
    requires AllStrings(v, addrs) && |pointers| == |addrs| && k < |addrs|
    ensures
      var before := SecretPointers(v, addrs[..k], pointers[..k]);
      SecretPointers(v, addrs[..k + 1], pointers[..k + 1]) ==
      if Refs(TextAt(v, addrs[k])) != [] then before + [pointers[k]] else before
  {
    assert addrs[..k + 1][..k] == addrs[..k] && pointers[..k + 1][..k] == pointers[..k];
  }

  lemma {:induction false} SecretPointersUpTo(v: Json, addrs: seq<Address>, pointers: seq<string>, n: nat)
    returns (which: seq<nat>)
    requires AllStrings(v, addrs) && |pointers| == |addrs| && n <= |addrs|
    ensures Filters(SecretPointers(v, addrs[..n], pointers[..n]), pointers, which, n, HoldsReferenceAt(v, addrs))
    decreases n
  {
    if n == 0 {
      which := [];
    } else {
      which := SecretPointersUpTo(v, addrs, pointers, n - 1);
      SecretPointersNext(v, addrs, pointers, n - 1);
      var before := SecretPointers(v, addrs[..n - 1], pointers[..n - 1]);
      var more := SecretPointers(v, addrs[..n], pointers[..n]);
      which := FilterNext(before, more, pointers, which, n - 1, HoldsReferenceAt(v, addrs));
    }
  }

  /** The pointers are those, in order, of exactly the strings that hold a reference. */
  lemma SecretPointersExactly(v: Json, addrs: seq<Address>, pointers: seq<string>) returns (which: seq<nat>)
    requires AllStrings(v, addrs) && |pointers| == |addrs|
    ensures forall i, j | 0 <= i < j < |which| :: which[i] < which[j]
    ensures forall k: nat :: k in which <==> k < |addrs| && Refs(TextAt(v, addrs[k])) != []
    ensures Picks(SecretPointers(v, addrs, pointers), pointers, which)
  {
    which := SecretPointersUpTo(v, addrs, pointers, |addrs|);
    assert addrs[..|addrs|] == addrs && pointers[..|addrs|] == pointers;
  }

  /** The first `k` strings have been substituted, the others not. */
  ghost predicate Midway(before: Json, now: Json, addrs: seq<Address>, k: nat, resolve: Resolver) {
    && SameShape(before, now)
    && AllStrings(before, addrs)
    && forall j | 0 <= j < |addrs| :: StringMidway(before, now, addrs[j], j < k, resolve)
  }

  ghost predicate StringMidway(before: Json, now: Json, addr: Address, done: bool, resolve: Resolver)
    requires IsStringAt(before, addr)
  {
    && IsStringAt(now, addr)
    && if done then Rendered(TextAt(before, addr), resolve) == Some(TextAt(now, addr))
      else TextAt(now, addr) == TextAt(before, addr)
  }

  /** The strings before the `k`th have been substituted, no other has, and `error` is the first reference of the `k`th
      that does not resolve. */
  ghost predicate StoppedAt(before: Json, now: Json, k: nat, resolve: Resolver, error: SecretRef) {
    var addrs := StringAddresses(before);
    && k < |addrs| && Midway(before, now, addrs, k, resolve)
    && FirstUnresolved(Refs(TextAt(before, addrs[k])), resolve, error)
  }

  lemma NextPointer(before: Json, now: Json, k: nat, resolve: Resolver)
    requires DistinctKeys(before) && Midway(before, now, StringAddresses(before), k, resolve)
        && k < |StringAddresses(before)|
    ensures k < |Pointers(before, "")|
    ensures Evaluate(now, Pointers(before, "")[k]) == Some(Str(TextAt(before, StringAddresses(before)[k])))
    ensures forall c :: Assign(now, Pointers(before, "")[k], c) == SetAt(now, StringAddresses(before)[k], c)
  {
    var addr := StringAddresses(before)[k];
    assert StringMidway(before, now, addr, k < k, resolve);
    PointerOfAddress(before, "", k);
    ShapeKeepsTokens(before, now, addr);
    ShapeKeepsDistinctKeys(before, now);
    PointerReachesItsString(now, addr);
    var tokens := TokensAt(now, addr);
    assert "" + PointerText(tokens) == PointerText(tokens);
    PointerRoundTrip(tokens);
    forall c
      ensures Assign(now, Pointers(before, "")[k], c) == SetAt(now, addr, c)
    {
      AssignSetsAddress(now, addr, c);
    }
  }

  lemma StepDone(before: Json, now: Json, k: nat, text: string, resolve: Resolver)
    requires DistinctKeys(before) && Midway(before, now, StringAddresses(before), k, resolve)
        && k < |StringAddresses(before)|
    requires Rendered(TextAt(before, StringAddresses(before)[k]), resolve) == Some(text)
    requires At(now, StringAddresses(before)[k]).Some?
    ensures Midway(before, SetAt(now, StringAddresses(before)[k], Str(text)), StringAddresses(before), k + 1, resolve)
  {
    var addrs := StringAddresses(before);
    var next := SetAt(now, addrs[k], Str(text));
    assert StringMidway(before, now, addrs[k], k < k, resolve);
    SetKeepsShape(before, now, addrs[k], text);
    AddressesDistinct(before);
    forall j | 0 <= j < |addrs|
      ensures StringMidway(before, next, addrs[j], j < k + 1, resolve)
    {
      assert StringMidway(before, now, addrs[j], j < k, resolve);
      SetChangesOneString(now, addrs[k], text, addrs[j]);
    }
  }

  lemma StepNothing(before: Json, now: Json, addrs: seq<Address>, k: nat, resolve: Resolver)
    requires Midway(before, now, addrs, k, resolve) && k < |addrs|
    requires Refs(TextAt(before, addrs[k])) == []
    ensures Midway(before, now, addrs, k + 1, resolve)
    ensures Rendered(TextAt(before, addrs[k]), resolve).Some?
  {
    NoRefsNoChange(TextAt(before, addrs[k]), resolve);
    forall j | 0 <= j < |addrs|
      ensures StringMidway(before, now, addrs[j], j < k + 1, resolve)
    {
      assert StringMidway(before, now, addrs[j], j < k, resolve);
    }
  }

  lemma MidwayIsPartial(before: Json, now: Json, k: nat, resolve: Resolver)
    requires Midway(before, now, StringAddresses(before), k, resolve)
    ensures PartlySubstituted(before, now, resolve)
  {
    forall addr | IsStringAt(before, addr)
      ensures IsStringAt(now, addr)
      ensures TextAt(now, addr) == TextAt(before, addr)
          || Rendered(TextAt(before, addr), resolve) == Some(TextAt(now, addr))
    {
      EveryStringIsAddressed(before, addr);
      var j :| 0 <= j < |StringAddresses(before)| && StringAddresses(before)[j] == addr;
      assert StringMidway(before, now, addr, j < k, resolve);
    }
  }

  /** When every string is done the value is the structural map. */
  lemma MidwayAtEnd(before: Json, now: Json, resolve: Resolver)
    requires Midway(before, now, StringAddresses(before), |StringAddresses(before)|, resolve)
    ensures AllResolve(before, resolve) && now == MapStrings(before, OnePass(resolve))
  {
    var mapped := MapStrings(before, OnePass(resolve));
    forall addr | IsStringAt(before, addr)
      ensures Rendered(TextAt(before, addr), resolve).Some?
      ensures IsStringAt(now, addr) && TextAt(now, addr) == Substituted(TextAt(before, addr), resolve)
    {
      EveryStringIsAddressed(before, addr);
      var j :| 0 <= j < |StringAddresses(before)| && StringAddresses(before)[j] == addr;
      assert StringMidway(before, now, addr, true, resolve);
    }
    MapKeepsShape(before, OnePass(resolve));
    ShapeTransfers(before, mapped, now);
    forall addr | IsStringAt(mapped, addr)
      ensures IsStringAt(now, addr) && TextAt(mapped, addr) == TextAt(now, addr)
    {
      StringsOfMap(before, OnePass(resolve), addr);
    }
    EqualByStrings(mapped, now);
  }

  lemma {:induction false} ShapeTransfers(a: Json, b: Json, c: Json)
    requires SameShape(a, b) && SameShape(a, c)
    ensures SameShape(b, c)
    decreases a
  {
    match a
    case Arr(items) =>
      forall i | 0 <= i < |items| {
        ShapeTransfers(items[i], b.items[i], c.items[i]);
      }
    case Obj(members) =>
      forall i | 0 <= i < |members| {
        ShapeTransfers(members[i].value, b.members[i].value, c.members[i].value);
      }
    case _ =>
  }

  lemma {:induction false} StringsOfMap(v: Json, f: string -> string, addr: Address)
    requires IsStringAt(MapStrings(v, f), addr)
    ensures IsStringAt(v, addr) && TextAt(MapStrings(v, f), addr) == f(TextAt(v, addr))
    decreases |addr|
  {
    if addr != [] {
      assert Children(MapStrings(v, f))[addr[0]] == MapStrings(Children(v)[addr[0]], f);
      StringsOfMap(Children(v)[addr[0]], f, addr[1..]);
    }
  }

  /** The count and the pointers for the first `k` strings. */
  ghost predicate Tallied(v: Json, pointers: seq<string>, k: nat, count: nat, secrets: seq<string>) {
    var addrs := StringAddresses(v);
    && k <= |addrs| == |pointers| && AllStrings(v, addrs)
    && count == CountRefs(v, addrs[..k])
    && secrets == SecretPointers(v, addrs[..k], pointers[..k])
  }

  lemma TallyStep(v: Json, pointers: seq<string>, k: nat, count: nat, secrets: seq<string>)
    requires Tallied(v, pointers, k, count, secrets) && k < |pointers|
    ensures
      var refs := |Refs(TextAt(v, StringAddresses(v)[k]))|;
      Tallied(v, pointers, k + 1, count + refs, if refs > 0 then secrets + [pointers[k]] else secrets)
  {
    var addrs := StringAddresses(v);
    assert addrs[..k + 1][..k] == addrs[..k] && pointers[..k + 1][..k] == pointers[..k];
  }

  lemma TallyEnd(v: Json, pointers: seq<string>, count: nat, secrets: seq<string>)
    requires Tallied(v, pointers, |pointers|, count, secrets)
    ensures count == CountRefs(v, StringAddresses(v)) && secrets == SecretPointers(v, StringAddresses(v), pointers)
  {
    assert StringAddresses(v)[..|pointers|] == StringAddresses(v) && pointers[..|pointers|] == pointers;
  }

  /** Substitute pointer by pointer. Succeeds exactly when every reference resolves; then the value is the structural
      map of the one-pass substitution, the count is that of all references, and the pointers are those of the strings
      that held one. On failure the error is the first reference in document order that does not resolve, exactly the
      strings before its own are substituted, and nothing else has changed. */
  method SubstituteWithPointers(value: Json, resolve: Resolver)
    returns (value': Json, r: Result<(nat, seq<string>), SecretRef>)
    requires DistinctKeys(value)
    ensures AllStrings(value, StringAddresses(value)) && |Pointers(value, "")| == |StringAddresses(value)|
    ensures r.Ok? <==> AllResolve(value, resolve)
    ensures r.Ok? ==> value' == MapStrings(value, OnePass(resolve))
    ensures r.Ok? ==> r.value.0 == CountRefs(value, StringAddresses(value))
    ensures r.Ok? ==> r.value.1 == SecretPointers(value, StringAddresses(value), Pointers(value, ""))
    ensures r.Err? ==> resolve(r.error).None? && PartlySubstituted(value, value', resolve)
    ensures r.Err? ==> exists k: nat :: StoppedAt(value, value', k, resolve, r.error)
  {
    var pointers := CollectStringPointers(value);
    ghost var addrs := StringAddresses(value);
    StartMidway(value, resolve);
    PointersCount(value, "");
    value' := value;
    var count: nat := 0;
    var secretPointers: seq<string> := [];
    for k := 0 to |pointers|
      invariant Midway(value, value', addrs, k, resolve)
      invariant Tallied(value, pointers, k, count, secretPointers)
    {
      TallyStep(value, pointers, k, count, secretPointers);
      var replaced;
      value', replaced := SubstituteAt(value', pointers[k], resolve, value, k);
      if replaced.Err? {
        MidwayIsPartial(value, value', k, resolve);
        assert StoppedAt(value, value', k, resolve, replaced.error);
        return value', Err(replaced.error);
      }
      if replaced.value > 0 {
        secretPointers := secretPointers + [pointers[k]];
      }
      count := count + replaced.value;
    }
    TallyEnd(value, pointers, count, secretPointers);
    MidwayAtEnd(value, value', resolve);
    return value', Ok((count, secretPointers));
  }

  /** One turn: the string at the pointer, if it holds references, is rewritten. Returns how many there were. */
  method SubstituteAt(now: Json, pointer: string, resolve: Resolver, ghost before: Json, ghost k: nat)
    returns (now': Json, r: Result<nat, SecretRef>)
    requires DistinctKeys(before) && Midway(before, now, StringAddresses(before), k, resolve)
    requires k < |StringAddresses(before)| == |Pointers(before, "")| && pointer == Pointers(before, "")[k]
    ensures r.Ok? ==> Midway(before, now', StringAddresses(before), k + 1, resolve)
    ensures r.Ok? ==> r.value == |Refs(TextAt(before, StringAddresses(before)[k]))|
    ensures r.Err? ==> now' == now && resolve(r.error).None? && !AllResolve(before, resolve)
    ensures r.Err? ==> FirstUnresolved(Refs(TextAt(before, StringAddresses(before)[k])), resolve, r.error)
  {
    NextPointer(before, now, k, resolve);
    var found := Evaluate(now, pointer);
    if found.None? || !found.value.Str? {
      assert false;
    }
    var original := found.value.text;
    var refs := FindRefsInString(original);
    if refs == [] {
      StepNothing(before, now, StringAddresses(before), k, resolve);
      return now, Ok(0);
    }
    ScanIsOrdered(Tokens(original), |original|, 0);
    var out := SubstituteInString(original, refs, resolve);
    if out.Err? {
      assert IsStringAt(before, StringAddresses(before)[k]);
      return now, Err(out.error);
    }
    StepDone(before, now, k, out.value, resolve);
    return Assign(now, pointer, Str(out.value)), Ok(|refs|);
  }

  lemma StartMidway(v: Json, resolve: Resolver)
    ensures Midway(v, v, StringAddresses(v), 0, resolve)
  {
    SameShapeRefl(v);
    forall k | 0 <= k < |StringAddresses(v)| {
      AddressesAreStrings(v, k);
    }
  }
}
