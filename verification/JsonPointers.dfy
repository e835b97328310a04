/** JSON pointers (RFC 6901) as `collect_string_pointers` of `crates/iac-controlplane/src/secrets.rs` writes them and
    `serde_json` reads them. */
module JsonPointers {
  import opened Common
  import opened Strings
  import opened Json

  // ---- reference tokens, sections 3 and 4 of RFC 6901 ----

  function ReplaceChar(s: string, c: char, subst: string): string {
    if s == [] then [] else (if s[0] == c then subst else [s[0]]) + ReplaceChar(s[1..], c, subst)
  }

  /** `str::replace` of the two-character pattern `~` + `second`, left to right. */
  function ReplacePair(s: string, second: char, subst: char): string {
    if s == [] then []
    else if |s| >= 2 && s[0] == '~' && s[1] == second then [subst] + ReplacePair(s[2..], second, subst)
    else [s[0]] + ReplacePair(s[1..], second, subst)
  }

  function Escape(key: string): string {
    ReplaceChar(ReplaceChar(key, '~', "~0"), '/', "~1")
  }

  function Unescape(token: string): string {
    ReplacePair(ReplacePair(token, '1', '/'), '0', '~')
  }

  /** Character by character: `~` becomes `~0`, `/` becomes `~1`, every other character stays. */
  lemma EscapeHead(key: string)
    requires key != []
    ensures Escape(key) == (if key[0] == '~' then "~0" else if key[0] == '/' then "~1" else [key[0]]) + Escape(key[1..])
  {
    var rest := ReplaceChar(key[1..], '~', "~0");
    if key[0] == '~' {
      var s := ['~', '0'] + rest;
      assert ReplaceChar(key, '~', "~0") == s;
      assert s[1..] == ['0'] + rest && s[1..][1..] == rest;
      assert ReplaceChar(s[1..], '/', "~1") == ['0'] + ReplaceChar(rest, '/', "~1");
      assert ReplaceChar(s, '/', "~1") == ['~'] + (['0'] + ReplaceChar(rest, '/', "~1"));
      assert ['~'] + (['0'] + ReplaceChar(rest, '/', "~1")) == "~0" + ReplaceChar(rest, '/', "~1");
    } else {
      var s := [key[0]] + rest;
      assert ReplaceChar(key, '~', "~0") == s && s[1..] == rest;
    }
  }

  lemma {:induction false} SlashesComeBack(key: string)
    ensures ReplacePair(Escape(key), '1', '/') == ReplaceChar(key, '~', "~0")
  {
    if key != [] {
      EscapeHead(key);
      SlashesComeBack(key[1..]);
      var rest := Escape(key[1..]);
      var e := Escape(key);
      if key[0] == '~' {
        assert e[1..] == ['0'] + rest && e[1..][1..] == rest;
        assert ReplacePair(e[1..], '1', '/') == ['0'] + ReplacePair(rest, '1', '/');
        assert ['~'] + (['0'] + ReplacePair(rest, '1', '/')) == "~0" + ReplacePair(rest, '1', '/');
      } else if key[0] == '/' {
        assert e[2..] == rest;
      } else {
        assert e[1..] == rest;
      }
    }
  }

  lemma {:induction false} TildesComeBack(key: string)
    ensures ReplacePair(ReplaceChar(key, '~', "~0"), '0', '~') == key
  {
    if key != [] {
      TildesComeBack(key[1..]);
      var rest := ReplaceChar(key[1..], '~', "~0");
      var e := ReplaceChar(key, '~', "~0");
      if key[0] == '~' {
        assert e[2..] == rest;
      } else {
        assert e[1..] == rest;
      }
    }
  }

  /** The two-step escape is undone exactly, whatever the key holds. */
  lemma EscapeRoundTrip(key: string)
    ensures Unescape(Escape(key)) == key
  {
    SlashesComeBack(key);
    TildesComeBack(key);
  }

  lemma {:induction false} EscapeHasNoSlash(key: string)
    ensures '/' !in Escape(key)
  {
    if key != [] {
      EscapeHead(key);
      EscapeHasNoSlash(key[1..]);
    }
  }

  // ---- array indices ----

  function DigitValue(c: char): nat
    requires IsDigit(c)
  {
    c as nat - '0' as nat
  }

  function DigitsValue(s: string): nat
    requires forall k | 0 <= k < |s| :: IsDigit(s[k])
  {
    if s == [] then 0 else 10 * DigitsValue(s[..|s| - 1]) + DigitValue(s[|s| - 1])
  }

  /** Digits only, no sign, no leading zero. */
  function ParseIndex(s: string): Option<nat> {
    if s == [] || (s[0] == '0' && |s| != 1) then None
    else if forall k | 0 <= k < |s| :: IsDigit(s[k]) then Some(DigitsValue(s))
    else None
  }

  lemma {:induction false} DecimalDigits(n: nat)
    ensures forall k | 0 <= k < |Decimal(n)| :: IsDigit(Decimal(n)[k])
    ensures DigitsValue(Decimal(n)) == n
    ensures Decimal(n)[0] == '0' ==> n == 0
  {
    var s := Decimal(n);
    if n < 10 {
      assert s == [Digit(n)] && s[..|s| - 1] == [];
    } else {
      DecimalDigits(n / 10);
      assert s[..|s| - 1] == Decimal(n / 10);
    }
  }

  lemma IndexRoundTrip(n: nat)
    ensures ParseIndex(Decimal(n)) == Some(n)
  {
    DecimalDigits(n);
  }

  lemma {:induction false} DigitsEscapeToThemselves(s: string)
    requires forall k | 0 <= k < |s| :: IsDigit(s[k])
    ensures Escape(s) == s
  {
    if s != [] {
      EscapeHead(s);
      DigitsEscapeToThemselves(s[1..]);
    }
  }

  // ---- pointers ----

  /** The token that leads to the `i`-th child: its key or its index. */
  function Label(v: Json, i: nat): string
    requires i < |Children(v)|
  {
    if v.Obj? then v.members[i].key else Decimal(i)
  }

  function KeyIndex(members: seq<Member>, key: string): (r: Option<nat>)
    ensures r.Some? ==> r.value < |members| && members[r.value].key == key
    ensures r.None? ==> forall i | 0 <= i < |members| :: members[i].key != key
  {
    if members == [] then None
    else if members[0].key == key then Some(0)
    else
      var rest := KeyIndex(members[1..], key);
      if rest.None? then None else Some(rest.value + 1)
  }

  /** The child a token selects: the member with that key, or the array element with that index. */
  function Select(v: Json, token: string): (r: Option<nat>)
    ensures r.Some? ==> r.value < |Children(v)|
  {
    match v
    case Obj(members) => KeyIndex(members, token)
    case Arr(items) =>
      var i := ParseIndex(token);
      if i.Some? && i.value < |items| then i else None
    case _ => None
  }

  function Lookup(v: Json, tokens: seq<string>): Option<Json>
    decreases |tokens|
  {
    if tokens == [] then Some(v)
    else
      var i := Select(v, tokens[0]);
      if i.None? then None else Lookup(Children(v)[i.value], tokens[1..])
  }

  function UnescapeAll(pieces: seq<string>): (r: seq<string>)
    ensures |r| == |pieces| && forall k | 0 <= k < |r| :: r[k] == Unescape(pieces[k])
  {
    seq(|pieces|, k requires 0 <= k < |pieces| => Unescape(pieces[k]))
  }

  function DecodePointer(pointer: string): Option<seq<string>> {
    if pointer == [] then Some([])
    else if pointer[0] != '/' then None
    else Some(UnescapeAll(Split(pointer, '/')[1..]))
  }

  /** `Value::pointer`: evaluation per section 4 of RFC 6901. */
  function Evaluate(v: Json, pointer: string): Option<Json> {
    var tokens := DecodePointer(pointer);
    if tokens.None? then None else Lookup(v, tokens.value)
  }

  function PointerText(tokens: seq<string>): string {
    if tokens == [] then [] else "/" + Escape(tokens[0]) + PointerText(tokens[1..])
  }

  function EscapeAll(tokens: seq<string>): seq<string> {
    seq(|tokens|, k requires 0 <= k < |tokens| => Escape(tokens[k]))
  }

  lemma {:induction false} PointerSplits(tokens: seq<string>)
    ensures Split(PointerText(tokens), '/') == [[]] + EscapeAll(tokens)
  {
    if tokens != [] {
      var e, rest := Escape(tokens[0]), PointerText(tokens[1..]);
      PointerSplits(tokens[1..]);
      EscapeHasNoSlash(tokens[0]);
      SplitAfter(e, rest, '/');
      assert PointerText(tokens)[1..] == e + rest;
      assert e + [] == e;
      assert Split(rest, '/')[1..] == EscapeAll(tokens[1..]);
      assert EscapeAll(tokens) == [e] + EscapeAll(tokens[1..]);
    }
  }

  /** A pointer decodes to the tokens it was written from. */
  lemma PointerRoundTrip(tokens: seq<string>)
    ensures DecodePointer(PointerText(tokens)) == Some(tokens)
  {
    PointerSplits(tokens);
    forall k | 0 <= k < |tokens|
      ensures Unescape(Escape(tokens[k])) == tokens[k]
    {
      EscapeRoundTrip(tokens[k]);
    }
    if tokens != [] {
      assert Split(PointerText(tokens), '/')[1..] == EscapeAll(tokens);
      assert UnescapeAll(EscapeAll(tokens)) == tokens;
    }
  }

  /** The tokens along an address. */
  function TokensAt(v: Json, addr: Address): seq<string>
    requires At(v, addr).Some?
    decreases |addr|
  {
    if addr == [] then [] else [Label(v, addr[0])] + TokensAt(Children(v)[addr[0]], addr[1..])
  }

  lemma SelectLabel(v: Json, i: nat)
    requires DistinctKeys(v) && i < |Children(v)|
    ensures Select(v, Label(v, i)) == Some(i)
  {
    if v.Obj? {
      var found := KeyIndex(v.members, v.members[i].key);
      assert found.Some?;
    } else {
      IndexRoundTrip(i);
    }
  }

  /** Walking the tokens of an address leads to the node at that address. */
  lemma {:induction false} LookupReachesAddress(v: Json, addr: Address)
    requires DistinctKeys(v) && At(v, addr).Some?
    ensures Lookup(v, TokensAt(v, addr)) == At(v, addr)
    decreases |addr|
  {
    if addr != [] {
      SelectLabel(v, addr[0]);
      LookupReachesAddress(Children(v)[addr[0]], addr[1..]);
      assert TokensAt(v, addr)[1..] == TokensAt(Children(v)[addr[0]], addr[1..]);
    }
  }

  lemma {:induction false} TokensDistinguishAddresses(v: Json, a: Address, b: Address)
    requires DistinctKeys(v) && At(v, a).Some? && At(v, b).Some? && TokensAt(v, a) == TokensAt(v, b)
    ensures a == b
    decreases |a|
  {
    if a != [] && b != [] {
      SelectLabel(v, a[0]);
      SelectLabel(v, b[0]);
      assert TokensAt(v, a)[0] == Label(v, a[0]) && TokensAt(v, b)[0] == Label(v, b[0]);
      assert TokensAt(v, a)[1..] == TokensAt(Children(v)[a[0]], a[1..]);
      assert TokensAt(v, b)[1..] == TokensAt(Children(v)[b[0]], b[1..]);
      TokensDistinguishAddresses(Children(v)[a[0]], a[1..], b[1..]);
      assert a == [a[0]] + a[1..] && b == [b[0]] + b[1..];
    }
  }

  // ---- collecting ----

  function Extend(prefix: string, token: string): string {
    prefix + "/" + Escape(token)
  }

  /** The pointers of all strings in `v`, in document order, after `prefix`. */
  ghost function Pointers(v: Json, prefix: string): seq<string>
    decreases v, |Children(v)| + 1
  {
    if v.Str? then [prefix] else PointersBelow(v, prefix, |Children(v)|)
  }

  ghost function PointersBelow(v: Json, prefix: string, n: nat): seq<string>
    requires n <= |Children(v)|
    decreases v, n
  {
    if n == 0 then []
    else PointersBelow(v, prefix, n - 1) + Pointers(Children(v)[n - 1], Extend(prefix, Label(v, n - 1)))
  }

  lemma WalkStep(v: Json, prefix: string, i: nat, out: seq<string>, child: Json, token: string)
    requires i < |Children(v)| && child == Children(v)[i] && token == Label(v, i)
    ensures out + PointersBelow(v, prefix, i) + Pointers(child, Extend(prefix, token)) ==
        out + PointersBelow(v, prefix, i + 1)
  {
  }

  /** Append the pointers of all strings in `v`, depth first. */
  method Walk(v: Json, prefix: string, out: seq<string>) returns (out': seq<string>)
    ensures out' == out + Pointers(v, prefix)
    decreases v, 1
  {
    match v
    case Str(_) =>
      out' := out + [prefix];
    case Obj(members) =>
      out' := WalkMembers(v, members, prefix, out);
    case Arr(items) =>
      out' := WalkItems(v, items, prefix, out);
    case _ =>
      out' := out;
  }

  method WalkMembers(ghost v: Json, members: seq<Member>, prefix: string, out: seq<string>) returns (out': seq<string>)
    requires v == Obj(members)
    ensures out' == out + Pointers(v, prefix)
    decreases v, 0
  {
    out' := out;
    for i := 0 to |members|
      invariant out' == out + PointersBelow(v, prefix, i)
    {
      assert Children(v)[i] == members[i].value && Label(v, i) == members[i].key;
      WalkStep(v, prefix, i, out, members[i].value, members[i].key);
      var longer := Extend(prefix, members[i].key);
      out' := Walk(members[i].value, longer, out');
    }
  }

  method WalkItems(ghost v: Json, items: seq<Json>, prefix: string, out: seq<string>) returns (out': seq<string>)
    requires v == Arr(items)
    ensures out' == out + Pointers(v, prefix)
    decreases v, 0
  {
    out' := out;
    for i := 0 to |items|
      invariant out' == out + PointersBelow(v, prefix, i)
    {
      IndexNeedsNoEscape(prefix, i);
      WalkStep(v, prefix, i, out, items[i], Decimal(i));
      var longer := prefix + "/" + Decimal(i);
      out' := Walk(items[i], longer, out');
    }
  }

  lemma IndexNeedsNoEscape(prefix: string, i: nat)
    ensures Extend(prefix, Decimal(i)) == prefix + "/" + Decimal(i)
  {
    DecimalDigits(i);
    DigitsEscapeToThemselves(Decimal(i));
  }

  method CollectStringPointers(v: Json) returns (pointers: seq<string>)
    ensures pointers == Pointers(v, "")
  {
    pointers := Walk(v, "", []);
  }

  lemma ExtendThenText(prefix: string, token: string, rest: seq<string>)
    ensures Extend(prefix, token) + PointerText(rest) == prefix + PointerText([token] + rest)
  {
    assert ([token] + rest)[1..] == rest;
    var e, r := Escape(token), PointerText(rest);
    assert prefix + "/" + e + r == prefix + ("/" + e + r);
  }

  /** The `k`-th pointer spells the tokens along the `k`-th address. */
  lemma {:induction false} PointerOfAddress(v: Json, prefix: string, k: nat)
    requires k < |StringAddresses(v)|
    ensures |Pointers(v, prefix)| == |StringAddresses(v)| && At(v, StringAddresses(v)[k]).Some?
    ensures Pointers(v, prefix)[k] == prefix + PointerText(TokensAt(v, StringAddresses(v)[k]))
    decreases v, |Children(v)| + 1
  {
    if v.Str? {
      assert prefix + "" == prefix;
    } else {
      PointersBelowCount(v, prefix, |Children(v)|);
      PointerBelowAddress(v, prefix, |Children(v)|, k);
    }
  }

  lemma {:induction false} PointersCount(v: Json, prefix: string)
    ensures |Pointers(v, prefix)| == |StringAddresses(v)|
    decreases v, |Children(v)| + 1
  {
    if !v.Str? {
      PointersBelowCount(v, prefix, |Children(v)|);
    }
  }

  lemma {:induction false} PointersBelowCount(v: Json, prefix: string, n: nat)
    requires n <= |Children(v)|
    ensures |PointersBelow(v, prefix, n)| == |StringAddressesOf(v, n)|
    decreases v, n
  {
    if n > 0 {
      PointersBelowCount(v, prefix, n - 1);
      PointersCount(Children(v)[n - 1], Extend(prefix, Label(v, n - 1)));
    }
  }

  lemma {:induction false} PointerBelowAddress(v: Json, prefix: string, n: nat, k: nat)
    requires n <= |Children(v)| && k < |StringAddressesOf(v, n)|
    ensures |PointersBelow(v, prefix, n)| == |StringAddressesOf(v, n)| && At(v, StringAddressesOf(v, n)[k]).Some?
    ensures PointersBelow(v, prefix, n)[k] == prefix + PointerText(TokensAt(v, StringAddressesOf(v, n)[k]))
    decreases v, n
  {
    PointersBelowCount(v, prefix, n);
    PointersBelowCount(v, prefix, n - 1);
    var before := |StringAddressesOf(v, n - 1)|;
    if k < before {
      PointerBelowAddress(v, prefix, n - 1, k);
    } else {
      var child, token := Children(v)[n - 1], Label(v, n - 1);
      var below := StringAddresses(child)[k - before];
      PointerOfAddress(child, Extend(prefix, token), k - before);
      assert StringAddressesOf(v, n)[k] == [n - 1] + below;
      TokensOfChild(v, n - 1, below);
      ExtendThenText(prefix, token, TokensAt(child, below));
    }
  }

  lemma TokensOfChild(v: Json, i: nat, below: Address)
    requires i < |Children(v)| && At(Children(v)[i], below).Some?
    ensures At(v, [i] + below).Some?
    ensures TokensAt(v, [i] + below) == [Label(v, i)] + TokensAt(Children(v)[i], below)
  {
    assert ([i] + below)[1..] == below;
  }

  /** Each collected pointer evaluates to the string it was collected from. */
  lemma PointerReachesItsString(v: Json, addr: Address)
    requires DistinctKeys(v) && At(v, addr).Some?
    ensures Evaluate(v, "" + PointerText(TokensAt(v, addr))) == At(v, addr)
  {
    assert "" + PointerText(TokensAt(v, addr)) == PointerText(TokensAt(v, addr));
    PointerRoundTrip(TokensAt(v, addr));
    LookupReachesAddress(v, addr);
  }

  /** The collected pointers are pairwise distinct, each leads back to its own string, and no string is missed. */
  lemma CollectedPointersAreExact(v: Json)
    requires DistinctKeys(v)
    ensures |Pointers(v, "")| == |StringAddresses(v)| && Distinct(Pointers(v, ""))
    ensures forall k | 0 <= k < |Pointers(v, "")| ::
              IsStringAt(v, StringAddresses(v)[k]) && Evaluate(v, Pointers(v, "")[k]) == At(v, StringAddresses(v)[k])
    ensures forall addr :: addr in StringAddresses(v) <==> IsStringAt(v, addr)
  {
    AddressesDistinct(v);
    PointersCount(v, "");
    var addrs, pointers := StringAddresses(v), Pointers(v, "");
    forall j, k | 0 <= j < k < |pointers|
      ensures pointers[j] != pointers[k]
    {
      PointerOfAddress(v, "", j);
      PointerOfAddress(v, "", k);
      PointersDiffer(v, addrs[j], addrs[k]);
    }
    forall k | 0 <= k < |pointers|
      ensures IsStringAt(v, addrs[k]) && Evaluate(v, pointers[k]) == At(v, addrs[k])
    {
      AddressesAreStrings(v, k);
      PointerOfAddress(v, "", k);
      PointerReachesItsString(v, addrs[k]);
    }
    forall addr
      ensures addr in addrs <==> IsStringAt(v, addr)
    {
      if IsStringAt(v, addr) {
        EveryStringIsAddressed(v, addr);
      }
    }
  }

  lemma PointersDiffer(v: Json, a: Address, b: Address)
    requires DistinctKeys(v) && At(v, a).Some? && At(v, b).Some? && a != b
    ensures "" + PointerText(TokensAt(v, a)) != "" + PointerText(TokensAt(v, b))
  {
    PointerRoundTrip(TokensAt(v, a));
    PointerRoundTrip(TokensAt(v, b));
    assert "" + PointerText(TokensAt(v, a)) == PointerText(TokensAt(v, a));
    assert "" + PointerText(TokensAt(v, b)) == PointerText(TokensAt(v, b));
    if TokensAt(v, a) == TokensAt(v, b) {
      TokensDistinguishAddresses(v, a, b);
    }
  }
}
