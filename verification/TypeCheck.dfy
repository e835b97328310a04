/** The type-string checker of the CLI (`crates/iac-cli/src/validate_spec.rs`). */
module TypeCheck {
  import opened Common
  import opened Strings
  import opened Json

  // ---- splitting at top-level commas ----

  /** Opening less closing angle brackets. */
  function Depth(s: string): int {
    if s == [] then 0
    else
      var last := s[|s| - 1];
      Depth(s[..|s| - 1]) + (if last == '<' then 1 else if last == '>' then -1 else 0)
  }

  /** A comma right after `before` would be at top level. */
  predicate SplitsAfter(before: string, c: char) {
    c == ',' && Depth(before) == 0
  }

  function SplitTopLevel(s: string): (parts: seq<string>)
    ensures parts != []
  {
    if s == [] then [[]]
    else
      var before, last := s[..|s| - 1], s[|s| - 1];
      Extend(SplitTopLevel(before), SplitsAfter(before, last), last)
  }

  /** One more character: a new part begins, or the last one grows. */
  function Extend(parts: seq<string>, splits: bool, c: char): (r: seq<string>)
    requires parts != []
    ensures r != []
  {
    if splits then parts + [[]] else parts[..|parts| - 1] + [parts[|parts| - 1] + [c]]
  }

  lemma SplitSnoc(s: string, c: char)
    ensures SplitTopLevel(s + [c]) == Extend(SplitTopLevel(s), SplitsAfter(s, c), c)
    ensures Depth(s + [c]) == Depth(s) + (if c == '<' then 1 else if c == '>' then -1 else 0)
  {
    assert (s + [c])[..|s|] == s;
  }

  lemma ExtendLast(parts: seq<string>, more: seq<string>, splits: bool, c: char)
    requires more != []
    ensures Extend(parts + more, splits, c) == parts + Extend(more, splits, c)
  {
    assert (parts + more)[..|parts + more| - 1] == parts + more[..|more| - 1];
  }

  method SplitTopLevelComma(s: string) returns (parts: seq<string>)
    ensures parts == SplitTopLevel(s)
  {
    parts := [];
    var depth, start := 0, 0;
    for i := 0 to |s|
      invariant start <= i && depth == Depth(s[..i])
      invariant parts + [s[start..i]] == SplitTopLevel(s[..i])
    {
      SnocSlices(s, start, i);
      var c := s[i];
      SplitSnoc(s[..i], c);
      ExtendLast(parts, [s[start..i]], SplitsAfter(s[..i], c), c);
      if c == '<' {
        depth := depth + 1;
      } else if c == '>' {
        depth := depth - 1;
      } else if c == ',' && depth == 0 {
        parts := parts + [s[start..i]];
        start := i + 1;
      }
    }
    assert s[..|s|] == s;
    parts := parts + [s[start..]];
  }

  lemma SnocSlices(s: string, start: nat, i: nat)
    requires start <= i < |s|
    ensures s[..i + 1] == s[..i] + [s[i]] && s[i + 1..i + 1] == [] && s[start..i + 1] == s[start..i] + [s[i]]
  {
  }

  lemma {:induction false} JoinSnoc(parts: seq<string>, last: string)
    requires parts != []
    ensures Join(parts + [last], ',') == Join(parts, ',') + [','] + last
  {
    if |parts| > 1 {
      JoinSnoc(parts[1..], last);
      assert (parts + [last])[1..] == parts[1..] + [last];
    } else {
      assert (parts + [last])[1..] == [last];
    }
  }

  lemma {:induction false} JoinGrow(parts: seq<string>, more: string)
    requires parts != []
    ensures Join(parts[..|parts| - 1] + [parts[|parts| - 1] + more], ',') == Join(parts, ',') + more
  {
    var grown := parts[..|parts| - 1] + [parts[|parts| - 1] + more];
    if |parts| > 1 {
      JoinGrow(parts[1..], more);
      assert grown[1..] == parts[1..][..|parts| - 2] + [parts[1..][|parts| - 2] + more];
    }
  }

  lemma JoinExtend(parts: seq<string>, splits: bool, c: char)
    requires parts != [] && (splits ==> c == ',')
    ensures Join(Extend(parts, splits, c), ',') == Join(parts, ',') + [c]
  {
    if splits {
      JoinSnoc(parts, []);
      assert Join(parts, ',') + [','] + [] == Join(parts, ',') + [c];
    } else {
      JoinGrow(parts, [c]);
    }
  }

  /** The parts rejoin to the string, whatever it is. */
  lemma {:induction false} SplitRejoins(s: string)
    ensures Join(SplitTopLevel(s), ',') == s
  {
    if s != [] {
      var before, last := s[..|s| - 1], s[|s| - 1];
      SplitRejoins(before);
      JoinExtend(SplitTopLevel(before), SplitsAfter(before, last), last);
      assert s == before + [last];
    }
  }

  /** Commas outside all brackets. */
  function TopCommas(s: string): nat {
    if s == [] then 0 else TopCommas(s[..|s| - 1]) + (if SplitsAfter(s[..|s| - 1], s[|s| - 1]) then 1 else 0)
  }

  lemma {:induction false} PartsAreCommasPlusOne(s: string)
    ensures |SplitTopLevel(s)| == TopCommas(s) + 1
  {
    if s != [] {
      PartsAreCommasPlusOne(s[..|s| - 1]);
    }
  }

  lemma {:induction false} DepthSum(a: string, b: string)
    ensures Depth(a + b) == Depth(a) + Depth(b)
  {
    if b == [] {
      assert a + b == a;
    } else {
      DepthSum(a, b[..|b| - 1]);
      assert (a + b)[..|a + b| - 1] == a + b[..|b| - 1];
    }
  }

  /** Splitting at a top-level comma splits the two sides on their own. */
  lemma {:induction false} SplitAtComma(a: string, b: string)
    requires Depth(a) == 0
    ensures SplitTopLevel(a + [','] + b) == SplitTopLevel(a) + SplitTopLevel(b)
  {
    if b == [] {
      SplitSnoc(a, ',');
      assert a + [','] + b == a + [','];
    } else {
      var before, last := b[..|b| - 1], b[|b| - 1];
      var whole := a + [','] + before;
      SplitAtComma(a, before);
      DepthAfterComma(a, before);
      SplitSnoc(whole, last);
      assert a + [','] + b == whole + [last];
      assert SplitsAfter(whole, last) == SplitsAfter(before, last);
      ExtendLast(SplitTopLevel(a), SplitTopLevel(before), SplitsAfter(before, last), last);
    }
  }

  lemma DepthAfterComma(a: string, b: string)
    requires Depth(a) == 0
    ensures Depth(a + [','] + b) == Depth(b)
  {
    DepthSum(a + [','], b);
    DepthSum(a, [',']);
  }

  /** Without a top-level comma there is one part. */
  lemma {:induction false} OnePart(s: string)
    requires TopCommas(s) == 0
    ensures SplitTopLevel(s) == [s]
  {
    if s != [] {
      OnePart(s[..|s| - 1]);
      assert s == s[..|s| - 1] + [s[|s| - 1]];
    }
  }

  // ---- closed text ----

  /** Brackets balance, and every comma is inside some. */
  ghost predicate Closed(s: string) {
    && Depth(s) == 0
    && (forall i | 0 <= i <= |s| :: Depth(s[..i]) >= 0)
    && (forall i | 0 <= i < |s| && s[i] == ',' :: Depth(s[..i]) > 0)
  }

  lemma {:induction false} ClosedHasNoTopComma(s: string, n: nat)
    requires n <= |s| && forall i | 0 <= i < |s| && s[i] == ',' :: Depth(s[..i]) != 0
    ensures TopCommas(s[..n]) == 0
  {
    if n > 0 {
      ClosedHasNoTopComma(s, n - 1);
      assert s[..n][..n - 1] == s[..n - 1];
    }
  }

  lemma ClosedIsOnePart(s: string)
    requires Closed(s)
    ensures SplitTopLevel(s) == [s]
  {
    ClosedHasNoTopComma(s, |s|);
    assert s[..|s|] == s;
    OnePart(s);
  }

  /** Text with neither brackets nor commas. */
  ghost predicate Plain(s: string) {
    forall i | 0 <= i < |s| :: s[i] != '<' && s[i] != '>' && s[i] != ','
  }

  lemma {:induction false} PlainDepth(s: string)
    requires Plain(s)
    ensures Depth(s) == 0
  {
    if s != [] {
      PlainDepth(s[..|s| - 1]);
    }
  }

  lemma PlainIsClosed(s: string)
    requires Plain(s)
    ensures Closed(s)
  {
    forall i | 0 <= i <= |s|
      ensures Depth(s[..i]) == 0
    {
      PlainDepth(s[..i]);
    }
    assert s[..|s|] == s;
  }

  lemma ClosedSum(a: string, b: string)
    requires Closed(a) && Closed(b)
    ensures Closed(a + b)
  {
    DepthSum(a, b);
    forall i | 0 <= i <= |a + b|
      ensures Depth((a + b)[..i]) >= 0
      ensures i < |a + b| && (a + b)[i] == ',' ==> Depth((a + b)[..i]) > 0
    {
      if i <= |a| {
        assert (a + b)[..i] == a[..i];
        if i == |a| && b != [] {
          assert b[..0] == [] && b[0] != ',';
        }
      } else {
        assert (a + b)[..i] == a + b[..i - |a|];
        DepthSum(a, b[..i - |a|]);
      }
    }
  }

  /** The body of a bracket: balanced, commas anywhere. */
  ghost predicate Body(s: string) {
    Depth(s) == 0 && forall i | 0 <= i <= |s| :: Depth(s[..i]) >= 0
  }

  lemma {:induction false} BracketDepth(prefix: string, body: string, i: nat)
    requires Plain(prefix) && i <= |body|
    ensures Depth(prefix + ['<'] + body[..i]) == 1 + Depth(body[..i])
  {
    PlainDepth(prefix);
    DepthSum(prefix, ['<']);
    DepthSum(prefix + ['<'], body[..i]);
  }

  lemma BracketedIsClosed(prefix: string, body: string)
    requires Plain(prefix) && Body(body)
    ensures Closed(prefix + ['<'] + body + ['>'])
  {
    var open := prefix + ['<'];
    var s := open + body + ['>'];
    assert body[..|body|] == body;
    BracketDepth(prefix, body, |body|);
    assert s[..|s| - 1] == open + body;
    forall i | 0 <= i <= |s|
      ensures Depth(s[..i]) >= 0
      ensures i < |s| && s[i] == ',' ==> Depth(s[..i]) > 0
    {
      if i <= |prefix| {
        assert s[..i] == prefix[..i];
        PlainDepth(prefix[..i]);
        if i < |prefix| {
          assert s[i] == prefix[i];
        }
      } else if i < |s| {
        assert s[..i] == open + body[..i - |open|];
        BracketDepth(prefix, body, i - |open|);
      } else {
        assert s[..i] == s;
      }
    }
    assert s[..|s|] == s;
  }

  lemma CommaBody(a: string, b: string)
    requires Closed(a) && Closed(b)
    ensures Body(a + [','] + b)
  {
    var s := a + [','] + b;
    DepthSum(a, [',']);
    DepthSum(a + [','], b);
    forall i | 0 <= i <= |s|
      ensures Depth(s[..i]) >= 0
    {
      if i <= |a| {
        assert s[..i] == a[..i];
      } else {
        assert s[..i] == (a + [',']) + b[..i - |a| - 1];
        DepthSum(a + [','], b[..i - |a| - 1]);
      }
    }
  }

  // ---- the checker ----

  function JsonKind(v: Json): string {
    match v
    case Null => "null"
    case Bool(_) => "bool"
    case Number(_) => "number"
    case Str(_) => "string"
    case Arr(_) => "array"
    case Obj(_) => "object"
  }

  /** What stands between `prefix` and a final `>`. */
  function Inside(s: string, prefix: string): Option<string> {
    if |s| > |prefix| && s[..|prefix|] == prefix && s[|s| - 1] == '>' then Some(s[|prefix|..|s| - 1]) else None
  }

  /** The first child that mismatches, with where it is. */
  function FirstMismatch(declared: string, v: Json, i: nat): Option<string>
    requires i <= |Children(v)|
    decreases v, 0, |Children(v)| - i
  {
    if i == |Children(v)| then None
    else
      var message := TypeMismatch(declared, Children(v)[i]);
      if message.Some? then Some(message.value + Where(v, i)) else FirstMismatch(declared, v, i + 1)
  }

  /** The path suffix of one child. */
  function Where(v: Json, i: nat): string
    requires i < |Children(v)|
  {
    if v.Arr? then " at index " + Decimal(i) else " at key '" + v.members[i].key + "'"
  }

  /** The observed kind, with its path, when `v` does not match the declared type. */
  function TypeMismatch(declared: string, v: Json): Option<string>
    decreases v, 1, 0
  {
    var inner := Inside(declared, "array<");
    var inside := Inside(declared, "map<");
    if inner.Some? then
      if v.Arr? then FirstMismatch(Trim(inner.value), v, 0) else Some(JsonKind(v))
    else if inside.Some? then
      if v.Obj? then
        var parts := SplitTopLevel(inside.value);
        if |parts| != 2 then None else FirstMismatch(Trim(parts[1]), v, 0)
      else Some(JsonKind(v))
    else
      var ok :=
        if declared == "string" then v.Str?
        else if declared == "number" then v.Number?
        else if declared == "bool" || declared == "boolean" then v.Bool?
        else if declared == "array" then v.Arr?
        else if declared == "object" then v.Obj?
        else true;
      if ok then None else Some(JsonKind(v))
  }

  /** The known names, and any other text without brackets, which accepts everything. */
  lemma NamedTypes(v: Json)
    ensures TypeMismatch("string", v).None? <==> v.Str?
    ensures TypeMismatch("number", v).None? <==> v.Number?
    ensures TypeMismatch("bool", v).None? <==> v.Bool?
    ensures TypeMismatch("boolean", v).None? <==> v.Bool?
    ensures TypeMismatch("array", v).None? <==> v.Arr?
    ensures TypeMismatch("object", v).None? <==> v.Obj?
    ensures TypeMismatch("null", v).None?
  {
    PrimHasNoBracket(TString);
    PrimHasNoBracket(TNumber);
    PrimHasNoBracket(TBool);
    PrimHasNoBracket(TBoolean);
    PrimHasNoBracket(TArray);
    PrimHasNoBracket(TObject);
  }

  /** `array<` and `>` around any text: an array whose elements match the text, trimmed. */
  lemma ArrayRule(inner: string, v: Json)
    ensures TypeMismatch("array<" + inner + ">", v).None? <==>
            v.Arr? && forall i | 0 <= i < |v.items| :: TypeMismatch(Trim(inner), v.items[i]).None?
  {
    InsideBrackets("array", inner);
    assert "array" + ['<'] + inner + ['>'] == "array<" + inner + ">";
    if v.Arr? {
      NoneMismatch(Trim(inner), v, 0);
    }
  }

  /** `map<` and `>` around two parts: an object whose values match the second part, trimmed. */
  lemma MapRule(inside: string, v: Json)
    requires |SplitTopLevel(inside)| == 2
    ensures TypeMismatch("map<" + inside + ">", v).None? <==>
            && v.Obj?
            && forall i | 0 <= i < |v.members| ::
                 TypeMismatch(Trim(SplitTopLevel(inside)[1]), v.members[i].value).None?
  {
    InsideBrackets("map", inside);
    assert "map" + ['<'] + inside + ['>'] == "map<" + inside + ">";
    OnlyOneForm("map<" + inside + ">");
    if v.Obj? {
      NoneMismatch(Trim(SplitTopLevel(inside)[1]), v, 0);
      assert forall i | 0 <= i < |v.members| :: Children(v)[i] == v.members[i].value;
    }
  }

  lemma {:induction false} NoneMismatch(declared: string, v: Json, i: nat)
    requires i <= |Children(v)|
    ensures FirstMismatch(declared, v, i).None? <==>
            forall j | i <= j < |Children(v)| :: TypeMismatch(declared, Children(v)[j]).None?
    decreases |Children(v)| - i
  {
    if i < |Children(v)| {
      NoneMismatch(declared, v, i + 1);
    }
  }

  /** The words of a message. */
  lemma MessageWords(v: Json, i: nat)
    ensures JsonKind(v) ==
            if v == Null then "null" else if v.Bool? then "bool" else if v.Number? then "number"
            else if v.Str? then "string" else if v.Arr? then "array" else "object"
    ensures v.Arr? && i < |v.items| ==> Where(v, i) == " at index " + Decimal(i)
    ensures v.Obj? && i < |v.members| ==> Where(v, i) == " at key '" + v.members[i].key + "'"
  {
  }

  // ---- types as trees ----

  datatype Prim = TString | TNumber | TBool | TBoolean | TArray | TObject

  /** A type as it may be printed, with any blanks around the parameters. */
  datatype Type =
    | Primitive(p: Prim)
    | ArrayOf(before: string, elem: Type, after: string)
    | MapOf(beforeKey: string, key: Type, afterKey: string, beforeValue: string, value: Type, afterValue: string)
    | Unknown(name: string)

  function PrimName(p: Prim): string {
    match p
    case TString => "string"
    case TNumber => "number"
    case TBool => "bool"
    case TBoolean => "boolean"
    case TArray => "array"
    case TObject => "object"
  }

  function Print(t: Type): string {
    match t
    case Primitive(p) => PrimName(p)
    case ArrayOf(b, elem, a) => "array" + ['<'] + (b + Print(elem) + a) + ['>']
    case MapOf(bk, key, ak, bv, value, av) => "map" + ['<']
      + ((bk + Print(key) + ak) + [','] + (bv + Print(value) + av)) + ['>']
    case Unknown(name) => name
  }

  /** Blanks are blanks, and an unknown name is not one of the known forms: it may even hold brackets and commas, as
      `list<a,b>`, as long as they balance. */
  ghost predicate WellFormed(t: Type) {
    match t
    case Primitive(_) => true
    case ArrayOf(b, elem, a) => Blank(b) && Blank(a) && WellFormed(elem)
    case MapOf(bk, key, ak, bv, value, av) =>
      Blank(bk) && Blank(ak) && Blank(bv) && Blank(av) && WellFormed(key) && WellFormed(value)
    case Unknown(name) =>
      && Trimmed(name) && Closed(name)
      && Inside(name, "array<").None? && Inside(name, "map<").None?
      && forall p: Prim :: name != PrimName(p)
  }

  /** The value has the shape the type asks for. Keys are not checked; an unknown type accepts everything. */
  ghost predicate Conforms(v: Json, t: Type)
    decreases t
  {
    match t
    case Primitive(TString) => v.Str?
    case Primitive(TNumber) => v.Number?
    case Primitive(TBool) => v.Bool?
    case Primitive(TBoolean) => v.Bool?
    case Primitive(TArray) => v.Arr?
    case Primitive(TObject) => v.Obj?
    case ArrayOf(_, elem, _) => v.Arr? && forall i | 0 <= i < |Children(v)| :: Conforms(Children(v)[i], elem)
    case MapOf(_, _, _, _, value, _) => v.Obj? && forall i | 0 <= i < |Children(v)| :: Conforms(Children(v)[i], value)
    case Unknown(_) => true
  }

  lemma {:induction false} TrimStartBlank(b: string, s: string)
    requires Blank(b) && (s == [] || !IsSpace(s[0]))
    ensures TrimStart(b + s) == s
  {
    if b == [] {
      assert b + s == s;
    } else {
      TrimStartBlank(b[1..], s);
      assert (b + s)[1..] == b[1..] + s;
    }
  }

  lemma {:induction false} TrimEndBlank(s: string, b: string)
    requires Blank(b) && (s == [] || !IsSpace(s[|s| - 1]))
    ensures TrimEnd(s + b) == s
  {
    if b == [] {
      assert s + b == s;
    } else {
      TrimEndBlank(s, b[..|b| - 1]);
      assert (s + b)[..|s + b| - 1] == s + b[..|b| - 1];
    }
  }

  lemma TrimPadded(before: string, s: string, after: string)
    requires Blank(before) && Blank(after) && Trimmed(s)
    ensures Trim(before + s + after) == s
  {
    if s == [] {
      assert before + s + after == (before + after) + [];
      TrimStartBlank(before + after, []);
    } else {
      assert before + s + after == before + (s + after);
      TrimStartBlank(before, s + after);
      TrimEndBlank(s, after);
    }
  }

  lemma BlankIsPlain(s: string)
    requires Blank(s)
    ensures Plain(s)
  {
  }

  lemma PaddedIsClosed(before: string, s: string, after: string)
    requires Blank(before) && Blank(after) && Closed(s)
    ensures Closed(before + s + after)
  {
    BlankIsPlain(before);
    BlankIsPlain(after);
    PlainIsClosed(before);
    PlainIsClosed(after);
    ClosedSum(before, s);
    ClosedSum(before + s, after);
  }

  lemma PrimIsPlain(p: Prim)
    ensures Plain(PrimName(p))
  {
    match p
    case TString => assert Plain("string");
    case TNumber => assert Plain("number");
    case TBool => assert Plain("bool");
    case TBoolean => assert Plain("boolean");
    case TArray => assert Plain("array");
    case TObject => assert Plain("object");
  }

  lemma PrimIsTrimmed(p: Prim)
    ensures Trimmed(PrimName(p))
  {
  }

  lemma ArrayIsClosed(before: string, elem: string, after: string)
    requires Blank(before) && Blank(after) && Closed(elem)
    ensures Closed("array" + ['<'] + (before + elem + after) + ['>'])
  {
    PaddedIsClosed(before, elem, after);
    BracketedIsClosed("array", before + elem + after);
  }

  lemma MapIsClosed(key: string, value: string)
    requires Closed(key) && Closed(value)
    ensures Closed("map" + ['<'] + (key + [','] + value) + ['>'])
  {
    CommaBody(key, value);
    BracketedIsClosed("map", key + [','] + value);
  }

  lemma {:induction false} PrintedIsClosed(t: Type)
    requires WellFormed(t)
    ensures Closed(Print(t))
  {
    match t
    case Primitive(p) =>
      PrimIsPlain(p);
      PlainIsClosed(PrimName(p));
    case ArrayOf(b, elem, a) =>
      PrintedIsClosed(elem);
      ArrayIsClosed(b, Print(elem), a);
    case MapOf(bk, key, ak, bv, value, av) =>
      PrintedIsClosed(key);
      PrintedIsClosed(value);
      PaddedIsClosed(bk, Print(key), ak);
      PaddedIsClosed(bv, Print(value), av);
      MapIsClosed(bk + Print(key) + ak, bv + Print(value) + av);
    case Unknown(name) =>
  }

  lemma EndsTrimmed(prefix: string, body: string)
    requires prefix != [] && !IsSpace(prefix[0])
    ensures Trimmed(prefix + ['<'] + body + ['>'])
  {
  }

  lemma PrintedIsTrimmed(t: Type)
    requires WellFormed(t)
    ensures Trimmed(Print(t))
  {
    match t
    case Primitive(p) => PrimIsTrimmed(p);
    case ArrayOf(b, elem, a) => EndsTrimmed("array", b + Print(elem) + a);
    case MapOf(bk, key, ak, bv, value, av) =>
      EndsTrimmed("map", (bk + Print(key) + ak) + [','] + (bv + Print(value) + av));
    case Unknown(name) =>
  }

  /** The body of a printed map splits into exactly its two parameters. */
  lemma PrintedMapHasTwoParts(t: Type)
    requires t.MapOf? && WellFormed(t)
    ensures
      var inside := Inside(Print(t), "map<");
      && inside.Some?
      && SplitTopLevel(inside.value) ==
         [t.beforeKey + Print(t.key) + t.afterKey, t.beforeValue + Print(t.value) + t.afterValue]
      && Trim(SplitTopLevel(inside.value)[1]) == Print(t.value)
  {
    PrintedIsClosed(t.key);
    PrintedIsClosed(t.value);
    PaddedIsClosed(t.beforeKey, Print(t.key), t.afterKey);
    PaddedIsClosed(t.beforeValue, Print(t.value), t.afterValue);
    TwoParts(t.beforeKey + Print(t.key) + t.afterKey, t.beforeValue + Print(t.value) + t.afterValue);
    PrintedIsTrimmed(t.value);
    TrimPadded(t.beforeValue, Print(t.value), t.afterValue);
  }

  lemma TwoParts(key: string, value: string)
    requires Closed(key) && Closed(value)
    ensures
      var inside := Inside("map" + ['<'] + (key + [','] + value) + ['>'], "map<");
      inside.Some? && SplitTopLevel(inside.value) == [key, value]
  {
    InsideBrackets("map", key + [','] + value);
    SplitAtComma(key, value);
    ClosedIsOnePart(key);
    ClosedIsOnePart(value);
  }

  lemma InsideBrackets(prefix: string, body: string)
    ensures Inside(prefix + ['<'] + body + ['>'], prefix + ['<']) == Some(body)
  {
    var s := prefix + ['<'] + body + ['>'];
    assert s[..|prefix| + 1] == prefix + ['<'];
    assert s[|prefix| + 1..|s| - 1] == body;
  }

  lemma PrintedArray(t: Type)
    requires t.ArrayOf? && WellFormed(t)
    ensures
      var inner := Inside(Print(t), "array<");
      inner.Some? && Trim(inner.value) == Print(t.elem)
  {
    InsideBrackets("array", t.before + Print(t.elem) + t.after);
    PrintedIsTrimmed(t.elem);
    TrimPadded(t.before, Print(t.elem), t.after);
  }

  lemma OnlyOneForm(s: string)
    requires Inside(s, "map<").Some?
    ensures Inside(s, "array<").None?
  {
    assert s[..4][0] == 'm';
    assert |s| > 6 ==> s[..6][0] == s[0];
    assert "array<"[0] == 'a';
  }

  /** The element or value type that `t` imposes on the children of a value. */
  ghost function ChildType(t: Type): Option<Type> {
    match t
    case ArrayOf(_, elem, _) => Some(elem)
    case MapOf(_, _, _, _, value, _) => Some(value)
    case _ => None
  }

  /** The value itself is of the kind that `t` names. */
  ghost predicate ShallowlyOk(v: Json, t: Type) {
    match t
    case Primitive(_) => Conforms(v, t)
    case ArrayOf(_, _, _) => v.Arr?
    case MapOf(_, _, _, _, _, _) => v.Obj?
    case Unknown(_) => true
  }

  lemma PrimitiveMismatch(p: Prim, v: Json)
    ensures TypeMismatch(PrimName(p), v) == if Conforms(v, Primitive(p)) then None else Some(JsonKind(v))
  {
    PrimHasNoBracket(p);
  }

  lemma PrimHasNoBracket(p: Prim)
    ensures Inside(PrimName(p), "array<").None? && Inside(PrimName(p), "map<").None?
  {
    assert PrimName(p)[|PrimName(p)| - 1] != '>';
  }

  lemma UnknownMatches(name: string, v: Json)
    requires WellFormed(Unknown(name))
    ensures TypeMismatch(name, v) == None
  {
    assert name != PrimName(TString) && name != PrimName(TNumber) && name != PrimName(TBool);
    assert name != PrimName(TBoolean) && name != PrimName(TArray) && name != PrimName(TObject);
  }

  lemma ArrayMismatch(t: Type, v: Json)
    requires WellFormed(t) && t.ArrayOf?
    ensures TypeMismatch(Print(t), v) == if v.Arr? then FirstMismatch(Print(t.elem), v, 0) else Some(JsonKind(v))
  {
    PrintedArray(t);
  }

  lemma MapMismatch(t: Type, v: Json)
    requires WellFormed(t) && t.MapOf?
    ensures TypeMismatch(Print(t), v) == if v.Obj? then FirstMismatch(Print(t.value), v, 0) else Some(JsonKind(v))
  {
    PrintedMapHasTwoParts(t);
    OnlyOneForm(Print(t));
  }

  /** On printed types the checker works as one reading the tree. */
  lemma MismatchOnPrinted(t: Type, v: Json)
    requires WellFormed(t)
    ensures !ShallowlyOk(v, t) ==> TypeMismatch(Print(t), v) == Some(JsonKind(v))
    ensures ShallowlyOk(v, t) && ChildType(t).None? ==> TypeMismatch(Print(t), v) == None
    ensures ShallowlyOk(v, t) && ChildType(t).Some? ==>
              TypeMismatch(Print(t), v) == FirstMismatch(Print(ChildType(t).value), v, 0)
  {
    match t
    case Primitive(p) => PrimitiveMismatch(p, v);
    case ArrayOf(_, _, _) => ArrayMismatch(t, v);
    case MapOf(_, _, _, _, _, _) => MapMismatch(t, v);
    case Unknown(name) => UnknownMatches(name, v);
  }

  /** For every type and every value: no mismatch is reported exactly when the value conforms. */
  lemma {:induction false} NoneIffConforms(t: Type, v: Json)
    requires WellFormed(t)
    ensures TypeMismatch(Print(t), v).None? <==> Conforms(v, t)
    decreases t, 0, 0
  {
    MismatchOnPrinted(t, v);
    if ShallowlyOk(v, t) && ChildType(t).Some? {
      NoneIffRestConforms(t, v, 0);
    }
  }

  lemma {:induction false} NoneIffRestConforms(t: Type, v: Json, i: nat)
    requires WellFormed(t) && ChildType(t).Some? && i <= |Children(v)|
    ensures FirstMismatch(Print(ChildType(t).value), v, i).None? <==>
            forall j | i <= j < |Children(v)| :: Conforms(Children(v)[j], ChildType(t).value)
    decreases ChildType(t).value, 1, |Children(v)| - i
  {
    if i < |Children(v)| {
      NoneIffConforms(ChildType(t).value, Children(v)[i]);
      NoneIffRestConforms(t, v, i + 1);
    }
  }

  // ---- what the message says ----

  /** `addr` is the first place, in document order, where the value is not of the kind its type names. */
  ghost predicate FirstFault(v: Json, t: Type, addr: Address)
    decreases |addr|
  {
    if addr == [] then !ShallowlyOk(v, t)
    else
      && ShallowlyOk(v, t) && ChildType(t).Some? && addr[0] < |Children(v)|
      && (forall j | 0 <= j < addr[0] :: Conforms(Children(v)[j], ChildType(t).value))
      && FirstFault(Children(v)[addr[0]], ChildType(t).value, addr[1..])
  }

  /** The kind found at `addr`, then the way to it from the inside out. */
  ghost function Report(v: Json, addr: Address): string
    decreases |addr|
  {
    if addr == [] || addr[0] >= |Children(v)| then JsonKind(v)
    else Report(Children(v)[addr[0]], addr[1..]) + Where(v, addr[0])
  }

  /** A reported mismatch is the first fault of the value, described with its path. */
  lemma {:induction false} MessageIsTheFirstFault(t: Type, v: Json) returns (addr: Address)
    requires WellFormed(t) && !Conforms(v, t)
    ensures FirstFault(v, t, addr)
    ensures TypeMismatch(Print(t), v) == Some(Report(v, addr))
    decreases t
  {
    MismatchOnPrinted(t, v);
    if !ShallowlyOk(v, t) {
      addr := [];
    } else {
      var child := ChildType(t).value;
      var i := FirstNonconforming(v, child, 0);
      SkipConforming(t, v, 0, i);
      var rest := MessageIsTheFirstFault(child, Children(v)[i]);
      addr := [i] + rest;
      assert addr[1..] == rest;
    }
  }

  lemma {:induction false} FirstNonconforming(v: Json, t: Type, from: nat) returns (i: nat)
    requires exists j :: from <= j < |Children(v)| && !Conforms(Children(v)[j], t)
    ensures from <= i < |Children(v)| && !Conforms(Children(v)[i], t)
    ensures forall j | from <= j < i :: Conforms(Children(v)[j], t)
    decreases |Children(v)| - from
  {
    if !Conforms(Children(v)[from], t) {
      i := from;
    } else {
      i := FirstNonconforming(v, t, from + 1);
    }
  }

  lemma {:induction false} SkipConforming(t: Type, v: Json, from: nat, i: nat)
    requires WellFormed(t) && ChildType(t).Some? && from <= i < |Children(v)|
    requires forall j | from <= j < i :: Conforms(Children(v)[j], ChildType(t).value)
    ensures FirstMismatch(Print(ChildType(t).value), v, from) == FirstMismatch(Print(ChildType(t).value), v, i)
    decreases i - from
  {
    if from < i {
      NoneIffConforms(ChildType(t).value, Children(v)[from]);
      SkipConforming(t, v, from + 1, i);
    }
  }

  /** A map declared with any other number of parameters only asks for an object. */
  lemma MalformedMapIsShallow(inside: string, v: Json)
    requires TopCommas(inside) != 1
    ensures TypeMismatch("map" + ['<'] + inside + ['>'], v).None? <==> v.Obj?
  {
    InsideBrackets("map", inside);
    OnlyOneForm("map" + ['<'] + inside + ['>']);
    PartsAreCommasPlusOne(inside);
  }

  // ---- resources against descriptors ----

  datatype SpecField = SpecField(name: string, declared: string, required: bool, description: string)

  datatype Descriptor = Descriptor(kind: string, fields: seq<SpecField>)

  /** `spec` is the conversion to JSON, which can fail. */
  datatype Resource = Resource(id: string, kind: string, spec: Result<Json, string>)

  function FindDescriptor(descriptors: seq<Descriptor>, kind: string): Option<Descriptor> {
    if descriptors == [] then None
    else if descriptors[0].kind == kind then Some(descriptors[0])
    else FindDescriptor(descriptors[1..], kind)
  }

  /** The first descriptor of the kind, if there is one. */
  lemma {:induction false} FirstDescriptor(descriptors: seq<Descriptor>, kind: string)
    ensures FindDescriptor(descriptors, kind).None? <==>
            forall i | 0 <= i < |descriptors| :: descriptors[i].kind != kind
    ensures FindDescriptor(descriptors, kind).Some? ==>
              exists i ::
                && 0 <= i < |descriptors| && descriptors[i].kind == kind
                && (forall j | 0 <= j < i :: descriptors[j].kind != kind)
                && FindDescriptor(descriptors, kind) == Some(descriptors[i])
  {
    if descriptors != [] {
      FirstDescriptor(descriptors[1..], kind);
      assert forall i | 1 <= i < |descriptors| :: descriptors[i] == descriptors[1..][i - 1];
      if descriptors[0].kind != kind && FindDescriptor(descriptors[1..], kind).Some? {
        var i :|
          && 0 <= i < |descriptors[1..]| && descriptors[1..][i].kind == kind
          && (forall j | 0 <= j < i :: descriptors[1..][j].kind != kind)
          && FindDescriptor(descriptors[1..], kind) == Some(descriptors[1..][i]);
        assert descriptors[i + 1].kind == kind;
      }
    }
  }

  function SpecObject(r: Resource): Result<seq<Member>, string> {
    if r.spec.Err? then Err("spec must be a JSON-compatible object (" + r.spec.error + ")")
    else if r.spec.value.Obj? then Ok(r.spec.value.members)
    else Err("spec must be an object")
  }

  predicate Known(fields: seq<SpecField>, name: string) {
    exists i | 0 <= i < |fields| :: fields[i].name == name
  }

  function MissingMessage(id: string, f: SpecField): string {
    id + ": spec." + f.name + " is required (" + f.description + ")"
  }

  function UnknownMessage(id: string, name: string, kind: string): string {
    id + ": spec." + name + " is not a known field for kind=" + kind
  }

  function MismatchMessage(id: string, f: SpecField, observed: string): string {
    id + ": spec." + f.name + " expected " + f.declared + ", got " + observed
  }

  ghost function IfMissing(id: string, f: SpecField, spec: seq<Member>): seq<string> {
    if f.required && Get(spec, f.name).None? then [MissingMessage(id, f)] else []
  }

  ghost function MissingErrors(id: string, fields: seq<SpecField>, spec: seq<Member>): seq<string> {
    if fields == [] then []
    else MissingErrors(id, fields[..|fields| - 1], spec) + IfMissing(id, fields[|fields| - 1], spec)
  }

  ghost function IfUnknown(r: Resource, fields: seq<SpecField>, m: Member): seq<string> {
    if Known(fields, m.key) then [] else [UnknownMessage(r.id, m.key, r.kind)]
  }

  ghost function UnknownErrors(r: Resource, fields: seq<SpecField>, spec: seq<Member>): seq<string> {
    if spec == [] then []
    else UnknownErrors(r, fields, spec[..|spec| - 1]) + IfUnknown(r, fields, spec[|spec| - 1])
  }

  /** The mismatch of one declared field, if it is present. */
  function FieldMismatch(f: SpecField, spec: seq<Member>): Option<string> {
    var v := Get(spec, f.name);
    if v.None? then None else TypeMismatch(f.declared, v.value)
  }

  ghost function IfMismatch(id: string, f: SpecField, spec: seq<Member>): seq<string> {
    var observed := FieldMismatch(f, spec);
    if observed.Some? then [MismatchMessage(id, f, observed.value)] else []
  }

  ghost function TypeErrors(id: string, fields: seq<SpecField>, spec: seq<Member>): seq<string> {
    if fields == [] then []
    else TypeErrors(id, fields[..|fields| - 1], spec) + IfMismatch(id, fields[|fields| - 1], spec)
  }

  ghost function ErrorsOf(r: Resource, descriptors: seq<Descriptor>): seq<string> {
    var desc := FindDescriptor(descriptors, r.kind);
    if desc.None? then []
    else
      var spec := SpecObject(r);
      if spec.Err? then [r.id + ": " + spec.error]
      else
        MissingErrors(r.id, desc.value.fields, spec.value) + UnknownErrors(r, desc.value.fields, spec.value)
        + TypeErrors(r.id, desc.value.fields, spec.value)
  }

  ghost function AllErrors(resources: seq<Resource>, descriptors: seq<Descriptor>): seq<string> {
    if resources == [] then []
    else AllErrors(resources[..|resources| - 1], descriptors) + ErrorsOf(resources[|resources| - 1], descriptors)
  }

  method FieldErrors(r: Resource, fields: seq<SpecField>, spec: seq<Member>) returns (errors: seq<string>)
    ensures errors == MissingErrors(r.id, fields, spec) + UnknownErrors(r, fields, spec)
        + TypeErrors(r.id, fields, spec)
  {
    var missing := MissingFields(r.id, fields, spec);
    var unknown := UnknownFields(r, fields, spec);
    var mismatched := MistypedFields(r.id, fields, spec);
    errors := missing + unknown + mismatched;
  }

  method MissingFields(id: string, fields: seq<SpecField>, spec: seq<Member>) returns (errors: seq<string>)
    ensures errors == MissingErrors(id, fields, spec)
  {
    errors := [];
    for i := 0 to |fields|
      invariant errors == MissingErrors(id, fields[..i], spec)
    {
      assert fields[..i + 1][..i] == fields[..i];
      if fields[i].required && Get(spec, fields[i].name).None? {
        errors := errors + [MissingMessage(id, fields[i])];
      }
    }
    assert fields[..|fields|] == fields;
  }

  method UnknownFields(r: Resource, fields: seq<SpecField>, spec: seq<Member>) returns (errors: seq<string>)
    ensures errors == UnknownErrors(r, fields, spec)
  {
    errors := [];
    for i := 0 to |spec|
      invariant errors == UnknownErrors(r, fields, spec[..i])
    {
      assert spec[..i + 1][..i] == spec[..i];
      if !Known(fields, spec[i].key) {
        errors := errors + [UnknownMessage(r.id, spec[i].key, r.kind)];
      }
    }
    assert spec[..|spec|] == spec;
  }

  method MistypedFields(id: string, fields: seq<SpecField>, spec: seq<Member>) returns (errors: seq<string>)
    ensures errors == TypeErrors(id, fields, spec)
  {
    errors := [];
    for i := 0 to |fields|
      invariant errors == TypeErrors(id, fields[..i], spec)
    {
      assert fields[..i + 1][..i] == fields[..i];
      var observed := FieldMismatch(fields[i], spec);
      if observed.Some? {
        errors := errors + [MismatchMessage(id, fields[i], observed.value)];
      }
    }
    assert fields[..|fields|] == fields;
  }

  method ValidateResources(resources: seq<Resource>, descriptors: seq<Descriptor>) returns (errors: seq<string>)
    ensures errors == AllErrors(resources, descriptors)
  {
    errors := [];
    for i := 0 to |resources|
      invariant errors == AllErrors(resources[..i], descriptors)
    {
      assert resources[..i + 1][..i] == resources[..i];
      var r := resources[i];
      var desc := FindDescriptor(descriptors, r.kind);
      if desc.None? {
        continue;
      }
      var spec := SpecObject(r);
      if spec.Err? {
        errors := errors + [r.id + ": " + spec.error];
        continue;
      }
      var found := FieldErrors(r, desc.value.fields, spec.value);
      errors := errors + found;
    }
    assert resources[..|resources|] == resources;
  }

  // ---- what each error means ----

  /** A kind without a descriptor is not looked at; a spec that is no object is one error; otherwise the missing, the
      unknown and the mistyped fields are reported, in that order. */
  lemma ErrorsInOrder(r: Resource, descriptors: seq<Descriptor>)
    ensures (forall i | 0 <= i < |descriptors| :: descriptors[i].kind != r.kind) ==> ErrorsOf(r, descriptors) == []
    ensures FindDescriptor(descriptors, r.kind).Some? ==>
              var fields := FindDescriptor(descriptors, r.kind).value.fields;
              ErrorsOf(r, descriptors) ==
              if r.spec.Err? then [r.id + ": " + ("spec must be a JSON-compatible object (" + r.spec.error + ")")]
              else if !r.spec.value.Obj? then [r.id + ": " + "spec must be an object"]
              else
                MissingErrors(r.id, fields, r.spec.value.members) + UnknownErrors(r, fields, r.spec.value.members)
                + TypeErrors(r.id, fields, r.spec.value.members)
  {
    FirstDescriptor(descriptors, r.kind);
  }

  lemma {:induction false} MissingExactly(id: string, fields: seq<SpecField>, spec: seq<Member>, m: string)
    ensures m in MissingErrors(id, fields, spec) <==>
            exists f ::
              && f in fields && f.required && (forall x | x in spec :: x.key != f.name)
              && m == id + ": spec." + f.name + " is required (" + f.description + ")"
  {
    if fields != [] {
      var n := |fields| - 1;
      MissingExactly(id, fields[..n], spec, m);
      assert fields == fields[..n] + [fields[n]];
      AbsentExactly(spec, fields[n].name);
    }
  }

  lemma AbsentExactly(spec: seq<Member>, name: string)
    ensures Get(spec, name).None? <==> forall x | x in spec :: x.key != name
  {
  }

  lemma {:induction false} UnknownExactly(r: Resource, fields: seq<SpecField>, spec: seq<Member>, m: string)
    ensures m in UnknownErrors(r, fields, spec) <==>
            exists x ::
              && x in spec && (forall f | f in fields :: f.name != x.key)
              && m == r.id + ": spec." + x.key + " is not a known field for kind=" + r.kind
  {
    if spec != [] {
      var n := |spec| - 1;
      UnknownExactly(r, fields, spec[..n], m);
      assert spec == spec[..n] + [spec[n]];
    }
  }

  lemma {:induction false} MistypedExactly(id: string, fields: seq<SpecField>, spec: seq<Member>, m: string)
    ensures m in TypeErrors(id, fields, spec) <==>
            exists f ::
              && f in fields && Get(spec, f.name).Some? && TypeMismatch(f.declared, Get(spec, f.name).value).Some?
              && m == id + ": spec." + f.name + " expected " + f.declared + ", got "
                      + TypeMismatch(f.declared, Get(spec, f.name).value).value
  {
    if fields != [] {
      var n := |fields| - 1;
      MistypedExactly(id, fields[..n], spec, m);
      assert fields == fields[..n] + [fields[n]];
    }
  }

  // ---- what an empty list of errors means ----

  /** A descriptor whose declared types are the printed forms of `types`. */
  ghost predicate Declares(fields: seq<SpecField>, types: seq<Type>) {
    |fields| == |types| && forall i | 0 <= i < |fields| :: WellFormed(types[i]) && fields[i].declared == Print(types[i])
  }

  ghost predicate Present(f: SpecField, spec: seq<Member>) {
    f.required ==> Get(spec, f.name).Some?
  }

  ghost predicate Typed(f: SpecField, t: Type, spec: seq<Member>) {
    Get(spec, f.name).Some? ==> Conforms(Get(spec, f.name).value, t)
  }

  /** Every required field is there, every field is a known one, and every present field has its declared type. */
  ghost predicate SpecOk(spec: seq<Member>, fields: seq<SpecField>, types: seq<Type>)
    requires |fields| == |types|
  {
    && AllPresent(fields, spec)
    && (forall m | m in spec :: Known(fields, m.key))
    && AllTyped(fields, types, spec)
  }

  ghost predicate AllPresent(fields: seq<SpecField>, spec: seq<Member>) {
    forall f | f in fields :: Present(f, spec)
  }

  lemma PresentSnoc(fields: seq<SpecField>, spec: seq<Member>)
    requires fields != []
    ensures
      var n := |fields| - 1;
      AllPresent(fields, spec) <==> AllPresent(fields[..n], spec) && Present(fields[n], spec)
  {
    assert fields == fields[..|fields| - 1] + [fields[|fields| - 1]];
  }

  ghost predicate AllTyped(fields: seq<SpecField>, types: seq<Type>, spec: seq<Member>)
    requires |fields| == |types|
  {
    forall i | 0 <= i < |fields| :: Typed(fields[i], types[i], spec)
  }

  lemma TypedSnoc(fields: seq<SpecField>, types: seq<Type>, spec: seq<Member>)
    requires |fields| == |types| > 0
    ensures
      var n := |fields| - 1;
      AllTyped(fields, types, spec) <==> AllTyped(fields[..n], types[..n], spec) && Typed(fields[n], types[n], spec)
  {
    var n := |fields| - 1;
    assert forall i | 0 <= i < n :: fields[..n][i] == fields[i] && types[..n][i] == types[i];
  }

  lemma EmptySum(a: seq<string>, b: seq<string>)
    ensures a + b == [] <==> a == [] && b == []
  {
  }

  lemma {:induction false} NoMissing(id: string, fields: seq<SpecField>, spec: seq<Member>)
    ensures MissingErrors(id, fields, spec) == [] <==> AllPresent(fields, spec)
  {
    if fields != [] {
      var n := |fields| - 1;
      NoMissing(id, fields[..n], spec);
      EmptySum(MissingErrors(id, fields[..n], spec), IfMissing(id, fields[n], spec));
      PresentSnoc(fields, spec);
    }
  }

  lemma {:induction false} NoUnknown(r: Resource, fields: seq<SpecField>, spec: seq<Member>)
    ensures UnknownErrors(r, fields, spec) == [] <==> forall m | m in spec :: Known(fields, m.key)
  {
    if spec != [] {
      var n := |spec| - 1;
      NoUnknown(r, fields, spec[..n]);
      EmptySum(UnknownErrors(r, fields, spec[..n]), IfUnknown(r, fields, spec[n]));
      assert spec == spec[..n] + [spec[n]];
    }
  }

  lemma MistypedIffNotTyped(id: string, f: SpecField, t: Type, spec: seq<Member>)
    requires WellFormed(t) && f.declared == Print(t)
    ensures IfMismatch(id, f, spec) == [] <==> Typed(f, t, spec)
  {
    if Get(spec, f.name).Some? {
      NoneIffConforms(t, Get(spec, f.name).value);
    }
  }

  lemma {:induction false} NoMistyped(id: string, fields: seq<SpecField>, types: seq<Type>, spec: seq<Member>)
    requires Declares(fields, types)
    ensures TypeErrors(id, fields, spec) == [] <==> AllTyped(fields, types, spec)
  {
    if fields != [] {
      var n := |fields| - 1;
      NoMistyped(id, fields[..n], types[..n], spec);
      MistypedIffNotTyped(id, fields[n], types[n], spec);
      EmptySum(TypeErrors(id, fields[..n], spec), IfMismatch(id, fields[n], spec));
      TypedSnoc(fields, types, spec);
    }
  }

  /** A resource of a described kind passes exactly when its spec is an object that meets the descriptor. */
  lemma NoErrorsIffSpecOk(r: Resource, descriptors: seq<Descriptor>, types: seq<Type>)
    requires FindDescriptor(descriptors, r.kind).Some?
    requires Declares(FindDescriptor(descriptors, r.kind).value.fields, types)
    ensures Clean(r, descriptors) <==>
            r.spec.Ok? && r.spec.value.Obj?
            && SpecOk(r.spec.value.members, FindDescriptor(descriptors, r.kind).value.fields, types)
  {
    if r.spec.Ok? && r.spec.value.Obj? {
      var fields, spec := FindDescriptor(descriptors, r.kind).value.fields, r.spec.value.members;
      NoMissing(r.id, fields, spec);
      NoUnknown(r, fields, spec);
      NoMistyped(r.id, fields, types, spec);
    }
  }

  ghost predicate Clean(r: Resource, descriptors: seq<Descriptor>) {
    ErrorsOf(r, descriptors) == []
  }

  /** The list is empty exactly when each resource alone is without errors. */
  lemma {:induction false} NoErrorsAtAll(resources: seq<Resource>, descriptors: seq<Descriptor>)
    ensures AllErrors(resources, descriptors) == [] <==> AllClean(resources, descriptors)
  {
    if resources != [] {
      var n := |resources| - 1;
      NoErrorsAtAll(resources[..n], descriptors);
      EmptySum(AllErrors(resources[..n], descriptors), ErrorsOf(resources[n], descriptors));
      CleanSnoc(resources, descriptors);
    }
  }

  lemma CleanSnoc(resources: seq<Resource>, descriptors: seq<Descriptor>)
    requires resources != []
    ensures AllClean(resources, descriptors) <==>
            AllClean(resources[..|resources| - 1], descriptors) && Clean(resources[|resources| - 1], descriptors)
  {
    assert resources == resources[..|resources| - 1] + [resources[|resources| - 1]];
  }

  ghost predicate AllClean(resources: seq<Resource>, descriptors: seq<Descriptor>) {
    forall r | r in resources :: Clean(r, descriptors)
  }
}
