/** `${secret://<resolver>/<path>[#field]}` references (`crates/iac-controlplane/src/secrets.rs`): parsing, printing,
    and finding them in a string. */
module SecretRefs {
  import opened Common

  datatype SecretRef = SecretRef(resolver: string, path: string, field: Option<string>)

  const PREFIX: string := "${secret://"

  /** Position of the first `c`, or the length. */
  function Find(s: string, c: char): (k: nat)
    ensures k <= |s|
    ensures k < |s| ==> s[k] == c
    ensures forall j | 0 <= j < k :: s[j] != c
  {
    if s == [] || s[0] == c then 0 else 1 + Find(s[1..], c)
  }

  lemma FindIs(s: string, c: char, k: nat)
    requires k <= |s| && (k < |s| ==> s[k] == c) && forall j | 0 <= j < k :: s[j] != c
    ensures Find(s, c) == k
  {
  }

  // ---- one token ----

  function Parse(token: string): Option<SecretRef> {
    if !(PREFIX <= token) then None
    else
      var rest := token[|PREFIX|..];
      if rest == [] || rest[|rest| - 1] != '}' then None else ParseInner(rest[..|rest| - 1])
  }

  function ParseInner(inner: string): Option<SecretRef> {
    if inner == [] then None
    else
      var hash := Find(inner, '#');
      if hash < |inner| && inner[hash + 1..] != []
      then ParsePath(inner[..hash], Some(inner[hash + 1..]))
      else ParsePath(inner, None)
  }

  function ParsePath(part: string, field: Option<string>): Option<SecretRef> {
    var slash := Find(part, '/');
    if slash == |part| || slash == 0 || part[slash + 1..] == [] then None
    else Some(SecretRef(part[..slash], part[slash + 1..], field))
  }

  function Print(r: SecretRef): string {
    PREFIX + PrintInner(r) + "}"
  }

  function PrintInner(r: SecretRef): string {
    r.resolver + "/" + r.path + match r.field case None => "" case Some(f) => "#" + f
  }

  lemma PathThenPrint(part: string, field: Option<string>)
    requires ParsePath(part, field).Some?
    ensures ParsePath(part, field).value.resolver + "/" + ParsePath(part, field).value.path == part
    ensures ParsePath(part, field).value.field == field
  {
    var slash := Find(part, '/');
    assert part == part[..slash] + "/" + part[slash + 1..];
  }

  lemma InnerThenPrint(inner: string)
    requires ParseInner(inner).Some?
    ensures PrintInner(ParseInner(inner).value) == inner
  {
    var hash := Find(inner, '#');
    if hash < |inner| && inner[hash + 1..] != [] {
      PathThenPrint(inner[..hash], Some(inner[hash + 1..]));
      assert inner == inner[..hash] + ("#" + inner[hash + 1..]);
    } else {
      PathThenPrint(inner, None);
      assert inner + "" == inner;
    }
  }

  /** Whatever parses prints back to itself. */
  lemma ParseThenPrint(token: string)
    requires Parse(token).Some?
    ensures Print(Parse(token).value) == token
  {
    var rest := token[|PREFIX|..];
    var inner := rest[..|rest| - 1];
    InnerThenPrint(inner);
    assert rest == inner + "}" && token == PREFIX + rest;
    assert token == PREFIX + inner + "}";
  }

  /** The references that survive printing: what a caller must check before building one by hand. */
  ghost predicate Printable(r: SecretRef) {
    && r.resolver != [] && r.path != [] && '/' !in r.resolver
    && match r.field
       case Some(f) => f != [] && '#' !in r.resolver && '#' !in r.path
       case None => '#' !in r.resolver && '#' !in r.path[..|r.path| - 1]
  }

  /** Printing then parsing is the identity on exactly those references. */
  lemma PrintThenParse(r: SecretRef)
    ensures Parse(Print(r)) == Some(r) <==> Printable(r)
  {
    var inner := PrintInner(r);
    PrintedToken(inner);
    assert Parse(Print(r)) == ParseInner(inner);
    if Printable(r) {
      PrintableParses(r);
    } else {
      UnprintableDiffers(r);
    }
  }

  lemma PrintedToken(inner: string)
    ensures Parse(PREFIX + inner + "}") == ParseInner(inner)
  {
    var token := PREFIX + inner + "}";
    assert token[|PREFIX|..] == inner + "}";
    assert (inner + "}")[..|inner|] == inner;
  }

  lemma PrintableParses(r: SecretRef)
    requires Printable(r)
    ensures ParseInner(PrintInner(r)) == Some(r)
  {
    var inner := PrintInner(r);
    var part := r.resolver + "/" + r.path;
    assert forall j | 0 <= j < |r.resolver| :: part[j] == r.resolver[j];
    FindIs(part, '/', |r.resolver|);
    assert part[..|r.resolver|] == r.resolver && part[|r.resolver| + 1..] == r.path;
    match r.field
    case Some(f) =>
      assert forall j | 0 <= j < |part| :: part[j] != '#';
      FindIs(inner, '#', |part|);
      assert inner[..|part|] == part && inner[|part| + 1..] == f;
    case None =>
      assert inner == part;
      assert forall j | 0 <= j < |part| - 1 :: part[j] != '#' by {
        assert forall j | |r.resolver| < j < |part| - 1 :: part[j] == r.path[..|r.path| - 1][j - |r.resolver| - 1];
      }
  }

  /** A reference that parsing returns is printable. */
  lemma ParsedIsPrintable(inner: string)
    requires ParseInner(inner).Some?
    ensures Printable(ParseInner(inner).value)
  {
    var hash := Find(inner, '#');
    var r := ParseInner(inner).value;
    if r.field.None? {
      var slash := Find(inner, '/');
      var init := r.path[..|r.path| - 1];
      forall j | 0 <= j < |init|
        ensures init[j] != '#'
      {
        assert init[j] == inner[slash + 1 + j];
      }
    }
  }

  lemma TokenIsPrintable(token: string)
    requires Parse(token).Some?
    ensures Printable(Parse(token).value)
  {
    var rest := token[|PREFIX|..];
    ParsedIsPrintable(rest[..|rest| - 1]);
  }

  lemma UnprintableDiffers(r: SecretRef)
    requires !Printable(r)
    ensures ParseInner(PrintInner(r)) != Some(r)
  {
    if ParseInner(PrintInner(r)) == Some(r) {
      ParsedIsPrintable(PrintInner(r));
    }
  }

  // ---- finding tokens ----

  datatype Span = Span(start: nat, end: nat, sref: SecretRef)

  datatype Head = Head(length: nat, sref: SecretRef)

  /** The token that `rest` starts with, if it does: the prefix, up to the next `}`, and it parses. */
  function HeadToken(rest: string): (h: Option<Head>)
    ensures h.Some? ==> 0 < h.value.length <= |rest|
  {
    if !(PREFIX <= rest) then None
    else
      var after := rest[|PREFIX|..];
      var offset := Find(after, '}');
      if offset == |after| then None else HeadOf(rest[..|PREFIX| + offset + 1])
  }

  function HeadOf(token: string): Option<Head> {
    var parsed := Parse(token);
    if parsed.None? then None else Some(Head(|token|, parsed.value))
  }

  /** What `read` finds at the start of the text from `i` on. */
  function FoundAt(read: string -> Option<Head>, s: string, i: nat): (t: Option<Span>)
    ensures t.Some? <==> i <= |s| && read(s[i..]).Some?
    ensures t.Some? ==> t.value == Span(i, i + read(s[i..]).value.length, read(s[i..]).value.sref)
  {
    if i > |s| then None
    else
      var h := read(s[i..]);
      if h.None? then None else Some(Span(i, i + h.value.length, h.value.sref))
  }

  /** The token that starts at `i`. */
  function TokenAt(s: string, i: nat): (t: Option<Span>)
    ensures t.Some? ==> t.value.start == i < t.value.end <= |s|
  {
    FoundAt(HeadToken, s, i)
  }

  /** Where tokens start, as a function of the position. */
  type Tokenizer = nat -> Option<Span>

  ghost predicate WithinBounds(at: Tokenizer, n: nat) {
    forall i: nat :: at(i).Some? ==> at(i).value.start == i < at(i).value.end <= n
  }

  function Tokens(s: string): (at: Tokenizer)
    ensures WithinBounds(at, |s|)
  {
    Finder(HeadToken, s)
  }

  function Finder(read: string -> Option<Head>, s: string): Tokenizer {
    (i: nat) => FoundAt(read, s, i)
  }

  /** The tokens from `i` on, leftmost first; scanning resumes after each. */
  ghost function Scan(at: Tokenizer, n: nat, i: nat): seq<Span>
    requires i <= n && WithinBounds(at, n)
    decreases n - i
  {
    if i == n then []
    else if at(i).Some? then [at(i).value] + Scan(at, n, at(i).value.end)
    else Scan(at, n, i + 1)
  }

  ghost function Refs(s: string): seq<Span> {
    Scan(Tokens(s), |s|, 0)
  }

  lemma {:induction false} NoTokenNearEnd(s: string, i: nat)
    requires i <= |s| < i + |PREFIX|
    ensures Scan(Tokens(s), |s|, i) == []
    decreases |s| - i
  {
    if i < |s| {
      NoTokenNearEnd(s, i + 1);
    }
  }

  /** The test at one position: prefix, closing brace, parse. */
  method TryToken(s: string, i: nat) returns (t: Option<Span>)
    requires i + |PREFIX| <= |s|
    ensures t == TokenAt(s, i)
  {
    var rest := s[i..];
    if PREFIX <= rest {
      var after := rest[|PREFIX|..];
      var offset := Find(after, '}');
      if offset < |after| {
        var end := |PREFIX| + offset + 1;
        var parsed := Parse(rest[..end]);
        return if parsed.None? then None else Some(Span(i, i + end, parsed.value));
      }
    }
    return None;
  }

  method FindRefsInString(s: string) returns (out: seq<Span>)
    ensures out == Refs(s)
  {
    out := [];
    var i := 0;
    while i + |PREFIX| <= |s|
      invariant i <= |s| && out + Scan(Tokens(s), |s|, i) == Refs(s)
      decreases |s| - i
    {
      var t := TryToken(s, i);
      if t.Some? {
        assert out + Scan(Tokens(s), |s|, i) == (out + [t.value]) + Scan(Tokens(s), |s|, t.value.end);
        out := out + [t.value];
        i := t.value.end;
      } else {
        i := i + 1;
      }
    }
    NoTokenNearEnd(s, i);
  }

  /** Spans in order from `from`, disjoint, within `n` characters. */
  ghost predicate OrderedSpans(spans: seq<Span>, from: nat, n: nat) {
    && (forall k | 0 <= k < |spans| :: from <= spans[k].start < spans[k].end <= n)
    && (forall j, k | 0 <= j < k < |spans| :: spans[j].end <= spans[k].start)
  }

  /** Every span is a token that starts where it says. */
  ghost predicate AllTokens(at: Tokenizer, spans: seq<Span>) {
    forall k | 0 <= k < |spans| :: at(spans[k].start) == Some(spans[k])
  }

  ghost predicate Covers(span: Span, p: nat) {
    span.start <= p < span.end
  }

  lemma {:induction false} ScanIsOrdered(at: Tokenizer, n: nat, i: nat)
    requires i <= n && WithinBounds(at, n)
    ensures OrderedSpans(Scan(at, n, i), i, n) && AllTokens(at, Scan(at, n, i))
    decreases n - i
  {
    if i < n {
      ScanIsOrdered(at, n, if at(i).Some? then at(i).value.end else i + 1);
    }
  }

  /** No token starts outside the spans. */
  lemma {:induction false} ScanMissesNothing(at: Tokenizer, n: nat, i: nat, p: nat)
    requires i <= p && i <= n && WithinBounds(at, n) && at(p).Some?
    ensures exists k :: 0 <= k < |Scan(at, n, i)| && Covers(Scan(at, n, i)[k], p)
    decreases n - i
  {
    var t := at(i);
    if t.Some? && p < t.value.end {
      assert Covers(Scan(at, n, i)[0], p);
    } else {
      var next := if t.Some? then t.value.end else i + 1;
      ScanMissesNothing(at, n, next, p);
      var k :| 0 <= k < |Scan(at, n, next)| && Covers(Scan(at, n, next)[k], p);
      assert Covers(Scan(at, n, i)[if t.Some? then k + 1 else k], p);
    }
  }

  /** The span reads as its reference prints, and the reference survives printing. */
  ghost predicate ReadsAsPrinted(s: string, span: Span) {
    span.start <= span.end <= |s| && s[span.start..span.end] == Print(span.sref) && Printable(span.sref)
  }

  /** The form of a token, spelled out. */
  lemma PrintedForm(r: SecretRef)
    ensures Print(r) ==
            "${secret://" + (r.resolver + "/" + r.path + (if r.field.Some? then "#" + r.field.value else "")) + "}"
  {
  }

  /** A text that starts with the prefix, something without a closing brace, and a closing brace. */
  lemma HeadOfForm(inner: string, tail: string)
    requires '}' !in inner
    ensures HeadToken(PREFIX + inner + "}" + tail) == HeadOf(PREFIX + inner + "}")
  {
    var token := PREFIX + inner + "}";
    var rest := token + tail;
    var after := rest[|PREFIX|..];
    assert after == inner + "}" + tail;
    FindIs(after, '}', |inner|);
    assert rest[..|token|] == token;
  }

  /** And there is no token in any other text. */
  lemma HeadHasForm(rest: string) returns (inner: string, tail: string)
    requires HeadToken(rest).Some?
    ensures '}' !in inner && rest == PREFIX + inner + "}" + tail
  {
    var after := rest[|PREFIX|..];
    var offset := Find(after, '}');
    inner, tail := after[..offset], after[offset + 1..];
    assert after == inner + "}" + tail;
  }

  /** A printed reference without a closing brace inside comes first. */
  ghost predicate PrintedFirst(rest: string, r: SecretRef) {
    Printable(r) && '}' !in PrintInner(r) && Print(r) <= rest
  }

  /** Such a reference stands at `i`. */
  ghost predicate StandsAt(s: string, i: nat, r: SecretRef) {
    i <= |s| && PrintedFirst(s[i..], r)
  }

  lemma HeadIsPrinted(rest: string)
    requires HeadToken(rest).Some?
    ensures PrintedFirst(rest, HeadToken(rest).value.sref)
    ensures HeadToken(rest).value.length == |Print(HeadToken(rest).value.sref)|
  {
    var inner, tail := HeadHasForm(rest);
    var token := PREFIX + inner + "}";
    HeadOfForm(inner, tail);
    ParseThenPrint(token);
    TokenIsPrintable(token);
    SameInner(inner, PrintInner(Parse(token).value));
  }

  lemma SameInner(a: string, b: string)
    requires PREFIX + a + "}" == PREFIX + b + "}"
    ensures a == b
  {
    assert (PREFIX + a + "}")[|PREFIX|..][..|a|] == a;
    assert (PREFIX + b + "}")[|PREFIX|..][..|b|] == b;
  }

  lemma PrintedIsHead(rest: string, r: SecretRef)
    requires PrintedFirst(rest, r)
    ensures HeadToken(rest) == Some(Head(|Print(r)|, r))
  {
    var tail := rest[|Print(r)|..];
    assert rest == PREFIX + PrintInner(r) + "}" + tail;
    HeadOfForm(PrintInner(r), tail);
    PrintThenParse(r);
  }

  lemma HeadExactly(rest: string, length: nat, r: SecretRef)
    ensures HeadToken(rest) == Some(Head(length, r)) <==> PrintedFirst(rest, r) && length == |Print(r)|
  {
    if HeadToken(rest).Some? {
      HeadIsPrinted(rest);
    }
    if PrintedFirst(rest, r) {
      PrintedIsHead(rest, r);
    }
  }

  lemma FoundExactly(read: string -> Option<Head>, s: string, i: nat, e: nat, r: SecretRef)
    ensures FoundAt(read, s, i) == Some(Span(i, e, r)) <==>
            i <= |s| && i <= e && read(s[i..]) == Some(Head(e - i, r))
  {
  }

  lemma TokenIffStands(s: string, i: nat, e: nat, r: SecretRef)
    ensures TokenAt(s, i) == Some(Span(i, e, r)) <==> StandsAt(s, i, r) && e == i + |Print(r)|
  {
    FoundExactly(HeadToken, s, i, e, r);
    if i <= |s| && i <= e {
      HeadExactly(s[i..], e - i, r);
    }
  }

  /** A token starts at `i` exactly when a printed reference without a closing brace inside stands there, and it ends
      where that does. */
  lemma TokenExactly(s: string, i: nat, e: nat, r: SecretRef)
    ensures TokenAt(s, i) == Some(Span(i, e, r)) <==>
            Printable(r) && '}' !in PrintInner(r) && i <= |s| && Print(r) <= s[i..] && e == i + |Print(r)|
  {
    TokenIffStands(s, i, e, r);
  }

  lemma TokenReadsAsPrinted(s: string, i: nat)
    requires TokenAt(s, i).Some?
    ensures ReadsAsPrinted(s, TokenAt(s, i).value)
  {
    var t := TokenAt(s, i).value;
    TokenIffStands(s, i, t.end, t.sref);
    PrefixSlice(s, i, Print(t.sref));
  }

  lemma PrefixSlice(s: string, i: nat, p: string)
    requires i <= |s| && p <= s[i..]
    ensures i + |p| <= |s| && s[i..i + |p|] == p
  {
    assert s[i..][..|p|] == s[i..i + |p|];
  }

  lemma NoTokenAt(s: string, i: nat)
    requires forall r: SecretRef :: !StandsAt(s, i, r)
    ensures TokenAt(s, i).None?
  {
    if TokenAt(s, i).Some? {
      TokenIffStands(s, i, TokenAt(s, i).value.end, TokenAt(s, i).value.sref);
    }
  }

  /** Each span reads as its reference prints, and that reference parses back. */
  lemma SpansReadAsPrinted(s: string)
    ensures forall k | 0 <= k < |Refs(s)| :: ReadsAsPrinted(s, Refs(s)[k])
  {
    var spans := Refs(s);
    ScanIsOrdered(Tokens(s), |s|, 0);
    forall k | 0 <= k < |spans|
      ensures ReadsAsPrinted(s, spans[k])
    {
      assert Tokens(s)(spans[k].start) == Some(spans[k]);
      TokenReadsAsPrinted(s, spans[k].start);
    }
  }

  /** The spans are in order, disjoint and in bounds, and every position where a printed reference stands lies inside
      one. */
  lemma ScannerMissesNothing(s: string, p: nat, r: SecretRef)
    ensures OrderedSpans(Refs(s), 0, |s|)
    ensures Printable(r) && '}' !in PrintInner(r) && p <= |s| && Print(r) <= s[p..] ==>
              exists k :: 0 <= k < |Refs(s)| && Covers(Refs(s)[k], p)
  {
    ScanIsOrdered(Tokens(s), |s|, 0);
    if StandsAt(s, p, r) {
      TokenIffStands(s, p, p + |Print(r)|, r);
      ScanMissesNothing(Tokens(s), |s|, 0, p);
    }
  }

  // ---- scanning what follows a token ----

  ghost function Shifted(spans: seq<Span>, off: nat): (r: seq<Span>)
    ensures |r| == |spans|
    ensures forall k | 0 <= k < |r| :: r[k] == Span(spans[k].start + off, spans[k].end + off, spans[k].sref)
  {
    seq(|spans|, k requires 0 <= k < |spans| => Span(spans[k].start + off, spans[k].end + off, spans[k].sref))
  }

  /** `at`, from `off` on, finds what `bt` finds. */
  ghost predicate SameFrom(at: Tokenizer, bt: Tokenizer, off: nat) {
    forall i: nat :: at(off + i) == Moved(bt(i), off)
  }

  ghost function Moved(t: Option<Span>, off: nat): Option<Span> {
    if t.None? then None else Some(Span(t.value.start + off, t.value.end + off, t.value.sref))
  }

  lemma FoundShift(read: string -> Option<Head>, s: string, off: nat, i: nat)
    requires off <= |s|
    ensures FoundAt(read, s, off + i) == Moved(FoundAt(read, s[off..], i), off)
  {
    if off + i <= |s| {
      assert s[off..][i..] == s[off + i..];
    }
  }

  lemma FinderShift(read: string -> Option<Head>, s: string, off: nat)
    requires off <= |s|
    ensures SameFrom(Finder(read, s), Finder(read, s[off..]), off)
  {
    forall i: nat
      ensures Finder(read, s)(off + i) == Moved(Finder(read, s[off..])(i), off)
    {
      FoundShift(read, s, off, i);
    }
  }

  lemma {:induction false} ScanShift(at: Tokenizer, n: nat, bt: Tokenizer, m: nat, off: nat, i: nat)
    requires WithinBounds(at, n) && WithinBounds(bt, m) && n == off + m && SameFrom(at, bt, off) && i <= m
    ensures Scan(at, n, off + i) == Shifted(Scan(bt, m, i), off)
    decreases m - i
  {
    if i < m {
      var t := bt(i);
      assert at(off + i) == Moved(t, off);
      ScanShift(at, n, bt, m, off, if t.Some? then t.value.end else i + 1);
    }
  }

  lemma {:induction false} ScanSkips(at: Tokenizer, n: nat, i: nat, j: nat)
    requires i <= j <= n && WithinBounds(at, n) && forall p | i <= p < j :: at(p).None?
    ensures Scan(at, n, i) == Scan(at, n, j)
    decreases j - i
  {
    if i < j {
      ScanSkips(at, n, i + 1, j);
    }
  }

  // ---- substituting in one string ----

  datatype Piece = Literal(text: string) | Secret(sref: SecretRef)

  /** The string seen as text and references from `cursor` on. */
  ghost function Pieces(s: string, spans: seq<Span>, cursor: nat): seq<Piece>
    requires cursor <= |s| && OrderedSpans(spans, cursor, |s|)
  {
    if spans == [] then [Literal(s[cursor..])]
    else
      [Literal(s[cursor..spans[0].start]), Secret(spans[0].sref)] + Pieces(s, spans[1..], spans[0].end)
  }

  /** The template a string stands for. */
  ghost function Template(s: string): seq<Piece> {
    ScanIsOrdered(Tokens(s), |s|, 0);
    Pieces(s, Refs(s), 0)
  }

  /** Text kept, references replaced; nothing is scanned again. */
  ghost function Render(pieces: seq<Piece>, resolve: SecretRef -> Option<string>): Option<string> {
    if pieces == [] then Some("")
    else
      var head := match pieces[0] case Literal(text) => Some(text) case Secret(r) => resolve(r);
      var tail := Render(pieces[1..], resolve);
      if head.None? || tail.None? then None else Some(head.value + tail.value)
  }

  lemma RenderHead(text: string, sref: SecretRef, rest: seq<Piece>, resolve: SecretRef -> Option<string>)
    ensures Render([Literal(text), Secret(sref)] + rest, resolve) ==
            if resolve(sref).None? || Render(rest, resolve).None? then None
            else Some(text + resolve(sref).value + Render(rest, resolve).value)
  {
    var pieces := [Literal(text), Secret(sref)] + rest;
    assert pieces[1..] == [Secret(sref)] + rest && pieces[1..][1..] == rest;
    if resolve(sref).Some? && Render(rest, resolve).Some? {
      assert text + (resolve(sref).value + Render(rest, resolve).value) ==
        text + resolve(sref).value + Render(rest, resolve).value;
    }
  }

  lemma RenderText(text: string, resolve: SecretRef -> Option<string>)
    ensures Render([Literal(text)], resolve) == Some(text)
  {
    assert [Literal(text)][1..] == [] && text + "" == text;
  }

  lemma {:induction false} PiecesAreFaithful(s: string, spans: seq<Span>, cursor: nat,
                                             keep: SecretRef -> Option<string>)
    requires cursor <= |s| && OrderedSpans(spans, cursor, |s|)
    requires forall k | 0 <= k < |spans| :: keep(spans[k].sref) == Some(s[spans[k].start..spans[k].end])
    ensures Render(Pieces(s, spans, cursor), keep) == Some(s[cursor..])
    decreases |spans|
  {
    if spans == [] {
      RenderText(s[cursor..], keep);
    } else {
      var first := spans[0];
      PiecesAreFaithful(s, spans[1..], first.end, keep);
      RenderHead(s[cursor..first.start], first.sref, Pieces(s, spans[1..], first.end), keep);
      assert s[cursor..] == s[cursor..first.start] + s[first.start..first.end] + s[first.end..];
    }
  }

  lemma {:induction false} PiecesShift(s: string, off: nat, spans: seq<Span>, cursor: nat)
    requires off + cursor <= |s| && OrderedSpans(spans, cursor, |s| - off)
    requires OrderedSpans(Shifted(spans, off), off + cursor, |s|)
    ensures Pieces(s, Shifted(spans, off), off + cursor) == Pieces(s[off..], spans, cursor)
    decreases |spans|
  {
    if spans == [] {
      assert s[off..][cursor..] == s[off + cursor..];
    } else {
      var rest := spans[1..];
      PieceShift(s, off, cursor, spans[0].start);
      ShiftedRest(spans, off);
      PiecesShift(s, off, rest, spans[0].end);
    }
  }

  lemma PieceShift(s: string, off: nat, from: nat, to: nat)
    requires from <= to && off + to <= |s|
    ensures s[off..][from..to] == s[off + from..off + to]
  {
  }

  lemma ShiftedRest(spans: seq<Span>, off: nat)
    requires spans != []
    ensures Shifted(spans, off)[1..] == Shifted(spans[1..], off)
  {
  }

  /** Text in which no printed reference stands is a template of that text alone. */
  lemma TemplateOfText(s: string)
    requires forall p: nat, r: SecretRef | p < |s| :: !StandsAt(s, p, r)
    ensures Template(s) == [Literal(s)]
  {
    forall p: nat | p < |s|
      ensures Tokens(s)(p).None?
    {
      NoTokenAt(s, p);
    }
    ScanSkips(Tokens(s), |s|, 0, |s|);
    assert s[0..] == s;
  }

  /** Text before the first printed reference is kept, then comes the reference, then the template of what follows it:
      with `TemplateOfText` this is all there is to a template. */
  lemma TemplateOfToken(a: string, r: SecretRef, b: string)
    requires StandsAt(a + Print(r) + b, |a|, r)
    requires forall p: nat, q: SecretRef | p < |a| :: !StandsAt(a + Print(r) + b, p, q)
    ensures Template(a + Print(r) + b) == [Literal(a), Secret(r)] + Template(b)
  {
    var s, e := a + Print(r) + b, |a| + |Print(r)|;
    FirstToken(s, |a|, r);
    assert s[e..] == b && s[..|a|] == a;
    FirstPiece(s, Span(|a|, e, r));
  }

  lemma FirstToken(s: string, i: nat, r: SecretRef)
    requires StandsAt(s, i, r) && forall p: nat, q: SecretRef | p < i :: !StandsAt(s, p, q)
    ensures
      var e := i + |Print(r)|;
      e <= |s| && Refs(s) == [Span(i, e, r)] + Shifted(Refs(s[e..]), e)
  {
    var e := i + |Print(r)|;
    forall p: nat | p < i
      ensures Tokens(s)(p).None?
    {
      NoTokenAt(s, p);
    }
    ScanSkips(Tokens(s), |s|, 0, i);
    TokenIffStands(s, i, e, r);
    FinderShift(HeadToken, s, e);
    ScanShift(Tokens(s), |s|, Tokens(s[e..]), |s[e..]|, e, 0);
  }

  lemma FirstPiece(s: string, first: Span)
    requires first.start <= first.end <= |s|
    requires Refs(s) == [first] + Shifted(Refs(s[first.end..]), first.end)
    ensures Template(s) == [Literal(s[..first.start]), Secret(first.sref)] + Template(s[first.end..])
  {
    var b, e := s[first.end..], first.end;
    ScanIsOrdered(Tokens(b), |b|, 0);
    ScanIsOrdered(Tokens(s), |s|, 0);
    FirstAndMoved(s, first, Refs(b));
  }

  lemma FirstAndMoved(s: string, first: Span, spans: seq<Span>)
    requires first.start <= first.end <= |s| && OrderedSpans(spans, 0, |s| - first.end)
    requires OrderedSpans([first] + Shifted(spans, first.end), 0, |s|)
    ensures Pieces(s, [first] + Shifted(spans, first.end), 0) ==
            [Literal(s[..first.start]), Secret(first.sref)] + Pieces(s[first.end..], spans, 0)
  {
    RestOrdered(first, Shifted(spans, first.end), |s|);
    PiecesOfFirst(s, first, Shifted(spans, first.end));
    PiecesShift(s, first.end, spans, 0);
  }

  lemma RestOrdered(first: Span, rest: seq<Span>, n: nat)
    requires OrderedSpans([first] + rest, 0, n)
    ensures OrderedSpans(rest, first.end, n)
  {
    var spans := [first] + rest;
    forall k | 0 <= k < |rest|
      ensures first.end <= rest[k].start < rest[k].end <= n
    {
      assert spans[0] == first && spans[k + 1] == rest[k];
    }
    forall j, k | 0 <= j < k < |rest|
      ensures rest[j].end <= rest[k].start
    {
      assert spans[j + 1] == rest[j] && spans[k + 1] == rest[k];
    }
  }

  lemma PiecesOfFirst(s: string, first: Span, rest: seq<Span>)
    requires OrderedSpans([first] + rest, 0, |s|) && OrderedSpans(rest, first.end, |s|)
    requires first.start <= first.end <= |s|
    ensures Pieces(s, [first] + rest, 0) == [Literal(s[..first.start]), Secret(first.sref)] + Pieces(s, rest, first.end)
  {
    var spans := [first] + rest;
    assert spans[1..] == rest && spans[0] == first && s[0..first.start] == s[..first.start];
  }

  /** A template renders exactly when every reference in it resolves. */
  lemma {:induction false} RendersIffAllResolve(pieces: seq<Piece>, resolve: SecretRef -> Option<string>)
    ensures Render(pieces, resolve).Some? <==>
            forall k | 0 <= k < |pieces| && pieces[k].Secret? :: resolve(pieces[k].sref).Some?
  {
    if pieces != [] {
      RendersIffAllResolve(pieces[1..], resolve);
      assert pieces == [pieces[0]] + pieces[1..];
    }
  }

  function PrintBack(): SecretRef -> Option<string> {
    r => Some(Print(r))
  }

  /** Rendering each reference as its own text gives the string back: the template loses nothing. */
  lemma TemplateIsFaithful(s: string)
    ensures Render(Template(s), PrintBack()) == Some(s)
  {
    ScanIsOrdered(Tokens(s), |s|, 0);
    SpansReadAsPrinted(s);
    forall k | 0 <= k < |Refs(s)|
      ensures PrintBack()(Refs(s)[k].sref) == Some(s[Refs(s)[k].start..Refs(s)[k].end])
    {
      assert ReadsAsPrinted(s, Refs(s)[k]);
    }
    PiecesAreFaithful(s, Refs(s), 0, PrintBack());
    assert s[0..] == s;
  }
}
