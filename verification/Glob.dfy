/** Host selection of the CLI inventory (`crates/iac-cli/src/inventory.rs`): the glob matcher and `--limit`. */
module Glob {
  import opened Common
  import opened Strings

  // ---- the matcher ----

  /** What a pattern means: `*` stands for any text, every other character for itself. */
  ghost predicate Matches(pat: string, text: string)
    decreases |pat| + |text|
  {
    if pat == [] then text == []
    else if pat[0] == '*' then Matches(pat[1..], text) || (text != [] && Matches(pat, text[1..]))
    else text != [] && text[0] == pat[0] && Matches(pat[1..], text[1..])
  }

  ghost predicate NoStar(s: string) {
    forall k | 0 <= k < |s| :: s[k] != '*'
  }

  /** A pattern that starts with a star matches exactly when the rest matches some suffix. */
  lemma {:induction false} StarMatchesSuffix(pat: string, text: string)
    requires pat != [] && pat[0] == '*'
    ensures Matches(pat, text) <==> exists k :: 0 <= k <= |text| && Matches(pat[1..], text[k..])
    decreases |text|
  {
    assert text[0..] == text;
    if text != [] {
      StarMatchesSuffix(pat, text[1..]);
      forall k | 0 <= k <= |text| - 1
        ensures text[1..][k..] == text[k + 1..]
      {
      }
      if Matches(pat, text) && !Matches(pat[1..], text) {
        var k :| 0 <= k <= |text[1..]| && Matches(pat[1..], text[1..][k..]);
        assert Matches(pat[1..], text[k + 1..]);
      }
      if exists k :: 0 <= k <= |text| && Matches(pat[1..], text[k..]) {
        var k :| 0 <= k <= |text| && Matches(pat[1..], text[k..]);
        if k > 0 {
          assert Matches(pat[1..], text[1..][k - 1..]);
        }
      }
    }
  }

  /** A star-free prefix of the pattern matches only itself. */
  lemma {:induction false} LiteralPrefix(lit: string, rest: string, text: string)
    requires NoStar(lit)
    ensures Matches(lit + rest, text) <==> lit <= text && Matches(rest, text[|lit|..])
  {
    if lit == [] {
      assert lit + rest == rest && text[0..] == text;
    } else {
      var tail := lit[1..];
      assert (lit + rest)[1..] == tail + rest;
      if text != [] && text[0] == lit[0] {
        LiteralPrefix(tail, rest, text[1..]);
        assert lit == [lit[0]] + tail && text == [text[0]] + text[1..];
        if tail <= text[1..] {
          assert text[1..][|tail|..] == text[|lit|..];
        }
      }
    }
  }

  /** Only stars match nothing. */
  lemma {:induction false} MatchesNothing(pat: string)
    ensures Matches(pat, []) <==> forall k | 0 <= k < |pat| :: pat[k] == '*'
  {
    if pat != [] {
      MatchesNothing(pat[1..]);
      assert forall k | 1 <= k < |pat| :: pat[k] == pat[1..][k - 1];
    }
  }

  /** Restarting at the latest star loses nothing: between two stars the leftmost fit is enough. */
  lemma LaterStarSuffices(lit: string, rest: string, text: string)
    requires NoStar(lit) && lit <= text && rest != [] && rest[0] == '*'
    ensures Matches("*" + lit + rest, text) <==> Matches(rest, text[|lit|..])
  {
    var pat := "*" + lit + rest;
    var n := |lit|;
    assert pat[1..] == lit + rest;
    StarMatchesSuffix(pat, text);
    StarMatchesSuffix(rest, text[n..]);
    if Matches(pat, text) {
      var k :| 0 <= k <= |text| && Matches(lit + rest, text[k..]);
      LiteralPrefix(lit, rest, text[k..]);
      StarMatchesSuffix(rest, text[k..][n..]);
      var m :| 0 <= m <= |text[k..][n..]| && Matches(rest[1..], text[k..][n..][m..]);
      assert text[k..][n..][m..] == text[n..][k + m..];
    }
    if Matches(rest, text[n..]) {
      LiteralPrefix(lit, rest, text);
      assert text[0..] == text;
    }
  }

  /** Once the text is used up with the literal after the star in place, only stars may remain. */
  lemma TextUsedUp(lit: string, rest: string, text: string)
    requires NoStar(lit) && lit == text
    ensures Matches("*" + lit + rest, text) <==> Matches(rest, [])
  {
    var pat := "*" + lit + rest;
    assert pat[1..] == lit + rest;
    StarMatchesSuffix(pat, text);
    if Matches(pat, text) {
      var k :| 0 <= k <= |text| && Matches(lit + rest, text[k..]);
      LiteralPrefix(lit, rest, text[k..]);
      assert text[k..][|lit|..] == [];
    }
    if Matches(rest, []) {
      LiteralPrefix(lit, rest, text);
      assert text[|lit|..] == [] && text[0..] == text;
    }
  }

  /** The literal does not continue here, so the star must take one more character. */
  lemma StarTakesOneMore(lit: string, rest: string, text: string)
    requires NoStar(lit) && lit <= text && |lit| < |text|
    requires rest == [] || (rest[0] != '*' && rest[0] != text[|lit|])
    ensures Matches("*" + lit + rest, text) <==> Matches("*" + lit + rest, text[1..])
  {
    assert ("*" + lit + rest)[1..] == lit + rest;
    LiteralPrefix(lit, rest, text);
  }

  /** The state of the loop: `lit` is what follows the last star and has been found at `starText`. */
  ghost predicate Progress(pat: string, text: string, i: nat, j: nat, star: Option<nat>, starText: nat) {
    && i <= |pat| && starText <= j <= |text|
    && (star.None? ==> (Matches(pat, text) <==> Matches(pat[i..], text[j..])))
    && (star.Some? ==>
          var sp := star.value;
          && sp < i && pat[sp] == '*' && NoStar(pat[sp + 1..i]) && pat[sp + 1..i] == text[starText..j]
          && (Matches(pat, text) <==> Matches(pat[sp..], text[starText..])))
  }

  /** The pattern from the last star on, cut at the current position. */
  lemma CutAtStar(pat: string, text: string, i: nat, j: nat, sp: nat, starText: nat)
    requires sp < i <= |pat| && pat[sp] == '*' && starText <= j <= |text|
    requires pat[sp + 1..i] == text[starText..j]
    ensures pat[sp..] == "*" + pat[sp + 1..i] + pat[i..]
    ensures pat[sp + 1..i] <= text[starText..] && text[starText..][|pat[sp + 1..i]|..] == text[j..]
  {
  }

  /** A new star supersedes the one before it. */
  lemma AtStar(pat: string, text: string, i: nat, j: nat, star: Option<nat>, starText: nat)
    requires Progress(pat, text, i, j, star, starText) && i < |pat| && pat[i] == '*'
    ensures Progress(pat, text, i + 1, j, Some(i), j)
  {
    if star.Some? {
      CutAtStar(pat, text, i, j, star.value, starText);
      LaterStarSuffices(pat[star.value + 1..i], pat[i..], text[starText..]);
    }
    assert pat[i + 1..i + 1] == text[j..j];
  }

  lemma AtEqualCharacter(pat: string, text: string, i: nat, j: nat, star: Option<nat>, starText: nat)
    requires Progress(pat, text, i, j, star, starText) && i < |pat| && j < |text| && pat[i] == text[j] && pat[i] != '*'
    ensures Progress(pat, text, i + 1, j + 1, star, starText)
  {
    if star.Some? {
      assert pat[star.value + 1..i + 1] == pat[star.value + 1..i] + [pat[i]];
      assert text[starText..j + 1] == text[starText..j] + [text[j]];
    } else {
      assert pat[i..][1..] == pat[i + 1..] && text[j..][1..] == text[j + 1..];
    }
  }

  lemma AtMismatch(pat: string, text: string, i: nat, j: nat, star: nat, starText: nat)
    requires Progress(pat, text, i, j, Some(star), starText) && j < |text|
    requires i == |pat| || (pat[i] != '*' && pat[i] != text[j])
    ensures Progress(pat, text, star + 1, starText + 1, Some(star), starText + 1)
  {
    CutAtStar(pat, text, i, j, star, starText);
    StarTakesOneMore(pat[star + 1..i], pat[i..], text[starText..]);
    assert text[starText..][1..] == text[starText + 1..];
    assert pat[star + 1..star + 1] == text[starText + 1..starText + 1];
  }

  lemma AtTextEnd(pat: string, text: string, i: nat, star: Option<nat>, starText: nat)
    requires Progress(pat, text, i, |text|, star, starText)
    ensures Matches(pat, text) <==> forall k | i <= k < |pat| :: pat[k] == '*'
  {
    assert text[|text|..] == [];
    if star.Some? {
      CutAtStar(pat, text, i, |text|, star.value, starText);
      TextUsedUp(pat[star.value + 1..i], pat[i..], text[starText..]);
    }
    MatchesNothing(pat[i..]);
    assert forall k | i <= k < |pat| :: pat[k] == pat[i..][k - i];
    assert forall k | 0 <= k < |pat[i..]| :: pat[i..][k] == pat[k + i];
  }

  lemma AtStart(pat: string, text: string)
    ensures Progress(pat, text, 0, 0, None, 0)
  {
    assert pat[0..] == pat && text[0..] == text;
  }

  lemma AtDeadEnd(pat: string, text: string, i: nat, j: nat, starText: nat)
    requires Progress(pat, text, i, j, None, starText) && j < |text|
    requires i == |pat| || (pat[i] != '*' && pat[i] != text[j])
    ensures !Matches(pat, text)
  {
  }

  method OnlyStarsFrom(pat: string, from: nat) returns (only: bool)
    requires from <= |pat|
    ensures only <==> forall k | from <= k < |pat| :: pat[k] == '*'
  {
    var i := from;
    while i < |pat| && pat[i] == '*'
      invariant from <= i <= |pat| && forall k | from <= k < i :: pat[k] == '*'
    {
      i := i + 1;
    }
    return i == |pat|;
  }

  method GlobMatch(pat: string, text: string) returns (matched: bool)
    ensures matched <==> Matches(pat, text)
  {
    var i: nat, j: nat := 0, 0;
    var star: Option<nat> := None;
    var starText: nat := 0;
    AtStart(pat, text);
    while j < |text|
      invariant Progress(pat, text, i, j, star, starText)
      decreases |text| - starText, |text| - j, |pat| - i
    {
      if i < |pat| && pat[i] == '*' {
        AtStar(pat, text, i, j, star, starText);
        star := Some(i);
        starText := j;
        i := i + 1;
      } else if i < |pat| && pat[i] == text[j] {
        AtEqualCharacter(pat, text, i, j, star, starText);
        i := i + 1;
        j := j + 1;
      } else if star.Some? {
        AtMismatch(pat, text, i, j, star.value, starText);
        i := star.value + 1;
        starText := starText + 1;
        j := starText;
      } else {
        AtDeadEnd(pat, text, i, j, starText);
        return false;
      }
    }
    AtTextEnd(pat, text, i, star, starText);
    matched := OnlyStarsFrom(pat, i);
  }

  /** Without a star the pattern is the text: `Pattern::Exact` is a shortcut, not another meaning. */
  lemma {:induction false} StarFreeIsEquality(pat: string, text: string)
    requires NoStar(pat)
    ensures Matches(pat, text) <==> pat == text
  {
    LiteralPrefix(pat, [], text);
    assert pat + [] == pat;
  }

  // ---- `--limit` ----

  /** `shownAs` is the optional `label` of the entry. */
  datatype HostEntry = HostEntry(host: string, shownAs: Option<string>)

  datatype Pattern = Exact(want: string) | Star(glob: string)

  datatype LimitExpr = LimitExpr(includes: seq<Pattern>, excludes: seq<Pattern>)

  datatype LimitError = EmptyNegation | NoHostMatched | GroupNotFound

  /** The host name or the label fits the pattern. */
  ghost predicate Fits(pattern: string, h: HostEntry) {
    Matches(pattern, h.host) || (h.shownAs.Some? && Matches(pattern, h.shownAs.value))
  }

  /** The trimmed, non-empty entries between commas. */
  function Tokens(pieces: seq<string>): seq<string> {
    if pieces == [] then []
    else
      var before := Tokens(pieces[..|pieces| - 1]);
      var token := Trim(pieces[|pieces| - 1]);
      if token == [] then before else before + [token]
  }

  function LimitTokens(limit: Option<string>): seq<string> {
    if limit.None? then [] else Tokens(Split(Trim(limit.value), ','))
  }

  predicate Negated(token: string) {
    token != [] && token[0] == '!'
  }

  /** The plain entries. */
  function Plain(tokens: seq<string>): seq<string> {
    if tokens == [] then []
    else
      var last := tokens[|tokens| - 1];
      Plain(tokens[..|tokens| - 1]) + (if Negated(last) then [] else [last])
  }

  /** The negated entries, without their mark. */
  function Barred(tokens: seq<string>): seq<string> {
    if tokens == [] then []
    else
      var last := tokens[|tokens| - 1];
      Barred(tokens[..|tokens| - 1]) + (if Negated(last) then [Trim(last[1..])] else [])
  }

  ghost predicate FitsAny(patterns: seq<string>, h: HostEntry) {
    exists k :: 0 <= k < |patterns| && Fits(patterns[k], h)
  }

  /** What a `--limit` selects: everything if it has no entries; otherwise hosts that fit a plain entry (any host
      if there is none) and no negated one. */
  ghost predicate Selected(tokens: seq<string>, h: HostEntry) {
    || tokens == []
    || ((Plain(tokens) == [] || FitsAny(Plain(tokens), h)) && !FitsAny(Barred(tokens), h))
  }

  ghost function PatternText(p: Pattern): string {
    match p case Exact(want) => want case Star(glob) => glob
  }

  ghost predicate WellFormed(p: Pattern) {
    p.Exact? ==> NoStar(p.want)
  }

  method FromToken(s: string) returns (p: Pattern)
    ensures WellFormed(p) && PatternText(p) == s
  {
    if '*' in s {
      return Star(s);
    }
    return Exact(s);
  }

  method MatchesHost(p: Pattern, h: HostEntry) returns (b: bool)
    requires WellFormed(p)
    ensures b <==> Fits(PatternText(p), h)
  {
    match p
    case Exact(want) =>
      StarFreeIsEquality(want, h.host);
      if h.shownAs.Some? {
        StarFreeIsEquality(want, h.shownAs.value);
      }
      return h.host == want || h.shownAs == Some(want);
    case Star(glob) =>
      b := GlobMatch(glob, h.host);
      if !b && h.shownAs.Some? {
        b := GlobMatch(glob, h.shownAs.value);
      }
  }

  /** `ps` are the patterns of `texts`, with `Exact` used only where it means the same. */
  ghost predicate PatternsOf(ps: seq<Pattern>, texts: seq<string>) {
    |ps| == |texts| && forall k | 0 <= k < |ps| :: WellFormed(ps[k]) && PatternText(ps[k]) == texts[k]
  }

  method AnyMatches(ps: seq<Pattern>, h: HostEntry, ghost texts: seq<string>) returns (b: bool)
    requires PatternsOf(ps, texts)
    ensures b <==> FitsAny(texts, h)
  {
    for k := 0 to |ps|
      invariant forall j | 0 <= j < k :: !Fits(texts[j], h)
    {
      var hit := MatchesHost(ps[k], h);
      if hit {
        return true;
      }
    }
    return false;
  }

  /** The parsed expression: the entries of `tokens`, or `*` for the plain ones if there are only negated ones. */
  ghost predicate Parsed(e: LimitExpr, tokens: seq<string>) {
    && PatternsOf(e.includes, if Plain(tokens) == [] && Barred(tokens) != [] then ["*"] else Plain(tokens))
    && PatternsOf(e.excludes, Barred(tokens))
  }

  lemma {:induction false} EveryTokenCounts(tokens: seq<string>)
    ensures |Plain(tokens)| + |Barred(tokens)| == |tokens|
  {
    if tokens != [] {
      EveryTokenCounts(tokens[..|tokens| - 1]);
    }
  }

  lemma StarFitsAll(h: HostEntry)
    ensures Fits("*", h)
  {
    StarMatchesSuffix("*", h.host);
    assert h.host[|h.host|..] == [] && "*"[1..] == [];
    assert Matches("*"[1..], h.host[|h.host|..]);
  }

  method LimitMatches(e: LimitExpr, h: HostEntry, ghost tokens: seq<string>) returns (b: bool)
    requires Parsed(e, tokens)
    ensures b <==> Selected(tokens, h)
  {
    EveryTokenCounts(tokens);
    if e.includes == [] && e.excludes == [] {
      return true;
    }
    ghost var plain := if Plain(tokens) == [] && Barred(tokens) != [] then ["*"] else Plain(tokens);
    if plain == ["*"] {
      StarFitsAll(h);
      assert Fits(plain[0], h);
    }
    var included := AnyMatches(e.includes, h, plain);
    if !included {
      return false;
    }
    var excluded := AnyMatches(e.excludes, h, Barred(tokens));
    return !excluded;
  }

  lemma TokensStep(pieces: seq<string>, k: nat, tokens: seq<string>)
    requires k < |pieces| && tokens == Tokens(pieces[..k])
    ensures
      var token := Trim(pieces[k]);
      Tokens(pieces[..k + 1]) == (if token == [] then tokens else tokens + [token])
  {
    assert pieces[..k + 1][..k] == pieces[..k];
  }

  /** The patterns of the plain and of the negated entries, unless a `!` has nothing after it. */
  method ReadEntries(pieces: seq<string>) returns (r: Result<LimitExpr, LimitError>)
    ensures r.Err? ==> r.error == EmptyNegation && [] in Barred(Tokens(pieces))
    ensures r.Ok? ==>
              && [] !in Barred(Tokens(pieces))
              && PatternsOf(r.value.includes, Plain(Tokens(pieces)))
              && PatternsOf(r.value.excludes, Barred(Tokens(pieces)))
  {
    var e := LimitExpr([], []);
    for k := 0 to |pieces|
      invariant ReadSoFar(e, Tokens(pieces[..k]))
    {
      var token := Trim(pieces[k]);
      TokensStep(pieces, k, Tokens(pieces[..k]));
      if token == [] {
        continue;
      }
      var read := ReadEntry(token, e, Tokens(pieces[..k]));
      if read.None? {
        EmptyNegationStays(pieces, k + 1);
        return Err(EmptyNegation);
      }
      e := read.value;
    }
    assert pieces[..|pieces|] == pieces;
    return Ok(e);
  }

  ghost predicate ReadSoFar(e: LimitExpr, tokens: seq<string>) {
    && [] !in Barred(tokens)
    && PatternsOf(e.includes, Plain(tokens))
    && PatternsOf(e.excludes, Barred(tokens))
  }

  lemma EntryAdded(before: seq<string>, token: string)
    ensures Plain(before + [token]) == Plain(before) + (if Negated(token) then [] else [token])
    ensures Barred(before + [token]) == Barred(before) + (if Negated(token) then [Trim(token[1..])] else [])
  {
    assert (before + [token])[..|before|] == before;
  }

  lemma PatternAdded(ps: seq<Pattern>, texts: seq<string>, p: Pattern, text: string)
    requires PatternsOf(ps, texts) && WellFormed(p) && PatternText(p) == text
    ensures PatternsOf(ps + [p], texts + [text])
  {
  }

  /** One entry joins the inclusions or the exclusions. */
  method ReadEntry(token: string, e: LimitExpr, ghost before: seq<string>) returns (r: Option<LimitExpr>)
    requires token != [] && ReadSoFar(e, before)
    ensures r.None? ==> [] in Barred(before + [token])
    ensures r.Some? ==> ReadSoFar(r.value, before + [token])
  {
    EntryAdded(before, token);
    if token[0] == '!' {
      var rest := Trim(token[1..]);
      if rest == [] {
        return None;
      }
      var p := FromToken(rest);
      PatternAdded(e.excludes, Barred(before), p, rest);
      return Some(e.(excludes := e.excludes + [p]));
    }
    var p := FromToken(token);
    PatternAdded(e.includes, Plain(before), p, token);
    return Some(e.(includes := e.includes + [p]));
  }

  /** Fails exactly on a `!` with nothing after it; otherwise the expression holds the entries. */
  method ParseLimit(limit: Option<string>) returns (r: Result<LimitExpr, LimitError>)
    ensures r.Err? <==> [] in Barred(LimitTokens(limit))
    ensures r.Err? ==> r.error == EmptyNegation
    ensures r.Ok? ==> Parsed(r.value, LimitTokens(limit))
  {
    if limit.None? {
      return Ok(LimitExpr([], []));
    }
    if Trim(limit.value) == [] {
      var blank: seq<string> := [""];
      assert blank[..|blank| - 1] == [] && Tokens(blank) == [];
      return Ok(LimitExpr([], []));
    }
    r := ReadEntries(Split(Trim(limit.value), ','));
    // no inclusion pattern means everything
    if r.Ok? && r.value.includes == [] && r.value.excludes != [] {
      r := Ok(r.value.(includes := [Star("*")]));
    }
  }

  lemma {:induction false} EmptyNegationStays(pieces: seq<string>, k: nat)
    requires k <= |pieces| && [] in Barred(Tokens(pieces[..k]))
    ensures [] in Barred(Tokens(pieces))
    decreases |pieces|
  {
    if k < |pieces| {
      var shorter := pieces[..|pieces| - 1];
      assert shorter[..k] == pieces[..k];
      EmptyNegationStays(shorter, k);
      var token := Trim(pieces[|pieces| - 1]);
      assert (Tokens(shorter) + [token])[..|Tokens(shorter)|] == Tokens(shorter);
    } else {
      assert pieces[..k] == pieces;
    }
  }

  /** The hosts of a group that the tokens select, in order. */
  ghost function SelectedHosts(hosts: seq<HostEntry>, tokens: seq<string>): seq<HostEntry> {
    KeepWhere(hosts, SelectedBy(tokens))
  }

  ghost function SelectedBy(tokens: seq<string>): HostEntry -> bool {
    h => Selected(tokens, h)
  }

  method SelectHosts(hosts: seq<HostEntry>, e: LimitExpr, ghost tokens: seq<string>) returns (out: seq<HostEntry>)
    requires Parsed(e, tokens)
    ensures out == SelectedHosts(hosts, tokens)
  {
    out := [];
    for k := 0 to |hosts|
      invariant out == SelectedHosts(hosts[..k], tokens)
    {
      KeepNext(hosts, SelectedBy(tokens), k);
      var hit := LimitMatches(e, hosts[k], tokens);
      if hit {
        out := out + [hosts[k]];
      }
    }
    assert hosts[..|hosts|] == hosts;
  }

  /** Resolve a group: the selected hosts in inventory order, or the reason there are none. */
  method Resolve(groups: map<string, seq<HostEntry>>, group: string, limit: Option<string>)
    returns (r: Result<seq<HostEntry>, LimitError>)
    ensures group !in groups <==> r == Err(GroupNotFound)
    ensures r.Ok? ==> group in groups && r.value == SelectedHosts(groups[group], LimitTokens(limit))
    ensures r == Err(NoHostMatched) ==> limit.Some? && SelectedHosts(groups[group], LimitTokens(limit)) == []
    ensures group in groups ==> (r == Err(EmptyNegation) <==> [] in Barred(LimitTokens(limit)))
    ensures r == Ok([]) ==> limit.None?
  {
    if group !in groups {
      return Err(GroupNotFound);
    }
    var hosts := groups[group];
    var expr := ParseLimit(limit);
    if expr.Err? {
      return Err(expr.error);
    }
    var out := SelectHosts(hosts, expr.value, LimitTokens(limit));
    if limit.Some? && out == [] {
      return Err(NoHostMatched);
    }
    return Ok(out);
  }

  ghost predicate CommasAndBlanks(s: string) {
    forall i | 0 <= i < |s| :: s[i] == ',' || IsSpace(s[i])
  }

  lemma {:induction false} TrimStartCuts(s: string)
    ensures CommasAndBlanks(TrimStart(s)) <==> CommasAndBlanks(s)
    ensures Blank(TrimStart(s)) <==> Blank(s)
  {
    if s != [] && IsSpace(s[0]) {
      TrimStartCuts(s[1..]);
      assert s == [s[0]] + s[1..];
    }
  }

  lemma {:induction false} TrimEndCuts(s: string)
    ensures CommasAndBlanks(TrimEnd(s)) <==> CommasAndBlanks(s)
    ensures TrimEnd(s) == [] <==> Blank(s)
  {
    if s != [] && IsSpace(s[|s| - 1]) {
      TrimEndCuts(s[..|s| - 1]);
      assert s == s[..|s| - 1] + [s[|s| - 1]];
    }
  }

  /** Trimming cuts blanks only, and everything exactly when there is nothing else. */
  lemma TrimCuts(s: string)
    ensures CommasAndBlanks(Trim(s)) <==> CommasAndBlanks(s)
    ensures Trim(s) == [] <==> Blank(s)
  {
    TrimStartCuts(s);
    TrimEndCuts(TrimStart(s));
  }

  ghost predicate AllBlank(pieces: seq<string>) {
    forall piece | piece in pieces :: Blank(piece)
  }

  lemma {:induction false} PiecesBlank(s: string)
    ensures AllBlank(Split(s, ',')) <==> CommasAndBlanks(s)
  {
    if s != [] {
      PiecesBlank(s[1..]);
      var rest := Split(s[1..], ',');
      assert s == [s[0]] + s[1..] && rest == [rest[0]] + rest[1..];
      BlankCons(s[0], rest[0]);
      AllBlankCons(rest[0], rest[1..]);
      AllBlankCons([s[0]] + rest[0], rest[1..]);
      AllBlankCons([], rest);
      assert CommasAndBlanks(s) <==> (s[0] == ',' || IsSpace(s[0])) && CommasAndBlanks(s[1..]);
    }
  }

  lemma BlankCons(c: char, s: string)
    ensures Blank([c] + s) <==> IsSpace(c) && Blank(s)
  {
    assert ([c] + s)[0] == c && ([c] + s)[1..] == s;
    assert forall i | 0 <= i < |s| :: s[i] == ([c] + s)[i + 1];
  }

  lemma AllBlankCons(piece: string, rest: seq<string>)
    ensures AllBlank([piece] + rest) <==> Blank(piece) && AllBlank(rest)
  {
    assert forall p :: p in [piece] + rest <==> p == piece || p in rest;
  }

  lemma {:induction false} NoTokensIffBlank(pieces: seq<string>)
    ensures Tokens(pieces) == [] <==> AllBlank(pieces)
  {
    if pieces != [] {
      var last := |pieces| - 1;
      NoTokensIffBlank(pieces[..last]);
      TrimCuts(pieces[last]);
      assert pieces == pieces[..last] + [pieces[last]];
    }
  }

  // ---- what a limit selects, in terms of its text ----

  /** An entry as it is meant: not blank, without blanks around it and without a comma. */
  ghost predicate ProperEntry(entry: string) {
    entry != [] && !IsSpace(entry[0]) && !IsSpace(entry[|entry| - 1]) && ',' !in entry
  }

  lemma {:induction false} ProperJoin(entries: seq<string>)
    requires entries != [] && forall e | e in entries :: ProperEntry(e)
    ensures
      var text := Join(entries, ',');
      text != [] && !IsSpace(text[0]) && !IsSpace(text[|text| - 1])
  {
    assert ProperEntry(entries[0]);
    if |entries| > 1 {
      var rest := Join(entries[1..], ',');
      ProperJoin(entries[1..]);
      var text := entries[0] + [','] + rest;
      assert text[0] == entries[0][0] && text[|text| - 1] == rest[|rest| - 1];
    }
  }

  lemma {:induction false} ProperTokens(entries: seq<string>)
    requires forall e | e in entries :: ProperEntry(e)
    ensures Tokens(entries) == entries
  {
    if entries != [] {
      var last := |entries| - 1;
      ProperTokens(entries[..last]);
      assert ProperEntry(entries[last]) && entries == entries[..last] + [entries[last]];
    }
  }

  /** Entries between commas are read as they are written. */
  lemma EntriesAreRead(entries: seq<string>)
    requires entries != [] && forall e | e in entries :: ProperEntry(e)
    ensures LimitTokens(Some(Join(entries, ','))) == entries
  {
    ProperJoin(entries);
    JoinThenSplit(entries, ',');
    ProperTokens(entries);
  }

  lemma {:induction false} PlainExactly(tokens: seq<string>, p: string)
    requires forall t | t in tokens :: t != []
    ensures p in Plain(tokens) <==> p in tokens && !("!" <= p)
  {
    if tokens != [] {
      var last := |tokens| - 1;
      assert forall t | t in tokens[..last] :: t in tokens;
      PlainExactly(tokens[..last], p);
      assert tokens == tokens[..last] + [tokens[last]];
    }
  }

  lemma {:induction false} BarredExactly(tokens: seq<string>, p: string)
    requires forall t | t in tokens :: t != []
    ensures p in Barred(tokens) <==> exists t :: t in tokens && "!" <= t && p == Trim(t[1..])
  {
    if tokens != [] {
      var last := |tokens| - 1;
      assert forall t | t in tokens[..last] :: t in tokens;
      BarredExactly(tokens[..last], p);
      assert tokens == tokens[..last] + [tokens[last]];
    }
  }

  /** The pattern matches the host's name, or its label if it has one. */
  ghost predicate Hits(pattern: string, h: HostEntry) {
    Matches(pattern, h.host) || (h.shownAs.Some? && Matches(pattern, h.shownAs.value))
  }

  /** A host is selected exactly when some entry without `!` hits it, or there is none, and what follows the `!` of no
      other entry does. */
  lemma SelectedExactly(entries: seq<string>, h: HostEntry)
    requires entries != [] && forall e | e in entries :: ProperEntry(e)
    ensures Selected(LimitTokens(Some(Join(entries, ','))), h) <==>
            && ((forall e | e in entries :: "!" <= e) || exists e :: e in entries && !("!" <= e) && Hits(e, h))
            && !exists e :: e in entries && "!" <= e && Hits(Trim(e[1..]), h)
  {
    EntriesAreRead(entries);
    forall e | e in entries
      ensures e != []
    {
      assert ProperEntry(e);
    }
    PlainHits(entries, h);
    BarredHits(entries, h);
  }

  lemma PlainHits(tokens: seq<string>, h: HostEntry)
    requires forall t | t in tokens :: t != []
    ensures Plain(tokens) == [] <==> forall e | e in tokens :: "!" <= e
    ensures FitsAny(Plain(tokens), h) <==> exists e :: e in tokens && !("!" <= e) && Hits(e, h)
  {
    forall p
      ensures p in Plain(tokens) <==> p in tokens && !("!" <= p)
    {
      PlainExactly(tokens, p);
    }
    if Plain(tokens) != [] {
      assert Plain(tokens)[0] in Plain(tokens);
    }
    if FitsAny(Plain(tokens), h) {
      var k :| 0 <= k < |Plain(tokens)| && Fits(Plain(tokens)[k], h);
      assert Plain(tokens)[k] in Plain(tokens) && Hits(Plain(tokens)[k], h);
    }
    if e :| e in tokens && !("!" <= e) && Hits(e, h) {
      assert e in Plain(tokens) && Fits(e, h);
    }
  }

  lemma BarredHits(tokens: seq<string>, h: HostEntry)
    requires forall t | t in tokens :: t != []
    ensures FitsAny(Barred(tokens), h) <==> exists e :: e in tokens && "!" <= e && Hits(Trim(e[1..]), h)
  {
    if FitsAny(Barred(tokens), h) {
      var k :| 0 <= k < |Barred(tokens)| && Fits(Barred(tokens)[k], h);
      BarredExactly(tokens, Barred(tokens)[k]);
    }
    if e :| e in tokens && "!" <= e && Hits(Trim(e[1..]), h) {
      BarredExactly(tokens, Trim(e[1..]));
      assert Fits(Trim(e[1..]), h);
    }
  }

  /** The text `a,!b` selects the hosts that `a` hits and `b` does not. */
  lemma OneButNotTheOther(a: string, b: string, h: HostEntry)
    requires ProperEntry(a) && !("!" <= a) && ProperEntry(b)
    ensures Selected(LimitTokens(Some(a + ",!" + b)), h) <==> Hits(a, h) && !Hits(b, h)
  {
    var barred := ['!'] + b;
    var entries := [a, barred];
    assert barred[1..] == b && ProperEntry(barred) && entries[1..] == [barred];
    assert Join(entries, ',') == a + [','] + barred == a + ",!" + b;
    assert TrimStart(b) == b && Trim(b) == b;
    SelectedExactly(entries, h);
    assert a in entries && barred in entries;
  }

  /** The hosts selected are, in order, exactly those of the group that are. */
  lemma SelectedHostsExactly(hosts: seq<HostEntry>, tokens: seq<string>) returns (which: seq<nat>)
    ensures forall i, j | 0 <= i < j < |which| :: which[i] < which[j]
    ensures forall k: nat :: k in which <==> k < |hosts| && Selected(tokens, hosts[k])
    ensures Picks(SelectedHosts(hosts, tokens), hosts, which)
  {
    which := KeepWhereExactly(hosts, SelectedBy(tokens), |hosts|);
    assert hosts[..|hosts|] == hosts;
  }

  // ---- limits without entries ----

  /** A limit has no entries exactly when it consists of commas and blanks. */
  lemma NoEntriesIffCommasAndBlanks(limit: string)
    ensures LimitTokens(Some(limit)) == [] <==> CommasAndBlanks(limit)
  {
    TrimCuts(limit);
    PiecesBlank(Trim(limit));
    NoTokensIffBlank(Split(Trim(limit), ','));
  }

  /** Such a limit selects every host, like no limit at all. */
  lemma CommasSelectEverything(limit: string, h: HostEntry)
    requires CommasAndBlanks(limit)
    ensures Selected(LimitTokens(Some(limit)), h) && Selected(LimitTokens(None), h)
  {
    NoEntriesIffCommasAndBlanks(limit);
  }

  // ---- the documented star ----

  /** What the comments promise: `*` stands for any text without a comma. */
  ghost predicate DocMatches(pat: string, text: string)
    decreases |pat| + |text|
  {
    if pat == [] then text == []
    else if pat[0] == '*' then
      DocMatches(pat[1..], text) || (text != [] && text[0] != ',' && DocMatches(pat, text[1..]))
    else text != [] && text[0] == pat[0] && DocMatches(pat[1..], text[1..])
  }

  /** Patterns of a limit hold no comma. For those, the documented meaning is the actual one less all texts with a
      comma. */
  lemma {:induction false} DocumentedStar(pat: string, text: string)
    requires ',' !in pat
    ensures DocMatches(pat, text) <==> Matches(pat, text) && ',' !in text
    decreases |pat| + |text|
  {
    if text != [] {
      assert text == [text[0]] + text[1..];
    }
    if pat != [] {
      assert pat == [pat[0]] + pat[1..];
      if pat[0] == '*' {
        DocumentedStar(pat[1..], text);
        if text != [] {
          DocumentedStar(pat, text[1..]);
        }
      } else if text != [] && text[0] == pat[0] {
        DocumentedStar(pat[1..], text[1..]);
      }
    }
  }

  /** Without a comma in the text both meanings agree, whatever the pattern. */
  lemma {:induction false} NoCommaNoDifference(pat: string, text: string)
    requires ',' !in text
    ensures DocMatches(pat, text) <==> Matches(pat, text)
    decreases |pat| + |text|
  {
    if text != [] {
      assert text == [text[0]] + text[1..];
    }
    if pat != [] {
      if pat[0] == '*' {
        NoCommaNoDifference(pat[1..], text);
        if text != [] {
          NoCommaNoDifference(pat, text[1..]);
        }
      } else if text != [] {
        NoCommaNoDifference(pat[1..], text[1..]);
      }
    }
  }

  /** The code and its comments agree on every pattern exactly when the host name or label holds no comma; on one that
      does, the pattern `*` tells them apart. */
  lemma CommaTellsApart(text: string)
    ensures (forall pat :: Matches(pat, text) <==> DocMatches(pat, text)) <==> ',' !in text
    ensures ',' in text ==> Matches("*", text) && !DocMatches("*", text)
  {
    if ',' in text {
      StarFitsAll(HostEntry(text, None));
      DocumentedStar("*", text);
    } else {
      forall pat
        ensures Matches(pat, text) <==> DocMatches(pat, text)
      {
        NoCommaNoDifference(pat, text);
      }
    }
  }

  lemma {:induction false} PiecesHoldNoComma(s: string)
    ensures forall piece | piece in Split(s, ',') :: ',' !in piece
  {
    if s != [] {
      PiecesHoldNoComma(s[1..]);
      var rest := Split(s[1..], ',');
      assert rest == [rest[0]] + rest[1..];
    }
  }

  lemma {:induction false} TrimStartAddsNothing(s: string)
    ensures forall c | c in TrimStart(s) :: c in s
  {
    if s != [] && IsSpace(s[0]) {
      TrimStartAddsNothing(s[1..]);
    }
  }

  lemma {:induction false} TrimEndAddsNothing(s: string)
    ensures forall c | c in TrimEnd(s) :: c in s
  {
    if s != [] && IsSpace(s[|s| - 1]) {
      TrimEndAddsNothing(s[..|s| - 1]);
    }
  }

  lemma TrimAddsNothing(s: string)
    ensures forall c | c in Trim(s) :: c in s
  {
    TrimStartAddsNothing(s);
    TrimEndAddsNothing(TrimStart(s));
  }

  lemma {:induction false} EntriesHoldNoComma(pieces: seq<string>)
    requires forall piece | piece in pieces :: ',' !in piece
    ensures forall token | token in Tokens(pieces) :: ',' !in token
    ensures forall p | p in Plain(Tokens(pieces)) :: ',' !in p
    ensures forall p | p in Barred(Tokens(pieces)) :: ',' !in p
  {
    if pieces != [] {
      var last := |pieces| - 1;
      var before, token := Tokens(pieces[..last]), Trim(pieces[last]);
      EntriesHoldNoComma(pieces[..last]);
      TrimAddsNothing(pieces[last]);
      EntryAdded(before, token);
      assert ',' !in token;
      if token != [] {
        TrimAddsNothing(token[1..]);
        assert ',' !in token[1..] && ',' !in Trim(token[1..]);
      }
    }
  }

  /** No pattern of a limit holds a comma, so `DocumentedStar` speaks of all of them. */
  lemma LimitPatternsHoldNoComma(limit: Option<string>)
    ensures forall p | p in Plain(LimitTokens(limit)) + Barred(LimitTokens(limit)) :: ',' !in p
  {
    if limit.Some? {
      PiecesHoldNoComma(Trim(limit.value));
      EntriesHoldNoComma(Split(Trim(limit.value), ','));
    }
  }
}
