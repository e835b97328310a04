/** The few string operations of the Rust standard library that the models call. */
module Strings {
  import opened Common

  /** Unicode `White_Space`, what `str::trim` removes. */
  predicate IsSpace(c: char) {
    var n := c as int;
    || 9 <= n <= 13 || n == 0x20 || n == 0x85 || n == 0xA0 || n == 0x1680 || 0x2000 <= n <= 0x200A
    || n == 0x2028 || n == 0x2029 || n == 0x202F || n == 0x205F || n == 0x3000
  }

  function TrimStart(s: string): (r: string)
    ensures |r| <= |s|
  {
    if s != [] && IsSpace(s[0]) then TrimStart(s[1..]) else s
  }

  function TrimEnd(s: string): (r: string)
    ensures |r| <= |s|
  {
    if s != [] && IsSpace(s[|s| - 1]) then TrimEnd(s[..|s| - 1]) else s
  }

  function Trim(s: string): (r: string)
    ensures |r| <= |s|
  {
    TrimEnd(TrimStart(s))
  }

  lemma {:induction false} TrimStartExactly(s: string) returns (k: nat)
    ensures k <= |s| && TrimStart(s) == s[k..] && Blank(s[..k])
    ensures k < |s| ==> !IsSpace(s[k])
  {
    if s != [] && IsSpace(s[0]) {
      k := TrimStartExactly(s[1..]);
      k := k + 1;
      assert s[..k] == [s[0]] + s[1..][..k - 1] && s[k..] == s[1..][k - 1..];
    } else {
      k := 0;
    }
  }

  lemma BlankSnoc(s: string, k: nat)
    requires k < |s| && Blank(s[..|s| - 1][k..]) && IsSpace(s[|s| - 1])
    ensures Blank(s[k..])
  {
    var before := s[..|s| - 1];
    forall i | 0 <= i < |s[k..]|
      ensures IsSpace(s[k..][i])
    {
      if k + i < |before| {
        assert before[k..][i] == s[k..][i];
      }
    }
  }

  lemma {:induction false} TrimEndExactly(s: string) returns (k: nat)
    ensures k <= |s| && TrimEnd(s) == s[..k] && Blank(s[k..])
    ensures k > 0 ==> !IsSpace(s[k - 1])
  {
    if s != [] && IsSpace(s[|s| - 1]) {
      var before := s[..|s| - 1];
      k := TrimEndExactly(before);
      BlankSnoc(s, k);
      assert s[..k] == before[..k];
    } else {
      k := |s|;
      assert s[..k] == s;
    }
  }

  /** Trimming cuts blanks at both ends, and all of them. */
  lemma TrimExactly(s: string) returns (left: string, right: string)
    ensures s == left + Trim(s) + right && Blank(left) && Blank(right)
    ensures Trim(s) == [] || (!IsSpace(Trim(s)[0]) && !IsSpace(Trim(s)[|Trim(s)| - 1]))
  {
    var k := TrimStartExactly(s);
    var t := TrimStart(s);
    var m := TrimEndExactly(t);
    left, right := s[..k], t[m..];
    assert t == t[..m] + right && s == left + t;
  }

  /** A string that trimming leaves alone. */
  predicate Trimmed(s: string) {
    s == [] || (!IsSpace(s[0]) && !IsSpace(s[|s| - 1]))
  }

  predicate Blank(s: string) {
    forall i | 0 <= i < |s| :: IsSpace(s[i])
  }

  /** `str::split` on one character: always at least one piece. */
  function Split(s: string, sep: char): (pieces: seq<string>)
    ensures |pieces| >= 1
  {
    if s == [] then [[]]
    else
      var rest := Split(s[1..], sep);
      if s[0] == sep then [[]] + rest else [[s[0]] + rest[0]] + rest[1..]
  }

  function Join(pieces: seq<string>, sep: char): string {
    if pieces == [] then []
    else if |pieces| == 1 then pieces[0]
    else pieces[0] + [sep] + Join(pieces[1..], sep)
  }

  /** The pieces hold no separator and, joined by it, are the string. */
  lemma {:induction false} SplitExactly(s: string, sep: char)
    ensures Join(Split(s, sep), sep) == s
    ensures forall piece | piece in Split(s, sep) :: sep !in piece
  {
    if s != [] {
      var rest := Split(s[1..], sep);
      SplitExactly(s[1..], sep);
      assert rest == [rest[0]] + rest[1..] && s == [s[0]] + s[1..];
      if s[0] == sep {
        assert ([[]] + rest)[1..] == rest;
      } else {
        JoinHead([s[0]], rest, sep);
      }
    }
  }

  lemma JoinHead(more: string, pieces: seq<string>, sep: char)
    requires pieces != []
    ensures Join([more + pieces[0]] + pieces[1..], sep) == more + Join(pieces, sep)
  {
    var grown := [more + pieces[0]] + pieces[1..];
    assert grown[1..] == pieces[1..];
    if |pieces| == 1 {
      assert grown == [more + pieces[0]];
    } else {
      assert more + pieces[0] + [sep] + Join(pieces[1..], sep) == more + (pieces[0] + [sep] + Join(pieces[1..], sep));
    }
  }

  lemma {:induction false} SplitAfter(a: string, s: string, sep: char)
    requires sep !in a
    ensures Split(a + s, sep) == [a + Split(s, sep)[0]] + Split(s, sep)[1..]
  {
    var r := Split(s, sep);
    if a == [] {
      assert a + s == s && a + r[0] == r[0];
    } else {
      assert (a + s)[1..] == a[1..] + s;
      SplitAfter(a[1..], s, sep);
      var rest := Split(a[1..] + s, sep);
      assert rest[0] == a[1..] + r[0] && rest[1..] == r[1..];
      assert [a[0]] + (a[1..] + r[0]) == a + r[0];
    }
  }

  /** And any such pieces come back. */
  lemma {:induction false} JoinThenSplit(pieces: seq<string>, sep: char)
    requires pieces != [] && forall piece | piece in pieces :: sep !in piece
    ensures Split(Join(pieces, sep), sep) == pieces
  {
    if |pieces| == 1 {
      SplitAfter(pieces[0], [], sep);
      assert pieces[0] + [] == pieces[0];
    } else {
      var rest := pieces[1..];
      JoinThenSplit(rest, sep);
      var tail := [sep] + Join(rest, sep);
      assert tail[1..] == Join(rest, sep) && Split(tail, sep) == [[]] + rest;
      SplitAfter(pieces[0], tail, sep);
      assert pieces[0] + [sep] + Join(rest, sep) == pieces[0] + tail;
      assert pieces == [pieces[0]] + rest && pieces[0] + [] == pieces[0];
    }
  }

  /** Decimal digits of `n`, as `format!("{n}")` prints them. */
  function Decimal(n: nat): (s: string)
    ensures |s| > 0
  {
    if n < 10 then [Digit(n)] else Decimal(n / 10) + [Digit(n % 10)]
  }

  function Digit(d: nat): char
    requires d < 10
  {
    '0' + d as char
  }

  /** One digit at a time, in base ten. */
  lemma DecimalExactly(n: nat, d: nat)
    requires d < 10
    ensures Decimal(d) == ["0123456789"[d]]
    ensures n > 0 ==> Decimal(10 * n + d) == Decimal(n) + ["0123456789"[d]]
  {
    assert "0123456789"[d] == '0' + d as char;
    assert (10 * n + d) / 10 == n && (10 * n + d) % 10 == d;
  }

  predicate IsDigit(c: char) {
    '0' <= c <= '9'
  }
}
