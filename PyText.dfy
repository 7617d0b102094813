/** The few Python string primitives the timeline builder relies on: `str.isspace`
    (which is also what `\s` matches in a `str` pattern), `str.strip()`, `str.rfind`,
    ASCII case folding, and the ASCII part of the regex classes `\w` and `\d`. */
module PyText {
  import opened Wrappers

  /** Python's whitespace: the characters for which `str.isspace()` holds and which
      `\s` matches in a Unicode pattern. */
  predicate IsSpace(c: char) {
    ('\t' <= c <= '\r') || ('\U{1c}' <= c <= ' ')
    || c == '\U{85}' || c == '\U{a0}' || c == '\U{1680}'
    || ('\U{2000}' <= c <= '\U{200a}')
    || c == '\U{2028}' || c == '\U{2029}' || c == '\U{202f}' || c == '\U{205f}' || c == '\U{3000}'
  }

  /** The regex class `\d`, restricted to ASCII. */
  predicate IsDigit(c: char) {
    '0' <= c <= '9'
  }

  /** The regex class `\w`, restricted to ASCII: letters, digits and the underscore. */
  predicate IsWordChar(c: char) {
    ('a' <= c <= 'z') || ('A' <= c <= 'Z') || IsDigit(c) || c == '_'
  }

  /** Case folding used by `re.IGNORECASE` on ASCII letters; other characters are kept. */
  function Lower(c: char): (r: char)
    ensures IsSpace(r) <==> IsSpace(c)
    ensures r == '\n' <==> c == '\n'
    ensures r == ':' <==> c == ':'
  {
    if 'A' <= c <= 'Z' then (c as int + 32) as char else c
  }

  ghost predicate AllSpace(s: string) {
    forall i :: 0 <= i < |s| ==> IsSpace(s[i])
  }

  /** Length of the longest run of whitespace in `s` that starts at index `i`: what a
      greedy `\s*` consumes there before it backtracks. */
  function SpaceRun(s: string, i: nat): (n: nat)
    requires i <= |s|
    ensures i + n <= |s| && AllSpace(s[i..i + n])
    ensures i + n == |s| || !IsSpace(s[i + n])
    decreases |s| - i
  {
    if i < |s| && IsSpace(s[i]) then
      var n := 1 + SpaceRun(s, i + 1);
      assert forall j :: i + 1 <= j < i + n ==> s[j] == s[i + 1..i + n][j - i - 1];
      assert forall j :: i <= j < i + n ==> s[i..i + n][j - i] == s[j];
      n
    else 0
  }

  /** Drops the leading whitespace of `s`. */
  function TrimStart(s: string): (r: string)
    ensures |r| <= |s| && r == s[|s| - |r|..]
    ensures AllSpace(s[..|s| - |r|])
    ensures r == [] || !IsSpace(r[0])
  {
    if s != [] && IsSpace(s[0]) then
      var r := TrimStart(s[1..]);
      var dropped, rest := s[..|s| - |r|], s[1..|s| - |r|];
      assert s[1..][..|s| - 1 - |r|] == rest;
      assert forall i :: 1 <= i < |dropped| ==> dropped[i] == rest[i - 1];
      r
    else s
  }

  /** Drops the trailing whitespace of `s`. */
  function TrimEnd(s: string): (r: string)
    ensures |r| <= |s| && r == s[..|r|]
    ensures AllSpace(s[|r|..])
    ensures r == [] || !IsSpace(r[|r| - 1])
  {
    if s != [] && IsSpace(s[|s| - 1]) then
      var r := TrimEnd(s[..|s| - 1]);
      assert s[|r|..] == s[..|s| - 1][|r|..] + [s[|s| - 1]];
      assert forall i :: 0 <= i < |s| - 1 - |r| ==> s[|r|..][i] == s[..|s| - 1][|r|..][i];
      r
    else s
  }

  /** Python's `s.strip()`: `s` without its leading and trailing whitespace. */
  function Strip(s: string): (r: string)
    ensures r == [] <==> AllSpace(s)
    ensures r == [] || (!IsSpace(r[0]) && !IsSpace(r[|r| - 1]))
  {
    var t := TrimStart(s);
    var r := TrimEnd(t);
    StripParts(s, t, r);
    r
  }

  /** Stripping adds no character: a text without newlines strips to one without. */
  lemma StripNoNewline(s: string)
    requires '\n' !in s
    ensures '\n' !in Strip(s)
  {
    var t := TrimStart(s);
    assert forall c :: c in t ==> c in s;
    var r := TrimEnd(t);
    assert forall c :: c in r ==> c in t;
  }

  lemma StripParts(s: string, t: string, r: string)
    requires |t| <= |s| && t == s[|s| - |t|..] && AllSpace(s[..|s| - |t|])
    requires t == [] || !IsSpace(t[0])
    requires |r| <= |t| && r == t[..|r|] && AllSpace(t[|r|..])
    requires r == [] || !IsSpace(r[|r| - 1])
    ensures r == [] <==> AllSpace(s)
    ensures r == [] || (!IsSpace(r[0]) && !IsSpace(r[|r| - 1]))
  {
    var i := |s| - |t|;
    if r != [] {
      assert r[0] == t[0];
      assert !IsSpace(s[i]);
    } else {
      assert t == [];
      forall j | 0 <= j < |s| ensures IsSpace(s[j]) {
        assert s[j] == s[..i][j];
      }
    }
  }

  /** `Strip` gives back exactly the text that a whitespace prefix and suffix surround,
      provided that text neither starts nor ends with whitespace. */
  lemma {:induction false} StripExact(a: string, r: string, b: string)
    requires AllSpace(a) && AllSpace(b)
    requires r == [] || (!IsSpace(r[0]) && !IsSpace(r[|r| - 1]))
    ensures Strip(a + r + b) == r
  {
    if r == [] {
      assert a + r + b == a + b;
      assert AllSpace(a + b) by {
        forall j | 0 <= j < |a + b| ensures IsSpace((a + b)[j]) {
          if j >= |a| { assert (a + b)[j] == b[j - |a|]; }
        }
      }
    } else {
      assert a + r + b == a + (r + b);
      TrimStartPrefix(a, r + b);
      TrimEndSuffix(r, b);
    }
  }

  lemma {:induction false} TrimStartPrefix(a: string, t: string)
    requires AllSpace(a)
    requires t != [] && !IsSpace(t[0])
    ensures TrimStart(a + t) == t
  {
    if a == [] {
      assert a + t == t;
    } else {
      assert (a + t)[1..] == a[1..] + t;
      TrimStartPrefix(a[1..], t);
    }
  }

  lemma {:induction false} TrimEndSuffix(r: string, b: string)
    requires AllSpace(b)
    requires r != [] && !IsSpace(r[|r| - 1])
    ensures TrimEnd(r + b) == r
  {
    if b == [] {
      assert r + b == r;
    } else {
      assert (r + b)[..|r + b| - 1] == r + b[..|b| - 1];
      TrimEndSuffix(r, b[..|b| - 1]);
    }
  }

  /** Stripping twice is stripping once. */
  lemma StripIdempotent(s: string)
    ensures Strip(Strip(s)) == Strip(s)
  {
    StripExact([], Strip(s), []);
    assert [] + Strip(s) + [] == Strip(s);
  }

  /** Python's `s.rfind(c)`: the last index holding `c`, or `None` for `-1`. */
  function LastIndexOf(s: string, c: char): (r: Option<nat>)
    ensures r.Some? ==> r.value < |s| && s[r.value] == c && forall j :: r.value < j < |s| ==> s[j] != c
    ensures r.None? <==> c !in s
  {
    if s == [] then None
    else if s[|s| - 1] == c then Some(|s| - 1)
    else
      assert forall j :: 0 <= j < |s| - 1 ==> s[..|s| - 1][j] == s[j];
      LastIndexOf(s[..|s| - 1], c)
  }
}
