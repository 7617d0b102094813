/** Reading one labelled field out of an event block:
    `re.search(r'Event:\s*(.+)', block, re.IGNORECASE)` and its siblings for `Date:` and
    `Category:` (TimelineBuilder.py:112-126), followed by `.group(1).strip()`.
    The search is unanchored: the key may stand anywhere in the block, and `\s*` may
    run across newlines before `.+` takes the rest of a line. */
module FieldSearch {
  import opened Wrappers
  import opened PyText
  import opened Scan

  /** The three labels, lower-cased; the search compares them case-insensitively. */
  const EventLabel: string := "event:"
  const DateLabel: string := "date:"
  const CategoryLabel: string := "category:"

  /** `s` spells `key` at `p`, up to ASCII case, as `re.IGNORECASE` compares. */
  predicate LabelAt(s: string, p: nat, key: string) {
    p + |key| <= |s| && forall i :: 0 <= i < |key| ==> Lower(s[p + i]) == key[i]
  }

  /** The end of the line that index `i` is on: the first newline at or after `i`, or
      the end of `s`; what a greedy `.+` stops at. */
  function LineEnd(s: string, i: nat): (e: nat)
    requires i <= |s|
    ensures i <= e <= |s| && (e == |s| || s[e] == '\n')
    ensures forall j :: i <= j < e ==> s[j] != '\n'
    decreases |s| - i
  {
    if i == |s| || s[i] == '\n' then i else LineEnd(s, i + 1)
  }

  /** Backtracking of a greedy `\s*` that took `k` characters after `q`: the largest
      `k' <= k` after which `.` can match (a character that is not a newline). */
  function BackOff(s: string, q: nat, k: nat): (r: Option<nat>)
    requires q + k <= |s|
    ensures r.Some? ==>
      (r.value <= k && q + r.value < |s| && s[q + r.value] != '\n'
       && forall i :: q + r.value < i <= q + k ==> i == |s| || s[i] == '\n')
    ensures r.None? ==> forall i :: q <= i <= q + k ==> i == |s| || s[i] == '\n'
    decreases k
  {
    if q + k < |s| && s[q + k] != '\n' then Some(k)
    else if k == 0 then None
    else BackOff(s, q, k - 1)
  }

  /** One way for `\s*(.+)` to match at `q`, with the group `s[a..b]`. */
  ghost predicate GroupMatch(s: string, q: nat, a: nat, b: nat) {
    q <= a < b <= |s| && AllSpace(s[q..a]) && forall j :: a <= j < b ==> s[j] != '\n'
  }

  /** The match of `\s*(.+)` at `q`, as the bounds of its group: the greedy `\s*` backs
      off from its longest run to the last place where `.` can start, and the greedy
      `.+` runs to the end of that line. */
  function GroupAt(s: string, q: nat): (g: Option<(nat, nat)>)
    requires q <= |s|
    ensures g.Some? ==> q <= g.value.0 < g.value.1 <= |s|
  {
    match BackOff(s, q, SpaceRun(s, q))
    case None => None
    case Some(k) => Some((q + k, LineEnd(s, q + k)))
  }

  /** Python tries the greedy `\s*` longest first and then the greedy `.+` longest
      first, so `GroupAt` finds a match exactly when there is one, and of all the ways to
      match it takes the group that starts last and, of those, ends last. */
  lemma GroupAtIsMatch(s: string, q: nat)
    requires q <= |s|
    ensures var g := GroupAt(s, q);
      g.Some? ==>
        (GroupMatch(s, q, g.value.0, g.value.1)
         && forall a: nat, b: nat :: GroupMatch(s, q, a, b) ==> a < g.value.0 || (a == g.value.0 && b <= g.value.1))
    ensures GroupAt(s, q).None? ==> forall a: nat, b: nat :: !GroupMatch(s, q, a, b)
  {
    var run := SpaceRun(s, q);
    GroupStartsInRun(s, q, run);
    match BackOff(s, q, run)
    case None =>
    case Some(k) =>
      GroupAtLast(s, q, run, k, LineEnd(s, q + k));
  }

  /** The group that backtracking settles on is a match, and no match starts later or,
      starting at the same place, ends later. */
  lemma GroupAtLast(s: string, q: nat, run: nat, k: nat, e: nat)
    requires q + run <= |s| && run == SpaceRun(s, q)
    requires BackOff(s, q, run) == Some(k) && e == LineEnd(s, q + k)
    ensures GroupMatch(s, q, q + k, e)
    ensures forall a: nat, b: nat :: GroupMatch(s, q, a, b) ==> a < q + k || (a == q + k && b <= e)
  {
    var spaces, lead := s[q..q + run], s[q..q + k];
    assert forall j :: 0 <= j < k ==> lead[j] == spaces[j];
    assert AllSpace(lead);
    assert q + k < e;
    GroupStartsInRun(s, q, run);
    forall a: nat, b: nat | GroupMatch(s, q, a, b) ensures a < q + k || (a == q + k && b <= e) {
      assert a <= q + k;
    }
  }

  /** The group lies on one line. */
  lemma GroupAtOneLine(s: string, q: nat)
    requires q <= |s| && GroupAt(s, q).Some?
    ensures var g := GroupAt(s, q).value; forall j :: g.0 <= j < g.1 ==> s[j] != '\n'
  {
  }

  /** A group can only start inside or right after the whitespace run at `q`, on a
      character that is not a newline. */
  lemma GroupStartsInRun(s: string, q: nat, run: nat)
    requires q + run <= |s| && run == SpaceRun(s, q)
    ensures forall a: nat, b: nat :: GroupMatch(s, q, a, b) ==> a <= q + run && s[a] != '\n'
  {
  }

  /** `key\s*(.+)` matches at `p`. */
  predicate MatchesAt(s: string, p: nat, key: string) {
    LabelAt(s, p, key) && GroupAt(s, p + |key|).Some?
  }

  /** The pattern `key\s*(.+)` as a test on start positions. */
  function Matcher(s: string, key: string): nat -> bool {
    (q: nat) => MatchesAt(s, q, key)
  }

  /** `re.search(key + r'\s*(.+)', s, re.IGNORECASE)`: the leftmost position where the
      pattern matches, if any. */
  function Search(s: string, key: string): (p: Option<nat>)
    ensures p.Some? ==> LabelAt(s, p.value, key) && GroupAt(s, p.value + |key|).Some?
  {
    FirstFrom(|s|, Matcher(s, key), 0)
  }

  /** The search finds the leftmost match, and it finds nothing only when there is none. */
  lemma SearchLeftmost(s: string, key: string)
    ensures var p := Search(s, key);
      p.Some? ==> MatchesAt(s, p.value, key) && forall q :: 0 <= q < p.value ==> !MatchesAt(s, q, key)
    ensures Search(s, key).None? ==> forall q :: 0 <= q <= |s| ==> !MatchesAt(s, q, key)
  {
    FirstFromLeftmost(|s|, Matcher(s, key), 0);
    assert forall q :: Matcher(s, key)(q) == MatchesAt(s, q, key);
  }

  /** `match.group(1)` of the first match, or `None` when the search finds nothing. The
      group is never empty and holds no newline. */
  function FieldGroup(block: string, key: string): (g: Option<string>)
    ensures g.Some? ==> g.value != [] && '\n' !in g.value
  {
    match Search(block, key)
    case None => None
    case Some(p) => GroupText(block, p + |key|)
  }

  /** The text of the group of `\s*(.+)` at `q`, if the pattern matches there: it is
      never empty and lies on one line. */
  function GroupText(s: string, q: nat): (t: Option<string>)
    requires q <= |s|
    ensures t.Some? <==> GroupAt(s, q).Some?
    ensures t.Some? ==> t.value != [] && '\n' !in t.value
  {
    match GroupAt(s, q)
    case None => None
    case Some((a, b)) =>
      GroupAtOneLine(s, q);
      var line := s[a..b];
      assert forall j :: 0 <= j < |line| ==> line[j] == s[a + j];
      Some(line)
  }

  /** The value of a labelled field: the group of the first match, stripped. A value
      holds no newline and neither starts nor ends with whitespace. */
  function FieldValue(block: string, key: string): (v: Option<string>)
    ensures v.Some? ==> '\n' !in v.value
    ensures v.Some? ==> v.value == [] || (!IsSpace(v.value[0]) && !IsSpace(v.value[|v.value| - 1]))
  {
    match FieldGroup(block, key)
    case None => None
    case Some(line) =>
      StripNoNewline(line);
      Some(Strip(line))
  }

  /** A field is missing exactly when the pattern matches nowhere in the block. */
  lemma FieldMissing(block: string, key: string)
    ensures FieldValue(block, key).None? <==> forall q :: 0 <= q <= |block| ==> !MatchesAt(block, q, key)
  {
    SearchLeftmost(block, key);
  }

  /** Only the first place where the label is spelt matters: if the pattern fails
      there, what follows the label is whitespace only, so no later place can match. */
  lemma FirstLabelDecides(s: string, key: string, p: nat)
    requires key != [] && !IsSpace(key[|key| - 1])
    requires LabelAt(s, p, key) && forall q :: 0 <= q < p ==> !LabelAt(s, q, key)
    ensures Search(s, key) == if MatchesAt(s, p, key) then Some(p) else None
  {
    var ok := Matcher(s, key);
    if MatchesAt(s, p, key) {
      assert ok(p);
      FirstFromIs(|s|, ok, 0, p);
    } else {
      var q := p + |key|;
      var run := SpaceRun(s, q);
      assert q + run == |s|;
      forall r | 0 <= r <= |s| ensures !ok(r) {
        if p < r {
          AfterFailedLabel(s, key, q, r);
        }
      }
      FirstFromNone(|s|, ok, 0);
    }
  }

  lemma AfterFailedLabel(s: string, key: string, q: nat, r: nat)
    requires key != [] && !IsSpace(key[|key| - 1])
    requires q <= |s| && q + SpaceRun(s, q) == |s| && q - |key| < r
    ensures !LabelAt(s, r, key)
  {
    var last := r + |key| - 1;
    if last < |s| {
      assert s[q..|s|][last - q] == s[last];
      assert IsSpace(Lower(s[last]));
    }
  }

  /** A field whose label is spelt first at `p`, followed by whitespace (which may hold
      newlines) up to a visible character at `a` that starts the line `s[a..b]`, has
      that line, stripped, as its value. */
  lemma FieldValueOfLine(s: string, key: string, p: nat, a: nat, b: nat)
    requires key != [] && !IsSpace(key[|key| - 1])
    requires LabelAt(s, p, key) && forall q :: 0 <= q < p ==> !LabelAt(s, q, key)
    requires LineAfter(s, p + |key|, a, b)
    ensures FieldValue(s, key) == Some(Strip(s[a..b]))
  {
    FieldGroupOfLine(s, key, p, a, b);
  }

  lemma FieldGroupOfLine(s: string, key: string, p: nat, a: nat, b: nat)
    requires key != [] && !IsSpace(key[|key| - 1])
    requires LabelAt(s, p, key) && forall q :: 0 <= q < p ==> !LabelAt(s, q, key)
    requires LineAfter(s, p + |key|, a, b)
    ensures FieldGroup(s, key) == Some(s[a..b])
  {
    GroupOfLine(s, p + |key|, a, b);
    FirstLabelDecides(s, key, p);
    GroupTextAt(s, p + |key|, a, b);
    FieldGroupFound(s, key, p, s[a..b]);
  }

  lemma FieldGroupFound(s: string, key: string, p: nat, line: string)
    requires Search(s, key) == Some(p) && p + |key| <= |s| && GroupText(s, p + |key|) == Some(line)
    ensures FieldGroup(s, key) == Some(line)
  {
  }

  lemma GroupTextAt(s: string, q: nat, a: nat, b: nat)
    requires q <= |s| && GroupAt(s, q) == Some((a, b))
    ensures GroupText(s, q) == Some(s[a..b])
  {
  }

  /** After the whitespace `s[q..a]`, the text `s[a..b]` is a whole line (or the end of
      one) that starts with a visible character. */
  ghost predicate LineAfter(s: string, q: nat, a: nat, b: nat) {
    q <= a < b <= |s| && AllSpace(s[q..a]) && !IsSpace(s[a])
    && (forall j :: a <= j < b ==> s[j] != '\n') && (b == |s| || s[b] == '\n')
  }

  /** The group of `\s*(.+)` after such whitespace is exactly that line. */
  lemma GroupOfLine(s: string, q: nat, a: nat, b: nat)
    requires LineAfter(s, q, a, b)
    ensures GroupAt(s, q) == Some((a, b))
  {
    assert GroupMatch(s, q, a, b);
    GroupAtIsMatch(s, q);
    var g := GroupAt(s, q).value;
    SpaceInside(s, q, g.0, a);
  }

  lemma SpaceInside(s: string, q: nat, a: nat, i: nat)
    requires q <= a <= |s| && AllSpace(s[q..a])
    ensures q <= i < a ==> IsSpace(s[i])
  {
    if q <= i < a {
      assert s[q..a][i - q] == s[i];
    }
  }

  /** The label is searched anywhere, not only at the start of a line: when the event
      is a "Candidate: ...", the first place that spells `date:` is inside that word,
      so the date field is read from the event line. */
  lemma DateInsideWord(v: string, rest: string)
    requires v != [] && !IsSpace(v[0]) && !IsSpace(v[|v| - 1]) && '\n' !in v
    requires rest == [] || rest[0] == '\n'
    ensures FieldValue("Event: Candidate: " + v + rest, DateLabel) == Some(v)
  {
    var pre := "Event: Candidate: ";
    var s := pre + v + rest;
    assert forall q :: 0 <= q < 12 ==> !LabelAt(s, q, DateLabel) by {
      forall q | 0 <= q < 12 ensures !LabelAt(s, q, DateLabel) {
        assert s[q] == pre[q] && s[q + 1] == pre[q + 1];
        if q == 10 {
          NotLabel(s, q, DateLabel, 1);
        } else {
          NotLabel(s, q, DateLabel, 0);
        }
      }
    }
    assert LabelAt(s, 12, DateLabel) by {
      assert forall i :: 12 <= i < 17 ==> s[i] == pre[i];
    }
    LineAfterPrefix(pre, v, rest, 17, 18);
    FieldValueOfLine(s, DateLabel, 12, 18, 18 + |v|);
    StripVisible(v);
  }

  /** The whitespace after a label may run across line breaks: an event label alone on
      its line takes the whole next line as its value. */
  lemma EmptyLineTakesNext(v: string, rest: string)
    requires v != [] && !IsSpace(v[0]) && !IsSpace(v[|v| - 1]) && '\n' !in v
    requires rest == [] || rest[0] == '\n'
    ensures FieldValue("Event:\n" + v + rest, EventLabel) == Some(v)
  {
    var pre := "Event:\n";
    var s := pre + v + rest;
    assert LabelAt(s, 0, EventLabel) by {
      assert forall i :: 0 <= i < 6 ==> s[i] == pre[i];
    }
    LineAfterPrefix(pre, v, rest, 6, 7);
    FieldValueOfLine(s, EventLabel, 0, 7, 7 + |v|);
    StripVisible(v);
  }

  /** A label followed only by blanks on its line, at the end of the block, still
      matches: `.+` backs off to take the last blank, so the value is empty. */
  lemma BlankValueAtEnd(w: string)
    requires w != [] && AllSpace(w) && '\n' !in w
    ensures FieldValue("Event:" + w, EventLabel) == Some([])
  {
    var pre := "Event:";
    var s := pre + w;
    assert LabelAt(s, 0, EventLabel) by {
      assert forall i :: 0 <= i < 6 ==> s[i] == pre[i];
    }
    assert s[6..] == w;
    BlankGroup(s, 6);
    BlankField(s, EventLabel, 0);
  }

  /** Blanks without a newline up to the end of `s` hold a group of `\s*(.+)` made of
      blanks only. */
  lemma BlankGroup(s: string, q: nat)
    requires q < |s| && AllSpace(s[q..]) && '\n' !in s[q..]
    ensures GroupAt(s, q).Some? && AllSpace(s[GroupAt(s, q).value.0..GroupAt(s, q).value.1])
  {
    assert s[|s| - 1] == s[q..][|s| - 1 - q];
    assert GroupMatch(s, q, |s| - 1, |s|) by {
      assert forall j :: 0 <= j < |s| - 1 - q ==> s[q..|s| - 1][j] == s[q..][j];
    }
    GroupAtIsMatch(s, q);
    var (a, b) := GroupAt(s, q).value;
    forall j | 0 <= j < b - a ensures IsSpace(s[a..b][j]) {
      assert s[a..b][j] == s[q..][a + j - q];
    }
  }

  /** A label spelt first at `p` whose group holds blanks only has the empty value. */
  lemma BlankField(s: string, key: string, p: nat)
    requires key != [] && !IsSpace(key[|key| - 1])
    requires LabelAt(s, p, key) && forall q :: 0 <= q < p ==> !LabelAt(s, q, key)
    requires GroupAt(s, p + |key|).Some?
    requires AllSpace(s[GroupAt(s, p + |key|).value.0..GroupAt(s, p + |key|).value.1])
    ensures FieldValue(s, key) == Some([])
  {
    var (a, b) := GroupAt(s, p + |key|).value;
    BlankFieldGroup(s, key, p, a, b);
    FieldValueOfGroup(s, key, s[a..b]);
  }

  lemma BlankFieldGroup(s: string, key: string, p: nat, a: nat, b: nat)
    requires key != [] && !IsSpace(key[|key| - 1])
    requires LabelAt(s, p, key) && forall q :: 0 <= q < p ==> !LabelAt(s, q, key)
    requires GroupAt(s, p + |key|) == Some((a, b))
    ensures FieldGroup(s, key) == Some(s[a..b])
  {
    FirstLabelDecides(s, key, p);
    GroupTextAt(s, p + |key|, a, b);
    FieldGroupFound(s, key, p, s[a..b]);
  }

  /** The value of a field is its group, stripped. */
  lemma FieldValueOfGroup(s: string, key: string, line: string)
    requires FieldGroup(s, key) == Some(line)
    ensures FieldValue(s, key) == Some(Strip(line))
  {
  }

  /** In `pre + v + rest`, the whitespace of `pre` from `q` on is followed by the line `v`. */
  lemma LineAfterPrefix(pre: string, v: string, rest: string, q: nat, a: nat)
    requires q <= a == |pre| && AllSpace(pre[q..])
    requires v != [] && !IsSpace(v[0]) && '\n' !in v
    requires rest == [] || rest[0] == '\n'
    ensures LineAfter(pre + v + rest, q, a, a + |v|) && (pre + v + rest)[a..a + |v|] == v
  {
    var s := pre + v + rest;
    assert s[q..a] == pre[q..];
    assert forall j :: a <= j < a + |v| ==> s[j] == v[j - a];
    assert a + |v| < |s| ==> s[a + |v|] == rest[0];
    assert s[a..a + |v|] == v;
  }

  lemma NotLabel(s: string, p: nat, key: string, i: nat)
    requires i < |key| && p + i < |s| && Lower(s[p + i]) != key[i]
    ensures !LabelAt(s, p, key)
  {
  }

  lemma StripVisible(v: string)
    requires v != [] && !IsSpace(v[0]) && !IsSpace(v[|v| - 1])
    ensures Strip(v) == v
  {
    assert TrimStart(v) == v;
    assert TrimEnd(v) == v;
  }
}
