/** Splitting a model response into event blocks: `re.split(r'\n\s*\n', text)`
    (TimelineBuilder.py:102). A separator is a newline, any whitespace, and a newline,
    so one separator swallows a whole run of blank lines. */
module BlockSplit {
  import opened Wrappers
  import opened PyText
  import opened Scan

  /** `x` is matched in full by `\n\s*\n`. */
  ghost predicate IsSeparator(x: string) {
    |x| >= 2 && x[0] == '\n' && x[|x| - 1] == '\n' && AllSpace(x)
  }

  /** No part of `x` is a blank-line separator. */
  ghost predicate NoBlankLine(x: string) {
    forall i, j :: 0 <= i < j <= |x| ==> !IsSeparator(Segment(x, i, j))
  }

  /** `x[i..j]`, named so that statements about every part of a text are used only
      where a proof asks for them. */
  ghost function Segment(x: string, i: nat, j: nat): string
    requires i <= j <= |x|
  {
    x[i..j]
  }

  /** A block that survives being framed by newlines without forming a blank line:
      it holds a non-whitespace character, no blank line, and neither starts nor ends
      with a whitespace run that holds a newline. */
  ghost predicate Standalone(b: string) {
    NoBlankLine("\n" + b + "\n")
  }

  /** The last newline in `s[lo..hi]`. */
  function LastNewline(s: string, lo: nat, hi: nat): (k: Option<nat>)
    requires lo <= hi <= |s|
    ensures k.Some? ==>
      (lo <= k.value < hi && s[k.value] == '\n' && forall j :: k.value < j < hi ==> s[j] != '\n')
    ensures k.None? ==> forall j :: lo <= j < hi ==> s[j] != '\n'
    decreases hi - lo
  {
    if lo == hi then None
    else if s[hi - 1] == '\n' then Some(hi - 1)
    else LastNewline(s, lo, hi - 1)
  }

  /** Where the match of `\n\s*\n` that starts at `p` ends, if one starts there. The
      greedy `\s*` takes the whole whitespace run after the first newline and gives
      characters back until a newline follows, so the match is the longest separator
      that starts at `p`. */
  function SeparatorEnd(s: string, p: nat): (e: Option<nat>)
    requires p <= |s|
    ensures e.Some? ==> p + 1 < e.value <= |s|
  {
    if p < |s| && s[p] == '\n' then
      match LastNewline(s, p + 1, p + 1 + SpaceRun(s, p + 1))
      case None => None
      case Some(k) => Some(k + 1)
    else None
  }

  /** `SeparatorEnd` finds the longest separator that starts at `p`, and finds none
      only when no separator starts there. */
  lemma SeparatorEndLongest(s: string, p: nat)
    requires p <= |s|
    ensures var e := SeparatorEnd(s, p);
      e.Some? ==> IsSeparator(s[p..e.value]) && forall e' :: e.value < e' <= |s| ==> !IsSeparator(s[p..e'])
    ensures SeparatorEnd(s, p).None? ==> forall e' :: p < e' <= |s| ==> !IsSeparator(s[p..e'])
  {
    if p < |s| && s[p] == '\n' {
      var run := SpaceRun(s, p + 1);
      match LastNewline(s, p + 1, p + 1 + run)
      case None =>
        NoNewlineInRun(s, p, run);
      case Some(k) =>
        SeparatorUpTo(s, p, run, k);
        NoLongerSeparator(s, p, run, k);
    } else {
      assert forall e' :: p < e' <= |s| ==> s[p..e'][0] == s[p];
    }
  }

  /** Without a newline in the whitespace run after `s[p]`, no separator starts at `p`. */
  lemma NoNewlineInRun(s: string, p: nat, run: nat)
    requires p < |s| && run == SpaceRun(s, p + 1)
    requires LastNewline(s, p + 1, p + 1 + run).None?
    ensures forall e' :: p < e' <= |s| ==> !IsSeparator(s[p..e'])
  {
    SeparatorInsideRun(s, p, run);
  }

  /** No separator that starts at `p` ends after the last newline of the run. */
  lemma NoLongerSeparator(s: string, p: nat, run: nat, k: nat)
    requires p < |s| && run == SpaceRun(s, p + 1)
    requires LastNewline(s, p + 1, p + 1 + run) == Some(k)
    ensures forall e' :: k + 1 < e' <= |s| ==> !IsSeparator(s[p..e'])
  {
    SeparatorInsideRun(s, p, run);
  }

  /** The newline, the whitespace run after it and a newline `k` inside that run make
      a separator. */
  lemma SeparatorUpTo(s: string, p: nat, run: nat, k: nat)
    requires p < |s| && s[p] == '\n' && run == SpaceRun(s, p + 1)
    requires p + 1 <= k < p + 1 + run && s[k] == '\n'
    ensures IsSeparator(s[p..k + 1])
  {
    assert s[p..k + 1][k - p] == s[k];
    assert forall j :: p <= j <= k ==> s[p..k + 1][j - p] == s[j];
    assert forall j :: p + 1 <= j < p + 1 + run ==> IsSpace(s[j]) by {
      assert forall j :: p + 1 <= j < p + 1 + run ==> s[p + 1..p + 1 + run][j - p - 1] == s[j];
    }
  }

  /** Every separator that starts at `p` ends with a newline that lies in the
      whitespace run following `s[p]`. */
  lemma SeparatorInsideRun(s: string, p: nat, run: nat)
    requires p < |s| && run == SpaceRun(s, p + 1)
    ensures forall e' :: p < e' <= |s| && IsSeparator(s[p..e']) ==>
      p + 1 < e' <= p + 1 + run && s[e' - 1] == '\n'
  {
    forall e' | p < e' <= |s| && IsSeparator(s[p..e'])
      ensures p + 1 < e' <= p + 1 + run && s[e' - 1] == '\n'
    {
      var x := s[p..e'];
      assert x[|x| - 1] == s[e' - 1];
    }
  }

  /** The pattern `\n\s*\n` as a test on start positions. */
  function SeparatorStarts(s: string): nat -> bool {
    (q: nat) => q <= |s| && SeparatorEnd(s, q).Some?
  }

  /** The leftmost separator, as (start, end). */
  function FirstSeparator(s: string): (m: Option<(nat, nat)>)
    ensures m.Some? ==> m.value.0 < m.value.1 <= |s| && SeparatorEnd(s, m.value.0) == Some(m.value.1)
  {
    match FirstFrom(|s|, SeparatorStarts(s), 0)
    case None => None
    case Some(p) => Some((p, SeparatorEnd(s, p).value))
  }

  /** No separator starts before the leftmost one, and none starts anywhere when
      there is no leftmost one. */
  lemma FirstSeparatorLeftmost(s: string)
    ensures var m := FirstSeparator(s);
      m.Some? ==> forall q :: 0 <= q < m.value.0 ==> SeparatorEnd(s, q).None?
    ensures FirstSeparator(s).None? ==> forall q :: 0 <= q <= |s| ==> SeparatorEnd(s, q).None?
  {
    FirstFromLeftmost(|s|, SeparatorStarts(s), 0);
    assert forall q: nat :: q <= |s| ==> (SeparatorStarts(s)(q) <==> SeparatorEnd(s, q).Some?);
  }

  /** Python's `re.split(r'\n\s*\n', s)`: the pieces of `s` between the leftmost,
      non-overlapping separators, in order; no piece holds a blank line. */
  function Split(s: string): (blocks: seq<string>)
    ensures |blocks| >= 1
    decreases |s|
  {
    match FirstSeparator(s)
    case None => [s]
    case Some((p, e)) => [s[..p]] + Split(s[e..])
  }

  /** No piece that `Split` returns holds a blank line. */
  lemma {:induction false} SplitNoBlankLine(s: string)
    ensures forall b :: b in Split(s) ==> NoBlankLine(b)
    decreases |s|
  {
    FirstSeparatorLeftmost(s);
    match FirstSeparator(s)
    case None =>
      NoSeparatorBefore(s, |s|);
      assert s[..|s|] == s;
    case Some((p, e)) =>
      NoSeparatorBefore(s, p);
      SplitNoBlankLine(s[e..]);
      SplitAt(s, p, e);
  }

  /** When the leftmost separator is `s[p..e]`, the first piece is `s[..p]` and the
      others are the pieces of `s[e..]`. */
  lemma SplitAt(s: string, p: nat, e: nat)
    requires FirstSeparator(s) == Some((p, e))
    ensures Split(s) == [s[..p]] + Split(s[e..])
  {
  }

  /** When no separator starts before `p`, the text up to `p` holds no blank line. */
  lemma NoSeparatorBefore(s: string, p: nat)
    requires p <= |s|
    requires forall q :: 0 <= q < p ==> SeparatorEnd(s, q).None?
    ensures NoBlankLine(s[..p])
  {
    forall i, j | 0 <= i < j <= p ensures !IsSeparator(Segment(s[..p], i, j)) {
      assert Segment(s[..p], i, j) == s[i..j];
      SeparatorEndLongest(s, i);
    }
  }

  /** The text that the blocks and the separators between them make up, in order. */
  function Join(blocks: seq<string>, seps: seq<string>): string
    requires |blocks| >= 1 && |seps| == |blocks| - 1
    decreases |blocks|
  {
    if |blocks| == 1 then blocks[0] else blocks[0] + seps[0] + Join(blocks[1..], seps[1..])
  }

  /** Splitting undoes joining: blocks that stand alone, joined by any blank-line
      separators, are recovered exactly and in order. */
  lemma {:induction false} SplitJoin(blocks: seq<string>, seps: seq<string>)
    requires |blocks| >= 1 && |seps| == |blocks| - 1
    requires forall i :: 0 <= i < |seps| ==> IsSeparator(seps[i])
    requires forall i :: 0 <= i < |blocks| ==> Standalone(blocks[i])
    ensures Split(Join(blocks, seps)) == blocks
    decreases |blocks|
  {
    if |blocks| == 1 {
      SplitStandalone(blocks[0]);
    } else {
      var rest := Join(blocks[1..], seps[1..]);
      assert blocks[1..][0] == blocks[1];
      SplitStep(blocks[0], seps[0], rest, blocks[1]);
      SplitJoin(blocks[1..], seps[1..]);
      assert blocks == [blocks[0]] + blocks[1..];
    }
  }

  /** A text in which no blank-line separator occurs is split into itself. */
  lemma SplitNoSeparator(s: string)
    requires NoBlankLine(s)
    ensures Split(s) == [s]
  {
    if FirstSeparator(s).Some? {
      var (p, e) := FirstSeparator(s).value;
      NoSeparatorAt(s, p, e);
      SeparatorEndLongest(s, p);
      assert false;
    }
  }

  lemma NoSeparatorAt(s: string, p: nat, e: nat)
    requires NoBlankLine(s) && p < e <= |s|
    ensures !IsSeparator(s[p..e])
  {
    assert Segment(s, p, e) == s[p..e];
  }

  /** Splitting loses nothing: the blocks, with the separators that were cut between
      them put back, make up the text. */
  lemma {:induction false} SplitTiles(s: string) returns (seps: seq<string>)
    ensures |seps| == |Split(s)| - 1
    ensures forall i :: 0 <= i < |seps| ==> IsSeparator(seps[i])
    ensures Join(Split(s), seps) == s
    decreases |s|
  {
    if FirstSeparator(s).None? {
      seps := [];
    } else {
      var p := FirstSeparator(s).value.0;
      var e := FirstSeparator(s).value.1;
      SplitAt(s, p, e);
      SeparatorAtCut(s, p, e);
      var rest := SplitTiles(s[e..]);
      seps := [s[p..e]] + rest;
      TilesStep(s, p, e, Split(s[e..]), rest);
      SeparatorsCons(s[p..e], rest);
    }
  }

  /** A separator in front of a list of separators gives a list of separators. */
  lemma SeparatorsCons(sep: string, seps: seq<string>)
    requires IsSeparator(sep)
    requires forall i :: 0 <= i < |seps| ==> IsSeparator(seps[i])
    ensures forall i :: 0 <= i < |seps| + 1 ==> IsSeparator(([sep] + seps)[i])
  {
  }

  /** The first block and separator put back in front of the rest rebuild the text. */
  lemma TilesStep(s: string, p: nat, e: nat, tail: seq<string>, rest: seq<string>)
    requires p <= e <= |s| && |tail| >= 1 && |rest| == |tail| - 1
    requires Join(tail, rest) == s[e..]
    ensures Join([s[..p]] + tail, [s[p..e]] + rest) == s
  {
    JoinCons(s[..p], s[p..e], tail, rest);
    SlicesJoin(s, p, e);
  }

  lemma SeparatorAtCut(s: string, p: nat, e: nat)
    requires p <= |s| && SeparatorEnd(s, p) == Some(e)
    ensures IsSeparator(s[p..e])
  {
    SeparatorEndLongest(s, p);
  }

  lemma SlicesJoin(s: string, p: nat, e: nat)
    requires p <= e <= |s|
    ensures s[..p] + s[p..e] + s[e..] == s
  {
  }

  /** Joining after a first block and separator. */
  lemma JoinCons(b: string, sep: string, blocks: seq<string>, seps: seq<string>)
    requires |blocks| >= 1 && |seps| == |blocks| - 1
    ensures Join([b] + blocks, [sep] + seps) == b + sep + Join(blocks, seps)
  {
    assert ([b] + blocks)[1..] == blocks && ([sep] + seps)[1..] == seps;
  }

  /** A standalone block is split into itself. */
  lemma SplitStandalone(b: string)
    requires Standalone(b)
    ensures Split(b) == [b]
  {
    forall q | 0 <= q <= |b| ensures SeparatorEnd(b, q).None? {
      if q < |b| {
        NoSeparatorInBlock(b, [], q);
        assert b + [] == b;
      }
    }
    FirstFromNone(|b|, SeparatorStarts(b), 0);
  }

  /** Splitting a standalone block, a separator and the text after it gives the block
      followed by the pieces of that text, when the text starts with a standalone block. */
  lemma SplitStep(b: string, sep: string, rest: string, next: string)
    requires Standalone(b) && IsSeparator(sep)
    requires |next| <= |rest| && rest[..|next|] == next && Standalone(next)
    ensures Split(b + sep + rest) == [b] + Split(rest)
  {
    FirstSeparatorOfStep(b, sep, rest, next);
    SplitOfStep(b, sep, rest);
  }

  lemma SplitOfStep(b: string, sep: string, rest: string)
    requires FirstSeparator(b + sep + rest) == Some((|b|, |b| + |sep|))
    ensures Split(b + sep + rest) == [b] + Split(rest)
  {
    var s := b + sep + rest;
    SplitAt(s, |b|, |b| + |sep|);
    assert s[..|b|] == b && s[|b| + |sep|..] == rest;
  }

  /** The leftmost separator of `b + sep + rest` is `sep`, matched in full. */
  lemma FirstSeparatorOfStep(b: string, sep: string, rest: string, next: string)
    requires Standalone(b) && IsSeparator(sep)
    requires |next| <= |rest| && rest[..|next|] == next && Standalone(next)
    ensures FirstSeparator(b + sep + rest) == Some((|b|, |b| + |sep|))
  {
    var s := b + sep + rest;
    NoSeparatorInPrefix(b, sep + rest);
    assert b + (sep + rest) == s;
    SeparatorAtBoundary(b, sep, rest, next);
    FirstSeparatorAt(s, |b|, |b| + |sep|);
  }

  /** The leftmost separator is the one at `n` when none starts before `n`. */
  lemma FirstSeparatorAt(s: string, n: nat, e: nat)
    requires n <= |s| && SeparatorEnd(s, n) == Some(e)
    requires forall q :: 0 <= q < n ==> SeparatorEnd(s, q).None?
    ensures FirstSeparator(s) == Some((n, e))
  {
    FirstFromIs(|s|, SeparatorStarts(s), 0, n);
  }

  /** No separator starts inside a standalone block. */
  lemma NoSeparatorInPrefix(b: string, t: string)
    requires Standalone(b)
    ensures forall q :: 0 <= q < |b| ==> SeparatorEnd(b + t, q).None?
  {
    forall q | 0 <= q < |b| ensures SeparatorEnd(b + t, q).None? {
      NoSeparatorInBlock(b, t, q);
    }
  }

  /** No separator starts inside a standalone block, whatever follows it. */
  lemma NoSeparatorInBlock(b: string, t: string, q: nat)
    requires Standalone(b) && q < |b|
    ensures SeparatorEnd(b + t, q).None?
  {
    var s := b + t;
    var x := "\n" + b + "\n";
    forall e' | q < e' <= |s| ensures !IsSeparator(s[q..e']) {
      if e' <= |b| {
        NotSeparator(x, q + 1, e' + 1);
        assert s[q..e'] == x[q + 1..e' + 1];
      } else {
        var y := x[q + 1..|b| + 2];
        NotSeparator(x, q + 1, |b| + 2);
        assert y == b[q..] + "\n";
        assert forall i :: 0 <= i < |b| - q ==> y[i] == s[q..e'][i];
      }
    }
    SeparatorEndLongest(s, q);
  }

  /** The separator that follows a block is matched in full and no further, when the
      next block stands alone. */
  lemma SeparatorAtBoundary(b: string, sep: string, rest: string, next: string)
    requires IsSeparator(sep)
    requires |next| <= |rest| && rest[..|next|] == next && Standalone(next)
    ensures SeparatorEnd(b + sep + rest, |b|) == Some(|b| + |sep|)
  {
    var s := b + sep + rest;
    var n, m := |b|, |sep|;
    var lead := SpaceRun(next, 0);
    StandaloneLead(next);
    assert s[n..n + m] == sep;
    assert next[lead] == rest[lead];
    forall e' | n + m < e' <= |s| ensures !IsSeparator(s[n..e']) {
      var k := e' - n - m;
      assert s[n..e'][m + k - 1] == rest[k - 1];
      if k - 1 < lead {
        assert next[k - 1] == rest[k - 1];
      } else {
        assert s[n..e'][m + lead] == rest[lead];
      }
    }
    SeparatorEndLongest(s, n);
  }

  /** The whitespace a standalone block starts with holds no newline, and a
      non-whitespace character follows it. */
  lemma StandaloneLead(b: string)
    requires Standalone(b)
    ensures SpaceRun(b, 0) < |b|
    ensures forall i :: 0 <= i < SpaceRun(b, 0) ==> b[i] != '\n'
  {
    StandaloneNotBlank(b);
    LeadShort(b);
    forall i | 0 <= i < SpaceRun(b, 0) ensures b[i] != '\n' {
      LeadNotNewline(b, i);
    }
  }

  /** The whitespace a text starts with stops before its end when the text is not blank. */
  lemma LeadShort(b: string)
    requires !AllSpace(b)
    ensures SpaceRun(b, 0) < |b|
  {
    assert b[0..|b|] == b;
  }

  /** A standalone block holds a non-whitespace character. */
  lemma StandaloneNotBlank(b: string)
    requires Standalone(b)
    ensures !AllSpace(b)
  {
    if AllSpace(b) {
      FramedSeparator(b);
      NotSeparator("\n" + b + "\n", 0, |b| + 2);
    }
  }

  /** A standalone block does not start with whitespace that ends in a newline. */
  lemma LeadNotNewline(b: string, i: nat)
    requires Standalone(b) && i < SpaceRun(b, 0)
    ensures b[i] != '\n'
  {
    var lead := SpaceRun(b, 0);
    var x := "\n" + b + "\n";
    var y := x[0..i + 2];
    NotSeparator(x, 0, i + 2);
    assert forall j :: 1 <= j < i + 2 ==> y[j] == b[0..lead][j - 1];
  }

  /** Whitespace framed by newlines is a separator. */
  lemma FramedSeparator(w: string)
    requires AllSpace(w)
    ensures IsSeparator("\n" + w + "\n")
  {
    var x := "\n" + w + "\n";
    forall i | 0 <= i < |x| ensures IsSpace(x[i]) {
      if 0 < i < |x| - 1 {
        assert x[i] == w[i - 1];
      }
    }
  }

  lemma NotSeparator(x: string, i: nat, j: nat)
    requires NoBlankLine(x) && i < j <= |x|
    ensures !IsSeparator(x[i..j])
  {
    assert Segment(x, i, j) == x[i..j];
  }
}
