/** `parse_date` (TimelineBuilder.py:30-63): strips the text, turns a day range such as
    "July 19-20, 1848" into its first day, hands the text to the fuzzy date parser, and
    rejects dates whose year lies after the current year. The parser, the conversion to
    a timestamp and the clock are outside the model: they come in as a `DateEnv`. */
module DateInterpreter {
  import opened Wrappers
  import opened PyText

  /** The calendar date the parser produces. */
  datatype DateTime = DateTime(year: int, month: int, day: int)

  /** What `parse_date` consults outside itself: `fuzzyParse` is `parser.parse(_, fuzzy=True)`
      (`None` when it raises), `representable` says whether `pd.Timestamp` accepts the date
      (it raises otherwise), and `currentYear` is `datetime.now().year`. */
  datatype DateEnv = DateEnv(fuzzyParse: string -> Option<DateTime>, representable: DateTime -> bool, currentYear: int)

  /** The length of the longest run of word characters that starts at `i`: what a
      greedy `\w+` takes there. */
  function WordRun(s: string, i: nat): (n: nat)
    requires i <= |s|
    ensures i + n <= |s|
    ensures forall j :: i <= j < i + n ==> IsWordChar(s[j])
    ensures i + n == |s| || !IsWordChar(s[i + n])
    decreases |s| - i
  {
    if i < |s| && IsWordChar(s[i]) then 1 + WordRun(s, i + 1) else 0
  }

  /** The length of the longest run of digits that starts at `i`: what a greedy `\d+`
      takes there. */
  function DigitRun(s: string, i: nat): (n: nat)
    requires i <= |s|
    ensures i + n <= |s|
    ensures forall j :: i <= j < i + n ==> IsDigit(s[j])
    ensures i + n == |s| || !IsDigit(s[i + n])
    decreases |s| - i
  {
    if i < |s| && IsDigit(s[i]) then 1 + DigitRun(s, i + 1) else 0
  }

  /** `re.match(r'(\w+ \d+)-\d+, \d+', s)` succeeds with the word `s[..w]`, the space at
      `w`, the first day `s[w + 1..g]`, the dash at `g`, the second day `s[g + 1..h]` and
      ", " plus a digit at `h`. Group 1 is `s[..g]`. */
  ghost predicate RangeMatch(s: string, w: nat, g: nat, h: nat) {
    0 < w && w + 1 < g && g + 1 < h && h + 2 < |s|
    && (forall j :: 0 <= j < w ==> IsWordChar(s[j])) && s[w] == ' '
    && (forall j :: w + 1 <= j < g ==> IsDigit(s[j])) && s[g] == '-'
    && (forall j :: g + 1 <= j < h ==> IsDigit(s[j]))
    && s[h] == ',' && s[h + 1] == ' ' && IsDigit(s[h + 2])
  }

  /** The positions `(w, g, h)` of the range pattern at the start of `s`, if it matches.
      Every repetition in the pattern is followed by a character it cannot consume, so
      each one takes its longest run and the match, when there is one, is unique. */
  function RangeAt(s: string): (m: Option<(nat, nat, nat)>)
    ensures m.Some? ==> RangeMatch(s, m.value.0, m.value.1, m.value.2)
  {
    var w := WordRun(s, 0);
    if w == 0 || w == |s| || s[w] != ' ' then
      None
    else
      var g := w + 1 + DigitRun(s, w + 1);
      if g == w + 1 || g == |s| || s[g] != '-' then
        None
      else
        var h := g + 1 + DigitRun(s, g + 1);
        if h == g + 1 || h + 2 >= |s| || s[h] != ',' || s[h + 1] != ' ' || !IsDigit(s[h + 2]) then
          None
        else
          Some((w, g, h))
  }

  /** In any match, the word ends where the run of word characters at the start ends. */
  lemma RangeNeedsWordRun(s: string, w: nat)
    requires w == WordRun(s, 0)
    ensures forall w': nat, g: nat, h: nat :: RangeMatch(s, w', g, h) ==> w' == w && s[w] == ' '
  {
    forall w': nat, g: nat, h: nat | RangeMatch(s, w', g, h) ensures w' == w && s[w] == ' ' {
      assert !IsWordChar(s[w']);
    }
  }

  /** In any match with that word, the first day ends where the run of digits ends. */
  lemma RangeNeedsDayRun(s: string, w: nat, g: nat)
    requires w < |s| && w == WordRun(s, 0) && g == w + 1 + DigitRun(s, w + 1)
    ensures forall w': nat, g': nat, h: nat :: RangeMatch(s, w', g', h) ==> g' == g && g > w + 1 && s[g] == '-'
  {
    RangeNeedsWordRun(s, w);
    forall w': nat, g': nat, h: nat | RangeMatch(s, w', g', h) ensures g' == g && g > w + 1 && s[g] == '-' {
      assert !IsDigit(s[g']);
    }
  }

  /** In any match with that word and day, the second day ends where its digits end. */
  lemma RangeNeedsYear(s: string, w: nat, g: nat, h: nat)
    requires w < g < |s| && w == WordRun(s, 0) && g == w + 1 + DigitRun(s, w + 1)
    requires h == g + 1 + DigitRun(s, g + 1)
    ensures forall w': nat, g': nat, h': nat :: RangeMatch(s, w', g', h') ==> RangeMatch(s, w, g, h)
  {
    RangeNeedsDayRun(s, w, g);
    forall w': nat, g': nat, h': nat | RangeMatch(s, w', g', h') ensures RangeMatch(s, w, g, h) {
      assert !IsDigit(s[h']);
    }
  }

  /** The range pattern matches in at most one way. */
  lemma RangeUnique(s: string, w: nat, g: nat, h: nat)
    requires RangeMatch(s, w, g, h)
    ensures RangeAt(s) == Some((w, g, h))
  {
    var w0 := WordRun(s, 0);
    RangeNeedsWordRun(s, w0);
    var g0 := w0 + 1 + DigitRun(s, w0 + 1);
    RangeNeedsDayRun(s, w0, g0);
    var h0 := g0 + 1 + DigitRun(s, g0 + 1);
    RangeNeedsYear(s, w0, g0, h0);
    assert !IsDigit(s[h]);
  }

  /** `RangeAt` misses no match: when it finds none, the pattern does not match. */
  lemma RangeAtNone(s: string)
    requires RangeAt(s).None?
    ensures forall w: nat, g: nat, h: nat :: !RangeMatch(s, w, g, h)
  {
    forall w: nat, g: nat, h: nat | RangeMatch(s, w, g, h) ensures false {
      RangeUnique(s, w, g, h);
    }
  }

  /** The text handed to the fuzzy parser: for a day range, group 1 followed by everything
      from the last comma on; otherwise the text itself. */
  function ParserInput(t: string): (r: string)
    ensures RangeAt(t).None? ==> r == t
  {
    match RangeAt(t)
    case None => t
    case Some((w, g, h)) =>
      assert t[h] == ',';
      t[..g] + t[LastIndexOf(t, ',').value..]
  }

  /** `parse_date`: `None` for blank text, for text the parser rejects, for a year after
      the current one and for a date the timestamp type cannot hold. */
  function ParseDate(text: string, env: DateEnv): (r: Option<DateTime>)
    ensures AllSpace(text) ==> r.None?
    ensures r.Some? ==>
      (r.value.year <= env.currentYear && env.representable(r.value)
       && env.fuzzyParse(ParserInput(Strip(text))) == Some(r.value))
  {
    var t := Strip(text);
    if t == [] then None
    else
      match env.fuzzyParse(ParserInput(t))
      case None => None
      case Some(d) =>
        if d.year > env.currentYear then None
        else if !env.representable(d) then None
        else Some(d)
  }

  /** Every date the parser accepts is returned, unless its year lies in the future or
      the timestamp type cannot hold it: the guards reject nothing else. */
  lemma ParseDateAccepts(text: string, env: DateEnv, d: DateTime)
    requires !AllSpace(text)
    requires env.fuzzyParse(ParserInput(Strip(text))) == Some(d)
    requires d.year <= env.currentYear && env.representable(d)
    ensures ParseDate(text, env) == Some(d)
  {
  }

  /** Blank text is rejected before the parser is consulted: two environments that differ
      in everything give the same answer. */
  lemma BlankIgnoresParser(text: string, env1: DateEnv, env2: DateEnv)
    requires AllSpace(text)
    ensures ParseDate(text, env1) == ParseDate(text, env2) == None
  {
  }

  /** Stripping first changes nothing: the text is stripped on entry. */
  lemma ParseDateStripped(text: string, env: DateEnv)
    ensures ParseDate(Strip(text), env) == ParseDate(text, env)
  {
    StripIdempotent(text);
  }

  predicate AllWord(s: string) {
    forall i :: 0 <= i < |s| ==> IsWordChar(s[i])
  }

  predicate AllDigits(s: string) {
    forall i :: 0 <= i < |s| ==> IsDigit(s[i])
  }

  /** "Month D1-D2, Year..." matches the range pattern, with group 1 "Month D1". */
  lemma RangeParts(month: string, d1: string, d2: string, rest: string)
    requires month != [] && AllWord(month) && d1 != [] && AllDigits(d1) && d2 != [] && AllDigits(d2)
    requires |rest| > 2 && rest[..2] == ", " && IsDigit(rest[2])
    ensures var t := month + " " + d1 + "-" + d2 + rest;
      var g := |month| + 1 + |d1|;
      RangeAt(t) == Some((|month|, g, g + 1 + |d2|)) && t[..g] == month + " " + d1
  {
    var t := month + " " + d1 + "-" + d2 + rest;
    var g := |month| + 1 + |d1|;
    RangeMatchParts(month, d1, d2, rest);
    RangeUnique(t, |month|, g, g + 1 + |d2|);
  }

  lemma RangeMatchParts(month: string, d1: string, d2: string, rest: string)
    requires month != [] && AllWord(month) && d1 != [] && AllDigits(d1) && d2 != [] && AllDigits(d2)
    requires |rest| > 2 && rest[..2] == ", " && IsDigit(rest[2])
    ensures var t := month + " " + d1 + "-" + d2 + rest;
      var g := |month| + 1 + |d1|;
      RangeMatch(t, |month|, g, g + 1 + |d2|) && t[..g] == month + " " + d1
  {
    var first := month + " " + d1;
    var t := first + ("-" + d2 + rest);
    assert t == month + " " + d1 + "-" + d2 + rest;
    var w, g, h := |month|, |first|, |first| + 1 + |d2|;
    assert forall j :: 0 <= j < w ==> t[j] == month[j];
    assert forall j :: w + 1 <= j < g ==> t[j] == d1[j - w - 1];
    assert forall j :: g + 1 <= j < h ==> t[j] == d2[j - g - 1];
    assert t[h..] == rest;
    assert t[..g] == first;
  }

  /** For a text that matches the range pattern, the parser gets group 1 and the text
      from the last comma on. */
  lemma ParserInputOfRange(t: string, w: nat, g: nat, h: nat)
    requires RangeAt(t) == Some((w, g, h))
    ensures LastIndexOf(t, ',').Some?
    ensures ParserInput(t) == t[..g] + t[LastIndexOf(t, ',').value..]
  {
  }

  /** A day range "Month D1-D2, Year..." is handed to the parser as "Month D1" followed by
      the text from its last comma on. */
  lemma RangeKeepsFirstDay(month: string, d1: string, d2: string, rest: string)
    requires month != [] && AllWord(month) && d1 != [] && AllDigits(d1) && d2 != [] && AllDigits(d2)
    requires |rest| > 2 && rest[..2] == ", " && IsDigit(rest[2])
    ensures var t := month + " " + d1 + "-" + d2 + rest;
      ',' in t && ParserInput(t) == month + " " + d1 + t[LastIndexOf(t, ',').value..]
  {
    var t := month + " " + d1 + "-" + d2 + rest;
    var g := |month| + 1 + |d1|;
    RangeParts(month, d1, d2, rest);
    ParserInputOfRange(t, |month|, g, g + 1 + |d2|);
  }

  /** The last comma of `pre + tail`, when `tail` starts with the only comma in it. */
  lemma SuffixFromLastComma(pre: string, tail: string)
    requires tail != [] && tail[0] == ',' && ',' !in tail[1..]
    ensures LastIndexOf(pre + tail, ',') == Some(|pre|) && (pre + tail)[|pre|..] == tail
  {
    var t := pre + tail;
    assert forall j :: |pre| < j < |t| ==> t[j] == tail[1..][j - |pre| - 1];
    LastCommaAt(t, |pre|);
  }

  lemma LastCommaAt(t: string, c: nat)
    requires c < |t| && t[c] == ',' && forall j :: c < j < |t| ==> t[j] != ','
    ensures LastIndexOf(t, ',') == Some(c)
  {
  }

  /** A day range whose ", Year..." holds no further comma becomes its first day:
      "Month D1-D2, Year" is handed to the parser as "Month D1, Year". */
  lemma RangeReduction(month: string, d1: string, d2: string, rest: string)
    requires month != [] && AllWord(month) && d1 != [] && AllDigits(d1) && d2 != [] && AllDigits(d2)
    requires |rest| > 2 && rest[..2] == ", " && IsDigit(rest[2]) && ',' !in rest[1..]
    ensures ParserInput(month + " " + d1 + "-" + d2 + rest) == month + " " + d1 + rest
  {
    RangeKeepsFirstDay(month, d1, d2, rest);
    SuffixFromLastComma(month + " " + d1 + "-" + d2, rest);
  }

  /** The suffix starts at the last comma of the whole text, not at the comma that
      follows the range: "July 19-20, 1848, Seneca Falls" is handed to the parser as
      "July 19, Seneca Falls", and the year is lost. */
  lemma RangeLastComma(month: string, d1: string, d2: string, rest: string, c: nat)
    requires month != [] && AllWord(month) && d1 != [] && AllDigits(d1) && d2 != [] && AllDigits(d2)
    requires |rest| > 2 && rest[..2] == ", " && IsDigit(rest[2])
    requires LastIndexOf(rest, ',') == Some(c)
    ensures ParserInput(month + " " + d1 + "-" + d2 + rest) == month + " " + d1 + rest[c..]
  {
    RangeKeepsFirstDay(month, d1, d2, rest);
    LastCommaInSuffix(month + " " + d1 + "-" + d2, rest, c);
  }

  /** The last comma of `pre + rest` is the last comma of `rest`, when it has one. */
  lemma LastCommaInSuffix(pre: string, rest: string, c: nat)
    requires LastIndexOf(rest, ',') == Some(c)
    ensures LastIndexOf(pre + rest, ',') == Some(|pre| + c) && (pre + rest)[|pre| + c..] == rest[c..]
  {
    var t := pre + rest;
    assert forall j :: |pre| + c < j < |t| ==> t[j] == rest[j - |pre|];
    LastCommaAt(t, |pre| + c);
  }

  /** The example of the comment in the source. */
  lemma SenecaFallsRange()
    ensures ParserInput("July 19-20, 1848") == "July 19, 1848"
  {
    var t, r := "July" + " " + "19" + "-" + "20" + ", 1848", "July" + " " + "19" + ", 1848";
    assert t == "July 19-20, 1848" by {
      assert |t| == 16 && forall i :: 0 <= i < 16 ==> t[i] == "July 19-20, 1848"[i];
    }
    assert r == "July 19, 1848" by {
      assert |r| == 13 && forall i :: 0 <= i < 13 ==> r[i] == "July 19, 1848"[i];
    }
    assert AllWord("July") && AllDigits("19") && AllDigits("20");
    RangeReduction("July", "19", "20", ", 1848");
  }
}
