/** The data side of the timeline plot (TimelineBuilder.py:140-175): the marker labels are
    the event descriptions truncated with an ellipsis, the markers alternate between two
    lanes, and an empty event list draws nothing. The figure itself is not modelled. */
module TimelinePlot {
  import opened Wrappers
  import opened DateInterpreter
  import opened EventExtractor

  /** The default `max_length` of `truncate_text`. */
  const DefaultLabelLength: int := 50

  /** Python's `text[:m]`: a negative `m` counts from the end, and the slice is cut to the
      bounds of `text`. */
  function SlicePrefix(text: string, m: int): (r: string)
    ensures |r| <= |text| && r == text[..|r|]
    ensures 0 <= m <= |text| ==> |r| == m
    ensures -|text| <= m < 0 ==> |r| == |text| + m
    ensures m < -|text| ==> r == []
    ensures |text| < m ==> r == text
  {
    var end := if m < 0 then |text| + m else m;
    if end < 0 then [] else if end < |text| then text[..end] else text
  }

  /** `truncate_text(text, max_length)`: the text itself when it fits, otherwise its first
      `max_length` characters followed by an ellipsis. */
  function Truncate(text: string, maxLength: int): (r: string)
    ensures |text| <= maxLength ==> r == text
    ensures 0 <= maxLength < |text| ==>
      |r| == maxLength + 3 && r[..maxLength] == text[..maxLength] && r[maxLength..] == "..."
    ensures maxLength < 0 ==> |r| == (if |text| + maxLength < 0 then 0 else |text| + maxLength) + 3
  {
    if |text| <= maxLength then text else SlicePrefix(text, maxLength) + "..."
  }

  /** A label keeps the first `min(len, max_length)` characters of its text and is at most
      three characters longer than `max_length`. */
  lemma TruncateKeepsPrefix(text: string, maxLength: nat)
    ensures var k := if |text| < maxLength then |text| else maxLength;
      var r := Truncate(text, maxLength);
      k <= |r| && r[..k] == text[..k]
    ensures |Truncate(text, maxLength)| <= maxLength + 3
  {
  }

  /** Truncating a label again leaves it as it is. */
  lemma TruncateIdempotent(text: string, maxLength: nat)
    ensures Truncate(Truncate(text, maxLength), maxLength) == Truncate(text, maxLength)
  {
    var r := Truncate(text, maxLength);
    if maxLength < |text| {
      assert r == r[..maxLength] + r[maxLength..];
    }
  }

  /** The vertical positions `[i % 2 for i in range(n)]`. */
  function Lanes(n: nat): (lanes: seq<int>)
    ensures |lanes| == n
    ensures forall i :: 0 <= i < n ==> lanes[i] == 0 || lanes[i] == 1
    ensures n > 0 ==> lanes[0] == 0
    ensures forall i :: 0 < i < n ==> lanes[i] != lanes[i - 1]
  {
    seq(n, i => i % 2)
  }

  /** Lanes are the only list of 0s and 1s that starts at 0 and alternates. */
  lemma {:induction false} LanesUnique(lanes: seq<int>)
    requires forall i :: 0 <= i < |lanes| ==> lanes[i] == 0 || lanes[i] == 1
    requires |lanes| > 0 ==> lanes[0] == 0
    requires forall i :: 0 < i < |lanes| ==> lanes[i] != lanes[i - 1]
    ensures lanes == Lanes(|lanes|)
  {
    if |lanes| > 1 {
      var init := lanes[..|lanes| - 1];
      LanesUnique(init);
      var n := |lanes|;
      assert lanes[n - 1] == 1 - Lanes(n - 1)[n - 2];
    }
  }

  /** One point of the scatter plot: its date on the x axis, its lane, its label and the
      full description shown on hover. */
  datatype Marker = Marker(x: DateTime, y: int, text: string, hoverText: string)

  /** The points `create_timeline_plot` draws for `events`, or `None` when the list is
      empty and no figure is made. */
  function PlotPoints(events: seq<EventRecord>): (points: Option<seq<Marker>>)
    ensures points.None? <==> events == []
    ensures points.Some? ==> |points.value| == |events|
    ensures points.Some? ==> forall i :: 0 <= i < |events| ==>
      var m := points.value[i];
      m.x == events[i].date && m.hoverText == events[i].task
      && m.text == Truncate(events[i].task, DefaultLabelLength)
      && (m.y == 0 || m.y == 1) && (i == 0 ==> m.y == 0)
      && (i > 0 ==> m.y != points.value[i - 1].y)
  {
    if events == [] then None
    else
      var lanes := Lanes(|events|);
      Some(seq(|events|, i requires 0 <= i < |events| =>
        Marker(events[i].date, lanes[i], Truncate(events[i].task, DefaultLabelLength), events[i].task)))
  }
}
