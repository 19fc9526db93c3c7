/** Removing spoiler spans from a message before it is matched against triggers. */
module Spoilers {
  import opened Wrappers
  import opened GoStrings

  const BAR: char := '|'

  predicate MarkerAt(s: string, i: nat) {
    i + 1 < |s| && s[i] == s[i + 1] == BAR
  }

  /** strings.Index of the marker, from an offset on. */
  function Index(s: string, i: nat): (at: Option<nat>)
    requires i <= |s|
    ensures at.Some? ==> i <= at.value < |s| - 1 && MarkerAt(s, at.value)
    ensures forall k: nat | i <= k && (at.None? || k < at.value) :: !MarkerAt(s, k)
    decreases |s| - i
  {
    if MarkerAt(s, i) then Some(i)
    else if i == |s| then None
    else Index(s, i + 1)
  }

  /** An opening marker and a closing one after it. */
  ghost predicate HasSpan(s: string) {
    exists i: nat, j: nat :: MarkerAt(s, i) && MarkerAt(s, j) && i + 2 <= j
  }

  // ------------------------------------------------------------------ the spans of a message

  /** What can be seen before a spoiler, and the spoiler. */
  datatype Span = Span(seen: string, hidden: string)

  /** A message as its spans and what comes after the last of them. */
  datatype Message = Message(spans: seq<Span>, tail: string)

  function Print(spans: seq<Span>, tail: string): string {
    if spans == [] then tail
    else spans[0].seen + "||" + spans[0].hidden + "||" + Print(spans[1..], tail)
  }

  ghost predicate NoMarker(s: string) {
    forall i: nat :: !MarkerAt(s, i)
  }

  /** Text before a marker holds no marker and does not run into it. */
  ghost predicate Clear(s: string) {
    NoMarker(s) && (s != [] ==> s[|s| - 1] != BAR)
  }

  ghost predicate MessageOk(m: Message) {
    (forall span | span in m.spans :: Clear(span.seen) && Clear(span.hidden)) && !HasSpan(m.tail)
  }

  /** Each spoiler gives way to one space. */
  function Visible(spans: seq<Span>, tail: string): string {
    if spans == [] then tail else spans[0].seen + " " + Visible(spans[1..], tail)
  }

  /** The message read from an offset on, markers pairing leftmost first. */
  function Parse(s: string, i: nat): Message
    requires i <= |s|
    decreases |s| - i
  {
    match Index(s, i)
    case None => Message([], s[i..])
    case Some(start) =>
      match Index(s, start + 2)
      case None => Message([], s[i..])
      case Some(end) =>
        var rest := Parse(s, end + 2);
        Message([Span(s[i..start], s[start + 2..end])] + rest.spans, rest.tail)
  }

  // ------------------------------------------------------------------ white space

  /** What strings.Fields has collected: the words so far, and the one being read. */
  datatype Words = Words(done: seq<string>, current: string)

  function Collect(s: string): Words {
    if s == [] then Words([], "")
    else
      var w, c := Collect(s[..|s| - 1]), s[|s| - 1];
      if !IsSpace(c) then Words(w.done, w.current + [c])
      else if w.current == "" then w
      else Words(w.done + [w.current], "")
  }

  function Fields(s: string): seq<string> {
    var w := Collect(s);
    if w.current == "" then w.done else w.done + [w.current]
  }

  /** strings.Join with one space. */
  function Join(words: seq<string>): string {
    if words == [] then ""
    else if |words| == 1 then words[0]
    else Join(words[..|words| - 1]) + " " + words[|words| - 1]
  }

  function Collapse(s: string): string {
    Join(Fields(s))
  }

  // ------------------------------------------------------------------ the stripper

  function Seen(m: Message): string {
    Visible(m.spans, m.tail)
  }

  function Stripped(s: string): string {
    Collapse(Seen(Parse(s, 0)))
  }

  lemma SpanSeen(s: string, i: nat, b: string)
    requires i <= |s| && Index(s, i).Some? && Index(s, Index(s, i).value + 2).Some?
    ensures var start := Index(s, i).value; var end := Index(s, start + 2).value;
      b + Seen(Parse(s, i)) == b + s[i..start] + " " + Seen(Parse(s, end + 2))
  {
    var start := Index(s, i).value;
    var rest := Parse(s, Index(s, start + 2).value + 2);
    var span := Span(s[i..start], s[start + 2..Index(s, start + 2).value]);
    assert ([span] + rest.spans)[1..] == rest.spans;
    assert b + (span.seen + " " + Seen(rest)) == b + span.seen + " " + Seen(rest);
  }

  method StripSpoilers(s: string) returns (r: string)
    ensures r == Stripped(s)
  {
    hide Seen, Parse, MarkerAt, Collapse;
    var b, i := "", 0;
    assert "" + Seen(Parse(s, 0)) == Seen(Parse(s, 0));
    NothingSeen(s);
    while i < |s|
      invariant i <= |s| && b + Seen(Parse(s, i)) == Seen(Parse(s, 0))
      decreases |s| - i
    {
      TailSeen(s, i);
      var start := Index(s, i);
      if start.None? {
        b, i := b + s[i..], |s|;
        break;
      }
      var end := Index(s, start.value + 2);
      if end.None? {
        b, i := b + s[i..], |s|;
        break;
      }
      SpanSeen(s, i, b);
      b, i := b + s[i..start.value] + " ", end.value + 2;
    }
    assert i == |s| ==> b + "" == b;
    return Collapse(b);
  }

  lemma TailSeen(s: string, i: nat)
    requires i <= |s|
    ensures Index(s, i).None? || Index(s, Index(s, i).value + 2).None? ==> Seen(Parse(s, i)) == s[i..]
  {
  }

  lemma NothingSeen(s: string)
    ensures Seen(Parse(s, |s|)) == ""
  {
  }

  // ------------------------------------------------------------------ spans are what they are

  lemma {:induction false} ParseReadsAll(s: string, i: nat)
    requires i <= |s|
    ensures MessageOk(Parse(s, i)) && Print(Parse(s, i).spans, Parse(s, i).tail) == s[i..]
    decreases |s| - i
  {
    hide HasSpan, Clear, MarkerAt, Print, MessageOk;
    if Index(s, i).Some? && Index(s, Index(s, i).value + 2).Some? {
      var start := Index(s, i).value;
      var end := Index(s, start + 2).value;
      ParseReadsAll(s, end + 2);
      SpanRead(s, i, start, end, Parse(s, end + 2));
    } else {
      NoSpanLeft(s, i);
      TailAlone(s[i..]);
    }
  }

  lemma SpanRead(s: string, i: nat, start: nat, end: nat, rest: Message)
    requires i <= |s| && Index(s, i) == Some(start) && Index(s, start + 2) == Some(end)
    requires MessageOk(rest) && Print(rest.spans, rest.tail) == s[end + 2..]
    ensures var spans := [Span(s[i..start], s[start + 2..end])] + rest.spans;
      MessageOk(Message(spans, rest.tail)) && Print(spans, rest.tail) == s[i..]
  {
    hide Index, HasSpan, Clear, MarkerAt, Print, MessageOk;
    UpToIndexIsClear(s, i);
    UpToIndexIsClear(s, start + 2);
    PrintMore(Span(s[i..start], s[start + 2..end]), rest);
    SpanJoined(s, i, start, end);
  }

  lemma PrintMore(span: Span, rest: Message)
    ensures var spans := [span] + rest.spans;
      && Print(spans, rest.tail) == span.seen + "||" + span.hidden + "||" + Print(rest.spans, rest.tail)
      && (Clear(span.seen) && Clear(span.hidden) && MessageOk(rest) ==> MessageOk(Message(spans, rest.tail)))
  {
    hide Clear, HasSpan;
    assert ([span] + rest.spans)[1..] == rest.spans;
  }

  lemma TailAlone(tail: string)
    requires !HasSpan(tail)
    ensures MessageOk(Message([], tail)) && Print([], tail) == tail
  {
  }

  lemma SpanJoined(s: string, i: nat, start: nat, end: nat)
    requires i <= start && start + 2 <= end && MarkerAt(s, start) && MarkerAt(s, end)
    ensures s[i..] == s[i..start] + "||" + s[start + 2..end] + "||" + s[end + 2..]
  {
    assert s[start..start + 2] == "||" && s[end..end + 2] == "||";
  }

  lemma UpToIndexIsClear(s: string, i: nat)
    requires i <= |s| && Index(s, i).Some?
    ensures Clear(s[i..Index(s, i).value])
  {
    var at := Index(s, i).value;
    var seen := s[i..at];
    forall k: nat
      ensures !MarkerAt(seen, k)
    {
      assert MarkerAt(seen, k) ==> MarkerAt(s, i + k);
    }
    assert seen != [] ==> seen[|seen| - 1] == s[at - 1] && !MarkerAt(s, at - 1);
  }

  lemma NoSpanLeft(s: string, i: nat)
    requires i <= |s| && (Index(s, i).None? || Index(s, Index(s, i).value + 2).None?)
    ensures !HasSpan(s[i..])
  {
    forall p: nat, q: nat | MarkerAt(s[i..], p) && MarkerAt(s[i..], q)
      ensures p + 2 > q
    {
      assert MarkerAt(s, i + p) && MarkerAt(s, i + q);
    }
  }

  lemma ClearIsReached(s: string, i: nat, seen: string)
    requires Clear(seen) && i + |seen| <= |s| && s[i..i + |seen|] == seen && MarkerAt(s, i + |seen|)
    ensures Index(s, i) == Some(i + |seen|)
  {
    forall k: nat | i <= k < i + |seen|
      ensures !MarkerAt(s, k)
    {
      assert s[k] == seen[k - i];
      if k + 1 < i + |seen| {
        assert s[k + 1] == seen[k + 1 - i];
        assert !MarkerAt(seen, k - i);
      }
    }
  }

  lemma ParsedSpan(s: string, i: nat, start: nat, end: nat)
    requires i <= |s| && Index(s, i) == Some(start) && Index(s, start + 2) == Some(end)
    ensures var rest := Parse(s, end + 2);
      Parse(s, i) == Message([Span(s[i..start], s[start + 2..end])] + rest.spans, rest.tail)
  {
  }

  /** Every well-formed message is read back as it was, spoilers with single bars in them included. */
  lemma {:induction false} PrintedIsParsed(s: string, i: nat, m: Message)
    requires i <= |s| && s[i..] == Print(m.spans, m.tail) && MessageOk(m)
    ensures Parse(s, i) == m
    decreases |m.spans|
  {
    hide HasSpan, Clear, MarkerAt, Parse, Index;
    if m.spans == [] {
      TailIsParsed(s, i);
    } else {
      var span, rest := m.spans[0], Message(m.spans[1..], m.tail);
      assert span in m.spans && m.spans == [span] + rest.spans;
      PrintedSpanIsParsed(s, i, span, rest);
      PrintedIsParsed(s, i + |span.seen| + |span.hidden| + 4, rest);
    }
  }

  lemma TailIsParsed(s: string, i: nat)
    requires i <= |s| && !HasSpan(s[i..])
    ensures Parse(s, i) == Message([], s[i..])
  {
    hide HasSpan, MarkerAt;
    NoSpanInTail(s, i);
  }

  lemma PrintedSpanIsParsed(s: string, i: nat, span: Span, rest: Message)
    requires i <= |s| && s[i..] == span.seen + "||" + span.hidden + "||" + Print(rest.spans, rest.tail)
    requires Clear(span.seen) && Clear(span.hidden)
    ensures var next := i + |span.seen| + |span.hidden| + 4;
      && next <= |s| && s[next..] == Print(rest.spans, rest.tail)
      && Parse(s, i) == Message([span] + Parse(s, next).spans, Parse(s, next).tail)
  {
    hide Clear, MarkerAt, Print, Index, Parse;
    var start := i + |span.seen|;
    var end := start + 2 + |span.hidden|;
    SpanSplit(s, i, span, Print(rest.spans, rest.tail));
    ClearIsReached(s, i, span.seen);
    ClearIsReached(s, start + 2, span.hidden);
    ParsedSpan(s, i, start, end);
  }

  lemma SpanSplit(s: string, i: nat, span: Span, rest: string)
    requires i <= |s| && s[i..] == span.seen + "||" + span.hidden + "||" + rest
    ensures var start := i + |span.seen|; var end := start + 2 + |span.hidden|;
      && end + 2 <= |s|
      && s[i..start] == span.seen && MarkerAt(s, start) && s[start + 2..end] == span.hidden && MarkerAt(s, end)
      && s[end + 2..] == rest
  {
    var start := i + |span.seen|;
    var end := start + 2 + |span.hidden|;
    var t := s[i..];
    assert t[..|span.seen|] == span.seen && t[|span.seen|..|span.seen| + 2] == "||";
    assert t[|span.seen| + 2..end - i] == span.hidden && t[end - i..end - i + 2] == "||" && t[end - i + 2..] == rest;
    assert forall k | 0 <= k < |t| :: t[k] == s[i + k];
    assert t[|span.seen|] == "||"[0] && t[|span.seen| + 1] == "||"[1] && t[end - i] == "||"[0] && t[end - i + 1] == "||"[1];
  }

  lemma NoSpanInTail(s: string, i: nat)
    requires i <= |s| && !HasSpan(s[i..])
    ensures Index(s, i).None? || Index(s, Index(s, i).value + 2).None?
  {
    if Index(s, i).Some? && Index(s, Index(s, i).value + 2).Some? {
      var p := Index(s, i).value;
      var q := Index(s, p + 2).value;
      assert MarkerAt(s[i..], p - i) && MarkerAt(s[i..], q - i);
    }
  }

  predicate SameSeen(spans: seq<Span>, spans': seq<Span>) {
    |spans| == |spans'| && forall k | 0 <= k < |spans| :: spans[k].seen == spans'[k].seen
  }

  lemma {:induction false} VisibleIgnoresHidden(spans: seq<Span>, spans': seq<Span>, tail: string)
    requires SameSeen(spans, spans')
    ensures Visible(spans, tail) == Visible(spans', tail)
  {
    if spans != [] {
      VisibleIgnoresHidden(spans[1..], spans'[1..], tail);
    }
  }

  /** Whatever is written inside the spoilers, what is matched against triggers is the same. */
  lemma HiddenTextNeverMatters(m: Message, m': Message)
    requires MessageOk(m) && MessageOk(m') && SameSeen(m.spans, m'.spans) && m.tail == m'.tail
    ensures Stripped(Print(m.spans, m.tail)) == Stripped(Print(m'.spans, m'.tail))
  {
    var s, s' := Print(m.spans, m.tail), Print(m'.spans, m'.tail);
    assert s[0..] == s && s'[0..] == s';
    PrintedIsParsed(s, 0, m);
    PrintedIsParsed(s', 0, m');
    VisibleIgnoresHidden(m.spans, m'.spans, m.tail);
  }

  // ------------------------------------------------------------------ no span is left

  lemma MarkersSpaced(a: string, b: string, p: nat)
    requires NoMarker(a) && MarkerAt(a + " " + b, p)
    ensures p > |a| && MarkerAt(b, p - |a| - 1)
  {
    var s := a + " " + b;
    assert forall k | 0 <= k < |b| :: s[|a| + 1 + k] == b[k];
    assert s[|a|] == ' ';
    assert p + 1 < |a| ==> MarkerAt(a, p);
  }

  lemma {:induction false} VisibleHasNoSpan(spans: seq<Span>, tail: string)
    requires MessageOk(Message(spans, tail))
    ensures !HasSpan(Visible(spans, tail))
  {
    if spans != [] {
      var seen, rest := spans[0].seen, Visible(spans[1..], tail);
      assert spans[0] in spans;
      assert forall span | span in spans[1..] :: span in spans;
      assert MessageOk(Message(spans[1..], tail));
      VisibleHasNoSpan(spans[1..], tail);
      forall p: nat, q: nat | MarkerAt(Visible(spans, tail), p) && MarkerAt(Visible(spans, tail), q)
        ensures p + 2 > q
      {
        MarkersSpaced(seen, rest, p);
        MarkersSpaced(seen, rest, q);
      }
    }
  }

  // ------------------------------------------------------------------ collapsing white space

  lemma {:induction false} JoinMore(words: seq<string>, last: string, c: char)
    ensures Join(words + [last + [c]]) == Join(words + [last]) + [c]
    ensures Join(words + [last]) == if words == [] then last else Join(words) + " " + last
  {
    assert (words + [last])[..|words|] == words && (words + [last + [c]])[..|words|] == words;
  }

  /** One more character: white space waits, and is one space once another word follows. */
  lemma CollapseStep(s: string, c: char)
    ensures Collapse(s + [c]) ==
      if IsSpace(c) then Collapse(s)
      else if Collect(s).current != "" || Collect(s).done == [] then Collapse(s) + [c]
      else Collapse(s) + " " + [c]
  {
    assert (s + [c])[..|s|] == s;
    var w := Collect(s);
    JoinMore(w.done, w.current, c);
    if w.current == "" && !IsSpace(c) {
      assert w.current + [c] == [c];
    }
  }

  /** Where each character of a collapsed text came from; an inserted space from the white space before. */
  function Origins(s: string): seq<nat> {
    if s == [] then []
    else
      var n := |s| - 1;
      var earlier, w := Origins(s[..n]), Collect(s[..n]);
      if IsSpace(s[n]) then earlier
      else if w.current != "" || w.done == [] || n == 0 then earlier + [n]
      else earlier + [n - 1, n]
  }

  ghost predicate TracedTo(s: string, out: string, from: seq<nat>) {
    && |from| == |out|
    && (forall k | 0 <= k < |out| :: from[k] < |s|
          && if IsSpace(s[from[k]]) then out[k] == ' ' else out[k] == s[from[k]])
    && (forall j, k | 0 <= j < k < |out| :: from[j] < from[k])
    && (forall k | 0 < k < |out| && out[k - 1] != ' ' && out[k] != ' ' :: from[k] == from[k - 1] + 1)
  }

  ghost predicate EndsTraced(s: string, out: string, from: seq<nat>, w: Words) {
    && |from| == |out|
    && (out == "" <==> w.done == [] && w.current == "")
    && (out != "" ==> out[|out| - 1] != ' ' && from[|out| - 1] < |s|)
    && (w.current != "" ==> s != "" && out != "" && from[|out| - 1] == |s| - 1)
    && (w.current == "" && s != "" ==> IsSpace(s[|s| - 1]))
    && (w.current == "" && out != "" ==> from[|out| - 1] < |s| - 1)
  }

  ghost predicate Traced(s: string, out: string, from: seq<nat>, w: Words) {
    TracedTo(s, out, from) && EndsTraced(s, out, from, w)
  }

  lemma TracedSpace(s: string, c: char, out: string, from: seq<nat>, w: Words)
    requires Traced(s, out, from, w) && IsSpace(c)
    ensures w.current == "" ==> Traced(s + [c], out, from, w)
    ensures w.current != "" ==> Traced(s + [c], out, from, Words(w.done + [w.current], ""))
  {
    hide IsSpace;
  }

  lemma TracedNext(s: string, c: char, out: string, from: seq<nat>, w: Words)
    requires Traced(s, out, from, w) && !IsSpace(c) && (w.current != "" || w.done == [])
    ensures Traced(s + [c], out + [c], from + [|s|], Words(w.done, w.current + [c]))
  {
    SpaceIsSpace(c);
    hide IsSpace;
  }

  lemma TracedGap(s: string, c: char, out: string, from: seq<nat>, w: Words)
    requires Traced(s, out, from, w) && !IsSpace(c) && w.current == "" && w.done != [] && s != ""
    ensures Traced(s + [c], out + " " + [c], from + [|s| - 1, |s|], Words(w.done, w.current + [c]))
  {
    SpaceIsSpace(c);
    hide IsSpace;
  }

  lemma SpaceIsSpace(c: char)
    ensures !IsSpace(c) ==> c != ' '
  {
  }

  lemma {:induction false} CollapseIsTraced(s: string)
    ensures Traced(s, Collapse(s), Origins(s), Collect(s))
  {
    hide Collapse, Traced, IsSpace;
    if s == "" {
      NothingTraced();
    } else {
      var n := |s| - 1;
      var t, c := s[..n], s[n];
      assert s == t + [c];
      CollapseIsTraced(t);
      CollapseStep(t, c);
      var out, from, w := Collapse(t), Origins(t), Collect(t);
      if IsSpace(c) {
        TracedSpace(t, c, out, from, w);
      } else if w.current != "" || w.done == [] {
        TracedNext(t, c, out, from, w);
      } else {
        TracedGap(t, c, out, from, w);
      }
    }
  }

  lemma NothingTraced()
    ensures Traced("", Collapse(""), Origins(""), Collect(""))
  {
  }

  lemma SpanCameFrom(s: string, p: nat, q: nat)
    requires MarkerAt(Collapse(s), p) && MarkerAt(Collapse(s), q) && p + 2 <= q
    ensures HasSpan(s)
  {
    CollapseIsTraced(s);
    BarIsNoSpace();
    hide Collapse, Origins, Collect, IsSpace;
    var from := Origins(s);
    assert MarkerAt(s, from[p]) && MarkerAt(s, from[q]);
    assert from[p + 1] < from[q];
  }

  lemma CollapseMakesNoSpan(s: string)
    requires !HasSpan(s)
    ensures !HasSpan(Collapse(s))
  {
    hide Collapse, MarkerAt;
    if p: nat, q: nat :| MarkerAt(Collapse(s), p) && MarkerAt(Collapse(s), q) && p + 2 <= q {
      SpanCameFrom(s, p, q);
    }
  }

  lemma BarIsNoSpace()
    ensures !IsSpace(BAR) && IsSpace(' ')
  {
  }

  /** Single spaces only, and none in front. */
  predicate Spaced(s: string) {
    && (s != "" ==> !IsSpace(s[0]))
    && (forall k | 0 <= k < |s| && IsSpace(s[k]) :: s[k] == ' ')
    && (forall k | 0 < k < |s| && IsSpace(s[k]) :: !IsSpace(s[k - 1]))
  }

  predicate EndsInSpace(s: string) {
    s != "" && IsSpace(s[|s| - 1])
  }

  lemma SpacedBefore(s: string, n: nat)
    requires Spaced(s) && n < |s|
    ensures Spaced(s[..n]) && (IsSpace(s[n]) ==> s[n] == ' ' && n > 0 && !EndsInSpace(s[..n]))
  {
    hide IsSpace;
    assert forall k | 0 <= k < n :: s[..n][k] == s[k];
  }

  ghost predicate CollapsesTo(s: string, out: string, w: Words) {
    && out == (if EndsInSpace(s) then s[..|s| - 1] else s)
    && (w.current == "" <==> s == "" || EndsInSpace(s))
    && (w.done == [] && w.current == "" <==> s == "")
  }

  lemma CollapsesMore(s: string, c: char, out: string, w: Words)
    requires Spaced(s) && CollapsesTo(s, out, w) && (IsSpace(c) ==> c == ' ' && s != "" && !EndsInSpace(s))
    requires EndsInSpace(s) ==> s[|s| - 1] == ' '
    ensures IsSpace(c) ==> CollapsesTo(s + [c], out, Words(w.done + [w.current], ""))
    ensures !IsSpace(c) ==>
      CollapsesTo(s + [c], if w.current != "" || w.done == [] then out + [c] else out + " " + [c], Words(w.done, w.current + [c]))
  {
    hide IsSpace;
    assert (s + [c])[..|s|] == s;
    assert EndsInSpace(s) ==> s == s[..|s| - 1] + " ";
  }

  lemma {:induction false} SpacedCollapses(s: string)
    requires Spaced(s)
    ensures CollapsesTo(s, Collapse(s), Collect(s))
  {
    if s == "" {
      assert Collapse(s) == "";
    } else {
      hide Collapse, CollapsesTo, IsSpace;
      var n := |s| - 1;
      assert s == s[..n] + [s[n]];
      SpacedBefore(s, n);
      SpacedCollapses(s[..n]);
      CollapseStep(s[..n], s[n]);
      if IsSpace(s[n]) {
        StandsAlone(s[..n], Collapse(s[..n]), Collect(s[..n]));
      }
      CollapsesMore(s[..n], s[n], Collapse(s[..n]), Collect(s[..n]));
    }
  }

  /** A text that does not end in white space is in the middle of a word. */
  lemma StandsAlone(s: string, out: string, w: Words)
    requires CollapsesTo(s, out, w) && s != "" && !EndsInSpace(s)
    ensures w.current != ""
  {
  }

  /** Single spaces only, and none in front or behind. */
  predicate Neat(s: string) {
    Spaced(s) && !EndsInSpace(s)
  }

  lemma NeatMore(s: string, c: char)
    requires Neat(s) && !IsSpace(c)
    ensures Neat(s + [c]) && (s != "" ==> Neat(s + " " + [c]))
  {
    BarIsNoSpace();
    hide IsSpace;
    assert forall k | 0 <= k < |s| :: (s + [c])[k] == s[k] == (s + " " + [c])[k];
  }

  lemma {:induction false} CollapsedIsNeat(s: string)
    ensures Neat(Collapse(s))
    ensures Collapse(s) == "" <==> Collect(s).done == [] && Collect(s).current == ""
  {
    if s == "" {
      assert Collapse(s) == "";
    } else {
      hide Collapse, Neat, IsSpace;
      var n := |s| - 1;
      assert s == s[..n] + [s[n]];
      CollapsedIsNeat(s[..n]);
      CollapseStep(s[..n], s[n]);
      if !IsSpace(s[n]) {
        NeatMore(Collapse(s[..n]), s[n]);
      }
    }
  }

  // ------------------------------------------------------------------ words

  predicate IsWord(w: string) {
    w != "" && forall k | 0 <= k < |w| :: !IsSpace(w[k])
  }

  predicate AllWords(words: seq<string>) {
    forall w | w in words :: IsWord(w)
  }

  lemma {:induction false} CollectAfterSpace(a: string, c: char, b: string)
    requires IsSpace(c)
    ensures Collect(a + [c] + b) == Words(Fields(a) + Collect(b).done, Collect(b).current)
  {
    if b == "" {
      assert a + [c] + b == a + [c] && (a + [c])[..|a|] == a;
    } else {
      var n := |b| - 1;
      CollectAfterSpace(a, c, b[..n]);
      assert (a + [c] + b)[..|a| + 1 + n] == a + [c] + b[..n];
    }
  }

  lemma SpaceSeparates(a: string, c: char, b: string)
    requires IsSpace(c)
    ensures Fields(a + [c] + b) == Fields(a) + Fields(b)
  {
    CollectAfterSpace(a, c, b);
  }

  lemma {:induction false} OneWord(w: string)
    requires forall k | 0 <= k < |w| :: !IsSpace(w[k])
    ensures Collect(w) == Words([], w)
  {
    if w != "" {
      OneWord(w[..|w| - 1]);
    }
  }

  lemma {:induction false} CollectedAreWords(s: string)
    ensures AllWords(Collect(s).done) && (Collect(s).current != "" ==> IsWord(Collect(s).current))
  {
    if s != "" {
      CollectedAreWords(s[..|s| - 1]);
    }
  }

  lemma OneWordIsField(w: string)
    requires IsWord(w)
    ensures Fields(w) == [w]
  {
    OneWord(w);
  }

  lemma {:induction false} JoinedWords(words: seq<string>)
    requires AllWords(words)
    ensures Fields(Join(words)) == words
  {
    hide Fields, IsWord, IsSpace;
    if words == [] {
      NoFields();
    } else {
      var n := |words| - 1;
      assert words == words[..n] + [words[n]] && words[n] in words;
      OneWordIsField(words[n]);
      if n > 0 {
        JoinedWords(words[..n]);
        BarIsNoSpace();
        SpaceSeparates(Join(words[..n]), ' ', words[n]);
      }
    }
  }

  lemma NoFields()
    ensures Fields("") == []
  {
  }

  /** The words that can be seen, in order. */
  function SeenWords(spans: seq<Span>, tail: string): seq<string> {
    if spans == [] then Fields(tail) else Fields(spans[0].seen) + SeenWords(spans[1..], tail)
  }

  lemma {:induction false} VisibleWords(spans: seq<Span>, tail: string)
    ensures Fields(Visible(spans, tail)) == SeenWords(spans, tail)
  {
    if spans != [] {
      VisibleWords(spans[1..], tail);
      BarIsNoSpace();
      SpaceSeparates(spans[0].seen, ' ', Visible(spans[1..], tail));
    }
  }

  // ------------------------------------------------------------------ the whole of it

  /** The words left are exactly those outside the spoilers, in order; a spoiler parts the words around it. */
  lemma SeenWordsSurvive(m: Message)
    requires MessageOk(m)
    ensures Fields(Stripped(Print(m.spans, m.tail))) == SeenWords(m.spans, m.tail)
  {
    hide MessageOk, Collect;
    var s := Print(m.spans, m.tail);
    assert s[0..] == s;
    PrintedIsParsed(s, 0, m);
    VisibleWords(m.spans, m.tail);
    FieldsAreWords(Seen(m));
    JoinedWords(Fields(Seen(m)));
  }

  lemma FieldsAreWords(s: string)
    ensures AllWords(Fields(s))
  {
    CollectedAreWords(s);
  }

  lemma StrippedHasNoSpan(s: string)
    ensures !HasSpan(Stripped(s))
  {
    hide HasSpan, MessageOk, Visible;
    ParseReadsAll(s, 0);
    VisibleHasNoSpan(Parse(s, 0).spans, Parse(s, 0).tail);
    CollapseMakesNoSpan(Seen(Parse(s, 0)));
  }

  /** No white space at the ends, and single spaces only between words. */
  lemma StrippedIsNeat(s: string)
    ensures var r := Stripped(s);
      && (r != "" ==> !IsSpace(r[0]) && !IsSpace(r[|r| - 1]))
      && (forall k | 0 <= k < |r| && IsSpace(r[k]) :: r[k] == ' ')
      && (forall k | 0 < k < |r| && IsSpace(r[k]) :: !IsSpace(r[k - 1]))
  {
    CollapsedIsNeat(Seen(Parse(s, 0)));
    hide IsSpace;
  }

  /** What is left has no span to strip, so stripping again changes nothing. */
  lemma StrippingTwiceIsOnce(s: string)
    ensures Stripped(Stripped(s)) == Stripped(s)
  {
    hide HasSpan, Collapse;
    var t := Stripped(s);
    StrippedHasNoSpan(s);
    assert t[0..] == t;
    NoSpanInTail(t, 0);
    TailSeen(t, 0);
    CollapsedIsNeat(Seen(Parse(s, 0)));
    SpacedCollapses(t);
  }
}
