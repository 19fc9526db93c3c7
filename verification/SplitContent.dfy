/** Cutting a long message into chunks that a platform accepts. */
module SplitContent {
  import opened GoStrings
  import opened Wrappers

  const NEWLINE: Byte := 0x0A

  // ------------------------------------------------------------------ lines

  /** strings.Split on newlines: never empty. */
  function Lines(s: Bytes): (lines: seq<Bytes>)
    ensures lines != []
  {
    if s == [] then [[]]
    else
      var earlier := Lines(s[..|s| - 1]);
      var last := s[|s| - 1];
      if last == NEWLINE then earlier + [[]] else Extended(earlier, last)
  }

  /** One more byte on the last line. */
  function Extended(lines: seq<Bytes>, b: Byte): (r: seq<Bytes>)
    requires lines != []
    ensures r != []
  {
    lines[..|lines| - 1] + [lines[|lines| - 1] + [b]]
  }

  /** The lines that hold anything. */
  function NonEmpty(lines: seq<Bytes>): seq<Bytes> {
    if lines == [] then []
    else
      NonEmpty(lines[..|lines| - 1]) + if lines[|lines| - 1] == [] then [] else [lines[|lines| - 1]]
  }

  /** All that the chunks say, line by line. */
  function Said(chunks: seq<Bytes>): seq<Bytes> {
    if chunks == [] then [] else Said(chunks[..|chunks| - 1]) + NonEmpty(Lines(chunks[|chunks| - 1]))
  }

  // ------------------------------------------------------------------ cuts

  /** The last position up to the limit that is not inside a character, or the limit if there is none. */
  function CutBelow(line: Bytes, cut: nat): nat
    requires cut < |line|
  {
    if cut > 0 && Continues(line[cut]) then CutBelow(line, cut - 1) else cut
  }

  function Cut(line: Bytes, limit: nat): (cut: nat)
    requires 0 < limit < |line|
    ensures 0 < cut <= limit
  {
    CutAtMost(line, limit);
    if CutBelow(line, limit) == 0 then limit else CutBelow(line, limit)
  }

  lemma {:induction false} CutAtMost(line: Bytes, cut: nat)
    requires cut < |line|
    ensures CutBelow(line, cut) <= cut
    ensures CutBelow(line, cut) > 0 ==> !Continues(line[CutBelow(line, cut)])
    ensures forall k | CutBelow(line, cut) < k <= cut :: Continues(line[k])
  {
    if cut > 0 && Continues(line[cut]) {
      CutAtMost(line, cut - 1);
    }
  }

  /** A line that fits stays whole; a longer one is cut, and the last piece fits. */
  function Cuts(line: Bytes, limit: nat): seq<Bytes>
    requires limit > 0
    decreases |line|
  {
    if |line| <= limit then [line]
    else
      [line[..Cut(line, limit)]] + Cuts(line[Cut(line, limit)..], limit)
  }

  /** Every line in order, those that do not fit cut, and the blank ones left out. */
  function Pieces(lines: seq<Bytes>, limit: nat): seq<Bytes>
    requires limit > 0
  {
    if lines == [] then [] else Pieces(lines[..|lines| - 1], limit) + NonEmpty(Cuts(lines[|lines| - 1], limit))
  }

  // ------------------------------------------------------------------ lines put together and taken apart

  lemma {:induction false} OneLine(line: Bytes)
    requires NEWLINE !in line
    ensures Lines(line) == [line]
  {
    if line != [] {
      var n := |line| - 1;
      OneLine(line[..n]);
      assert line[n] in line && line == line[..n] + [line[n]];
    }
  }

  lemma ExtendedAppend(a: seq<Bytes>, b: seq<Bytes>, last: Byte)
    requires b != []
    ensures Extended(a + b, last) == a + Extended(b, last)
  {
    assert (a + b)[..|a + b| - 1] == a + b[..|b| - 1];
  }

  lemma {:induction false} LinesJoin(s: Bytes, t: Bytes)
    ensures Lines(s + [NEWLINE] + t) == Lines(s) + Lines(t)
  {
    hide Extended;
    var whole := s + [NEWLINE] + t;
    if t == [] {
      assert whole[..|whole| - 1] == s;
    } else {
      var n := |t| - 1;
      LinesJoin(s, t[..n]);
      assert whole[..|whole| - 1] == s + [NEWLINE] + t[..n];
      assert whole[|whole| - 1] == t[n];
      ExtendedAppend(Lines(s), Lines(t[..n]), t[n]);
      assert Lines(s) + Lines(t[..n]) + [[]] == Lines(s) + (Lines(t[..n]) + [[]]);
    }
  }

  lemma {:induction false} LinesAreLines(s: Bytes)
    ensures forall line | line in Lines(s) :: NEWLINE !in line && |line| <= |s|
  {
    if s != [] {
      var n := |s| - 1;
      LinesAreLines(s[..n]);
      var earlier := Lines(s[..n]);
      assert earlier[|earlier| - 1] in earlier;
      assert forall line | line in earlier[..|earlier| - 1] :: line in earlier;
    }
  }

  lemma {:induction false} NonEmptyConcat(a: seq<Bytes>, b: seq<Bytes>)
    ensures NonEmpty(a + b) == NonEmpty(a) + NonEmpty(b)
  {
    if b == [] {
      assert a + b == a;
    } else {
      NonEmptyConcat(a, b[..|b| - 1]);
      assert (a + b)[..|a + b| - 1] == a + b[..|b| - 1];
    }
  }

  lemma NonEmptyOne(line: Bytes)
    ensures NonEmpty([line]) == if line == [] then [] else [line]
  {
    assert [line][..0] == [];
  }

  lemma SaidMore(chunks: seq<Bytes>, chunk: Bytes)
    ensures Said(chunks + [chunk]) == Said(chunks) + NonEmpty(Lines(chunk))
  {
    assert (chunks + [chunk])[..|chunks|] == chunks;
  }

  lemma PiecesMore(lines: seq<Bytes>, k: nat, limit: nat)
    requires k < |lines| && limit > 0
    ensures Pieces(lines[..k + 1], limit) == Pieces(lines[..k], limit) + NonEmpty(Cuts(lines[k], limit))
  {
    assert lines[..k + 1][..k] == lines[..k];
  }

  lemma {:induction false} FittingPieces(lines: seq<Bytes>, limit: nat)
    requires limit > 0 && forall line | line in lines :: |line| <= limit
    ensures Pieces(lines, limit) == NonEmpty(lines)
  {
    if lines != [] {
      var n := |lines| - 1;
      assert lines[n] in lines;
      FittingPieces(lines[..n], limit);
      NonEmptyOne(lines[n]);
    }
  }

  // ------------------------------------------------------------------ characters

  lemma CutOnBoundary(line: Bytes, limit: nat)
    requires ValidWithin(line, limit) && 0 < limit < |line|
    ensures ValidWithin(line[..Cut(line, limit)], limit) && ValidWithin(line[Cut(line, limit)..], limit)
  {
    hide ValidWithin;
    FirstBoundary(line, limit);
    CutAtMost(line, limit);
    assert CutBelow(line, limit) >= RuneLength(line);
    WithinCut(line, Cut(line, limit), limit);
  }

  /** A cut keeps within one character of the limit. */
  lemma CutNearLimit(line: Bytes, limit: nat)
    requires ValidWithin(line, limit) && 0 < limit < |line|
    ensures limit < Cut(line, limit) + 4
  {
    hide ValidUtf8, ValidWithin;
    ValidIsWithin(line, limit);
    CutAtMost(line, limit);
    if limit >= 4 {
      NoFourContinue(line, limit - 3);
    }
  }

  lemma AfterNewline(s: Bytes, j: nat, limit: nat)
    requires ValidWithin(s, limit) && j < |s| && s[j] == NEWLINE
    ensures ValidWithin(s[..j], limit) && ValidWithin(s[j + 1..], limit)
  {
    WithinCut(s, j, limit);
    assert s[j..][0] == NEWLINE && s[j..][1..] == s[j + 1..];
  }

  lemma {:induction false} ValidLines(s: Bytes, limit: nat)
    requires ValidWithin(s, limit)
    ensures forall line | line in Lines(s) :: ValidWithin(line, limit)
    decreases |s|
  {
    hide ValidWithin;
    if NEWLINE !in s {
      OneLine(s);
    } else {
      var j :| 0 <= j < |s| && s[j] == NEWLINE;
      AfterNewline(s, j, limit);
      ValidLines(s[..j], limit);
      ValidLines(s[j + 1..], limit);
      assert s == s[..j] + [NEWLINE] + s[j + 1..];
      LinesJoin(s[..j], s[j + 1..]);
    }
  }

  lemma {:induction false} OnlyNewlinesIsValid(gap: Bytes, limit: nat)
    requires OnlyNewlines(gap) && limit > 0
    ensures ValidWithin(gap, limit)
  {
    if gap != [] {
      assert gap[0] in gap && forall b | b in gap[1..] :: b in gap;
      OnlyNewlinesIsValid(gap[1..], limit);
    }
  }

  lemma ValidJoin(s: Bytes, t: Bytes, limit: nat)
    requires ValidWithin(s, limit) && ValidWithin(t, limit) && limit > 0
    ensures ValidWithin(s + [NEWLINE] + t, limit)
  {
    OnlyNewlinesIsValid([NEWLINE], limit);
    WithinConcat(s, [NEWLINE], limit);
    WithinConcat(s + [NEWLINE], t, limit);
  }

  // ------------------------------------------------------------------ where the chunks come from

  predicate OnlyNewlines(gap: Bytes) {
    forall b | b in gap :: b == 0x0A
  }

  /** The chunks with what stands before, between and after them. */
  function Spread(chunks: seq<Bytes>, gaps: seq<Bytes>): Bytes
    requires |gaps| == |chunks| + 1
  {
    if chunks == [] then gaps[0]
    else
      var n := |chunks| - 1;
      Spread(chunks[..n], gaps[..n + 1]) + chunks[n] + gaps[n + 1]
  }

  /** The chunks are slices of a text, in order, with nothing but newlines around them. */
  ghost predicate SlicesOf(text: Bytes, chunks: seq<Bytes>) {
    exists gaps: seq<Bytes> :: Gaps(text, chunks, gaps)
  }

  predicate Gaps(text: Bytes, chunks: seq<Bytes>, gaps: seq<Bytes>) {
    |gaps| == |chunks| + 1 && (forall gap | gap in gaps :: OnlyNewlines(gap)) && Spread(chunks, gaps) == text
  }

  lemma SpreadMore(chunks: seq<Bytes>, gaps: seq<Bytes>, chunk: Bytes, gap: Bytes)
    requires |gaps| == |chunks| + 1
    ensures Spread(chunks + [chunk], gaps + [gap]) == Spread(chunks, gaps) + chunk + gap
  {
    assert (chunks + [chunk])[..|chunks|] == chunks && (gaps + [gap])[..|gaps|] == gaps;
  }

  lemma SliceMore(text: Bytes, chunks: seq<Bytes>, chunk: Bytes)
    requires SlicesOf(text, chunks)
    ensures SlicesOf(text + chunk, chunks + [chunk])
  {
    hide Spread;
    var gaps :| Gaps(text, chunks, gaps);
    SpreadMore(chunks, gaps, chunk, []);
    assert text + chunk + [] == text + chunk;
    assert Gaps(text + chunk, chunks + [chunk], gaps + [[]]);
  }

  lemma NewlineMore(text: Bytes, chunks: seq<Bytes>)
    requires SlicesOf(text, chunks)
    ensures SlicesOf(text + [NEWLINE], chunks)
  {
    var gaps :| Gaps(text, chunks, gaps);
    var n := |chunks|;
    var last := gaps[n] + [NEWLINE];
    var wider := gaps[..n] + [last];
    assert gaps == gaps[..n] + [gaps[n]] && gaps[n] in gaps;
    if n == 0 {
      assert wider[0] == last;
    } else {
      assert wider[..n] == gaps[..n];
      assert Spread(chunks[..n - 1], gaps[..n]) + chunks[n - 1] + last == text + [NEWLINE];
    }
    assert Gaps(text + [NEWLINE], chunks, wider);
  }

  lemma NothingSliced()
    ensures SlicesOf([], [])
  {
    assert Gaps([], [], [[]]);
  }

  /** The lines with the newlines between them. */
  function Joined(lines: seq<Bytes>): Bytes {
    if lines == [] then []
    else if |lines| == 1 then lines[0]
    else Joined(lines[..|lines| - 1]) + [NEWLINE] + lines[|lines| - 1]
  }

  lemma JoinedMore(lines: seq<Bytes>, k: nat)
    requires k < |lines|
    ensures Joined(lines[..k + 1]) == if k == 0 then lines[0] else Joined(lines[..k]) + [NEWLINE] + lines[k]
  {
    assert lines[..k + 1][..k] == lines[..k];
  }

  lemma JoinedExtended(lines: seq<Bytes>, b: Byte)
    requires lines != []
    ensures Joined(Extended(lines, b)) == Joined(lines) + [b]
  {
    var n := |lines| - 1;
    var more := Extended(lines, b);
    assert more[..n] == lines[..n];
    if n > 0 {
      assert Joined(lines[..n]) + [NEWLINE] + (lines[n] + [b]) == Joined(lines[..n]) + [NEWLINE] + lines[n] + [b];
    }
  }

  lemma {:induction false} LinesMakeUp(s: Bytes)
    ensures Joined(Lines(s)) == s
  {
    if s != [] {
      var n := |s| - 1;
      LinesMakeUp(s[..n]);
      var earlier := Lines(s[..n]);
      if s[n] == NEWLINE {
        assert (earlier + [[]])[..|earlier|] == earlier;
      } else {
        JoinedExtended(earlier, s[n]);
      }
      assert s == s[..n] + [s[n]];
    }
  }

  /** Of a text, all but what is in hand has been sent. */
  ghost predicate Placed(text: Bytes, chunks: seq<Bytes>, current: Bytes) {
    && |current| <= |text| && text[|text| - |current|..] == current
    && SlicesOf(text[..|text| - |current|], chunks)
  }

  lemma PlacedMore(text: Bytes, chunks: seq<Bytes>, current: Bytes, more: Bytes)
    requires Placed(text, chunks, current)
    ensures Placed(text + more, chunks, current + more)
  {
    var n := |text| - |current|;
    assert (text + more)[..n] == text[..n] && (text + more)[n..] == current + more;
  }

  lemma PlacedNewline(text: Bytes, chunks: seq<Bytes>)
    requires Placed(text, chunks, [])
    ensures Placed(text + [NEWLINE], chunks, [])
  {
    assert text[..|text|] == text;
    NewlineMore(text, chunks);
    assert (text + [NEWLINE])[..|text| + 1] == text + [NEWLINE];
  }

  lemma PlacedChunk(text: Bytes, chunks: seq<Bytes>, current: Bytes, cut: nat)
    requires Placed(text, chunks, current) && cut <= |current|
    ensures Placed(text, chunks + [current[..cut]], current[cut..])
  {
    var n := |text| - |current|;
    SliceMore(text[..n], chunks, current[..cut]);
    assert text[..n] + current[..cut] == text[..n + cut];
  }

  /** Whatever chunks within the limit a text is cut into, if all of them are valid then so is the text, and none of
      its characters is longer than the limit. */
  lemma ValidSlices(text: Bytes, chunks: seq<Bytes>, limit: nat)
    requires AllFit(chunks, limit) && AllValid(chunks) && SlicesOf(text, chunks) && limit > 0
    ensures ValidWithin(text, limit)
  {
    var gaps :| Gaps(text, chunks, gaps);
    ValidSpread(chunks, gaps, limit);
  }

  lemma {:induction false} ValidSpread(chunks: seq<Bytes>, gaps: seq<Bytes>, limit: nat)
    requires AllFit(chunks, limit) && AllValid(chunks) && limit > 0
    requires |gaps| == |chunks| + 1 && forall gap | gap in gaps :: OnlyNewlines(gap)
    ensures ValidWithin(Spread(chunks, gaps), limit)
  {
    hide ValidUtf8, ValidWithin, OnlyNewlines;
    var n := |chunks|;
    assert gaps[n] in gaps;
    OnlyNewlinesIsValid(gaps[n], limit);
    if n > 0 {
      assert forall chunk | chunk in chunks[..n - 1] :: chunk in chunks;
      assert forall gap | gap in gaps[..n] :: gap in gaps;
      ValidSpread(chunks[..n - 1], gaps[..n], limit);
      assert chunks[n - 1] in chunks;
      ValidIsWithin(chunks[n - 1], limit);
      WithinConcat(Spread(chunks[..n - 1], gaps[..n]), chunks[n - 1], limit);
      WithinConcat(Spread(chunks[..n - 1], gaps[..n]) + chunks[n - 1], gaps[n], limit);
    }
  }

  // ------------------------------------------------------------------ the splitter

  ghost predicate AllValid(chunks: seq<Bytes>) {
    forall chunk | chunk in chunks :: ValidUtf8(chunk)
  }

  predicate AllFit(chunks: seq<Bytes>, limit: nat) {
    forall chunk | chunk in chunks :: 0 < |chunk| <= limit
  }

  /** A chunk that fits, and is valid text when the others must be. */
  ghost predicate Sendable(chunks: seq<Bytes>, limit: nat, valid: bool) {
    AllFit(chunks, limit) && (valid ==> AllValid(chunks))
  }

  /** No two chunks in a row would fit into one, give or take some slack, nor would the last and what comes next. */
  predicate Packed(chunks: seq<Bytes>, next: nat, limit: nat, slack: nat) {
    && (forall k | 0 < k < |chunks| :: |chunks[k - 1]| + |chunks[k]| + slack > limit)
    && (chunks != [] ==> |chunks[|chunks| - 1]| + next + slack > limit)
  }

  /** What is in hand takes a byte at least by the time it is sent. */
  function InHand(s: Bytes): nat {
    if s == [] then 1 else |s|
  }

  /** The newline that would join two lines; up to three bytes where lines are cut between characters. */
  function Slack(fit: bool, valid: bool, limit: nat): nat {
    if fit then 1 else if valid then 3 else limit
  }

  lemma OneMorePacked(chunks: seq<Bytes>, chunk: Bytes, next: nat, limit: nat, slack: nat)
    requires Packed(chunks, |chunk|, limit, slack) && |chunk| + next + slack > limit
    ensures Packed(chunks + [chunk], next, limit, slack)
  {
    var more := chunks + [chunk];
    assert forall k | 0 <= k < |chunks| :: more[k] == chunks[k];
  }

  lemma CutPacked(chunks: seq<Bytes>, line: Bytes, limit: nat, valid: bool)
    requires Sendable(chunks, limit, valid) && 0 < limit < |line| && (valid ==> ValidWithin(line, limit))
    requires Packed(chunks, |line|, limit, Slack(false, valid, limit))
    ensures var cut := Cut(line, limit);
      Packed(chunks + [line[..cut]], |line[cut..]|, limit, Slack(false, valid, limit))
  {
    hide ValidWithin, Cut;
    if valid {
      CutNearLimit(line, limit);
    }
    if chunks != [] {
      assert chunks[|chunks| - 1] in chunks;
    }
    OneMorePacked(chunks, line[..Cut(line, limit)], |line[Cut(line, limit)..]|, limit, Slack(false, valid, limit));
  }

  lemma FlushedPacked(chunks: seq<Bytes>, current: Bytes, line: Bytes, limit: nat, slack: nat)
    requires Packed(chunks, InHand(current), limit, slack) && slack > 0
    requires |line| + (if |current| > 0 then |current| + 1 else 0) > limit
    ensures Packed(if current == [] then chunks else chunks + [current], InHand(line), limit, slack)
  {
    if current != [] {
      OneMorePacked(chunks, current, InHand(line), limit, slack);
    }
  }

  lemma LastPacked(chunks: seq<Bytes>, current: Bytes, limit: nat, slack: nat)
    requires Packed(chunks, InHand(current), limit, slack)
    ensures Packed(if current == [] then chunks else chunks + [current], limit + 1, limit, slack)
  {
    if current != [] {
      OneMorePacked(chunks, current, limit + 1, limit, slack);
    }
  }

  lemma MoreInHand(chunks: seq<Bytes>, current: Bytes, more: Bytes, limit: nat, slack: nat)
    requires Packed(chunks, InHand(current), limit, slack) && |current| <= |more|
    ensures Packed(chunks, InHand(more), limit, slack)
  {
  }

  lemma OneMoreSendable(chunks: seq<Bytes>, chunk: Bytes, limit: nat, valid: bool)
    requires Sendable(chunks, limit, valid) && |chunk| <= limit && (valid ==> ValidWithin(chunk, limit))
    ensures Sendable(if chunk == [] then chunks else chunks + [chunk], limit, valid)
  {
    ValidIsWithin(chunk, limit);
  }

  method CutAt(remaining: Bytes, limit: nat) returns (cut: nat)
    requires 0 < limit < |remaining|
    ensures cut == Cut(remaining, limit) && 0 < cut <= limit
    ensures (exists k | 0 < k <= limit :: !(0x80 <= remaining[k] <= 0xBF)) ==>
      !(0x80 <= remaining[cut] <= 0xBF) && forall k | cut < k <= limit :: 0x80 <= remaining[k] <= 0xBF
    ensures (forall k | 0 < k <= limit :: 0x80 <= remaining[k] <= 0xBF) ==> cut == limit
  {
    CutAtMost(remaining, limit);
    cut := limit;
    while cut > 0 && Continues(remaining[cut])
      invariant cut <= limit && CutBelow(remaining, limit) == CutBelow(remaining, cut)
    {
      cut := cut - 1;
    }
    if cut == 0 {
      cut := limit;
    }
  }

  lemma PieceSaid(chunks: seq<Bytes>, line: Bytes, limit: nat)
    requires NEWLINE !in line && 0 < limit < |line|
    ensures var cut := Cut(line, limit);
      Said(chunks + [line[..cut]]) + NonEmpty(Cuts(line[cut..], limit)) == Said(chunks) + NonEmpty(Cuts(line, limit))
  {
    hide Said, Cut, Lines, NonEmpty;
    var cut := Cut(line, limit);
    var piece := line[..cut];
    OneLine(piece);
    SaidMore(chunks, piece);
    NonEmptyConcat([piece], Cuts(line[cut..], limit));
  }

  lemma FlushedSaid(chunks: seq<Bytes>, current: Bytes)
    ensures Said(if current == [] then chunks else chunks + [current]) == Said(chunks) + NonEmpty(Lines(current))
  {
    if current == [] {
      NonEmptyOne([]);
    } else {
      SaidMore(chunks, current);
    }
  }

  lemma Regrouped(a: seq<Bytes>, b: seq<Bytes>, c: seq<Bytes>)
    ensures a + (b + c) == a + b + c
  {
  }

  lemma LineCarried(current: Bytes, line: Bytes, limit: nat)
    requires NEWLINE !in line && 0 < limit && |line| <= limit
    ensures NonEmpty(Lines(if current == [] then line else current + [NEWLINE] + line))
      == NonEmpty(Lines(current)) + NonEmpty(Cuts(line, limit))
  {
    hide Lines, NonEmpty;
    OneLine(line);
    if current == [] {
      NonEmptyOne([]);
      OneLine([]);
    } else {
      LinesJoin(current, line);
      NonEmptyConcat(Lines(current), [line]);
    }
  }

  /** Cuts a line that does not fit on its own; the last piece is left over. */
  method CutLine(line: Bytes, limit: nat, chunks: seq<Bytes>, ghost text: Bytes, ghost valid: bool, ghost fit: bool)
    returns (more: seq<Bytes>, remaining: Bytes)
    requires limit > 0 && NEWLINE !in line && Sendable(chunks, limit, valid)
    requires (valid ==> ValidWithin(line, limit)) && (fit ==> |line| <= limit)
    requires Packed(chunks, InHand(line), limit, Slack(fit, valid, limit)) && Placed(text, chunks, line)
    ensures Packed(more, InHand(remaining), limit, Slack(fit, valid, limit)) && Placed(text, more, remaining)
    ensures Sendable(more, limit, valid) && |remaining| <= limit && NEWLINE !in remaining
    ensures Said(more) + NonEmpty([remaining]) == Said(chunks) + NonEmpty(Cuts(line, limit))
    ensures valid ==> ValidWithin(remaining, limit)
  {
    hide ValidWithin, Said, NonEmpty, Cuts, Cut, Sendable, Packed, Placed;
    more, remaining := chunks, line;
    while |remaining| > limit
      invariant NEWLINE !in remaining && Sendable(more, limit, valid) && (valid ==> ValidWithin(remaining, limit))
      invariant Said(more) + NonEmpty(Cuts(remaining, limit)) == Said(chunks) + NonEmpty(Cuts(line, limit))
      invariant |remaining| <= |line| && Packed(more, InHand(remaining), limit, Slack(fit, valid, limit))
      invariant Placed(text, more, remaining)
      decreases |remaining|
    {
      var cut := CutAt(remaining, limit);
      CutPacked(more, remaining, limit, valid);
      PieceSaid(more, remaining, limit);
      PlacedChunk(text, more, remaining, cut);
      if valid {
        CutOnBoundary(remaining, limit);
      }
      OneMoreSendable(more, remaining[..cut], limit, valid);
      more := more + [remaining[..cut]];
      remaining := remaining[cut..];
    }
    WholeLine(remaining, limit);
  }

  /** Every chunk fits and holds something; they are slices of the content with nothing but newlines around them, and
      say exactly its lines, those that do not fit on their own cut. All of them are valid text exactly when the
      content is and none of its characters is longer than the limit, as none is from four on. No two chunks in a row
      would fit into one, but where lines are cut. */
  method SplitContent(content: Bytes, limit: nat) returns (chunks: seq<Bytes>)
    requires limit > 0
    ensures AllFit(chunks, limit) && SlicesOf(content, chunks)
    ensures Said(chunks) == Pieces(Lines(content), limit)
    ensures AllValid(chunks) <==> ValidWithin(content, limit)
    ensures limit >= 4 && ValidUtf8(content) ==> AllValid(chunks)
    ensures (forall line | line in Lines(content) :: |line| <= limit) ==> Packed(chunks, limit + 1, limit, 1)
    ensures ValidWithin(content, limit) ==> Packed(chunks, limit + 1, limit, 3)
  {
    hide ValidUtf8, ValidWithin, Lines, Cuts, NonEmpty, Said, Pieces, Sendable, Packed, Going, SlicesOf, Joined,
      AllFit, AllValid, Slack, InHand;
    ghost var valid := ValidWithin(content, limit);
    ghost var fit := forall line | line in Lines(content) :: |line| <= limit;
    var lines := Lines(content);
    LinesAreLines(content);
    LinesMakeUp(content);
    ValidIsWithin(content, limit);
    if |content| <= limit {
      chunks := if content == [] then [] else [content];
      AllInHand(content, limit, valid, fit);
      Sent([], content, Pieces(lines, limit), content, limit, valid, fit);
      assert [] + [content] == [content];
      return;
    }
    if valid {
      ValidLines(content, limit);
    }
    chunks := [];
    var current: Bytes := [];
    NothingSaid(limit, valid, fit);
    for k := 0 to |lines|
      invariant Going(chunks, current, Pieces(lines[..k], limit), Joined(lines[..k]), limit, valid, fit)
      invariant k == 0 ==> current == [] && chunks == []
    {
      var line := lines[k];
      ghost var said, text := Pieces(lines[..k], limit), Joined(lines[..k]);
      assert line in lines;
      PiecesMore(lines, k, limit);
      JoinedMore(lines, k);
      NothingJoined(lines);
      var joined := |line| + if |current| > 0 then |current| + 1 else 0;
      if joined <= limit {
        Carried(chunks, current, line, said, text, limit, valid, fit, k == 0);
        if |current| > 0 {
          current := current + [NEWLINE];
        }
        assert [] + line == line;
        current := current + line;
        continue;
      }
      Flushed(chunks, current, line, said, text, limit, valid, fit, k == 0);
      if |current| > 0 {
        chunks := chunks + [current];
      }
      chunks, current := CutLine(line, limit, chunks, Joined(lines[..k + 1]), valid, fit);
      OneLine(current);
      Gone(chunks, current, said + NonEmpty(Cuts(line, limit)), Joined(lines[..k + 1]), limit, valid, fit);
    }
    assert lines[..|lines|] == lines;
    Sent(chunks, current, Pieces(lines, limit), content, limit, valid, fit);
    if |current| > 0 {
      chunks := chunks + [current];
    }
  }

  lemma NothingJoined(lines: seq<Bytes>)
    ensures Joined(lines[..0]) == []
  {
  }

  /** A text and one more line of it. */
  function NextLine(text: Bytes, line: Bytes, first: bool): Bytes {
    if first then line else text + [NEWLINE] + line
  }

  /** The loop's state: what is sent and what is in hand make up the text so far, say this much, and can be sent as
      they are. */
  ghost predicate Going(chunks: seq<Bytes>, current: Bytes, said: seq<Bytes>, text: Bytes, limit: nat, valid: bool, fit: bool) {
    && Sendable(chunks, limit, valid) && |current| <= limit && (valid ==> ValidWithin(current, limit))
    && Said(chunks) + NonEmpty(Lines(current)) == said && Placed(text, chunks, current)
    && Packed(chunks, InHand(current), limit, Slack(fit, valid, limit))
  }

  lemma Gone(chunks: seq<Bytes>, current: Bytes, said: seq<Bytes>, text: Bytes, limit: nat, valid: bool, fit: bool)
    requires Sendable(chunks, limit, valid) && |current| <= limit && (valid ==> ValidWithin(current, limit))
    requires Said(chunks) + NonEmpty(Lines(current)) == said && Placed(text, chunks, current)
    requires Packed(chunks, InHand(current), limit, Slack(fit, valid, limit))
    ensures Going(chunks, current, said, text, limit, valid, fit)
  {
  }

  lemma PlacedLine(text: Bytes, chunks: seq<Bytes>, current: Bytes, line: Bytes, first: bool)
    requires Placed(text, chunks, current) && (first ==> text == [])
    ensures Placed(NextLine(text, line, first), chunks, if current == [] then line else current + [NEWLINE] + line)
  {
    hide Placed;
    if current == [] {
      if !first {
        PlacedNewline(text, chunks);
      }
      PlacedMore(if first then text else text + [NEWLINE], chunks, [], line);
      assert [] + line == line;
    } else {
      assert !first by { NothingInHand(text, chunks, current); }
      PlacedMore(text, chunks, current, [NEWLINE] + line);
      assert text + ([NEWLINE] + line) == text + [NEWLINE] + line;
      assert current + ([NEWLINE] + line) == current + [NEWLINE] + line;
    }
  }

  lemma NothingInHand(text: Bytes, chunks: seq<Bytes>, current: Bytes)
    requires Placed(text, chunks, current)
    ensures text == [] ==> current == []
  {
  }

  lemma Carried(chunks: seq<Bytes>, current: Bytes, line: Bytes, said: seq<Bytes>, text: Bytes, limit: nat, valid: bool,
                fit: bool, first: bool)
    requires Going(chunks, current, said, text, limit, valid, fit) && NEWLINE !in line && 0 < limit
    requires |line| + (if |current| > 0 then |current| + 1 else 0) <= limit && (valid ==> ValidWithin(line, limit))
    requires first ==> text == []
    ensures Going(chunks, if current == [] then line else current + [NEWLINE] + line, said + NonEmpty(Cuts(line, limit)),
                  NextLine(text, line, first), limit, valid, fit)
  {
    hide ValidWithin, Lines, Cuts, NonEmpty, Said, Sendable, Packed, Placed;
    LineCarried(current, line, limit);
    MoreInHand(chunks, current, if current == [] then line else current + [NEWLINE] + line, limit, Slack(fit, valid, limit));
    Regrouped(Said(chunks), NonEmpty(Lines(current)), NonEmpty(Cuts(line, limit)));
    PlacedLine(text, chunks, current, line, first);
    if valid {
      ValidJoin(current, line, limit);
    }
  }

  lemma PlacedFlushed(text: Bytes, chunks: seq<Bytes>, current: Bytes)
    requires Placed(text, chunks, current)
    ensures Placed(text, if current == [] then chunks else chunks + [current], [])
  {
    if current != [] {
      PlacedChunk(text, chunks, current, |current|);
      assert current[..|current|] == current;
    }
  }

  lemma Flushed(chunks: seq<Bytes>, current: Bytes, line: Bytes, said: seq<Bytes>, text: Bytes, limit: nat, valid: bool,
                fit: bool, first: bool)
    requires Going(chunks, current, said, text, limit, valid, fit) && limit > 0 && (first ==> text == [])
    requires |line| + (if |current| > 0 then |current| + 1 else 0) > limit
    ensures var sent := if current == [] then chunks else chunks + [current];
      && Sendable(sent, limit, valid) && Said(sent) == said && Packed(sent, InHand(line), limit, Slack(fit, valid, limit))
      && Placed(NextLine(text, line, first), sent, line)
  {
    hide ValidWithin, Lines, NonEmpty, Said, Sendable, Packed, Placed;
    FlushedSaid(chunks, current);
    OneMoreSendable(chunks, current, limit, valid);
    FlushedPacked(chunks, current, line, limit, Slack(fit, valid, limit));
    PlacedFlushed(text, chunks, current);
    PlacedLine(text, if current == [] then chunks else chunks + [current], [], line, first);
  }

  /** The last chunk sent, all of them keep what was promised. */
  lemma Sent(chunks: seq<Bytes>, current: Bytes, said: seq<Bytes>, text: Bytes, limit: nat, valid: bool, fit: bool)
    requires Going(chunks, current, said, text, limit, valid, fit) && limit > 0
    ensures var sent := if current == [] then chunks else chunks + [current];
      && AllFit(sent, limit) && Said(sent) == said && SlicesOf(text, sent)
      && (valid ==> AllValid(sent)) && (AllValid(sent) ==> ValidWithin(text, limit))
      && (fit ==> Packed(sent, limit + 1, limit, 1)) && (valid ==> Packed(sent, limit + 1, limit, 3))
  {
    hide ValidUtf8, ValidWithin, Lines, NonEmpty, Said, SlicesOf, Placed, Packed, Sendable, AllValid, AllFit;
    var sent := if current == [] then chunks else chunks + [current];
    FlushedSaid(chunks, current);
    OneMoreSendable(chunks, current, limit, valid);
    SendableMeans(sent, limit, valid);
    LastPacked(chunks, current, limit, Slack(fit, valid, limit));
    SlackIsWithin(sent, limit, fit, valid);
    PlacedFlushed(text, chunks, current);
    AllPlaced(text, sent);
    if AllValid(sent) {
      ValidSlices(text, sent, limit);
    }
  }

  lemma SendableMeans(chunks: seq<Bytes>, limit: nat, valid: bool)
    requires Sendable(chunks, limit, valid)
    ensures AllFit(chunks, limit) && (valid ==> AllValid(chunks))
  {
  }

  lemma SlackIsWithin(chunks: seq<Bytes>, limit: nat, fit: bool, valid: bool)
    requires Packed(chunks, limit + 1, limit, Slack(fit, valid, limit))
    ensures (fit ==> Packed(chunks, limit + 1, limit, 1)) && (fit || valid ==> Packed(chunks, limit + 1, limit, 3))
  {
  }

  lemma AllPlaced(text: Bytes, chunks: seq<Bytes>)
    requires Placed(text, chunks, [])
    ensures SlicesOf(text, chunks)
  {
    assert text[..|text|] == text;
  }

  lemma AllInHand(content: Bytes, limit: nat, valid: bool, fit: bool)
    requires 0 < limit && |content| <= limit && (valid ==> ValidWithin(content, limit))
    ensures Going([], content, Pieces(Lines(content), limit), content, limit, valid, fit)
  {
    hide ValidWithin, Lines, NonEmpty, Pieces, SlicesOf;
    LinesAreLines(content);
    FittingPieces(Lines(content), limit);
    NothingSliced();
    assert [] + NonEmpty(Lines(content)) == NonEmpty(Lines(content));
  }

  lemma NothingSaid(limit: nat, valid: bool, fit: bool)
    requires limit > 0
    ensures Going([], [], Pieces([], limit), Joined([]), limit, valid, fit)
  {
    NonEmptyOne([]);
    NothingSliced();
  }

  lemma WholeLine(line: Bytes, limit: nat)
    requires 0 < limit && |line| <= limit
    ensures Cuts(line, limit) == [line]
  {
  }

  // ------------------------------------------------------------------ what follows

  function WithoutNewlines(s: Bytes): Bytes {
    if s == [] then []
    else WithoutNewlines(s[..|s| - 1]) + if s[|s| - 1] == 0x0A then [] else [s[|s| - 1]]
  }

  lemma {:induction false} ConcatAppend(a: seq<Bytes>, b: seq<Bytes>)
    ensures Concat(a + b) == Concat(a) + Concat(b)
  {
    if b == [] {
      assert a + b == a && Concat(a) + Concat<Byte>([]) == Concat(a);
    } else {
      hide Concat;
      var n := |b| - 1;
      ConcatAppend(a, b[..n]);
      ConcatMore(a + b[..n], b[n]);
      ConcatMore(b[..n], b[n]);
      assert b == b[..n] + [b[n]] && a + b == (a + b[..n]) + [b[n]];
    }
  }

  lemma {:induction false} ConcatNonEmpty(lines: seq<Bytes>)
    ensures Concat(NonEmpty(lines)) == Concat(lines)
  {
    if lines != [] {
      var n := |lines| - 1;
      ConcatNonEmpty(lines[..n]);
      if lines[n] != [] {
        ConcatAppend(NonEmpty(lines[..n]), [lines[n]]);
        assert Concat([lines[n]]) == lines[n];
      } else {
        assert NonEmpty(lines[..n]) + [] == NonEmpty(lines[..n]);
      }
    }
  }

  lemma {:induction false} ConcatLines(s: Bytes)
    ensures Concat(Lines(s)) == WithoutNewlines(s)
  {
    if s == [] {
      assert Concat<Byte>([[]]) == [];
    } else {
      var n := |s| - 1;
      ConcatLines(s[..n]);
      ConcatExtended(Lines(s[..n]), s[n]);
      ConcatMore(Lines(s[..n]), []);
      hide Concat, Extended;
    }
  }

  lemma ConcatExtended(lines: seq<Bytes>, b: Byte)
    requires lines != []
    ensures Concat(Extended(lines, b)) == Concat(lines) + [b]
  {
    var m := |lines| - 1;
    assert lines == lines[..m] + [lines[m]];
    ConcatMore(lines[..m], lines[m]);
    ConcatMore(lines[..m], lines[m] + [b]);
    assert Concat(lines[..m]) + (lines[m] + [b]) == Concat(lines[..m]) + lines[m] + [b];
  }

  lemma {:induction false} WithoutNewlinesConcat(s: Bytes, t: Bytes)
    ensures WithoutNewlines(s + t) == WithoutNewlines(s) + WithoutNewlines(t)
  {
    if t == [] {
      assert s + t == s && WithoutNewlines(s) + WithoutNewlines([]) == WithoutNewlines(s);
    } else {
      hide WithoutNewlines;
      var n := |t| - 1;
      WithoutNewlinesConcat(s, t[..n]);
      WithoutNewlinesMore(s + t[..n], t[n]);
      WithoutNewlinesMore(t[..n], t[n]);
      assert t == t[..n] + [t[n]] && s + t == (s + t[..n]) + [t[n]];
    }
  }

  lemma WithoutNewlinesMore(s: Bytes, b: Byte)
    ensures WithoutNewlines(s + [b]) == WithoutNewlines(s) + if b == 0x0A then [] else [b]
  {
    assert (s + [b])[..|s|] == s;
  }

  lemma {:induction false} ConcatSaid(chunks: seq<Bytes>)
    ensures Concat(Said(chunks)) == WithoutNewlines(Concat(chunks))
  {
    if chunks != [] {
      var n := |chunks| - 1;
      ConcatSaid(chunks[..n]);
      ConcatAppend(Said(chunks[..n]), NonEmpty(Lines(chunks[n])));
      ConcatNonEmpty(Lines(chunks[n]));
      ConcatLines(chunks[n]);
      WithoutNewlinesConcat(Concat(chunks[..n]), chunks[n]);
    }
  }

  lemma {:induction false} ConcatCuts(line: Bytes, limit: nat)
    requires limit > 0
    ensures Concat(Cuts(line, limit)) == line
    decreases |line|
  {
    if |line| > limit {
      var cut := Cut(line, limit);
      ConcatCuts(line[cut..], limit);
      ConcatAppend([line[..cut]], Cuts(line[cut..], limit));
      assert Concat([line[..cut]]) == line[..cut];
      assert line[..cut] + line[cut..] == line;
    } else {
      assert Concat([line]) == line;
    }
  }

  lemma {:induction false} ConcatPieces(lines: seq<Bytes>, limit: nat)
    requires limit > 0
    ensures Concat(Pieces(lines, limit)) == Concat(lines)
  {
    if lines != [] {
      var n := |lines| - 1;
      ConcatPieces(lines[..n], limit);
      ConcatAppend(Pieces(lines[..n], limit), NonEmpty(Cuts(lines[n], limit)));
      ConcatNonEmpty(Cuts(lines[n], limit));
      ConcatCuts(lines[n], limit);
    }
  }

  /** Nothing is lost, added or moved but newlines. */
  lemma SplittingKeepsTheText(content: Bytes, limit: nat, chunks: seq<Bytes>)
    requires limit > 0 && Said(chunks) == Pieces(Lines(content), limit)
    ensures WithoutNewlines(Concat(chunks)) == WithoutNewlines(content)
  {
    ConcatSaid(chunks);
    ConcatPieces(Lines(content), limit);
    ConcatLines(content);
  }

  lemma {:induction false} PiecesHaveFittingLines(lines: seq<Bytes>, line: Bytes, limit: nat)
    requires limit > 0 && line in lines && 0 < |line| <= limit
    ensures line in Pieces(lines, limit)
  {
    var n := |lines| - 1;
    if lines[n] == line {
      NonEmptyOne(line);
      assert line in NonEmpty(Cuts(line, limit));
    } else {
      assert line in lines[..n];
      PiecesHaveFittingLines(lines[..n], line, limit);
    }
  }

  lemma {:induction false} SaidByAChunk(chunks: seq<Bytes>, line: Bytes)
    requires line in Said(chunks)
    ensures exists chunk :: chunk in chunks && line in Lines(chunk)
  {
    var n := |chunks| - 1;
    if line in Said(chunks[..n]) {
      SaidByAChunk(chunks[..n], line);
      var chunk :| chunk in chunks[..n] && line in Lines(chunk);
      assert chunk in chunks;
    } else {
      NonEmptyAreLines(Lines(chunks[n]));
      assert chunks[n] in chunks;
    }
  }

  lemma {:induction false} NonEmptyAreLines(lines: seq<Bytes>)
    ensures forall line | line in NonEmpty(lines) :: line in lines
  {
    if lines != [] {
      NonEmptyAreLines(lines[..|lines| - 1]);
    }
  }

  /** A line that fits is never cut: it is a whole line of some chunk. */
  lemma FittingLinesStayWhole(content: Bytes, limit: nat, chunks: seq<Bytes>, line: Bytes)
    requires limit > 0 && Said(chunks) == Pieces(Lines(content), limit)
    requires line in Lines(content) && 0 < |line| <= limit
    ensures exists chunk :: chunk in chunks && line in Lines(chunk)
  {
    PiecesHaveFittingLines(Lines(content), line, limit);
    SaidByAChunk(chunks, line);
  }

  /** One four-byte character. */
  const DIE: Bytes := [0xF0, 0x9F, 0x8E, 0xB2]

  /** From four on no character is too long, so any valid content is cut into valid chunks. */
  lemma FourIsEnough(content: Bytes, limit: nat)
    requires limit >= 4
    ensures ValidWithin(content, limit) <==> ValidUtf8(content)
  {
    ValidIsWithin(content, limit);
  }

  /** Four is tight: however this one character is cut into chunks below that, some chunk is not valid; here it is the
      first. */
  lemma BelowFourCutsACharacter(limit: nat, chunks: seq<Bytes>)
    requires 0 < limit < 4 && AllFit(chunks, limit) && SlicesOf(DIE, chunks)
    ensures ValidUtf8(DIE) && !AllValid(chunks)
    ensures !ValidUtf8(DIE[..Cut(DIE, limit)])
  {
    assert RuneLength(DIE) == 4 && DIE[4..] == [];
    if AllValid(chunks) {
      ValidSlices(DIE, chunks, limit);
    }
    CutAtMost(DIE, limit);
    assert Cut(DIE, limit) == limit;
    assert RuneLength(DIE[..limit]) == 0;
  }
}
