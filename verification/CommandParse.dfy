/** Reading a chat message as a command: its prefix, and its tokens. */
module CommandParse {
  import opened Wrappers
  import opened GoStrings

  const QUOTE: char := '"'

  // ------------------------------------------------------------------ prefixes

  function EncodedLength(s: string): nat {
    if s == "" then 0 else EncodedLength(s[..|s| - 1]) + CharLength(s[|s| - 1])
  }

  /** How many bytes a character takes in UTF-8. */
  function CharLength(c: char): (n: nat)
    ensures 1 <= n <= 4
  {
    if c as int < 0x80 then 1 else if c as int < 0x800 then 2 else if c as int < 0x1_0000 then 3 else 4
  }

  lemma {:induction false} LongerPrefix(s: string, a: string, b: string)
    requires a <= s && b <= s
    ensures EncodedLength(a) <= EncodedLength(b) <==> a <= b
    decreases |a| + |b|
  {
    assert a == s[..|a|] && b == s[..|b|];
    if |a| < |b| {
      assert b[..|a|] == a && a <= b[..|b| - 1];
      LongerPrefix(s, a, b[..|b| - 1]);
    } else if |a| > |b| {
      var shorter := a[..|a| - 1];
      assert |shorter| == |b| ==> shorter == b;
      LongerPrefix(s, shorter, b);
      assert !(a <= b);
    }
  }

  /** Matches a content, and is not the empty prefix. */
  predicate Matches(content: string, prefix: string) {
    prefix != "" && prefix <= content
  }

  /** The longest prefix of those that match; never the empty one. */
  method MatchPrefix(content: string, prefixes: seq<string>) returns (longest: string, found: bool)
    ensures found <==> exists p :: p in prefixes && Matches(content, p)
    ensures found ==> longest in prefixes && Matches(content, longest)
    ensures found ==> forall p | p in prefixes && Matches(content, p) :: p <= longest
    ensures !found ==> longest == ""
  {
    longest := "";
    for k := 0 to |prefixes|
      invariant longest == "" || (longest in prefixes && Matches(content, longest))
      invariant forall p | p in prefixes[..k] && Matches(content, p) :: p <= longest
    {
      var prefix := prefixes[k];
      if prefix <= content {
        LongerPrefix(content, prefix, longest);
      }
      if prefix == "" || EncodedLength(prefix) <= EncodedLength(longest) {
        continue;
      }
      if prefix <= content {
        assert longest <= prefix by { LongerPrefix(content, longest, prefix); }
        longest := prefix;
      }
    }
    assert prefixes[..|prefixes|] == prefixes;
    found := longest != "";
  }

  // ------------------------------------------------------------------ tokens

  /** Where the tokenizer stands: the tokens so far and the one being read. */
  datatype Scan = Scan(tokens: seq<string>, current: string, inQuotes: bool, started: bool)

  const START: Scan := Scan([], "", false, false)

  function Next(s: Scan, c: char): Scan {
    if c == QUOTE then s.(inQuotes := !s.inQuotes, started := true)
    else if !s.inQuotes && IsSpace(c) then
      if s.started then Scan(s.tokens + [s.current], "", s.inQuotes, false) else s
    else s.(current := s.current + [c], started := true)
  }

  function ScanFrom(s: Scan, line: string): Scan {
    if line == "" then s else Next(ScanFrom(s, line[..|line| - 1]), line[|line| - 1])
  }

  function Finished(s: Scan): seq<string> {
    if s.started then s.tokens + [s.current] else s.tokens
  }

  function Tokens(line: string): seq<string> {
    Finished(ScanFrom(START, line))
  }

  method Tokenize(line: string) returns (tokens: seq<string>)
    ensures tokens == Tokens(line)
  {
    var current, inQuotes, started := "", false, false;
    tokens := [];
    for k := 0 to |line|
      invariant Scan(tokens, current, inQuotes, started) == ScanFrom(START, line[..k])
    {
      assert line[..k + 1][..k] == line[..k];
      if line[k] == QUOTE {
        inQuotes, started := !inQuotes, true;
      } else if !inQuotes && IsSpace(line[k]) {
        if started {
          tokens, current, started := tokens + [current], "", false;
        }
      } else {
        current, started := current + [line[k]], true;
      }
    }
    assert line[..|line|] == line;
    if started {
      tokens := tokens + [current];
    }
  }

  lemma ScanMore(s: Scan, line: string, c: char)
    ensures ScanFrom(s, line + [c]) == Next(ScanFrom(s, line), c)
  {
    assert (line + [c])[..|line|] == line;
  }

  lemma {:induction false} ScanAppend(s: Scan, a: string, b: string)
    ensures ScanFrom(s, a + b) == ScanFrom(ScanFrom(s, a), b)
  {
    if b == "" {
      assert a + b == a;
    } else {
      var n := |b| - 1;
      ScanAppend(s, a, b[..n]);
      assert a + b == a + b[..n] + [b[n]];
      ScanMore(s, a + b[..n], b[n]);
    }
  }

  /** Tokens already read change nothing about what is read after them. */
  lemma {:induction false} ScanAfter(tokens: seq<string>, line: string)
    ensures ScanFrom(START.(tokens := tokens), line)
      == ScanFrom(START, line).(tokens := tokens + ScanFrom(START, line).tokens)
  {
    if line == "" {
      assert tokens + [] == tokens;
    } else {
      var n := |line| - 1;
      ScanAfter(tokens, line[..n]);
      var s := ScanFrom(START, line[..n]);
      assert tokens + (s.tokens + [s.current]) == tokens + s.tokens + [s.current];
    }
  }

  /** Whether a line leaves a quote open. */
  function OpenQuote(line: string): bool {
    if line == "" then false else OpenQuote(line[..|line| - 1]) != (line[|line| - 1] == '"')
  }

  lemma {:induction false} ScanKnowsQuotes(line: string)
    ensures ScanFrom(START, line).inQuotes == OpenQuote(line)
    ensures !ScanFrom(START, line).started ==> ScanFrom(START, line).current == "" && !OpenQuote(line)
  {
    if line != "" {
      ScanKnowsQuotes(line[..|line| - 1]);
    }
  }

  /** White space outside quotes separates: the tokens of the two sides, and nothing else. */
  lemma SpaceSeparates(a: string, c: char, b: string)
    requires IsSpace(c) && !OpenQuote(a)
    ensures Tokens(a + [c] + b) == Tokens(a) + Tokens(b)
  {
    var s := ScanFrom(START, a);
    ScanKnowsQuotes(a);
    QuoteIsNoSpace();
    ScanMore(START, a, c);
    ScanAppend(START, a + [c], b);
    assert ScanFrom(START, a + [c]) == START.(tokens := Finished(s));
    ScanAfter(Finished(s), b);
    var t := ScanFrom(START, b);
    assert Finished(s) + (t.tokens + [t.current]) == Finished(s) + t.tokens + [t.current];
  }

  lemma QuoteIsNoSpace()
    ensures !IsSpace(QUOTE)
  {
  }

  // ------------------------------------------------------------------ what a token can be

  /** The characters of a line that reach a token: all but quotes, and white space outside them. */
  function Kept(line: string): string {
    if line == "" then ""
    else
      var n := |line| - 1;
      var c := line[n];
      Kept(line[..n]) + if c == '"' || (IsSpace(c) && !OpenQuote(line[..n])) then "" else [c]
  }

  lemma {:induction false} ScanKeeps(line: string)
    ensures var s := ScanFrom(START, line); Concat(s.tokens) + s.current == Kept(line)
  {
    if line != "" {
      var n := |line| - 1;
      var s := ScanFrom(START, line[..n]);
      ScanKeeps(line[..n]);
      ScanKnowsQuotes(line[..n]);
      ConcatMore(s.tokens, s.current);
      assert Concat(s.tokens) + (s.current + [line[n]]) == Concat(s.tokens) + s.current + [line[n]];
      assert Kept(line[..n]) + "" == Kept(line[..n]);
      assert Concat(s.tokens + [s.current]) + "" == Concat(s.tokens + [s.current]);
    }
  }

  /** The tokens put together are the line without quotes and without the white space outside them. */
  lemma TokensKeepTheText(line: string)
    ensures Concat(Tokens(line)) == Kept(line)
  {
    var s := ScanFrom(START, line);
    ScanKeeps(line);
    ScanKnowsQuotes(line);
    ConcatMore(s.tokens, s.current);
    assert Concat(s.tokens) + "" == Concat(s.tokens);
  }

  // ------------------------------------------------------------------ quoting

  function Quoted(token: string): string {
    "\"" + token + "\""
  }

  predicate Plain(token: string) {
    '"' !in token
  }

  predicate AllSpace(gap: string) {
    forall c | c in gap :: IsSpace(c)
  }

  /** Quoted tokens, each after its own gap, and a last gap. */
  function Printed(gaps: seq<string>, tokens: seq<string>, last: string): string
    requires |gaps| == |tokens|
  {
    if tokens == [] then last
    else
      var n := |tokens| - 1;
      Printed(gaps[..n], tokens[..n], gaps[n]) + Quoted(tokens[n]) + last
  }

  lemma {:induction false} ScanInQuotes(s: Scan, text: string)
    requires Plain(text) && s.inQuotes
    ensures ScanFrom(s, text) == s.(current := s.current + text, started := s.started || text != "")
  {
    if text == "" {
      assert s.current + text == s.current;
    } else {
      var n := |text| - 1;
      assert text[n] in text && text == text[..n] + [text[n]];
      ScanInQuotes(s, text[..n]);
      assert s.current + text[..n] + [text[n]] == s.current + text;
    }
  }

  lemma QuotedIsOneToken(token: string)
    requires Plain(token)
    ensures ScanFrom(START, Quoted(token)) == Scan([], token, false, true)
  {
    var inside := Scan([], "", true, true);
    ScanMore(START, "", QUOTE);
    assert "" + [QUOTE] == [QUOTE];
    assert ScanFrom(START, [QUOTE]) == inside;
    ScanAppend(START, [QUOTE], token);
    ScanInQuotes(inside, token);
    assert "" + token == token;
    ScanMore(START, [QUOTE] + token, QUOTE);
  }

  lemma {:induction false} SpaceIsNoToken(s: Scan, gap: string)
    requires AllSpace(gap) && !s.inQuotes
    ensures ScanFrom(s, gap) == if gap == "" then s else Scan(Finished(s), if s.started then "" else s.current, false, false)
  {
    QuoteIsNoSpace();
    if gap != "" {
      var n := |gap| - 1;
      assert gap[n] in gap && forall c | c in gap[..n] :: c in gap;
      SpaceIsNoToken(s, gap[..n]);
    }
  }

  lemma NothingScanned()
    ensures ScanFrom(START, "") == START
  {
  }

  lemma QuotedAfter(before: string, tokens: seq<string>, token: string)
    requires Plain(token) && ScanFrom(START, before) == START.(tokens := tokens)
    ensures ScanFrom(START, before + Quoted(token)) == Scan(tokens, token, false, true)
  {
    hide ScanFrom, Quoted;
    ScanAppend(START, before, Quoted(token));
    ScanAfter(tokens, Quoted(token));
    QuotedIsOneToken(token);
    assert tokens + [] == tokens;
  }

  lemma {:induction false} PrintedScan(gaps: seq<string>, tokens: seq<string>, last: string)
    requires |gaps| == |tokens| && (forall t | t in tokens :: Plain(t)) && AllSpace(last)
    requires forall k | 0 <= k < |gaps| :: AllSpace(gaps[k]) && (k > 0 ==> gaps[k] != "")
    ensures var s := ScanFrom(START, Printed(gaps, tokens, last));
      && !s.inQuotes && Finished(s) == tokens && (last != "" || tokens == [] ==> s == START.(tokens := tokens))
    decreases |tokens|
  {
    hide ScanFrom, Quoted, AllSpace, Plain;
    if tokens == [] {
      NothingScanned();
      SpaceIsNoToken(START, last);
    } else {
      var n := |tokens| - 1;
      assert tokens[n] in tokens && forall t | t in tokens[..n] :: t in tokens;
      PrintedScan(gaps[..n], tokens[..n], gaps[n]);
      QuotedAfter(Printed(gaps[..n], tokens[..n], gaps[n]), tokens[..n], tokens[n]);
      assert tokens[..n] + [tokens[n]] == tokens;
      ScanAppend(START, Printed(gaps[..n], tokens[..n], gaps[n]) + Quoted(tokens[n]), last);
      SpaceIsNoToken(Scan(tokens[..n], tokens[n], false, true), last);
    }
  }

  /** Any tokens without a quote, empty ones included, come back from their quoted form, however much white space
      stands between and around them. */
  lemma TokensRoundTrip(gaps: seq<string>, tokens: seq<string>, last: string)
    requires |gaps| == |tokens| && (forall t | t in tokens :: Plain(t)) && AllSpace(last)
    requires forall k | 0 <= k < |gaps| :: AllSpace(gaps[k]) && (k > 0 ==> gaps[k] != "")
    ensures Tokens(Printed(gaps, tokens, last)) == tokens
  {
    PrintedScan(gaps, tokens, last);
  }

  // ------------------------------------------------------------------ commands

  datatype ChatCommand = ChatCommand(name: string, args: seq<string>)

  predicate IsLongest(content: string, prefixes: seq<string>, prefix: string) {
    && prefix in prefixes && Matches(content, prefix)
    && forall p | p in prefixes && Matches(content, p) :: p <= prefix
  }

  /** What a content should be read as: nothing without a prefix, and else what follows the longest. */
  ghost predicate ReadsAs(content: string, prefixes: seq<string>, r: Option<ChatCommand>) {
    && ((forall p | p in prefixes :: !Matches(content, p)) ==> r.None?)
    && forall p | IsLongest(content, prefixes, p) ::
         var tokens := Tokens(content[|p|..]);
         match r
         case None => tokens == [] || tokens[0] == ""
         case Some(command) => command.name != "" && tokens == [command.name] + command.args
  }

  lemma OneLongest(content: string, prefixes: seq<string>, p: string, q: string)
    requires IsLongest(content, prefixes, p) && IsLongest(content, prefixes, q)
    ensures p == q
  {
  }

  method ParseChat(content: string, prefixes: seq<string>) returns (r: Option<ChatCommand>)
    ensures ReadsAs(content, prefixes, r)
  {
    var prefix, found := MatchPrefix(content, prefixes);
    if !found {
      return None;
    }
    hide Tokens, Matches;
    forall p | IsLongest(content, prefixes, p)
      ensures p == prefix
    {
      OneLongest(content, prefixes, p, prefix);
    }
    var tokens := Tokenize(content[|prefix|..]);
    if |tokens| == 0 || tokens[0] == "" {
      return None;
    }
    return Some(ChatCommand(tokens[0], tokens[1..]));
  }

  /** A command written out after its prefix is read back as its name and arguments, whatever other prefixes
      there are, unless a longer one happens to match. */
  lemma CommandRoundTrip(prefixes: seq<string>, prefix: string, gaps: seq<string>, name: string, args: seq<string>,
                         last: string, r: Option<ChatCommand>)
    requires |gaps| == 1 + |args| && name != "" && (forall t | t in [name] + args :: Plain(t)) && AllSpace(last)
    requires forall k | 0 <= k < |gaps| :: AllSpace(gaps[k]) && (k > 0 ==> gaps[k] != "")
    requires IsLongest(prefix + Printed(gaps, [name] + args, last), prefixes, prefix)
    requires ReadsAs(prefix + Printed(gaps, [name] + args, last), prefixes, r)
    ensures r == Some(ChatCommand(name, args))
  {
    var text := Printed(gaps, [name] + args, last);
    TokensRoundTrip(gaps, [name] + args, last);
    assert (prefix + text)[|prefix|..] == text;
    assert ([name] + args)[0] == name && ([name] + args)[1..] == args;
    if r.Some? {
      assert ([r.value.name] + r.value.args)[0] == r.value.name && ([r.value.name] + r.value.args)[1..] == r.value.args;
    }
  }
}
