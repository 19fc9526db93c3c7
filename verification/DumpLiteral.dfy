/** What the dump parser takes an unquoted value to be. */
module DumpLiteral {
  import opened GoStrings
  import opened Wrappers
  import opened DumpGrammar

  /** "NULL" */
  const NULL: Bytes := [0x4E, 0x55, 0x4C, 0x4C]

  /** The white space strings.TrimSpace removes, each as its UTF-8 encoding (U+0085, U+00A0, U+1680, U+2000 to U+200A,
      U+2028, U+2029, U+202F, U+205F and U+3000 beside the ASCII ones). */
  predicate IsSpaceRune(s: Bytes) {
    || (|s| == 1 && (0x09 <= s[0] <= 0x0D || s[0] == SPACE))
    || (|s| == 2 && s[0] == 0xC2 && (s[1] == 0x85 || s[1] == 0xA0))
    || (|s| == 3 && s[0] == 0xE1 && s[1] == 0x9A && s[2] == 0x80)
    || (|s| == 3 && s[0] == 0xE2 && s[1] == 0x80 && (0x80 <= s[2] <= 0x8A || s[2] == 0xA8 || s[2] == 0xA9 || s[2] == 0xAF))
    || (|s| == 3 && s[0] == 0xE2 && s[1] == 0x81 && s[2] == 0x9F)
    || (|s| == 3 && s[0] == 0xE3 && s[1] == 0x80 && s[2] == 0x80)
  }

  function TrimLeft(s: Bytes): (t: Bytes)
    ensures |t| <= |s|
  {
    if |s| >= 1 && IsSpaceRune(s[..1]) then TrimLeft(s[1..])
    else if |s| >= 2 && IsSpaceRune(s[..2]) then TrimLeft(s[2..])
    else if |s| >= 3 && IsSpaceRune(s[..3]) then TrimLeft(s[3..])
    else s
  }

  function TrimRight(s: Bytes): (t: Bytes)
    ensures |t| <= |s|
  {
    if |s| >= 1 && IsSpaceRune(s[|s| - 1..]) then TrimRight(s[..|s| - 1])
    else if |s| >= 2 && IsSpaceRune(s[|s| - 2..]) then TrimRight(s[..|s| - 2])
    else if |s| >= 3 && IsSpaceRune(s[|s| - 3..]) then TrimRight(s[..|s| - 3])
    else s
  }

  function Trim(s: Bytes): Bytes {
    TrimRight(TrimLeft(s))
  }

  function Upper(b: Byte): Byte {
    if 0x61 <= b <= 0x7A then b - 0x20 else b
  }

  predicate IsNull(s: Bytes) {
    |s| == 4 && [Upper(s[0]), Upper(s[1]), Upper(s[2]), Upper(s[3])] == NULL
  }

  /** Nothing but white space is no value; NULL is read in any case; else it must be a number. */
  function ReadLiteral(text: Bytes, numeric: Bytes -> bool): Result<Value, Error> {
    var lit := Trim(text);
    if lit == [] then Err(EmptyValue)
    else if IsNull(lit) then Ok(Null)
    else if numeric(lit) then Ok(Text(lit))
    else Err(UnsupportedLiteral)
  }

  /** The literals of a dump, given what parses as a number. */
  function LiteralsOf(numeric: Bytes -> bool): Literals {
    (text: Bytes) => ReadLiteral(text, numeric)
  }

  // ------------------------------------------------------------------ what is trimmed

  /** The white space that is trimmed is the encoded white space characters, and nothing else. */
  lemma SpaceRunesAre(c: char)
    ensures IsSpaceRune(Encode(c as nat)) <==> IsSpace(c)
  {
    EncodedIsRune(c as nat, []);
  }

  lemma SpaceRuneIsEncoded(s: Bytes) returns (c: char)
    requires IsSpaceRune(s)
    ensures IsSpace(c) && s == Encode(c as nat)
  {
    c := if |s| == 1 then s[0] as int as char
      else if |s| == 2 then ((s[0] as int - 0xC0) * 0x40 + s[1] as int - 0x80) as char
      else ((s[0] as int - 0xE0) * 0x1000 + (s[1] as int - 0x80) * 0x40 + s[2] as int - 0x80) as char;
  }

  lemma RuneIsTrimmed(rune: Bytes, s: Bytes)
    requires IsSpaceRune(rune)
    ensures TrimLeft(rune + s) == TrimLeft(s) && TrimRight(s + rune) == TrimRight(s)
  {
    LeftRune(rune, s);
    RightRune(rune, s);
    assert (rune + s)[|rune|..] == s && (s + rune)[..|s|] == s;
  }

  lemma LeftRune(rune: Bytes, s: Bytes)
    requires IsSpaceRune(rune)
    ensures var whole := rune + s;
      && whole[..|rune|] == rune
      && (forall k | 0 < k < |rune| :: !IsSpaceRune(whole[..k]))
  {
    var whole := rune + s;
    assert whole[..|rune|] == rune;
    assert forall k | 0 <= k < |rune| :: whole[k] == rune[k];
  }

  lemma RightRune(rune: Bytes, s: Bytes)
    requires IsSpaceRune(rune)
    ensures var whole := s + rune;
      && whole[|whole| - |rune|..] == rune
      && (|rune| > 1 ==> !IsSpaceRune(whole[|whole| - 1..]))
      && (|rune| > 2 ==> !IsSpaceRune(whole[|whole| - 2..]))
  {
    var whole := s + rune;
    assert whole[|s|..] == rune;
    assert whole[|whole| - 1..] == rune[|rune| - 1..];
    if |rune| > 2 {
      assert whole[|whole| - 2..] == rune[|rune| - 2..];
    }
  }

  /** White space at either end goes, whatever character it is. */
  lemma SpaceIsTrimmed(c: char, s: Bytes)
    requires IsSpace(c)
    ensures TrimLeft(Encode(c as nat) + s) == TrimLeft(s)
    ensures TrimRight(s + Encode(c as nat)) == TrimRight(s)
  {
    SpaceRunesAre(c);
    RuneIsTrimmed(Encode(c as nat), s);
  }

  predicate EndsWith(s: Bytes, t: Bytes) {
    |t| <= |s| && s[|s| - |t|..] == t
  }

  lemma LeftTrims(s: Bytes) returns (k: nat)
    requires TrimLeft(s) != s
    ensures 0 < k <= |s| && IsSpaceRune(s[..k])
  {
    hide IsSpaceRune;
    k := if IsSpaceRune(s[..1]) then 1 else if IsSpaceRune(s[..2]) then 2 else 3;
  }

  lemma RightTrims(s: Bytes) returns (k: nat)
    requires TrimRight(s) != s
    ensures 0 < k <= |s| && IsSpaceRune(s[|s| - k..])
  {
    hide IsSpaceRune;
    k := if IsSpaceRune(s[|s| - 1..]) then 1 else if IsSpaceRune(s[|s| - 2..]) then 2 else 3;
  }

  /** Text that begins with no white space, or ends with none, is left alone there. */
  lemma NothingElseIsTrimmed(s: Bytes)
    ensures (forall c: char | IsSpace(c) :: !(Encode(c as nat) <= s)) ==> TrimLeft(s) == s
    ensures (forall c: char | IsSpace(c) :: !EndsWith(s, Encode(c as nat))) ==> TrimRight(s) == s
  {
    hide IsSpaceRune, Encode, IsSpace;
    if TrimLeft(s) != s {
      var k := LeftTrims(s);
      var c := SpaceRuneIsEncoded(s[..k]);
      assert Encode(c as nat) <= s;
    }
    if TrimRight(s) != s {
      var k := RightTrims(s);
      var c := SpaceRuneIsEncoded(s[|s| - k..]);
      assert EndsWith(s, Encode(c as nat));
    }
  }
}
