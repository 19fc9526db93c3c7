/** Go strings: byte strings, their UTF-8 form (section 3 of RFC 3629), and Unicode white space. */
module GoStrings {
  newtype Byte = b: int | 0 <= b < 256
  type Bytes = seq<Byte>

  /** A continuation byte; utf8.RuneStart is true of every other byte. */
  predicate Continues(b: Byte) {
    0x80 <= b <= 0xBF
  }

  /** The length of the character a byte string begins with, or 0 if it begins with none. */
  function RuneLength(s: Bytes): (n: nat)
    ensures n <= |s| && n <= 4
    ensures n > 0 ==> !Continues(s[0]) && forall k | 0 < k < n :: Continues(s[k])
  {
    if s == [] then 0
    else if s[0] <= 0x7F then 1
    else if |s| < 2 || !Continues(s[1]) then 0
    else if 0xC2 <= s[0] <= 0xDF then 2
    else if |s| < 3 || !Continues(s[2]) then 0
    else if s[0] == 0xE0 then if 0xA0 <= s[1] then 3 else 0
    else if s[0] == 0xED then if s[1] <= 0x9F then 3 else 0
    else if 0xE1 <= s[0] <= 0xEF then 3
    else if |s| < 4 || !Continues(s[3]) then 0
    else if s[0] == 0xF0 then if 0x90 <= s[1] then 4 else 0
    else if 0xF1 <= s[0] <= 0xF3 then 4
    else if s[0] == 0xF4 then if s[1] <= 0x8F then 4 else 0
    else 0
  }

  predicate ValidUtf8(s: Bytes) {
    s == [] || (RuneLength(s) > 0 && ValidUtf8(s[RuneLength(s)..]))
  }

  lemma RuneLengthOfPrefix(s: Bytes, t: Bytes)
    requires RuneLength(s) > 0
    ensures RuneLength(s + t) == RuneLength(s)
  {
  }

  lemma RuneLengthWithin(s: Bytes, k: nat)
    requires RuneLength(s) <= k <= |s| && RuneLength(s) > 0
    ensures RuneLength(s[..k]) == RuneLength(s)
  {
  }

  /** Valid, and no character longer than the limit. */
  predicate ValidWithin(s: Bytes, limit: nat) {
    s == [] || (0 < RuneLength(s) <= limit && ValidWithin(s[RuneLength(s)..], limit))
  }

  /** No character is longer than the text, nor than four bytes. */
  lemma {:induction false} ValidIsWithin(s: Bytes, limit: nat)
    ensures ValidWithin(s, limit) ==> ValidUtf8(s)
    ensures ValidUtf8(s) && (limit >= 4 || |s| <= limit) ==> ValidWithin(s, limit)
  {
    if s != [] && RuneLength(s) > 0 {
      ValidIsWithin(s[RuneLength(s)..], limit);
    }
  }

  lemma {:induction false} WithinConcat(s: Bytes, t: Bytes, limit: nat)
    requires ValidWithin(s, limit) && ValidWithin(t, limit)
    ensures ValidWithin(s + t, limit)
  {
    hide RuneLength;
    if s == [] {
      assert s + t == t;
    } else {
      var n := RuneLength(s);
      RuneLengthOfPrefix(s, t);
      WithinConcat(s[n..], t, limit);
      assert (s + t)[n..] == s[n..] + t;
    }
  }

  predicate Boundary(s: Bytes, k: nat) {
    k <= |s| && (k < |s| ==> !Continues(s[k]))
  }

  /** Valid text cut on a character boundary is valid on both sides. */
  lemma {:induction false} WithinCut(s: Bytes, k: nat, limit: nat)
    requires ValidWithin(s, limit) && Boundary(s, k)
    ensures ValidWithin(s[..k], limit) && ValidWithin(s[k..], limit)
  {
    if k == 0 {
      assert s[0..] == s;
    } else {
      var n := RuneLength(s);
      assert n <= k;
      WithinCut(s[n..], k - n, limit);
      RuneLengthWithin(s, k);
      assert s[..k][n..] == s[n..][..k - n];
      assert s[n..][k - n..] == s[k..];
    }
  }

  /** The first character ends on a boundary. */
  lemma FirstBoundary(s: Bytes, limit: nat)
    requires ValidWithin(s, limit) && s != []
    ensures 0 < RuneLength(s) <= limit && Boundary(s, RuneLength(s))
  {
    var rest := s[RuneLength(s)..];
    assert rest != [] ==> RuneLength(rest) > 0 && rest[0] == s[RuneLength(s)];
  }

  /** No character has four continuation bytes. */
  lemma {:induction false} NoFourContinue(s: Bytes, k: nat)
    requires ValidUtf8(s) && k + 3 < |s|
    ensures exists m | k <= m <= k + 3 :: !Continues(s[m])
  {
    var n := RuneLength(s);
    if k == 0 {
      assert !Continues(s[0]);
    } else if n <= k {
      NoFourContinue(s[n..], k - n);
      var m :| k - n <= m <= k - n + 3 && !Continues(s[n..][m]);
      assert !Continues(s[m + n]);
    } else {
      var rest := s[n..];
      assert rest != [] && RuneLength(rest) > 0;
      assert !Continues(s[n]);
    }
  }

  // ------------------------------------------------------------------ characters and their encodings

  /** A Unicode scalar value. */
  predicate Scalar(c: nat) {
    c <= 0x10FFFF && !(0xD800 <= c <= 0xDFFF)
  }

  /** The encoding of section 3 of RFC 3629. */
  function Encode(c: nat): Bytes
    requires Scalar(c)
  {
    if c < 0x80 then [c as Byte]
    else if c < 0x800 then [(0xC0 + c / 0x40) as Byte, (0x80 + c % 0x40) as Byte]
    else if c < 0x1_0000 then [(0xE0 + c / 0x1000) as Byte, (0x80 + c / 0x40 % 0x40) as Byte, (0x80 + c % 0x40) as Byte]
    else
      [(0xF0 + c / 0x4_0000) as Byte, (0x80 + c / 0x1000 % 0x40) as Byte, (0x80 + c / 0x40 % 0x40) as Byte,
       (0x80 + c % 0x40) as Byte]
  }

  lemma EncodedIsRune(c: nat, rest: Bytes)
    requires Scalar(c)
    ensures RuneLength(Encode(c) + rest) == |Encode(c)|
  {
    var s := Encode(c) + rest;
    assert forall k | 0 <= k < |Encode(c)| :: s[k] == Encode(c)[k];
  }

  /** The scalar value of the character a byte string begins with. */
  function Decode(s: Bytes): (c: nat)
    requires RuneLength(s) > 0
  {
    var n := RuneLength(s);
    if n == 1 then s[0] as nat
    else if n == 2 then (s[0] as nat - 0xC0) * 0x40 + (s[1] as nat - 0x80)
    else if n == 3 then (s[0] as nat - 0xE0) * 0x1000 + (s[1] as nat - 0x80) * 0x40 + (s[2] as nat - 0x80)
    else (s[0] as nat - 0xF0) * 0x4_0000 + (s[1] as nat - 0x80) * 0x1000 + (s[2] as nat - 0x80) * 0x40 + (s[3] as nat - 0x80)
  }

  lemma RuneIsEncoded(s: Bytes)
    requires RuneLength(s) > 0
    ensures Scalar(Decode(s)) && Encode(Decode(s)) == s[..RuneLength(s)]
  {
    RuneBytes(s);
    hide Encode;
    match RuneLength(s)
    case 1 => OneByte(s[0] as int);
    case 2 => TwoBytes(s[0] as int - 0xC0, s[1] as int - 0x80);
    case 3 => ThreeBytes(s[0] as int - 0xE0, s[1] as int - 0x80, s[2] as int - 0x80);
    case _ => FourBytes(s[0] as int - 0xF0, s[1] as int - 0x80, s[2] as int - 0x80, s[3] as int - 0x80);
  }

  lemma OneByte(a: int)
    requires 0 <= a < 0x80
    ensures Encode(a) == [a as Byte]
  {
  }

  lemma TwoBytes(a: int, b: int)
    requires 2 <= a < 0x20 && 0 <= b < 0x40
    ensures Encode(a * 0x40 + b) == [(0xC0 + a) as Byte, (0x80 + b) as Byte]
  {
    SixBits(a, b);
  }

  lemma ThreeBytes(a: int, b: int, c: int)
    requires 0 <= a < 0x10 && 0 <= b < 0x40 && 0 <= c < 0x40 && (a == 0 ==> b >= 0x20) && (a == 0xD ==> b < 0x20)
    ensures Scalar(a * 0x1000 + b * 0x40 + c)
    ensures Encode(a * 0x1000 + b * 0x40 + c) == [(0xE0 + a) as Byte, (0x80 + b) as Byte, (0x80 + c) as Byte]
  {
    SixBits(a, b);
    SixBits(a * 0x40 + b, c);
    Shifts(a * 0x1000 + b * 0x40 + c);
  }

  lemma FourBytes(a: int, b: int, c: int, d: int)
    requires 0 <= a < 5 && 0 <= b < 0x40 && 0 <= c < 0x40 && 0 <= d < 0x40 && (a == 0 ==> b >= 0x10) && (a == 4 ==> b < 0x10)
    ensures Scalar(a * 0x4_0000 + b * 0x1000 + c * 0x40 + d)
    ensures Encode(a * 0x4_0000 + b * 0x1000 + c * 0x40 + d)
      == [(0xF0 + a) as Byte, (0x80 + b) as Byte, (0x80 + c) as Byte, (0x80 + d) as Byte]
  {
    SixBits(a, b);
    SixBits(a * 0x40 + b, c);
    SixBits((a * 0x40 + b) * 0x40 + c, d);
    Shifts(a * 0x4_0000 + b * 0x1000 + c * 0x40 + d);
  }

  lemma SixBits(a: int, b: int)
    requires a >= 0 && 0 <= b < 0x40
    ensures (a * 0x40 + b) / 0x40 == a && (a * 0x40 + b) % 0x40 == b
  {
  }

  lemma Shifts(c: nat)
    ensures c / 0x1000 == c / 0x40 / 0x40 && c / 0x4_0000 == c / 0x40 / 0x40 / 0x40
  {
  }

  /** The bytes a character is made of, by its length. */
  lemma RuneBytes(s: Bytes)
    requires RuneLength(s) > 0
    ensures forall k | 0 < k < RuneLength(s) :: 0x80 <= s[k] <= 0xBF
    ensures match RuneLength(s)
      case 1 => s[0] <= 0x7F
      case 2 => 0xC2 <= s[0] <= 0xDF
      case 3 => 0xE0 <= s[0] <= 0xEF && (s[0] == 0xE0 ==> 0xA0 <= s[1]) && (s[0] == 0xED ==> s[1] <= 0x9F)
      case _ =>
        RuneLength(s) == 4 && 0xF0 <= s[0] <= 0xF4 && (s[0] == 0xF0 ==> 0x90 <= s[1]) && (s[0] == 0xF4 ==> s[1] <= 0x8F)
  {
  }

  predicate Scalars(cs: seq<nat>) {
    forall c | c in cs :: Scalar(c)
  }

  function EncodeAll(cs: seq<nat>): Bytes
    requires Scalars(cs)
  {
    if cs == [] then []
    else
      assert cs[0] in cs && forall c | c in cs[1..] :: c in cs;
      Encode(cs[0]) + EncodeAll(cs[1..])
  }

  lemma {:induction false} EncodedIsValid(cs: seq<nat>)
    requires Scalars(cs)
    ensures ValidUtf8(EncodeAll(cs))
  {
    if cs != [] {
      assert cs[0] in cs && forall c | c in cs[1..] :: c in cs;
      EncodedIsValid(cs[1..]);
      EncodedIsRune(cs[0], EncodeAll(cs[1..]));
      hide RuneLength, Encode;
      assert (Encode(cs[0]) + EncodeAll(cs[1..]))[|Encode(cs[0])|..] == EncodeAll(cs[1..]);
      EncodedIsSome(cs[0]);
    }
  }

  lemma EncodedIsSome(c: nat)
    requires Scalar(c)
    ensures |Encode(c)| > 0
  {
  }

  lemma EncodeMore(c: nat, rest: seq<nat>)
    requires Scalar(c) && Scalars(rest)
    ensures Scalars([c] + rest) && EncodeAll([c] + rest) == Encode(c) + EncodeAll(rest)
  {
    assert ([c] + rest)[0] == c && ([c] + rest)[1..] == rest;
  }

  lemma FirstRune(s: Bytes) returns (c: nat, rest: Bytes)
    requires ValidUtf8(s) && s != []
    ensures Scalar(c) && ValidUtf8(rest) && |rest| < |s| && s == Encode(c) + rest
  {
    c, rest := Decode(s), s[RuneLength(s)..];
    RuneIsEncoded(s);
  }

  lemma {:induction false} Decoded(s: Bytes) returns (cs: seq<nat>)
    requires ValidUtf8(s)
    ensures Scalars(cs) && EncodeAll(cs) == s
    decreases |s|
  {
    if s == [] {
      return [];
    }
    hide ValidUtf8, Encode, EncodeAll, Scalar, Scalars;
    var c, rest := FirstRune(s);
    var more := Decoded(rest);
    EncodeMore(c, more);
    return [c] + more;
  }

  /** Valid text is exactly the encodings of scalar values, one after another. */
  lemma ValidIsEncoded(s: Bytes)
    ensures ValidUtf8(s) <==> exists cs: seq<nat> :: Scalars(cs) && EncodeAll(cs) == s
  {
    if ValidUtf8(s) {
      var cs := Decoded(s);
    }
    forall cs: seq<nat> | Scalars(cs) && EncodeAll(cs) == s
      ensures ValidUtf8(s)
    {
      EncodedIsValid(cs);
    }
  }

  /** unicode.IsSpace. */
  predicate IsSpace(c: char) {
    var u := c as int;
    || 0x09 <= u <= 0x0D || u == 0x20 || u == 0x85 || u == 0xA0 || u == 0x1680 || 0x2000 <= u <= 0x200A
    || u == 0x2028 || u == 0x2029 || u == 0x202F || u == 0x205F || u == 0x3000
  }

  /** The characters of the Unicode property White_Space, one by one. */
  const WHITE_SPACE: string := "\t\n\U{000B}\U{000C}\r \U{0085}\U{00A0}\U{1680}\U{2000}\U{2001}\U{2002}\U{2003}\U{2004}"
                               + "\U{2005}\U{2006}\U{2007}\U{2008}\U{2009}\U{200A}\U{2028}\U{2029}\U{202F}\U{205F}\U{3000}"

  lemma SpacesAre(c: char)
    ensures IsSpace(c) <==> c in WHITE_SPACE
  {
  }
}
