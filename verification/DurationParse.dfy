/** Reading a composed duration such as "4M2d8h30s". */
module DurationParse {
  import opened Wrappers
  import opened GoStrings
  import opened GoTime

  const DIGIT_ZERO: Byte := 0x30

  predicate IsDigit(b: Byte) {
    DIGIT_ZERO <= b <= DIGIT_ZERO + 9
  }

  function DigitOf(b: Byte): nat
    requires IsDigit(b)
  {
    (b - DIGIT_ZERO) as int
  }

  /** Seconds in each unit: a month is thirty days. */
  function SecondsIn(unit: Byte): nat {
    if unit == 0x4D then 30 * 86_400        // M
    else if unit == 0x77 then 7 * 86_400    // w
    else if unit == 0x64 then 86_400        // d
    else if unit == 0x68 then 3_600         // h
    else if unit == 0x6D then 60            // m
    else if unit == 0x73 then 1             // s
    else 0
  }

  predicate IsUnit(unit: Byte) {
    SecondsIn(unit) > 0
  }

  function UnitDuration(unit: Byte): nat {
    SecondsIn(unit) * NANOS_PER_SECOND
  }

  // ------------------------------------------------------------------ what a text denotes

  datatype Segment = Segment(digits: Bytes, unit: Byte)

  predicate AllDigits(s: Bytes) {
    forall b | b in s :: IsDigit(b)
  }

  predicate SegmentOk(s: Segment) {
    s.digits != [] && AllDigits(s.digits) && IsUnit(s.unit)
  }

  function Number(digits: Bytes): nat
    requires AllDigits(digits)
  {
    if digits == [] then 0 else Number(digits[..|digits| - 1]) * 10 + DigitOf(digits[|digits| - 1])
  }

  function Amount(s: Segment): nat
    requires SegmentOk(s)
  {
    Number(s.digits) * UnitDuration(s.unit)
  }

  predicate SegmentsOk(ss: seq<Segment>) {
    (forall s | s in ss :: SegmentOk(s)) && forall i, j | 0 <= i < j < |ss| :: ss[i].unit != ss[j].unit
  }

  /** The exact total in nanoseconds. */
  function Total(ss: seq<Segment>): nat
    requires forall s | s in ss :: SegmentOk(s)
  {
    if ss == [] then 0
    else
      assert forall s | s in ss[..|ss| - 1] :: s in ss;
      assert ss[|ss| - 1] in ss;
      Total(ss[..|ss| - 1]) + Amount(ss[|ss| - 1])
  }

  function Print(ss: seq<Segment>): Bytes {
    if ss == [] then [] else Print(ss[..|ss| - 1]) + ss[|ss| - 1].digits + [ss[|ss| - 1].unit]
  }

  /** The text is these segments, with no unit twice. */
  predicate Denotes(input: Bytes, ss: seq<Segment>) {
    SegmentsOk(ss) && Print(ss) == input
  }

  predicate InRange(total: int) {
    1 <= total <= MAX_DURATION
  }

  // ------------------------------------------------------------------ one reading only

  function DigitsEnd(input: Bytes, i: nat): (j: nat)
    requires i <= |input|
    ensures i <= j <= |input| && AllDigits(input[i..j])
    ensures j < |input| ==> !IsDigit(input[j])
    decreases |input| - i
  {
    if i < |input| && IsDigit(input[i]) then
      assert forall j: nat | i < j <= |input| :: input[i..j] == [input[i]] + input[i + 1..j];
      DigitsEnd(input, i + 1)
    else i
  }

  lemma {:induction false} PrintAppend(a: seq<Segment>, b: seq<Segment>)
    ensures Print(a + b) == Print(a) + Print(b)
  {
    if b == [] {
      assert a + b == a;
    } else {
      var n := |b| - 1;
      PrintAppend(a, b[..n]);
      assert (a + b)[..|a + b| - 1] == a + b[..n];
      assert Print(a) + (Print(b[..n]) + b[n].digits + [b[n].unit]) == Print(a) + Print(b[..n]) + b[n].digits + [b[n].unit];
    }
  }

  lemma PrintOne(s: Segment)
    ensures Print([s]) == s.digits + [s.unit]
  {
    assert [s][..0] == [];
  }

  /** The unit is no digit, so the digits of a segment are all the digits there are. */
  lemma SegmentAt(input: Bytes, i: nat, s: Segment, rest: Bytes)
    requires i <= |input| && input[i..] == s.digits + [s.unit] + rest && SegmentOk(s)
    ensures var j := DigitsEnd(input, i);
      j < |input| && s == Segment(input[i..j], input[j])
  {
    var n := i + |s.digits|;
    var j := DigitsEnd(input, i);
    assert input[i..][..|s.digits|] == s.digits;
    assert forall k | i <= k < |input| :: input[k] == input[i..][k - i];
    assert forall k | i <= k < n :: input[k] in s.digits;
    assert input[n] == s.unit && !IsDigit(input[n]);
    assert forall k | i <= k < j :: input[k] in input[i..j];
  }

  ghost predicate Forced(input: Bytes, done: seq<Segment>) {
    forall ss | Denotes(input, ss) :: done <= ss
  }

  /** Whatever the text denotes goes on with the segment that begins where the last one ended. */
  lemma NextSegment(input: Bytes, done: seq<Segment>, ss: seq<Segment>)
    requires Denotes(input, ss) && done <= ss && |Print(done)| < |input|
    ensures var i := |Print(done)|; var j := DigitsEnd(input, i);
      && i < j < |input| && |done| < |ss| && ss[|done|] == Segment(input[i..j], input[j])
  {
    hide Denotes, Print, SegmentOk;
    DenotesIs(input, ss);
    assert ss == done + ss[|done|..];
    PrintAppend(done, ss[|done|..]);
    NothingPrinted(ss[|done|..]);
    var s := ss[|done|];
    assert s in ss;
    assert ss[|done|..] == [s] + ss[|done| + 1..];
    PrintAppend([s], ss[|done| + 1..]);
    PrintOne(s);
    SegmentAt(input, |Print(done)|, s, Print(ss[|done| + 1..]));
    SegmentHasDigits(s);
  }

  lemma SegmentHasDigits(s: Segment)
    requires SegmentOk(s)
    ensures |s.digits| > 0
  {
  }

  lemma NothingPrinted(ss: seq<Segment>)
    ensures |ss| == 0 ==> Print(ss) == []
  {
  }

  lemma DenotesIs(input: Bytes, ss: seq<Segment>)
    ensures Denotes(input, ss) <==> SegmentsOk(ss) && Print(ss) == input
  {
  }

  lemma ForcedStep(input: Bytes, done: seq<Segment>)
    requires Forced(input, done) && |Print(done)| < |input|
    ensures var i := |Print(done)|; var j := DigitsEnd(input, i);
      if i < j < |input| then Forced(input, done + [Segment(input[i..j], input[j])])
      else forall ss :: !Denotes(input, ss)
  {
    hide Denotes, Print;
    forall ss | Denotes(input, ss)
      ensures var i := |Print(done)|; var j := DigitsEnd(input, i);
        i < j < |input| && done + [Segment(input[i..j], input[j])] <= ss
    {
      NextSegment(input, done, ss);
    }
  }

  /** A text denotes one thing at most. */
  lemma OneReading(input: Bytes, ss: seq<Segment>, ss': seq<Segment>)
    requires Denotes(input, ss) && Denotes(input, ss')
    ensures ss == ss'
  {
    SamePrefix(input, ss, ss', |ss|);
    assert ss[..|ss|] == ss;
    if ss != ss' {
      assert ss' == ss + ss'[|ss|..] && ss'[|ss|..] != [];
      PrintAppend(ss, ss'[|ss|..]);
    }
  }

  lemma PrintedUpTo(input: Bytes, ss: seq<Segment>, k: nat)
    requires Denotes(input, ss) && 0 < k <= |ss|
    ensures |Print(ss[..k - 1])| < |input|
  {
    DenotesIs(input, ss);
    hide Denotes, Print;
    assert ss == ss[..k - 1] + ([ss[k - 1]] + ss[k..]);
    PrintAppend(ss[..k - 1], [ss[k - 1]] + ss[k..]);
    PrintAppend([ss[k - 1]], ss[k..]);
    PrintOne(ss[k - 1]);
  }

  lemma {:induction false} SamePrefix(input: Bytes, ss: seq<Segment>, ss': seq<Segment>, k: nat)
    requires Denotes(input, ss) && Denotes(input, ss') && k <= |ss|
    ensures ss[..k] <= ss'
  {
    hide Denotes, Print;
    if k > 0 {
      SamePrefix(input, ss, ss', k - 1);
      PrintedUpTo(input, ss, k);
      assert ss[..k] == ss[..k - 1] + [ss[k - 1]];
      NextSegment(input, ss[..k - 1], ss);
      NextSegment(input, ss[..k - 1], ss');
    }
  }

  // ------------------------------------------------------------------ sums

  lemma TotalMore(ss: seq<Segment>, s: Segment)
    requires (forall t | t in ss :: SegmentOk(t)) && SegmentOk(s)
    ensures Total(ss + [s]) == Total(ss) + Amount(s)
  {
    assert (ss + [s])[..|ss|] == ss;
  }

  lemma {:induction false} TotalAppend(a: seq<Segment>, b: seq<Segment>)
    requires (forall s | s in a :: SegmentOk(s)) && forall s | s in b :: SegmentOk(s)
    ensures Total(a + b) == Total(a) + Total(b)
  {
    if b == [] {
      assert a + b == a;
    } else {
      var n := |b| - 1;
      assert b[n] in b && forall s | s in b[..n] :: s in b;
      TotalAppend(a, b[..n]);
      assert a + b == a + b[..n] + [b[n]];
      TotalMore(a + b[..n], b[n]);
    }
  }

  lemma TotalOfPrefix(done: seq<Segment>, ss: seq<Segment>)
    requires SegmentsOk(ss) && done <= ss
    ensures SegmentsOk(done) && Total(done) <= Total(ss)
  {
    assert ss == done + ss[|done|..];
    assert forall s | s in done :: s in ss;
    assert forall s | s in ss[|done|..] :: s in ss;
    TotalAppend(done, ss[|done|..]);
  }

  lemma QuotientTest(value: nat, u: nat)
    requires value > 0
    ensures u > MAX_DURATION / value <==> value * u > MAX_DURATION
  {
    var q := MAX_DURATION / value;
    assert q * value <= MAX_DURATION < q * value + value;
    assert (q + 1) * value == q * value + value;
    if u > q {
      ProductMonotone(q + 1, u, value);
    } else {
      ProductMonotone(u, q, value);
    }
  }

  lemma {:induction false} NumberOfPrefix(digits: Bytes, k: nat)
    requires AllDigits(digits) && k <= |digits|
    ensures AllDigits(digits[..k]) && Number(digits[..k]) <= Number(digits)
    decreases |digits|
  {
    if k < |digits| {
      var n := |digits| - 1;
      assert forall b | b in digits[..n] :: b in digits;
      assert digits[n] in digits && digits[..n][..k] == digits[..k];
      NumberOfPrefix(digits[..n], k);
    } else {
      assert digits[..k] == digits;
    }
  }

  lemma NumberMore(digits: Bytes, b: Byte)
    requires AllDigits(digits) && IsDigit(b)
    ensures AllDigits(digits + [b]) && Number(digits + [b]) == Number(digits) * 10 + DigitOf(b)
  {
    assert (digits + [b])[..|digits|] == digits;
  }

  // ------------------------------------------------------------------ the parser

  /** The value of some digits, unless it does not fit in 64 bits. */
  method ParseNumber(digits: Bytes) returns (value: Option<nat>)
    requires AllDigits(digits)
    ensures value == if Number(digits) > MAX_DURATION then None else Some(Number(digits))
  {
    var v := 0;
    for k := 0 to |digits|
      invariant AllDigits(digits[..k]) && v == Number(digits[..k]) <= MAX_DURATION
    {
      assert digits[k] in digits && digits[..k + 1] == digits[..k] + [digits[k]];
      var digit := DigitOf(digits[k]);
      NumberMore(digits[..k], digits[k]);
      if v > (MAX_DURATION - digit) / 10 {
        NumberOfPrefix(digits, k + 1);
        return None;
      }
      v := v * 10 + digit;
    }
    assert digits[..|digits|] == digits;
    return Some(v);
  }

  /** Nothing that the text may denote is within range. */
  ghost predicate Hopeless(input: Bytes) {
    forall ss | Denotes(input, ss) :: !InRange(Total(ss))
  }

  ghost predicate IsTotalOf(input: Bytes, total: int) {
    exists ss :: Denotes(input, ss) && Total(ss) == total
  }

  /** The exact total when it is in range, and nothing otherwise. */
  ghost predicate ParsesTo(input: Bytes, r: Option<int>) {
    match r
    case Some(total) => InRange(total) && IsTotalOf(input, total)
    case None => Hopeless(input)
  }

  lemma TooMuch(input: Bytes, done: seq<Segment>)
    requires Forced(input, done)
    requires SegmentsOk(done) ==> Total(done) > MAX_DURATION
    ensures Hopeless(input)
  {
    hide Print;
    forall ss | Denotes(input, ss)
      ensures !InRange(Total(ss))
    {
      TotalOfPrefix(done, ss);
    }
  }

  lemma ForcedToEnd(input: Bytes, done: seq<Segment>)
    requires Forced(input, done) && SegmentsOk(done) && Print(done) == input
    ensures Denotes(input, done) && forall ss | Denotes(input, ss) :: ss == done
  {
    forall ss | Denotes(input, ss)
      ensures ss == done
    {
      OneReading(input, ss, done);
    }
  }

  predicate SeenIn(seen: set<Byte>, ss: seq<Segment>) {
    forall b :: b in seen <==> exists s :: s in ss && s.unit == b
  }

  /** A segment with no unit, an unknown one or one seen before fits no reading. */
  lemma NotASegment(done: seq<Segment>, s: Segment, seen: set<Byte>)
    requires SeenIn(seen, done) && (!IsUnit(s.unit) || s.unit in seen)
    ensures !SegmentsOk(done + [s])
  {
    var more := done + [s];
    assert more[|done|] == s && s in more;
    if s.unit in seen {
      var t :| t in done && t.unit == s.unit;
      var k :| 0 <= k < |done| && done[k] == t;
      assert more[k].unit == more[|done|].unit;
    }
  }

  lemma OneMoreUnit(done: seq<Segment>, s: Segment, seen: set<Byte>)
    requires SegmentsOk(done) && SeenIn(seen, done) && SegmentOk(s) && s.unit !in seen
    ensures SegmentsOk(done + [s])
  {
    hide SegmentOk;
    assert forall k | 0 <= k < |done| :: done[k] in done;
  }

  lemma OneMoreSeen(done: seq<Segment>, s: Segment, seen: set<Byte>)
    requires SeenIn(seen, done)
    ensures SeenIn(seen + {s.unit}, done + [s])
  {
    assert s in done + [s] && forall t | t in done :: t in done + [s];
  }

  lemma OneMoreSegment(done: seq<Segment>, s: Segment, seen: set<Byte>)
    requires SegmentsOk(done) && SeenIn(seen, done) && SegmentOk(s) && s.unit !in seen
    ensures SegmentsOk(done + [s]) && SeenIn(seen + {s.unit}, done + [s])
    ensures Total(done + [s]) == Total(done) + Amount(s) && Print(done + [s]) == Print(done) + s.digits + [s.unit]
  {
    hide SegmentOk, SeenIn, Amount;
    OneMoreUnit(done, s, seen);
    OneMoreSeen(done, s, seen);
    TotalMore(done, s);
    assert (done + [s])[..|done|] == done;
  }

  lemma MoreIsSum(done: seq<Segment>, s: Segment)
    requires SegmentsOk(done) && SegmentsOk(done + [s])
    ensures SegmentOk(s) && Total(done + [s]) == Total(done) + Amount(s)
  {
    assert (done + [s])[|done|] == s;
    TotalMore(done, s);
  }

  /** The text goes on with a segment, and the total up to and with it does not fit. */
  lemma SumOverflows(input: Bytes, done: seq<Segment>, s: Segment)
    requires Forced(input, done + [s]) && SegmentsOk(done)
    requires SegmentOk(s) ==> Total(done) + Amount(s) > MAX_DURATION
    ensures Hopeless(input)
  {
    hide Forced, Hopeless, SegmentOk, Total, Amount;
    if SegmentsOk(done + [s]) {
      MoreIsSum(done, s);
    }
    TooMuch(input, done + [s]);
  }

  lemma NumberOverflows(s: Segment)
    requires SegmentOk(s) && Number(s.digits) > MAX_DURATION
    ensures Amount(s) > MAX_DURATION
  {
    ProductMonotone(1, UnitDuration(s.unit), Number(s.digits));
  }

  lemma NoReading(input: Bytes)
    requires forall ss :: !Denotes(input, ss)
    ensures Hopeless(input)
  {
  }

  lemma Beginning(input: Bytes)
    ensures SegmentsOk([]) && Print([]) == [] && Total([]) == 0 && SeenIn({}, []) && Forced(input, [])
  {
  }

  lemma Ending(input: Bytes, done: seq<Segment>)
    requires Forced(input, done) && SegmentsOk(done) && Print(done) == input && Total(done) <= MAX_DURATION
    ensures if Total(done) > 0 then IsTotalOf(input, Total(done)) else Hopeless(input)
  {
    ForcedToEnd(input, done);
  }

  /** Succeeds exactly when the text is segments of digits and a unit, no unit twice, whose exact total is positive and
      fits in a duration; and then gives that total. */
  method ParseDuration(input: Bytes) returns (r: Option<int>)
    ensures ParsesTo(input, r) && ReadsPlainly(input, r)
  {
    r := ReadSegments(input);
    ParsesPlainly(input, r);
  }

  /** The loop over the segments. */
  method ReadSegments(input: Bytes) returns (r: Option<int>)
    ensures ParsesTo(input, r)
  {
    hide Denotes, Print, Total, Number, Forced, Hopeless, SeenIn, IsTotalOf, SecondsIn;
    var total, i := 0, 0;
    var seen: set<Byte> := {};
    ghost var done: seq<Segment> := [];
    Beginning(input);
    while i < |input|
      invariant 0 <= i <= |input| && SegmentsOk(done) && Print(done) == input[..i]
      invariant SeenIn(seen, done) && Forced(input, done)
      invariant 0 <= total == Total(done) <= MAX_DURATION
    {
      var start := i;
      ForcedStep(input, done);
      i := RunOfDigits(input, start);
      if i == start {
        NoReading(input);
        return None;
      }
      var digits := input[start..i];
      var value := ParseNumber(digits);
      if i >= |input| {
        NoReading(input);
        return None;
      }
      var unit := input[i];
      ghost var s := Segment(digits, unit);
      if value.None? {
        if SegmentOk(s) {
          NumberOverflows(s);
        }
        SumOverflows(input, done, s);
        return None;
      }
      i := i + 1;
      if !IsUnit(unit) || unit in seen {
        NotASegment(done, s, seen);
        TooMuch(input, done + [s]);
        return None;
      }
      seen := seen + {unit};
      var unitDur := UnitDuration(unit);
      if value.value != 0 {
        QuotientTest(value.value, unitDur);
        if unitDur > MAX_DURATION / value.value {
          SumOverflows(input, done, s);
          return None;
        }
      }
      var part := value.value * unitDur;
      if part > 0 && total > MAX_DURATION - part {
        SumOverflows(input, done, s);
        return None;
      }
      OneMoreSegment(done, s, seen - {unit});
      total, done := total + part, done + [s];
    }
    Ending(input, done);
    if total <= 0 {
      return None;
    }
    return Some(total);
  }

  method RunOfDigits(input: Bytes, start: nat) returns (i: nat)
    requires start <= |input|
    ensures i == DigitsEnd(input, start)
  {
    i := start;
    while i < |input| && IsDigit(input[i])
      invariant start <= i <= |input| && DigitsEnd(input, start) == DigitsEnd(input, i)
    {
      i := i + 1;
    }
  }

  // ------------------------------------------------------------------ the same spelled out

  /** The value of figures '0' to '9'. */
  function Figure(digits: Bytes): int {
    if digits == [] then 0 else Figure(digits[..|digits| - 1]) * 10 + (digits[|digits| - 1] as int - 48)
  }

  /** Seconds in a month of thirty days, a week, a day, an hour, a minute and a second, by their letters. */
  function Size(letter: char): int {
    match letter
    case 'M' => 2_592_000
    case 'w' => 604_800
    case 'd' => 86_400
    case 'h' => 3_600
    case 'm' => 60
    case 's' => 1
    case _ => 0
  }

  predicate Plain(s: Segment) {
    && s.digits != [] && (forall b | b in s.digits :: 48 <= b as int <= 57)
    && s.unit as int < 128 && s.unit as int as char in "Mwdhms"
  }

  predicate AllPlain(ss: seq<Segment>) {
    (forall k | 0 <= k < |ss| :: Plain(ss[k])) && forall i, j | 0 <= i < j < |ss| :: ss[i].unit != ss[j].unit
  }

  function Sum(ss: seq<Segment>): int {
    if ss == [] then 0
    else
      var last := ss[|ss| - 1];
      Sum(ss[..|ss| - 1]) + if last.unit as int < 128 then Figure(last.digits) * (Size(last.unit as int as char) * 1_000_000_000) else 0
  }

  function Spell(ss: seq<Segment>): Bytes {
    if ss == [] then [] else Spell(ss[..|ss| - 1]) + (ss[|ss| - 1].digits + [ss[|ss| - 1].unit])
  }

  /** The sum of what the text spells when that is a positive 64-bit duration, and nothing otherwise. */
  ghost predicate ReadsPlainly(input: Bytes, r: Option<int>) {
    match r
    case Some(total) => 1 <= total <= 0x7FFF_FFFF_FFFF_FFFF && exists ss :: AllPlain(ss) && Spell(ss) == input && Sum(ss) == total
    case None => forall ss | AllPlain(ss) && Spell(ss) == input :: !(1 <= Sum(ss) <= 0x7FFF_FFFF_FFFF_FFFF)
  }

  lemma {:induction false} FigureIsNumber(digits: Bytes)
    requires AllDigits(digits)
    ensures Figure(digits) == Number(digits)
  {
    if digits != [] {
      var n := |digits| - 1;
      assert digits[n] in digits && forall b | b in digits[..n] :: b in digits;
      FigureIsNumber(digits[..n]);
    }
  }

  lemma PlainIsOk(s: Segment)
    ensures Plain(s) <==> SegmentOk(s)
    ensures SegmentOk(s) ==> Amount(s) == Figure(s.digits) * (Size(s.unit as int as char) * 1_000_000_000)
  {
    if SegmentOk(s) {
      FigureIsNumber(s.digits);
      UnitIsSize(s.unit);
    }
  }

  lemma UnitIsSize(unit: Byte)
    requires unit as int < 128
    ensures UnitDuration(unit) == Size(unit as int as char) * 1_000_000_000
  {
  }

  lemma {:induction false} SumIsTotal(ss: seq<Segment>)
    requires forall s | s in ss :: SegmentOk(s)
    ensures Sum(ss) == Total(ss)
  {
    if ss != [] {
      hide SegmentOk, Amount, Figure, Size;
      var n := |ss| - 1;
      assert ss[n] in ss && forall s | s in ss[..n] :: s in ss;
      SumIsTotal(ss[..n]);
      PlainIsOk(ss[n]);
      OkUnit(ss[n]);
    }
  }

  lemma OkUnit(s: Segment)
    requires SegmentOk(s)
    ensures s.unit as int < 128
  {
  }

  lemma {:induction false} SpellIsPrint(ss: seq<Segment>)
    ensures Spell(ss) == Print(ss)
  {
    if ss != [] {
      SpellIsPrint(ss[..|ss| - 1]);
    }
  }

  lemma AllPlainIsOk(ss: seq<Segment>)
    ensures AllPlain(ss) <==> SegmentsOk(ss)
  {
    hide Plain, SegmentOk;
    forall s
      ensures Plain(s) <==> SegmentOk(s)
    {
      PlainIsOk(s);
    }
    assert forall k | 0 <= k < |ss| :: ss[k] in ss;
  }

  lemma ParsesPlainly(input: Bytes, r: Option<int>)
    requires ParsesTo(input, r)
    ensures ReadsPlainly(input, r)
  {
    hide AllPlain, SegmentOk, Sum, Spell, Print, Total;
    forall ss
      ensures AllPlain(ss) && Spell(ss) == input <==> Denotes(input, ss)
      ensures Denotes(input, ss) ==> Sum(ss) == Total(ss)
    {
      AllPlainIsOk(ss);
      SpellIsPrint(ss);
      if Denotes(input, ss) {
        SumIsTotal(ss);
      }
    }
    if r.Some? {
      var ss :| Denotes(input, ss) && Total(ss) == r.value;
      assert AllPlain(ss) && Spell(ss) == input && Sum(ss) == r.value;
    }
  }

  /** Figures and one letter are read as that many of its unit. */
  lemma OneUnitIsRead(digits: Bytes, letter: char, r: Option<int>)
    requires digits != [] && (forall b | b in digits :: 48 <= b as int <= 57) && letter in "Mwdhms"
    requires ParsesTo(digits + [letter as int as Byte], r)
    ensures var total := Figure(digits) * (Size(letter) * 1_000_000_000);
      r == if 1 <= total <= 0x7FFF_FFFF_FFFF_FFFF then Some(total) else None
  {
    var s := Segment(digits, letter as int as Byte);
    PlainIsOk(s);
    PrintOne(s);
    TotalOne(s);
    hide Size, Figure, Amount;
    assert SegmentsOk([s]);
    SegmentsDecide(digits + [letter as int as Byte], [s], r);
  }

  // ------------------------------------------------------------------ what follows

  /** The segments of a text decide what it is parsed to. */
  lemma SegmentsDecide(input: Bytes, ss: seq<Segment>, r: Option<int>)
    requires Denotes(input, ss) && ParsesTo(input, r)
    ensures r == if InRange(Total(ss)) then Some(Total(ss)) else None
  {
    if r.Some? {
      var other :| Denotes(input, other) && Total(other) == r.value;
      OneReading(input, ss, other);
    }
  }

  predicate AllOk(ss: seq<Segment>) {
    forall s | s in ss :: SegmentOk(s)
  }

  lemma TakenApart(a: seq<Segment>, s: Segment, b: seq<Segment>)
    requires AllOk(a) && SegmentOk(s) && AllOk(b)
    ensures AllOk(a + [s] + b) && AllOk(a + b) && Total(a + [s] + b) == Total(a + b) + Amount(s)
  {
    hide SegmentOk, Amount, Total;
    TotalAppend(a, b);
    TotalMore(a, s);
    TotalAppend(a + [s], b);
  }

  lemma TakenOut(ss: seq<Segment>, k: nat)
    requires k < |ss| && AllOk(ss)
    ensures AllOk(ss[..k] + ss[k + 1..]) && SegmentOk(ss[k])
    ensures Total(ss) == Total(ss[..k] + ss[k + 1..]) + Amount(ss[k])
  {
    hide SegmentOk, Amount, Total;
    assert ss == ss[..k] + [ss[k]] + ss[k + 1..];
    assert ss[k] in ss && (forall s | s in ss[..k] :: s in ss) && forall s | s in ss[k + 1..] :: s in ss;
    TakenApart(ss[..k], ss[k], ss[k + 1..]);
  }

  lemma WithoutOne(ss: seq<Segment>, k: nat)
    requires k < |ss|
    ensures multiset(ss[..k] + ss[k + 1..]) == multiset(ss) - multiset{ss[k]}
  {
    assert ss == ss[..k] + [ss[k]] + ss[k + 1..];
  }

  lemma SameMembers(ss: seq<Segment>, ss': seq<Segment>)
    requires multiset(ss) == multiset(ss')
    ensures |ss| == |ss'| && forall s :: s in ss <==> s in ss'
  {
    assert |multiset(ss)| == |multiset(ss')|;
    assert forall s :: s in ss <==> s in multiset(ss);
    assert forall s :: s in ss' <==> s in multiset(ss');
  }

  lemma {:induction false} TotalIgnoresOrder(ss: seq<Segment>, ss': seq<Segment>)
    requires multiset(ss) == multiset(ss') && AllOk(ss)
    ensures AllOk(ss') && Total(ss) == Total(ss')
    decreases |ss|
  {
    hide SegmentOk, Amount;
    SameMembers(ss, ss');
    if ss != [] {
      assert ss[0] in ss;
      var k :| 0 <= k < |ss'| && ss'[k] == ss[0];
      TakenOut(ss, 0);
      TakenOut(ss', k);
      WithoutOne(ss, 0);
      WithoutOne(ss', k);
      TotalIgnoresOrder(ss[..0] + ss[1..], ss'[..k] + ss'[k + 1..]);
    }
  }

  lemma TwiceCounted(ss: seq<Segment>, i: nat, j: nat)
    requires i < j < |ss| && ss[i] == ss[j]
    ensures multiset(ss)[ss[i]] >= 2
  {
    assert ss == ss[..j] + ss[j..] && ss[..j][i] == ss[j..][0] == ss[i];
    assert ss[i] in ss[..j] && ss[i] in ss[j..];
  }

  lemma UnitsStayDistinct(ss: seq<Segment>, ss': seq<Segment>)
    requires SegmentsOk(ss) && multiset(ss) == multiset(ss')
    ensures SegmentsOk(ss')
  {
    hide SegmentOk;
    SameMembers(ss, ss');
    forall i, j | 0 <= i < j < |ss'|
      ensures ss'[i].unit != ss'[j].unit
    {
      assert ss'[i] in ss && ss'[j] in ss;
      var k :| 0 <= k < |ss| && ss[k] == ss'[i];
      OnlyOnce(ss, k);
      if ss'[i] == ss'[j] {
        TwiceCounted(ss', i, j);
      }
    }
  }

  lemma OnlyOnce(ss: seq<Segment>, k: nat)
    requires SegmentsOk(ss) && k < |ss|
    ensures multiset(ss)[ss[k]] == 1
  {
    var a, b := ss[..k], ss[k + 1..];
    assert ss == a + [ss[k]] + b;
    assert ss[k] !in a && ss[k] !in b;
  }

  /** Segments in any other order are parsed to the same. */
  lemma OrderNeverMatters(ss: seq<Segment>, ss': seq<Segment>, r: Option<int>, r': Option<int>)
    requires SegmentsOk(ss) && multiset(ss) == multiset(ss')
    requires ParsesTo(Print(ss), r) && ParsesTo(Print(ss'), r')
    ensures r == r'
  {
    UnitsStayDistinct(ss, ss');
    TotalIgnoresOrder(ss, ss');
    SegmentsDecide(Print(ss), ss, r);
    SegmentsDecide(Print(ss'), ss', r');
  }

  function Decimal(n: nat): (digits: Bytes)
    ensures digits != [] && AllDigits(digits) && Number(digits) == n
  {
    var last := (n % 10) as Byte + DIGIT_ZERO;
    if n < 10 then
      assert [last][..0] == [];
      [last]
    else
      NumberMore(Decimal(n / 10), last);
      Decimal(n / 10) + [last]
  }

  const UNITS: Bytes := [0x4D, 0x77, 0x64, 0x68, 0x6D, 0x73]

  /** Some seconds written from the k-th unit down, as many of each as there are, units there are none of left out. */
  function Written(seconds: nat, k: nat): seq<Segment>
    requires k < |UNITS|
    decreases |UNITS| - k
  {
    var size := SecondsIn(UNITS[k]);
    var head := if seconds / size > 0 then [Segment(Decimal(seconds / size), UNITS[k])] else [];
    head + if k + 1 < |UNITS| then Written(seconds % size, k + 1) else []
  }

  predicate FromUnit(ss: seq<Segment>, k: nat) {
    forall s | s in ss :: exists j | k <= j < |UNITS| :: s.unit == UNITS[j]
  }

  lemma UnitsDiffer(j: nat, k: nat)
    requires j < k < |UNITS|
    ensures UNITS[j] != UNITS[k]
  {
  }

  lemma Divided(n: nat, d: nat, scale: nat)
    requires d > 0
    ensures n / d * (d * scale) + n % d * scale == n * scale
  {
    assert n == n / d * d + n % d;
    assert n / d * (d * scale) == n / d * d * scale;
    assert (n / d * d + n % d) * scale == n / d * d * scale + n % d * scale;
  }

  lemma TotalOne(s: Segment)
    requires SegmentOk(s)
    ensures Total([s]) == Amount(s)
  {
    assert [s][..0] == [];
  }

  lemma SegmentsPrepend(s: Segment, rest: seq<Segment>, k: nat)
    requires k < |UNITS| && SegmentOk(s) && s.unit == UNITS[k] && SegmentsOk(rest) && FromUnit(rest, k + 1)
    ensures SegmentsOk([s] + rest) && FromUnit([s] + rest, k) && Total([s] + rest) == Amount(s) + Total(rest)
  {
    forall j | 0 <= j < |rest|
      ensures rest[j].unit != s.unit
    {
      assert rest[j] in rest;
      var m :| k + 1 <= m < |UNITS| && rest[j].unit == UNITS[m];
      UnitsDiffer(k, m);
    }
    TotalAppend([s], rest);
    TotalOne(s);
  }

  lemma UnitsAreUnits(k: nat)
    requires k < |UNITS|
    ensures IsUnit(UNITS[k]) && (k + 1 == |UNITS| ==> SecondsIn(UNITS[k]) == 1)
  {
  }

  lemma NothingWritten(k: nat)
    ensures SegmentsOk([]) && FromUnit([], k) && Total([]) == 0
  {
  }

  lemma WrittenHead(seconds: nat, k: nat, rest: seq<Segment>)
    requires k < |UNITS| && SegmentsOk(rest) && FromUnit(rest, k + 1)
    requires SecondsIn(UNITS[k]) > 0 && Total(rest) == seconds % SecondsIn(UNITS[k]) * NANOS_PER_SECOND
    ensures var size := SecondsIn(UNITS[k]);
      var ss := (if seconds / size > 0 then [Segment(Decimal(seconds / size), UNITS[k])] else []) + rest;
      SegmentsOk(ss) && FromUnit(ss, k) && Total(ss) == seconds * NANOS_PER_SECOND
  {
    hide SegmentsOk, Total, SecondsIn, Decimal, Number;
    var size := SecondsIn(UNITS[k]);
    Divided(seconds, size, NANOS_PER_SECOND);
    if seconds / size > 0 {
      SegmentsPrepend(Segment(Decimal(seconds / size), UNITS[k]), rest, k);
    } else {
      assert [] + rest == rest;
    }
  }

  lemma {:induction false} WrittenIsExact(seconds: nat, k: nat)
    requires k < |UNITS|
    ensures SegmentsOk(Written(seconds, k)) && FromUnit(Written(seconds, k), k)
    ensures Total(Written(seconds, k)) == seconds * NANOS_PER_SECOND
    decreases |UNITS| - k
  {
    hide SegmentsOk, FromUnit, Total, SecondsIn, Decimal;
    UnitsAreUnits(k);
    NothingWritten(k + 1);
    if k + 1 < |UNITS| {
      WrittenIsExact(seconds % SecondsIn(UNITS[k]), k + 1);
      WrittenHead(seconds, k, Written(seconds % SecondsIn(UNITS[k]), k + 1));
    } else {
      WrittenHead(seconds, k, []);
    }
  }

  /** Any positive number of whole seconds that is a duration, written out by units, is parsed back to itself. */
  lemma DurationRoundTrip(seconds: nat, r: Option<int>)
    requires InRange(seconds * NANOS_PER_SECOND) && ParsesTo(Print(Written(seconds, 0)), r)
    ensures r == Some(seconds * NANOS_PER_SECOND)
  {
    WrittenIsExact(seconds, 0);
    SegmentsDecide(Print(Written(seconds, 0)), Written(seconds, 0), r);
  }
}
