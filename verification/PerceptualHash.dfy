/** Perceptual hashes: the 8-chunk split behind the index, the Hamming distance and the
    confidence tiers. A uint64 is a natural number below 2^64, its bits read by halving. */
module PerceptualHash {
  type Hash = h: nat | h < 0x1_0000_0000_0000_0000

  const MAX_DISTANCE: int := 7
  const CHUNK_COUNT: nat := 8

  /** x >> n. */
  function Shr(x: nat, n: nat): nat {
    if n == 0 then x else Shr(x / 2, n - 1)
  }

  /** a ^ b over the n lowest bits. */
  function Xor(a: nat, b: nat, n: nat): nat {
    if n == 0 then 0 else 2 * Xor(a / 2, b / 2, n - 1) + (a + b) % 2
  }

  /** How many of the n lowest bits of x are set. */
  function OnesCount(x: nat, n: nat): nat {
    if n == 0 then 0 else OnesCount(x / 2, n - 1) + x % 2
  }

  function Distance(a: Hash, b: Hash): nat {
    OnesCount(Xor(a, b, 64), 64)
  }

  /** Chunk i of a hash, chunk 0 being the most significant byte. */
  function ChunkAt(hash: Hash, i: nat): nat
    requires i < CHUNK_COUNT
  {
    Shr(hash, (CHUNK_COUNT - 1 - i) * 8) % 256
  }

  predicate SharesAChunk(a: Hash, b: Hash) {
    exists i: nat | i < CHUNK_COUNT :: ChunkAt(a, i) == ChunkAt(b, i)
  }

  lemma ShrByte(x: nat, n: nat)
    ensures Shr(x, n + 8) == Shr(x / 256, n)
  {
    assert Shr(x, n + 8) == Shr(x / 4, n + 6) == Shr(x / 16, n + 4) == Shr(x / 64, n + 2);
  }

  /** How many of the n lowest bits of a and b differ. */
  function DifferingBits(a: nat, b: nat, n: nat): nat {
    if n == 0 then 0 else DifferingBits(a / 2, b / 2, n - 1) + (a + b) % 2
  }

  lemma {:induction false} DistanceCountsDifferingBits(a: nat, b: nat, n: nat)
    ensures OnesCount(Xor(a, b, n), n) == DifferingBits(a, b, n)
  {
    if n > 0 {
      DistanceCountsDifferingBits(a / 2, b / 2, n - 1);
      XorBits(a, b, n);
    }
  }

  lemma {:induction false} SplitBits(a: nat, b: nat, m: nat, n: nat)
    ensures DifferingBits(a, b, m + n) == DifferingBits(a, b, m) + DifferingBits(Shr(a, m), Shr(b, m), n)
  {
    if m > 0 {
      SplitBits(a / 2, b / 2, m - 1, n);
    }
  }

  /** x << n. */
  function Shl(x: int, n: nat): (r: int)
    ensures x >= 0 ==> r >= 0
  {
    if n == 0 then x else 2 * Shl(x, n - 1)
  }

  lemma EvenDifference(a: nat, b: nat)
    requires (a + b) % 2 == 0
    ensures a - b == 2 * (a / 2 - b / 2)
  {
    assert a == 2 * (a / 2) + a % 2 && b == 2 * (b / 2) + b % 2;
  }

  lemma {:induction false} EqualLowBits(a: nat, b: nat, n: nat)
    requires DifferingBits(a, b, n) == 0
    ensures a - b == Shl(Shr(a, n) - Shr(b, n), n)
  {
    if n > 0 {
      EqualLowBits(a / 2, b / 2, n - 1);
      EvenDifference(a, b);
    }
  }

  lemma ShlByte(x: int, n: nat)
    ensures Shl(x, n + 8) == 256 * Shl(x, n)
  {
    assert Shl(x, n + 8) == 4 * Shl(x, n + 6) == 16 * Shl(x, n + 4) == 64 * Shl(x, n + 2);
  }

  lemma EqualLowByte(a: nat, b: nat)
    requires DifferingBits(a, b, 8) == 0
    ensures a % 256 == b % 256
  {
    EqualLowBits(a, b, 8);
    ShrByte(a, 0);
    ShrByte(b, 0);
    ShlByte(a / 256 - b / 256, 0);
    assert a - b == 256 * (a / 256 - b / 256);
  }

  lemma LowByteDiffers(a: nat, b: nat, n: nat)
    requires n >= 8
    ensures DifferingBits(a, b, n) >= (if a % 256 == b % 256 then 0 else 1) + DifferingBits(a / 256, b / 256, n - 8)
  {
    SplitBits(a, b, 8, n - 8);
    ShrByte(a, 0);
    ShrByte(b, 0);
    if a % 256 != b % 256 && DifferingBits(a, b, 8) == 0 {
      EqualLowByte(a, b);
    }
  }

  /** How many of the n lowest bytes of a and b differ. */
  function DifferingBytes(a: nat, b: nat, n: nat): nat {
    if n == 0 then 0 else DifferingBytes(a / 256, b / 256, n - 1) + (if a % 256 == b % 256 then 0 else 1)
  }

  lemma {:induction false} DifferingBytesBound(a: nat, b: nat, n: nat)
    ensures DifferingBytes(a, b, n) <= DifferingBits(a, b, 8 * n)
  {
    if n > 0 {
      DifferingBytesBound(a / 256, b / 256, n - 1);
      LowByteDiffers(a, b, 8 * n);
    }
  }

  lemma {:induction false} AllBytesDiffer(a: nat, b: nat, n: nat)
    requires forall k: nat | k < n :: Shr(a, k * 8) % 256 != Shr(b, k * 8) % 256
    ensures DifferingBytes(a, b, n) == n
  {
    if n > 0 {
      assert Shr(a, 0 * 8) % 256 != Shr(b, 0 * 8) % 256;
      forall k: nat | k < n - 1
        ensures Shr(a / 256, k * 8) % 256 != Shr(b / 256, k * 8) % 256
      {
        ShrByte(a, k * 8);
        ShrByte(b, k * 8);
        assert Shr(a, (k + 1) * 8) % 256 != Shr(b, (k + 1) * 8) % 256;
      }
      AllBytesDiffer(a / 256, b / 256, n - 1);
    }
  }

  /** The pigeonhole guarantee: within distance 7 some chunk is equal. */
  lemma WithinSevenSharesAChunk(a: Hash, b: Hash)
    requires Distance(a, b) <= MAX_DISTANCE
    ensures SharesAChunk(a, b)
  {
    if !SharesAChunk(a, b) {
      forall k: nat | k < CHUNK_COUNT
        ensures Shr(a, k * 8) % 256 != Shr(b, k * 8) % 256
      {
        assert ChunkAt(a, CHUNK_COUNT - 1 - k) != ChunkAt(b, CHUNK_COUNT - 1 - k);
      }
      AllBytesDiffer(a, b, CHUNK_COUNT);
      DifferingBytesBound(a, b, CHUNK_COUNT);
      DistanceCountsDifferingBits(a, b, 64);
    }
  }

  lemma LowBit(x: nat, bit: nat)
    requires bit < 2
    ensures (2 * x + bit) % 2 == bit && (2 * x + bit) / 2 == x
  {
  }

  lemma XorBits(a: nat, b: nat, n: nat)
    requires n > 0
    ensures Xor(a, b, n) % 2 == (a + b) % 2 && Xor(a, b, n) / 2 == Xor(a / 2, b / 2, n - 1)
  {
    LowBit(Xor(a / 2, b / 2, n - 1), (a + b) % 2);
  }

  lemma Parity(a: nat, b: nat, x: nat)
    requires x % 2 == (a + b) % 2
    ensures (a + x) % 2 == b % 2
  {
  }

  lemma {:induction false} XorTwice(a: nat, b: nat, n: nat)
    ensures DifferingBits(a, Xor(a, b, n), n) == OnesCount(b, n)
  {
    if n > 0 {
      XorTwice(a / 2, b / 2, n - 1);
      XorBits(a, b, n);
      Parity(a, b, Xor(a, b, n));
    }
  }

  lemma {:induction false} XorBound(a: nat, b: nat, n: nat)
    ensures Xor(a, b, n) < Shl(1, n)
  {
    if n > 0 {
      XorBound(a / 2, b / 2, n - 1);
    }
  }

  lemma {:induction false} ShrXor(a: nat, b: nat, n: nat, s: nat)
    requires s <= n
    ensures Shr(Xor(a, b, n), s) == Xor(Shr(a, s), Shr(b, s), n - s)
  {
    if s > 0 {
      XorBits(a, b, n);
      ShrXor(a / 2, b / 2, n - 1, s - 1);
    }
  }

  /** One bit in each of the n lowest bytes. */
  function OneBitPerByte(n: nat): nat {
    if n == 0 then 0 else 256 * OneBitPerByte(n - 1) + 1
  }

  lemma {:induction false} OnesShl(m: nat, k: nat, n: nat)
    ensures OnesCount(Shl(m, k), n + k) == OnesCount(m, n)
  {
    if k > 0 {
      OnesShl(m, k - 1, n);
      LowBit(Shl(m, k - 1), 0);
    }
  }

  lemma OnesByte(m: nat, n: nat)
    requires n >= 8
    ensures OnesCount(256 * m + 1, n) == OnesCount(m, n - 8) + 1
  {
    OnesShl(m, 7, n - 8);
    ShlByte(m, 0);
    var half := Shl(m, 7);
    assert 256 * m + 1 == 2 * half + 1;
    LowBit(half, 1);
  }

  lemma {:induction false} OneBitPerByteBits(n: nat)
    ensures OnesCount(OneBitPerByte(n), n * 8) == n
    ensures forall k: nat | k < n :: Shr(OneBitPerByte(n), k * 8) % 2 == 1
  {
    if n > 0 {
      var m := OneBitPerByte(n - 1);
      OneBitPerByteBits(n - 1);
      OnesByte(m, n * 8);
      assert (256 * m + 1) / 256 == m && (256 * m + 1) % 2 == 1;
      forall k: nat | k < n
        ensures Shr(OneBitPerByte(n), k * 8) % 2 == 1
      {
        if k > 0 {
          ShrByte(256 * m + 1, (k - 1) * 8);
          assert k * 8 == (k - 1) * 8 + 8;
        }
      }
    }
  }

  lemma ShlSixtyFour()
    ensures Shl(1, 64) == 0x1_0000_0000_0000_0000
  {
    for n := 0 to 8
      invariant Shl(1, n * 8) == match n
        case 0 => 1
        case 1 => 0x100
        case 2 => 0x1_0000
        case 3 => 0x100_0000
        case 4 => 0x1_0000_0000
        case 5 => 0x100_0000_0000
        case 6 => 0x1_0000_0000_0000
        case 7 => 0x100_0000_0000_0000
        case _ => 0x1_0000_0000_0000_0000
    {
      ShlByte(1, n * 8);
      assert (n + 1) * 8 == n * 8 + 8;
    }
  }

  lemma EqualBytesSum(x: nat, y: nat)
    ensures x % 256 == y % 256 ==> (x + y) % 2 == 0
  {
    var p, q := x / 256, y / 256;
    assert x == 256 * p + x % 256 && y == 256 * q + y % 256;
    if x % 256 == y % 256 {
      assert x + y == 2 * (128 * p + 128 * q + x % 256);
    }
  }

  lemma FlippedBitDiffers(a: nat, m: nat, s: nat)
    requires s < 64 && Shr(m, s) % 2 == 1
    ensures Shr(Xor(a, m, 64), s) % 256 != Shr(a, s) % 256
  {
    ShrXor(a, m, 64, s);
    XorBits(Shr(a, s), Shr(m, s), 64 - s);
    Parity(Shr(a, s), Shr(m, s), Shr(Xor(a, m, 64), s));
    EqualBytesSum(Shr(a, s), Shr(Xor(a, m, 64), s));
  }

  lemma OneBitPerByteMask() returns (m: nat)
    ensures OnesCount(m, 64) == 8
    ensures forall k: nat | k < CHUNK_COUNT :: Shr(m, k * 8) % 2 == 1
  {
    m := OneBitPerByte(8);
    OneBitPerByteBits(8);
  }

  /** Seven is tight: every hash has one at distance 8 sharing no chunk with it. */
  lemma EightMayShareNone(a: Hash) returns (b: Hash)
    ensures Distance(a, b) == MAX_DISTANCE + 1 && !SharesAChunk(a, b)
  {
    var m := OneBitPerByteMask();
    XorBound(a, m, 64);
    ShlSixtyFour();
    b := Xor(a, m, 64);
    DistanceCountsDifferingBits(a, b, 64);
    XorTwice(a, m, 64);
    forall i: nat | i < CHUNK_COUNT
      ensures ChunkAt(a, i) != ChunkAt(b, i)
    {
      FlippedBitDiffers(a, m, (CHUNK_COUNT - 1 - i) * 8);
    }
  }

  /** Going over the hash once with the shift of the code gives the eight chunks in order. */
  method Chunks(hash: Hash) returns (chunks: seq<nat>)
    ensures |chunks| == CHUNK_COUNT && forall i: nat | i < CHUNK_COUNT :: chunks[i] == ChunkAt(hash, i)
  {
    chunks := seq(CHUNK_COUNT, i => 0);
    for i := 0 to CHUNK_COUNT
      invariant |chunks| == CHUNK_COUNT && forall j: nat | j < i :: chunks[j] == ChunkAt(hash, j)
    {
      var shift := (CHUNK_COUNT - 1 - i) * 8;
      chunks := chunks[i := Shr(hash, shift) % 256];
    }
  }

  // ------------------------------------------------------------------ confidence tiers

  /** The inclusive upper bound of each tier. */
  datatype Tiers = Tiers(identical: int, high: int, probable: int)

  datatype Confidence = Unspecified | Identical | High | Probable

  function Max(a: int, b: int): int {
    if a < b then b else a
  }

  function Clamp(v: int): int {
    if v < 0 then 0 else if v > MAX_DISTANCE then MAX_DISTANCE else v
  }

  predicate Ordered(t: Tiers) {
    0 <= t.identical <= t.high <= t.probable <= MAX_DISTANCE
  }

  /** Each bound is clamped, and widened to the one before it; a change is always reported. */
  method Normalise(t: Tiers) returns (out: Tiers, changed: bool)
    ensures Ordered(out) && (changed <==> out != t) && (Ordered(t) ==> out == t)
    ensures var c := if t.identical < 0 then 0 else if t.identical > 7 then 7 else t.identical; out.identical == c
    ensures var c := if t.high < 0 then 0 else if t.high > 7 then 7 else t.high; out.high == if c < out.identical then out.identical else c
    ensures var c := if t.probable < 0 then 0 else if t.probable > 7 then 7 else t.probable; out.probable == if c < out.high then out.high else c
    ensures out.identical == Clamp(t.identical)
    ensures out.high == Max(out.identical, Clamp(t.high))
    ensures out.probable == Max(out.high, Clamp(t.probable))
  {
    out, changed := t, false;
    if Clamp(out.identical) != out.identical {
      out, changed := out.(identical := Clamp(out.identical)), true;
    }
    if Clamp(out.high) != out.high {
      out, changed := out.(high := Clamp(out.high)), true;
    }
    if Clamp(out.probable) != out.probable {
      out, changed := out.(probable := Clamp(out.probable)), true;
    }
    if out.high < out.identical {
      out, changed := out.(high := out.identical), true;
    }
    if out.probable < out.high {
      out, changed := out.(probable := out.high), true;
    }
  }

  function Grade(t: Tiers, distance: int): Confidence {
    if distance <= t.identical then Identical
    else if distance <= t.high then High
    else if distance <= t.probable then Probable
    else Unspecified
  }
}
