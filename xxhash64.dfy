/**
 * XxHash64: the XXH64 hash of a byte range of the memory, of a single long, and of
 * the element ranges of Java arrays. Java longs are 64-bit patterns here (bv64), whose
 * + and * wrap around exactly as Java's do, with Long.rotateLeft as RotateLeft and >>>
 * as >>. Unsafe.getLong and Unsafe.getInt read the native (little-endian) layout.
 */
module XxHash64 {
  import opened Primitives
  import NonNativeCopy

  // The unsigned 64-bit primes of XXH64, as the Java longs P1..P5.
  const P1: bv64 := 0x9E37_79B1_85EB_CA87
  const P2: bv64 := 0xC2B2_AE3D_27D4_EB4F
  const P3: bv64 := 0x1656_67B1_9E37_79F9
  const P4: bv64 := 0x85EB_CA77_C2B2_AE63
  const P5: bv64 := 0x27D4_EB2F_1656_67C5

  // ---------------------------------------------------------------------------------
  // The XXH64 algorithm, as values

  /** The 8-byte lane at b[i..] in the native layout (Unsafe.getLong). */
  function Lane64(b: seq<bv8>, i: int): bv64
    requires 0 <= i && i + 8 <= |b|
  {
    (b[i] as bv64) | ((b[i + 1] as bv64) << 8) | ((b[i + 2] as bv64) << 16) | ((b[i + 3] as bv64) << 24)
    | ((b[i + 4] as bv64) << 32) | ((b[i + 5] as bv64) << 40) | ((b[i + 6] as bv64) << 48) | ((b[i + 7] as bv64) << 56)
  }

  /** The 4-byte lane at b[i..] as an unsigned value (Unsafe.getInt & 0xFFFF_FFFFL). */
  function Lane32(b: seq<bv8>, i: int): bv64
    requires 0 <= i && i + 4 <= |b|
  {
    (b[i] as bv64) | ((b[i + 1] as bv64) << 8) | ((b[i + 2] as bv64) << 16) | ((b[i + 3] as bv64) << 24)
  }

  /** The 8-byte lane of a long's native layout is that long. */
  lemma LaneOfLong(x: bv64)
    ensures Lane64(Le64(x), 0) == x
  {
  }

  /** One accumulator round: acc += lane * P2, rotated left by 31, times P1. */
  function Round(acc: bv64, lane: bv64): bv64
  {
    (acc + lane * P2).RotateLeft(31) * P1
  }

  /** Folding an accumulator into the hash after the stripes. */
  function MergeRound(hash: bv64, v: bv64): bv64
  {
    (hash ^ Round(0, v)) * P1 + P4
  }

  /** The four accumulators v1..v4. */
  datatype Lanes = Lanes(v1: bv64, v2: bv64, v3: bv64, v4: bv64)

  function InitLanes(seed: bv64): Lanes
  {
    Lanes(seed + P1 + P2, seed + P2, seed, seed - P1)
  }

  /** One 32-byte stripe at b[i..]: a round for each accumulator with its own lane. */
  function Stripe(v: Lanes, b: seq<bv8>, i: int): Lanes
    requires 0 <= i && i + 32 <= |b|
  {
    Lanes(Round(v.v1, Lane64(b, i)), Round(v.v2, Lane64(b, i + 8)),
          Round(v.v3, Lane64(b, i + 16)), Round(v.v4, Lane64(b, i + 24)))
  }

  /** The stripes from b[i..] on, while 32 bytes or more are left. */
  function Stripes(b: seq<bv8>, i: int, v: Lanes): Lanes
    requires 0 <= i <= |b|
    decreases |b| - i
  {
    if |b| - i >= 32 then Stripes(b, i + 32, Stripe(v, b, i)) else v
  }

  /** The hash the accumulators converge to. */
  function Converge(v: Lanes): bv64
  {
    var hash := v.v1.RotateLeft(1) + v.v2.RotateLeft(7) + v.v3.RotateLeft(12) + v.v4.RotateLeft(18);
    MergeRound(MergeRound(MergeRound(MergeRound(hash, v.v1), v.v2), v.v3), v.v4)
  }

  /** Mixing in one 8-byte lane of the tail. */
  function Mix8(hash: bv64, lane: bv64): bv64
  {
    (hash ^ Round(0, lane)).RotateLeft(27) * P1 + P4
  }

  /** Mixing in one 4-byte lane of the tail. */
  function Mix4(hash: bv64, lane: bv64): bv64
  {
    (hash ^ (lane * P1)).RotateLeft(23) * P2 + P3
  }

  /** Mixing in one byte of the tail, unsigned. */
  function Mix1(hash: bv64, x: bv8): bv64
  {
    (hash ^ ((x as bv64) * P5)).RotateLeft(11) * P1
  }

  /** The last bytes from b[i..] on, one at a time. */
  function Tail1(b: seq<bv8>, i: int, hash: bv64): bv64
    requires 0 <= i <= |b|
    decreases |b| - i
  {
    if i == |b| then hash else Tail1(b, i + 1, Mix1(hash, b[i]))
  }

  /** At most one 4-byte lane from b[i..] on, then the bytes. */
  function Tail4(b: seq<bv8>, i: int, hash: bv64): bv64
    requires 0 <= i <= |b|
  {
    if |b| - i >= 4 then Tail1(b, i + 4, Mix4(hash, Lane32(b, i))) else Tail1(b, i, hash)
  }

  /** The 8-byte lanes from b[i..] on while 8 bytes are left, then the rest. */
  function Tail8(b: seq<bv8>, i: int, hash: bv64): bv64
    requires 0 <= i <= |b|
    decreases |b| - i
  {
    if |b| - i >= 8 then Tail8(b, i + 8, Mix8(hash, Lane64(b, i))) else Tail4(b, i, hash)
  }

  /** The final avalanche (finalize). */
  function Finalize(hash: bv64): bv64
  {
    var h1 := (hash ^ (hash >> 33)) * P2;
    var h2 := (h1 ^ (h1 >> 29)) * P3;
    h2 ^ (h2 >> 32)
  }

  /** A Java long length added to the hash, as its 64-bit pattern (the low 64 bits of n). */
  function LengthBits(n: nat): bv64
  {
    (n % 0x1_0000_0000_0000_0000) as bv64
  }

  /** Where the stripes of n bytes stop: 0 below 32 bytes, else the last multiple of 32. */
  function StripesEnd(n: nat): (e: nat)
    ensures e <= n && n - e < 32 && (n >= 32 <==> e > 0)
  {
    if n >= 32 then n - n % 32 else 0
  }

  /** The hash before the length and the tail: the converged stripes, or seed + P5 below 32 bytes. */
  function Start(b: seq<bv8>, seed: bv64): bv64
  {
    if |b| >= 32 then Converge(Stripes(b, 0, InitLanes(seed))) else seed + P5
  }

  /** hash += lengthBytes. */
  function AddLength(hash: bv64, n: nat): bv64
  {
    hash + LengthBits(n)
  }

  /** The hash with the length added, before the tail. */
  function Head(b: seq<bv8>, seed: bv64): bv64
  {
    AddLength(Start(b, seed), |b|)
  }

  /** XXH64 of the bytes b with seed: the head, the 8-, 4- and 1-byte tail, and the avalanche. */
  function Hash64(b: seq<bv8>, seed: bv64): bv64
  {
    Finalize(Tail8(b, StripesEnd(|b|), Head(b, seed)))
  }

  // The definitions above, one level at a time, as facts a proof can call on.

  lemma HashIs(b: seq<bv8>, seed: bv64)
    ensures Hash64(b, seed) == Finalize(Tail8(b, StripesEnd(|b|), Head(b, seed)))
  {
  }

  lemma HeadIs(b: seq<bv8>, seed: bv64)
    ensures Head(b, seed) == AddLength(Start(b, seed), |b|)
  {
  }

  lemma StartIs(b: seq<bv8>, seed: bv64)
    ensures |b| >= 32 ==> Start(b, seed) == Converge(Stripes(b, 0, InitLanes(seed)))
    ensures |b| < 32 ==> Start(b, seed) == seed + P5
  {
  }

  // ---------------------------------------------------------------------------------
  // Properties of the algorithm

  /** The empty input hashes to finalize(seed + P5). */
  lemma EmptyInput(seed: bv64)
    ensures Hash64([], seed) == Finalize(seed + P5)
  {
    HashIs([], seed);
    HeadIs([], seed);
    StartIs([], seed);
    assert LengthBits(0) == 0 by {
      assert 0 % 0x1_0000_0000_0000_0000 == 0;
    }
    assert Tail8([], 0, seed + P5) == seed + P5;
  }

  /** With seed 0 that is XXH64's value for the empty input. */
  lemma EmptyInputSeedZero()
    ensures Hash64([], 0) == 0xEF46_DB37_51D8_E999
  {
    EmptyInput(0);
    assert Finalize(P5) == 0xEF46_DB37_51D8_E999;
  }

  function Zeros(n: nat): (z: seq<bv8>)
    ensures |z| == n && forall i | 0 <= i < n :: z[i] == 0
  {
    seq(n, _ => 0)
  }

  lemma ZeroLanes(z: seq<bv8>, i: int)
    requires 0 <= i && i + 8 <= |z| && forall k | 0 <= k < |z| :: z[k] == 0
    ensures Lane64(z, i) == 0 && Lane32(z, i) == 0
  {
    assert z[i..i + 8] == [0, 0, 0, 0, 0, 0, 0, 0];
    assert z[i..i + 4] == [0, 0, 0, 0];
  }

  /** The one stripe of 39 zero bytes with seed 0. */
  lemma ZerosStripe(z: seq<bv8>)
    requires |z| == 39 && forall k | 0 <= k < |z| :: z[k] == 0
    ensures Stripes(z, 0, InitLanes(0)) == Lanes(0x1193_61E2_963B_6D41, 0x7F0E_345B_E364_9CD2, 0, 0x6D7A_D279_4D29_2F91)
  {
    ZeroLanes(z, 0);
    ZeroLanes(z, 8);
    ZeroLanes(z, 16);
    ZeroLanes(z, 24);
    assert Stripe(InitLanes(0), z, 0) ==
           Lanes(Round(P1 + P2, 0), Round(P2, 0), Round(0, 0), Round(0 - P1, 0));
  }

  /** The converged stripe. */
  lemma ZerosConverge()
    ensures Converge(Lanes(0x1193_61E2_963B_6D41, 0x7F0E_345B_E364_9CD2, 0, 0x6D7A_D279_4D29_2F91))
            == 0xCBBF_D165_3BAA_CD51
  {
  }

  /** The 7-byte tail of 39 zero bytes: a 4-byte lane, then three bytes. */
  lemma ZerosTail(z: seq<bv8>)
    requires |z| == 39 && forall k | 0 <= k < |z| :: z[k] == 0
    ensures Tail8(z, 32, 0xCBBF_D165_3BAA_CD78) == 0x3FFF_B245_B5DB_0137
  {
    ZeroLanes(z, 31);
    assert z[32..36] == z[31..39][1..5];
    assert Tail8(z, 32, 0xCBBF_D165_3BAA_CD78) == Tail1(z, 36, Mix4(0xCBBF_D165_3BAA_CD78, 0));
    assert Mix4(0xCBBF_D165_3BAA_CD78, 0) == 0x197E_2519_0A51_8A91;
    ZerosByte(z, 36, 0x197E_2519_0A51_8A91, 0xC9F9_0A48_BDDD_510D);
    ZerosByte(z, 37, 0xC9F9_0A48_BDDD_510D, 0xFA2C_2E38_A281_81A9);
    ZerosByte(z, 38, 0xFA2C_2E38_A281_81A9, 0x3FFF_B245_B5DB_0137);
  }

  /** One zero byte of the tail. */
  lemma ZerosByte(z: seq<bv8>, i: int, h: bv64, h': bv64)
    requires 0 <= i < |z| && z[i] == 0 && Mix1(h, 0) == h'
    ensures Tail1(z, i, h) == Tail1(z, i + 1, h')
  {
  }

  lemma LengthThirtyNine()
    ensures LengthBits(39) == 39
  {
    assert 39 % 0x1_0000_0000_0000_0000 == 39;
  }

  /** The head of 39 zero bytes with seed 0. */
  lemma ZerosHead(z: seq<bv8>)
    requires |z| == 39 && forall k | 0 <= k < |z| :: z[k] == 0
    ensures Head(z, 0) == 0xCBBF_D165_3BAA_CD78
  {
    StartIs(z, 0);
    ZerosStripe(z);
    ZerosConverge();
    HeadIs(z, 0);
    LengthThirtyNine();
  }

  lemma FinalizeZerosTail()
    ensures Finalize(0x3FFF_B245_B5DB_0137) == 0x483C_0D7D_8F0A_0C35
  {
  }

  /**
   * 39 zero bytes with seed 0 (one stripe, a 4-byte lane and three bytes) hash to
   * 0x483C0D7D8F0A0C35; as a Java int, (int) of that hash is -1895166923.
   */
  lemma ThirtyNineZeros()
    ensures Hash64(Zeros(39), 0) == 0x483C_0D7D_8F0A_0C35
    ensures WrapInt(Hash64(Zeros(39), 0) as int) == -1895166923
  {
    assert Hash64(Zeros(39), 0) == 0x483C_0D7D_8F0A_0C35 by {
      var z := Zeros(39);
      ZerosHead(z);
      ZerosTail(z);
      HashIs(z, 0);
      assert StripesEnd(|z|) == 32;
      FinalizeZerosTail();
    }
    ZerosHashAsInt();
  }

  /** The low 32 bits of 0x483C0D7D8F0A0C35, 0x8F0A0C35, read as a Java int. */
  lemma ZerosHashAsInt()
    ensures WrapInt(0x483C_0D7D_8F0A_0C35) == -1895166923
  {
  }

  // ---------------------------------------------------------------------------------
  // hash(unsafeObj, cumOffsetBytes, lengthBytes, seed) over a byte store

  /** The lanes read from the store s at off + i are the lanes of b = s[off..] at i. */
  lemma LanesOf(s: seq<bv8>, off: int, b: seq<bv8>, i: int, p: int)
    requires 0 <= off && off + |b| <= |s| && b == s[off..off + |b|]
    requires 0 <= i && i + 4 <= |b| && p == off + i
    ensures i + 8 <= |b| ==> Lane64(s, p) == Lane64(b, i)
    ensures Lane32(s, p) == Lane32(b, i)
  {
  }

  lemma StripeIs(v1: bv64, v2: bv64, v3: bv64, v4: bv64, b: seq<bv8>, i: int)
    requires 0 <= i && i + 32 <= |b|
    ensures Stripe(Lanes(v1, v2, v3, v4), b, i) ==
            Lanes(Round(v1, Lane64(b, i)), Round(v2, Lane64(b, i + 8)), Round(v3, Lane64(b, i + 16)), Round(v4, Lane64(b, i + 24)))
  {
  }

  lemma StripesStep(b: seq<bv8>, i: int, v: Lanes)
    requires 0 <= i && i + 32 <= |b|
    ensures Stripes(b, i, v) == Stripes(b, i + 32, Stripe(v, b, i))
  {
  }

  lemma StripesDone(b: seq<bv8>, i: int, v: Lanes)
    requires 0 <= i <= |b| && |b| - i < 32
    ensures Stripes(b, i, v) == v
  {
  }

  /** The stripes stop at the last multiple of 32 that leaves fewer than 32 bytes. */
  lemma StripesEndAt(n: nat, k: nat)
    requires 32 * k <= n < 32 * k + 32
    ensures StripesEnd(n) == 32 * k
  {
    assert n % 32 == n - 32 * k;
  }

  lemma Tail8Step(b: seq<bv8>, i: int, hash: bv64)
    requires 0 <= i && i + 8 <= |b|
    ensures Tail8(b, i, hash) == Tail8(b, i + 8, Mix8(hash, Lane64(b, i)))
  {
  }

  lemma Tail8Done(b: seq<bv8>, i: int, hash: bv64)
    requires 0 <= i <= |b| && |b| - i < 8
    ensures Tail8(b, i, hash) == Tail4(b, i, hash)
  {
  }

  lemma Tail1Step(b: seq<bv8>, i: int, hash: bv64)
    requires 0 <= i < |b|
    ensures Tail1(b, i, hash) == Tail1(b, i + 1, Mix1(hash, b[i]))
  {
  }

  /** The 8-byte lane read from the store at p = off + i is the lane of b at i. */
  method LaneAt(m: array<bv8>, p: int, ghost off: int, ghost b: seq<bv8>, ghost i: int) returns (lane: bv64)
    requires 0 <= off && off + |b| <= m.Length && b == m[off..off + |b|]
    requires 0 <= i && i + 8 <= |b| && p == off + i
    ensures lane == Lane64(b, i)
  {
    LanesOf(m[..], off, b, i, p);
    lane := Lane64(m[..], p);
  }

  /**
   * One iteration of the stripe loop: each accumulator takes a round with its own
   * 8-byte lane of the 32 bytes at off + i, the lanes read from the native layout.
   */
  method StripeAt(m: array<bv8>, p: int, v1: bv64, v2: bv64, v3: bv64, v4: bv64, ghost off: int, ghost b: seq<bv8>, ghost i: int)
    returns (w1: bv64, w2: bv64, w3: bv64, w4: bv64)
    requires 0 <= off && off + |b| <= m.Length && b == m[off..off + |b|]
    requires 0 <= i && i + 32 <= |b| && p == off + i
    ensures Lanes(w1, w2, w3, w4) == Stripe(Lanes(v1, v2, v3, v4), b, i)
  {
    var l1 := LaneAt(m, p, off, b, i);
    var l2 := LaneAt(m, p + 8, off, b, i + 8);
    var l3 := LaneAt(m, p + 16, off, b, i + 16);
    var l4 := LaneAt(m, p + 24, off, b, i + 24);
    StripeIs(v1, v2, v3, v4, b, i);
    w1, w2, w3, w4 := Round(v1, l1), Round(v2, l2), Round(v3, l3), Round(v4, l4);
  }

  /**
   * The stripe loop (a do-while entered with 32 bytes or more): the accumulators after
   * the last whole stripe, and how far the stripes reached.
   */
  method StripeLoop(m: array<bv8>, off: int, len: int, seed: bv64, ghost b: seq<bv8>)
    returns (v1: bv64, v2: bv64, v3: bv64, v4: bv64, p: int, remaining: int)
    requires 0 <= off && 32 <= len && off + len <= m.Length && |b| == len && b == m[off..off + |b|]
    ensures p == off + StripesEnd(len) && remaining == len - StripesEnd(len)
    ensures Lanes(v1, v2, v3, v4) == Stripes(b, 0, InitLanes(seed))
  {
    ghost var target := Stripes(b, 0, InitLanes(seed));
    v1, v2, v3, v4 := seed + P1 + P2, seed + P2, seed, seed - P1;
    remaining := len;
    p := off;
    ghost var i, k := 0, 0;
    while remaining >= 32
      invariant 0 <= remaining && i == 32 * k && p == off + i && i + remaining == len
      invariant Stripes(b, i, Lanes(v1, v2, v3, v4)) == target
      decreases remaining
    {
      StripesStep(b, i, Lanes(v1, v2, v3, v4));
      v1, v2, v3, v4 := StripeAt(m, p, v1, v2, v3, v4, off, b, i);
      p := p + 32;
      remaining := remaining - 32;
      i, k := i + 32, k + 1;
    }
    StripesDone(b, i, Lanes(v1, v2, v3, v4));
    StripesEndAt(len, k);
  }

  /** The 4-byte lane read from the store at p = off + i is the lane of b at i. */
  method Lane32At(m: array<bv8>, p: int, ghost off: int, ghost b: seq<bv8>, ghost i: int) returns (lane: bv64)
    requires 0 <= off && off + |b| <= m.Length && b == m[off..off + |b|]
    requires 0 <= i && i + 4 <= |b| && p == off + i
    ensures lane == Lane32(b, i)
  {
    LanesOf(m[..], off, b, i, p);
    lane := Lane32(m[..], p);
  }

  /** The byte read from the store at p = off + i is the byte of b at i. */
  method ByteAt(m: array<bv8>, p: int, ghost off: int, ghost b: seq<bv8>, ghost i: int) returns (x: bv8)
    requires 0 <= off && off + |b| <= m.Length && b == m[off..off + |b|]
    requires 0 <= i < |b| && p == off + i
    ensures x == b[i]
  {
    x := m[p];
  }

  /** The 8-byte tail loop: mixes in 8-byte lanes while 8 bytes or more remain. */
  method Tail8Loop(m: array<bv8>, p: int, remaining: int, hash: bv64, ghost off: int, ghost b: seq<bv8>, ghost i: int)
    returns (p': int, remaining': int, hash': bv64, ghost i': int)
    requires 0 <= off && off + |b| <= m.Length && b == m[off..off + |b|]
    requires 0 <= i && 0 <= remaining && p == off + i && i + remaining == |b|
    ensures 0 <= i' && 0 <= remaining' < 8 && p' == off + i' && i' + remaining' == |b|
    ensures Tail4(b, i', hash') == Tail8(b, i, hash)
  {
    ghost var target := Tail8(b, i, hash);
    p', remaining', hash', i' := p, remaining, hash, i;
    while remaining' >= 8
      invariant 0 <= i' && 0 <= remaining' && p' == off + i' && i' + remaining' == |b|
      invariant Tail8(b, i', hash') == target
      decreases remaining'
    {
      Tail8Step(b, i', hash');
      var lane := LaneAt(m, p', off, b, i');
      hash' := Mix8(hash', lane);
      p', remaining' := p' + 8, remaining' - 8;
      i' := i' + 8;
    }
    Tail8Done(b, i', hash');
  }

  /** The 4-byte step: one 4-byte lane, unsigned, when 4 bytes or more remain. */
  method Tail4Step(m: array<bv8>, p: int, remaining: int, hash: bv64, ghost off: int, ghost b: seq<bv8>, ghost i: int)
    returns (p': int, remaining': int, hash': bv64, ghost i': int)
    requires 0 <= off && off + |b| <= m.Length && b == m[off..off + |b|]
    requires 0 <= i && 0 <= remaining && p == off + i && i + remaining == |b|
    ensures 0 <= i' && 0 <= remaining' && p' == off + i' && i' + remaining' == |b|
    ensures Tail1(b, i', hash') == Tail4(b, i, hash)
  {
    if remaining >= 4 {
      var lane := Lane32At(m, p, off, b, i);
      hash' := Mix4(hash, lane);
      p', remaining', i' := p + 4, remaining - 4, i + 4;
    } else {
      p', remaining', hash', i' := p, remaining, hash, i;
    }
  }

  /** The byte loop: mixes in the remaining bytes, unsigned, one at a time. */
  method Tail1Loop(m: array<bv8>, p: int, remaining: int, hash: bv64, ghost off: int, ghost b: seq<bv8>, ghost i: int)
    returns (hash': bv64)
    requires 0 <= off && off + |b| <= m.Length && b == m[off..off + |b|]
    requires 0 <= i && 0 <= remaining && p == off + i && i + remaining == |b|
    ensures hash' == Tail1(b, i, hash)
  {
    ghost var target := Tail1(b, i, hash);
    var q, rest := p, remaining;
    ghost var j := i;
    hash' := hash;
    while rest != 0
      invariant 0 <= j && 0 <= rest && q == off + j && j + rest == |b|
      invariant Tail1(b, j, hash') == target
      decreases rest
    {
      Tail1Step(b, j, hash');
      var x := ByteAt(m, q, off, b, j);
      hash' := Mix1(hash', x);
      rest, q := rest - 1, q + 1;
      j := j + 1;
    }
  }

  /**
   * The start of the hash: the stripes and their convergence from 32 bytes on, else
   * seed + P5. Also where the tail starts and how much remains.
   */
  method StartAt(m: array<bv8>, cumOffsetBytes: int, lengthBytes: int, seed: bv64, ghost b: seq<bv8>)
    returns (hash: bv64, p: int, remaining: int)
    requires 0 <= cumOffsetBytes && 0 <= lengthBytes && cumOffsetBytes + lengthBytes <= m.Length
    requires |b| == lengthBytes && b == m[cumOffsetBytes..cumOffsetBytes + |b|]
    ensures hash == Start(b, seed)
    ensures p == cumOffsetBytes + StripesEnd(lengthBytes) && remaining == lengthBytes - StripesEnd(lengthBytes)
  {
    StartIs(b, seed);
    if lengthBytes >= 32 {
      var v1, v2, v3, v4;
      v1, v2, v3, v4, p, remaining := StripeLoop(m, cumOffsetBytes, lengthBytes, seed, b);
      hash := Converge(Lanes(v1, v2, v3, v4));
    } else {
      p, remaining := cumOffsetBytes, lengthBytes;
      hash := seed + P5;
    }
  }

  /** The head of the hash: its start, plus the length. */
  method HeadAt(m: array<bv8>, cumOffsetBytes: int, lengthBytes: int, seed: bv64, ghost b: seq<bv8>)
    returns (hash: bv64, p: int, remaining: int)
    requires 0 <= cumOffsetBytes && 0 <= lengthBytes && cumOffsetBytes + lengthBytes <= m.Length
    requires |b| == lengthBytes && b == m[cumOffsetBytes..cumOffsetBytes + |b|]
    ensures hash == Head(b, seed)
    ensures p == cumOffsetBytes + StripesEnd(lengthBytes) && remaining == lengthBytes - StripesEnd(lengthBytes)
  {
    hash, p, remaining := StartAt(m, cumOffsetBytes, lengthBytes, seed, b);
    HeadIs(b, seed);
    hash := AddLength(hash, lengthBytes);
  }

  /** The tail of the hash: 8-byte lanes, at most one 4-byte lane, then single bytes. */
  method TailAt(m: array<bv8>, p: int, remaining: int, hash: bv64, ghost off: int, ghost b: seq<bv8>, ghost i: int)
    returns (hash': bv64)
    requires 0 <= off && off + |b| <= m.Length && b == m[off..off + |b|]
    requires 0 <= i && 0 <= remaining && p == off + i && i + remaining == |b|
    ensures hash' == Tail8(b, i, hash)
  {
    var q, rest, h;
    ghost var j;
    q, rest, h, j := Tail8Loop(m, p, remaining, hash, off, b, i);
    q, rest, h, j := Tail4Step(m, q, rest, h, off, b, j);
    hash' := Tail1Loop(m, q, rest, h, off, b, j);
  }

  /**
   * hash(unsafeObj, cumOffsetBytes, lengthBytes, seed): the XXH64 of the lengthBytes bytes
   * of the store m from cumOffsetBytes on.
   */
  method Hash(m: array<bv8>, cumOffsetBytes: int, lengthBytes: int, seed: bv64) returns (h: bv64)
    requires 0 <= cumOffsetBytes && 0 <= lengthBytes && cumOffsetBytes + lengthBytes <= m.Length
    ensures h == Hash64(m[cumOffsetBytes..cumOffsetBytes + lengthBytes], seed)
  {
    ghost var b := m[cumOffsetBytes..cumOffsetBytes + lengthBytes];
    assert |b| == lengthBytes;
    var hash, p, remaining := HeadAt(m, cumOffsetBytes, lengthBytes, seed, b);
    hash := TailAt(m, p, remaining, hash, cumOffsetBytes, b, StripesEnd(lengthBytes));
    HashIs(b, seed);
    h := Finalize(hash);
  }

  // ---------------------------------------------------------------------------------
  // hash(long in, seed)

  /** The head of 8 bytes is seed + P5 + 8. */
  lemma HeadOfEightBytes(b: seq<bv8>, seed: bv64)
    requires |b| == 8
    ensures Head(b, seed) == seed + P5 + 8
  {
    HeadIs(b, seed);
    StartIs(b, seed);
    AddEight(seed + P5);
  }

  lemma AddEight(hash: bv64)
    ensures AddLength(hash, 8) == hash + 8
  {
    assert LengthBits(8) == 8 by {
      assert 8 % 0x1_0000_0000_0000_0000 == 8;
    }
  }

  /** The tail of a long's 8 bytes is one 8-byte lane, the long itself. */
  lemma TailOfLong(x: bv64, hash: bv64)
    ensures Tail8(Le64(x), 0, hash) == Mix8(hash, x)
  {
    var b := Le64(x);
    Tail8Step(b, 0, hash);
    LaneOfLong(x);
    Tail8Done(b, 8, Mix8(hash, x));
  }

  /** The 8 bytes of a long hash as one 8-byte lane after the head seed + P5 + 8. */
  lemma HashOfEightBytes(x: bv64, seed: bv64)
    ensures Hash64(Le64(x), seed) == Finalize(Mix8(seed + P5 + 8, x))
  {
    var b := Le64(x);
    HashIs(b, seed);
    HeadOfEightBytes(b, seed);
    assert StripesEnd(8) == 0;
    TailOfLong(x, seed + P5 + 8);
  }

  /**
   * hash(long in, seed): the head seed + P5 + 8, one 8-byte lane, the avalanche; the
   * same as the hash of the long's native layout.
   */
  function HashLong(x: bv64, seed: bv64): (h: bv64)
    ensures h == Hash64(Le64(x), seed)
  {
    HashOfEightBytes(x, seed);
    Finalize(Mix8(seed + P5 + 8, x))
  }

  // ---------------------------------------------------------------------------------
  // The typed array wrappers

  /** hashBytes: the hash of arr[offsetBytes..offsetBytes + lengthBytes], read from the array. */
  method HashBytes(arr: array<bv8>, offsetBytes: int, lengthBytes: int, seed: bv64) returns (h: bv64)
    requires 0 <= offsetBytes && 0 <= lengthBytes && offsetBytes + lengthBytes <= arr.Length
    ensures h == Hash64(arr[offsetBytes..offsetBytes + lengthBytes], seed)
  {
    h := Hash(arr, offsetBytes, lengthBytes, seed);
  }

  /** The element region of a boolean[]: one byte per element, 1 for true and 0 for false. */
  function BooleanBytes(xs: seq<bool>): (b: seq<bv8>)
    ensures |b| == |xs|
    ensures forall k | 0 <= k < |xs| :: b[k] == if xs[k] then 1 else 0
  {
    seq(|xs|, k requires 0 <= k < |xs| => if xs[k] then 1 else 0)
  }

  /** hashBooleans: the hash of the bytes of the elements arr[offsetBooleans..][..lengthBooleans]. */
  function HashBooleans(arr: seq<bool>, offsetBooleans: nat, lengthBooleans: nat, seed: bv64): (h: bv64)
    requires offsetBooleans + lengthBooleans <= |arr|
    ensures h == Hash64(BooleanBytes(arr[offsetBooleans..offsetBooleans + lengthBooleans]), seed)
  {
    assert BooleanBytes(arr)[offsetBooleans..offsetBooleans + lengthBooleans]
        == BooleanBytes(arr[offsetBooleans..offsetBooleans + lengthBooleans]);
    Hash64(BooleanBytes(arr)[offsetBooleans..offsetBooleans + lengthBooleans], seed)
  }

  /** The native layouts of the elements xs of type p, one piece per element. */
  function Layouts(p: NonNativeCopy.Prim, xs: seq<int>): (cs: seq<seq<bv8>>)
    requires forall k | 0 <= k < |xs| :: NonNativeCopy.Fits(p, xs[k])
    ensures |cs| == |xs| && NonNativeCopy.Pieces(NonNativeCopy.Width(p), cs)
  {
    seq(|xs|, k requires 0 <= k < |xs| => NonNativeCopy.NativeLayout(p, xs[k]))
  }

  /** The element region of an array of element type p: each element's native layout in turn. */
  function ArrayBytes(p: NonNativeCopy.Prim, xs: seq<int>): (b: seq<bv8>)
    requires forall k | 0 <= k < |xs| :: NonNativeCopy.Fits(p, xs[k])
  {
    NonNativeCopy.Flatten(Layouts(p, xs))
  }

  /** The layouts of a slice of the elements are that slice of the layouts. */
  lemma LayoutsSlice(p: NonNativeCopy.Prim, xs: seq<int>, offset: nat, length: nat)
    requires forall k | 0 <= k < |xs| :: NonNativeCopy.Fits(p, xs[k])
    requires offset + length <= |xs|
    ensures Layouts(p, xs)[offset..offset + length] == Layouts(p, xs[offset..offset + length])
  {
  }

  /** The middle part of three sequences joined is found between their lengths. */
  lemma MiddleOf(r: seq<bv8>, a: seq<bv8>, b: seq<bv8>, c: seq<bv8>, n: nat, m: nat)
    requires r == a + (b + c) && n == |a| && m == |b|
    ensures n + m <= |r| && r[n..n + m] == b
  {
  }

  /** A sequence of pieces is its pieces before offset, the length pieces from there, and the rest. */
  lemma SplitThree(cs: seq<seq<bv8>>, offset: nat, length: nat)
    requires offset + length <= |cs|
    ensures cs == cs[..offset] + (cs[offset..offset + length] + cs[offset + length..])
  {
  }

  /** Three runs of pieces written one after the other. */
  lemma FlattenJoin(cs: seq<seq<bv8>>, xs: seq<seq<bv8>>, ys: seq<seq<bv8>>, zs: seq<seq<bv8>>)
    requires cs == xs + (ys + zs)
    ensures NonNativeCopy.Flatten(cs) == NonNativeCopy.Flatten(xs) + (NonNativeCopy.Flatten(ys) + NonNativeCopy.Flatten(zs))
  {
    NonNativeCopy.FlattenConcat(ys, zs);
    NonNativeCopy.FlattenConcat(xs, ys + zs);
  }

  /** The pieces before offset, the length pieces from offset on, and the rest, written in turn. */
  lemma FlattenThree(cs: seq<seq<bv8>>, offset: nat, length: nat)
    requires offset + length <= |cs|
    ensures NonNativeCopy.Flatten(cs) == NonNativeCopy.Flatten(cs[..offset])
      + (NonNativeCopy.Flatten(cs[offset..offset + length]) + NonNativeCopy.Flatten(cs[offset + length..]))
  {
    SplitThree(cs, offset, length);
    FlattenJoin(cs, cs[..offset], cs[offset..offset + length], cs[offset + length..]);
  }

  /**
   * Of pieces of w bytes written one after the other, the n = Times(w, offset) bytes before
   * piece offset are skipped and the next m = Times(w, length) bytes are the length pieces
   * from there, written one after the other.
   */
  lemma FlattenSlice(w: nat, cs: seq<seq<bv8>>, offset: nat, length: nat, n: nat, m: nat)
    requires NonNativeCopy.Pieces(w, cs) && offset + length <= |cs|
    requires n == NonNativeCopy.Times(w, offset) && m == NonNativeCopy.Times(w, length)
    ensures n + m <= |NonNativeCopy.Flatten(cs)| && NonNativeCopy.Flatten(cs)[n..n + m] == NonNativeCopy.Flatten(cs[offset..offset + length])
  {
    FlattenThree(cs, offset, length);
    NonNativeCopy.FlattenLength(w, cs[..offset]);
    NonNativeCopy.FlattenLength(w, cs[offset..offset + length]);
    MiddleOf(NonNativeCopy.Flatten(cs), NonNativeCopy.Flatten(cs[..offset]), NonNativeCopy.Flatten(cs[offset..offset + length]),
             NonNativeCopy.Flatten(cs[offset + length..]), n, m);
  }

  /**
   * The bytes [offset << SHIFT, (offset + length) << SHIFT) of an array's region, from
   * n = offset << SHIFT for m = length << SHIFT bytes, are the region of the elements
   * arr[offset..offset + length].
   */
  lemma ArrayBytesSlice(p: NonNativeCopy.Prim, arr: seq<int>, offset: nat, length: nat, n: nat, m: nat)
    requires forall k | 0 <= k < |arr| :: NonNativeCopy.Fits(p, arr[k])
    requires offset + length <= |arr|
    requires n == NonNativeCopy.Width(p) * offset && m == NonNativeCopy.Width(p) * length
    ensures n + m <= |ArrayBytes(p, arr)| && ArrayBytes(p, arr)[n..n + m] == ArrayBytes(p, arr[offset..offset + length])
  {
    var w := NonNativeCopy.Width(p);
    NonNativeCopy.TimesIsProduct(w, offset);
    NonNativeCopy.TimesIsProduct(w, length);
    FlattenSlice(w, Layouts(p, arr), offset, length, n, m);
    LayoutsSlice(p, arr, offset, length);
  }

  /**
   * hashShorts, hashChars, hashInts, hashLongs, hashFloats and hashDoubles: the hash of the
   * bytes [offset << SHIFT, (offset + length) << SHIFT) of the array's region, which are the
   * layouts of the elements arr[offset..offset + length] (floats and doubles as raw bits).
   */
  function HashElements(p: NonNativeCopy.Prim, arr: seq<int>, offset: nat, length: nat, seed: bv64): (h: bv64)
    requires forall k | 0 <= k < |arr| :: NonNativeCopy.Fits(p, arr[k])
    requires offset + length <= |arr|
    ensures h == Hash64(ArrayBytes(p, arr[offset..offset + length]), seed)
  {
    var cumOffset, lengthBytes := NonNativeCopy.Width(p) * offset, NonNativeCopy.Width(p) * length;
    ArrayBytesSlice(p, arr, offset, length, cumOffset, lengthBytes);
    Hash64(ArrayBytes(p, arr)[cumOffset..cumOffset + lengthBytes], seed)
  }

  /** hashString: hashChars of the string's UTF-16 code units. */
  function HashString(s: seq<JChar>, offsetChars: nat, lengthChars: nat, seed: bv64): (h: bv64)
    requires offsetChars + lengthChars <= |s|
    ensures h == Hash64(ArrayBytes(NonNativeCopy.CharType, s[offsetChars..offsetChars + lengthChars]), seed)
  {
    HashElements(NonNativeCopy.CharType, s, offsetChars, lengthChars, seed)
  }
}
