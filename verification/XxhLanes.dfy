/** The XXH32 and XXH64 primitives, as instances of the kernel of `XxhClassic`. */
module XxhLanes {
  import opened HashBytes
  import opened Sizes
  import opened XxhClassic

  datatype Lanes<W> = Lanes(v1: W, v2: W, v3: W, v4: W)

  const PRIME32_1: bv32 := 0x9E3779B1
  const PRIME32_2: bv32 := 0x85EBCA77
  const PRIME32_3: bv32 := 0xC2B2AE3D
  const PRIME32_4: bv32 := 0x27D4EB2F
  const PRIME32_5: bv32 := 0x165667B1
  const PRIME64_1: bv64 := 0x9E3779B185EBCA87
  const PRIME64_2: bv64 := 0xC2B2AE3D27D4EB4F
  const PRIME64_3: bv64 := 0x165667B19E3779F9
  const PRIME64_4: bv64 := 0x85EBCA77C2B2AE63
  const PRIME64_5: bv64 := 0x27D4EB2F165667C5

  function U32(n: nat): bv32 { (n % TWO32) as bv32 }

  function U64(n: nat): bv64 { (n % TWO64) as bv64 }

  function Read32(b: seq<Byte>, at: nat): bv32 {
    if at + 4 <= |b| then
      (b[at] as bv32) | ((b[at + 1] as bv32) << 8) | ((b[at + 2] as bv32) << 16) | ((b[at + 3] as bv32) << 24)
    else 0
  }

  function Read64(b: seq<Byte>, at: nat): bv64 {
    (Read32(b, at) as bv64) | ((Read32(b, at + 4) as bv64) << 32)
  }

  function Init32(seed: nat): Lanes<bv32> {
    Lanes(U32(seed) + PRIME32_1 + PRIME32_2, U32(seed) + PRIME32_2, U32(seed), U32(seed) - PRIME32_1)
  }

  function Round32(acc: bv32, input: bv32): bv32 {
    (acc + input * PRIME32_2).RotateLeft(13) * PRIME32_1
  }

  function Stripe32(v: Lanes<bv32>, s: seq<Byte>): Lanes<bv32> {
    Lanes(Round32(v.v1, Read32(s, 0)), Round32(v.v2, Read32(s, 4)),
          Round32(v.v3, Read32(s, 8)), Round32(v.v4, Read32(s, 12)))
  }

  function Converge32(v: Lanes<bv32>): bv32 {
    v.v1.RotateLeft(1) + v.v2.RotateLeft(7) + v.v3.RotateLeft(12) + v.v4.RotateLeft(18)
  }

  function Avalanche32(h: bv32): bv32 {
    var a := (h ^ (h >> 15)) * PRIME32_2;
    var b := (a ^ (a >> 13)) * PRIME32_3;
    b ^ (b >> 16)
  }

  /** A tail, from the front: each piece as wide as what is left allows. */
  function Finished<H>(step: (H, seq<Byte>) -> H, width: nat -> nat, h: H, rest: seq<Byte>): H
    requires forall left: nat :: left > 0 ==> 0 < width(left) <= left
    decreases |rest|
  {
    if rest == [] then h
    else Finished(step, width, step(h, rest[..width(|rest|)]), rest[width(|rest|)..])
  }

  function Width32(left: nat): nat { if left >= 4 then 4 else if left > 0 then 1 else 0 }

  function Step32(h: bv32, x: seq<Byte>): bv32 {
    if |x| == 4 then (h + Read32(x, 0) * PRIME32_3).RotateLeft(17) * PRIME32_4
    else if |x| == 1 then (h + (x[0] as bv32) * PRIME32_5).RotateLeft(11) * PRIME32_1
    else h
  }

  /** XXH32_finalize: words, then bytes. */
  function Finalize32(h: bv32, rest: seq<Byte>): bv32 {
    Avalanche32(Finished(Step32, Width32, h, rest))
  }

  function Small32(seed: nat): bv32 { U32(seed) + PRIME32_5 }

  function SmallOfLanes32(v: Lanes<bv32>): bv32 { v.v3 + PRIME32_5 }

  function AddLen32(h: bv32, len: nat): bv32 { h + U32(len) }

  /** The XXH32 kernel. */
  function Xxh32(): (k: Kernel<Lanes<bv32>, bv32>)
    ensures k.WellFormed() && k.stripe == 16
  {
    Kernel(16, Init32, Stripe32, Converge32, Small32, SmallOfLanes32, AddLen32, Finalize32)
  }

  function Init64(seed: nat): Lanes<bv64> {
    Lanes(U64(seed) + PRIME64_1 + PRIME64_2, U64(seed) + PRIME64_2, U64(seed), U64(seed) - PRIME64_1)
  }

  function Round64(acc: bv64, input: bv64): bv64 {
    (acc + input * PRIME64_2).RotateLeft(31) * PRIME64_1
  }

  function Words64(s: seq<Byte>): Lanes<bv64> {
    Lanes(Read64(s, 0), Read64(s, 8), Read64(s, 16), Read64(s, 24))
  }

  function Rounds64(v: Lanes<bv64>, x: Lanes<bv64>): Lanes<bv64> {
    Lanes(Round64(v.v1, x.v1), Round64(v.v2, x.v2), Round64(v.v3, x.v3), Round64(v.v4, x.v4))
  }

  function Stripe64(v: Lanes<bv64>, s: seq<Byte>): Lanes<bv64> {
    Rounds64(v, Words64(s))
  }

  function MergeRound64(acc: bv64, val: bv64): bv64 {
    (acc ^ Round64(0, val)) * PRIME64_1 + PRIME64_4
  }

  function Converge64(v: Lanes<bv64>): bv64 {
    var h := v.v1.RotateLeft(1) + v.v2.RotateLeft(7) + v.v3.RotateLeft(12) + v.v4.RotateLeft(18);
    MergeRound64(MergeRound64(MergeRound64(MergeRound64(h, v.v1), v.v2), v.v3), v.v4)
  }

  /** The steps of an avalanche: a word is mixed with its own shift and multiplied, twice, and mixed once more. */
  datatype Steps<!W> = Steps(
    xor: (W, W) -> W, shift1: W -> W, times1: W -> W, shift2: W -> W, times2: W -> W, shift3: W -> W)

  function Avalanched<W>(s: Steps<W>, h: W): W {
    var a := s.times1(s.xor(h, s.shift1(h)));
    var b := s.times2(s.xor(a, s.shift2(a)));
    s.xor(b, s.shift3(b))
  }

  function Xor64(x: bv64, y: bv64): bv64 { x ^ y }

  function Shift33(x: bv64): bv64 { x >> 33 }

  function Shift29(x: bv64): bv64 { x >> 29 }

  function Shift32(x: bv64): bv64 { x >> 32 }

  // The primes are written out here, so that the solver can multiply them with their inverses.

  /** `x * PRIME64_2`. */
  function TimesPrime2(x: bv64): bv64 { x * 0xC2B2AE3D27D4EB4F }

  /** `x * PRIME64_3`. */
  function TimesPrime3(x: bv64): bv64 { x * 0x165667B19E3779F9 }

  function Steps64(): Steps<bv64> {
    Steps(Xor64, Shift33, TimesPrime2, Shift29, TimesPrime3, Shift32)
  }

  function Avalanche64(h: bv64): bv64 {
    Avalanched(Steps64(), h)
  }

  function Mix64(h: bv64, x: bv64, rotation: nat, times: bv64, plus: bv64): bv64
    requires rotation < 64
  {
    (h ^ x).RotateLeft(rotation) * times + plus
  }

  function Width64(left: nat): nat { if left >= 8 then 8 else if left >= 4 then 4 else if left > 0 then 1 else 0 }

  function Step64(h: bv64, x: seq<Byte>): bv64 {
    if |x| == 8 then Mix64(h, Round64(0, Read64(x, 0)), 27, PRIME64_1, PRIME64_4)
    else if |x| == 4 then Mix64(h, (Read32(x, 0) as bv64) * PRIME64_1, 23, PRIME64_2, PRIME64_3)
    else if |x| == 1 then Mix64(h, (x[0] as bv64) * PRIME64_5, 11, PRIME64_1, 0)
    else h
  }

  /** XXH64_finalize: double words, a word, then bytes. */
  function Finalize64(h: bv64, rest: seq<Byte>): bv64 {
    Avalanche64(Finished(Step64, Width64, h, rest))
  }

  function Small64(seed: nat): bv64 { U64(seed) + PRIME64_5 }

  function SmallOfLanes64(v: Lanes<bv64>): bv64 { v.v3 + PRIME64_5 }

  function AddLen64(h: bv64, len: nat): bv64 { h + U64(len) }

  /** The XXH64 kernel. */
  function Xxh64(): (k: Kernel<Lanes<bv64>, bv64>)
    ensures k.WellFormed() && k.stripe == 32
  {
    Kernel(32, Init64, Stripe64, Converge64, Small64, SmallOfLanes64, AddLen64, Finalize64)
  }
}
