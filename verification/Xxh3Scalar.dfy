/** The scalar lane primitives of XXH3. The accumulation loop updates two lanes per round; it equals
the lane-parallel form, which is what makes the vector kernels interchangeable with it. */
module Xxh3Scalar {
  import opened HashBytes
  import Mult128
  import opened Sizes
  import opened Xxh3Spec

  const LANES: nat := 8
  const MERGE_PRIME: bv64 := 0x165667919E3779F9

  const INIT_ACC: Acc := [
    0xC2B2AE3D, 0x9E3779B185EBCA87, 0xC2B2AE3D27D4EB4F, 0x165667B19E3779F9,
    0x85EBCA77C2B2AE63, 0x85EBCA77, 0x27D4EB2F165667C5, 0x9E3779B1]

  // The default secret, in three parts of 64 bytes.

  const SECRET_FRONT: seq<seq<Byte>> := [
    [0xb8, 0xfe, 0x6c, 0x39, 0x23, 0xa4, 0x4b, 0xbe, 0x7c, 0x01, 0x81, 0x2c, 0xf7, 0x21, 0xad, 0x1c],
    [0xde, 0xd4, 0x6d, 0xe9, 0x83, 0x90, 0x97, 0xdb, 0x72, 0x40, 0xa4, 0xa4, 0xb7, 0xb3, 0x67, 0x1f],
    [0xcb, 0x79, 0xe6, 0x4e, 0xcc, 0xc0, 0xe5, 0x78, 0x82, 0x5a, 0xd0, 0x7d, 0xcc, 0xff, 0x72, 0x21],
    [0xb8, 0x08, 0x46, 0x74, 0xf7, 0x43, 0x24, 0x8e, 0xe0, 0x35, 0x90, 0xe6, 0x81, 0x3a, 0x26, 0x4c]]

  const SECRET_MIDDLE: seq<seq<Byte>> := [
    [0x3c, 0x28, 0x52, 0xbb, 0x91, 0xc3, 0x00, 0xcb, 0x88, 0xd0, 0x65, 0x8b, 0x1b, 0x53, 0x2e, 0xa3],
    [0x71, 0x64, 0x48, 0x97, 0xa2, 0x0d, 0xf9, 0x4e, 0x38, 0x19, 0xef, 0x46, 0xa9, 0xde, 0xac, 0xd8],
    [0xa8, 0xfa, 0x76, 0x3f, 0xe3, 0x9c, 0x34, 0x3f, 0xf9, 0xdc, 0xbb, 0xc7, 0xc7, 0x0b, 0x4f, 0x1d],
    [0x8a, 0x51, 0xe0, 0x4b, 0xcd, 0xb4, 0x59, 0x31, 0xc8, 0x9f, 0x7e, 0xc9, 0xd9, 0x78, 0x73, 0x64]]

  const SECRET_BACK: seq<seq<Byte>> := [
    [0xea, 0xc5, 0xac, 0x83, 0x34, 0xd3, 0xeb, 0xc3, 0xc5, 0x81, 0xa0, 0xff, 0xfa, 0x13, 0x63, 0xeb],
    [0x17, 0x0d, 0xdd, 0x51, 0xb7, 0xf0, 0xda, 0x49, 0xd3, 0x16, 0x55, 0x26, 0x29, 0xd4, 0x68, 0x9e],
    [0x2b, 0x16, 0xbe, 0x58, 0x7d, 0x47, 0xa1, 0xfc, 0x8f, 0xf8, 0xb8, 0xd1, 0x7a, 0xd0, 0x31, 0xce],
    [0x45, 0xcb, 0x3a, 0x8f, 0x95, 0x16, 0x04, 0x28, 0xaf, 0xd7, 0xfb, 0xca, 0xbb, 0x4b, 0x40, 0x7e]]

  const DEFAULT_SECRET: seq<Byte> := Flatten(SECRET_FRONT) + Flatten(SECRET_MIDDLE) + Flatten(SECRET_BACK)

  function ReadLE64(b: seq<Byte>, at: nat): bv64 {
    if at + 8 <= |b| then
      (b[at] as bv64) | ((b[at + 1] as bv64) << 8) | ((b[at + 2] as bv64) << 16) | ((b[at + 3] as bv64) << 24) |
      ((b[at + 4] as bv64) << 32) | ((b[at + 5] as bv64) << 40) | ((b[at + 6] as bv64) << 48) |
      ((b[at + 7] as bv64) << 56)
    else 0
  }

  function WriteLE64(x: bv64): (b: seq<Byte>)
    ensures |b| == 8
  {
    [(x & 0xFF) as Byte, ((x >> 8) & 0xFF) as Byte, ((x >> 16) & 0xFF) as Byte, ((x >> 24) & 0xFF) as Byte,
     ((x >> 32) & 0xFF) as Byte, ((x >> 40) & 0xFF) as Byte, ((x >> 48) & 0xFF) as Byte, ((x >> 56) & 0xFF) as Byte]
  }

  /** The neighbour lane, `lane ^ 1`. */
  function Swapped(lane: nat): nat {
    if lane % 2 == 0 then lane + 1 else lane - 1
  }

  /** The keyed product that a lane adds to itself. */
  function KeyedProduct(input: bv64, secret: bv64): bv64 {
    var key := input ^ secret;
    (key & 0xFFFFFFFF) * (key >> 32)
  }

  /** One lane after a whole stripe: its own keyed product and its neighbour's input, in the order in
      which the rounds add them. */
  function AccumulatedLane<T>(add: (T, T) -> T, acc: T, product: T, neighbour: T, lane: nat): T {
    if lane % 2 == 0 then add(add(acc, product), neighbour) else add(add(acc, neighbour), product)
  }

  /** All lanes at once, from the lanes' inputs and keyed products. */
  function AccumulatedLanes<T>(add: (T, T) -> T, acc: seq<T>, inputs: seq<T>, products: seq<T>): seq<T>
    requires |acc| == |inputs| == |products| == LANES
  {
    seq(LANES, i requires 0 <= i < LANES => AccumulatedLane(add, acc[i], products[i], inputs[Swapped(i)], i))
  }

  /** XXH3_scalarRound for each lane in turn, as XXH3_accumulate_512_scalar does it, whatever the
      lane addition is. */
  method ScalarRounds<T>(add: (T, T) -> T, acc: array<T>, inputs: seq<T>, products: seq<T>)
    requires acc.Length == |inputs| == |products| == LANES
    modifies acc
    ensures acc[..] == AccumulatedLanes(add, old(acc[..]), inputs, products)
  {
    for lane := 0 to LANES
      invariant forall j :: 0 <= j < LANES ==>
        acc[j] == if lane % 2 == 1 && j == lane then add(old(acc[j]), inputs[Swapped(j)])
                  else if lane % 2 == 1 && j == lane - 1 then add(old(acc[j]), products[j])
                  else if j < lane then AccumulatedLane(add, old(acc[j]), products[j], inputs[Swapped(j)], j)
                  else old(acc[j])
    {
      var n := Swapped(lane);
      acc[n] := add(acc[n], inputs[lane]);
      acc[lane] := add(acc[lane], products[lane]);
    }
  }

  function Add64(x: bv64, y: bv64): bv64 {
    x + y
  }

  /** The eight words of a stripe. */
  function Inputs(stripe: seq<Byte>): seq<bv64> {
    seq(LANES, i requires 0 <= i => ReadLE64(stripe, 8 * i))
  }

  function Products(stripe: seq<Byte>, secret: seq<Byte>): seq<bv64> {
    seq(LANES, i requires 0 <= i => KeyedProduct(ReadLE64(stripe, 8 * i), ReadLE64(secret, 8 * i)))
  }

  /** XXH3_accumulate_512. */
  function Accumulate512(acc: Acc, stripe: seq<Byte>, secret: seq<Byte>): Acc {
    if |acc| == LANES then AccumulatedLanes(Add64, acc, Inputs(stripe), Products(stripe, secret)) else acc
  }

  /** The accumulation of the kernel is what the rounds leave in the lanes. */
  method AccumulateScalar(acc: array<bv64>, stripe: seq<Byte>, secret: seq<Byte>)
    requires acc.Length == LANES
    modifies acc
    ensures acc[..] == Accumulate512(old(acc[..]), stripe, secret)
  {
    ScalarRounds(Add64, acc, Inputs(stripe), Products(stripe, secret));
  }

  function Xor(x: bv64, y: bv64): bv64 { x ^ y }

  function Shift47(x: bv64): bv64 { x >> 47 }

  // The prime is written out here, so that the solver can multiply it with its inverse.

  /** `x * XXH_PRIME32_1`. */
  function TimesPrime1(x: bv64): bv64 { x * 0x9E3779B1 }

  function ScrambledLane(acc: bv64, key: bv64): bv64 {
    TimesPrime1(Xor(Xor(acc, Shift47(acc)), key))
  }

  /** XXH3_scrambleAcc. */
  function Scramble(acc: Acc, secret: seq<Byte>): Acc {
    seq(|acc|, i requires 0 <= i < |acc| => ScrambledLane(acc[i], ReadLE64(secret, 8 * i)))
  }

  function Word(x: bv64): Mult128.U64 {
    x as int
  }

  /** XXH3_mul128_fold64. */
  function FoldedProduct(x: bv64, y: bv64): bv64 {
    FoldedInts(Word(x), Word(y))
  }

  function FoldedInts(x: Mult128.U64, y: Mult128.U64): bv64 {
    Mult128.ProductBound(x, y);
    Joined(x * y % TWO64, x * y / TWO64)
  }

  function Joined(low64: Mult128.U64, high64: Mult128.U64): bv64 {
    (low64 as bv64) ^ (high64 as bv64)
  }

  /** The fold of the kernel is what the portable multiply gives. */
  method Fold(x: bv64, y: bv64) returns (r: bv64)
    ensures r == FoldedProduct(x, y)
  {
    r := FoldInts(Word(x), Word(y));
  }

  method FoldInts(x: Mult128.U64, y: Mult128.U64) returns (r: bv64)
    ensures r == FoldedInts(x, y)
  {
    var low64, high64 := Mult128.MultiplyToHalves(x, y);
    r := Joined(low64, high64);
  }

  /** The first `i` rounds of XXH3_mergeAccs, whatever the fold is. */
  function Mixed(fold: (bv64, bv64) -> bv64, acc: Acc, secret: seq<Byte>, start: bv64, i: nat): bv64
    requires |acc| == LANES && i <= 4
  {
    if i == 0 then start
    else
      var j := i - 1;
      Plus(Mixed(fold, acc, secret, start, j),
           fold(Xor(acc[2 * j], ReadLE64(secret, 16 * j)), Xor(acc[2 * j + 1], ReadLE64(secret, 16 * j + 8))))
  }

  /** XXH3_avalanche. */
  function Avalanche(h: bv64): bv64 {
    var m := (h ^ (h >> 37)) * MERGE_PRIME;
    m ^ (m >> 32)
  }

  function Start(n: nat): bv64
    requires n < TWO64
  {
    n as bv64
  }

  /** XXH3_mergeAccs, ending in XXH3_avalanche, from a 64-bit start. */
  function MergeAccs(acc: Acc, secret: seq<Byte>, start: nat): bv64 {
    if |acc| == LANES && start < TWO64 then Avalanche(Mixed(FoldedProduct, acc, secret, Start(start), 4)) else 0
  }

  function Plus(x: bv64, y: bv64): bv64 { x + y }

  function Minus(x: bv64, y: bv64): bv64 { x - y }

  /** Round `i` of XXH3_initCustomSecret_scalar. */
  function DerivedPair(secret: seq<Byte>, seed: bv64, i: nat): (s: seq<Byte>)
    ensures |s| == 16
  {
    WriteLE64(Plus(ReadLE64(secret, 16 * i), seed)) + WriteLE64(Minus(ReadLE64(secret, 16 * i + 8), seed))
  }

  /** The first `n` rounds. */
  function Derived(secret: seq<Byte>, seed: bv64, n: nat): (s: seq<Byte>)
    ensures |s| == 16 * n
  {
    if n == 0 then [] else Derived(secret, seed, n - 1) + DerivedPair(secret, seed, n - 1)
  }

  /** XXH3_initCustomSecret_scalar. */
  function DeriveSecret(secret: seq<Byte>, seed: bv64): (s: seq<Byte>)
    ensures |s| == 16 * (|secret| / 16)
  {
    Derived(secret, seed, |secret| / 16)
  }

  lemma {:induction false} RowsSize(rows: seq<seq<Byte>>)
    requires forall row :: row in rows ==> |row| == 16
    ensures |Flatten(rows)| == 16 * |rows|
    decreases |rows|
  {
    if rows != [] {
      RowsSize(rows[..|rows| - 1]);
    }
  }

  lemma FrontSize()
    ensures |Flatten(SECRET_FRONT)| == 64
  {
    RowsSize(SECRET_FRONT);
  }

  lemma MiddleSize()
    ensures |Flatten(SECRET_MIDDLE)| == 64
  {
    RowsSize(SECRET_MIDDLE);
  }

  lemma BackSize()
    ensures |Flatten(SECRET_BACK)| == 64
  {
    RowsSize(SECRET_BACK);
  }

  lemma DefaultSecretSize()
    ensures |DEFAULT_SECRET| == SECRET_DEFAULT_SIZE
  {
    FrontSize();
    MiddleSize();
    BackSize();
  }

  /** The scalar kernel over a default secret, for any hashes of inputs of at most 240 bytes. */
  function ScalarOver(secret: seq<Byte>, short64: (seq<Byte>, seq<Byte>, bv64) -> bv64,
                      short128: (seq<Byte>, seq<Byte>, bv64) -> Hash128): (k: Kernel)
    requires |secret| == SECRET_DEFAULT_SIZE
    ensures k.WellFormed()
  {
    Kernel(INIT_ACC, Accumulate512, Scramble, MergeAccs, short64, short128, secret, seed => DeriveSecret(secret, seed))
  }

  /** The scalar kernel. */
  function Scalar(short64: (seq<Byte>, seq<Byte>, bv64) -> bv64,
                  short128: (seq<Byte>, seq<Byte>, bv64) -> Hash128): (k: Kernel)
    ensures k.WellFormed()
  {
    DefaultSecretSize();
    ScalarOver(DEFAULT_SECRET, short64, short128)
  }
}
