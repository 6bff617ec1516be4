/** The answers that the sanity check of the command line tool knows for XXH32 and XXH64 with seed 0: for the empty
input and for the 222 bytes of its sample, which go through every kind of step of both hashes. */
module XxhKnown {
  import opened HashBytes
  import opened XxhClassic
  import opened XxhLanes

  /** The pieces, one after another, and then the tail. */
  function Pieces(ps: seq<seq<Byte>>, tail: seq<Byte>): seq<Byte> {
    if ps == [] then tail else ps[0] + Pieces(ps[1..], tail)
  }

  // The sample, 16 bytes at a time.

  const PIECE_0: seq<Byte> :=
    [0x00, 0x52, 0x92, 0x9b, 0xb7, 0x32, 0xa3, 0x24, 0x2d, 0x00, 0xaf, 0x95, 0x0e, 0xec, 0xb8, 0x93]
  const PIECE_1: seq<Byte> :=
    [0xe3, 0xdf, 0xef, 0x93, 0xaa, 0xd6, 0xcd, 0x2a, 0x53, 0x8b, 0x5c, 0x3f, 0x54, 0x5a, 0x6f, 0xd5]
  const PIECE_2: seq<Byte> :=
    [0x59, 0xc0, 0xff, 0xfc, 0x8f, 0x85, 0xb9, 0x33, 0x1d, 0xab, 0x74, 0xf7, 0xb6, 0x05, 0x93, 0x27]
  const PIECE_3: seq<Byte> :=
    [0xb0, 0x70, 0x84, 0xb3, 0x67, 0x7c, 0x9f, 0x76, 0x48, 0x00, 0x72, 0xed, 0x7b, 0x98, 0x17, 0xe8]
  const PIECE_4: seq<Byte> :=
    [0xdd, 0x48, 0x5e, 0x0c, 0x0c, 0xcb, 0xd0, 0x65, 0x3f, 0xad, 0xb2, 0x8f, 0x11, 0xb0, 0x6c, 0xe8]
  const PIECE_5: seq<Byte> :=
    [0x8d, 0xb0, 0xf1, 0x86, 0x08, 0x61, 0x59, 0x56, 0x6c, 0x8e, 0x4e, 0x78, 0x13, 0x63, 0xbd, 0xab]
  const PIECE_6: seq<Byte> :=
    [0x9d, 0x32, 0x73, 0x09, 0xea, 0x71, 0x2f, 0xd9, 0x7a, 0x9d, 0x55, 0xf0, 0xca, 0x8a, 0xd0, 0xe9]
  const PIECE_7: seq<Byte> :=
    [0x5e, 0x1a, 0x36, 0xb3, 0x6b, 0x0f, 0xca, 0x51, 0xef, 0x8b, 0xa2, 0xc4, 0x62, 0xed, 0x00, 0x96]
  const PIECE_8: seq<Byte> :=
    [0xf3, 0x34, 0x49, 0xeb, 0x0f, 0xd1, 0x3b, 0x92, 0xa1, 0xa9, 0x63, 0xdb, 0xaa, 0xed, 0x3d, 0xcf]
  const PIECE_9: seq<Byte> :=
    [0xf1, 0x09, 0x42, 0xcd, 0xf9, 0xb3, 0x21, 0xa2, 0xeb, 0xf2, 0xc8, 0xf4, 0xe4, 0x2f, 0x48, 0xd1]
  const PIECE_10: seq<Byte> :=
    [0x4b, 0x10, 0xf4, 0xc2, 0xef, 0xec, 0xf8, 0x4a, 0xb5, 0x38, 0x74, 0xc3, 0xa4, 0xa6, 0x62, 0x0e]
  const PIECE_11: seq<Byte> :=
    [0xbf, 0xfd, 0x63, 0x37, 0x41, 0xe3, 0x86, 0x98, 0x1a, 0xeb, 0x4c, 0xba, 0x56, 0x03, 0x66, 0x87]
  const PIECE_12: seq<Byte> :=
    [0xed, 0x00, 0x45, 0x59, 0xc1, 0x85, 0x44, 0xb6, 0xc3, 0x68, 0xf9, 0x41, 0xa9, 0xea, 0xf9, 0x87]
  const PIECE_13: seq<Byte> := [0xe0, 0x9f, 0x12, 0xd0, 0xd5, 0x14, 0x54, 0x48, 0x5d, 0x44, 0x40, 0x51, 0xe3, 0x38]

  const FIRST: seq<seq<Byte>> := [PIECE_0, PIECE_1, PIECE_2, PIECE_3]
  const SECOND: seq<seq<Byte>> := [PIECE_4, PIECE_5, PIECE_6, PIECE_7]
  const THIRD: seq<seq<Byte>> := [PIECE_8, PIECE_9, PIECE_10, PIECE_11]

  /** The 222 bytes. */
  function Sample(): seq<Byte> {
    Pieces(FIRST, Pieces(SECOND, Pieces(THIRD, PIECE_12 + PIECE_13)))
  }

  // The lanes before the first stripe and after each one.

  const V32_0: Lanes<bv32> := Lanes(0x24234428, 0x85EBCA77, 0x00000000, 0x61C8864F)
  const V32_1: Lanes<bv32> := Lanes(0xAE79C58B, 0x7E8B78C9, 0x897140C9, 0x97FF114B)
  const V32_2: Lanes<bv32> := Lanes(0x351DB9C0, 0x87DBCB65, 0xA290C952, 0x4C244024)
  const V32_3: Lanes<bv32> := Lanes(0xF358D6DF, 0xEF8675F8, 0x2682014E, 0x325E49B1)
  const V32_4: Lanes<bv32> := Lanes(0xEE7BDD4C, 0xC99464BB, 0x3962B87A, 0xA33262D2)
  const V32_5: Lanes<bv32> := Lanes(0x20BAEE65, 0xB63B234B, 0x97C6C30F, 0x70545828)
  const V32_6: Lanes<bv32> := Lanes(0xF1AE243A, 0x59D5EAC5, 0xC5D68D1A, 0x00CBB12F)
  const V32_7: Lanes<bv32> := Lanes(0x16631199, 0x9DB7B6B2, 0xB60496DC, 0xEA368865)
  const V32_8: Lanes<bv32> := Lanes(0x82086FB4, 0x73DA89D1, 0xB8AD3E2C, 0x15E1BB4D)
  const V32_9: Lanes<bv32> := Lanes(0x76008CCD, 0xA16CB6CC, 0x137ABA34, 0x4E6C0A48)
  const V32_10: Lanes<bv32> := Lanes(0xD166D298, 0x1A6006A5, 0xA9C1AD59, 0xEC3CAC42)
  const V32_11: Lanes<bv32> := Lanes(0xF0FDA8E1, 0xD345D51D, 0xF0E56585, 0xD8437AC4)
  const V32_12: Lanes<bv32> := Lanes(0x2399D800, 0xE975EFFE, 0x67A49BE0, 0x9CF39C28)
  const V32_13: Lanes<bv32> := Lanes(0x799BCE9E, 0x134BA440, 0xF14CC4F7, 0x7EE3875D)

  const V64_0: Lanes<bv64> := Lanes(0x60EA27EEADC0B5D6, 0xC2B2AE3D27D4EB4F, 0x0000000000000000, 0x61C8864E7A143579)
  const V64_1: Lanes<bv64> := Lanes(0x621C628F61D7E238, 0xC7A3EA2329ABD2D8, 0x8B3B7D1B94278C7C, 0xA54AB42CAD6589E2)
  const V64_2: Lanes<bv64> := Lanes(0x03E0CF6CB9ED1C63, 0x269E6990BC886AB4, 0x79FE9B92552FEE61, 0x7123CE6B103D0372)
  const V64_3: Lanes<bv64> := Lanes(0x4749BAC0BEB43E2D, 0xAA9F4FEB0C088DEE, 0x0C3E2CEB9D59C384, 0xD2B0BBBAECC03AB4)
  const V64_4: Lanes<bv64> := Lanes(0x105849AF9012A613, 0xD06AE58099CB7069, 0xCF7EB511BD6C5217, 0xF498CB5FDA7DBC0D)
  const V64_5: Lanes<bv64> := Lanes(0x41C3825EACC5169A, 0x3D3B789A8D96A03B, 0x4B81313E71F08336, 0xAEA3D1F2E1F9E1FE)
  const V64_6: Lanes<bv64> := Lanes(0x3F56AA5D3EA9D2BC, 0x2F8034F190B43E97, 0xA2C4D38DA9803F28, 0x2A44A145BD521608)

  // ----- pieces and stripes -----

  lemma AbsorbPiece<V, H>(k: Kernel<V, H>, v: V, piece: seq<Byte>, more: seq<Byte>)
    requires |piece| == k.stripe > 0
    ensures Absorb(k, v, piece + more) == Absorb(k, k.round(v, piece), more)
  {
    assert (piece + more)[..k.stripe] == piece && (piece + more)[k.stripe..] == more;
  }

  /** One piece a stripe. */
  lemma {:induction false} AbsorbPieces<V, H>(k: Kernel<V, H>, vs: seq<V>, ps: seq<seq<Byte>>, more: seq<Byte>)
    requires k.stripe == 16 && |vs| == |ps| + 1
    requires forall i :: 0 <= i < |ps| ==> |ps[i]| == 16 && k.round(vs[i], ps[i]) == vs[i + 1]
    ensures Absorb(k, vs[0], Pieces(ps, more)) == Absorb(k, vs[|ps|], more)
    decreases |ps|
  {
    if ps != [] {
      AbsorbPiece(k, vs[0], ps[0], Pieces(ps[1..], more));
      AbsorbPieces(k, vs[1..], ps[1..], more);
    }
  }

  /** Two pieces a stripe, four at a time. */
  lemma AbsorbPairs<V, H>(k: Kernel<V, H>, v: V, w: V, u: V, ps: seq<seq<Byte>>, more: seq<Byte>)
    requires k.stripe == 32 && |ps| == 4 && |ps[0]| == |ps[1]| == |ps[2]| == |ps[3]| == 16
    requires k.round(v, ps[0] + ps[1]) == w && k.round(w, ps[2] + ps[3]) == u
    ensures Absorb(k, v, Pieces(ps, more)) == Absorb(k, u, more)
  {
    FourPieces(ps, more);
    AbsorbPiece(k, v, ps[0] + ps[1], ps[2] + ps[3] + more);
    AbsorbPiece(k, w, ps[2] + ps[3], more);
  }

  lemma FourPieces(ps: seq<seq<Byte>>, more: seq<Byte>)
    requires |ps| == 4
    ensures Pieces(ps, more) == (ps[0] + ps[1]) + (ps[2] + ps[3] + more)
  {
    assert ps[1..][1..] == ps[2..] && ps[2..][1..] == ps[3..] && ps[3..][1..] == [];
    assert Pieces(ps[3..], more) == ps[3] + more;
    assert Pieces(ps[2..], more) == ps[2] + (ps[3] + more);
    assert Pieces(ps[1..], more) == ps[1] + (ps[2] + (ps[3] + more));
  }

  lemma SampleSize()
    ensures |Sample()| == 222
  {
    FourPieces(THIRD, PIECE_12 + PIECE_13);
    FourPieces(SECOND, Pieces(THIRD, PIECE_12 + PIECE_13));
    FourPieces(FIRST, Pieces(SECOND, Pieces(THIRD, PIECE_12 + PIECE_13)));
  }

  // ----- the tail -----

  /** Each piece is as wide as the finalization takes it when so much is left. */
  ghost predicate Cut(width: nat -> nat, xs: seq<seq<Byte>>) {
    xs != [] ==> xs[0] != [] && |xs[0]| == width(|Pieces(xs, [])|) && Cut(width, xs[1..])
  }

  lemma {:induction false} FinishPieces<H>(step: (H, seq<Byte>) -> H, width: nat -> nat, hs: seq<H>, xs: seq<seq<Byte>>)
    requires forall left: nat :: left > 0 ==> 0 < width(left) <= left
    requires Cut(width, xs) && |hs| == |xs| + 1 && forall i :: 0 <= i < |xs| ==> step(hs[i], xs[i]) == hs[i + 1]
    ensures Finished(step, width, hs[0], Pieces(xs, [])) == hs[|xs|]
    decreases |xs|
  {
    if xs != [] {
      var b, rest := Pieces(xs, []), Pieces(xs[1..], []);
      assert b[..|xs[0]|] == xs[0] && b[|xs[0]|..] == rest;
      FinishPieces(step, width, hs[1..], xs[1..]);
    }
  }

  // ----- XXH32 -----

  lemma Stripes32From0()
    ensures Stripe32(V32_0, PIECE_0) == V32_1
    ensures Stripe32(V32_1, PIECE_1) == V32_2
    ensures Stripe32(V32_2, PIECE_2) == V32_3
    ensures Stripe32(V32_3, PIECE_3) == V32_4
  {
  }

  lemma Stripes32From4()
    ensures Stripe32(V32_4, PIECE_4) == V32_5
    ensures Stripe32(V32_5, PIECE_5) == V32_6
    ensures Stripe32(V32_6, PIECE_6) == V32_7
    ensures Stripe32(V32_7, PIECE_7) == V32_8
  {
  }

  lemma Stripes32From8()
    ensures Stripe32(V32_8, PIECE_8) == V32_9
    ensures Stripe32(V32_9, PIECE_9) == V32_10
    ensures Stripe32(V32_10, PIECE_10) == V32_11
    ensures Stripe32(V32_11, PIECE_11) == V32_12
  {
  }

  lemma Stripes32From12()
    ensures Stripe32(V32_12, PIECE_12) == V32_13
  {
  }

  lemma Lanes32From0(more: seq<Byte>)
    ensures Absorb(Xxh32(), V32_0, Pieces(FIRST, more)) == Absorb(Xxh32(), V32_4, more)
  {
    Stripes32From0();
    AbsorbPieces(Xxh32(), [V32_0, V32_1, V32_2, V32_3, V32_4], FIRST, more);
  }

  lemma Lanes32From4(more: seq<Byte>)
    ensures Absorb(Xxh32(), V32_4, Pieces(SECOND, more)) == Absorb(Xxh32(), V32_8, more)
  {
    Stripes32From4();
    AbsorbPieces(Xxh32(), [V32_4, V32_5, V32_6, V32_7, V32_8], SECOND, more);
  }

  lemma Lanes32From8(more: seq<Byte>)
    ensures Absorb(Xxh32(), V32_8, Pieces(THIRD, more)) == Absorb(Xxh32(), V32_12, more)
  {
    Stripes32From8();
    AbsorbPieces(Xxh32(), [V32_8, V32_9, V32_10, V32_11, V32_12], THIRD, more);
  }

  lemma Lanes32()
    ensures Absorb(Xxh32(), V32_0, Sample()) == (V32_13, PIECE_13)
  {
    var last := PIECE_12 + PIECE_13;
    Lanes32From0(Pieces(SECOND, Pieces(THIRD, last)));
    Lanes32From4(Pieces(THIRD, last));
    Lanes32From8(last);
    Stripes32From12();
    AbsorbPiece(Xxh32(), V32_12, PIECE_12, PIECE_13);
  }

  const TAIL_32: seq<seq<Byte>> := [
    [0xe0, 0x9f, 0x12, 0xd0],
    [0xd5, 0x14, 0x54, 0x48],
    [0x5d, 0x44, 0x40, 0x51],
    [0xe3],
    [0x38]]

  const HASHES_32: seq<bv32> := [
    0x82CF38C5, 0x170D7D3D, 0x57DC68AE, 0x586F7B75, 0x8A038FB8, 0x8F9A8937]

  lemma Steps32()
    ensures forall i :: 0 <= i < 5 ==> Step32(HASHES_32[i], TAIL_32[i]) == HASHES_32[i + 1]
  {
  }

  lemma Tail32()
    ensures Cut(Width32, TAIL_32) && Pieces(TAIL_32, []) == PIECE_13
  {
  }

  lemma Finish32()
    ensures Finished(Step32, Width32, 0x82CF38C5, PIECE_13) == 0x8F9A8937
  {
    Steps32();
    Tail32();
    FinishPieces(Step32, Width32, HASHES_32, TAIL_32);
  }

  lemma Ends32()
    ensures Init32(0) == V32_0 && AddLen32(Converge32(V32_13), 222) == 0x82CF38C5
    ensures Avalanche32(0x8F9A8937) == 0x5BD11DBD
  {
  }

  lemma Known32()
    ensures OneShot32(Xxh32(), 0, []) == 0x02CC5D05
    ensures OneShot32(Xxh32(), 0, Sample()) == 0x5BD11DBD
  {
    SampleSize();
    Ends32();
    Lanes32();
    Finish32();
  }

  // ----- XXH64 -----

  lemma Words64At0()
    ensures Words64(PIECE_0 + PIECE_1) ==
      Lanes(0x24A332B79B925200, 0x93B8EC0E95AF002D, 0x2ACDD6AA93EFDFE3, 0xD56F5A543F5C8B53)
  {
  }

  lemma Stripe64At0()
    ensures Stripe64(V64_0, PIECE_0 + PIECE_1) == V64_1
  {
    Words64At0();
  }

  lemma Words64At1()
    ensures Words64(PIECE_2 + PIECE_3) ==
      Lanes(0x33B9858FFCFFC059, 0x279305B6F774AB1D, 0x769F7C67B38470B0, 0xE817987BED720048)
  {
  }

  lemma Stripe64At1()
    ensures Stripe64(V64_1, PIECE_2 + PIECE_3) == V64_2
  {
    Words64At1();
  }

  lemma Words64At2()
    ensures Words64(PIECE_4 + PIECE_5) ==
      Lanes(0x65D0CB0C0C5E48DD, 0xE86CB0118FB2AD3F, 0x5659610886F1B08D, 0xABBD6313784E8E6C)
  {
  }

  lemma Stripe64At2()
    ensures Stripe64(V64_2, PIECE_4 + PIECE_5) == V64_3
  {
    Words64At2();
  }

  lemma Words64At3()
    ensures Words64(PIECE_6 + PIECE_7) ==
      Lanes(0xD92F71EA0973329D, 0xE9D08ACAF0559D7A, 0x51CA0F6BB3361A5E, 0x9600ED62C4A28BEF)
  {
  }

  lemma Stripe64At3()
    ensures Stripe64(V64_3, PIECE_6 + PIECE_7) == V64_4
  {
    Words64At3();
  }

  lemma Words64At4()
    ensures Words64(PIECE_8 + PIECE_9) ==
      Lanes(0x923BD10FEB4934F3, 0xCF3DEDAADB63A9A1, 0xA221B3F9CD4209F1, 0xD1482FE4F4C8F2EB)
  {
  }

  lemma Stripe64At4()
    ensures Stripe64(V64_4, PIECE_8 + PIECE_9) == V64_5
  {
    Words64At4();
  }

  lemma Words64At5()
    ensures Words64(PIECE_10 + PIECE_11) ==
      Lanes(0x4AF8ECEFC2F4104B, 0x0E62A6A4C37438B5, 0x9886E3413763FDBF, 0x87660356BA4CEB1A)
  {
  }

  lemma Stripe64At5()
    ensures Stripe64(V64_5, PIECE_10 + PIECE_11) == V64_6
  {
    Words64At5();
  }

  lemma Lanes64From0(more: seq<Byte>)
    ensures Absorb(Xxh64(), V64_0, Pieces(FIRST, more)) == Absorb(Xxh64(), V64_2, more)
  {
    Stripe64At0();
    Stripe64At1();
    AbsorbPairs(Xxh64(), V64_0, V64_1, V64_2, FIRST, more);
  }

  lemma Lanes64From2(more: seq<Byte>)
    ensures Absorb(Xxh64(), V64_2, Pieces(SECOND, more)) == Absorb(Xxh64(), V64_4, more)
  {
    Stripe64At2();
    Stripe64At3();
    AbsorbPairs(Xxh64(), V64_2, V64_3, V64_4, SECOND, more);
  }

  lemma Lanes64From4(more: seq<Byte>)
    ensures Absorb(Xxh64(), V64_4, Pieces(THIRD, more)) == Absorb(Xxh64(), V64_6, more)
  {
    Stripe64At4();
    Stripe64At5();
    AbsorbPairs(Xxh64(), V64_4, V64_5, V64_6, THIRD, more);
  }

  lemma Lanes64()
    ensures Absorb(Xxh64(), V64_0, Sample()) == (V64_6, PIECE_12 + PIECE_13)
  {
    var last := PIECE_12 + PIECE_13;
    Lanes64From0(Pieces(SECOND, Pieces(THIRD, last)));
    Lanes64From2(Pieces(THIRD, last));
    Lanes64From4(last);
  }

  const TAIL_64: seq<seq<Byte>> := [
    [0xed, 0x00, 0x45, 0x59, 0xc1, 0x85, 0x44, 0xb6],
    [0xc3, 0x68, 0xf9, 0x41, 0xa9, 0xea, 0xf9, 0x87],
    [0xe0, 0x9f, 0x12, 0xd0, 0xd5, 0x14, 0x54, 0x48],
    [0x5d, 0x44, 0x40, 0x51],
    [0xe3],
    [0x38]]

  const HASHES_64: seq<bv64> := [
    0xFBF1A0CAC8CDAA84, 0x23B504099D549E10, 0x6D48105A1E426C4F, 0xB7E58B29A013D49D, 0xC16692327C8C353D,
    0x934D1117C2824423, 0x97F5DA3FDB99D342]

  lemma Steps64(step: (bv64, seq<Byte>) -> bv64)
    requires step == Step64
    ensures step(0xFBF1A0CAC8CDAA84, [0xed, 0x00, 0x45, 0x59, 0xc1, 0x85, 0x44, 0xb6]) == 0x23B504099D549E10
    ensures step(0x23B504099D549E10, [0xc3, 0x68, 0xf9, 0x41, 0xa9, 0xea, 0xf9, 0x87]) == 0x6D48105A1E426C4F
    ensures step(0x6D48105A1E426C4F, [0xe0, 0x9f, 0x12, 0xd0, 0xd5, 0x14, 0x54, 0x48]) == 0xB7E58B29A013D49D
    ensures step(0xB7E58B29A013D49D, [0x5d, 0x44, 0x40, 0x51]) == 0xC16692327C8C353D
    ensures step(0xC16692327C8C353D, [0xe3]) == 0x934D1117C2824423
    ensures step(0x934D1117C2824423, [0x38]) == 0x97F5DA3FDB99D342
  {
  }

  lemma FinishBy64(step: (bv64, seq<Byte>) -> bv64)
    requires step(0xFBF1A0CAC8CDAA84, [0xed, 0x00, 0x45, 0x59, 0xc1, 0x85, 0x44, 0xb6]) == 0x23B504099D549E10
    requires step(0x23B504099D549E10, [0xc3, 0x68, 0xf9, 0x41, 0xa9, 0xea, 0xf9, 0x87]) == 0x6D48105A1E426C4F
    requires step(0x6D48105A1E426C4F, [0xe0, 0x9f, 0x12, 0xd0, 0xd5, 0x14, 0x54, 0x48]) == 0xB7E58B29A013D49D
    requires step(0xB7E58B29A013D49D, [0x5d, 0x44, 0x40, 0x51]) == 0xC16692327C8C353D
    requires step(0xC16692327C8C353D, [0xe3]) == 0x934D1117C2824423
    requires step(0x934D1117C2824423, [0x38]) == 0x97F5DA3FDB99D342
    ensures Finished(step, Width64, 0xFBF1A0CAC8CDAA84, PIECE_12 + PIECE_13) == 0x97F5DA3FDB99D342
  {
    Tail64();
    FinishPieces(step, Width64, HASHES_64, TAIL_64);
  }

  lemma Tail64()
    ensures Cut(Width64, TAIL_64) && Pieces(TAIL_64, []) == PIECE_12 + PIECE_13
  {
  }

  lemma Finish64()
    ensures Finished(Step64, Width64, 0xFBF1A0CAC8CDAA84, PIECE_12 + PIECE_13) == 0x97F5DA3FDB99D342
  {
    Steps64(Step64);
    FinishBy64(Step64);
  }

  lemma Ends64()
    ensures Init64(0) == V64_0 && AddLen64(Converge64(V64_6), 222) == 0xFBF1A0CAC8CDAA84
    ensures Avalanche64(0x97F5DA3FDB99D342) == 0xB641AE8CB691C174
  {
  }

  lemma Known64()
    ensures OneShot64(Xxh64(), 0, []) == 0xEF46DB3751D8E999
    ensures OneShot64(Xxh64(), 0, Sample()) == 0xB641AE8CB691C174
  {
    SampleSize();
    Ends64();
    Lanes64();
    Finish64();
  }

}
