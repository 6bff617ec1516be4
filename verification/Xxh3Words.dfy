/** Bytes as little-endian words: what XXH3 reads where, of the default secret and of any written words. */
module Xxh3Words {
  import opened HashBytes
  import opened Xxh3Laws
  import opened Xxh3Scalar

  /** The words, one after another, as bytes. */
  function Written(ws: seq<bv64>): (s: seq<Byte>)
    ensures |s| == 8 * |ws|
  {
    if ws == [] then [] else WriteLE64(ws[0]) + Written(ws[1..])
  }

  lemma {:induction false} WrittenJoined(a: seq<bv64>, b: seq<bv64>)
    ensures Written(a + b) == Written(a) + Written(b)
    decreases |a|
  {
    if a == [] {
      assert a + b == b;
    } else {
      assert (a + b)[0] == a[0] && (a + b)[1..] == a[1..] + b;
      WrittenJoined(a[1..], b);
    }
  }

  lemma TwoWritten(x: bv64, y: bv64)
    ensures Written([x, y]) == WriteLE64(x) + WriteLE64(y)
  {
    assert [x, y][1..] == [y] && [y][1..] == [];
    assert Written([y]) == WriteLE64(y);
  }

  // ----- reading words back -----

  /** Eight bytes from byte `r` on of one word and the next. */
  function Across(x: bv64, y: bv64, r: nat): bv64 {
    ReadLE64(WriteLE64(x) + WriteLE64(y), r)
  }

  lemma {:induction false} WrittenAcross(ws: seq<bv64>, i: nat, r: nat, at: nat)
    requires i + 1 < |ws| && r <= 8 && at == 8 * i + r
    ensures ReadLE64(Written(ws), at) == Across(ws[i], ws[i + 1], r)
    decreases i
  {
    if i == 0 {
      WrittenFirst(ws);
      ReadPrefix(WriteLE64(ws[0]) + WriteLE64(ws[1]), Written(ws[2..]), r);
    } else {
      WrittenAcross(ws[1..], i - 1, r, at - 8);
      ReadBehind(WriteLE64(ws[0]), Written(ws[1..]), at - 8, at);
    }
  }

  lemma WrittenFirst(ws: seq<bv64>)
    requires |ws| >= 2
    ensures Written(ws) == WriteLE64(ws[0]) + WriteLE64(ws[1]) + Written(ws[2..])
  {
    assert ws[1..][1..] == ws[2..];
    Regrouped(WriteLE64(ws[0]), WriteLE64(ws[1]), Written(ws[2..]));
  }

  lemma Regrouped(a: seq<Byte>, b: seq<Byte>, c: seq<Byte>)
    ensures a + (b + c) == a + b + c
  {
  }

  lemma {:induction false} WrittenWord(ws: seq<bv64>, i: nat)
    requires i < |ws|
    ensures ReadLE64(Written(ws), 8 * i) == ws[i]
    decreases i
  {
    var first, rest := WriteLE64(ws[0]), Written(ws[1..]);
    if i == 0 {
      ReadPrefix(first, rest, 0);
      ReadWritten(ws[0]);
    } else {
      WrittenWord(ws[1..], i - 1);
      ReadBehind(first, rest, 8 * (i - 1), 8 * i);
    }
  }

  // ----- the default secret -----

  const WORDS_FRONT: seq<bv64> := [
    0xBE4BA423396CFEB8, 0x1CAD21F72C81017C, 0xDB979083E96DD4DE, 0x1F67B3B7A4A44072,
    0x78E5C0CC4EE679CB, 0x2172FFCC7DD05A82, 0x8E2443F7744608B8, 0x4C263A81E69035E0]

  const WORDS_MIDDLE: seq<bv64> := [
    0xCB00C391BB52283C, 0xA32E531B8B65D088, 0x4EF90DA297486471, 0xD8ACDEA946EF1938,
    0x3F349CE33F76FAA8, 0x1D4F0BC7C7BBDCF9, 0x3159B4CD4BE0518A, 0x647378D9C97E9FC8]

  const WORDS_BACK: seq<bv64> := [
    0xC3EBD33483ACC5EA, 0xEB6313FAFFA081C5, 0x49DAF0B751DD0D17, 0x9E68D429265516D3,
    0xFCA1477D58BE162B, 0xCE31D07AD1B8F88F, 0x280416958F3ACB45, 0x7E404BBBCAFBD7AF]

  const SECRET_WORDS: seq<bv64> := WORDS_FRONT + WORDS_MIDDLE + WORDS_BACK
  lemma {:induction false} RowsWritten(rows: seq<seq<Byte>>, ws: seq<bv64>)
    requires |ws| == 2 * |rows|
    requires forall i :: 0 <= i < |rows| ==> rows[i] == WriteLE64(ws[2 * i]) + WriteLE64(ws[2 * i + 1])
    ensures Flatten(rows) == Written(ws)
    decreases |rows|
  {
    if rows != [] {
      var n := |rows| - 1;
      RowsWritten(rows[..n], ws[..2 * n]);
      assert ws == ws[..2 * n] + [ws[2 * n], ws[2 * n + 1]];
      WrittenJoined(ws[..2 * n], [ws[2 * n], ws[2 * n + 1]]);
      TwoWritten(ws[2 * n], ws[2 * n + 1]);
    }
  }

  lemma FrontRows()
    ensures [0xb8, 0xfe, 0x6c, 0x39, 0x23, 0xa4, 0x4b, 0xbe, 0x7c, 0x01, 0x81, 0x2c, 0xf7, 0x21, 0xad, 0x1c] ==
      WriteLE64(0xBE4BA423396CFEB8) + WriteLE64(0x1CAD21F72C81017C)
    ensures [0xde, 0xd4, 0x6d, 0xe9, 0x83, 0x90, 0x97, 0xdb, 0x72, 0x40, 0xa4, 0xa4, 0xb7, 0xb3, 0x67, 0x1f] ==
      WriteLE64(0xDB979083E96DD4DE) + WriteLE64(0x1F67B3B7A4A44072)
    ensures [0xcb, 0x79, 0xe6, 0x4e, 0xcc, 0xc0, 0xe5, 0x78, 0x82, 0x5a, 0xd0, 0x7d, 0xcc, 0xff, 0x72, 0x21] ==
      WriteLE64(0x78E5C0CC4EE679CB) + WriteLE64(0x2172FFCC7DD05A82)
    ensures [0xb8, 0x08, 0x46, 0x74, 0xf7, 0x43, 0x24, 0x8e, 0xe0, 0x35, 0x90, 0xe6, 0x81, 0x3a, 0x26, 0x4c] ==
      WriteLE64(0x8E2443F7744608B8) + WriteLE64(0x4C263A81E69035E0)
  {
  }

  lemma FrontWritten()
    ensures Flatten(SECRET_FRONT) == Written(WORDS_FRONT)
  {
    FrontRows();
    RowsWritten(SECRET_FRONT, WORDS_FRONT);
  }

  lemma MiddleRows()
    ensures [0x3c, 0x28, 0x52, 0xbb, 0x91, 0xc3, 0x00, 0xcb, 0x88, 0xd0, 0x65, 0x8b, 0x1b, 0x53, 0x2e, 0xa3] ==
      WriteLE64(0xCB00C391BB52283C) + WriteLE64(0xA32E531B8B65D088)
    ensures [0x71, 0x64, 0x48, 0x97, 0xa2, 0x0d, 0xf9, 0x4e, 0x38, 0x19, 0xef, 0x46, 0xa9, 0xde, 0xac, 0xd8] ==
      WriteLE64(0x4EF90DA297486471) + WriteLE64(0xD8ACDEA946EF1938)
    ensures [0xa8, 0xfa, 0x76, 0x3f, 0xe3, 0x9c, 0x34, 0x3f, 0xf9, 0xdc, 0xbb, 0xc7, 0xc7, 0x0b, 0x4f, 0x1d] ==
      WriteLE64(0x3F349CE33F76FAA8) + WriteLE64(0x1D4F0BC7C7BBDCF9)
    ensures [0x8a, 0x51, 0xe0, 0x4b, 0xcd, 0xb4, 0x59, 0x31, 0xc8, 0x9f, 0x7e, 0xc9, 0xd9, 0x78, 0x73, 0x64] ==
      WriteLE64(0x3159B4CD4BE0518A) + WriteLE64(0x647378D9C97E9FC8)
  {
  }

  lemma MiddleWritten()
    ensures Flatten(SECRET_MIDDLE) == Written(WORDS_MIDDLE)
  {
    MiddleRows();
    RowsWritten(SECRET_MIDDLE, WORDS_MIDDLE);
  }

  lemma BackRows()
    ensures [0xea, 0xc5, 0xac, 0x83, 0x34, 0xd3, 0xeb, 0xc3, 0xc5, 0x81, 0xa0, 0xff, 0xfa, 0x13, 0x63, 0xeb] ==
      WriteLE64(0xC3EBD33483ACC5EA) + WriteLE64(0xEB6313FAFFA081C5)
    ensures [0x17, 0x0d, 0xdd, 0x51, 0xb7, 0xf0, 0xda, 0x49, 0xd3, 0x16, 0x55, 0x26, 0x29, 0xd4, 0x68, 0x9e] ==
      WriteLE64(0x49DAF0B751DD0D17) + WriteLE64(0x9E68D429265516D3)
    ensures [0x2b, 0x16, 0xbe, 0x58, 0x7d, 0x47, 0xa1, 0xfc, 0x8f, 0xf8, 0xb8, 0xd1, 0x7a, 0xd0, 0x31, 0xce] ==
      WriteLE64(0xFCA1477D58BE162B) + WriteLE64(0xCE31D07AD1B8F88F)
    ensures [0x45, 0xcb, 0x3a, 0x8f, 0x95, 0x16, 0x04, 0x28, 0xaf, 0xd7, 0xfb, 0xca, 0xbb, 0x4b, 0x40, 0x7e] ==
      WriteLE64(0x280416958F3ACB45) + WriteLE64(0x7E404BBBCAFBD7AF)
  {
  }

  lemma BackWritten()
    ensures Flatten(SECRET_BACK) == Written(WORDS_BACK)
  {
    BackRows();
    RowsWritten(SECRET_BACK, WORDS_BACK);
  }

  lemma SecretWritten()
    ensures DEFAULT_SECRET == Written(SECRET_WORDS)
  {
    FrontWritten();
    MiddleWritten();
    BackWritten();
    WrittenJoined(WORDS_FRONT, WORDS_MIDDLE);
    WrittenJoined(WORDS_FRONT + WORDS_MIDDLE, WORDS_BACK);
  }
}
