/** The answers that the sanity check of the command line tool knows for XXH3 with the default secret and the 403
bytes of its sample, for the scalar kernel: six stripes, a last one that overlaps them, and both merges. */
module Xxh3Known {
  import opened HashBytes
  import Mult128
  import opened Sizes
  import opened Xxh3Layout
  import opened Xxh3Scalar
  import opened Xxh3Spec
  import opened Xxh3Words

  // The sample as little-endian words, by stripes. Of the last word three bytes belong to it.

  const DATA_0: seq<bv64> := [
    0x24A332B79B925200, 0x93B8EC0E95AF002D, 0x2ACDD6AA93EFDFE3, 0xD56F5A543F5C8B53,
    0x33B9858FFCFFC059, 0x279305B6F774AB1D, 0x769F7C67B38470B0, 0xE817987BED720048]

  const DATA_1: seq<bv64> := [
    0x65D0CB0C0C5E48DD, 0xE86CB0118FB2AD3F, 0x5659610886F1B08D, 0xABBD6313784E8E6C,
    0xD92F71EA0973329D, 0xE9D08ACAF0559D7A, 0x51CA0F6BB3361A5E, 0x9600ED62C4A28BEF]

  const DATA_2: seq<bv64> := [
    0x923BD10FEB4934F3, 0xCF3DEDAADB63A9A1, 0xA221B3F9CD4209F1, 0xD1482FE4F4C8F2EB,
    0x4AF8ECEFC2F4104B, 0x0E62A6A4C37438B5, 0x9886E3413763FDBF, 0x87660356BA4CEB1A]

  const DATA_3: seq<bv64> := [
    0xB64485C1594500ED, 0x87F9EAA941F968C3, 0x485414D5D0129FE0, 0x9A0638E35140445D,
    0xA3F88964EF0D3C4C, 0xC868931CC5E3EE61, 0xA897FF9809D797E5, 0xC82CCDAB79A4EA4C]

  const DATA_4: seq<bv64> := [
    0x5082E2CEF1F21B9F, 0x88B4B89B8EAD8238, 0x4865A9D936B68E81, 0x2AD8BBFCDBC93C74,
    0xAB67B2E224B49E22, 0x1C71FC4D2AE213AA, 0x5D97E2F8BD916207, 0x091B674567FD840C]

  const DATA_5: seq<bv64> := [
    0xDA953077A2204B9A, 0xDBE1F29E3F86B128, 0x062F916DF890DF10, 0xD8DBF6DF5B48B378,
    0x024C4089A5AEA77C, 0x957963DD9FF02073, 0x22E02F6F7EC403B1, 0x359D6E66E988D4F6]

  const DATA_6: seq<bv64> := [
    0xD5CF1A4F1B41BD19, 0x8D8F1FF04900B078, 0x0000000000BC14F6]

  /** The 403 bytes. */
  function Sample(): (s: seq<Byte>)
    ensures |s| == 403
  {
    Written(DATA_0 + DATA_1 + DATA_2 + DATA_3 + DATA_4 + DATA_5 + DATA_6)[..403]
  }

  // The last stripe of the sample, and the windows of the secret that are not on its words.

  const LAST_DATA: seq<bv64> := [
    0x48B378062F916DF8, 0xAEA77CD8DBF6DF5B, 0xF02073024C4089A5, 0xC403B1957963DD9F,
    0x88D4F622E02F6F7E, 0x41BD19359D6E66E9, 0x00B078D5CF1A4F1B, 0xBC14F68D8F1FF049]

  const LAST_SECRET: seq<bv64> := [
    0xEA647378D9C97E9F, 0xC5C3EBD33483ACC5, 0x17EB6313FAFFA081, 0xD349DAF0B751DD0D,
    0x2B9E68D429265516, 0x8FFCA1477D58BE16, 0x45CE31D07AD1B8F8, 0xAF280416958F3ACB]

  const LOW_SECRET: seq<bv64> := [
    0x6DD4DE1CAD21F72C, 0xA44072DB979083E9, 0xE679CB1F67B3B7A4, 0xD05A8278E5C0CC4E,
    0x4608B82172FFCC7D, 0x9035E08E2443F774, 0x52283C4C263A81E6, 0x65D088CB00C391BB]

  const HIGH_SECRET: seq<bv64> := [
    0xD9C97E9FC83159B4, 0x3483ACC5EA647378, 0xFAFFA081C5C3EBD3, 0xB751DD0D17EB6313,
    0x29265516D349DAF0, 0x7D58BE162B9E68D4, 0x7AD1B8F88FFCA147, 0x958F3ACB45CE31D0]

  // The accumulators before the first stripe and after each one.

  const ACC_0: Acc := [
    0x00000000C2B2AE3D, 0x9E3779B185EBCA87, 0xC2B2AE3D27D4EB4F, 0x165667B19E3779F9,
    0x85EBCA77C2B2AE63, 0x0000000085EBCA77, 0x27D4EB2F165667C5, 0x000000009E3779B1]

  const ACC_1: Acc := [
    0xF65A36A2039158CA, 0x2A5B24E970F04150, 0x0BA1A870F589F167, 0xBC3BFCEA53AC811F,
    0xE1EC8AFABC5F44B6, 0x3773C5D9C03AF696, 0xD2030499AA8DE48D, 0x7E3EB4A4F7C0A071]

  const ACC_2: Acc := [
    0xEE609BB3F41B60E4, 0xA50F5F706A992C7F, 0xC131FA51A06A7C14, 0x3FB58F23D3E54125,
    0x3CE602C47BFA88CA, 0x464563826DD62A6D, 0x7206CCA2AA226A28, 0xFE83470B00D22618]

  const ACC_3: Acc := [
    0xBE3C7E9ECBD11021, 0x9F4AB9BDDB915859, 0x02F936EC0510B901, 0x627DE00FADA0EB7E,
    0xD7C682859C033547, 0x9B0D43921773F401, 0x272A6C40C32F2FB2, 0x9E01D9B12D4AAEC1]

  const ACC_4: Acc := [
    0xEDF308BF63FCCC2E, 0x64A0DB5D19C3616E, 0xE45EBD40981339F0, 0xADBB6F8A838D9442,
    0xA9310E99C04C0E84, 0x40B5826009308186, 0xF553ADE632D0E2C5, 0xC47129C94EE206CB]

  const ACC_5: Acc := [
    0x94CFEB4DD5AE3B0E, 0x569E696F1C71BA43, 0x430EBD5B803DAEA2, 0x0ECF909405696407,
    0x01DA2BE21C472FA8, 0x64DDDFDC0782EB14, 0x01AFC1F6D0D6D64D, 0x3D20FB6CD162E8C2]

  const ACC_6: Acc := [
    0x4D0D0604BC0BD0BE, 0x4A951751ACBAB1ED, 0x24981A52C3BD475A, 0x266100F4A766A5CF,
    0xB4D373A7E590D543, 0x6EA42278E4D42B8E, 0x6E382A1F6A5D2A39, 0x68F5D2249217DF49]

  const ACC_7: Acc := [
    0x98672E2C19B2A9CB, 0xF7BCBDD4A14249AF, 0x8E133F156DF1205D, 0x2943E2F87BD26F0E,
    0x76CC068D7DF98C1C, 0xAC1ECAB15426849A, 0x5BA6C8BBE0E2ACF1, 0x6BA55D1E72C3AF1A]

  // ----- windows -----

  /** The eight words of 64 bytes. */
  ghost predicate Reads(s: seq<Byte>, ws: seq<bv64>) {
    |ws| == 8 && forall i :: 0 <= i < 8 ==> ReadLE64(s, 8 * i) == ws[i]
  }

  lemma ReadWindow(s: seq<Byte>, at: nat, end: nat, i: nat, n: nat)
    requires at + i + 8 <= end <= |s| && n == at + i
    ensures ReadLE64(s[at..end], i) == ReadLE64(s, n)
  {
  }

  lemma PrefixWindow(s: seq<Byte>, size: nat, at: nat, i: nat, n: nat)
    requires at + i + 8 <= at + 64 <= size <= |s| && n == at + i
    ensures ReadLE64(s[..size][at..at + 64], i) == ReadLE64(s, n)
  {
    ReadWindow(s[..size], at, at + 64, i, n);
    ReadWindow(s, 0, size, n, n);
  }

  // The lemmas over any reader keep the bits of words out of the arithmetic of positions.

  function Reader(ws: seq<bv64>): nat -> bv64 {
    (p: nat) => ReadLE64(Written(ws), p)
  }

  /** The eight words from byte `at` on. */
  ghost predicate ReadsAt(read: nat -> bv64, at: nat, xs: seq<bv64>) {
    |xs| == 8 && forall j :: 0 <= j < 8 ==> read(at + 8 * j) == xs[j]
  }

  ghost predicate ReadsWords(read: nat -> bv64, ws: seq<bv64>) {
    forall m :: 0 <= m < |ws| ==> read(8 * m) == ws[m]
  }

  /** `across` is what is read from byte `r` of a word on. */
  ghost predicate Straddles(read: nat -> bv64, ws: seq<bv64>, r: nat, across: (bv64, bv64) -> bv64) {
    forall m :: 0 <= m < |ws| - 1 ==> read(8 * m + r) == across(ws[m], ws[m + 1])
  }

  function AcrossFrom(r: nat): (bv64, bv64) -> bv64 {
    (x, y) => Across(x, y, r)
  }

  lemma ReaderReads(ws: seq<bv64>)
    ensures ReadsWords(Reader(ws), ws)
  {
    forall m | 0 <= m < |ws| ensures ReadLE64(Written(ws), 8 * m) == ws[m] {
      WrittenWord(ws, m);
    }
  }

  lemma ReaderStraddles(ws: seq<bv64>, r: nat)
    requires r <= 8
    ensures Straddles(Reader(ws), ws, r, AcrossFrom(r))
  {
    forall m | 0 <= m < |ws| - 1 ensures ReadLE64(Written(ws), 8 * m + r) == Across(ws[m], ws[m + 1], r) {
      WrittenAcross(ws, m, r, 8 * m + r);
    }
  }

  lemma AlignedBy(read: nat -> bv64, ws: seq<bv64>, i: nat, at: nat)
    requires at == 8 * i && i + 8 <= |ws| && ReadsWords(read, ws)
    ensures ReadsAt(read, at, ws[i..i + 8])
  {
    forall j | 0 <= j < 8 ensures read(at + 8 * j) == ws[i..i + 8][j] {
      assert ws[i..i + 8][j] == ws[i + j] && at + 8 * j == 8 * (i + j);
    }
  }

  lemma AcrossBy(read: nat -> bv64, across: (bv64, bv64) -> bv64, ws: seq<bv64>, i: nat, r: nat, at: nat, xs: seq<bv64>)
    requires at == 8 * i + r && i + 9 <= |ws| && |xs| == 8 && Straddles(read, ws, r, across)
    requires forall j :: 0 <= j < 8 ==> across(ws[i + j], ws[i + j + 1]) == xs[j]
    ensures ReadsAt(read, at, xs)
  {
    forall j | 0 <= j < 8 ensures read(at + 8 * j) == xs[j] {
      assert at + 8 * j == 8 * (i + j) + r && across(ws[i + j], ws[i + j + 1]) == xs[j];
    }
  }

  lemma WindowReads(ws: seq<bv64>, size: nat, at: nat, xs: seq<bv64>)
    requires at + 64 <= size <= 8 * |ws| && ReadsAt(Reader(ws), at, xs)
    ensures Reads(Written(ws)[..size][at..at + 64], xs)
  {
    forall j | 0 <= j < 8 ensures ReadLE64(Written(ws)[..size][at..at + 64], 8 * j) == xs[j] {
      PrefixWindow(Written(ws), size, at, 8 * j, at + 8 * j);
      assert Reader(ws)(at + 8 * j) == xs[j];
    }
  }

  /** A window that starts at a word. */
  lemma AlignedReads(ws: seq<bv64>, size: nat, i: nat, at: nat)
    requires at == 8 * i && at + 64 <= size <= 8 * |ws|
    ensures Reads(Written(ws)[..size][at..at + 64], ws[i..i + 8])
  {
    ReaderReads(ws);
    AlignedBy(Reader(ws), ws, i, at);
    WindowReads(ws, size, at, ws[i..i + 8]);
  }

  // ----- one stripe, by words -----

  /** The words of the secret that stripe `i` is read against. */
  function KeyWords(i: nat): (ws: seq<bv64>)
    requires i < 8
    ensures |ws| == 8
  {
    WORDS_FRONT[i..] + WORDS_MIDDLE[..i]
  }

  function EvenLane(acc: bv64, x: bv64, y: bv64, neighbour: bv64): bv64 {
    Add64(Add64(acc, KeyedProduct(x, y)), neighbour)
  }

  function OddLane(acc: bv64, x: bv64, y: bv64, neighbour: bv64): bv64 {
    Add64(Add64(acc, neighbour), KeyedProduct(x, y))
  }

  lemma LanesListed<T>(add: (T, T) -> T, a: seq<T>, x: seq<T>, p: seq<T>)
    requires |a| == |x| == |p| == 8
    ensures AccumulatedLanes(add, a, x, p) == [
      add(add(a[0], p[0]), x[1]), add(add(a[1], x[0]), p[1]), add(add(a[2], p[2]), x[3]), add(add(a[3], x[2]), p[3]),
      add(add(a[4], p[4]), x[5]), add(add(a[5], x[4]), p[5]), add(add(a[6], p[6]), x[7]), add(add(a[7], x[6]), p[7])]
  {
  }

  lemma WordsListed(s: seq<Byte>, x: seq<bv64>, k: seq<Byte>, y: seq<bv64>)
    requires Reads(s, x) && Reads(k, y)
    ensures Inputs(s) == x
    ensures |Products(s, k)| == 8 && forall i :: 0 <= i < 8 ==> Products(s, k)[i] == KeyedProduct(x[i], y[i])
  {
  }

  function AccumulatedWords(a: Acc, x: seq<bv64>, y: seq<bv64>): Acc
    requires |a| == |x| == |y| == 8
  {
    [EvenLane(a[0], x[0], y[0], x[1]), OddLane(a[1], x[1], y[1], x[0]),
     EvenLane(a[2], x[2], y[2], x[3]), OddLane(a[3], x[3], y[3], x[2]),
     EvenLane(a[4], x[4], y[4], x[5]), OddLane(a[5], x[5], y[5], x[4]),
     EvenLane(a[6], x[6], y[6], x[7]), OddLane(a[7], x[7], y[7], x[6])]
  }

  lemma Accumulated(a: Acc, s: seq<Byte>, x: seq<bv64>, k: seq<Byte>, y: seq<bv64>)
    requires |a| == 8 && Reads(s, x) && Reads(k, y)
    ensures Accumulate512(a, s, k) == AccumulatedWords(a, x, y)
  {
    WordsListed(s, x, k, y);
    LanesListed(Add64, a, Inputs(s), Products(s, k));
  }

  lemma Lanes0()
    ensures AccumulatedWords(ACC_0, DATA_0, KeyWords(0)) == ACC_1
  {
  }

  lemma Lanes1()
    ensures AccumulatedWords(ACC_1, DATA_1, KeyWords(1)) == ACC_2
  {
  }

  lemma Lanes2()
    ensures AccumulatedWords(ACC_2, DATA_2, KeyWords(2)) == ACC_3
  {
  }

  lemma Lanes3()
    ensures AccumulatedWords(ACC_3, DATA_3, KeyWords(3)) == ACC_4
  {
  }

  lemma Lanes4()
    ensures AccumulatedWords(ACC_4, DATA_4, KeyWords(4)) == ACC_5
  {
  }

  lemma Lanes5()
    ensures AccumulatedWords(ACC_5, DATA_5, KeyWords(5)) == ACC_6
  {
  }

  lemma Lanes6()
    ensures AccumulatedWords(ACC_6, LAST_DATA, LAST_SECRET) == ACC_7
  {
  }

  // ----- the windows of the sample and of the secret -----

  function DataWords(): seq<bv64> {
    DATA_0 + DATA_1 + DATA_2 + DATA_3 + DATA_4 + DATA_5 + DATA_6
  }

  lemma SevenParts(a: seq<bv64>, b: seq<bv64>, c: seq<bv64>, d: seq<bv64>, e: seq<bv64>, f: seq<bv64>, g: seq<bv64>)
    requires |a| == |b| == |c| == |d| == |e| == |f| == 8 && |g| == 3
    ensures var ws := a + b + c + d + e + f + g;
            && |ws| == 51 && ws[0..8] == a && ws[8..16] == b && ws[16..24] == c && ws[24..32] == d && ws[32..40] == e
            && ws[40..48] == f && ws[48..51] == g
  {
  }

  lemma DataParts()
    ensures var ws := DataWords();
            && |ws| == 51 && ws[0..8] == DATA_0 && ws[8..16] == DATA_1 && ws[16..24] == DATA_2 && ws[24..32] == DATA_3
            && ws[32..40] == DATA_4 && ws[40..48] == DATA_5 && ws[48..51] == DATA_6
  {
    SevenParts(DATA_0, DATA_1, DATA_2, DATA_3, DATA_4, DATA_5, DATA_6);
  }

  lemma DataReads(i: nat, at: nat, x: seq<bv64>)
    requires i <= 40 && at == 8 * i && |DataWords()| == 51 && DataWords()[i..i + 8] == x
    ensures Reads(Stripe(Sample(), at), x)
  {
    AlignedReads(DataWords(), 403, i, at);
  }

  lemma KeyWindow(i: nat)
    requires i < 8
    ensures SECRET_WORDS[i..i + 8] == KeyWords(i)
  {
  }

  lemma SecretReads(i: nat, at: nat)
    requires i < 8 && at == 8 * i
    ensures |DEFAULT_SECRET| == 192 && Reads(Stripe(DEFAULT_SECRET, at), KeyWords(i))
  {
    KeyWindow(i);
    SecretWritten();
    assert Written(SECRET_WORDS)[..192] == Written(SECRET_WORDS);
    AlignedReads(SECRET_WORDS, 192, i, at);
  }

  lemma LastDataValues(across: (bv64, bv64) -> bv64)
    requires across == AcrossFrom(3)
    ensures across(0x062F916DF890DF10, 0xD8DBF6DF5B48B378) == 0x48B378062F916DF8
    ensures across(0xD8DBF6DF5B48B378, 0x024C4089A5AEA77C) == 0xAEA77CD8DBF6DF5B
    ensures across(0x024C4089A5AEA77C, 0x957963DD9FF02073) == 0xF02073024C4089A5
    ensures across(0x957963DD9FF02073, 0x22E02F6F7EC403B1) == 0xC403B1957963DD9F
    ensures across(0x22E02F6F7EC403B1, 0x359D6E66E988D4F6) == 0x88D4F622E02F6F7E
    ensures across(0x359D6E66E988D4F6, 0xD5CF1A4F1B41BD19) == 0x41BD19359D6E66E9
    ensures across(0xD5CF1A4F1B41BD19, 0x8D8F1FF04900B078) == 0x00B078D5CF1A4F1B
    ensures across(0x8D8F1FF04900B078, 0x0000000000BC14F6) == 0xBC14F68D8F1FF049
  {
  }

  lemma LastSecretValues(across: (bv64, bv64) -> bv64)
    requires across == AcrossFrom(1)
    ensures across(0x647378D9C97E9FC8, 0xC3EBD33483ACC5EA) == 0xEA647378D9C97E9F
    ensures across(0xC3EBD33483ACC5EA, 0xEB6313FAFFA081C5) == 0xC5C3EBD33483ACC5
    ensures across(0xEB6313FAFFA081C5, 0x49DAF0B751DD0D17) == 0x17EB6313FAFFA081
    ensures across(0x49DAF0B751DD0D17, 0x9E68D429265516D3) == 0xD349DAF0B751DD0D
    ensures across(0x9E68D429265516D3, 0xFCA1477D58BE162B) == 0x2B9E68D429265516
    ensures across(0xFCA1477D58BE162B, 0xCE31D07AD1B8F88F) == 0x8FFCA1477D58BE16
    ensures across(0xCE31D07AD1B8F88F, 0x280416958F3ACB45) == 0x45CE31D07AD1B8F8
    ensures across(0x280416958F3ACB45, 0x7E404BBBCAFBD7AF) == 0xAF280416958F3ACB
  {
  }

  lemma LowSecretValues(across: (bv64, bv64) -> bv64)
    requires across == AcrossFrom(3)
    ensures across(0x1CAD21F72C81017C, 0xDB979083E96DD4DE) == 0x6DD4DE1CAD21F72C
    ensures across(0xDB979083E96DD4DE, 0x1F67B3B7A4A44072) == 0xA44072DB979083E9
    ensures across(0x1F67B3B7A4A44072, 0x78E5C0CC4EE679CB) == 0xE679CB1F67B3B7A4
    ensures across(0x78E5C0CC4EE679CB, 0x2172FFCC7DD05A82) == 0xD05A8278E5C0CC4E
    ensures across(0x2172FFCC7DD05A82, 0x8E2443F7744608B8) == 0x4608B82172FFCC7D
    ensures across(0x8E2443F7744608B8, 0x4C263A81E69035E0) == 0x9035E08E2443F774
    ensures across(0x4C263A81E69035E0, 0xCB00C391BB52283C) == 0x52283C4C263A81E6
    ensures across(0xCB00C391BB52283C, 0xA32E531B8B65D088) == 0x65D088CB00C391BB
  {
  }

  lemma HighSecretValues(across: (bv64, bv64) -> bv64)
    requires across == AcrossFrom(5)
    ensures across(0x3159B4CD4BE0518A, 0x647378D9C97E9FC8) == 0xD9C97E9FC83159B4
    ensures across(0x647378D9C97E9FC8, 0xC3EBD33483ACC5EA) == 0x3483ACC5EA647378
    ensures across(0xC3EBD33483ACC5EA, 0xEB6313FAFFA081C5) == 0xFAFFA081C5C3EBD3
    ensures across(0xEB6313FAFFA081C5, 0x49DAF0B751DD0D17) == 0xB751DD0D17EB6313
    ensures across(0x49DAF0B751DD0D17, 0x9E68D429265516D3) == 0x29265516D349DAF0
    ensures across(0x9E68D429265516D3, 0xFCA1477D58BE162B) == 0x7D58BE162B9E68D4
    ensures across(0xFCA1477D58BE162B, 0xCE31D07AD1B8F88F) == 0x7AD1B8F88FFCA147
    ensures across(0xCE31D07AD1B8F88F, 0x280416958F3ACB45) == 0x958F3ACB45CE31D0
  {
  }

  lemma LastSecretListed(across: (bv64, bv64) -> bv64)
    requires across(0x647378D9C97E9FC8, 0xC3EBD33483ACC5EA) == 0xEA647378D9C97E9F
    requires across(0xC3EBD33483ACC5EA, 0xEB6313FAFFA081C5) == 0xC5C3EBD33483ACC5
    requires across(0xEB6313FAFFA081C5, 0x49DAF0B751DD0D17) == 0x17EB6313FAFFA081
    requires across(0x49DAF0B751DD0D17, 0x9E68D429265516D3) == 0xD349DAF0B751DD0D
    requires across(0x9E68D429265516D3, 0xFCA1477D58BE162B) == 0x2B9E68D429265516
    requires across(0xFCA1477D58BE162B, 0xCE31D07AD1B8F88F) == 0x8FFCA1477D58BE16
    requires across(0xCE31D07AD1B8F88F, 0x280416958F3ACB45) == 0x45CE31D07AD1B8F8
    requires across(0x280416958F3ACB45, 0x7E404BBBCAFBD7AF) == 0xAF280416958F3ACB
    ensures |SECRET_WORDS| == 24 && forall j :: 0 <= j < 8 ==>
      across(SECRET_WORDS[15 + j], SECRET_WORDS[15 + j + 1]) == LAST_SECRET[j]
  {
  }

  lemma LowSecretListed(across: (bv64, bv64) -> bv64)
    requires across(0x1CAD21F72C81017C, 0xDB979083E96DD4DE) == 0x6DD4DE1CAD21F72C
    requires across(0xDB979083E96DD4DE, 0x1F67B3B7A4A44072) == 0xA44072DB979083E9
    requires across(0x1F67B3B7A4A44072, 0x78E5C0CC4EE679CB) == 0xE679CB1F67B3B7A4
    requires across(0x78E5C0CC4EE679CB, 0x2172FFCC7DD05A82) == 0xD05A8278E5C0CC4E
    requires across(0x2172FFCC7DD05A82, 0x8E2443F7744608B8) == 0x4608B82172FFCC7D
    requires across(0x8E2443F7744608B8, 0x4C263A81E69035E0) == 0x9035E08E2443F774
    requires across(0x4C263A81E69035E0, 0xCB00C391BB52283C) == 0x52283C4C263A81E6
    requires across(0xCB00C391BB52283C, 0xA32E531B8B65D088) == 0x65D088CB00C391BB
    ensures |SECRET_WORDS| == 24 && forall j :: 0 <= j < 8 ==>
      across(SECRET_WORDS[1 + j], SECRET_WORDS[1 + j + 1]) == LOW_SECRET[j]
  {
  }

  lemma HighSecretListed(across: (bv64, bv64) -> bv64)
    requires across(0x3159B4CD4BE0518A, 0x647378D9C97E9FC8) == 0xD9C97E9FC83159B4
    requires across(0x647378D9C97E9FC8, 0xC3EBD33483ACC5EA) == 0x3483ACC5EA647378
    requires across(0xC3EBD33483ACC5EA, 0xEB6313FAFFA081C5) == 0xFAFFA081C5C3EBD3
    requires across(0xEB6313FAFFA081C5, 0x49DAF0B751DD0D17) == 0xB751DD0D17EB6313
    requires across(0x49DAF0B751DD0D17, 0x9E68D429265516D3) == 0x29265516D349DAF0
    requires across(0x9E68D429265516D3, 0xFCA1477D58BE162B) == 0x7D58BE162B9E68D4
    requires across(0xFCA1477D58BE162B, 0xCE31D07AD1B8F88F) == 0x7AD1B8F88FFCA147
    requires across(0xCE31D07AD1B8F88F, 0x280416958F3ACB45) == 0x958F3ACB45CE31D0
    ensures |SECRET_WORDS| == 24 && forall j :: 0 <= j < 8 ==>
      across(SECRET_WORDS[14 + j], SECRET_WORDS[14 + j + 1]) == HIGH_SECRET[j]
  {
  }

  lemma LastDataListed(across: (bv64, bv64) -> bv64)
    requires across(0x062F916DF890DF10, 0xD8DBF6DF5B48B378) == 0x48B378062F916DF8
    requires across(0xD8DBF6DF5B48B378, 0x024C4089A5AEA77C) == 0xAEA77CD8DBF6DF5B
    requires across(0x024C4089A5AEA77C, 0x957963DD9FF02073) == 0xF02073024C4089A5
    requires across(0x957963DD9FF02073, 0x22E02F6F7EC403B1) == 0xC403B1957963DD9F
    requires across(0x22E02F6F7EC403B1, 0x359D6E66E988D4F6) == 0x88D4F622E02F6F7E
    requires across(0x359D6E66E988D4F6, 0xD5CF1A4F1B41BD19) == 0x41BD19359D6E66E9
    requires across(0xD5CF1A4F1B41BD19, 0x8D8F1FF04900B078) == 0x00B078D5CF1A4F1B
    requires across(0x8D8F1FF04900B078, 0x0000000000BC14F6) == 0xBC14F68D8F1FF049
    ensures |DataWords()| == 51 && forall j :: 0 <= j < 8 ==>
      across(DataWords()[42 + j], DataWords()[42 + j + 1]) == LAST_DATA[j]
  {
  }

  lemma DataWindow(i: nat, r: nat, at: nat, across: (bv64, bv64) -> bv64, xs: seq<bv64>)
    requires |DataWords()| == 51 && r <= 8 && at == 8 * i + r && at + 64 <= 403 && i + 9 <= 51 && |xs| == 8
    requires across == AcrossFrom(r)
    requires forall j :: 0 <= j < 8 ==> across(DataWords()[i + j], DataWords()[i + j + 1]) == xs[j]
    ensures Reads(Stripe(Sample(), at), xs)
  {
    var ws := DataWords();
    ReaderStraddles(ws, r);
    AcrossBy(Reader(ws), across, ws, i, r, at, xs);
    WindowReads(ws, 403, at, xs);
  }

  lemma LastDataReads()
    ensures Reads(Stripe(Sample(), 339), LAST_DATA)
  {
    LastDataValues(AcrossFrom(3));
    LastDataListed(AcrossFrom(3));
    DataWindow(42, 3, 339, AcrossFrom(3), LAST_DATA);
  }

  lemma SecretWindow(i: nat, r: nat, at: nat, across: (bv64, bv64) -> bv64, xs: seq<bv64>)
    requires r <= 8 && at == 8 * i + r && at + 64 <= 192 && i + 9 <= 24 && |xs| == 8 && across == AcrossFrom(r)
    requires forall j :: 0 <= j < 8 ==> across(SECRET_WORDS[i + j], SECRET_WORDS[i + j + 1]) == xs[j]
    ensures |DEFAULT_SECRET| == 192 && Reads(Stripe(DEFAULT_SECRET, at), xs)
  {
    SecretWritten();
    assert Written(SECRET_WORDS)[..192] == Written(SECRET_WORDS);
    ReaderStraddles(SECRET_WORDS, r);
    AcrossBy(Reader(SECRET_WORDS), across, SECRET_WORDS, i, r, at, xs);
    WindowReads(SECRET_WORDS, 192, at, xs);
  }

  lemma LastSecretReads()
    ensures |DEFAULT_SECRET| == 192 && Reads(Stripe(DEFAULT_SECRET, 121), LAST_SECRET)
  {
    LastSecretValues(AcrossFrom(1));
    LastSecretListed(AcrossFrom(1));
    SecretWindow(15, 1, 121, AcrossFrom(1), LAST_SECRET);
  }

  lemma LowSecretReads()
    ensures |DEFAULT_SECRET| == 192 && Reads(Stripe(DEFAULT_SECRET, 11), LOW_SECRET)
  {
    LowSecretValues(AcrossFrom(3));
    LowSecretListed(AcrossFrom(3));
    SecretWindow(1, 3, 11, AcrossFrom(3), LOW_SECRET);
  }

  lemma HighSecretReads()
    ensures |DEFAULT_SECRET| == 192 && Reads(Stripe(DEFAULT_SECRET, 117), HIGH_SECRET)
  {
    HighSecretValues(AcrossFrom(5));
    HighSecretListed(AcrossFrom(5));
    SecretWindow(14, 5, 117, AcrossFrom(5), HIGH_SECRET);
  }

  // ----- the merges -----

  lemma MixedStep(fold: (bv64, bv64) -> bv64, acc: Acc, s: seq<Byte>, ws: seq<bv64>, start: bv64, j: nat)
    requires |acc| == 8 && Reads(s, ws) && j < 4
    ensures Xxh3Scalar.Mixed(fold, acc, s, start, j + 1) ==
      Plus(Xxh3Scalar.Mixed(fold, acc, s, start, j),
           fold(Xor(acc[2 * j], ws[2 * j]), Xor(acc[2 * j + 1], ws[2 * j + 1])))
  {
    assert ReadLE64(s, 8 * (2 * j)) == ws[2 * j] && ReadLE64(s, 8 * (2 * j + 1)) == ws[2 * j + 1];
    assert 8 * (2 * j) == 16 * j && 8 * (2 * j + 1) == 16 * j + 8;
  }

  lemma MixedListed(fold: (bv64, bv64) -> bv64, acc: Acc, s: seq<Byte>, ws: seq<bv64>, start: bv64)
    requires |acc| == 8 && Reads(s, ws)
    ensures Xxh3Scalar.Mixed(fold, acc, s, start, 4) ==
      Plus(Plus(Plus(Plus(start, fold(Xor(acc[0], ws[0]), Xor(acc[1], ws[1]))),
                     fold(Xor(acc[2], ws[2]), Xor(acc[3], ws[3]))),
                fold(Xor(acc[4], ws[4]), Xor(acc[5], ws[5]))),
           fold(Xor(acc[6], ws[6]), Xor(acc[7], ws[7])))
  {
    MixedStep(fold, acc, s, ws, start, 0);
    MixedStep(fold, acc, s, ws, start, 1);
    MixedStep(fold, acc, s, ws, start, 2);
    MixedStep(fold, acc, s, ws, start, 3);
  }

  lemma MergeIs(acc: Acc, s: seq<Byte>, start: nat, b: bv64, h: bv64, r: bv64)
    requires |acc| == 8 && start < TWO64 && Start(start) == b && Xxh3Scalar.Mixed(FoldedProduct, acc, s, b, 4) == h
    requires Avalanche(h) == r
    ensures MergeAccs(acc, s, start) == r
  {
  }

  lemma Folds(x: bv64, y: bv64, a: nat, b: nat, low: nat, high: nat, r: bv64)
    requires a < TWO64 && b < TWO64 && low < TWO64 && high < TWO64
    requires Word(x) == a && Word(y) == b && a * b == high * TWO64 + low && Joined(low, high) == r
    ensures FoldedProduct(x, y) == r
  {
    Mult128.Halves(low, high, a * b);
  }

  lemma LowFolds(fold: (bv64, bv64) -> bv64)
    requires fold == FoldedProduct
    ensures fold(0xF5B3F030B4935EE7, 0x53FCCF0F36D2CA46) == 0xD71351846F727B36
    ensures fold(0x686AF40A0A4297F9, 0xF91960809E12A340) == 0xD459F7297E86A2A9
    ensures fold(0x30C4BEAC0F064061, 0x3C2B2A3F706573EE) == 0x751FAFFE2A88E63C
    ensures fold(0x098EF4F7C6D82D17, 0x0E75D5D572003EA1) == 0x2526CA84CAFCB43C
  {
    Folds(0xF5B3F030B4935EE7, 0x53FCCF0F36D2CA46, 0xF5B3F030B4935EE7, 0x53FCCF0F36D2CA46,
          0x8788AB3F3CAC392A, 0x509BFABB53DE421C, 0xD71351846F727B36);
    Folds(0x686AF40A0A4297F9, 0xF91960809E12A340, 0x686AF40A0A4297F9, 0xF91960809E12A340,
          0xB1C3960554EB8940, 0x659A612C2A6D2BE9, 0xD459F7297E86A2A9);
    Folds(0x30C4BEAC0F064061, 0x3C2B2A3F706573EE, 0x30C4BEAC0F064061, 0x3C2B2A3F706573EE,
          0x7E69FA369D006D2E, 0x0B7655C8B7888B12, 0x751FAFFE2A88E63C);
    Folds(0x098EF4F7C6D82D17, 0x0E75D5D572003EA1, 0x098EF4F7C6D82D17, 0x0E75D5D572003EA1,
          0x25ACFD33A6DFED77, 0x008A37B76C23594B, 0x2526CA84CAFCB43C);
  }

  lemma LowMixed(fold: (bv64, bv64) -> bv64, s: seq<Byte>)
    requires Reads(s, LOW_SECRET)
    requires fold(0xF5B3F030B4935EE7, 0x53FCCF0F36D2CA46) == 0xD71351846F727B36
    requires fold(0x686AF40A0A4297F9, 0xF91960809E12A340) == 0xD459F7297E86A2A9
    requires fold(0x30C4BEAC0F064061, 0x3C2B2A3F706573EE) == 0x751FAFFE2A88E63C
    requires fold(0x098EF4F7C6D82D17, 0x0E75D5D572003EA1) == 0x2526CA84CAFCB43C
    ensures Xxh3Scalar.Mixed(fold, ACC_7, s, 0x11549275D22FD285, 4) == 0x570855A6B5AE8ADC
  {
    MixedListed(fold, ACC_7, s, LOW_SECRET, 0x11549275D22FD285);
  }

  lemma LowFolded(s: seq<Byte>)
    requires Reads(s, LOW_SECRET)
    ensures Xxh3Scalar.Mixed(FoldedProduct, ACC_7, s, 0x11549275D22FD285, 4) == 0x570855A6B5AE8ADC
  {
    LowFolds(FoldedProduct);
    LowMixed(FoldedProduct, s);
  }

  lemma LowEnd()
    ensures Avalanche(0x570855A6B5AE8ADC) == 0xCDEB804D65C6DEA4 && Start(0x11549275D22FD285) == 0x11549275D22FD285
  {
  }

  lemma LowMerged(acc: Acc, s: seq<Byte>, start: nat)
    requires acc == ACC_7 && Reads(s, LOW_SECRET) && start == 0x11549275D22FD285
    ensures MergeAccs(acc, s, start) == 0xCDEB804D65C6DEA4
  {
    LowFolded(s);
    LowEnd();
    MergeIs(acc, s, start, 0x11549275D22FD285, 0x570855A6B5AE8ADC, 0xCDEB804D65C6DEA4);
  }

  lemma HighFolds(fold: (bv64, bv64) -> bv64)
    requires fold == FoldedProduct
    ensures fold(0x41AE50B3D183F07F, 0xC33F11114B263AD7) == 0xDBAA59491A2AFD89
    ensures fold(0x74EC9F94A832CB8E, 0x9E123FF56C390C1D) == 0x4A3ACD99E282EA7E
    ensures fold(0x5FEA539BAEB056EC, 0xD14674A77FB8EC4E) == 0x90931842B2B552BC
    ensures fold(0x217770436F1E0DB6, 0xFE2A67D5370D9ECA) == 0x8E0FE33F476522D6
  {
    Folds(0x41AE50B3D183F07F, 0xC33F11114B263AD7, 0x41AE50B3D183F07F, 0xC33F11114B263AD7,
          0xE9BDACF6C225C0A9, 0x3217F5BFD80F3D20, 0xDBAA59491A2AFD89);
    Folds(0x74EC9F94A832CB8E, 0x9E123FF56C390C1D, 0x74EC9F94A832CB8E, 0x9E123FF56C390C1D,
          0x0208ADCEA9E9B716, 0x483260574B6B5D68, 0x4A3ACD99E282EA7E);
    Folds(0x5FEA539BAEB056EC, 0xD14674A77FB8EC4E, 0x5FEA539BAEB056EC, 0xD14674A77FB8EC4E,
          0xDEFBAC4B577C0BE8, 0x4E68B409E5C95954, 0x90931842B2B552BC);
    Folds(0x217770436F1E0DB6, 0xFE2A67D5370D9ECA, 0x217770436F1E0DB6, 0xFE2A67D5370D9ECA,
          0xAF35EFB1066B259C, 0x213A0C8E410E074A, 0x8E0FE33F476522D6);
  }

  lemma HighMixed(fold: (bv64, bv64) -> bv64, s: seq<Byte>)
    requires Reads(s, HIGH_SECRET)
    requires fold(0x41AE50B3D183F07F, 0xC33F11114B263AD7) == 0xDBAA59491A2AFD89
    requires fold(0x74EC9F94A832CB8E, 0x9E123FF56C390C1D) == 0x4A3ACD99E282EA7E
    requires fold(0x5FEA539BAEB056EC, 0xD14674A77FB8EC4E) == 0x90931842B2B552BC
    requires fold(0x217770436F1E0DB6, 0xFE2A67D5370D9ECA) == 0x8E0FE33F476522D6
    ensures Xxh3Scalar.Mixed(fold, ACC_7, s, 0x80B7B5BA4BD192A2, 4) == 0xC53FD81F4299F03B
  {
    MixedListed(fold, ACC_7, s, HIGH_SECRET, 0x80B7B5BA4BD192A2);
  }

  lemma HighFolded(s: seq<Byte>)
    requires Reads(s, HIGH_SECRET)
    ensures Xxh3Scalar.Mixed(FoldedProduct, ACC_7, s, 0x80B7B5BA4BD192A2, 4) == 0xC53FD81F4299F03B
  {
    HighFolds(FoldedProduct);
    HighMixed(FoldedProduct, s);
  }

  lemma HighEnd()
    ensures Avalanche(0xC53FD81F4299F03B) == 0x1B6DE21E332DD73D && Start(0x80B7B5BA4BD192A2) == 0x80B7B5BA4BD192A2
  {
  }

  lemma HighMerged(acc: Acc, s: seq<Byte>, start: nat)
    requires acc == ACC_7 && Reads(s, HIGH_SECRET) && start == 0x80B7B5BA4BD192A2
    ensures MergeAccs(acc, s, start) == 0x1B6DE21E332DD73D
  {
    HighFolded(s);
    HighEnd();
    MergeIs(acc, s, start, 0x80B7B5BA4BD192A2, 0xC53FD81F4299F03B, 0x1B6DE21E332DD73D);
  }

  // ----- the hashes -----

  /** What is read of the sample. */
  ghost predicate SampleRead(data: seq<Byte>) {
    && |data| == 403 && Reads(Stripe(data, 0), DATA_0) && Reads(Stripe(data, 64), DATA_1) &&
       Reads(Stripe(data, 128), DATA_2)
    && Reads(Stripe(data, 192), DATA_3) && Reads(Stripe(data, 256), DATA_4) && Reads(Stripe(data, 320), DATA_5)
    && Reads(Stripe(data, 339), LAST_DATA)
  }

  /** What is read of the secret. */
  ghost predicate SecretRead(secret: seq<Byte>) {
    && |secret| == 192 && Reads(Stripe(secret, 0), KeyWords(0)) && Reads(Stripe(secret, 8), KeyWords(1))
    && Reads(Stripe(secret, 16), KeyWords(2)) && Reads(Stripe(secret, 24), KeyWords(3))
    && Reads(Stripe(secret, 32), KeyWords(4)) && Reads(Stripe(secret, 40), KeyWords(5))
    && Reads(Stripe(secret, 121), LAST_SECRET) && Reads(Stripe(secret, 11), LOW_SECRET) &&
       Reads(Stripe(secret, 117), HIGH_SECRET)
  }

  function Stepping(k: Kernel, secret: seq<Byte>, data: seq<Byte>): (nat, Acc) -> Acc
    requires |secret| == 192 && |data| == 403
  {
    (i: nat, a: Acc) => if i < 6 then Turn(k, secret, data, i, a) else a
  }

  lemma TurnIs(k: Kernel, secret: seq<Byte>, data: seq<Byte>, i: nat, at: nat, from: nat, a: Acc, b: Acc)
    requires |secret| == 192 && i < 6 && |data| == 403 && at == 8 * i && from == 64 * i
    requires k.accumulate512(a, Stripe(data, from), Stripe(secret, at)) == b
    ensures Stepping(k, secret, data)(i, a) == b
  {
    assert PerBlock(secret) == 16;
  }

  lemma Accumulates(k: Kernel, a: Acc, s: seq<Byte>, t: seq<Byte>, b: Acc)
    requires k.accumulate512 == Accumulate512 && Accumulate512(a, s, t) == b
    ensures k.accumulate512(a, s, t) == b
  {
  }

  lemma WordsGive(k: Kernel, a: Acc, s: seq<Byte>, x: seq<bv64>, t: seq<Byte>, y: seq<bv64>, b: Acc)
    requires k.accumulate512 == Accumulate512 && |a| == 8 && Reads(s, x) && Reads(t, y) &&
      AccumulatedWords(a, x, y) == b
    ensures k.accumulate512(a, s, t) == b
  {
    Accumulated(a, s, x, t, y);
    Accumulates(k, a, s, t, b);
  }

  lemma TurnFrom(k: Kernel, secret: seq<Byte>, data: seq<Byte>, i: nat, at: nat, from: nat, a: Acc, x: seq<bv64>,
                 y: seq<bv64>, b: Acc)
    requires k.accumulate512 == Accumulate512 && |secret| == 192 && i < 6 && |data| == 403 && at == 8 * i &&
      from == 64 * i
    requires |a| == 8 && Reads(Stripe(data, from), x) && Reads(Stripe(secret, at), y) && AccumulatedWords(a, x, y) == b
    ensures Stepping(k, secret, data)(i, a) == b
  {
    WordsGive(k, a, Stripe(data, from), x, Stripe(secret, at), y, b);
    TurnIs(k, secret, data, i, at, from, a, b);
  }

  /** Six steps of any kind, one after another. */
  lemma SixSteps<T>(step: (nat, T) -> T, a: seq<T>)
    requires |a| == 7 && step(0, a[0]) == a[1] && step(1, a[1]) == a[2] && step(2, a[2]) == a[3]
    requires step(3, a[3]) == a[4] && step(4, a[4]) == a[5] && step(5, a[5]) == a[6]
    ensures forall i: nat {:trigger step(i, a[i])} :: i < 6 ==> a[i + 1] == step(i, a[i])
  {
  }

  const ACCS: seq<Acc> := [ACC_0, ACC_1, ACC_2, ACC_3, ACC_4, ACC_5, ACC_6]

  lemma SteppingTurns(k: Kernel, secret: seq<Byte>, data: seq<Byte>, a: seq<Acc>)
    requires |secret| == 192 && |data| == 403 && |a| == 7 && a[0] == k.initAcc
    requires forall i: nat {:trigger Stepping(k, secret, data)(i, a[i])} ::
      i < 6 ==> a[i + 1] == Stepping(k, secret, data)(i, a[i])
    ensures Turns(k, secret, data, a)
  {
    forall i: nat | i + 1 < |a| ensures a[i + 1] == Turn(k, secret, data, i, a[i]) {
      assert a[i + 1] == Stepping(k, secret, data)(i, a[i]);
    }
  }

  lemma StepsTurn(k: Kernel, secret: seq<Byte>, data: seq<Byte>)
    requires k.initAcc == INIT_ACC && |secret| == 192 && |data| == 403
    requires Stepping(k, secret, data)(0, ACC_0) == ACC_1 && Stepping(k, secret, data)(1, ACC_1) == ACC_2
    requires Stepping(k, secret, data)(2, ACC_2) == ACC_3 && Stepping(k, secret, data)(3, ACC_3) == ACC_4
    requires Stepping(k, secret, data)(4, ACC_4) == ACC_5 && Stepping(k, secret, data)(5, ACC_5) == ACC_6
    ensures Turns(k, secret, data, ACCS)
  {
    SixSteps(Stepping(k, secret, data), ACCS);
    SteppingTurns(k, secret, data, ACCS);
  }

  lemma FirstTurns(k: Kernel, secret: seq<Byte>, data: seq<Byte>)
    requires k.accumulate512 == Accumulate512 && SecretRead(secret) && SampleRead(data)
    ensures Stepping(k, secret, data)(0, ACC_0) == ACC_1 && Stepping(k, secret, data)(1, ACC_1) == ACC_2
    ensures Stepping(k, secret, data)(2, ACC_2) == ACC_3
  {
    Lanes0();
    TurnFrom(k, secret, data, 0, 0, 0, ACC_0, DATA_0, KeyWords(0), ACC_1);
    Lanes1();
    TurnFrom(k, secret, data, 1, 8, 64, ACC_1, DATA_1, KeyWords(1), ACC_2);
    Lanes2();
    TurnFrom(k, secret, data, 2, 16, 128, ACC_2, DATA_2, KeyWords(2), ACC_3);
  }

  lemma LaterTurns(k: Kernel, secret: seq<Byte>, data: seq<Byte>)
    requires k.accumulate512 == Accumulate512 && SecretRead(secret) && SampleRead(data)
    ensures Stepping(k, secret, data)(3, ACC_3) == ACC_4 && Stepping(k, secret, data)(4, ACC_4) == ACC_5
    ensures Stepping(k, secret, data)(5, ACC_5) == ACC_6
  {
    Lanes3();
    TurnFrom(k, secret, data, 3, 24, 192, ACC_3, DATA_3, KeyWords(3), ACC_4);
    Lanes4();
    TurnFrom(k, secret, data, 4, 32, 256, ACC_4, DATA_4, KeyWords(4), ACC_5);
    Lanes5();
    TurnFrom(k, secret, data, 5, 40, 320, ACC_5, DATA_5, KeyWords(5), ACC_6);
  }

  lemma SampleTurns(k: Kernel, secret: seq<Byte>, data: seq<Byte>)
    requires k.initAcc == INIT_ACC && k.accumulate512 == Accumulate512 && SecretRead(secret) && SampleRead(data)
    ensures Turns(k, secret, data, ACCS)
  {
    FirstTurns(k, secret, data);
    LaterTurns(k, secret, data);
    StepsTurn(k, secret, data);
  }

  lemma SampleLastTurn(k: Kernel, secret: seq<Byte>, data: seq<Byte>)
    requires k.accumulate512 == Accumulate512 && SecretRead(secret) && SampleRead(data)
    ensures LastTurn(k, secret, data, ACC_6) == ACC_7
  {
    Lanes6();
    WordsGive(k, ACC_6, Stripe(data, 339), LAST_DATA, Stripe(secret, 121), LAST_SECRET, ACC_7);
    assert data[|data| - 64..] == Stripe(data, 339);
  }

  lemma HalvesAre(k: Kernel, secret: seq<Byte>, acc: Acc, len: nat, start: nat, end: nat, low: bv64, high: bv64)
    requires |secret| == 192 && k.merge(acc, Stripe(secret, 11), start) == low &&
      k.merge(acc, Stripe(secret, 117), end) == high
    requires start == len * 0x9E3779B185EBCA87 % 0x1_0000_0000_0000_0000
    requires end == 0xFFFF_FFFF_FFFF_FFFF - len * 0xC2B2AE3D27D4EB4F % 0x1_0000_0000_0000_0000
    ensures LowHalf(k, secret, acc, len) == low && HighHalf(k, secret, acc, len) == high
  {
    assert secret[|secret| - 75..|secret| - 11] == Stripe(secret, 117);
  }

  lemma MergesTo(k: Kernel, acc: Acc, s: seq<Byte>, start: nat, r: bv64)
    requires k.merge == MergeAccs && MergeAccs(acc, s, start) == r
    ensures k.merge(acc, s, start) == r
  {
  }

  lemma SampleMerges(k: Kernel, secret: seq<Byte>, start: nat, end: nat)
    requires k.merge == MergeAccs && |secret| == 192
    requires Reads(Stripe(secret, 11), LOW_SECRET) && Reads(Stripe(secret, 117), HIGH_SECRET)
    requires start == 0x11549275D22FD285 && end == 0x80B7B5BA4BD192A2
    ensures k.merge(ACC_7, Stripe(secret, 11), start) == 0xCDEB804D65C6DEA4
    ensures k.merge(ACC_7, Stripe(secret, 117), end) == 0x1B6DE21E332DD73D
  {
    LowMerged(ACC_7, Stripe(secret, 11), start);
    MergesTo(k, ACC_7, Stripe(secret, 11), start, 0xCDEB804D65C6DEA4);
    HighMerged(ACC_7, Stripe(secret, 117), end);
    MergesTo(k, ACC_7, Stripe(secret, 117), end, 0x1B6DE21E332DD73D);
  }

  lemma Remainder(n: nat, q: nat, r: nat)
    requires r < 0x1_0000_0000_0000_0000 && n == q * 0x1_0000_0000_0000_0000 + r
    ensures n % 0x1_0000_0000_0000_0000 == r
  {
  }

  lemma Starts(len: nat)
    requires len == 403
    ensures 0x11549275D22FD285 == len * 0x9E3779B185EBCA87 % 0x1_0000_0000_0000_0000
    ensures 0x80B7B5BA4BD192A2 == 0xFFFF_FFFF_FFFF_FFFF - len * 0xC2B2AE3D27D4EB4F % 0x1_0000_0000_0000_0000
  {
    Remainder(len * 0x9E3779B185EBCA87, 249, 0x11549275D22FD285);
    Remainder(len * 0xC2B2AE3D27D4EB4F, 306, 0x7F484A45B42E6D5D);
  }

  lemma SampleHalves(k: Kernel, secret: seq<Byte>, start: nat, end: nat)
    requires k.merge == MergeAccs && |secret| == 192 && start == 0x11549275D22FD285 && end == 0x80B7B5BA4BD192A2
    requires Reads(Stripe(secret, 11), LOW_SECRET) && Reads(Stripe(secret, 117), HIGH_SECRET)
    ensures LowHalf(k, secret, ACC_7, 403) == 0xCDEB804D65C6DEA4 &&
      HighHalf(k, secret, ACC_7, 403) == 0x1B6DE21E332DD73D
  {
    SampleMerges(k, secret, start, end);
    Starts(403);
    HalvesAre(k, secret, ACC_7, 403, start, end, 0xCDEB804D65C6DEA4, 0x1B6DE21E332DD73D);
  }

  lemma HashesAre(k: Kernel, data: seq<Byte>, accs: seq<Acc>, acc: Acc, low: bv64, high: bv64)
    requires k.WellFormed() && |data| == 403 && |accs| == 7 && Turns(k, k.defaultSecret, data, accs)
    requires LastTurn(k, k.defaultSecret, data, accs[6]) == acc
    requires LowHalf(k, k.defaultSecret, acc, 403) == low && HighHalf(k, k.defaultSecret, acc, 403) == high
    ensures OneShot64(k, Default, data) == low && OneShot128(k, Default, data) == Hash128(low, high)
  {
    LongExactly(k, Default, data, accs);
  }

  lemma KnownOver(k: Kernel, secret: seq<Byte>, data: seq<Byte>)
    requires k.initAcc == INIT_ACC && k.accumulate512 == Accumulate512 && k.merge == MergeAccs
    requires k.WellFormed() && k.defaultSecret == secret && SecretRead(secret) && SampleRead(data)
    ensures OneShot64(k, Default, data) == 0xCDEB804D65C6DEA4
    ensures OneShot128(k, Default, data) == Hash128(0xCDEB804D65C6DEA4, 0x1B6DE21E332DD73D)
  {
    SampleTurns(k, secret, data);
    SampleLastTurn(k, secret, data);
    SampleHalves(k, secret, 0x11549275D22FD285, 0x80B7B5BA4BD192A2);
    HashesAre(k, data, ACCS, ACC_7, 0xCDEB804D65C6DEA4, 0x1B6DE21E332DD73D);
  }

  lemma FirstReads()
    ensures Reads(Stripe(Sample(), 0), DATA_0) && Reads(Stripe(Sample(), 64), DATA_1) &&
      Reads(Stripe(Sample(), 128), DATA_2)
  {
    DataParts();
    DataReads(0, 0, DATA_0);
    DataReads(8, 64, DATA_1);
    DataReads(16, 128, DATA_2);
  }

  lemma LaterReads()
    ensures Reads(Stripe(Sample(), 192), DATA_3) && Reads(Stripe(Sample(), 256), DATA_4) &&
      Reads(Stripe(Sample(), 320), DATA_5)
  {
    DataParts();
    DataReads(24, 192, DATA_3);
    DataReads(32, 256, DATA_4);
    DataReads(40, 320, DATA_5);
  }

  lemma SampleReads()
    ensures SampleRead(Sample())
  {
    FirstReads();
    LaterReads();
    LastDataReads();
  }

  lemma DefaultReads()
    ensures SecretRead(DEFAULT_SECRET)
  {
    SecretReads(0, 0);
    SecretReads(1, 8);
    SecretReads(2, 16);
    SecretReads(3, 24);
    SecretReads(4, 32);
    SecretReads(5, 40);
    LastSecretReads();
    LowSecretReads();
    HighSecretReads();
  }

  /** XXH3_64bits and XXH3_128bits of the sample. */
  lemma KnownAnswers(short64: (seq<Byte>, seq<Byte>, bv64) -> bv64,
                     short128: (seq<Byte>, seq<Byte>, bv64) -> Hash128)
    ensures OneShot64(Scalar(short64, short128), Default, Sample()) == 0xCDEB804D65C6DEA4
    ensures OneShot128(Scalar(short64, short128), Default, Sample()) == Hash128(0xCDEB804D65C6DEA4, 0x1B6DE21E332DD73D)
  {
    SampleReads();
    DefaultReads();
    KnownOver(Scalar(short64, short128), DEFAULT_SECRET, Sample());
  }

}
