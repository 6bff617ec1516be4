/** The texts of checksum lines, apart from the code that prints and parses them. */
module ChecksumGrammar {
  import opened Bytes
  import opened ChecksumLine
  import opened Options

  const LOWER: seq<Byte> := [
    0x30, 0x31, 0x32, 0x33, 0x34, 0x35, 0x36, 0x37, 0x38, 0x39, 0x61, 0x62, 0x63, 0x64, 0x65, 0x66]
  const UPPER: seq<Byte> := [
    0x30, 0x31, 0x32, 0x33, 0x34, 0x35, 0x36, 0x37, 0x38, 0x39, 0x41, 0x42, 0x43, 0x44, 0x45, 0x46]

  predicate IsDigit(c: Byte, n: nat) {
    n < 16 && (c == LOWER[n] || c == UPPER[n])
  }

  /** Two digits of either case for each byte. */
  ghost predicate Writes(hash: seq<Byte>, d: seq<Byte>) {
    && |hash| == 2 * |d|
    && forall i :: 0 <= i < |d| ==> IsDigit(hash[2 * i], d[i] / 16) && IsDigit(hash[2 * i + 1], d[i] % 16)
  }

  predicate Begins(name: seq<Byte>, p: seq<Byte>) {
    |p| <= |name| && name[..|p|] == p
  }

  /** The algorithm that a name begins with; a name that begins with none stands for XXH64. */
  predicate NameOf(name: seq<Byte>, algo: Algo) {
    match algo
    case Xxh128 => Begins(name, [0x58, 0x58, 0x48, 0x31, 0x32, 0x38])
    case Xxh32 => Begins(name, [0x58, 0x58, 0x48, 0x33, 0x32])
    case Xxh3 => Begins(name, [0x58, 0x58, 0x48, 0x33]) && !Begins(name, [0x58, 0x58, 0x48, 0x33, 0x32])
    case Xxh64 => !Begins(name, [0x58, 0x58, 0x48, 0x33]) && !Begins(name, [0x58, 0x58, 0x48, 0x31, 0x32, 0x38])
  }

  predicate LittleEndian(name: seq<Byte>, a: seq<Byte>, b: seq<Byte>) {
    name == a + [0x5F, 0x4C, 0x45] + b
  }

  ghost predicate Marked(name: seq<Byte>) {
    exists a, b :: LittleEndian(name, a, b)
  }

  function Width(algo: Algo): nat {
    match algo
    case Xxh32 => 4
    case Xxh64 => 8
    case Xxh3 => 8
    case Xxh128 => 16
  }

  predicate BsdShape(line: seq<Byte>, name: seq<Byte>, filename: seq<Byte>, hash: seq<Byte>) {
    && 0x20 !in name && 0x20 !in hash
    && line == name + [0x20, 0x28] + filename + [0x29, 0x20, 0x3D, 0x20] + hash
  }

  predicate GnuShape(line: seq<Byte>, hash: seq<Byte>, x: Byte, filename: seq<Byte>) {
    0x20 !in hash && x != 0x28 && line == hash + [0x20, x] + filename
  }

  /** `name (filename) = hash`, where the name says which algorithm and which byte order. */
  ghost predicate BsdFor(line: seq<Byte>, p: Parsed) {
    exists name, hash :: BsdShape(line, name, p.filename, hash) &&
      NameOf(name, p.algo) && |p.digest| == Width(p.algo) &&
      Writes(hash, if Marked(name) then Reversed(p.digest) else p.digest)
  }

  /** `hash`, a space, any byte but a parenthesis, and the file name; the algorithm follows from the length. */
  ghost predicate GnuFor(line: seq<Byte>, p: Parsed, reverse: bool) {
    exists hash, x :: GnuShape(line, hash, x, p.filename) &&
      !p.algo.Xxh3? && |p.digest| == Width(p.algo) && Writes(hash, if reverse then Reversed(p.digest) else p.digest)
  }

  // ----- fields -----

  lemma NamedShape(line: seq<Byte>)
    requires Split(line).Named?
    ensures BsdShape(line, Split(line).name, Split(line).filename, Split(line).hash)
  {
    NamedParts(line, FirstIndex(line, SPACE), LastIndex(line, SPACE));
  }

  lemma ShapeNamed(line: seq<Byte>, name: seq<Byte>, filename: seq<Byte>, hash: seq<Byte>)
    requires BsdShape(line, name, filename, hash)
    ensures Split(line) == Named(name, filename, hash)
  {
    BsdSplit(name, filename, hash);
  }

  lemma NamedExactly(line: seq<Byte>, name: seq<Byte>, filename: seq<Byte>, hash: seq<Byte>)
    ensures Split(line) == Named(name, filename, hash) <==> BsdShape(line, name, filename, hash)
  {
    if BsdShape(line, name, filename, hash) {
      ShapeNamed(line, name, filename, hash);
    } else if Split(line).Named? {
      NamedShape(line);
    }
  }

  lemma NamedParts(line: seq<Byte>, first: nat, last: nat)
    requires first + 5 <= last < |line| && line[first] == 0x20 && line[first + 1] == 0x28
    requires line[last - 3] == 0x29 && line[last - 2] == 0x20 && line[last - 1] == 0x3D && line[last] == 0x20
    ensures line ==
      line[..first] + [0x20, 0x28] + line[first + 2..last - 3] + [0x29, 0x20, 0x3D, 0x20] + line[last + 1..]
  {
    assert line[first..first + 2] == [0x20, 0x28];
    assert line[last - 3..last + 1] == [0x29, 0x20, 0x3D, 0x20];
  }

  lemma PlainExactly(line: seq<Byte>, filename: seq<Byte>, hash: seq<Byte>)
    ensures Split(line) == Plain(filename, hash) <==> exists x :: GnuShape(line, hash, x, filename)
  {
    forall x | GnuShape(line, hash, x, filename) ensures Split(line) == Plain(filename, hash) {
      assert line == hash + [SPACE] + ([x] + filename);
      FirstSpace(hash, [x] + filename);
      assert line[|hash| + 1] == x;
    }
    if Split(line) == Plain(filename, hash) {
      var first := FirstIndex(line, SPACE);
      assert GnuShape(line, hash, line[first + 1], filename);
    }
  }

  // ----- digits -----

  lemma DigitExactly(c: Byte, n: nat)
    ensures IsDigit(c, n) <==> HexValue(c) == n
  {
  }

  lemma PairExactly(a: Byte, b: Byte, v: Byte)
    ensures IsDigit(a, v / 16) && IsDigit(b, v % 16) <==>
      HexValue(a) >= 0 && HexValue(b) >= 0 && 16 * HexValue(a) + HexValue(b) == v
  {
    DigitExactly(a, v / 16);
    DigitExactly(b, v % 16);
  }

  lemma WrittenDigits(hash: seq<Byte>, d: seq<Byte>, j: nat)
    requires Writes(hash, d) && j < |hash|
    ensures HexValue(hash[j]) >= 0
  {
    var i := j / 2;
    PairExactly(hash[2 * i], hash[2 * i + 1], d[i]);
    assert j == 2 * i || j == 2 * i + 1;
  }

  lemma WrittenDecodes(hash: seq<Byte>, d: seq<Byte>)
    requires Writes(hash, d)
    ensures AllHex(hash) && Decode(hash) == d
  {
    forall j | 0 <= j < |hash| ensures HexValue(hash[j]) >= 0 {
      WrittenDigits(hash, d, j);
    }
    DecodedBytes(hash, d);
  }

  lemma DecodedBytes(hash: seq<Byte>, d: seq<Byte>)
    requires Writes(hash, d) && AllHex(hash)
    ensures Decode(hash) == d
  {
    var bytes := Decode(hash);
    forall i | 0 <= i < |d| ensures bytes[i] == d[i] {
      PairExactly(hash[2 * i], hash[2 * i + 1], d[i]);
    }
  }

  lemma DecodedWrites(hash: seq<Byte>)
    requires |hash| % 2 == 0 && AllHex(hash)
    ensures Writes(hash, Decode(hash))
  {
    var d := Decode(hash);
    forall i | 0 <= i < |d| ensures IsDigit(hash[2 * i], d[i] / 16) && IsDigit(hash[2 * i + 1], d[i] % 16) {
      PairExactly(hash[2 * i], hash[2 * i + 1], d[i]);
    }
  }

  lemma ReadExactly(hash: seq<Byte>, filename: seq<Byte>, algo: Algo, reverse: bool, d: seq<Byte>)
    ensures Read(hash, filename, algo, reverse) == Some(Parsed(filename, algo, d)) <==>
      |d| == Width(algo) && Writes(hash, if reverse then Reversed(d) else d)
  {
    var w := if reverse then Reversed(d) else d;
    OrderedAcross(d, reverse, reverse);
    if |d| == Width(algo) && Writes(hash, w) {
      WrittenDecodes(hash, w);
    }
    if Read(hash, filename, algo, reverse) == Some(Parsed(filename, algo, d)) {
      DecodedWrites(hash);
      OrderedAcross(Decode(hash), reverse, reverse);
    }
  }

  // ----- names -----

  lemma BeginsExactly(name: seq<Byte>, p: seq<Byte>)
    ensures Begins(name, p) <==> StartsWith(name, p)
  {
  }

  lemma NameExactly(name: seq<Byte>, algo: Algo)
    ensures NameOf(name, algo) <==> AlgoOfName(name) == algo
  {
    BeginsExactly(name, XXH128_NAME);
    BeginsExactly(name, XXH32_NAME);
    BeginsExactly(name, XXH3_NAME);
    BeginsExactly(name, XXH64_NAME);
    NamesApart(name);
  }

  lemma NamesApart(name: seq<Byte>)
    ensures StartsWith(name, XXH32_NAME) ==> StartsWith(name, XXH3_NAME)
    ensures StartsWith(name, XXH3_NAME) ==> !StartsWith(name, XXH128_NAME) && !StartsWith(name, XXH64_NAME)
    ensures StartsWith(name, XXH64_NAME) ==> !StartsWith(name, XXH128_NAME)
  {
    assert XXH32_NAME[3] == XXH3_NAME[3] == 51 && XXH128_NAME[3] == 49 && XXH64_NAME[3] == 54;
  }

  lemma {:induction false} ContainsCut(s: seq<Byte>, p: seq<Byte>, i: nat) returns (n: nat)
    requires ContainsFrom(s, p, i)
    ensures MatchesAt(s, p, n)
    decreases |s| - i
  {
    if MatchesAt(s, p, i) {
      n := i;
    } else {
      n := ContainsCut(s, p, i + 1);
    }
  }

  lemma MarkedExactly(name: seq<Byte>)
    ensures Marked(name) <==> Contains(name, LE_SUFFIX)
  {
    if Contains(name, LE_SUFFIX) {
      var n := ContainsCut(name, LE_SUFFIX, 0);
      assert name[n..n + 3] == LE_SUFFIX;
      assert LittleEndian(name, name[..n], name[n + 3..]);
    }
    if Marked(name) {
      var a, b :| LittleEndian(name, a, b);
      assert MatchesAt(name, LE_SUFFIX, |a|);
      ContainedAt(name, LE_SUFFIX, 0, |a|);
    }
  }

  // ----- lines -----

  lemma BsdExactly(line: seq<Byte>, reverse: bool, p: Parsed)
    requires Split(line).Named?
    ensures Parse(line, reverse) == Some(p) <==> BsdFor(line, p)
  {
    var Named(name, filename, hash) := Split(line);
    NamedExactly(line, name, filename, hash);
    NameExactly(name, p.algo);
    MarkedExactly(name);
    ReadExactly(hash, filename, p.algo, Marked(name), p.digest);
    forall other, h | BsdShape(line, other, p.filename, h)
      ensures other == name && h == hash && p.filename == filename
    {
      NamedExactly(line, other, p.filename, h);
    }
  }

  lemma GnuExactly(line: seq<Byte>, reverse: bool, p: Parsed)
    requires Split(line).Plain?
    ensures Parse(line, reverse) == Some(p) <==> GnuFor(line, p, reverse)
  {
    var Plain(filename, hash) := Split(line);
    PlainExactly(line, filename, hash);
    ReadExactly(hash, filename, p.algo, reverse, p.digest);
    forall h, x | GnuShape(line, h, x, p.filename) ensures h == hash && p.filename == filename {
      PlainExactly(line, p.filename, h);
    }
  }

  /** XSUM_parseLine, exactly: which lines are read, and as what. */
  lemma ParseExactly(line: seq<Byte>, reverse: bool, p: Parsed)
    ensures Parse(line, reverse) == Some(p) <==> BsdFor(line, p) || GnuFor(line, p, reverse)
  {
    if Split(line).Named? {
      BsdExactly(line, reverse, p);
    }
    if Split(line).Plain? {
      GnuExactly(line, reverse, p);
    }
    forall name, hash | BsdShape(line, name, p.filename, hash) ensures Split(line).Named? {
      NamedExactly(line, name, p.filename, hash);
    }
    forall hash, x | GnuShape(line, hash, x, p.filename) ensures Split(line).Plain? {
      PlainExactly(line, p.filename, hash);
    }
  }

  lemma LowerDigit(n: nat)
    requires n < 16
    ensures HexDigit(n) == LOWER[n]
  {
  }

  lemma HexExactly(d: seq<Byte>, i: nat)
    requires i < |d|
    ensures Hex(d)[2 * i] == LOWER[d[i] / 16] && Hex(d)[2 * i + 1] == LOWER[d[i] % 16]
  {
    LowerDigit(d[i] / 16);
    LowerDigit(d[i] % 16);
  }

  /** What is printed: lower-case digits in the byte order, and for a BSD line a name that says algorithm and order. */
  lemma PrintsExactly(filename: seq<Byte>, algo: Algo, d: seq<Byte>, littleEndian: bool)
    ensures var name, hash := BsdName(algo, littleEndian), Hex(if littleEndian then Reversed(d) else d);
            && (Marked(name) <==> littleEndian) && NameOf(name, algo)
            && BsdShape(BsdLine(filename, algo, d, littleEndian), name, filename, hash)
            && GnuShape(GnuLine(filename, d, littleEndian), hash, 0x20, filename)
  {
    BsdNameReads(algo, littleEndian);
    MarkedExactly(BsdName(algo, littleEndian));
    NameExactly(BsdName(algo, littleEndian), algo);
  }
}
