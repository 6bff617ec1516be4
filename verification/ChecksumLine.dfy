/** The checksum lines of xxhsum: what is printed for a file, and what is read back from a line. */
module ChecksumLine {
  import opened Bytes
  import opened Options

  datatype Algo = Xxh32 | Xxh64 | Xxh128 | Xxh3
  datatype Parsed = Parsed(filename: seq<Byte>, algo: Algo, digest: seq<Byte>)

  const SPACE: Byte := 32
  const OPEN: Byte := 40
  const CLOSE: Byte := 41
  const EQUALS: Byte := 61

  const XXH3_NAME: seq<Byte> := [88, 88, 72, 51]
  const XXH32_NAME: seq<Byte> := [88, 88, 72, 51, 50]
  const XXH64_NAME: seq<Byte> := [88, 88, 72, 54, 52]
  const XXH128_NAME: seq<Byte> := [88, 88, 72, 49, 50, 56]
  const LE_SUFFIX: seq<Byte> := [95, 76, 69]

  // ----- printing -----

  function Name(algo: Algo): seq<Byte> {
    match algo
    case Xxh32 => XXH32_NAME
    case Xxh64 => XXH64_NAME
    case Xxh128 => XXH128_NAME
    case Xxh3 => XXH3_NAME
  }

  function DigestLength(algo: Algo): nat {
    match algo
    case Xxh32 => 4
    case Xxh128 => 16
    case _ => 8
  }

  function HexDigit(n: nat): Byte
    requires n < 16
  {
    if n < 10 then 48 + n else 87 + n
  }

  /** Two lower-case digits for each byte. */
  function Hex(d: seq<Byte>): (text: seq<Byte>)
    ensures |text| == 2 * |d| && SPACE !in text
    ensures forall i :: 0 <= i < |d| ==>
      text[2 * i] == HexDigit(d[i] / 16) && text[2 * i + 1] == HexDigit(d[i] % 16)
  {
    if d == [] then [] else Hex(d[..|d| - 1]) + [HexDigit(d[|d| - 1] / 16), HexDigit(d[|d| - 1] % 16)]
  }

  function Reversed(d: seq<Byte>): (r: seq<Byte>)
    ensures |r| == |d| && forall i :: 0 <= i < |d| ==> r[i] == d[|d| - 1 - i]
  {
    seq(|d|, i requires 0 <= i < |d| => d[|d| - 1 - i])
  }

  /** The bytes of a canonical digest, in the order in which they are displayed. */
  function Ordered(d: seq<Byte>, littleEndian: bool): (r: seq<Byte>)
    ensures |r| == |d|
  {
    if littleEndian then Reversed(d) else d
  }

  function BsdName(algo: Algo, littleEndian: bool): seq<Byte> {
    Name(algo) + if littleEndian then LE_SUFFIX else []
  }

  function BsdLine(filename: seq<Byte>, algo: Algo, d: seq<Byte>, littleEndian: bool): seq<Byte> {
    BsdText(BsdName(algo, littleEndian), filename, Hex(Ordered(d, littleEndian)))
  }

  function BsdText(name: seq<Byte>, filename: seq<Byte>, hash: seq<Byte>): seq<Byte> {
    name + [SPACE, OPEN] + filename + [CLOSE, SPACE, EQUALS, SPACE] + hash
  }

  function GnuLine(filename: seq<Byte>, d: seq<Byte>, littleEndian: bool): seq<Byte> {
    Hex(Ordered(d, littleEndian)) + [SPACE, SPACE] + filename
  }

  // ----- parsing -----

  /** charToHex: -1 for anything but a hexadecimal digit of either case. */
  function HexValue(c: Byte): int {
    if 48 <= c <= 57 then c - 48
    else if 65 <= c <= 70 then c - 65 + 10
    else if 97 <= c <= 102 then c - 97 + 10
    else -1
  }

  predicate AllHex(text: seq<Byte>) {
    forall i :: 0 <= i < |text| ==> HexValue(text[i]) >= 0
  }

  function Decode(text: seq<Byte>): (d: seq<Byte>)
    requires AllHex(text) && |text| % 2 == 0
    ensures |d| == |text| / 2
  {
    seq(|text| / 2, i requires 0 <= i < |text| / 2 => 16 * HexValue(text[2 * i]) + HexValue(text[2 * i + 1]))
  }

  /** strchr from position i: the first position with b, or the length. */
  function FirstIndexFrom(s: seq<Byte>, b: Byte, i: nat): (n: nat)
    requires i <= |s|
    ensures i <= n <= |s| && (n < |s| ==> s[n] == b) && forall k :: i <= k < n ==> s[k] != b
    decreases |s| - i
  {
    if i == |s| || s[i] == b then i else FirstIndexFrom(s, b, i + 1)
  }

  /** strrchr below position i: the last position with b, or -1. */
  function LastIndexBelow(s: seq<Byte>, b: Byte, i: nat): (n: int)
    requires i <= |s|
    ensures -1 <= n < i && (n >= 0 ==> s[n] == b) && forall k :: n < k < i ==> s[k] != b
  {
    if i == 0 then -1 else if s[i - 1] == b then i - 1 else LastIndexBelow(s, b, i - 1)
  }

  function FirstIndex(s: seq<Byte>, b: Byte): (n: nat)
    ensures n <= |s|
  {
    FirstIndexFrom(s, b, 0)
  }

  function LastIndex(s: seq<Byte>, b: Byte): (n: int)
    ensures -1 <= n < |s|
  {
    LastIndexBelow(s, b, |s|)
  }

  predicate MatchesAt(s: seq<Byte>, p: seq<Byte>, i: nat) {
    i + |p| <= |s| && forall j :: 0 <= j < |p| ==> s[i + j] == p[j]
  }

  predicate StartsWith(s: seq<Byte>, p: seq<Byte>) {
    |p| <= |s| && forall j :: 0 <= j < |p| ==> s[j] == p[j]
  }

  /** strstr from position i. */
  predicate ContainsFrom(s: seq<Byte>, p: seq<Byte>, i: nat)
    decreases |s| - i
  {
    MatchesAt(s, p, i) || (i < |s| && ContainsFrom(s, p, i + 1))
  }

  predicate Contains(s: seq<Byte>, p: seq<Byte>) {
    ContainsFrom(s, p, 0)
  }

  /** The algorithm of a BSD line; later tests win, and an unknown name means XXH64. */
  function AlgoOfName(name: seq<Byte>): Algo {
    if StartsWith(name, XXH128_NAME) then Xxh128
    else if StartsWith(name, XXH64_NAME) then Xxh64
    else if StartsWith(name, XXH32_NAME) then Xxh32
    else if StartsWith(name, XXH3_NAME) then Xxh3
    else Xxh64
  }

  function AlgoOfLength(n: nat): Algo {
    if n == 32 then Xxh128 else if n == 8 then Xxh32 else Xxh64
  }

  /** The hash field decides: digits of the right length for the algorithm, or nothing. */
  function Read(hash: seq<Byte>, filename: seq<Byte>, algo: Algo, reverse: bool): Option<Parsed> {
    if |hash| == 2 * DigestLength(algo) && AllHex(hash)
    then Some(Parsed(filename, algo, Ordered(Decode(hash), reverse)))
    else None
  }

  /** How a line is cut up: the BSD form has a parenthesis behind its first space. */
  datatype Fields = Named(name: seq<Byte>, filename: seq<Byte>, hash: seq<Byte>)
                  | Plain(filename: seq<Byte>, hash: seq<Byte>)
                  | Malformed

  function Split(line: seq<Byte>): Fields {
    var first := FirstIndex(line, SPACE);
    if first + 1 >= |line| then Malformed
    else if line[first + 1] == OPEN then SplitBsd(line, first, LastIndex(line, SPACE))
    else Plain(line[first + 2..], line[..first])
  }

  /** Room for a parenthesized name between the two spaces, and an equals sign in front of the second. */
  function SplitBsd(line: seq<Byte>, first: nat, last: int): Fields
    requires first < |line| && last < |line|
  {
    if last - first >= 5 && line[last - 1] == EQUALS && line[last - 2] == SPACE && line[last - 3] == CLOSE
    then Named(line[..first], line[first + 2..last - 3], line[last + 1..])
    else Malformed
  }

  function Interpret(f: Fields, reverse: bool): Option<Parsed> {
    match f
    case Named(name, filename, hash) => Read(hash, filename, AlgoOfName(name), Contains(name, LE_SUFFIX))
    case Plain(filename, hash) => Read(hash, filename, AlgoOfLength(|hash|), reverse)
    case Malformed => None
  }

  /** XSUM_parseLine, on a line without its terminator. `reverse` is the byte order that GNU lines are
      assumed to be in; BSD lines name theirs. */
  function Parse(line: seq<Byte>, reverse: bool): Option<Parsed> {
    Interpret(Split(line), reverse)
  }

  // ----- reading back what was printed -----

  lemma HexAt(d: seq<Byte>, i: nat)
    requires i < |d|
    ensures
      var high, low := HexValue(Hex(d)[2 * i]), HexValue(Hex(d)[2 * i + 1]);
      high >= 0 && low >= 0 && 16 * high + low == d[i]
  {
    DigitValue(d[i] / 16);
    DigitValue(d[i] % 16);
  }

  lemma DigitValue(n: nat)
    requires n < 16
    ensures HexValue(HexDigit(n)) == n
  {
  }

  lemma DecodeHex(d: seq<Byte>)
    ensures AllHex(Hex(d)) && Decode(Hex(d)) == d
  {
    var text := Hex(d);
    forall i | 0 <= i < |text| ensures HexValue(text[i]) >= 0 {
      HexAt(d, i / 2);
      assert i == 2 * (i / 2) + i % 2;
    }
    forall i | 0 <= i < |d| ensures Decode(text)[i] == d[i] {
      HexAt(d, i);
    }
  }

  lemma FirstIs(s: seq<Byte>, b: Byte, n: nat)
    requires n <= |s| && (n < |s| ==> s[n] == b) && forall k :: 0 <= k < n ==> s[k] != b
    ensures FirstIndex(s, b) == n
  {
  }

  lemma LastIs(s: seq<Byte>, b: Byte, n: nat)
    requires n < |s| && s[n] == b && forall k :: n < k < |s| ==> s[k] != b
    ensures LastIndex(s, b) == n
  {
  }

  lemma FirstSpace(a: seq<Byte>, rest: seq<Byte>)
    requires SPACE !in a
    ensures FirstIndex(a + [SPACE] + rest, SPACE) == |a|
  {
    FirstIs(a + [SPACE] + rest, SPACE, |a|);
  }

  lemma LastSpace(a: seq<Byte>, rest: seq<Byte>)
    requires SPACE !in rest
    ensures LastIndex(a + [SPACE] + rest, SPACE) == |a|
  {
    LastIs(a + [SPACE] + rest, SPACE, |a|);
  }

  lemma BsdNameReads(algo: Algo, littleEndian: bool)
    ensures
      var name := BsdName(algo, littleEndian);
      SPACE !in name && AlgoOfName(name) == algo && (Contains(name, LE_SUFFIX) <==> littleEndian)
  {
    var name := BsdName(algo, littleEndian);
    assert name[3] == Name(algo)[3] && XXH128_NAME[3] == 49 && XXH64_NAME[3] == 54 && XXH32_NAME[4] == 50;
    assert littleEndian ==> name[|Name(algo)|] == 95;
    assert StartsWith(name, Name(algo));
    if littleEndian {
      ContainedAt(name, LE_SUFFIX, 0, |Name(algo)|);
    } else if Contains(name, LE_SUFFIX) {
      ContainedByte(name, LE_SUFFIX, 0);
      assert false;
    }
  }

  lemma {:induction false} ContainedByte(s: seq<Byte>, p: seq<Byte>, i: nat)
    requires ContainsFrom(s, p, i) && p != []
    ensures p[0] in s
    decreases |s| - i
  {
    if MatchesAt(s, p, i) {
      assert s[i + 0] == p[0];
    } else {
      ContainedByte(s, p, i + 1);
    }
  }

  lemma {:induction false} ContainedAt(s: seq<Byte>, p: seq<Byte>, i: nat, n: nat)
    requires i <= n <= |s| && MatchesAt(s, p, n)
    ensures ContainsFrom(s, p, i)
    decreases n - i
  {
    if i < n {
      ContainedAt(s, p, i + 1, n);
    }
  }

  /** A BSD line, in either byte order, gives back the file name, the algorithm and the digest, whatever spaces
      and parentheses the name has. */
  lemma BsdRoundTrip(filename: seq<Byte>, algo: Algo, d: seq<Byte>, littleEndian: bool, reverse: bool)
    requires |d| == DigestLength(algo)
    ensures Parse(BsdLine(filename, algo, d, littleEndian), reverse) == Some(Parsed(filename, algo, d))
  {
    var name, hash := BsdName(algo, littleEndian), Hex(Ordered(d, littleEndian));
    BsdNameReads(algo, littleEndian);
    ReadHex(filename, algo, Ordered(d, littleEndian), littleEndian);
    OrderedAcross(d, littleEndian, littleEndian);
    BsdSplit(name, filename, hash);
  }

  lemma BsdSplit(name: seq<Byte>, filename: seq<Byte>, hash: seq<Byte>)
    requires SPACE !in name && SPACE !in hash
    ensures Split(BsdText(name, filename, hash)) == Named(name, filename, hash)
  {
    BsdPositions(name, filename, hash);
  }

  lemma ReadHex(filename: seq<Byte>, algo: Algo, d: seq<Byte>, reverse: bool)
    requires |d| == DigestLength(algo)
    ensures Read(Hex(d), filename, algo, reverse) == Some(Parsed(filename, algo, Ordered(d, reverse)))
  {
    DecodeHex(d);
  }

  lemma BsdPositions(name: seq<Byte>, filename: seq<Byte>, hash: seq<Byte>)
    requires SPACE !in name && SPACE !in hash
    ensures
      var line, first, last := BsdText(name, filename, hash), |name|, |name| + |filename| + 5;
      && FirstIndex(line, SPACE) == first && LastIndex(line, SPACE) == last && |line| == last + 1 + |hash|
      && line[first + 1] == OPEN && line[last - 1] == EQUALS && line[last - 2] == SPACE && line[last - 3] == CLOSE
      && line[..first] == name && line[first + 2..last - 3] == filename && line[last + 1..] == hash
  {
    var line := BsdText(name, filename, hash);
    var tail := [OPEN] + filename + [CLOSE, SPACE, EQUALS, SPACE] + hash;
    var front := name + [SPACE, OPEN] + filename + [CLOSE, SPACE, EQUALS];
    assert line == name + [SPACE] + tail;
    FirstSpace(name, tail);
    BsdFront(name, filename, hash, front);
    LastSpace(front, hash);
    BsdSlices(name, filename, hash);
  }

  lemma BsdFront(name: seq<Byte>, filename: seq<Byte>, hash: seq<Byte>, front: seq<Byte>)
    requires front == name + [SPACE, OPEN] + filename + [CLOSE, SPACE, EQUALS]
    ensures BsdText(name, filename, hash) == front + [SPACE] + hash && |front| == |name| + |filename| + 5
  {
    assert [CLOSE, SPACE, EQUALS, SPACE] == [CLOSE, SPACE, EQUALS] + [SPACE];
  }

  lemma BsdSlices(name: seq<Byte>, filename: seq<Byte>, hash: seq<Byte>)
    ensures
      var line, first, last := BsdText(name, filename, hash), |name|, |name| + |filename| + 5;
      && |line| == last + 1 + |hash|
      && line[first + 1] == OPEN && line[last - 1] == EQUALS && line[last - 2] == SPACE && line[last - 3] == CLOSE
      && line[..first] == name && line[first + 2..last - 3] == filename && line[last + 1..] == hash
  {
  }

  /** A GNU line gives back the file name always, the algorithm unless it is XXH3, and the digest in the byte
      order that the reader assumes. */
  lemma GnuRoundTrip(filename: seq<Byte>, algo: Algo, d: seq<Byte>, littleEndian: bool, reverse: bool)
    requires |d| == DigestLength(algo)
    ensures Parse(GnuLine(filename, d, littleEndian), reverse) ==
      Some(Parsed(filename, if algo == Xxh3 then Xxh64 else algo, if littleEndian == reverse then d else Reversed(d)))
  {
    var hash := Hex(Ordered(d, littleEndian));
    GnuSplit(hash, filename);
    ReadHex(filename, AlgoOfLength(|hash|), Ordered(d, littleEndian), reverse);
    OrderedAcross(d, littleEndian, reverse);
  }

  lemma OrderedAcross(d: seq<Byte>, a: bool, b: bool)
    ensures Ordered(Ordered(d, a), b) == if a == b then d else Reversed(d)
  {
  }

  lemma GnuSplit(hash: seq<Byte>, filename: seq<Byte>)
    requires SPACE !in hash
    ensures Split(hash + [SPACE, SPACE] + filename) == Plain(filename, hash)
  {
    var line := hash + [SPACE, SPACE] + filename;
    assert line == hash + [SPACE] + ([SPACE] + filename);
    FirstSpace(hash, [SPACE] + filename);
    assert line[|hash| + 1] == SPACE;
  }

  /** So a GNU line loses the algorithm exactly for XXH3. */
  lemma GnuAlgorithm(filename: seq<Byte>, algo: Algo, d: seq<Byte>, littleEndian: bool)
    requires |d| == DigestLength(algo)
    ensures Parse(GnuLine(filename, d, littleEndian), littleEndian) == Some(Parsed(filename, algo, d)) <==> algo != Xxh3
  {
    GnuRoundTrip(filename, algo, d, littleEndian, littleEndian);
  }

  // ----- the code, on bytes and in place -----

  /** XSUM_display_BigEndian and XSUM_display_LittleEndian. */
  method Display(d: seq<Byte>, littleEndian: bool) returns (text: seq<Byte>)
    ensures text == Hex(Ordered(d, littleEndian))
  {
    text := [];
    ghost var bytes := Ordered(d, littleEndian);
    var n := 0;
    assert bytes[..0] == [];
    while n < |d|
      invariant n <= |d| && text == Hex(bytes[..n])
    {
      var b := if littleEndian then d[|d| - 1 - n] else d[n];
      assert bytes[..n + 1][..n] == bytes[..n];
      text := text + [HexDigit(b / 16), HexDigit(b % 16)];
      n := n + 1;
    }
    assert bytes[..|d|] == bytes;
  }

  /** XSUM_canonicalFromString. */
  method CanonicalFromString(dst: array<Byte>, text: seq<Byte>, reverse: bool) returns (ok: bool)
    requires |text| == 2 * dst.Length
    modifies dst
    ensures ok <==> AllHex(text)
    ensures ok ==> dst[..] == Ordered(Decode(text), reverse)
  {
    var n := dst.Length;
    for i := 0 to n
      invariant forall k :: 0 <= k < i ==> PairAt(text, At(n, k, reverse), dst[k])
    {
      var j := At(n, i, reverse);
      var h0 := HexValue(text[2 * j]);
      if h0 < 0 {
        return false;
      }
      var h1 := HexValue(text[2 * j + 1]);
      if h1 < 0 {
        return false;
      }
      dst[i] := 16 * h0 + h1;
    }
    PairsDecode(text, dst[..], reverse);
    return true;
  }

  /** The two digits at position j of the text are those of b. */
  ghost predicate PairAt(text: seq<Byte>, j: nat, b: Byte) {
    && 2 * j + 1 < |text| && HexValue(text[2 * j]) >= 0 && HexValue(text[2 * j + 1]) >= 0
    && b == 16 * HexValue(text[2 * j]) + HexValue(text[2 * j + 1])
  }

  lemma PairsDecode(text: seq<Byte>, bytes: seq<Byte>, reverse: bool)
    requires |text| == 2 * |bytes| && forall k :: 0 <= k < |bytes| ==> PairAt(text, At(|bytes|, k, reverse), bytes[k])
    ensures AllHex(text) && bytes == Ordered(Decode(text), reverse)
  {
    forall k | 0 <= k < |text| ensures HexValue(text[k]) >= 0 {
      PairHex(text, bytes, reverse, k / 2, k % 2);
    }
    DecodedPairs(text, bytes, reverse);
  }

  lemma PairHex(text: seq<Byte>, bytes: seq<Byte>, reverse: bool, j: nat, low: nat)
    requires |text| == 2 * |bytes| && forall k :: 0 <= k < |bytes| ==> PairAt(text, At(|bytes|, k, reverse), bytes[k])
    requires j < |bytes| && low < 2
    ensures HexValue(text[2 * j + low]) >= 0
  {
    var i := At(|bytes|, j, reverse);
    assert PairAt(text, At(|bytes|, i, reverse), bytes[i]);
  }

  lemma DecodedPairs(text: seq<Byte>, bytes: seq<Byte>, reverse: bool)
    requires |text| == 2 * |bytes| && forall k :: 0 <= k < |bytes| ==> PairAt(text, At(|bytes|, k, reverse), bytes[k])
    requires AllHex(text)
    ensures bytes == Ordered(Decode(text), reverse)
  {
    var d := Decode(text);
    forall k | 0 <= k < |bytes| ensures bytes[k] == Ordered(d, reverse)[k] {
      assert PairAt(text, At(|bytes|, k, reverse), bytes[k]);
      assert Ordered(d, reverse)[k] == d[At(|bytes|, k, reverse)];
    }
  }

  function At(n: nat, i: nat, reverse: bool): nat
    requires i < n
  {
    if reverse then n - i - 1 else i
  }

  // A line buffer holds a text without NUL bytes and a terminator.

  ghost predicate Holds(line: array<Byte>, text: seq<Byte>)
    reads line
  {
    line.Length == |text| + 1 && line[..|text|] == text && line[|text|] == 0 && 0 !in text
  }

  /** strchr(line, ' '), or the terminator's position. */
  method FindSpace(line: array<Byte>, ghost text: seq<Byte>) returns (n: nat)
    requires Holds(line, text)
    ensures n == FirstIndex(text, SPACE)
  {
    n := 0;
    while line[n] != 0 && line[n] != SPACE
      invariant n <= |text| && forall k :: 0 <= k < n ==> text[k] != SPACE
      decreases |text| - n
    {
      assert line[n] == text[n];
      n := n + 1;
    }
    assert n < |text| ==> line[n] == text[n];
    FirstIs(text, SPACE, n);
  }

  /** strrchr(line, ' '), for a line that has a space. */
  method FindLastSpace(line: array<Byte>, ghost text: seq<Byte>) returns (n: nat)
    requires Holds(line, text) && SPACE in text
    ensures n == LastIndex(text, SPACE)
  {
    var end := line.Length - 1;
    n := end;
    ghost var space :| 0 <= space < |text| && text[space] == SPACE;
    assert line[space] == SPACE;
    while line[n] != SPACE
      invariant space <= n <= |text| && forall k :: n < k < |text| ==> text[k] != SPACE
      decreases n
    {
      assert n < |text| ==> line[n] == text[n];
      n := n - 1;
    }
    assert n < |text| && line[n] == text[n];
    LastIs(text, SPACE, n);
  }

  /** The C string at a position of the buffer: up to the next NUL, which is at `end`. */
  method StringAt(line: array<Byte>, from: nat, ghost end: nat) returns (s: seq<Byte>)
    requires from <= end < line.Length && line[end] == 0 && 0 !in line[from..end]
    ensures s == line[from..end]
  {
    forall k | from <= k < end ensures line[k] != 0 {
      assert line[k] == line[from..end][k - from];
    }
    var n := from;
    while line[n] != 0
      invariant from <= n <= end
      decreases end - n
    {
      n := n + 1;
    }
    s := line[from..n];
  }

  /** The tests on the hash field. */
  method ReadHash(hash: seq<Byte>, filename: seq<Byte>, algo: Algo, reverse: bool) returns (r: Option<Parsed>)
    ensures r == Read(hash, filename, algo, reverse)
  {
    if |hash| == 8 {
      if algo != Xxh32 {
        return None;
      }
    } else if |hash| == 16 {
      if algo != Xxh64 && algo != Xxh3 {
        return None;
      }
    } else if |hash| == 32 {
      if algo != Xxh128 {
        return None;
      }
    } else {
      return None;
    }
    var dst := new Byte[|hash| / 2](_ => 0);
    var ok := CanonicalFromString(dst, hash, reverse);
    if !ok {
      return None;
    }
    return Some(Parsed(filename, algo, dst[..]));
  }

  /** Comparing the edited buffer with a name compares the text in front of the first space. */
  lemma EditedPrefix(edited: seq<Byte>, first: nat, p: seq<Byte>)
    requires first < |edited| && edited[first] == 0 && 0 !in p && |p| <= |edited|
    ensures StartsWith(edited, p) <==> StartsWith(edited[..first], p)
  {
    if first < |p| {
      assert p[first] != edited[first];
    }
  }

  /** The four comparisons, later ones overriding. */
  method NamedAlgo(line: array<Byte>, ghost first: nat) returns (algo: Algo)
    requires 6 <= line.Length && first < line.Length && line[first] == 0
    ensures algo == AlgoOfName(line[..first])
  {
    ghost var edited := line[..];
    EditedPrefix(edited, first, XXH3_NAME);
    EditedPrefix(edited, first, XXH32_NAME);
    EditedPrefix(edited, first, XXH64_NAME);
    EditedPrefix(edited, first, XXH128_NAME);
    assert edited[..first] == line[..first];
    algo := Xxh64;
    if StartsWith(line[..], XXH3_NAME) {
      algo := Xxh3;
    }
    if StartsWith(line[..], XXH32_NAME) {
      algo := Xxh32;
    }
    if StartsWith(line[..], XXH64_NAME) {
      algo := Xxh64;
    }
    if StartsWith(line[..], XXH128_NAME) {
      algo := Xxh128;
    }
  }

  /** The BSD branch: the buffer is cut at the end of the name and of the file name. */
  method CutBsd(line: array<Byte>, first: nat, ghost text: seq<Byte>) returns (f: Fields)
    requires Holds(line, text) && first < |text| && text[first] == SPACE
    modifies line
    ensures f == SplitBsd(text, first, LastIndex(text, SPACE))
    ensures f.Named? ==> 6 <= line.Length && first < line.Length && line[first] == 0 && line[..first] == f.name
  {
    var last := FindLastSpace(line, text);
    if last - first < 5 {
      return Malformed;
    }
    assert line[last - 1] == text[last - 1] && line[last - 2] == text[last - 2] && line[last - 3] == text[last - 3];
    if line[last - 1] != EQUALS || line[last - 2] != SPACE || line[last - 3] != CLOSE {
      return Malformed;
    }
    var hash := line[last + 1..line.Length - 1];
    assert hash == text[last + 1..];
    line[last - 3] := 0;
    line[first] := 0;
    forall k | 0 <= k < |text| && k != first && k != last - 3 ensures line[k] == text[k] {}
    assert line[..first] == text[..first] && line[0..first] == text[..first];
    assert line[first + 2..last - 3] == text[first + 2..last - 3];
    var name := StringAt(line, 0, first);
    var filename := StringAt(line, first + 2, last - 3);
    return Named(name, filename, hash);
  }

  /** The other branch: the hash comes first. */
  method CutPlain(line: array<Byte>, first: nat, ghost text: seq<Byte>) returns (f: Fields)
    requires Holds(line, text) && first + 1 < |text|
    ensures f == Plain(text[first + 2..], text[..first])
  {
    assert line[..first] == text[..first];
    assert line[first + 2..|text|] == text[first + 2..];
    var filename := StringAt(line, first + 2, |text|);
    f := Plain(filename, line[..first]);
  }

  method CutLine(line: array<Byte>, ghost text: seq<Byte>) returns (f: Fields)
    requires Holds(line, text)
    modifies line
    ensures f == Split(text)
    ensures f.Named? ==>
      6 <= line.Length && |f.name| < line.Length && line[|f.name|] == 0 && line[..|f.name|] == f.name
  {
    var first := FindSpace(line, text);
    assert first < |text| ==> line[first] == text[first];
    assert first + 1 < |text| ==> line[first + 1] == text[first + 1];
    if line[first] == 0 || line[first + 1] == 0 {
      return Malformed;
    }
    if line[first + 1] == OPEN {
      f := CutBsd(line, first, text);
    } else {
      f := CutPlain(line, first, text);
    }
  }

  /** XSUM_parseLine. */
  method ParseLine(line: array<Byte>, reverse: bool, ghost text: seq<Byte>) returns (r: Option<Parsed>)
    requires Holds(line, text)
    modifies line
    ensures r == Parse(text, reverse)
  {
    var f := CutLine(line, text);
    match f
    case Malformed => r := None;
    case Named(name, filename, hash) =>
      var algo := NamedAlgo(line, |name|);
      r := ReadHash(hash, filename, algo, Contains(name, LE_SUFFIX));
    case Plain(filename, hash) =>
      var algo := Xxh64;
      if |hash| == 8 {
        algo := Xxh32;
      }
      if |hash| == 16 {
        algo := Xxh64;
      }
      if |hash| == 32 {
        algo := Xxh128;
      }
      r := ReadHash(hash, filename, algo, reverse);
  }
}
