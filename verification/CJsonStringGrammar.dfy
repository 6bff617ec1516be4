/** parse_string against the strings of RFC 8259. */
module CJsonStringGrammar {
  import opened Bytes
  import opened Options
  import opened CJsonString
  import opened CJsonLiteral
  import opened CJsonGrammar

  // ----- digits and characters -----

  lemma HexAgrees(b: Byte)
    ensures HexDigit(b) >= 0 <==> HexOf(b).Some?
    ensures HexOf(b).Some? ==> HexDigit(b) == HexOf(b).value
    ensures HexOf(b).Some? ==> b != QUOTE && b != BACKSLASH
  {
  }

  /** parse_hex4 gives the number that the digits write, and 0 for anything else. */
  lemma Hex4Agrees(c: seq<Byte>, at: nat)
    requires at + 4 <= |c|
    ensures Hex4(c, at) == match Hex4Of(c[at..at + 4]) case Some(h) => h case None => 0
    ensures HexDigits(c, at, 4) <==> Hex4Of(c[at..at + 4]).Some?
  {
    var x := c[at..at + 4];
    assert x[0] == c[at] && x[1] == c[at + 1] && x[2] == c[at + 2] && x[3] == c[at + 3];
    HexAgrees(c[at]);
    HexAgrees(c[at + 1]);
    HexAgrees(c[at + 2]);
    HexAgrees(c[at + 3]);
    if Hex4Of(x).Some? {
      HexSum(c, at);
    }
  }

  lemma HexSum(c: seq<Byte>, at: nat)
    requires at + 4 <= |c| && HexDigits(c, at, 4)
    ensures HexValue(c, at, 4) ==
      0x1000 * HexDigit(c[at]) + 0x100 * HexDigit(c[at + 1]) + 0x10 * HexDigit(c[at + 2]) + HexDigit(c[at + 3])
  {
    assert HexValue(c, at, 1) == 16 * HexValue(c, at, 0) + HexDigit(c[at]);
    assert HexValue(c, at, 2) == 16 * HexValue(c, at, 1) + HexDigit(c[at + 1]);
    assert HexValue(c, at, 3) == 16 * HexValue(c, at, 2) + HexDigit(c[at + 2]);
    assert HexValue(c, at, 4) == 16 * HexValue(c, at, 3) + HexDigit(c[at + 3]);
  }

  lemma Groups(a: nat, b: nat)
    requires b < 64
    ensures (a * 64 + b) / 64 == a && (a * 64 + b) % 64 == b
  {
  }

  lemma EncodeTwo(a: nat, b: nat)
    requires 2 <= a < 32 && b < 64
    ensures var c := a * 64 + b; Scalar(c) && EncodeUtf8(c) == [0xC0 + a, 0x80 + b]
  {
    var c := a * 64 + b;
    Groups(a, b);
    ShiftedBounds(c);
    assert Tails(c, 1) == [0x80 + c % 64];
  }

  lemma EncodeThree(a: nat, b: nat, d: nat)
    requires a < 16 && b < 64 && d < 64 && (a == 0 ==> b >= 32) && (a == 13 ==> b < 32)
    ensures var c := (a * 64 + b) * 64 + d; Scalar(c) && EncodeUtf8(c) == [0xE0 + a, 0x80 + b, 0x80 + d]
  {
    var c := (a * 64 + b) * 64 + d;
    Groups(a * 64 + b, d);
    Groups(a, b);
    ShiftedBounds(c);
    assert Tails(c, 1) == [0x80 + d];
    assert Tails(c, 2) == [0x80 + b] + Tails(c, 1);
  }

  lemma EncodeFour(a: nat, b: nat, d: nat, f: nat)
    requires a < 5 && b < 64 && d < 64 && f < 64 && (a == 0 ==> b >= 16) && (a == 4 ==> b < 16)
    ensures
      var c := ((a * 64 + b) * 64 + d) * 64 + f;
      Scalar(c) && EncodeUtf8(c) == [0xF0 + a, 0x80 + b, 0x80 + d, 0x80 + f]
  {
    var c := ((a * 64 + b) * 64 + d) * 64 + f;
    Groups((a * 64 + b) * 64 + d, f);
    Groups(a * 64 + b, d);
    Groups(a, b);
    ShiftedBounds(c);
    assert Tails(c, 1) == [0x80 + f];
    assert Tails(c, 2) == [0x80 + d] + Tails(c, 1);
    assert Tails(c, 3) == [0x80 + b] + Tails(c, 2);
  }

  /** There is one encoding of a character. */
  lemma EncodeDecoded(e: seq<Byte>)
    requires DecodeUtf8(e).Some?
    ensures var c := DecodeUtf8(e).value; Scalar(c) && EncodeUtf8(c) == e
  {
    if |e| == 1 {
      assert e == [e[0]];
    } else if |e| == 2 {
      EncodeTwo(e[0] - 0xC0, e[1] - 0x80);
      assert e == [e[0], e[1]];
    } else if |e| == 3 {
      EncodeThree(e[0] - 0xE0, e[1] - 0x80, e[2] - 0x80);
      assert e == [e[0], e[1], e[2]];
    } else {
      EncodeFour(e[0] - 0xF0, e[1] - 0x80, e[2] - 0x80, e[3] - 0x80);
      assert e == [e[0], e[1], e[2], e[3]];
    }
  }

  // ----- one character -----

  lemma PlainRead(c: seq<Byte>, p: nat, end: nat)
    requires p < end < |c| && c[p] != QUOTE && c[p] != BACKSLASH
    ensures Closing(c, p) == Closing(c, p + 1)
    ensures Unescape(c, p, end) == Prepend([c[p]], Unescape(c, p + 1, end))
  {
  }

  lemma EscapeRead(c: seq<Byte>, p: nat, end: nat)
    requires p + 2 <= end < |c| && c[p] == BACKSLASH && Escapee(c[p + 1]).Some?
    ensures Closing(c, p) == Closing(c, p + 2)
    ensures Unescape(c, p, end) == Prepend([Escapee(c[p + 1]).value], Unescape(c, p + 2, end))
  {
    var b := Escapee(c[p + 1]).value;
    assert Unit(c, p, end) == Some((2, b)) && EncodeUtf8(b) == [b];
  }

  /** Hexadecimal digits neither end a literal nor start an escape. */
  lemma DigitsSkipped(c: seq<Byte>, p: nat)
    requires p + 6 <= |c| && c[p] == BACKSLASH && c[p + 1] == LETTER_U && Hex4Of(c[p + 2..p + 6]).Some?
    ensures Closing(c, p) == Closing(c, p + 6)
  {
    var x := c[p + 2..p + 6];
    assert x[0] == c[p + 2] && x[1] == c[p + 3] && x[2] == c[p + 4] && x[3] == c[p + 5];
    assert Closing(c, p + 5) == Closing(c, p + 6);
    assert Closing(c, p + 3) == Closing(c, p + 4) == Closing(c, p + 5);
    assert Closing(c, p + 2) == Closing(c, p + 3);
  }

  lemma InnerWindow(c: seq<Byte>, p: nat, n: nat, a: nat, b: nat)
    requires p + n <= |c| && a <= b <= n
    ensures c[p..p + n][a..b] == c[p + a..p + b]
  {
    var x, y := c[p..p + n][a..b], c[p + a..p + b];
    forall i | 0 <= i < b - a ensures x[i] == y[i] {
      assert x[i] == c[p..p + n][a + i] == c[p + a + i];
    }
  }

  lemma OneUnit(c: seq<Byte>, p: nat, end: nat, x: seq<Byte>)
    requires p + 6 <= end < |c| && x == c[p..p + 6] && CodePoint(x).Some?
    ensures Closing(c, p) == Closing(c, p + 6) && Unit(c, p, end) == Some((6, CodePoint(x).value))
  {
    assert x[2..6] == c[p + 2..p + 6];
    Hex4Agrees(c, p + 2);
    DigitsSkipped(c, p);
  }

  /** The two units of a pair, read one after the other. */
  lemma PairParts(c: seq<Byte>, p: nat, x: seq<Byte>) returns (high: nat, low: nat)
    requires p + 12 <= |c| && x == c[p..p + 12] && CodePoint(x).Some?
    ensures c[p] == c[p + 6] == BACKSLASH && c[p + 1] == c[p + 7] == LETTER_U
    ensures Hex4Of(c[p + 2..p + 6]) == Some(high) && Hex4Of(c[p + 8..p + 12]) == Some(low)
    ensures HighSurrogate(high) && LowSurrogate(low) && CodePoint(x) == Some(PairValue(high, low))
  {
    InnerWindow(c, p, 12, 2, 6);
    InnerWindow(c, p, 12, 8, 12);
    high, low := Hex4Of(x[2..6]).value, Hex4Of(x[8..12]).value;
    assert x[6] == c[p + 6] && x[7] == c[p + 7];
  }

  lemma TwoUnits(c: seq<Byte>, p: nat, end: nat, x: seq<Byte>)
    requires p + 12 <= end < |c| && x == c[p..p + 12] && CodePoint(x).Some?
    ensures Closing(c, p) == Closing(c, p + 12) && Unit(c, p, end) == Some((12, CodePoint(x).value))
  {
    var high, low := PairParts(c, p, x);
    Hex4Agrees(c, p + 2);
    Hex4Agrees(c, p + 8);
    DigitsSkipped(c, p);
    DigitsSkipped(c, p + 6);
  }

  lemma CodeRead(c: seq<Byte>, p: nat, end: nat, n: nat, e: seq<Byte>)
    requires p + n <= end < |c| && CodePoint(c[p..p + n]).Some? && DecodeUtf8(e) == CodePoint(c[p..p + n])
    ensures Closing(c, p) == Closing(c, p + n)
    ensures Unescape(c, p, end) == Prepend(e, Unescape(c, p + n, end))
  {
    if n == 6 {
      OneUnit(c, p, end, c[p..p + n]);
    } else {
      TwoUnits(c, p, end, c[p..p + n]);
    }
    EncodeDecoded(e);
  }

  /** A character of the grammar is read as what it stands for. */
  lemma CharRead(c: seq<Byte>, p: nat, end: nat, n: nat, e: seq<Byte>)
    requires p + n <= end < |c| && OneChar(c[p..p + n], e)
    ensures Closing(c, p) == Closing(c, p + n)
    ensures Unescape(c, p, end) == Prepend(e, Unescape(c, p + n, end))
  {
    var x := c[p..p + n];
    if CodePoint(x).Some? && DecodeUtf8(e) == CodePoint(x) {
      CodeRead(c, p, end, n, e);
    } else if n == 2 {
      assert x[0] == c[p] && x[1] == c[p + 1];
      EscapeRead(c, p, end);
    } else {
      assert x == [c[p]];
      PlainRead(c, p, end);
    }
  }

  // ----- strings -----

  lemma FirstChar(b: seq<Byte>, s: seq<Byte>) returns (n: nat, m: nat)
    requires b != [] && Chars(b, s)
    ensures 0 < n <= |b| && m <= |s| && OneChar(b[..n], s[..m]) && Chars(b[n..], s[m..])
  {
    n, m :| 0 < n <= |b| && m <= |s| && OneChar(b[..n], s[..m]) && Chars(b[n..], s[m..]);
  }

  lemma Windows(c: seq<Byte>, p: nat, end: nat, n: nat)
    requires p + n <= end <= |c|
    ensures c[p..end][..n] == c[p..p + n] && c[p..end][n..] == c[p + n..end]
  {
  }

  lemma {:induction false} CharsRead(c: seq<Byte>, p: nat, end: nat, s: seq<Byte>)
    requires p <= end < |c| && c[end] == QUOTE && Chars(c[p..end], s)
    ensures Closing(c, p) == Some(end) && Unescape(c, p, end) == Some(s)
    decreases end - p
  {
    if p < end {
      var n, m := FirstChar(c[p..end], s);
      Windows(c, p, end, n);
      CharsRead(c, p + n, end, s[m..]);
      CharPrepended(c, p, end, n, s, m);
    }
  }

  lemma CharPrepended(c: seq<Byte>, p: nat, end: nat, n: nat, s: seq<Byte>, m: nat)
    requires p + n <= end < |c| && m <= |s| && OneChar(c[p..p + n], s[..m])
    requires Closing(c, p + n) == Some(end) && Unescape(c, p + n, end) == Some(s[m..])
    ensures Closing(c, p) == Some(end) && Unescape(c, p, end) == Some(s)
  {
    CharRead(c, p, end, n, s[..m]);
    assert s == s[..m] + s[m..];
  }

  /** parse_string reads every string of the grammar as what it stands for, whatever follows. */
  lemma StringRead(t: seq<Byte>, s: seq<Byte>, rest: seq<Byte>)
    requires IsString(t, s)
    ensures Literal(t + rest, 0) == Some((s, |t|))
  {
    var c, end := t + rest, |t| - 1;
    assert c[1..end] == t[1..|t| - 1];
    CharsRead(c, 1, end, s);
  }

  // ----- what else parse_string takes -----

  /** A character of the grammar; or any byte but a backslash, for itself; or an escape by code without four digits,
      for a NUL. */
  predicate LooseChar(x: seq<Byte>, e: seq<Byte>) {
    || OneChar(x, e)
    || (|x| == 1 && x[0] != 0x5C && e == x)
    || (|x| == 6 && x[0] == 0x5C && x[1] == 0x75 && Hex4Of(x[2..6]).None? && e == [0])
  }

  /** Such characters up to the closing quote, which is the last byte of `b`; a backslash right before it takes it as
      its second byte. */
  ghost predicate LooseChars(b: seq<Byte>, s: seq<Byte>)
    decreases |b|
  {
    if |b| <= 1 then s == []
    else if b == [0x5C, 0x22] then s == [0x22]
    else exists n: nat, m: nat :: 0 < n < |b| && m <= |s| && LooseChar(b[..n], s[..m]) && LooseChars(b[n..], s[m..])
  }

  /** Bytes and escaped bytes, none of them a quote that is not escaped. */
  predicate Unclosed(w: seq<Byte>)
    decreases |w|
  {
    if w == [] then true
    else if w[0] == 0x5C then |w| >= 2 && Unclosed(w[2..])
    else w[0] != 0x22 && Unclosed(w[1..])
  }

  /** A quote, characters, and the first quote that is not escaped. */
  ghost predicate IsLooseString(t: seq<Byte>, s: seq<Byte>) {
    |t| >= 2 && t[0] == 0x22 && t[|t| - 1] == 0x22 && Unclosed(t[1..|t| - 1]) && LooseChars(t[1..], s)
  }

  lemma {:induction false} ClosingExactly(c: seq<Byte>, p: nat, end: nat)
    requires p <= end < |c|
    ensures Closing(c, p) == Some(end) <==> Unclosed(c[p..end]) && c[end] == 0x22
    decreases end - p
  {
    var w := c[p..end];
    if p < end {
      assert w[0] == c[p];
      if c[p] == BACKSLASH {
        if p + 2 <= end {
          assert w[2..] == c[p + 2..end];
          ClosingExactly(c, p + 2, end);
        }
      } else {
        assert w[1..] == c[p + 1..end];
        ClosingExactly(c, p + 1, end);
      }
    }
  }

  lemma OneUnitExactly(c: seq<Byte>, p: nat, end: nat, e: seq<Byte>)
    requires p + 6 <= end < |c| && c[p] == BACKSLASH && c[p + 1] == LETTER_U
    ensures LooseChar(c[p..p + 6], e) <==>
      Unit(c, p, end).Some? && Unit(c, p, end).value.0 == 6 && EncodeUtf8(Unit(c, p, end).value.1) == e
  {
    var x := c[p..p + 6];
    InnerWindow(c, p, 6, 2, 6);
    Hex4Agrees(c, p + 2);
    assert EncodeUtf8(0) == [0];
    if CodePoint(x).Some? {
      OneUnit(c, p, end, x);
      DecodeEncoded(CodePoint(x).value);
      if DecodeUtf8(e) == CodePoint(x) {
        EncodeDecoded(e);
      }
    }
  }

  lemma TwoUnitsExactly(c: seq<Byte>, p: nat, end: nat, e: seq<Byte>)
    requires p + 12 <= end < |c| && c[p] == BACKSLASH && c[p + 1] == LETTER_U
    ensures LooseChar(c[p..p + 12], e) <==>
      Unit(c, p, end).Some? && Unit(c, p, end).value.0 == 12 && EncodeUtf8(Unit(c, p, end).value.1) == e
  {
    var x := c[p..p + 12];
    if CodePoint(x).Some? {
      TwoUnits(c, p, end, x);
      DecodeEncoded(CodePoint(x).value);
      if DecodeUtf8(e) == CodePoint(x) {
        EncodeDecoded(e);
      }
    } else {
      NoPair(c, p, end, x);
    }
  }

  lemma NoPair(c: seq<Byte>, p: nat, end: nat, x: seq<Byte>)
    requires p + 12 <= end < |c| && c[p] == BACKSLASH && c[p + 1] == LETTER_U && x == c[p..p + 12] && CodePoint(x).None?
    ensures Unit(c, p, end).Some? ==> Unit(c, p, end).value.0 == 6
  {
    InnerWindow(c, p, 12, 2, 6);
    InnerWindow(c, p, 12, 8, 12);
    assert x[6] == c[p + 6] && x[7] == c[p + 7];
    Hex4Agrees(c, p + 2);
    Hex4Agrees(c, p + 8);
  }

  /** One turn of the writing pass takes a character, exactly. */
  lemma UnitExactly(c: seq<Byte>, p: nat, end: nat, n: nat, e: seq<Byte>)
    requires p + n <= end < |c| && 0 < n && c[p] == BACKSLASH
    ensures LooseChar(c[p..p + n], e) <==>
      Unit(c, p, end).Some? && Unit(c, p, end).value.0 == n && EncodeUtf8(Unit(c, p, end).value.1) == e
  {
    var x := c[p..p + n];
    assert x[0] == c[p];
    if n == 6 && c[p + 1] == LETTER_U {
      OneUnitExactly(c, p, end, e);
    } else if n == 12 && c[p + 1] == LETTER_U {
      TwoUnitsExactly(c, p, end, e);
    } else {
      OtherUnitExactly(c, p, end, n, e);
    }
  }

  lemma OtherUnitExactly(c: seq<Byte>, p: nat, end: nat, n: nat, e: seq<Byte>)
    requires p + n <= end < |c| && 0 < n && c[p] == BACKSLASH && (c[p + 1] == LETTER_U ==> n != 6 && n != 12)
    ensures LooseChar(c[p..p + n], e) <==>
      Unit(c, p, end).Some? && Unit(c, p, end).value.0 == n && EncodeUtf8(Unit(c, p, end).value.1) == e
  {
    var x := c[p..p + n];
    assert x[0] == c[p] && (n > 1 ==> x[1] == c[p + 1]);
    if n == 2 && Escapee(c[p + 1]).Some? {
      assert EncodeUtf8(Escapee(c[p + 1]).value) == [Escapee(c[p + 1]).value];
    }
  }

  lemma LooseFrom(b: seq<Byte>, s: seq<Byte>, n: nat, m: nat)
    requires |b| > 1 && b != [0x5C, 0x22] && 0 < n < |b| && m <= |s|
    requires LooseChar(b[..n], s[..m]) && LooseChars(b[n..], s[m..])
    ensures LooseChars(b, s)
  {
  }

  lemma LooseCut(b: seq<Byte>, s: seq<Byte>) returns (n: nat, m: nat)
    requires |b| > 1 && b != [0x5C, 0x22] && LooseChars(b, s)
    ensures 0 < n < |b| && m <= |s| && LooseChar(b[..n], s[..m]) && LooseChars(b[n..], s[m..])
  {
    n, m :| 0 < n < |b| && m <= |s| && LooseChar(b[..n], s[..m]) && LooseChars(b[n..], s[m..]);
  }

  /** The bytes that the writing pass takes next, and what it writes for them. */
  function Taken(c: seq<Byte>, p: nat, end: nat): Option<(nat, seq<Byte>)>
    requires p < end < |c|
  {
    if c[p] != BACKSLASH then Some((1, [c[p]]))
    else
      var u := Unit(c, p, end);
      if u.None? then None else Some((u.value.0, EncodeUtf8(u.value.1)))
  }

  lemma TakenExactly(c: seq<Byte>, p: nat, end: nat, n: nat, e: seq<Byte>)
    requires p + n <= end < |c| && 0 < n
    ensures LooseChar(c[p..p + n], e) <==> Taken(c, p, end) == Some((n, e))
  {
    var x := c[p..p + n];
    assert x[0] == c[p];
    if c[p] == BACKSLASH {
      UnitExactly(c, p, end, n, e);
    } else if n == 1 {
      assert x == [c[p]];
    }
  }

  lemma UnescapeStep(c: seq<Byte>, p: nat, end: nat)
    requires p < end < |c|
    ensures Unescape(c, p, end) ==
      if Taken(c, p, end).None? then None
      else Prepend(Taken(c, p, end).value.1, Unescape(c, p + Taken(c, p, end).value.0, end))
  {
  }

  lemma TakenInside(c: seq<Byte>, p: nat, end: nat)
    requires p < end < |c| && c[end] == QUOTE && c[p..end + 1] != [0x5C, 0x22] && Taken(c, p, end).Some?
    ensures 0 < Taken(c, p, end).value.0 && p + Taken(c, p, end).value.0 <= end
  {
    assert p + 1 == end ==> c[p..end + 1] == [c[p], c[end]];
  }

  lemma TakenGives(c: seq<Byte>, p: nat, end: nat, n: nat, e: seq<Byte>)
    requires p + n <= end < |c| && 0 < n && LooseChar(c[p..p + n], e)
    ensures Unescape(c, p, end) == Prepend(e, Unescape(c, p + n, end))
  {
    TakenExactly(c, p, end, n, e);
    UnescapeStep(c, p, end);
  }

  lemma TakenIs(c: seq<Byte>, p: nat, end: nat) returns (n: nat, e: seq<Byte>)
    requires p < end < |c| && c[end] == QUOTE && c[p..end + 1] != [0x5C, 0x22] && Unescape(c, p, end).Some?
    ensures 0 < n && p + n <= end && LooseChar(c[p..p + n], e)
    ensures Unescape(c, p, end) == Prepend(e, Unescape(c, p + n, end))
  {
    UnescapeStep(c, p, end);
    TakenInside(c, p, end);
    n, e := Taken(c, p, end).value.0, Taken(c, p, end).value.1;
    TakenExactly(c, p, end, n, e);
  }

  lemma LoneBackslash(c: seq<Byte>, p: nat, end: nat)
    requires p < end < |c| && c[p..end + 1] == [0x5C, 0x22]
    ensures Unescape(c, p, end) == Some([0x22])
  {
    var b := c[p..end + 1];
    assert c[p] == b[0] && c[p + 1] == b[1] && p + 1 == end;
    assert Unit(c, p, end) == Some((2, 0x22)) && EncodeUtf8(0x22) == [0x22];
    assert [0x22 as Byte] + [] == [0x22];
  }

  lemma LooseMore(c: seq<Byte>, p: nat, end: nat, n: nat, e: seq<Byte>, rest: seq<Byte>)
    requires p < end < |c| && c[p..end + 1] != [0x5C, 0x22] && 0 < n && p + n <= end
    requires LooseChar(c[p..p + n], e) && LooseChars(c[p + n..end + 1], rest)
    ensures LooseChars(c[p..end + 1], e + rest)
  {
    Windows(c, p, end + 1, n);
    assert (e + rest)[..|e|] == e && (e + rest)[|e|..] == rest;
    LooseFrom(c[p..end + 1], e + rest, n, |e|);
  }

  lemma LooseLess(c: seq<Byte>, p: nat, end: nat, s: seq<Byte>) returns (n: nat, e: seq<Byte>, rest: seq<Byte>)
    requires p < end < |c| && c[p..end + 1] != [0x5C, 0x22] && LooseChars(c[p..end + 1], s)
    ensures 0 < n && p + n <= end && s == e + rest && LooseChars(c[p + n..end + 1], rest)
    ensures LooseChar(c[p..p + n], e)
  {
    var m;
    n, m := LooseCut(c[p..end + 1], s);
    Windows(c, p, end + 1, n);
    e, rest := s[..m], s[m..];
  }

  lemma LooseNext(c: seq<Byte>, p: nat, end: nat, s: seq<Byte>) returns (n: nat, e: seq<Byte>, rest: seq<Byte>)
    requires p < end < |c| && c[p..end + 1] != [0x5C, 0x22] && LooseChars(c[p..end + 1], s)
    ensures 0 < n && p + n <= end && s == e + rest && LooseChars(c[p + n..end + 1], rest)
    ensures Unescape(c, p, end) == Prepend(e, Unescape(c, p + n, end))
  {
    n, e, rest := LooseLess(c, p, end, s);
    TakenGives(c, p, end, n, e);
  }

  lemma {:induction false} LooseIsUnescape(c: seq<Byte>, p: nat, end: nat, s: seq<Byte>)
    requires p <= end < |c| && LooseChars(c[p..end + 1], s)
    ensures Unescape(c, p, end) == Some(s)
    decreases end - p
  {
    if p < end && c[p..end + 1] == [0x5C, 0x22] {
      LoneBackslash(c, p, end);
    } else if p < end {
      var n, e, rest := LooseNext(c, p, end, s);
      LooseIsUnescape(c, p + n, end, rest);
    }
  }

  lemma {:induction false} UnescapeIsLoose(c: seq<Byte>, p: nat, end: nat)
    requires p <= end < |c| && c[end] == QUOTE && Unescape(c, p, end).Some?
    ensures LooseChars(c[p..end + 1], Unescape(c, p, end).value)
    decreases end - p
  {
    if p < end && c[p..end + 1] == [0x5C, 0x22] {
      LoneBackslash(c, p, end);
    } else if p < end {
      var n, e := TakenIs(c, p, end);
      UnescapeIsLoose(c, p + n, end);
      LooseMore(c, p, end, n, e, Unescape(c, p + n, end).value);
    }
  }

  /** parse_string, exactly: what it takes for a string, and the bytes it makes of it. */
  lemma LiteralExactly(c: seq<Byte>, s: seq<Byte>, n: nat)
    ensures Literal(c, 0) == Some((s, n)) <==> n <= |c| && IsLooseString(c[..n], s)
  {
    if Literal(c, 0) == Some((s, n)) {
      LiteralWindow(c, n);
      ClosingExactly(c, 1, n - 1);
      UnescapeIsLoose(c, 1, n - 1);
    }
    if n <= |c| && IsLooseString(c[..n], s) {
      LiteralWindow(c, n);
      ClosingExactly(c, 1, n - 1);
      LooseIsUnescape(c, 1, n - 1, s);
    }
  }

  lemma LiteralWindow(c: seq<Byte>, n: nat)
    requires 2 <= n <= |c|
    ensures c[..n][0] == c[0] && c[..n][n - 1] == c[n - 1] && c[..n][1..n - 1] == c[1..n - 1] && c[..n][1..] == c[1..n]
  {
  }
}
