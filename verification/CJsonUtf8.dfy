/** What parse_string does to UTF-8: the characters it writes for escapes, and when well-formed text stays
well-formed. */
module CJsonUtf8 {
  import opened Bytes
  import opened Options
  import opened CJsonString
  import opened CJsonLiteral

  /** The code point that an escape of valid digits names (section 7 of RFC 8259). */
  function Named(s: seq<Byte>, at: nat, end: nat): Option<nat>
    requires at + 6 <= end <= |s| && HexDigits(s, at + 2, 4)
  {
    var unit := HexValue(s, at + 2, 4);
    if Scalar(unit) then Some(unit)
    else if HighSurrogate(unit) && at + 12 <= end && s[at + 6] == BACKSLASH && s[at + 7] == LETTER_U &&
            HexDigits(s, at + 8, 4) && LowSurrogate(HexValue(s, at + 8, 4)) then
      Some(PairValue(unit, HexValue(s, at + 8, 4)))
    else None
  }

  /** An escape of valid digits writes bytes that decode to the code point it names, and is refused when it names
      none. */
  lemma EscapeWritten(c: seq<Byte>, p: nat, end: nat)
    requires p + 6 <= end < |c| && c[p] == BACKSLASH && c[p + 1] == LETTER_U && HexDigits(c, p + 2, 4)
    ensures Unit(c, p, end).Some? <==> Named(c, p, end).Some?
    ensures Unit(c, p, end).Some? ==> DecodeUtf8(EncodeUtf8(Unit(c, p, end).value.1)) == Named(c, p, end)
  {
    EscapeOfHex(c, p, end);
    if Unit(c, p, end).Some? {
      DecodeEncoded(Unit(c, p, end).value.1);
    }
  }

  // ----- well-formed text -----

  /** The length of the character that a text starts with, 0 when it starts with none. */
  function CharLength(s: seq<Byte>): (n: nat)
    ensures n <= |s|
  {
    if |s| >= 1 && DecodeUtf8(s[..1]).Some? then 1
    else if |s| >= 2 && DecodeUtf8(s[..2]).Some? then 2
    else if |s| >= 3 && DecodeUtf8(s[..3]).Some? then 3
    else if |s| >= 4 && DecodeUtf8(s[..4]).Some? then 4
    else 0
  }

  /** A sequence of characters (section 4 of RFC 3629). */
  predicate WellFormed(s: seq<Byte>)
    decreases |s|
  {
    s == [] || (CharLength(s) > 0 && WellFormed(s[CharLength(s)..]))
  }

  /** A character starts with no tail byte and goes on with tail bytes. */
  lemma CharBytes(s: seq<Byte>)
    ensures CharLength(s) > 0 ==> !Tail(s[0]) && forall i :: 1 <= i < CharLength(s) ==> Tail(s[i])
  {
  }

  /** An encoded character is recognized in front of anything. */
  lemma CharFirst(e: seq<Byte>, rest: seq<Byte>)
    requires DecodeUtf8(e).Some?
    ensures CharLength(e + rest) == |e| && WellFormed(e + rest) == WellFormed(rest)
  {
    var s := e + rest;
    assert 1 <= |e| <= 4 && s[..|e|] == e && s[|e|..] == rest;
    forall n | 1 <= n < |e| ensures DecodeUtf8(s[..n]).None? {
      assert s[..n][0] == e[0];
    }
  }

  /** Well-formed text is well-formed from every byte on that is no tail byte. */
  lemma {:induction false} Boundary(s: seq<Byte>, i: nat)
    requires WellFormed(s) && i <= |s| && (i == |s| || !Tail(s[i]))
    ensures WellFormed(s[i..])
    decreases |s|
  {
    if i > 0 {
      var n := CharLength(s);
      CharBytes(s);
      assert n <= i;
      Boundary(s[n..], i - n);
      assert s[n..][i - n..] == s[i..];
    }
  }

  lemma BoundaryIn(c: seq<Byte>, p: nat, end: nat, q: nat)
    requires p <= q < end <= |c| && WellFormed(c[p..end]) && !Tail(c[q])
    ensures WellFormed(c[q..end])
  {
    var w := c[p..end];
    assert w[q - p] == c[q] && w[q - p..] == c[q..end];
    Boundary(w, q - p);
  }

  /** The bytes behind a tail byte are no well-formed text. */
  lemma TailFirst(s: seq<Byte>)
    requires s != [] && Tail(s[0])
    ensures !WellFormed(s)
  {
    CharBytes(s);
  }

  // ----- escapes that end inside a character -----

  /** The writing pass over `c[p..end]` takes an escape that ends inside a character. */
  predicate Cuts(c: seq<Byte>, p: nat, end: nat)
    requires end < |c|
    decreases end - p
  {
    if p >= end then false
    else if c[p] != BACKSLASH then Cuts(c, p + 1, end)
    else
      var u := Unit(c, p, end);
      u.Some? && ((p + u.value.0 < end && Tail(c[p + u.value.0])) || Cuts(c, p + u.value.0, end))
  }

  /** A character without an escape is copied. */
  lemma {:induction false} Copied(c: seq<Byte>, p: nat, end: nat, n: nat)
    requires p + n <= end < |c| && forall i :: p <= i < p + n ==> c[i] != BACKSLASH
    ensures Unescape(c, p, end) == Prepend(c[p..p + n], Unescape(c, p + n, end))
    ensures Cuts(c, p, end) == Cuts(c, p + n, end)
    decreases n
  {
    if n == 0 {
      assert c[p..p] == [];
      PrependEmpty(Unescape(c, p, end));
    } else {
      Copied(c, p + 1, end, n - 1);
      assert c[p..p + n] == [c[p]] + c[p + 1..p + n];
      PrependTwice([c[p]], c[p + 1..p + n], Unescape(c, p + n, end));
    }
  }

  /** What an escape writes is one character. */
  lemma UnitIsChar(c: seq<Byte>, p: nat, end: nat)
    requires p < end < |c| && c[p] == BACKSLASH && Unit(c, p, end).Some?
    ensures DecodeUtf8(EncodeUtf8(Unit(c, p, end).value.1)).Some?
  {
    DecodeEncoded(Unit(c, p, end).value.1);
  }

  /** Well-formed contents give a well-formed string exactly when no escape ends inside a character. */
  lemma {:induction false} StaysWellFormed(c: seq<Byte>, p: nat, end: nat)
    requires p <= end < |c| && WellFormed(c[p..end]) && Unescape(c, p, end).Some?
    ensures WellFormed(Unescape(c, p, end).value) <==> !Cuts(c, p, end)
    decreases end - p, 1
  {
    if p < end {
      if c[p] == BACKSLASH {
        EscapeStaysWellFormed(c, p, end);
      } else {
        var w := c[p..end];
        var n := CharLength(w);
        CharBytes(w);
        forall i | p <= i < p + n ensures c[i] != BACKSLASH {
          assert w[i - p] == c[i];
        }
        Copied(c, p, end, n);
        assert w[..n] == c[p..p + n] && w[n..] == c[p + n..end];
        StaysWellFormed(c, p + n, end);
        CharFirst(c[p..p + n], Unescape(c, p + n, end).value);
      }
    }
  }

  lemma {:induction false} EscapeStaysWellFormed(c: seq<Byte>, p: nat, end: nat)
    requires p < end < |c| && c[p] == BACKSLASH && WellFormed(c[p..end]) && Unescape(c, p, end).Some?
    ensures WellFormed(Unescape(c, p, end).value) <==> !Cuts(c, p, end)
    decreases end - p, 0
  {
    var u := Unit(c, p, end).value;
    var q := p + u.0;
    var rest := Unescape(c, q, end).value;
    UnitIsChar(c, p, end);
    CharFirst(EncodeUtf8(u.1), rest);
    if q < end {
      if Tail(c[q]) {
        assert rest[0] == c[q];
        TailFirst(rest);
      } else {
        BoundaryIn(c, p, end, q);
        StaysWellFormed(c, q, end);
      }
    }
  }

  /** parse_string on a literal with well-formed contents. */
  lemma LiteralStaysWellFormed(c: seq<Byte>, o: nat)
    requires Literal(c, o).Some? && WellFormed(c[o + 1..Closing(c, o + 1).value])
    ensures WellFormed(Literal(c, o).value.0) <==> !Cuts(c, o + 1, Closing(c, o + 1).value)
  {
    StaysWellFormed(c, o + 1, Closing(c, o + 1).value);
  }

  // ----- valid escapes never do -----

  /** Every escape that the writing pass takes has hexadecimal digits. */
  predicate ValidDigits(c: seq<Byte>, p: nat, end: nat)
    requires end < |c|
    decreases end - p
  {
    if p >= end then true
    else if c[p] != BACKSLASH then ValidDigits(c, p + 1, end)
    else
      var u := Unit(c, p, end);
      u.Some? ==> (u.value.0 == 6 ==> HexDigits(c, p + 2, 4)) && ValidDigits(c, p + u.value.0, end)
  }

  /** No tail byte follows an ASCII byte. */
  lemma {:induction false} NoTailAfterAscii(s: seq<Byte>, i: nat)
    requires WellFormed(s) && 0 < i < |s| && s[i - 1] < 0x80
    ensures !Tail(s[i])
    decreases |s|
  {
    var n := CharLength(s);
    CharBytes(s);
    assert s[0] < 0x80 ==> n == 1;
    if i > n {
      NoTailAfterAscii(s[n..], i - n);
    } else if i == n {
      CharBytes(s[n..]);
    }
  }

  /** An escape with valid digits ends in an ASCII byte. */
  lemma EscapeEnd(c: seq<Byte>, p: nat, end: nat)
    requires p < end < |c| && c[p] == BACKSLASH && Unit(c, p, end).Some?
    requires Unit(c, p, end).value.0 == 6 ==> HexDigits(c, p + 2, 4)
    ensures c[p + Unit(c, p, end).value.0 - 1] < 0x80
  {
  }

  lemma {:induction false} ValidNeverCuts(c: seq<Byte>, p: nat, end: nat, from: nat)
    requires from <= p && from <= end < |c| && WellFormed(c[from..end]) && ValidDigits(c, p, end)
    ensures !Cuts(c, p, end)
    decreases end - p
  {
    if p < end {
      if c[p] != BACKSLASH {
        ValidNeverCuts(c, p + 1, end, from);
      } else if Unit(c, p, end).Some? {
        var q := p + Unit(c, p, end).value.0;
        EscapeEnd(c, p, end);
        if q < end {
          assert c[from..end][q - from - 1] == c[q - 1] && c[from..end][q - from] == c[q];
          NoTailAfterAscii(c[from..end], q - from);
        }
        ValidNeverCuts(c, q, end, from);
      }
    }
  }

  /** A literal of well-formed text and valid escapes has a well-formed value. */
  lemma ValidLiteral(c: seq<Byte>, o: nat)
    requires Literal(c, o).Some? && WellFormed(c[o + 1..Closing(c, o + 1).value])
    requires ValidDigits(c, o + 1, Closing(c, o + 1).value)
    ensures WellFormed(Literal(c, o).value.0)
  {
    ValidNeverCuts(c, o + 1, Closing(c, o + 1).value, o + 1);
    LiteralStaysWellFormed(c, o);
  }

  /** An escape of three digits and the first byte of a two-byte character: the text in the quotes is well-formed, the
      escape reads as NUL, and the second byte of the character is left. */
  lemma CutCharacter(c: seq<Byte>)
    requires c == [QUOTE, BACKSLASH, LETTER_U, 49, 50, 51, 0xC3, 0xA9, QUOTE, 0]
    ensures Closing(c, 1) == Some(8) && WellFormed(c[1..8])
    ensures Literal(c, 0) == Some(([0, 0xA9], 9)) && !WellFormed([0, 0xA9])
  {
    CutContents(c[1..8]);
    CutClosing(c);
    CutWritten(c);
    CharFirst([0], [0xA9]);
    assert [0] + [0xA9] == [0, 0xA9 as Byte];
    TailFirst([0xA9]);
  }

  lemma CutClosing(c: seq<Byte>)
    requires c == [QUOTE, BACKSLASH, LETTER_U, 49, 50, 51, 0xC3, 0xA9, QUOTE, 0]
    ensures Closing(c, 1) == Some(8)
  {
    assert Closing(c, 7) == Closing(c, 8) == Some(8);
    assert Closing(c, 5) == Closing(c, 6) == Closing(c, 7);
    assert Closing(c, 3) == Closing(c, 4) == Closing(c, 5);
  }

  lemma CutWritten(c: seq<Byte>)
    requires c == [QUOTE, BACKSLASH, LETTER_U, 49, 50, 51, 0xC3, 0xA9, QUOTE, 0]
    ensures Unescape(c, 1, 8) == Some([0, 0xA9])
  {
    assert HexDigit(c[6]) == -1;
    assert Hex4(c, 3) == 0 && Unit(c, 1, 8) == Some((6, 0));
    assert Unescape(c, 8, 8) == Some([]) && [0xA9 as Byte] + [] == [0xA9];
    assert Unescape(c, 7, 8) == Prepend([0xA9], Unescape(c, 8, 8));
    assert EncodeUtf8(0) == [0] && [0] + [0xA9] == [0, 0xA9 as Byte];
  }

  lemma CutContents(s: seq<Byte>)
    requires s == [BACKSLASH, LETTER_U, 49, 50, 51, 0xC3, 0xA9]
    ensures WellFormed(s)
  {
    assert [0xC3, 0xA9 as Byte] + [] == [0xC3, 0xA9];
    CharFirst([0xC3, 0xA9], []);
    CharFirst([51], [0xC3, 0xA9]);
    CharFirst([50], [51] + [0xC3, 0xA9]);
    CharFirst([49], [50] + ([51] + [0xC3, 0xA9]));
    CharFirst([LETTER_U], [49] + ([50] + ([51] + [0xC3, 0xA9])));
    CharFirst([BACKSLASH], [LETTER_U] + ([49] + ([50] + ([51] + [0xC3, 0xA9]))));
    assert s == [BACKSLASH] + ([LETTER_U] + ([49] + ([50] + ([51] + [0xC3, 0xA9]))));
  }
}
