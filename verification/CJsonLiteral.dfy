/** parse_string of cJSON: the pass that counts and the pass that writes. The input ends in a NUL byte, as in
cJSON_Parse. */
module CJsonLiteral {
  import opened Bytes
  import opened Options
  import opened CJsonString

  predicate Terminated(c: seq<Byte>) {
    c != [] && c[|c| - 1] == 0
  }

  /** First pass: the closing quote, stepping over escaped bytes. */
  function Closing(c: seq<Byte>, i: nat): (r: Option<nat>)
    ensures r.Some? ==> i <= r.value < |c| && c[r.value] == QUOTE
    decreases |c| - i
  {
    if i >= |c| then None
    else if c[i] == QUOTE then Some(i)
    else if c[i] == BACKSLASH then (if i + 1 >= |c| then None else Closing(c, i + 2))
    else Closing(c, i + 1)
  }

  /** The byte that a two-byte escape stands for. */
  function SimpleEscape(b: Byte): (r: Option<Byte>)
    ensures r.Some? ==> r.value < 0x80
  {
    if b == 98 then Some(8)
    else if b == 102 then Some(12)
    else if b == 110 then Some(10)
    else if b == 114 then Some(13)
    else if b == 116 then Some(9)
    else if b == QUOTE || b == BACKSLASH || b == 47 then Some(b)
    else None
  }

  /** One unit of the second pass, a plain byte or an escape: how many bytes it takes and the code
      point it stands for. An escape whose backslash is the last byte before `end` takes the closing
      quote as its second byte. */
  function Unit(c: seq<Byte>, p: nat, end: nat): (r: Option<(nat, nat)>)
    requires p < end < |c| && c[p] == BACKSLASH
    ensures r.Some? ==> r.value.0 in {2, 6, 12} && p + r.value.0 <= (if r.value.0 == 2 then end + 1 else end)
    ensures r.Some? ==> r.value.1 <= 0x10FFFF && 1 + TailCount(r.value.1) <= r.value.0 / 2
  {
    if c[p + 1] == LETTER_U then Escape(c, p, end)
    else
      var b := SimpleEscape(c[p + 1]);
      if b.None? then None else Some((2, b.value))
  }

  /** Second pass: the bytes written for `c[p..end]`. */
  function Unescape(c: seq<Byte>, p: nat, end: nat): Option<seq<Byte>>
    requires end < |c|
    decreases end - p
  {
    if p >= end then Some([])
    else if c[p] != BACKSLASH then Prepend([c[p]], Unescape(c, p + 1, end))
    else
      var u := Unit(c, p, end);
      if u.None? then None else Prepend(EncodeUtf8(u.value.1), Unescape(c, p + u.value.0, end))
  }

  function Prepend(s: seq<Byte>, r: Option<seq<Byte>>): Option<seq<Byte>> {
    if r.None? then None else Some(s + r.value)
  }

  lemma PrependEmpty(r: Option<seq<Byte>>)
    ensures Prepend([], r) == r
  {
    assert r.Some? ==> [] + r.value == r.value;
  }

  lemma PrependTwice(a: seq<Byte>, b: seq<Byte>, r: Option<seq<Byte>>)
    ensures Prepend(a, Prepend(b, r)) == Prepend(a + b, r)
  {
    assert r.Some? ==> a + (b + r.value) == a + b + r.value;
  }

  /** A string literal at offset `o`: its value and the offset after it. */
  function Literal(c: seq<Byte>, o: nat): (r: Option<(seq<Byte>, nat)>)
    ensures r.Some? ==> o < r.value.1 <= |c|
    ensures r.Some? && Terminated(c) ==> r.value.1 < |c|
  {
    if o >= |c| || c[o] != QUOTE then None
    else
      var end := Closing(c, o + 1);
      if end.None? then None
      else
        var s := Unescape(c, o + 1, end.value);
        if s.None? then None else Some((s.value, end.value + 1))
  }

  // ----- the allocation made by the first pass suffices for the second -----

  /** How many escapes the first pass, started at `i`, begins before `p`. */
  function EscapesBefore(c: seq<Byte>, i: nat, p: nat): nat
    requires p <= |c|
    decreases p - i
  {
    if i >= p then 0
    else if c[i] == BACKSLASH then 1 + EscapesBefore(c, i + 2, p)
    else EscapesBefore(c, i + 1, p)
  }

  /** The bytes that the first pass allots to the output of `c[start..p]`. */
  ghost function Room(c: seq<Byte>, start: nat, p: nat): int
    requires p <= |c|
  {
    p - start - EscapesBefore(c, start, p)
  }

  /** An escape takes two bytes, so a window of `d` bytes begins at most `(d + 1) / 2` of them, however the
      window lies relative to the first pass's boundaries. */
  lemma {:induction false} EscapesInWindow(c: seq<Byte>, i: nat, p: nat, d: nat)
    requires p + d <= |c|
    ensures EscapesBefore(c, i, p + d) <=
      EscapesBefore(c, i, p) + (if i <= p then d + 1 else if i <= p + d then p + d - i + 1 else 0) / 2
    decreases p + d - i
  {
    if i < p + d {
      if c[i] == BACKSLASH {
        EscapesInWindow(c, i + 2, p, d);
      } else {
        EscapesInWindow(c, i + 1, p, d);
      }
    }
  }

  /** So `d` consumed bytes allot at least `d / 2` bytes of output. */
  lemma RoomGrows(c: seq<Byte>, start: nat, p: nat, d: nat)
    requires start <= p && p + d <= |c|
    ensures Room(c, start, p + d) >= Room(c, start, p) + d / 2
  {
    EscapesInWindow(c, start, p, d);
  }

  /** A byte that is no backslash allots one byte, whether or not the first pass saw it as escaped. */
  lemma {:induction false} PlainByteHasRoom(c: seq<Byte>, i: nat, p: nat)
    requires p < |c| && c[p] != BACKSLASH
    ensures EscapesBefore(c, i, p + 1) == EscapesBefore(c, i, p)
    decreases p - i
  {
    if i < p {
      PlainByteHasRoom(c, if c[i] == BACKSLASH then i + 2 else i + 1, p);
    }
  }

  /** The first pass stands exactly on the closing quote, which begins no escape. */
  lemma {:induction false} NoEscapeAtClosing(c: seq<Byte>, i: nat)
    requires Closing(c, i).Some?
    ensures var end := Closing(c, i).value; EscapesBefore(c, i, end + 1) == EscapesBefore(c, i, end)
    decreases |c| - i
  {
    if c[i] == BACKSLASH {
      NoEscapeAtClosing(c, i + 2);
    } else if c[i] != QUOTE {
      NoEscapeAtClosing(c, i + 1);
    }
  }

  /** parse_string. `output` has the size the first pass computed; every write below is in bounds. */
  method ParseString(c: seq<Byte>, offset: nat) returns (r: Option<(seq<Byte>, nat)>)
    requires offset < |c|
    ensures r == Literal(c, offset)
  {
    if c[offset] != QUOTE {
      return None;
    }
    var start := offset + 1;
    var end, skipped := FindClosing(c, start);
    if end >= |c| {
      return None;
    }
    RoomGrows(c, start, start, end - start);
    var output := new Byte[end - offset - skipped + 1];
    var s := FillOutput(c, start, end, skipped, output);
    if s.None? {
      return None;
    }
    return Some((s.value, end + 1));
  }

  /** The counting pass of parse_string; `|c|` or more when the string does not end. */
  method FindClosing(c: seq<Byte>, start: nat) returns (end: nat, skipped: nat)
    ensures end < |c| ==> Closing(c, start) == Some(end) && skipped == EscapesBefore(c, start, end)
    ensures end >= |c| ==> Closing(c, start) == None
  {
    end, skipped := start, 0;
    while end < |c| && c[end] != QUOTE
      invariant Closing(c, start) == Closing(c, end)
      invariant end <= |c| ==> forall p :: end <= p <= |c| ==>
        EscapesBefore(c, start, p) == skipped + EscapesBefore(c, end, p)
      decreases |c| - end
    {
      if c[end] == BACKSLASH {
        if end + 1 >= |c| {
          end := |c|;
          return;
        }
        skipped := skipped + 1;
        end := end + 1;
      }
      end := end + 1;
    }
  }

  /** The reading part of utf16_literal_to_utf8. */
  method ReadEscape(c: seq<Byte>, p: nat, end: nat) returns (e: Option<(nat, nat)>)
    requires p <= end <= |c|
    ensures e == Escape(c, p, end)
  {
    if end - p < 6 {
      return None;
    }
    var first := ParseHex4(c, p + 2);
    if 0xDC00 <= first <= 0xDFFF {
      return None;
    }
    if 0xD800 <= first <= 0xDBFF {
      if end - (p + 6) < 6 {
        return None;
      }
      if c[p + 6] != BACKSLASH || c[p + 7] != LETTER_U {
        return None;
      }
      var second := ParseHex4(c, p + 8);
      if second < 0xDC00 || second > 0xDFFF {
        return None;
      }
      return Some((12, 0x10000 + (first % 0x400) * 0x400 + second % 0x400));
    }
    return Some((6, first));
  }

  /** The escape branch of the writing pass: what it reads. */
  method ReadUnit(c: seq<Byte>, p: nat, end: nat) returns (r: Option<(nat, nat)>)
    requires p < end < |c| && c[p] == BACKSLASH
    ensures r == Unit(c, p, end)
  {
    if c[p + 1] == LETTER_U {
      r := ReadEscape(c, p, end);
    } else {
      var b := SimpleEscape(c[p + 1]);
      r := if b.None? then None else Some((2, b.value));
    }
  }

  /** The writing pass of parse_string. */
  method FillOutput(c: seq<Byte>, start: nat, end: nat, skipped: nat, output: array<Byte>)
    returns (r: Option<seq<Byte>>)
    requires Closing(c, start) == Some(end) && skipped == EscapesBefore(c, start, end) <= end - start
    requires output.Length == end - start + 2 - skipped
    modifies output
    ensures r == Unescape(c, start, end)
  {
    NoEscapeAtClosing(c, start);
    var p, pos: nat := start, 0;
    PrependEmpty(Unescape(c, start, end));
    assert output[..0] == [];
    while p < end
      invariant start <= p <= end + 1
      invariant pos <= Room(c, start, p) && Room(c, start, p) <= Room(c, start, end + 1) == output.Length - 1
      invariant Unescape(c, start, end) == Prepend(output[..pos], Unescape(c, p, end))
      decreases end - p
    {
      var ok, n, next := FillUnit(c, start, end, p, pos, output);
      if !ok {
        return None;
      }
      PrependTwice(output[..pos], output[pos..next], Unescape(c, p + n, end));
      assert output[..next] == output[..pos] + output[pos..next];
      p, pos := p + n, next;
    }
    assert output[..pos] + [] == output[..pos];
    r := Some(output[..pos]);
    pos := Put(output, pos, 0);
  }

  /** One turn of that loop: a plain byte or an escape of n bytes. */
  method FillUnit(c: seq<Byte>, ghost start: nat, end: nat, p: nat, pos: nat, output: array<Byte>)
    returns (ok: bool, n: nat, pos': nat)
    requires start <= p < end < |c| && Closing(c, start) == Some(end)
    requires pos <= Room(c, start, p) && Room(c, start, end + 1) == output.Length - 1
    modifies output
    ensures !ok ==> Unescape(c, p, end) == None
    ensures ok ==> 0 < n && p + n <= end + 1 && pos <= pos' <= Room(c, start, p + n) <= Room(c, start, end + 1)
    ensures ok ==> output[..pos] == old(output[..pos])
    ensures ok ==> Unescape(c, p, end) == Prepend(output[pos..pos'], Unescape(c, p + n, end))
  {
    if c[p] != BACKSLASH {
      PlainByteHasRoom(c, start, p);
      RoomGrows(c, start, p + 1, end - p);
      ok, n := true, 1;
      pos' := Put(output, pos, c[p]);
    } else {
      var e := ReadUnit(c, p, end);
      if e.None? {
        return false, 0, pos;
      }
      var (length, code) := e.value;
      RoomGrows(c, start, p, length);
      RoomGrows(c, start, p + length, end + 1 - (p + length));
      ok, n := true, length;
      pos' := WriteUtf8(output, pos, code);
    }
  }

  method Put(output: array<Byte>, pos: nat, b: Byte) returns (pos': nat)
    requires pos < output.Length
    modifies output
    ensures pos' == pos + 1 && output[..pos'] == old(output[..pos]) + [b]
  {
    output[pos] := b;
    pos' := pos + 1;
  }
}
