/** cJSON's printer into a growable buffer, against the printing functions of `CJsonTree`. */
module CJsonPrinter {
  import opened Bytes
  import opened Options
  import opened Sizes
  import opened CJsonString
  import opened CJsonNumber
  import opened CJsonTree

  /** Every number has a text that fits print_number's own buffer. */
  predicate Short(format: Style, v: Json)
    decreases v, 1
  {
    match v
    case Number(d) => |format.number(d)| <= NUMBER_BUFFER
    case Array(items) => ShortItems(format, items)
    case Object(members) => ShortMembers(format, members)
    case _ => true
  }

  predicate ShortItems(format: Style, items: seq<Json>)
    decreases items, 0
  {
    items == [] || (Short(format, items[0]) && ShortItems(format, items[1..]))
  }

  predicate ShortMembers(format: Style, members: seq<Member>)
    decreases members, 0
  {
    members == [] || (Short(format, members[0].value) && ShortMembers(format, members[1..]))
  }

  predicate NoNuls(format: Style) {
    forall d :: 0 !in format.number(d)
  }

  /** Says no more than that its argument is looked at. */
  ghost predicate Shown(fp: Floating) {
    true
  }

  /** Numbers are rendered as print_number does. This is only looked into there. */
  ghost predicate Renders(format: Style, fp: Floating) {
    forall f {:trigger Shown(f)} :: f == fp ==> format == CjsonStyle(f, format.spaced)
  }

  /** Some request for memory is refused. */
  ghost predicate Denied(alloc: nat -> bool) {
    exists n :: !alloc(n)
  }

  // ----- facts about printed text -----

  /** How many bytes escaping adds, as the counting pass of print_string_ptr sees it. */
  function EscapeBytes(s: seq<Byte>): nat {
    if s == [] then 0
    else EscapeBytes(s[..|s| - 1]) +
         var b := s[|s| - 1];
         if b == QUOTE || b == BACKSLASH || b == 8 || b == 12 || b == 10 || b == 13 || b == 9 then 1
         else if b < 32 then 5 else 0
  }

  lemma {:induction false} EscapedConcat(s: seq<Byte>, t: seq<Byte>)
    ensures Escaped(s + t) == Escaped(s) + Escaped(t)
    decreases |s|
  {
    if s == [] {
      assert s + t == t;
    } else {
      assert (s + t)[1..] == s[1..] + t;
      EscapedConcat(s[1..], t);
    }
  }

  lemma EscapedSnoc(s: seq<Byte>, b: Byte)
    ensures Escaped(s + [b]) == Escaped(s) + EscapedByte(b)
  {
    EscapedConcat(s, [b]);
    assert [b][1..] == [];
  }

  /** The counting pass predicts the written length, and no escapes means the text is unchanged. */
  lemma {:induction false} EscapedLength(s: seq<Byte>)
    ensures |Escaped(s)| == |s| + EscapeBytes(s)
    ensures EscapeBytes(s) == 0 ==> Escaped(s) == s
    decreases |s|
  {
    if s != [] {
      var t, b := s[..|s| - 1], s[|s| - 1];
      assert s == t + [b];
      EscapedLength(t);
      EscapedSnoc(t, b);
    }
  }

  lemma {:induction false} EscapedNulFree(s: seq<Byte>)
    requires 0 !in s
    ensures 0 !in Escaped(s)
    decreases |s|
  {
    if s != [] {
      assert s[0] in s;
      EscapedNulFree(s[1..]);
    }
  }

  lemma {:induction false} PrintedNulFree(v: Json, format: Style, depth: nat)
    requires NoNuls(format)
    ensures 0 !in Printed(v, format, depth)
    decreases v, 1
  {
    match v
    case String(s) => EscapedNulFree(Cut(s));
    case Array(items) => ItemsNulFree(items, format, depth + 1);
    case Object(members) => MembersNulFree(members, format, depth + 1);
    case _ =>
  }

  lemma {:induction false} ItemsNulFree(items: seq<Json>, format: Style, depth: nat)
    requires NoNuls(format)
    ensures 0 !in PrintedItems(items, format, depth)
    decreases items, 0
  {
    if items != [] {
      PrintedNulFree(items[0], format, depth);
      ItemsNulFree(items[1..], format, depth);
    }
  }

  lemma {:induction false} MembersNulFree(members: seq<Member>, format: Style, depth: nat)
    requires NoNuls(format)
    ensures 0 !in PrintedMembers(members, format, depth)
    decreases members, 0
  {
    if members != [] {
      EscapedNulFree(Cut(members[0].key));
      PrintedNulFree(members[0].value, format, depth);
      MembersNulFree(members[1..], format, depth);
    }
  }

  // ----- the buffer -----

  /** printbuffer. `buffer.Length` is its `length` field, and `alloc` says which requests for memory are granted. */
  class PrintBuffer {
    var buffer: array<Byte>
    var offset: nat
    var depth: nat
    var requests: nat
    const noalloc: bool
    const format: Style
    const fp: Floating
    const alloc: nat -> bool

    /** How long the text can become, with two bytes to spare, and the caller's buffer when there is one. */
    ghost const limit: nat
    ghost const home: array<Byte>

    constructor (buffer: array<Byte>, noalloc: bool, format: Style, fp: Floating, alloc: nat -> bool)
      requires buffer.Length <= INT_MAX && NoNuls(format) && Renders(format, fp)
      ensures Valid() && offset == 0 && depth == 0 && this.buffer == home == buffer && this.noalloc == noalloc
      ensures this.format == format && this.alloc == alloc
      ensures limit == if noalloc then buffer.Length else INT_MAX
    {
      this.buffer, home, this.noalloc, this.format, this.fp, this.alloc := buffer, buffer, noalloc, format, fp, alloc;
      offset, depth, requests := 0, 0, 0;
      limit := if noalloc then buffer.Length else INT_MAX;
    }

    ghost predicate Valid()
      reads this
    {
      && buffer.Length <= INT_MAX && (offset < buffer.Length || (buffer.Length == 0 && offset == 0))
      && NoNuls(format) && Renders(format, fp)
      && (if noalloc then buffer == home && limit == buffer.Length else limit == INT_MAX)
    }

    /** What has been printed so far. */
    ghost function Text(): seq<Byte>
      requires offset <= buffer.Length
      reads this, buffer
    {
      buffer[..offset]
    }

    /** ensure: room for `needed` bytes and a terminator. It fails when that would exceed the limit, and when memory is
        refused, which also gives up the buffer. */
    method Ensure(needed: nat) returns (ok: bool)
      requires Valid()
      modifies `buffer, `requests
      ensures buffer == old(buffer) || fresh(buffer)
      ensures ok ==> Valid() && Text() == old(Text()) && offset + needed < buffer.Length && offset + needed + 1 <= limit
      ensures !ok ==> offset + needed + 1 > limit || Denied(alloc)
    {
      if buffer.Length > 0 && offset >= buffer.Length {
        return false;
      }
      if needed > INT_MAX {
        return false;
      }
      var total := needed + offset + 1;
      if total <= buffer.Length {
        return true;
      }
      if noalloc {
        return false;
      }
      var newSize;
      if total > INT_MAX / 2 {
        if total <= INT_MAX {
          newSize := INT_MAX;
        } else {
          return false;
        }
      } else {
        newSize := total * 2;
      }
      requests := requests + 1;
      if !alloc(requests - 1) {
        buffer := new Byte[0];
        return false;
      }
      Grow(newSize);
      return true;
    }

    /** Moves the text to a larger buffer. */
    method Grow(newSize: nat)
      requires offset <= buffer.Length <= newSize
      modifies `buffer
      ensures fresh(buffer) && buffer.Length == newSize && Text() == old(Text())
    {
      var bigger := new Byte[newSize](i => 0);
      for i := 0 to buffer.Length
        invariant buffer == old(buffer) && unchanged(buffer)
        invariant bigger[..i] == buffer[..i]
      {
        bigger[i] := buffer[i];
      }
      assert bigger[..offset] == bigger[..buffer.Length][..offset];
      buffer := bigger;
    }

    /** Writes through an output pointer at position `at`. */
    method StoreAt(at: nat, text: seq<Byte>)
      requires at + |text| <= buffer.Length
      modifies buffer
      ensures buffer[..at + |text|] == old(buffer[..at]) + text
    {
      for i := 0 to |text|
        invariant buffer[..at + i] == old(buffer[..at]) + text[..i]
      {
        buffer[at + i] := text[i];
        assert buffer[..at + i + 1] == buffer[..at + i] + [text[i]];
      }
      assert text[..|text|] == text;
    }

    /** update_offset: past the bytes up to the terminator. */
    method UpdateOffset(ghost end: nat)
      requires Valid() && offset <= end < buffer.Length && buffer[end] == 0
      requires forall i :: offset <= i < end ==> buffer[i] != 0
      modifies `offset
      ensures Valid() && offset == end
    {
      var n := offset;
      while buffer[n] != 0
        invariant offset <= n <= end
        decreases end - n
      {
        n := n + 1;
      }
      offset := n;
    }

    /** `text` has been printed behind `before`: its bytes are there with a terminator behind them, and the
        offset is somewhere within them. */
    ghost predicate Shows(before: seq<Byte>, text: seq<Byte>)
      reads this, buffer
    {
      && Valid()
      && |before| <= offset <= |before| + |text| < buffer.Length
      && buffer[..|before| + |text|] == before + text
      && buffer[|before| + |text|] == 0
    }

    /** Writes `text` at the offset, and a terminator. */
    method StoreText(text: seq<Byte>)
      requires Valid() && offset + |text| < buffer.Length
      modifies buffer
      ensures Shows(old(Text()), text)
    {
      StoreAt(offset, text);
      Terminate(offset + |text|);
    }

    method Terminate(end: nat)
      requires end < buffer.Length
      modifies buffer
      ensures buffer[..end] == old(buffer[..end]) && buffer[end] == 0
    {
      buffer[end] := 0;
    }

    /** print_string_ptr. */
    method PrintString(bytes: seq<Byte>) returns (ok: bool)
      requires Valid()
      modifies `buffer, `requests, buffer
      ensures buffer == old(buffer) || fresh(buffer)
      ensures ok ==> offset + |Quoted(Cut(bytes))| + 2 <= limit
      ensures !ok ==> offset + |Quoted(Cut(bytes))| + 2 > limit || Denied(alloc)
      ensures ok ==> Shows(old(Text()), Quoted(Cut(bytes)))
    {
      var s := ToNul(bytes);
      var escapes := CountEscapes(s);
      EscapedLength(s);
      ok := Ensure(|s| + escapes + 3);
      if ok {
        if escapes == 0 {
          StoreText([QUOTE] + s + [QUOTE]);
        } else {
          WriteQuoted(s);
        }
      }
    }

    /** The escaping branch of print_string_ptr. */
    method WriteQuoted(s: seq<Byte>)
      requires Valid() && offset + |Quoted(s)| < buffer.Length
      modifies buffer
      ensures Shows(old(Text()), Quoted(s))
    {
      StoreQuoted(s);
      Terminate(offset + |Quoted(s)|);
    }

    method StoreQuoted(s: seq<Byte>)
      requires Valid() && offset + |Quoted(s)| < buffer.Length
      modifies buffer
      ensures buffer[..offset + |Quoted(s)|] == old(Text()) + Quoted(s)
    {
      ghost var before, escaped := Text(), Escaped(s);
      assert Quoted(s) == [QUOTE] + escaped + [QUOTE];
      StoreAt(offset, [QUOTE]);
      WriteEscaped(offset + 1, s);
      assert buffer[..offset + 1 + |escaped|] == before + [QUOTE] + escaped;
      StoreAt(offset + 1 + |Escaped(s)|, [QUOTE]);
      Associate(before, [QUOTE], escaped, [QUOTE]);
    }

    method WriteEscaped(at: nat, s: seq<Byte>)
      requires at + |Escaped(s)| <= buffer.Length
      modifies buffer
      ensures buffer[..at + |Escaped(s)|] == old(buffer[..at]) + Escaped(s)
    {
      var pos := at;
      assert Escaped(s[..0]) == [];
      for i := 0 to |s|
        invariant pos == at + |Escaped(s[..i])| <= at + |Escaped(s)|
        invariant buffer[..pos] == old(buffer[..at]) + Escaped(s[..i])
      {
        EscapedStep(s, i);
        Associate(old(buffer[..at]), [], Escaped(s[..i]), EscapedByte(s[i]));
        StoreAt(pos, EscapedByte(s[i]));
        pos := pos + |EscapedByte(s[i])|;
      }
      assert s[..|s|] == s;
    }

    /** Text printed in two parts. */
    lemma Joined(before: seq<Byte>, a: seq<Byte>, b: seq<Byte>)
      requires Shows(before + a, b)
      ensures Shows(before, a + b)
    {
      assert before + a + b == before + (a + b);
    }

    /** ensure, writes through the pointer, and an explicit advance of the offset. */
    method Append(text: seq<Byte>, needed: nat) returns (ok: bool)
      requires Valid() && |text| <= needed
      modifies `buffer, `offset, `requests, buffer
      ensures buffer == old(buffer) || fresh(buffer)
      ensures ok ==> old(offset) + needed + 1 <= limit
      ensures !ok ==> old(offset) + needed + 1 > limit || Denied(alloc)
      ensures ok ==> Valid() && Text() == old(Text()) + text
    {
      ok := Ensure(needed);
      if ok {
        StoreAt(offset, text);
        offset := offset + |text|;
      }
    }

    /** A string or key, and update_offset. */
    method AppendString(s: seq<Byte>) returns (ok: bool)
      requires Valid()
      modifies `buffer, `offset, `requests, buffer
      ensures buffer == old(buffer) || fresh(buffer)
      ensures ok ==> old(offset) + |Quoted(Cut(s))| + 2 <= limit
      ensures !ok ==> old(offset) + |Quoted(Cut(s))| + 2 > limit || Denied(alloc)
      ensures ok ==> Valid() && Text() == old(Text()) + Quoted(Cut(s))
    {
      ghost var before := Text();
      ok := PrintString(s);
      if ok {
        EscapedNulFree(Cut(s));
        Advance(before, Quoted(Cut(s)));
      }
    }

    /** update_offset behind printed text. */
    method Advance(ghost before: seq<Byte>, ghost text: seq<Byte>)
      requires Shows(before, text) && 0 !in text
      modifies `offset
      ensures Valid() && Text() == before + text
    {
      ghost var end := |before| + |text|;
      forall i | offset <= i < end ensures buffer[i] != 0 {
        assert buffer[i] == buffer[..end][i] == text[i - |before|];
      }
      UpdateOffset(end);
    }

    /** print_value. It fails exactly when the text and its terminator would not fit in the limit, a number is too
        long, or memory is refused. */
    method PrintValue(v: Json) returns (ok: bool)
      requires Valid()
      modifies this, buffer
      ensures buffer == old(buffer) || fresh(buffer)
      ensures ok ==> Short(format, v) && old(offset) + |Printed(v, format, old(depth))| + 2 <= limit
      ensures !ok ==> !Short(format, v) || old(offset) + |Printed(v, format, old(depth))| + 2 > limit || Denied(alloc)
      ensures ok ==> depth == old(depth) && Shows(old(Text()), Printed(v, format, old(depth)))
      decreases v, 1
    {
      match v
      case Null => ok := PrintWord(NULL_WORD);
      case False => ok := PrintWord(FALSE_WORD);
      case True => ok := PrintWord(TRUE_WORD);
      case Number(d) => ok := PrintNumber(d);
      case String(t) => ok := PrintString(t);
      case Array(items) => ok := PrintArray(items);
      case Object(members) => ok := PrintObject(members);
    }

    method PrintWord(word: seq<Byte>) returns (ok: bool)
      requires Valid()
      modifies `buffer, `requests, buffer
      ensures buffer == old(buffer) || fresh(buffer)
      ensures ok ==> offset + |word| + 2 <= limit
      ensures !ok ==> offset + |word| + 2 > limit || Denied(alloc)
      ensures ok ==> Shows(old(Text()), word)
    {
      ok := Ensure(|word| + 1);
      if ok {
        StoreText(word);
      }
    }

    /** The text of a number: null, or fifteen digits, or seventeen when those do not come close. */
    method Render(d: Double) returns (t: seq<Byte>)
      requires Valid()
      ensures t == format.number(d)
    {
      assert Shown(fp);
      if !Finite(d) {
        t := NULL_WORD;
      } else {
        t := fp.g15(d);
        var (n, test) := fp.strtod(t);
        if n == 0 || !fp.close(test, d) {
          t := fp.g17(d);
        }
      }
    }

    /** print_number; it advances the offset itself. */
    method PrintNumber(d: Double) returns (ok: bool)
      requires Valid()
      modifies `buffer, `offset, `requests, buffer
      ensures buffer == old(buffer) || fresh(buffer)
      ensures ok ==> |format.number(d)| <= NUMBER_BUFFER && old(offset) + |format.number(d)| + 2 <= limit
      ensures !ok ==>
        |format.number(d)| > NUMBER_BUFFER || old(offset) + |format.number(d)| + 2 > limit || Denied(alloc)
      ensures ok ==> Shows(old(Text()), format.number(d))
    {
      var t := Render(d);
      if |t| > NUMBER_BUFFER {
        return false;
      }
      ok := Ensure(|t| + 1);
      if ok {
        StoreText(t);
        offset := offset + |t|;
      }
    }

    /** print_value and update_offset. */
    method AppendValue(v: Json) returns (ok: bool)
      requires Valid()
      modifies this, buffer
      ensures buffer == old(buffer) || fresh(buffer)
      ensures ok ==> Short(format, v) && old(offset) + |Printed(v, format, old(depth))| + 2 <= limit
      ensures !ok ==> !Short(format, v) || old(offset) + |Printed(v, format, old(depth))| + 2 > limit || Denied(alloc)
      ensures ok ==> depth == old(depth) && Valid() && Text() == old(Text()) + Printed(v, format, old(depth))
      decreases v, 2
    {
      ghost var before, d := Text(), depth;
      ok := PrintValue(v);
      if ok {
        PrintedNulFree(v, format, d);
        Advance(before, Printed(v, format, d));
      }
    }

    /** The end of an array or object, and the level below it. */
    method Close(ghost before: seq<Byte>, ghost inner: seq<Byte>, closing: seq<Byte>, needed: nat) returns (ok: bool)
      requires Valid() && Text() == before + inner && |closing| + 1 == needed && depth > 0
      modifies `buffer, `depth, `requests, buffer
      ensures buffer == old(buffer) || fresh(buffer)
      ensures ok ==> |before| + |inner + closing| + 2 <= limit
      ensures !ok ==> |before| + |inner + closing| + 2 > limit || Denied(alloc)
      ensures ok ==> depth == old(depth) - 1 && Shows(before, inner + closing)
    {
      ok := Ensure(needed);
      if ok {
        StoreText(closing);
        Joined(before, inner, closing);
        depth := depth - 1;
      }
    }

    /** print_array. */
    method PrintArray(items: seq<Json>) returns (ok: bool)
      requires Valid()
      modifies this, buffer
      ensures buffer == old(buffer) || fresh(buffer)
      ensures ok ==> ShortItems(format, items) && old(offset) + |Printed(Array(items), format, old(depth))| + 2 <= limit
      ensures !ok ==>
        !ShortItems(format, items) || Denied(alloc) ||
        old(offset) + |Printed(Array(items), format, old(depth))| + 2 > limit
      ensures ok ==> depth == old(depth) && Shows(old(Text()), Printed(Array(items), format, old(depth)))
      decreases items, 3
    {
      ghost var before, body := Text(), [OPEN_BRACKET] + PrintedItems(items, format, depth + 1);
      assert Printed(Array(items), format, depth) == body + [CLOSE_BRACKET];
      ok := OpenArray(items);
      if ok {
        ok := Close(before, body, [CLOSE_BRACKET], 2);
      }
    }

    method OpenArray(items: seq<Json>) returns (ok: bool)
      requires Valid()
      modifies this, buffer
      ensures buffer == old(buffer) || fresh(buffer)
      ensures ok ==> ShortItems(format, items)
      ensures !ok ==>
        || !ShortItems(format, items) || Denied(alloc)
        || old(offset) + |[OPEN_BRACKET] + PrintedItems(items, format, old(depth) + 1)| + 3 > limit
      ensures ok ==> depth == old(depth) + 1 && Valid()
      ensures ok ==> Text() == old(Text()) + ([OPEN_BRACKET] + PrintedItems(items, format, old(depth) + 1))
      decreases items, 2
    {
      ghost var before, inner := Text(), PrintedItems(items, format, depth + 1);
      ok := Append([OPEN_BRACKET], 1);
      if !ok {
        return;
      }
      depth := depth + 1;
      ok := AppendItems(items, inner);
      Associate(before, [], [OPEN_BRACKET], inner);
    }

    /** The loop of print_array. */
    method AppendItems(items: seq<Json>, ghost text: seq<Byte>) returns (ok: bool)
      requires Valid() && text == PrintedItems(items, format, depth)
      modifies this, buffer
      ensures buffer == old(buffer) || fresh(buffer)
      ensures ok ==> ShortItems(format, items)
      ensures !ok ==> !ShortItems(format, items) || old(offset) + |text| + 3 > limit || Denied(alloc)
      ensures ok ==> depth == old(depth) && Valid() && Text() == old(Text()) + text
      decreases items, 1
    {
      ghost var d := depth;
      ghost var goal := Text() + text;
      var i := 0;
      assert items[0..] == items;
      while i < |items|
        invariant i <= |items| && Valid() && depth == d && (buffer == old(buffer) || fresh(buffer))
        invariant Text() + PrintedItems(items[i..], format, d) == goal
        invariant ShortItems(format, items) <==> ShortItems(format, items[i..])
      {
        ItemsFrom(Text(), items, i, format, d);
        assert offset + |ItemText(items[i], format, d, i + 1 == |items|)| <= |goal|;
        ok := AppendItem(items[i], i + 1 == |items|);
        if !ok {
          return;
        }
        i := i + 1;
      }
      assert Text() + [] == Text();
      ok := true;
    }

    /** One turn of that loop. */
    method AppendItem(v: Json, last: bool) returns (ok: bool)
      requires Valid()
      modifies this, buffer
      ensures buffer == old(buffer) || fresh(buffer)
      ensures ok ==> Short(format, v)
      ensures !ok ==>
        !Short(format, v) || old(offset) + |ItemText(v, format, old(depth), last)| + 3 > limit || Denied(alloc)
      ensures ok ==> depth == old(depth) && Valid() && Text() == old(Text()) + ItemText(v, format, old(depth), last)
      decreases v, 3
    {
      ghost var before, d := Text(), depth;
      ok := AppendValue(v);
      if ok && !last {
        var sep := ItemSeparator(format.spaced);
        ok := Append(sep, |sep| + 1);
        Associate(before, [], Printed(v, format, d), sep);
      }
    }

    /** print_object. */
    method PrintObject(members: seq<Member>) returns (ok: bool)
      requires Valid()
      modifies this, buffer
      ensures buffer == old(buffer) || fresh(buffer)
      ensures ok ==>
        ShortMembers(format, members) && old(offset) + |Printed(Object(members), format, old(depth))| + 2 <= limit
      ensures !ok ==>
        || !ShortMembers(format, members) || Denied(alloc)
        || old(offset) + |Printed(Object(members), format, old(depth))| + 2 > limit
      ensures ok ==> depth == old(depth) && Shows(old(Text()), Printed(Object(members), format, old(depth)))
      decreases members, 3
    {
      ghost var before, inner := Text(), PrintedMembers(members, format, depth + 1);
      var opening, closing := ObjectOpening(format.spaced), ObjectClosing(format.spaced, depth);
      assert Printed(Object(members), format, depth) == opening + inner + closing;
      ok := OpenObject(members, opening, inner);
      if ok {
        ok := Close(before, opening + inner, closing, if format.spaced then depth + 1 else 2);
      }
    }

    method OpenObject(members: seq<Member>, opening: seq<Byte>, ghost inner: seq<Byte>) returns (ok: bool)
      requires Valid()
      requires inner == PrintedMembers(members, format, depth + 1)
      modifies this, buffer
      ensures buffer == old(buffer) || fresh(buffer)
      ensures ok ==> ShortMembers(format, members)
      ensures !ok ==> !ShortMembers(format, members) || old(offset) + |opening + inner| + 3 > limit || Denied(alloc)
      ensures ok ==> depth == old(depth) + 1 && Valid() && Text() == old(Text()) + (opening + inner)
      decreases members, 2
    {
      ghost var before := Text();
      ok := Append(opening, |opening| + 1);
      if !ok {
        return;
      }
      depth := depth + 1;
      ok := AppendMembers(members, inner);
      Associate(before, [], opening, inner);
    }

    /** The loop of print_object. */
    method AppendMembers(members: seq<Member>, ghost text: seq<Byte>) returns (ok: bool)
      requires Valid()
      requires text == PrintedMembers(members, format, depth)
      modifies this, buffer
      ensures buffer == old(buffer) || fresh(buffer)
      ensures ok ==> ShortMembers(format, members)
      ensures !ok ==> !ShortMembers(format, members) || old(offset) + |text| + 3 > limit || Denied(alloc)
      ensures ok ==> depth == old(depth) && Valid() && Text() == old(Text()) + text
      decreases members, 1
    {
      ghost var d := depth;
      ghost var goal := Text() + text;
      var i := 0;
      assert members[0..] == members;
      while i < |members|
        invariant i <= |members| && Valid() && depth == d && (buffer == old(buffer) || fresh(buffer))
        invariant Text() + PrintedMembers(members[i..], format, d) == goal
        invariant ShortMembers(format, members) <==> ShortMembers(format, members[i..])
      {
        ok := AppendNext(members, i, goal);
        if !ok {
          return;
        }
        i := i + 1;
      }
      assert members[i..] == [] && PrintedMembers([], format, d) == [];
      assert Text() + [] == Text();
      ok := true;
    }

    /** One turn of that loop. */
    method AppendNext(members: seq<Member>, i: nat, ghost goal: seq<Byte>) returns (ok: bool)
      requires Valid() && i < |members| && Text() + PrintedMembers(members[i..], format, depth) == goal
      modifies this, buffer
      ensures buffer == old(buffer) || fresh(buffer)
      ensures ok ==> depth == old(depth) && Valid() && Text() + PrintedMembers(members[i + 1..], format, depth) == goal
      ensures ok ==> (ShortMembers(format, members[i..]) <==> ShortMembers(format, members[i + 1..]))
      ensures !ok ==> !ShortMembers(format, members[i..]) || |goal| + 3 > limit || Denied(alloc)
      decreases members, 0
    {
      MembersFrom(Text(), members, i, format, depth);
      ok := AppendMember(members[i], i + 1 == |members|);
    }

    method AppendMember(m: Member, last: bool) returns (ok: bool)
      requires Valid()
      modifies this, buffer
      ensures buffer == old(buffer) || fresh(buffer)
      ensures ok ==> Short(format, m.value)
      ensures !ok ==>
        !Short(format, m.value) || old(offset) + |MemberText(m, format, old(depth), last)| + 3 > limit || Denied(alloc)
      ensures ok ==> depth == old(depth) && Valid() && Text() == old(Text()) + MemberText(m, format, old(depth), last)
      decreases m, 3
    {
      ghost var before, d := Text(), depth;
      ok := AppendKey(m.key);
      if !ok {
        return;
      }
      ok := AppendValue(m.value);
      if !ok {
        return;
      }
      var end := MemberEnd(format.spaced, last);
      ok := Append(end, |end| + 1);
      Associate(before, KeyText(m.key, format, d), Printed(m.value, format, d), end);
    }

    method AppendKey(key: seq<Byte>) returns (ok: bool)
      requires Valid()
      modifies `buffer, `offset, `requests, buffer
      ensures buffer == old(buffer) || fresh(buffer)
      ensures !ok ==> old(offset) + |KeyText(key, format, depth)| + 2 > limit || Denied(alloc)
      ensures ok ==> Valid() && Text() == old(Text()) + KeyText(key, format, depth)
    {
      ghost var before := Text();
      if format.spaced {
        ok := Append(Tabs(depth), depth);
        if !ok {
          return;
        }
      }
      assert Text() == before + Indent(format.spaced, depth);
      ok := AppendString(key);
      if !ok {
        return;
      }
      var separator := KeySeparator(format.spaced);
      ok := Append(separator, |separator|);
      Associate(before, Indent(format.spaced, depth), Quoted(Cut(key)), separator);
    }
  }

  lemma Associate(a: seq<Byte>, b: seq<Byte>, c: seq<Byte>, d: seq<Byte>)
    ensures a + b + c + d == a + (b + c + d)
    ensures b == [] ==> a + c + d == a + (c + d)
  {
  }

  function ItemText(v: Json, format: Style, d: nat, last: bool): seq<Byte> {
    Printed(v, format, d) + if last then [] else ItemSeparator(format.spaced)
  }

  /** The rest of an array's text, split behind its first value and separator. */
  lemma ItemsFrom(before: seq<Byte>, items: seq<Json>, i: nat, format: Style, d: nat)
    requires i < |items|
    ensures before + PrintedItems(items[i..], format, d) ==
            before + ItemText(items[i], format, d, i + 1 == |items|) + PrintedItems(items[i + 1..], format, d)
    ensures ShortItems(format, items[i..]) <==> Short(format, items[i]) && ShortItems(format, items[i + 1..])
  {
    var rest := items[i..];
    assert rest[0] == items[i] && rest[1..] == items[i + 1..];
    if i + 1 == |items| {
      assert items[i + 1..] == [];
    }
  }

  function KeyText(key: seq<Byte>, format: Style, d: nat): seq<Byte> {
    Indent(format.spaced, d) + Quoted(Cut(key)) + KeySeparator(format.spaced)
  }

  function MemberText(m: Member, format: Style, d: nat, last: bool): seq<Byte> {
    KeyText(m.key, format, d) + Printed(m.value, format, d) + MemberEnd(format.spaced, last)
  }

  /** The rest of an object's text, split behind its first member. */
  lemma MembersFrom(before: seq<Byte>, members: seq<Member>, i: nat, format: Style, d: nat)
    requires i < |members|
    ensures
      before + PrintedMembers(members[i..], format, d) ==
      before + MemberText(members[i], format, d, i + 1 == |members|) + PrintedMembers(members[i + 1..], format, d)
    ensures ShortMembers(format, members[i..]) <==>
            Short(format, members[i].value) && ShortMembers(format, members[i + 1..])
  {
    var rest := members[i..];
    assert rest[0] == members[i] && rest[1..] == members[i + 1..];
  }

  lemma EscapedStep(s: seq<Byte>, i: nat)
    requires i < |s|
    ensures Escaped(s[..i + 1]) == Escaped(s[..i]) + EscapedByte(s[i])
    ensures |Escaped(s[..i + 1])| <= |Escaped(s)|
  {
    assert s[..i + 1] == s[..i] + [s[i]];
    EscapedSnoc(s[..i], s[i]);
    assert s == s[..i + 1] + s[i + 1..];
    EscapedConcat(s[..i + 1], s[i + 1..]);
  }

  /** The counting pass of print_string_ptr. */
  method CountEscapes(s: seq<Byte>) returns (escapes: nat)
    ensures escapes == EscapeBytes(s)
  {
    escapes := 0;
    for i := 0 to |s|
      invariant escapes == EscapeBytes(s[..i])
    {
      assert s[..i + 1][..i] == s[..i];
      var b := s[i];
      if b == QUOTE || b == BACKSLASH || b == 8 || b == 12 || b == 10 || b == 13 || b == 9 {
        escapes := escapes + 1;
      } else if b < 32 {
        escapes := escapes + 5;
      }
    }
    assert s[..|s|] == s;
  }

  /** The bytes of a C string. */
  method ToNul(bytes: seq<Byte>) returns (s: seq<Byte>)
    ensures s == Cut(bytes)
  {
    var i := 0;
    assert bytes[0..] == bytes && bytes[..0] == [];
    while i < |bytes| && bytes[i] != 0
      invariant i <= |bytes| && Cut(bytes) == bytes[..i] + Cut(bytes[i..])
    {
      CutStep(bytes, i);
      i := i + 1;
    }
    assert Cut(bytes[i..]) == [];
    s := bytes[..i];
  }

  lemma CutStep(bytes: seq<Byte>, i: nat)
    requires i < |bytes| && bytes[i] != 0
    ensures bytes[..i] + Cut(bytes[i..]) == bytes[..i + 1] + Cut(bytes[i + 1..])
  {
    assert bytes[i..][1..] == bytes[i + 1..];
    assert bytes[..i + 1] == bytes[..i] + [bytes[i]];
  }

  lemma CjsonStyleFacts(fp: Floating, spaced: bool)
    requires Lawful(fp)
    ensures NoNuls(CjsonStyle(fp, spaced)) && Renders(CjsonStyle(fp, spaced), fp)
  {
    forall d ensures 0 !in Rendered(fp, d) {
      if Finite(d) {
        assert Converts(fp, d);
      }
    }
  }

  /** cJSON_Print and cJSON_PrintUnformatted: the finished text without its terminator, or None when it would not fit
      in INT_MAX bytes, a number is too long for its buffer, or memory is refused. */
  method Print(fp: Floating, v: Json, spaced: bool, alloc: nat -> bool) returns (text: Option<seq<Byte>>)
    requires Lawful(fp)
    ensures
      var style := CjsonStyle(fp, spaced);
      && (text.Some? ==> text.value == Printed(v, style, 0) && Short(style, v) && |text.value| + 2 <= INT_MAX)
      && (text.None? ==> !Short(style, v) || |Printed(v, style, 0)| + 2 > INT_MAX || Denied(alloc))
  {
    CjsonStyleFacts(fp, spaced);
    text := PrintWith(fp, v, CjsonStyle(fp, spaced), alloc);
  }

  method PrintWith(fp: Floating, v: Json, format: Style, alloc: nat -> bool) returns (text: Option<seq<Byte>>)
    requires NoNuls(format) && Renders(format, fp)
    ensures text.Some? ==> text.value == Printed(v, format, 0) && Short(format, v) && |text.value| + 2 <= INT_MAX
    ensures text.None? ==> !Short(format, v) || |Printed(v, format, 0)| + 2 > INT_MAX || Denied(alloc)
  {
    if !alloc(0) {
      return None;
    }
    var buffer := new Byte[256](i => 0);
    var later := (n: nat) => alloc(n + 1);
    var output := new PrintBuffer(buffer, false, format, fp, later);
    var ok := output.AppendValue(v);
    assert Denied(later) ==> Denied(alloc);
    if !ok || !alloc(output.requests + 1) {
      return None;
    }
    assert [] + Printed(v, format, 0) == Printed(v, format, 0);
    text := Some(output.buffer[..output.offset]);
  }

  /** cJSON_PrintBuffered: the same from a first buffer of the caller's size, and None for a negative one. */
  method PrintBuffered(fp: Floating, v: Json, prebuffer: int, format: Style, alloc: nat -> bool)
    returns (text: Option<seq<Byte>>)
    requires NoNuls(format) && Renders(format, fp) && prebuffer <= INT_MAX
    ensures text.Some? ==>
      prebuffer >= 0 && text.value == Printed(v, format, 0) && Short(format, v) && |text.value| + 2 <= INT_MAX
    ensures text.None? ==>
      prebuffer < 0 || !Short(format, v) || |Printed(v, format, 0)| + 2 > INT_MAX || Denied(alloc)
  {
    if prebuffer < 0 || !alloc(0) {
      return None;
    }
    var buffer := new Byte[prebuffer](i => 0);
    var later := (n: nat) => alloc(n + 1);
    var output := new PrintBuffer(buffer, false, format, fp, later);
    var ok := output.PrintValue(v);
    assert Denied(later) ==> Denied(alloc);
    if !ok {
      return None;
    }
    PrintedNulFree(v, format, 0);
    output.Advance([], Printed(v, format, 0));
    assert [] + Printed(v, format, 0) == Printed(v, format, 0);
    text := Some(output.buffer[..output.offset]);
  }

  /** cJSON_PrintPreallocated: the text and its terminator in the caller's buffer, exactly when one more byte would
      fit there too and no number is too long. */
  method PrintPreallocated(fp: Floating, v: Json, buffer: array<Byte>, format: Style) returns (ok: bool)
    requires NoNuls(format) && Renders(format, fp) && buffer.Length <= INT_MAX
    modifies buffer
    ensures ok <==> Short(format, v) && |Printed(v, format, 0)| + 2 <= buffer.Length
    ensures ok ==>
      var n := |Printed(v, format, 0)|;
      buffer[..n] == Printed(v, format, 0) && buffer[n] == 0
  {
    var always := (n: nat) => true;
    var output := new PrintBuffer(buffer, true, format, fp, always);
    ok := output.PrintValue(v);
    assert !Denied(always);
    assert [] + Printed(v, format, 0) == Printed(v, format, 0);
  }
}
