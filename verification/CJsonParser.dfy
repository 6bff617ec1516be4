/** cJSON's recursive-descent parser over a moving offset, against the parsing functions of `CJsonTree`. Items are
built as values; the linked child lists are the subject of `CJsonList`. */
module CJsonParser {
  import opened Bytes
  import opened Options
  import opened CJsonString
  import opened CJsonLiteral
  import opened CJsonNumber
  import opened CJsonTree

  /** Says no more than that its argument is looked at. */
  ghost predicate Opened(strtod: Strtod) {
    true
  }

  /** The scanners are cJSON's. This is only looked into where a token is scanned; elsewhere the scanners are just
      functions. */
  ghost predicate Scans(lex: Scanner, strtod: Strtod) {
    forall f {:trigger Opened(f)} :: f == strtod ==> lex == CjsonScanner(f)
  }

  /** parse_buffer. */
  class ParseBuffer {
    const content: seq<Byte>
    ghost const lex: Scanner
    const strtod: Strtod
    var offset: nat
    var depth: nat

    constructor (text: seq<Byte>, strtod: Strtod, ghost lex: Scanner)
      requires lex.Progresses() && Scans(lex, strtod)
      ensures content == text + [0] && this.lex == lex && offset == 0 && depth == 0
      ensures Valid()
    {
      content, this.strtod, this.lex := text + [0], strtod, lex;
      offset, depth := 0, 0;
    }

    ghost predicate Valid()
      reads `offset
    {
      lex.Progresses() && Scans(lex, strtod) && Terminated(content) && offset < |content|
    }

    /** The text that is left to read. */
    function Rest(): seq<Byte>
      requires offset <= |content|
      reads `offset
    {
      content[offset..]
    }

    method Advance(n: nat)
      requires Valid() && offset + n < |content|
      modifies `offset
      ensures Valid() && offset == old(offset) + n && Rest() == old(Rest())[n..]
    {
      offset := offset + n;
    }

    /** Past a byte that is not the final NUL. */
    method Step()
      requires Valid() && content[offset] != 0
      modifies `offset
      ensures Valid() && offset == old(offset) + 1 && Rest() == old(Rest())[1..]
    {
      Advance(1);
    }

    /** buffer_skip_whitespace. */
    method SkipWhitespace()
      requires Valid()
      modifies `offset
      ensures Valid() && offset >= old(offset) && Rest() == Skip(old(Rest()))
    {
      ghost var was := Rest();
      while offset < |content| && content[offset] <= 32
        invariant old(offset) <= offset <= |content|
        invariant WithoutBlanks(was) == WithoutBlanks(Rest())
      {
        assert Rest()[1..] == content[offset + 1..];
        offset := offset + 1;
      }
      if offset == |content| {
        offset := offset - 1;
        assert was[|was| - 1..] == content[|content| - 1..];
      }
    }

    /** parse_string at the offset. */
    method ScanString() returns (t: Option<(seq<Byte>, nat)>)
      requires Valid()
      ensures t == lex.literal(Rest())
    {
      t := ParseString(content[offset..], 0);
      assert Opened(strtod);
    }

    /** parse_number at the offset. */
    method ScanNumber() returns (n: Option<(Double, nat)>)
      requires Valid()
      ensures n == lex.number(Rest())
    {
      var valueint;
      n, valueint := ReadNumber(strtod, content[offset..]);
      assert Opened(strtod);
    }

    /** parse_value. */
    method ParseValue() returns (item: Option<Json>)
      requires Valid()
      modifies `offset, `depth
      ensures item.None? ==> Parsed(lex, old(Rest()), old(depth)) == None
      ensures item.Some? ==> Valid() && offset > old(offset) && depth == old(depth)
      ensures item.Some? ==> Parsed(lex, old(Rest()), old(depth)) == Some((item.value, Rest()))
      decreases |content| - offset, 2, 1
    {
      ghost var s := Rest();
      if offset + 4 <= |content| && content[offset..offset + 4] == NULL_WORD {
        assert s[..4] == content[offset..offset + 4] && s[3] == NULL_WORD[3];
        Advance(4);
        return Some(Null);
      }
      if offset + 5 <= |content| && content[offset..offset + 5] == FALSE_WORD {
        assert s[..5] == content[offset..offset + 5] && s[4] == FALSE_WORD[4];
        Advance(5);
        return Some(False);
      }
      if offset + 4 <= |content| && content[offset..offset + 4] == TRUE_WORD {
        assert s[..4] == content[offset..offset + 4] && s[3] == TRUE_WORD[3];
        Advance(4);
        return Some(True);
      }
      assert !StartsWith(s, NULL_WORD) && !StartsWith(s, FALSE_WORD) && !StartsWith(s, TRUE_WORD);
      item := ParseOther();
    }

    /** Values that are none of the three words. */
    method ParseOther() returns (item: Option<Json>)
      requires Valid()
      requires !StartsWith(Rest(), NULL_WORD) && !StartsWith(Rest(), FALSE_WORD) && !StartsWith(Rest(), TRUE_WORD)
      modifies `offset, `depth
      ensures item.None? ==> Parsed(lex, old(Rest()), old(depth)) == None
      ensures item.Some? ==> Valid() && offset > old(offset) && depth == old(depth)
      ensures item.Some? ==> Parsed(lex, old(Rest()), old(depth)) == Some((item.value, Rest()))
      decreases |content| - offset, 2, 0
    {
      if content[offset] == QUOTE {
        var t := ScanString();
        if t.None? {
          return None;
        }
        Advance(t.value.1);
        return Some(String(t.value.0));
      }
      if StartsNumber(content[offset]) {
        var n := ScanNumber();
        if n.None? {
          return None;
        }
        Advance(n.value.1);
        return Some(Number(n.value.0));
      }
      if content[offset] == OPEN_BRACKET {
        item := ParseArray();
        return;
      }
      if content[offset] == OPEN_BRACE {
        item := ParseObject();
        return;
      }
      return None;
    }

    /** parse_array. */
    method ParseArray() returns (item: Option<Json>)
      requires Valid() && content[offset] == OPEN_BRACKET
      modifies `offset, `depth
      ensures item.None? ==> ParsedArray(lex, old(Rest()), old(depth)) == None
      ensures item.Some? ==> Valid() && offset > old(offset) && depth == old(depth)
      ensures item.Some? ==> ParsedArray(lex, old(Rest()), old(depth)) == Some((item.value, Rest()))
      decreases |content| - offset, 1
    {
      if depth >= NESTING_LIMIT {
        return None;
      }
      depth := depth + 1;
      Step();
      SkipWhitespace();
      item := FinishArray();
      if item.Some? {
        depth := depth - 1;
      }
    }

    /** parse_array from its first element on, to the closing byte. */
    method FinishArray() returns (item: Option<Json>)
      requires Valid()
      modifies `offset, `depth
      ensures item.None? ==> ArrayFrom(lex, old(Rest()), old(depth)) == None
      ensures item.Some? ==> Valid() && offset > old(offset) && depth == old(depth)
      ensures item.Some? ==> ArrayFrom(lex, old(Rest()), old(depth)) == Some((item.value, Rest()))
      decreases |content| - offset, 4
    {
      if content[offset] == CLOSE_BRACKET {
        Step();
        return Some(Array([]));
      }
      var items := ParseItems();
      if items.None? || content[offset] != CLOSE_BRACKET {
        return None;
      }
      Step();
      return Some(Array(items.value));
    }

    /** Blanks and a value. */
    method ParseElement() returns (item: Option<Json>)
      requires Valid()
      modifies `offset, `depth
      ensures item.None? ==> Parsed(lex, Skip(old(Rest())), old(depth)) == None
      ensures item.Some? ==> Valid() && offset > old(offset) && depth == old(depth)
      ensures item.Some? ==> Parsed(lex, Skip(old(Rest())), old(depth)) == Some((item.value, Rest()))
      decreases |content| - offset, 2, 2
    {
      SkipWhitespace();
      item := ParseValue();
    }

    /** The loop over comma-separated elements in parse_array. */
    method ParseItems() returns (items: Option<seq<Json>>)
      requires Valid()
      modifies `offset, `depth
      ensures items.None? ==> ParsedItems(lex, old(Rest()), old(depth)) == None
      ensures items.Some? ==> Valid() && offset > old(offset) && depth == old(depth)
      ensures items.Some? ==> ParsedItems(lex, old(Rest()), old(depth)) == Some((items.value, Rest()))
      decreases |content| - offset, 3, 1
    {
      var done: seq<Json> := [];
      var more := true;
      ghost var goal := ParsedItems(lex, Rest(), depth);
      PrependNone(goal);
      while more
        invariant Valid() && offset >= old(offset) && depth == old(depth)
        invariant more ==> goal == PrependItems(done, ParsedItems(lex, Rest(), depth))
        invariant !more ==> offset > old(offset) && goal == Some((done, Rest()))
        decreases |content| - offset, more
      {
        ghost var all := ParsedItems(lex, Rest(), depth);
        var r;
        r, more := ParseItemTurn();
        if r.None? {
          return None;
        }
        TurnTaken(done, r.value, more, all, ParsedItems(lex, Rest(), depth), Rest());
        done := done + [r.value];
      }
      return Some(done);
    }

    /** One turn of that loop: an element, and whether a comma announces another. */
    method ParseItemTurn() returns (r: Option<Json>, more: bool)
      requires Valid()
      modifies `offset, `depth
      ensures r.None? ==> ParsedItems(lex, old(Rest()), old(depth)) == None
      ensures r.Some? ==> Valid() && offset > old(offset) && depth == old(depth)
      ensures r.Some? ==>
        ParsedItems(lex, old(Rest()), old(depth)) ==
        if more then PrependItems([r.value], ParsedItems(lex, Rest(), depth)) else Some(([r.value], Rest()))
      decreases |content| - offset, 3, 0
    {
      ghost var s := Rest();
      r, more := None, false;
      r := ParseElement();
      if r.None? {
        return;
      }
      ghost var rest := Rest();
      SkipWhitespace();
      ItemsUnfold(lex, s, depth, r.value, rest);
      more := content[offset] == COMMA;
      if more {
        Step();
      }
    }

    /** parse_object. */
    method ParseObject() returns (item: Option<Json>)
      requires Valid() && content[offset] == OPEN_BRACE
      modifies `offset, `depth
      ensures item.None? ==> ParsedObject(lex, old(Rest()), old(depth)) == None
      ensures item.Some? ==> Valid() && offset > old(offset) && depth == old(depth)
      ensures item.Some? ==> ParsedObject(lex, old(Rest()), old(depth)) == Some((item.value, Rest()))
      decreases |content| - offset, 1
    {
      if depth >= NESTING_LIMIT {
        return None;
      }
      depth := depth + 1;
      Step();
      SkipWhitespace();
      item := FinishObject();
      if item.Some? {
        depth := depth - 1;
      }
    }

    /** parse_object from its first element on, to the closing byte. */
    method FinishObject() returns (item: Option<Json>)
      requires Valid()
      modifies `offset, `depth
      ensures item.None? ==> ObjectFrom(lex, old(Rest()), old(depth)) == None
      ensures item.Some? ==> Valid() && offset > old(offset) && depth == old(depth)
      ensures item.Some? ==> ObjectFrom(lex, old(Rest()), old(depth)) == Some((item.value, Rest()))
      decreases |content| - offset, 4
    {
      if content[offset] == CLOSE_BRACE {
        Step();
        return Some(Object([]));
      }
      var members := ParseMembers();
      if members.None? || content[offset] != CLOSE_BRACE {
        return None;
      }
      Step();
      return Some(Object(members.value));
    }

    /** The loop over comma-separated members in parse_object. */
    method ParseMembers() returns (members: Option<seq<Member>>)
      requires Valid()
      modifies `offset, `depth
      ensures members.None? ==> ParsedMembers(lex, old(Rest()), old(depth)) == None
      ensures members.Some? ==> Valid() && offset > old(offset) && depth == old(depth)
      ensures members.Some? ==> ParsedMembers(lex, old(Rest()), old(depth)) == Some((members.value, Rest()))
      decreases |content| - offset, 3, 1
    {
      var done: seq<Member> := [];
      var more := true;
      ghost var goal := ParsedMembers(lex, Rest(), depth);
      PrependNone(goal);
      while more
        invariant Valid() && offset >= old(offset) && depth == old(depth)
        invariant more ==> goal == PrependItems(done, ParsedMembers(lex, Rest(), depth))
        invariant !more ==> offset > old(offset) && goal == Some((done, Rest()))
        decreases |content| - offset, more
      {
        ghost var all := ParsedMembers(lex, Rest(), depth);
        var r;
        r, more := ParseMemberTurn();
        if r.None? {
          return None;
        }
        TurnTaken(done, r.value, more, all, ParsedMembers(lex, Rest(), depth), Rest());
        done := done + [r.value];
      }
      return Some(done);
    }

    /** One turn of that loop: an element, and whether a comma announces another. */
    method ParseMemberTurn() returns (r: Option<Member>, more: bool)
      requires Valid()
      modifies `offset, `depth
      ensures r.None? ==> ParsedMembers(lex, old(Rest()), old(depth)) == None
      ensures r.Some? ==> Valid() && offset > old(offset) && depth == old(depth)
      ensures r.Some? ==>
        ParsedMembers(lex, old(Rest()), old(depth)) ==
        if more then PrependItems([r.value], ParsedMembers(lex, Rest(), depth)) else Some(([r.value], Rest()))
      decreases |content| - offset, 3, 0
    {
      ghost var s := Rest();
      r, more := None, false;
      var key := ParseKey();
      if key.None? {
        return;
      }
      var v := ParseValue();
      if v.None? {
        return;
      }
      ghost var rest := Rest();
      SkipWhitespace();
      MembersUnfold(lex, s, depth, key.value, v.value, rest);
      r := Some(Member(key.value, v.value));
      more := content[offset] == COMMA;
      if more {
        Step();
      }
    }

    /** The name of a member and its colon, up to its value. */
    method ParseKey() returns (key: Option<seq<Byte>>)
      requires Valid()
      modifies `offset
      ensures key.None? ==> KeyOf(lex, old(Rest())) == None
      ensures key.Some? ==> Valid() && offset > old(offset) && KeyOf(lex, old(Rest())) == Some((key.value, Rest()))
    {
      SkipWhitespace();
      var t := ScanString();
      if t.None? {
        return None;
      }
      Advance(t.value.1);
      SkipWhitespace();
      if content[offset] != COLON {
        return None;
      }
      Step();
      SkipWhitespace();
      return Some(t.value.0);
    }
  }

  function PrependItems<T>(done: seq<T>, r: Option<(seq<T>, seq<Byte>)>): Option<(seq<T>, seq<Byte>)> {
    if r.None? then None else Some((done + r.value.0, r.value.1))
  }

  lemma PrependNone<T>(r: Option<(seq<T>, seq<Byte>)>)
    ensures PrependItems([], r) == r
  {
    assert r.Some? ==> [] + r.value.0 == r.value.0;
  }

  /** One turn takes `v` off the front of what is left. */
  lemma TurnTaken<T>(done: seq<T>, v: T, more: bool, all: Option<(seq<T>, seq<Byte>)>,
                     left: Option<(seq<T>, seq<Byte>)>,
                     rest: seq<Byte>)
    requires all == if more then PrependItems([v], left) else Some(([v], rest))
    ensures PrependItems(done, all) == if more then PrependItems(done + [v], left) else Some((done + [v], rest))
  {
    assert left.Some? ==> done + ([v] + left.value.0) == done + [v] + left.value.0;
  }

  /** One turn of the element loop. */
  lemma ItemsUnfold(lex: Scanner, s: seq<Byte>, depth: nat, v: Json, r: seq<Byte>)
    requires lex.Progresses() && Terminated(s) && Terminated(r) && Parsed(lex, Skip(s), depth) == Some((v, r))
    ensures
      var next := Skip(r);
      ParsedItems(lex, s, depth) ==
      if next[0] != COMMA then Some(([v], next)) else PrependItems([v], ParsedItems(lex, next[1..], depth))
  {
  }

  /** One turn of the member loop. */
  lemma MembersUnfold(lex: Scanner, s: seq<Byte>, depth: nat, key: seq<Byte>, v: Json, r: seq<Byte>)
    requires lex.Progresses() && Terminated(s) && Terminated(r)
    requires KeyOf(lex, s).Some? && KeyOf(lex, s).value.0 == key
    requires Parsed(lex, KeyOf(lex, s).value.1, depth) == Some((v, r))
    ensures
      var next := Skip(r);
      ParsedMembers(lex, s, depth) ==
      if next[0] != COMMA then Some(([Member(key, v)], next))
      else PrependItems([Member(key, v)], ParsedMembers(lex, next[1..], depth))
  {
  }

  /** cJSON_Parse. */
  method ParseText(text: seq<Byte>, strtod: Strtod) returns (item: Option<Json>)
    ensures item == Parse(CjsonScanner(strtod), text)
  {
    item := ParseWith(text, strtod, CjsonScanner(strtod));
  }

  method ParseWith(text: seq<Byte>, strtod: Strtod, ghost lex: Scanner) returns (item: Option<Json>)
    requires lex.Progresses() && Scans(lex, strtod)
    ensures item == Parse(lex, text)
  {
    var buffer := new ParseBuffer(text, strtod, lex);
    var c := buffer.content;
    assert c[0..] == c;
    if 4 < |c| && c[..3] == BOM {
      buffer.Advance(3);
    }
    item := buffer.ParseElement();
  }
}
