/** Every JSON text that denotes a tree is parsed to that tree, when it is nested at most 1000 deep. */
module CJsonAccept {
  import opened Bytes
  import opened Options
  import opened CJsonGrammar
  import opened CJsonLiteral
  import opened CJsonNumber
  import opened CJsonString
  import opened CJsonStringGrammar
  import opened CJsonTree
  import opened JsonNumbers

  /** How many containers are nested in each other. */
  function Nesting(v: Json): nat
    decreases v, 1
  {
    match v
    case Array(items) => 1 + ItemsNesting(items)
    case Object(members) => 1 + MembersNesting(members)
    case _ => 0
  }

  function ItemsNesting(items: seq<Json>): nat
    decreases items, 0
  {
    if items == [] then 0 else Max(Nesting(items[0]), ItemsNesting(items[1..]))
  }

  function MembersNesting(members: seq<Member>): nat
    decreases members, 0
  {
    if members == [] then 0 else Max(Nesting(members[0].value), MembersNesting(members[1..]))
  }

  function Max(a: nat, b: nat): nat { if a < b then b else a }

  /** What the parser does with the text of a value: it reads the value and leaves the rest, unless the value is nested
      too deeply. */
  function Outcome<T>(fits: bool, value: T, rest: seq<Byte>): Option<(T, seq<Byte>)> {
    if fits then Some((value, rest)) else None
  }

  // ----- the scanners read the dialect -----

  ghost predicate ReadsLiteral(lex: Scanner, t: seq<Byte>, s: seq<Byte>) {
    t != [] && t[0] == QUOTE && forall rest :: lex.literal(t + rest) == Some((s, |t|))
  }

  ghost predicate ReadsNumber(lex: Scanner, t: seq<Byte>, d: Double) {
    && t != [] && StartsNumber(t[0])
    && forall rest :: rest != [] && !NumberByte(rest[0]) ==> lex.number(t + rest) == Some((d, |t|))
  }

  ghost predicate Readable(lex: Scanner, g: Dialect) {
    && lex.Progresses()
    && (forall b :: g.blank(b) ==> b <= 32)
    && (forall t, s :: g.literal(t, s) ==> ReadsLiteral(lex, t, s))
    && (forall t, d :: g.number(t, d) ==> ReadsNumber(lex, t, d))
  }

  // ----- blanks and words -----

  predicate Visible(s: seq<Byte>) {
    s != [] && s[0] > 32
  }

  lemma {:induction false} SkipBlanks(g: Dialect, w: seq<Byte>, s: seq<Byte>)
    requires (forall b :: g.blank(b) ==> b <= 32) && Blanks(g, w) && Visible(s)
    ensures Skip(w + s) == s && WithoutBlanks(w + s) == s
    decreases |w|
  {
    if w == [] {
      assert w + s == s;
    } else {
      assert (w + s)[1..] == w[1..] + s;
      SkipBlanks(g, w[1..], s);
    }
  }

  lemma After(p: seq<Byte>, rest: seq<Byte>)
    ensures (p + rest)[|p|..] == rest && StartsWith(p + rest, p)
    ensures p != [] ==> (p + rest)[0] == p[0]
    ensures Terminated(rest) ==> Terminated(p + rest)
  {
  }

  lemma OtherWord(s: seq<Byte>, word: seq<Byte>)
    requires s != [] && word != [] && s[0] != word[0]
    ensures !StartsWith(s, word)
  {
    if |word| <= |s| {
      assert s[..|word|][0] == s[0];
    }
  }

  lemma NotAWord(s: seq<Byte>)
    requires s != [] && s[0] != NULL_WORD[0] && s[0] != FALSE_WORD[0] && s[0] != TRUE_WORD[0]
    ensures !StartsWith(s, NULL_WORD) && !StartsWith(s, FALSE_WORD) && !StartsWith(s, TRUE_WORD)
  {
    OtherWord(s, NULL_WORD);
    OtherWord(s, FALSE_WORD);
    OtherWord(s, TRUE_WORD);
  }

  /** A value starts with a visible byte that ends nothing. */
  lemma ValueStart(lex: Scanner, g: Dialect, t: seq<Byte>, v: Json)
    requires Readable(lex, g) && IsValue(g, t, v)
    ensures Visible(t) && t[0] < 128 && t[0] != CLOSE_BRACKET && t[0] != CLOSE_BRACE && t[0] != COMMA
  {
  }

  // ----- scalars -----

  lemma AcceptWord(lex: Scanner, g: Dialect, t: seq<Byte>, v: Json, rest: seq<Byte>, depth: nat)
    requires lex.Progresses() && Terminated(rest) && (v.Null? || v.False? || v.True?) && IsValue(g, t, v)
    ensures Terminated(t + rest) && Parsed(lex, t + rest, depth) == Some((v, rest))
  {
    After(t, rest);
    if !v.Null? {
      OtherWord(t + rest, NULL_WORD);
    }
    if v.True? {
      OtherWord(t + rest, FALSE_WORD);
    }
  }

  lemma AcceptNumber(lex: Scanner, t: seq<Byte>, d: Double, rest: seq<Byte>, depth: nat)
    requires lex.Progresses() && ReadsNumber(lex, t, d) && Terminated(rest) && !NumberByte(rest[0])
    ensures Terminated(t + rest) && Parsed(lex, t + rest, depth) == Some((Number(d), rest))
  {
    After(t, rest);
    NotAWord(t + rest);
  }

  lemma AcceptString(lex: Scanner, t: seq<Byte>, s: seq<Byte>, rest: seq<Byte>, depth: nat)
    requires lex.Progresses() && ReadsLiteral(lex, t, s) && Terminated(rest)
    ensures Terminated(t + rest) && Parsed(lex, t + rest, depth) == Some((String(s), rest))
  {
    After(t, rest);
    NotAWord(t + rest);
  }

  lemma ContainerValue(lex: Scanner, s: seq<Byte>, depth: nat)
    requires lex.Progresses() && Terminated(s)
    ensures s[0] == OPEN_BRACKET ==> Parsed(lex, s, depth) == ParsedArray(lex, s, depth)
    ensures s[0] == OPEN_BRACE ==> Parsed(lex, s, depth) == ParsedObject(lex, s, depth)
  {
    if s[0] == OPEN_BRACKET || s[0] == OPEN_BRACE {
      NotAWord(s);
    }
  }

  // ----- one turn of the loops -----

  /** What is returned for the elements once the first one is read and the blanks behind it are skipped up to `next`. */
  function AfterItem(lex: Scanner, fits: bool, v: Json, next: seq<Byte>, depth: nat): Option<(seq<Json>, seq<Byte>)>
    requires lex.Progresses() && Terminated(next)
  {
    if !fits then None
    else if next[0] != COMMA then Some(([v], next))
    else
      var rest := ParsedItems(lex, next[1..], depth);
      if rest.None? then None else Some(([v] + rest.value.0, rest.value.1))
  }

  function AfterMember(lex: Scanner, fits: bool, m: Member, next: seq<Byte>, depth: nat)
    : Option<(seq<Member>, seq<Byte>)>
    requires lex.Progresses() && Terminated(next)
  {
    if !fits then None
    else if next[0] != COMMA then Some(([m], next))
    else
      var rest := ParsedMembers(lex, next[1..], depth);
      if rest.None? then None else Some(([m] + rest.value.0, rest.value.1))
  }

  lemma ItemTurn(lex: Scanner, s: seq<Byte>, value: seq<Byte>, depth: nat, fits: bool, v: Json, after: seq<Byte>,
                 next: seq<Byte>)
    requires lex.Progresses() && Terminated(s) && Skip(s) == value && Terminated(value) && Terminated(after)
    requires Parsed(lex, value, depth) == Outcome(fits, v, after) && Skip(after) == next
    ensures ParsedItems(lex, s, depth) == AfterItem(lex, fits, v, next, depth)
  {
  }

  lemma MemberFits(lex: Scanner, s: seq<Byte>, key: seq<Byte>, value: seq<Byte>, depth: nat, v: Json, after: seq<Byte>)
    requires lex.Progresses() && Terminated(s) && KeyOf(lex, s) == Some((key, value)) && Terminated(after)
    requires Parsed(lex, value, depth) == Some((v, after))
    ensures ParsedMembers(lex, s, depth) == AfterMember(lex, true, Member(key, v), Skip(after), depth)
  {
  }

  lemma MemberFails(lex: Scanner, s: seq<Byte>, key: seq<Byte>, value: seq<Byte>, depth: nat)
    requires lex.Progresses() && Terminated(s) && KeyOf(lex, s) == Some((key, value)) &&
      Parsed(lex, value, depth) == None
    ensures ParsedMembers(lex, s, depth) == None
  {
  }

  lemma MemberTurn(lex: Scanner, s: seq<Byte>, key: seq<Byte>, value: seq<Byte>, depth: nat, fits: bool, v: Json,
                   after: seq<Byte>, next: seq<Byte>)
    requires lex.Progresses() && Terminated(s) && KeyOf(lex, s) == Some((key, value)) && Terminated(after)
    requires Parsed(lex, value, depth) == Outcome(fits, v, after) && Skip(after) == next
    ensures ParsedMembers(lex, s, depth) == AfterMember(lex, fits, Member(key, v), next, depth)
  {
    if fits {
      MemberFits(lex, s, key, value, depth, v, after);
    } else {
      MemberFails(lex, s, key, value, depth);
    }
  }

  /** The key of a member, its colon and the blanks around it. */
  lemma KeyRead(lex: Scanner, s: seq<Byte>, k: seq<Byte>, n: nat, key: seq<Byte>, colon: seq<Byte>, value: seq<Byte>)
    requires lex.Progresses() && Terminated(s) && Skip(s) == k && lex.literal(k) == Some((key, n))
    requires n < |k| && Skip(k[n..]) == colon && colon[0] == COLON && |colon| > 1 && Skip(colon[1..]) == value
    ensures KeyOf(lex, s) == Some((key, value))
  {
  }

  // ----- the parts of a container -----

  lemma ItemsCut(g: Dialect, t: seq<Byte>, items: seq<Json>)
    returns (before: seq<Byte>, x: seq<Byte>, after: seq<Byte>, rest: seq<Byte>)
    requires items != [] && IsItems(g, t, items)
    ensures Joins(t, before, x, after, rest) && Blanks(g, before) && Blanks(g, after) && IsValue(g, x, items[0])
    ensures if |items| == 1 then rest == [] else rest != [] && rest[0] == COMMA && IsItems(g, rest[1..], items[1..])
  {
    before, x, after, rest :|
      Joins(t, before, x, after, rest) && Blanks(g, before) && Blanks(g, after) && IsValue(g, x, items[0]) &&
      if |items| == 1 then rest == [] else rest != [] && rest[0] == 0x2C && IsItems(g, rest[1..], items[1..]);
  }

  lemma MembersCut(g: Dialect, t: seq<Byte>, members: seq<Member>)
    returns (before: seq<Byte>, x: seq<Byte>, after: seq<Byte>, rest: seq<Byte>)
    requires members != [] && IsMembers(g, t, members)
    ensures Joins(t, before, x, after, rest) && Blanks(g, before) && Blanks(g, after) && IsMember(g, x, members[0])
    ensures
      if |members| == 1 then rest == []
      else rest != [] && rest[0] == COMMA && IsMembers(g, rest[1..], members[1..])
  {
    before, x, after, rest :|
      Joins(t, before, x, after, rest) && Blanks(g, before) && Blanks(g, after) && IsMember(g, x, members[0]) &&
      if |members| == 1 then rest == [] else rest != [] && rest[0] == 0x2C && IsMembers(g, rest[1..], members[1..]);
  }

  lemma MemberCut(g: Dialect, t: seq<Byte>, m: Member)
    returns (key: seq<Byte>, before: seq<Byte>, after: seq<Byte>, x: seq<Byte>)
    requires IsMember(g, t, m)
    ensures Joins(t, key, before, [COLON] + after, x) && g.literal(key, m.key)
    ensures Blanks(g, before) && Blanks(g, after) && IsValue(g, x, m.value)
  {
    key, before, after, x :| Joins(t, key, before, [0x3A] + after, x) &&
      g.literal(key, m.key) && Blanks(g, before) && Blanks(g, after) && IsValue(g, x, m.value);
  }

  lemma Regroup(t: seq<Byte>, before: seq<Byte>, x: seq<Byte>, after: seq<Byte>, rest: seq<Byte>, tail: seq<Byte>)
    requires Joins(t, before, x, after, rest)
    ensures t + tail == before + (x + (after + (rest + tail)))
  {
    assert before + x + after + rest + tail == before + x + after + (rest + tail);
    assert before + x + after + (rest + tail) == before + x + (after + (rest + tail));
  }

  /** Behind an element: blanks, and then a comma or the end. */
  lemma BehindElement(g: Dialect, after: seq<Byte>, next: seq<Byte>)
    requires (forall b :: g.blank(b) ==> b <= 32) && Blanks(g, after) && Terminated(next)
    requires next[0] == COMMA || next[0] == CLOSE_BRACKET || next[0] == CLOSE_BRACE
    ensures Terminated(after + next) && !NumberByte((after + next)[0]) && Skip(after + next) == next
  {
    After(after, next);
    SkipBlanks(g, after, next);
    if after != [] {
      assert (after + next)[0] == after[0];
    }
  }

  /** The rest of the elements, or the end. */
  lemma NextElement(rest: seq<Byte>, tail: seq<Byte>)
    requires Terminated(tail) && (rest == [] || rest[0] == COMMA)
    ensures Terminated(rest + tail) && (rest + tail)[0] == (if rest == [] then tail[0] else COMMA)
    ensures rest == [] ==> rest + tail == tail
    ensures rest != [] ==> (rest + tail)[1..] == rest[1..] + tail
  {
    After(rest, tail);
  }

  // ----- arrays -----

  lemma LastItem(lex: Scanner, fits: bool, items: seq<Json>, tail: seq<Byte>, depth: nat)
    requires lex.Progresses() && |items| == 1 && Terminated(tail) && tail[0] != COMMA
    ensures AfterItem(lex, fits, items[0], tail, depth) == Outcome(fits, items, tail)
    ensures ItemsNesting(items) == Nesting(items[0])
  {
    assert items == [items[0]] && items[1..] == [];
  }

  lemma MoreItems(lex: Scanner, fits: bool, items: seq<Json>, next: seq<Byte>, depth: nat, fits': bool, tail: seq<Byte>)
    requires lex.Progresses() && |items| > 1 && Terminated(next) && next[0] == COMMA && Terminated(next[1..])
    requires ParsedItems(lex, next[1..], depth) == Outcome(fits', items[1..], tail)
    ensures AfterItem(lex, fits, items[0], next, depth) == Outcome(fits && fits', items, tail)
    ensures ItemsNesting(items) == Max(Nesting(items[0]), ItemsNesting(items[1..]))
  {
    assert items == [items[0]] + items[1..];
  }

  lemma {:induction false} AcceptItems(lex: Scanner, g: Dialect, t: seq<Byte>, items: seq<Json>, tail: seq<Byte>,
                                       depth: nat)
    requires Readable(lex, g) && IsItems(g, t, items) && items != [] && depth <= NESTING_LIMIT
    requires Terminated(tail) && tail[0] == CLOSE_BRACKET
    ensures Terminated(t + tail) && Skip(t + tail)[0] != CLOSE_BRACKET
    ensures ParsedItems(lex, t + tail, depth) == Outcome(depth + ItemsNesting(items) <= NESTING_LIMIT, items, tail)
    decreases items, 1
  {
    var before, x, after, rest := ItemsCut(g, t, items);
    var next, fits := rest + tail, depth + Nesting(items[0]) <= NESTING_LIMIT;
    NextElement(rest, tail);
    Regroup(t, before, x, after, rest, tail);
    AcceptItem(lex, g, before, x, items[0], after, next, depth);
    if |items| == 1 {
      LastItem(lex, fits, items, tail, depth);
    } else {
      AcceptItems(lex, g, rest[1..], items[1..], tail, depth);
      MoreItems(lex, fits, items, next, depth, depth + ItemsNesting(items[1..]) <= NESTING_LIMIT, tail);
    }
  }

  lemma {:induction false} AcceptItem(lex: Scanner, g: Dialect, before: seq<Byte>, x: seq<Byte>, v: Json,
                                      after: seq<Byte>,
                                      next: seq<Byte>, depth: nat)
    requires Readable(lex, g) && Blanks(g, before) && IsValue(g, x, v) && Blanks(g, after) && depth <= NESTING_LIMIT
    requires Terminated(next) && (next[0] == COMMA || next[0] == CLOSE_BRACKET)
    ensures var s := before + (x + (after + next));
            && Terminated(s) && Skip(s)[0] != CLOSE_BRACKET
            && ParsedItems(lex, s, depth) == AfterItem(lex, depth + Nesting(v) <= NESTING_LIMIT, v, next, depth)
    decreases v, 2
  {
    var value := x + (after + next);
    BehindElement(g, after, next);
    Accept(lex, g, x, v, after + next, depth);
    ValueStart(lex, g, x, v);
    After(before, value);
    SkipBlanks(g, before, value);
    ItemTurn(lex, before + value, value, depth, depth + Nesting(v) <= NESTING_LIMIT, v, after + next, next);
  }

  lemma {:induction false} NoBlankFirst(s: seq<Byte>)
    ensures WithoutBlanks(s) != [] ==> Visible(WithoutBlanks(s))
  {
    if s != [] && s[0] <= 32 {
      NoBlankFirst(s[1..]);
    }
  }

  lemma SkipOne(s: seq<Byte>)
    requires |s| == 1
    ensures Skip(s) == s
  {
    LastOf(s);
    assert s[1..] == [];
  }

  /** Skipping leaves nothing to skip. */
  lemma SkipAgain(s: seq<Byte>)
    requires s != []
    ensures Skip(Skip(s)) == Skip(s)
  {
    NoBlankFirst(s);
    SkipOne(s[|s| - 1..]);
  }

  lemma LastOf(s: seq<Byte>)
    requires s != []
    ensures s[|s| - 1..] == [s[|s| - 1]] && (|s| == 1 ==> s[|s| - 1..] == s)
  {
  }

  lemma SameItems(lex: Scanner, s: seq<Byte>, depth: nat)
    requires lex.Progresses() && Terminated(s) && Skip(Skip(s)) == Skip(s)
    ensures ParsedItems(lex, Skip(s), depth) == ParsedItems(lex, s, depth)
  {
  }

  lemma SameMembers(lex: Scanner, s: seq<Byte>, depth: nat)
    requires lex.Progresses() && Terminated(s) && Skip(Skip(s)) == Skip(s)
    ensures ParsedMembers(lex, Skip(s), depth) == ParsedMembers(lex, s, depth)
  {
  }

  // ----- values -----

  lemma {:induction false} AcceptArray(lex: Scanner, g: Dialect, body: seq<Byte>, items: seq<Json>, tail: seq<Byte>,
                                       depth: nat)
    requires Readable(lex, g) && IsItems(g, body, items) && depth <= NESTING_LIMIT
    requires Terminated(tail) && tail[0] == CLOSE_BRACKET
    ensures Terminated([OPEN_BRACKET] + (body + tail))
    ensures ParsedArray(lex, [OPEN_BRACKET] + (body + tail), depth) ==
            Outcome(depth + 1 + ItemsNesting(items) <= NESTING_LIMIT, Array(items), tail[1..])
    decreases items, 3
  {
    After(body, tail);
    if depth == NESTING_LIMIT {
      TooDeep(lex, body + tail, depth);
    } else if items == [] {
      SkipBlanks(g, body, tail);
      EmptyContainer(lex, body + tail, tail, depth);
    } else {
      AcceptFullArray(lex, g, body, items, tail, depth);
    }
  }

  lemma {:induction false} AcceptFullArray(lex: Scanner, g: Dialect, body: seq<Byte>, items: seq<Json>,
                        tail: seq<Byte>, depth: nat)
    requires Readable(lex, g) && IsItems(g, body, items) && items != [] && depth < NESTING_LIMIT
    requires Terminated(tail) && tail[0] == CLOSE_BRACKET
    ensures Terminated([OPEN_BRACKET] + (body + tail))
    ensures ParsedArray(lex, [OPEN_BRACKET] + (body + tail), depth) ==
            Outcome(depth + 1 + ItemsNesting(items) <= NESTING_LIMIT, Array(items), tail[1..])
    decreases items, 2
  {
    AcceptItems(lex, g, body, items, tail, depth + 1);
    ArrayOfItems(lex, body + tail, depth, depth + 1 + ItemsNesting(items) <= NESTING_LIMIT, items, tail);
  }

  lemma TooDeep(lex: Scanner, s: seq<Byte>, depth: nat)
    requires lex.Progresses() && Terminated(s) && depth >= NESTING_LIMIT
    ensures Terminated([OPEN_BRACKET] + s) && ParsedArray(lex, [OPEN_BRACKET] + s, depth) == None
    ensures Terminated([OPEN_BRACE] + s) && ParsedObject(lex, [OPEN_BRACE] + s, depth) == None
  {
    After([OPEN_BRACKET], s);
    After([OPEN_BRACE], s);
  }

  lemma EmptyContainer(lex: Scanner, s: seq<Byte>, tail: seq<Byte>, depth: nat)
    requires lex.Progresses() && Terminated(s) && depth < NESTING_LIMIT && Skip(s) == tail
    ensures tail[0] == CLOSE_BRACKET ==>
      Terminated([OPEN_BRACKET] + s) && ParsedArray(lex, [OPEN_BRACKET] + s, depth) == Some((Array([]), tail[1..]))
    ensures tail[0] == CLOSE_BRACE ==>
      Terminated([OPEN_BRACE] + s) && ParsedObject(lex, [OPEN_BRACE] + s, depth) == Some((Object([]), tail[1..]))
  {
    After([OPEN_BRACKET], s);
    After([OPEN_BRACE], s);
  }

  lemma ArrayOfItems(lex: Scanner, s: seq<Byte>, depth: nat, fits: bool, items: seq<Json>, tail: seq<Byte>)
    requires lex.Progresses() && Terminated(s) && depth < NESTING_LIMIT && Skip(s)[0] != CLOSE_BRACKET
    requires ParsedItems(lex, s, depth + 1) == Outcome(fits, items, tail) && Terminated(tail) &&
      tail[0] == CLOSE_BRACKET
    ensures Terminated([OPEN_BRACKET] + s)
    ensures ParsedArray(lex, [OPEN_BRACKET] + s, depth) == Outcome(fits, Array(items), tail[1..])
  {
    After([OPEN_BRACKET], s);
    SkipAgain(s);
    SameItems(lex, s, depth + 1);
  }

  // ----- objects -----

  lemma LastMember(lex: Scanner, fits: bool, members: seq<Member>, tail: seq<Byte>, depth: nat)
    requires lex.Progresses() && |members| == 1 && Terminated(tail) && tail[0] != COMMA
    ensures AfterMember(lex, fits, members[0], tail, depth) == Outcome(fits, members, tail)
    ensures MembersNesting(members) == Nesting(members[0].value)
  {
    assert members == [members[0]] && members[1..] == [];
  }

  lemma MoreMembers(lex: Scanner, fits: bool, members: seq<Member>, next: seq<Byte>, depth: nat, fits': bool,
                    tail: seq<Byte>)
    requires lex.Progresses() && |members| > 1 && Terminated(next) && next[0] == COMMA && Terminated(next[1..])
    requires ParsedMembers(lex, next[1..], depth) == Outcome(fits', members[1..], tail)
    ensures AfterMember(lex, fits, members[0], next, depth) == Outcome(fits && fits', members, tail)
    ensures MembersNesting(members) == Max(Nesting(members[0].value), MembersNesting(members[1..]))
  {
    assert members == [members[0]] + members[1..];
  }

  lemma {:induction false} AcceptMembers(lex: Scanner, g: Dialect, t: seq<Byte>, members: seq<Member>,
                        tail: seq<Byte>, depth: nat)
    requires Readable(lex, g) && IsMembers(g, t, members) && members != [] && depth <= NESTING_LIMIT
    requires Terminated(tail) && tail[0] == CLOSE_BRACE
    ensures Terminated(t + tail) && Skip(t + tail)[0] != CLOSE_BRACE
    ensures ParsedMembers(lex, t + tail, depth) ==
      Outcome(depth + MembersNesting(members) <= NESTING_LIMIT, members, tail)
    decreases members, 2
  {
    var rest := AcceptFirst(lex, g, t, members, tail, depth);
    var fits := depth + Nesting(members[0].value) <= NESTING_LIMIT;
    NextElement(rest, tail);
    if |members| == 1 {
      LastMember(lex, fits, members, tail, depth);
    } else {
      AcceptMembers(lex, g, rest[1..], members[1..], tail, depth);
      MoreMembers(lex, fits, members, rest + tail, depth, depth + MembersNesting(members[1..]) <= NESTING_LIMIT, tail);
    }
  }

  lemma {:induction false} AcceptFirst(lex: Scanner, g: Dialect, t: seq<Byte>, members: seq<Member>, tail: seq<Byte>,
                                       depth: nat)
    returns (rest: seq<Byte>)
    requires Readable(lex, g) && IsMembers(g, t, members) && members != [] && depth <= NESTING_LIMIT
    requires Terminated(tail) && tail[0] == CLOSE_BRACE
    ensures
      if |members| == 1 then rest == []
      else rest != [] && rest[0] == COMMA && IsMembers(g, rest[1..], members[1..])
    ensures Terminated(t + tail) && Skip(t + tail)[0] != CLOSE_BRACE && Terminated(rest + tail)
    ensures ParsedMembers(lex, t + tail, depth) ==
            AfterMember(lex, depth + Nesting(members[0].value) <= NESTING_LIMIT, members[0], rest + tail, depth)
    decreases members, 1
  {
    var before, x, after;
    before, x, after, rest := MembersCut(g, t, members);
    NextElement(rest, tail);
    Regroup(t, before, x, after, rest, tail);
    AcceptMember(lex, g, before, x, members[0], after, rest + tail, depth);
  }

  lemma {:induction false} AcceptMember(lex: Scanner, g: Dialect, before: seq<Byte>, x: seq<Byte>, m: Member,
                                        after: seq<Byte>,
                                        next: seq<Byte>, depth: nat)
    requires Readable(lex, g) && Blanks(g, before) && IsMember(g, x, m) && Blanks(g, after) && depth <= NESTING_LIMIT
    requires Terminated(next) && (next[0] == COMMA || next[0] == CLOSE_BRACE)
    ensures var s := before + (x + (after + next));
            && Terminated(s) && Skip(s)[0] != CLOSE_BRACE
            && ParsedMembers(lex, s, depth) ==
               AfterMember(lex, depth + Nesting(m.value) <= NESTING_LIMIT, m, next, depth)
    decreases m, 2
  {
    var key, left, right, value := MemberCut(g, x, m);
    BehindElement(g, after, next);
    Accept(lex, g, value, m.value, after + next, depth);
    ValueStart(lex, g, value, m.value);
    AcceptKey(lex, g, before, x, key, m.key, left, right, value, after + next);
    MemberTurn(lex, before + (x + (after + next)), m.key, value + (after + next), depth,
               depth + Nesting(m.value) <= NESTING_LIMIT, m.value, after + next, next);
  }

  lemma AcceptKey(lex: Scanner, g: Dialect, before: seq<Byte>, x: seq<Byte>, key: seq<Byte>, name: seq<Byte>,
                  left: seq<Byte>, right: seq<Byte>, value: seq<Byte>, rest: seq<Byte>)
    requires Readable(lex, g) && Blanks(g, before) && Blanks(g, left) && Blanks(g, right) &&
      ReadsLiteral(lex, key, name)
    requires Joins(x, key, left, [COLON] + right, value) && Visible(value) && Terminated(rest)
    ensures var s := before + (x + rest);
            Terminated(s) && Skip(s)[0] == QUOTE && KeyOf(lex, s) == Some((name, value + rest))
  {
    var colon := [COLON] + (right + (value + rest));
    KeyText(x, key, left, right, value, rest);
    After(value, rest);
    ColonPart(g, left, right, value + rest);
    KeyPart(lex, g, before, key, name, left + colon);
    KeyRead(lex, before + (x + rest), x + rest, |key|, name, colon, value + rest);
  }

  lemma ColonPart(g: Dialect, left: seq<Byte>, right: seq<Byte>, value: seq<Byte>)
    requires (forall b :: g.blank(b) ==> b <= 32) && Blanks(g, left) && Blanks(g, right)
    requires Visible(value) && Terminated(value)
    ensures var colon := [COLON] + (right + value);
            && Terminated(colon) && Terminated(left + colon) && Skip(left + colon) == colon
            && |colon| > 1 && Skip(colon[1..]) == value
  {
    var colon := [COLON] + (right + value);
    After(right, value);
    After([COLON], right + value);
    After(left, colon);
    SkipBlanks(g, left, colon);
    SkipBlanks(g, right, value);
  }

  lemma KeyPart(lex: Scanner, g: Dialect, before: seq<Byte>, key: seq<Byte>, name: seq<Byte>, more: seq<Byte>)
    requires (forall b :: g.blank(b) ==> b <= 32) && Blanks(g, before)
    requires ReadsLiteral(lex, key, name) && Terminated(more)
    ensures Terminated(before + (key + more)) && Skip(before + (key + more)) == key + more
    ensures lex.literal(key + more) == Some((name, |key|)) && (key + more)[|key|..] == more
  {
    After(key, more);
    After(before, key + more);
    SkipBlanks(g, before, key + more);
  }

  lemma KeyText(x: seq<Byte>, key: seq<Byte>, left: seq<Byte>, right: seq<Byte>, value: seq<Byte>, rest: seq<Byte>)
    requires Joins(x, key, left, [COLON] + right, value)
    ensures x + rest == key + (left + ([COLON] + (right + (value + rest))))
  {
    Regroup(x, key, left, [COLON] + right, value, rest);
    assert [COLON] + right + (value + rest) == [COLON] + (right + (value + rest));
  }

  lemma {:induction false} AcceptObject(lex: Scanner, g: Dialect, body: seq<Byte>, members: seq<Member>,
                                        tail: seq<Byte>, depth: nat)
    requires Readable(lex, g) && IsMembers(g, body, members) && depth <= NESTING_LIMIT
    requires Terminated(tail) && tail[0] == CLOSE_BRACE
    ensures Terminated([OPEN_BRACE] + (body + tail))
    ensures ParsedObject(lex, [OPEN_BRACE] + (body + tail), depth) ==
            Outcome(depth + 1 + MembersNesting(members) <= NESTING_LIMIT, Object(members), tail[1..])
    decreases members, 4
  {
    After(body, tail);
    if depth == NESTING_LIMIT {
      TooDeep(lex, body + tail, depth);
    } else if members == [] {
      SkipBlanks(g, body, tail);
      EmptyContainer(lex, body + tail, tail, depth);
    } else {
      AcceptFullObject(lex, g, body, members, tail, depth);
    }
  }

  lemma {:induction false} AcceptFullObject(lex: Scanner, g: Dialect, body: seq<Byte>, members: seq<Member>,
                        tail: seq<Byte>, depth: nat)
    requires Readable(lex, g) && IsMembers(g, body, members) && members != [] && depth < NESTING_LIMIT
    requires Terminated(tail) && tail[0] == CLOSE_BRACE
    ensures Terminated([OPEN_BRACE] + (body + tail))
    ensures ParsedObject(lex, [OPEN_BRACE] + (body + tail), depth) ==
            Outcome(depth + 1 + MembersNesting(members) <= NESTING_LIMIT, Object(members), tail[1..])
    decreases members, 3
  {
    AcceptMembers(lex, g, body, members, tail, depth + 1);
    ObjectOfMembers(lex, body + tail, depth, depth + 1 + MembersNesting(members) <= NESTING_LIMIT, members, tail);
  }

  lemma ObjectOfMembers(lex: Scanner, s: seq<Byte>, depth: nat, fits: bool, members: seq<Member>, tail: seq<Byte>)
    requires lex.Progresses() && Terminated(s) && depth < NESTING_LIMIT && Skip(s)[0] != CLOSE_BRACE
    requires ParsedMembers(lex, s, depth + 1) == Outcome(fits, members, tail) && Terminated(tail) &&
      tail[0] == CLOSE_BRACE
    ensures Terminated([OPEN_BRACE] + s)
    ensures ParsedObject(lex, [OPEN_BRACE] + s, depth) == Outcome(fits, Object(members), tail[1..])
  {
    After([OPEN_BRACE], s);
    SkipAgain(s);
    SameMembers(lex, s, depth + 1);
  }

  // ----- values and texts -----

  /** The text of a value is read as that value, with whatever may follow it left. */
  lemma {:induction false} Accept(lex: Scanner, g: Dialect, t: seq<Byte>, v: Json, rest: seq<Byte>, depth: nat)
    requires Readable(lex, g) && IsValue(g, t, v) && depth <= NESTING_LIMIT
    requires Terminated(rest) && !NumberByte(rest[0])
    ensures Terminated(t + rest)
    ensures Parsed(lex, t + rest, depth) == Outcome(depth + Nesting(v) <= NESTING_LIMIT, v, rest)
    decreases v, 1
  {
    match v
    case Array(items) =>
      AcceptArray(lex, g, t[1..|t| - 1], items, [CLOSE_BRACKET] + rest, depth);
      AcceptContainer(lex, t, rest, depth);
    case Object(members) =>
      AcceptObject(lex, g, t[1..|t| - 1], members, [CLOSE_BRACE] + rest, depth);
      AcceptContainer(lex, t, rest, depth);
    case Number(d) => AcceptNumber(lex, t, d, rest, depth);
    case String(s) => AcceptString(lex, t, s, rest, depth);
    case _ => AcceptWord(lex, g, t, v, rest, depth);
  }

  lemma AcceptContainer(lex: Scanner, t: seq<Byte>, rest: seq<Byte>, depth: nat)
    requires lex.Progresses() && |t| >= 2 && Terminated(rest)
    ensures Terminated(t + rest) && ([t[|t| - 1]] + rest)[1..] == rest
    ensures t + rest == [t[0]] + (t[1..|t| - 1] + ([t[|t| - 1]] + rest))
    ensures t[0] == OPEN_BRACKET ==> Parsed(lex, t + rest, depth) == ParsedArray(lex, t + rest, depth)
    ensures t[0] == OPEN_BRACE ==> Parsed(lex, t + rest, depth) == ParsedObject(lex, t + rest, depth)
  {
    After(t, rest);
    ContainerValue(lex, t + rest, depth);
  }

  lemma TextCut(g: Dialect, text: seq<Byte>, v: Json) returns (before: seq<Byte>, x: seq<Byte>, after: seq<Byte>)
    requires Denotes(g, text, v)
    ensures text + [0] == before + (x + (after + [0])) && Blanks(g, before) && Blanks(g, after) && IsValue(g, x, v)
  {
    before, x, after :| Joins(text, before, x, after, []) && Blanks(g, before) && Blanks(g, after) && IsValue(g, x, v);
    Regroup(text, before, x, after, [], [0]);
    assert [] + [0 as Byte] == [0];
  }

  lemma ParseFrom(lex: Scanner, text: seq<Byte>, value: seq<Byte>, fits: bool, v: Json, rest: seq<Byte>)
    requires lex.Progresses() && (text + [0])[0] < 128 && Skip(text + [0]) == value && Terminated(value)
    requires Parsed(lex, value, 0) == Outcome(fits, v, rest)
    ensures Parse(lex, text) == if fits then Some(v) else None
  {
    OtherWord(text + [0], BOM);
  }

  /** A text that denotes a tree is parsed to it, exactly when it is nested at most 1000 deep. */
  lemma AcceptText(lex: Scanner, g: Dialect, text: seq<Byte>, v: Json)
    requires Readable(lex, g) && Denotes(g, text, v)
    ensures Parse(lex, text) == if Nesting(v) <= NESTING_LIMIT then Some(v) else None
  {
    var before, x, after := TextCut(g, text, v);
    AcceptParts(lex, g, before, x, after, v);
    ParseFrom(lex, text, x + (after + [0]), Nesting(v) <= NESTING_LIMIT, v, after + [0]);
  }

  lemma AcceptParts(lex: Scanner, g: Dialect, before: seq<Byte>, x: seq<Byte>, after: seq<Byte>, v: Json)
    requires Readable(lex, g) && Blanks(g, before) && Blanks(g, after) && IsValue(g, x, v)
    ensures var value := x + (after + [0]);
            && Terminated(value) && (before + value)[0] < 128 && Skip(before + value) == value
            && Parsed(lex, value, 0) == Outcome(Nesting(v) <= NESTING_LIMIT, v, after + [0])
  {
    var rest := after + [0];
    ValueStart(lex, g, x, v);
    After(after, [0]);
    assert !NumberByte(rest[0]) by {
      if after != [] {
        assert rest[0] == after[0];
      }
    }
    Accept(lex, g, x, v, rest, 0);
    After(x, rest);
    SkipBlanks(g, before, x + rest);
    FirstByte(g, before, x + rest);
  }

  lemma FirstByte(g: Dialect, before: seq<Byte>, s: seq<Byte>)
    requires (forall b :: g.blank(b) ==> b <= 32) && Blanks(g, before) && Visible(s) && s[0] < 128
    ensures (before + s)[0] < 128
  {
    if before != [] {
      assert (before + s)[0] == before[0];
    }
  }

  // ----- cJSON's own scanners read RFC 8259 -----

  lemma DigitBytes(t: seq<Byte>)
    requires Digits(t)
    ensures forall b :: b in t ==> NumberByte(b)
  {
  }

  lemma NumberBytes(t: seq<Byte>)
    requires IsNumber(t)
    ensures t != [] && StartsNumber(t[0]) && forall b :: b in t ==> NumberByte(b)
  {
    var minus, whole, frac, exp :| NumberParts(t, minus, whole, frac, exp);
    DigitBytes(whole);
    if frac != [] {
      DigitBytes(frac[1..]);
      assert frac == [frac[0]] + frac[1..];
    }
    if exp != [] {
      ExponentBytes(exp);
    }
    assert t[0] == if minus == [] then whole[0] else minus[0];
  }

  lemma ExponentBytes(t: seq<Byte>)
    requires ExponentPart(t)
    ensures forall b :: b in t ==> NumberByte(b)
  {
    if Digits(t[1..]) {
      DigitBytes(t[1..]);
      assert t == [t[0]] + t[1..];
    } else {
      DigitBytes(t[2..]);
      assert t == [t[0], t[1]] + t[2..];
    }
  }

  lemma RfcReadable(strtod: Strtod)
    ensures Readable(CjsonScanner(strtod), Rfc(strtod))
  {
    forall t, s | IsString(t, s) ensures ReadsLiteral(CjsonScanner(strtod), t, s) {
      forall rest: seq<Byte> ensures Literal(t + rest, 0) == Some((s, |t|)) {
        StringRead(t, s, rest);
      }
    }
    forall t, d | IsNumber(t) && |t| <= 63 && strtod(t) == (|t|, d) ensures ReadsNumber(CjsonScanner(strtod), t, d) {
      NumberBytes(t);
      forall rest: seq<Byte> | rest != [] && !NumberByte(rest[0]) ensures NumberAt(strtod, t + rest) == Some((d, |t|)) {
        NumberOfText(strtod, t, rest);
      }
    }
  }

  /** cJSON_Parse on every JSON text of RFC 8259: the tree that it denotes, exactly when that is nested at most 1000
      deep. */
  lemma ParsesJson(strtod: Strtod, text: seq<Byte>, v: Json)
    requires Denotes(Rfc(strtod), text, v)
    ensures Parse(CjsonScanner(strtod), text) == if Nesting(v) <= 1000 then Some(v) else None
  {
    RfcReadable(strtod);
    AcceptText(CjsonScanner(strtod), Rfc(strtod), text, v);
  }
}
