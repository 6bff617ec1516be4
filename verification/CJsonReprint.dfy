/** Printing and parsing again, for trees parsed from any text: what comes back, when it is the same tree, and when
the printed text no longer changes. */
module CJsonReprint {
  import opened Bytes
  import opened Options
  import opened CJsonLiteral
  import opened CJsonNumber
  import opened CJsonTree
  import opened CJsonAccept
  import opened CJsonRoundTrip

  /** What the parser guarantees of a value read at some depth. */
  predicate Fits(v: Json, depth: nat) {
    depth + Nesting(v) <= NESTING_LIMIT
  }

  lemma {:induction false} ParsedFits(lex: Scanner, s: seq<Byte>, depth: nat)
    requires lex.Progresses() && Terminated(s) && depth <= NESTING_LIMIT
    ensures var r := Parsed(lex, s, depth); r.Some? ==> Fits(r.value.0, depth)
    decreases |s|, 2
  {
    if s[0] == OPEN_BRACKET {
      NotAWord(s);
      ArrayFits(lex, s, depth);
    } else if s[0] == OPEN_BRACE {
      NotAWord(s);
      ObjectFits(lex, s, depth);
    }
  }

  lemma {:induction false} ArrayFits(lex: Scanner, s: seq<Byte>, depth: nat)
    requires lex.Progresses() && Terminated(s) && s[0] == OPEN_BRACKET && depth <= NESTING_LIMIT
    ensures var r := ParsedArray(lex, s, depth); r.Some? ==> Fits(r.value.0, depth)
    decreases |s|, 1
  {
    if depth < NESTING_LIMIT {
      ArrayFromFits(lex, Skip(s[1..]), depth);
      assert ParsedArray(lex, s, depth) == ArrayFrom(lex, Skip(s[1..]), depth + 1);
    }
  }

  lemma {:induction false} ArrayFromFits(lex: Scanner, first: seq<Byte>, depth: nat)
    requires lex.Progresses() && Terminated(first) && depth < NESTING_LIMIT
    ensures var r := ArrayFrom(lex, first, depth + 1); r.Some? ==> Fits(r.value.0, depth)
    decreases |first|, 4
  {
    if first[0] == CLOSE_BRACKET {
      ArrayJoin(Some(([], first)), depth);
    } else {
      ItemsFit(lex, first, depth + 1);
      ArrayJoin(ParsedItems(lex, first, depth + 1), depth);
    }
  }

  lemma ArrayJoin(items: Option<(seq<Json>, seq<Byte>)>, depth: nat)
    requires depth < NESTING_LIMIT && (items.Some? ==> AllFit(items.value.0, depth + 1))
    ensures items.Some? ==> Fits(Array(items.value.0), depth)
  {
  }

  lemma {:induction false} ObjectFits(lex: Scanner, s: seq<Byte>, depth: nat)
    requires lex.Progresses() && Terminated(s) && s[0] == OPEN_BRACE && depth <= NESTING_LIMIT
    ensures var r := ParsedObject(lex, s, depth); r.Some? ==> Fits(r.value.0, depth)
    decreases |s|, 1
  {
    if depth < NESTING_LIMIT {
      ObjectFromFits(lex, Skip(s[1..]), depth);
      assert ParsedObject(lex, s, depth) == ObjectFrom(lex, Skip(s[1..]), depth + 1);
    }
  }

  lemma {:induction false} ObjectFromFits(lex: Scanner, first: seq<Byte>, depth: nat)
    requires lex.Progresses() && Terminated(first) && depth < NESTING_LIMIT
    ensures var r := ObjectFrom(lex, first, depth + 1); r.Some? ==> Fits(r.value.0, depth)
    decreases |first|, 4
  {
    if first[0] == CLOSE_BRACE {
      ObjectJoin(Some(([], first)), depth);
    } else {
      MembersFit(lex, first, depth + 1);
      ObjectJoin(ParsedMembers(lex, first, depth + 1), depth);
    }
  }

  lemma ObjectJoin(members: Option<(seq<Member>, seq<Byte>)>, depth: nat)
    requires depth < NESTING_LIMIT && (members.Some? ==> AllMembersFit(members.value.0, depth + 1))
    ensures members.Some? ==> Fits(Object(members.value.0), depth)
  {
  }

  ghost predicate AllFit(items: seq<Json>, depth: nat) {
    depth + ItemsNesting(items) <= NESTING_LIMIT
  }

  ghost predicate AllMembersFit(members: seq<Member>, depth: nat) {
    depth + MembersNesting(members) <= NESTING_LIMIT
  }

  lemma {:induction false} ItemsFit(lex: Scanner, s: seq<Byte>, depth: nat)
    requires lex.Progresses() && Terminated(s) && depth <= NESTING_LIMIT
    ensures var r := ParsedItems(lex, s, depth); r.Some? ==> AllFit(r.value.0, depth)
    decreases |s|, 3
  {
    ParsedFits(lex, Skip(s), depth);
    var v := Parsed(lex, Skip(s), depth);
    if v.Some? {
      var next := Skip(v.value.1);
      var rest := [];
      if next[0] == COMMA {
        ItemsFit(lex, next[1..], depth);
        var r := ParsedItems(lex, next[1..], depth);
        rest := if r.Some? then r.value.0 else [];
      }
      ItemsJoin(v.value.0, rest, depth);
    }
  }

  lemma ItemsJoin(v: Json, rest: seq<Json>, depth: nat)
    requires Fits(v, depth) && AllFit(rest, depth)
    ensures AllFit([v] + rest, depth)
  {
    assert ([v] + rest)[1..] == rest;
  }

  lemma {:induction false} MembersFit(lex: Scanner, s: seq<Byte>, depth: nat)
    requires lex.Progresses() && Terminated(s) && depth <= NESTING_LIMIT
    ensures var r := ParsedMembers(lex, s, depth); r.Some? ==> AllMembersFit(r.value.0, depth)
    decreases |s|, 3
  {
    var key := KeyOf(lex, s);
    if key.Some? {
      var v := Parsed(lex, key.value.1, depth);
      ParsedFits(lex, key.value.1, depth);
      if v.Some? {
        var m, next := Member(key.value.0, v.value.0), Skip(v.value.1);
        if next[0] == COMMA {
          MembersFit(lex, next[1..], depth);
        }
        AfterMemberFits(lex, m, next, depth);
      }
    }
  }

  lemma AfterMemberFits(lex: Scanner, m: Member, next: seq<Byte>, depth: nat)
    requires lex.Progresses() && Terminated(next) && Fits(m.value, depth)
    requires next[0] == COMMA ==>
      var r := ParsedMembers(lex, next[1..], depth); r.Some? ==> AllMembersFit(r.value.0, depth)
    ensures var r := AfterMember(lex, true, m, next, depth); r.Some? ==> AllMembersFit(r.value.0, depth)
  {
    MembersJoin(m, [], depth);
    assert [m] + [] == [m];
    if next[0] == COMMA && ParsedMembers(lex, next[1..], depth).Some? {
      MembersJoin(m, ParsedMembers(lex, next[1..], depth).value.0, depth);
    }
  }

  lemma MembersJoin(m: Member, rest: seq<Member>, depth: nat)
    requires Fits(m.value, depth) && AllMembersFit(rest, depth)
    ensures AllMembersFit([m] + rest, depth)
  {
    assert ([m] + rest)[1..] == rest;
  }

  /** Every parsed tree is nested at most 1000 deep. */
  lemma ParseFits(lex: Scanner, text: seq<Byte>)
    requires lex.Progresses()
    ensures var v := Parse(lex, text); v.Some? ==> Fits(v.value, 0)
  {
    var s := text + [0];
    ParsedFits(lex, Skip(if 4 < |s| && StartsWith(s, BOM) then s[3..] else s), 0);
  }

  // ----- what comes back -----

  /** Every number of the tree satisfies `holds`. */
  predicate Numbers(holds: Double -> bool, v: Json) {
    match v
    case Number(d) => holds(d)
    case Array(items) => forall x :: x in items ==> Numbers(holds, x)
    case Object(members) => forall m :: m in members ==> Numbers(holds, m.value)
    case _ => true
  }

  /** No string or key holds a NUL. */
  predicate NulFree(v: Json) {
    match v
    case String(s) => 0 !in s
    case Array(items) => forall x :: x in items ==> NulFree(x)
    case Object(members) => forall m :: m in members ==> 0 !in m.key && NulFree(m.value)
    case _ => true
  }

  lemma {:induction false} CutWhole(s: seq<Byte>)
    ensures Cut(s) == s <==> 0 !in s
  {
    if s != [] && s[0] != 0 {
      CutWhole(s[1..]);
      Head(s[0], Cut(s[1..]), s);
    }
  }

  /** Every double of the tree is read back. */
  function Kept(back: Reads): Double -> bool {
    (d: Double) => back(d) == Some(d)
  }

  predicate Survives(back: Reads, v: Json) {
    NulFree(v) && Numbers(Kept(back), v)
  }

  predicate MemberSurvives(back: Reads, m: Member) {
    0 !in m.key && Survives(back, m.value)
  }

  /** The tree itself comes back exactly when its strings hold no NUL and every double is read back. */
  lemma {:induction false} RereadExactly(back: Reads, v: Json)
    ensures Reread(back, v) == v <==> Survives(back, v)
    decreases v, 1
  {
    match v
    case String(s) => CutWhole(s);
    case Array(items) =>
      ItemsExactly(back, items);
      assert (forall x :: x in items ==> Survives(back, x)) <==> Survives(back, v);
    case Object(members) =>
      MembersExactly(back, members);
      assert (forall m :: m in members ==> MemberSurvives(back, m)) <==> Survives(back, v);
    case _ =>
  }

  lemma {:induction false} ItemsExactly(back: Reads, items: seq<Json>)
    ensures RereadItems(back, items) == items <==> forall x :: x in items ==> Survives(back, x)
    decreases items, 0
  {
    if items != [] {
      RereadExactly(back, items[0]);
      ItemsExactly(back, items[1..]);
      Head(Reread(back, items[0]), RereadItems(back, items[1..]), items);
    }
  }

  lemma {:induction false} MemberExactly(back: Reads, m: Member)
    ensures RereadMember(back, m) == m <==> MemberSurvives(back, m)
    decreases m, 2
  {
    CutWhole(m.key);
    RereadExactly(back, m.value);
    assert m == Member(m.key, m.value);
  }

  lemma {:induction false} MembersExactly(back: Reads, members: seq<Member>)
    ensures RereadMembers(back, members) == members <==> forall m :: m in members ==> MemberSurvives(back, m)
    decreases members, 0
  {
    if members != [] {
      MemberExactly(back, members[0]);
      MembersExactly(back, members[1..]);
      Head(RereadMember(back, members[0]), RereadMembers(back, members[1..]), members);
    }
  }

  lemma Head<T>(x: T, xs: seq<T>, all: seq<T>)
    requires all != []
    ensures [x] + xs == all <==> x == all[0] && xs == all[1..]
    ensures forall y :: y in all <==> y == all[0] || y in all[1..]
  {
    assert all == [all[0]] + all[1..];
    if [x] + xs == all {
      assert ([x] + xs)[0] == x && ([x] + xs)[1..] == xs;
    }
  }

  // ----- when the text no longer changes -----

  /** A double whose text gives a double of the same text, or no double at all. */
  function Stays(format: Style, back: Reads): Double -> bool {
    (d: Double) => format.number(d) == if back(d).None? then NULL_WORD else format.number(back(d).value)
  }

  lemma {:induction false} SamePrinted(format: Style, back: Reads, v: Json, pd: nat)
    requires Numbers(Stays(format, back), v)
    ensures Printed(Reread(back, v), format, pd) == Printed(v, format, pd)
    decreases v, 1
  {
    match v
    case String(s) => CutWhole(Cut(s));
    case Array(items) => SamePrintedItems(format, back, items, pd + 1);
    case Object(members) => SamePrintedMembers(format, back, members, pd + 1);
    case _ =>
  }

  lemma {:induction false} SamePrintedItems(format: Style, back: Reads, items: seq<Json>, pd: nat)
    requires forall x :: x in items ==> Numbers(Stays(format, back), x)
    ensures PrintedItems(RereadItems(back, items), format, pd) == PrintedItems(items, format, pd)
    decreases items, 0
  {
    if items != [] {
      SamePrinted(format, back, items[0], pd);
      SamePrintedItems(format, back, items[1..], pd);
      var rest := RereadItems(back, items[1..]);
      assert ([Reread(back, items[0])] + rest)[1..] == rest;
      assert |items| == 1 <==> rest == [];
    }
  }

  lemma {:induction false} SamePrintedMembers(format: Style, back: Reads, members: seq<Member>, pd: nat)
    requires forall m :: m in members ==> Numbers(Stays(format, back), m.value)
    ensures PrintedMembers(RereadMembers(back, members), format, pd) == PrintedMembers(members, format, pd)
    decreases members, 0
  {
    if members != [] {
      CutWhole(Cut(members[0].key));
      SamePrinted(format, back, members[0].value, pd);
      SamePrintedMembers(format, back, members[1..], pd);
      var rest := RereadMembers(back, members[1..]);
      assert ([RereadMember(back, members[0])] + rest)[1..] == rest;
      assert |members| == 1 <==> rest == [];
    }
  }

  /** A double that does not become infinite when it is printed and read. */
  function Holds(fp: Floating): Double -> bool {
    (d: Double) => Back(fp, d).Some? ==> Finite(Back(fp, d).value)
  }

  lemma StaysWhenHeld(fp: Floating, spaced: bool, d: Double)
    requires Lawful(fp) && Holds(fp)(d)
    ensures Stays(CjsonStyle(fp, spaced), CjsonBack(fp))(d)
  {
    if Finite(d) {
      RenderedAgain(fp, d);
    }
  }

  lemma {:induction false} NumbersMonotone(p: Double -> bool, q: Double -> bool, v: Json)
    requires Numbers(p, v) && forall d :: p(d) ==> q(d)
    ensures Numbers(q, v)
  {
    match v
    case Array(items) =>
      forall x | x in items ensures Numbers(q, x) {
        NumbersMonotone(p, q, x);
      }
    case Object(members) =>
      forall m | m in members ensures Numbers(q, m.value) {
        NumbersMonotone(p, q, m.value);
      }
    case _ =>
  }

  lemma SameText(fp: Floating, spaced: bool, v: Json)
    requires Lawful(fp) && Numbers(Holds(fp), v)
    ensures var style := CjsonStyle(fp, spaced);
            Printed(Reread(CjsonBack(fp), v), style, 0) == Printed(v, style, 0)
  {
    var style, back := CjsonStyle(fp, spaced), CjsonBack(fp);
    forall d | Holds(fp)(d) ensures Stays(style, back)(d) {
      StaysWhenHeld(fp, spaced, d);
    }
    NumbersMonotone(Holds(fp), Stays(style, back), v);
    SamePrinted(style, back, v, 0);
  }

  /** What has come back once survives the next round, exactly when no double of the tree becomes infinite. */
  lemma {:induction false} SurvivesNext(fp: Floating, v: Json)
    requires Lawful(fp)
    ensures Survives(CjsonBack(fp), Reread(CjsonBack(fp), v)) <==> Numbers(Holds(fp), v)
    decreases v, 1
  {
    var back := CjsonBack(fp);
    match v
    case Number(d) =>
      if Finite(d) {
        RenderedAgain(fp, d);
      }
    case Array(items) =>
      ItemsSurviveNext(fp, items);
      assert (forall x :: x in RereadItems(back, items) ==> Survives(back, x)) <==> Survives(back, Reread(back, v));
    case Object(members) =>
      MembersSurviveNext(fp, members);
      assert (forall m :: m in RereadMembers(back, members) ==> MemberSurvives(back, m)) <==>
             Survives(back, Reread(back, v));
    case _ =>
  }

  lemma {:induction false} ItemsSurviveNext(fp: Floating, items: seq<Json>)
    requires Lawful(fp)
    ensures (forall x :: x in RereadItems(CjsonBack(fp), items) ==> Survives(CjsonBack(fp), x)) <==>
            (forall x :: x in items ==> Numbers(Holds(fp), x))
    decreases items, 0
  {
    if items != [] {
      SurvivesNext(fp, items[0]);
      ItemsSurviveNext(fp, items[1..]);
      Split(items);
    }
  }

  lemma {:induction false} MembersSurviveNext(fp: Floating, members: seq<Member>)
    requires Lawful(fp)
    ensures (forall m :: m in RereadMembers(CjsonBack(fp), members) ==> MemberSurvives(CjsonBack(fp), m)) <==>
            (forall m :: m in members ==> Numbers(Holds(fp), m.value))
    decreases members, 0
  {
    if members != [] {
      SurvivesNext(fp, members[0].value);
      MembersSurviveNext(fp, members[1..]);
      Split(members);
      assert MemberSurvives(CjsonBack(fp), RereadMember(CjsonBack(fp), members[0])) <==>
             Numbers(Holds(fp), members[0].value);
    }
  }

  lemma Split<T>(all: seq<T>)
    requires all != []
    ensures forall y :: y in all <==> y == all[0] || y in all[1..]
  {
    assert all == [all[0]] + all[1..];
  }

  /** A tree that has come back once holds no double that becomes infinite. */
  lemma {:induction false} HoldsAfter(fp: Floating, v: Json)
    requires Lawful(fp)
    ensures Numbers(Holds(fp), Reread(CjsonBack(fp), v))
    decreases v, 1
  {
    match v
    case Number(d) =>
      if Finite(d) {
        RenderedAgain(fp, d);
      }
    case Array(items) => ItemsHoldAfter(fp, items);
    case Object(members) => MembersHoldAfter(fp, members);
    case _ =>
  }

  lemma {:induction false} ItemsHoldAfter(fp: Floating, items: seq<Json>)
    requires Lawful(fp)
    ensures forall x :: x in RereadItems(CjsonBack(fp), items) ==> Numbers(Holds(fp), x)
    decreases items, 0
  {
    if items != [] {
      HoldsAfter(fp, items[0]);
      ItemsHoldAfter(fp, items[1..]);
    }
  }

  lemma {:induction false} MembersHoldAfter(fp: Floating, members: seq<Member>)
    requires Lawful(fp)
    ensures forall m :: m in RereadMembers(CjsonBack(fp), members) ==> Numbers(Holds(fp), m.value)
    decreases members, 0
  {
    if members != [] {
      HoldsAfter(fp, members[0].value);
      MembersHoldAfter(fp, members[1..]);
    }
  }

  // ----- the theorem -----

  /**
   * A tree that came out of cJSON_Parse from any text, printed with or without white space and parsed again.
   * The second tree is the first one exactly when its strings hold no NUL and its doubles are read back. Printing
   * it gives the same text exactly when no double became infinite; after one more round the text stays.
   */
  lemma Reprint(fp: Floating, text: seq<Byte>, spaced: bool)
    requires Lawful(fp)
    ensures
      var lex, style, back := CjsonScanner(fp.strtod), CjsonStyle(fp, spaced), CjsonBack(fp);
      Parse(lex, text).Some? ==>
        var v := Parse(lex, text).value;
        var w := Reread(back, v);
        && Parse(lex, Printed(v, style, 0)) == Some(w)
        && (w == v <==> NulFree(v) && Numbers(Kept(back), v))
        && (Printed(w, style, 0) == Printed(v, style, 0) <==> Numbers(Holds(fp), v))
        && Printed(Reread(back, w), style, 0) == Printed(w, style, 0)
  {
    var lex := CjsonScanner(fp.strtod);
    ParseFits(lex, text);
    if Parse(lex, text).Some? {
      ReprintTree(fp, Parse(lex, text).value, spaced);
    }
  }

  /** Two trees of one text are read as one tree. */
  lemma SameReread(fp: Floating, v: Json, w: Json, spaced: bool)
    requires Lawful(fp) && Nesting(v) <= NESTING_LIMIT && Nesting(w) == Nesting(v)
    requires Printed(w, CjsonStyle(fp, spaced), 0) == Printed(v, CjsonStyle(fp, spaced), 0)
    ensures Reread(CjsonBack(fp), w) == Reread(CjsonBack(fp), v)
  {
    RoundTrip(fp, v, spaced);
    RoundTrip(fp, w, spaced);
  }

  lemma SameTextExactly(fp: Floating, v: Json, spaced: bool)
    requires Lawful(fp) && Nesting(v) <= NESTING_LIMIT
    ensures
      var style, w := CjsonStyle(fp, spaced), Reread(CjsonBack(fp), v);
      Printed(w, style, 0) == Printed(v, style, 0) <==> Numbers(Holds(fp), v)
  {
    var style, back := CjsonStyle(fp, spaced), CjsonBack(fp);
    var w := Reread(back, v);
    if Numbers(Holds(fp), v) {
      SameText(fp, spaced, v);
    }
    if Printed(w, style, 0) == Printed(v, style, 0) {
      SameNesting(back, v);
      SameReread(fp, v, w, spaced);
      RereadExactly(back, w);
      SurvivesNext(fp, v);
    }
  }

  lemma ReprintTree(fp: Floating, v: Json, spaced: bool)
    requires Lawful(fp) && Nesting(v) <= NESTING_LIMIT
    ensures
      var style, back := CjsonStyle(fp, spaced), CjsonBack(fp);
      var w := Reread(back, v);
      && Parse(CjsonScanner(fp.strtod), Printed(v, style, 0)) == Some(w)
      && (w == v <==> Survives(back, v))
      && (Printed(w, style, 0) == Printed(v, style, 0) <==> Numbers(Holds(fp), v))
      && Printed(Reread(back, w), style, 0) == Printed(w, style, 0)
  {
    RoundTrip(fp, v, spaced);
    RereadExactly(CjsonBack(fp), v);
    SameTextExactly(fp, v, spaced);
    HoldsAfter(fp, v);
    SameText(fp, spaced, Reread(CjsonBack(fp), v));
  }

  // ----- the largest double -----

  /** A finite double whose fifteen digits read as an infinity that is taken as close to it. */
  predicate Overflows(fp: Floating, d: Double, e: Double) {
    Finite(d) && !Finite(e) && fp.strtod(fp.g15(d)).1 == e && fp.close(e, d)
  }

  /** It prints as a number, comes back as the infinity, and then prints as null. */
  lemma OverflowPrinted(fp: Floating, d: Double, e: Double, spaced: bool)
    requires Lawful(fp) && Overflows(fp, d, e)
    ensures
      var style, v := CjsonStyle(fp, spaced), Number(d);
      && Printed(v, style, 0) == fp.g15(d)
      && Parse(CjsonScanner(fp.strtod), fp.g15(d)) == Some(Number(e))
      && Printed(Number(e), style, 0) == NULL_WORD
      && !Numbers(Holds(fp), v)
  {
    OverflowBack(fp, d, e);
    RoundTrip(fp, Number(d), spaced);
  }

  lemma OverflowBack(fp: Floating, d: Double, e: Double)
    requires Lawful(fp) && Overflows(fp, d, e)
    ensures Rendered(fp, d) == fp.g15(d) && Back(fp, d) == Some(e) && Rendered(fp, e) == NULL_WORD
  {
    assert Converts(fp, d);
  }

  const DBL_MAX: Double := 0x7FEF_FFFF_FFFF_FFFF
  const INFINITE: Double := 0x7FF0_0000_0000_0000

  /** 1.79769313486232e+308 */
  const MAX_TEXT: seq<Byte> := [49, 46, 55, 57, 55, 54, 57, 51, 49, 51, 52, 56, 54, 50, 51, 50, 101, 43, 51, 48, 56]

  /** The largest double is such a double: to fifteen digits it is rounded up, so that the text reads as an infinity,
      and compare_double takes an infinity as close to every double, since infinity <= infinity. */
  lemma LargestDouble(fp: Floating, spaced: bool)
    requires Lawful(fp) && fp.g15(DBL_MAX) == MAX_TEXT && fp.strtod(MAX_TEXT).1 == INFINITE
    requires fp.close(INFINITE, DBL_MAX)
    ensures Printed(Number(DBL_MAX), CjsonStyle(fp, spaced), 0) == MAX_TEXT
    ensures Parse(CjsonScanner(fp.strtod), MAX_TEXT) == Some(Number(INFINITE))
    ensures Printed(Number(INFINITE), CjsonStyle(fp, spaced), 0) == NULL_WORD
  {
    assert Overflows(fp, DBL_MAX, INFINITE);
    OverflowPrinted(fp, DBL_MAX, INFINITE, spaced);
  }
}
