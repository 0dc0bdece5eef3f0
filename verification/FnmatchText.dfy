/** How patterns are written: text that is read back as the tokens it was written for. */
module FnmatchText {
  import opened CStrings
  import opened Fnmatch
  import FnmatchExact

  // ----- inside a bracket -----

  /** Characters that mean something in a bracket. */
  predicate Special(c: CChar, fl: Flags) {
    c == ']' || c == '-' || c == '[' || c == '!' || c == '^' || (c == '\\' && !fl.noescape)
  }

  /** A closing bracket that comes first stands for itself; others are quoted, if that is possible. */
  predicate CanShow(c: CChar, first: bool, fl: Flags) {
    !Special(c, fl) || (first && c == ']') || !fl.noescape
  }

  function ShowChar(c: CChar, first: bool, fl: Flags): (p: CString)
    ensures 1 <= |p| <= 2 && p[0] != '-' && p[0] != '!' && p[0] != '^' && p[0] != '['
    ensures !first && CanShow(c, first, fl) ==> p[0] != ']'
  {
    if !Special(c, fl) || (first && c == ']') then [c] else ['\\', c]
  }

  predicate CanShowItem(i: Item, first: bool, fl: Flags) {
    match i
    case Single(c) => CanShow(c, first, fl)
    case Range(low, high) => CanShow(low, first, fl) && CanShow(high, false, fl)
  }

  function ShowItem(i: Item, first: bool, fl: Flags): (p: CString)
    ensures p != [] && p[0] != '-' && p[0] != '!' && p[0] != '^' && p[0] != '['
    ensures !first && CanShowItem(i, first, fl) ==> p[0] != ']'
  {
    match i
    case Single(c) => ShowChar(c, first, fl)
    case Range(low, high) => ShowChar(low, first, fl) + ['-'] + ShowChar(high, false, fl)
  }

  predicate CanShowItems(items: seq<Item>, first: bool, fl: Flags) {
    items == [] || (CanShowItem(items[0], first, fl) && CanShowItems(items[1..], false, fl))
  }

  function ShowItems(items: seq<Item>, first: bool, fl: Flags): (p: CString) {
    if items == [] then [] else ShowItem(items[0], first, fl) + ShowItems(items[1..], false, fl)
  }

  lemma CharIsRead(c: CChar, first: bool, rest: CString, fl: Flags)
    requires CanShow(c, first, fl)
    ensures TakeChar(ShowChar(c, first, fl) + rest, fl) == Quoted(c, rest)
  {
    var p := ShowChar(c, first, fl);
    assert |p| == 1 ==> (p + rest)[1..] == rest;
    assert |p| == 2 ==> (p + rest)[2..] == rest;
  }

  lemma ItemIsRead(i: Item, first: bool, rest: CString, fl: Flags)
    requires CanShowItem(i, first, fl) && rest != [] && rest[0] != '-'
    ensures TakeItem(ShowItem(i, first, fl) + rest, fl) == OneItem(i, rest)
  {
    hide TakeChar, ShowChar, CanShow;
    match i
    case Single(c) => CharIsRead(c, first, rest, fl);
    case Range(low, high) =>
      var more := ShowChar(high, false, fl) + rest;
      assert ShowItem(i, first, fl) + rest == ShowChar(low, first, fl) + (['-'] + more);
      CharIsRead(low, first, ['-'] + more, fl);
      assert (['-'] + more)[1..] == more;
      CharIsRead(high, false, rest, fl);
  }

  lemma {:induction false} ItemsAreRead(items: seq<Item>, first: bool, rest: CString, fl: Flags)
    requires CanShowItems(items, first, fl) && (first ==> items != [])
    ensures ParseItems(ShowItems(items, first, fl) + [']'] + rest, first, fl) == Items(items, rest)
    decreases |items|
  {
    hide TakeItem, ShowItem, CanShowItem;
    if items == [] {
      assert ([] + [']'] + rest)[1..] == rest;
    } else {
      var more := ShowItems(items[1..], false, fl) + [']'] + rest;
      assert ShowItems(items, first, fl) + [']'] + rest == ShowItem(items[0], first, fl) + more;
      ItemIsRead(items[0], first, more, fl);
      ItemsAreRead(items[1..], false, rest, fl);
      assert [items[0]] + items[1..] == items;
    }
  }

  // ----- whole patterns -----

  predicate CanShowToken(t: Token, fl: Flags) {
    match t
    case Lit(c, true) => !fl.noescape
    case Lit(c, false) => c != '?' && c != '*' && c != '[' && (c == '\\' ==> fl.noescape)
    case AnyChar => true
    case Star => true
    case Bracket(_, items) => items != [] && CanShowItems(items, true, fl)
    case Never => !fl.noescape
    case Unclear => false
  }

  function ShowToken(t: Token, fl: Flags): CString {
    match t
    case Lit(c, true) => ['\\', c]
    case Lit(c, false) => [c]
    case AnyChar => ['?']
    case Star => ['*']
    case Bracket(negated, items) => (if negated then ['[', '!'] else ['[']) + (ShowItems(items, true, fl) + [']'])
    case Never => ['\\']
    case Unclear => ['[']
  }

  /** Token lists there is text for; a lone backslash can only be the last. */
  predicate CanShowAll(ts: seq<Token>, fl: Flags) {
    ts == [] || (CanShowToken(ts[0], fl) && (ts[0].Never? ==> |ts| == 1) && CanShowAll(ts[1..], fl))
  }

  function Show(ts: seq<Token>, fl: Flags): CString {
    if ts == [] then [] else ShowToken(ts[0], fl) + Show(ts[1..], fl)
  }

  lemma BracketParsed(p: CString, negated: bool, inside: CString, fl: Flags)
    requires inside != [] && inside[0] != '!' && inside[0] != '^'
    requires p == (if negated then ['[', '!'] else ['[']) + inside
    requires ParseItems(inside, true, fl).Items?
    ensures var r := ParseItems(inside, true, fl); Parse(p, fl) == [Bracket(negated, r.items)] + Parse(r.rest, fl)
  {
    hide ParseItems;
    assert p[0] == '[' && p[1..] == (if negated then ['!'] else []) + inside;
    assert p[if negated then 2 else 1..] == inside;
  }

  /** A bracket is read back with what follows it. */
  lemma BracketIsRead(negated: bool, items: seq<Item>, rest: CString, fl: Flags)
    requires items != [] && CanShowItems(items, true, fl)
    ensures Parse(ShowToken(Bracket(negated, items), fl) + rest, fl) == [Bracket(negated, items)] + Parse(rest, fl)
  {
    hide Parse, ParseItems, CanShowItems, ShowItem;
    var inside := ShowItems(items, true, fl) + [']'] + rest;
    ItemsAreRead(items, true, rest, fl);
    assert inside[0] == ShowItem(items[0], true, fl)[0];
    BracketParsed(ShowToken(Bracket(negated, items), fl) + rest, negated, inside, fl);
  }

  lemma SimpleIsRead(t: Token, rest: CString, fl: Flags)
    requires CanShowToken(t, fl) && !t.Bracket? && !t.Never?
    ensures Parse(ShowToken(t, fl) + rest, fl) == [t] + Parse(rest, fl)
  {
    var p := ShowToken(t, fl) + rest;
    if |ShowToken(t, fl)| == 2 { assert p[2..] == rest; } else { assert p[1..] == rest; }
  }

  /** What is written is read back, whatever the flags. */
  lemma {:induction false} ShownIsRead(ts: seq<Token>, fl: Flags)
    requires CanShowAll(ts, fl)
    ensures Parse(Show(ts, fl), fl) == ts
    decreases |ts|
  {
    hide Parse, ShowToken, CanShowToken;
    if ts == [] {
      NoText(fl);
    } else {
      var rest := Show(ts[1..], fl);
      ShownIsRead(ts[1..], fl);
      assert [ts[0]] + ts[1..] == ts;
      match ts[0]
      case Bracket(negated, items) =>
        BracketItems(ts[0], fl);
        BracketIsRead(negated, items, rest, fl);
      case Never =>
        NeverIsRead(fl);
        assert ts[1..] == [] && rest == [] && ShowToken(Never, fl) + rest == ShowToken(Never, fl);
      case _ => SimpleIsRead(ts[0], rest, fl);
    }
  }

  lemma NoText(fl: Flags)
    ensures Parse([], fl) == []
  {
  }

  lemma BracketItems(t: Token, fl: Flags)
    requires CanShowToken(t, fl) && t.Bracket?
    ensures t.items != [] && CanShowItems(t.items, true, fl)
  {
  }

  lemma NeverIsRead(fl: Flags)
    ensures CanShowToken(Never, fl) ==> Parse(ShowToken(Never, fl), fl) == [Never]
  {
  }

  // ----- negation -----

  /** A bracket's inside, up to its closing bracket, with no sign of negation in front. */
  predicate Inside(b: CString, fl: Flags) {
    var r := ParseItems(b, true, fl);
    r.Items? && r.rest == [] && b[0] != '!' && b[0] != '^'
  }

  lemma Alone(b: CString, fl: Flags)
    requires Inside(b, fl)
    ensures ParseItems(b, true, fl).Items?
    ensures var items := ParseItems(b, true, fl).items;
            && Parse(['['] + b, fl) == [Bracket(false, items)]
            && Parse(['[', '!'] + b, fl) == [Bracket(true, items)]
            && (fl.caret ==> Parse(['[', '^'] + b, fl) == [Bracket(true, items)])
  {
    hide ParseItems;
    var items := ParseItems(b, true, fl).items;
    assert (['['] + b)[1..] == b;
    assert (['[', '!'] + b)[1..] == ['!'] + b && (['[', '!'] + b)[2..] == b;
    assert (['[', '^'] + b)[1..] == ['^'] + b && (['[', '^'] + b)[2..] == b;
    NoText(fl);
    assert [Bracket(false, items)] + [] == [Bracket(false, items)];
    assert [Bracket(true, items)] + [] == [Bracket(true, items)];
  }

  /** An exclamation mark in front negates a bracket, whatever is in it. */
  lemma BangNegates(b: CString, c: CChar, fl: Flags)
    requires Inside(b, fl) && Wild(c, fl)
    ensures Accepts(Parse(['[', '!'] + b, fl), [c], fl) == !Accepts(Parse(['['] + b, fl), [c], fl)
  {
    hide Parse, Accepts, Inside;
    Alone(b, fl);
    FnmatchExact.BracketStep(false, ParseItems(b, true, fl).items, [c], fl);
    FnmatchExact.BracketStep(true, ParseItems(b, true, fl).items, [c], fl);
  }

  ghost predicate CaretNegatesAll(fl: Flags) {
    forall b: CString, c: CChar :: Inside(b, fl) && Wild(c, fl) ==>
      Accepts(Parse(['[', '^'] + b, fl), [c], fl) == !Accepts(Parse(['['] + b, fl), [c], fl)
  }

  /** A caret does so exactly unless POSIXLY_CORRECT is set. */
  lemma CaretNegates(fl: Flags)
    ensures CaretNegatesAll(fl) <==> fl.caret
  {
    hide Parse, Accepts, Inside;
    if fl.caret {
      forall b: CString, c: CChar | Inside(b, fl) && Wild(c, fl)
        ensures Accepts(Parse(['[', '^'] + b, fl), [c], fl) == !Accepts(Parse(['['] + b, fl), [c], fl)
      {
        Alone(b, fl);
        FnmatchExact.BracketStep(false, ParseItems(b, true, fl).items, [c], fl);
        FnmatchExact.BracketStep(true, ParseItems(b, true, fl).items, [c], fl);
      }
    } else {
      CaretIsItem(fl);
    }
  }

  /** Else it is a character of the bracket: `[^a]` matches `a`, as `[a]` does. */
  lemma CaretIsItem(fl: Flags)
    requires !fl.caret
    ensures Inside(['a', ']'], fl) && Wild('a', fl)
    ensures Accepts(Parse(['[', '^'] + ['a', ']'], fl), ['a'], fl) && Accepts(Parse(['['] + ['a', ']'], fl), ['a'], fl)
  {
    hide Accepts;
    var b: CString, c: CChar := ['a', ']'], 'a';
    var p: CString := ['^', 'a', ']'];
    assert b[1..] == [']'] && [']'][1..] == [] && p[1..] == b;
    assert ParseItems([']'], false, fl) == Items([], []);
    assert TakeItem(b, fl) == OneItem(Single('a'), [']']) && TakeItem(p, fl) == OneItem(Single('^'), b);
    assert ParseItems(b, true, fl) == ParseItems(b, false, fl) == Items([Single('a')], []);
    assert ParseItems(p, true, fl) == Items([Single('^'), Single('a')], []);
    Alone(b, fl);
    assert ['[', '^'] + b == ['['] + p && (['['] + p)[1..] == p;
    NoText(fl);
    var items := [Single('^'), Single('a')];
    assert [Bracket(false, items)] + [] == [Bracket(false, items)];
    assert Parse(['['] + p, fl) == [Bracket(false, items)];
    FnmatchExact.BracketStep(false, items, [c], fl);
    FnmatchExact.BracketStep(false, [Single('a')], [c], fl);
    assert Covers(items[1], c, fl) && Covers([Single('a')][0], c, fl);
  }
}
