/** File name patterns: what a pattern means, and the matcher that works through pattern and name
    with two pointers. */
module Fnmatch {
  import opened CStrings

  /** The flags the model covers; `caret` says that `^` negates a bracket as `!` does, which it
      does unless POSIXLY_CORRECT is set.  `signedChar` belongs to the host: whether a plain
      `char` is signed there. */
  datatype Flags = Flags(pathname: bool, noescape: bool, leadingDir: bool, caret: bool, signedChar: bool)

  // ----- what a pattern consists of -----

  datatype Item = Single(c: CChar) | Range(low: CChar, high: CChar)

  datatype Token =
    | Lit(c: CChar, escaped: bool)
    | AnyChar
    | Star
    | Bracket(negated: bool, items: seq<Item>)
    | Never      // a trailing backslash: nothing matches it
    | Unclear    // a bracket that is unterminated or names a class

  datatype Items = Items(items: seq<Item>, rest: CString) | NotSimple

  /** `[:`, `[=` and `[.` begin names of classes and collating elements. */
  predicate NamesClass(p: CString) {
    |p| > 1 && p[0] == '[' && (p[1] == ':' || p[1] == '=' || p[1] == '.')
  }

  /** The character at the front of `p`, which a backslash may quote, and what follows. */
  datatype Quoted = Quoted(c: CChar, rest: CString) | Nothing

  function TakeChar(p: CString, fl: Flags): (q: Quoted)
    ensures q.Quoted? ==> |q.rest| < |p|
  {
    if p == [] then Nothing
    else if p[0] == '\\' && !fl.noescape then (if |p| == 1 then Nothing else Quoted(p[1], p[2..]))
    else if NamesClass(p) then Nothing
    else Quoted(p[0], p[1..])
  }

  /** One item of a bracket, a character or a range, and what follows. */
  datatype OneItem = OneItem(item: Item, rest: CString) | NoItem

  function TakeItem(p: CString, fl: Flags): (r: OneItem)
    ensures r.OneItem? ==> |r.rest| < |p|
  {
    var low := TakeChar(p, fl);
    if low.Nothing? then NoItem
    else if |low.rest| > 1 && low.rest[0] == '-' && low.rest[1] != ']' then
      var high := TakeChar(low.rest[1..], fl);
      if high.Nothing? then NoItem else OneItem(Range(low.c, high.c), high.rest)
    else OneItem(Single(low.c), low.rest)
  }

  /** The inside of a bracket, up to the closing one, which cannot come first. */
  function ParseItems(p: CString, first: bool, fl: Flags): (r: Items)
    ensures r.Items? ==> |r.rest| < |p|
    decreases |p|
  {
    if p != [] && p[0] == ']' && !first then Items([], p[1..])
    else
      var one := TakeItem(p, fl);
      if one.NoItem? then NotSimple
      else
        var more := ParseItems(one.rest, false, fl);
        if more.NotSimple? then NotSimple else Items([one.item] + more.items, more.rest)
  }

  predicate Negates(p: CString, fl: Flags) {
    p != [] && (p[0] == '!' || (fl.caret && p[0] == '^'))
  }

  /** The tokens of a pattern. */
  function Parse(p: CString, fl: Flags): seq<Token>
    decreases |p|
  {
    if p == [] then []
    else if p[0] == '?' then [AnyChar] + Parse(p[1..], fl)
    else if p[0] == '*' then [Star] + Parse(p[1..], fl)
    else if p[0] == '\\' && !fl.noescape then
      if |p| == 1 then [Never] else [Lit(p[1], true)] + Parse(p[2..], fl)
    else if p[0] == '[' then
      var negated := Negates(p[1..], fl);
      var r := ParseItems(p[if negated then 2 else 1..], true, fl);
      if r.NotSimple? then [Unclear] else [Bracket(negated, r.items)] + Parse(r.rest, fl)
    else [Lit(p[0], false)] + Parse(p[1..], fl)
  }

  // ----- what a pattern means -----

  /** The lower bound of a range is kept in a plain `char`, and compared as a number. */
  function Bound(c: CChar, fl: Flags): int {
    if fl.signedChar && c as int >= 128 then c as int - 256 else c as int
  }

  predicate Covers(i: Item, c: CChar, fl: Flags) {
    match i
    case Single(d) => c == d
    case Range(low, high) => Bound(low, fl) <= c as int <= high as int
  }

  predicate InItems(c: CChar, items: seq<Item>, fl: Flags) {
    exists i :: 0 <= i < |items| && Covers(items[i], c, fl)
  }

  /** Whether a wildcard or a bracket may stand for `c`. */
  predicate Wild(c: CChar, fl: Flags) {
    !(fl.pathname && c == '/')
  }

  predicate One(t: Token, c: CChar, fl: Flags) {
    match t
    case Lit(d, _) => c == d
    case AnyChar => Wild(c, fl)
    case Bracket(negated, items) => Wild(c, fl) && InItems(c, items, fl) != negated
    case _ => false
  }

  /** `s` is in the language the host gives to the tokens: a star stands for any string of characters a wildcard
      may stand for; with `leadingDir` a match may end at a slash. */
  predicate Matches(ts: seq<Token>, s: CString, fl: Flags)
    decreases |ts|
  {
    if ts == [] then s == [] || (fl.leadingDir && s[0] == '/')
    else if ts[0].Star? then exists k :: 0 <= k <= |s| && AllWild(s[..k], fl) && Matches(ts[1..], s[k..], fl)
    else s != [] && One(ts[0], s[0], fl) && Matches(ts[1..], s[1..], fl)
  }

  predicate AllWild(s: CString, fl: Flags) {
    forall i :: 0 <= i < |s| ==> Wild(s[i], fl)
  }

  predicate Clear(ts: seq<Token>) {
    forall i :: 0 <= i < |ts| ==> !ts[i].Unclear?
  }

  /** After a star, and further stars and question marks, comes a quoted slash. */
  predicate StarThenQuotedSlash(ts: seq<Token>) {
    ts != [] && (StarThenQuotedSlash(ts[1..]) || (ts[0].Star? && RunThenQuotedSlash(ts[1..])))
  }

  predicate RunThenQuotedSlash(ts: seq<Token>) {
    ts != [] && (ts[0] == Lit('/', true) || ((ts[0].Star? || ts[0].AnyChar?) && RunThenQuotedSlash(ts[1..])))
  }

  /** `s` is in the language of the tokens as it is documented: bytes are compared as such. */
  predicate Language(ts: seq<Token>, s: CString, fl: Flags) {
    Matches(ts, s, Documented(fl))
  }

  function Documented(fl: Flags): Flags {
    fl.(signedChar := false)
  }

  /** What the matcher accepts: the language the host gives to the pattern, except that with
      `pathname` it finds nothing for a star followed by a quoted slash. */
  predicate Accepts(ts: seq<Token>, s: CString, fl: Flags) {
    Matches(ts, s, fl) && !(fl.pathname && StarThenQuotedSlash(ts))
  }

  // ----- the bracket -----

  /** A character of a bracket, quoted or not. */
  method ReadChar(p: CString, fl: Flags) returns (c: CChar, rest: CString)
    requires TakeChar(p, fl).Quoted?
    ensures TakeChar(p, fl) == Quoted(c, rest)
  {
    c, rest := p[0], p[1..];
    if !fl.noescape && c == '\\' {
      c, rest := rest[0], rest[1..];
    }
  }

  /** An item of a bracket: whether it covers `fn`. */
  method ReadItem(p: CString, fn: CChar, fl: Flags) returns (hit: bool, rest: CString)
    requires TakeItem(p, fl).OneItem?
    ensures hit == Covers(TakeItem(p, fl).item, fn, fl) && rest == TakeItem(p, fl).rest
  {
    hide TakeChar;
    var c;
    c, rest := ReadChar(p, fl);
    var isRange := |rest| > 1 && rest[0] == '-' && rest[1] != ']';
    if !isRange {
      return c == fn, rest;
    }
    var cold := c;
    var cend;
    cend, rest := ReadChar(rest[1..], fl);
    hit := Bound(cold, fl) <= fn as int && fn <= cend;
  }

  /** Scan a bracket for `fn`: the scan stops at the first item that covers it and then skips to
      the end. */
  method MatchItems(p: CString, fn: CChar, fl: Flags) returns (hit: bool, rest: CString)
    requires ParseItems(p, true, fl).Items?
    ensures hit == InItems(fn, ParseItems(p, true, fl).items, fl)
    ensures rest == ParseItems(p, true, fl).rest
  {
    hide TakeItem;
    var q, first := p, true;
    while first || q[0] != ']'
      invariant first || q != []
      invariant ParseItems(q, first, fl).Items? && ParseItems(q, first, fl).rest == ParseItems(p, true, fl).rest
      invariant InItems(fn, ParseItems(p, true, fl).items, fl) == InItems(fn, ParseItems(q, first, fl).items, fl)
      decreases |q|
    {
      ghost var one := TakeItem(q, fl);
      ItemOrRest(fn, one.item, ParseItems(one.rest, false, fl).items, fl);
      hit, q := ReadItem(q, fn, fl);
      if hit {
        rest := SkipItems(q, fl);
        return;
      }
      NotEmpty(q, fl);
      first := false;
    }
    hit, rest := false, q[1..];
  }

  lemma ItemOrRest(c: CChar, i: Item, more: seq<Item>, fl: Flags)
    ensures InItems(c, [i] + more, fl) <==> Covers(i, c, fl) || InItems(c, more, fl)
  {
    assert ([i] + more)[0] == i;
    assert forall j :: 0 <= j < |more| ==> ([i] + more)[j + 1] == more[j];
  }

  lemma NotEmpty(q: CString, fl: Flags)
    requires ParseItems(q, false, fl).Items?
    ensures q != []
  {
  }

  /** What follows the first closing bracket that is not quoted. */
  function AfterClosing(p: CString, fl: Flags): CString
    decreases |p|
  {
    if p == [] then []
    else if !fl.noescape && p[0] == '\\' then (if |p| == 1 then [] else AfterClosing(p[2..], fl))
    else if p[0] == ']' then p[1..]
    else AfterClosing(p[1..], fl)
  }

  /** Items contain no closing bracket that is not quoted, the first character apart. */
  lemma {:induction false} SkipIsParse(p: CString, fl: Flags)
    requires ParseItems(p, false, fl).Items?
    ensures AfterClosing(p, fl) == ParseItems(p, false, fl).rest
    decreases |p|
  {
    if p[0] != ']' {
      var one := TakeItem(p, fl);
      SkipItem(p, fl);
      SkipIsParse(one.rest, fl);
    }
  }

  lemma SkipItem(p: CString, fl: Flags)
    requires p != [] && p[0] != ']' && TakeItem(p, fl).OneItem?
    ensures AfterClosing(p, fl) == AfterClosing(TakeItem(p, fl).rest, fl)
  {
    var low := TakeChar(p, fl);
    assert AfterClosing(p, fl) == AfterClosing(low.rest, fl);
    if |low.rest| > 1 && low.rest[0] == '-' && low.rest[1] != ']' {
      var q := low.rest[1..];
      assert AfterClosing(low.rest, fl) == AfterClosing(q, fl);
      assert AfterClosing(q, fl) == AfterClosing(TakeChar(q, fl).rest, fl);
    }
  }

  /** Skip the rest of a bracket that has matched, one character at a time. */
  method SkipItems(p: CString, fl: Flags) returns (rest: CString)
    requires ParseItems(p, false, fl).Items?
    ensures rest == ParseItems(p, false, fl).rest
  {
    SkipIsParse(p, fl);
    rest := p;
    while rest != [] && rest[0] != ']'
      invariant AfterClosing(rest, fl) == AfterClosing(p, fl)
      decreases |rest|
    {
      if !fl.noescape && rest[0] == '\\' {
        rest := if |rest| == 1 then [] else rest[2..];
      } else {
        rest := rest[1..];
      }
    }
    if rest != [] {
      rest := rest[1..];
    }
  }

  // ----- the star -----

  /** A token that stands for one character. */
  lemma OneStep(ts: seq<Token>, s: CString, fl: Flags)
    requires ts != [] && !ts[0].Star?
    ensures Accepts(ts, s, fl) <==> s != [] && One(ts[0], s[0], fl) && Accepts(ts[1..], s[1..], fl)
  {
  }

  lemma StarUnfold(ts: seq<Token>, s: CString, fl: Flags)
    ensures Matches([Star] + ts, s, fl) <==>
            exists k :: 0 <= k <= |s| && AllWild(s[..k], fl) && Matches(ts, s[k..], fl)
    ensures StarThenQuotedSlash([Star] + ts) <==> StarThenQuotedSlash(ts) || RunThenQuotedSlash(ts)
  {
    assert ([Star] + ts)[1..] == ts;
  }

  lemma AllWildSplit(s: CString, k: nat, j: nat, fl: Flags)
    requires k + j <= |s|
    ensures AllWild(s[..k + j], fl) <==> AllWild(s[..k], fl) && AllWild(s[k..][..j], fl)
  {
    assert forall i :: 0 <= i < j ==> s[k..][..j][i] == s[k + i];
    assert forall i :: 0 <= i < k + j ==> s[..k + j][i] == s[i];
    if AllWild(s[..k], fl) && AllWild(s[k..][..j], fl) {
      forall i | 0 <= i < k + j ensures Wild(s[i], fl) {
        if i >= k { assert s[i] == s[k..][..j][i - k]; } else { assert s[i] == s[..k][i]; }
      }
    }
    if AllWild(s[..k + j], fl) {
      forall i | 0 <= i < j ensures Wild(s[k..][..j][i], fl) { assert s[..k + j][k + i] == s[k..][..j][i]; }
      forall i | 0 <= i < k ensures Wild(s[..k][i], fl) { assert s[..k + j][i] == s[..k][i]; }
    }
  }

  /** A second star adds nothing. */
  lemma StarStar(ts: seq<Token>, s: CString, fl: Flags)
    ensures Accepts([Star] + ([Star] + ts), s, fl) <==> Accepts([Star] + ts, s, fl)
  {
    StarUnfold([Star] + ts, s, fl);
    StarUnfold(ts, s, fl);
    if Matches([Star] + ([Star] + ts), s, fl) {
      var k :| 0 <= k <= |s| && AllWild(s[..k], fl) && Matches([Star] + ts, s[k..], fl);
      StarUnfold(ts, s[k..], fl);
      var j :| 0 <= j <= |s[k..]| && AllWild(s[k..][..j], fl) && Matches(ts, s[k..][j..], fl);
      AllWildSplit(s, k, j, fl);
      assert s[k..][j..] == s[k + j..];
    }
    if Matches([Star] + ts, s, fl) {
      assert s[0..] == s;
      assert AllWild(s[..0], fl) && Matches([Star] + ts, s[0..], fl);
    }
    assert ([Star] + ts)[1..] == ts;
  }

  lemma AnyBefore(ts: seq<Token>, s: CString, k: nat, fl: Flags)
    requires k <= |s| && AllWild(s[..k], fl) && Matches([AnyChar] + ts, s[k..], fl)
    ensures k < |s| && Wild(s[0], fl) && AllWild(s[1..][..k], fl) && Matches(ts, s[1..][k..], fl)
  {
    assert ([AnyChar] + ts)[1..] == ts;
    assert s[k..] != [] && Wild(s[k], fl) && Matches(ts, s[k..][1..], fl);
    assert s[k..][1..] == s[1..][k..];
    forall i | 0 <= i <= k ensures Wild(s[i], fl) {
      if i < k { assert s[i] == s[..k][i]; }
    }
    assert forall i :: 0 <= i < k ==> s[1..][..k][i] == s[1 + i];
  }

  /** A question mark after a star takes a character at once. */
  lemma StarAny(ts: seq<Token>, s: CString, fl: Flags)
    ensures Accepts([Star] + ([AnyChar] + ts), s, fl) <==>
            s != [] && Wild(s[0], fl) && Accepts([Star] + ts, s[1..], fl)
  {
    hide Matches, AllWild;
    StarUnfold([AnyChar] + ts, s, fl);
    assert ([AnyChar] + ts)[1..] == ts;
    StarUnfold(ts, if s == [] then s else s[1..], fl);
    if Matches([Star] + ([AnyChar] + ts), s, fl) {
      var k :| 0 <= k <= |s| && AllWild(s[..k], fl) && Matches([AnyChar] + ts, s[k..], fl);
      AnyBefore(ts, s, k, fl);
    }
    if s != [] && Wild(s[0], fl) && Matches([Star] + ts, s[1..], fl) {
      var k :| 0 <= k <= |s[1..]| && AllWild(s[1..][..k], fl) && Matches(ts, s[1..][k..], fl);
      AnyAfter(ts, s, k, fl);
    }
  }

  lemma AnyAfter(ts: seq<Token>, s: CString, k: nat, fl: Flags)
    requires k < |s| && Wild(s[0], fl) && AllWild(s[1..][..k], fl) && Matches(ts, s[1..][k..], fl)
    ensures AllWild(s[..k], fl) && Matches([AnyChar] + ts, s[k..], fl)
  {
    forall i | 0 <= i <= k ensures Wild(s[i], fl) {
      if i > 0 { assert s[i] == s[1..][..k][i - 1]; }
    }
    assert s[k..][1..] == s[1..][k..];
    assert ([AnyChar] + ts)[1..] == ts;
  }

  /** How far a star can reach. */
  function Reach(s: CString, fl: Flags): (n: nat)
    ensures n <= |s|
    ensures forall k :: 0 <= k <= |s| ==> (AllWild(s[..k], fl) <==> k <= n)
    ensures n < |s| ==> fl.pathname && s[n] == '/'
    ensures forall i :: 0 <= i < n ==> Wild(s[i], fl)
  {
    if s == [] || !Wild(s[0], fl) then
      assert forall k :: 0 < k <= |s| ==> s[..k][0] == s[0];
      0
    else
      var n := 1 + Reach(s[1..], fl);
      assert forall k :: 0 < k <= |s| ==> s[..k] == [s[0]] + s[1..][..k - 1];
      assert forall k :: 0 < k <= |s| ==> (AllWild(s[..k], fl) <==> AllWild(s[1..][..k - 1], fl)) by {
        forall k | 0 < k <= |s| ensures AllWild(s[..k], fl) <==> AllWild(s[1..][..k - 1], fl) {
          AllWildSplit(s, 1, k - 1, fl);
        }
      }
      n
  }

  /** A star at the end of the pattern. */
  lemma StarAtEnd(s: CString, fl: Flags)
    ensures Accepts([Star], s, fl) <==> !fl.pathname || fl.leadingDir || '/' !in s
  {
    StarUnfold([], s, fl);
    assert [Star] + [] == [Star];
    var n := Reach(s, fl);
    assert AllWild(s[..n], fl);
    if n == |s| {
      assert Matches([], s[n..], fl);
      assert forall i :: 0 <= i < |s| ==> Wild(s[i], fl);
    } else {
      if fl.leadingDir { assert Matches([], s[n..], fl); }
    }
  }

  predicate FoundBefore(ts: seq<Token>, s: CString, end: nat, fl: Flags)
    requires end <= |s|
  {
    exists k :: 0 <= k < end && Accepts(ts, s[k..], fl)
  }

  /** A star before a token that stands for one character: the rest of the pattern must match at
      a place the star can reach, or at the slash that stops it. */
  lemma StarBefore(ts: seq<Token>, s: CString, fl: Flags)
    requires ts != [] && !ts[0].Star? && !ts[0].AnyChar?
    ensures var n := Reach(s, fl);
            Accepts([Star] + ts, s, fl) <==>
            if fl.pathname && ts[0] == Lit('/', false) then n < |s| && Accepts(ts, s[n..], fl)
            else FoundBefore(ts, s, n, fl)
  {
    StarUnfold(ts, s, fl);
    var n := Reach(s, fl);
    assert RunThenQuotedSlash(ts) <==> ts[0] == Lit('/', true);
    if Accepts([Star] + ts, s, fl) {
      var k :| 0 <= k <= |s| && AllWild(s[..k], fl) && Matches(ts, s[k..], fl);
      OneStep(ts, s[k..], fl);
      assert k <= n && k < |s| && One(ts[0], s[k], fl);
      assert Accepts(ts, s[k..], fl);
    }
    if FoundBefore(ts, s, n, fl) {
      var k :| 0 <= k < n && Accepts(ts, s[k..], fl);
      OneStep(ts, s[k..], fl);
      assert AllWild(s[..k], fl) && Wild(s[k], fl);
    }
    if n < |s| { assert AllWild(s[..n], fl); }
  }

  // ----- the matcher -----

  lemma ClearTail(t: Token, ts: seq<Token>)
    ensures Clear([t] + ts) ==> Clear(ts)
  {
    assert forall i :: 0 <= i < |ts| ==> ([t] + ts)[i + 1] == ts[i];
  }

  /** `internal_fnmatch`: whether `str` from here on matches `pattern` from here on. */
  method Fct(pattern: CString, str: CString, fl: Flags) returns (matched: bool)
    requires Clear(Parse(pattern, fl))
    ensures matched == Accepts(Parse(pattern, fl), str, fl)
    decreases |pattern|, 0
  {
    hide Accepts, ParseItems, One, InItems;
    var p, n := pattern, str;
    while p != []
      invariant |p| <= |pattern| && Clear(Parse(p, fl))
      invariant Accepts(Parse(pattern, fl), str, fl) == Accepts(Parse(p, fl), n, fl)
      decreases |p|
    {
      ghost var ts := Parse(p, fl);
      assert Clear(ts) ==> !ts[0].Unclear?;
      ClearTail(ts[0], ts[1..]);
      assert [ts[0]] + ts[1..] == ts;
      var c := p[0];
      p := p[1..];
      if c == '*' {
        matched := MatchStar(p, n, fl);
        return;
      }
      OneStep(ts, n, fl);
      if c == '?' {
        OneAny(if n == [] then 'a' else n[0], fl);
        if n == [] {
          return false;
        } else if n[0] == '/' && fl.pathname {
          return false;
        }
      } else if c == '[' {
        if n == [] {
          return false;
        }
        OneBracket(ts[0], n[0], fl);
        if n[0] == '/' && fl.pathname {
          return false;
        }
        var not := p != [] && (p[0] == '!' || (fl.caret && p[0] == '^'));
        if not {
          p := p[1..];
        }
        var hit;
        hit, p := MatchItems(p, n[0], fl);
        if hit == not {
          return false;
        }
      } else {
        if c == '\\' && !fl.noescape {
          if p == [] {
            OneNever(if n == [] then 'a' else n[0], fl);
            return false;
          }
          c := p[0];
          p := p[1..];
        }
        if n == [] {
          return false;
        }
        OneLit(ts[0], n[0], fl);
        if n[0] != c {
          return false;
        }
      }
      n := n[1..];
    }
    NoTokens(n, fl);
    matched := n == [] || (fl.leadingDir && n[0] == '/');
  }

  lemma OneAny(c: CChar, fl: Flags)
    ensures One(AnyChar, c, fl) <==> !(c == '/' && fl.pathname)
  {
  }

  lemma OneNever(c: CChar, fl: Flags)
    ensures !One(Never, c, fl)
  {
  }

  lemma OneLit(t: Token, c: CChar, fl: Flags)
    ensures t.Lit? ==> (One(t, c, fl) <==> c == t.c)
  {
  }

  lemma OneBracket(t: Token, c: CChar, fl: Flags)
    ensures t.Bracket? ==> (One(t, c, fl) <==> !(c == '/' && fl.pathname) && InItems(c, t.items, fl) != t.negated)
  {
  }

  lemma NoTokens(n: CString, fl: Flags)
    ensures Accepts([], n, fl) <==> n == [] || (fl.leadingDir && n[0] == '/')
  {
  }

  /** `memchr`: the first slash, or the end. */
  method FindEnd(n: CString, fl: Flags) returns (end: nat)
    ensures end == Reach(n, fl)
  {
    end := 0;
    while end < |n| && !(fl.pathname && n[end] == '/')
      invariant end <= |n| && forall i :: 0 <= i < end ==> Wild(n[i], fl)
    {
      end := end + 1;
    }
    var r := Reach(n, fl);
    assert r < end ==> Wild(n[r], fl);
    assert end < r ==> Wild(n[end], fl);
  }

  /** The branch for a star, whose rest of the pattern is `pattern`. */
  method MatchStar(pattern: CString, str: CString, fl: Flags) returns (matched: bool)
    requires Clear(Parse(pattern, fl))
    ensures matched == Accepts([Star] + Parse(pattern, fl), str, fl)
    decreases |pattern|, 1
  {
    hide Accepts, ParseItems, One, InItems, Reach;
    var p, n := pattern, str;
    while p != [] && (p[0] == '?' || p[0] == '*')
      invariant |p| <= |pattern| && Clear(Parse(p, fl))
      invariant Accepts([Star] + Parse(pattern, fl), str, fl) == Accepts([Star] + Parse(p, fl), n, fl)
      decreases |p|
    {
      ghost var ts := Parse(p[1..], fl);
      if p[0] == '?' {
        ClearTail(AnyChar, ts);
        StarAny(ts, n, fl);
        if n == [] {
          return false;
        } else if n[0] == '/' && fl.pathname {
          return false;
        }
        n := n[1..];
      } else {
        ClearTail(Star, ts);
        StarStar(ts, n, fl);
      }
      p := p[1..];
    }
    if p == [] {
      assert [Star] + Parse(p, fl) == [Star];
      StarAtEnd(n, fl);
      return !fl.pathname || fl.leadingDir || '/' !in n;
    }
    ghost var ts := Parse(p, fl);
    assert Clear(ts) ==> !ts[0].Unclear?;
    StarBefore(ts, n, fl);
    var end := FindEnd(n, fl);
    var c := p[0];
    if c == '[' {
      matched := TryEach(p, n, end, fl);
    } else if c == '/' && fl.pathname {
      if end < |n| {
        OneStep(ts, n[end..], fl);
        OneLit(ts[0], n[end], fl);
        assert n[end..][1..] == n[end + 1..];
        ClearTail(ts[0], ts[1..]);
        assert [ts[0]] + ts[1..] == ts;
        SlashAtReach(n, fl);
        matched := Fct(p[1..], n[end + 1..], fl);
      } else {
        matched := false;
      }
    } else {
      var first: char := c;
      if c == '\\' && !fl.noescape {
        first := if |p| > 1 then p[1] else NUL;
      }
      forall k | 0 <= k < end && Accepts(ts, n[k..], fl) ensures n[k] == first {
        FirstOf(p, n[k..], first, fl);
      }
      matched := TryFiltered(p, n, end, first, fl);
    }
  }

  /** A pattern that begins with an ordinary or a quoted character. */
  lemma FirstOf(p: CString, n: CString, first: char, fl: Flags)
    requires p != [] && p[0] != '?' && p[0] != '*' && p[0] != '['
    requires first == if p[0] == '\\' && !fl.noescape then (if |p| > 1 then p[1] else NUL) else p[0]
    requires Accepts(Parse(p, fl), n, fl)
    ensures n != [] && n[0] == first
  {
    OneStep(Parse(p, fl), n, fl);
  }

  lemma SlashAtReach(n: CString, fl: Flags)
    ensures Reach(n, fl) < |n| ==> n[Reach(n, fl)] == '/'
  {
  }

  /** Try the rest of the pattern at every place before `end`. */
  method TryEach(p: CString, n: CString, end: nat, fl: Flags) returns (matched: bool)
    requires Clear(Parse(p, fl)) && end <= |n|
    ensures matched == FoundBefore(Parse(p, fl), n, end, fl)
    decreases |p|, 1, 0
  {
    hide Accepts, Parse, Clear;
    var k := 0;
    while k < end
      invariant k <= end && forall j :: 0 <= j < k ==> !Accepts(Parse(p, fl), n[j..], fl)
    {
      matched := Fct(p, n[k..], fl);
      if matched {
        return true;
      }
      k := k + 1;
    }
    matched := false;
  }

  /** The same, but only where the name has the character the rest of the pattern begins with. */
  method TryFiltered(p: CString, n: CString, end: nat, first: char, fl: Flags) returns (matched: bool)
    requires Clear(Parse(p, fl)) && end <= |n|
    requires forall k :: 0 <= k < end && Accepts(Parse(p, fl), n[k..], fl) ==> n[k] == first
    ensures matched == FoundBefore(Parse(p, fl), n, end, fl)
    decreases |p|, 1, 0
  {
    hide Accepts, Parse, Clear;
    var k := 0;
    while k < end
      invariant k <= end && forall j :: 0 <= j < k ==> !Accepts(Parse(p, fl), n[j..], fl)
    {
      if n[k] == first {
        matched := Fct(p, n[k..], fl);
        if matched {
          return true;
        }
      }
      k := k + 1;
    }
    matched := false;
  }
}
