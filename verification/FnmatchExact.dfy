/** Which patterns the matcher treats as documented, and which it does not. */
module FnmatchExact {
  import opened CStrings
  import opened Fnmatch

  /** The smallest name the matcher misses: `*\/` against `a/` when slashes are special. */
  lemma QuotedSlashMissed(fl: Flags)
    requires fl.pathname && !fl.noescape
    ensures var ts := Parse(['*', '\\', '/'], fl);
            Language(ts, ['a', '/'], fl) && !Accepts(ts, ['a', '/'], fl)
  {
    var p: CString, s: CString := ['*', '\\', '/'], ['a', '/'];
    assert p[1..] == ['\\', '/'] && p[1..][2..] == [];
    assert Parse([], fl) == [];
    assert Parse(['\\', '/'], fl) == [Lit('/', true)];
    assert Parse(p, fl) == [Star] + [Lit('/', true)] == [Star, Lit('/', true)];
    assert s[1..] == ['/'] && s[1..][1..] == [];
    assert Matches([], [], Documented(fl));
    assert [Lit('/', true)][1..] == [];
    assert Matches([Lit('/', true)], ['/'], Documented(fl));
    assert AllWild(s[..1], Documented(fl));
    assert [Star, Lit('/', true)][1..] == [Lit('/', true)];
  }

  /** A range is what it is documented to be exactly if its lower bound is ASCII or `char` is
      unsigned. */
  lemma RangeExact(low: CChar, high: CChar, fl: Flags)
    ensures (forall c: CChar :: Covers(Range(low, high), c, fl) == Covers(Range(low, high), c, Documented(fl)))
       <==> !(fl.signedChar && low as int >= 128)
  {
    var first: CChar := 1 as char;
    assert fl.signedChar && low as int >= 128 ==>
      Covers(Range(low, high), first, fl) && !Covers(Range(low, high), first, Documented(fl));
  }

  /** The sign of `char` makes this item cover `c`. */
  predicate Added(i: Item, c: CChar, fl: Flags) {
    i.Range? && fl.signedChar && i.low as int >= 128 && c < i.low && c <= i.high && Wild(c, fl)
  }

  /** Whatever the sign of `char` adds to a bracket is in it anyway. */
  ghost predicate NothingAdded(items: seq<Item>, fl: Flags) {
    forall i, c: CChar :: 0 <= i < |items| && Added(items[i], c, fl) ==> InItems(c, items, Documented(fl))
  }

  lemma AddedCovers(items: seq<Item>, c: CChar, fl: Flags)
    requires Wild(c, fl)
    ensures InItems(c, items, fl) <==>
            InItems(c, items, Documented(fl)) || exists i :: 0 <= i < |items| && Added(items[i], c, fl)
  {
    forall i | 0 <= i < |items|
      ensures Covers(items[i], c, fl) <==> Covers(items[i], c, Documented(fl)) || Added(items[i], c, fl)
    {
    }
  }

  /** A bracket as a whole pattern is matched as documented exactly if the sign adds nothing. */
  lemma BracketExact(negated: bool, items: seq<Item>, fl: Flags)
    ensures (forall s: CString :: Accepts([Bracket(negated, items)], s, fl) ==
                                  Language([Bracket(negated, items)], s, fl)) <==> NothingAdded(items, fl)
  {
    hide InItems, Added, Accepts, Language;
    var ts := [Bracket(negated, items)];
    if NothingAdded(items, fl) {
      forall s: CString ensures Accepts(ts, s, fl) == Language(ts, s, fl) {
        BracketStep(negated, items, s, fl);
        if s != [] && Wild(s[0], fl) { AddedCovers(items, s[0], fl); }
      }
    }
    forall i, c: CChar | 0 <= i < |items| && Added(items[i], c, fl)
      ensures Accepts(ts, [c], fl) == Language(ts, [c], fl) ==> InItems(c, items, Documented(fl))
    {
      AddedIsWild(items[i], c, fl);
      AddedCovers(items, c, fl);
      BracketStep(negated, items, [c], fl);
    }
  }

  lemma AddedIsWild(i: Item, c: CChar, fl: Flags)
    requires Added(i, c, fl)
    ensures Wild(c, fl)
  {
  }

  lemma BracketStep(negated: bool, items: seq<Item>, s: CString, fl: Flags)
    ensures var ts, end := [Bracket(negated, items)], s != [] && (|s| == 1 || (fl.leadingDir && s[1] == '/'));
            && (Accepts(ts, s, fl) <==> end && Wild(s[0], fl) && InItems(s[0], items, fl) != negated)
            && (Language(ts, s, fl) <==> end && Wild(s[0], fl) && InItems(s[0], items, Documented(fl)) != negated)
  {
    hide InItems;
    var ts := [Bracket(negated, items)];
    assert ts[1..] == [];
    OneStep(ts, s, fl);
    OneStep(ts, s, Documented(fl));
    assert !StarThenQuotedSlash([]) && !StarThenQuotedSlash(ts);
    if s != [] {
      NoTokens(s[1..], fl);
      NoTokens(s[1..], Documented(fl));
    }
  }

  /** No bracket of the pattern gains anything by the sign of `char`. */
  ghost predicate SignDoesNotMatter(ts: seq<Token>, fl: Flags) {
    forall j :: 0 <= j < |ts| && ts[j].Bracket? ==> NothingAdded(ts[j].items, fl)
  }

  lemma OneSame(t: Token, c: CChar, fl: Flags)
    requires t.Bracket? ==> NothingAdded(t.items, fl)
    ensures One(t, c, fl) == One(t, c, Documented(fl))
  {
    hide InItems, Added;
    if t.Bracket? && Wild(c, fl) { AddedCovers(t.items, c, fl); }
  }

  lemma {:induction false} SameLanguage(ts: seq<Token>, s: CString, fl: Flags)
    requires SignDoesNotMatter(ts, fl)
    ensures Matches(ts, s, fl) <==> Language(ts, s, fl)
    decreases |ts|
  {
    hide NothingAdded, One;
    if ts != [] {
      assert SignDoesNotMatter(ts[1..], fl);
      if ts[0].Star? {
        forall k | 0 <= k <= |s|
          ensures AllWild(s[..k], fl) <==> AllWild(s[..k], Documented(fl))
          ensures Matches(ts[1..], s[k..], fl) <==> Matches(ts[1..], s[k..], Documented(fl))
        {
          SameLanguage(ts[1..], s[k..], fl);
        }
      } else if s != [] {
        OneSame(ts[0], s[0], fl);
        SameLanguage(ts[1..], s[1..], fl);
      }
    }
  }

  /** Some byte can stand for the token. */
  predicate Satisfiable(t: Token, fl: Flags) {
    match t
    case Lit(_, _) => true
    case AnyChar => true
    case Star => true
    case Bracket(negated, items) => exists c: CChar :: Wild(c, fl) && InItems(c, items, fl) != negated
    case _ => false
  }

  predicate AllSatisfiable(ts: seq<Token>, fl: Flags) {
    forall j :: 0 <= j < |ts| ==> Satisfiable(ts[j], fl)
  }

  /** How many characters a name must have at least. */
  function Needed(ts: seq<Token>): nat {
    if ts == [] then 0 else (if ts[0].Star? then 0 else 1) + Needed(ts[1..])
  }

  lemma {:induction false} LongEnough(ts: seq<Token>, s: CString, fl: Flags)
    requires Matches(ts, s, fl)
    ensures |s| >= Needed(ts)
    decreases |ts|
  {
    hide One, AllWild;
    if ts != [] {
      if ts[0].Star? {
        var k :| 0 <= k <= |s| && AllWild(s[..k], fl) && Matches(ts[1..], s[k..], fl);
        LongEnough(ts[1..], s[k..], fl);
      } else {
        LongEnough(ts[1..], s[1..], fl);
      }
    }
  }

  lemma SatisfiableParts(ts: seq<Token>, fl: Flags)
    requires ts != []
    ensures AllSatisfiable(ts, fl) <==> Satisfiable(ts[0], fl) && AllSatisfiable(ts[1..], fl)
  {
    hide Satisfiable;
    assert forall j :: 0 < j < |ts| ==> ts[j] == ts[1..][j - 1];
  }

  /** A name of the least length, put before a match of the other tokens. */
  lemma Prepend(ts: seq<Token>, s: CString, fl: Flags)
    requires ts != [] && Matches(ts[1..], s, fl)
    ensures ts[0].Star? ==> Matches(ts, s, fl)
    ensures forall c: CChar :: !ts[0].Star? && One(ts[0], c, fl) ==> Matches(ts, [c] + s, fl)
  {
    hide One;
    assert s[0..] == s && AllWild(s[..0], fl);
    forall c: CChar | !ts[0].Star? && One(ts[0], c, fl) ensures Matches(ts, [c] + s, fl) {
      assert ([c] + s)[1..] == s;
    }
  }

  lemma {:induction false} ShortestMatch(ts: seq<Token>, fl: Flags)
    requires AllSatisfiable(ts, fl)
    ensures exists s: CString :: |s| == Needed(ts) && Matches(ts, s, fl)
    decreases |ts|
  {
    hide Satisfiable, AllSatisfiable;
    if ts == [] {
      assert Matches(ts, [], fl);
    } else {
      SatisfiableParts(ts, fl);
      ShortestMatch(ts[1..], fl);
      var s: CString :| |s| == Needed(ts[1..]) && Matches(ts[1..], s, fl);
      Prepend(ts, s, fl);
      if ts[0].Star? {
        assert |s| == Needed(ts) && Matches(ts, s, fl);
      } else {
        SomeByte(ts[0], fl);
        assert forall c: CChar :: One(ts[0], c, fl) ==> |[c] + s| == Needed(ts) && Matches(ts, [c] + s, fl);
      }
    }
  }

  /** A pattern matches some name exactly if each of its tokens can match something. */
  lemma {:induction false} Inhabited(ts: seq<Token>, fl: Flags)
    ensures (exists s: CString :: Matches(ts, s, fl)) <==> AllSatisfiable(ts, fl)
    decreases |ts|
  {
    hide Satisfiable, AllSatisfiable;
    if AllSatisfiable(ts, fl) {
      ShortestMatch(ts, fl);
    } else if s: CString :| Matches(ts, s, fl) {
      if ts == [] {
        NoneUnsatisfiable(fl);
      } else {
        FirstSatisfiable(ts, s, fl);
        Inhabited(ts[1..], fl);
        SatisfiableParts(ts, fl);
      }
    }
  }

  lemma NoneUnsatisfiable(fl: Flags)
    ensures AllSatisfiable([], fl)
  {
  }

  lemma SomeByte(t: Token, fl: Flags)
    requires Satisfiable(t, fl) && !t.Star?
    ensures exists c: CChar :: One(t, c, fl)
  {
    hide InItems;
    match t
    case Lit(c, _) => assert One(t, c, fl);
    case AnyChar =>
      var a: CChar := 'a';
      assert One(t, a, fl);
    case Bracket(negated, items) =>
      forall c: CChar | Wild(c, fl) && InItems(c, items, fl) != negated ensures One(t, c, fl) {
      }
  }

  lemma FirstSatisfiable(ts: seq<Token>, s: CString, fl: Flags)
    requires ts != [] && Matches(ts, s, fl)
    ensures Satisfiable(ts[0], fl) && exists s': CString :: Matches(ts[1..], s', fl)
  {
    hide InItems;
    if ts[0].Star? {
      var k :| 0 <= k <= |s| && AllWild(s[..k], fl) && Matches(ts[1..], s[k..], fl);
    } else {
      assert One(ts[0], s[0], fl) && Matches(ts[1..], s[1..], fl);
    }
  }

  /** Which patterns are matched as the host understands them: all but those with a quoted slash
      after a star, unless such a pattern matches nothing anyway. */
  lemma QuotedSlashExact(ts: seq<Token>, fl: Flags)
    ensures (forall s: CString :: Accepts(ts, s, fl) == Matches(ts, s, fl)) <==>
            !(fl.pathname && StarThenQuotedSlash(ts) && AllSatisfiable(ts, fl))
  {
    hide Matches, AllSatisfiable, StarThenQuotedSlash;
    Inhabited(ts, fl);
    if fl.pathname && StarThenQuotedSlash(ts) && AllSatisfiable(ts, fl) {
      var s: CString :| Matches(ts, s, fl);
      assert Accepts(ts, s, fl) != Matches(ts, s, fl);
    }
  }

  /** Where one host lets a character stand for a token and another does not, they take different
      names for matches: a name of the least length leaves the stars nothing to stand for. */
  lemma {:induction false} TellApart(ts: seq<Token>, j: nat, c: CChar, fl: Flags, fl': Flags)
    requires j < |ts| && AllSatisfiable(ts, fl) && One(ts[j], c, fl) && !One(ts[j], c, fl')
    ensures exists s: CString :: |s| == Needed(ts) && Matches(ts, s, fl) && !Matches(ts, s, fl')
    decreases |ts|
  {
    hide One, Satisfiable, AllSatisfiable;
    var rest := ts[1..];
    SatisfiableParts(ts, fl);
    OneIsNoStar(ts[j], c, fl);
    if j == 0 {
      ShortestMatch(rest, fl);
      var s: CString :| |s| == Needed(rest) && Matches(rest, s, fl);
      Prepend(ts, s, fl);
      assert !Matches(ts, [c] + s, fl') && |[c] + s| == Needed(ts);
    } else {
      TellApart(rest, j - 1, c, fl, fl');
      var s: CString :| |s| == Needed(rest) && Matches(rest, s, fl) && !Matches(rest, s, fl');
      Prepend(ts, s, fl);
      if ts[0].Star? {
        NotByStar(ts, s, fl');
        assert |s| == Needed(ts) && Matches(ts, s, fl) && !Matches(ts, s, fl');
      } else {
        SomeByte(ts[0], fl);
        forall b: CChar | One(ts[0], b, fl)
          ensures |[b] + s| == Needed(ts) && Matches(ts, [b] + s, fl) && !Matches(ts, [b] + s, fl')
        {
          assert ([b] + s)[1..] == s;
        }
      }
    }
  }

  lemma OneIsNoStar(t: Token, c: CChar, fl: Flags)
    requires One(t, c, fl)
    ensures !t.Star?
  {
  }

  lemma NotByStar(ts: seq<Token>, s: CString, fl: Flags)
    requires ts != [] && ts[0].Star? && |s| == Needed(ts[1..]) && !Matches(ts[1..], s, fl)
    ensures !Matches(ts, s, fl)
  {
    hide AllWild;
    assert s[0..] == s;
    forall k | 0 < k <= |s| ensures !Matches(ts[1..], s[k..], fl) {
      if Matches(ts[1..], s[k..], fl) { LongEnough(ts[1..], s[k..], fl); }
    }
  }

  lemma OneDiffers(t: Token, fl: Flags)
    requires t.Bracket? && !NothingAdded(t.items, fl)
    ensures exists c: CChar :: One(t, c, fl) != One(t, c, Documented(fl))
  {
    hide InItems, Added;
    forall i, c: CChar | 0 <= i < |t.items| && Added(t.items[i], c, fl)
      ensures One(t, c, fl) == One(t, c, Documented(fl)) ==> InItems(c, t.items, Documented(fl))
    {
      AddedIsWild(t.items[i], c, fl);
      AddedCovers(t.items, c, fl);
    }
  }

  /** The host gives a pattern its documented language exactly if the sign of `char` does not
      matter in any bracket, or the pattern matches nothing either way. */
  lemma SignExact(ts: seq<Token>, fl: Flags)
    ensures (forall s: CString :: Matches(ts, s, fl) == Language(ts, s, fl)) <==>
            SignDoesNotMatter(ts, fl) || (!AllSatisfiable(ts, fl) && !AllSatisfiable(ts, Documented(fl)))
  {
    hide AllSatisfiable, NothingAdded, One;
    Inhabited(ts, fl);
    Inhabited(ts, Documented(fl));
    if AllSatisfiable(ts, fl) != AllSatisfiable(ts, Documented(fl)) {
      var s: CString :| Matches(ts, s, fl) || Matches(ts, s, Documented(fl));
      assert Language(ts, s, fl) == Matches(ts, s, Documented(fl)) != Matches(ts, s, fl);
    }
    if SignDoesNotMatter(ts, fl) {
      forall s: CString ensures Matches(ts, s, fl) == Language(ts, s, fl) {
        SameLanguage(ts, s, fl);
      }
    } else if AllSatisfiable(ts, fl) && AllSatisfiable(ts, Documented(fl)) {
      var j :| 0 <= j < |ts| && ts[j].Bracket? && !NothingAdded(ts[j].items, fl);
      OneDiffers(ts[j], fl);
      forall c: CChar | One(ts[j], c, fl) != One(ts[j], c, Documented(fl))
        ensures exists s: CString :: Matches(ts, s, fl) != Language(ts, s, fl)
      {
        if One(ts[j], c, fl) {
          TellApart(ts, j, c, fl, Documented(fl));
        } else {
          TellApart(ts, j, c, Documented(fl), fl);
        }
        var s: CString :| Matches(ts, s, fl) != Matches(ts, s, Documented(fl));
        assert Language(ts, s, fl) == Matches(ts, s, Documented(fl));
      }
    } else if !AllSatisfiable(ts, fl) && !AllSatisfiable(ts, Documented(fl)) {
      forall s: CString ensures !Matches(ts, s, fl) && !Language(ts, s, fl) {
        assert Language(ts, s, fl) == Matches(ts, s, Documented(fl));
      }
    }
  }

  /** Which patterns are matched as documented, whatever the name. */
  lemma DocumentedExact(ts: seq<Token>, fl: Flags)
    ensures (forall s: CString :: Accepts(ts, s, fl) == Language(ts, s, fl)) <==>
            if fl.pathname && StarThenQuotedSlash(ts) then !AllSatisfiable(ts, Documented(fl))
            else SignDoesNotMatter(ts, fl) || (!AllSatisfiable(ts, fl) && !AllSatisfiable(ts, Documented(fl)))
  {
    hide AllSatisfiable, StarThenQuotedSlash, SignDoesNotMatter;
    Inhabited(ts, Documented(fl));
    SignExact(ts, fl);
    if fl.pathname && StarThenQuotedSlash(ts) {
      if AllSatisfiable(ts, Documented(fl)) {
        var s: CString :| Matches(ts, s, Documented(fl));
        assert Language(ts, s, fl) && !Accepts(ts, s, fl);
      }
      forall s: CString | !AllSatisfiable(ts, Documented(fl)) ensures !Language(ts, s, fl) {
        assert Language(ts, s, fl) == Matches(ts, s, Documented(fl));
      }
    } else {
      assert forall s: CString :: Accepts(ts, s, fl) == Matches(ts, s, fl);
    }
  }

  /** A name the matcher should not match: `A` against the range from 128 to 144, where `char` is
      signed. */
  lemma SignedRangeMatches(fl: Flags)
    requires fl.signedChar
    ensures var ts := Parse(['[', 128 as char, '-', 144 as char, ']'], fl);
            Accepts(ts, ['A'], fl) && !Language(ts, ['A'], fl)
  {
    var low: CChar, high: CChar := 128 as char, 144 as char;
    var p: CString := ['[', low, '-', high, ']'];
    var items := [Range(low, high)];
    assert p[1..] == [low, '-', high, ']'];
    assert TakeChar(p[1..], fl) == Quoted(low, ['-', high, ']']);
    assert TakeChar(['-', high, ']'][1..], fl) == Quoted(high, [']']);
    assert TakeItem(p[1..], fl) == OneItem(Range(low, high), [']']);
    assert ParseItems([']'], false, fl) == Items([], []);
    assert ParseItems(p[1..], true, fl) == Items(items, []);
    assert Parse([], fl) == [];
    assert Parse(p, fl) == [Bracket(false, items)] + [] == [Bracket(false, items)];
    BracketStep(false, items, ['A'], fl);
    assert Covers(items[0], 'A', fl);
  }

  // ----- slashes -----

  function Slashes(s: CString): nat {
    if s == [] then 0 else (if s[0] == '/' then 1 else 0) + Slashes(s[1..])
  }

  /** The slashes a pattern spells out. */
  function SpelledSlashes(ts: seq<Token>): nat {
    if ts == [] then 0 else (if ts[0].Lit? && ts[0].c == '/' then 1 else 0) + SpelledSlashes(ts[1..])
  }

  lemma {:induction false} SlashesSplit(s: CString, k: nat)
    requires k <= |s|
    ensures Slashes(s) == Slashes(s[..k]) + Slashes(s[k..])
    decreases k
  {
    if k == 0 {
      assert s[0..] == s && s[..0] == [];
    } else {
      assert s[..k][1..] == s[1..][..k - 1] && s[k..] == s[1..][k - 1..];
      SlashesSplit(s[1..], k - 1);
    }
  }

  lemma {:induction false} WildHasNone(s: CString, fl: Flags)
    requires fl.pathname && AllWild(s, fl)
    ensures Slashes(s) == 0
    decreases |s|
  {
    if s != [] {
      assert Wild(s[0], fl);
      assert AllWild(s[1..], fl) by { assert forall i :: 0 <= i < |s| - 1 ==> s[1..][i] == s[i + 1]; }
      WildHasNone(s[1..], fl);
    }
  }

  /** With `pathname` a name that matches has exactly the slashes the pattern spells out, in the part
      that is matched: all of it, or up to a slash with `leadingDir`. */
  lemma {:induction false} SlashesAreSpelled(ts: seq<Token>, s: CString, fl: Flags) returns (k: nat)
    requires fl.pathname && Matches(ts, s, fl)
    ensures k <= |s| && (k == |s| || (fl.leadingDir && s[k] == '/'))
    ensures Slashes(s[..k]) == SpelledSlashes(ts)
    decreases |ts|
  {
    hide One, AllWild;
    if ts == [] {
      k := 0;
    } else if ts[0].Star? {
      var j :| 0 <= j <= |s| && AllWild(s[..j], fl) && Matches(ts[1..], s[j..], fl);
      k := SlashesAreSpelled(ts[1..], s[j..], fl);
      WildHasNone(s[..j], fl);
      SlashesSplit(s[..j + k], j);
      assert s[..j + k][..j] == s[..j] && s[..j + k][j..] == s[j..][..k];
      k := j + k;
    } else {
      k := SlashesAreSpelled(ts[1..], s[1..], fl);
      OneSlash(ts[0], s[0], fl);
      assert s[..k + 1][1..] == s[1..][..k];
      k := k + 1;
    }
  }

  lemma OneSlash(t: Token, c: CChar, fl: Flags)
    requires fl.pathname && One(t, c, fl)
    ensures c == '/' <==> t.Lit? && t.c == '/'
  {
  }

  /** With `leadingDir` what matches also matches everything below it. */
  lemma {:induction false} MatchesBelow(ts: seq<Token>, s: CString, below: CString, fl: Flags)
    requires fl.leadingDir && Matches(ts, s, fl)
    ensures Matches(ts, s + (['/'] + below), fl)
    decreases |ts|
  {
    hide One, AllWild;
    var t := s + (['/'] + below);
    if ts == [] {
    } else if ts[0].Star? {
      var j :| 0 <= j <= |s| && AllWild(s[..j], fl) && Matches(ts[1..], s[j..], fl);
      MatchesBelow(ts[1..], s[j..], below, fl);
      assert t[..j] == s[..j] && t[j..] == s[j..] + (['/'] + below);
    } else {
      MatchesBelow(ts[1..], s[1..], below, fl);
      assert t[1..] == s[1..] + (['/'] + below);
    }
  }
}
