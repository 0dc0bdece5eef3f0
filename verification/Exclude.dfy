/** Exclusion lists: options compiled into segments, newest first, literal patterns into sets of
    names; and the meaning the compilation must keep. */
module Exclude {
  import opened CStrings
  import opened Fnmatch

  datatype Options = Options(inclusive: bool, anchored: bool, wildcards: bool, flags: Flags)

  datatype Opt = Opt(pattern: CString, options: Options)

  // ----- matching one pattern -----

  function NoWildcards(pattern: CString, f: CString, leadingDir: bool): bool {
    if !leadingDir then pattern == f
    else pattern <= f && (|f| == |pattern| || f[|pattern|] == '/')
  }

  function Match(opt: Opt, f: CString): bool {
    if opt.options.wildcards then Accepts(Parse(opt.pattern, opt.options.flags), f, opt.options.flags)
    else NoWildcards(opt.pattern, f, opt.options.flags.leadingDir)
  }

  /** A place where an unanchored pattern may begin: after a slash, but not between two. */
  predicate Start(f: CString, i: nat) {
    i == 0 || (i <= |f| && f[i - 1] == '/' && At(f, i) != '/')
  }

  predicate ExcludeFnmatch(opt: Opt, f: CString) {
    exists i :: 0 <= i <= |f| && (i == 0 || !opt.options.anchored) && Start(f, i) && Match(opt, f[i..])
  }

  // ----- the naive rule -----

  /** The last option that matches decides; if none does, the opposite of the first. */
  function Naive(opts: seq<Opt>, f: CString): bool {
    if opts == [] then false
    else
      match LastMatch(opts, f)
      case Yes(excluded) => excluded
      case No => opts[0].options.inclusive
  }

  datatype Verdict = Yes(excluded: bool) | No

  function LastMatch(opts: seq<Opt>, f: CString): Verdict {
    if opts == [] then No
    else
      var last := opts[|opts| - 1];
      if ExcludeFnmatch(last, f) then Yes(!last.options.inclusive) else LastMatch(opts[..|opts| - 1], f)
  }

  // ----- compilation -----

  predicate HasWildcards(p: CString, noescape: bool)
    decreases |p|
  {
    if p == [] then false
    else if p[0] == '\\' then HasWildcards(p[if !noescape && |p| > 1 then 2 else 1..], noescape)
    else if p[0] == '?' || p[0] == '*' || p[0] == '[' then true
    else HasWildcards(p[1..], noescape)
  }

  /** Drop each backslash that has something to quote. */
  function Unescape(p: CString): (r: CString)
    ensures |r| <= |p|
    decreases |p|
  {
    if p == [] then []
    else if p[0] == '\\' && |p| > 1 then [p[1]] + Unescape(p[2..])
    else [p[0]] + Unescape(p[1..])
  }

  datatype Segment =
    | Hash(options: Options, names: set<CString>)
    | Patterns(options: Options, pats: seq<Opt>)

  predicate SameHashFlags(a: Options, b: Options) {
    a.inclusive == b.inclusive && a.anchored == b.anchored && a.flags.leadingDir == b.flags.leadingDir
  }

  predicate IsPattern(opt: Opt) {
    opt.options.wildcards && HasWildcards(opt.pattern, opt.options.flags.noescape)
  }

  /** The name under which a literal pattern is filed. */
  function HashName(opt: Opt): CString {
    if opt.options.wildcards && !opt.options.flags.noescape then Unescape(opt.pattern) else opt.pattern
  }

  function AddExclude(segs: seq<Segment>, opt: Opt): seq<Segment> {
    if IsPattern(opt) then
      if segs != [] && segs[0].Patterns? && segs[0].options.inclusive == opt.options.inclusive then
        [segs[0].(pats := segs[0].pats + [opt])] + segs[1..]
      else [Patterns(opt.options, [opt])] + segs
    else
      if segs != [] && segs[0].Hash? && SameHashFlags(segs[0].options, opt.options) then
        [segs[0].(names := segs[0].names + {HashName(opt)})] + segs[1..]
      else [Hash(opt.options, {HashName(opt)})] + segs
  }

  function Compile(opts: seq<Opt>): seq<Segment> {
    if opts == [] then [] else AddExclude(Compile(opts[..|opts| - 1]), opts[|opts| - 1])
  }

  // ----- looking a name up -----

  /** The names looked up for the part of `f` from `i` on. */
  predicate LookedUp(name: CString, g: CString, leadingDir: bool) {
    name == g || (leadingDir && name < g && g[|name|] == '/')
  }

  /** A place where the lookup of an unanchored segment begins: after every slash. */
  predicate HashStart(f: CString, i: nat) {
    i == 0 || (i <= |f| && f[i - 1] == '/')
  }

  predicate HashMatches(names: set<CString>, o: Options, f: CString) {
    exists i, name :: name in names && 0 <= i <= |f| && (i == 0 || !o.anchored) && HashStart(f, i) &&
                      LookedUp(name, f[i..], o.flags.leadingDir)
  }

  predicate PatternMatches(pats: seq<Opt>, f: CString) {
    exists j :: 0 <= j < |pats| && ExcludeFnmatch(pats[j], f)
  }

  predicate SegMatches(s: Segment, f: CString) {
    match s
    case Hash(o, names) => HashMatches(names, o, f)
    case Patterns(_, pats) => PatternMatches(pats, f)
  }

  function FirstMatch(segs: seq<Segment>, f: CString): Verdict {
    if segs == [] then No
    else if SegMatches(segs[0], f) then Yes(!segs[0].options.inclusive)
    else FirstMatch(segs[1..], f)
  }

  function Excluded(segs: seq<Segment>, f: CString): bool {
    if segs == [] then false
    else
      match FirstMatch(segs, f)
      case Yes(excluded) => excluded
      case No => segs[|segs| - 1].options.inclusive
  }

  // ----- literal patterns -----

  predicate DoubleSlash(f: CString) {
    exists i :: 0 <= i < |f| - 1 && f[i] == f[i + 1] == '/'
  }

  /** The pattern ends in a backslash with nothing to quote. */
  predicate EndsInQuote(p: CString)
    decreases |p|
  {
    p != [] && (if p[0] == '\\' then |p| == 1 || EndsInQuote(p[2..]) else EndsInQuote(p[1..]))
  }

  /** A pattern that is not filed by name, or does not end in a lone quote. */
  predicate Plain(opt: Opt) {
    IsPattern(opt) || !opt.options.wildcards || opt.options.flags.noescape || !EndsInQuote(opt.pattern)
  }

  /** Patterns for which compilation is exact: those, and those filed under a name that cannot be
      found without asking for a name with two slashes together. */
  predicate Exact(opt: Opt) {
    Plain(opt) || DoubleSlash(HashName(opt))
  }

  /** The first character of a literal pattern, quoted or not, and the rest of it. */
  lemma LiteralStep(p: CString, s: CString, fl: Flags, c: CChar, escaped: bool, rest: CString)
    requires Parse(p, fl) == [Lit(c, escaped)] + Parse(rest, fl)
    ensures Accepts(Parse(p, fl), s, fl) <==> s != [] && s[0] == c && Accepts(Parse(rest, fl), s[1..], fl)
  {
    hide Parse;
    OneStep(Parse(p, fl), s, fl);
    assert Parse(p, fl)[1..] == Parse(rest, fl);
  }

  /** A pattern without wildcards matches what is filed for it, and below it with `leadingDir`. */
  lemma {:induction false} LiteralMatch(p: CString, s: CString, fl: Flags)
    requires !HasWildcards(p, fl.noescape) && (fl.noescape || !EndsInQuote(p))
    ensures Accepts(Parse(p, fl), s, fl) <==> LookedUp(if fl.noescape then p else Unescape(p), s, fl.leadingDir)
    decreases |p|
  {
    hide Accepts;
    if p == [] {
      NoTokens(s, fl);
    } else {
      var quoted := p[0] == '\\' && !fl.noescape;
      var c, rest := p[if quoted then 1 else 0], p[if quoted then 2 else 1..];
      LiteralStep(p, s, fl, c, quoted, rest);
      if s != [] {
        LiteralMatch(rest, s[1..], fl);
        LookedUpStep(c, if fl.noescape then rest else Unescape(rest), s, fl.leadingDir);
      }
    }
  }

  lemma LookedUpStep(c: CChar, name: CString, s: CString, leadingDir: bool)
    requires s != []
    ensures LookedUp([c] + name, s, leadingDir) <==> s[0] == c && LookedUp(name, s[1..], leadingDir)
  {
    assert s == [s[0]] + s[1..];
    if [c] + name < s {
      assert name == ([c] + name)[1..] == s[..|name| + 1][1..] == s[1..][..|name|];
    }
    if s[0] == c && name < s[1..] {
      assert s[..|name| + 1] == [c] + s[1..][..|name|];
    }
    if [c] + name == s { assert name == s[1..]; }
  }

  lemma NoWildcardsIsLookedUp(p: CString, s: CString, leadingDir: bool)
    ensures NoWildcards(p, s, leadingDir) <==> LookedUp(p, s, leadingDir)
  {
  }

  lemma FiledMatch(opt: Opt, s: CString)
    requires !IsPattern(opt) && Plain(opt)
    ensures Match(opt, s) <==> LookedUp(HashName(opt), s, opt.options.flags.leadingDir)
  {
    hide Accepts, Parse, LookedUp, NoWildcards;
    if opt.options.wildcards {
      LiteralMatch(opt.pattern, s, opt.options.flags);
    } else {
      NoWildcardsIsLookedUp(opt.pattern, s, opt.options.flags.leadingDir);
    }
  }

  lemma NotBetween(f: CString, i: nat)
    requires !DoubleSlash(f) && 0 < i < |f|
    ensures !(f[i - 1] == '/' && f[i] == '/')
  {
    var j := i - 1;
    assert !(f[j] == f[j + 1] == '/');
  }

  /** A plain literal pattern: the lookup finds it exactly when the pattern matches. */
  lemma PlainExact(opt: Opt, f: CString)
    requires !IsPattern(opt) && Plain(opt) && !DoubleSlash(f)
    ensures HashMatches({HashName(opt)}, opt.options, f) <==> ExcludeFnmatch(opt, f)
  {
    hide Match, LookedUp;
    forall i | 0 <= i <= |f| ensures HashStart(f, i) <==> Start(f, i) {
      if 0 < i < |f| { NotBetween(f, i); }
    }
    forall i | 0 <= i <= |f|
      ensures Match(opt, f[i..]) <==> LookedUp(HashName(opt), f[i..], opt.options.flags.leadingDir)
    {
      FiledMatch(opt, f[i..]);
    }
    if ExcludeFnmatch(opt, f) {
      var i :| 0 <= i <= |f| && (i == 0 || !opt.options.anchored) && Start(f, i) && Match(opt, f[i..]);
      assert HashStart(f, i) && HashName(opt) in {HashName(opt)};
    }
    if HashMatches({HashName(opt)}, opt.options, f) {
      var i, name :| name in {HashName(opt)} && 0 <= i <= |f| && (i == 0 || !opt.options.anchored) && HashStart(f, i) &&
                     LookedUp(name, f[i..], opt.options.flags.leadingDir);
      assert Start(f, i) && Match(opt, f[i..]);
    }
  }

  /** A name with two slashes together is not found in one without. */
  lemma DoubleSlashNotFound(name: CString, f: CString, i: nat, leadingDir: bool)
    requires DoubleSlash(name) && !DoubleSlash(f) && i <= |f|
    ensures !LookedUp(name, f[i..], leadingDir)
  {
    var j :| 0 <= j < |name| - 1 && name[j] == name[j + 1] == '/';
    if LookedUp(name, f[i..], leadingDir) {
      assert name[j] == f[i..][j] && name[j + 1] == f[i..][j + 1];
      NotBetween(f, i + j + 1);
      assert false;
    }
  }

  /** A pattern that ends in a lone quote matches nothing. */
  lemma {:induction false} LoneQuoteMatchesNothing(p: CString, s: CString, fl: Flags)
    requires !HasWildcards(p, false) && !fl.noescape && EndsInQuote(p)
    ensures !Accepts(Parse(p, fl), s, fl)
    decreases |p|
  {
    hide Accepts;
    if p == ['\\'] {
      OneStep(Parse(p, fl), s, fl);
    } else {
      var quoted := p[0] == '\\';
      var c, rest := p[if quoted then 1 else 0], p[if quoted then 2 else 1..];
      LiteralStep(p, s, fl, c, quoted, rest);
      if s != [] { LoneQuoteMatchesNothing(rest, s[1..], fl); }
    }
  }

  lemma NotPlainMatchesNothing(opt: Opt, f: CString)
    requires !Plain(opt)
    ensures !ExcludeFnmatch(opt, f)
  {
    hide Accepts, Parse;
    forall i | 0 <= i <= |f| ensures !Match(opt, f[i..]) {
      LoneQuoteMatchesNothing(opt.pattern, f[i..], opt.options.flags);
    }
  }

  /** The same for every literal pattern for which compilation is exact. */
  lemma LiteralExact(opt: Opt, f: CString)
    requires !IsPattern(opt) && Exact(opt) && !DoubleSlash(f)
    ensures HashMatches({HashName(opt)}, opt.options, f) <==> ExcludeFnmatch(opt, f)
  {
    hide Plain, DoubleSlash, HashStart, LookedUp, ExcludeFnmatch;
    if Plain(opt) {
      PlainExact(opt, f);
    } else {
      NotPlainMatchesNothing(opt, f);
      forall i | 0 <= i <= |f| ensures !LookedUp(HashName(opt), f[i..], opt.options.flags.leadingDir) {
        DoubleSlashNotFound(HashName(opt), f, i, opt.options.flags.leadingDir);
      }
    }
  }

  lemma HashUnion(a: set<CString>, b: set<CString>, o: Options, o': Options, f: CString)
    requires SameHashFlags(o, o')
    ensures HashMatches(a + b, o, f) <==> HashMatches(a, o, f) || HashMatches(b, o', f)
  {
    hide LookedUp, HashStart;
  }

  /** Adding an option: it decides where it matches, and changes nothing elsewhere. */
  lemma AddDecides(segs: seq<Segment>, opt: Opt, f: CString)
    requires Exact(opt) && !DoubleSlash(f)
    ensures FirstMatch(AddExclude(segs, opt), f) ==
            if ExcludeFnmatch(opt, f) then Yes(!opt.options.inclusive) else FirstMatch(segs, f)
  {
    hide ExcludeFnmatch, HashMatches, IsPattern, Exact, DoubleSlash;
    var segs' := AddExclude(segs, opt);
    if IsPattern(opt) {
      if |segs'| == |segs| {
        var pats := segs[0].pats;
        assert segs'[0].pats[|pats|] == opt;
        assert forall j :: 0 <= j < |pats| ==> segs'[0].pats[j] == pats[j];
        assert segs'[1..] == segs[1..];
      } else {
        assert segs'[0].pats[0] == opt;
        assert segs'[1..] == segs;
      }
    } else {
      LiteralExact(opt, f);
      if |segs'| == |segs| {
        HashUnion(segs[0].names, {HashName(opt)}, segs[0].options, opt.options, f);
        assert segs'[1..] == segs[1..];
      } else {
        assert segs'[1..] == segs;
      }
    }
  }

  /** The last segment keeps the sense of the first option. */
  lemma AddKeepsFirst(segs: seq<Segment>, opt: Opt)
    ensures var segs' := AddExclude(segs, opt);
            && segs' != []
            && segs'[|segs'| - 1].options.inclusive ==
               (if segs == [] then opt.options.inclusive else segs[|segs| - 1].options.inclusive)
  {
  }

  lemma {:induction false} CompiledFirst(opts: seq<Opt>)
    ensures if opts == [] then Compile(opts) == []
            else
              && Compile(opts) != []
              && Compile(opts)[|Compile(opts)| - 1].options.inclusive == opts[0].options.inclusive
    decreases |opts|
  {
    hide AddExclude;
    if opts != [] {
      CompiledFirst(opts[..|opts| - 1]);
      AddKeepsFirst(Compile(opts[..|opts| - 1]), opts[|opts| - 1]);
    }
  }

  lemma {:induction false} CompiledDecides(opts: seq<Opt>, f: CString)
    requires (forall j :: 0 <= j < |opts| ==> Exact(opts[j])) && !DoubleSlash(f)
    ensures FirstMatch(Compile(opts), f) == LastMatch(opts, f)
    decreases |opts|
  {
    hide FirstMatch, ExcludeFnmatch, Exact, DoubleSlash, AddExclude;
    if opts == [] {
      NoSegments(f);
    } else {
      var before := opts[..|opts| - 1];
      CompiledDecides(before, f);
      AddDecides(Compile(before), opts[|opts| - 1], f);
    }
  }

  lemma NoSegments(f: CString)
    ensures FirstMatch([], f) == No
  {
  }

  /** Compilation keeps the meaning of an option list. */
  lemma CompilationExact(opts: seq<Opt>, f: CString)
    requires (forall j :: 0 <= j < |opts| ==> Exact(opts[j])) && !DoubleSlash(f)
    ensures Excluded(Compile(opts), f) == Naive(opts, f)
  {
    hide Exact, DoubleSlash, FirstMatch, LastMatch, Compile;
    CompiledDecides(opts, f);
    CompiledFirst(opts);
  }

  lemma {:induction false} LastIs(opts: seq<Opt>, f: CString, j: nat)
    requires j < |opts| && ExcludeFnmatch(opts[j], f)
    requires forall i :: j < i < |opts| ==> !ExcludeFnmatch(opts[i], f)
    ensures LastMatch(opts, f) == Yes(!opts[j].options.inclusive)
    decreases |opts|
  {
    hide ExcludeFnmatch;
    if j < |opts| - 1 {
      assert !ExcludeFnmatch(opts[|opts| - 1], f);
      assert opts[..|opts| - 1][j] == opts[j];
      LastIs(opts[..|opts| - 1], f, j);
    }
  }

  lemma {:induction false} NoneIs(opts: seq<Opt>, f: CString)
    requires forall i :: 0 <= i < |opts| ==> !ExcludeFnmatch(opts[i], f)
    ensures LastMatch(opts, f) == No
    decreases |opts|
  {
    hide ExcludeFnmatch;
    if opts != [] { NoneIs(opts[..|opts| - 1], f); }
  }

  /** Option by option: an exclusion that matches excludes unless a later option matches, an
      inclusion that does keeps the name; if nothing matches, names are excluded exactly if the first
      option is an inclusion; and without options nothing is. */
  lemma DecidedBy(opts: seq<Opt>, f: CString)
    requires (forall j :: 0 <= j < |opts| ==> Exact(opts[j])) && !DoubleSlash(f)
    ensures forall j :: 0 <= j < |opts| && ExcludeFnmatch(opts[j], f) &&
                        (forall i :: j < i < |opts| ==> !ExcludeFnmatch(opts[i], f)) ==>
              Excluded(Compile(opts), f) == !opts[j].options.inclusive
    ensures (forall i :: 0 <= i < |opts| ==> !ExcludeFnmatch(opts[i], f)) ==>
              Excluded(Compile(opts), f) == (opts != [] && opts[0].options.inclusive)
  {
    hide Exact, DoubleSlash, Excluded, Compile, ExcludeFnmatch, LastMatch;
    CompilationExact(opts, f);
    forall j | 0 <= j < |opts| && ExcludeFnmatch(opts[j], f) &&
               (forall i :: j < i < |opts| ==> !ExcludeFnmatch(opts[i], f))
      ensures Naive(opts, f) == !opts[j].options.inclusive
    {
      LastIs(opts, f, j);
    }
    if forall i :: 0 <= i < |opts| ==> !ExcludeFnmatch(opts[i], f) { NoneIs(opts, f); }
  }

  // ----- where compilation is not exact -----

  /** A literal option, not anchored. */
  function Literal(pattern: CString): Opt {
    Opt(pattern, Options(false, false, false, Flags(false, false, false, true, true)))
  }

  lemma SingleOption(opt: Opt, f: CString)
    requires !IsPattern(opt)
    ensures Excluded(Compile([opt]), f) == (opt.options.inclusive != HashMatches({HashName(opt)}, opt.options, f))
    ensures Naive([opt], f) == (opt.options.inclusive != ExcludeFnmatch(opt, f))
  {
    assert [opt][..0] == [];
    assert Compile([]) == [];
    assert Compile([opt]) == [Hash(opt.options, {HashName(opt)})];
    assert Compile([opt])[1..] == [];
    assert LastMatch([], f) == No && FirstMatch([], f) == No;
    assert LastMatch([opt], f) == if ExcludeFnmatch(opt, f) then Yes(!opt.options.inclusive) else No;
    var seg := Hash(opt.options, {HashName(opt)});
    assert SegMatches(seg, f) == HashMatches({HashName(opt)}, opt.options, f);
    assert FirstMatch([seg], f) == if SegMatches(seg, f) then Yes(!opt.options.inclusive) else No;
  }

  /** A name with two slashes together is looked up at one place too many. */
  lemma DoubleSlashDiffers(f: CString, i: nat)
    requires i + 1 < |f| && f[i] == f[i + 1] == '/'
    ensures Excluded(Compile([Literal(f[i + 1..])]), f) && !Naive([Literal(f[i + 1..])], f)
  {
    var opt := Literal(f[i + 1..]);
    SingleOption(opt, f);
    assert HashStart(f, i + 1) && LookedUp(opt.pattern, f[i + 1..], false) && opt.pattern in {HashName(opt)};
    forall j | 0 <= j <= |f| && Match(opt, f[j..]) ensures j == i + 1 {
      assert |f[j..]| == |f[i + 1..]|;
    }
  }

  /** For the names a caller may ask about: compilation keeps the meaning of every list of
      exact patterns if and only if the name has no two slashes together. */
  lemma ExactNames(f: CString)
    ensures !DoubleSlash(f) <==>
            forall opts: seq<Opt> :: (forall j :: 0 <= j < |opts| ==> Exact(opts[j])) ==>
              Excluded(Compile(opts), f) == Naive(opts, f)
  {
    hide Exact, Excluded, Compile, Naive;
    if !DoubleSlash(f) {
      forall opts: seq<Opt> | forall j :: 0 <= j < |opts| ==> Exact(opts[j])
        ensures Excluded(Compile(opts), f) == Naive(opts, f)
      {
        CompilationExact(opts, f);
      }
    } else {
      var i :| 0 <= i < |f| - 1 && f[i] == f[i + 1] == '/';
      DoubleSlashDiffers(f, i);
      LiteralIsExact(f[i + 1..]);
      assert Exact([Literal(f[i + 1..])][0]);
    }
  }

  lemma LiteralIsExact(p: CString)
    ensures Exact(Literal(p))
  {
  }

  /** A literal pattern that is not plain matches nothing, but is filed under a name. */
  lemma NotPlainDiffers(opt: Opt)
    requires !Plain(opt)
    ensures Excluded(Compile([opt]), HashName(opt)) != Naive([opt], HashName(opt))
  {
    hide ExcludeFnmatch, LookedUp;
    var f := HashName(opt);
    SingleOption(opt, f);
    assert f[0..] == f;
    assert HashStart(f, 0) && f in {f};
    assert LookedUp(f, f, opt.options.flags.leadingDir) by { FoundByItself(f, opt.options.flags.leadingDir); }
    NotPlainMatchesNothing(opt, f);
  }

  lemma FoundByItself(f: CString, leadingDir: bool)
    ensures LookedUp(f, f, leadingDir)
  {
  }

  /** For the patterns a caller may add: compiling one keeps its meaning for every name without
      `//` if and only if it is plain or filed under a name with `//`. */
  lemma ExactPatterns(opt: Opt)
    ensures (forall f: CString :: !DoubleSlash(f) ==> Excluded(Compile([opt]), f) == Naive([opt], f)) <==>
            Plain(opt) || DoubleSlash(HashName(opt))
  {
    hide Plain, DoubleSlash, Excluded, Compile, Naive, HashName;
    if Exact(opt) {
      forall f: CString | !DoubleSlash(f) ensures Excluded(Compile([opt]), f) == Naive([opt], f) {
        CompilationExact([opt], f);
      }
    } else {
      NotPlainDiffers(opt);
      assert !DoubleSlash(HashName(opt));
    }
  }

  // ----- anchored options -----

  /** An anchored option decides by the beginning of the name alone. */
  lemma AnchoredAtBeginning(opt: Opt, f: CString)
    requires opt.options.anchored
    ensures ExcludeFnmatch(opt, f) <==> Match(opt, f)
    ensures Exact(opt) && !DoubleSlash(f) ==>
              Excluded(Compile([opt]), f) == (opt.options.inclusive != Match(opt, f))
  {
    hide Match, Exact, DoubleSlash, Excluded, Compile;
    assert f[0..] == f;
    if Match(opt, f) { assert Start(f, 0) && Match(opt, f[0..]); }
    if Exact(opt) && !DoubleSlash(f) {
      CompilationExact([opt], f);
      OnlyOption(opt, f);
    }
  }

  lemma OnlyOption(opt: Opt, f: CString)
    ensures Naive([opt], f) == (opt.options.inclusive != ExcludeFnmatch(opt, f))
  {
    assert [opt][..0] == [];
    assert LastMatch([], f) == No;
    assert LastMatch([opt], f) == if ExcludeFnmatch(opt, f) then Yes(!opt.options.inclusive) else No;
  }

  /** One that is not anchored also finds what it matches below any directory. */
  lemma UnanchoredBelow(opt: Opt, dir: CString, f: CString)
    requires !opt.options.anchored && Match(opt, f) && (f != [] ==> f[0] != '/')
    ensures ExcludeFnmatch(opt, dir + (['/'] + f))
    ensures Exact(opt) && !DoubleSlash(dir + (['/'] + f)) ==>
              Excluded(Compile([opt]), dir + (['/'] + f)) == !opt.options.inclusive
  {
    hide Match, Exact, DoubleSlash, Excluded, Compile;
    var g, i := dir + (['/'] + f), |dir| + 1;
    assert g[i..] == f && g[i - 1] == '/' && (f != [] ==> g[i] == f[0]);
    assert Start(g, i) && Match(opt, g[i..]);
    if Exact(opt) && !DoubleSlash(g) {
      CompilationExact([opt], g);
      OnlyOption(opt, g);
    }
  }
}
