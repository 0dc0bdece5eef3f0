/** Exclusion lists as they are built up and asked: the loops over patterns, names and segments. */
module ExcludeList {
  import opened CStrings
  import opened Fnmatch
  import opened Exclude

  /** The matcher's answer is defined: no unterminated bracket, no class names. */
  predicate Understood(opt: Opt) {
    opt.options.wildcards ==> Clear(Parse(opt.pattern, opt.options.flags))
  }

  ghost predicate AllUnderstood(segs: seq<Segment>) {
    forall i, j :: 0 <= i < |segs| && segs[i].Patterns? && 0 <= j < |segs[i].pats| ==> Understood(segs[i].pats[j])
  }

  /** `fnmatch_pattern_has_wildcards`, without regular expressions and extended patterns. */
  method PatternHasWildcards(pattern: CString, noescape: bool) returns (found: bool)
    ensures found == HasWildcards(pattern, noescape)
  {
    var str := pattern;
    while str != []
      invariant HasWildcards(pattern, noescape) == HasWildcards(str, noescape)
      decreases |str|
    {
      var c := str[0];
      str := str[1..];
      if c == '\\' {
        if !noescape && str != [] {
          str := str[1..];
        }
      } else if c == '?' || c == '*' || c == '[' {
        return true;
      }
    }
    found := false;
  }

  /** `unescape_pattern`: in place, the result in the first `n` bytes. */
  method UnescapePattern(str: array<CChar>) returns (n: nat)
    modifies str
    ensures n <= str.Length
    ensures str[..n] == Unescape(old(str[..]))
  {
    hide Unescape;
    ghost var p := str[..];
    var q := 0;
    n := 0;
    assert p[0..] == p;
    while q < str.Length
      invariant 0 <= n <= q <= str.Length
      invariant forall i :: q <= i < str.Length ==> str[i] == p[i]
      invariant str[..n] + Unescape(p[q..]) == Unescape(p)
    {
      ghost var was := str[..n];
      UnescapeStep(p, q);
      if str[q] == '\\' && q + 1 < str.Length {
        q := q + 1;
      }
      str[n] := str[q];
      n, q := n + 1, q + 1;
      assert str[..n] == was + [p[q - 1]];
      assert was + ([p[q - 1]] + Unescape(p[q..])) == (was + [p[q - 1]]) + Unescape(p[q..]);
    }
    assert p[q..] == [];
    UnescapeNothing();
  }

  lemma UnescapeStep(p: CString, q: nat)
    requires q < |p|
    ensures Unescape(p[q..]) ==
            if p[q] == '\\' && q + 1 < |p| then [p[q + 1]] + Unescape(p[q + 2..]) else [p[q]] + Unescape(p[q + 1..])
  {
    assert p[q..][1..] == p[q + 1..];
    if q + 1 < |p| { assert p[q..][2..] == p[q + 2..]; }
  }

  lemma UnescapeNothing()
    ensures Unescape([]) == []
  {
  }

  /** `exclude_fnmatch`: try the whole name, then every part after a slash. */
  method ExcludeFnmatchAt(opt: Opt, f: CString) returns (matched: bool)
    requires Understood(opt)
    ensures matched == ExcludeFnmatch(opt, f)
  {
    hide Match, Accepts, Clear, Parse;
    assert f[0..] == f;
    matched := MatchOne(opt, f);
    if matched {
      assert Start(f, 0) && Match(opt, f[0..]);
      return;
    }
    if !opt.options.anchored {
      var p := 0;
      while p < |f| && !matched
        invariant p <= |f|
        invariant matched ==> ExcludeFnmatch(opt, f)
        invariant !matched ==> forall i :: 0 <= i <= p && Start(f, i) ==> !Match(opt, f[i..])
      {
        if f[p] == '/' && At(f, p + 1) != '/' {
          matched := MatchOne(opt, f[p + 1..]);
          assert Start(f, p + 1);
        }
        p := p + 1;
      }
    }
  }

  method MatchOne(opt: Opt, f: CString) returns (matched: bool)
    requires Understood(opt)
    ensures matched == Match(opt, f)
  {
    hide Accepts, Clear, Parse;
    if opt.options.wildcards {
      matched := Fct(opt.pattern, f, opt.options.flags);
    } else {
      matched := NoWildcards(opt.pattern, f, opt.options.flags.leadingDir);
    }
  }

  /** `file_pattern_matches`. */
  method FilePatternMatches(pats: seq<Opt>, f: CString) returns (matched: bool)
    requires forall j :: 0 <= j < |pats| ==> Understood(pats[j])
    ensures matched == PatternMatches(pats, f)
  {
    hide ExcludeFnmatch, Understood;
    var i := 0;
    while i < |pats|
      invariant i <= |pats| && forall j :: 0 <= j < i ==> !ExcludeFnmatch(pats[j], f)
    {
      matched := ExcludeFnmatchAt(pats[i], f);
      if matched {
        return;
      }
      i := i + 1;
    }
    matched := false;
  }

  /** Look up one part of the name, and with `leadingDir` what is left of it when the last slash
      and what follows are cut off, again and again. */
  method LookUpPart(names: set<CString>, f: CString, leadingDir: bool) returns (found: bool)
    ensures found == exists name :: name in names && LookedUp(name, f, leadingDir)
  {
    var buffer := f;
    while true
      invariant buffer <= f && (buffer == f || (leadingDir && f[|buffer|] == '/'))
      invariant forall name :: name in names && LookedUp(name, f, leadingDir) ==> |name| <= |buffer|
      decreases |buffer|
    {
      if buffer in names {
        assert LookedUp(buffer, f, leadingDir);
        return true;
      }
      if !leadingDir {
        break;
      }
      var p: nat := |buffer|;
      while p > 0 && buffer[p - 1] != '/'
        invariant p <= |buffer| && forall i :: p <= i < |buffer| ==> buffer[i] != '/'
      {
        p := p - 1;
      }
      forall name | name in names && LookedUp(name, f, leadingDir) ensures |name| < p {
        NotLonger(name, buffer, p, f, leadingDir);
      }
      if p == 0 {
        return false;
      }
      buffer := buffer[..p - 1];
    }
    assert buffer == f;
    found := false;
  }

  lemma NotLonger(name: CString, buffer: CString, p: nat, f: CString, leadingDir: bool)
    requires LookedUp(name, f, leadingDir) && buffer <= f && |name| <= |buffer| && name != buffer
    requires p <= |buffer| && forall i :: p <= i < |buffer| ==> buffer[i] != '/'
    ensures |name| < p
  {
    assert name == f[..|name|] && buffer == f[..|buffer|];
    assert name == buffer[..|name|];
    assert |name| < |buffer|;
    assert buffer[|name|] == f[|name|];
  }

  /** `file_name_matches`. */
  method FileNameMatches(names: set<CString>, o: Options, f: CString) returns (matched: bool)
    ensures matched == HashMatches(names, o, f)
  {
    hide LookedUp;
    var i := 0;
    assert f[0..] == f;
    while true
      invariant 0 <= i <= |f| && HashStart(f, i) && (o.anchored ==> i == 0)
      invariant forall j, name :: 0 <= j < i && HashStart(f, j) && name in names ==>
                  !LookedUp(name, f[j..], o.flags.leadingDir)
      decreases |f| - i
    {
      matched := LookUpPart(names, f[i..], o.flags.leadingDir);
      if matched {
        var name :| name in names && LookedUp(name, f[i..], o.flags.leadingDir);
        return;
      }
      if o.anchored {
        break;
      }
      var slash := i;
      while slash < |f| && f[slash] != '/'
        invariant i <= slash <= |f| && forall j :: i <= j < slash ==> f[j] != '/'
      {
        slash := slash + 1;
      }
      if slash == |f| {
        forall j | i < j <= |f| ensures !HashStart(f, j) {
          assert f[j - 1] != '/';
        }
        return;
      }
      forall j | i < j <= slash ensures !HashStart(f, j) {
        assert f[j - 1] != '/';
      }
      forall j, name | 0 <= j < slash + 1 && HashStart(f, j) && name in names
        ensures !LookedUp(name, f[j..], o.flags.leadingDir)
      {
        assert j <= i;
      }
      i := slash + 1;
    }
  }

  /** What goes into the hash table for a pattern without wildcards. */
  method IndexedName(pattern: CString, options: Options) returns (name: CString)
    ensures name == HashName(Opt(pattern, options))
  {
    name := pattern;
    if options.wildcards && !options.flags.noescape {
      var str := new CChar[|pattern|](i requires 0 <= i < |pattern| => pattern[i]);
      assert str[..] == pattern;
      var n := UnescapePattern(str);
      name := str[..n];
    }
  }

  lemma AddUnderstood(segs: seq<Segment>, opt: Opt)
    requires AllUnderstood(segs) && Understood(opt)
    ensures AllUnderstood(AddExclude(segs, opt))
  {
    hide Understood;
    var out := AddExclude(segs, opt);
    forall i, j | 0 <= i < |out| && out[i].Patterns? && 0 <= j < |out[i].pats| ensures Understood(out[i].pats[j]) {
      if i > 0 {
        assert out[i] == if |out| == |segs| then segs[i] else segs[i - 1];
      } else if segs != [] && segs[0].Patterns? && j < |segs[0].pats| && |out| == |segs| {
        assert out[0].pats[j] == segs[0].pats[j];
      } else {
        assert out[0].pats[j] == opt;
      }
    }
  }

  lemma CompileAdd(opts: seq<Opt>, opt: Opt)
    ensures Compile(opts + [opt]) == AddExclude(Compile(opts), opt)
  {
    assert (opts + [opt])[..|opts|] == opts;
  }

  class ExclusionList {
    /** Newest first. */
    var segments: seq<Segment>
    /** The options added so far, oldest first. */
    ghost var options: seq<Opt>

    ghost predicate Valid()
      reads this
    {
      segments == Compile(options) && AllUnderstood(segments)
    }

    constructor ()
      ensures Valid() && options == []
    {
      segments, options := [], [];
    }

    /** `add_exclude`. */
    method Add(pattern: CString, flags: Options)
      requires Valid() && Understood(Opt(pattern, flags))
      modifies this
      ensures Valid() && options == old(options) + [Opt(pattern, flags)]
      ensures segments == AddExclude(old(segments), Opt(pattern, flags))
    {
      hide Understood, AllUnderstood, HashName, Compile;
      AddUnderstood(segments, Opt(pattern, flags));
      var wild := false;
      if flags.wildcards {
        wild := PatternHasWildcards(pattern, flags.flags.noescape);
      }
      if wild {
        if !(segments != [] && segments[0].Patterns? && segments[0].options.inclusive == flags.inclusive) {
          segments := [Patterns(flags, [])] + segments;
        }
        var opt := Opt(pattern, flags);
        assert [] + [opt] == [opt];
        segments := [segments[0].(pats := segments[0].pats + [opt])] + segments[1..];
      } else {
        if !(segments != [] && segments[0].Hash? && SameHashFlags(segments[0].options, flags)) {
          segments := [Hash(flags, {})] + segments;
        }
        var name := IndexedName(pattern, flags);
        assert {} + {name} == {name};
        segments := [segments[0].(names := segments[0].names + {name})] + segments[1..];
      }
      CompileAdd(options, Opt(pattern, flags));
      options := options + [Opt(pattern, flags)];
    }

    /** `excluded_file_name`. */
    method ExcludedFileName(f: CString) returns (excluded: bool)
      requires Valid()
      ensures excluded == Excluded(segments, f)
      ensures (forall j :: 0 <= j < |options| ==> Exact(options[j])) && !DoubleSlash(f) ==>
                excluded == Naive(options, f)
    {
      hide Understood, HashMatches, PatternMatches, Exact, DoubleSlash, Compile, Naive;
      if (forall j :: 0 <= j < |options| ==> Exact(options[j])) && !DoubleSlash(f) {
        CompilationExact(options, f);
      }
      if segments == [] {
        return false;
      }
      var i := 0;
      assert segments[0..] == segments;
      while true
        invariant 0 <= i < |segments| && FirstMatch(segments, f) == FirstMatch(segments[i..], f)
        decreases |segments| - i
      {
        var seg := segments[i];
        var matched;
        if seg.Hash? {
          matched := FileNameMatches(seg.names, seg.options, f);
        } else {
          matched := FilePatternMatches(seg.pats, f);
        }
        if matched {
          return !seg.options.inclusive;
        }
        assert segments[i..][1..] == segments[i + 1..];
        if i + 1 == |segments| {
          assert segments[i + 1..] == [];
          return seg.options.inclusive;
        }
        i := i + 1;
      }
    }
  }
}
