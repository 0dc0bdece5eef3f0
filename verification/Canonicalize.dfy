/** Canonical file names by pure string editing: no symbolic link is followed and nothing need
    exist. */
module Canonicalize {
  import opened CStrings

  const PATH_MAX: nat := 4096

  // ----- names as components -----

  function SkipSlashes(s: CString): (t: CString)
    ensures |t| <= |s| && (t != [] ==> t[0] != '/')
  {
    if s != [] && s[0] == '/' then SkipSlashes(s[1..]) else s
  }

  /** Length of the component at the front. */
  function ComponentLen(s: CString): (n: nat)
    ensures n <= |s|
    ensures n == 0 <==> s == [] || s[0] == '/'
  {
    if s == [] || s[0] == '/' then 0 else 1 + ComponentLen(s[1..])
  }

  lemma {:induction false} ComponentSlashless(s: CString)
    ensures forall i :: 0 <= i < ComponentLen(s) ==> s[i] != '/'
  {
    if s != [] && s[0] != '/' {
      ComponentSlashless(s[1..]);
      assert forall i :: 1 <= i < ComponentLen(s) ==> s[i] == s[1..][i - 1];
    }
  }

  function Components(s: CString): seq<CString>
    decreases |s|
  {
    var t := SkipSlashes(s);
    if t == [] then [] else [t[..ComponentLen(t)]] + Components(t[ComponentLen(t)..])
  }

  /** One component applied to the directory reached so far; the root has no parent but itself. */
  function Enter(stack: seq<CString>, c: CString): seq<CString> {
    if c == ['.'] then stack
    else if c == ['.', '.'] then (if stack == [] then [] else stack[..|stack| - 1])
    else stack + [c]
  }

  function Walk(stack: seq<CString>, cs: seq<CString>): seq<CString>
    decreases |cs|
  {
    if cs == [] then stack else Walk(Enter(stack, cs[0]), cs[1..])
  }

  /** The name of the directory reached. */
  function Render(stack: seq<CString>): CString {
    if stack == [] then ['/'] else RenderBelow(stack)
  }

  function RenderBelow(stack: seq<CString>): CString {
    if stack == [] then [] else RenderBelow(stack[..|stack| - 1]) + ['/'] + stack[|stack| - 1]
  }

  /** The canonical form of `name`, seen from directory `cwd` if it is relative. */
  function Canonical(cwd: CString, name: CString): CString {
    Render(Walk(if name != [] && name[0] == '/' then [] else Components(cwd), Components(name)))
  }

  // ----- what canonical names are like -----

  /** A component that stands for itself. */
  predicate Proper(c: CString) {
    c != [] && c != ['.'] && c != ['.', '.'] && forall i :: 0 <= i < |c| ==> c[i] != '/'
  }

  predicate AllProper(stack: seq<CString>) {
    forall i :: 0 <= i < |stack| ==> Proper(stack[i])
  }

  lemma {:induction false} ComponentsSlashless(s: CString)
    ensures forall c :: c in Components(s) ==> c != [] && forall i :: 0 <= i < |c| ==> c[i] != '/'
    decreases |s|
  {
    var t := SkipSlashes(s);
    if t != [] {
      ComponentSlashless(t);
      ComponentsSlashless(t[ComponentLen(t)..]);
    }
  }

  lemma {:induction false} WalkProper(stack: seq<CString>, cs: seq<CString>)
    requires AllProper(stack)
    requires forall c :: c in cs ==> c != [] && forall i :: 0 <= i < |c| ==> c[i] != '/'
    ensures AllProper(Walk(stack, cs))
    decreases |cs|
  {
    if cs != [] { WalkProper(Enter(stack, cs[0]), cs[1..]); }
  }

  lemma {:induction false} WalkProperOnly(stack: seq<CString>, cs: seq<CString>)
    requires AllProper(cs)
    ensures Walk(stack, cs) == stack + cs
    decreases |cs|
  {
    if cs == [] {
      assert stack + cs == stack;
    } else {
      WalkProperOnly(stack + [cs[0]], cs[1..]);
      assert (stack + [cs[0]]) + cs[1..] == stack + cs;
    }
  }

  lemma ComponentsStep(s: CString, t: CString, c: CString, rest: CString)
    requires SkipSlashes(s) == t != []
    requires ComponentLen(t) == |c| && t == c + rest
    ensures Components(s) == [c] + Components(rest)
  {
    assert t[..|c|] == c && t[|c|..] == rest;
  }

  lemma {:induction false} ComponentsJoin(s: CString, t: CString)
    ensures Components(s + (['/'] + t)) == Components(s) + Components(t)
    decreases |s|
  {
    hide SkipSlashes, ComponentLen, Components;
    var r := ['/'] + t;
    var u := SkipSlashes(s);
    if u == [] {
      SlashesThen(s, r);
      SlashSkipped(t);
      NoMore(s);
      SameComponents(s + r, t);
      assert [] + Components(t) == Components(t);
    } else {
      var n := ComponentLen(u);
      var first, rest := u[..n], u[n..];
      assert u == first + rest;
      ComponentsStep(s, u, first, rest);
      SkipAppend(s, r);
      LenAppend(u, r);
      assert u + r == first + (rest + r);
      ComponentsStep(s + r, u + r, first, rest + r);
      ComponentsJoin(rest, t);
      assert [first] + (Components(rest) + Components(t)) == ([first] + Components(rest)) + Components(t);
    }
  }

  lemma SlashSkipped(t: CString)
    ensures SkipSlashes(['/'] + t) == SkipSlashes(t)
  {
    assert (['/'] + t)[1..] == t;
  }

  lemma SameComponents(s: CString, t: CString)
    requires SkipSlashes(s) == SkipSlashes(t)
    ensures Components(s) == Components(t)
  {
  }

  lemma ComponentsAppend(s: CString, c: CString)
    requires c != [] && forall i :: 0 <= i < |c| ==> c[i] != '/'
    ensures Components(s + (['/'] + c)) == Components(s) + [c]
  {
    hide SkipSlashes, ComponentLen, Components;
    ComponentsJoin(s, c);
    LastComponent(c);
    SlashSkipped(c);
    WholeComponent(c);
    NoComponents();
    ComponentsStep(c, c, c, []);
    assert c == c + [];
  }

  lemma NoMore(s: CString)
    requires SkipSlashes(s) == []
    ensures Components(s) == []
  {
  }

  lemma LastComponent(c: CString)
    requires c != [] && forall i :: 0 <= i < |c| ==> c[i] != '/'
    ensures Components(['/'] + c) == [c]
    ensures SkipSlashes(['/'] + c) == c
  {
    assert (['/'] + c)[1..] == c;
    assert SkipSlashes(['/'] + c) == SkipSlashes(c) == c;
    WholeComponent(c);
    assert c[..|c|] == c && c[|c|..] == [];
    assert Components([]) == [];
    assert [c] + [] == [c];
  }

  lemma {:induction false} SlashesThen(s: CString, r: CString)
    requires SkipSlashes(s) == []
    ensures SkipSlashes(s + r) == SkipSlashes(r)
  {
    if s == [] {
      assert s + r == r;
    } else {
      assert (s + r)[1..] == s[1..] + r;
      SlashesThen(s[1..], r);
    }
  }

  lemma {:induction false} SkipAppend(s: CString, r: CString)
    requires SkipSlashes(s) != []
    ensures SkipSlashes(s + r) == SkipSlashes(s) + r
  {
    if s[0] == '/' {
      assert (s + r)[1..] == s[1..] + r;
      SkipAppend(s[1..], r);
    }
  }

  lemma WholeComponent(c: CString)
    requires forall i :: 0 <= i < |c| ==> c[i] != '/'
    ensures ComponentLen(c) == |c|
  {
  }

  lemma {:induction false} LenAppend(t: CString, r: CString)
    requires r != [] && r[0] == '/'
    ensures ComponentLen(t + r) == ComponentLen(t)
  {
    if t == [] {
      assert t + r == r;
    } else {
      assert (t + r)[1..] == t[1..] + r;
      if t[0] != '/' { LenAppend(t[1..], r); }
    }
  }

  lemma {:induction false} ComponentsBelow(stack: seq<CString>)
    requires AllProper(stack)
    ensures Components(RenderBelow(stack)) == stack
    decreases |stack|
  {
    hide SkipSlashes, ComponentLen, Components;
    if stack == [] {
      NoComponents();
    } else {
      var init, c := stack[..|stack| - 1], stack[|stack| - 1];
      ComponentsBelow(init);
      assert RenderBelow(init) + ['/'] + c == RenderBelow(init) + (['/'] + c);
      ComponentsAppend(RenderBelow(init), c);
      assert init + [c] == stack;
    }
  }

  lemma NoComponents()
    ensures Components([]) == [] && Components(['/']) == []
  {
    assert SkipSlashes(['/']) == [];
  }

  lemma ComponentsOfRender(stack: seq<CString>)
    requires AllProper(stack)
    ensures Components(Render(stack)) == stack
    ensures Render(stack) != [] && Render(stack)[0] == '/'
  {
    NoComponents();
    ComponentsBelow(stack);
    if stack != [] { FirstSlash(stack); }
  }

  lemma FirstSlash(stack: seq<CString>)
    requires stack != []
    ensures RenderBelow(stack) != [] && RenderBelow(stack)[0] == '/'
  {
    if |stack| > 1 { FirstSlash(stack[..|stack| - 1]); }
  }

  /** A working directory's name, as the kernel gives it. */
  predicate IsCanonical(s: CString) {
    AllProper(Components(s)) && s == Render(Components(s))
  }

  /** No two slashes in a row, and none at the end. */
  predicate Tidy(s: CString) {
    (forall i :: 0 < i < |s| && s[i] == '/' ==> s[i - 1] != '/') && (s != [] ==> s[|s| - 1] != '/')
  }

  lemma {:induction false} RenderIsTidy(stack: seq<CString>)
    requires AllProper(stack)
    ensures Tidy(RenderBelow(stack))
    decreases |stack|
  {
    if stack != [] {
      var below, c := RenderBelow(stack[..|stack| - 1]), stack[|stack| - 1];
      RenderIsTidy(stack[..|stack| - 1]);
      assert Proper(c);
      TidyAppend(below, c, RenderBelow(stack));
    }
  }

  lemma TidyAppend(s: CString, c: CString, t: CString)
    requires Tidy(s) && Proper(c) && t == s + ['/'] + c
    ensures Tidy(t)
  {
    assert forall i :: |s| < i < |t| ==> t[i] == c[i - |s| - 1];
  }

  /** A canonical form begins with a slash, has neither `//` nor a trailing slash except as the root,
      and its components, no `.` or `..` among them, are all there is to it. */
  lemma CanonicalIsCanonical(cwd: CString, name: CString)
    requires IsCanonical(cwd)
    ensures IsCanonical(Canonical(cwd, name)) && Canonical(cwd, name)[..1] == ['/']
    ensures Canonical(cwd, name) == ['/'] || Tidy(Canonical(cwd, name))
  {
    var start := if name != [] && name[0] == '/' then [] else Components(cwd);
    var stack := Walk(start, Components(name));
    ComponentsSlashless(name);
    WalkProper(start, Components(name));
    ComponentsOfRender(stack);
    RenderIsTidy(stack);
  }

  /** A canonical form is its own canonical form, wherever it is seen from. */
  lemma Idempotent(cwd: CString, cwd': CString, name: CString)
    requires IsCanonical(cwd)
    ensures Canonical(cwd', Canonical(cwd, name)) == Canonical(cwd, name)
  {
    var c := Canonical(cwd, name);
    CanonicalIsCanonical(cwd, name);
    WalkProperOnly([], Components(c));
    assert [] + Components(c) == Components(c);
    assert c[..1][0] == c[0];
  }

  lemma {:induction false} WalkAppend(stack: seq<CString>, a: seq<CString>, b: seq<CString>)
    ensures Walk(stack, a + b) == Walk(Walk(stack, a), b)
    decreases |a|
  {
    if a == [] {
      assert a + b == b;
    } else {
      assert (a + b)[1..] == a[1..] + b;
      WalkAppend(Enter(stack, a[0]), a[1..], b);
    }
  }

  lemma WalkOne(stack: seq<CString>, c: CString)
    ensures Walk(stack, [c]) == Enter(stack, c)
  {
    assert [c][1..] == [];
  }

  /** Going down into a directory and up again leads back, and `.` stays. */
  lemma DownAndUp(cwd: CString, name: CString, c: CString)
    requires Proper(c)
    ensures Canonical(cwd, name + (['/'] + c) + "/..") == Canonical(cwd, name + ['/'])
    ensures Canonical(cwd, name + "/.") == Canonical(cwd, name + ['/'])
  {
    hide Components, Walk, Render;
    var up: CString, here: CString := ['.', '.'], ['.'];
    var start := if name == [] || name[0] == '/' then [] else Components(cwd);
    var cs := Components(name);
    assert "/.." == ['/'] + up && "/." == ['/'] + here && ['/'] == ['/'] + [];
    ComponentsAppend(name, c);
    ComponentsAppend(name + (['/'] + c), up);
    ComponentsAppend(name, here);
    ComponentsJoin(name, []);
    NoComponents();
    assert cs + [] == cs;
    var there := Walk(start, cs);
    WalkAppend(start, cs, [c]);
    WalkAppend(start, cs + [c], [up]);
    WalkAppend(start, cs, [here]);
    WalkOne(there, c);
    WalkOne(there + [c], up);
    WalkOne(there, here);
    assert (there + [c])[..|there|] == there;
  }

  /** A relative name is looked up from the working directory. */
  lemma RelativeNames(cwd: CString, cwd': CString, name: CString)
    requires IsCanonical(cwd) && name != [] && name[0] != '/'
    ensures Canonical(cwd, name) == Canonical(cwd', cwd + (['/'] + name))
  {
    hide Components, Walk, Render;
    ComponentsJoin(cwd, name);
    ComponentsOfRender(Components(cwd));
    WalkAppend([], Components(cwd), Components(name));
    WalkProperOnly([], Components(cwd));
    assert [] + Components(cwd) == Components(cwd);
  }

  /** Going up from the root stays at the root, however often. */
  lemma {:induction false} NeverAboveRoot(n: nat)
    ensures Walk([], seq(n, _ => ['.', '.'])) == []
    decreases n
  {
    if n > 0 {
      var ups := seq(n, _ => ['.', '.']);
      assert ups[1..] == seq(n - 1, _ => ['.', '.']);
      NeverAboveRoot(n - 1);
    }
  }

  // ----- the buffer -----

  /** The buffer holds the name of the directory reached, perhaps with a slash behind it. */
  predicate Content(s: seq<char>, stack: seq<CString>) {
    s == Render(stack) || (stack != [] && s == RenderBelow(stack) + ['/'])
  }

  lemma RootIsShort(s: seq<char>, stack: seq<CString>)
    requires AllProper(stack) && Content(s, stack)
    ensures s != [] && s[0] == '/'
    ensures stack == [] <==> |s| == 1
    ensures stack != [] && s[|s| - 1] == '/' <==> stack != [] && s == RenderBelow(stack) + ['/']
  {
    if stack != [] {
      FirstSlash(stack);
      var c := stack[|stack| - 1];
      assert Proper(c);
      assert RenderBelow(stack)[|RenderBelow(stack)| - 1] == c[|c| - 1];
    }
  }

  /** What lies below the last component of the buffer. */
  lemma ContentSplit(s: seq<char>, stack: seq<CString>)
    requires stack != [] && Content(s, stack)
    ensures Content(RenderBelow(stack[..|stack| - 1]) + ['/'], stack[..|stack| - 1])
    ensures RenderBelow(stack[..|stack| - 1]) + ['/'] + stack[|stack| - 1] == RenderBelow(stack)
  {
  }

  /** Back up over the last component, unless at the root already. */
  method BackUp(rname: array<char>, dest: nat, ghost stack: seq<CString>) returns (dest': nat)
    requires dest <= rname.Length && AllProper(stack) && Content(rname[..dest], stack)
    ensures 0 < dest' <= dest
    ensures Content(rname[..dest'], Enter(stack, ['.', '.']))
  {
    hide RenderBelow;
    dest' := dest;
    ghost var all := rname[..dest];
    RootIsShort(all, stack);
    if dest > 1 {
      ContentSplit(all, stack);
      ghost var init, c := stack[..|stack| - 1], stack[|stack| - 1];
      ghost var below := RenderBelow(init) + ['/'];
      assert Proper(c);
      assert all[..|below|] == below;
      dest' := dest - 1;
      while dest' > 0 && rname[dest' - 1] != '/'
        invariant |below| <= dest' < dest
        decreases dest'
      {
        assert all[|below| - 1] == '/' == rname[|below| - 1];
        dest' := dest' - 1;
      }
      assert dest' == |below| by { StopsAtSlash(all, below, c, dest'); }
      assert rname[..dest'] == all[..dest'];
    }
  }

  lemma StopsAtSlash(all: seq<char>, below: seq<char>, c: CString, n: nat)
    requires Proper(c) && below != [] && |below| <= n < |all|
    requires all == below + c || all == below + c + ['/']
    requires all[n - 1] == '/'
    ensures n == |below|
  {
    assert forall i :: |below| <= i < |below| + |c| ==> all[i] == c[i - |below|] && all[i] != '/';
  }

  /** A buffer that holds the same `dest` characters and has room for `n` more and a NUL. */
  method Reserve(rname: array<char>, dest: nat, n: nat) returns (longer: array<char>)
    requires dest <= rname.Length
    ensures longer == rname || fresh(longer)
    ensures dest + n < longer.Length && longer[..dest] == rname[..dest]
  {
    longer := rname;
    if dest + n >= rname.Length {
      longer := new char[rname.Length + if n + 1 > PATH_MAX then n + 1 else PATH_MAX];
      forall i | 0 <= i < dest { longer[i] := rname[i]; }
    }
  }

  method CopyInto(rname: array<char>, dest: nat, c: CString)
    requires dest + |c| <= rname.Length
    modifies rname
    ensures rname[..dest + |c|] == old(rname[..dest]) + c
  {
    forall i | 0 <= i < |c| { rname[dest + i] := c[i]; }
    assert forall i :: dest <= i < dest + |c| ==> rname[i] == c[i - dest];
  }

  /** Add one component behind the name in the buffer, in a longer buffer if this one is too short. */
  method Append(rname: array<char>, dest: nat, c: CString, ghost stack: seq<CString>)
    returns (rname': array<char>, dest': nat)
    requires 0 < dest < rname.Length && AllProper(stack) && Content(rname[..dest], stack)
    modifies rname
    ensures rname' == rname || fresh(rname')
    ensures 0 < dest' < rname'.Length && rname'[..dest'] == Render(stack + [c])
  {
    hide RenderBelow;
    dest' := dest;
    RootIsShort(rname[..dest], stack);
    if rname[dest' - 1] != '/' {
      CopyInto(rname, dest', ['/']);
      dest' := dest' + 1;
    }
    assert rname[..dest'] == RenderBelow(stack) + ['/'] by { NothingBelowRoot(); }
    rname' := Reserve(rname, dest', |c|);
    CopyInto(rname', dest', c);
    dest' := dest' + |c|;
    RenderAdd(stack, c);
  }

  lemma NothingBelowRoot()
    ensures RenderBelow([]) == []
  {
  }

  lemma RenderAdd(stack: seq<CString>, c: CString)
    ensures Render(stack + [c]) == RenderBelow(stack) + ['/'] + c
  {
    assert (stack + [c])[..|stack|] == stack;
  }

  lemma SkipStep(s: CString, i: nat)
    requires i <= |s|
    ensures i < |s| && s[i] == '/' ==> SkipSlashes(s[i..]) == SkipSlashes(s[i + 1..])
    ensures i == |s| || s[i] != '/' ==> SkipSlashes(s[i..]) == s[i..]
    ensures i < |s| && s[i] != '/' ==> ComponentLen(s[i..]) == 1 + ComponentLen(s[i + 1..])
    ensures i == |s| || s[i] == '/' ==> ComponentLen(s[i..]) == 0
  {
    if i < |s| { assert s[i..][1..] == s[i + 1..]; }
  }

  /** The first component of the name from `start` on. */
  method NextComponent(name: CString, start: nat) returns (from: nat, end: nat)
    requires start < |name|
    ensures start <= from <= end <= |name|
    ensures name[from..] == SkipSlashes(name[start..])
    ensures end - from == ComponentLen(name[from..])
  {
    from := SkipRun(name, start);
    end := ComponentEnd(name, from);
  }

  method SkipRun(name: CString, start: nat) returns (from: nat)
    requires start < |name|
    ensures start <= from <= |name|
    ensures name[from..] == SkipSlashes(name[start..])
  {
    hide SkipSlashes, ComponentLen;
    from := start;
    while from < |name| && name[from] == '/'
      invariant start <= from <= |name|
      invariant SkipSlashes(name[start..]) == SkipSlashes(name[from..])
    {
      SkipStep(name, from);
      from := from + 1;
    }
    SkipStep(name, from);
  }

  method ComponentEnd(name: CString, from: nat) returns (end: nat)
    requires from <= |name|
    ensures from <= end <= |name|
    ensures end - from == ComponentLen(name[from..])
  {
    hide SkipSlashes, ComponentLen;
    end := from;
    while end < |name| && name[end] != '/'
      invariant from <= end <= |name|
      invariant ComponentLen(name[from..]) == end - from + ComponentLen(name[end..])
    {
      SkipStep(name, end);
      end := end + 1;
    }
    SkipStep(name, end);
  }

  /** One turn of the scan. */
  lemma ScanStep(name: CString, start: nat, from: nat, end: nat, stack: seq<CString>)
    requires start <= from <= end <= |name|
    requires name[from..] == SkipSlashes(name[start..])
    requires end - from == ComponentLen(name[from..])
    ensures from == end ==> Components(name[start..]) == []
    ensures from < end ==> name[from..end] != [] && '/' !in name[from..end]
    ensures from < end ==>
      Walk(stack, Components(name[start..])) == Walk(Enter(stack, name[from..end]), Components(name[end..]))
  {
    var t := name[from..];
    ComponentSlashless(t);
    if from < end {
      var c, rest := name[from..end], Components(name[end..]);
      assert t[..end - from] == c && t[end - from..] == name[end..];
      assert ([c] + rest)[1..] == rest;
    }
  }

  /** Drop the slash a back-up may have left, end the string, and keep no spare room. */
  method Finish(rname: array<char>, dest: nat, ghost stack: seq<CString>) returns (r: array<char>)
    requires 0 < dest < rname.Length && AllProper(stack) && Content(rname[..dest], stack)
    modifies rname
    ensures r[..] == Render(stack) + ['\0']
  {
    hide RenderBelow;
    var end: nat := dest;
    RootIsShort(rname[..dest], stack);
    if end > 1 && rname[end - 1] == '/' {
      assert rname[..dest - 1] == rname[..dest][..dest - 1];
      end := end - 1;
    }
    assert rname[..end] == Render(stack);
    rname[end] := '\0';
    assert rname[..end] == Render(stack);
    r := rname;
    if rname.Length != end + 1 {
      r := new char[end + 1];
      forall i | 0 <= i <= end { r[i] := rname[i]; }
    }
    assert r[..end] == rname[..end];
    assert r[..] == r[..end] + ['\0'];
  }

  /** Apply every component of the name to the directory in the buffer. */
  method Scan(rname: array<char>, dest: nat, name: CString, ghost base: seq<CString>)
    returns (rname': array<char>, dest': nat, ghost stack: seq<CString>)
    requires 0 < dest < rname.Length && AllProper(base) && Content(rname[..dest], base)
    modifies rname
    ensures rname' == rname || fresh(rname')
    ensures stack == Walk(base, Components(name)) && AllProper(stack)
    ensures 0 < dest' < rname'.Length && Content(rname'[..dest'], stack)
  {
    hide Components, ComponentLen, SkipSlashes, RenderBelow;
    rname', dest', stack := rname, dest, base;
    var start := 0;
    assert name[0..] == name;
    while start < |name|
      invariant start <= |name| && (rname' == rname || fresh(rname'))
      invariant 0 < dest' < rname'.Length && AllProper(stack) && Content(rname'[..dest'], stack)
      invariant Walk(base, Components(name)) == Walk(stack, Components(name[start..]))
      decreases |name| - start
    {
      var from, end := NextComponent(name, start);
      ScanStep(name, start, from, end, stack);
      if from == end {
        return;
      }
      var c := name[from..end];
      if c == ['.'] {
      } else if c == ['.', '.'] {
        dest' := BackUp(rname', dest', stack);
      } else {
        rname', dest' := Append(rname', dest', c, stack);
      }
      stack := Enter(stack, c);
      start := end;
    }
    assert name[start..] == [];
    NoComponents();
  }

  /** The canonical name, NUL-terminated in a buffer of just its size; none for the empty name. */
  method CanonicalizeFilename(cwd: CString, name: CString) returns (r: array?<char>)
    requires IsCanonical(cwd) && |cwd| < PATH_MAX
    ensures r == null <==> name == []
    ensures r != null ==> r[..] == Canonical(cwd, name) + ['\0']
  {
    hide Components, RenderBelow, Walk;
    if name == [] { return null; }
    var rname, dest: nat := new char[PATH_MAX], 1;
    ghost var base := [];
    if name[0] != '/' {
      CopyInto(rname, 0, cwd);
      dest := |cwd|;
      base := Components(cwd);
      assert rname[..dest] == cwd;
      RootIsShort(rname[..dest], base);
    } else {
      rname[0] := '/';
      assert rname[..dest] == ['/'];
    }
    ghost var stack;
    rname, dest, stack := Scan(rname, dest, name, base);
    r := Finish(rname, dest, stack);
  }
}
