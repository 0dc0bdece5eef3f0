/** Version comparison of file names. */
module VersionCompare {
  import opened CStrings

  // ----- the order of characters -----

  /** Digits count as the end of a word, letters come next, `~` before everything, the rest last. */
  function Order(c: CChar): int {
    if IsDigit(c) then 0
    else if IsAlpha(c) then c as int
    else if c == '~' then -1
    else c as int + 256
  }

  // ----- what is compared: words and numbers -----

  function DigitRun(s: CString): (n: nat)
    ensures n <= |s| && AllDigits(s[..n])
    ensures forall i :: 0 <= i < n ==> IsDigit(s[i])
    ensures n < |s| ==> !IsDigit(s[n])
  {
    if s == [] || !IsDigit(s[0]) then 0
    else
      var n := 1 + DigitRun(s[1..]);
      assert s[..n] == [s[0]] + s[1..][..n - 1];
      n
  }

  /** A string as a list of numbers: each character of a word as its order, a zero where a number
      begins, then the number's value. */
  function Key(s: CString): seq<int>
    decreases |s|
  {
    if s == [] then []
    else if IsDigit(s[0]) then [0, Value(s[..DigitRun(s)])] + Key(s[DigitRun(s)..])
    else [Order(s[0])] + Key(s[1..])
  }

  function Head(k: seq<int>): int {
    if k == [] then 0 else k[0]
  }

  function Tail(k: seq<int>): seq<int> {
    if k == [] then [] else k[1..]
  }

  /** Lexicographic comparison, the shorter list continued with zeros. */
  function LexCmp(a: seq<int>, b: seq<int>): int
    decreases |a| + |b|
  {
    if a == [] && b == [] then 0
    else if Head(a) != Head(b) then Sign(Head(a) - Head(b))
    else LexCmp(Tail(a), Tail(b))
  }

  lemma LexSwap(a: seq<int>, b: seq<int>)
    ensures LexCmp(b, a) == -LexCmp(a, b)
    decreases |a| + |b|
  {
    if a != [] || b != [] { LexSwap(Tail(a), Tail(b)); }
  }

  lemma LexTrans(a: seq<int>, b: seq<int>, c: seq<int>)
    requires LexCmp(a, b) <= 0 && LexCmp(b, c) <= 0
    ensures LexCmp(a, c) <= 0
    ensures LexCmp(a, b) < 0 || LexCmp(b, c) < 0 ==> LexCmp(a, c) < 0
    decreases |a| + |b| + |c|
  {
    if a != [] || b != [] || c != [] {
      LexStep(a, b);
      LexStep(b, c);
      LexStep(a, c);
      if Head(a) == Head(b) == Head(c) { LexTrans(Tail(a), Tail(b), Tail(c)); }
    }
  }

  lemma LexStep(a: seq<int>, b: seq<int>)
    ensures LexCmp(a, b) == if Head(a) != Head(b) then Sign(Head(a) - Head(b)) else LexCmp(Tail(a), Tail(b))
  {
  }

  /** A common beginning does not matter. */
  lemma LexPrefix(p: seq<int>, a: seq<int>, b: seq<int>)
    ensures LexCmp(p + a, p + b) == LexCmp(a, b)
  {
    if p == [] {
      assert p + a == a && p + b == b;
    } else {
      assert (p + a)[1..] == p[1..] + a && (p + b)[1..] == p[1..] + b;
      LexPrefix(p[1..], a, b);
    }
  }

  // ----- the suffix scanner -----

  /** The scanner's variables: whether a dot was just read, and where the match begins (-1: none). */
  datatype Scan = Scan(readAlpha: bool, start: int)

  function ScanStep(c: CChar, i: nat, st: Scan): Scan {
    if st.readAlpha then
      Scan(false, if !IsAlpha(c) && c != '~' then -1 else st.start)
    else if c == '.' then
      Scan(true, if st.start < 0 then i else st.start)
    else if !IsAlnum(c) && c != '~' then
      Scan(false, -1)
    else st
  }

  /** The scanner's variables after the whole string. */
  function ScanAll(s: CString): Scan {
    if s == [] then Scan(false, -1) else ScanStep(s[|s| - 1], |s| - 1, ScanAll(s[..|s| - 1]))
  }

  lemma ScanStart(s: CString)
    ensures -1 <= ScanAll(s).start < |s|
    ensures ScanAll(s).start >= 0 ==> s[ScanAll(s).start] == '.'
  {
  }

  /** Length of the string without its suffix. */
  function CutLen(s: CString): (n: nat)
    ensures n <= |s|
    ensures n < |s| ==> s[n] == '.'
  {
    ScanStart(s);
    if ScanAll(s).start < 0 then |s| else ScanAll(s).start
  }

  // ----- the comparison -----

  /** The empty name, `.`, `..`, other hidden names, all other names. */
  function Class(s: CString): int {
    if s == [] then 0 else if s == ['.'] then 1 else if s == ['.', '.'] then 2 else if s[0] == '.' then 3 else 4
  }

  function Body(s: CString): CString {
    if Class(s) == 3 then s[1..] else s
  }

  function Cut(s: CString): CString {
    Body(s)[..CutLen(Body(s))]
  }

  /** The sign of the result of `filevercmp`. */
  function Compare(a: CString, b: CString): int {
    if a == b then 0
    else if Class(a) != Class(b) then Sign(Class(a) - Class(b))
    else
      var r := if Cut(a) == Cut(b) then LexCmp(Key(Body(a)), Key(Body(b))) else LexCmp(Key(Cut(a)), Key(Cut(b)));
      if r != 0 then r else Strcmp(a, b)
  }

  // ----- a strict total order -----

  lemma RunUnique(s: CString, n: nat)
    requires n <= |s| && (forall i :: 0 <= i < n ==> IsDigit(s[i])) && (n < |s| ==> !IsDigit(s[n]))
    ensures DigitRun(s) == n
  {
  }

  /** A number at the beginning contributes a zero and its value. */
  lemma KeyNumber(d: CString, rest: CString)
    requires AllDigits(d) && d != [] && (rest != [] ==> !IsDigit(rest[0]))
    ensures Key(d + rest) == [0, Value(d)] + Key(rest)
  {
    hide Value;
    RunUnique(d + rest, |d|);
    assert (d + rest)[..|d|] == d && (d + rest)[|d|..] == rest;
  }

  /** A string beginning with a digit is a number and a rest. */
  lemma SplitNumber(s: CString) returns (d: CString, rest: CString)
    requires s != [] && IsDigit(s[0])
    ensures s == d + rest && AllDigits(d) && d != [] && (rest != [] ==> !IsDigit(rest[0]))
  {
    d, rest := s[..DigitRun(s)], s[DigitRun(s)..];
    assert rest != [] ==> rest[0] == s[DigitRun(s)];
  }

  /** Strings with equal keys, one a proper prefix of the other: what follows is a digit. */
  lemma {:induction false} EqualKeysDigit(u: CString, v: CString)
    requires LexCmp(Key(u), Key(v)) == 0
    requires u < v
    ensures IsDigit(v[|u|])
    decreases |u|
  {
    hide Value, DigitRun, LexCmp;
    if u == [] {
      LexStep(Key(u), Key(v));
    } else if IsDigit(u[0]) {
      var d, rest := SplitNumber(u);
      var rest' := v[|d|..];
      assert v == d + rest' by { assert v[..|d|] == u[..|d|] == d; }
      assert rest < rest';
      if IsDigit(rest'[0]) {
        assert rest == [];
      } else {
        KeyNumber(d, rest);
        KeyNumber(d, rest');
        LexPrefix([0, Value(d)], Key(rest), Key(rest'));
        EqualKeysDigit(rest, rest');
      }
    } else {
      LexPrefix([Order(u[0])], Key(u[1..]), Key(v[1..]));
      assert u[1..] < v[1..];
      EqualKeysDigit(u[1..], v[1..]);
    }
  }

  /** Cutting falls on a dot, and a dot sorts below every digit: when the cut strings differ and
      only digits can follow the shorter one, the whole strings compare as the cut ones do. */
  lemma {:induction false} CutStrcmp(cx: CString, sx: CString, cy: CString, sy: CString)
    requires cx != cy
    requires (sx != [] ==> sx[0] == '.') && (sy != [] ==> sy[0] == '.')
    requires cx < cy ==> IsDigit(cy[|cx|])
    requires cy < cx ==> IsDigit(cx[|cy|])
    ensures Strcmp(cx + sx, cy + sy) == Strcmp(cx, cy)
  {
    if cx == [] {
      assert cx < cy && cx + sx == sx;
    } else if cy == [] {
      assert cy < cx && cy + sy == sy;
    } else if cx[0] == cy[0] {
      var tx, ty := cx[1..], cy[1..];
      assert cx == [cx[0]] + tx && cy == [cx[0]] + ty;
      assert (cx + sx)[1..] == tx + sx && (cy + sy)[1..] == ty + sy;
      CutStrcmp(tx, sx, ty, sy);
    }
  }

  /** The comparison as one lexicographic order: class, key of the cut string, cut string, key of
      the whole, whole. */
  function ByKeys(a: CString, b: CString): int {
    if Class(a) != Class(b) then Sign(Class(a) - Class(b))
    else if LexCmp(Key(Cut(a)), Key(Cut(b))) != 0 then LexCmp(Key(Cut(a)), Key(Cut(b)))
    else if Strcmp(Cut(a), Cut(b)) != 0 then Strcmp(Cut(a), Cut(b))
    else if LexCmp(Key(Body(a)), Key(Body(b))) != 0 then LexCmp(Key(Body(a)), Key(Body(b)))
    else Strcmp(a, b)
  }

  lemma LexSelf(k: seq<int>)
    ensures LexCmp(k, k) == 0
  {
    LexSwap(k, k);
  }

  lemma CompareIsByKeys(a: CString, b: CString)
    ensures Compare(a, b) == ByKeys(a, b)
  {
    StrcmpZero(Cut(a), Cut(b));
    StrcmpZero(a, b);
    LexSelf(Key(Cut(a)));
    LexSelf(Key(Body(a)));
    if Class(a) == Class(b) && Cut(a) != Cut(b) && LexCmp(Key(Cut(a)), Key(Cut(b))) == 0 {
      LexSwap(Key(Cut(a)), Key(Cut(b)));
      if Cut(a) < Cut(b) { EqualKeysDigit(Cut(a), Cut(b)); }
      if Cut(b) < Cut(a) { EqualKeysDigit(Cut(b), Cut(a)); }
      CutStrcmp(Cut(a), Suffix(a), Cut(b), Suffix(b));
      StrcmpBody(a, b);
    }
  }

  function Suffix(s: CString): CString {
    Body(s)[CutLen(Body(s))..]
  }

  lemma StrcmpBody(a: CString, b: CString)
    requires Class(a) == Class(b)
    ensures Strcmp(a, b) == Strcmp(Body(a), Body(b))
    ensures Body(a) == Cut(a) + Suffix(a) && Body(b) == Cut(b) + Suffix(b)
  {
  }

  /** Zero exactly for identical strings; swapping the arguments swaps the sign. */
  lemma CompareZeroAndSwap(a: CString, b: CString)
    ensures Compare(a, b) == 0 <==> a == b
    ensures Compare(b, a) == -Compare(a, b)
  {
    StrcmpZero(a, b);
    StrcmpSwap(a, b);
    LexSwap(Key(Cut(a)), Key(Cut(b)));
    LexSwap(Key(Body(a)), Key(Body(b)));
  }

  /** Comparing is transitive, in spite of suffixes that are sometimes cut and sometimes not,
      zeros that do not count, and the fall-back to `strcmp`. */
  lemma CompareTrans(a: CString, b: CString, c: CString)
    requires Compare(a, b) <= 0 && Compare(b, c) <= 0
    ensures Compare(a, c) <= 0
    ensures Compare(a, b) < 0 || Compare(b, c) < 0 ==> Compare(a, c) < 0
  {
    CompareIsByKeys(a, b);
    CompareIsByKeys(b, c);
    CompareIsByKeys(a, c);
    hide Compare, Key, Cut, Body, Class, LexCmp, Strcmp;
    if Class(a) == Class(b) == Class(c) {
      LexChain(Key(Cut(a)), Key(Cut(b)), Key(Cut(c)));
      StrcmpChain(Cut(a), Cut(b), Cut(c));
      LexChain(Key(Body(a)), Key(Body(b)), Key(Body(c)));
      StrcmpChain(a, b, c);
    }
  }

  lemma LexChain(a: seq<int>, b: seq<int>, c: seq<int>)
    ensures LexCmp(a, b) <= 0 && LexCmp(b, c) <= 0 ==>
              LexCmp(a, c) <= 0 && (LexCmp(a, b) < 0 || LexCmp(b, c) < 0 ==> LexCmp(a, c) < 0)
    ensures LexCmp(a, b) == 0 && LexCmp(b, c) == 0 ==> LexCmp(a, c) == 0
  {
    if LexCmp(a, b) <= 0 && LexCmp(b, c) <= 0 { LexTrans(a, b, c); }
    LexSwap(a, b);
    LexSwap(b, c);
    LexSwap(a, c);
    if LexCmp(a, b) == 0 && LexCmp(b, c) == 0 { LexTrans(c, b, a); }
  }

  lemma StrcmpChain(a: CString, b: CString, c: CString)
    ensures Strcmp(a, b) <= 0 && Strcmp(b, c) <= 0 ==>
              Strcmp(a, c) <= 0 && (Strcmp(a, b) < 0 || Strcmp(b, c) < 0 ==> Strcmp(a, c) < 0)
    ensures Strcmp(a, b) == 0 && Strcmp(b, c) == 0 ==> Strcmp(a, c) == 0
  {
    if Strcmp(a, b) <= 0 && Strcmp(b, c) <= 0 { StrcmpTrans(a, b, c); }
    StrcmpZero(a, b);
    StrcmpZero(b, c);
    StrcmpZero(a, c);
  }

  // ----- numbers decide -----

  /** Two strings that differ in one number compare as the numbers do. */
  lemma {:induction false} NumberDecides(p: CString, m: CString, n: CString, t: CString)
    requires AllDigits(m) && AllDigits(n) && m != [] && n != []
    requires p != [] ==> !IsDigit(p[|p| - 1])
    requires t != [] ==> !IsDigit(t[0])
    ensures LexCmp(Key(p + m + t), Key(p + n + t)) == Sign(Value(m) - Value(n))
    decreases |p|
  {
    hide Value, DigitRun, LexCmp;
    var x, y := p + m + t, p + n + t;
    if p == [] {
      assert x == m + t && y == n + t;
      KeyNumber(m, t);
      KeyNumber(n, t);
      LexStep(Key(x), Key(y));
      LexStep(Tail(Key(x)), Tail(Key(y)));
      LexSelf(Key(x));
    } else if IsDigit(p[0]) {
      var d, rest := SplitNumber(p);
      assert rest != [] by { assert d + [] == d; }
      assert p[|p| - 1] == rest[|rest| - 1];
      assert x == d + (rest + m + t) && y == d + (rest + n + t);
      KeyNumber(d, rest + m + t);
      KeyNumber(d, rest + n + t);
      LexPrefix([0, Value(d)], Key(rest + m + t), Key(rest + n + t));
      NumberDecides(rest, m, n, t);
    } else {
      assert x[1..] == p[1..] + m + t && y[1..] == p[1..] + n + t;
      LexPrefix([Order(p[0])], Key(x[1..]), Key(y[1..]));
      NumberDecides(p[1..], m, n, t);
    }
  }

  /** The scanner treats two numbers in the same place alike. */
  lemma {:induction false} ScanNumber(p: CString, m: CString)
    requires AllDigits(m) && m != []
    ensures ScanAll(p + m) == Scan(false, if ScanAll(p).readAlpha then -1 else ScanAll(p).start)
    decreases |m|
  {
    var last := m[..|m| - 1];
    assert (p + m)[..|p + m| - 1] == p + last;
    if |m| == 1 {
      assert p + last == p;
    } else {
      ScanNumber(p, last);
    }
  }

  /** Where the scanner's match lies in the strings `p + m + t` and `p + n + t`: in the common
      beginning, or at the same place of the common end. */
  lemma {:induction false} ScanAligned(p: CString, m: CString, n: CString, t: CString)
    requires AllDigits(m) && AllDigits(n) && m != [] && n != []
    ensures var a, b := ScanAll(p + m + t), ScanAll(p + n + t);
            && a.readAlpha == b.readAlpha
            && (|| (a.start == b.start < |p|)
                || (a.start >= |p| + |m| && a.start - |m| == b.start - |n|))
    decreases |t|
  {
    if t == [] {
      assert p + m + t == p + m && p + n + t == p + n;
      ScanNumber(p, m);
      ScanNumber(p, n);
      ScanStart(p);
    } else {
      var u := t[..|t| - 1];
      assert (p + m + t)[..|p + m + t| - 1] == p + m + u;
      assert (p + n + t)[..|p + n + t| - 1] == p + n + u;
      ScanAligned(p, m, n, u);
    }
  }

  /** The same for the cut strings: both are the whole, or both end in the common beginning, or
      both end at the same place of the common end. */
  lemma CutAligned(p: CString, m: CString, n: CString, t: CString)
    requires AllDigits(m) && AllDigits(n) && m != [] && n != []
    ensures var x, y := p + m + t, p + n + t;
            || x[..CutLen(x)] == y[..CutLen(y)]
            || exists k :: 0 <= k <= |t| && x[..CutLen(x)] == p + m + t[..k] && y[..CutLen(y)] == p + n + t[..k]
  {
    var x, y := p + m + t, p + n + t;
    ScanAligned(p, m, n, t);
    var a, b := ScanAll(x).start, ScanAll(y).start;
    ScanStart(x);
    ScanStart(y);
    if a == b && 0 <= a < |p| {
      assert x[..a] == y[..a];
    } else {
      var k := if a < 0 then |t| else a - |p| - |m|;
      assert x[..CutLen(x)] == p + m + t[..k];
      assert y[..CutLen(y)] == p + n + t[..k];
    }
  }

  /** Two names that differ in one whole number compare as the numbers do, wherever the scanner
      cuts, and by `strcmp` if these are equal. */
  lemma WholeNumbers(prefix: CString, m: CString, n: CString, suffix: CString)
    requires AllDigits(m) && AllDigits(n) && m != [] && n != []
    requires prefix != [] ==> !IsDigit(prefix[|prefix| - 1])
    requires suffix != [] ==> !IsDigit(suffix[0])
    ensures var a, b := prefix + m + suffix, prefix + n + suffix;
            Compare(a, b) == if Value(m) != Value(n) then Sign(Value(m) - Value(n)) else Strcmp(a, b)
  {
    hide Key, LexCmp, CutLen, Value, Class, Body, ScanAll, Strcmp;
    var a, b := prefix + m + suffix, prefix + n + suffix;
    StrcmpZero(a, b);
    NumberDecides(prefix, m, n, suffix);
    LexSelf(Key(a));
    NumberClass(prefix, m, suffix);
    NumberClass(prefix, n, suffix);
    var p := if Class(a) == 3 then prefix[1..] else prefix;
    assert Body(a) == p + m + suffix && Body(b) == p + n + suffix;
    NumberDecides(p, m, n, suffix);
    CutAligned(p, m, n, suffix);
    if Cut(a) != Cut(b) {
      var k :| 0 <= k <= |suffix| && Cut(a) == p + m + suffix[..k] && Cut(b) == p + n + suffix[..k];
      NumberDecides(p, m, n, suffix[..k]);
    }
  }

  /** The documented promise, for every prefix and suffix: what counts are the numbers as they read
      in the names, together with the digits `d` before and `e` behind them. */
  lemma NumbersInOrder(prefix: CString, d: CString, m: CString, n: CString, e: CString, suffix: CString)
    requires AllDigits(m) && AllDigits(n) && m != [] && n != []
    requires AllDigits(d) && (prefix != [] ==> !IsDigit(prefix[|prefix| - 1]))
    requires AllDigits(e) && (suffix != [] ==> !IsDigit(suffix[0]))
    ensures var a, b := (prefix + d) + m + (e + suffix), (prefix + d) + n + (e + suffix);
            var v, w := Value(d + m + e), Value(d + n + e);
            Compare(a, b) == if v != w then Sign(v - w) else Strcmp(a, b)
  {
    hide *;
    Regroup(prefix, d, m, e, suffix);
    Regroup(prefix, d, n, e, suffix);
    WholeNumbers(prefix, d + m + e, d + n + e, suffix);
  }

  lemma Regroup(prefix: CString, d: CString, m: CString, e: CString, suffix: CString)
    requires AllDigits(d) && AllDigits(m) && AllDigits(e) && m != []
    ensures (prefix + d) + m + (e + suffix) == prefix + (d + m + e) + suffix
    ensures AllDigits(d + m + e) && d + m + e != []
  {
  }

  /** So a smaller number makes a smaller name if no digits join it. */
  lemma SmallerIsSmaller(prefix: CString, m: CString, n: CString, suffix: CString)
    requires AllDigits(m) && AllDigits(n) && m != [] && n != [] && Value(m) < Value(n)
    requires prefix != [] ==> !IsDigit(prefix[|prefix| - 1])
    requires suffix != [] ==> !IsDigit(suffix[0])
    ensures Compare(prefix + m + suffix, prefix + n + suffix) < 0
  {
    WholeNumbers(prefix, m, n, suffix);
  }

  /** If digits do, it need not: after `1`, the number `002` sorts behind `3`. */
  lemma JoinedNotInOrder()
    ensures Value("002") < Value("3") && Compare("1" + "002", "1" + "3") > 0
  {
    hide Compare, Value, Strcmp;
    SmallValues();
    assert "1" + "002" == [] + "1002" + [] && "1" + "3" == [] + "13" + [];
    WholeNumbers([], "1002", "13", []);
  }

  lemma SmallValues()
    ensures Value("002") == 2 && Value("3") == 3 && Value("1002") == 1002 && Value("13") == 13
  {
    assert "002"[..2] == "00" && "00"[..1] == "0" && "0"[..0] == "";
    assert "3"[..0] == "" && "1"[..0] == "" && "13"[..1] == "1";
    assert "1002"[..3] == "100" && "100"[..2] == "10" && "10"[..1] == "1";
  }

  lemma NumberClass(p: CString, m: CString, t: CString)
    requires AllDigits(m) && m != []
    ensures Class(p + m + t) == if p != [] && p[0] == '.' then 3 else 4
    ensures Body(p + m + t) == (if p != [] && p[0] == '.' then p[1..] else p) + m + t
  {
    var a := p + m + t;
    assert a[|p|] == m[0];
    assert m[0] != '.';
  }

  // ----- the loops -----

  /** The suffix scanner: where the suffix begins (-1: nowhere) and where the string ends. */
  method MatchSuffix(s: CString) returns (start: int, end: nat)
    ensures end == |s|
    ensures start == ScanAll(s).start
  {
    start := -1;
    var readAlpha := false;
    var i := 0;
    while i < |s|
      invariant 0 <= i <= |s|
      invariant ScanAll(s[..i]) == Scan(readAlpha, start)
    {
      assert s[..i + 1][..i] == s[..i];
      if readAlpha {
        readAlpha := false;
        if !IsAlpha(s[i]) && '~' != s[i] {
          start := -1;
        }
      } else if '.' == s[i] {
        readAlpha := true;
        if start < 0 {
          start := i;
        }
      } else if !IsAlnum(s[i]) && '~' != s[i] {
        start := -1;
      }
      i := i + 1;
    }
    assert s[..i] == s;
    end := i;
  }

  lemma KeyHead(s: CString)
    ensures Head(Key(s)) == if s == [] then 0 else Order(s[0])
    ensures s != [] && !IsDigit(s[0]) ==> Tail(Key(s)) == Key(s[1..])
  {
  }

  function NumVal(s: CString): nat {
    Value(s[..DigitRun(s)])
  }

  /** Where both strings have a number or end, the numbers are compared first. */
  lemma NumbersFirst(x: CString, y: CString)
    requires (x != [] ==> IsDigit(x[0])) && (y != [] ==> IsDigit(y[0]))
    ensures LexCmp(Key(x), Key(y)) ==
            if NumVal(x) != NumVal(y) then Sign(NumVal(x) - NumVal(y))
            else LexCmp(Key(x[DigitRun(x)..]), Key(y[DigitRun(y)..]))
  {
    hide Value, DigitRun;
    KeyAtNumber(x);
    KeyAtNumber(y);
    LexStep(Key(x), Key(y));
    LexStep(Tail(Key(x)), Tail(Key(y)));
  }

  lemma KeyAtNumber(x: CString)
    requires x != [] ==> IsDigit(x[0])
    ensures Head(Key(x)) == 0 && Head(Tail(Key(x))) == NumVal(x)
    ensures Tail(Tail(Key(x))) == Key(x[DigitRun(x)..])
  {
    if x != [] {
      var d, rest := SplitNumber(x);
      KeyNumber(d, rest);
      RunUnique(x, |d|);
      assert x[..|d|] == d && x[|d|..] == rest;
    }
  }

  lemma Pow10Monotone(m: nat, n: nat)
    requires m <= n
    ensures Pow10(m) <= Pow10(n)
  {
  }

  /** After `zx` and `zy` leading zeros, `x` has more than `n` further digits and `y` just `n`. */
  lemma LongerIsGreater(x: CString, zx: nat, y: CString, zy: nat, n: nat)
    requires zx + n < DigitRun(x) && zy + n == DigitRun(y)
    requires (forall i :: 0 <= i < zx ==> x[i] == '0') && x[zx] != '0'
    requires forall i :: 0 <= i < zy ==> y[i] == '0'
    ensures NumVal(x) > NumVal(y)
  {
    hide Value, DigitRun, Pow10;
    var dx, dy := x[..DigitRun(x)], y[..DigitRun(y)];
    ValueZeros(dx, zx);
    ValueZeros(dy, zy);
    ValueLower(dx[zx..]);
    ValueBound(dy[zy..]);
    Pow10Monotone(n, |dx[zx..]| - 1);
  }

  lemma ValueEmpty(d: CString)
    requires d == []
    ensures Value(d) == 0
  {
  }

  lemma ValueSnoc(s: CString, i: nat, j: nat)
    requires i <= j < |s| && AllDigits(s[i..j]) && IsDigit(s[j])
    ensures AllDigits(s[i..j + 1])
    ensures Value(s[i..j + 1]) == 10 * Value(s[i..j]) + DigitValue(s[j])
  {
    assert s[i..j + 1][..j - i] == s[i..j];
  }

  /** A place where a name may be cut: at its end or at a dot. */
  predicate CutPoint(s: CString, n: nat) {
    n <= |s| && (n < |s| ==> s[n] == '.')
  }

  /** Skip zeros; a cut point stops the loop because it holds no zero. */
  method SkipZeros(s: CString, len: nat, pos: nat) returns (z: nat)
    requires CutPoint(s, len) && pos <= len
    ensures pos <= z <= len
    ensures forall i :: pos <= i < z ==> s[i] == '0'
    ensures At(s, z) != '0'
  {
    z := pos;
    while At(s, z) == '0'
      invariant pos <= z <= len
      invariant forall i :: pos <= i < z ==> s[i] == '0'
      decreases len - z
    {
      z := z + 1;
    }
  }

  /** Walk over two numbers in step, remembering the first difference. */
  method CompareDigits(s1: CString, len1: nat, z1: nat, s2: CString, len2: nat, z2: nat)
    returns (n: nat, firstDiff: int)
    requires CutPoint(s1, len1) && z1 <= len1 && CutPoint(s2, len2) && z2 <= len2
    ensures z1 + n <= len1 && AllDigits(s1[z1..z1 + n])
    ensures z2 + n <= len2 && AllDigits(s2[z2..z2 + n])
    ensures !IsDigit(At(s1, z1 + n)) || !IsDigit(At(s2, z2 + n))
    ensures Sign(firstDiff) == Sign(Value(s1[z1..z1 + n]) - Value(s2[z2..z2 + n]))
  {
    hide Value;
    n, firstDiff := 0, 0;
    ValueEmpty(s1[z1..z1]);
    ValueEmpty(s2[z2..z2]);
    while IsDigit(At(s1, z1 + n)) && IsDigit(At(s2, z2 + n))
      invariant z1 + n <= len1 && AllDigits(s1[z1..z1 + n])
      invariant z2 + n <= len2 && AllDigits(s2[z2..z2 + n])
      invariant Sign(firstDiff) == Sign(Value(s1[z1..z1 + n]) - Value(s2[z2..z2 + n]))
      decreases len1 - n
    {
      ValueSnoc(s1, z1, z1 + n);
      ValueSnoc(s2, z2, z2 + n);
      if firstDiff == 0 {
        firstDiff := s1[z1 + n] as int - s2[z2 + n] as int;
      }
      n := n + 1;
    }
  }

  /** The words at `pos1` and `pos2`: either they differ, or both are passed over. */
  method CompareWords(s1: CString, len1: nat, pos1: nat, s2: CString, len2: nat, pos2: nat)
    returns (r: int, end1: nat, end2: nat)
    requires pos1 <= len1 <= |s1| && pos2 <= len2 <= |s2|
    ensures pos1 <= end1 <= len1 && pos2 <= end2 <= len2
    ensures r != 0 ==> Sign(r) == LexCmp(Key(s1[..len1][pos1..]), Key(s2[..len2][pos2..]))
    ensures r == 0 ==> LexCmp(Key(s1[..len1][pos1..]), Key(s2[..len2][pos2..])) ==
                       LexCmp(Key(s1[..len1][end1..]), Key(s2[..len2][end2..]))
    ensures r == 0 ==> (end1 < len1 ==> IsDigit(s1[end1])) && (end2 < len2 ==> IsDigit(s2[end2]))
  {
    hide Key, LexCmp;
    end1, end2 := pos1, pos2;
    ghost var a, b := s1[..len1], s2[..len2];
    while (end1 < len1 && !IsDigit(s1[end1])) || (end2 < len2 && !IsDigit(s2[end2]))
      invariant pos1 <= end1 <= len1 && pos2 <= end2 <= len2
      invariant LexCmp(Key(a[pos1..]), Key(b[pos2..])) == LexCmp(Key(a[end1..]), Key(b[end2..]))
      decreases len1 - end1
    {
      var c1 := if end1 == len1 then 0 else Order(s1[end1]);
      var c2 := if end2 == len2 then 0 else Order(s2[end2]);
      KeyHead(a[end1..]);
      KeyHead(b[end2..]);
      LexStep(Key(a[end1..]), Key(b[end2..]));
      if c1 != c2 {
        r := c1 - c2;
        return;
      }
      assert a[end1..][1..] == a[end1 + 1..] && b[end2..][1..] == b[end2 + 1..];
      end1 := end1 + 1;
      end2 := end2 + 1;
    }
    r := 0;
  }

  /** The numbers at `pos1` and `pos2`: either they differ, or both are passed over. */
  method CompareNumbers(s1: CString, len1: nat, pos1: nat, s2: CString, len2: nat, pos2: nat)
    returns (r: int, end1: nat, end2: nat)
    requires CutPoint(s1, len1) && pos1 <= len1 && CutPoint(s2, len2) && pos2 <= len2
    requires (pos1 < len1 ==> IsDigit(s1[pos1])) && (pos2 < len2 ==> IsDigit(s2[pos2]))
    ensures pos1 <= end1 <= len1 && pos2 <= end2 <= len2
    ensures r != 0 ==> Sign(r) == LexCmp(Key(s1[..len1][pos1..]), Key(s2[..len2][pos2..]))
    ensures r == 0 ==> LexCmp(Key(s1[..len1][pos1..]), Key(s2[..len2][pos2..])) ==
                       LexCmp(Key(s1[..len1][end1..]), Key(s2[..len2][end2..]))
    ensures r == 0 ==> (pos1 < len1 ==> pos1 < end1) && (pos2 < len2 ==> pos2 < end2)
  {
    hide Key, LexCmp, DigitRun, Value, NumVal, AllDigits;
    ghost var x, y := s1[..len1][pos1..], s2[..len2][pos2..];
    var z1 := SkipZeros(s1, len1, pos1);
    var z2 := SkipZeros(s2, len2, pos2);
    var n, firstDiff := CompareDigits(s1, len1, z1, s2, len2, z2);
    end1, end2 := z1 + n, z2 + n;
    NumbersFirst(x, y);
    if IsDigit(At(s1, end1)) {
      LongerNumber(s1, len1, pos1, z1, s2, len2, pos2, z2, n);
      r := 1;
      return;
    }
    if IsDigit(At(s2, end2)) {
      LongerNumber(s2, len2, pos2, z2, s1, len1, pos1, z1, n);
      r := -1;
      return;
    }
    WholeNumber(s1, len1, pos1, z1, n);
    WholeNumber(s2, len2, pos2, z2, n);
    r := firstDiff;
  }

  lemma LongerNumber(s1: CString, len1: nat, pos1: nat, z1: nat, s2: CString, len2: nat, pos2: nat, z2: nat, n: nat)
    requires CutPoint(s1, len1) && pos1 <= z1 && z1 + n <= len1
    requires CutPoint(s2, len2) && pos2 <= z2 && z2 + n <= len2
    requires (forall i :: pos1 <= i < z1 ==> s1[i] == '0') && At(s1, z1) != '0'
    requires forall i :: pos2 <= i < z2 ==> s2[i] == '0'
    requires AllDigits(s1[z1..z1 + n]) && AllDigits(s2[z2..z2 + n])
    requires IsDigit(At(s1, z1 + n)) && !IsDigit(At(s2, z2 + n))
    ensures NumVal(s1[..len1][pos1..]) > NumVal(s2[..len2][pos2..])
  {
    hide NumVal, Value, DigitRun;
    RunReaches(s1, len1, pos1, z1, n);
    RunReaches(s2, len2, pos2, z2, n);
    LongerIsGreater(s1[..len1][pos1..], z1 - pos1, s2[..len2][pos2..], z2 - pos2, n);
  }

  lemma WholeNumber(s: CString, len: nat, pos: nat, z: nat, n: nat)
    requires CutPoint(s, len) && pos <= z && z + n <= len
    requires forall i :: pos <= i < z ==> s[i] == '0'
    requires AllDigits(s[z..z + n]) && !IsDigit(At(s, z + n))
    ensures NumVal(s[..len][pos..]) == Value(s[z..z + n])
    ensures s[..len][pos..][DigitRun(s[..len][pos..])..] == s[..len][z + n..]
  {
    hide DigitRun;
    var x := s[..len][pos..];
    RunReaches(s, len, pos, z, n);
    SameSlice(s, len, pos, z, n);
    assert x[..z + n - pos][z - pos..] == s[z..z + n];
    ValueZeros(x[..z + n - pos], z - pos);
  }

  /** `verrevcmp` on the first `len1` bytes of `s1` and the first `len2` of `s2`; like the original
      it looks at the byte after those, which is why they must end at a cut point. */
  method VerRevCmp(s1: CString, len1: nat, s2: CString, len2: nat) returns (r: int)
    requires CutPoint(s1, len1) && CutPoint(s2, len2)
    ensures Sign(r) == LexCmp(Key(s1[..len1]), Key(s2[..len2]))
  {
    hide Key, LexCmp;
    var pos1: nat, pos2: nat := 0, 0;
    ghost var a, b := s1[..len1], s2[..len2];
    assert a[0..] == a && b[0..] == b;
    while pos1 < len1 || pos2 < len2
      invariant pos1 <= len1 && pos2 <= len2
      invariant LexCmp(Key(a), Key(b)) == LexCmp(Key(a[pos1..]), Key(b[pos2..]))
      decreases len1 - pos1 + len2 - pos2
    {
      var end1, end2;
      r, end1, end2 := CompareWords(s1, len1, pos1, s2, len2, pos2);
      if r != 0 {
        return;
      }
      r, pos1, pos2 := CompareNumbers(s1, len1, end1, s2, len2, end2);
      if r != 0 {
        return;
      }
    }
    assert a[pos1..] == b[pos2..] == [];
    LexSelf(Key(a[pos1..]));
    return 0;
  }

  /** The digits counted lie in the number at `pos`; they are all of it if no digit follows. */
  lemma RunReaches(s: CString, len: nat, pos: nat, z: nat, n: nat)
    requires CutPoint(s, len) && pos <= z && z + n <= len
    requires forall i :: pos <= i < z ==> s[i] == '0'
    requires AllDigits(s[z..z + n])
    ensures var run := DigitRun(s[..len][pos..]);
            if IsDigit(At(s, z + n)) then z + n - pos < run else z + n - pos == run
  {
    var x := s[..len][pos..];
    forall i | 0 <= i < z + n - pos ensures IsDigit(x[i]) {
      assert x[i] == s[pos + i];
      if pos + i >= z { assert s[pos + i] == s[z..z + n][pos + i - z]; }
    }
    if IsDigit(At(s, z + n)) {
      RunAtLeast(x, z + n - pos + 1);
    } else {
      RunUnique(x, z + n - pos);
    }
  }

  lemma SameSlice(s: CString, len: nat, pos: nat, z: nat, n: nat)
    requires pos <= z && z + n <= len <= |s|
    ensures s[..len][pos..][z - pos..z - pos + n] == s[z..z + n]
  {
    var t := s[..len][pos..];
    assert forall i :: 0 <= i < |t| ==> t[i] == s[pos + i];
  }

  lemma RunAtLeast(s: CString, n: nat)
    requires n <= |s| && forall i :: 0 <= i < n ==> IsDigit(s[i])
    ensures n <= DigitRun(s)
  {
  }

  /** `filevercmp`: its result has the sign the comparison defines. */
  method FileVerCmp(s1: CString, s2: CString) returns (r: int)
    ensures Sign(r) == Compare(s1, s2)
  {
    hide Key, LexCmp, Strcmp, ScanAll;
    StrcmpZero(s1, s2);
    StrcmpSwap(s1, s2);
    var simpleCmp := Strcmp(s1, s2);
    if simpleCmp == 0 {
      return 0;
    }
    if s1 == [] {
      return -1;
    }
    if s2 == [] {
      return 1;
    }
    if s1 == ['.'] {
      return -1;
    }
    if s2 == ['.'] {
      return 1;
    }
    if s1 == ['.', '.'] {
      return -1;
    }
    if s2 == ['.', '.'] {
      return 1;
    }
    if s1[0] == '.' && s2[0] != '.' {
      return -1;
    }
    if s1[0] != '.' && s2[0] == '.' {
      return 1;
    }
    var b1, b2 := s1, s2;
    if s1[0] == '.' && s2[0] == '.' {
      b1, b2 := s1[1..], s2[1..];
    }
    assert b1 == Body(s1) && b2 == Body(s2);
    var suffix1, end1 := MatchSuffix(b1);
    var suffix2, end2 := MatchSuffix(b2);
    ScanStart(b1);
    ScanStart(b2);
    var len1: nat := if suffix1 >= 0 then suffix1 else end1;
    var len2: nat := if suffix2 >= 0 then suffix2 else end2;
    assert len1 == CutLen(b1) && len2 == CutLen(b2);
    if (suffix1 >= 0 || suffix2 >= 0) && len1 == len2 && b1[..len1] == b2[..len1] {
      len1 := end1;
      len2 := end2;
    }
    var result := VerRevCmp(b1, len1, b2, len2);
    assert b1[..end1] == b1 && b2[..end2] == b2;
    return if result == 0 then simpleCmp else result;
  }
}
