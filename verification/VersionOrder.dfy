/** The order of names character by character, as the documentation of version comparison has it:
    `~` before everything, even the end; then the end, and numbers; then letters; then the rest. */
module VersionOrder {
  import opened CStrings
  import opened VersionCompare

  // ----- which character comes first -----

  /** `a` comes before `b` where neither joins a number. */
  predicate Before(a: CChar, b: CChar) {
    || (a == '~' && b != '~')
    || (IsDigit(a) && !IsDigit(b) && b != '~')
    || (IsAlpha(a) && IsAlpha(b) && a < b)
    || (IsAlpha(a) && Other(b))
    || (Other(a) && Other(b) && a < b)
  }

  predicate Other(c: CChar) {
    !IsDigit(c) && !IsAlpha(c) && c != '~'
  }

  /** Any two characters other than digits are in this order, one way or the other. */
  lemma BeforeIsTotal(a: CChar, b: CChar)
    requires a != b && !(IsDigit(a) && IsDigit(b))
    ensures Before(a, b) <==> !Before(b, a)
  {
  }

  /** No number of `p` goes on in `s`. */
  predicate Apart(p: CString, s: CString) {
    p != [] && s != [] ==> !(IsDigit(p[|p| - 1]) && IsDigit(s[0]))
  }

  lemma KeyOther(s: CString)
    requires s != [] && !IsDigit(s[0])
    ensures Key(s) == [Order(s[0])] + Key(s[1..])
  {
  }

  lemma KeyNone()
    ensures Key([]) == [] && Head([]) == 0
  {
  }

  lemma {:induction false} KeySplit(p: CString, s: CString)
    requires Apart(p, s)
    ensures Key(p + s) == Key(p) + Key(s)
    decreases |p|
  {
    hide Key, Value, DigitRun;
    if p == [] {
      KeyNone();
      assert p + s == s && [] + Key(s) == Key(s);
    } else if IsDigit(p[0]) {
      var d, rest := SplitNumber(p);
      NumberSplit(d, rest, s);
      KeySplit(rest, s);
      assert [0, Value(d)] + (Key(rest) + Key(s)) == ([0, Value(d)] + Key(rest)) + Key(s);
    } else {
      KeyOther(p);
      KeyOther(p + s);
      assert (p + s)[1..] == p[1..] + s;
      KeySplit(p[1..], s);
      assert [Order(p[0])] + (Key(p[1..]) + Key(s)) == ([Order(p[0])] + Key(p[1..])) + Key(s);
    }
  }

  lemma NumberSplit(d: CString, rest: CString, s: CString)
    requires AllDigits(d) && d != [] && (rest != [] ==> !IsDigit(rest[0]))
    requires Apart(d + rest, s)
    ensures Apart(rest, s)
    ensures Key(d + rest) == [0, Value(d)] + Key(rest)
    ensures Key((d + rest) + s) == [0, Value(d)] + Key(rest + s)
  {
    hide Key, Value;
    assert (d + rest) + s == d + (rest + s);
    assert (d + rest)[|d + rest| - 1] == if rest == [] then d[|d| - 1] else rest[|rest| - 1];
    KeyNumber(d, rest + s);
    KeyNumber(d, rest);
  }

  /** Behind a common beginning only what follows counts. */
  lemma Behind(p: CString, s: CString, t: CString)
    requires Apart(p, s) && Apart(p, t)
    ensures LexCmp(Key(p + s), Key(p + t)) == LexCmp(Key(s), Key(t))
  {
    hide Key, LexCmp;
    KeySplit(p, s);
    KeySplit(p, t);
    LexPrefix(Key(p), Key(s), Key(t));
  }

  lemma FirstOfKey(s: CString)
    requires s != []
    ensures Key(s) != [] && Head(Key(s)) == if IsDigit(s[0]) then 0 else Order(s[0])
  {
  }

  /** Strings that differ first in two characters, behind any common beginning. */
  lemma CharsInOrder(p: CString, a: CChar, x: CString, b: CChar, y: CString)
    requires Before(a, b)
    requires p != [] && IsDigit(p[|p| - 1]) ==> !IsDigit(a) && !IsDigit(b)
    ensures LexCmp(Key(p + [a] + x), Key(p + [b] + y)) < 0
  {
    hide Key, LexCmp;
    var s, t := [a] + x, [b] + y;
    assert p + [a] + x == p + s && p + [b] + y == p + t;
    Behind(p, s, t);
    FirstOfKey(s);
    FirstOfKey(t);
    LexStep(Key(s), Key(t));
  }

  /** `~` sorts even before the end. */
  lemma TildeBeforeEnd(p: CString, x: CString)
    ensures LexCmp(Key(p + ['~'] + x), Key(p)) < 0
  {
    hide Key, LexCmp;
    var s := ['~'] + x;
    assert p + ['~'] + x == p + s && p + [] == p;
    Behind(p, s, []);
    FirstOfKey(s);
    KeyNone();
    LexStep(Key(s), Key([]));
  }

  /** The end sorts before every character but `~`; a number may be equal to no number. */
  lemma EndBeforeOthers(p: CString, c: CChar, y: CString)
    requires c != '~' && !IsDigit(c)
    ensures LexCmp(Key(p), Key(p + [c] + y)) < 0
  {
    hide Key, LexCmp;
    var t := [c] + y;
    assert p + [c] + y == p + t && p + [] == p;
    Behind(p, [], t);
    FirstOfKey(t);
    KeyNone();
    LexStep(Key([]), Key(t));
  }

  /** Where a digit goes on a number and `~` ends it, the numbers are compared first: only if they
      are equal, all zeros, does it matter what comes behind. */
  lemma TildeInNumber(q: CString, d: CString, x: CString, e: CString, rest: CString)
    requires AllDigits(d) && d != [] && (q != [] ==> !IsDigit(q[|q| - 1]))
    requires AllDigits(e) && e != [] && (rest != [] ==> !IsDigit(rest[0]))
    ensures LexCmp(Key(q + d + (['~'] + x)), Key(q + d + (e + rest))) ==
            if Value(d) != Value(d + e) then Sign(Value(d) - Value(d + e)) else LexCmp(Key(['~'] + x), Key(rest))
  {
    hide *;
    var s := ['~'] + x;
    Regrouped(q, d, s, e, rest);
    TildeIsNoDigit(x);
    Behind(q, d + s, (d + e) + rest);
    LeadingNumbers(d, s, d + e, rest);
  }

  lemma TildeIsNoDigit(x: CString)
    ensures ['~'] + x != [] && !IsDigit((['~'] + x)[0])
  {
  }

  lemma Regrouped(q: CString, d: CString, s: CString, e: CString, rest: CString)
    requires AllDigits(d) && d != [] && AllDigits(e) && (q != [] ==> !IsDigit(q[|q| - 1]))
    ensures q + d + s == q + (d + s) && q + d + (e + rest) == q + ((d + e) + rest)
    ensures AllDigits(d + e) && d + e != []
    ensures Apart(q, d + s) && Apart(q, (d + e) + rest)
  {
  }

  lemma LeadingNumbers(d: CString, s: CString, e: CString, t: CString)
    requires AllDigits(d) && d != [] && AllDigits(e) && e != []
    requires (s != [] ==> !IsDigit(s[0])) && (t != [] ==> !IsDigit(t[0]))
    ensures LexCmp(Key(d + s), Key(e + t)) ==
            if Value(d) != Value(e) then Sign(Value(d) - Value(e)) else LexCmp(Key(s), Key(t))
  {
    hide Key, LexCmp, Value;
    KeyNumber(d, s);
    KeyNumber(e, t);
    var k, l := Key(d + s), Key(e + t);
    LexStep(k, l);
    LexStep(Tail(k), Tail(l));
  }

  /** So a digit need not sort behind `~`: `00~a` is before `0~b`. */
  lemma ZerosBeforeTilde()
    ensures LexCmp(Key("00~a"), Key("0~b")) < 0
  {
    hide Key, LexCmp, Value;
    assert "0~b" == [] + "0" + (['~'] + "b") && "00~a" == [] + "0" + ("0" + "~a");
    TildeInNumber([], "0", "b", "0", "~a");
    ZeroValues();
    CharsInOrder("~", 'a', [], 'b', []);
    assert "~" + ['a'] + [] == "~a" && "~" + ['b'] + [] == ['~'] + "b";
    LexSwap(Key("0~b"), Key("00~a"));
    LexSwap(Key(['~'] + "b"), Key("~a"));
  }

  lemma ZeroValues()
    ensures Value("0") == 0 && Value("0" + "0") == 0
  {
    assert ("0" + "0")[..1] == "0" && "0"[..0] == "";
  }

  // ----- names -----

  /** A name of the common kind from which no suffix is cut. */
  predicate Uncut(s: CString) {
    s != [] && s[0] != '.' && CutLen(s) == |s|
  }

  /** Names without a dot are of this kind. */
  lemma DotlessUncut(s: CString)
    requires s != [] && '.' !in s
    ensures Uncut(s)
  {
  }

  lemma UncutCompare(a: CString, b: CString)
    requires Uncut(a) && Uncut(b) && LexCmp(Key(a), Key(b)) != 0
    ensures Compare(a, b) == LexCmp(Key(a), Key(b))
  {
    hide Key, LexCmp, CutLen;
    LexSelf(Key(a));
    assert a[..|a|] == a && b[..|b|] == b;
  }

  /** The same for the comparison of names. */
  lemma NamesInOrder(p: CString, a: CChar, x: CString, b: CChar, y: CString)
    requires Uncut(p + [a] + x) && Uncut(p + [b] + y) && Before(a, b)
    requires p != [] && IsDigit(p[|p| - 1]) ==> !IsDigit(a) && !IsDigit(b)
    ensures Compare(p + [a] + x, p + [b] + y) < 0
  {
    hide Compare, Key, LexCmp, Uncut;
    CharsInOrder(p, a, x, b, y);
    UncutCompare(p + [a] + x, p + [b] + y);
  }

  lemma TildeNames(p: CString, x: CString)
    requires Uncut(p) && Uncut(p + ['~'] + x)
    ensures Compare(p + ['~'] + x, p) < 0
  {
    hide Compare, Key, LexCmp, Uncut;
    TildeBeforeEnd(p, x);
    UncutCompare(p + ['~'] + x, p);
  }

  lemma LongerNames(p: CString, c: CChar, y: CString)
    requires Uncut(p) && Uncut(p + [c] + y) && c != '~' && !IsDigit(c)
    ensures Compare(p, p + [c] + y) < 0
  {
    hide Compare, Key, LexCmp, Uncut;
    EndBeforeOthers(p, c, y);
    UncutCompare(p, p + [c] + y);
  }

  /** The empty name comes first, then `.`, then `..`, then the other hidden names, then the rest. */
  lemma SpecialNames(a: CString)
    ensures a != [] ==> Compare([], a) < 0
    ensures a != [] && a != ['.'] ==> Compare(['.'], a) < 0
    ensures a !in {[], ['.'], ['.', '.']} ==> Compare(['.', '.'], a) < 0
    ensures forall h: CString :: h != [] && h[0] == '.' && a != [] && a[0] != '.' ==> Compare(h, a) < 0
  {
    hide Key, LexCmp, Cut, Body;
  }
}
