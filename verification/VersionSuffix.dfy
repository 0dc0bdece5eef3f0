/** What the suffix scanner matches, against the pattern its comment gives: dots each followed by a
    letter or `~`, then letters, digits and `~`, up to the end. */
module VersionSuffix {
  import opened CStrings
  import opened VersionCompare

  predicate Opens(c: char) {
    IsAlpha(c) || c == '~'
  }

  /** Nothing from `i` on breaks the pattern so far; a dot at the end may still get its letter. */
  predicate Alive(s: CString, i: nat) {
    forall j :: i <= j < |s| ==> CharFits(s, j)
  }

  predicate CharFits(s: CString, j: nat)
    requires j < |s|
  {
    if s[j] == '.' then j + 1 < |s| ==> Opens(s[j + 1]) else IsAlnum(s[j]) || s[j] == '~'
  }

  /** The documented pattern matches from `i` to the end. */
  predicate Matches(s: CString, i: nat) {
    i == |s| || (i < |s| && s[i] == '.' && Alive(s, i) && s[|s| - 1] != '.')
  }

  /** Length of the run of dots at the end. */
  function Dots(s: CString): nat {
    if s == [] || s[|s| - 1] != '.' then 0 else 1 + Dots(s[..|s| - 1])
  }

  /** A dot the scanner takes for the beginning of a suffix: every other one of a run. */
  predicate Begins(s: CString, i: nat) {
    i < |s| && s[i] == '.' && Dots(s[..i + 1]) % 2 == 1
  }

  lemma DotsStep(s: CString)
    requires s != []
    ensures Dots(s) == if s[|s| - 1] == '.' then 1 + Dots(s[..|s| - 1]) else 0
  {
  }

  lemma BeginsBefore(s: CString, i: nat)
    requires i < |s| - 1
    ensures Begins(s, i) <==> Begins(s[..|s| - 1], i)
  {
    assert s[..|s| - 1][..i + 1] == s[..i + 1];
  }

  lemma AliveBefore(s: CString, i: nat)
    requires i < |s| - 1
    ensures Alive(s, i) <==> Alive(s[..|s| - 1], i) && CharFits(s, |s| - 1) && CharFits(s, |s| - 2)
  {
    var init := s[..|s| - 1];
    assert forall j :: 0 <= j < |init| - 1 ==> (CharFits(s, j) <==> CharFits(init, j));
    if Alive(s, i) {
      assert CharFits(s, |s| - 1) && CharFits(s, |s| - 2);
      assert forall j :: i <= j < |init| - 1 ==> CharFits(s, j);
    }
  }

  /** The scanner's match is the first beginning from which nothing has broken the pattern. */
  ghost predicate ScanInv(s: CString) {
    var st := ScanAll(s);
    && (st.readAlpha <==> Dots(s) % 2 == 1)
    && (st.start >= 0 ==> Begins(s, st.start) && Alive(s, st.start))
    && forall i :: 0 <= i < |s| && Begins(s, i) && (st.start < 0 || i < st.start) ==> !Alive(s, i)
  }

  /** A run that began at an odd dot ends with one: if it ends in a dot, the scanner knows. */
  lemma AliveParity(s: CString, i: nat)
    requires Begins(s, i) && Alive(s, i) && s[|s| - 1] == '.'
    ensures Dots(s) % 2 == 1
  {
    hide Dots;
    DotsStep(s);
    if i < |s| - 1 {
      assert CharFits(s, |s| - 2);
      DotsStep(s[..|s| - 1]);
    } else {
      assert s[..i + 1] == s;
    }
  }

  lemma {:induction false} ScanFinds(s: CString)
    ensures ScanInv(s)
    decreases |s|
  {
    hide Opens;
    if s != [] {
      var init := s[..|s| - 1];
      ScanFinds(init);
      ScanFindsStep(s, init);
    }
  }

  lemma ScanFindsStep(s: CString, init: CString)
    requires s != [] && init == s[..|s| - 1] && ScanInv(init)
    ensures ScanInv(s)
  {
    hide Dots, Alive;
    var st, st' := ScanAll(init), ScanAll(s);
    DotsStep(s);
    assert st' == ScanStep(s[|s| - 1], |s| - 1, st);
    assert s[..|s|] == s;
    forall i | 0 <= i < |init| ensures Begins(s, i) <==> Begins(init, i) {
      BeginsBefore(s, i);
    }
    forall i | 0 <= i < |init| && Begins(init, i)
      ensures Alive(s, i) <==> Alive(init, i) && Follows(s[|s| - 1], st.readAlpha)
    {
      AliveBefore(s, i);
      LastDot(s, init, i);
    }
    LastAlive(s);
  }

  /** The next character keeps a match going. */
  predicate Follows(c: char, readAlpha: bool) {
    if readAlpha then Opens(c) else c == '.' || IsAlnum(c) || c == '~'
  }

  lemma LastDot(s: CString, init: CString, i: nat)
    requires s != [] && init == s[..|s| - 1] && i < |init| && Begins(init, i)
    ensures Alive(init, i) ==>
      (CharFits(s, |s| - 1) && CharFits(s, |s| - 2) <==> Follows(s[|s| - 1], Dots(init) % 2 == 1))
  {
    DotsStep(init);
    if Alive(init, i) {
      assert CharFits(init, |init| - 1);
      if init[|init| - 1] == '.' { AliveParity(init, i); }
    }
  }

  lemma LastAlive(s: CString)
    requires s != []
    ensures s[|s| - 1] == '.' ==> Alive(s, |s| - 1)
  {
  }

  /** The scanner cuts where the documented pattern says, at the earliest place it matches, exactly
      when the string does not end in an odd run of dots and no even run of dots leads up to the
      suffix. */
  lemma AsDocumented(s: CString, r: nat)
    requires Matches(s, r) && forall i :: 0 <= i < r ==> !Matches(s, i)
    ensures CutLen(s) == r <==> Dots(s) % 2 == 0 && (r < |s| ==> Dots(s[..r + 1]) % 2 == 1)
  {
    hide Alive, Dots;
    ScanFinds(s);
    if s != [] { DotsStep(s); }
    var start := ScanAll(s).start;
    if start >= 0 {
      assert Begins(s, start);
      if s[|s| - 1] == '.' {
        AliveParity(s, start);
      } else {
        assert Matches(s, start);
      }
    }
  }

  /** Two strings for which the scanner and the documented pattern differ. */
  lemma NotAsDocumented()
    ensures CutLen("a.") == 1 && Matches("a.", 2) && !Matches("a.", 1)
    ensures CutLen("a..b") == 4 && Matches("a..b", 2)
  {
    assert "a."[..1] == "a" && "a"[..0] == "";
    assert "a..b"[..3] == "a.." && "a.."[..2] == "a.";
  }
}
