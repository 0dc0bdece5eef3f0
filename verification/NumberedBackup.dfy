/** Choosing the next numbered backup name by decimal arithmetic on strings. */
module NumberedBackup {
  import opened CStrings
  import opened VersionCompare

  datatype Result = SameLength | Longer | New

  // ----- what the numbers are -----

  function DigitChar(d: nat): CChar
    requires d < 10
  {
    (d + '0' as int) as char
  }

  /** The decimal notation of a number. */
  function Decimal(n: nat): CString {
    if n < 10 then [DigitChar(n)] else Decimal(n / 10) + [DigitChar(n % 10)]
  }

  predicate IsNumber(d: string) {
    d != [] && AllDigits(d) && d[0] != '0'
  }

  /** A string of digits without a leading zero is the notation of its value. */
  lemma {:induction false} DecimalOfValue(d: string)
    requires IsNumber(d)
    ensures Decimal(Value(d)) == d && Value(d) > 0
    decreases |d|
  {
    var init, last := d[..|d| - 1], d[|d| - 1];
    if |d| == 1 {
      assert d == [last];
    } else {
      DecimalOfValue(init);
      assert d == init + [last];
    }
  }

  predicate Nines(d: string) {
    forall i :: 0 <= i < |d| ==> d[i] == '9'
  }

  /** The version a directory entry stands for: BASE`.~N~` with N not beginning with a zero; 0 for
      any other name. */
  function Version(base: CString, name: CString): nat {
    if |name| < |base| + 4 || name[..|base| + 2] != base + ['.', '~'] then 0
    else
      var p := name[|base| + 2..];
      var n := DigitRun(p);
      if IsNumber(p[..n]) && n + 1 == |p| && p[n] == '~' then Value(p[..n]) else 0
  }

  /** The largest version among the entries, 0 if there is none. */
  function Largest(base: CString, entries: seq<CString>): nat {
    if entries == [] then 0
    else
      var before, v := Largest(base, entries[..|entries| - 1]), Version(base, entries[|entries| - 1]);
      if v > before then v else before
  }

  /** `Largest` is a maximum, so the order of the entries does not matter. */
  lemma {:induction false} LargestIsMaximum(base: CString, entries: seq<CString>)
    ensures forall e :: e in entries ==> Version(base, e) <= Largest(base, entries)
    ensures Largest(base, entries) > 0 ==> exists e :: e in entries && Version(base, e) == Largest(base, entries)
    decreases |entries|
  {
    hide Version;
    if entries != [] {
      var init, last := entries[..|entries| - 1], entries[|entries| - 1];
      LargestIsMaximum(base, init);
      assert last in entries;
      assert forall e :: e in entries ==> e in init || e == last;
    }
  }

  // ----- comparing and adding one -----

  /** `memcmp` on strings of one length: the first difference decides. */
  function MemCmp(a: string, b: string): int
    requires |a| == |b|
  {
    if a == [] then 0
    else
      var r := MemCmp(a[..|a| - 1], b[..|b| - 1]);
      if r != 0 then r else Sign(a[|a| - 1] as int - b[|b| - 1] as int)
  }

  lemma {:induction false} MemCmpIsOrder(a: string, b: string)
    requires |a| == |b| && AllDigits(a) && AllDigits(b)
    ensures MemCmp(a, b) == Sign(Value(a) - Value(b))
    decreases |a|
  {
    if a != [] { MemCmpIsOrder(a[..|a| - 1], b[..|b| - 1]); }
  }

  /** A number with more digits is larger. */
  lemma MoreDigits(a: string, b: string)
    requires AllDigits(a) && IsNumber(b) && |a| < |b|
    ensures Value(a) < Value(b)
  {
    ValueBound(a);
    ValueLower(b);
    Pow10Monotone(|a|, |b| - 1);
  }

  lemma TimesTen(v: nat, n: nat)
    ensures 10 * (v * Pow10(n)) == v * Pow10(n + 1)
  {
    var p := Pow10(n);
    assert 10 * (v * p) == v * (10 * p);
  }

  /** Zeros at the end multiply. */
  lemma {:induction false} TrailingZeros(d: string, k: nat)
    requires AllDigits(d) && k <= |d| && forall i :: k <= i < |d| ==> d[i] == '0'
    ensures Value(d) == Value(d[..k]) * Pow10(|d| - k)
    decreases |d|
  {
    hide Pow10;
    if k < |d| {
      var init := d[..|d| - 1];
      TrailingZeros(init, k);
      assert init[..k] == d[..k];
      TimesTen(Value(d[..k]), |init| - k);
    } else {
      assert d[..k] == d;
      PowZero();
    }
  }

  lemma PowZero()
    ensures Pow10(0) == 1
  {
  }

  /** Nines at the end carry. */
  lemma {:induction false} TrailingNines(d: string, k: nat)
    requires AllDigits(d) && k <= |d| && forall i :: k <= i < |d| ==> d[i] == '9'
    ensures Value(d) + 1 == (Value(d[..k]) + 1) * Pow10(|d| - k)
    decreases |d|
  {
    hide Pow10;
    if k < |d| {
      var init := d[..|d| - 1];
      TrailingNines(init, k);
      assert init[..k] == d[..k];
      TimesTen(Value(d[..k]) + 1, |init| - k);
    } else {
      assert d[..k] == d;
      PowZero();
    }
  }

  /** Adding one in place: the digit at `k` goes up, the nines behind it become zeros. */
  lemma AddOne(before: string, after: string, k: nat)
    requires AllDigits(before) && AllDigits(after) && |before| == |after| && k < |before|
    requires before[..k] == after[..k] && DigitValue(after[k]) == DigitValue(before[k]) + 1
    requires forall i :: k < i < |before| ==> before[i] == '9' && after[i] == '0'
    ensures Value(after) == Value(before) + 1
  {
    TrailingNines(before, k + 1);
    TrailingZeros(after, k + 1);
    assert before[..k + 1][..k] == before[..k] && after[..k + 1][..k] == after[..k];
  }

  // ----- the scan -----

  /** The buffer holds `file`, then `.~`, a number and `~`, then NUL. */
  ghost predicate HoldsName(buf: seq<char>, file: CString, number: string) {
    && |file| + 2 + |number| + 2 <= |buf|
    && buf[..|file|] == file
    && buf[|file|] == '.' && buf[|file| + 1] == '~'
    && buf[|file| + 2..|file| + 2 + |number|] == number
    && buf[|file| + 2 + |number|] == '~' && buf[|file| + 2 + |number| + 1] == NUL
  }

  /** What the digits are once the nines at the end are zeros and the one before has gone up. */
  lemma Incremented(before: string, after: string, k: nat)
    requires AllDigits(before) && |before| == |after| && k < |before| && before[k] != '9'
    requires before[0] == '0' ==> forall j :: 0 < j < |before| ==> before[j] == '9'
    requires forall j :: 0 <= j < k ==> after[j] == before[j]
    requires after[k] as int == before[k] as int + 1
    requires forall j :: k < j < |before| ==> before[j] == '9' && after[j] == '0'
    ensures IsNumber(after) && Value(after) == Value(before) + 1
  {
    assert IsDigit(before[k]);
    forall i | 0 <= i < |after| ensures IsDigit(after[i]) {
      assert i < k ==> after[i] == before[i];
    }
    assert before[..k] == after[..k];
    AddOne(before, after, k);
  }

  /** Add one to the digits in `buf[start..end]`, not all of which are nines. */
  method Increment(buf: array<char>, start: nat, end: nat)
    requires start < end <= buf.Length && AllDigits(buf[start..end]) && !Nines(buf[start..end])
    requires buf[start] == '0' ==> Nines(buf[start + 1..end])
    modifies buf
    ensures IsNumber(buf[start..end]) && Value(buf[start..end]) == old(Value(buf[start..end])) + 1
    ensures forall i :: 0 <= i < start || end <= i < buf.Length ==> buf[i] == old(buf[i])
  {
    hide Value, IsNumber;
    ghost var before := buf[start..end];
    ghost var w :| 0 <= w < |before| && before[w] != '9';
    assert before[1..] == buf[start + 1..end];
    assert forall j :: 0 < j < |before| ==> before[j] == before[1..][j - 1];
    var q := end - 1;
    ghost var k := q - start;
    while buf[q] == '9'
      invariant w <= k < |before| && q == start + k
      invariant forall j :: 0 <= j <= k ==> buf[start + j] == before[j]
      invariant forall j :: k < j < |before| ==> before[j] == '9'
      invariant forall i :: q < i < end ==> buf[i] == '0'
      invariant forall i :: 0 <= i < start || end <= i < buf.Length ==> buf[i] == old(buf[i])
      decreases q
    {
      assert before[k] == '9';
      buf[q] := '0';
      q, k := q - 1, k - 1;
    }
    assert before[k] == buf[start + k] && IsDigit(before[k]);
    buf[q] := (buf[q] as int + 1) as char;
    ghost var after := buf[start..end];
    assert forall j :: 0 <= j < |after| ==> after[j] == buf[start + j];
    Incremented(before, after, k);
  }

  /** Read the version of an entry: its digits, and whether they are all nines. */
  method ReadVersion(base: CString, name: CString) returns (isVersion: bool, p: CString, versionlen: nat, all9s: bool)
    ensures isVersion <==> Version(base, name) > 0
    ensures isVersion ==>
              versionlen <= |p| && IsNumber(p[..versionlen]) && Value(p[..versionlen]) == Version(base, name)
    ensures isVersion ==> all9s == Nines(p[..versionlen])
  {
    isVersion, p, versionlen, all9s := false, [], 0, false;
    if |name| < |base| + 4 {
      return;
    }
    if base + ['.', '~'] != name[..|base| + 2] {
      return;
    }
    p := name[|base| + 2..];
    if !('1' <= p[0] <= '9') {
      NoNumber(p);
      return;
    }
    all9s := p[0] == '9';
    versionlen := 1;
    while IsDigit(At(p, versionlen))
      invariant 1 <= versionlen <= |p|
      invariant forall i :: 0 <= i < versionlen ==> IsDigit(p[i])
      invariant all9s <==> forall i :: 0 <= i < versionlen ==> p[i] == '9'
      decreases |p| - versionlen
    {
      all9s := all9s && p[versionlen] == '9';
      versionlen := versionlen + 1;
    }
    RunUnique(p, versionlen);
    var d := p[..versionlen];
    assert forall i :: 0 <= i < versionlen ==> d[i] == p[i];
    isVersion := At(p, versionlen) == '~' && versionlen + 1 == |p|;
    DecimalOfValue(d);
  }

  lemma NoNumber(p: CString)
    requires p != [] && !('1' <= p[0] <= '9')
    ensures !IsNumber(p[..DigitRun(p)])
  {
    if DigitRun(p) > 0 { assert p[..DigitRun(p)][0] == p[0]; }
  }

  /** `realloc` if the buffer is too short. */
  method Grow(buf: array<char>, need: nat) returns (out: array<char>)
    ensures out.Length >= need && out.Length >= buf.Length && out[..buf.Length] == buf[..]
    ensures out == buf || fresh(out)
  {
    out := buf;
    if buf.Length < need {
      out := new char[2 * need](i requires 0 <= i reads buf => if i < buf.Length then buf[i] else NUL);
    }
  }

  /** Write `.~`, a zero if `carry` is one, the digits, `~` and NUL behind the file name. */
  method WriteVersion(out: array<char>, f: nat, digits: CString, carry: nat)
    requires carry <= 1 && f + 2 + carry + |digits| + 2 <= out.Length
    modifies out
    ensures forall i :: 0 <= i < f ==> out[i] == old(out[i])
    ensures out[f] == '.' && out[f + 1] == '~'
    ensures carry == 1 ==> out[f + 2] == '0'
    ensures forall i :: 0 <= i < |digits| ==> out[f + 2 + carry + i] == digits[i]
    ensures out[f + 2 + carry + |digits|] == '~' && out[f + 2 + carry + |digits| + 1] == NUL
  {
    out[f] := '.';
    out[f + 1] := '~';
    out[f + 2] := '0';
    forall i | 0 <= i < |digits| {
      out[f + 2 + carry + i] := digits[i];
    }
    out[f + 2 + carry + |digits|] := '~';
    out[f + 2 + carry + |digits| + 1] := NUL;
  }

  /** The digits with the zero before them, if any: the same value, and room to add one. */
  lemma Padded(padded: string, digits: string, carry: nat)
    requires IsNumber(digits) && carry == (if Nines(digits) then 1 else 0)
    requires |padded| == carry + |digits| && (carry == 1 ==> padded[0] == '0')
    requires forall i :: 0 <= i < |digits| ==> padded[carry + i] == digits[i]
    ensures AllDigits(padded) && Value(padded) == Value(digits) && !Nines(padded)
    ensures padded[0] == '0' ==> Nines(padded[1..])
  {
    forall i | 0 <= i < |padded| ensures IsDigit(padded[i]) {
      if i >= carry { assert padded[carry + (i - carry)] == digits[i - carry]; }
    }
    assert padded[carry..] == digits;
    ValueZeros(padded, carry);
    if carry == 0 {
      assert padded == digits;
    }
  }

  /** Append the version after `digits` to the file name, in place. */
  method StoreNext(buf: array<char>, file: CString, digits: CString, all9s: bool)
    returns (out: array<char>, ghost number: string)
    requires IsNumber(digits) && all9s == Nines(digits)
    requires |file| <= buf.Length && buf[..|file|] == file
    modifies buf
    ensures out == buf || fresh(out)
    ensures IsNumber(number) && Value(number) == Value(digits) + 1
    ensures |number| == |digits| + (if all9s then 1 else 0)
    ensures HoldsName(out[..], file, number)
  {
    hide Value, IsNumber, Nines, AllDigits;
    var f, carry := |file|, if all9s then 1 else 0;
    var end := f + 2 + carry + |digits|;
    out := Grow(buf, end + 2);
    assert forall i :: 0 <= i < f ==> out[i] == out[..buf.Length][i] == buf[..f][i] == file[i];
    WriteVersion(out, f, digits, carry);
    ghost var padded := out[f + 2..end];
    assert forall i :: 0 <= i < |padded| ==> padded[i] == out[f + 2 + i];
    assert forall i :: 0 <= i < |digits| ==> padded[carry + i] == out[f + 2 + carry + i] == digits[i];
    NotEmptyNumber(digits);
    Padded(padded, digits, carry);
    assert out[f + 3..end] == padded[1..];
    Increment(out, f + 2, end);
    number := out[f + 2..end];
    assert forall i :: 0 <= i < f ==> out[i] == file[i];
    assert out[..f] == file;
    assert |number| == end - (f + 2);
  }

  lemma NotEmptyNumber(d: string)
    requires IsNumber(d)
    ensures d != []
  {
  }

  function ResultFor(largest: nat): Result {
    if largest == 0 then New else if Nines(Decimal(largest)) then Longer else SameLength
  }

  lemma {:induction false} ValueOfDecimal(n: nat)
    requires n > 0
    ensures IsNumber(Decimal(n)) && Value(Decimal(n)) == n
    decreases n
  {
    var d := Decimal(n);
    if n < 10 {
      assert d[..0] == [];
    } else {
      ValueOfDecimal(n / 10);
      assert d[..|d| - 1] == Decimal(n / 10);
    }
  }

  lemma {:induction false} NinesValue(d: string)
    requires AllDigits(d)
    ensures Nines(d) <==> Value(d) + 1 == Pow10(|d|)
    decreases |d|
  {
    if d != [] {
      var init, last := d[..|d| - 1], d[|d| - 1];
      NinesValue(init);
      ValueBound(init);
      assert Nines(d) <==> Nines(init) && last == '9' by {
        assert forall i :: 0 <= i < |init| ==> init[i] == d[i];
      }
    }
  }

  /** The result says what its name says: the new name is longer than the name of the largest
      version exactly when it is announced as longer. */
  lemma LongerMeansLonger(largest: nat)
    requires largest > 0
    ensures |Decimal(largest + 1)| == |Decimal(largest)| + (if ResultFor(largest) == Longer then 1 else 0)
  {
    hide Decimal, Value, Nines;
    var d, e := Decimal(largest), Decimal(largest + 1);
    ValueOfDecimal(largest);
    ValueOfDecimal(largest + 1);
    NinesValue(d);
    ValueBound(d);
    ValueBound(e);
    ValueLower(d);
    ValueLower(e);
    if |e| <= |d| {
      Pow10Monotone(|e|, |d|);
    } else {
      Pow10Monotone(|d|, |e| - 1);
      if |e| > |d| + 1 { Pow10Monotone(|d| + 1, |e| - 1); }
    }
    if |e| < |d| { Pow10Monotone(|e|, |d| - 1); }
  }

  /** Whether a version is beyond the number in the buffer is decided on the digits. */
  lemma Beyond(number: string, d: string)
    requires IsNumber(number) && IsNumber(d)
    ensures Value(number) <= Value(d) <==>
            |number| < |d| || (|number| == |d| && MemCmp(number, d) <= 0)
  {
    if |number| < |d| {
      MoreDigits(number, d);
    } else if |d| < |number| {
      MoreDigits(d, number);
    } else {
      MemCmpIsOrder(number, d);
    }
  }

  /** Whether a version has got to the number in the buffer: a longer one has, one of the same
      length if its digits say so. */
  method Reaches(buf: array<char>, f: nat, versionlenmax: nat, p: CString, versionlen: nat) returns (reached: bool)
    requires f + 2 + versionlenmax <= buf.Length && versionlen <= |p|
    requires IsNumber(buf[f + 2..f + 2 + versionlenmax]) && IsNumber(p[..versionlen])
    ensures reached <==> Value(buf[f + 2..f + 2 + versionlenmax]) <= Value(p[..versionlen])
  {
    hide Value, MemCmp, IsNumber;
    Beyond(buf[f + 2..f + 2 + versionlenmax], p[..versionlen]);
    reached := versionlenmax < versionlen
      || (versionlenmax == versionlen && MemCmp(buf[f + 2..f + 2 + versionlen], p[..versionlen]) <= 0);
  }

  /** `numbered_backup` on a fresh scan: whatever the order of the entries, the buffer gets the
      version after the largest one, and the result tells whether its name is longer. */
  method NextBackup(buffer: array<char>, file: CString, baseOffset: nat, entries: seq<CString>)
    returns (result: Result, buf: array<char>)
    requires baseOffset <= |file| && (|file| > baseOffset + 1 ==> file[|file| - 1] != '/')
    requires buffer.Length >= |file| + 5 && buffer[..|file|] == file
    modifies buffer
    ensures var largest := Largest(file[baseOffset..], entries);
            HoldsName(buf[..], file, Decimal(largest + 1)) && result == ResultFor(largest)
  {
    hide Value, Version, Decimal;
    buf := buffer;
    result := New;
    var base := file[baseOffset..];
    var f := |file|;
    buf[f], buf[f + 1], buf[f + 2], buf[f + 3], buf[f + 4] := '.', '~', '1', '~', NUL;
    var versionlenmax := 1;
    ghost var number := ['1'];
    ghost var largest := 0;
    One();
    assert buf[..f] == file && buf[f + 2..f + 3] == ['1'];
    var i := 0;
    while i < |entries|
      invariant 0 <= i <= |entries| && (buf == buffer || fresh(buf))
      invariant largest == Largest(base, entries[..i])
      invariant IsNumber(number) && Value(number) == largest + 1 && |number| == versionlenmax
      invariant HoldsName(buf[..], file, number)
      invariant result == ResultFor(largest)
    {
      assert entries[..i + 1][..i] == entries[..i];
      var isVersion, p, versionlen, all9s := ReadVersion(base, entries[i]);
      i := i + 1;
      if !isVersion {
        continue;
      }
      ghost var d := p[..versionlen];
      DecimalOfValue(d);
      assert buf[f + 2..f + 2 + versionlenmax] == number;
      var reached := Reaches(buf, f, versionlenmax, p, versionlen);
      if !reached {
        continue;
      }
      versionlenmax := (if all9s then 1 else 0) + versionlen;
      result := if all9s then Longer else SameLength;
      assert buf[..f] == file;
      buf, number := StoreNext(buf, file, p[..versionlen], all9s);
      largest := Value(d);
    }
    assert entries[..i] == entries;
    DecimalOfValue(number);
  }

  lemma One()
    ensures IsNumber(['1']) && Value(['1']) == 1
  {
    assert ['1'][..0] == [];
  }

  // ----- names and versions -----

  function BackupName(base: CString, n: nat): CString {
    base + ['.', '~'] + Decimal(n) + ['~']
  }

  /** A backup name has the version it is written with. */
  lemma VersionOfName(base: CString, n: nat)
    requires n > 0
    ensures Version(base, BackupName(base, n)) == n
  {
    hide Value, Decimal, IsNumber;
    var d, name := Decimal(n), BackupName(base, n);
    ValueOfDecimal(n);
    NumberDigits(d);
    assert name[..|base| + 2] == base + ['.', '~'] && name[|base| + 2..] == d + ['~'];
    RunUnique(d + ['~'], |d|);
    assert (d + ['~'])[..|d|] == d;
  }

  lemma NumberDigits(d: string)
    requires IsNumber(d)
    ensures d != [] && forall i :: 0 <= i < |d| ==> IsDigit(d[i])
  {
  }

  /** And no other name has it. */
  lemma NameOfVersion(base: CString, name: CString)
    requires Version(base, name) > 0
    ensures name == BackupName(base, Version(base, name))
  {
    hide Value, Decimal, IsNumber;
    var p := name[|base| + 2..];
    var n := DigitRun(p);
    DecimalOfValue(p[..n]);
    assert name == name[..|base| + 2] + p && p == p[..n] + ['~'];
  }

  /** So the name chosen is not among the entries. */
  lemma NextIsNew(base: CString, entries: seq<CString>)
    ensures BackupName(base, Largest(base, entries) + 1) !in entries
  {
    hide Version, BackupName, Largest;
    VersionOfName(base, Largest(base, entries) + 1);
    LargestIsMaximum(base, entries);
  }
}
