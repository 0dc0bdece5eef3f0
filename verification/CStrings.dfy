/** C strings: sequences of non-zero bytes, read as if a NUL followed the last one. */
module CStrings {

  type CChar = c: char | 0 < c as int < 256 witness 'a'
  type CString = seq<CChar>

  const NUL: char := 0 as char

  /** The byte at offset `i`, the terminating NUL included. */
  function At(s: CString, i: nat): char
    requires i <= |s|
  {
    if i == |s| then NUL else s[i]
  }

  predicate IsDigit(c: char) {
    '0' <= c <= '9'
  }

  predicate IsAlpha(c: char) {
    'a' <= c <= 'z' || 'A' <= c <= 'Z'
  }

  predicate IsAlnum(c: char) {
    IsDigit(c) || IsAlpha(c)
  }

  function Sign(n: int): int {
    if n < 0 then -1 else if n > 0 then 1 else 0
  }

  /** `strcmp`: only the sign of its result is specified, so the sign is its result here. */
  function Strcmp(a: CString, b: CString): (r: int) {
    if a == [] && b == [] then 0
    else if a == [] then -1
    else if b == [] then 1
    else if a[0] != b[0] then Sign(a[0] as int - b[0] as int)
    else Strcmp(a[1..], b[1..])
  }

  lemma StrcmpZero(a: CString, b: CString)
    ensures Strcmp(a, b) == 0 <==> a == b
  {
    if a != [] && b != [] && a[0] == b[0] {
      StrcmpZero(a[1..], b[1..]);
      assert a == [a[0]] + a[1..] && b == [b[0]] + b[1..];
    }
  }

  lemma StrcmpSwap(a: CString, b: CString)
    ensures Strcmp(b, a) == -Strcmp(a, b)
    ensures -1 <= Strcmp(a, b) <= 1
  {
  }

  /** The first difference decides, the terminating NUL included; bytes are compared without sign. */
  lemma {:induction false} FirstDifference(a: CString, b: CString, i: nat)
    requires i <= |a| && i <= |b| && a[..i] == b[..i] && At(a, i) < At(b, i)
    ensures Strcmp(a, b) < 0
    decreases i
  {
    if i > 0 {
      assert a[0] == a[..i][0] == b[..i][0] == b[0];
      assert a[1..][..i - 1] == a[..i][1..] == b[..i][1..] == b[1..][..i - 1];
      FirstDifference(a[1..], b[1..], i - 1);
    }
  }

  lemma StrcmpTrans(a: CString, b: CString, c: CString)
    requires Strcmp(a, b) <= 0 && Strcmp(b, c) <= 0
    ensures Strcmp(a, c) <= 0
    ensures Strcmp(a, b) < 0 || Strcmp(b, c) < 0 ==> Strcmp(a, c) < 0
  {
  }

  /** The number a string of digits denotes. */
  function Value(d: string): nat
    requires forall i :: 0 <= i < |d| ==> IsDigit(d[i])
  {
    if d == [] then 0 else 10 * Value(d[..|d| - 1]) + DigitValue(d[|d| - 1])
  }

  function DigitValue(c: char): (v: nat)
    requires IsDigit(c)
    ensures v <= 9
  {
    c as int - '0' as int
  }

  function Pow10(n: nat): (p: nat)
    ensures p >= 1
  {
    if n == 0 then 1 else 10 * Pow10(n - 1)
  }

  predicate AllDigits(d: string) {
    forall i :: 0 <= i < |d| ==> IsDigit(d[i])
  }

  lemma ValueBound(d: string)
    requires AllDigits(d)
    ensures Value(d) < Pow10(|d|)
  {
  }

  /** Without a leading zero the value has as many digits as the string. */
  lemma ValueLower(d: string)
    requires AllDigits(d) && d != [] && d[0] != '0'
    ensures Value(d) >= Pow10(|d| - 1)
  {
    if |d| > 1 {
      ValueLower(d[..|d| - 1]);
    }
  }

  /** Leading zeros do not count. */
  lemma ValueZeros(d: string, k: nat)
    requires AllDigits(d) && k <= |d|
    requires forall i :: 0 <= i < k ==> d[i] == '0'
    ensures Value(d) == Value(d[k..])
  {
    if k < |d| {
      ValueZeros(d[..|d| - 1], k);
      assert d[k..][..|d| - k - 1] == d[..|d| - 1][k..];
    } else if d != [] {
      ValueZeros(d[..|d| - 1], k - 1);
      assert d[..|d| - 1][k - 1..] == [];
    }
  }
}
