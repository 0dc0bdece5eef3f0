/** The codecs against the tables and the bit layout of RFC 4648: which characters there are, which
    bits a character stands for, and what is accepted. */
module BaseStandard {
  import opened BaseCodec

  // ----- tables 1 and 3 of the standard -----

  const UPPER := "ABCDEFGHIJKLMNOPQRSTUVWXYZ"
  const LOWER := "abcdefghijklmnopqrstuvwxyz"

  function Table(k: Kind): string {
    if k == B64 then UPPER + LOWER + "0123456789" + "+/" else UPPER + "234567"
  }

  lemma TableSize(k: Kind)
    ensures |Table(k)| == Radix(k)
  {
  }

  lemma LetterIsTable(k: Kind, v: nat)
    requires v < Radix(k)
    ensures v < |Table(k)| && Letter(k, v) == Table(k)[v] as int
  {
    hide Table;
    TableSize(k);
    TableParts(k, v);
    TableDigits(v);
    if v < 26 { Alphabetic(v); } else if k == B64 && v < 52 { Alphabetic(v - 26); }
  }

  lemma TableParts(k: Kind, v: nat)
    requires v < Radix(k) == |Table(k)|
    ensures v < 26 ==> Table(k)[v] == UPPER[v]
    ensures k == B32 && v >= 26 ==> Table(k)[v] == "234567"[v - 26]
    ensures k == B64 && 26 <= v < 52 ==> Table(k)[v] == LOWER[v - 26]
    ensures k == B64 && 52 <= v < 62 ==> Table(k)[v] == "0123456789"[v - 52]
    ensures k == B64 && v >= 62 ==> Table(k)[v] == "+/"[v - 62]
  {
  }

  lemma Alphabetic(v: nat)
    requires v < 26
    ensures UPPER[v] as int == 65 + v && LOWER[v] as int == 97 + v
  {
  }

  lemma TableDigits(v: nat)
    ensures 26 <= v < 32 ==> "234567"[v - 26] as int == 24 + v
    ensures 52 <= v < 62 ==> "0123456789"[v - 52] as int == v - 4
  {
  }

  /** The decoding table is the inverse of the alphabet, and has nothing else in it. */
  lemma DigitIsInverse(k: Kind, c: Byte)
    ensures IsBase(k, c) ==> Digit(k, c) < Radix(k) && Letter(k, Digit(k, c)) == c
    ensures forall v :: 0 <= v < Radix(k) && Letter(k, v) == c ==> Digit(k, c) == v
  {
  }

  ghost predicate InTable(k: Kind, c: Byte) {
    exists v :: 0 <= v < |Table(k)| && Table(k)[v] as int == c
  }

  lemma BaseIsTable(k: Kind, c: Byte)
    ensures IsBase(k, c) <==> InTable(k, c)
  {
    hide Digit, Letter;
    DigitIsInverse(k, c);
    TableSize(k);
    if IsBase(k, c) { LetterIsTable(k, Digit(k, c)); }
    forall v | 0 <= v < |Table(k)| && Table(k)[v] as int == c ensures IsBase(k, c) {
      LetterIsTable(k, v);
    }
  }

  // ----- the bits of a unit -----

  /** Big-endian number of the given digits. */
  function Number(radix: nat, v: seq<int>): int {
    if v == [] then 0 else Number(radix, v[..|v| - 1]) * radix + v[|v| - 1]
  }

  lemma NumberNext(radix: nat, v: seq<int>, x: int)
    ensures Number(radix, v + [x]) == Number(radix, v) * radix + x
  {
    assert (v + [x])[..|v|] == v;
  }

  lemma NumberUpTo4(radix: nat, a: int, b: int, c: int, d: int)
    ensures Number(radix, []) == 0 && Number(radix, [a]) == a
    ensures Number(radix, [a, b]) == a * radix + b
    ensures Number(radix, [a, b, c]) == (a * radix + b) * radix + c
    ensures Number(radix, [a, b, c, d]) == ((a * radix + b) * radix + c) * radix + d
  {
    assert [] + [a] == [a] && [a] + [b] == [a, b] && [a, b] + [c] == [a, b, c] && [a, b, c] + [d] == [a, b, c, d];
    NumberNext(radix, [], a);
    NumberNext(radix, [a], b);
    NumberNext(radix, [a, b], c);
    NumberNext(radix, [a, b, c], d);
  }

  lemma NumberUpTo8(radix: nat, v: seq<int>, e: int, f: int, g: int, h: int)
    requires |v| == 4
    ensures Number(radix, v + [e]) == Number(radix, v) * radix + e
    ensures Number(radix, v + [e, f]) == (Number(radix, v) * radix + e) * radix + f
    ensures Number(radix, v + [e, f, g]) == ((Number(radix, v) * radix + e) * radix + f) * radix + g
    ensures Number(radix, v + [e, f, g, h]) == (((Number(radix, v) * radix + e) * radix + f) * radix + g) * radix + h
  {
    hide Number;
    assert (v + [e]) + [f] == v + [e, f] && (v + [e, f]) + [g] == v + [e, f, g];
    assert (v + [e, f, g]) + [h] == v + [e, f, g, h];
    NumberNext(radix, v, e);
    NumberNext(radix, v + [e], f);
    NumberNext(radix, v + [e, f], g);
    NumberNext(radix, v + [e, f, g], h);
  }

  function Zeros(s: seq<Byte>, n: nat): seq<int> {
    seq(n, i requires 0 <= i => In(s, i))
  }

  /** The fields of a unit, as digits, are the number its bytes are, zeros added at the end. */
  lemma FieldsAreBits(k: Kind, s: seq<Byte>)
    ensures Number(Radix(k), Fields(k, s)) == Number(256, Zeros(s, PlainUnit(k)))
  {
    if k == B64 { FieldsAreBits64(s); } else { FieldsAreBits32(s); }
  }

  lemma FieldsAreBits64(s: seq<Byte>)
    ensures Number(64, Fields(B64, s)) == Number(256, Zeros(s, 3))
  {
    hide In, Number;
    var a, b, c := In(s, 0), In(s, 1), In(s, 2);
    assert Zeros(s, 3) == [a, b, c];
    NumberUpTo4(64, a / 4, a % 4 * 16 + b / 16, b % 16 * 4 + c / 64, c % 64);
    NumberUpTo4(256, a, b, c, 0);
  }

  lemma FieldsAreBits32(s: seq<Byte>)
    ensures Number(32, Fields(B32, s)) == Number(256, Zeros(s, 5))
  {
    hide In, Number;
    var a, b, c, d, f := In(s, 0), In(s, 1), In(s, 2), In(s, 3), In(s, 4);
    assert Zeros(s, 5) == [a, b, c, d] + [f];
    NumberUpTo4(256, a, b, c, d);
    NumberUpTo8(256, [a, b, c, d], f, 0, 0, 0);
    var v := Fields(B32, s);
    NumberOf8(32, v);
    Bits40(a, b, c, d, f);
  }

  lemma NumberOf8(radix: nat, v: seq<int>)
    requires |v| == 8
    ensures Number(radix, v) ==
            ((((((v[0] * radix + v[1]) * radix + v[2]) * radix + v[3]) * radix + v[4]) * radix + v[5]) * radix + v[6])
            * radix + v[7]
  {
    hide Number;
    assert v == v[..4] + [v[4], v[5], v[6], v[7]] && v[..4] == [v[0], v[1], v[2], v[3]];
    NumberUpTo4(radix, v[0], v[1], v[2], v[3]);
    NumberUpTo8(radix, v[..4], v[4], v[5], v[6], v[7]);
  }

  lemma Bits40(a: Byte, b: Byte, c: Byte, d: Byte, f: Byte)
    ensures (((((((a / 8 * 32 + (a % 8 * 4 + b / 64)) * 32 + b / 2 % 32) * 32 + (b % 2 * 16 + c / 16)) * 32
                + (c % 16 * 2 + d / 128)) * 32 + d / 4 % 32) * 32 + (d % 4 * 8 + f / 32)) * 32 + f % 32)
         == (((a * 256 + b) * 256 + c) * 256 + d) * 256 + f
  {
    assert b / 2 == b / 64 * 32 + b / 2 % 32;
    assert d / 4 == d / 128 * 32 + d / 4 % 32;
  }

  function Digits(k: Kind, s: seq<Byte>): seq<int> {
    seq(|s|, i requires 0 <= i < |s| => Digit(k, s[i]))
  }

  /** How many letters stand in front. */
  function Leading(k: Kind, s: seq<Byte>): (n: nat)
    ensures n <= |s|
    ensures forall i :: 0 <= i < n ==> IsBase(k, s[i])
    ensures n < |s| ==> !IsBase(k, s[n])
  {
    if s == [] || !IsBase(k, s[0]) then 0 else 1 + Leading(k, s[1..])
  }

  lemma DigitsAre(k: Kind, s: seq<Byte>, v: seq<int>)
    requires |v| == |s| && forall i :: 0 <= i < |s| ==> v[i] == Digit(k, s[i])
    ensures Digits(k, s) == v
  {
  }

  lemma PadIsNoLetter(k: Kind)
    ensures !IsBase(k, PAD)
  {
  }

  /** The number the first `n` characters of a unit are. */
  function Front(k: Kind, u: seq<Byte>, n: nat): int
    requires n <= |u|
  {
    Number(Radix(k), Digits(k, u[..n]))
  }

  lemma Front64(u: seq<Byte>)
    ensures |u| >= 2 ==> Front(B64, u, 2) == Digit(B64, u[0]) * 64 + Digit(B64, u[1])
    ensures |u| >= 3 ==>
              Front(B64, u, 3) == (Digit(B64, u[0]) * 64 + Digit(B64, u[1])) * 64 + Digit(B64, u[2])
    ensures |u| >= 4 ==>
              Front(B64, u, 4) ==
              ((Digit(B64, u[0]) * 64 + Digit(B64, u[1])) * 64 + Digit(B64, u[2])) * 64 + Digit(B64, u[3])
  {
    hide Digit, Number;
    var d := Digits(B64, u);
    if |u| >= 2 {
      DigitsAre(B64, u[..2], [d[0], d[1]]);
      NumberUpTo4(64, d[0], d[1], 0, 0);
    }
    if |u| >= 3 {
      DigitsAre(B64, u[..3], [d[0], d[1], d[2]]);
      NumberUpTo4(64, d[0], d[1], d[2], 0);
    }
    if |u| >= 4 {
      DigitsAre(B64, u[..4], [d[0], d[1], d[2], d[3]]);
      NumberUpTo4(64, d[0], d[1], d[2], d[3]);
    }
  }

  lemma Decoded64(u: seq<Byte>)
    requires |u| <= 4
    ensures var n, bytes := Leading(B64, u), Decode4(u).bytes;
            && (n < 2 ==> bytes == [])
            && (n == 2 ==> bytes == [Digit(B64, u[0]) * 4 + Digit(B64, u[1]) / 16])
            && (n == 3 ==> bytes == [Digit(B64, u[0]) * 4 + Digit(B64, u[1]) / 16,
                                     Digit(B64, u[1]) % 16 * 16 + Digit(B64, u[2]) / 4])
            && (n == 4 ==> bytes == [Digit(B64, u[0]) * 4 + Digit(B64, u[1]) / 16,
                                     Digit(B64, u[1]) % 16 * 16 + Digit(B64, u[2]) / 4,
                                     Digit(B64, u[2]) % 4 * 64 + Digit(B64, u[3])])
  {
    hide Digit, Leading;
    PadIsNoLetter(B64);
    var n := Leading(B64, u);
    assert forall i :: 0 <= i < n ==> IsBase(B64, u[i]);
  }

  /** Whatever becomes of a unit of Base64, the bytes it yields are the whole bytes in the bits of
      the letters in front of it, in their order. */
  lemma UnitBits64(u: seq<Byte>)
    requires |u| <= 4
    ensures var n, bytes := Leading(B64, u), Decode4(u).bytes;
            && (n < 2 ==> bytes == [])
            && (n == 2 ==> |bytes| == 1 && Number(256, bytes) == Front(B64, u, 2) / 16)
            && (n == 3 ==> |bytes| == 2 && Number(256, bytes) == Front(B64, u, 3) / 4)
            && (n == 4 ==> |bytes| == 3 && Number(256, bytes) == Front(B64, u, 4))
  {
    hide Digit, Leading, Number, Front, Decode4;
    Decoded64(u);
    Front64(u);
    var n := Leading(B64, u);
    if n == 2 {
      Two64(Digit(B64, u[0]), Digit(B64, u[1]));
    } else if n == 3 {
      Three64(Digit(B64, u[0]), Digit(B64, u[1]), Digit(B64, u[2]));
    } else if n == 4 {
      Four64(Digit(B64, u[0]), Digit(B64, u[1]), Digit(B64, u[2]), Digit(B64, u[3]));
    }
  }

  lemma Two64(a: int, b: int)
    requires 0 <= a < 64 && 0 <= b < 64
    ensures Number(256, [a * 4 + b / 16]) == (a * 64 + b) / 16
  {
    NumberUpTo4(256, a * 4 + b / 16, 0, 0, 0);
  }

  lemma Three64(a: int, b: int, c: int)
    requires 0 <= a < 64 && 0 <= b < 64 && 0 <= c < 64
    ensures Number(256, [a * 4 + b / 16, b % 16 * 16 + c / 4]) == ((a * 64 + b) * 64 + c) / 4
  {
    NumberUpTo4(256, a * 4 + b / 16, b % 16 * 16 + c / 4, 0, 0);
  }

  lemma Four64(a: int, b: int, c: int, d: int)
    requires 0 <= a < 64 && 0 <= b < 64 && 0 <= c < 64 && 0 <= d < 64
    ensures Number(256, [a * 4 + b / 16, b % 16 * 16 + c / 4, c % 4 * 64 + d]) ==
            ((a * 64 + b) * 64 + c) * 64 + d
  {
    NumberUpTo4(256, a * 4 + b / 16, b % 16 * 16 + c / 4, c % 4 * 64 + d, 0);
  }

  lemma Front32(u: seq<Byte>)
    requires |u| == 8
    ensures var d := Digits(B32, u);
            && Front(B32, u, 2) == d[0] * 32 + d[1]
            && Front(B32, u, 4) == ((d[0] * 32 + d[1]) * 32 + d[2]) * 32 + d[3]
            && Front(B32, u, 5) == Front(B32, u, 4) * 32 + d[4]
            && Front(B32, u, 7) == (Front(B32, u, 5) * 32 + d[5]) * 32 + d[6]
            && Front(B32, u, 8) == Front(B32, u, 7) * 32 + d[7]
  {
    hide Digit, Number;
    var d := Digits(B32, u);
    DigitsAre(B32, u[..2], [d[0], d[1]]);
    DigitsAre(B32, u[..4], [d[0], d[1], d[2], d[3]]);
    NumberUpTo4(32, d[0], d[1], d[2], d[3]);
    assert forall n: nat :: n <= 8 ==> Digits(B32, u[..n]) == d[..n];
    assert d[..5] == d[..4] + [d[4]] && d[..6] == d[..5] + [d[5]];
    assert d[..7] == d[..6] + [d[6]] && d[..8] == d[..7] + [d[7]];
    NumberNext(32, d[..4], d[4]);
    NumberNext(32, d[..5], d[5]);
    NumberNext(32, d[..6], d[6]);
    NumberNext(32, d[..7], d[7]);
  }

  lemma Decoded32(u: seq<Byte>)
    requires |u| == 8
    ensures var n, bytes, d := Leading(B32, u), Decode8(u).bytes, Digits(B32, u);
            var b0, b1, b2 := d[0] * 8 + d[1] / 4, d[1] % 4 * 64 + d[2] * 2 + d[3] / 16, d[3] % 16 * 16 + d[4] / 2;
            var b3, b4 := d[4] % 2 * 128 + d[5] * 4 + d[6] / 8, d[6] % 8 * 32 + d[7];
            && (n < 2 ==> bytes == [])
            && (2 <= n < 4 ==> bytes == [b0])
            && (n == 4 ==> bytes == [b0, b1])
            && (5 <= n < 7 ==> bytes == [b0, b1, b2])
            && (n == 7 ==> bytes == [b0, b1, b2, b3])
            && (n == 8 ==> bytes == [b0, b1, b2, b3, b4])
  {
    hide Digit, Leading;
    PadIsNoLetter(B32);
    var n := Leading(B32, u);
    assert forall i :: 0 <= i < n ==> IsBase(B32, u[i]);
  }

  /** The same for Base32, where an incomplete unit yields nothing. */
  lemma UnitBits32(u: seq<Byte>)
    ensures |u| < 8 ==> Decode8(u).bytes == []
    ensures |u| == 8 ==>
            var n, bytes := Leading(B32, u), Decode8(u).bytes;
            && (n < 2 ==> bytes == [])
            && (2 <= n < 4 ==> |bytes| == 1 && Number(256, bytes) == Front(B32, u, 2) / 4)
            && (n == 4 ==> |bytes| == 2 && Number(256, bytes) == Front(B32, u, 4) / 16)
            && (5 <= n < 7 ==> |bytes| == 3 && Number(256, bytes) == Front(B32, u, 5) / 2)
            && (n == 7 ==> |bytes| == 4 && Number(256, bytes) == Front(B32, u, 7) / 8)
            && (n == 8 ==> |bytes| == 5 && Number(256, bytes) == Front(B32, u, 8))
  {
    if |u| == 8 {
      hide Number, Front, Decode8;
      var n := Leading(B32, u);
      if n < 4 {
        Short32(u);
      } else if n < 7 {
        Middle32(u);
      } else {
        Long32(u);
      }
    }
  }

  lemma Short32(u: seq<Byte>)
    requires |u| == 8 && Leading(B32, u) < 4
    ensures Leading(B32, u) < 2 ==> Decode8(u).bytes == []
    ensures Leading(B32, u) >= 2 ==>
              |Decode8(u).bytes| == 1 && Number(256, Decode8(u).bytes) == Front(B32, u, 2) / 4
  {
    hide Leading, Number, Front, Decode8, Digits;
    Decoded32(u);
    Front32(u);
    BaseDigits(B32, u);
    var d := Digits(B32, u);
    if Leading(B32, u) >= 2 { Two32(d[0], d[1]); }
  }

  lemma Middle32(u: seq<Byte>)
    requires |u| == 8 && 4 <= Leading(B32, u) < 7
    ensures Leading(B32, u) == 4 ==>
              |Decode8(u).bytes| == 2 && Number(256, Decode8(u).bytes) == Front(B32, u, 4) / 16
    ensures Leading(B32, u) > 4 ==>
              |Decode8(u).bytes| == 3 && Number(256, Decode8(u).bytes) == Front(B32, u, 5) / 2
  {
    hide Leading, Number, Front, Decode8, Digits;
    Decoded32(u);
    Front32(u);
    BaseDigits(B32, u);
    var d := Digits(B32, u);
    if Leading(B32, u) == 4 {
      Four32(d[0], d[1], d[2], d[3]);
    } else {
      Five32(d[0], d[1], d[2], d[3], d[4]);
    }
  }

  lemma Long32(u: seq<Byte>)
    requires |u| == 8 && 7 <= Leading(B32, u)
    ensures Leading(B32, u) == 7 ==>
              |Decode8(u).bytes| == 4 && Number(256, Decode8(u).bytes) == Front(B32, u, 7) / 8
    ensures Leading(B32, u) == 8 ==>
              |Decode8(u).bytes| == 5 && Number(256, Decode8(u).bytes) == Front(B32, u, 8)
  {
    hide Leading, Number, Front, Decode8, Digits;
    Decoded32(u);
    Front32(u);
    BaseDigits(B32, u);
    var d := Digits(B32, u);
    if Leading(B32, u) == 7 {
      Seven32(d[0], d[1], d[2], d[3], d[4], d[5], d[6]);
    } else {
      Eight32(d);
    }
  }

  lemma BaseDigits(k: Kind, u: seq<Byte>)
    ensures |Digits(k, u)| == |u| && forall i :: 0 <= i < Leading(k, u) ==> 0 <= Digits(k, u)[i] < Radix(k)
  {
  }

  lemma Two32(a: int, b: int)
    requires 0 <= a < 32 && 0 <= b < 32
    ensures Number(256, [a * 8 + b / 4]) == (a * 32 + b) / 4
  {
    NumberUpTo4(256, a * 8 + b / 4, 0, 0, 0);
  }

  lemma Four32(a: int, b: int, c: int, d: int)
    requires 0 <= a < 32 && 0 <= b < 32 && 0 <= c < 32 && 0 <= d < 32
    ensures Number(256, [a * 8 + b / 4, b % 4 * 64 + c * 2 + d / 16]) == (((a * 32 + b) * 32 + c) * 32 + d) / 16
  {
    NumberUpTo4(256, a * 8 + b / 4, b % 4 * 64 + c * 2 + d / 16, 0, 0);
  }

  lemma Five32(a: int, b: int, c: int, d: int, e: int)
    requires 0 <= a < 32 && 0 <= b < 32 && 0 <= c < 32 && 0 <= d < 32 && 0 <= e < 32
    ensures Number(256, [a * 8 + b / 4, b % 4 * 64 + c * 2 + d / 16, d % 16 * 16 + e / 2]) ==
            ((((a * 32 + b) * 32 + c) * 32 + d) * 32 + e) / 2
  {
    NumberUpTo4(256, a * 8 + b / 4, b % 4 * 64 + c * 2 + d / 16, d % 16 * 16 + e / 2, 0);
  }

  lemma Seven32(a: int, b: int, c: int, d: int, e: int, f: int, g: int)
    requires 0 <= a < 32 && 0 <= b < 32 && 0 <= c < 32 && 0 <= d < 32 && 0 <= e < 32 && 0 <= f < 32 && 0 <= g < 32
    ensures Number(256, [a * 8 + b / 4, b % 4 * 64 + c * 2 + d / 16, d % 16 * 16 + e / 2,
                         e % 2 * 128 + f * 4 + g / 8]) ==
            ((((((a * 32 + b) * 32 + c) * 32 + d) * 32 + e) * 32 + f) * 32 + g) / 8
  {
    NumberUpTo4(256, a * 8 + b / 4, b % 4 * 64 + c * 2 + d / 16, d % 16 * 16 + e / 2, e % 2 * 128 + f * 4 + g / 8);
  }

  lemma Eight32(d: seq<int>)
    requires |d| == 8 && forall i :: 0 <= i < 8 ==> 0 <= d[i] < 32
    ensures Number(256, [d[0] * 8 + d[1] / 4, d[1] % 4 * 64 + d[2] * 2 + d[3] / 16, d[3] % 16 * 16 + d[4] / 2,
                         d[4] % 2 * 128 + d[5] * 4 + d[6] / 8, d[6] % 8 * 32 + d[7]]) ==
            ((((((d[0] * 32 + d[1]) * 32 + d[2]) * 32 + d[3]) * 32 + d[4]) * 32 + d[5]) * 32 + d[6]) * 32 + d[7]
  {
    hide Number;
    var v := [d[0] * 8 + d[1] / 4, d[1] % 4 * 64 + d[2] * 2 + d[3] / 16, d[3] % 16 * 16 + d[4] / 2,
              d[4] % 2 * 128 + d[5] * 4 + d[6] / 8];
    var last := d[6] % 8 * 32 + d[7];
    NumberUpTo4(256, v[0], v[1], v[2], v[3]);
    NumberNext(256, v, last);
    assert v + [last] == [v[0], v[1], v[2], v[3], last];
  }

  function BitsPerLetter(k: Kind): nat {
    if k == B64 then 6 else 5
  }

  /** An encoded unit: a letter of the table for each field that has a bit of the data in it, then
      padding. */
  lemma EncodedIsTable(k: Kind, s: seq<Byte>, i: nat)
    requires 0 < |s| <= PlainUnit(k) && i < CodeUnit(k)
    ensures |Fields(k, s)| == CodeUnit(k) && Fields(k, s)[i] < |Table(k)|
    ensures EncodeUnit(k, s)[i] ==
            if i * BitsPerLetter(k) < 8 * |s| then Table(k)[Fields(k, s)[i]] as int else '=' as int
  {
    hide Fields, Table, Letter;
    TableSize(k);
    LetterIsTable(k, Fields(k, s)[i]);
    LettersNeeded(k, |s|, i);
  }

  lemma LettersNeeded(k: Kind, n: nat, i: nat)
    ensures i < Letters(k, n) <==> i * BitsPerLetter(k) < 8 * n
  {
  }

  // ----- what is accepted -----

  /** A unit of letters, the last of which may be replaced by padding as the standard allows. */
  predicate WellFormed(k: Kind, u: seq<Byte>) {
    && |u| == CodeUnit(k)
    && (var n := Leading(k, u);
        && (if k == B64 then n == 2 || n == 3 || n == 4 else n == 2 || n == 4 || n == 5 || n == 7 || n == 8)
        && forall i :: n <= i < |u| ==> u[i] == PAD)
  }

  lemma UnitVerdict(k: Kind, u: seq<Byte>)
    requires |u| == CodeUnit(k)
    ensures DecodeUnit(k, u).ok <==> WellFormed(k, u)
  {
    hide Digit, Leading;
    PadIsNoLetter(k);
    var n := Leading(k, u);
    assert forall i :: 0 <= i < n ==> IsBase(k, u[i]);
    if k == B64 { Verdict64(u, n); } else { Verdict32(u, n); }
  }

  lemma Verdict64(u: seq<Byte>, n: nat)
    requires |u| == 4 && n <= 4 && (forall i :: 0 <= i < n ==> IsBase(B64, u[i])) && (n < 4 ==> !IsBase(B64, u[n]))
    ensures Decode4(u).ok <==> (n == 2 || n == 3 || n == 4) && forall i :: n <= i < 4 ==> u[i] == PAD
  {
    hide Digit;
    PadIsNoLetter(B64);
  }

  lemma Verdict32(u: seq<Byte>, n: nat)
    requires |u| == 8 && n <= 8 && (forall i :: 0 <= i < n ==> IsBase(B32, u[i])) && (n < 8 ==> !IsBase(B32, u[n]))
    ensures Decode8(u).ok <==>
            (n == 2 || n == 4 || n == 5 || n == 7 || n == 8) && forall i :: n <= i < 8 ==> u[i] == PAD
  {
    hide Digit;
    PadIsNoLetter(B32);
  }

  predicate AllWellFormed(k: Kind, t: seq<Byte>)
    decreases |t|
  {
    t == [] || (|t| >= CodeUnit(k) && WellFormed(k, t[..CodeUnit(k)]) && AllWellFormed(k, t[CodeUnit(k)..]))
  }

  /** With a context a stream is accepted exactly if it is a sequence of such units, newlines
      apart. */
  lemma {:induction false} StrippedAccepts(k: Kind, t: seq<Byte>)
    ensures DecodeStripped(k, t).ok <==> AllWellFormed(k, t)
    decreases |t|
  {
    hide DecodeStripped, DecodeUnit, WellFormed;
    StrippedStep(k, t);
    if |t| >= CodeUnit(k) {
      UnitVerdict(k, t[..CodeUnit(k)]);
      StrippedAccepts(k, t[CodeUnit(k)..]);
    }
  }

  /** Without one, Base64 accepts padding in the last unit only. */
  lemma {:induction false} WholeAccepts(t: seq<Byte>)
    ensures DecodeWhole(B64, t).ok <==> AllWellFormed(B64, t) && forall i :: 0 <= i < |t| - 4 ==> t[i] != PAD
    decreases |t|
  {
    hide Decode4, WellFormed;
    if 0 < |t| < 4 {
      assert !DecodeUnit(B64, t).ok;
    } else if |t| == 4 {
      assert t[..4] == t && t[4..] == [];
      UnitVerdict(B64, t);
    } else if |t| > 4 {
      UnitVerdict(B64, t[..4]);
      FirstUnit(t);
      WholeAccepts(t[4..]);
      PaddedLast(t[..4]);
      assert forall i :: 0 <= i < |t| - 8 ==> t[4..][i] == t[i + 4];
      assert forall i :: 4 <= i < |t| - 4 ==> t[i] == t[4..][i - 4];
      assert forall i :: 0 <= i < 4 ==> t[i] == t[..4][i];
    }
  }

  lemma PaddedLast(u: seq<Byte>)
    requires |u| == 4
    ensures WellFormed(B64, u) && u[3] != PAD ==> forall i :: 0 <= i < 4 ==> u[i] != PAD
  {
    hide Digit, Leading;
    PadIsNoLetter(B64);
  }

  /** The characters of a valid stream: the letters of the table, `=` and newline. */
  ghost predicate Allowed(k: Kind, c: Byte) {
    InTable(k, c) || c == '=' as int || c == '\n' as int
  }

  lemma {:induction false} UnitsAllowed(k: Kind, t: seq<Byte>, i: nat)
    requires AllWellFormed(k, t) && i < |t|
    ensures Allowed(k, t[i]) && t[i] != NEWLINE
    decreases |t|
  {
    hide InTable, Leading;
    var n := CodeUnit(k);
    if i < n {
      var u := t[..n];
      assert t[i] == u[i];
      BaseIsTable(k, u[i]);
      NewlineIsNoLetter(k);
      assert i < Leading(k, u) ==> IsBase(k, u[i]);
    } else {
      UnitsAllowed(k, t[n..], i - n);
    }
  }

  lemma NewlineIsNoLetter(k: Kind)
    ensures !IsBase(k, NEWLINE)
  {
  }

  /** So nothing else is ever accepted, in chunks or without a context. */
  lemma OnlyAllowed(k: Kind, chunks: seq<seq<Byte>>, c: Byte)
    requires Feed(k, [], chunks).ok && c in Concat(chunks)
    ensures Allowed(k, c)
  {
    hide Feed, Allowed;
    var s := Concat(chunks);
    ChunkingInvariant(k, chunks);
    StrippedAccepts(k, Strip(s));
    NewlineAllowed(k);
    if c != NEWLINE {
      StripKeeps(s, c);
      var i :| 0 <= i < |Strip(s)| && Strip(s)[i] == c;
      UnitsAllowed(k, Strip(s), i);
    }
  }

  lemma NewlineAllowed(k: Kind)
    ensures Allowed(k, NEWLINE)
  {
  }

  lemma {:induction false} StripKeeps(s: seq<Byte>, c: Byte)
    ensures c in Strip(s) <==> c in s && c != '\n' as int
  {
    if s != [] { StripKeeps(s[1..], c); }
  }

  lemma OnlyAllowedWhole(k: Kind, t: seq<Byte>, c: Byte)
    requires DecodeWhole(k, t).ok && c in t
    ensures Allowed(k, c) && c != '\n' as int
  {
    hide DecodeWhole, Allowed;
    if k == B64 {
      WholeAccepts(t);
    } else {
      ContextAgrees32(t);
      StrippedAccepts(k, t);
    }
    var i :| 0 <= i < |t| && t[i] == c;
    UnitsAllowed(k, t, i);
  }
}
