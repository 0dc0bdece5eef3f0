/** Base64 and Base32 as the standard defines them (sections 4 and 6 of RFC 4648), and what the
    streaming decoders compute. */
module BaseCodec {

  type Byte = b: int | 0 <= b < 256

  /** The two codecs share their text up to the sizes of a unit. */
  datatype Kind = B64 | B32

  const NEWLINE: Byte := 10
  const PAD: Byte := 61

  /** Bytes in a unit of plain data, and characters in a unit of encoded data. */
  function PlainUnit(k: Kind): nat { if k == B64 then 3 else 5 }
  function CodeUnit(k: Kind): nat { if k == B64 then 4 else 8 }
  function Radix(k: Kind): nat { if k == B64 then 64 else 32 }

  // ----- the alphabets -----

  /** `b64c` is A-Z a-z 0-9 + /, `b32str` is A-Z 2-7. */
  function Letter(k: Kind, v: int): Byte
    requires 0 <= v < Radix(k)
  {
    if v < 26 then 65 + v
    else if k == B32 then 50 + v - 26
    else if v < 52 then 97 + v - 26
    else if v < 62 then 48 + v - 52
    else if v == 62 then 43 else 47
  }

  /** The inverse tables `b64` and `b32`: -1 outside the alphabet. */
  function Digit(k: Kind, c: Byte): (v: int)
    ensures -1 <= v < Radix(k)
  {
    if 65 <= c <= 90 then c - 65
    else if k == B32 then (if 50 <= c <= 55 then c - 50 + 26 else -1)
    else if 97 <= c <= 122 then c - 97 + 26
    else if 48 <= c <= 57 then c - 48 + 52
    else if c == 43 then 62
    else if c == 47 then 63
    else -1
  }

  predicate IsBase(k: Kind, c: Byte) {
    0 <= Digit(k, c)
  }

  lemma DigitOfLetter(k: Kind, v: int)
    requires 0 <= v < Radix(k)
    ensures Digit(k, Letter(k, v)) == v
    ensures Letter(k, v) != PAD && Letter(k, v) != NEWLINE
  {
  }

  // ----- encoding -----

  /** The value of plain byte `i`, zero beyond the end. */
  function In(s: seq<Byte>, i: nat): Byte {
    if i < |s| then s[i] else 0
  }

  /** The bits of a unit, in fields of six or five; the bytes beyond the end count as zero. */
  function Fields(k: Kind, s: seq<Byte>): (v: seq<int>)
    ensures |v| == CodeUnit(k)
    ensures forall i :: 0 <= i < |v| ==> 0 <= v[i] < Radix(k)
  {
    if k == B64 then
      [In(s, 0) / 4, In(s, 0) % 4 * 16 + In(s, 1) / 16, In(s, 1) % 16 * 4 + In(s, 2) / 64, In(s, 2) % 64]
    else
      [In(s, 0) / 8, In(s, 0) % 8 * 4 + In(s, 1) / 64, In(s, 1) / 2 % 32, In(s, 1) % 2 * 16 + In(s, 2) / 16,
       In(s, 2) % 16 * 2 + In(s, 3) / 128, In(s, 3) / 4 % 32, In(s, 3) % 4 * 8 + In(s, 4) / 32, In(s, 4) % 32]
  }

  /** How many fields it takes to hold `n` bytes; padding stands for the others. */
  function Letters(k: Kind, n: nat): nat {
    if k == B64 then (4 * n + 2) / 3 else (8 * n + 4) / 5
  }

  function EncodeUnit(k: Kind, s: seq<Byte>): (r: seq<Byte>)
    ensures |r| == CodeUnit(k)
  {
    seq(CodeUnit(k), i requires 0 <= i < CodeUnit(k) =>
      if i < Letters(k, |s|) then Letter(k, Fields(k, s)[i]) else PAD)
  }

  function Min(a: nat, b: nat): nat {
    if a < b then a else b
  }

  /** The whole encoding. */
  function Encode(k: Kind, s: seq<Byte>): seq<Byte>
    decreases |s|
  {
    if s == [] then []
    else
      var n := Min(|s|, PlainUnit(k));
      EncodeUnit(k, s[..n]) + Encode(k, s[n..])
  }

  lemma OneMoreUnit(all: nat, n: nat, rest: nat)
    requires all > 0 && rest == all - n
    ensures n == Min(all, 3) ==> (all + 2) / 3 == 1 + (rest + 2) / 3
    ensures n == Min(all, 5) ==> (all + 4) / 5 == 1 + (rest + 4) / 5
  {
  }

  lemma {:induction false} EncodeLength(k: Kind, s: seq<Byte>)
    ensures |Encode(k, s)| == (if k == B64 then (|s| + 2) / 3 * 4 else (|s| + 4) / 5 * 8)
    decreases |s|
  {
    hide EncodeUnit;
    if s != [] {
      var n := Min(|s|, PlainUnit(k));
      EncodeLength(k, s[n..]);
      assert |Encode(k, s)| == CodeUnit(k) + |Encode(k, s[n..])|;
      hide Encode;
      OneMoreUnit(|s|, n, |s[n..]|);
    }
  }

  // ----- decoding one unit -----

  /** What a unit decodes to, and whether it is valid.  `s` is everything that is left. */
  datatype Decoded = Decoded(bytes: seq<Byte>, ok: bool)

  function Fail(bytes: seq<Byte>): Decoded { Decoded(bytes, false) }
  function Done(bytes: seq<Byte>): Decoded { Decoded(bytes, true) }

  /** `decode_4`: the padding is accepted only if nothing follows the unit. */
  function Decode4(s: seq<Byte>): Decoded {
    if |s| < 2 || !IsBase(B64, s[0]) || !IsBase(B64, s[1]) then Fail([])
    else
      var b0 := [Digit(B64, s[0]) * 4 + Digit(B64, s[1]) / 16];
      if |s| == 2 then Fail(b0)
      else if s[2] == PAD then
        if |s| == 4 && s[3] == PAD then Done(b0) else Fail(b0)
      else if !IsBase(B64, s[2]) then Fail(b0)
      else
        var b1 := b0 + [Digit(B64, s[1]) % 16 * 16 + Digit(B64, s[2]) / 4];
        if |s| == 3 then Fail(b1)
        else if s[3] == PAD then
          if |s| == 4 then Done(b1) else Fail(b1)
        else if !IsBase(B64, s[3]) then Fail(b1)
        else Done(b1 + [Digit(B64, s[2]) % 4 * 64 + Digit(B64, s[3])])
  }

  /** `decode_8`: the padding is accepted wherever the unit stands. */
  function Decode8(s: seq<Byte>): Decoded {
    if |s| < 8 || !IsBase(B32, s[0]) || !IsBase(B32, s[1]) then Fail([])
    else
      var v0, v1, v2, v3 := Digit(B32, s[0]), Digit(B32, s[1]), Digit(B32, s[2]), Digit(B32, s[3]);
      var v4, v5, v6, v7 := Digit(B32, s[4]), Digit(B32, s[5]), Digit(B32, s[6]), Digit(B32, s[7]);
      var b0 := [v0 * 8 + v1 / 4];
      if s[2] == PAD then
        if s[3] == s[4] == s[5] == s[6] == s[7] == PAD then Done(b0) else Fail(b0)
      else if !IsBase(B32, s[2]) || !IsBase(B32, s[3]) then Fail(b0)
      else
        var b1 := b0 + [v1 % 4 * 64 + v2 * 2 + v3 / 16];
        if s[4] == PAD then
          if s[5] == s[6] == s[7] == PAD then Done(b1) else Fail(b1)
        else if !IsBase(B32, s[4]) then Fail(b1)
        else
          var b2 := b1 + [v3 % 16 * 16 + v4 / 2];
          if s[5] == PAD then
            if s[6] == s[7] == PAD then Done(b2) else Fail(b2)
          else if !IsBase(B32, s[5]) || !IsBase(B32, s[6]) then Fail(b2)
          else
            var b3 := b2 + [v4 % 2 * 128 + v5 * 4 + v6 / 8];
            if s[7] == PAD then Done(b3)
            else if !IsBase(B32, s[7]) then Fail(b3)
            else Done(b3 + [v6 % 8 * 32 + v7])
  }

  function DecodeUnit(k: Kind, s: seq<Byte>): (r: Decoded)
    ensures |r.bytes| <= PlainUnit(k)
    ensures |s| < CodeUnit(k) ==> !r.ok
  {
    if k == B64 then Decode4(s) else Decode8(s)
  }

  // ----- decoding a stream -----

  function Strip(s: seq<Byte>): (r: seq<Byte>)
    ensures |r| <= |s|
  {
    if s == [] then [] else (if s[0] == NEWLINE then [] else [s[0]]) + Strip(s[1..])
  }

  /** Decode complete units, each on its own, up to the first invalid one. */
  datatype Groups = Groups(bytes: seq<Byte>, ok: bool, rest: seq<Byte>)

  function DecodeGroups(k: Kind, t: seq<Byte>): Groups
    decreases |t|
  {
    if |t| < CodeUnit(k) then Groups([], true, t)
    else
      var u := DecodeUnit(k, t[..CodeUnit(k)]);
      if !u.ok then Groups(u.bytes, false, [])
      else
        var r := DecodeGroups(k, t[CodeUnit(k)..]);
        Groups(u.bytes + r.bytes, r.ok, r.rest)
  }

  /** What is left when the context is flushed is an incomplete unit. */
  function Flush(k: Kind, pending: seq<Byte>): Decoded {
    if pending == [] then Done([]) else Fail(DecodeUnit(k, pending).bytes)
  }

  /** The reference: strip, cut into units, decode each unit. */
  function DecodeStripped(k: Kind, t: seq<Byte>): Decoded {
    var r := DecodeGroups(k, t);
    if !r.ok then Fail(r.bytes)
    else Decoded(r.bytes + Flush(k, r.rest).bytes, Flush(k, r.rest).ok)
  }

  /** Decoding without a context: newlines are garbage, and a unit sees all that follows it. */
  function DecodeWhole(k: Kind, t: seq<Byte>): Decoded
    decreases |t|
  {
    if t == [] then Done([])
    else
      var u := DecodeUnit(k, t);
      if !u.ok || |t| < CodeUnit(k) then Fail(u.bytes)
      else
        var r := DecodeWhole(k, t[CodeUnit(k)..]);
        Decoded(u.bytes + r.bytes, r.ok)
  }

  /** Feeding chunks through one context, then flushing it, up to the first call that fails. */
  function Feed(k: Kind, pending: seq<Byte>, chunks: seq<seq<Byte>>): Decoded
    decreases |chunks|
  {
    if chunks == [] then Flush(k, pending)
    else
      var r := DecodeGroups(k, pending + Strip(chunks[0]));
      if !r.ok then Fail(r.bytes)
      else
        var later := Feed(k, r.rest, chunks[1..]);
        Decoded(r.bytes + later.bytes, later.ok)
  }

  function Concat(chunks: seq<seq<Byte>>): seq<Byte> {
    if chunks == [] then [] else chunks[0] + Concat(chunks[1..])
  }

  // ----- lemmas -----

  lemma StripConcat(a: seq<Byte>, b: seq<Byte>)
    ensures Strip(a + b) == Strip(a) + Strip(b)
  {
    if a == [] {
      assert a + b == b;
    } else {
      assert (a + b)[1..] == a[1..] + b;
      StripConcat(a[1..], b);
    }
  }

  /** Units are cut from the front, so more input only continues the decoding. */
  lemma {:induction false} GroupsContinue(k: Kind, t: seq<Byte>, more: seq<Byte>)
    ensures var r := DecodeGroups(k, t);
            DecodeGroups(k, t + more) ==
            if !r.ok then r
            else
              var next := DecodeGroups(k, r.rest + more);
              Groups(r.bytes + next.bytes, next.ok, next.rest)
    decreases |t|
  {
    hide DecodeUnit;
    var n := CodeUnit(k);
    if |t| >= n {
      assert (t + more)[..n] == t[..n] && (t + more)[n..] == t[n..] + more;
      GroupsContinue(k, t[n..], more);
      var u := DecodeUnit(k, t[..n]);
      var r := DecodeGroups(k, t[n..]);
      var next := DecodeGroups(k, r.rest + more);
      assert u.bytes + (r.bytes + next.bytes) == (u.bytes + r.bytes) + next.bytes;
    }
  }

  lemma StrippedContinue(k: Kind, t: seq<Byte>, more: seq<Byte>)
    ensures var r := DecodeGroups(k, t);
            DecodeStripped(k, t + more) ==
            if !r.ok then Fail(r.bytes) else Prefixed(r.bytes, DecodeStripped(k, r.rest + more))
  {
    hide DecodeGroups, Flush;
    GroupsContinue(k, t, more);
    var r := DecodeGroups(k, t);
    var next := DecodeGroups(k, r.rest + more);
    assert (r.bytes + next.bytes) + Flush(k, next.rest).bytes == r.bytes + (next.bytes + Flush(k, next.rest).bytes);
  }

  lemma {:induction false} FeedIsStripped(k: Kind, pending: seq<Byte>, chunks: seq<seq<Byte>>)
    requires |pending| < CodeUnit(k)
    ensures Feed(k, pending, chunks) == DecodeStripped(k, pending + Strip(Concat(chunks)))
    decreases |chunks|
  {
    hide DecodeUnit, Strip, Flush;
    if chunks == [] {
      StripNothing();
      assert pending + Strip(Concat(chunks)) == pending;
    } else {
      hide DecodeGroups, DecodeStripped;
      var t, more := pending + Strip(chunks[0]), Strip(Concat(chunks[1..]));
      StripConcat(chunks[0], Concat(chunks[1..]));
      assert pending + Strip(Concat(chunks)) == t + more;
      StrippedContinue(k, t, more);
      RestIsShort(k, t);
      FeedIsStripped(k, DecodeGroups(k, t).rest, chunks[1..]);
    }
  }

  lemma StripNothing()
    ensures Strip([]) == []
  {
  }

  lemma RestIsShort(k: Kind, t: seq<Byte>)
    ensures |DecodeGroups(k, t).rest| < CodeUnit(k)
    decreases |t|
  {
    hide DecodeUnit;
    if |t| >= CodeUnit(k) { RestIsShort(k, t[CodeUnit(k)..]); }
  }

  /** However the input is cut into chunks and wherever its newlines are, the bytes and the
      verdict are those of the newline-free input decoded unit by unit. */
  lemma ChunkingInvariant(k: Kind, chunks: seq<seq<Byte>>)
    ensures Feed(k, [], chunks) == DecodeStripped(k, Strip(Concat(chunks)))
  {
    FeedIsStripped(k, [], chunks);
    assert [] + Strip(Concat(chunks)) == Strip(Concat(chunks));
  }

  // ----- with and without a context -----

  function Prefixed(u: seq<Byte>, d: Decoded): Decoded {
    Decoded(u + d.bytes, d.ok)
  }

  lemma PrefixedInjective(u: seq<Byte>, a: Decoded, b: Decoded)
    ensures Prefixed(u, a) == Prefixed(u, b) <==> a == b
  {
    if u + a.bytes == u + b.bytes {
      assert a.bytes == (u + a.bytes)[|u|..] == (u + b.bytes)[|u|..] == b.bytes;
    }
  }

  /** One unit off the front. */
  lemma StrippedStep(k: Kind, t: seq<Byte>)
    ensures var n := CodeUnit(k);
            DecodeStripped(k, t) ==
            if t == [] then Done([])
            else if |t| < n then Fail(DecodeUnit(k, t).bytes)
            else if !DecodeUnit(k, t[..n]).ok then Fail(DecodeUnit(k, t[..n]).bytes)
            else Prefixed(DecodeUnit(k, t[..n]).bytes, DecodeStripped(k, t[n..]))
  {
    hide DecodeUnit, Flush;
    var n := CodeUnit(k);
    FlushShort(k, t);
    if |t| >= n {
      var u, r := DecodeUnit(k, t[..n]), DecodeGroups(k, t[n..]);
      assert (u.bytes + r.bytes) + Flush(k, r.rest).bytes == u.bytes + (r.bytes + Flush(k, r.rest).bytes);
    } else {
      assert [] + Flush(k, t).bytes == Flush(k, t).bytes;
    }
  }

  lemma FlushShort(k: Kind, t: seq<Byte>)
    ensures Flush(k, t) == if t == [] then Done([]) else Fail(DecodeUnit(k, t).bytes)
  {
  }

  /** A padded unit stands before two more letters; every unit up to it is valid. */
  predicate PaddedInside(t: seq<Byte>)
    decreases |t|
  {
    |t| > 4 && Decode4(t[..4]).ok &&
    if t[3] == PAD then |t| > 5 && IsBase(B64, t[4]) && IsBase(B64, t[5]) else PaddedInside(t[4..])
  }

  /** A unit with more behind it decodes as it does alone, unless it is padded. */
  lemma FirstUnit(t: seq<Byte>)
    requires |t| > 4
    ensures Decode4(t).bytes == Decode4(t[..4]).bytes
    ensures Decode4(t).ok <==> Decode4(t[..4]).ok && t[3] != PAD
  {
    hide Digit;
    var u := t[..4];
    assert u[0] == t[0] && u[1] == t[1] && u[2] == t[2] && u[3] == t[3];
  }

  lemma BytesDecoded(t: seq<Byte>)
    ensures Decode4(t).bytes == [] <==> !(|t| > 1 && IsBase(B64, t[0]) && IsBase(B64, t[1]))
    ensures Decode4(t).ok ==> Decode4(t).bytes != []
  {
    hide Digit;
  }

  /** Decoding fails at once, without a byte, exactly when two letters are missing. */
  lemma FailsAtOnce(t: seq<Byte>)
    requires t != []
    ensures DecodeStripped(B64, t) == Fail([]) <==> !(|t| > 1 && IsBase(B64, t[0]) && IsBase(B64, t[1]))
  {
    hide Decode4, Digit;
    StrippedStep(B64, t);
    if |t| >= 4 {
      var u := t[..4];
      assert u[0] == t[0] && u[1] == t[1];
      BytesDecoded(u);
      if Decode4(u).ok { assert Prefixed(Decode4(u).bytes, DecodeStripped(B64, t[4..])).bytes != []; }
    } else {
      BytesDecoded(t);
    }
  }

  /** Without a context Base64 stops at a padded unit that is not the last; with one it goes on.
      The two agree exactly when there is no such unit with something decodable after it. */
  lemma {:induction false} ContextAgrees(t: seq<Byte>)
    ensures DecodeStripped(B64, t) == DecodeWhole(B64, t) <==> !PaddedInside(t)
    decreases |t|
  {
    hide Decode4, DecodeStripped, Digit;
    StrippedStep(B64, t);
    if |t| > 4 {
      var u := Decode4(t[..4]);
      FirstUnit(t);
      if u.ok && t[3] == PAD {
        FailsAtOnce(t[4..]);
        PrefixedInjective(u.bytes, DecodeStripped(B64, t[4..]), Fail([]));
        assert u.bytes + [] == u.bytes;
      } else if u.ok {
        ContextAgrees(t[4..]);
        PrefixedInjective(u.bytes, DecodeStripped(B64, t[4..]), DecodeWhole(B64, t[4..]));
      }
    } else if |t| == 4 {
      assert t[..4] == t && t[4..] == [];
      StrippedStep(B64, []);
    }
  }

  /** The smallest stream on which they differ: `QQ==QQ==` is two bytes with a context and an
      error after one byte without. */
  lemma PaddedTwice()
    ensures var t := [81, 81, 61, 61, 81, 81, 61, 61];
            DecodeStripped(B64, t) == Done([65, 65]) && DecodeWhole(B64, t) == Fail([65])
  {
    var t: seq<Byte> := [81, 81, 61, 61, 81, 81, 61, 61];
    StrippedStep(B64, t);
    assert t[..4] == [81, 81, 61, 61] && t[4..] == [81, 81, 61, 61];
    StrippedStep(B64, t[4..]);
    assert t[4..][..4] == [81, 81, 61, 61] && t[4..][4..] == [];
    StrippedStep(B64, []);
  }

  lemma UnitAlone32(t: seq<Byte>)
    requires |t| >= 8
    ensures Decode8(t) == Decode8(t[..8])
  {
    hide Digit;
    var u := t[..8];
    assert u[0] == t[0] && u[1] == t[1] && u[2] == t[2] && u[3] == t[3];
    assert u[4] == t[4] && u[5] == t[5] && u[6] == t[6] && u[7] == t[7];
  }

  /** In Base32 a unit never looks past its own end, so a context makes no difference at all. */
  lemma {:induction false} ContextAgrees32(t: seq<Byte>)
    ensures DecodeStripped(B32, t) == DecodeWhole(B32, t)
    decreases |t|
  {
    hide Decode8, DecodeStripped;
    StrippedStep(B32, t);
    if |t| >= 8 {
      UnitAlone32(t);
      ContextAgrees32(t[8..]);
    }
  }

  // ----- round trips -----

  /** The bytes eight digits stand for. */
  function Bytes8(v: seq<int>): seq<Byte>
    requires |v| == 8 && forall i :: 0 <= i < 8 ==> 0 <= v[i] < 32
  {
    [v[0] * 8 + v[1] / 4, v[1] % 4 * 64 + v[2] * 2 + v[3] / 16, v[3] % 16 * 16 + v[4] / 2,
     v[4] % 2 * 128 + v[5] * 4 + v[6] / 8, v[6] % 8 * 32 + v[7]]
  }

  function Bytes4(v: seq<int>): seq<Byte>
    requires |v| == 4 && forall i :: 0 <= i < 4 ==> 0 <= v[i] < 64
  {
    [v[0] * 4 + v[1] / 16, v[1] % 16 * 16 + v[2] / 4, v[2] % 4 * 64 + v[3]]
  }

  lemma Decode8Digits(e: seq<Byte>, v: seq<int>, n: nat)
    requires |e| == |v| == 8 && 1 <= n <= 5 && forall i :: 0 <= i < 8 ==> 0 <= v[i] < 32
    requires forall i :: 0 <= i < Letters(B32, n) ==> e[i] != PAD && Digit(B32, e[i]) == v[i]
    requires forall i :: Letters(B32, n) <= i < 8 ==> e[i] == PAD
    ensures Decode8(e) == Done(Bytes8(v)[..n])
  {
    hide Digit;
  }

  lemma Decode4Digits(e: seq<Byte>, v: seq<int>, n: nat)
    requires |e| == |v| == 4 && 1 <= n <= 3 && forall i :: 0 <= i < 4 ==> 0 <= v[i] < 64
    requires forall i :: 0 <= i < Letters(B64, n) ==> e[i] != PAD && Digit(B64, e[i]) == v[i]
    requires forall i :: Letters(B64, n) <= i < 4 ==> e[i] == PAD
    ensures Decode4(e) == Done(Bytes4(v)[..n])
  {
    hide Digit;
  }

  /** Letters are told apart from the padding and stand for their values. */
  lemma UnitDigits(k: Kind, s: seq<Byte>)
    requires 0 < |s| <= PlainUnit(k)
    ensures var e, v := EncodeUnit(k, s), Fields(k, s);
            && (forall i :: 0 <= i < Letters(k, |s|) ==> e[i] != PAD && Digit(k, e[i]) == v[i])
            && (forall i :: Letters(k, |s|) <= i < CodeUnit(k) ==> e[i] == PAD)
  {
    hide Letter, Digit, Fields;
    var e, v := EncodeUnit(k, s), Fields(k, s);
    forall i | 0 <= i < Letters(k, |s|) ensures e[i] != PAD && Digit(k, e[i]) == v[i] {
      DigitOfLetter(k, v[i]);
    }
  }

  lemma UnitRoundTrip64(s: seq<Byte>)
    requires 0 < |s| <= 3
    ensures Decode4(EncodeUnit(B64, s)) == Done(s)
  {
    hide Decode4, EncodeUnit, Digit;
    UnitDigits(B64, s);
    Decode4Digits(EncodeUnit(B64, s), Fields(B64, s), |s|);
    var a, b, c: Byte := In(s, 0), In(s, 1), In(s, 2);
    Parts(a % 4, 16, b / 16);
    Parts(b % 16, 4, c / 64);
    assert Bytes4(Fields(B64, s)) == [a, b, c];
  }

  lemma UnitRoundTrip32(s: seq<Byte>)
    requires 0 < |s| <= 5
    ensures Decode8(EncodeUnit(B32, s)) == Done(s)
  {
    hide Decode8, EncodeUnit, Digit;
    UnitDigits(B32, s);
    Decode8Digits(EncodeUnit(B32, s), Fields(B32, s), |s|);
    FieldsBytes32(s);
    hide Fields, Bytes8;
    assert [In(s, 0), In(s, 1), In(s, 2), In(s, 3), In(s, 4)][..|s|] == s;
  }

  lemma FieldsBytes32(s: seq<Byte>)
    ensures Bytes8(Fields(B32, s)) == [In(s, 0), In(s, 1), In(s, 2), In(s, 3), In(s, 4)]
  {
    hide In;
    var a, b, c, d, f := In(s, 0), In(s, 1), In(s, 2), In(s, 3), In(s, 4);
    FirstByte(a, b);
    SecondByte(a, b, c);
    ThirdByte(b, c, d);
    FourthByte(c, d, f);
    FifthByte(d, f);
  }

  lemma FirstByte(a: Byte, b: Byte)
    ensures a / 8 * 8 + (a % 8 * 4 + b / 64) / 4 == a
  {
    Parts(a % 8, 4, b / 64);
  }

  lemma SecondByte(a: Byte, b: Byte, c: Byte)
    ensures (a % 8 * 4 + b / 64) % 4 * 64 + b / 2 % 32 * 2 + (b % 2 * 16 + c / 16) / 16 == b
  {
    Parts(a % 8, 4, b / 64);
    Parts(b % 2, 16, c / 16);
  }

  lemma ThirdByte(b: Byte, c: Byte, d: Byte)
    ensures (b % 2 * 16 + c / 16) % 16 * 16 + (c % 16 * 2 + d / 128) / 2 == c
  {
    Parts(b % 2, 16, c / 16);
    Parts(c % 16, 2, d / 128);
  }

  lemma FourthByte(c: Byte, d: Byte, f: Byte)
    ensures (c % 16 * 2 + d / 128) % 2 * 128 + d / 4 % 32 * 4 + (d % 4 * 8 + f / 32) / 8 == d
  {
    Parts(c % 16, 2, d / 128);
    Parts(d % 4, 8, f / 32);
  }

  lemma FifthByte(d: Byte, f: Byte)
    ensures (d % 4 * 8 + f / 32) % 8 * 32 + f % 32 == f
  {
    Parts(d % 4, 8, f / 32);
  }

  /** Two bit fields side by side can be taken apart again. */
  lemma Parts(high: nat, width: nat, low: nat)
    requires low < width && (width == 2 || width == 4 || width == 8 || width == 16)
    ensures (high * width + low) / width == high && (high * width + low) % width == low
  {
  }

  lemma UnitRoundTrip(k: Kind, s: seq<Byte>)
    requires 0 < |s| <= PlainUnit(k)
    ensures DecodeUnit(k, EncodeUnit(k, s)) == Done(s)
  {
    if k == B64 { UnitRoundTrip64(s); } else { UnitRoundTrip32(s); }
  }

  lemma {:induction false} DecodeEncoding(k: Kind, s: seq<Byte>)
    ensures DecodeStripped(k, Encode(k, s)) == Done(s)
    decreases |s|
  {
    hide DecodeUnit, EncodeUnit, DecodeStripped;
    StrippedStep(k, Encode(k, s));
    if s != [] {
      var n := Min(|s|, PlainUnit(k));
      var u, rest := EncodeUnit(k, s[..n]), Encode(k, s[n..]);
      assert Encode(k, s)[..CodeUnit(k)] == u && Encode(k, s)[CodeUnit(k)..] == rest;
      UnitRoundTrip(k, s[..n]);
      DecodeEncoding(k, s[n..]);
      assert s[..n] + s[n..] == s;
    }
  }

  /** Decoding an encoding returns the data: in any number of chunks, with newlines anywhere. */
  lemma RoundTrip(k: Kind, s: seq<Byte>, chunks: seq<seq<Byte>>)
    requires Strip(Concat(chunks)) == Encode(k, s)
    ensures Feed(k, [], chunks) == Done(s)
  {
    ChunkingInvariant(k, chunks);
    DecodeEncoding(k, s);
  }

  /** Padding ends an encoding, so the data comes back without a context, too. */
  lemma {:induction false} RoundTripWhole(k: Kind, s: seq<Byte>)
    ensures DecodeWhole(k, Encode(k, s)) == Done(s)
  {
    DecodeEncoding(k, s);
    if k == B32 {
      ContextAgrees32(Encode(k, s));
    } else {
      EncodingNotPaddedInside(s);
      ContextAgrees(Encode(k, s));
    }
  }

  lemma {:induction false} EncodingNotPaddedInside(s: seq<Byte>)
    ensures !PaddedInside(Encode(B64, s))
    decreases |s|
  {
    hide Decode4, Letter;
    if |s| > 3 {
      var t := Encode(B64, s);
      assert t[..4] == EncodeUnit(B64, s[..3]) && t[4..] == Encode(B64, s[3..]);
      assert t[3] == t[..4][3];
      UnitDigits(B64, s[..3]);
      EncodingNotPaddedInside(s[3..]);
    }
  }

  /** The encoding itself holds no newline. */
  lemma {:induction false} EncodingIsStripped(k: Kind, s: seq<Byte>)
    ensures Strip(Encode(k, s)) == Encode(k, s)
    decreases |s|
  {
    hide EncodeUnit;
    if s != [] {
      var n := Min(|s|, PlainUnit(k));
      UnitHasNoNewline(k, s[..n]);
      NoNewlineStripped(EncodeUnit(k, s[..n]));
      StripConcat(EncodeUnit(k, s[..n]), Encode(k, s[n..]));
      EncodingIsStripped(k, s[n..]);
    }
  }

  lemma UnitHasNoNewline(k: Kind, s: seq<Byte>)
    requires 0 < |s| <= PlainUnit(k)
    ensures NEWLINE !in EncodeUnit(k, s)
  {
    hide Letter, Fields;
    forall i | 0 <= i < CodeUnit(k) ensures EncodeUnit(k, s)[i] != NEWLINE {
      DigitOfLetter(k, Fields(k, s)[i]);
    }
  }

  lemma NoNewlineStripped(s: seq<Byte>)
    requires NEWLINE !in s
    ensures Strip(s) == s
  {
  }
}
