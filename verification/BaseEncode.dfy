/** The encoders: one pass over the input, writing into a buffer that may be too short. */
module BaseEncode {
  import opened BaseCodec

  /** The buffer after encoding into its first `outlen` bytes: as much of the encoding as fits,
      a NUL behind it if there is room, and nothing else changed. */
  ghost predicate Encoded(k: Kind, input: seq<Byte>, before: seq<Byte>, after: seq<Byte>, outlen: nat) {
    var full := Encode(k, input);
    var n := Min(outlen, |full|);
    && |after| == |before| && outlen <= |after|
    && after[..n] == full[..n]
    && (n < outlen ==> after[n] == 0)
    && (forall i :: (if n < outlen then n + 1 else n) <= i < |after| ==> after[i] == before[i])
  }

  // ----- Base64 -----

  /** Shifting and masking, as the source does it, picks the same bits. */
  lemma Masks64(a: Byte, b: Byte, c: Byte)
    ensures (a * 16 + b / 16) % 64 == a % 4 * 16 + b / 16
    ensures (b * 4 + c / 64) % 64 == b % 16 * 4 + c / 64
  {
    assert a * 16 + b / 16 == 64 * (a / 4) + (a % 4 * 16 + b / 16);
    assert b * 4 + c / 64 == 64 * (b / 16) + (b % 16 * 4 + c / 64);
  }

  /** The four characters for what is left of the input, as the loops compute them. */
  ghost predicate UnitAt64(full: seq<Byte>, o: nat, rest: seq<Byte>)
    requires o + 4 <= |full|
  {
    var a: int, b: int, c: int := In(rest, 0), In(rest, 1), In(rest, 2);
    && full[o] == Letter(B64, a / 4)
    && full[o + 1] == Letter(B64, (a * 16 + b / 16) % 64)
    && full[o + 2] == (if |rest| > 1 then Letter(B64, (b * 4 + c / 64) % 64) else PAD)
    && full[o + 3] == (if |rest| > 2 then Letter(B64, c % 64) else PAD)
  }

  lemma UnitChars64(full: seq<Byte>, o: nat, rest: seq<Byte>)
    requires rest != [] && o <= |full| && full[o..] == Encode(B64, rest)
    ensures o + 4 <= |full| && full[o + 4..] == Encode(B64, if |rest| < 3 then [] else rest[3..])
    ensures UnitAt64(full, o, rest)
  {
    hide Letter;
    var u := rest[..Min(|rest|, 3)];
    Masks64(In(rest, 0), In(rest, 1), In(rest, 2));
    assert In(u, 0) == In(rest, 0) && In(u, 1) == In(rest, 1) && In(u, 2) == In(rest, 2);
    assert Fields(B64, u) == Fields(B64, rest);
    Ahead(full, o, 4);
  }

  /** Write the next character; `full` is the whole encoding. */
  method Put(out: array<Byte>, o: nat, c: Byte, ghost full: seq<Byte>)
    requires o < out.Length && o < |full| && out[..o] == full[..o] && c == full[o]
    modifies out
    ensures out[..o + 1] == full[..o + 1]
    ensures forall i :: o < i < out.Length ==> out[i] == old(out[i])
  {
    out[o] := c;
  }

  lemma Ahead(full: seq<Byte>, o: nat, n: nat)
    requires o + n <= |full|
    ensures forall i :: 0 <= i < n ==> full[o..][i] == full[o + i]
    ensures full[o..][n..] == full[o + n..]
  {
  }

  lemma InAt(input: seq<Byte>, i: nat)
    requires i <= |input|
    ensures forall j: nat :: In(input[i..], j) == if i + j < |input| then input[i + j] else 0
  {
  }

  /** A complete unit, with room for all of it. */
  method WriteWholeUnit64(input: seq<Byte>, i: nat, out: array<Byte>, o: nat, ghost full: seq<Byte>)
    requires i + 3 <= |input| && o + 4 <= out.Length && o + 4 <= |full|
    requires out[..o] == full[..o] && UnitAt64(full, o, input[i..])
    modifies out
    ensures out[..o + 4] == full[..o + 4]
    ensures forall j :: o + 4 <= j < out.Length ==> out[j] == old(out[j])
  {
    hide Letter, In;
    InAt(input, i);
    var a: int, b: int, c: int := input[i], input[i + 1], input[i + 2];
    Put(out, o, Letter(B64, a / 4), full);
    Put(out, o + 1, Letter(B64, (a * 16 + b / 16) % 64), full);
    Put(out, o + 2, Letter(B64, (b * 4 + c / 64) % 64), full);
    Put(out, o + 3, Letter(B64, c % 64), full);
  }

  method Base64EncodeFast(input: seq<Byte>, out: array<Byte>, ghost units: nat)
    requires |input| == 3 * units && 4 * units <= out.Length
    modifies out
    ensures out[..4 * units] == Encode(B64, input)
    ensures forall i :: 4 * units <= i < out.Length ==> out[i] == old(out[i])
  {
    hide Encode, UnitAt64;
    ghost var full, n := Encode(B64, input), 0;
    EncodeLength(B64, input);
    var i, o := 0, 0;
    assert input[0..] == input && full[0..] == full;
    while i < |input|
      invariant n <= units && i == 3 * n && o == 4 * n
      invariant out[..o] == full[..o]
      invariant full[o..] == Encode(B64, input[i..])
      invariant forall j :: 4 * units <= j < out.Length ==> out[j] == old(out[j])
      decreases |input| - i
    {
      UnitChars64(full, o, input[i..]);
      WriteWholeUnit64(input, i, out, o, full);
      assert input[i..][3..] == input[i + 3..];
      i, o, n := i + 3, o + 4, n + 1;
    }
  }

  /** One turn of the encoding loop: the characters of one unit, until the room runs out. */
  method WriteUnit64(input: seq<Byte>, i: nat, inlen: nat, out: array<Byte>, o: nat, left: nat, ghost full: seq<Byte>)
    returns (o': nat, left': nat, inlen': nat)
    requires 0 < inlen == |input| - i && 0 < left && o + left <= out.Length
    requires o + 4 <= |full| && out[..o] == full[..o]
    requires UnitAt64(full, o, input[i..])
    modifies out
    ensures o' == o + Min(left, 4) && o' + left' == o + left
    ensures out[..o'] == full[..o']
    ensures forall j :: o' <= j < out.Length ==> out[j] == old(out[j])
    ensures left' != 0 ==> inlen' == if inlen < 3 then 0 else inlen - 3
  {
    hide Letter, In;
    InAt(input, i);
    o', left', inlen' := o, left, inlen;
    var a: int := input[i];
    Put(out, o', Letter(B64, a / 4), full);
    o', left' := o' + 1, left' - 1;
    if left' == 0 {
      return;
    }
    inlen' := inlen' - 1;
    var b: int := if inlen' != 0 then input[i + 1] else 0;
    Put(out, o', Letter(B64, (a * 16 + b / 16) % 64), full);
    o', left' := o' + 1, left' - 1;
    if left' == 0 {
      return;
    }
    var c: int := 0;
    if inlen' != 0 {
      inlen' := inlen' - 1;
      c := if inlen' != 0 then input[i + 2] else 0;
      Put(out, o', Letter(B64, (b * 4 + c / 64) % 64), full);
    } else {
      Put(out, o', PAD, full);
    }
    o', left' := o' + 1, left' - 1;
    if left' == 0 {
      return;
    }
    Put(out, o', if inlen' != 0 then Letter(B64, c % 64) else PAD, full);
    o', left' := o' + 1, left' - 1;
    if left' == 0 {
      return;
    }
    if inlen' != 0 {
      inlen' := inlen' - 1;
    }
  }

  method Base64Encode(input: seq<Byte>, out: array<Byte>, outlen: nat)
    requires outlen <= out.Length
    modifies out
    ensures Encoded(B64, input, old(out[..]), out[..], outlen)
  {
    hide Encode, Letter, UnitAt64;
    ghost var full := Encode(B64, input);
    EncodeLength(B64, input);
    if outlen % 4 == 0 && |input| == outlen / 4 * 3 {
      Base64EncodeFast(input, out, outlen / 4);
      return;
    }
    var i, inlen, o, left := 0, |input|, 0, outlen;
    assert input[0..] == input && full[0..] == full;
    while inlen != 0 && left != 0
      invariant 0 <= o && 0 <= left && o + left == outlen && o <= |full| && 0 <= inlen <= |input|
      invariant inlen != 0 ==> i == |input| - inlen
      invariant out[..o] == full[..o]
      invariant left != 0 ==> full[o..] == Encode(B64, input[|input| - inlen..])
      invariant forall j :: o <= j < out.Length ==> out[j] == old(out[j])
      decreases left
    {
      ghost var rest := input[i..];
      UnitChars64(full, o, rest);
      o, left, inlen := WriteUnit64(input, i, inlen, out, o, left, full);
      if left == 0 {
        break;
      }
      if inlen != 0 {
        i := i + 3;
      }
      assert (if |rest| < 3 then [] else rest[3..]) == input[|input| - inlen..];
    }
    if left != 0 {
      assert input[|input| - inlen..] == [];
      EncodeNothing(B64);
      assert full[o..] == [];
      out[o] := 0;
    }
  }

  // ----- Base32 -----

  lemma Masks32(a: Byte, b: Byte, c: Byte, d: Byte, f: Byte)
    ensures a / 8 % 32 == a / 8
    ensures (a * 4 + b / 64) % 32 == a % 8 * 4 + b / 64
    ensures (b * 16 + c / 16) % 32 == b % 2 * 16 + c / 16
    ensures (c * 2 + d / 128) % 32 == c % 16 * 2 + d / 128
    ensures (d * 8 + f / 32) % 32 == d % 4 * 8 + f / 32
  {
    LowBits(a * 4 + b / 64, a / 8, a % 8 * 4 + b / 64);
    LowBits(b * 16 + c / 16, b / 2, b % 2 * 16 + c / 16);
    LowBits(c * 2 + d / 128, c / 16, c % 16 * 2 + d / 128);
    LowBits(d * 8 + f / 32, d / 4, d % 4 * 8 + f / 32);
  }

  lemma LowBits(x: nat, high: nat, low: nat)
    requires x == 32 * high + low && low < 32
    ensures x % 32 == low
  {
  }

  /** The eight characters for what is left of the input, as the loop computes them. */
  ghost predicate UnitAt32(full: seq<Byte>, o: nat, rest: seq<Byte>)
    requires o + 8 <= |full|
  {
    var a: int, b: int, c: int, d: int, f: int := In(rest, 0), In(rest, 1), In(rest, 2), In(rest, 3), In(rest, 4);
    && full[o] == Letter(B32, a / 8 % 32)
    && full[o + 1] == Letter(B32, (a * 4 + b / 64) % 32)
    && full[o + 2] == (if |rest| > 1 then Letter(B32, b / 2 % 32) else PAD)
    && full[o + 3] == (if |rest| > 1 then Letter(B32, (b * 16 + c / 16) % 32) else PAD)
    && full[o + 4] == (if |rest| > 2 then Letter(B32, (c * 2 + d / 128) % 32) else PAD)
    && full[o + 5] == (if |rest| > 3 then Letter(B32, d / 4 % 32) else PAD)
    && full[o + 6] == (if |rest| > 3 then Letter(B32, (d * 8 + f / 32) % 32) else PAD)
    && full[o + 7] == (if |rest| > 4 then Letter(B32, f % 32) else PAD)
  }

  lemma FieldsOfPrefix32(rest: seq<Byte>)
    ensures Fields(B32, rest[..Min(|rest|, 5)]) == Fields(B32, rest)
  {
    var u := rest[..Min(|rest|, 5)];
    assert In(u, 0) == In(rest, 0) && In(u, 1) == In(rest, 1) && In(u, 2) == In(rest, 2);
    assert In(u, 3) == In(rest, 3) && In(u, 4) == In(rest, 4);
  }

  lemma UnitFields32(rest: seq<Byte>)
    requires rest != []
    ensures UnitAt32(EncodeUnit(B32, rest[..Min(|rest|, 5)]), 0, rest)
  {
    hide Letter, In;
    FieldsOfPrefix32(rest);
    Masks32(In(rest, 0), In(rest, 1), In(rest, 2), In(rest, 3), In(rest, 4));
    assert Letters(B32, Min(|rest|, 5)) == [0, 2, 4, 5, 7, 8][Min(|rest|, 5)];
  }

  lemma UnitChars32(full: seq<Byte>, o: nat, rest: seq<Byte>)
    requires rest != [] && o <= |full| && full[o..] == Encode(B32, rest)
    ensures o + 8 <= |full| && full[o + 8..] == Encode(B32, if |rest| < 5 then [] else rest[5..])
    ensures UnitAt32(full, o, rest)
  {
    hide Letter, EncodeUnit;
    UnitFields32(rest);
    var unit := EncodeUnit(B32, rest[..Min(|rest|, 5)]);
    Ahead(full, o, 8);
    assert forall j :: 0 <= j < 8 ==> full[o + j] == full[o..][j] == unit[j];
    assert full[o] == unit[0];
  }

  /** The first four characters of a unit, and its third byte. */
  method WriteHead32(input: seq<Byte>, i: nat, inlen: nat, out: array<Byte>, o: nat, left: nat, ghost full: seq<Byte>)
    returns (o': nat, left': nat, inlen': nat, c: Byte)
    requires 0 < inlen == |input| - i && 0 < left && o + left <= out.Length
    requires o + 8 <= |full| && out[..o] == full[..o]
    requires UnitAt32(full, o, input[i..])
    modifies out
    ensures o' == o + Min(left, 4) && o' + left' == o + left
    ensures out[..o'] == full[..o']
    ensures forall j :: o' <= j < out.Length ==> out[j] == old(out[j])
    ensures left' != 0 ==> inlen' == (if inlen < 2 then 0 else inlen - 2) && c == In(input[i..], 2)
  {
    hide Letter, In;
    InAt(input, i);
    o', left', inlen', c := o, left, inlen, 0;
    var a: int := input[i];
    Put(out, o', Letter(B32, a / 8 % 32), full);
    o', left' := o' + 1, left' - 1;
    if left' == 0 {
      return;
    }
    inlen' := inlen' - 1;
    var b: int := if inlen' != 0 then input[i + 1] else 0;
    Put(out, o', Letter(B32, (a * 4 + b / 64) % 32), full);
    o', left' := o' + 1, left' - 1;
    if left' == 0 {
      return;
    }
    Put(out, o', if inlen' != 0 then Letter(B32, b / 2 % 32) else PAD, full);
    o', left' := o' + 1, left' - 1;
    if left' == 0 {
      return;
    }
    if inlen' != 0 {
      inlen' := inlen' - 1;
      c := if inlen' != 0 then input[i + 2] else 0;
      Put(out, o', Letter(B32, (b * 16 + c / 16) % 32), full);
    } else {
      Put(out, o', PAD, full);
    }
    o', left' := o' + 1, left' - 1;
  }

  /** The last four characters of a unit whose third byte is `c`. */
  method WriteTail32(input: seq<Byte>, i: nat, inlen: nat, c: Byte, out: array<Byte>, o: nat, left: nat,
                     ghost full: seq<Byte>)
    returns (o': nat, left': nat, inlen': nat)
    requires inlen == (if |input| - i < 2 then 0 else |input| - i - 2) && i < |input|
    requires c == In(input[i..], 2)
    requires 0 < left && 4 <= o && o + left <= out.Length
    requires o + 4 <= |full| && out[..o] == full[..o]
    requires UnitAt32(full, o - 4, input[i..])
    modifies out
    ensures o' == o + Min(left, 4) && o' + left' == o + left
    ensures out[..o'] == full[..o']
    ensures forall j :: o' <= j < out.Length ==> out[j] == old(out[j])
    ensures left' != 0 ==> inlen' == if inlen < 3 then 0 else inlen - 3
  {
    hide Letter, In;
    InAt(input, i);
    o', left', inlen' := o, left, inlen;
    var d: int := 0;
    if inlen' != 0 {
      inlen' := inlen' - 1;
      d := if inlen' != 0 then input[i + 3] else 0;
      Put(out, o', Letter(B32, (c * 2 + d / 128) % 32), full);
    } else {
      Put(out, o', PAD, full);
    }
    o', left' := o' + 1, left' - 1;
    if left' == 0 {
      return;
    }
    Put(out, o', if inlen' != 0 then Letter(B32, d / 4 % 32) else PAD, full);
    o', left' := o' + 1, left' - 1;
    if left' == 0 {
      return;
    }
    var f: int := 0;
    if inlen' != 0 {
      inlen' := inlen' - 1;
      f := if inlen' != 0 then input[i + 4] else 0;
      Put(out, o', Letter(B32, (d * 8 + f / 32) % 32), full);
    } else {
      Put(out, o', PAD, full);
    }
    o', left' := o' + 1, left' - 1;
    if left' == 0 {
      return;
    }
    Put(out, o', if inlen' != 0 then Letter(B32, f % 32) else PAD, full);
    o', left' := o' + 1, left' - 1;
    if left' == 0 {
      return;
    }
    if inlen' != 0 {
      inlen' := inlen' - 1;
    }
  }

  /** One turn of the encoding loop: the characters of one unit, until the room runs out. */
  method WriteUnit32(input: seq<Byte>, i: nat, inlen: nat, out: array<Byte>, o: nat, left: nat, ghost full: seq<Byte>)
    returns (o': nat, left': nat, inlen': nat)
    requires 0 < inlen == |input| - i && 0 < left && o + left <= out.Length
    requires o + 8 <= |full| && out[..o] == full[..o]
    requires UnitAt32(full, o, input[i..])
    modifies out
    ensures o' == o + Min(left, 8) && o' + left' == o + left
    ensures out[..o'] == full[..o']
    ensures forall j :: o' <= j < out.Length ==> out[j] == old(out[j])
    ensures left' != 0 ==> inlen' == if inlen < 5 then 0 else inlen - 5
  {
    hide UnitAt32, Letter, In;
    var c;
    o', left', inlen', c := WriteHead32(input, i, inlen, out, o, left, full);
    if left' == 0 {
      return;
    }
    o', left', inlen' := WriteTail32(input, i, inlen', c, out, o', left', full);
  }

  method Base32Encode(input: seq<Byte>, out: array<Byte>, outlen: nat)
    requires outlen <= out.Length
    modifies out
    ensures Encoded(B32, input, old(out[..]), out[..], outlen)
  {
    hide Encode, Letter, UnitAt32;
    ghost var full := Encode(B32, input);
    var i, inlen, o, left := 0, |input|, 0, outlen;
    assert input[0..] == input && full[0..] == full;
    while inlen != 0 && left != 0
      invariant 0 <= o && 0 <= left && o + left == outlen && o <= |full| && 0 <= inlen <= |input|
      invariant inlen != 0 ==> i == |input| - inlen
      invariant out[..o] == full[..o]
      invariant left != 0 ==> full[o..] == Encode(B32, input[|input| - inlen..])
      invariant forall j :: o <= j < out.Length ==> out[j] == old(out[j])
      decreases left
    {
      ghost var rest := input[i..];
      UnitChars32(full, o, rest);
      o, left, inlen := WriteUnit32(input, i, inlen, out, o, left, full);
      if left == 0 {
        break;
      }
      if inlen != 0 {
        i := i + 5;
      }
      assert (if |rest| < 5 then [] else rest[5..]) == input[|input| - inlen..];
    }
    if left != 0 {
      assert input[|input| - inlen..] == [];
      EncodeNothing(B32);
      assert full[o..] == [];
      out[o] := 0;
    }
  }

  lemma EncodeNothing(k: Kind)
    ensures Encode(k, []) == []
  {
  }
}
