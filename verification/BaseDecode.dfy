/** The streaming decoders.  `base64_decode_ctx` and `base32_decode_ctx` are one text up to the
    size of a unit; so are the contexts and `get_4` and `get_8`. */
module BaseDecode {
  import opened BaseCodec

  /** What has been written so far: as much of `bytes` as `outlen` allows. */
  ghost predicate Holds(out: array<Byte>, outlen: nat, o: nat, left: nat, bytes: seq<Byte>)
    reads out
  {
    outlen <= out.Length && o == Min(|bytes|, outlen) && left == outlen - o && out[..o] == bytes[..o]
  }

  /** Write one byte if there is room for it. */
  method PutByte(out: array<Byte>, o: nat, left: nat, b: Byte,
                 ghost outlen: nat, ghost bytes: seq<Byte>, ghost unit: seq<Byte>)
    returns (o': nat, left': nat)
    requires Holds(out, outlen, o, left, bytes + unit)
    modifies out
    ensures Holds(out, outlen, o', left', bytes + (unit + [b]))
    ensures forall i :: outlen <= i < out.Length ==> out[i] == old(out[i])
  {
    o', left' := o, left;
    assert bytes + (unit + [b]) == (bytes + unit) + [b];
    if left != 0 {
      out[o] := b;
      o', left' := o + 1, left - 1;
    }
  }

  /** `decode_4`: write what a unit decodes to, as far as there is room. */
  method DecodeFour(s: seq<Byte>, out: array<Byte>, o: nat, left: nat, ghost outlen: nat, ghost bytes: seq<Byte>)
    returns (ok: bool, o': nat, left': nat)
    requires Holds(out, outlen, o, left, bytes)
    modifies out
    ensures ok == Decode4(s).ok
    ensures Holds(out, outlen, o', left', bytes + Decode4(s).bytes)
    ensures forall i :: outlen <= i < out.Length ==> out[i] == old(out[i])
  {
    hide Digit, Holds;
    ok, o', left' := false, o, left;
    assert bytes + [] == bytes;
    if |s| < 2 {
      return;
    }
    if !IsBase(B64, s[0]) || !IsBase(B64, s[1]) {
      return;
    }
    var b0: Byte := Digit(B64, s[0]) * 4 + Digit(B64, s[1]) / 16;
    o', left' := PutByte(out, o', left', b0, outlen, bytes, []);
    assert [] + [b0] == [b0];
    if |s| == 2 {
      return;
    }
    if s[2] == PAD {
      if |s| != 4 {
        return;
      }
      if s[3] != PAD {
        return;
      }
    } else {
      if !IsBase(B64, s[2]) {
        return;
      }
      var b1: Byte := Digit(B64, s[1]) % 16 * 16 + Digit(B64, s[2]) / 4;
      o', left' := PutByte(out, o', left', b1, outlen, bytes, [b0]);
      assert [b0] + [b1] == [b0, b1];
      if |s| == 3 {
        return;
      }
      if s[3] == PAD {
        if |s| != 4 {
          return;
        }
      } else {
        if !IsBase(B64, s[3]) {
          return;
        }
        var b2: Byte := Digit(B64, s[2]) % 4 * 64 + Digit(B64, s[3]);
        o', left' := PutByte(out, o', left', b2, outlen, bytes, [b0, b1]);
        assert [b0, b1] + [b2] == [b0, b1, b2];
      }
    }
    ok := true;
  }

  /** `decode_8`: write what a unit decodes to, as far as there is room. */
  method DecodeEight(s: seq<Byte>, out: array<Byte>, o: nat, left: nat, ghost outlen: nat, ghost bytes: seq<Byte>)
    returns (ok: bool, o': nat, left': nat)
    requires Holds(out, outlen, o, left, bytes)
    modifies out
    ensures ok == Decode8(s).ok
    ensures Holds(out, outlen, o', left', bytes + Decode8(s).bytes)
    ensures forall i :: outlen <= i < out.Length ==> out[i] == old(out[i])
  {
    hide Digit, Holds;
    ok, o', left' := false, o, left;
    assert bytes + [] == bytes;
    if |s| < 8 {
      return;
    }
    if !IsBase(B32, s[0]) || !IsBase(B32, s[1]) {
      return;
    }
    var b0: Byte := Digit(B32, s[0]) * 8 + Digit(B32, s[1]) / 4;
    o', left' := PutByte(out, o', left', b0, outlen, bytes, []);
    assert [] + [b0] == [b0];
    if s[2] == PAD {
      if s[3] != PAD || s[4] != PAD || s[5] != PAD || s[6] != PAD || s[7] != PAD {
        return;
      }
    } else {
      if !IsBase(B32, s[2]) || !IsBase(B32, s[3]) {
        return;
      }
      var b1: Byte := Digit(B32, s[1]) % 4 * 64 + Digit(B32, s[2]) * 2 + Digit(B32, s[3]) / 16;
      o', left' := PutByte(out, o', left', b1, outlen, bytes, [b0]);
      assert [b0] + [b1] == [b0, b1];
      if s[4] == PAD {
        if s[5] != PAD || s[6] != PAD || s[7] != PAD {
          return;
        }
      } else {
        if !IsBase(B32, s[4]) {
          return;
        }
        var b2: Byte := Digit(B32, s[3]) % 16 * 16 + Digit(B32, s[4]) / 2;
        o', left' := PutByte(out, o', left', b2, outlen, bytes, [b0, b1]);
        assert [b0, b1] + [b2] == [b0, b1, b2];
        if s[5] == PAD {
          if s[6] != PAD || s[7] != PAD {
            return;
          }
        } else {
          if !IsBase(B32, s[5]) || !IsBase(B32, s[6]) {
            return;
          }
          var b3: Byte := Digit(B32, s[4]) % 2 * 128 + Digit(B32, s[5]) * 4 + Digit(B32, s[6]) / 8;
          o', left' := PutByte(out, o', left', b3, outlen, bytes, [b0, b1, b2]);
          assert [b0, b1, b2] + [b3] == [b0, b1, b2, b3];
          if s[7] != PAD {
            if !IsBase(B32, s[7]) {
              return;
            }
            var b4: Byte := Digit(B32, s[6]) % 8 * 32 + Digit(B32, s[7]);
            o', left' := PutByte(out, o', left', b4, outlen, bytes, [b0, b1, b2, b3]);
            assert [b0, b1, b2, b3] + [b4] == [b0, b1, b2, b3, b4];
          }
        }
      }
    }
    ok := true;
  }

  method DecodeOne(k: Kind, s: seq<Byte>, out: array<Byte>, o: nat, left: nat,
                   ghost outlen: nat, ghost bytes: seq<Byte>)
    returns (ok: bool, o': nat, left': nat)
    requires Holds(out, outlen, o, left, bytes)
    modifies out
    ensures ok == DecodeUnit(k, s).ok
    ensures Holds(out, outlen, o', left', bytes + DecodeUnit(k, s).bytes)
    ensures forall i :: outlen <= i < out.Length ==> out[i] == old(out[i])
  {
    hide Decode4, Decode8, Holds;
    if k == B64 {
      ok, o', left' := DecodeFour(s, out, o, left, outlen, bytes);
    } else {
      ok, o', left' := DecodeEight(s, out, o, left, outlen, bytes);
    }
  }

  // ----- the context -----

  class DecodeContext {
    const kind: Kind
    var i: nat
    const buf: array<Byte>

    ghost predicate Valid()
      reads this
    {
      buf.Length == CodeUnit(kind) && i <= CodeUnit(kind)
    }

    /** The characters carried over.  A full buffer has been used up; it is emptied lazily. */
    ghost function Pending(): seq<Byte>
      requires Valid()
      reads this, buf
    {
      if i == CodeUnit(kind) then [] else buf[..i]
    }

    constructor (k: Kind)
      ensures Valid() && fresh(buf) && kind == k && Pending() == []
    {
      kind := k;
      i := 0;
      buf := new Byte[CodeUnit(k)](_ => 0);
    }

    /** Append one character to the buffer. */
    method Keep(c: Byte)
      requires Valid() && i < CodeUnit(kind)
      modifies this`i, buf
      ensures Valid() && i == old(i) + 1 && buf[..i] == old(buf[..i]) + [c]
    {
      buf[i] := c;
      i := i + 1;
    }

    /** Copy characters that are not newlines into the buffer until it is full. */
    method Collect(input: seq<Byte>, pos: nat) returns (pos': nat)
      requires Valid() && pos <= |input| && i < CodeUnit(kind)
      modifies this`i, buf
      ensures Valid() && pos <= pos' <= |input|
      ensures buf[..i] + Strip(input[pos'..]) == old(buf[..i]) + Strip(input[pos..])
      ensures if i < CodeUnit(kind) then pos' == |input| else pos' > pos
    {
      hide Strip;
      ghost var all := buf[..i] + Strip(input[pos..]);
      pos' := pos;
      while pos' < |input|
        invariant pos <= pos' <= |input| && Valid() && i < CodeUnit(kind)
        invariant buf[..i] + Strip(input[pos'..]) == all
      {
        var c := input[pos'];
        StripHead(input, pos');
        pos' := pos' + 1;
        if c != NEWLINE {
          AppendHead(buf[..i], c, Strip(input[pos'..]));
          Keep(c);
          if i == CodeUnit(kind) {
            break;
          }
        } else {
          assert [] + Strip(input[pos'..]) == Strip(input[pos'..]);
        }
      }
    }

    /** `get_4` and `get_8`: the next unit without newlines, straight from the input if possible,
        else collected in the buffer; less than a unit only if the input is used up. */
    method GetUnit(input: seq<Byte>, pos: nat) returns (s: seq<Byte>, pos': nat)
      requires Valid() && pos <= |input|
      modifies this`i, buf
      ensures Valid() && pos <= pos' <= |input| && |s| <= CodeUnit(kind)
      ensures s + Strip(input[pos'..]) == old(Pending()) + Strip(input[pos..])
      ensures |s| < CodeUnit(kind) ==> pos' == |input| && Pending() == s
      ensures |s| == CodeUnit(kind) ==> pos' > pos && Pending() == []
    {
      hide Strip;
      var n := CodeUnit(kind);
      if i == n {
        i := 0;
      }
      assert buf[..i] == old(Pending());
      if i == 0 {
        if n <= |input| - pos && NEWLINE !in input[pos..pos + n] {
          StripSplit(input, pos, n);
          assert [] + Strip(input[pos..]) == Strip(input[pos..]);
          return input[pos..pos + n], pos + n;
        }
      }
      pos' := Collect(input, pos);
      s := buf[..i];
    }
  }

  lemma AppendHead(s: seq<Byte>, c: Byte, tail: seq<Byte>)
    ensures s + ([c] + tail) == (s + [c]) + tail
  {
  }

  lemma StripHead(s: seq<Byte>, p: nat)
    requires p < |s|
    ensures Strip(s[p..]) == (if s[p] == NEWLINE then [] else [s[p]]) + Strip(s[p + 1..])
  {
    assert s[p..][1..] == s[p + 1..];
  }

  lemma StripSplit(s: seq<Byte>, p: nat, n: nat)
    requires p + n <= |s| && NEWLINE !in s[p..p + n]
    ensures Strip(s[p..]) == s[p..p + n] + Strip(s[p + n..])
  {
    assert s[p..] == s[p..p + n] + s[p + n..];
    StripConcat(s[p..p + n], s[p + n..]);
    NoNewlineStripped(s[p..p + n]);
  }

  // ----- what is left to decode -----

  datatype Mode = Whole | Streaming | Flushing

  /** The outcome of a call that still has `rest` to read, with `pending` in the context. */
  function Remaining(k: Kind, mode: Mode, pending: seq<Byte>, rest: seq<Byte>): Groups {
    match mode
    case Whole => var d := DecodeWhole(k, rest); Groups(d.bytes, d.ok, [])
    case Streaming => DecodeGroups(k, pending + Strip(rest))
    case Flushing => var d := Flush(k, pending); Groups(d.bytes, d.ok, [])
  }

  function After(bytes: seq<Byte>, g: Groups): Groups {
    Groups(bytes + g.bytes, g.ok, g.rest)
  }

  lemma AfterAfter(a: seq<Byte>, b: seq<Byte>, g: Groups)
    ensures After(a, After(b, g)) == After(a + b, g)
  {
    assert a + (b + g.bytes) == (a + b) + g.bytes;
  }

  /** A valid unit has no newline in it, and no use for what follows it. */
  lemma ValidUnit(k: Kind, r: seq<Byte>)
    requires DecodeUnit(k, r).ok
    ensures |r| >= CodeUnit(k) && NEWLINE !in r[..CodeUnit(k)]
    ensures DecodeUnit(k, r[..CodeUnit(k)]) == DecodeUnit(k, r)
  {
    assert Digit(k, NEWLINE) == -1;
    if k == B64 {
      if |r| > 4 { FirstUnit(r); } else { assert r[..4] == r; }
      hide Digit;
      assert r[0] != NEWLINE && r[1] != NEWLINE && r[2] != NEWLINE && r[3] != NEWLINE;
    } else {
      UnitAlone32(r);
      NoNewline32(r);
    }
  }

  lemma NoNewline32(r: seq<Byte>)
    requires Decode8(r).ok
    ensures NEWLINE !in r[..8]
  {
    assert Digit(B32, NEWLINE) == -1;
    hide Digit;
    assert r[0] != NEWLINE && r[1] != NEWLINE && r[2] != NEWLINE && r[3] != NEWLINE;
    assert r[4] != NEWLINE && r[5] != NEWLINE && r[6] != NEWLINE && r[7] != NEWLINE;
  }

  /** Decoding a unit where it stands in the input. */
  lemma FastStep(k: Kind, mode: Mode, input: seq<Byte>, pos: nat)
    requires mode != Flushing && pos <= |input|
    requires DecodeUnit(k, input[pos..]).ok
    ensures pos + CodeUnit(k) <= |input|
    ensures Remaining(k, mode, [], input[pos..]) ==
            After(DecodeUnit(k, input[pos..]).bytes, Remaining(k, mode, [], input[pos + CodeUnit(k)..]))
  {
    hide DecodeUnit;
    var n, r := CodeUnit(k), input[pos..];
    ValidUnit(k, r);
    assert r[n..] == input[pos + n..];
    if mode == Streaming {
      assert r[..n] == input[pos..pos + n];
      StripSplit(input, pos, n);
      assert [] + Strip(r) == Strip(r) && [] + Strip(r[n..]) == Strip(r[n..]);
      assert Strip(r)[..n] == r[..n] && Strip(r)[n..] == Strip(r[n..]);
    }
  }

  lemma StartsWithNewline(k: Kind, r: seq<Byte>)
    requires r == [] || r[0] == NEWLINE
    ensures DecodeUnit(k, r) == Fail([])
  {
  }

  lemma NewlineStep(k: Kind, pending: seq<Byte>, input: seq<Byte>, pos: nat)
    requires pos < |input| && input[pos] == NEWLINE
    ensures Remaining(k, Streaming, pending, input[pos..]) == Remaining(k, Streaming, pending, input[pos + 1..])
  {
    StripHead(input, pos);
    assert [] + Strip(input[pos + 1..]) == Strip(input[pos + 1..]);
  }

  /** Decoding a unit that was collected without newlines. */
  lemma SlowStep(k: Kind, s: seq<Byte>, pending: seq<Byte>, rest: seq<Byte>, rest': seq<Byte>)
    requires s + Strip(rest') == pending + Strip(rest) && |s| == CodeUnit(k)
    ensures var u := DecodeUnit(k, s);
            Remaining(k, Streaming, pending, rest) ==
            if u.ok then After(u.bytes, Remaining(k, Streaming, [], rest')) else Groups(u.bytes, false, [])
  {
    hide DecodeUnit;
    var t := pending + Strip(rest);
    assert t[..|s|] == s && t[|s|..] == Strip(rest') == [] + Strip(rest');
  }

  lemma ShortStep(k: Kind, s: seq<Byte>, pending: seq<Byte>, rest: seq<Byte>)
    requires s + Strip([]) == pending + Strip(rest) && |s| < CodeUnit(k)
    ensures Remaining(k, Streaming, pending, rest) == Groups([], true, s)
  {
    StripNothing();
    assert s + [] == s;
  }

  // ----- the decoder -----

  ghost function ModeOf(ctx: DecodeContext?, input: seq<Byte>): Mode {
    if ctx == null then Whole else if input == [] then Flushing else Streaming
  }

  ghost function PendingOf(ctx: DecodeContext?): seq<Byte>
    requires ctx != null ==> ctx.Valid()
    reads ctx, if ctx == null then {} else {ctx.buf}
  {
    if ctx == null then [] else ctx.Pending()
  }

  lemma HoldsLess(out: array<Byte>, outlen: nat, o: nat, left: nat, o': nat, left': nat,
                  bytes: seq<Byte>, more: seq<Byte>)
    requires Holds(out, outlen, o', left', bytes + more)
    requires o == Min(|bytes|, outlen) && left == outlen - o
    ensures Holds(out, outlen, o, left, bytes)
  {
    assert bytes[..o] == (bytes + more)[..o'][..o] == out[..o'][..o] == out[..o];
  }

  /** The inner loop: unit after unit, straight from the input, up to the first that fails. */
  method DecodeRun(k: Kind, ghost mode: Mode, input: seq<Byte>, pos: nat, out: array<Byte>, o: nat, left: nat,
                   ghost outlen: nat, ghost bytes: seq<Byte>)
    returns (pos': nat, o': nat, left': nat, oSave: nat, leftSave: nat, ghost bytes': seq<Byte>)
    requires mode != Flushing && pos <= |input| && Holds(out, outlen, o, left, bytes)
    modifies out
    ensures pos <= pos' <= |input|
    ensures !DecodeUnit(k, input[pos'..]).ok
    ensures After(bytes, Remaining(k, mode, [], input[pos..])) == After(bytes', Remaining(k, mode, [], input[pos'..]))
    ensures Holds(out, outlen, o', left', bytes' + DecodeUnit(k, input[pos'..]).bytes)
    ensures Holds(out, outlen, oSave, leftSave, bytes')
    ensures forall i :: outlen <= i < out.Length ==> out[i] == old(out[i])
  {
    hide DecodeUnit, Remaining, After;
    pos', o', left', bytes' := pos, o, left, bytes;
    while true
      invariant pos <= pos' <= |input| && Holds(out, outlen, o', left', bytes')
      invariant After(bytes, Remaining(k, mode, [], input[pos..])) ==
                After(bytes', Remaining(k, mode, [], input[pos'..]))
      invariant forall i :: outlen <= i < out.Length ==> out[i] == old(out[i])
      decreases |input| - pos'
    {
      oSave, leftSave := o', left';
      ghost var u := DecodeUnit(k, input[pos'..]);
      var ok;
      ok, o', left' := DecodeOne(k, input[pos'..], out, o', left', outlen, bytes');
      if !ok {
        HoldsLess(out, outlen, oSave, leftSave, o', left', bytes', u.bytes);
        break;
      }
      FastStep(k, mode, input, pos');
      AfterAfter(bytes', u.bytes, Remaining(k, mode, [], input[pos' + CodeUnit(k)..]));
      pos', bytes' := pos' + CodeUnit(k), bytes' + u.bytes;
    }
  }

  lemma NothingYet(out: array<Byte>, outlen: nat, want: Groups)
    requires outlen <= out.Length
    ensures Holds(out, outlen, 0, outlen, []) && want == After([], want)
  {
  }

  /** The input is used up and no unit is under way that could be completed. */
  lemma NothingLeft(k: Kind, mode: Mode, pending: seq<Byte>, rest: seq<Byte>, bytes: seq<Byte>)
    requires rest == [] && mode != Flushing && |pending| < CodeUnit(k) && (mode == Whole ==> pending == [])
    ensures After(bytes, Remaining(k, mode, pending, rest)) == Groups(bytes, true, pending)
    ensures DecodeUnit(k, rest) == Fail([]) && bytes + [] == bytes
  {
    assert pending + Strip(rest) == pending;
  }

  lemma WholeFails(k: Kind, rest: seq<Byte>, bytes: seq<Byte>)
    requires rest != [] && !DecodeUnit(k, rest).ok
    ensures After(bytes, Remaining(k, Whole, [], rest)) == Groups(bytes + DecodeUnit(k, rest).bytes, false, [])
  {
    hide DecodeUnit;
  }

  lemma CtxDone(k: Kind, mode: Mode, s: seq<Byte>, pending: seq<Byte>, rest: seq<Byte>, rest': seq<Byte>,
                bytes: seq<Byte>)
    requires s + Strip(rest') == pending + Strip(rest) && |s| < CodeUnit(k) && rest' == []
    requires mode == Streaming || (mode == Flushing && rest == [] && s == [])
    ensures After(bytes, Remaining(k, mode, pending, rest)) == Groups(bytes, true, s)
  {
    hide DecodeUnit;
    assert bytes + [] == bytes;
    if mode == Streaming { ShortStep(k, s, pending, rest); }
  }

  lemma UnitFails(k: Kind, mode: Mode, s: seq<Byte>, pending: seq<Byte>, rest: seq<Byte>, rest': seq<Byte>,
                  bytes: seq<Byte>)
    requires s + Strip(rest') == pending + Strip(rest) && s != [] && !DecodeUnit(k, s).ok
    requires if mode == Flushing then rest == [] && rest' == [] else mode == Streaming && |s| == CodeUnit(k)
    ensures After(bytes, Remaining(k, mode, pending, rest)) == Groups(bytes + DecodeUnit(k, s).bytes, false, [])
  {
    hide DecodeUnit;
    if mode == Streaming {
      SlowStep(k, s, pending, rest, rest');
    } else {
      StripNothing();
      assert s == s + [] == pending + [] == pending;
    }
  }

  lemma UnitSucceeds(k: Kind, mode: Mode, s: seq<Byte>, pending: seq<Byte>, rest: seq<Byte>, rest': seq<Byte>,
                     bytes: seq<Byte>)
    requires s + Strip(rest') == pending + Strip(rest) && mode == Streaming && |s| == CodeUnit(k) && DecodeUnit(k, s).ok
    ensures After(bytes, Remaining(k, mode, pending, rest)) ==
            After(bytes + DecodeUnit(k, s).bytes, Remaining(k, mode, [], rest'))
  {
    hide DecodeUnit;
    SlowStep(k, s, pending, rest, rest');
    AfterAfter(bytes, DecodeUnit(k, s).bytes, Remaining(k, mode, [], rest'));
  }

  lemma HoldsMeans(out: array<Byte>, outlen: nat, o: nat, left: nat, bytes: seq<Byte>)
    requires Holds(out, outlen, o, left, bytes)
    ensures left <= outlen && outlen - left == Min(|bytes|, outlen) && out[..outlen - left] == bytes[..outlen - left]
  {
  }

  /** `base64_decode_ctx` and `base32_decode_ctx`. */
  method DecodeCtx(k: Kind, ctx: DecodeContext?, input: seq<Byte>, out: array<Byte>, outlen: nat)
    returns (ok: bool, outlen': nat)
    requires outlen <= out.Length
    requires ctx != null ==> ctx.Valid() && ctx.kind == k && ctx.buf != out
    modifies out, ctx, if ctx == null then {} else {ctx.buf}
    ensures ctx != null ==> ctx.Valid()
    ensures var r := Remaining(k, ModeOf(ctx, input), old(PendingOf(ctx)), input);
            && ok == r.ok
            && outlen' == Min(|r.bytes|, outlen)
            && out[..outlen'] == r.bytes[..outlen']
            && (ok && ctx != null ==> ctx.Pending() == r.rest)
    ensures forall i :: outlen <= i < out.Length ==> out[i] == old(out[i])
  {
    hide DecodeUnit, Remaining, Strip, After, Holds;
    var o, left, pos, inlen := 0, outlen, 0, |input|;
    var ctxI := if ctx == null then 0 else ctx.i;
    var flushCtx := ctx != null && inlen == 0;
    ghost var mode := ModeOf(ctx, input);
    ghost var bytes: seq<Byte> := [];
    ghost var want := Remaining(k, mode, PendingOf(ctx), input);
    assert input[0..] == input;
    NothingYet(out, outlen, want);
    while true
      invariant pos <= |input| && inlen == |input| - pos
      invariant ctx != null ==> ctx.Valid()
      invariant Holds(out, outlen, o, left, bytes)
      invariant ctxI == 0 ==> PendingOf(ctx) == []
      invariant flushCtx ==> pos == 0
      invariant want == After(bytes, Remaining(k, mode, PendingOf(ctx), input[pos..]))
      invariant forall i :: outlen <= i < out.Length ==> out[i] == old(out[i])
      decreases |input| - pos
    {
      var oSave, leftSave := o, left;
      ghost var tried: seq<Byte> := [];
      assert bytes + tried == bytes;
      if ctxI == 0 && !flushCtx {
        pos, o, left, oSave, leftSave, bytes := DecodeRun(k, mode, input, pos, out, o, left, outlen, bytes);
        tried := DecodeUnit(k, input[pos..]).bytes;
        inlen := |input| - pos;
      }
      if inlen == 0 && !flushCtx {
        NothingLeft(k, mode, PendingOf(ctx), input[pos..], bytes);
        break;
      }
      if inlen != 0 && input[pos] == NEWLINE && ctx != null {
        StartsWithNewline(k, input[pos..]);
        NewlineStep(k, ctx.Pending(), input, pos);
        assert bytes + [] == bytes;
        pos := pos + 1;
        inlen := inlen - 1;
        continue;
      }
      o, left := oSave, leftSave;
      if ctx == null {
        var good;
        good, o, left := DecodeOne(k, input[pos..], out, o, left, outlen, bytes);
        WholeFails(k, input[pos..], bytes);
        break;
      }
      ghost var pending := ctx.Pending();
      var s, next := ctx.GetUnit(input, pos);
      inlen := |s|;
      if inlen == 0 || (inlen < CodeUnit(k) && !flushCtx) {
        CtxDone(k, mode, s, pending, input[pos..], input[next..], bytes);
        inlen := 0;
        break;
      }
      var good;
      good, o, left := DecodeOne(k, s, out, o, left, outlen, bytes);
      if !good {
        UnitFails(k, mode, s, pending, input[pos..], input[next..], bytes);
        break;
      }
      UnitSucceeds(k, mode, s, pending, input[pos..], input[next..], bytes);
      bytes := bytes + DecodeUnit(k, s).bytes;
      pos := next;
      inlen := |input| - pos;
    }
    HoldsMeans(out, outlen, o, left, want.bytes);
    outlen' := outlen - left;
    ok := inlen == 0;
  }
}
