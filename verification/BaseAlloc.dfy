/** Length arithmetic in `size_t`, and the wrappers that allocate the output. */
module BaseAlloc {
  import opened BaseCodec
  import opened BaseEncode
  import opened BaseDecode

  /** `1 + BASE64_LENGTH (inlen)` or `1 + BASE32_LENGTH (inlen)`, each operation modulo `width`. */
  function WrappedLength(k: Kind, inlen: nat, width: nat): nat
    requires width > 0
  {
    var units := (inlen + PlainUnit(k) - 1) % width / PlainUnit(k);
    (1 + units * CodeUnit(k) % width) % width
  }

  /** The true length of the encoding. */
  function EncodedLength(k: Kind, inlen: nat): nat {
    (inlen + PlainUnit(k) - 1) / PlainUnit(k) * CodeUnit(k)
  }

  lemma Wrap(x: nat, width: nat)
    requires width > 0 && x < 2 * width
    ensures x % width == if x < width then x else x - width
  {
    if x >= width {
      assert x == width + (x - width);
    }
  }

  lemma OverflowCheck64(inlen: nat, width: nat)
    requires width % 8 == 0 && 32 <= width && inlen < width
    ensures inlen > WrappedLength(B64, inlen, width) <==> EncodedLength(B64, inlen) + 1 >= width
    ensures inlen <= WrappedLength(B64, inlen, width) ==>
              WrappedLength(B64, inlen, width) == EncodedLength(B64, inlen) + 1
  {
    Wrap(inlen + 2, width);
    var units := (inlen + 2) % width / 3;
    Wrap(units * 4, width);
    Wrap(1 + units * 4 % width, width);
  }

  lemma OverflowCheck32(inlen: nat, width: nat)
    requires width % 8 == 0 && 32 <= width && inlen < width
    ensures inlen > WrappedLength(B32, inlen, width) <==> EncodedLength(B32, inlen) + 1 >= width
    ensures inlen <= WrappedLength(B32, inlen, width) ==>
              WrappedLength(B32, inlen, width) == EncodedLength(B32, inlen) + 1
  {
    Wrap(inlen + 4, width);
    var units := (inlen + 4) % width / 5;
    Wrap(units * 8, width);
    Wrap(1 + units * 8 % width, width);
  }

  /** The one comparison `inlen > outlen` is a sufficient overflow check, and never a false alarm,
      for both codecs and any word of at least 32 values whose number is a multiple of eight. */
  lemma OverflowCheckExact(k: Kind, inlen: nat, width: nat)
    requires width % 8 == 0 && 32 <= width && inlen < width
    ensures inlen > WrappedLength(k, inlen, width) <==> EncodedLength(k, inlen) + 1 >= width
    ensures inlen <= WrappedLength(k, inlen, width) ==> WrappedLength(k, inlen, width) == EncodedLength(k, inlen) + 1
  {
    if k == B64 { OverflowCheck64(inlen, width); } else { OverflowCheck32(inlen, width); }
  }

  lemma LengthIsEncoded(k: Kind, input: seq<Byte>)
    ensures |Encode(k, input)| == EncodedLength(k, |input|)
  {
    EncodeLength(k, input);
  }

  const SIZE_VALUES: nat := 0x1_0000_0000_0000_0000

  /** `base64_encode_alloc` and `base32_encode_alloc` on a 64-bit host, given that the allocation
      succeeds: no output exactly when the encoding and its NUL do not fit a `size_t`. */
  method EncodeAlloc(k: Kind, input: seq<Byte>) returns (out: array?<Byte>, len: nat)
    requires |input| < SIZE_VALUES
    ensures out == null <==> |Encode(k, input)| + 1 >= SIZE_VALUES
    ensures out == null ==> len == 0
    ensures out != null ==> fresh(out) && out[..] == Encode(k, input) + [0] && len == |Encode(k, input)|
  {
    hide Encode, WrappedLength, EncodedLength;
    LengthIsEncoded(k, input);
    OverflowCheckExact(k, |input|, SIZE_VALUES);
    var outlen := WrappedLength(k, |input|, SIZE_VALUES);
    if |input| > outlen {
      return null, 0;
    }
    var buffer := new Byte[outlen](_ => 0);
    if k == B64 {
      Base64Encode(input, buffer, outlen);
    } else {
      Base32Encode(input, buffer, outlen);
    }
    assert buffer[..] == buffer[..outlen - 1] + [buffer[outlen - 1]];
    return buffer, outlen - 1;
  }

  // ----- the decoders' output size -----

  function NeedLen(k: Kind, inlen: nat): nat {
    PlainUnit(k) * (inlen / CodeUnit(k)) + PlainUnit(k)
  }

  lemma {:induction false} GroupsSize(k: Kind, t: seq<Byte>, units: nat)
    requires |t| < CodeUnit(k) * (units + 1)
    ensures |DecodeGroups(k, t).bytes| <= PlainUnit(k) * units
    decreases |t|
  {
    hide DecodeUnit;
    if |t| >= CodeUnit(k) {
      assert units > 0;
      var u := DecodeUnit(k, t[..CodeUnit(k)]);
      GroupsSize(k, t[CodeUnit(k)..], units - 1);
    }
  }

  lemma {:induction false} WholeSize(k: Kind, t: seq<Byte>, units: nat)
    requires |t| < CodeUnit(k) * (units + 1)
    ensures |DecodeWhole(k, t).bytes| <= PlainUnit(k) * (units + 1)
    decreases |t|
  {
    hide DecodeUnit;
    var u := DecodeUnit(k, t);
    if t != [] && u.ok && |t| >= CodeUnit(k) {
      assert units > 0;
      WholeSize(k, t[CodeUnit(k)..], units - 1);
    }
  }

  /** The buffer the wrappers allocate is large enough for every call, whatever is in the context;
      and computing its size does not overflow. */
  lemma NeedLenSuffices(k: Kind, mode: Mode, pending: seq<Byte>, input: seq<Byte>)
    requires |pending| < CodeUnit(k)
    ensures |Remaining(k, mode, pending, input).bytes| <= NeedLen(k, |input|)
    ensures |input| < SIZE_VALUES ==> NeedLen(k, |input|) < SIZE_VALUES
  {
    hide DecodeUnit, DecodeGroups, DecodeWhole;
    var units := |input| / CodeUnit(k);
    match mode
    case Whole => WholeSize(k, input, units);
    case Streaming => GroupsSize(k, pending + Strip(input), units + 1);
    case Flushing =>
  }

  /** `base64_decode_alloc_ctx` and `base32_decode_alloc_ctx`: the output is never cut short. */
  method DecodeAlloc(k: Kind, ctx: DecodeContext?, input: seq<Byte>) returns (out: array?<Byte>, outlen: nat)
    requires ctx != null ==> ctx.Valid() && ctx.kind == k
    modifies ctx, if ctx == null then {} else {ctx.buf}
    ensures ctx != null ==> ctx.Valid()
    ensures var r := Remaining(k, ModeOf(ctx, input), old(PendingOf(ctx)), input);
            && (out != null <==> r.ok)
            && (out != null ==> fresh(out) && outlen <= out.Length && out[..outlen] == r.bytes)
            && (out != null && ctx != null ==> ctx.Pending() == r.rest)
  {
    hide Remaining;
    NeedLenSuffices(k, ModeOf(ctx, input), PendingOf(ctx), input);
    var needlen := PlainUnit(k) * (|input| / CodeUnit(k)) + PlainUnit(k);
    var buffer := new Byte[needlen](_ => 0);
    var ok;
    ok, outlen := DecodeCtx(k, ctx, input, buffer, needlen);
    out := if ok then buffer else null;
  }

  // ----- decoding a whole file -----

  lemma FeedStep(k: Kind, pending: seq<Byte>, chunks: seq<seq<Byte>>, bytes: seq<Byte>)
    requires chunks != []
    ensures var r := Remaining(k, Streaming, pending, chunks[0]);
            Prefixed(bytes, Feed(k, pending, chunks)) ==
            if r.ok then Prefixed(bytes + r.bytes, Feed(k, r.rest, chunks[1..])) else Fail(bytes + r.bytes)
  {
    hide DecodeGroups;
    var r := Remaining(k, Streaming, pending, chunks[0]);
    var later := Feed(k, r.rest, chunks[1..]);
    assert bytes + (r.bytes + later.bytes) == (bytes + r.bytes) + later.bytes;
  }

  /** One call, with a buffer of the documented size. */
  method DecodeChunk(k: Kind, ctx: DecodeContext, chunk: seq<Byte>) returns (bytes: seq<Byte>, ok: bool)
    requires ctx.Valid() && ctx.kind == k
    modifies ctx, ctx.buf
    ensures ctx.Valid()
    ensures var r := Remaining(k, ModeOf(ctx, chunk), old(ctx.Pending()), chunk);
            bytes == r.bytes && ok == r.ok && (ok ==> ctx.Pending() == r.rest)
  {
    hide Remaining;
    NeedLenSuffices(k, ModeOf(ctx, chunk), ctx.Pending(), chunk);
    var buffer := new Byte[NeedLen(k, |chunk|)](_ => 0);
    var n;
    ok, n := DecodeCtx(k, ctx, chunk, buffer, buffer.Length);
    bytes := buffer[..n];
  }

  /** Feeding a file to the decoder chunk by chunk, stopping at the first call that fails, and
      flushing the context at the end unless it is empty, decodes the newline-free file unit by
      unit.  The last read may yield nothing; such a call flushes, too. */
  method DecodeChunks(k: Kind, chunks: seq<seq<Byte>>) returns (bytes: seq<Byte>, ok: bool)
    requires forall j :: 0 <= j < |chunks| - 1 ==> chunks[j] != []
    ensures Decoded(bytes, ok) == DecodeStripped(k, Strip(Concat(chunks)))
  {
    hide Remaining, Feed, DecodeStripped, Strip, Concat;
    ChunkingInvariant(k, chunks);
    var ctx := new DecodeContext(k);
    bytes := [];
    assert Prefixed([], Feed(k, [], chunks)) == Feed(k, [], chunks);
    var j := 0;
    assert chunks[0..] == chunks;
    while j < |chunks|
      invariant 0 <= j <= |chunks| && ctx.Valid() && ctx.kind == k && fresh(ctx) && fresh(ctx.buf)
      invariant Feed(k, [], chunks) == Prefixed(bytes, Feed(k, ctx.Pending(), chunks[j..]))
    {
      assert chunks[j..][0] == chunks[j] && chunks[j..][1..] == chunks[j + 1..];
      if chunks[j] != [] {
        FeedStep(k, ctx.Pending(), chunks[j..], bytes);
      } else {
        EmptyLast(k, ctx.Pending(), chunks[j..], bytes);
      }
      var more;
      more, ok := DecodeChunk(k, ctx, chunks[j]);
      bytes := bytes + more;
      if !ok {
        return;
      }
      j := j + 1;
    }
    assert chunks[j..] == [];
    FeedNothing(k, ctx.Pending());
    NothingPending(k);
    ok := true;
    if ctx.i != 0 {
      var more;
      more, ok := DecodeChunk(k, ctx, []);
      bytes := bytes + more;
    }
  }

  lemma EmptyLast(k: Kind, pending: seq<Byte>, chunks: seq<seq<Byte>>, bytes: seq<Byte>)
    requires chunks == [[]] && |pending| < CodeUnit(k)
    ensures var r := Remaining(k, Flushing, pending, []);
            Prefixed(bytes, Feed(k, pending, chunks)) ==
            if r.ok then Prefixed(bytes + r.bytes, Feed(k, r.rest, chunks[1..])) else Fail(bytes + r.bytes)
  {
    hide Feed, DecodeUnit;
    FeedEmpty(k, pending);
    FeedNothing(k, []);
    assert chunks[1..] == [];
    if pending == [] {
      assert bytes + [] == bytes;
    }
  }

  /** An empty chunk leaves what is pending to the flush. */
  lemma FeedEmpty(k: Kind, pending: seq<Byte>)
    requires |pending| < CodeUnit(k)
    ensures Feed(k, pending, [[]]) == Flush(k, pending)
  {
    hide DecodeUnit, Flush;
    var chunks: seq<seq<Byte>> := [[]];
    StripNothing();
    assert pending + Strip(chunks[0]) == pending;
    assert DecodeGroups(k, pending) == Groups([], true, pending);
    assert chunks[1..] == [];
    assert Feed(k, pending, []) == Flush(k, pending);
    assert [] + Flush(k, pending).bytes == Flush(k, pending).bytes;
  }

  lemma NothingPending(k: Kind)
    ensures Remaining(k, Flushing, [], []) == Groups([], true, [])
  {
  }

  lemma FeedNothing(k: Kind, pending: seq<Byte>)
    ensures var last := Remaining(k, Flushing, pending, []);
            Feed(k, pending, []) == Decoded(last.bytes, last.ok)
  {
  }
}
