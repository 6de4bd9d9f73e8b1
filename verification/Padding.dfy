/** The padding layer as a pure codec: what the encoder puts on the wire and what a
    decoder makes of any byte string, whole or cut. */
module Padding {

  type Byte = x: int | 0 <= x < 256

  const NUM_FIRST_PADDINGS: nat := 8
  const BUFFER_SIZE: nat := 65536
  const HEADER_SIZE: nat := 3

  function Flatten(parts: seq<seq<Byte>>): seq<Byte> {
    if parts == [] then [] else parts[0] + Flatten(parts[1..])
  }

  function Zeros(n: nat): seq<Byte> {
    seq(n, _ => 0)
  }

  /** The largest payload one framed read can return: the read may use the buffer from
      offset 3 up to `65536 - 3 - pad`. */
  function MaxPayload(pad: Byte): (max: nat)
    ensures HEADER_SIZE + max + pad == 65536 - 3
  {
    BUFFER_SIZE - HEADER_SIZE - pad - HEADER_SIZE
  }

  function Frame(payload: seq<Byte>, pad: Byte): seq<Byte>
    requires |payload| < BUFFER_SIZE
  {
    [|payload| / 256, |payload| % 256, pad] + payload + Zeros(pad)
  }

  /** Every read returned something, and the framed ones left room for header and padding. */
  ghost predicate Fits(parts: seq<seq<Byte>>, pads: seq<Byte>) {
    forall i | 0 <= i < |parts| ::
      && parts[i] != []
      && (i < |pads| ==> |parts[i]| <= MaxPayload(pads[i]))
  }

  /** The wire image of a list of reads: one frame for each padding size, then raw bytes. */
  ghost function Encode(parts: seq<seq<Byte>>, pads: seq<Byte>): seq<Byte>
    requires Fits(parts, pads)
  {
    if parts == [] then []
    else if pads == [] then Flatten(parts)
    else Frame(parts[0], pads[0]) + Encode(parts[1..], pads[1..])
  }

  function Min(a: nat, b: nat): nat {
    if a < b then a else b
  }

  function PayloadLength(s: seq<Byte>): nat
    requires |s| >= HEADER_SIZE
  {
    (s[0] as int) * 256 + (s[1] as int)
  }

  /** The payload a decoder takes from the frame at the front of `s`, and the bytes left after
      it. The frame may be cut short; the padding of an empty frame is not skipped. */
  function TakeFrame(s: seq<Byte>): (seq<Byte>, seq<Byte>)
    requires |s| >= HEADER_SIZE
  {
    var len: nat := PayloadLength(s);
    var body := s[HEADER_SIZE..];
    if len == 0 then ([], body)
    else (body[..Min(len, |body|)], body[Min(len + s[2] as int, |body|)..])
  }

  /** What a decoder with `slots` frames left outputs for the byte string `s`. A string that
      ends inside a header adds nothing. */
  function Decode(s: seq<Byte>, slots: nat): seq<Byte>
    decreases slots
  {
    if slots == 0 then s
    else if |s| < HEADER_SIZE then []
    else TakeFrame(s).0 + Decode(TakeFrame(s).1, slots - 1)
  }

  /** Whether the frame at the front of `s` is cut after at least one padding byte. */
  predicate PaddingCut(s: seq<Byte>)
    requires |s| >= HEADER_SIZE
  {
    0 < PayloadLength(s) < |s| - HEADER_SIZE < PayloadLength(s) + s[2] as int
  }

  /** Whether `s` ends after at least one padding byte of a frame but before the last one. */
  predicate EndsInsidePadding(s: seq<Byte>, slots: nat)
    decreases slots
  {
    slots > 0 && |s| >= HEADER_SIZE
    && (PaddingCut(s) || EndsInsidePadding(TakeFrame(s).1, slots - 1))
  }

  // ---------- lists of reads ----------

  lemma {:induction false} FlattenAppend(parts: seq<seq<Byte>>, last: seq<Byte>)
    ensures Flatten(parts + [last]) == Flatten(parts) + last
  {
    if parts == [] {
      assert Flatten([last]) == last + Flatten([last][1..]);
    } else {
      FlattenAppend(parts[1..], last);
      assert (parts + [last])[1..] == parts[1..] + [last];
    }
  }

  /** The wire image of one more read. */
  ghost function WireOf(last: seq<Byte>, index: nat, pads: seq<Byte>): seq<Byte>
    requires index < |pads| ==> |last| <= MaxPayload(pads[index])
  {
    if index < |pads| then Frame(last, pads[index]) else last
  }

  lemma {:induction false} EncodeAppend(parts: seq<seq<Byte>>, last: seq<Byte>, pads: seq<Byte>)
    requires Fits(parts, pads) && last != []
    requires |parts| < |pads| ==> |last| <= MaxPayload(pads[|parts|])
    ensures Fits(parts + [last], pads)
    ensures Encode(parts + [last], pads) == Encode(parts, pads) + WireOf(last, |parts|, pads)
    decreases |parts|
  {
    hide Frame;
    var all := parts + [last];
    if pads == [] {
      FlattenAppend(parts, last);
    } else if parts == [] {
      assert all[1..] == [];
      assert Encode(all, pads) == Frame(last, pads[0]) + [];
    } else {
      assert all[1..] == parts[1..] + [last];
      EncodeAppend(parts[1..], last, pads[1..]);
    }
  }

  // ---------- the wire format ----------

  /** A frame is a length of two bytes, the more significant first, the size of the padding, the
      payload, and zeros. */
  lemma FrameLayout(payload: seq<Byte>, pad: Byte)
    requires |payload| < BUFFER_SIZE
    ensures var f := Frame(payload, pad);
      && |f| == HEADER_SIZE + |payload| + pad
      && (f[0] as int) * 256 + (f[1] as int) == |payload| && f[2] == pad
      && f[HEADER_SIZE..HEADER_SIZE + |payload|] == payload
      && forall k | HEADER_SIZE + |payload| <= k < |f| :: f[k] == 0
  {
  }

  /** Header and padding bytes of the first `n` frames. */
  function Overhead(pads: seq<Byte>, n: nat): nat
    requires n <= |pads|
  {
    if n == 0 then 0 else Overhead(pads, n - 1) + HEADER_SIZE + pads[n - 1]
  }

  lemma {:induction false} OverheadFromFront(pads: seq<Byte>, n: nat)
    requires 0 < n <= |pads|
    ensures Overhead(pads, n) == HEADER_SIZE + (pads[0] as int) + Overhead(pads[1..], n - 1)
  {
    if n > 1 {
      OverheadFromFront(pads, n - 1);
    }
  }

  /** On the wire each of the first reads costs its header and padding, and all later ones nothing. */
  lemma {:induction false} EncodedLength(parts: seq<seq<Byte>>, pads: seq<Byte>)
    requires Fits(parts, pads)
    ensures |Encode(parts, pads)| == |Flatten(parts)| + Overhead(pads, Min(|parts|, |pads|))
    decreases |parts|
  {
    if pads != [] && parts != [] {
      FrameLayout(parts[0], pads[0]);
      EncodedLength(parts[1..], pads[1..]);
      OverheadFromFront(pads, Min(|parts|, |pads|));
    }
    hide Frame, Overhead;
  }

  lemma FramedPart(parts: seq<seq<Byte>>, n: nat)
    requires 0 < n <= |parts|
    ensures parts[..n][0] == parts[0] && parts[..n][1..] == parts[1..][..n - 1]
    ensures parts[1..][n - 1..] == parts[n..]
  {
  }

  /** The reads after the framed ones follow as they are. */
  lemma {:induction false} RawTail(parts: seq<seq<Byte>>, pads: seq<Byte>)
    requires Fits(parts, pads) && |parts| >= |pads|
    ensures Fits(parts[..|pads|], pads)
    ensures Encode(parts, pads) == Encode(parts[..|pads|], pads) + Flatten(parts[|pads|..])
    decreases |parts|
  {
    hide Frame;
    if pads == [] {
      assert parts[..0] == [] && parts[0..] == parts;
      assert Encode([], []) == [];
    } else {
      var framed := parts[..|pads|];
      FramedPart(parts, |pads|);
      RawTail(parts[1..], pads[1..]);
      assert Encode(parts, pads) == Frame(parts[0], pads[0]) + Encode(parts[1..], pads[1..]);
      assert Encode(framed, pads) == Frame(parts[0], pads[0]) + Encode(framed[1..], pads[1..]);
      Regroup(Frame(parts[0], pads[0]), Encode(framed[1..], pads[1..]), Flatten(parts[|pads|..]));
    }
  }

  lemma Regroup(a: seq<Byte>, b: seq<Byte>, c: seq<Byte>)
    ensures a + (b + c) == (a + b) + c
  {
  }

  // ---------- the round trip ----------

  lemma TakeFrameOfFrame(payload: seq<Byte>, pad: Byte, rest: seq<Byte>)
    requires 0 < |payload| < BUFFER_SIZE
    ensures |Frame(payload, pad) + rest| >= HEADER_SIZE
    ensures TakeFrame(Frame(payload, pad) + rest) == (payload, rest)
    ensures !PaddingCut(Frame(payload, pad) + rest)
  {
    var s := Frame(payload, pad) + rest;
    var body := s[HEADER_SIZE..];
    assert PayloadLength(s) == |payload|;
    assert body == payload + Zeros(pad) + rest;
    assert body[..|payload|] == payload;
    assert body[|payload| + pad..] == rest;
  }

  /** Removing the padding of an encoded stream gives back the payload, and a whole stream
      never ends inside padding. */
  lemma {:induction false} RoundTrip(parts: seq<seq<Byte>>, pads: seq<Byte>)
    requires Fits(parts, pads)
    ensures Decode(Encode(parts, pads), |pads|) == Flatten(parts)
    ensures !EndsInsidePadding(Encode(parts, pads), |pads|)
    decreases |parts|
  {
    hide TakeFrame, Frame, PaddingCut;
    if parts != [] && pads != [] {
      RoundTrip(parts[1..], pads[1..]);
      TakeFrameOfFrame(parts[0], pads[0], Encode(parts[1..], pads[1..]));
    }
  }

  // ---------- cut streams ----------

  lemma TakeFrameMonotone(s: seq<Byte>, t: seq<Byte>)
    requires HEADER_SIZE <= |s| && s <= t
    ensures TakeFrame(s).0 <= TakeFrame(t).0 && TakeFrame(s).1 <= TakeFrame(t).1
    ensures TakeFrame(s).0 != TakeFrame(t).0 ==> TakeFrame(s).1 == []
  {
    var body, longer := s[HEADER_SIZE..], t[HEADER_SIZE..];
    assert body <= longer;
    var len: nat := PayloadLength(s);
    if 0 < len < |body| {
      assert body[..len] == longer[..len];
    }
  }

  /** Cutting any byte string, encoded or not, only cuts the decoder's output short. */
  lemma {:induction false} DecodeMonotone(s: seq<Byte>, t: seq<Byte>, slots: nat)
    requires s <= t
    ensures Decode(s, slots) <= Decode(t, slots)
    decreases slots
  {
    hide TakeFrame;
    if slots > 0 && |s| >= HEADER_SIZE {
      TakeFrameMonotone(s, t);
      DecodeMonotone(TakeFrame(s).1, TakeFrame(t).1, slots - 1);
    }
  }

  /** A truncated transport yields a prefix of what was sent. */
  lemma TruncationSafe(parts: seq<seq<Byte>>, pads: seq<Byte>, k: nat)
    requires Fits(parts, pads) && k <= |Encode(parts, pads)|
    ensures Decode(Encode(parts, pads)[..k], |pads|) <= Flatten(parts)
  {
    RoundTrip(parts, pads);
    DecodeMonotone(Encode(parts, pads)[..k], Encode(parts, pads), |pads|);
  }

  /** Whether cutting the encoding after `k` bytes cuts strictly inside some frame's padding. */
  ghost predicate CutsPadding(parts: seq<seq<Byte>>, pads: seq<Byte>, k: nat)
    requires Fits(parts, pads)
  {
    if parts == [] || pads == [] then false
    else
      var payloadEnd := HEADER_SIZE + |parts[0]|;
      var frameEnd := payloadEnd + pads[0];
      payloadEnd < k < frameEnd
      || (frameEnd <= k && CutsPadding(parts[1..], pads[1..], k - frameEnd))
  }

  /** The number of payload bytes among the first `k` bytes of the encoding. */
  ghost function PayloadWithin(parts: seq<seq<Byte>>, pads: seq<Byte>, k: nat): nat
    requires Fits(parts, pads)
  {
    if parts == [] || k == 0 then 0
    else if pads == [] then Min(k, |Flatten(parts)|)
    else
      var frameEnd := HEADER_SIZE + |parts[0]| + pads[0];
      if k <= HEADER_SIZE then 0
      else Min(k - HEADER_SIZE, |parts[0]|)
           + if k <= frameEnd then 0 else PayloadWithin(parts[1..], pads[1..], k - frameEnd)
  }

  /** A cut stream delivers exactly the payload bytes that arrived, and the decoder notices the
      cut exactly when it falls inside padding. */
  lemma {:induction false} TruncationExact(parts: seq<seq<Byte>>, pads: seq<Byte>, k: nat)
    requires Fits(parts, pads) && k <= |Encode(parts, pads)|
    ensures |Decode(Encode(parts, pads)[..k], |pads|)| == PayloadWithin(parts, pads, k)
    ensures EndsInsidePadding(Encode(parts, pads)[..k], |pads|) == CutsPadding(parts, pads, k)
    decreases |parts|
  {
    hide TakeFrame, PaddingCut;
    if parts != [] && pads != [] {
      var frame := Frame(parts[0], pads[0]);
      var rest := Encode(parts[1..], pads[1..]);
      var s := Encode(parts, pads)[..k];
      if k <= |frame| {
        assert s == frame[..k];
        TakeFrameOfPrefix(parts[0], pads[0], k);
        assert k == |frame| ==> !CutsPadding(parts[1..], pads[1..], 0);
      } else {
        var kept := rest[..k - |frame|];
        assert s == frame + kept;
        TakeFrameOfFrame(parts[0], pads[0], kept);
        TruncationExact(parts[1..], pads[1..], k - |frame|);
      }
    }
  }

  lemma TakeFrameOfPrefix(payload: seq<Byte>, pad: Byte, k: nat)
    requires 0 < |payload| < BUFFER_SIZE
    requires k <= |Frame(payload, pad)|
    ensures k >= HEADER_SIZE ==>
      var s := Frame(payload, pad)[..k];
      && |TakeFrame(s).0| == Min(k - HEADER_SIZE, |payload|)
      && TakeFrame(s).1 == []
      && (PaddingCut(s) <==> HEADER_SIZE + |payload| < k < |Frame(payload, pad)|)
  {
    if k >= HEADER_SIZE {
      assert PayloadLength(Frame(payload, pad)[..k]) == |payload|;
    }
  }

  // ---------- empty frames ----------

  lemma {:induction false} DecodeZeros(n: nat, slots: nat)
    requires n >= HEADER_SIZE * slots
    ensures |Decode(Zeros(n), slots)| == n - HEADER_SIZE * slots
    decreases slots
  {
    if slots > 0 {
      assert TakeFrame(Zeros(n)).1 == Zeros(n - HEADER_SIZE);
      DecodeZeros(n - HEADER_SIZE, slots - 1);
    }
  }

  lemma DecodeEmptyFrame(pad: Byte, rest: seq<Byte>, slots: nat)
    requires slots > 0
    ensures Decode(Frame([], pad) + rest, slots) == Decode(Zeros(pad) + rest, slots - 1)
  {
    var s := Frame([], pad) + rest;
    assert s[HEADER_SIZE..] == Zeros(pad) + rest;
    assert TakeFrame(s) == ([], Zeros(pad) + rest);
  }

  /** The decoder does not skip the padding of an empty frame: it takes it for the next header.
      So it undoes an empty frame, whatever follows, only when that frame has no padding. */
  lemma EmptyFrameUndoneIffUnpadded(pad: Byte, slots: nat)
    requires slots > 0
    ensures (forall rest: seq<Byte> :: Decode(Frame([], pad) + rest, slots) == Decode(rest, slots - 1))
            <==> pad == 0
  {
    hide Decode, Frame;
    if pad == 0 {
      forall rest: seq<Byte>
        ensures Decode(Frame([], pad) + rest, slots) == Decode(rest, slots - 1)
      {
        DecodeEmptyFrame(pad, rest, slots);
        assert Zeros(pad) + rest == rest;
      }
    } else {
      var n := HEADER_SIZE * slots;
      assert Zeros(pad) + Zeros(n) == Zeros(pad as int + n);
      DecodeZeros(n, slots - 1);
      DecodeZeros(pad as int + n, slots - 1);
      DecodeEmptyFrame(pad, Zeros(n), slots);
      assert Decode(Frame([], pad) + Zeros(n), slots) != Decode(Zeros(n), slots - 1);
    }
  }
}
