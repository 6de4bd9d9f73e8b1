/** What two copy loops back to back guarantee, whatever the readers, writers and limiters do. */
module PaddedTunnel {
  import opened Padding
  import opened CopyLoop
  import opened StreamStats

  /** Billing covers every payload byte the other side can recover from what was sent, and never
      exceeds the payload that was read. */
  lemma BillingBounds(parts: seq<seq<Byte>>, framing: seq<Byte>, sent: seq<Byte>, count: nat)
    requires Billed(parts, framing, sent, count)
    ensures |Decode(sent, |framing|)| <= count <= |Flatten(parts)|
  {
    hide Decode, EndsInsidePadding, Frame;
    RoundTrip(parts, framing);
    if parts != [] {
      var settled := parts[..|parts| - 1];
      RoundTrip(settled, framing);
      DecodeMonotone(sent, Encode(parts, framing), |framing|);
      assert settled + [parts[|settled|]] == parts;
      FlattenAppend(settled, parts[|settled|]);
    }
  }

  /** A copy never delivers more payload than it bills, nor bills more than it read, nor reads more
      than the source stood for. When reading came to its end, all of these are the same. */
  lemma CopyBillsPayloadOnly(mode: PaddingType, data: seq<Byte>, pads: seq<Byte>, end: ReadError,
                             env: seq<Outcome>, p: Progress, err: CopyError)
    requires |pads| == NUM_FIRST_PADDINGS
    requires Copied(mode, data, Framing(mode, pads), end, env, p, err)
    ensures var slots := if mode == AddPadding then NUM_FIRST_PADDINGS else 0;
      && |Decode(p.sent, slots)| <= p.count <= |Flatten(p.parts)| <= |Payload(mode, data, 0)|
      && (err in {NoFailure, SourceCut, SourceFailed} ==>
            Decode(p.sent, slots) == Flatten(p.parts) && p.count == |Flatten(p.parts)| == |Payload(mode, data, 0)|)
  {
    BillingBounds(p.parts, Framing(mode, pads), p.sent, p.count);
    RoundTrip(p.parts, Framing(mode, pads));
  }

  /** What the first `k` wire bytes of a padded copy stand for, however the copy ended. */
  lemma CutCopy(data: seq<Byte>, pads: seq<Byte>, end: ReadError, env: seq<Outcome>, p: Progress, err: CopyError,
                k: nat)
    requires |pads| == NUM_FIRST_PADDINGS
    requires Copied(AddPadding, data, pads, end, env, p, err)
    requires k <= |p.sent|
    ensures Fits(p.parts, pads) && Flatten(p.parts) <= data
    ensures p.sent[..k] <= Encode(p.parts, pads)
    ensures Decode(p.sent[..k], NUM_FIRST_PADDINGS) <= Flatten(p.parts)
    ensures |Decode(p.sent[..k], NUM_FIRST_PADDINGS)| == PayloadWithin(p.parts, pads, k) <= p.count
    ensures EndsInsidePadding(p.sent[..k], NUM_FIRST_PADDINGS) == CutsPadding(p.parts, pads, k)
  {
    hide Smooth, FailedLast, Decode, EndsInsidePadding, CutsPadding, PayloadWithin, FinalError;
    assert p.sent <= Encode(p.parts, pads);
    assert p.sent[..k] == Encode(p.parts, pads)[..k];
    TruncationSafe(p.parts, pads, k);
    TruncationExact(p.parts, pads, k);
    BillingBounds(p.parts, pads, p.sent, p.count);
    DecodeMonotone(p.sent[..k], p.sent, NUM_FIRST_PADDINGS);
  }

  /** A receiver of the first `k` wire bytes of a padded copy gets a prefix of what the sender read
      and bills no more than the sender, whatever failed on the sender's side, on the wire or on its
      own. */
  lemma ReceiverGetsPrefix(data: seq<Byte>, pads: seq<Byte>, end: ReadError, env: seq<Outcome>, p: Progress,
                           sendErr: CopyError, k: nat, end': ReadError, env': seq<Outcome>, q: Progress, err: CopyError)
    requires |pads| == NUM_FIRST_PADDINGS
    requires Copied(AddPadding, data, pads, end, env, p, sendErr)
    requires k <= |p.sent|
    requires Copied(RemovePadding, p.sent[..k], [], end', env', q, err)
    ensures q.sent <= Decode(p.sent[..k], NUM_FIRST_PADDINGS) <= Flatten(p.parts) <= data
    ensures q.count <= p.count <= |Flatten(p.parts)|
  {
    hide Smooth, FailedLast, Decode, EndsInsidePadding, CutsPadding, PayloadWithin, FinalError;
    CutCopy(data, pads, end, env, p, sendErr, k);
    BillingBounds(p.parts, pads, p.sent, p.count);
    EncodeNothing(q.parts);
    CopyBillsPayloadOnly(RemovePadding, p.sent[..k], pads, end', env', q, err);
  }

  /** Padding added by one copy and removed by another, with any failure of the sender, and the first
      `k` wire bytes getting through before the wire ends or breaks: the receiver gets a prefix of
      what the sender read. A receiver that reads to the end gets every payload byte that arrived. It
      notices a wire that breaks; of one that just ends early it notices the cut exactly when it
      falls inside padding, and otherwise takes it for the end of the stream. */
  lemma ThroughTheTunnel(data: seq<Byte>, pads: seq<Byte>, end: ReadError, env: seq<Outcome>, p: Progress,
                         sendErr: CopyError, k: nat, end': ReadError, env': seq<Outcome>, q: Progress, err: CopyError)
    requires |pads| == NUM_FIRST_PADDINGS
    requires Copied(AddPadding, data, pads, end, env, p, sendErr)
    requires k <= |p.sent|
    requires end' in {EndOfFile, ReadFailed}
    requires Copied(RemovePadding, p.sent[..k], [], end', env', q, err)
    ensures q.sent <= Flatten(p.parts) <= data && q.count <= p.count <= |Flatten(p.parts)|
    ensures err in {NoFailure, SourceCut, SourceFailed} ==>
      && err == (if end' == ReadFailed then SourceFailed
                 else if CutsPadding(p.parts, pads, k) then SourceCut
                 else NoFailure)
      && |q.sent| == q.count == PayloadWithin(p.parts, pads, k)
  {
    hide Smooth, FailedLast, Decode, EndsInsidePadding, CutsPadding, PayloadWithin;
    ReceiverGetsPrefix(data, pads, end, env, p, sendErr, k, end', env', q, err);
    CutCopy(data, pads, end, env, p, sendErr, k);
    EncodeNothing(q.parts);
  }

  /** A sender that reached the end of its source and a wire that carries everything: a receiver that
      reads to the end has all of the data, and both sides bill the same. */
  lemma WholeTunnel(data: seq<Byte>, pads: seq<Byte>, end: ReadError, env: seq<Outcome>, p: Progress,
                    sendErr: CopyError, end': ReadError, env': seq<Outcome>, q: Progress, err: CopyError)
    requires |pads| == NUM_FIRST_PADDINGS
    requires Copied(AddPadding, data, pads, end, env, p, sendErr) && sendErr in {NoFailure, SourceCut, SourceFailed}
    requires end' in {EndOfFile, ReadFailed}
    requires Copied(RemovePadding, p.sent, [], end', env', q, err) && err in {NoFailure, SourceCut, SourceFailed}
    ensures q.sent == data && q.count == p.count == |data|
    ensures err == if end' == ReadFailed then SourceFailed else NoFailure
  {
    hide Smooth, FailedLast, Decode, EndsInsidePadding;
    RoundTrip(p.parts, pads);
    EncodeNothing(q.parts);
  }

  lemma EncodeNothing(parts: seq<seq<Byte>>)
    requires Fits(parts, [])
    ensures Encode(parts, []) == Flatten(parts)
  {
  }

  // ---------- both directions of a tunnel ----------

  /** The two copies of a tunnel, which share nothing but the meters. Padding is taken off on the
      way to the target and put on on the way to the client. The error of the upload goes first. */
  method DualStream(toTarget: Sink, fromTarget: Source, fromClient: Source, toClient: Sink, padding: bool,
                    upBuf: array<Byte>, downBuf: array<Byte>, pads: seq<Byte>,
                    upEnv: seq<Outcome>, downEnv: seq<Outcome>, stats: Counters)
    returns (err: CopyError, ghost up: Progress, ghost down: Progress, ghost upErr: CopyError, ghost downErr: CopyError)
    requires fromTarget.Valid() && fromClient.Valid() && fromTarget != fromClient && toTarget != toClient
    requires upBuf.Length == BUFFER_SIZE && downBuf.Length == BUFFER_SIZE && |pads| == NUM_FIRST_PADDINGS
    modifies fromTarget`chunks, fromClient`chunks, toTarget, toClient, upBuf, downBuf, stats`upload, stats`download
    ensures toTarget.log == old(toTarget.log) + up.sent && toClient.log == old(toClient.log) + down.sent
    ensures stats.upload == old(stats.upload) + up.count && stats.download == old(stats.download) + down.count
    ensures var mode := if padding then RemovePadding else NoPadding;
      Copied(mode, old(fromClient.Data()), [], fromClient.end, upEnv, up, upErr)
    ensures var mode := if padding then AddPadding else NoPadding;
      Copied(mode, old(fromTarget.Data()), Framing(mode, pads), fromTarget.end, downEnv, down, downErr)
    ensures err == if upErr != NoFailure then upErr else downErr
  {
    hide Copied;
    var upload, download, upResult, downResult;
    var upMode := if padding then RemovePadding else NoPadding;
    var downMode := if padding then AddPadding else NoPadding;
    upload, upResult, up := FlushingIoCopy(toTarget, fromClient, upBuf, upMode, pads, upEnv, stats, true);
    download, downResult, down := FlushingIoCopy(toClient, fromTarget, downBuf, downMode, pads, downEnv, stats, false);
    upErr, downErr := upResult, downResult;
    if upResult != NoFailure {
      return upResult, up, down, upErr, downErr;
    }
    err := downResult;
  }
}
