/** The copy loop of a tunnel direction, in place on one shared buffer, for every behaviour of
    the source, the destination and the rate limiter. */
module CopyLoop {
  import opened Padding
  import opened StreamStats

  datatype ReadError = NoError | EndOfFile | UnexpectedEOF | ReadFailed
  datatype CopyError = NoFailure | SourceFailed | SourceCut | WaitFailed | WriteFailed | FlushFailed | ShortWrite
  datatype PaddingType = NoPadding | AddPadding | RemovePadding

  /** What happens to one buffer handed on: whether the rate limiter lets it pass, how many bytes
      the destination takes, and whether write and flush report success. */
  datatype Outcome = Outcome(waitOk: bool, accepted: nat, writeOk: bool, flushOk: bool)

  /** The error of a full read that wanted `want` bytes and got `got`. */
  function ReadFullError(want: nat, got: nat, end: ReadError): ReadError {
    if got == want then NoError
    else if got > 0 && end == EndOfFile then UnexpectedEOF
    else end
  }

  const SMOOTH := Outcome(true, BUFFER_SIZE, true, true)

  /** A reader: its bytes arrive in non-empty chunks, and then every read reports `end`. An
      `eager` reader reports it already with the last byte. */
  class Source {
    var chunks: seq<seq<Byte>>
    const eager: bool
    const end: ReadError

    ghost predicate Valid()
      reads this
    {
      (forall i | 0 <= i < |chunks| :: chunks[i] != []) && (end == EndOfFile || end == ReadFailed)
    }

    ghost function Data(): seq<Byte>
      reads this
    {
      Flatten(chunks)
    }

    constructor (chunks: seq<seq<Byte>>, eager: bool, end: ReadError)
      requires forall i | 0 <= i < |chunks| :: chunks[i] != []
      requires end == EndOfFile || end == ReadFailed
      ensures Valid() && Data() == Flatten(chunks) && this.end == end && this.eager == eager
    {
      this.chunks, this.eager, this.end := chunks, eager, end;
    }

    method Read(buf: array<Byte>, lo: nat, hi: nat) returns (n: nat, er: ReadError)
      requires Valid() && lo < hi <= buf.Length
      modifies this`chunks, buf
      ensures Valid()
      ensures n <= hi - lo && n <= |old(Data())|
      ensures Data() == old(Data())[n..] && buf[lo..lo + n] == old(Data())[..n]
      ensures forall j | 0 <= j < buf.Length && !(lo <= j < lo + n) :: buf[j] == old(buf[j])
      ensures er == NoError || (er == end && Data() == [])
      ensures n == 0 ==> er == end
    {
      if chunks == [] {
        return 0, end;
      }
      var first := chunks[0];
      n := Min(|first|, hi - lo);
      forall j | 0 <= j < n {
        buf[lo + j] := first[j];
      }
      ghost var data := Data();
      assert data == first + Flatten(chunks[1..]);
      if n < |first| {
        chunks := [first[n..]] + chunks[1..];
        assert Data() == first[n..] + Flatten(old(chunks)[1..]);
      } else {
        chunks := chunks[1..];
      }
      er := if chunks == [] && eager then end else NoError;
    }

    /** Reads until the range is full or the source reports an error. */
    method ReadFull(buf: array<Byte>, lo: nat, hi: nat) returns (n: nat, er: ReadError)
      requires Valid() && lo <= hi <= buf.Length
      modifies this`chunks, buf
      ensures Valid()
      ensures n == Min(hi - lo, |old(Data())|)
      ensures Data() == old(Data())[n..] && buf[lo..lo + n] == old(Data())[..n]
      ensures forall j | 0 <= j < buf.Length && !(lo <= j < lo + n) :: buf[j] == old(buf[j])
      ensures er == ReadFullError(hi - lo, n, end)
    {
      n, er := 0, NoError;
      while n < hi - lo && er == NoError
        invariant Valid() && n <= hi - lo && n <= |old(Data())|
        invariant Data() == old(Data())[n..] && buf[lo..lo + n] == old(Data())[..n]
        invariant forall j | 0 <= j < buf.Length && !(lo <= j < lo + n) :: buf[j] == old(buf[j])
        invariant er == NoError || (er == end && Data() == [])
        decreases |Data()|, er == NoError
      {
        ghost var before, got := buf[lo..lo + n], n;
        var more;
        more, er := Read(buf, lo + n, hi);
        n := n + more;
        assert buf[lo..lo + n] == before + buf[lo + got..lo + n];
        assert old(Data())[..n] == old(Data())[..got] + old(Data())[got..][..more];
      }
      if n == hi - lo {
        er := NoError;
      } else if n > 0 && er == EndOfFile {
        er := UnexpectedEOF;
      }
    }
  }

  /** A writer that records what it accepts. */
  class Sink {
    var log: seq<Byte>

    method Write(buf: array<Byte>, n: nat, o: Outcome) returns (nw: nat, ok: bool)
      requires n <= buf.Length
      modifies this
      ensures nw == Min(n, o.accepted) && log == old(log) + buf[..nw] && ok == o.writeOk
    {
      nw, ok := Min(n, o.accepted), o.writeOk;
      log := log + buf[..nw];
    }
  }

  // ---------- the specification ----------

  /** The payload that `data` on the source still stands for. */
  function Payload(mode: PaddingType, data: seq<Byte>, used: nat): seq<Byte>
    requires used <= NUM_FIRST_PADDINGS
  {
    if mode == RemovePadding then Decode(data, NUM_FIRST_PADDINGS - used) else data
  }

  /** The error with which reading `data` to its end finishes. */
  function FinalError(mode: PaddingType, data: seq<Byte>, used: nat, end: ReadError): ReadError
    requires used <= NUM_FIRST_PADDINGS
  {
    if end == EndOfFile && mode == RemovePadding && EndsInsidePadding(data, NUM_FIRST_PADDINGS - used)
    then UnexpectedEOF
    else end
  }

  function AsCopyError(er: ReadError): CopyError {
    match er
    case NoError | EndOfFile => NoFailure
    case UnexpectedEOF => SourceCut
    case ReadFailed => SourceFailed
  }

  /** The padding sizes that frame the output. */
  function Framing(mode: PaddingType, pads: seq<Byte>): seq<Byte> {
    if mode == AddPadding then pads else []
  }

  /** `parts` were read, `sent` reached the destination and `count` bytes were billed: everything
      but the last part went out whole, and a part is billed in full from its first wire byte. */
  ghost predicate Billed(parts: seq<seq<Byte>>, framing: seq<Byte>, sent: seq<Byte>, count: nat) {
    Fits(parts, framing)
    && if parts == [] then sent == [] && count == 0
       else
         var settled := parts[..|parts| - 1];
         Fits(settled, framing)
         && Encode(settled, framing) <= sent <= Encode(parts, framing)
         && count == |Flatten(if sent == Encode(settled, framing) then settled else parts)|
  }

  /** What one iteration reads: `part` is the payload, and the buffer holds its wire image. */
  ghost predicate ReadStep(mode: PaddingType, before: seq<Byte>, after: seq<Byte>, used: nat, used': nat,
                           end: ReadError, part: seq<Byte>, er: ReadError)
  {
    used <= used' <= NUM_FIRST_PADDINGS
    && Payload(mode, before, used) == part + Payload(mode, after, used')
    && (er != NoError ==> after == [] && er == FinalError(mode, before, used, end))
    && (er == NoError ==> FinalError(mode, after, used', end) == FinalError(mode, before, used, end))
    && (er == NoError ==> |after| + NUM_FIRST_PADDINGS - used' < |before| + NUM_FIRST_PADDINGS - used)
  }

  /** Payload and padding of a frame with a whole header, read one after the other. */
  lemma PaddedReadStep(data: seq<Byte>, used: nat, end: ReadError, got: nat, skipped: nat, er: ReadError)
    requires |data| >= HEADER_SIZE && used < NUM_FIRST_PADDINGS && (end == EndOfFile || end == ReadFailed)
    requires got == Min(PayloadLength(data), |data| - HEADER_SIZE)
    requires skipped == if got == 0 then 0 else Min(data[2], |data| - HEADER_SIZE - got)
    requires er == if got == 0 then ReadFullError(PayloadLength(data), 0, end)
                   else ReadFullError(data[2], skipped, end)
    ensures var body := data[HEADER_SIZE..];
      ReadStep(RemovePadding, data, body[got + skipped..], used, used + 1, end, body[..got], er)
  {
    var body := data[HEADER_SIZE..];
    var after := body[got + skipped..];
    var slots := NUM_FIRST_PADDINGS - used;
    assert TakeFrame(data) == (body[..got], after);
    assert EndsInsidePadding(data, slots) <==> PaddingCut(data) || EndsInsidePadding(after, slots - 1);
    if er != NoError {
      assert after == [];
      assert PaddingCut(data) <==> 0 < skipped < data[2] as int;
    }
  }

  // ---------- the three ways to read ----------

  lemma IsFrame(s: seq<Byte>, part: seq<Byte>, pad: Byte)
    requires |part| < BUFFER_SIZE && |s| == HEADER_SIZE + |part| + pad
    requires s[0] == |part| / 256 && s[1] == |part| % 256 && s[2] == pad
    requires forall k | 0 <= k < |part| :: s[HEADER_SIZE + k] == part[k]
    requires forall k | HEADER_SIZE + |part| <= k < |s| :: s[k] == 0
    ensures s == Frame(part, pad)
  {
    assert forall k | HEADER_SIZE <= k < HEADER_SIZE + |part| :: s[k] == part[k - HEADER_SIZE];
  }

  method PadWithZeros(buf: array<Byte>, start: nat, pad: Byte)
    requires start + pad <= buf.Length
    modifies buf
    ensures forall k | 0 <= k < buf.Length :: buf[k] == if start <= k < start + pad then 0 else old(buf[k])
  {
    for i := 0 to pad
      invariant forall k | 0 <= k < buf.Length :: buf[k] == if start <= k < start + i then 0 else old(buf[k])
    {
      buf[start + i] := 0;
    }
  }

  /** Puts header and padding around the payload that is in the buffer already. */
  method WrapPayload(buf: array<Byte>, n: nat, pad: Byte)
    requires buf.Length == BUFFER_SIZE && HEADER_SIZE + n + pad <= BUFFER_SIZE
    modifies buf
    ensures buf[..HEADER_SIZE + n + pad] == Frame(old(buf[HEADER_SIZE..HEADER_SIZE + n]), pad)
  {
    buf[0] := n / 256;
    buf[1] := n % 256;
    buf[2] := pad;
    PadWithZeros(buf, HEADER_SIZE + n, pad);
    IsFrame(buf[..HEADER_SIZE + n + pad], old(buf[HEADER_SIZE..HEADER_SIZE + n]), pad);
  }

  /** The encoder's read: the payload lands behind the header, the padding behind the payload. */
  method FillFrame(src: Source, buf: array<Byte>, used: nat, pad: Byte)
    returns (nr: nat, logicalNr: nat, er: ReadError, ghost part: seq<Byte>)
    requires src.Valid() && buf.Length == BUFFER_SIZE && used < NUM_FIRST_PADDINGS
    modifies src`chunks, buf
    ensures src.Valid()
    ensures ReadStep(AddPadding, old(src.Data()), src.Data(), used, used + 1, src.end, part, er)
    ensures logicalNr == |part| <= MaxPayload(pad)
    ensures nr <= BUFFER_SIZE && (nr == 0 <==> part == [])
    ensures nr > 0 ==> buf[..nr] == Frame(part, pad)
    ensures nr == 0 ==> er != NoError
  {
    logicalNr := 0;
    nr, er := src.Read(buf, HEADER_SIZE, BUFFER_SIZE - HEADER_SIZE - pad);
    part := buf[HEADER_SIZE..HEADER_SIZE + nr];
    assert ReadStep(AddPadding, old(src.Data()), src.Data(), used, used + 1, src.end, part, er);
    hide ReadStep, Frame;
    if nr > 0 {
      logicalNr := nr;
      WrapPayload(buf, nr, pad);
      nr := nr + HEADER_SIZE + pad;
    }
  }

  /** Reads the payload a header announces and throws its padding away. */
  method TakeBody(src: Source, buf: array<Byte>, len: nat, paddingSize: nat)
    returns (nr: nat, er: ReadError, ghost skipped: nat)
    requires src.Valid() && len <= buf.Length && paddingSize < 256
    modifies src`chunks, buf
    ensures src.Valid()
    ensures nr == Min(len, |old(src.Data())|) && buf[..nr] == old(src.Data())[..nr]
    ensures skipped == if nr == 0 then 0 else Min(paddingSize, |old(src.Data())| - nr)
    ensures src.Data() == old(src.Data())[nr + skipped..]
    ensures er == if nr == 0 then ReadFullError(len, 0, src.end)
                  else ReadFullError(paddingSize, skipped, src.end)
  {
    hide ReadFullError, Flatten;
    ghost var data := src.Data();
    skipped := 0;
    nr, er := src.ReadFull(buf, 0, len);
    assert buf[..nr] == buf[0..0 + nr] == data[..nr];
    if nr > 0 {
      var junk := new Byte[256](_ => 0);
      var n;
      n, er := src.ReadFull(junk, 0, paddingSize);
      skipped := n;
      assert data[nr..][n..] == data[nr + n..];
    }
  }

  /** After a short header nothing is left to read. */
  lemma ShortReadStep(data: seq<Byte>, used: nat, end: ReadError, er: ReadError)
    requires |data| < HEADER_SIZE && used < NUM_FIRST_PADDINGS && (er == NoError || er == end)
    ensures ReadStep(RemovePadding, data, [], used, used + 1, end, [], er)
  {
  }

  /** The decoder's read. A short header leaves old bytes of the buffer in its place; whatever
      length they spell, the source is then at its end and nothing more is read. */
  method TakePadded(src: Source, buf: array<Byte>, used: nat)
    returns (nr: nat, logicalNr: nat, er: ReadError, ghost part: seq<Byte>)
    requires src.Valid() && buf.Length == BUFFER_SIZE && used < NUM_FIRST_PADDINGS
    modifies src`chunks, buf
    ensures src.Valid()
    ensures ReadStep(RemovePadding, old(src.Data()), src.Data(), used, used + 1, src.end, part, er)
    ensures nr == logicalNr == |part| <= BUFFER_SIZE && buf[..nr] == part
  {
    hide ReadStep, Decode, EndsInsidePadding, Flatten;
    ghost var data := src.Data();
    nr, er := src.ReadFull(buf, 0, HEADER_SIZE);
    ghost var whole := nr == HEADER_SIZE;
    assert !whole ==> src.Data() == [];
    if nr > 0 {
      assert whole ==> buf[0..0 + HEADER_SIZE] == data[..HEADER_SIZE];
      assert whole ==> buf[0] == data[0] && buf[1] == data[1] && buf[2] == data[2];
      var len := (buf[0] as int) * 256 + (buf[1] as int);
      ghost var padding := buf[2];
      ghost var skipped;
      nr, er, skipped := TakeBody(src, buf, len, buf[2]);
      if whole {
        assert src.Data() == data[HEADER_SIZE..][nr + skipped..];
        assert buf[..nr] == data[HEADER_SIZE..][..nr];
        PaddedReadStep(data, used, src.end, nr, skipped, er);
      }
    }
    if !whole {
      assert src.Data() == [] && buf[..nr] == [];
      ShortReadStep(data, used, src.end, er);
    }
    logicalNr, part := nr, buf[..nr];
  }

  /** The plain read. */
  method TakeRaw(src: Source, buf: array<Byte>, mode: PaddingType, used: nat)
    returns (nr: nat, logicalNr: nat, er: ReadError, ghost part: seq<Byte>)
    requires src.Valid() && buf.Length == BUFFER_SIZE && used <= NUM_FIRST_PADDINGS
    requires mode == RemovePadding ==> used == NUM_FIRST_PADDINGS
    modifies src`chunks, buf
    ensures src.Valid()
    ensures ReadStep(mode, old(src.Data()), src.Data(), used, used, src.end, part, er)
    ensures nr == logicalNr == |part| <= BUFFER_SIZE && buf[..nr] == part
  {
    nr, er := src.Read(buf, 0, BUFFER_SIZE);
    logicalNr, part := nr, buf[..nr];
  }
  // ---------- delivery and billing ----------

  function OutcomeAt(env: seq<Outcome>, k: nat): (o: Outcome)
    ensures k < |env| ==> o == env[k]
    ensures k >= |env| ==> Passed(o, BUFFER_SIZE)
  {
    if k < |env| then env[k] else SMOOTH
  }

  function DeliveryError(o: Outcome, n: nat): CopyError {
    if !o.waitOk then WaitFailed
    else if !o.writeOk then WriteFailed
    else if !o.flushOk then FlushFailed
    else if o.accepted < n then ShortWrite
    else NoFailure
  }

  function WireLength(part: seq<Byte>, index: nat, framing: seq<Byte>): nat {
    |part| + if index < |framing| then HEADER_SIZE + framing[index] as int else 0
  }

  /** Hands a filled buffer on and bills its payload if any byte of it was taken. */
  method Deliver(dst: Sink, buf: array<Byte>, nr: nat, logicalNr: nat, o: Outcome, stats: Counters, upload: bool)
    returns (counted: nat, err: CopyError)
    requires 0 < nr <= buf.Length
    modifies dst, stats`upload, stats`download
    ensures dst.log == old(dst.log) + buf[..Taken(o, nr)]
    ensures counted == if dst.log == old(dst.log) then 0 else logicalNr
    ensures stats.upload == old(stats.upload) + if upload then counted else 0
    ensures stats.download == old(stats.download) + if upload then 0 else counted
    ensures err == DeliveryError(o, nr)
  {
    counted, err := 0, NoFailure;
    if !o.waitOk {
      return 0, WaitFailed;
    }
    var nw, ok := dst.Write(buf, nr, o);
    if nw > 0 {
      counted := logicalNr;
      if upload {
        stats.AddUpload(logicalNr);
      } else {
        stats.AddDownload(logicalNr);
      }
    }
    if !ok {
      err := WriteFailed;
    } else if !o.flushOk {
      err := FlushFailed;
    } else if nr != nw {
      err := ShortWrite;
    }
  }

  /** Billing after one more part, of which the destination took the first `taken` wire bytes. */
  lemma BilledAppend(parts: seq<seq<Byte>>, part: seq<Byte>, framing: seq<Byte>, taken: nat)
    requires Fits(parts, framing) && part != []
    requires |parts| < |framing| ==> |part| <= MaxPayload(framing[|parts|])
    requires taken <= |WireOf(part, |parts|, framing)|
    ensures Billed(parts + [part], framing, Encode(parts, framing) + WireOf(part, |parts|, framing)[..taken],
                   |Flatten(parts)| + if taken == 0 then 0 else |part|)
  {
    var all := parts + [part];
    var base, wire := Encode(parts, framing), WireOf(part, |parts|, framing);
    EncodeAppend(parts, part, framing);
    FlattenAppend(parts, part);
    PrefixOfAppend(base, wire, taken);
    assert all[..|all| - 1] == parts;
  }

  lemma PrefixOfAppend(base: seq<Byte>, wire: seq<Byte>, taken: nat)
    requires taken <= |wire|
    ensures base <= base + wire[..taken] <= base + wire
    ensures base + wire[..taken] == base <==> taken == 0
  {
    assert base + wire == base + wire[..taken] + wire[taken..];
  }

  /** One turn of the loop: read in the way the mode and the slot ask for, then hand on. */
  method CopyOnce(dst: Sink, src: Source, buf: array<Byte>, mode: PaddingType, pads: seq<Byte>, o: Outcome,
                  used: nat, stats: Counters, upload: bool, ghost index: nat)
    returns (numPadding: nat, logicalNr: nat, counted: nat, err: CopyError, er: ReadError,
             ghost part: seq<Byte>, ghost taken: nat)
    requires src.Valid() && buf.Length == BUFFER_SIZE && |pads| == NUM_FIRST_PADDINGS
    requires used <= NUM_FIRST_PADDINGS && (mode == AddPadding ==> used == Min(NUM_FIRST_PADDINGS, index))
    modifies src`chunks, buf, dst, stats`upload, stats`download
    ensures src.Valid()
    ensures ReadStep(mode, old(src.Data()), src.Data(), used, numPadding, src.end, part, er)
    ensures numPadding <= NUM_FIRST_PADDINGS
    ensures er == NoError ==>
      |src.Data()| + NUM_FIRST_PADDINGS - numPadding < |old(src.Data())| + NUM_FIRST_PADDINGS - used
    ensures mode == AddPadding && part != [] ==> numPadding == Min(NUM_FIRST_PADDINGS, index + 1)
    ensures mode == AddPadding && part == [] ==> er != NoError
    ensures var framing := Framing(mode, pads);
      && (index < |framing| ==> |part| <= MaxPayload(framing[index]))
      && (if part == [] then dst.log == old(dst.log) && taken == 0 && err == NoFailure
          else
            && taken == Taken(o, WireLength(part, index, framing))
            && taken <= |WireOf(part, index, framing)|
            && dst.log == old(dst.log) + WireOf(part, index, framing)[..taken]
            && err == DeliveryError(o, WireLength(part, index, framing)))
    ensures logicalNr == |part| && counted == if taken == 0 then 0 else |part|
    ensures stats.upload == old(stats.upload) + if upload then counted else 0
    ensures stats.download == old(stats.download) + if upload then 0 else counted
  {
    hide Decode, EndsInsidePadding;
    ghost var framing := Framing(mode, pads);
    var nr;
    numPadding, counted, err, taken := used, 0, NoFailure, 0;
    if mode == AddPadding && numPadding < NUM_FIRST_PADDINGS {
      numPadding := numPadding + 1;
      nr, logicalNr, er, part := FillFrame(src, buf, used, pads[used]);
    } else if mode == RemovePadding && numPadding < NUM_FIRST_PADDINGS {
      numPadding := numPadding + 1;
      nr, logicalNr, er, part := TakePadded(src, buf, used);
    } else {
      nr, logicalNr, er, part := TakeRaw(src, buf, mode, numPadding);
    }
    if nr > 0 {
      assert buf[..nr] == WireOf(part, index, framing) && nr == WireLength(part, index, framing);
      taken := Taken(o, nr);
      counted, err := Deliver(dst, buf, nr, logicalNr, o, stats, upload);
    }
  }

  /** The first `n` parts were handed on without any failure. */
  ghost predicate Smooth(env: seq<Outcome>, parts: seq<seq<Byte>>, framing: seq<Byte>, n: nat)
    requires n <= |parts|
  {
    forall k | 0 <= k < n :: DeliveryError(OutcomeAt(env, k), WireLength(parts[k], k, framing)) == NoFailure
  }

  /** How much of `length` bytes handed on is taken. */
  function Taken(o: Outcome, length: nat): nat {
    if o.waitOk then Min(length, o.accepted) else 0
  }

  /** The last part met the failure `err`, after the destination took what it would take of it. */
  ghost predicate FailedLast(env: seq<Outcome>, parts: seq<seq<Byte>>, framing: seq<Byte>, sent: seq<Byte>,
                             err: CopyError)
    requires Fits(parts, framing)
  {
    && parts != []
    && var n := |parts| - 1;
       && Smooth(env, parts, framing, n)
       && err == DeliveryError(OutcomeAt(env, n), WireLength(parts[n], n, framing))
       && Fits(parts[..n], framing)
       && var wire := WireOf(parts[n], n, framing);
          sent == Encode(parts[..n], framing) + wire[..Taken(OutcomeAt(env, n), |wire|)]
  }

  /** The state of the copy after some turns: `rest` is still to be read of `data`, `parts` were
      read, `sent` reached the destination and `count` bytes were billed. */
  datatype Progress = Progress(rest: seq<Byte>, used: nat, parts: seq<seq<Byte>>, sent: seq<Byte>, count: nat)

  /** Everything read was delivered and billed, and nothing was lost or invented. */
  ghost predicate Settled(mode: PaddingType, data: seq<Byte>, framing: seq<Byte>, p: Progress) {
    && p.used <= NUM_FIRST_PADDINGS
    && Fits(p.parts, framing)
    && p.sent == Encode(p.parts, framing)
    && p.count == |Flatten(p.parts)|
    && Flatten(p.parts) + Payload(mode, p.rest, p.used) == Payload(mode, data, 0)
  }

  ghost predicate Copying(mode: PaddingType, data: seq<Byte>, framing: seq<Byte>, end: ReadError,
                          env: seq<Outcome>, p: Progress)
  {
    && Settled(mode, data, framing, p)
    && Billed(p.parts, framing, p.sent, p.count)
    && Smooth(env, p.parts, framing, |p.parts|)
    && FinalError(mode, p.rest, p.used, end) == FinalError(mode, data, 0, end)
    && (mode == AddPadding ==> p.used == Min(NUM_FIRST_PADDINGS, |p.parts|))
  }

  /** One more part, fully delivered. */
  lemma SettledAppend(mode: PaddingType, data: seq<Byte>, framing: seq<Byte>, end: ReadError, p: Progress,
                      rest': seq<Byte>, used': nat, part: seq<Byte>, er: ReadError)
    requires Settled(mode, data, framing, p)
    requires ReadStep(mode, p.rest, rest', p.used, used', end, part, er) && part != []
    requires |p.parts| < |framing| ==> |part| <= MaxPayload(framing[|p.parts|])
    ensures Settled(mode, data, framing, Progress(rest', used', p.parts + [part],
                    p.sent + WireOf(part, |p.parts|, framing), p.count + |part|))
    ensures Flatten(p.parts + [part]) <= Payload(mode, data, 0)
  {
    EncodeAppend(p.parts, part, framing);
    FlattenAppend(p.parts, part);
    MoveAcross(Flatten(p.parts), part, Payload(mode, rest', used'));
  }

  /** How a copy of `data` ends. Whatever happened, what reached the destination is a prefix of
      the wire image of what was read, and billing follows the payload. When reading came to its
      end, everything the source stood for was delivered and billed, and the error is the one
      reading ended with; otherwise the last buffer handed on met the failure. */
  ghost predicate Copied(mode: PaddingType, data: seq<Byte>, framing: seq<Byte>, end: ReadError,
                         env: seq<Outcome>, p: Progress, err: CopyError)
  {
    && Billed(p.parts, framing, p.sent, p.count)
    && Flatten(p.parts) <= Payload(mode, data, 0)
    && p.used <= NUM_FIRST_PADDINGS
    && Flatten(p.parts) + Payload(mode, p.rest, p.used) == Payload(mode, data, 0)
    && if err in {NoFailure, SourceCut, SourceFailed} then
         && Settled(mode, data, framing, p) && p.rest == []
         && Flatten(p.parts) == Payload(mode, data, 0)
         && Smooth(env, p.parts, framing, |p.parts|)
         && err == AsCopyError(FinalError(mode, data, 0, end))
       else FailedLast(env, p.parts, framing, p.sent, err)
  }

  /** The buffer went through: let pass, taken whole, and written and flushed without an error. */
  predicate Passed(o: Outcome, length: nat) {
    o.waitOk && o.accepted >= length && o.writeOk && o.flushOk
  }

  /** A copy stops at the first fault. Every buffer before the last went through, and the last one too
      when reading came to its end. Otherwise the last one did not, and the error tells which fault
      came first: the rate limiter's, the write's, the flush's, or a write cut short. */
  lemma FaultsEndTheCopy(mode: PaddingType, data: seq<Byte>, framing: seq<Byte>, end: ReadError, env: seq<Outcome>,
                         p: Progress, err: CopyError)
    requires Copied(mode, data, framing, end, env, p, err)
    ensures Fits(p.parts, framing)
    ensures forall k | 0 <= k < |p.parts| && (k < |p.parts| - 1 || err in {NoFailure, SourceCut, SourceFailed}) ::
      Passed(OutcomeAt(env, k), |WireOf(p.parts[k], k, framing)|)
    ensures err !in {NoFailure, SourceCut, SourceFailed} ==>
      && p.parts != []
      && var n := |p.parts| - 1;
         var o, wire := OutcomeAt(env, n), WireOf(p.parts[n], n, framing);
         && (err == WaitFailed <==> !o.waitOk)
         && (err == WriteFailed <==> o.waitOk && !o.writeOk)
         && (err == FlushFailed <==> o.waitOk && o.writeOk && !o.flushOk)
         && (err == ShortWrite <==> o.waitOk && o.writeOk && o.flushOk && o.accepted < |wire|)
  {
    hide Encode, Flatten, Payload, FinalError, Frame, WireOf, Billed, OutcomeAt;
    assert Fits(p.parts, framing) by { BilledFits(p.parts, framing, p.sent, p.count); }
    forall k | 0 <= k < |p.parts|
      ensures |WireOf(p.parts[k], k, framing)| == WireLength(p.parts[k], k, framing)
    {
      WireNotEmpty(p.parts[k], k, framing);
    }
    hide Fits, WireLength;
  }

  lemma BilledFits(parts: seq<seq<Byte>>, framing: seq<Byte>, sent: seq<Byte>, count: nat)
    requires Billed(parts, framing, sent, count)
    ensures Fits(parts, framing)
  {
  }

  /** Of the buffer that failed nothing is sent if the limiter did not let it pass, and else as much as
      the destination accepts. */
  lemma FailedCopySent(mode: PaddingType, data: seq<Byte>, framing: seq<Byte>, end: ReadError, env: seq<Outcome>,
                       p: Progress, err: CopyError)
    requires Copied(mode, data, framing, end, env, p, err) && err !in {NoFailure, SourceCut, SourceFailed}
    ensures p.parts != [] && Fits(p.parts, framing)
    ensures var n := |p.parts| - 1;
      var o, wire := OutcomeAt(env, n), WireOf(p.parts[n], n, framing);
      && Fits(p.parts[..n], framing)
      && (!o.waitOk ==> p.sent == Encode(p.parts[..n], framing))
      && (o.waitOk && o.accepted < |wire| ==> p.sent == Encode(p.parts[..n], framing) + wire[..o.accepted])
      && (o.waitOk && o.accepted >= |wire| ==> p.sent == Encode(p.parts, framing))
  {
    hide Encode, Flatten, Payload, FinalError, Frame, Smooth, DeliveryError, OutcomeAt;
    var n := |p.parts| - 1;
    var wire := WireOf(p.parts[n], n, framing);
    assert p.parts == p.parts[..n] + [p.parts[n]];
    EncodeAppend(p.parts[..n], p.parts[n], framing);
    assert wire[..|wire|] == wire;
  }

  /** What one turn makes of the copy. */
  ghost predicate Turned(mode: PaddingType, data: seq<Byte>, framing: seq<Byte>, end: ReadError,
                         env: seq<Outcome>, p: Progress, err: CopyError, er: ReadError)
  {
    if err == NoFailure && er == NoError then Copying(mode, data, framing, end, env, p)
    else Copied(mode, data, framing, end, env, p, if err == NoFailure then AsCopyError(er) else err)
  }

  lemma CopyStarts(mode: PaddingType, data: seq<Byte>, framing: seq<Byte>, end: ReadError, env: seq<Outcome>)
    ensures Copying(mode, data, framing, end, env, Progress(data, 0, [], [], 0))
  {
    assert [] + Payload(mode, data, 0) == Payload(mode, data, 0);
  }

  lemma NothingRead(mode: PaddingType, data: seq<Byte>, framing: seq<Byte>, end: ReadError, env: seq<Outcome>,
                    p: Progress, p': Progress, er: ReadError)
    requires Copying(mode, data, framing, end, env, p) && (end == EndOfFile || end == ReadFailed)
    requires ReadStep(mode, p.rest, p'.rest, p.used, p'.used, end, [], er)
    requires mode == AddPadding ==> er != NoError
    requires p' == p.(rest := p'.rest, used := p'.used)
    ensures Turned(mode, data, framing, end, env, p', NoFailure, er)
  {
    assert Payload(mode, p.rest, p.used) == Payload(mode, p'.rest, p'.used);
  }

  /** One more part, of which the destination took `taken` wire bytes. */
  lemma PartHandedOn(mode: PaddingType, data: seq<Byte>, framing: seq<Byte>, end: ReadError, env: seq<Outcome>,
                     p: Progress, p': Progress, part: seq<Byte>, er: ReadError, taken: nat, err: CopyError)
    requires Copying(mode, data, framing, end, env, p) && (end == EndOfFile || end == ReadFailed)
    requires ReadStep(mode, p.rest, p'.rest, p.used, p'.used, end, part, er) && part != []
    requires |p.parts| < |framing| ==> |part| <= MaxPayload(framing[|p.parts|])
    requires mode == AddPadding ==> p'.used == Min(NUM_FIRST_PADDINGS, |p.parts| + 1)
    requires taken <= |WireOf(part, |p.parts|, framing)|
    requires p'.parts == p.parts + [part] && p'.sent == p.sent + WireOf(part, |p.parts|, framing)[..taken]
    requires p'.count == p.count + if taken == 0 then 0 else |part|
    requires err == DeliveryError(OutcomeAt(env, |p.parts|), WireLength(part, |p.parts|, framing))
    requires taken == Taken(OutcomeAt(env, |p.parts|), WireLength(part, |p.parts|, framing))
    ensures Turned(mode, data, framing, end, env, p', err, er)
  {
    hide Encode, Frame, Flatten, Decode, EndsInsidePadding;
    BilledAppend(p.parts, part, framing, taken);
    SettledAppend(mode, data, framing, end, p, p'.rest, p'.used, part, er);
    var wire := WireOf(part, |p.parts|, framing);
    assert wire[..|wire|] == wire;
    assert forall k | 0 <= k < |p.parts| :: p'.parts[k] == p.parts[k];
    NothingLeft(mode, p'.used);
    WireNotEmpty(part, |p.parts|, framing);
    assert err == NoFailure ==> taken == |wire|;
    if err == NoFailure {
      assert Settled(mode, data, framing, p');
      assert Smooth(env, p'.parts, framing, |p'.parts|);
    } else {
      assert p'.parts[..|p.parts|] == p.parts;
      assert FailedLast(env, p'.parts, framing, p'.sent, err);
    }
  }

  lemma WireNotEmpty(part: seq<Byte>, index: nat, framing: seq<Byte>)
    requires part != [] && (index < |framing| ==> |part| <= MaxPayload(framing[index]))
    ensures WireOf(part, index, framing) != [] && |WireOf(part, index, framing)| == WireLength(part, index, framing)
  {
  }

  lemma NothingLeft(mode: PaddingType, used: nat)
    requires used <= NUM_FIRST_PADDINGS
    ensures Payload(mode, [], used) == []
  {
  }

  lemma MoveAcross(done: seq<Byte>, part: seq<Byte>, rest: seq<Byte>)
    ensures done + (part + rest) == (done + part) + rest
    ensures done + part <= done + (part + rest)
  {
    assert done + (part + rest) == (done + part) + rest;
  }

  /** One turn, with the ghost account of the copy. */
  method Turn(dst: Sink, src: Source, buf: array<Byte>, mode: PaddingType, pads: seq<Byte>, env: seq<Outcome>,
              used: nat, handed: nat, stats: Counters, upload: bool, ghost data: seq<Byte>, ghost p: Progress)
    returns (numPadding: nat, handed': nat, counted: nat, err: CopyError, er: ReadError, ghost p': Progress)
    requires src.Valid() && buf.Length == BUFFER_SIZE && |pads| == NUM_FIRST_PADDINGS
    requires Copying(mode, data, Framing(mode, pads), src.end, env, p)
    requires p.rest == src.Data() && p.used == used && |p.parts| == handed
    requires used <= NUM_FIRST_PADDINGS && (mode == AddPadding ==> used == Min(NUM_FIRST_PADDINGS, handed))
    modifies src`chunks, buf, dst, stats`upload, stats`download
    ensures src.Valid()
    ensures Turned(mode, data, Framing(mode, pads), src.end, env, p', err, er)
    ensures p'.rest == src.Data() && p'.used == numPadding && |p'.parts| == handed'
    ensures numPadding <= NUM_FIRST_PADDINGS
    ensures mode == AddPadding && err == NoFailure && er == NoError ==> numPadding == Min(NUM_FIRST_PADDINGS, handed')
    ensures p'.count == p.count + counted
    ensures p.sent <= p'.sent && dst.log == old(dst.log) + p'.sent[|p.sent|..]
    ensures stats.upload == old(stats.upload) + if upload then counted else 0
    ensures stats.download == old(stats.download) + if upload then 0 else counted
    ensures err == NoFailure && er == NoError ==>
      |src.Data()| + NUM_FIRST_PADDINGS - numPadding < |old(src.Data())| + NUM_FIRST_PADDINGS - used
  {
    hide Copying, Turned, ReadStep;
    var logicalNr;
    ghost var part, taken;
    numPadding, logicalNr, counted, err, er, part, taken :=
      CopyOnce(dst, src, buf, mode, pads, OutcomeAt(env, handed), used, stats, upload, handed);
    p', handed' := p.(rest := src.Data(), used := numPadding), handed;
    if logicalNr > 0 {
      handed' := handed + 1;
      ghost var wire := WireOf(part, handed, Framing(mode, pads))[..taken];
      p' := Progress(src.Data(), numPadding, p.parts + [part], p.sent + wire, p.count + counted);
      PartHandedOn(mode, data, Framing(mode, pads), src.end, env, p, p', part, er, taken, err);
    } else {
      NothingRead(mode, data, Framing(mode, pads), src.end, env, p, p', er);
    }
  }

  /** Copies until the source ends or something fails. `pads` are the random padding sizes and
      `env` what happens to each buffer handed on. */
  method FlushingIoCopy(dst: Sink, src: Source, buf: array<Byte>, mode: PaddingType, pads: seq<Byte>,
                        env: seq<Outcome>, stats: Counters, upload: bool)
    returns (written: nat, err: CopyError, ghost p: Progress)
    requires src.Valid() && buf.Length == BUFFER_SIZE && |pads| == NUM_FIRST_PADDINGS
    modifies src`chunks, buf, dst, stats`upload, stats`download
    ensures src.Valid() && p.rest == src.Data()
    ensures dst.log == old(dst.log) + p.sent && written == p.count
    ensures stats.upload == old(stats.upload) + if upload then written else 0
    ensures stats.download == old(stats.download) + if upload then 0 else written
    ensures Copied(mode, old(src.Data()), Framing(mode, pads), src.end, env, p, err)
  {
    hide Copying, Copied;
    CopyStarts(mode, src.Data(), Framing(mode, pads), src.end, env);
    written, err, p := 0, NoFailure, Progress(src.Data(), 0, [], [], 0);
    var numPadding, handed := 0, 0;
    ghost var data := src.Data();
    while true
      invariant src.Valid()
      invariant p.rest == src.Data() && p.used == numPadding && |p.parts| == handed && p.count == written
      invariant numPadding <= NUM_FIRST_PADDINGS
      invariant mode == AddPadding ==> numPadding == Min(NUM_FIRST_PADDINGS, handed)
      invariant Copying(mode, data, Framing(mode, pads), src.end, env, p)
      invariant dst.log == old(dst.log) + p.sent
      invariant stats.upload == old(stats.upload) + if upload then written else 0
      invariant stats.download == old(stats.download) + if upload then 0 else written
      decreases |src.Data()| + NUM_FIRST_PADDINGS - numPadding
    {
      var counted, er;
      numPadding, handed, counted, err, er, p :=
        Turn(dst, src, buf, mode, pads, env, numPadding, handed, stats, upload, data, p);
      written := written + counted;
      if err != NoFailure {
        break;
      }
      if er != NoError {
        err := AsCopyError(er);
        break;
      }
    }
  }
}
