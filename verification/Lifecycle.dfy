/** One CONNECT request from authorisation to its last call to the node server, on every way out. */
module Lifecycle {
  import opened Server
  import opened ServerFacts
  import L = Limiter
  import AdmissionRuns
  import LedgerTheorems

  datatype Dial = DialError | NoConnection | Dialed

  /** What the client sent and how the steps that reach outside end; `user` is empty on a node without
      authentication, `upload` and `download` are the last byte counts drained from the meters. */
  datatype Request = Request(protoMajor: int, user: string, ip: string, pseudoHeaders: bool, flushes: bool,
                             dial: Dial, upload: int, download: int)

  datatype Reply = VersionNotSupported | AuthRequired | DeviceLimitReached | BadRequest | FlushFailed
                 | DialFailed | NotAllowed | TunnelEnded

  datatype Call = Authorize | Release | Emit(event: Event) | StopReporter | CloseTarget

  /** Work put off to the end of the request, run last in first out. */
  datatype Deferred = ReleaseOnFailure | CloseTheTarget | StopTheReporter | EmitClose

  /** The request reaches a connected target. */
  predicate Established(r: Request) {
    !(r.protoMajor in {2, 3} && r.pseudoHeaders) && r.flushes && r.dial.Dialed?
  }

  /** The node server is asked about the user, and later told of a release, only for a named user at
      a known address; otherwise the request goes ahead unasked. */
  predicate Asks(r: Request) {
    r.user != "" && r.ip != ""
  }

  function CloseEvent(r: Request, auth: Response): Event {
    Close(r.user, if Asks(r) then auth.userID else 0, r.ip, r.upload, r.download)
  }

  /** The calls of a request: a rejected one makes no other call; an authorised one either releases
      its address or opens and closes a tunnel, and never both. */
  function CallsOf(r: Request, auth: Response): seq<Call> {
    if r.protoMajor !in {1, 2, 3} then []
    else if Asks(r) && auth.Denied? then [Authorize]
    else
      (if Asks(r) then [Authorize] else [])
      + if Established(r) then [Emit(Open(r.user, r.ip)), Emit(CloseEvent(r, auth)), StopReporter, CloseTarget]
        else if Asks(r) then [Release]
        else []
  }

  predicate Refused(r: Request, auth: Response) {
    r.protoMajor !in {1, 2, 3} || (Asks(r) && auth.Denied?)
  }

  datatype Kind = Asking | Releasing | Opening | Closing | Other

  function KindOf(c: Call): Kind {
    match c
    case Authorize => Asking
    case Release => Releasing
    case Emit(Open(_, _)) => Opening
    case Emit(Close(_, _, _, _, _)) => Closing
    case _ => Other
  }

  function Number(calls: seq<Call>, kind: Kind): nat {
    if calls == [] then 0 else (if KindOf(calls[0]) == kind then 1 else 0) + Number(calls[1..], kind)
  }

  lemma NumberOne(c: Call, calls: seq<Call>, kind: Kind)
    ensures Number([c] + calls, kind) == (if KindOf(c) == kind then 1 else 0) + Number(calls, kind)
  {
    assert ([c] + calls)[1..] == calls;
  }

  /** How often a request asks for its user, opens and closes a tunnel and releases its address. */
  lemma CallCounts(r: Request, auth: Response, kind: Kind)
    requires kind != Other
    ensures Number(CallsOf(r, auth), kind)
            == if kind == Asking then (if r.protoMajor in {1, 2, 3} && Asks(r) then 1 else 0)
               else if Refused(r, auth) then 0
               else if kind == Releasing then (if Asks(r) && !Established(r) then 1 else 0)
               else if Established(r) then 1
               else 0
  {
    hide Established, Number;
    var close := Emit(CloseEvent(r, auth));
    NumberOne(CloseTarget, [], kind);
    NumberOne(StopReporter, [CloseTarget], kind);
    NumberOne(close, [StopReporter] + [CloseTarget], kind);
    NumberOne(Emit(Open(r.user, r.ip)), [close] + ([StopReporter] + [CloseTarget]), kind);
    var tunnel := [Emit(Open(r.user, r.ip))] + ([close] + ([StopReporter] + [CloseTarget]));
    NumberOne(Authorize, tunnel, kind);
    NumberOne(Release, [], kind);
    NumberOne(Authorize, [Release], kind);
    NumberOne(Authorize, [], kind);
    NumberOfNone(kind);
    assert [CloseTarget] + [] == [CloseTarget] && [Release] + [] == [Release] && [Authorize] + [] == [Authorize];
    assert [Authorize] + [Release] == [Authorize, Release];
    assert tunnel == [Emit(Open(r.user, r.ip)), close, StopReporter, CloseTarget];
    hide CloseEvent;
    var calls := CallsOf(r, auth);
    if r.protoMajor !in {1, 2, 3} {
      assert calls == [];
    } else if Refused(r, auth) {
      assert calls == [Authorize];
    } else if Established(r) {
      assert calls == if Asks(r) then [Authorize] + tunnel else tunnel;
    } else {
      assert calls == if Asks(r) then [Authorize] + [Release] else [];
    }
  }

  lemma NumberOfNone(kind: Kind)
    ensures Number([], kind) == 0
  {
  }

  method ServeConnect(r: Request, auth: Response) returns (reply: Reply, calls: seq<Call>)
    ensures calls == CallsOf(r, auth)
    ensures Number(calls, Opening) == Number(calls, Closing) == if !Refused(r, auth) && Established(r) then 1 else 0
    ensures Number(calls, Releasing) == if !Refused(r, auth) && Asks(r) && !Established(r) then 1 else 0
    ensures Number(calls, Asking) == if r.protoMajor in {1, 2, 3} && r.user != "" && r.ip != "" then 1 else 0
    ensures Number(calls, Asking) == 1 ==> calls[0] == Authorize
    ensures Number(calls, Opening) == 1 ==>
      && |calls| >= 4 && KindOf(calls[|calls| - 4]) == Opening && KindOf(calls[|calls| - 3]) == Closing
      && calls[|calls| - 2] == StopReporter && calls[|calls| - 1] == CloseTarget
    ensures reply.VersionNotSupported? <==> r.protoMajor !in {1, 2, 3}
    ensures reply.AuthRequired? <==> r.protoMajor in {1, 2, 3} && Asks(r) && auth.Denied? && auth.reason == Unauthorized
    ensures reply.DeviceLimitReached?
       <==> r.protoMajor in {1, 2, 3} && Asks(r) && auth.Denied? && auth.reason != Unauthorized
    ensures !Refused(r, auth) ==> ReplyFits(r, reply)
  {
    CallCounts(r, auth, Asking);
    CallCounts(r, auth, Opening);
    CallCounts(r, auth, Closing);
    CallCounts(r, auth, Releasing);
    hide Number;
    calls := [];
    if r.protoMajor != 1 && r.protoMajor != 2 && r.protoMajor != 3 {
      return VersionNotSupported, [];
    }
    if r.user != "" && r.ip != "" {
      calls := [Authorize];
      if auth.Denied? {
        return if auth.reason == Unauthorized then AuthRequired else DeviceLimitReached, calls;
      }
    }
    ghost var asked := calls;
    var deferred, releaseOnFailure;
    reply, calls, deferred, releaseOnFailure := Forward(r, auth, calls);
    for i := |deferred| downto 0
      invariant deferred == [ReleaseOnFailure] && releaseOnFailure ==>
        calls == if i == 1 then asked else CallsOf(r, auth)
      invariant deferred == [ReleaseOnFailure, CloseTheTarget, StopTheReporter, EmitClose] && !releaseOnFailure ==>
        calls == CallsOf(r, auth)[..|asked| + if i == 0 then 4 else 5 - i]
    {
      match deferred[i]
      case ReleaseOnFailure =>
        if releaseOnFailure && r.user != "" && r.ip != "" {
          calls := calls + [Release];
        }
      case CloseTheTarget => calls := calls + [CloseTarget];
      case StopTheReporter => calls := calls + [StopReporter];
      case EmitClose => calls := calls + [Emit(CloseEvent(r, auth))];
    }
  }

  /** The reply of a request that was let in: the first step that went wrong decides. */
  ghost predicate ReplyFits(r: Request, reply: Reply) {
    && (reply.BadRequest? <==> r.protoMajor in {2, 3} && r.pseudoHeaders)
    && (reply.FlushFailed? <==> !(r.protoMajor in {2, 3} && r.pseudoHeaders) && !r.flushes)
    && (reply.DialFailed? ==> r.dial.DialError?) && (reply.NotAllowed? ==> r.dial.NoConnection?)
    && (reply.TunnelEnded? ==> r.dial.Dialed?)
    && (reply.TunnelEnded? || reply.DialFailed? || reply.NotAllowed?
        <==> r.flushes && !(r.protoMajor in {2, 3} && r.pseudoHeaders))
  }

  method Forward(r: Request, auth: Response, before: seq<Call>)
    returns (reply: Reply, calls: seq<Call>, deferred: seq<Deferred>, releaseOnFailure: bool)
    requires r.protoMajor in {1, 2, 3}
    ensures !Established(r) ==> calls == before && deferred == [ReleaseOnFailure] && releaseOnFailure
    ensures Established(r) ==>
      && calls == before + [Emit(Open(r.user, r.ip))]
      && deferred == [ReleaseOnFailure, CloseTheTarget, StopTheReporter, EmitClose] && !releaseOnFailure
    ensures ReplyFits(r, reply)
    ensures !reply.AuthRequired? && !reply.DeviceLimitReached? && !reply.VersionNotSupported?
  {
    calls, deferred, releaseOnFailure := before, [ReleaseOnFailure], true;
    if (r.protoMajor == 2 || r.protoMajor == 3) && r.pseudoHeaders {
      reply := BadRequest;
      return;
    }
    if !r.flushes {
      reply := FlushFailed;
      return;
    }
    if r.dial.DialError? {
      reply := DialFailed;
      return;
    }
    if r.dial.NoConnection? {
      reply := NotAllowed;
      return;
    }
    deferred := deferred + [CloseTheTarget, StopTheReporter];
    calls := calls + [Emit(Open(r.user, r.ip))];
    releaseOnFailure := false;
    deferred := deferred + [EmitClose];
    reply := TunnelEnded;
  }

  // ---------- the effect on the node server ----------

  datatype World = World(books: State, limiter: L.State)

  function Effect(w: World, c: Call, r: Request): World {
    match c
    case Authorize => w.(limiter := L.Authorized(w.limiter, r.user, r.ip))
    case Release => w.(limiter := L.Released(w.limiter, r.user, r.ip))
    case Emit(e) =>
      World(Handled(w.books, e), if e.Close? then L.Released(w.limiter, e.user, e.ip) else w.limiter)
    case _ => w
  }

  function Effects(w: World, calls: seq<Call>, r: Request): World
    decreases |calls|
  {
    if calls == [] then w else Effects(Effect(w, calls[0], r), calls[1..], r)
  }

  // ---------- the reporter ----------

  /** A tick of the reporter: what it drains from the meters, and whether the node server accepts the
      pair again. */
  datatype Tick = Tick(upload: int, download: int, accepted: bool)

  /** The calls of one tick. A rejection makes the reporter close the target. */
  function TickCalls(r: Request, userID: int, t: Tick): seq<Call> {
    (if t.upload > 0 || t.download > 0 then [Emit(Traffic(r.user, userID, t.upload, t.download))] else [])
    + if !Asks(r) then [] else if t.accepted then [Authorize] else [Authorize, CloseTarget]
  }

  /** What the reporter of a tunnel calls; a rejection is the end of it. */
  function Beats(r: Request, userID: int, ticks: seq<Tick>): seq<Call> {
    if ticks == [] then []
    else
      TickCalls(r, userID, ticks[0])
      + if Asks(r) && !ticks[0].accepted then [] else Beats(r, userID, ticks[1..])
  }

  method ReportTick(r: Request, userID: int, t: Tick) returns (calls: seq<Call>, ends: bool)
    ensures calls == TickCalls(r, userID, t) && ends == (Asks(r) && !t.accepted)
  {
    calls, ends := [], false;
    if t.upload > 0 || t.download > 0 {
      calls := [Emit(Traffic(r.user, userID, t.upload, t.download))];
    }
    if r.user != "" && r.ip != "" {
      calls := calls + [Authorize];
      if !t.accepted {
        calls := calls + [CloseTarget];
        ends := true;
      }
    }
  }

  method ReportActiveTunnel(r: Request, userID: int, ticks: seq<Tick>) returns (calls: seq<Call>)
    ensures calls == Beats(r, userID, ticks)
  {
    calls := [];
    assert ticks[0..] == ticks && ticks[|ticks|..] == [];
    assert Beats(r, userID, []) == [];
    hide Beats, TickCalls;
    for i := 0 to |ticks|
      invariant calls + Beats(r, userID, ticks[i..]) == Beats(r, userID, ticks)
    {
      var more, ends := ReportTick(r, userID, ticks[i]);
      NextBeat(r, userID, ticks, i, calls);
      calls := calls + more;
      if ends {
        return;
      }
    }
  }

  lemma NextBeat(r: Request, userID: int, ticks: seq<Tick>, i: nat, calls: seq<Call>)
    requires i < |ticks|
    ensures var more := calls + TickCalls(r, userID, ticks[i]);
      calls + Beats(r, userID, ticks[i..])
      == if Asks(r) && !ticks[i].accepted then more else more + Beats(r, userID, ticks[i + 1..])
  {
    assert ticks[i..][0] == ticks[i] && ticks[i..][1..] == ticks[i + 1..];
    hide TickCalls;
  }

  /** What a reporter can call. */
  predicate OfReporter(c: Call) {
    c.Authorize? || c.CloseTarget? || (c.Emit? && c.event.Traffic?)
  }

  lemma {:induction false} BeatsFacts(r: Request, userID: int, ticks: seq<Tick>)
    ensures forall c | c in Beats(r, userID, ticks) :: OfReporter(c) && (c.Authorize? ==> Asks(r))
  {
    if ticks != [] {
      BeatsFacts(r, userID, ticks[1..]);
    }
  }

  function AskCalls(r: Request): seq<Call> {
    if Asks(r) then [Authorize] else []
  }

  function CallsPastAuthorisation(r: Request, auth: Response, beats: seq<Call>, n: nat): seq<Call>
    requires n <= |beats|
  {
    if Established(r) then
      [Emit(Open(r.user, r.ip))] + beats[..n] + [Emit(CloseEvent(r, auth)), StopReporter, CloseTarget] + beats[n..]
    else if Asks(r) then [Release]
    else []
  }

  /** The calls of a request with those of its reporter in between: the first `n` of the reporter's come
      before the close event, the others after it, since the reporter is stopped only after that
      event and nothing waits for a call that is under way. */
  function Session(r: Request, auth: Response, beats: seq<Call>, n: nat): seq<Call>
    requires n <= |beats| && r.protoMajor in {1, 2, 3}
  {
    AskCalls(r) + if Refused(r, auth) then [] else CallsPastAuthorisation(r, auth, beats, n)
  }

  /** A session is the request's own calls with the reporter's put in around the last three of them. */
  lemma SessionInserts(r: Request, auth: Response, beats: seq<Call>, n: nat)
    requires n <= |beats| && r.protoMajor in {1, 2, 3}
    ensures var calls := CallsOf(r, auth);
      Session(r, auth, beats, n)
      == if Refused(r, auth) || !Established(r) then calls
         else calls[..|calls| - 3] + beats[..n] + calls[|calls| - 3..] + beats[n..]
  {
    hide Established, CloseEvent;
    if !Refused(r, auth) && Established(r) {
      var close := [Emit(CloseEvent(r, auth)), StopReporter, CloseTarget];
      var calls := CallsOf(r, auth);
      var opening := AskCalls(r) + [Emit(Open(r.user, r.ip))];
      assert calls == opening + close;
      assert calls[..|calls| - 3] == opening && calls[|calls| - 3..] == close;
    }
  }

  // ---------- what a request leaves behind ----------

  function BookOne(s: State, c: Call): State {
    match c
    case Emit(Traffic(user, uid, up, down)) => AddTraffic(s, user, uid, up, down)
    case Emit(Close(user, uid, _, up, down)) => AddTraffic(s, user, uid, up, down)
    case _ => s
  }

  /** The books with the bytes of all events among the calls. */
  function Booked(s: State, calls: seq<Call>): State
    decreases |calls|
  {
    if calls == [] then s else Booked(BookOne(s, calls[0]), calls[1..])
  }

  lemma {:induction false} BookedConcat(s: State, a: seq<Call>, b: seq<Call>)
    ensures Booked(s, a + b) == Booked(Booked(s, a), b)
    decreases |a|
  {
    hide BookOne;
    if a == [] {
      assert a + b == b;
    } else {
      assert (a + b)[1..] == a[1..] + b;
      BookedConcat(BookOne(s, a[0]), a[1..], b);
    }
  }

  lemma {:induction false} EffectsConcat(w: World, a: seq<Call>, b: seq<Call>, r: Request)
    ensures Effects(w, a + b, r) == Effects(Effects(w, a, r), b, r)
    decreases |a|
  {
    hide Effect;
    if a == [] {
      assert a + b == b;
    } else {
      assert (a + b)[1..] == a[1..] + b;
      EffectsConcat(Effect(w, a[0], r), a[1..], b, r);
    }
  }

  /** Booking does not look at the online counts and does not change them. */
  lemma {:induction false} BookedBesideOnline(s: State, online: map<string, map<string, int>>, calls: seq<Call>)
    ensures Booked(s.(online := online), calls) == Booked(s, calls).(online := online)
    ensures Booked(s, calls).online == s.online && Booked(s, calls).users == s.users
    decreases |calls|
  {
    if calls != [] {
      BookOneBesideOnline(s, online, calls[0]);
      hide BookOne;
      BookedBesideOnline(BookOne(s, calls[0]), online, calls[1..]);
    }
  }

  lemma BookOneBesideOnline(s: State, online: map<string, map<string, int>>, c: Call)
    ensures BookOne(s.(online := online), c) == BookOne(s, c).(online := online)
    ensures BookOne(s, c).online == s.online && BookOne(s, c).users == s.users
  {
  }

  /** The bytes of a user in one direction among the calls. */
  function CallBytes(calls: seq<Call>, user: string, d: Dir): int {
    if calls == [] then 0
    else (if calls[0].Emit? then EventBytes(calls[0].event, user, d) else 0) + CallBytes(calls[1..], user, d)
  }

  ghost predicate NoNegativeBytes(calls: seq<Call>) {
    forall e | Emit(e) in calls && !e.Open? :: e.upload >= 0 && e.download >= 0
  }

  /** Booking adds exactly the bytes of the events, each to its own user. */
  lemma {:induction false} BookedBytes(s: State, calls: seq<Call>, user: string, d: Dir)
    requires NonNegative(s.stats) && NoNegativeBytes(calls)
    ensures PendingOf(Booked(s, calls).stats, user, d) == PendingOf(s.stats, user, d) + CallBytes(calls, user, d)
    decreases |calls|
  {
    hide AddTraffic;
    if calls != [] {
      if calls[0].Emit? {
        assert Emit(calls[0].event) in calls;
        EventAddsBytes(s, calls[0].event);
      }
      BookedBytes(BookOne(s, calls[0]), calls[1..], user, d);
    }
  }

  lemma {:induction false} CallBytesConcat(a: seq<Call>, b: seq<Call>, user: string, d: Dir)
    ensures CallBytes(a + b, user, d) == CallBytes(a, user, d) + CallBytes(b, user, d)
  {
    if a == [] {
      assert a + b == b;
    } else {
      assert (a + b)[1..] == a[1..] + b;
      CallBytesConcat(a[1..], b, user, d);
    }
  }

  /** What the reporter drained from the meters, up to and with the tick that was rejected. */
  function Drained(r: Request, ticks: seq<Tick>, d: Dir): int {
    if ticks == [] then 0
    else
      (if d == Up then ticks[0].upload else ticks[0].download)
      + if Asks(r) && !ticks[0].accepted then 0 else Drained(r, ticks[1..], d)
  }

  predicate NoNegativeTicks(ticks: seq<Tick>) {
    forall t | t in ticks :: t.upload >= 0 && t.download >= 0
  }

  /** The reporter sends every byte it drains, as its own user's. */
  lemma {:induction false} BeatsCarryDrained(r: Request, userID: int, ticks: seq<Tick>, user: string, d: Dir)
    requires NoNegativeTicks(ticks)
    ensures CallBytes(Beats(r, userID, ticks), user, d) == if user == r.user then Drained(r, ticks, d) else 0
  {
    if ticks != [] {
      var t := ticks[0];
      var rest := if Asks(r) && !t.accepted then [] else Beats(r, userID, ticks[1..]);
      BeatsCarryDrained(r, userID, ticks[1..], user, d);
      CallBytesConcat(TickCalls(r, userID, t), rest, user, d);
      TickCarries(r, userID, t, user, d);
      assert CallBytes([], user, d) == 0;
      hide TickCalls, CallBytes;
    }
  }

  lemma TickCarries(r: Request, userID: int, t: Tick, user: string, d: Dir)
    requires t.upload >= 0 && t.download >= 0
    ensures CallBytes(TickCalls(r, userID, t), user, d)
            == if user != r.user then 0 else if d == Up then t.upload else t.download
  {
    var sent := if t.upload > 0 || t.download > 0 then [Emit(Traffic(r.user, userID, t.upload, t.download))] else [];
    var asked := if !Asks(r) then [] else if t.accepted then [Authorize] else [Authorize, CloseTarget];
    CallBytesConcat(sent, asked, user, d);
    assert sent != [] ==> sent[1..] == [];
    assert [Authorize][1..] == [] && [Authorize, CloseTarget][1..] == [CloseTarget] && [CloseTarget][1..] == [];
    assert CallBytes(asked, user, d) == 0;
  }

  lemma {:induction false} NumberConcat(a: seq<Call>, b: seq<Call>, kind: Kind)
    ensures Number(a + b, kind) == Number(a, kind) + Number(b, kind)
  {
    if a == [] {
      assert a + b == b;
    } else {
      assert (a + b)[1..] == a[1..] + b;
      NumberConcat(a[1..], b, kind);
    }
  }

  /** The ticks up to and with the first rejection. */
  function Rounds(ticks: seq<Tick>): nat {
    if ticks == [] then 0 else if !ticks[0].accepted then 1 else 1 + Rounds(ticks[1..])
  }

  /** The reporter asks at every tick, whether there was traffic or not, until it is rejected. */
  lemma {:induction false} BeatsAskEachRound(r: Request, userID: int, ticks: seq<Tick>)
    ensures Number(Beats(r, userID, ticks), Asking) == if r.user != "" && r.ip != "" then Rounds(ticks) else 0
  {
    if ticks != [] {
      var t := ticks[0];
      var rest := if Asks(r) && !t.accepted then [] else Beats(r, userID, ticks[1..]);
      BeatsAskEachRound(r, userID, ticks[1..]);
      NumberConcat(TickCalls(r, userID, t), rest, Asking);
      TickAsks(r, userID, t);
      NumberOfNone(Asking);
      hide TickCalls, Number;
    } else {
      NumberOfNone(Asking);
    }
  }

  lemma TickAsks(r: Request, userID: int, t: Tick)
    ensures Number(TickCalls(r, userID, t), Asking) == if r.user != "" && r.ip != "" then 1 else 0
  {
    var sent := if t.upload > 0 || t.download > 0 then [Emit(Traffic(r.user, userID, t.upload, t.download))] else [];
    var asked := if !Asks(r) then [] else if t.accepted then [Authorize] else [Authorize, CloseTarget];
    NumberConcat(sent, asked, Asking);
    assert sent != [] ==> sent[1..] == [];
    assert [Authorize][1..] == [] && [Authorize, CloseTarget][1..] == [CloseTarget] && [CloseTarget][1..] == [];
  }

  /** Which calls the reporter makes: it asks if its request was to be asked for, it closes the target
      exactly when it is rejected, and its events name its own user and id. */
  lemma {:induction false} BeatsAreOwn(r: Request, userID: int, ticks: seq<Tick>)
    ensures Authorize in Beats(r, userID, ticks) <==> Asks(r) && ticks != []
    ensures CloseTarget in Beats(r, userID, ticks) <==> Asks(r) && exists t :: t in ticks && !t.accepted
    ensures forall e | Emit(e) in Beats(r, userID, ticks) :: e.Traffic? && e.user == r.user && e.userID == userID
  {
    if ticks != [] {
      var rest := if Asks(r) && !ticks[0].accepted then [] else Beats(r, userID, ticks[1..]);
      BeatsAreOwn(r, userID, ticks[1..]);
      assert ticks[0] in ticks;
      assert forall t | t in ticks :: t == ticks[0] || t in ticks[1..];
      assert forall c :: c in Beats(r, userID, ticks) <==> c in TickCalls(r, userID, ticks[0]) || c in rest;
    }
  }

  lemma EndsCarry(r: Request, auth: Response, user: string, d: Dir)
    ensures CallBytes(AskCalls(r), user, d) == CallBytes([Emit(Open(r.user, r.ip))], user, d) == 0
    ensures CallBytes([Emit(CloseEvent(r, auth)), StopReporter, CloseTarget], user, d)
            == if user != r.user then 0 else if d == Up then r.upload else r.download
  {
    var open, close := [Emit(Open(r.user, r.ip))], [Emit(CloseEvent(r, auth)), StopReporter, CloseTarget];
    assert AskCalls(r) != [] ==> AskCalls(r)[1..] == [];
    assert open[1..] == [] && close[1..] == [StopReporter, CloseTarget];
    assert [StopReporter, CloseTarget][1..] == [CloseTarget] && [CloseTarget][1..] == [];
    assert CallBytes([StopReporter, CloseTarget], user, d) == CallBytes([CloseTarget], user, d) == 0;
  }

  /** The events of a session with a tunnel carry what its reporter drained and what the close drained,
      all of it as its user's. */
  lemma SessionCarries(r: Request, auth: Response, ticks: seq<Tick>, n: nat, user: string, d: Dir)
    requires r.protoMajor in {1, 2, 3} && !Refused(r, auth) && Established(r) && NoNegativeTicks(ticks)
    requires n <= |Beats(r, CloseEvent(r, auth).userID, ticks)|
    ensures CallBytes(Session(r, auth, Beats(r, CloseEvent(r, auth).userID, ticks), n), user, d)
            == if user == r.user then Drained(r, ticks, d) + (if d == Up then r.upload else r.download) else 0
  {
    var beats := Beats(r, CloseEvent(r, auth).userID, ticks);
    BeatsCarryDrained(r, CloseEvent(r, auth).userID, ticks, user, d);
    EndsCarry(r, auth, user, d);
    hide Beats, CallBytes, AskCalls, CloseEvent, Drained;
    var open, close := [Emit(Open(r.user, r.ip))], [Emit(CloseEvent(r, auth)), StopReporter, CloseTarget];
    assert beats == beats[..n] + beats[n..];
    CallBytesConcat(beats[..n], beats[n..], user, d);
    CallBytesConcat(AskCalls(r), open + beats[..n] + close + beats[n..], user, d);
    CallBytesConcat(open + beats[..n] + close, beats[n..], user, d);
    CallBytesConcat(open + beats[..n], close, user, d);
    CallBytesConcat(open, beats[..n], user, d);
  }

  /** They name its user, its address and the id of the answer. */
  lemma SessionNames(r: Request, auth: Response, ticks: seq<Tick>, n: nat, e: Event)
    requires r.protoMajor in {1, 2, 3} && n <= |Beats(r, CloseEvent(r, auth).userID, ticks)|
    requires Emit(e) in Session(r, auth, Beats(r, CloseEvent(r, auth).userID, ticks), n)
    ensures e.user == r.user && (!e.Traffic? ==> e.ip == r.ip)
    ensures !e.Open? ==> e.userID == if r.user != "" && r.ip != "" then auth.userID else 0
  {
    BeatsAreOwn(r, CloseEvent(r, auth).userID, ticks);
    hide Beats;
    PartsOfSession(r, auth, Beats(r, CloseEvent(r, auth).userID, ticks), n, Emit(e));
    hide Session;
  }

  lemma PartsOfSession(r: Request, auth: Response, beats: seq<Call>, n: nat, c: Call)
    requires r.protoMajor in {1, 2, 3} && n <= |beats| && c in Session(r, auth, beats, n)
    ensures c in beats
         || c in {Authorize, Release, Emit(Open(r.user, r.ip)), Emit(CloseEvent(r, auth)), StopReporter, CloseTarget}
  {
    hide Established, CloseEvent;
    var rest := CallsPastAuthorisation(r, auth, beats, n);
    if c in AskCalls(r) || Refused(r, auth) {
      assert c in AskCalls(r);
    } else if Established(r) {
      var open, close := [Emit(Open(r.user, r.ip))], [Emit(CloseEvent(r, auth)), StopReporter, CloseTarget];
      assert c in rest && rest == open + beats[..n] + close + beats[n..];
      assert c in open || c in beats[..n] || c in close || c in beats[n..];
    }
  }

  lemma AuthorizedTwice(l: L.State, user: string, ip: string)
    ensures L.Authorized(L.Authorized(l, user, ip), user, ip) == L.Authorized(l, user, ip)
  {
  }

  lemma RejectedChangesNothing(l: L.State, user: string, ip: string)
    requires L.Rejects(l, user, ip)
    ensures L.Authorized(l, user, ip) == l
  {
  }

  lemma SameLimits(l: L.State, user: string, ip: string)
    ensures L.Authorized(l, user, ip).limits == L.Released(l, user, ip).limits == l.limits
  {
  }

  /** However often the reporter asks, it is as if it had asked once. */
  lemma {:induction false} ReporterEffects(w: World, calls: seq<Call>, r: Request)
    requires forall c | c in calls :: OfReporter(c)
    ensures Effects(w, calls, r)
            == World(Booked(w.books, calls),
                     if Authorize in calls then L.Authorized(w.limiter, r.user, r.ip) else w.limiter)
    decreases |calls|
  {
    hide L.Authorized, L.Released, AddTraffic;
    if calls != [] {
      assert OfReporter(calls[0]);
      var w1 := Effect(w, calls[0], r);
      assert w1.books == BookOne(w.books, calls[0]);
      AuthorizedTwice(w.limiter, r.user, r.ip);
      assert calls == [calls[0]] + calls[1..];
      ReporterEffects(w1, calls[1..], r);
    }
  }

  /** The limiter once the tunnel is closed or has failed to open. */
  function Left(l: L.State, r: Request): L.State {
    L.Released(if Asks(r) then L.Authorized(l, r.user, r.ip) else l, r.user, r.ip)
  }

  lemma EffectsOfTunnel(w: World, r: Request, auth: Response, beats: seq<Call>, n: nat)
    requires LedgerTheorems.Positive(w.books.online) && n <= |beats|
    requires forall c | c in beats :: OfReporter(c) && (c.Authorize? ==> Asks(r))
    requires Asks(r) ==> L.Authorized(w.limiter, r.user, r.ip) == w.limiter
    ensures
      var close := [Emit(CloseEvent(r, auth)), StopReporter, CloseTarget];
      var calls := [Emit(Open(r.user, r.ip))] + beats[..n] + close + beats[n..];
      var released := L.Released(w.limiter, r.user, r.ip);
      Effects(w, calls, r)
      == World(Booked(w.books, calls),
               if Authorize in beats[n..] then L.Authorized(released, r.user, r.ip) else released)
  {
    hide L.Authorized, L.Released, AddTraffic, Opened, Closed, Booked, Effects, CloseEvent;
    var open, close := [Emit(Open(r.user, r.ip))], [Emit(CloseEvent(r, auth)), StopReporter, CloseTarget];
    var calls := open + beats[..n] + close + beats[n..];
    EffectsConcat(w, open + beats[..n] + close, beats[n..], r);
    EffectsConcat(w, open + beats[..n], close, r);
    EffectsConcat(w, open, beats[..n], r);
    BookedConcat(w.books, open + beats[..n] + close, beats[n..]);
    BookedConcat(w.books, open + beats[..n], close);
    BookedConcat(w.books, open, beats[..n]);
    var w1 := Effects(w, open, r);
    OpenEffect(w, r);
    var w2 := Effects(w1, beats[..n], r);
    ReporterEffects(w1, beats[..n], r);
    var s2 := Booked(w.books, beats[..n]);
    BookedBesideOnline(w.books, w1.books.online, beats[..n]);
    CloseEffect(w2, r, auth, close);
    CloseUndoesOpen(w.books.online, r.user, r.ip);
    BookedBesideOnline(s2, w1.books.online, close);
    ReporterEffects(Effects(w2, close, r), beats[n..], r);
  }

  lemma OpenEffect(w: World, r: Request)
    ensures var open := [Emit(Open(r.user, r.ip))];
      && Effects(w, open, r) == w.(books := w.books.(online := Opened(w.books.online, r.user, r.ip)))
      && Booked(w.books, open) == w.books
  {
    hide Opened;
    var open := [Emit(Open(r.user, r.ip))];
    assert open[1..] == [];
    assert Effects(w, open, r) == Effects(Effect(w, open[0], r), [], r);
  }

  lemma CloseEffect(w: World, r: Request, auth: Response, close: seq<Call>)
    requires close == [Emit(CloseEvent(r, auth)), StopReporter, CloseTarget]
    ensures Effects(w, close, r)
            == World(Booked(w.books, close).(online := Closed(w.books.online, r.user, r.ip)),
                     L.Released(w.limiter, r.user, r.ip))
  {
    hide L.Released, Closed, AddTraffic;
    var w1 := Effect(w, close[0], r);
    var s1 := BookOne(w.books, close[0]);
    assert close[1..] == [StopReporter, CloseTarget] && close[1..][1..] == [CloseTarget] && [CloseTarget][1..] == [];
    assert Effects(w1, close[1..], r) == Effects(w1, [CloseTarget], r) == Effects(w1, [], r) == w1;
    assert Booked(s1, close[1..]) == Booked(s1, [CloseTarget]) == Booked(s1, []) == s1;
    assert Effects(w, close, r) == w1 && Booked(w.books, close) == s1;
  }

  /** The effect of a request and its reporter that got past authorisation. */
  lemma EffectsPastAuthorisation(w: World, r: Request, auth: Response, beats: seq<Call>, n: nat)
    requires LedgerTheorems.Positive(w.books.online) && n <= |beats|
    requires forall c | c in beats :: OfReporter(c) && (c.Authorize? ==> Asks(r))
    requires Asks(r) ==> L.Authorized(w.limiter, r.user, r.ip) == w.limiter
    ensures
      var calls := CallsPastAuthorisation(r, auth, beats, n);
      var released := L.Released(w.limiter, r.user, r.ip);
      Effects(w, calls, r)
      == World(Booked(w.books, calls),
               if !(Asks(r) || Established(r)) then w.limiter
               else if Established(r) && Authorize in beats[n..] then L.Authorized(released, r.user, r.ip)
               else released)
  {
    hide L.Authorized, L.Released, AddTraffic, Established, CloseEvent;
    if Established(r) {
      EffectsOfTunnel(w, r, auth, beats, n);
    } else if Asks(r) {
      assert [Release][1..] == [];
      assert Effects(w, [Release], r) == Effects(Effect(w, Release, r), [], r);
    }
  }

  /** The effect of a request and its reporter, on every way out. */
  lemma EffectsOfSession(w: World, r: Request, auth: Response, beats: seq<Call>, n: nat)
    requires LedgerTheorems.Positive(w.books.online) && r.protoMajor in {1, 2, 3} && n <= |beats|
    requires forall c | c in beats :: OfReporter(c) && (c.Authorize? ==> Asks(r))
    ensures
      var calls := Session(r, auth, beats, n);
      Effects(w, calls, r)
      == World(Booked(w.books, calls),
               if Refused(r, auth) then L.Authorized(w.limiter, r.user, r.ip)
               else if !(Asks(r) || Established(r)) then w.limiter
               else if Established(r) && Authorize in beats[n..] then L.Authorized(Left(w.limiter, r), r.user, r.ip)
               else Left(w.limiter, r))
  {
    hide L.Authorized, L.Released, Effects, Booked, Established, CallsPastAuthorisation;
    var admitted := if Asks(r) then L.Authorized(w.limiter, r.user, r.ip) else w.limiter;
    var rest := if Refused(r, auth) then [] else CallsPastAuthorisation(r, auth, beats, n);
    AskedEffects(w, r);
    EffectsConcat(w, AskCalls(r), rest, r);
    BookedConcat(w.books, AskCalls(r), rest);
    AuthorizedTwice(w.limiter, r.user, r.ip);
    if Refused(r, auth) {
      NoEffects(World(w.books, admitted), r);
    } else {
      EffectsPastAuthorisation(World(w.books, admitted), r, auth, beats, n);
    }
  }

  lemma AskedEffects(w: World, r: Request)
    ensures Booked(w.books, AskCalls(r)) == w.books
    ensures Effects(w, AskCalls(r), r)
            == w.(limiter := if Asks(r) then L.Authorized(w.limiter, r.user, r.ip) else w.limiter)
  {
    hide L.Authorized;
    ReporterEffects(w, AskCalls(r), r);
    assert AskCalls(r) != [] ==> AskCalls(r)[1..] == [];
  }

  lemma NoEffects(w: World, r: Request)
    ensures Effects(w, [], r) == w && Booked(w.books, []) == w.books
  {
  }

  /** What a CONNECT leaves behind, its reporter included: the online counts are back where they were,
      and the bytes of all its events are booked. A rejected request changes nothing else, and nor
      does an unasked one without a tunnel. Otherwise the limiter holds the devices it held less
      this one, except that the device is registered again exactly when the reporter asks after the
      close event and is accepted. */
  lemma ConnectLeavesBehind(w: World, r: Request, ticks: seq<Tick>, n: nat)
    requires AdmissionRuns.WellFormed(w.limiter) && LedgerTheorems.Positive(w.books.online)
    requires r.protoMajor in {1, 2, 3}
    requires var auth := Answer(w.books, w.limiter, r.user, r.ip); n <= |Beats(r, CloseEvent(r, auth).userID, ticks)|
    ensures
      var auth := Answer(w.books, w.limiter, r.user, r.ip);
      var beats := Beats(r, CloseEvent(r, auth).userID, ticks);
      var calls := Session(r, auth, beats, n);
      var w' := Effects(w, calls, r);
      var gone := !Refused(r, auth) && (Asks(r) || Established(r));
      var back := gone && Established(r) && Authorize in beats[n..] && !L.Rejects(Left(w.limiter, r), r.user, r.ip);
      && w'.books == Booked(w.books, calls)
      && w'.books.online == w.books.online && w'.books.users == w.books.users
      && AdmissionRuns.WellFormed(w'.limiter)
      && w'.limiter.limits == w.limiter.limits
      && (!gone ==> w' == w)
      && (forall u, i :: L.Has(w'.limiter.online, u, i)
            <==> (if gone && u == r.user && i == L.Trim(r.ip) then back else L.Has(w.limiter.online, u, i)))
  {
    hide L.Authorized, L.Released, L.Rejects, L.Has, AdmissionRuns.WellFormed;
    hide AddTraffic, Effects, Booked, Session, Beats;
    var auth := Answer(w.books, w.limiter, r.user, r.ip);
    var beats := Beats(r, CloseEvent(r, auth).userID, ticks);
    var admitted := if Asks(r) then L.Authorized(w.limiter, r.user, r.ip) else w.limiter;
    var left := Left(w.limiter, r);
    var gone := !Refused(r, auth) && (Asks(r) || Established(r));
    BeatsFacts(r, CloseEvent(r, auth).userID, ticks);
    EffectsOfSession(w, r, auth, beats, n);
    BookedBesideOnline(w.books, w.books.online, Session(r, auth, beats, n));
    AdmissionRuns.AuthorizedFacts(w.limiter, r.user, r.ip);
    AdmissionRuns.ReleasedFacts(admitted, r.user, r.ip);
    AdmissionRuns.AuthorizedFacts(left, r.user, r.ip);
    SameLimits(w.limiter, r.user, r.ip);
    SameLimits(admitted, r.user, r.ip);
    SameLimits(left, r.user, r.ip);
    if Refused(r, auth) {
      RejectedChangesNothing(w.limiter, r.user, r.ip);
    }
    if !gone {
      NothingBooked(w.books, r, auth, beats, n);
    }
  }

  lemma NothingBooked(s: State, r: Request, auth: Response, beats: seq<Call>, n: nat)
    requires n <= |beats| && r.protoMajor in {1, 2, 3}
    requires Refused(r, auth) || !(Asks(r) || Established(r))
    ensures Booked(s, Session(r, auth, beats, n)) == s
  {
    hide AddTraffic;
    if Refused(r, auth) {
      assert [Authorize][1..] == [];
    }
  }

  lemma CloseUndoesOpen(online: map<string, map<string, int>>, user: string, ip: string)
    requires LedgerTheorems.Positive(online)
    ensures Closed(Opened(online, user, ip), user, ip) == online
  {
    var ips := DevicesOf(online, user);
    var after := Opened(online, user, ip);
    var count := CountOf(online, user, ip);
    assert after[user] == ips[ip := count + 1];
    if ip in ips {
      assert after[user][ip := count] == ips;
      assert online[user := ips] == online;
    } else {
      assert after[user] - {ip} == ips;
      if user in online {
        assert online[user := ips] == online;
      } else {
        assert after - {user} == online;
      }
    }
  }
}
