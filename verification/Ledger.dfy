/** The whole way of a byte: counted on a tunnel, taken by a lock-free call, sent as an event,
    booked on a counter, reported to the panel and confirmed; and the online counts that the same
    events keep. */
module Ledger {
  import opened Panel
  import SS = StreamStats
  import opened Server
  import opened ServerFacts

  /** A tunnel copies; then both directions are finished and it closes, its first closing calls
      having the given numbers; then its close event is out. */
  datatype Phase = Copying | Closing(firstUp: nat, firstDown: nat) | Done

  /** `sent` are the calls whose value went into an event. */
  datatype Meter = Meter(stats: SS.State, sent: set<nat>)

  /** `out` are the byte-carrying events the tunnel sent; no operation reads it. */
  datatype Tunnel = Tunnel(user: string, userID: int, ip: string, up: Meter, down: Meter, phase: Phase, out: seq<Event>)

  /** Events are handled in the order they were sent. */
  datatype System = System(
    books: State,
    tunnels: seq<Tunnel>,
    events: seq<Event>,
    report: Option<seq<UserTraffic>>,
    confirmed: map<string, Amount>)

  datatype Action =
    | OpenTunnel(user: string, userID: int, ip: string)
    | CountBytes(t: nat, d: Dir, n: int)
    | CallStep(t: nat, d: Dir, a: SS.Action)
    | FinishCopies(t: nat)
    | SendTraffic(t: nat, i: nat, j: nat)
    | SendClose(t: nat, i: nat, j: nat)
    | HandleNext
    | UpdateUsers(added: seq<UserInfo>, deleted: seq<UserInfo>, modified: seq<UserInfo>, full: Option<seq<UserInfo>>)
    | TakeSnapshot(minTraffic: int, traffic: seq<UserTraffic>)
    | ReportFailed
    | ReportAccepted

  const NO_STATS := Meter(SS.INITIAL, {})

  function MeterOf(t: Tunnel, d: Dir): Meter {
    if d == Up then t.up else t.down
  }

  function WithMeter(t: Tunnel, d: Dir, m: Meter): Tunnel {
    if d == Up then t.(up := m) else t.(down := m)
  }

  /** Call `i` of the meter has returned a value that no event carries yet. */
  predicate InHand(m: Meter, i: nat) {
    i < |m.stats.calls| && m.stats.calls[i].Returned? && i !in m.sent
  }

  function CarriedValue(m: Meter, i: nat): int
    requires InHand(m, i)
  {
    SS.Value(m.stats.calls[i])
  }

  /** The tunnel after the values of calls `i` and `j` went into the events `extra`. */
  function Send(t: Tunnel, i: nat, j: nat, extra: seq<Event>): Tunnel {
    t.(up := t.up.(sent := t.up.sent + {i}), down := t.down.(sent := t.down.sent + {j}), out := t.out + extra)
  }

  function AddReport(confirmed: map<string, Amount>, report: seq<UserTraffic>): map<string, Amount> {
    if report == [] then confirmed
    else
      var last := report[|report| - 1];
      var m := AddReport(confirmed, report[..|report| - 1]);
      m[last.uuid := Plus(if last.uuid in m then m[last.uuid] else Amount(0, 0), Amount(last.upload, last.download))]
  }

  ghost predicate Enabled(s: System, a: Action) {
    match a
    case OpenTunnel(user, _, _) => user != ""
    case CountBytes(t, _, n) => t < |s.tunnels| && s.tunnels[t].phase.Copying? && n > 0
    case CallStep(t, _, c) => t < |s.tunnels| && !c.Add?
    case FinishCopies(t) => t < |s.tunnels| && s.tunnels[t].phase.Copying?
    case SendTraffic(t, i, j) => t < |s.tunnels| && InHand(s.tunnels[t].up, i) && InHand(s.tunnels[t].down, j)
    case SendClose(t, i, j) =>
      && t < |s.tunnels| && s.tunnels[t].phase.Closing?
      && InHand(s.tunnels[t].up, i) && s.tunnels[t].phase.firstUp <= i
      && InHand(s.tunnels[t].down, j) && s.tunnels[t].phase.firstDown <= j
    case HandleNext => s.events != []
    case UpdateUsers(added, deleted, modified, full) =>
      Named(added) && Named(modified) && (full.Some? ==> Named(full.value))
    case TakeSnapshot(minTraffic, traffic) => s.report.None? && IsSnapshot(s.books.stats, minTraffic, traffic)
    case ReportFailed => s.report.Some?
    case ReportAccepted => s.report.Some?
  }

  function Do(s: System, a: Action): System
    requires Enabled(s, a)
  {
    match a
    case OpenTunnel(user, userID, ip) =>
      s.(tunnels := s.tunnels + [Tunnel(user, userID, ip, NO_STATS, NO_STATS, Copying, [])],
         events := s.events + [Open(user, ip)])
    case CountBytes(t, d, n) =>
      s.(tunnels := s.tunnels[t := OnMeter(s.tunnels[t], d, SS.Add(n))])
    case CallStep(t, d, c) =>
      s.(tunnels := s.tunnels[t := OnMeter(s.tunnels[t], d, c)])
    case FinishCopies(t) =>
      var tunnel := s.tunnels[t];
      s.(tunnels := s.tunnels[t := tunnel.(phase := Closing(|tunnel.up.stats.calls|, |tunnel.down.stats.calls|))])
    case SendTraffic(t, i, j) =>
      var tunnel := s.tunnels[t];
      var up, down := CarriedValue(tunnel.up, i), CarriedValue(tunnel.down, j);
      var extra := if up > 0 || down > 0 then [Traffic(tunnel.user, tunnel.userID, up, down)] else [];
      s.(tunnels := s.tunnels[t := Send(tunnel, i, j, extra)], events := s.events + extra)
    case SendClose(t, i, j) =>
      var tunnel := s.tunnels[t];
      var up, down := CarriedValue(tunnel.up, i), CarriedValue(tunnel.down, j);
      var close := Close(tunnel.user, tunnel.userID, tunnel.ip, up, down);
      s.(tunnels := s.tunnels[t := Send(tunnel, i, j, [close]).(phase := Done)], events := s.events + [close])
    case HandleNext =>
      s.(books := Handled(s.books, s.events[0]), events := s.events[1..])
    case UpdateUsers(added, deleted, modified, full) =>
      s.(books := Updated(s.books, added, deleted, modified, full))
    case TakeSnapshot(_, traffic) =>
      if traffic == [] then s else s.(report := Some(traffic))
    case ReportFailed =>
      s.(report := None)
    case ReportAccepted =>
      s.(books := Confirmed(s.books, s.report.value), report := None,
         confirmed := AddReport(s.confirmed, s.report.value))
  }

  function OnMeter(t: Tunnel, d: Dir, a: SS.Action): Tunnel {
    WithMeter(t, d, MeterOf(t, d).(stats := SS.Step(MeterOf(t, d).stats, a)))
  }

  const START := System(State(map[], map[], map[], map[]), [], [], None, map[])

  ghost predicate IsRun(states: seq<System>, actions: seq<Action>) {
    |states| == |actions| + 1
    && states[0] == START
    && forall i | 0 <= i < |actions| :: Enabled(states[i], actions[i]) && states[i + 1] == Do(states[i], actions[i])
  }

  // ---------- where the bytes are ----------

  /** The sum of the returned values that no event carries yet. */
  function Unsent(calls: seq<SS.Call>, sent: set<nat>): int {
    if calls == [] then 0
    else
      var last := |calls| - 1;
      Unsent(calls[..last], sent) + if last in sent then 0 else SS.Value(calls[last])
  }

  datatype Stage = Counted | Untaken | Held | Sent

  function MeterAt(m: Meter, stage: Stage): int {
    match stage
    case Counted => m.stats.total
    case Untaken => m.stats.total - m.stats.reported
    case Held => Unsent(m.stats.calls, m.sent)
    case Sent => m.stats.reported - Unsent(m.stats.calls, m.sent)
  }

  /** The bytes of a user, over all tunnels, at one stage. */
  function TunnelBytes(tunnels: seq<Tunnel>, user: string, d: Dir, stage: Stage): int {
    if tunnels == [] then 0
    else
      var last := tunnels[|tunnels| - 1];
      TunnelBytes(tunnels[..|tunnels| - 1], user, d, stage)
      + if last.user == user then MeterAt(MeterOf(last, d), stage) else 0
  }

  function QueuedBytes(events: seq<Event>, user: string, d: Dir): int {
    if events == [] then 0 else EventBytes(events[0], user, d) + QueuedBytes(events[1..], user, d)
  }

  function ConfirmedBytes(confirmed: map<string, Amount>, user: string, d: Dir): int {
    if user in confirmed then Of(confirmed[user], d) else 0
  }

  ghost predicate Balanced(s: System) {
    forall user, d ::
      TunnelBytes(s.tunnels, user, d, Sent)
      == QueuedBytes(s.events, user, d) + PendingOf(s.books.stats, user, d) + ConfirmedBytes(s.confirmed, user, d)
  }

  // ---------- the invariant ----------

  ghost predicate MeterInv(m: Meter) {
    SS.Inv(m.stats)
    && forall i | i in m.sent :: i < |m.stats.calls| && m.stats.calls[i].Returned?
  }

  /** No call from number `first` on has seen anything but the final total. */
  ghost predicate Closes(m: Meter, first: nat) {
    forall i | first <= i < |m.stats.calls| :: SS.SeesFinalTotal(m.stats, i)
  }

  /** The events of the tunnel carry exactly what its calls sent, its close event being the one
      that ends it. */
  ghost predicate OutFits(t: Tunnel) {
    && (forall d :: QueuedBytes(t.out, t.user, d) == MeterAt(MeterOf(t, d), Sent))
    && OneClose(t.out, t.user, t.phase.Done?)
  }

  /** The events are the user's, and exactly one is a close event if `done`, else none. */
  ghost predicate OneClose(out: seq<Event>, user: string, done: bool) {
    && (forall e | e in out :: !e.Open? && e.user == user)
    && (done <==> exists k :: 0 <= k < |out| && out[k].Close?)
    && (forall k, l | 0 <= k < l < |out| && out[k].Close? :: !out[l].Close?)
  }

  ghost predicate TunnelInv(t: Tunnel) {
    && t.user != "" && MeterInv(t.up) && MeterInv(t.down) && OutFits(t)
    && (t.phase.Closing? ==>
          && t.phase.firstUp <= |t.up.stats.calls| && t.phase.firstDown <= |t.down.stats.calls|
          && Closes(t.up, t.phase.firstUp) && Closes(t.down, t.phase.firstDown))
    && (t.phase.Done? ==> t.up.stats.reported == t.up.stats.total && t.down.stats.reported == t.down.stats.total)
  }

  ghost predicate Inv(s: System) {
    && (forall i | 0 <= i < |s.tunnels| :: TunnelInv(s.tunnels[i]))
    && (forall e | e in s.events :: EventFits(e))
    && NonNegative(s.books.stats) && "" !in s.books.stats && Covered(s.books)
    && (s.report.Some? ==> ReportFits(s.books.stats, s.report.value))
    && Balanced(s)
  }

  // ---------- sums ----------

  lemma {:induction false} TunnelBytesUpdate(tunnels: seq<Tunnel>, i: nat, t: Tunnel, user: string, d: Dir,
                                             stage: Stage)
    requires i < |tunnels| && t.user == tunnels[i].user
    ensures TunnelBytes(tunnels[i := t], user, d, stage)
            == TunnelBytes(tunnels, user, d, stage)
               + if t.user == user then MeterAt(MeterOf(t, d), stage) - MeterAt(MeterOf(tunnels[i], d), stage) else 0
    decreases |tunnels|
  {
    var init := tunnels[..|tunnels| - 1];
    if i == |init| {
      assert tunnels[i := t][..|init|] == init;
    } else {
      TunnelBytesUpdate(init, i, t, user, d, stage);
      assert tunnels[i := t][..|init|] == init[i := t];
    }
  }

  lemma {:induction false} QueuedBytesAppend(events: seq<Event>, e: Event, user: string, d: Dir)
    ensures QueuedBytes(events + [e], user, d) == QueuedBytes(events, user, d) + EventBytes(e, user, d)
  {
    if events == [] {
      assert [e][1..] == [];
    } else {
      QueuedBytesAppend(events[1..], e, user, d);
      assert (events + [e])[1..] == events[1..] + [e];
    }
  }

  lemma {:induction false} AddReportFacts(confirmed: map<string, Amount>, report: seq<UserTraffic>, user: string,
                                          d: Dir)
    ensures ConfirmedBytes(AddReport(confirmed, report), user, d)
            == ConfirmedBytes(confirmed, user, d) + Of(ReportedOf(report, user), d)
  {
    if report != [] {
      AddReportFacts(confirmed, report[..|report| - 1], user, d);
    }
  }

  // ---------- one meter ----------

  /** The sum of the values that went into events. */
  function SentSum(calls: seq<SS.Call>, sent: set<nat>): int {
    if calls == [] then 0
    else
      var last := |calls| - 1;
      SentSum(calls[..last], sent) + if last in sent then SS.Value(calls[last]) else 0
  }

  lemma {:induction false} SentPlusUnsent(calls: seq<SS.Call>, sent: set<nat>)
    ensures SentSum(calls, sent) + Unsent(calls, sent) == SS.HandedOut(calls)
  {
    if calls != [] {
      SentPlusUnsent(calls[..|calls| - 1], sent);
    }
  }

  lemma {:induction false} SentSumSame(calls: seq<SS.Call>, calls': seq<SS.Call>, sent: set<nat>)
    requires forall i | i in sent :: i < |calls| <= |calls'| && calls'[i] == calls[i]
    requires |calls| <= |calls'|
    ensures SentSum(calls', sent) == SentSum(calls, sent)
    decreases |calls'|
  {
    if |calls'| > |calls| {
      SentSumSame(calls, calls'[..|calls'| - 1], sent);
    } else if calls != [] {
      SentSumPrefix(calls, calls', sent, |calls|);
      assert calls[..|calls|] == calls && calls'[..|calls|] == calls';
    }
  }

  lemma {:induction false} SentSumPrefix(calls: seq<SS.Call>, calls': seq<SS.Call>, sent: set<nat>, n: nat)
    requires n <= |calls| && n <= |calls'|
    requires forall i | i in sent && i < n :: calls'[i] == calls[i]
    ensures SentSum(calls'[..n], sent) == SentSum(calls[..n], sent)
    decreases n
  {
    if n > 0 {
      SentSumPrefix(calls, calls', sent, n - 1);
      assert calls[..n][..n - 1] == calls[..n - 1] && calls'[..n][..n - 1] == calls'[..n - 1];
    }
  }

  lemma {:induction false} UnsentSend(calls: seq<SS.Call>, sent: set<nat>, i: nat)
    requires i < |calls| && i !in sent
    ensures Unsent(calls, sent + {i}) == Unsent(calls, sent) - SS.Value(calls[i])
    decreases |calls|
  {
    var last := |calls| - 1;
    if i < last {
      UnsentSend(calls[..last], sent, i);
    } else {
      UnsentElsewhere(calls[..last], sent, i);
    }
  }

  lemma {:induction false} UnsentElsewhere(calls: seq<SS.Call>, sent: set<nat>, i: nat)
    requires i >= |calls|
    ensures Unsent(calls, sent + {i}) == Unsent(calls, sent)
  {
    if calls != [] {
      UnsentElsewhere(calls[..|calls| - 1], sent, i);
    }
  }

  /** A step of the lock-free machine takes bytes into a hand, but sends none. */
  lemma MeterStep(m: Meter, a: SS.Action)
    requires MeterInv(m)
    ensures var m' := m.(stats := SS.Step(m.stats, a));
      && MeterInv(m')
      && MeterAt(m', Sent) == MeterAt(m, Sent)
      && (!a.Add? ==> m'.stats.total == m.stats.total)
      && (m.stats.reported == m.stats.total && !a.Add? ==> m'.stats.reported == m'.stats.total)
  {
    var t := SS.Step(m.stats, a);
    SS.StepAddsOrTakes(m.stats, a);
    SS.StepKeepsInv(m.stats, a);
    ReturnedStays(m.stats, a);
    SentPlusUnsent(m.stats.calls, m.sent);
    SentPlusUnsent(t.calls, m.sent);
    SentSumSame(m.stats.calls, t.calls, m.sent);
  }

  lemma ReturnedStays(s: SS.State, a: SS.Action)
    ensures |s.calls| <= |SS.Step(s, a).calls|
    ensures forall i | 0 <= i < |s.calls| && s.calls[i].Returned? :: SS.Step(s, a).calls[i] == s.calls[i]
  {
  }

  lemma ClosesStep(m: Meter, a: SS.Action, first: nat)
    requires MeterInv(m) && Closes(m, first) && !a.Add?
    requires first <= |m.stats.calls|
    ensures Closes(m.(stats := SS.Step(m.stats, a)), first)
  {
    var t := SS.Step(m.stats, a);
    forall i | first <= i < |t.calls|
      ensures SS.SeesFinalTotal(t, i)
    {
      if i < |m.stats.calls| {
        SS.FinalTotalStays(m.stats, [a], i);
        assert SS.Run(m.stats, [a]) == SS.Run(t, [a][1..]) == t;
      }
    }
  }

  /** Sending a held value moves exactly that value. */
  lemma MeterSend(m: Meter, i: nat)
    requires MeterInv(m) && InHand(m, i)
    ensures var m' := m.(sent := m.sent + {i});
      MeterInv(m') && MeterAt(m', Sent) == MeterAt(m, Sent) + CarriedValue(m, i) && CarriedValue(m, i) >= 0
  {
    UnsentSend(m.stats.calls, m.sent, i);
    assert SS.CallFits(m.stats.calls[i], m.stats);
  }

  // ---------- every action keeps the invariant ----------

  function BytesIn(extra: seq<Event>, user: string, d: Dir): int {
    if extra == [] then 0 else EventBytes(extra[0], user, d)
  }

  /** A change of one tunnel that puts what it sends into the queue. */
  lemma TunnelChange(s: System, t: nat, tunnel: Tunnel, extra: seq<Event>)
    requires Inv(s) && t < |s.tunnels| && TunnelInv(tunnel) && tunnel.user == s.tunnels[t].user
    requires |extra| <= 1 && forall e | e in extra :: EventFits(e) && (e.user == tunnel.user)
    requires forall d :: MeterAt(MeterOf(tunnel, d), Sent)
                         == MeterAt(MeterOf(s.tunnels[t], d), Sent) + BytesIn(extra, tunnel.user, d)
    ensures Inv(s.(tunnels := s.tunnels[t := tunnel], events := s.events + extra))
  {
    var s' := s.(tunnels := s.tunnels[t := tunnel], events := s.events + extra);
    forall user, d
      ensures TunnelBytes(s'.tunnels, user, d, Sent)
              == QueuedBytes(s'.events, user, d) + PendingOf(s.books.stats, user, d)
                 + ConfirmedBytes(s.confirmed, user, d)
    {
      TunnelBytesUpdate(s.tunnels, t, tunnel, user, d, Sent);
      if extra == [] {
        assert s.events + extra == s.events;
      } else {
        QueuedBytesAppend(s.events, extra[0], user, d);
        assert s.events + extra == s.events + [extra[0]];
      }
    }
  }

  lemma OpenKeepsInv(s: System, user: string, userID: int, ip: string)
    requires Inv(s) && user != ""
    ensures Inv(Do(s, OpenTunnel(user, userID, ip)))
  {
    var s' := Do(s, OpenTunnel(user, userID, ip));
    assert SS.Inv(SS.INITIAL);
    forall u, d
      ensures TunnelBytes(s'.tunnels, u, d, Sent)
              == QueuedBytes(s'.events, u, d) + PendingOf(s.books.stats, u, d) + ConfirmedBytes(s.confirmed, u, d)
    {
      assert s'.tunnels[..|s.tunnels|] == s.tunnels;
      QueuedBytesAppend(s.events, Open(user, ip), u, d);
    }
  }

  lemma MeterActionKeepsInv(s: System, t: nat, d: Dir, a: SS.Action)
    requires Inv(s) && t < |s.tunnels| && (a.Add? ==> s.tunnels[t].phase.Copying?)
    ensures Inv(s.(tunnels := s.tunnels[t := OnMeter(s.tunnels[t], d, a)]))
  {
    var tunnel := s.tunnels[t];
    var m := MeterOf(tunnel, d);
    MeterStep(m, a);
    if tunnel.phase.Closing? {
      ClosesStep(m, a, if d == Up then tunnel.phase.firstUp else tunnel.phase.firstDown);
    }
    TunnelChange(s, t, OnMeter(tunnel, d, a), []);
    assert s.events + [] == s.events;
  }

  lemma OneCloseAppend(out: seq<Event>, user: string, done: bool, e: Event)
    requires OneClose(out, user, done) && !e.Open? && e.user == user && (e.Close? ==> !done)
    ensures OneClose(out + [e], user, done || e.Close?)
  {
    var more := out + [e];
    assert more[|out|] == e;
    assert forall k | 0 <= k < |out| :: more[k] == out[k];
  }

  /** The history of a tunnel grows by what is sent. */
  lemma SendKeepsOut(t: Tunnel, i: nat, j: nat, extra: seq<Event>)
    requires TunnelInv(t) && InHand(t.up, i) && InHand(t.down, j) && |extra| <= 1
    requires BytesIn(extra, t.user, Up) == CarriedValue(t.up, i)
    requires BytesIn(extra, t.user, Down) == CarriedValue(t.down, j)
    requires forall e | e in extra :: !e.Open? && e.user == t.user && (e.Close? ==> !t.phase.Done?)
    ensures var t' := Send(t, i, j, extra);
      && (forall d :: QueuedBytes(t'.out, t.user, d) == MeterAt(MeterOf(t', d), Sent))
      && OneClose(t'.out, t.user, t.phase.Done? || (extra != [] && extra[0].Close?))
  {
    MeterSend(t.up, i);
    MeterSend(t.down, j);
    hide MeterAt, MeterInv, OneClose;
    if extra == [] {
      assert t.out + extra == t.out;
    } else {
      assert extra == [extra[0]];
      QueuedBytesAppend(t.out, extra[0], t.user, Up);
      QueuedBytesAppend(t.out, extra[0], t.user, Down);
      OneCloseAppend(t.out, t.user, t.phase.Done?, extra[0]);
    }
  }

  lemma SendKeepsInv(s: System, a: Action)
    requires Inv(s) && Enabled(s, a) && (a.SendTraffic? || a.SendClose?)
    ensures Inv(Do(s, a))
  {
    hide OneClose;
    var tunnel := s.tunnels[a.t];
    MeterSend(tunnel.up, a.i);
    MeterSend(tunnel.down, a.j);
    var up, down := CarriedValue(tunnel.up, a.i), CarriedValue(tunnel.down, a.j);
    if a.SendTraffic? {
      var extra := if up > 0 || down > 0 then [Traffic(tunnel.user, tunnel.userID, up, down)] else [];
      SendKeepsOut(tunnel, a.i, a.j, extra);
      TunnelChange(s, a.t, Send(tunnel, a.i, a.j, extra), extra);
    } else {
      assert SS.SeesFinalTotal(tunnel.up.stats, a.i) && SS.SeesFinalTotal(tunnel.down.stats, a.j);
      var extra := [Close(tunnel.user, tunnel.userID, tunnel.ip, up, down)];
      SendKeepsOut(tunnel, a.i, a.j, extra);
      TunnelChange(s, a.t, Send(tunnel, a.i, a.j, extra).(phase := Done), extra);
    }
  }

  lemma HandleKeepsInv(s: System)
    requires Inv(s) && s.events != []
    ensures Inv(Do(s, HandleNext))
  {
    hide ReportFits, Handled, TunnelInv, Covered;
    assert EventFits(s.events[0]);
    EventAddsBytes(s.books, s.events[0]);
    MoreKeepsFit(s.books.stats, Handled(s.books, s.events[0]).stats, s.report);
  }

  lemma UpdateKeepsInv(s: System, a: Action)
    requires Inv(s) && Enabled(s, a) && a.UpdateUsers?
    ensures Inv(Do(s, a))
  {
    hide ReportFits, Updated, TunnelInv, Covered;
    UpdateKeepsBytes(s.books, a.added, a.deleted, a.modified, a.full);
    MoreKeepsFit(s.books.stats, Updated(s.books, a.added, a.deleted, a.modified, a.full).stats, s.report);
  }

  /** A report still fits when no counter holds less. */
  lemma MoreKeepsFit(before: map<string, CounterValue>, after: map<string, CounterValue>,
                     report: Option<seq<UserTraffic>>)
    requires forall uuid, d :: PendingOf(after, uuid, d) >= PendingOf(before, uuid, d)
    ensures report.Some? && ReportFits(before, report.value) ==> ReportFits(after, report.value)
  {
    hide PendingOf;
  }

  lemma AcceptKeepsInv(s: System)
    requires Inv(s) && s.report.Some?
    ensures Inv(Do(s, ReportAccepted))
  {
    ConfirmIsExact(s.books, s.report.value);
    ConfirmKeepsCounters(s.books, s.report.value);
    hide ReportFits, Confirmed, TunnelInv, Covered;
    forall user, d
      ensures ConfirmedBytes(Do(s, ReportAccepted).confirmed, user, d)
              == ConfirmedBytes(s.confirmed, user, d) + Of(ReportedOf(s.report.value, user), d)
    {
      AddReportFacts(s.confirmed, s.report.value, user, d);
    }
  }

  lemma ActionKeepsInv(s: System, a: Action)
    requires Inv(s) && Enabled(s, a)
    ensures Inv(Do(s, a))
  {
    match a
    case OpenTunnel(user, userID, ip) => OpenKeepsInv(s, user, userID, ip);
    case CountBytes(t, d, n) => MeterActionKeepsInv(s, t, d, SS.Add(n));
    case CallStep(t, d, c) => MeterActionKeepsInv(s, t, d, c);
    case FinishCopies(t) =>
      var tunnel := s.tunnels[t];
      TunnelChange(s, t, tunnel.(phase := Closing(|tunnel.up.stats.calls|, |tunnel.down.stats.calls|)), []);
      assert s.events + [] == s.events;
    case SendTraffic(_, _, _) => SendKeepsInv(s, a);
    case SendClose(_, _, _) => SendKeepsInv(s, a);
    case HandleNext => HandleKeepsInv(s);
    case UpdateUsers(_, _, _, _) => UpdateKeepsInv(s, a);
    case TakeSnapshot(minTraffic, traffic) => SnapshotFits(s.books.stats, minTraffic, traffic);
    case ReportFailed =>
    case ReportAccepted => AcceptKeepsInv(s);
  }

  lemma {:induction false} RunKeepsInv(states: seq<System>, actions: seq<Action>, i: nat)
    requires IsRun(states, actions) && i < |states|
    ensures Inv(states[i])
  {
    if i > 0 {
      RunKeepsInv(states, actions, i - 1);
      ActionKeepsInv(states[i - 1], actions[i - 1]);
    }
  }
}
