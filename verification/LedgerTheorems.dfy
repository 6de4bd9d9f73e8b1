/** What every reachable state of the ledger promises. */
module LedgerTheorems {
  import opened Panel
  import opened UserList
  import SS = StreamStats
  import opened Server
  import opened ServerFacts
  import opened Ledger

  lemma {:induction false} StagesAddUp(tunnels: seq<Tunnel>, user: string, d: Dir)
    ensures TunnelBytes(tunnels, user, d, Counted)
            == TunnelBytes(tunnels, user, d, Untaken) + TunnelBytes(tunnels, user, d, Held)
               + TunnelBytes(tunnels, user, d, Sent)
  {
    if tunnels != [] {
      StagesAddUp(tunnels[..|tunnels| - 1], user, d);
    }
  }

  lemma {:induction false} UnsentNonNegative(calls: seq<SS.Call>, sent: set<nat>)
    requires forall i | 0 <= i < |calls| :: SS.Value(calls[i]) >= 0
    ensures Unsent(calls, sent) >= 0
  {
    if calls != [] {
      UnsentNonNegative(calls[..|calls| - 1], sent);
    }
  }

  lemma {:induction false} TunnelBytesNonNegative(tunnels: seq<Tunnel>, user: string, d: Dir)
    requires forall i | 0 <= i < |tunnels| :: TunnelInv(tunnels[i])
    ensures TunnelBytes(tunnels, user, d, Untaken) >= 0 && TunnelBytes(tunnels, user, d, Held) >= 0
  {
    if tunnels != [] {
      var m := MeterOf(tunnels[|tunnels| - 1], d);
      assert TunnelInv(tunnels[|tunnels| - 1]);
      assert forall i | 0 <= i < |m.stats.calls| :: SS.CallFits(m.stats.calls[i], m.stats);
      UnsentNonNegative(m.stats.calls, m.sent);
      TunnelBytesNonNegative(tunnels[..|tunnels| - 1], user, d);
    }
  }

  lemma {:induction false} QueuedBytesNonNegative(events: seq<Event>, user: string, d: Dir)
    requires forall e | e in events :: EventFits(e)
    ensures QueuedBytes(events, user, d) >= 0
  {
    if events != [] {
      assert events[0] in events;
      QueuedBytesNonNegative(events[1..], user, d);
    }
  }

  /** In every reachable state, for every user and direction, each byte counted by a copy is in
      exactly one place: not yet taken by a call, in the hand of a call, in an unhandled event,
      pending on the user's counter, or confirmed by the panel. No place holds a negative amount,
      so nobody is ever billed for more than was copied. */
  lemma EndToEnd(states: seq<System>, actions: seq<Action>, i: nat, user: string, d: Dir)
    requires IsRun(states, actions) && i < |states|
    ensures var s := states[i];
      && TunnelBytes(s.tunnels, user, d, Counted)
         == TunnelBytes(s.tunnels, user, d, Untaken) + TunnelBytes(s.tunnels, user, d, Held)
            + QueuedBytes(s.events, user, d) + PendingOf(s.books.stats, user, d) + ConfirmedBytes(s.confirmed, user, d)
      && TunnelBytes(s.tunnels, user, d, Untaken) >= 0 && TunnelBytes(s.tunnels, user, d, Held) >= 0
      && QueuedBytes(s.events, user, d) >= 0 && PendingOf(s.books.stats, user, d) >= 0
      && ConfirmedBytes(s.confirmed, user, d) <= TunnelBytes(s.tunnels, user, d, Counted)
  {
    var s := states[i];
    RunKeepsInv(states, actions, i);
    StagesAddUp(s.tunnels, user, d);
    TunnelBytesNonNegative(s.tunnels, user, d);
    QueuedBytesNonNegative(s.events, user, d);
  }

  /** The close event is sent only after its own calls have left nothing uncounted. So on a closed
      tunnel the traffic events and the one close event that it sent carry all that was counted but
      what the periodic reporter, racing with the close, still holds in its hand. */
  lemma CloseDrains(states: seq<System>, actions: seq<Action>, i: nat, t: nat, d: Dir)
    requires IsRun(states, actions) && i < |states| && t < |states[i].tunnels|
    requires states[i].tunnels[t].phase.Done?
    ensures var tunnel := states[i].tunnels[t]; var m := MeterOf(tunnel, d);
      && MeterAt(m, Untaken) == 0
      && OneClose(tunnel.out, tunnel.user, true)
      && QueuedBytes(tunnel.out, tunnel.user, d) == SentSum(m.stats.calls, m.sent)
      && QueuedBytes(tunnel.out, tunnel.user, d) + MeterAt(m, Held) == MeterAt(m, Counted)
  {
    RunKeepsInv(states, actions, i);
    var m := MeterOf(states[i].tunnels[t], d);
    assert TunnelInv(states[i].tunnels[t]);
    SentPlusUnsent(m.stats.calls, m.sent);
  }

  /** While a report is out, each counter it names stays and holds at least what was reported, so
      accepting it subtracts exactly what was pushed: the clamp and the fallback by id do nothing,
      and the amounts pushed for an id are the amounts taken off that id's counters. */
  lemma ReportIsExact(states: seq<System>, actions: seq<Action>, i: nat, user: string, d: Dir, uid: int)
    requires IsRun(states, actions) && i < |states| && states[i].report.Some?
    ensures var s := states[i]; var report := s.report.value;
      && (forall r | r in report && r.upload + r.download > 0 :: r.uuid in s.books.stats)
      && 0 <= Of(ReportedOf(report, user), d) <= PendingOf(s.books.stats, user, d)
      && IndexByUid(report) == map[]
      && PendingOf(Do(s, ReportAccepted).books.stats, user, d)
         == PendingOf(s.books.stats, user, d) - Of(ReportedOf(report, user), d)
      && SubtractedFor(s.books.stats, Do(s, ReportAccepted).books.stats, report, uid) == ReportedFor(report, uid)
  {
    var s := states[i];
    RunKeepsInv(states, actions, i);
    ReportedFits(s.books.stats, s.report.value, user, d);
    ConfirmIsExact(s.books, s.report.value);
    PushMatchesSubtraction(s.books, s.report.value, uid);
  }

  /** A snapshot of everything that is accepted at once leaves nobody any pending bytes, so no byte stays
      behind for ever: it has all been confirmed, or is still with a tunnel or in an event. */
  lemma AcceptedAtOnceLeavesNothing(states: seq<System>, actions: seq<Action>, i: nat, traffic: seq<UserTraffic>,
                                    user: string, d: Dir)
    requires IsRun(states, actions) && i + 2 < |states|
    requires actions[i] == TakeSnapshot(0, traffic) && actions[i + 1] == ReportAccepted
    ensures PendingOf(states[i + 2].books.stats, user, d) == 0
    ensures QueuedBytes(states[i].events, user, d) + ConfirmedBytes(states[i + 2].confirmed, user, d)
            == TunnelBytes(states[i].tunnels, user, d, Sent)
  {
    var s := states[i];
    RunKeepsInv(states, actions, i);
    RunKeepsInv(states, actions, i + 2);
    assert states[i + 1] == Do(s, actions[i]) && states[i + 2] == Do(states[i + 1], actions[i + 1]);
    hide Confirmed, IsSnapshot, AddReport;
    ConfirmIsExact(s.books, traffic);
    if user in s.books.stats {
      SnapshotIsWhole(s.books, 0, traffic, user);
    } else {
      ReportedFits(s.books.stats, traffic, user, d);
    }
  }

  // ---------- online counts ----------

  /** The tunnels of a user from an address whose close event is not out. */
  function NotDone(tunnels: seq<Tunnel>, user: string, ip: string): int {
    if tunnels == [] then 0
    else
      var last := tunnels[|tunnels| - 1];
      NotDone(tunnels[..|tunnels| - 1], user, ip)
      + if last.user == user && last.ip == ip && !last.phase.Done? then 1 else 0
  }

  function NetOf(e: Event, user: string, ip: string): int {
    if e.Traffic? || e.user != user || e.ip != ip then 0 else if e.Open? then 1 else -1
  }

  /** Opens less closes among the events. */
  function Net(events: seq<Event>, user: string, ip: string): int {
    if events == [] then 0 else NetOf(events[0], user, ip) + Net(events[1..], user, ip)
  }

  /** The tunnels that are open as far as the handled events tell. */
  function OpenSeen(s: System, user: string, ip: string): int {
    NotDone(s.tunnels, user, ip) - Net(s.events, user, ip)
  }

  ghost predicate QueueFits(s: System) {
    forall k, user, ip | 0 <= k <= |s.events| :: Net(s.events[k..], user, ip) <= NotDone(s.tunnels, user, ip)
  }

  /** No user has an empty device map and every count is positive. */
  ghost predicate Positive(online: map<string, map<string, int>>) {
    forall user | user in online :: online[user] != map[] && forall ip | ip in online[user] :: online[user][ip] >= 1
  }

  ghost predicate OnlineInv(s: System) {
    && QueueFits(s)
    && Positive(s.books.online)
    && (forall user, ip :: CountOf(s.books.online, user, ip) <= OpenSeen(s, user, ip))
  }

  lemma {:induction false} NetAppend(events: seq<Event>, e: Event, user: string, ip: string)
    ensures Net(events + [e], user, ip) == Net(events, user, ip) + NetOf(e, user, ip)
  {
    if events == [] {
      assert [e][1..] == [];
    } else {
      NetAppend(events[1..], e, user, ip);
      assert (events + [e])[1..] == events[1..] + [e];
    }
  }

  lemma {:induction false} NotDoneUpdate(tunnels: seq<Tunnel>, i: nat, t: Tunnel, user: string, ip: string)
    requires i < |tunnels| && t.user == tunnels[i].user && t.ip == tunnels[i].ip
    ensures NotDone(tunnels[i := t], user, ip) == NotDone(tunnels, user, ip)
      + (if t.user == user && t.ip == ip && !t.phase.Done? then 1 else 0)
      - (if t.user == user && t.ip == ip && !tunnels[i].phase.Done? then 1 else 0)
    decreases |tunnels|
  {
    var init := tunnels[..|tunnels| - 1];
    if i == |init| {
      assert tunnels[i := t][..|init|] == init;
    } else {
      NotDoneUpdate(init, i, t, user, ip);
      assert tunnels[i := t][..|init|] == init[i := t];
    }
  }

  lemma {:induction false} NotDoneNonNegative(tunnels: seq<Tunnel>, user: string, ip: string)
    ensures NotDone(tunnels, user, ip) >= 0
  {
    if tunnels != [] {
      NotDoneNonNegative(tunnels[..|tunnels| - 1], user, ip);
    }
  }

  lemma NetOfNone(tunnels: seq<Tunnel>, user: string, ip: string)
    ensures Net([], user, ip) <= NotDone(tunnels, user, ip)
  {
    NotDoneNonNegative(tunnels, user, ip);
  }

  /** Sending an event and changing the open tunnels by as much leaves what is seen as it is. */
  lemma SendKeepsQueue(s: System, s': System, extra: seq<Event>)
    requires QueueFits(s) && |extra| <= 1 && s'.events == s.events + extra
    requires forall user, ip :: NotDone(s'.tunnels, user, ip) == NotDone(s.tunnels, user, ip) + Net(extra, user, ip)
    ensures QueueFits(s')
    ensures forall user, ip :: OpenSeen(s', user, ip) == OpenSeen(s, user, ip)
  {
    hide NotDone, Net;
    forall k, user, ip | 0 <= k <= |s'.events|
      ensures Net(s'.events[k..], user, ip) <= NotDone(s'.tunnels, user, ip)
    {
      if k <= |s.events| {
        NetConcat(s.events[k..], extra, user, ip);
        assert s'.events[k..] == s.events[k..] + extra;
      } else {
        assert s'.events[k..] == [];
        NetOfNone(s'.tunnels, user, ip);
      }
    }
    forall user, ip
      ensures OpenSeen(s', user, ip) == OpenSeen(s, user, ip)
    {
      NetConcat(s.events, extra, user, ip);
    }
  }

  lemma NetConcat(events: seq<Event>, extra: seq<Event>, user: string, ip: string)
    requires |extra| <= 1
    ensures Net(events + extra, user, ip) == Net(events, user, ip) + Net(extra, user, ip)
  {
    if extra == [] {
      assert events + extra == events;
    } else {
      assert extra == [extra[0]] && extra[1..] == [];
      NetAppend(events, extra[0], user, ip);
    }
  }

  lemma TunnelActionKeepsSeen(s: System, a: Action)
    requires QueueFits(s) && Enabled(s, a)
    requires a.OpenTunnel? || a.CountBytes? || a.CallStep? || a.FinishCopies? || a.SendTraffic? || a.SendClose?
    ensures QueueFits(Do(s, a))
    ensures forall user, ip :: OpenSeen(Do(s, a), user, ip) == OpenSeen(s, user, ip)
  {
    var s' := Do(s, a);
    var extra := s'.events[|s.events|..];
    assert s'.events == s.events + extra;
    forall user, ip
      ensures NotDone(s'.tunnels, user, ip) == NotDone(s.tunnels, user, ip) + Net(extra, user, ip)
    {
      if a.OpenTunnel? {
        assert s'.tunnels[..|s.tunnels|] == s.tunnels;
      } else {
        NotDoneUpdate(s.tunnels, a.t, s'.tunnels[a.t], user, ip);
      }
    }
    SendKeepsQueue(s, s', extra);
  }

  lemma OpenedCounts(online: map<string, map<string, int>>, user: string, ip: string)
    requires Positive(online)
    ensures Positive(Opened(online, user, ip))
    ensures forall u, i ::
      CountOf(Opened(online, user, ip), u, i) == CountOf(online, u, i) + if u == user && i == ip then 1 else 0
  {
    assert ip in Opened(online, user, ip)[user];
  }

  lemma ClosedCounts(online: map<string, map<string, int>>, user: string, ip: string)
    requires Positive(online)
    ensures Positive(Closed(online, user, ip))
    ensures forall u, i ::
      CountOf(Closed(online, user, ip), u, i)
      == if u == user && i == ip then Max(CountOf(online, u, i) - 1, 0) else CountOf(online, u, i)
  {
    if user in online {
      var ips := online[user];
      assert CountOf(online, user, ip) <= 1 ==> forall i :: i in ips - {ip} <==> i in ips && i != ip;
    }
  }

  lemma HandleKeepsOnline(s: System)
    requires OnlineInv(s) && s.events != []
    ensures OnlineInv(Do(s, HandleNext))
    ensures forall user, ip ::
      CountOf(Do(s, HandleNext).books.online, user, ip) - OpenSeen(Do(s, HandleNext), user, ip)
      >= CountOf(s.books.online, user, ip) - OpenSeen(s, user, ip)
  {
    var s' := Do(s, HandleNext);
    var e := s.events[0];
    forall k, user, ip | 0 <= k <= |s'.events|
      ensures Net(s'.events[k..], user, ip) <= NotDone(s'.tunnels, user, ip)
    {
      assert s'.events[k..] == s.events[k + 1..];
    }
    if e.Open? {
      OpenedCounts(s.books.online, e.user, e.ip);
    } else if e.Close? {
      ClosedCounts(s.books.online, e.user, e.ip);
    }
    forall user, ip
      ensures 0 <= OpenSeen(s', user, ip) == OpenSeen(s, user, ip) + NetOf(e, user, ip)
      ensures CountOf(s'.books.online, user, ip) == Max(CountOf(s.books.online, user, ip) + NetOf(e, user, ip), 0)
    {
      assert s'.events[0..] == s'.events;
      CountNonNegative(s.books.online, user, ip);
    }
  }

  lemma CountNonNegative(online: map<string, map<string, int>>, user: string, ip: string)
    requires Positive(online)
    ensures CountOf(online, user, ip) >= 0
  {
  }

  function Max(a: int, b: int): int {
    if a > b then a else b
  }

  /** A list update drops the counts of exactly the removed users and keeps the others. */
  lemma UpdateDropsOnline(s: System, a: Action)
    requires a.UpdateUsers? && NonNegative(s.books.stats)
    ensures var online := Updated(s.books, a.added, a.deleted, a.modified, a.full).online;
      && (forall user | user in online :: user in s.books.online && online[user] == s.books.online[user])
      && (forall user | user in s.books.online ::
            user in online <==> if a.full.Some? then user in Uuids(a.full.value) else user !in Uuids(a.deleted))
  {
    if a.full.Some? {
      ByUuidKeys(a.full.value);
    } else {
      var s1 := DeleteAll(s.books, a.deleted);
      DeleteAllFacts(s.books, a.deleted);
      AddAllUsers(s1, a.added);
      ModifyAllFacts(AddAll(s1, a.added), a.modified);
    }
  }

  lemma ActionKeepsOnline(s: System, a: Action)
    requires Inv(s) && OnlineInv(s) && Enabled(s, a)
    ensures OnlineInv(Do(s, a))
  {
    hide Inv, Positive, Handled, Updated, Confirmed;
    match a
    case HandleNext => HandleKeepsOnline(s);
    case UpdateUsers(_, _, _, _) =>
      UpdateKeepsPositive(s, a);
      UpdateDropsOnline(s, a);
      forall user, ip
        ensures CountOf(Do(s, a).books.online, user, ip) <= OpenSeen(s, user, ip)
      {
        assert s.events[0..] == s.events;
      }
    case TakeSnapshot(_, _) =>
    case ReportFailed =>
    case ReportAccepted => ConfirmKeepsOnline(s.books, s.report.value);
    case _ => TunnelActionKeepsSeen(s, a);
  }

  lemma UpdateKeepsPositive(s: System, a: Action)
    requires Inv(s) && OnlineInv(s) && a.UpdateUsers?
    ensures NonNegative(s.books.stats)
    ensures Positive(Updated(s.books, a.added, a.deleted, a.modified, a.full).online)
    ensures forall user, ip :: OpenSeen(s, user, ip) >= 0
  {
    UpdateDropsOnline(s, a);
    hide Updated;
    forall user, ip
      ensures OpenSeen(s, user, ip) >= 0
    {
      assert s.events[0..] == s.events;
    }
  }

  /** In every reachable state the online counts are positive, no user has an empty device map, and
      no count exceeds the tunnels seen open from that address. */
  lemma {:induction false} OnlineCounts(states: seq<System>, actions: seq<Action>, i: nat)
    requires IsRun(states, actions) && i < |states|
    ensures OnlineInv(states[i])
  {
    if i > 0 {
      OnlineCounts(states, actions, i - 1);
      RunKeepsInv(states, actions, i - 1);
      ActionKeepsOnline(states[i - 1], actions[i - 1]);
    }
  }

  /** The update does not remove the user, or comes while none of the user's tunnels is seen open. */
  ghost predicate SparesUser(s: System, a: Action, user: string) {
    a.UpdateUsers? ==>
      || (if a.full.Some? then user in Uuids(a.full.value) else user !in Uuids(a.deleted))
      || (forall ip :: OpenSeen(s, user, ip) == 0)
  }

  /** When every tunnel has closed and every event is handled, nobody is online. */
  lemma QuietMeansNobodyOnline(states: seq<System>, actions: seq<Action>, i: nat)
    requires IsRun(states, actions) && i < |states| && states[i].events == []
    requires forall t | t in states[i].tunnels :: t.phase.Done?
    ensures states[i].books.online == map[]
  {
    var online := states[i].books.online;
    OnlineCounts(states, actions, i);
    forall user, ip
      ensures CountOf(online, user, ip) <= 0
    {
      AllDone(states[i].tunnels, user, ip);
    }
    assert forall user | user in online :: exists ip :: ip in online[user] && CountOf(online, user, ip) >= 1;
  }

  lemma {:induction false} AllDone(tunnels: seq<Tunnel>, user: string, ip: string)
    requires forall t | t in tunnels :: t.phase.Done?
    ensures NotDone(tunnels, user, ip) == 0
  {
    if tunnels != [] {
      AllDone(tunnels[..|tunnels| - 1], user, ip);
    }
  }

  lemma UpdateKeepsExact(s: System, a: Action, user: string, ip: string)
    requires Inv(s) && OnlineInv(s) && Enabled(s, a) && OnlineInv(Do(s, a)) && a.UpdateUsers? && SparesUser(s, a, user)
    requires CountOf(s.books.online, user, ip) == OpenSeen(s, user, ip)
    ensures CountOf(Do(s, a).books.online, user, ip) == OpenSeen(Do(s, a), user, ip)
  {
    UpdateDropsOnline(s, a);
    CountNonNegative(Do(s, a).books.online, user, ip);
    hide Inv, Positive, QueueFits, Updated;
  }

  lemma ActionKeepsExact(s: System, a: Action, user: string, ip: string)
    requires Inv(s) && OnlineInv(s) && Enabled(s, a) && OnlineInv(Do(s, a)) && SparesUser(s, a, user)
    requires CountOf(s.books.online, user, ip) == OpenSeen(s, user, ip)
    ensures CountOf(Do(s, a).books.online, user, ip) == OpenSeen(Do(s, a), user, ip)
  {
    hide Inv, Positive, Handled, Updated, Confirmed, SparesUser, CountOf;
    match a
    case HandleNext => HandleKeepsOnline(s);
    case UpdateUsers(_, _, _, _) => UpdateKeepsExact(s, a, user, ip);
    case TakeSnapshot(_, _) =>
    case ReportFailed =>
    case ReportAccepted => ConfirmKeepsOnline(s.books, s.report.value);
    case _ => TunnelActionKeepsSeen(s, a);
  }

  lemma ConfirmKeepsOnline(s: State, report: seq<UserTraffic>)
    ensures Confirmed(s, report).online == s.online
  {
  }

  /** The count of a user who is never removed while a tunnel is open is exactly the number of
      tunnels seen open from that address. */
  lemma {:induction false} CountsAreExact(states: seq<System>, actions: seq<Action>, i: nat, user: string, ip: string)
    requires IsRun(states, actions) && i < |states|
    requires forall k | 0 <= k < i :: SparesUser(states[k], actions[k], user)
    ensures CountOf(states[i].books.online, user, ip) == OpenSeen(states[i], user, ip)
  {
    if i > 0 {
      hide Inv, OnlineInv, SparesUser, OpenSeen;
      CountsAreExact(states, actions, i - 1, user, ip);
      OnlineCounts(states, actions, i - 1);
      OnlineCounts(states, actions, i);
      RunKeepsInv(states, actions, i - 1);
      ActionKeepsExact(states[i - 1], actions[i - 1], user, ip);
    }
  }

  /** So the device report shows an address of a listed user exactly when a tunnel is seen open from it. */
  lemma DevicesShownAreOpen(states: seq<System>, actions: seq<Action>, i: nat, user: string, ip: string)
    requires IsRun(states, actions) && i < |states|
    requires forall k | 0 <= k < i :: SparesUser(states[k], actions[k], user)
    ensures var s := states[i];
      Shown(s.books.users, s.books.online, user, ip)
      <==> user in s.books.users && s.books.users[user].id != 0 && OpenSeen(s, user, ip) > 0
  {
    CountsAreExact(states, actions, i, user, ip);
  }
}
