/** Whom the panel is told about: bytes are reported under the panel id of the user they belong to. */
module Owners {
  import opened Panel
  import opened UserList
  import L = Limiter
  import S = Server
  import SF = ServerFacts
  import opened Controller

  /** Every counter is that of a user listed at some time, under that user's own id. */
  ghost predicate Owned(stats: map<string, S.CounterValue>, known: set<string>, ids: map<string, int>) {
    forall k | k in stats :: k in known && k in ids && stats[k].uid == ids[k] > 0
  }

  /** An event that carries bytes is of a user who was listed, under no id or the user's own. */
  ghost predicate OwnEvent(s: State, a: Action, ids: map<string, int>) {
    a.Event? && !a.e.Open? ==>
      a.e.user in s.everListed && a.e.user in ids && a.e.userID in {0, ids[a.e.user]}
  }

  lemma {:induction false} EnsureCountersOwned(stats: map<string, S.CounterValue>, users: seq<UserInfo>,
                                               known: set<string>, ids: map<string, int>)
    requires Owned(stats, known, ids) && Uuids(users) <= known
    requires forall u | u in users :: u.uuid in ids && ids[u.uuid] == u.id > 0
    ensures Owned(S.EnsureCounters(stats, users), known, ids)
  {
    if users != [] {
      var init, last := users[..|users| - 1], users[|users| - 1];
      assert users == init + [last];
      UuidsAppend(init, last);
      EnsureCountersOwned(stats, init, known, ids);
    }
  }

  lemma StepKeepsOwned(s: State, a: Action, ids: map<string, int>)
    requires Inv(s, ids) && Enabled(s, a, ids) && OwnEvent(s, a, ids) && Owned(s.books.stats, s.everListed, ids)
    ensures Owned(Do(s, a).books.stats, Do(s, a).everListed, ids)
  {
    hide Owned, S.Replaced, S.Confirmed, S.Handled, Inv, L.Updated;
    match a
    case Pull(newUsers, _, _, _, _) =>
      if newUsers.Some? {
        ReplaceKeepsOwned(s.books, newUsers.value, s.everListed, ids);
      }
    case Event(e) => EventKeepsOwned(s, e, ids);
    case Confirm(report) => ConfirmKeepsOwned(s.books, report, s.everListed, ids);
    case _ =>
  }

  lemma ReplaceKeepsOwned(s: S.State, users: seq<UserInfo>, known: set<string>, ids: map<string, int>)
    requires Consistent(users, ids) && Owned(s.stats, known, ids)
    ensures Owned(s.stats, known + Uuids(users), ids)
    ensures Owned(S.Replaced(s, users).stats, known + Uuids(users), ids)
  {
    var kept := S.KeepPending(s.stats, ByUuid(users).Keys);
    assert Owned(kept, known + Uuids(users), ids);
    EnsureCountersOwned(kept, users, known + Uuids(users), ids);
  }

  lemma ConfirmKeepsOwned(s: S.State, report: seq<UserTraffic>, known: set<string>, ids: map<string, int>)
    requires Owned(s.stats, known, ids)
    ensures Owned(S.Confirmed(s, report).stats, known, ids)
  {
    hide S.IndexByUuid, S.IndexByUid;
  }

  lemma EventKeepsOwned(s: State, e: S.Event, ids: map<string, int>)
    requires Inv(s, ids) && OwnEvent(s, Event(e), ids) && Owned(s.books.stats, s.everListed, ids)
    ensures Owned(S.Handled(s.books, e).stats, s.everListed, ids)
  {
    if !e.Open? {
      assert S.UserId(s.books, e.user) == ids[e.user] by { ConsistentAt(s.latest, ids); }
    }
  }

  lemma {:induction false} RunKeepsOwned(states: seq<State>, actions: seq<Action>, ids: map<string, int>, i: nat)
    requires IsRun(states, actions, ids) && i < |states|
    requires forall k | 0 <= k < i :: OwnEvent(states[k], actions[k], ids)
    ensures Owned(states[i].books.stats, states[i].everListed, ids)
  {
    if i == 0 {
      EnsureCountersOwned(map[], states[0].userList, states[0].everListed, ids);
    } else {
      RunKeepsOwned(states, actions, ids, i - 1);
      RunKeepsInv(states, actions, ids, i - 1);
      StepKeepsOwned(states[i - 1], actions[i - 1], ids);
    }
  }

  // ---------- what the panel was told ----------

  /** What a report holds of the users with a panel id, by their uuids. */
  function PartOf(report: seq<UserTraffic>, ids: map<string, int>, uid: int): Amount {
    if report == [] then Amount(0, 0)
    else
      var last := report[|report| - 1];
      var before := PartOf(report[..|report| - 1], ids, uid);
      if last.uuid in ids && ids[last.uuid] == uid then Plus(before, Amount(last.upload, last.download)) else before
  }

  /** The sums of all confirmed reports: what was pushed under an id, and what its users reported. */
  function Told(actions: seq<Action>, uid: int): Amount {
    if actions == [] then Amount(0, 0)
    else
      var last := actions[|actions| - 1];
      Plus(Told(actions[..|actions| - 1], uid), if last.Confirm? then ReportedFor(last.report, uid) else Amount(0, 0))
  }

  function ConfirmedOf(actions: seq<Action>, ids: map<string, int>, uid: int): Amount {
    if actions == [] then Amount(0, 0)
    else
      var last := actions[|actions| - 1];
      Plus(ConfirmedOf(actions[..|actions| - 1], ids, uid),
           if last.Confirm? then PartOf(last.report, ids, uid) else Amount(0, 0))
  }

  /** A report confirmed at step `k` was a snapshot of some earlier moment. */
  ghost predicate WasSnapshot(states: seq<State>, actions: seq<Action>, k: nat)
    requires k < |actions| < |states|
  {
    actions[k].Confirm? ==>
      exists j: nat, minTraffic: int :: j <= k && S.IsSnapshot(states[j].books.stats, minTraffic, actions[k].report)
  }

  lemma {:induction false} PartIsReported(report: seq<UserTraffic>, ids: map<string, int>, uid: int)
    requires forall t | t in report :: t.uuid in ids && t.uid == ids[t.uuid]
    ensures PartOf(report, ids, uid) == ReportedFor(report, uid)
  {
    if report != [] {
      assert report[|report| - 1] in report;
      PartIsReported(report[..|report| - 1], ids, uid);
    }
  }

  lemma SnapshotIsOwned(s: State, ids: map<string, int>, minTraffic: int, report: seq<UserTraffic>)
    requires Owned(s.books.stats, s.everListed, ids) && S.IsSnapshot(s.books.stats, minTraffic, report)
    ensures forall t | t in report :: t.uuid in ids && t.uid == ids[t.uuid]
  {
    forall t | t in report
      ensures t.uuid in ids && t.uid == ids[t.uuid]
    {
      assert S.IsSnapshotOf(s.books.stats, minTraffic, t);
    }
  }

  /** In every run, what the panel was told for an id is exactly what the users with that id had
      confirmed, however the user lists changed between snapshot and confirmation. */
  lemma {:induction false} ToldIsConfirmed(states: seq<State>, actions: seq<Action>, ids: map<string, int>, i: nat,
                                           uid: int)
    requires IsRun(states, actions, ids) && i <= |actions|
    requires forall k | 0 <= k < i :: OwnEvent(states[k], actions[k], ids) && WasSnapshot(states, actions, k)
    ensures Told(actions[..i], uid) == ConfirmedOf(actions[..i], ids, uid)
  {
    if i > 0 {
      var last := actions[i - 1];
      ToldIsConfirmed(states, actions, ids, i - 1, uid);
      assert actions[..i][..i - 1] == actions[..i - 1];
      if last.Confirm? {
        assert WasSnapshot(states, actions, i - 1);
        var j: nat, minTraffic: int :|
          j <= i - 1 && S.IsSnapshot(states[j].books.stats, minTraffic, last.report);
        RunKeepsOwned(states, actions, ids, j);
        SnapshotIsOwned(states[j], ids, minTraffic, last.report);
        PartIsReported(last.report, ids, uid);
      }
    }
  }

  /** With one uuid to an id, that is what the uuid itself reported. */
  lemma {:induction false} OneUuidPerId(report: seq<UserTraffic>, ids: map<string, int>, uuid: string)
    requires uuid in ids && forall k | k in ids && k != uuid :: ids[k] != ids[uuid]
    ensures PartOf(report, ids, ids[uuid]) == SF.ReportedOf(report, uuid)
  {
    if report != [] {
      OneUuidPerId(report[..|report| - 1], ids, uuid);
    }
  }
}
