/** What the server's operations do to the bytes that are still to be reported. */
module ServerFacts {
  import opened Panel
  import opened UserList
  import opened Server

  datatype Dir = Up | Down

  function Of(a: Amount, d: Dir): int {
    if d == Up then a.up else a.down
  }

  function BytesOf(c: CounterValue, d: Dir): int {
    if d == Up then c.up else c.down
  }

  /** The bytes of a uuid that are counted but not confirmed; none without a counter. */
  function PendingOf(stats: map<string, CounterValue>, uuid: string, d: Dir): int {
    if uuid in stats then BytesOf(stats[uuid], d) else 0
  }

  predicate NonNegative(stats: map<string, CounterValue>) {
    forall k | k in stats :: stats[k].up >= 0 && stats[k].down >= 0
  }

  /** Neither loses, adds nor moves pending bytes. */
  ghost predicate SameBytes(before: map<string, CounterValue>, after: map<string, CounterValue>) {
    && NonNegative(before) && NonNegative(after)
    && forall uuid, d :: PendingOf(after, uuid, d) == PendingOf(before, uuid, d)
  }

  /** Every listed user has a counter. */
  ghost predicate Covered(s: State) {
    s.users.Keys <= s.stats.Keys
  }

  ghost predicate Named(users: seq<UserInfo>) {
    forall u | u in users :: u.uuid != ""
  }

  // ---------- list updates ----------

  lemma EnsureCounterKeepsBytes(stats: map<string, CounterValue>, user: UserInfo)
    requires NonNegative(stats)
    ensures SameBytes(stats, EnsureCounter(stats, user))
  {
  }

  lemma DropCounterKeepsBytes(stats: map<string, CounterValue>, user: UserInfo)
    requires NonNegative(stats)
    ensures SameBytes(stats, DropCounter(stats, user))
    ensures stats.Keys - {user.uuid} <= DropCounter(stats, user).Keys <= stats.Keys
  {
  }

  lemma NewUserCounterKeepsBytes(stats: map<string, CounterValue>, user: UserInfo)
    requires NonNegative(stats)
    ensures SameBytes(stats, NewUserCounter(stats, user))
    ensures NewUserCounter(stats, user).Keys == stats.Keys + {user.uuid}
  {
  }

  lemma KeepPendingKeepsBytes(stats: map<string, CounterValue>, listed: set<string>)
    requires NonNegative(stats)
    ensures SameBytes(stats, KeepPending(stats, listed))
  {
  }

  lemma SameBytesTransitive(a: map<string, CounterValue>, b: map<string, CounterValue>, c: map<string, CounterValue>)
    requires SameBytes(a, b) && SameBytes(b, c)
    ensures SameBytes(a, c)
  {
  }

  lemma {:induction false} EnsureCountersFacts(stats: map<string, CounterValue>, users: seq<UserInfo>)
    requires NonNegative(stats)
    ensures SameBytes(stats, EnsureCounters(stats, users))
    ensures EnsureCounters(stats, users).Keys == stats.Keys + Uuids(users)
  {
    if users == [] {
      NoUuids();
    } else {
      hide Uuids, PendingOf;
      var init, last := users[..|users| - 1], users[|users| - 1];
      EnsureCountersFacts(stats, init);
      EnsureCounterKeepsBytes(EnsureCounters(stats, init), last);
      SameBytesTransitive(stats, EnsureCounters(stats, init), EnsureCounters(stats, users));
      UuidsAppend(init, last);
      assert users == init + [last];
    }
  }

  lemma {:induction false} DeleteAllFacts(s: State, users: seq<UserInfo>)
    requires NonNegative(s.stats)
    ensures var t := DeleteAll(s, users);
      && SameBytes(s.stats, t.stats) && s.stats.Keys - Uuids(users) <= t.stats.Keys <= s.stats.Keys
      && t.users == s.users - Uuids(users) && t.online == s.online - Uuids(users)
      && t.userIDs == s.userIDs
  {
    if users == [] {
      NoUuids();
    } else {
      hide Uuids, PendingOf, DropCounter;
      var init, last := users[..|users| - 1], users[|users| - 1];
      var t := DeleteAll(s, init);
      DeleteAllFacts(s, init);
      DropCounterKeepsBytes(t.stats, last);
      SameBytesTransitive(s.stats, t.stats, DropCounter(t.stats, last));
      UuidsAppend(init, last);
      assert users == init + [last];
    }
  }

  lemma {:induction false} AddAllStats(s: State, users: seq<UserInfo>)
    requires NonNegative(s.stats)
    ensures SameBytes(s.stats, AddAll(s, users).stats)
    ensures AddAll(s, users).stats.Keys == s.stats.Keys + Uuids(users)
  {
    if users == [] {
      NoUuids();
    } else {
      hide Uuids, PendingOf, NewUserCounter, RecordId;
      var init, last := users[..|users| - 1], users[|users| - 1];
      var stats := AddAll(s, init).stats;
      AddAllStats(s, init);
      NewUserCounterKeepsBytes(stats, last);
      SameBytesTransitive(s.stats, stats, NewUserCounter(stats, last));
      UuidsAppend(init, last);
      assert users == init + [last];
    }
  }

  lemma {:induction false} AddAllUsers(s: State, users: seq<UserInfo>)
    ensures var t := AddAll(s, users);
      t.users == s.users + ByUuid(users) && t.userIDs == RecordIds(s.userIDs, users) && t.online == s.online
  {
    if users != [] {
      hide NewUserCounter, RecordId, AddOne;
      var init, last := users[..|users| - 1], users[|users| - 1];
      AddAllUsers(s, init);
      AddOneFields(AddAll(s, init), last);
      PutInUnion(s.users, ByUuid(init), last.uuid, last);
    }
  }

  lemma PutInUnion(a: map<string, UserInfo>, b: map<string, UserInfo>, uuid: string, user: UserInfo)
    ensures (a + b)[uuid := user] == a + b[uuid := user]
  {
  }

  lemma AddOneFields(s: State, user: UserInfo)
    ensures var t := AddOne(s, user);
      t.users == s.users[user.uuid := user] && t.userIDs == RecordId(s.userIDs, user) && t.online == s.online
  {
  }

  lemma {:induction false} ModifyAllFacts(s: State, users: seq<UserInfo>)
    ensures var t := ModifyAll(s, users);
      && t.users == s.users + ByUuid(users) && t.userIDs == RecordIds(s.userIDs, users) && t.online == s.online
      && t.stats == EnsureCounters(s.stats, users)
  {
    if users != [] {
      hide EnsureCounter, RecordId, ModifyOne;
      var init, last := users[..|users| - 1], users[|users| - 1];
      ModifyAllFacts(s, init);
      ModifyOneFields(ModifyAll(s, init), last);
      PutInUnion(s.users, ByUuid(init), last.uuid, last);
    }
  }

  lemma ModifyOneFields(s: State, user: UserInfo)
    ensures var t := ModifyOne(s, user);
      && t.users == s.users[user.uuid := user] && t.userIDs == RecordId(s.userIDs, user) && t.online == s.online
      && t.stats == EnsureCounter(s.stats, user)
  {
  }

  /** Whichever way the user list changes, and whoever is deleted, no pending byte is lost, doubled
      or moved to another user, and every listed user has a counter. */
  lemma UpdateKeepsBytes(s: State, added: seq<UserInfo>, deleted: seq<UserInfo>, modified: seq<UserInfo>,
                         full: Option<seq<UserInfo>>)
    requires NonNegative(s.stats)
    ensures SameBytes(s.stats, Updated(s, added, deleted, modified, full).stats)
    ensures Updated(s, added, deleted, modified, full).stats.Keys
            <= s.stats.Keys + if full.Some? then Uuids(full.value) else Uuids(added) + Uuids(modified)
    ensures full.Some? || Covered(s) ==> Covered(Updated(s, added, deleted, modified, full))
  {
    hide PendingOf, KeepPending, Uuids, ByUuid, EnsureCounters, RecordIds;
    if full.Some? {
      var kept := KeepPending(s.stats, ByUuid(full.value).Keys);
      KeepPendingKeepsBytes(s.stats, ByUuid(full.value).Keys);
      EnsureCountersFacts(kept, full.value);
      SameBytesTransitive(s.stats, kept, EnsureCounters(kept, full.value));
      KeepPendingKeys(s.stats, ByUuid(full.value).Keys);
      ByUuidKeys(full.value);
    } else {
      var s1 := DeleteAll(s, deleted);
      var s2 := AddAll(s1, added);
      DeleteAllFacts(s, deleted);
      AddAllStats(s1, added);
      AddAllUsers(s1, added);
      ByUuidKeys(added);
      ByUuidKeys(modified);
      ModifyAllFacts(s2, modified);
      EnsureCountersFacts(s2.stats, modified);
      SameBytesTransitive(s.stats, s1.stats, s2.stats);
      SameBytesTransitive(s.stats, s2.stats, EnsureCounters(s2.stats, modified));
    }
  }

  lemma KeepPendingKeys(stats: map<string, CounterValue>, listed: set<string>)
    ensures KeepPending(stats, listed).Keys <= stats.Keys
  {
  }

  predicate HoldsBytes(c: CounterValue) {
    c.up > 0 || c.down > 0
  }

  /** A replaced list keeps no counter of an unlisted user that holds no bytes. */
  lemma ReplaceDropsIdle(s: State, users: seq<UserInfo>)
    requires NonNegative(s.stats)
    ensures forall k | k in Replaced(s, users).stats :: k in Uuids(users) || HoldsBytes(Replaced(s, users).stats[k])
  {
    var kept := KeepPending(s.stats, ByUuid(users).Keys);
    ByUuidKeys(users);
    KeepPendingKeepsBytes(s.stats, ByUuid(users).Keys);
    EnsureCountersFacts(kept, users);
    hide EnsureCounters, ByUuid, Uuids;
    forall k | k in Replaced(s, users).stats && k !in Uuids(users)
      ensures HoldsBytes(Replaced(s, users).stats[k])
    {
      assert k in kept && HoldsBytes(kept[k]);
      assert PendingOf(EnsureCounters(kept, users), k, Up) == PendingOf(kept, k, Up);
      assert PendingOf(EnsureCounters(kept, users), k, Down) == PendingOf(kept, k, Down);
    }
  }

  /** Deleting users keeps none of their counters that holds no bytes. */
  lemma {:induction false} DeleteDropsIdle(s: State, users: seq<UserInfo>)
    ensures forall k | k in DeleteAll(s, users).stats && k in Uuids(users) :: HoldsBytes(DeleteAll(s, users).stats[k])
  {
    if users != [] {
      var init, last := users[..|users| - 1], users[|users| - 1];
      DeleteDropsIdle(s, init);
      UuidsAppend(init, last);
      assert users == init + [last];
    }
  }

  /** A confirmation keeps no counter of an unlisted user that holds no bytes any more; one of nothing
      changes nothing. */
  lemma ConfirmDropsIdle(s: State, report: seq<UserTraffic>)
    ensures report == [] ==> Confirmed(s, report) == s
    ensures report != [] ==>
      forall k | k in Confirmed(s, report).stats :: k in s.users || HoldsBytes(Confirmed(s, report).stats[k])
  {
    hide IndexByUuid, IndexByUid, ConfirmedCounter;
  }

  // ---------- events ----------

  function EventBytes(e: Event, uuid: string, d: Dir): int {
    if e.Open? || e.user != uuid then 0
    else if d == Up then e.upload else e.download
  }

  predicate EventFits(e: Event) {
    e.user != "" && (!e.Open? ==> e.upload >= 0 && e.download >= 0)
  }

  /** An event's bytes become pending for its own uuid, listed or not, and for no other. */
  lemma EventAddsBytes(s: State, e: Event)
    requires NonNegative(s.stats) && (!e.Open? ==> e.upload >= 0 && e.download >= 0)
    ensures NonNegative(Handled(s, e).stats)
    ensures forall uuid, d ::
      PendingOf(Handled(s, e).stats, uuid, d) == PendingOf(s.stats, uuid, d) + EventBytes(e, uuid, d)
    ensures s.stats.Keys <= Handled(s, e).stats.Keys <= s.stats.Keys + {e.user}
    ensures Covered(s) ==> Covered(Handled(s, e))
  {
  }

  /** The same of any amounts: an event counts as soon as one of its two amounts is positive. */
  lemma EventAddsAnyAmounts(s: State, e: Event)
    requires !e.Open?
    ensures var counts := e.upload > 0 || e.download > 0;
      && PendingOf(Handled(s, e).stats, e.user, Up) == PendingOf(s.stats, e.user, Up) + (if counts then e.upload else 0)
      && PendingOf(Handled(s, e).stats, e.user, Down)
         == PendingOf(s.stats, e.user, Down) + (if counts then e.download else 0)
  {
  }

  /** Bytes are booked under the id of the event; without one, under that of the listed user or the one
      on record; and an id that is not positive never replaces that of a counter. */
  lemma EventKeepsId(s: State, e: Event)
    requires !e.Open?
    ensures e.user in Handled(s, e).stats
    ensures var known := if e.user in s.users && s.users[e.user].id > 0 then s.users[e.user].id
                         else if e.user in s.userIDs then s.userIDs[e.user] else 0;
      var uid := Handled(s, e).stats[e.user].uid;
      && (e.userID > 0 ==> uid == e.userID)
      && (e.userID == 0 && known > 0 ==> uid == known)
      && (e.user in s.stats && (e.userID < 0 || (e.userID == 0 && known <= 0)) ==> uid == s.stats[e.user].uid)
    ensures forall k | k in s.stats && k != e.user :: k in Handled(s, e).stats && Handled(s, e).stats[k] == s.stats[k]
  {
  }

  // ---------- reports ----------

  /** What a report holds for one uuid. */
  function ReportedOf(report: seq<UserTraffic>, uuid: string): Amount {
    if report == [] then Amount(0, 0)
    else
      var last := report[|report| - 1];
      var before := ReportedOf(report[..|report| - 1], uuid);
      if last.uuid == uuid then Plus(before, Amount(last.upload, last.download)) else before
  }

  /** A report out for delivery: distinct named counters, none reported above what is pending. */
  ghost predicate ReportFits(stats: map<string, CounterValue>, report: seq<UserTraffic>) {
    && (forall i, j | 0 <= i < j < |report| :: report[i].uuid != report[j].uuid)
    && forall t | t in report ::
         && t.uuid != ""
         && 0 <= t.upload <= PendingOf(stats, t.uuid, Up)
         && 0 <= t.download <= PendingOf(stats, t.uuid, Down)
  }

  lemma SnapshotFits(stats: map<string, CounterValue>, minTraffic: int, report: seq<UserTraffic>)
    requires NonNegative(stats) && "" !in stats && IsSnapshot(stats, minTraffic, report)
    ensures ReportFits(stats, report)
  {
    forall t | t in report
      ensures t.uuid != ""
      ensures 0 <= t.upload <= PendingOf(stats, t.uuid, Up) && 0 <= t.download <= PendingOf(stats, t.uuid, Down)
    {
      assert IsSnapshotOf(stats, minTraffic, t);
    }
  }

  lemma {:induction false} ReportedOnce(report: seq<UserTraffic>, i: nat)
    requires forall i, j | 0 <= i < j < |report| :: report[i].uuid != report[j].uuid
    requires i < |report|
    ensures ReportedOf(report, report[i].uuid) == Amount(report[i].upload, report[i].download)
    decreases |report|
  {
    var init := report[..|report| - 1];
    if i < |init| {
      ReportedOnce(init, i);
    } else {
      NotReported(init, report[i].uuid);
    }
  }

  lemma {:induction false} NotReported(report: seq<UserTraffic>, uuid: string)
    requires forall t | t in report :: t.uuid != uuid
    ensures ReportedOf(report, uuid) == Amount(0, 0)
  {
    if report != [] {
      NotReported(report[..|report| - 1], uuid);
    }
  }

  lemma {:induction false} IndexFacts(report: seq<UserTraffic>)
    ensures (forall t | t in report :: t.uuid != "") ==> IndexByUid(report) == map[]
    ensures forall uuid :: uuid in IndexByUuid(report) <==> uuid != "" && Reports(report, uuid)
    ensures forall uuid | uuid in IndexByUuid(report) :: IndexByUuid(report)[uuid] == ReportedOf(report, uuid)
  {
    if report != [] {
      var init, last := report[..|report| - 1], report[|report| - 1];
      IndexFacts(init);
      if !Reports(init, last.uuid) {
        NotReported(init, last.uuid);
      }
      forall uuid
        ensures Reports(report, uuid) <==> Reports(init, uuid) || uuid == last.uuid
      {
        ReportsAppend(init, last, uuid);
        assert report == init + [last];
      }
    }
  }

  lemma ReportsAppend(report: seq<UserTraffic>, last: UserTraffic, uuid: string)
    ensures Reports(report + [last], uuid) <==> Reports(report, uuid) || uuid == last.uuid
  {
    assert last in report + [last];
  }

  ghost predicate Reports(report: seq<UserTraffic>, uuid: string) {
    exists t :: t in report && t.uuid == uuid
  }

  /** With one unnamed entry at most, that entry alone is indexed by id. */
  lemma {:induction false} OneUnnamed(report: seq<UserTraffic>, i: nat)
    requires forall i, j | 0 <= i < j < |report| :: report[i].uuid != report[j].uuid
    requires i < |report| && report[i].uuid == ""
    ensures IndexByUid(report) == map[report[i].uid := Amount(report[i].upload, report[i].download)]
    decreases |report|
  {
    var init, last := report[..|report| - 1], report[|report| - 1];
    if i < |init| {
      OneUnnamed(init, i);
    } else {
      IndexFacts(init);
      assert forall t | t in init :: t.uuid != "";
    }
  }

  lemma ReportedFits(stats: map<string, CounterValue>, report: seq<UserTraffic>, uuid: string, d: Dir)
    requires ReportFits(stats, report) && NonNegative(stats)
    ensures 0 <= Of(ReportedOf(report, uuid), d) <= PendingOf(stats, uuid, d)
  {
    if t :| t in report && t.uuid == uuid {
      var i :| 0 <= i < |report| && report[i] == t;
      ReportedOnce(report, i);
    } else {
      NotReported(report, uuid);
    }
  }

  /** Confirming a report takes exactly what it holds off each counter, no more and no less, and
      the fallback by panel id takes no part. */
  lemma ConfirmIsExact(s: State, report: seq<UserTraffic>)
    requires NonNegative(s.stats) && ReportFits(s.stats, report)
    ensures IndexByUid(report) == map[]
    ensures NonNegative(Confirmed(s, report).stats)
    ensures forall uuid, d ::
      PendingOf(Confirmed(s, report).stats, uuid, d) == PendingOf(s.stats, uuid, d) - Of(ReportedOf(report, uuid), d)
    ensures Confirmed(s, report).stats.Keys <= s.stats.Keys
  {
    hide IndexByUuid, IndexByUid, ReportedOf;
    IndexFacts(report);
    forall uuid, d
      ensures PendingOf(Confirmed(s, report).stats, uuid, d)
              == PendingOf(s.stats, uuid, d) - Of(ReportedOf(report, uuid), d)
    {
      ReportedFits(s.stats, report, uuid, Up);
      ReportedFits(s.stats, report, uuid, Down);
      if !Reports(report, uuid) {
        NotReported(report, uuid);
      }
    }
    forall k | k in Confirmed(s, report).stats
      ensures Confirmed(s, report).stats[k].up >= 0 && Confirmed(s, report).stats[k].down >= 0
    {
      ReportedFits(s.stats, report, k, Up);
      ReportedFits(s.stats, report, k, Down);
    }
  }

  lemma ConfirmKeepsCounters(s: State, report: seq<UserTraffic>)
    requires Covered(s)
    ensures Covered(Confirmed(s, report))
  {
    hide ConfirmedCounter, IndexByUuid, IndexByUid;
  }

  /** What confirming takes off the counters that were reported under one panel id. */
  function SubtractedFor(before: map<string, CounterValue>, after: map<string, CounterValue>,
                         report: seq<UserTraffic>, uid: int): Amount {
    if report == [] then Amount(0, 0)
    else
      var last := report[|report| - 1];
      var rest := SubtractedFor(before, after, report[..|report| - 1], uid);
      if last.uid != uid then rest
      else Plus(rest, Amount(PendingOf(before, last.uuid, Up) - PendingOf(after, last.uuid, Up),
                             PendingOf(before, last.uuid, Down) - PendingOf(after, last.uuid, Down)))
  }

  lemma {:induction false} PushMatchesPrefix(before: map<string, CounterValue>, after: map<string, CounterValue>,
                                             report: seq<UserTraffic>, n: nat, uid: int)
    requires n <= |report|
    requires forall i, j | 0 <= i < j < |report| :: report[i].uuid != report[j].uuid
    requires forall k, d :: PendingOf(after, k, d) == PendingOf(before, k, d) - Of(ReportedOf(report, k), d)
    ensures SubtractedFor(before, after, report[..n], uid) == ReportedFor(report[..n], uid)
    decreases n
  {
    hide PendingOf, SubtractedFor, ReportedFor, ReportedOf;
    if n > 0 {
      PushMatchesPrefix(before, after, report, n - 1, uid);
      TakenForEntry(before, after, report, n - 1);
      PushStep(before, after, report, n, uid);
    } else {
      NothingPushed(before, after, report, uid);
    }
  }

  lemma NothingPushed(before: map<string, CounterValue>, after: map<string, CounterValue>, report: seq<UserTraffic>,
                      uid: int)
    ensures SubtractedFor(before, after, report[..0], uid) == ReportedFor(report[..0], uid)
  {
  }

  lemma TakenForEntry(before: map<string, CounterValue>, after: map<string, CounterValue>, report: seq<UserTraffic>,
                      i: nat)
    requires i < |report|
    requires forall i, j | 0 <= i < j < |report| :: report[i].uuid != report[j].uuid
    requires forall k, d :: PendingOf(after, k, d) == PendingOf(before, k, d) - Of(ReportedOf(report, k), d)
    ensures var k := report[i].uuid;
      && PendingOf(before, k, Up) - PendingOf(after, k, Up) == report[i].upload
      && PendingOf(before, k, Down) - PendingOf(after, k, Down) == report[i].download
  {
    hide PendingOf;
    ReportedOnce(report, i);
    var k := report[i].uuid;
    assert PendingOf(after, k, Up) == PendingOf(before, k, Up) - Of(ReportedOf(report, k), Up);
    assert PendingOf(after, k, Down) == PendingOf(before, k, Down) - Of(ReportedOf(report, k), Down);
  }

  lemma PushStep(before: map<string, CounterValue>, after: map<string, CounterValue>, report: seq<UserTraffic>, n: nat,
                 uid: int)
    requires 0 < n <= |report|
    ensures var last := report[n - 1];
      && SubtractedFor(before, after, report[..n], uid)
         == (if last.uid != uid then SubtractedFor(before, after, report[..n - 1], uid)
             else Plus(SubtractedFor(before, after, report[..n - 1], uid),
                       Amount(PendingOf(before, last.uuid, Up) - PendingOf(after, last.uuid, Up),
                              PendingOf(before, last.uuid, Down) - PendingOf(after, last.uuid, Down))))
      && ReportedFor(report[..n], uid)
         == (if last.uid != uid then ReportedFor(report[..n - 1], uid)
             else Plus(ReportedFor(report[..n - 1], uid), Amount(last.upload, last.download)))
  {
    hide PendingOf;
    assert report[..n][..n - 1] == report[..n - 1] && report[..n][n - 1] == report[n - 1];
  }

  /** What the panel is told for an id is what confirming then takes off that id's counters. */
  lemma PushMatchesSubtraction(s: State, report: seq<UserTraffic>, uid: int)
    requires NonNegative(s.stats) && ReportFits(s.stats, report)
    ensures SubtractedFor(s.stats, Confirmed(s, report).stats, report, uid) == ReportedFor(report, uid)
  {
    ConfirmIsExact(s, report);
    PushMatchesPrefix(s.stats, Confirmed(s, report).stats, report, |report|, uid);
    assert report[..|report|] == report;
  }

  /** A snapshot reports all bytes of the counters above the threshold, a thousand for each unit of it,
      and nothing of the others; confirming it leaves the former nothing and the latter everything. */
  lemma SnapshotIsWhole(s: State, minTraffic: int, report: seq<UserTraffic>, k: string)
    requires NonNegative(s.stats) && "" !in s.stats && IsSnapshot(s.stats, minTraffic, report) && k in s.stats
    ensures var above := s.stats[k].up + s.stats[k].down > 1000 * minTraffic;
      forall d :: && Of(ReportedOf(report, k), d) == (if above then BytesOf(s.stats[k], d) else 0)
                  && PendingOf(Confirmed(s, report).stats, k, d) == if above then 0 else BytesOf(s.stats[k], d)
  {
    hide IndexByUuid, IndexByUid, PartlyConfirmed;
    SnapshotFits(s.stats, minTraffic, report);
    ConfirmIsExact(s, report);
    SnapshotOf(s.stats, minTraffic, report, k);
    hide Confirmed, ReportedOf;
    assert forall d :: PendingOf(s.stats, k, d) == BytesOf(s.stats[k], d);
  }

  lemma SnapshotOf(stats: map<string, CounterValue>, minTraffic: int, report: seq<UserTraffic>, k: string)
    requires IsSnapshot(stats, minTraffic, report) && k in stats
    ensures ReportedOf(report, k)
            == if stats[k].up + stats[k].down > 1000 * minTraffic then Amount(stats[k].up, stats[k].down)
               else Amount(0, 0)
  {
    var t := Snapshot(stats[k], k);
    if stats[k].up + stats[k].down > 1000 * minTraffic {
      assert IsSnapshotOf(stats, minTraffic, t);
      var i :| 0 <= i < |report| && report[i] == t;
      ReportedOnce(report, i);
    } else {
      assert forall r | r in report :: IsSnapshotOf(stats, minTraffic, r);
      NotReported(report, k);
    }
  }

  // ---------- reports of unnamed counters ----------

  ghost predicate Exact(s: State, report: seq<UserTraffic>) {
    forall uuid, d ::
      PendingOf(Confirmed(s, report).stats, uuid, d) == PendingOf(s.stats, uuid, d) - Of(ReportedOf(report, uuid), d)
  }

  /** Counter `k` is not reported but shares its id, and a direction with bytes, with an unnamed
      entry of the report. */
  ghost predicate Shadowed(stats: map<string, CounterValue>, report: seq<UserTraffic>, k: string) {
    && k in stats && !Reports(report, k)
    && exists t :: t in report && t.uuid == "" && t.uid == stats[k].uid
                   && ((t.upload > 0 && stats[k].up > 0) || (t.download > 0 && stats[k].down > 0))
  }

  lemma CounterExactIffNotShadowed(s: State, minTraffic: int, report: seq<UserTraffic>, k: string)
    requires NonNegative(s.stats) && IsSnapshot(s.stats, minTraffic, report) && k in s.stats
    ensures var c := ConfirmedCounter(s.stats[k], k, IndexByUuid(report), IndexByUid(report));
      var r := ReportedOf(report, k);
      c.up >= 0 && c.down >= 0
      && ((c.up == s.stats[k].up - r.up && c.down == s.stats[k].down - r.down) <==> !Shadowed(s.stats, report, k))
  {
    hide IndexByUuid, IndexByUid, ReportedOf;
    IndexFacts(report);
    if Reports(report, k) {
      var t :| t in report && t.uuid == k;
      assert IsSnapshotOf(s.stats, minTraffic, t);
      var i :| 0 <= i < |report| && report[i] == t;
      ReportedOnce(report, i);
      if k == "" {
        OneUnnamed(report, i);
      }
    } else {
      NotReported(report, k);
      if t :| t in report && t.uuid == "" {
        var i :| 0 <= i < |report| && report[i] == t;
        assert IsSnapshotOf(s.stats, minTraffic, t);
        OneUnnamed(report, i);
        assert forall u | u in report && u.uuid == "" :: u == t;
      }
    }
  }

  /** Confirming a snapshot at once is exact precisely when the fallback by id hits nobody. */
  lemma SnapshotExactIffNoneShadowed(s: State, minTraffic: int, report: seq<UserTraffic>)
    requires NonNegative(s.stats) && IsSnapshot(s.stats, minTraffic, report)
    ensures Exact(s, report) <==> forall k :: !Shadowed(s.stats, report, k)
  {
    hide IndexByUuid, IndexByUid;
    forall k | k in s.stats
      ensures var c := ConfirmedCounter(s.stats[k], k, IndexByUuid(report), IndexByUid(report));
        && PendingOf(Confirmed(s, report).stats, k, Up) == (if report == [] then s.stats[k].up else c.up)
        && PendingOf(Confirmed(s, report).stats, k, Down) == (if report == [] then s.stats[k].down else c.down)
    {
      CounterExactIffNotShadowed(s, minTraffic, report, k);
    }
    forall k | k in s.stats
      ensures Shadowed(s.stats, report, k) <==>
        !(forall d :: PendingOf(Confirmed(s, report).stats, k, d)
                      == PendingOf(s.stats, k, d) - Of(ReportedOf(report, k), d))
    {
      CounterExactIffNotShadowed(s, minTraffic, report, k);
      if report == [] {
        NotReported(report, k);
      }
      assert PendingOf(s.stats, k, Up) == s.stats[k].up && PendingOf(s.stats, k, Down) == s.stats[k].down;
    }
    forall k | k !in s.stats
      ensures ReportedOf(report, k) == Amount(0, 0)
    {
      assert forall t | t in report :: IsSnapshotOf(s.stats, minTraffic, t);
      NotReported(report, k);
    }
  }
}
