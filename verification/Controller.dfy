/** The controller, the server's books and the limiter together, over any sequence of pulled user
    lists, events and requests. */
module Controller {
  import opened Panel
  import opened UserList
  import opened UserUpdates
  import L = Limiter
  import S = Server
  import AR = AdmissionRuns
  import SF = ServerFacts

  /** `userList` is the list the last difference was taken against. `latest` is the last list
      pulled, `everListed` all uuids of all lists and `alive` the last device counts pulled, less those
      of the users that lists have dropped since; no operation reads these three. */
  datatype State = State(userList: seq<UserInfo>, books: S.State, limiter: L.State,
                         latest: seq<UserInfo>, everListed: set<string>, alive: map<int, int>)

  datatype Action =
    | Pull(newUsers: Option<seq<UserInfo>>, newAlive: Option<map<int, int>>,
           deleted: seq<UserInfo>, added: seq<UserInfo>, modified: seq<UserInfo>)
    | Event(e: S.Event)
    | Authorize(user: string, ip: string)
    | Release(user: string, ip: string)
    | Confirm(report: seq<UserTraffic>)

  /** The panel's lists have distinct uuids, and a uuid has the same positive id in all of them. */
  ghost predicate Consistent(users: seq<UserInfo>, ids: map<string, int>) {
    Distinct(users) && forall u | u in users :: u.uuid in ids && ids[u.uuid] == u.id > 0
  }

  ghost predicate Enabled(s: State, a: Action, ids: map<string, int>) {
    match a
    case Pull(newUsers, _, deleted, added, modified) =>
      newUsers.Some? ==>
        Consistent(newUsers.value, ids) && IsDelta(ByUuid(s.userList), newUsers.value, deleted, added, modified)
    case Event(e) => SF.EventFits(e)
    case _ => true
  }

  /** The ids of the users that the second list names no more. */
  function DroppedIds(before: seq<UserInfo>, after: seq<UserInfo>): set<int> {
    set u | u in before && u.uuid !in Uuids(after) :: u.id
  }

  function Do(s: State, a: Action): State {
    match a
    case Pull(newUsers, newAlive, deleted, added, modified) =>
      var s1 := if newAlive.Some? then s.(limiter := s.limiter.(alive := newAlive.value), alive := newAlive.value)
                else s;
      if newUsers.None? then s1
      else
        var s2 := s1.(latest := newUsers.value, everListed := s1.everListed + Uuids(newUsers.value),
                      alive := s1.alive - DroppedIds(s1.latest, newUsers.value));
        if added == [] && deleted == [] && modified == [] then s2
        else s2.(userList := newUsers.value,
                 books := S.Updated(s2.books, added, deleted, modified, newUsers),
                 limiter := L.Updated(s2.limiter, added, deleted, modified))
    case Event(e) =>
      s.(books := S.Handled(s.books, e),
         limiter := if e.Close? then L.Released(s.limiter, e.user, e.ip) else s.limiter)
    case Authorize(user, ip) => s.(limiter := L.Authorized(s.limiter, user, ip))
    case Release(user, ip) => s.(limiter := L.Released(s.limiter, user, ip))
    case Confirm(report) => s.(books := S.Confirmed(s.books, report))
  }

  function Started(users: seq<UserInfo>, alive: map<int, int>): State {
    State(users, S.Replaced(S.State(map[], map[], map[], map[]), users), L.Fresh(users, alive), users, Uuids(users),
          alive)
  }

  ghost predicate IsRun(states: seq<State>, actions: seq<Action>, ids: map<string, int>) {
    |states| == |actions| + 1
    && Consistent(states[0].userList, ids)
    && (exists alive :: states[0] == Started(states[0].userList, alive))
    && forall i | 0 <= i < |actions| ::
         Enabled(states[i], actions[i], ids) && states[i + 1] == Do(states[i], actions[i])
  }

  /** Server and limiter both know exactly the users of the last list, with its limits, and the
      ids on record are those of every user ever listed. */
  ghost predicate Inv(s: State, ids: map<string, int>) {
    && Consistent(s.userList, ids) && Consistent(s.latest, ids)
    && ByUuid(s.userList) == ByUuid(s.latest)
    && s.books.users == ByUuid(s.latest)
    && s.limiter.limits == L.LimitsOf(s.latest)
    && s.limiter.alive == s.alive && s.limiter.nodeSpeedLimit == 0
    && Uuids(s.latest) <= s.everListed == s.books.userIDs.Keys
    && (forall k | k in s.books.userIDs :: k in ids && s.books.userIDs[k] == ids[k] > 0)
  }

  lemma ConsistentAt(users: seq<UserInfo>, ids: map<string, int>)
    requires Consistent(users, ids)
    ensures ByUuid(users).Keys == Uuids(users)
    ensures forall k | k in ByUuid(users) :: k in ids && ByUuid(users)[k].id == ids[k] > 0 && ByUuid(users)[k].uuid == k
  {
    ByUuidKeys(users);
  }

  lemma RecordedIds(s: map<string, int>, users: seq<UserInfo>, ids: map<string, int>)
    requires Consistent(users, ids) && forall k | k in s :: k in ids && s[k] == ids[k] > 0
    ensures S.RecordIds(s, users).Keys == s.Keys + Uuids(users)
    ensures forall k | k in S.RecordIds(s, users) :: k in ids && S.RecordIds(s, users)[k] == ids[k] > 0
  {
    ConsistentAt(users, ids);
    RecordIdsFacts(s, users);
  }

  lemma StartedInv(users: seq<UserInfo>, alive: map<int, int>, ids: map<string, int>)
    requires Consistent(users, ids)
    ensures Inv(Started(users, alive), ids)
  {
    RecordedIds(map[], users, ids);
  }

  /** Two consistent lists without a difference list the same users. */
  lemma NoDeltaSameUsers(before: seq<UserInfo>, after: seq<UserInfo>, ids: map<string, int>)
    requires Consistent(before, ids) && Consistent(after, ids)
    requires IsDelta(ByUuid(before), after, [], [], [])
    ensures ByUuid(before) == ByUuid(after)
  {
    ConsistentAt(before, ids);
    ConsistentAt(after, ids);
    forall k
      ensures k in ByUuid(before) <==> k in ByUuid(after)
      ensures k in ByUuid(before) ==> ByUuid(before)[k] == ByUuid(after)[k]
    {
      DeltaAt(ByUuid(before), after, [], [], [], k);
      NoUuids();
      assert ByUuid([]) == map[];
    }
  }

  /** The users deleted by the difference are those that the new list drops. */
  lemma DeletedAreDropped(s: State, users: seq<UserInfo>, deleted: seq<UserInfo>, added: seq<UserInfo>,
                          modified: seq<UserInfo>, ids: map<string, int>)
    requires Inv(s, ids) && Consistent(users, ids) && IsDelta(ByUuid(s.userList), users, deleted, added, modified)
    ensures (set u | u in deleted :: u.id) == DroppedIds(s.latest, users)
  {
    hide LimitsDiffer;
    ByUuidHolds(s.latest);
    ByUuidKeys(s.latest);
    assert forall u :: u in deleted <==> u in s.latest && u.uuid !in Uuids(users);
  }

  lemma UpdateKeepsInv(s: State, a: Action, ids: map<string, int>)
    requires Inv(s, ids) && a.Pull? && a.newUsers.Some? && Enabled(s, a, ids)
    requires !(a.added == [] && a.deleted == [] && a.modified == [])
    ensures Inv(Do(s, a), ids)
  {
    hide L.Updated, L.LimitsOf, ByUuid, Distinct, IsDelta, S.RecordIds, S.EnsureCounters, S.KeepPending;
    var users := a.newUsers.value;
    ConsistentAt(s.userList, ids);
    ConsistentAt(users, ids);
    RecordedIds(s.books.userIDs, users, ids);
    var limiter := if a.newAlive.Some? then s.limiter.(alive := a.newAlive.value) else s.limiter;
    AR.UpdatedFacts(limiter, a.added, a.deleted, a.modified);
    DeletedAreDropped(s, users, a.deleted, a.added, a.modified, ids);
    IncrementalIsRebuildIffIdsKept(limiter, s.userList, users, a.deleted, a.added, a.modified) by {
      SameUsersSameLimits(s.userList, s.latest);
      assert Distinct(s.userList) && Distinct(users);
    }
  }

  lemma SameUsersSameLimits(a: seq<UserInfo>, b: seq<UserInfo>)
    requires ByUuid(a) == ByUuid(b)
    ensures L.LimitsOf(a) == L.LimitsOf(b)
  {
  }

  lemma SameListKeepsInv(s: State, users: seq<UserInfo>, ids: map<string, int>)
    requires Inv(s, ids) && Consistent(users, ids) && IsDelta(ByUuid(s.userList), users, [], [], [])
    ensures s.alive - DroppedIds(s.latest, users) == s.alive
    ensures Inv(s.(latest := users, everListed := s.everListed + Uuids(users)), ids)
  {
    NoDeltaSameUsers(s.userList, users, ids);
    SameUsersSameLimits(s.latest, users);
    DeletedAreDropped(s, users, [], [], [], ids);
    ConsistentAt(s.latest, ids);
    ConsistentAt(users, ids);
    hide ByUuid, L.LimitsOf, IsDelta;
  }

  lemma PullKeepsInv(s: State, a: Action, ids: map<string, int>)
    requires Inv(s, ids) && a.Pull? && Enabled(s, a, ids)
    ensures Inv(Do(s, a), ids)
  {
    hide L.LimitsOf, ByUuid, IsDelta, DroppedIds, L.Updated, S.Updated;
    if a.newUsers.Some? {
      if a.added == [] && a.deleted == [] && a.modified == [] {
        var alive := if a.newAlive.Some? then a.newAlive.value else s.alive;
        var s1 := s.(limiter := s.limiter.(alive := alive), alive := alive);
        assert Inv(s1, ids);
        SameListKeepsInv(s1, a.newUsers.value, ids);
      } else {
        UpdateKeepsInv(s, a, ids);
      }
    }
  }

  lemma ActionKeepsInv(s: State, a: Action, ids: map<string, int>)
    requires Inv(s, ids) && Enabled(s, a, ids)
    ensures Inv(Do(s, a), ids)
  {
    if a.Pull? {
      PullKeepsInv(s, a, ids);
    }
  }

  lemma {:induction false} RunKeepsInv(states: seq<State>, actions: seq<Action>, ids: map<string, int>, i: nat)
    requires IsRun(states, actions, ids) && i < |states|
    ensures Inv(states[i], ids)
  {
    if i == 0 {
      var alive :| states[0] == Started(states[0].userList, alive);
      StartedInv(states[0].userList, alive, ids);
    } else {
      RunKeepsInv(states, actions, ids, i - 1);
      ActionKeepsInv(states[i - 1], actions[i - 1], ids);
    }
  }

  /** After any sequence of pulled lists, with anything in between, every user's limits are those
      of a fresh limiter built from the last list, and the server's users are that list. */
  lemma IncrementalRefinesRebuild(states: seq<State>, actions: seq<Action>, ids: map<string, int>, i: nat,
                                  alive: map<int, int>)
    requires IsRun(states, actions, ids) && i < |states|
    ensures states[i].limiter.limits == L.Fresh(states[i].latest, alive).limits
    ensures states[i].books.users == S.Replaced(S.State(map[], map[], map[], map[]), states[i].latest).users
  {
    RunKeepsInv(states, actions, ids, i);
  }

  /** The answers are true to the panel's last list. A request is allowed at the speed limit listed for
      its user, zero for none. "Unauthorized" is said exactly of users never listed, "traffic
      exhausted" exactly of users listed before but not in the last list, and "device limit" exactly
      of listed users with a new address whose device limit the panel's count of their devices has
      reached. The id given is the user's own. */
  lemma ReasonsAreTruthful(states: seq<State>, actions: seq<Action>, ids: map<string, int>, i: nat,
                           user: string, ip: string)
    requires IsRun(states, actions, ids) && i < |states|
    ensures var s := states[i];
      match S.Answer(s.books, s.limiter, user, ip)
      case Allowed(speed, uid) =>
        && user in ByUuid(s.latest) && user in ids && uid == ids[user]
        && var u := ByUuid(s.latest)[user];
           && speed == (if u.speedLimit > 0 then u.speedLimit else 0)
           && (ShowsAddress(s, user, ip) || !(0 < u.deviceLimit && u.id in s.alive && u.deviceLimit <= s.alive[u.id]))
      case Denied(uid, Unauthorized) => user !in s.everListed && uid == 0
      case Denied(uid, TrafficExhausted) =>
        user in s.everListed && user !in Uuids(s.latest) && user in ids && uid == ids[user]
      case Denied(uid, DeviceLimit) =>
        && user in ByUuid(s.latest) && user in ids && uid == ids[user]
        && var u := ByUuid(s.latest)[user];
           && 0 < u.deviceLimit && u.id in s.alive && u.deviceLimit <= s.alive[u.id]
           && !ShowsAddress(s, user, ip)
  {
    RunKeepsInv(states, actions, ids, i);
    ConsistentAt(states[i].latest, ids);
  }

  /** The user is online with the address, or the address is cached. */
  predicate ShowsAddress(s: State, user: string, ip: string) {
    L.Has(s.limiter.online, user, L.Trim(ip)) || L.Trim(ip) in s.limiter.cached
  }
}
