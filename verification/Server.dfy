/** The node server's books: users, traffic counters and online counts. */
module Server {
  import opened Panel
  import opened UserList
  import L = Limiter

  datatype CounterValue = CounterValue(uid: int, up: int, down: int)

  datatype State = State(
    users: map<string, UserInfo>,
    userIDs: map<string, int>,
    stats: map<string, CounterValue>,
    online: map<string, map<string, int>>)

  datatype Event =
    | Open(user: string, ip: string)
    | Traffic(user: string, userID: int, upload: int, download: int)
    | Close(user: string, userID: int, ip: string, upload: int, download: int)

  datatype Reason = Unauthorized | TrafficExhausted | DeviceLimit
  datatype Response = Allowed(speedLimit: int, userID: int) | Denied(userID: int, reason: Reason)

  // ---------- counters as values ----------

  function WithUid(c: CounterValue, uid: int): CounterValue {
    if uid <= 0 then c else c.(uid := uid)
  }

  function Counted(c: CounterValue, upload: int, download: int): CounterValue {
    if upload <= 0 && download <= 0 then c else c.(up := c.up + upload, down := c.down + download)
  }

  /** What is left of a counter value after a report of it arrived; never below zero. */
  function SubtractReported(current: int, reported: int): (r: int)
    ensures reported <= 0 ==> r == current
    ensures 0 <= reported <= current ==> r + reported == current
    ensures 0 <= current < reported ==> r == 0
  {
    if reported <= 0 then current
    else if current <= reported then 0
    else current - reported
  }

  function Subtracted(c: CounterValue, a: Amount): CounterValue {
    c.(up := SubtractReported(c.up, a.up), down := SubtractReported(c.down, a.down))
  }

  predicate Pending(c: CounterValue) {
    c.up > 0 || c.down > 0
  }

  function Snapshot(c: CounterValue, uuid: string): UserTraffic {
    UserTraffic(c.uid, uuid, c.up, c.down)
  }

  predicate Above(c: CounterValue, minTraffic: int) {
    c.up + c.down > minTraffic * 1000
  }

  class TrafficCounter {
    var uid: int
    var up: int
    var down: int

    function Value(): CounterValue
      reads this
    {
      CounterValue(uid, up, down)
    }

    constructor (uid: int)
      ensures Value() == CounterValue(uid, 0, 0)
    {
      this.uid, up, down := uid, 0, 0;
    }

    method Add(upload: int, download: int)
      modifies this
      ensures Value() == Counted(old(Value()), upload, download)
    {
      if upload <= 0 && download <= 0 {
        return;
      }
      up := up + upload;
      down := down + download;
    }

    method SetUID(uid: int)
      modifies this
      ensures Value() == WithUid(old(Value()), uid)
    {
      if uid <= 0 {
        return;
      }
      this.uid := uid;
    }

    method SnapshotIfAbove(minTraffic: int, uuid: string) returns (data: Option<UserTraffic>)
      ensures data == if Above(Value(), minTraffic) then Some(Snapshot(Value(), uuid)) else None
    {
      var threshold := minTraffic * 1000;
      if up + down <= threshold {
        return None;
      }
      return Some(UserTraffic(uid, uuid, up, down));
    }

    method Confirm(reported: Amount)
      modifies this
      ensures Value() == Subtracted(old(Value()), reported)
    {
      up := SubtractReported(up, reported.up);
      down := SubtractReported(down, reported.down);
    }
  }

  // ---------- what each operation does to the books ----------

  function RecordId(ids: map<string, int>, user: UserInfo): map<string, int> {
    if user.id > 0 then ids[user.uuid := user.id] else ids
  }

  function EnsureCounter(stats: map<string, CounterValue>, user: UserInfo): map<string, CounterValue> {
    stats[user.uuid := if user.uuid in stats then WithUid(stats[user.uuid], user.id) else CounterValue(user.id, 0, 0)]
  }

  function RecordIds(ids: map<string, int>, users: seq<UserInfo>): map<string, int> {
    if users == [] then ids else RecordId(RecordIds(ids, users[..|users| - 1]), users[|users| - 1])
  }

  function EnsureCounters(stats: map<string, CounterValue>, users: seq<UserInfo>): map<string, CounterValue> {
    if users == [] then stats else EnsureCounter(EnsureCounters(stats, users[..|users| - 1]), users[|users| - 1])
  }

  /** The counters of listed users, and of others as long as they hold bytes. */
  function KeepPending(stats: map<string, CounterValue>, listed: set<string>): map<string, CounterValue> {
    map k | k in stats && (k in listed || Pending(stats[k])) :: stats[k]
  }

  function Replaced(s: State, users: seq<UserInfo>): State {
    var listed := ByUuid(users).Keys;
    State(ByUuid(users),
          RecordIds(s.userIDs, users),
          EnsureCounters(KeepPending(s.stats, listed), users),
          map k | k in s.online && k in listed :: s.online[k])
  }

  /** A deleted user's counter goes, unless it holds bytes. */
  function DropCounter(stats: map<string, CounterValue>, user: UserInfo): map<string, CounterValue> {
    if user.uuid !in stats then stats
    else if Pending(stats[user.uuid]) then stats[user.uuid := WithUid(stats[user.uuid], user.id)]
    else stats - {user.uuid}
  }

  function NewUserCounter(stats: map<string, CounterValue>, user: UserInfo): map<string, CounterValue> {
    if user.uuid in stats then stats else stats[user.uuid := CounterValue(user.id, 0, 0)]
  }

  function DeleteOne(s: State, user: UserInfo): State {
    s.(users := s.users - {user.uuid}, stats := DropCounter(s.stats, user), online := s.online - {user.uuid})
  }

  function AddOne(s: State, user: UserInfo): State {
    s.(users := s.users[user.uuid := user],
       userIDs := RecordId(s.userIDs, user),
       stats := NewUserCounter(s.stats, user))
  }

  function ModifyOne(s: State, user: UserInfo): State {
    s.(users := s.users[user.uuid := user],
       userIDs := RecordId(s.userIDs, user),
       stats := EnsureCounter(s.stats, user))
  }

  function DeleteAll(s: State, users: seq<UserInfo>): State {
    if users == [] then s else DeleteOne(DeleteAll(s, users[..|users| - 1]), users[|users| - 1])
  }

  function AddAll(s: State, users: seq<UserInfo>): State {
    if users == [] then s else AddOne(AddAll(s, users[..|users| - 1]), users[|users| - 1])
  }

  function ModifyAll(s: State, users: seq<UserInfo>): State {
    if users == [] then s else ModifyOne(ModifyAll(s, users[..|users| - 1]), users[|users| - 1])
  }

  function AppliedDelta(s: State, added: seq<UserInfo>, deleted: seq<UserInfo>, modified: seq<UserInfo>): State {
    ModifyAll(AddAll(DeleteAll(s, deleted), added), modified)
  }

  function Updated(s: State, added: seq<UserInfo>, deleted: seq<UserInfo>, modified: seq<UserInfo>,
                   full: Option<seq<UserInfo>>): State {
    if full.Some? then Replaced(s, full.value) else AppliedDelta(s, added, deleted, modified)
  }

  function UserId(s: State, uuid: string): int {
    if uuid in s.users && s.users[uuid].id > 0 then s.users[uuid].id
    else if uuid in s.userIDs then s.userIDs[uuid]
    else 0
  }

  function WithTraffic(stats: map<string, CounterValue>, user: string, uid: int, upload: int, download: int)
    : map<string, CounterValue>
  {
    var counter := if user in stats then WithUid(stats[user], uid) else CounterValue(uid, 0, 0);
    stats[user := Counted(counter, upload, download)]
  }

  /** Traffic of an event lands on the counter of its uuid, which is made when missing. */
  function AddTraffic(s: State, user: string, eventUid: int, upload: int, download: int): State {
    var uid := if eventUid == 0 then UserId(s, user) else eventUid;
    s.(stats := WithTraffic(s.stats, user, uid, upload, download))
  }

  function CountOf(online: map<string, map<string, int>>, user: string, ip: string): int {
    if user in online && ip in online[user] then online[user][ip] else 0
  }

  function DevicesOf(online: map<string, map<string, int>>, user: string): map<string, int> {
    if user in online then online[user] else map[]
  }

  function Opened(online: map<string, map<string, int>>, user: string, ip: string): map<string, map<string, int>> {
    online[user := DevicesOf(online, user)[ip := CountOf(online, user, ip) + 1]]
  }

  function Closed(online: map<string, map<string, int>>, user: string, ip: string): map<string, map<string, int>> {
    if user !in online then online
    else
      var ips := if CountOf(online, user, ip) <= 1 then online[user] - {ip}
                 else online[user][ip := online[user][ip] - 1];
      if ips == map[] then online - {user} else online[user := ips]
  }

  function Handled(s: State, e: Event): State {
    match e
    case Open(user, ip) => s.(online := Opened(s.online, user, ip))
    case Traffic(user, uid, up, down) => AddTraffic(s, user, uid, up, down)
    case Close(user, uid, ip, up, down) =>
      AddTraffic(s, user, uid, up, down).(online := Closed(s.online, user, ip))
  }

  /** Reported amounts by uuid, summed; entries without uuid do not appear. */
  function IndexByUuid(reported: seq<UserTraffic>): map<string, Amount> {
    if reported == [] then map[]
    else
      var last := reported[|reported| - 1];
      var m := IndexByUuid(reported[..|reported| - 1]);
      if last.uuid == "" then m
      else
        var before := if last.uuid in m then m[last.uuid] else Amount(0, 0);
        m[last.uuid := Plus(before, Amount(last.upload, last.download))]
  }

  /** Reported amounts of the entries without uuid, by panel id. */
  function IndexByUid(reported: seq<UserTraffic>): map<int, Amount> {
    if reported == [] then map[]
    else
      var last := reported[|reported| - 1];
      var m := IndexByUid(reported[..|reported| - 1]);
      if last.uuid != "" then m
      else m[last.uid := Plus(Lookup(m, last.uid), Amount(last.upload, last.download))]
  }

  function ConfirmedCounter(c: CounterValue, uuid: string, byUuid: map<string, Amount>, byUid: map<int, Amount>)
    : CounterValue
  {
    if uuid in byUuid then Subtracted(c, byUuid[uuid])
    else if c.uid in byUid then Subtracted(c, byUid[c.uid])
    else c
  }

  /** The books when all counters but those in `todo` have been confirmed. */
  function PartlyConfirmed(books: map<string, CounterValue>, todo: set<string>, listed: set<string>,
                           byUuid: map<string, Amount>, byUid: map<int, Amount>): map<string, CounterValue> {
    map k | k in books && (k in todo || k in listed || Pending(ConfirmedCounter(books[k], k, byUuid, byUid)))
      :: if k in todo then books[k] else ConfirmedCounter(books[k], k, byUuid, byUid)
  }

  lemma PartlyConfirmedStep(books: map<string, CounterValue>, todo: set<string>, uuid: string, listed: set<string>,
                            byUuid: map<string, Amount>, byUid: map<int, Amount>)
    requires uuid in todo && todo <= books.Keys
    ensures var m := PartlyConfirmed(books, todo, listed, byUuid, byUid);
      var c := ConfirmedCounter(books[uuid], uuid, byUuid, byUid);
      && todo <= m.Keys && m[uuid] == books[uuid]
      && PartlyConfirmed(books, todo - {uuid}, listed, byUuid, byUid)
         == if uuid in listed || Pending(c) then m[uuid := c] else m - {uuid}
  {
    hide ConfirmedCounter, Pending;
  }

  function Confirmed(s: State, reported: seq<UserTraffic>): State {
    if reported == [] then s
    else
      s.(stats := PartlyConfirmed(s.stats, {}, s.users.Keys, IndexByUuid(reported), IndexByUid(reported)))
  }

  predicate IsSnapshotOf(stats: map<string, CounterValue>, minTraffic: int, t: UserTraffic) {
    t.uuid in stats && Above(stats[t.uuid], minTraffic) && t == Snapshot(stats[t.uuid], t.uuid)
  }

  /** `traffic` lists the snapshot of every counter above the threshold, each once. */
  ghost predicate IsSnapshot(stats: map<string, CounterValue>, minTraffic: int, traffic: seq<UserTraffic>) {
    && (forall i, j | 0 <= i < j < |traffic| :: traffic[i].uuid != traffic[j].uuid)
    && (forall t :: t in traffic <==> IsSnapshotOf(stats, minTraffic, t))
  }

  /** The answer to an authorisation request. */
  function Answer(s: State, l: L.State, user: string, ip: string): Response {
    if !L.Rejects(l, user, ip) then Allowed(L.EffectiveSpeed(l, user), UserId(s, user))
    else Denied(UserId(s, user),
                if UserId(s, user) == 0 then Unauthorized
                else if user in s.users then DeviceLimit
                else TrafficExhausted)
  }

  // ---------- the object ----------

  /** The values of a map of counters. */
  ghost function Books(stats: map<string, TrafficCounter>): (books: map<string, CounterValue>)
    reads stats.Values
    ensures books.Keys == stats.Keys
  {
    map k | k in stats :: stats[k].Value()
  }

  ghost predicate Separate(stats: map<string, TrafficCounter>) {
    forall k, l | k in stats && l in stats && k != l :: stats[k] != stats[l]
  }

  class Server {
    var users: map<string, UserInfo>
    var userIDs: map<string, int>
    var stats: map<string, TrafficCounter>
    var online: map<string, map<string, int>>
    const limiter: L.Limiter

    /** Every counter belongs to one uuid. */
    ghost predicate Valid()
      reads this
    {
      Separate(stats)
    }

    ghost function Value(): State
      reads this, stats.Values
    {
      State(users, userIDs, Books(stats), online)
    }

    constructor (list: seq<UserInfo>, alive: map<int, int>)
      ensures Valid() && Value() == Replaced(State(map[], map[], map[], map[]), list)
      ensures fresh(stats.Values) && fresh(limiter) && limiter.Value() == L.Fresh(list, alive)
    {
      limiter := new L.Limiter(list, alive);
      users, userIDs, stats, online := map[], map[], map[], map[];
      new;
      assert Books(stats) == map[];
      ReplaceUsers(list);
    }

    method SetCounterUID(uuid: string, uid: int)
      requires Valid() && uuid in stats
      modifies stats[uuid]
      ensures Books(stats) == old(Books(stats))[uuid := WithUid(old(Books(stats))[uuid], uid)]
    {
      stats[uuid].SetUID(uid);
    }

    method NewCounter(uuid: string, uid: int)
      requires Valid() && uuid !in stats
      modifies this`stats
      ensures Valid() && stats.Keys == old(stats.Keys) + {uuid} && fresh(stats.Values - old(stats.Values))
      ensures Books(stats) == old(Books(stats))[uuid := CounterValue(uid, 0, 0)]
    {
      var c := new TrafficCounter(uid);
      stats := stats[uuid := c];
    }

    method DropIfIdle(uuid: string)
      requires Valid() && uuid in stats
      modifies this`stats
      ensures Valid() && stats.Values <= old(stats.Values)
      ensures Books(stats) == if Pending(old(Books(stats))[uuid]) then old(Books(stats)) else old(Books(stats)) - {uuid}
    {
      if !(stats[uuid].up > 0 || stats[uuid].down > 0) {
        stats := stats - {uuid};
      }
    }

    method EnsureCounterFor(user: UserInfo)
      requires Valid()
      modifies this`stats, stats.Values
      ensures Valid() && Books(stats) == EnsureCounter(old(Books(stats)), user)
      ensures fresh(stats.Values - old(stats.Values))
    {
      if user.uuid !in stats {
        NewCounter(user.uuid, user.id);
      } else {
        SetCounterUID(user.uuid, user.id);
      }
    }

    /** Drops the counters of unlisted users that hold no bytes. */
    method DropIdle(listed: set<string>)
      requires Valid()
      modifies this`stats
      ensures Valid() && Books(stats) == KeepPending(old(Books(stats)), listed)
      ensures stats.Values <= old(stats.Values)
    {
      var todo := stats.Keys;
      ghost var before := stats;
      while todo != {}
        invariant todo <= before.Keys
        invariant stats == map k | k in before && (k in todo || k in listed || Pending(before[k].Value())) :: before[k]
        modifies this`stats
      {
        var uuid :| uuid in todo;
        if uuid !in listed && !(stats[uuid].up > 0 || stats[uuid].down > 0) {
          stats := stats - {uuid};
        }
        todo := todo - {uuid};
      }
    }

    /** Makes `list` the listed users and notes their ids, which are never forgotten. */
    method SetUsers(list: seq<UserInfo>)
      modifies this`users, this`userIDs
      ensures users == ByUuid(list) && userIDs == RecordIds(old(userIDs), list)
    {
      var nextUsers := map[];
      for i := 0 to |list|
        invariant nextUsers == ByUuid(list[..i]) && userIDs == RecordIds(old(userIDs), list[..i])
      {
        assert list[..i + 1][..i] == list[..i];
        nextUsers := nextUsers[list[i].uuid := list[i]];
        if list[i].id > 0 {
          userIDs := userIDs[list[i].uuid := list[i].id];
        }
      }
      assert list[..|list|] == list;
      users := nextUsers;
    }

    /** Drops the online counts of unlisted users. */
    method DropOffline(listed: set<string>)
      modifies this`online
      ensures online == map k | k in old(online) && k in listed :: old(online)[k]
    {
      var todo := online.Keys;
      while todo != {}
        invariant todo <= old(online).Keys
        invariant online == map k | k in old(online) && (k in todo || k in listed) :: old(online)[k]
      {
        var uuid :| uuid in todo;
        if uuid !in listed {
          online := online - {uuid};
        }
        todo := todo - {uuid};
      }
    }

    method EnsureAll(list: seq<UserInfo>)
      requires Valid()
      modifies this`stats, stats.Values
      ensures Valid() && Books(stats) == EnsureCounters(old(Books(stats)), list)
      ensures fresh(stats.Values - old(stats.Values))
    {
      for i := 0 to |list|
        invariant Valid() && Books(stats) == EnsureCounters(old(Books(stats)), list[..i])
        invariant fresh(stats.Values - old(stats.Values))
      {
        assert list[..i + 1][..i] == list[..i];
        EnsureCounterFor(list[i]);
      }
      assert list[..|list|] == list;
    }

    method ReplaceUsers(list: seq<UserInfo>)
      requires Valid()
      modifies this, stats.Values
      ensures Valid() && Value() == Replaced(old(Value()), list)
      ensures fresh(stats.Values - old(stats.Values))
    {
      hide ByUuid, RecordIds, EnsureCounters, KeepPending, Books;
      SetUsers(list);
      DropIdle(users.Keys);
      DropOffline(users.Keys);
      EnsureAll(list);
    }

    method RemoveCounter(user: UserInfo)
      requires Valid()
      modifies this`stats, stats.Values
      ensures Valid() && Books(stats) == DropCounter(old(Books(stats)), user)
      ensures stats.Values <= old(stats.Values)
    {
      hide Books;
      if user.uuid in stats {
        SetCounterUID(user.uuid, user.id);
        DropIfIdle(user.uuid);
      }
    }

    method RemoveUser(user: UserInfo)
      requires Valid()
      modifies this`users, this`stats, this`online, stats.Values
      ensures Valid() && Value() == DeleteOne(old(Value()), user)
      ensures stats.Values <= old(stats.Values)
    {
      hide DropCounter, Books;
      users := users - {user.uuid};
      RemoveCounter(user);
      online := online - {user.uuid};
    }

    method InsertCounter(user: UserInfo)
      requires Valid()
      modifies this`stats
      ensures Valid() && Books(stats) == NewUserCounter(old(Books(stats)), user)
      ensures fresh(stats.Values - old(stats.Values))
    {
      if user.uuid !in stats {
        NewCounter(user.uuid, user.id);
      }
    }

    method InsertUser(user: UserInfo)
      requires Valid()
      modifies this`users, this`userIDs, this`stats
      ensures Valid() && Value() == AddOne(old(Value()), user)
      ensures fresh(stats.Values - old(stats.Values))
    {
      hide NewUserCounter, Books;
      users := users[user.uuid := user];
      if user.id > 0 {
        userIDs := userIDs[user.uuid := user.id];
      }
      InsertCounter(user);
    }

    method ChangeUser(user: UserInfo)
      requires Valid()
      modifies this`users, this`userIDs, this`stats, stats.Values
      ensures Valid() && Value() == ModifyOne(old(Value()), user)
      ensures fresh(stats.Values - old(stats.Values))
    {
      hide EnsureCounter, Books;
      users := users[user.uuid := user];
      if user.id > 0 {
        userIDs := userIDs[user.uuid := user.id];
      }
      EnsureCounterFor(user);
    }

    method ApplyUserDelta(added: seq<UserInfo>, deleted: seq<UserInfo>, modified: seq<UserInfo>)
      requires Valid()
      modifies this, stats.Values
      ensures Valid() && Value() == AppliedDelta(old(Value()), added, deleted, modified)
      ensures fresh(stats.Values - old(stats.Values))
    {
      ghost var s := Value();
      for i := 0 to |deleted|
        invariant Valid() && Value() == DeleteAll(s, deleted[..i])
        invariant fresh(stats.Values - old(stats.Values))
      {
        assert deleted[..i + 1][..i] == deleted[..i];
        RemoveUser(deleted[i]);
      }
      assert deleted[..|deleted|] == deleted;
      s := Value();
      for i := 0 to |added|
        invariant Valid() && Value() == AddAll(s, added[..i])
        invariant fresh(stats.Values - old(stats.Values))
      {
        assert added[..i + 1][..i] == added[..i];
        InsertUser(added[i]);
      }
      assert added[..|added|] == added;
      s := Value();
      for i := 0 to |modified|
        invariant Valid() && Value() == ModifyAll(s, modified[..i])
        invariant fresh(stats.Values - old(stats.Values))
      {
        assert modified[..i + 1][..i] == modified[..i];
        ChangeUser(modified[i]);
      }
      assert modified[..|modified|] == modified;
    }

    method UpdateUsers(added: seq<UserInfo>, deleted: seq<UserInfo>, modified: seq<UserInfo>,
                       full: Option<seq<UserInfo>>)
      requires Valid()
      modifies this, stats.Values, limiter
      ensures Valid() && Value() == Updated(old(Value()), added, deleted, modified, full)
      ensures limiter.Value() == L.Updated(old(limiter.Value()), added, deleted, modified)
      ensures fresh(stats.Values - old(stats.Values))
    {
      if full.Some? {
        ReplaceUsers(full.value);
      } else {
        ApplyUserDelta(added, deleted, modified);
      }
      limiter.UpdateUsers(added, deleted, modified);
    }

    /** The counter for `uuid`, made when missing, with its id brought up to date. */
    method GetCounterWithUID(uuid: string, uid: int) returns (counter: TrafficCounter)
      requires Valid()
      modifies this`stats, stats.Values
      ensures Valid() && uuid in stats && counter == stats[uuid]
      ensures Books(stats) == old(Books(stats))[uuid := if uuid in old(stats) then WithUid(old(Books(stats))[uuid], uid)
                                              else CounterValue(uid, 0, 0)]
      ensures fresh(stats.Values - old(stats.Values))
    {
      if uuid in stats {
        SetCounterUID(uuid, uid);
        return stats[uuid];
      }
      NewCounter(uuid, uid);
      return stats[uuid];
    }

    method UserIDByUUID(uuid: string) returns (uid: int)
      ensures uid == UserId(Value(), uuid)
    {
      if uuid in users && users[uuid].id > 0 {
        return users[uuid].id;
      }
      return if uuid in userIDs then userIDs[uuid] else 0;
    }

    method AddToCounter(uuid: string, upload: int, download: int)
      requires Valid() && uuid in stats
      modifies stats[uuid]
      ensures Books(stats) == old(Books(stats))[uuid := Counted(old(Books(stats))[uuid], upload, download)]
    {
      stats[uuid].Add(upload, download);
    }

    method AddTrafficFor(user: string, uid: int, upload: int, download: int)
      requires Valid()
      modifies this`stats, stats.Values
      ensures Valid() && Books(stats) == WithTraffic(old(Books(stats)), user, uid, upload, download)
      ensures fresh(stats.Values - old(stats.Values))
    {
      var counter := GetCounterWithUID(user, uid);
      AddToCounter(user, upload, download);
    }

    method CountEvent(user: string, userID: int, upload: int, download: int)
      requires Valid()
      modifies this`stats, stats.Values
      ensures Valid() && Value() == AddTraffic(old(Value()), user, userID, upload, download)
      ensures fresh(stats.Values - old(stats.Values))
    {
      hide WithTraffic;
      var uid := userID;
      if uid == 0 {
        uid := UserIDByUUID(user);
      }
      AddTrafficFor(user, uid, upload, download);
    }

    method HandleEvent(event: Event)
      requires Valid()
      modifies this, stats.Values, limiter
      ensures Valid() && Value() == Handled(old(Value()), event)
      ensures limiter.Value() == if event.Close? then L.Released(old(limiter.Value()), event.user, event.ip)
                                 else old(limiter.Value())
      ensures fresh(stats.Values - old(stats.Values))
    {
      hide AddTraffic, L.Released, Opened, Closed, Books, UserId;
      match event
      case Open(user, ip) =>
        OpenDevice(user, ip);
      case Traffic(user, userID, upload, download) =>
        CountEvent(user, userID, upload, download);
      case Close(user, userID, ip, upload, download) =>
        CountEvent(user, userID, upload, download);
        limiter.ReleaseIP(user, ip);
        CloseDevice(user, ip);
    }

    method OpenDevice(user: string, ip: string)
      modifies this`online
      ensures online == Opened(old(online), user, ip)
    {
      if user !in online {
        online := online[user := map[]];
      }
      var ipMap := online[user];
      online := online[user := ipMap[ip := (if ip in ipMap then ipMap[ip] else 0) + 1]];
    }

    method CloseDevice(user: string, ip: string)
      modifies this`online
      ensures online == Closed(old(online), user, ip)
    {
      if user in online {
        var ipMap := online[user];
        if (if ip in ipMap then ipMap[ip] else 0) <= 1 {
          ipMap := ipMap - {ip};
        } else {
          ipMap := ipMap[ip := ipMap[ip] - 1];
        }
        online := online[user := ipMap];
        if |ipMap| == 0 {
          online := online - {user};
        }
      }
    }

    method GetUserTrafficSlice(minTraffic: int) returns (traffic: seq<UserTraffic>)
      requires Valid()
      ensures IsSnapshot(Books(stats), minTraffic, traffic)
    {
      traffic := [];
      var todo := stats.Keys;
      while todo != {}
        invariant todo <= stats.Keys
        invariant forall i, j | 0 <= i < j < |traffic| :: traffic[i].uuid != traffic[j].uuid
        invariant forall t :: t in traffic <==> t.uuid !in todo && IsSnapshotOf(Books(stats), minTraffic, t)
      {
        var uuid :| uuid in todo;
        var snapshot := stats[uuid].SnapshotIfAbove(minTraffic, uuid);
        if snapshot.Some? {
          traffic := traffic + [snapshot.value];
        }
        todo := todo - {uuid};
      }
    }

    method ConfirmUserTraffic(reported: seq<UserTraffic>)
      requires Valid()
      modifies this`stats, stats.Values
      ensures Valid() && Value() == Confirmed(old(Value()), reported)
      ensures stats.Values <= old(stats.Values)
    {
      if |reported| == 0 {
        return;
      }
      var byUuid, byUid := IndexReportedTraffic(reported);
      ghost var books, counters := Books(stats), stats.Values;
      var todo := stats.Keys;
      assert Books(stats) == PartlyConfirmed(books, todo, users.Keys, byUuid, byUid);
      hide PartlyConfirmed, Books, ConfirmedCounter, IndexByUuid, IndexByUid;
      while todo != {}
        invariant Valid() && todo <= books.Keys && stats.Values <= counters
        invariant Books(stats) == PartlyConfirmed(books, todo, users.Keys, byUuid, byUid)
      {
        var uuid :| uuid in todo;
        PartlyConfirmedStep(books, todo, uuid, users.Keys, byUuid, byUid);
        ConfirmCounter(uuid, byUuid, byUid);
        todo := todo - {uuid};
      }
    }

    method SubtractFromCounter(uuid: string, reported: Amount)
      requires Valid() && uuid in stats
      modifies stats[uuid]
      ensures Books(stats) == old(Books(stats))[uuid := Subtracted(old(Books(stats))[uuid], reported)]
    {
      stats[uuid].Confirm(reported);
    }

    method ApplyReport(uuid: string, byUuid: map<string, Amount>, byUid: map<int, Amount>)
      requires Valid() && uuid in stats
      modifies stats[uuid]
      ensures Books(stats) == old(Books(stats))[uuid := ConfirmedCounter(old(Books(stats))[uuid], uuid, byUuid, byUid)]
    {
      hide Subtracted;
      if uuid in byUuid {
        SubtractFromCounter(uuid, byUuid[uuid]);
      } else if stats[uuid].uid in byUid {
        SubtractFromCounter(uuid, byUid[stats[uuid].uid]);
      }
    }

    method ConfirmCounter(uuid: string, byUuid: map<string, Amount>, byUid: map<int, Amount>)
      requires Valid() && uuid in stats
      modifies this`stats, stats[uuid]
      ensures Valid() && stats.Values <= old(stats.Values)
      ensures var c := ConfirmedCounter(old(Books(stats))[uuid], uuid, byUuid, byUid);
        Books(stats) == if uuid in users || Pending(c) then old(Books(stats))[uuid := c] else old(Books(stats)) - {uuid}
    {
      hide ConfirmedCounter, Pending, Books;
      ApplyReport(uuid, byUuid, byUid);
      if uuid !in users {
        DropIfIdle(uuid);
      }
    }

    function UserByUUID(uuid: string): UserInfo
      reads this
    {
      if uuid in users then users[uuid] else UserInfo(0, "", 0, 0)
    }

    /** Lists every address of a listed user that has an open tunnel, each pair named by `origin` once. */
    method GetOnlineDevice() returns (devices: seq<OnlineUser>, ghost origin: seq<(string, string)>)
      ensures ListsDevices(users, online, devices, origin)
      ensures forall user, ip | Shown(users, online, user, ip) :: (user, ip) in origin
      ensures forall uid, ip :: OnlineUser(uid, ip) in devices
                <==> exists user :: Shown(users, online, user, ip) && users[user].id == uid
    {
      devices, origin := [], [];
      var todo := online.Keys;
      while todo != {}
        invariant todo <= online.Keys
        invariant ListsDevices(users, online, devices, origin)
        invariant forall p | p in origin :: p.0 !in todo
        invariant forall user, ip | Shown(users, online, user, ip) && user !in todo :: (user, ip) in origin
      {
        var uuid :| uuid in todo;
        todo := todo - {uuid};
        if UserByUUID(uuid).id == 0 {
          continue;
        }
        devices, origin := DevicesOfUser(uuid, devices, origin);
      }
    }

    method DevicesOfUser(uuid: string, before: seq<OnlineUser>, ghost origin0: seq<(string, string)>)
      returns (devices: seq<OnlineUser>, ghost origin: seq<(string, string)>)
      requires uuid in online && uuid in users && users[uuid].id != 0
      requires ListsDevices(users, online, before, origin0)
      requires forall p | p in origin0 :: p.0 != uuid
      ensures ListsDevices(users, online, devices, origin)
      ensures forall p :: p in origin <==> p in origin0 || (p.0 == uuid && Shown(users, online, uuid, p.1))
    {
      hide ListsDevices;
      devices, origin := before, origin0;
      var ips := online[uuid].Keys;
      while ips != {}
        invariant ips <= online[uuid].Keys
        invariant ListsDevices(users, online, devices, origin)
        invariant forall p :: p in origin <==>
          (p in origin0 || (p.0 == uuid && Shown(users, online, uuid, p.1) && p.1 !in ips))
      {
        var ip :| ip in ips;
        ips := ips - {ip};
        if online[uuid][ip] > 0 {
          OneMoreShown(users, online, devices, origin, uuid, ip);
          devices := devices + [OnlineUser(users[uuid].id, ip)];
          origin := origin + [(uuid, ip)];
        }
      }
    }

    method HandleAuthorize(user: string, ip: string) returns (response: Response)
      modifies limiter
      ensures response == Answer(old(Value()), old(limiter.Value()), user, ip)
      ensures limiter.Value() == L.Authorized(old(limiter.Value()), user, ip)
    {
      var userID := UserIDByUUID(user);
      var speedLimit, reject := limiter.Authorize(user, ip);
      if reject {
        var reason := TrafficExhausted;
        if userID == 0 {
          reason := Unauthorized;
        } else if user in users {
          reason := DeviceLimit;
        }
        return Denied(userID, reason);
      }
      return Allowed(speedLimit, userID);
    }

    method HandleRelease(user: string, ip: string)
      modifies limiter
      ensures limiter.Value() == L.Released(old(limiter.Value()), user, ip)
    {
      limiter.ReleaseIP(user, ip);
    }
  }

  predicate Shown(users: map<string, UserInfo>, online: map<string, map<string, int>>, user: string, ip: string) {
    CountOf(online, user, ip) > 0 && user in users && users[user].id != 0
  }

  ghost predicate ListsDevices(users: map<string, UserInfo>, online: map<string, map<string, int>>,
                               devices: seq<OnlineUser>, origin: seq<(string, string)>) {
    && |devices| == |origin|
    && (forall k | 0 <= k < |origin| ::
          && Shown(users, online, origin[k].0, origin[k].1)
          && devices[k] == OnlineUser(users[origin[k].0].id, origin[k].1))
    && (forall k, l | 0 <= k < l < |origin| :: origin[k] != origin[l])
  }

  lemma OneMoreShown(users: map<string, UserInfo>, online: map<string, map<string, int>>,
                     devices: seq<OnlineUser>, origin: seq<(string, string)>, user: string, ip: string)
    requires ListsDevices(users, online, devices, origin)
    requires Shown(users, online, user, ip) && (user, ip) !in origin
    ensures ListsDevices(users, online, devices + [OnlineUser(users[user].id, ip)], origin + [(user, ip)])
  {
  }

  method IndexReportedTraffic(reported: seq<UserTraffic>) returns (byUuid: map<string, Amount>, byUid: map<int, Amount>)
    ensures byUuid == IndexByUuid(reported) && byUid == IndexByUid(reported)
  {
    byUuid, byUid := map[], map[];
    for i := 0 to |reported|
      invariant byUuid == IndexByUuid(reported[..i]) && byUid == IndexByUid(reported[..i])
    {
      var traffic := reported[i];
      assert reported[..i + 1][..i] == reported[..i];
      var amount := Amount(traffic.upload, traffic.download);
      if traffic.uuid != "" {
        var before := if traffic.uuid in byUuid then byUuid[traffic.uuid] else Amount(0, 0);
        byUuid := byUuid[traffic.uuid := Plus(before, amount)];
        continue;
      }
      byUid := byUid[traffic.uid := Plus(Lookup(byUid, traffic.uid), amount)];
    }
    assert reported[..|reported|] == reported;
  }
}
