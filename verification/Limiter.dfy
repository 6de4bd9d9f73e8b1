/** The per-user device and speed limiter: admission, release, rotation and list updates. */
module Limiter {
  import opened Panel
  import opened UserList

  datatype UserLimit = UserLimit(uid: int, speedLimit: int, deviceLimit: int)

  /** The value of a limiter. A bucket is known by its rate in bytes per second. */
  datatype State = State(
    nodeSpeedLimit: int,
    alive: map<int, int>,
    online: map<string, map<string, int>>,
    cached: map<string, int>,
    limits: map<string, UserLimit>,
    buckets: map<string, int>)

  const MAPPED_PREFIX := "::ffff:"

  function Trim(ip: string): string {
    if MAPPED_PREFIX <= ip then ip[|MAPPED_PREFIX|..] else ip
  }

  /** The smaller of two limits, where zero stands for no limit. */
  function EffectiveLimit(a: int, b: int): (r: int)
    ensures a != 0 && b != 0 ==> r <= a && r <= b && r in {a, b}
    ensures a == 0 || b == 0 ==> r >= a && r >= b && r in {a, b}
  {
    if a == 0 || b == 0 then
      if a > b then a else if a < b then b else 0
    else if a > b then b
    else if a < b then a
    else a
  }

  /** Megabits per second to bytes per second. */
  function Rate(speedLimit: int): (r: int)
    ensures r * 8 == speedLimit * 1000 * 1000
  {
    speedLimit * 1000000 / 8
  }

  // ---------- the decision ----------

  predicate Has(online: map<string, map<string, int>>, uuid: string, ip: string) {
    uuid in online && ip in online[uuid]
  }

  function AliveCount(s: State, uid: int): int {
    if uid in s.alive then s.alive[uid] else 0
  }

  predicate LimitReached(s: State, info: UserLimit) {
    0 < info.deviceLimit <= AliveCount(s, info.uid)
  }

  /** The one decision rule: an unknown user is rejected, and a new address at the limit. An
      address is not new when the user is online with it or when it is cached, for anyone. */
  predicate Rejects(s: State, uuid: string, ip: string) {
    uuid !in s.limits
    || (!Has(s.online, uuid, Trim(ip)) && Trim(ip) !in s.cached && LimitReached(s, s.limits[uuid]))
  }

  /** The cache without the user's own entry for `ip`. */
  function Forget(cached: map<string, int>, ip: string, uid: int): map<string, int> {
    if ip in cached && cached[ip] == uid then cached - {ip} else cached
  }

  function DevicesOf(s: State, uuid: string): map<string, int> {
    if uuid in s.online then s.online[uuid] else map[]
  }

  function Admitted(s: State, uuid: string, ip: string): State
    requires uuid in s.limits
  {
    if Has(s.online, uuid, Trim(ip)) then s
    else s.(online := s.online[uuid := DevicesOf(s, uuid)[Trim(ip) := s.limits[uuid].uid]],
            cached := Forget(s.cached, Trim(ip), s.limits[uuid].uid))
  }

  function Authorized(s: State, uuid: string, ip: string): State {
    if Rejects(s, uuid, ip) then s else Admitted(s, uuid, ip)
  }

  function EffectiveSpeed(s: State, uuid: string): int
    requires uuid in s.limits
  {
    EffectiveLimit(s.nodeSpeedLimit, s.limits[uuid].speedLimit)
  }

  /** The check of the other engine, which trims the address itself and keeps a bucket. */
  function Checked(s: State, uuid: string, ip: string): State {
    var t := Authorized(s, uuid, Trim(ip));
    if Rejects(s, uuid, Trim(ip)) || EffectiveSpeed(s, uuid) <= 0 || uuid in s.buckets then t
    else t.(buckets := s.buckets[uuid := Rate(EffectiveSpeed(s, uuid))])
  }

  function WithoutDevice(online: map<string, map<string, int>>, uuid: string, ip: string)
    : map<string, map<string, int>>
  {
    if uuid !in online then online
    else if online[uuid] - {ip} == map[] then online - {uuid}
    else online[uuid := online[uuid] - {ip}]
  }

  function Released(s: State, uuid: string, ip: string): State {
    s.(online := WithoutDevice(s.online, uuid, Trim(ip)),
       cached := if uuid in s.limits then Forget(s.cached, Trim(ip), s.limits[uuid].uid) else s.cached)
  }

  /** `cached` holds exactly the addresses of `online`, each with the id of a user online there. */
  ghost predicate Caches(online: map<string, map<string, int>>, cached: map<string, int>) {
    && (forall uuid, ip | Has(online, uuid, ip) :: ip in cached)
    && (forall ip | ip in cached :: exists uuid :: Has(online, uuid, ip) && online[uuid][ip] == cached[ip])
  }

  ghost predicate Rotated(s: State, t: State) {
    t == s.(online := map[], cached := t.cached) && Caches(s.online, t.cached)
  }

  // ---------- user updates ----------

  function SetBucket(buckets: map<string, int>, uuid: string, speedLimit: int): map<string, int> {
    if Rate(speedLimit) <= 0 then buckets - {uuid} else buckets[uuid := Rate(speedLimit)]
  }

  function DeleteUser(s: State, user: UserInfo): State {
    s.(limits := s.limits - {user.uuid}, online := s.online - {user.uuid},
       buckets := s.buckets - {user.uuid}, alive := s.alive - {user.id})
  }

  function ModifyUser(s: State, user: UserInfo): State {
    if user.uuid !in s.limits then s
    else s.(limits := s.limits[user.uuid := UserLimit(s.limits[user.uuid].uid, user.speedLimit, user.deviceLimit)],
            buckets := SetBucket(s.buckets, user.uuid, EffectiveLimit(s.nodeSpeedLimit, user.speedLimit)))
  }

  function LimitOf(user: UserInfo): UserLimit {
    UserLimit(user.id, user.speedLimit, user.deviceLimit)
  }

  function AddUser(s: State, user: UserInfo): State {
    s.(limits := s.limits[user.uuid := LimitOf(user)],
       buckets := SetBucket(s.buckets, user.uuid, EffectiveLimit(s.nodeSpeedLimit, user.speedLimit)))
  }

  function DeleteAll(s: State, users: seq<UserInfo>): State {
    if users == [] then s else DeleteUser(DeleteAll(s, users[..|users| - 1]), users[|users| - 1])
  }

  function ModifyAll(s: State, users: seq<UserInfo>): State {
    if users == [] then s else ModifyUser(ModifyAll(s, users[..|users| - 1]), users[|users| - 1])
  }

  function AddAll(s: State, users: seq<UserInfo>): State {
    if users == [] then s else AddUser(AddAll(s, users[..|users| - 1]), users[|users| - 1])
  }

  function Updated(s: State, added: seq<UserInfo>, deleted: seq<UserInfo>, modified: seq<UserInfo>): State {
    AddAll(ModifyAll(DeleteAll(s, deleted), modified), added)
  }

  /** The limits a fresh limiter has for a list. */
  function LimitsOf(users: seq<UserInfo>): map<string, UserLimit> {
    map k | k in ByUuid(users) :: LimitOf(ByUuid(users)[k])
  }

  function Fresh(users: seq<UserInfo>, alive: map<int, int>): State {
    State(0, alive, map[], map[], LimitsOf(users), map[])
  }

  // ---------- the object ----------

  class Limiter {
    var nodeSpeedLimit: int
    var aliveList: map<int, int>
    var userOnlineIP: map<string, map<string, int>>
    var oldUserOnline: map<string, int>
    var userLimitInfo: map<string, UserLimit>
    var speedLimiter: map<string, int>

    ghost function Value(): State
      reads this
    {
      State(nodeSpeedLimit, aliveList, userOnlineIP, oldUserOnline, userLimitInfo, speedLimiter)
    }

    constructor (users: seq<UserInfo>, alive: map<int, int>)
      ensures Value() == Fresh(users, alive)
    {
      nodeSpeedLimit, aliveList := 0, alive;
      userOnlineIP, oldUserOnline, userLimitInfo, speedLimiter := map[], map[], map[], map[];
      new;
      for i := 0 to |users|
        invariant Value() == Fresh(users[..i], alive)
      {
        assert users[..i + 1][..i] == users[..i];
        var user := users[i];
        userLimitInfo := userLimitInfo[user.uuid := UserLimit(user.id, user.speedLimit, user.deviceLimit)];
        assert userLimitInfo == LimitsOf(users[..i + 1]);
      }
      assert users[..|users|] == users;
    }

    method SetAliveList(alive: map<int, int>)
      modifies this`aliveList
      ensures Value() == old(Value()).(alive := alive)
    {
      aliveList := alive;
    }

    /** Stores the address first and takes it out again on rejection. */
    method Admit(uuid: string, rawIp: string) returns (info: Option<UserLimit>)
      modifies this`userOnlineIP, this`oldUserOnline
      ensures Value() == Authorized(old(Value()), uuid, rawIp)
      ensures info == if Rejects(old(Value()), uuid, rawIp) then None else Some(userLimitInfo[uuid])
    {
      var ip := Trim(rawIp);
      if uuid !in userLimitInfo {
        return None;
      }
      var limit := userLimitInfo[uuid];
      var aliveIP := if limit.uid in aliveList then aliveList[limit.uid] else 0;
      if uuid in userOnlineIP {
        var oldMap := userOnlineIP[uuid];
        if ip !in oldMap {
          userOnlineIP := userOnlineIP[uuid := oldMap[ip := limit.uid]];
          if ip in oldUserOnline {
            if oldUserOnline[ip] == limit.uid {
              oldUserOnline := oldUserOnline - {ip};
            }
          } else if limit.deviceLimit > 0 && limit.deviceLimit <= aliveIP {
            userOnlineIP := userOnlineIP[uuid := userOnlineIP[uuid] - {ip}];
            assert userOnlineIP[uuid] == oldMap;
            return None;
          }
        }
      } else {
        userOnlineIP := userOnlineIP[uuid := map[ip := limit.uid]];
        if ip in oldUserOnline {
          if oldUserOnline[ip] == limit.uid {
            oldUserOnline := oldUserOnline - {ip};
          }
        } else if limit.deviceLimit > 0 && limit.deviceLimit <= aliveIP {
          userOnlineIP := userOnlineIP - {uuid};
          return None;
        }
      }
      return Some(limit);
    }

    method Authorize(uuid: string, ip: string) returns (speedLimit: int, reject: bool)
      modifies this`userOnlineIP, this`oldUserOnline
      ensures Value() == Authorized(old(Value()), uuid, ip)
      ensures reject == Rejects(old(Value()), uuid, ip)
      ensures speedLimit == if reject then 0 else EffectiveSpeed(old(Value()), uuid)
    {
      var info := Admit(uuid, ip);
      if info.None? {
        return 0, true;
      }
      return EffectiveLimit(nodeSpeedLimit, info.value.speedLimit), false;
    }

    method CheckLimit(uuid: string, rawIp: string) returns (bucket: Option<int>, reject: bool)
      modifies this`userOnlineIP, this`oldUserOnline, this`speedLimiter
      ensures Value() == Checked(old(Value()), uuid, rawIp)
      ensures reject == Rejects(old(Value()), uuid, Trim(rawIp))
      ensures bucket == if reject || EffectiveSpeed(old(Value()), uuid) <= 0 then None else Some(speedLimiter[uuid])
    {
      var speedLimit;
      speedLimit, reject := Authorize(uuid, Trim(rawIp));
      if reject {
        return None, true;
      }
      if speedLimit <= 0 {
        return None, false;
      }
      if uuid !in speedLimiter {
        speedLimiter := speedLimiter[uuid := speedLimit * 1000000 / 8];
      }
      return Some(speedLimiter[uuid]), false;
    }

    method ReleaseIP(uuid: string, rawIp: string)
      modifies this`userOnlineIP, this`oldUserOnline
      ensures Value() == Released(old(Value()), uuid, rawIp)
    {
      var ip := Trim(rawIp);
      if uuid in userOnlineIP {
        userOnlineIP := userOnlineIP[uuid := userOnlineIP[uuid] - {ip}];
        if userOnlineIP[uuid] == map[] {
          userOnlineIP := userOnlineIP - {uuid};
        }
      }
      if ip in oldUserOnline && uuid in userLimitInfo {
        if oldUserOnline[ip] == userLimitInfo[uuid].uid {
          oldUserOnline := oldUserOnline - {ip};
        }
      }
    }

    method UpdateBucket(uuid: string, speedLimit: int)
      modifies this`speedLimiter
      ensures speedLimiter == SetBucket(old(speedLimiter), uuid, speedLimit)
    {
      var limit := speedLimit * 1000000 / 8;
      if limit <= 0 {
        speedLimiter := speedLimiter - {uuid};
        return;
      }
      speedLimiter := speedLimiter[uuid := limit];
    }

    method UpdateUsers(added: seq<UserInfo>, deleted: seq<UserInfo>, modified: seq<UserInfo>)
      modifies this
      ensures Value() == Updated(old(Value()), added, deleted, modified)
    {
      ghost var s := Value();
      for i := 0 to |deleted|
        invariant Value() == DeleteAll(s, deleted[..i])
      {
        var user := deleted[i];
        assert deleted[..i + 1][..i] == deleted[..i];
        userLimitInfo := userLimitInfo - {user.uuid};
        userOnlineIP := userOnlineIP - {user.uuid};
        speedLimiter := speedLimiter - {user.uuid};
        aliveList := aliveList - {user.id};
      }
      assert deleted[..|deleted|] == deleted;
      s := Value();
      for i := 0 to |modified|
        invariant Value() == ModifyAll(s, modified[..i])
      {
        var user := modified[i];
        assert modified[..i + 1][..i] == modified[..i];
        if user.uuid in userLimitInfo {
          var info := userLimitInfo[user.uuid].(speedLimit := user.speedLimit, deviceLimit := user.deviceLimit);
          userLimitInfo := userLimitInfo[user.uuid := info];
          UpdateBucket(user.uuid, EffectiveLimit(nodeSpeedLimit, user.speedLimit));
        }
      }
      assert modified[..|modified|] == modified;
      s := Value();
      for i := 0 to |added|
        invariant Value() == AddAll(s, added[..i])
      {
        var user := added[i];
        assert added[..i + 1][..i] == added[..i];
        userLimitInfo := userLimitInfo[user.uuid := UserLimit(user.id, user.speedLimit, user.deviceLimit)];
        UpdateBucket(user.uuid, EffectiveLimit(nodeSpeedLimit, user.speedLimit));
      }
      assert added[..|added|] == added;
    }

    /** Reports every online device once, in the order of `origin`, and starts a new window. */
    method GetOnlineDevice() returns (users: seq<OnlineUser>, ghost origin: seq<(string, string)>)
      modifies this`userOnlineIP, this`oldUserOnline
      ensures Rotated(old(Value()), Value())
      ensures Flattens(old(userOnlineIP), users, origin)
      ensures forall uuid, ip | Has(old(userOnlineIP), uuid, ip) :: (uuid, ip) in origin
    {
      users, origin := [], [];
      oldUserOnline := map[];
      ghost var online := userOnlineIP;
      while userOnlineIP != map[]
        invariant userOnlineIP.Keys <= online.Keys && forall u | u in userOnlineIP :: userOnlineIP[u] == online[u]
        invariant Flattens(online, users, origin)
        invariant forall u, ip | Has(online, u, ip) :: (u, ip) in origin <==> u !in userOnlineIP
        invariant CachesOrigin(online, oldUserOnline, origin)
        decreases userOnlineIP.Keys
      {
        var uuid :| uuid in userOnlineIP;
        users, origin := DrainUser(uuid, users, online, origin);
        userOnlineIP := userOnlineIP - {uuid};
      }
    }

    method DrainUser(uuid: string, before: seq<OnlineUser>, ghost online: map<string, map<string, int>>,
                     ghost origin0: seq<(string, string)>)
      returns (users: seq<OnlineUser>, ghost origin: seq<(string, string)>)
      requires uuid in userOnlineIP && uuid in online && userOnlineIP[uuid] == online[uuid]
      requires Flattens(online, before, origin0) && CachesOrigin(online, oldUserOnline, origin0)
      requires forall ip | ip in online[uuid] :: (uuid, ip) !in origin0
      modifies this`oldUserOnline
      ensures Flattens(online, users, origin) && CachesOrigin(online, oldUserOnline, origin)
      ensures forall p :: p in origin <==> p in origin0 || (p.0 == uuid && p.1 in online[uuid])
    {
      hide Flattens, CachesOrigin;
      users, origin := before, origin0;
      var ipMap := userOnlineIP[uuid];
      while ipMap != map[]
        invariant ipMap.Keys <= online[uuid].Keys && forall ip | ip in ipMap :: ipMap[ip] == online[uuid][ip]
        invariant Flattens(online, users, origin) && CachesOrigin(online, oldUserOnline, origin)
        invariant forall p :: p in origin <==> p in origin0 || (p.0 == uuid && p.1 in online[uuid] && p.1 !in ipMap)
        decreases ipMap.Keys
      {
        var ip :| ip in ipMap;
        OneMoreDevice(online, oldUserOnline, users, origin, uuid, ip);
        oldUserOnline := oldUserOnline[ip := ipMap[ip]];
        users := users + [OnlineUser(ipMap[ip], ip)];
        origin := origin + [(uuid, ip)];
        ipMap := ipMap - {ip};
      }
    }
  }

  /** `users` lists the devices named by `origin`, none of them twice. */
  ghost predicate Flattens(online: map<string, map<string, int>>, users: seq<OnlineUser>,
                           origin: seq<(string, string)>)
  {
    && |users| == |origin|
    && (forall k | 0 <= k < |origin| ::
          && Has(online, origin[k].0, origin[k].1)
          && users[k] == OnlineUser(online[origin[k].0][origin[k].1], origin[k].1))
    && (forall k, l | 0 <= k < l < |origin| :: origin[k] != origin[l])
  }

  ghost predicate CachesOrigin(online: map<string, map<string, int>>, cached: map<string, int>,
                               origin: seq<(string, string)>)
  {
    && (forall p | p in origin :: p.1 in cached)
    && (forall ip | ip in cached :: exists uuid :: Has(online, uuid, ip) && online[uuid][ip] == cached[ip])
  }

  lemma OneMoreDevice(online: map<string, map<string, int>>, cached: map<string, int>,
                      users: seq<OnlineUser>, origin: seq<(string, string)>, uuid: string, ip: string)
    requires Flattens(online, users, origin) && CachesOrigin(online, cached, origin)
    requires Has(online, uuid, ip) && (uuid, ip) !in origin
    ensures Flattens(online, users + [OnlineUser(online[uuid][ip], ip)], origin + [(uuid, ip)])
    ensures CachesOrigin(online, cached[ip := online[uuid][ip]], origin + [(uuid, ip)])
  {
  }
}
