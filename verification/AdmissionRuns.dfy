/** What holds of the limiter over whole runs: any sequence of requests, releases, window
    rotations, list updates and alive lists. */
module AdmissionRuns {
  import opened Panel
  import opened UserList
  import opened Limiter

  datatype Op =
    | Authorize(uuid: string, ip: string)
    | CheckLimit(uuid: string, ip: string)
    | Release(uuid: string, ip: string)
    | Rotate
    | Update(added: seq<UserInfo>, deleted: seq<UserInfo>, modified: seq<UserInfo>)
    | SetAlive(alive: map<int, int>)

  ghost predicate Next(s: State, op: Op, t: State) {
    match op
    case Authorize(uuid, ip) => t == Authorized(s, uuid, ip)
    case CheckLimit(uuid, ip) => t == Checked(s, uuid, ip)
    case Release(uuid, ip) => t == Released(s, uuid, ip)
    case Rotate => Rotated(s, t)
    case Update(added, deleted, modified) => t == Updated(s, added, deleted, modified)
    case SetAlive(alive) => t == s.(alive := alive)
  }

  ghost predicate IsRun(states: seq<State>, ops: seq<Op>) {
    |states| == |ops| + 1
    && forall i | 0 <= i < |ops| :: Next(states[i], ops[i], states[i + 1])
  }

  // ---------- what every reachable state is like ----------

  /** Online users are listed, none has an empty device map, and each bucket belongs to a listed
      user at exactly the rate of the user's effective limit. */
  ghost predicate WellFormed(s: State) {
    && (forall uuid | uuid in s.online :: uuid in s.limits && s.online[uuid] != map[])
    && (forall uuid | uuid in s.buckets ::
          uuid in s.limits && s.buckets[uuid] == Rate(EffectiveSpeed(s, uuid)) > 0)
  }

  lemma {:induction false} DeleteAllFacts(s: State, users: seq<UserInfo>)
    ensures var t := DeleteAll(s, users);
      && t.limits == s.limits - Uuids(users)
      && t.online == s.online - Uuids(users)
      && t.buckets == s.buckets - Uuids(users)
      && t.cached == s.cached && t.nodeSpeedLimit == s.nodeSpeedLimit
  {
    if users == [] {
      assert Uuids(users) == {};
    } else {
      var init, last := users[..|users| - 1], users[|users| - 1];
      DeleteAllFacts(s, init);
      UuidsAppend(init, last);
      assert users == init + [last];
    }
  }

  lemma {:induction false} DeleteAllAlive(s: State, users: seq<UserInfo>)
    ensures DeleteAll(s, users).alive == s.alive - set u | u in users :: u.id
  {
    if users == [] {
      assert (set u | u in users :: u.id) == {};
    } else {
      var init, last := users[..|users| - 1], users[|users| - 1];
      DeleteAllAlive(s, init);
      assert users == init + [last];
      assert (set u | u in users :: u.id) == (set u | u in init :: u.id) + {last.id};
    }
  }

  lemma {:induction false} ModifyAllFacts(s: State, users: seq<UserInfo>)
    ensures var t := ModifyAll(s, users);
      && t.limits.Keys == s.limits.Keys
      && t.online == s.online && t.cached == s.cached
      && t.alive == s.alive && t.nodeSpeedLimit == s.nodeSpeedLimit
      && (WellFormed(s) ==> WellFormed(t))
  {
    if users != [] {
      hide ModifyUser, WellFormed;
      ModifyAllFacts(s, users[..|users| - 1]);
      ModifyUserFacts(ModifyAll(s, users[..|users| - 1]), users[|users| - 1]);
    }
  }

  lemma ModifyUserFacts(s: State, user: UserInfo)
    ensures var t := ModifyUser(s, user);
      && t.limits.Keys == s.limits.Keys
      && t.online == s.online && t.cached == s.cached
      && t.alive == s.alive && t.nodeSpeedLimit == s.nodeSpeedLimit
      && (WellFormed(s) ==> WellFormed(t))
  {
  }

  lemma {:induction false} AddAllFacts(s: State, users: seq<UserInfo>)
    ensures var t := AddAll(s, users);
      && t.limits.Keys == s.limits.Keys + Uuids(users)
      && t.online == s.online && t.cached == s.cached
      && t.alive == s.alive && t.nodeSpeedLimit == s.nodeSpeedLimit
      && (WellFormed(s) ==> WellFormed(t))
  {
    if users == [] {
      assert Uuids(users) == {};
    } else {
      hide AddUser, WellFormed, Uuids;
      var init, last := users[..|users| - 1], users[|users| - 1];
      AddAllFacts(s, init);
      AddUserFacts(AddAll(s, init), last);
      UuidsAppend(init, last);
      assert users == init + [last];
    }
  }

  lemma AddUserFacts(s: State, user: UserInfo)
    ensures var t := AddUser(s, user);
      && t.limits.Keys == s.limits.Keys + {user.uuid}
      && t.online == s.online && t.cached == s.cached
      && t.alive == s.alive && t.nodeSpeedLimit == s.nodeSpeedLimit
      && (WellFormed(s) ==> WellFormed(t))
  {
  }

  lemma {:induction false} AddAllBuckets(s: State, users: seq<UserInfo>, k: string)
    ensures k in AddAll(s, users).buckets
       <==> if k in ByUuid(users) then EffectiveLimit(s.nodeSpeedLimit, ByUuid(users)[k].speedLimit) > 0
            else k in s.buckets
    ensures AddAll(s, users).nodeSpeedLimit == s.nodeSpeedLimit
  {
    if users != [] {
      AddAllBuckets(s, users[..|users| - 1], k);
    }
  }

  lemma {:induction false} ModifyAllBuckets(s: State, users: seq<UserInfo>, k: string)
    requires k in s.limits
    ensures k in ModifyAll(s, users).limits
    ensures k in ModifyAll(s, users).buckets
       <==> if k in ByUuid(users) then EffectiveLimit(s.nodeSpeedLimit, ByUuid(users)[k].speedLimit) > 0
            else k in s.buckets
    ensures ModifyAll(s, users).nodeSpeedLimit == s.nodeSpeedLimit
  {
    if users != [] {
      ModifyAllBuckets(s, users[..|users| - 1], k);
    }
  }

  /** After an update an added or modified user has a bucket exactly when a speed limit applies. */
  lemma UpdateSetsBuckets(s: State, added: seq<UserInfo>, deleted: seq<UserInfo>, modified: seq<UserInfo>, k: string)
    requires k in ByUuid(added) || (k in ByUuid(modified) && k in s.limits && k !in Uuids(deleted))
    ensures var user := if k in ByUuid(added) then ByUuid(added)[k] else ByUuid(modified)[k];
      k in Updated(s, added, deleted, modified).buckets <==> EffectiveLimit(s.nodeSpeedLimit, user.speedLimit) > 0
  {
    var s1 := DeleteAll(s, deleted);
    DeleteAllFacts(s, deleted);
    ModifyAllFacts(s1, modified);
    AddAllBuckets(ModifyAll(s1, modified), added, k);
    if k !in ByUuid(added) {
      ModifyAllBuckets(s1, modified, k);
    }
  }

  lemma UpdatedFacts(s: State, added: seq<UserInfo>, deleted: seq<UserInfo>, modified: seq<UserInfo>)
    ensures var t := Updated(s, added, deleted, modified);
      && t.limits.Keys == s.limits.Keys - Uuids(deleted) + Uuids(added)
      && t.online == s.online - Uuids(deleted)
      && t.cached == s.cached && t.nodeSpeedLimit == s.nodeSpeedLimit
      && t.alive == s.alive - (set u | u in deleted :: u.id)
      && (WellFormed(s) ==> WellFormed(t))
  {
    var s1 := DeleteAll(s, deleted);
    DeleteAllAlive(s, deleted);
    DeleteAllFacts(s, deleted);
    ModifyAllFacts(s1, modified);
    AddAllFacts(ModifyAll(s1, modified), added);
  }

  /** Admission adds the device, if it is admitted, and touches no other. */
  lemma AuthorizedFacts(s: State, uuid: string, ip: string)
    ensures var t := Authorized(s, uuid, ip);
      && (forall u, i :: Has(t.online, u, i)
            <==> (Has(s.online, u, i) || (u == uuid && i == Trim(ip) && !Rejects(s, uuid, ip))))
      && (forall i | i in s.cached && i != Trim(ip) :: i in t.cached)
      && (WellFormed(s) ==> WellFormed(t))
  {
    var t := Authorized(s, uuid, ip);
    if !Rejects(s, uuid, ip) && !Has(s.online, uuid, Trim(ip)) {
      assert t.online[uuid] == DevicesOf(s, uuid)[Trim(ip) := s.limits[uuid].uid];
      assert Trim(ip) in t.online[uuid];
    }
  }

  /** Release takes the device away and touches no other. */
  lemma ReleasedFacts(s: State, uuid: string, ip: string)
    ensures var t := Released(s, uuid, ip);
      && (forall u, i :: Has(t.online, u, i) <==> (Has(s.online, u, i) && !(u == uuid && i == Trim(ip))))
      && (forall i | i in s.cached && i != Trim(ip) :: i in t.cached)
      && (WellFormed(s) ==> WellFormed(t))
  {
    if uuid in s.online {
      var rest := s.online[uuid] - {Trim(ip)};
      assert forall i :: i in s.online[uuid] && i != Trim(ip) <==> i in rest;
    }
  }

  lemma StepKeepsWellFormed(s: State, op: Op, t: State)
    requires WellFormed(s) && Next(s, op, t)
    ensures WellFormed(t)
  {
    match op
    case Update(added, deleted, modified) => UpdatedFacts(s, added, deleted, modified);
    case Authorize(u, i) => AuthorizedFacts(s, u, i);
    case CheckLimit(u, i) => AuthorizedFacts(s, u, Trim(i));
    case Release(u, i) => ReleasedFacts(s, u, i);
    case _ =>
  }

  lemma {:induction false} RunKeepsWellFormed(states: seq<State>, ops: seq<Op>, i: nat)
    requires IsRun(states, ops) && WellFormed(states[0]) && i < |states|
    ensures WellFormed(states[i])
  {
    if i > 0 {
      RunKeepsWellFormed(states, ops, i - 1);
      StepKeepsWellFormed(states[i - 1], ops[i - 1], states[i]);
    }
  }

  /** A fresh limiter starts a run in which every state is well formed, and the bucket that a
      checked request of a speed-limited user gets runs at exactly that user's limit. */
  lemma ReachableIsWellFormed(users: seq<UserInfo>, alive: map<int, int>, states: seq<State>, ops: seq<Op>, i: nat)
    requires IsRun(states, ops) && states[0] == Fresh(users, alive) && i < |states|
    ensures WellFormed(states[i])
    ensures i < |ops| && ops[i].CheckLimit? && !Rejects(states[i], ops[i].uuid, Trim(ops[i].ip))
            && EffectiveSpeed(states[i], ops[i].uuid) > 0
            ==> ops[i].uuid in states[i + 1].buckets
                && states[i + 1].buckets[ops[i].uuid] == Rate(EffectiveSpeed(states[i], ops[i].uuid))
  {
    RunKeepsWellFormed(states, ops, i);
  }

  // ---------- under whose id ----------

  /** Every user is known under one id, and every device is stored under its user's. */
  ghost predicate OwnIds(s: State, ids: map<string, int>) {
    && (forall u | u in s.limits :: u in ids && s.limits[u].uid == ids[u])
    && (forall u, i | Has(s.online, u, i) :: u in ids && s.online[u][i] == ids[u])
  }

  ghost predicate Identified(users: seq<UserInfo>, ids: map<string, int>) {
    forall u | u in users :: u.uuid in ids && ids[u.uuid] == u.id
  }

  ghost predicate KeepsIds(op: Op, ids: map<string, int>) {
    op.Update? ==> Identified(op.added, ids)
  }

  lemma {:induction false} DeleteAllIds(s: State, users: seq<UserInfo>, ids: map<string, int>)
    requires OwnIds(s, ids)
    ensures OwnIds(DeleteAll(s, users), ids)
  {
    if users != [] {
      DeleteAllIds(s, users[..|users| - 1], ids);
    }
  }

  lemma {:induction false} ModifyAllIds(s: State, users: seq<UserInfo>, ids: map<string, int>)
    requires OwnIds(s, ids)
    ensures OwnIds(ModifyAll(s, users), ids)
  {
    if users != [] {
      ModifyAllIds(s, users[..|users| - 1], ids);
    }
  }

  lemma {:induction false} AddAllIds(s: State, users: seq<UserInfo>, ids: map<string, int>)
    requires OwnIds(s, ids) && Identified(users, ids)
    ensures OwnIds(AddAll(s, users), ids)
  {
    if users != [] {
      assert users[|users| - 1] in users;
      AddAllIds(s, users[..|users| - 1], ids);
    }
  }

  lemma AuthorizedIds(s: State, uuid: string, ip: string, ids: map<string, int>)
    requires OwnIds(s, ids)
    ensures OwnIds(Authorized(s, uuid, ip), ids)
    ensures var cached := Authorized(s, uuid, ip).cached;
      forall i | i in cached :: i in s.cached && cached[i] == s.cached[i]
  {
    var t := Authorized(s, uuid, ip);
    forall u, i | Has(t.online, u, i)
      ensures u in ids && t.online[u][i] == ids[u]
    {
      if !(u == uuid && i == Trim(ip)) {
        assert Has(s.online, u, i) && t.online[u][i] == s.online[u][i] by { AuthorizedFacts(s, uuid, ip); }
      }
    }
  }

  lemma ReleasedIds(s: State, uuid: string, ip: string, ids: map<string, int>)
    requires OwnIds(s, ids)
    ensures OwnIds(Released(s, uuid, ip), ids)
    ensures var cached := Released(s, uuid, ip).cached;
      forall i | i in cached :: i in s.cached && cached[i] == s.cached[i]
  {
    ReleasedFacts(s, uuid, ip);
  }

  lemma StepKeepsIds(s: State, op: Op, t: State, ids: map<string, int>)
    requires Next(s, op, t) && OwnIds(s, ids) && KeepsIds(op, ids)
    ensures OwnIds(t, ids)
    ensures !op.Rotate? ==> forall i | i in t.cached :: i in s.cached && t.cached[i] == s.cached[i]
  {
    hide OwnIds, Authorized, Released;
    match op
    case Update(added, deleted, modified) =>
      UpdatedFacts(s, added, deleted, modified);
      DeleteAllIds(s, deleted, ids);
      ModifyAllIds(DeleteAll(s, deleted), modified, ids);
      AddAllIds(ModifyAll(DeleteAll(s, deleted), modified), added, ids);
    case Authorize(u, i) => AuthorizedIds(s, u, i, ids);
    case CheckLimit(u, i) =>
      AuthorizedIds(s, u, Trim(i), ids);
      SameMaps(Authorized(s, u, Trim(i)), t, ids);
    case Release(u, i) => ReleasedIds(s, u, i, ids);
    case SetAlive(_) => SameMaps(s, t, ids);
    case Rotate => RotatedIds(s, t, ids);
  }

  lemma SameMaps(s: State, t: State, ids: map<string, int>)
    requires OwnIds(s, ids) && t.limits == s.limits && t.online == s.online
    ensures OwnIds(t, ids)
  {
  }

  lemma RotatedIds(s: State, t: State, ids: map<string, int>)
    requires OwnIds(s, ids) && Rotated(s, t)
    ensures OwnIds(t, ids)
  {
  }

  /** The address is cached under the id of a user who was online there at some rotation before. */
  ghost predicate WasThere(states: seq<State>, ops: seq<Op>, ids: map<string, int>, i: nat, ip: string, uid: int) {
    exists k: nat, u: string ::
      k < i && k < |ops| && k < |states| && ops[k].Rotate? && Has(states[k].online, u, ip) && u in ids && ids[u] == uid
  }

  /** In every run from a fresh limiter in which a uuid keeps its id, every device is stored under the id
      of its own user, and every address is cached under the id of a user who was online there. */
  lemma {:induction false} DevicesUnderOwnIds(users: seq<UserInfo>, alive: map<int, int>, states: seq<State>,
                                              ops: seq<Op>, ids: map<string, int>, i: nat)
    requires IsRun(states, ops) && states[0] == Fresh(users, alive) && i < |states|
    requires Identified(users, ids) && forall k | 0 <= k < i :: KeepsIds(ops[k], ids)
    ensures OwnIds(states[i], ids)
    ensures forall ip | ip in states[i].cached :: WasThere(states, ops, ids, i, ip, states[i].cached[ip])
  {
    if i == 0 {
      ByUuidKeys(users);
    } else {
      DevicesUnderOwnIds(users, alive, states, ops, ids, i - 1);
      var s, op, t := states[i - 1], ops[i - 1], states[i];
      assert Next(s, op, t);
      StepKeepsIds(s, op, t, ids);
      forall ip | ip in t.cached
        ensures WasThere(states, ops, ids, i, ip, t.cached[ip])
      {
        if op.Rotate? {
          var u :| Has(s.online, u, ip) && s.online[u][ip] == t.cached[ip];
          assert i - 1 < i && ops[i - 1].Rotate? && Has(states[i - 1].online, u, ip);
        } else {
          WasThereStill(states, ops, ids, i, ip, t.cached[ip]);
        }
      }
    }
  }

  lemma WasThereStill(states: seq<State>, ops: seq<Op>, ids: map<string, int>, i: nat, ip: string, uid: int)
    requires i > 0 && WasThere(states, ops, ids, i - 1, ip, uid)
    ensures WasThere(states, ops, ids, i, ip, uid)
  {
  }

  /** So every device is reported under the id of the user it belongs to. */
  lemma ReportedUnderOwnIds(s: State, ids: map<string, int>, users: seq<OnlineUser>, origin: seq<(string, string)>)
    requires OwnIds(s, ids) && Flattens(s.online, users, origin)
    ensures |users| == |origin|
    ensures forall k | 0 <= k < |users| ::
      origin[k].0 in ids && users[k] == OnlineUser(ids[origin[k].0], origin[k].1)
  {
  }

  /** An address in the mapped form counts as the plain one, and any other address only as itself. */
  lemma MappedFormIsPlain(s: State, uuid: string, ip: string, other: string)
    requires !(MAPPED_PREFIX <= ip) && !(MAPPED_PREFIX <= other)
    ensures Rejects(s, uuid, "::ffff:" + ip) == Rejects(s, uuid, ip)
    ensures Authorized(s, uuid, "::ffff:" + ip) == Authorized(s, uuid, ip)
    ensures Released(s, uuid, "::ffff:" + ip) == Released(s, uuid, ip)
    ensures !Rejects(s, uuid, ip) ==> Has(Authorized(s, uuid, ip).online, uuid, ip)
    ensures other != ip ==> (Has(Authorized(s, uuid, ip).online, uuid, other) <==> Has(s.online, uuid, other))
  {
    assert ("::ffff:" + ip)[|MAPPED_PREFIX|..] == ip;
    assert Trim("::ffff:" + ip) == ip == Trim(ip);
    hide Trim;
    AuthorizedFacts(s, uuid, ip);
  }

  // ---------- admission and release ----------

  /** Releasing a newly admitted device takes back the admission; only the user's own cache entry
      for the address, which admission used up, stays gone. */
  lemma ReleaseUndoesAdmission(s: State, uuid: string, ip: string)
    requires WellFormed(s) && !Rejects(s, uuid, ip) && !Has(s.online, uuid, Trim(ip))
    ensures Released(Authorized(s, uuid, ip), uuid, ip)
            == s.(cached := Forget(s.cached, Trim(ip), s.limits[uuid].uid))
  {
    var t := Authorized(s, uuid, ip);
    assert t.online[uuid] - {Trim(ip)} == DevicesOf(s, uuid);
    assert Released(t, uuid, ip).online == s.online;
  }

  /** Nothing in `op` ends the admission of the pair. */
  predicate Keeps(op: Op, uuid: string, ip: string) {
    match op
    case Release(u, i) => u != uuid || Trim(i) != Trim(ip)
    case Rotate => false
    case Update(_, deleted, _) => uuid !in Uuids(deleted)
    case _ => true
  }

  lemma StepKeepsDevice(s: State, op: Op, t: State, uuid: string, ip: string)
    requires Next(s, op, t) && Keeps(op, uuid, ip)
    requires uuid in s.limits && Has(s.online, uuid, Trim(ip))
    ensures uuid in t.limits && Has(t.online, uuid, Trim(ip))
  {
    match op
    case Update(added, deleted, modified) => UpdatedFacts(s, added, deleted, modified);
    case Authorize(u, i) => AuthorizedFacts(s, u, i);
    case CheckLimit(u, i) => AuthorizedFacts(s, u, Trim(i));
    case Release(u, i) => ReleasedFacts(s, u, i);
    case _ =>
  }

  /** Once admitted, a device stays admitted: asking again is accepted and changes nothing, until
      the pair is released, the user deleted or the window rotated, whatever else happens. */
  lemma {:induction false} AdmissionIsStable(states: seq<State>, ops: seq<Op>, uuid: string, ip: string, i: nat)
    requires IsRun(states, ops) && i < |ops|
    requires ops[0] == Authorize(uuid, ip) && !Rejects(states[0], uuid, ip)
    requires forall k | 0 < k <= i :: Keeps(ops[k], uuid, ip)
    ensures !Rejects(states[i + 1], uuid, ip)
    ensures Authorized(states[i + 1], uuid, ip) == states[i + 1]
  {
    DeviceStays(states, ops, uuid, ip, i);
  }

  lemma {:induction false} DeviceStays(states: seq<State>, ops: seq<Op>, uuid: string, ip: string, i: nat)
    requires IsRun(states, ops) && i < |ops|
    requires ops[0] == Authorize(uuid, ip) && !Rejects(states[0], uuid, ip)
    requires forall k | 0 < k <= i :: Keeps(ops[k], uuid, ip)
    ensures uuid in states[i + 1].limits && Has(states[i + 1].online, uuid, Trim(ip))
  {
    assert Next(states[i], ops[i], states[i + 1]);
    if i > 0 {
      DeviceStays(states, ops, uuid, ip, i - 1);
      StepKeepsDevice(states[i], ops[i], states[i + 1], uuid, ip);
    }
  }

  // ---------- windows ----------

  /** The device asks to be let in. */
  predicate Returns(op: Op, uuid: string, ip: string) {
    match op
    case Authorize(u, i) => u == uuid && Trim(i) == Trim(ip)
    case CheckLimit(u, i) => u == uuid && Trim(Trim(i)) == Trim(ip)
    case _ => false
  }

  /** The device is admitted at `ops[k]`, and nothing up to `ops[i]` ends that. */
  ghost predicate AdmittedFrom(states: seq<State>, ops: seq<Op>, uuid: string, ip: string, k: nat, i: nat)
    requires i <= |ops| < |states|
  {
    && k < i && Returns(ops[k], uuid, ip) && !Rejects(states[k], uuid, ip)
    && forall j | k < j < i :: Keeps(ops[j], uuid, ip)
  }

  lemma StepRegisters(s: State, op: Op, t: State, uuid: string, ip: string)
    requires Next(s, op, t)
    ensures Has(t.online, uuid, Trim(ip))
            <==> (|| (Has(s.online, uuid, Trim(ip)) && Keeps(op, uuid, ip))
                  || (Returns(op, uuid, ip) && !Rejects(s, uuid, ip)))
  {
    match op
    case Update(added, deleted, modified) => UpdatedFacts(s, added, deleted, modified);
    case Authorize(u, i) => AuthorizedFacts(s, u, i);
    case CheckLimit(u, i) => AuthorizedFacts(s, u, Trim(i));
    case Release(u, i) => ReleasedFacts(s, u, i);
    case _ =>
  }

  /** In every run a device is online exactly when some request of its own was accepted and the pair was
      not released, its user not deleted and the window not rotated since, or it was online at the
      start and none of these came. */
  lemma {:induction false} OnlineIffAdmittedSince(states: seq<State>, ops: seq<Op>, uuid: string, ip: string, i: nat)
    requires IsRun(states, ops) && i < |states|
    ensures Has(states[i].online, uuid, Trim(ip))
       <==> (|| (Has(states[0].online, uuid, Trim(ip)) && forall j | 0 <= j < i :: Keeps(ops[j], uuid, ip))
             || exists k: nat :: AdmittedFrom(states, ops, uuid, ip, k, i))
  {
    if i > 0 {
      hide Has, Keeps, Returns, Rejects;
      OnlineIffAdmittedSince(states, ops, uuid, ip, i - 1);
      assert Next(states[i - 1], ops[i - 1], states[i]);
      StepRegisters(states[i - 1], ops[i - 1], states[i], uuid, ip);
      forall k: nat
        ensures AdmittedFrom(states, ops, uuid, ip, k, i)
                <==> (|| (AdmittedFrom(states, ops, uuid, ip, k, i - 1) && Keeps(ops[i - 1], uuid, ip))
                      || (k == i - 1 && Returns(ops[k], uuid, ip) && !Rejects(states[k], uuid, ip)))
      {
      }
      if Returns(ops[i - 1], uuid, ip) && !Rejects(states[i - 1], uuid, ip) {
        assert AdmittedFrom(states, ops, uuid, ip, i - 1, i);
      }
    }
  }

  /** Whether the device has been back since the last rotation before `ops[i]`; it has at the start. */
  predicate BackInWindow(ops: seq<Op>, uuid: string, ip: string, i: nat)
    requires i <= |ops|
  {
    i == 0
    || Returns(ops[i - 1], uuid, ip)
    || (!ops[i - 1].Rotate? && BackInWindow(ops, uuid, ip, i - 1))
  }

  /** The user named by the request holds the id under which the address is cached. */
  predicate OwnsEntry(s: State, u: string, ip: string) {
    Trim(ip) in s.cached && u in s.limits && s.cached[Trim(ip)] == s.limits[u].uid
  }

  /** The operation uses up the cache entry of the address: a request from there by a user who is
      not online there, or a release of it, when that user holds the id of the entry. */
  predicate Spends(s: State, op: Op, ip: string) {
    match op
    case Authorize(u, i) => Trim(i) == Trim(ip) && OwnsEntry(s, u, ip) && !Has(s.online, u, Trim(ip))
    case CheckLimit(u, i) => Trim(Trim(i)) == Trim(ip) && OwnsEntry(s, u, ip) && !Has(s.online, u, Trim(ip))
    case Release(u, i) => Trim(i) == Trim(ip) && OwnsEntry(s, u, ip)
    case _ => false
  }

  /** Whether an operation has used the entry up since the last rotation before `ops[i]`. */
  predicate Spent(states: seq<State>, ops: seq<Op>, ip: string, i: nat)
    requires i <= |ops| < |states|
  {
    i > 0 && !ops[i - 1].Rotate? && (Spends(states[i - 1], ops[i - 1], ip) || Spent(states, ops, ip, i - 1))
  }

  /** Between rotations an address leaves the cache exactly when its entry is used up, and none is added. */
  lemma CachedUntilSpent(s: State, op: Op, t: State, ip: string)
    requires Next(s, op, t) && !op.Rotate?
    ensures Trim(ip) in t.cached <==> Trim(ip) in s.cached && !Spends(s, op, ip)
  {
    match op
    case Update(added, deleted, modified) => UpdatedFacts(s, added, deleted, modified);
    case _ =>
  }

  /** The user stays listed, the pair is released only while the device is away, and the window is
      rotated only when the device is back. */
  ghost predicate Stays(ops: seq<Op>, uuid: string, ip: string, k: nat)
    requires k < |ops|
  {
    match ops[k]
    case Update(_, deleted, _) => uuid !in Uuids(deleted)
    case Release(u, i) => u == uuid && Trim(i) == Trim(ip) ==> !BackInWindow(ops, uuid, ip, k)
    case Rotate => BackInWindow(ops, uuid, ip, k)
    case _ => true
  }

  /** The device is away, its cache entry is used up, and the user is at the limit. */
  ghost predicate ShutOut(states: seq<State>, ops: seq<Op>, uuid: string, ip: string, k: nat)
    requires k <= |ops| < |states|
  {
    && !BackInWindow(ops, uuid, ip, k) && Spent(states, ops, ip, k)
    && uuid in states[k].limits && LimitReached(states[k], states[k].limits[uuid])
  }

  /** A listed device is online when it has been back; otherwise it is not, and its address is
      cached unless its entry was used up. */
  ghost predicate Known(s: State, uuid: string, ip: string, back: bool, spent: bool) {
    && uuid in s.limits
    && (Has(s.online, uuid, Trim(ip)) <==> back)
    && (!back ==> (Trim(ip) in s.cached <==> !spent))
  }

  lemma StepKeepsOnline(s: State, op: Op, t: State, uuid: string, ip: string)
    requires Next(s, op, t) && !op.Rotate? && uuid in s.limits
    requires op.Update? ==> uuid !in Uuids(op.deleted)
    requires op.Release? && op.uuid == uuid && Trim(op.ip) == Trim(ip) ==> !Has(s.online, uuid, Trim(ip))
    ensures uuid in t.limits
    ensures Has(t.online, uuid, Trim(ip))
            <==> Has(s.online, uuid, Trim(ip)) || (Returns(op, uuid, ip) && !Rejects(s, uuid, ip))
  {
    match op
    case Update(added, deleted, modified) => UpdatedFacts(s, added, deleted, modified);
    case Authorize(u, i) => AuthorizedFacts(s, u, i);
    case CheckLimit(u, i) => AuthorizedFacts(s, u, Trim(i));
    case Release(u, i) => ReleasedFacts(s, u, i);
    case _ =>
  }

  /** Take a device that is online and returns in every window, whatever the other users, the alive
      lists and the limits do. As long as it was not shut out when it returned, it is rejected now
      exactly when it is shut out: the cache entry of its address was used up while it was away,
      and its user is at the limit. */
  lemma {:induction false} ReturningDeviceRejectedIffShutOut(states: seq<State>, ops: seq<Op>,
                                                             uuid: string, ip: string, i: nat)
    requires IsRun(states, ops) && i < |states|
    requires uuid in states[0].limits && Has(states[0].online, uuid, Trim(ip))
    requires forall k | 0 <= k < i :: Stays(ops, uuid, ip, k)
    requires forall k | 0 <= k < i && Returns(ops[k], uuid, ip) :: !ShutOut(states, ops, uuid, ip, k)
    ensures Rejects(states[i], uuid, ip) <==> ShutOut(states, ops, uuid, ip, i)
    ensures Known(states[i], uuid, ip, BackInWindow(ops, uuid, ip, i), Spent(states, ops, ip, i))
  {
    if i > 0 {
      ReturningDeviceRejectedIffShutOut(states, ops, uuid, ip, i - 1);
      var s, op, t := states[i - 1], ops[i - 1], states[i];
      assert Next(s, op, t) && Stays(ops, uuid, ip, i - 1);
      if !op.Rotate? {
        StepKeepsOnline(s, op, t, uuid, ip);
        CachedUntilSpent(s, op, t, ip);
      }
    }
  }

  /** So a device is never rejected, for any number of windows, if nobody uses its entry up while it
      is away, in particular if its address is its own. */
  lemma {:induction false} ReturningDeviceIsNeverRejected(states: seq<State>, ops: seq<Op>,
                                                          uuid: string, ip: string, i: nat)
    requires IsRun(states, ops) && i < |states|
    requires uuid in states[0].limits && Has(states[0].online, uuid, Trim(ip))
    requires forall k | 0 <= k < i :: Stays(ops, uuid, ip, k)
    requires forall k | 0 <= k < i && Spends(states[k], ops[k], ip) ::
      BackInWindow(ops, uuid, ip, k) || Returns(ops[k], uuid, ip)
    ensures !Rejects(states[i], uuid, ip)
  {
    forall k | 0 <= k <= i
      ensures !ShutOut(states, ops, uuid, ip, k)
    {
      UnspentWhileAway(states, ops, uuid, ip, k);
    }
    ReturningDeviceRejectedIffShutOut(states, ops, uuid, ip, i);
  }

  lemma {:induction false} UnspentWhileAway(states: seq<State>, ops: seq<Op>, uuid: string, ip: string, i: nat)
    requires i <= |ops| < |states|
    requires forall k | 0 <= k < i && Spends(states[k], ops[k], ip) ::
      BackInWindow(ops, uuid, ip, k) || Returns(ops[k], uuid, ip)
    ensures Spent(states, ops, ip, i) ==> BackInWindow(ops, uuid, ip, i)
  {
    if i > 0 {
      UnspentWhileAway(states, ops, uuid, ip, i - 1);
    }
  }

  /** One window: after a rotation the address of a device that was online stays cached exactly
      until some operation uses its entry up, and from then on the device is rejected exactly while
      its user is at the limit. */
  lemma {:induction false} RejectedInWindowIffSpent(states: seq<State>, ops: seq<Op>, uuid: string, ip: string, i: nat)
    requires IsRun(states, ops) && 0 < i < |states| && ops[0].Rotate?
    requires uuid in states[0].limits && Has(states[0].online, uuid, Trim(ip))
    requires forall k | 0 < k < i ::
      !Returns(ops[k], uuid, ip) && !ops[k].Rotate? && (ops[k].Update? ==> uuid !in Uuids(ops[k].deleted))
    ensures Trim(ip) in states[i].cached <==> forall k | 0 < k < i :: !Spends(states[k], ops[k], ip)
    ensures uuid in states[i].limits && !Has(states[i].online, uuid, Trim(ip))
    ensures Rejects(states[i], uuid, ip)
            <==> (exists k :: 0 < k < i && Spends(states[k], ops[k], ip))
                 && LimitReached(states[i], states[i].limits[uuid])
  {
    if i == 1 {
      assert Next(states[0], ops[0], states[1]);
    } else {
      RejectedInWindowIffSpent(states, ops, uuid, ip, i - 1);
      var s, op, t := states[i - 1], ops[i - 1], states[i];
      assert Next(s, op, t);
      StepKeepsOnline(s, op, t, uuid, ip);
      CachedUntilSpent(s, op, t, ip);
    }
  }

  const SHARERS: seq<UserInfo> := [UserInfo(1, "a", 0, 1), UserInfo(2, "b", 0, 0)]

  /** Both users of the shared address online, one after the other. */
  const BOTH_ONLINE: State :=
    State(0, map[], map["a" := map["ip" := 1], "b" := map["ip" := 2]], map[],
          map["a" := UserLimit(1, 0, 1), "b" := UserLimit(2, 0, 0)], map[])

  lemma SharersOnline()
    ensures Authorized(Authorized(Fresh(SHARERS, map[]), "a", "ip"), "b", "ip") == BOTH_ONLINE
  {
    assert SHARERS[..1] == [SHARERS[0]];
    assert ByUuid([SHARERS[0]]) == map["a" := SHARERS[0]];
    assert ByUuid(SHARERS) == map["a" := SHARERS[0], "b" := SHARERS[1]];
    assert Fresh(SHARERS, map[]) == BOTH_ONLINE.(online := map[]);
    assert Authorized(BOTH_ONLINE.(online := map[]), "a", "ip") == BOTH_ONLINE.(online := map["a" := map["ip" := 1]]);
  }

  lemma SharedEntrySpent(s: State)
    requires s == BOTH_ONLINE.(online := map[], cached := map["ip" := 2])
    ensures Rotated(BOTH_ONLINE, s)
    ensures Rejects(Authorized(s, "b", "ip").(alive := map[1 := 1]), "a", "ip")
  {
    assert Trim("ip") == "ip";
    assert Has(BOTH_ONLINE.online, "b", "ip");
  }

  /** With a shared address a listed, returning device can be rejected, starting from a fresh
      limiter: another user's request uses the cached entry up, and the alive list does the rest. */
  lemma SharedAddressCanBeRejected()
    ensures exists states: seq<State>, ops: seq<Op> ::
      && IsRun(states, ops) && |states| == 6
      && states[0] == Fresh(SHARERS, map[])
      && ops == [Authorize("a", "ip"), Authorize("b", "ip"), Rotate, Authorize("b", "ip"), SetAlive(map[1 := 1])]
      && Has(states[2].online, "a", "ip")
      && Rejects(states[5], "a", "ip")
  {
    hide Authorized, Rejects, Rotated, Fresh;
    var s0 := Fresh(SHARERS, map[]);
    var s1 := Authorized(s0, "a", "ip");
    SharersOnline();
    var s3 := BOTH_ONLINE.(online := map[], cached := map["ip" := 2]);
    SharedEntrySpent(s3);
    var s4 := Authorized(s3, "b", "ip");
    var states := [s0, s1, BOTH_ONLINE, s3, s4, s4.(alive := map[1 := 1])];
    var ops := [Authorize("a", "ip"), Authorize("b", "ip"), Rotate, Authorize("b", "ip"), SetAlive(map[1 := 1])];
    assert IsRun(states, ops);
  }
}
