/** The panel's records, and the traffic report pushed to it. */
module Panel {

  datatype Option<+T> = None | Some(value: T)

  datatype UserInfo = UserInfo(id: int, uuid: string, speedLimit: int, deviceLimit: int)

  datatype UserTraffic = UserTraffic(uid: int, uuid: string, upload: int, download: int)

  datatype OnlineUser = OnlineUser(uid: int, ip: string)

  function Uuids(users: seq<UserInfo>): set<string> {
    set u | u in users :: u.uuid
  }

  ghost predicate Distinct(users: seq<UserInfo>) {
    forall i, j | 0 <= i < j < |users| :: users[i].uuid != users[j].uuid
  }

  lemma NoUuids()
    ensures Uuids([]) == {}
  {
  }

  lemma UuidsAppend(users: seq<UserInfo>, user: UserInfo)
    ensures Uuids(users + [user]) == Uuids(users) + {user.uuid}
  {
    assert forall u | u in users :: u in users + [user];
    assert user in users + [user];
  }

  lemma NextUuidIsNew(users: seq<UserInfo>, i: nat)
    requires Distinct(users) && i < |users|
    ensures users[i].uuid !in Uuids(users[..i])
    ensures Uuids(users[..i + 1]) == Uuids(users[..i]) + {users[i].uuid}
  {
    UuidsAppend(users[..i], users[i]);
    assert users[..i + 1] == users[..i] + [users[i]];
  }

  // ---------- the push ----------

  datatype Amount = Amount(up: int, down: int)

  function Plus(a: Amount, b: Amount): Amount {
    Amount(a.up + b.up, a.down + b.down)
  }

  function Lookup(data: map<int, Amount>, uid: int): Amount {
    if uid in data then data[uid] else Amount(0, 0)
  }

  /** What a report holds for one panel user. */
  function ReportedFor(traffic: seq<UserTraffic>, uid: int): Amount {
    if traffic == [] then Amount(0, 0)
    else
      var last := traffic[|traffic| - 1];
      var before := ReportedFor(traffic[..|traffic| - 1], uid);
      if last.uid == uid then Plus(before, Amount(last.upload, last.download)) else before
  }

  /** The body pushed to the panel has one entry for each reported id: the sum of what the report
      holds for that id. */
  method AggregateTraffic(userTraffic: seq<UserTraffic>) returns (data: map<int, Amount>)
    ensures data.Keys == set t | t in userTraffic :: t.uid
    ensures forall uid :: Lookup(data, uid) == ReportedFor(userTraffic, uid)
  {
    data := map[];
    for i := 0 to |userTraffic|
      invariant data.Keys == set t | t in userTraffic[..i] :: t.uid
      invariant forall uid :: Lookup(data, uid) == ReportedFor(userTraffic[..i], uid)
    {
      var traffic := userTraffic[i];
      var current := Lookup(data, traffic.uid);
      assert userTraffic[..i + 1] == userTraffic[..i] + [traffic];
      assert userTraffic[..i + 1][..i] == userTraffic[..i];
      data := data[traffic.uid := Plus(current, Amount(traffic.upload, traffic.download))];
    }
    assert userTraffic[..|userTraffic|] == userTraffic;
  }
}
