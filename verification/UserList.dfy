/** The difference between two user lists. */
module UserList {
  import opened Panel

  /** The users of a list by uuid; the last of several entries counts. */
  function ByUuid(users: seq<UserInfo>): map<string, UserInfo> {
    if users == [] then map[]
    else
      var last := users[|users| - 1];
      ByUuid(users[..|users| - 1])[last.uuid := last]
  }

  lemma {:induction false} ByUuidKeys(users: seq<UserInfo>)
    ensures ByUuid(users).Keys == Uuids(users)
    ensures forall k | k in ByUuid(users) :: ByUuid(users)[k].uuid == k && ByUuid(users)[k] in users
  {
    if users != [] {
      var init := users[..|users| - 1];
      ByUuidKeys(init);
      assert users == init + [users[|users| - 1]];
    }
  }

  lemma {:induction false} ByUuidAt(users: seq<UserInfo>, i: nat)
    requires Distinct(users) && i < |users|
    ensures users[i].uuid in ByUuid(users) && ByUuid(users)[users[i].uuid] == users[i]
  {
    var init := users[..|users| - 1];
    if i < |init| {
      ByUuidAt(init, i);
      assert init[i] == users[i];
    }
  }

  lemma ByUuidHolds(users: seq<UserInfo>)
    requires Distinct(users)
    ensures forall u | u in users :: u.uuid in ByUuid(users) && ByUuid(users)[u.uuid] == u
  {
    forall u | u in users
      ensures u.uuid in ByUuid(users) && ByUuid(users)[u.uuid] == u
    {
      var i :| 0 <= i < |users| && users[i] == u;
      ByUuidAt(users, i);
    }
  }

  predicate LimitsDiffer(a: UserInfo, b: UserInfo) {
    a.speedLimit != b.speedLimit || a.deviceLimit != b.deviceLimit
  }

  /** The three deltas between the users `before` and the list `after`. */
  ghost predicate IsDelta(before: map<string, UserInfo>, after: seq<UserInfo>,
                          deleted: seq<UserInfo>, added: seq<UserInfo>, modified: seq<UserInfo>)
  {
    && Distinct(deleted) && Distinct(added) && Distinct(modified)
    && (forall u :: u in added <==> u in after && u.uuid !in before)
    && (forall u :: u in modified <==> u in after && u.uuid in before && LimitsDiffer(before[u.uuid], u))
    && (forall u :: u in deleted <==> u.uuid in before && before[u.uuid] == u && u.uuid !in Uuids(after))
  }

  /** The users of a list that are new: not there before, or naming a uuid for the second time. */
  function NewOnes(before: map<string, UserInfo>, users: seq<UserInfo>): seq<UserInfo> {
    if users == [] then []
    else
      var init, last := users[..|users| - 1], users[|users| - 1];
      NewOnes(before, init) + if last.uuid !in before - Uuids(init) then [last] else []
  }

  /** The users of a list that were there with other limits; only the first of several entries counts. */
  function ChangedOnes(before: map<string, UserInfo>, users: seq<UserInfo>): seq<UserInfo> {
    if users == [] then []
    else
      var init, last := users[..|users| - 1], users[|users| - 1];
      ChangedOnes(before, init)
      + if last.uuid in before - Uuids(init) && LimitsDiffer(before[last.uuid], last) then [last] else []
  }

  lemma {:induction false} NewOnesAre(before: map<string, UserInfo>, users: seq<UserInfo>)
    requires Distinct(users)
    ensures Distinct(NewOnes(before, users))
    ensures forall u :: u in NewOnes(before, users) <==> u in users && u.uuid !in before
  {
    if users != [] {
      var init, last := users[..|users| - 1], users[|users| - 1];
      NewOnesAre(before, init);
      assert users == init + [last];
    }
  }

  lemma {:induction false} ChangedOnesAre(before: map<string, UserInfo>, users: seq<UserInfo>)
    requires Distinct(users)
    ensures Distinct(ChangedOnes(before, users))
    ensures forall u :: u in ChangedOnes(before, users)
                   <==> (u in users && u.uuid in before && LimitsDiffer(before[u.uuid], u))
  {
    if users != [] {
      var init, last := users[..|users| - 1], users[|users| - 1];
      ChangedOnesAre(before, init);
      assert users == init + [last];
    }
  }

  /** A uuid that a list names twice shows among the new ones: as one that is not new, or twice. */
  lemma {:induction false} NewOnesShowDuplicates(before: map<string, UserInfo>, users: seq<UserInfo>)
    requires Distinct(NewOnes(before, users))
    requires forall u | u in NewOnes(before, users) :: u.uuid !in before
    ensures Distinct(users)
  {
    if users != [] {
      var init, last := users[..|users| - 1], users[|users| - 1];
      var news := NewOnes(before, users);
      if last.uuid in before - Uuids(init) {
        assert news == NewOnes(before, init);
        NewOnesShowDuplicates(before, init);
      } else {
        DistinctInit(news);
        assert news[..|news| - 1] == NewOnes(before, init) && news[|news| - 1] == last;
        NewOnesShowDuplicates(before, init);
        NewOnesAre(before, init);
        assert last in news;
      }
      DistinctAppend(init, last);
      assert users == init + [last];
    }
  }

  lemma DistinctInit(users: seq<UserInfo>)
    requires users != [] && Distinct(users)
    ensures Distinct(users[..|users| - 1]) && users[|users| - 1].uuid !in Uuids(users[..|users| - 1])
  {
  }

  lemma DistinctAppend(users: seq<UserInfo>, user: UserInfo)
    requires Distinct(users) && user.uuid !in Uuids(users)
    ensures Distinct(users + [user])
  {
    assert forall i | 0 <= i < |users| :: users[i] in users;
  }

  /** The scan finds the difference of the lists exactly when the new list names no uuid twice: a uuid
      named again is taken for a new one. */
  method CompareUserList(oldUsers: seq<UserInfo>, newUsers: seq<UserInfo>)
    returns (deleted: seq<UserInfo>, added: seq<UserInfo>, modified: seq<UserInfo>)
    ensures added == NewOnes(ByUuid(oldUsers), newUsers)
    ensures modified == ChangedOnes(ByUuid(oldUsers), newUsers)
    ensures Distinct(deleted)
    ensures forall u :: u in deleted
                   <==> u.uuid in ByUuid(oldUsers) && u.uuid !in Uuids(newUsers) && ByUuid(oldUsers)[u.uuid] == u
    ensures IsDelta(ByUuid(oldUsers), newUsers, deleted, added, modified) <==> Distinct(newUsers)
  {
    var oldMap := Index(oldUsers);
    ByUuidKeys(oldUsers);
    var rest;
    added, modified, rest := Scan(oldMap, newUsers);
    deleted := Values(rest);
    DeltaIffDistinct(oldMap, newUsers, deleted);
  }

  method Index(users: seq<UserInfo>) returns (m: map<string, UserInfo>)
    ensures m == ByUuid(users)
  {
    m := map[];
    for i := 0 to |users|
      invariant m == ByUuid(users[..i])
    {
      assert users[..i + 1][..i] == users[..i];
      m := m[users[i].uuid := users[i]];
    }
    assert users[..|users|] == users;
  }

  lemma NextUuid(users: seq<UserInfo>, i: nat)
    requires i < |users|
    ensures Uuids(users[..i + 1]) == Uuids(users[..i]) + {users[i].uuid}
  {
    UuidsAppend(users[..i], users[i]);
    assert users[..i + 1] == users[..i] + [users[i]];
  }

  /** Sorts the users of a list into new and changed ones, and strikes them off the old map. */
  method Scan(before: map<string, UserInfo>, users: seq<UserInfo>)
    returns (added: seq<UserInfo>, modified: seq<UserInfo>, rest: map<string, UserInfo>)
    ensures added == NewOnes(before, users)
    ensures modified == ChangedOnes(before, users)
    ensures rest == before - Uuids(users)
  {
    hide Uuids;
    added, modified, rest := [], [], before;
    assert Uuids([]) == {} by { NoUuids(); }
    for i := 0 to |users|
      invariant added == NewOnes(before, users[..i])
      invariant modified == ChangedOnes(before, users[..i])
      invariant rest == before - Uuids(users[..i])
    {
      var user := users[i];
      NextUuid(users, i);
      assert users[..i + 1][..i] == users[..i];
      assert before - Uuids(users[..i + 1]) == rest - {user.uuid};
      if user.uuid !in rest {
        added := added + [user];
      } else {
        var existing := rest[user.uuid];
        if existing.speedLimit != user.speedLimit || existing.deviceLimit != user.deviceLimit {
          modified := modified + [user];
        }
        rest := rest - {user.uuid};
      }
    }
    assert users[..|users|] == users;
  }

  /** The values of a map, in some order. */
  method Values(m: map<string, UserInfo>) returns (values: seq<UserInfo>)
    requires forall k | k in m :: m[k].uuid == k
    ensures Distinct(values)
    ensures forall u :: u in values <==> u.uuid in m && m[u.uuid] == u
  {
    values := [];
    var rest := m;
    while rest != map[]
      invariant rest.Keys <= m.Keys && forall k | k in rest :: rest[k] == m[k]
      invariant forall u :: u in values <==> u.uuid in m && u.uuid !in rest && m[u.uuid] == u
      invariant Distinct(values)
      decreases rest.Keys
    {
      var uuid :| uuid in rest;
      values := values + [rest[uuid]];
      rest := rest - {uuid};
    }
  }

  lemma DeltaIffDistinct(before: map<string, UserInfo>, users: seq<UserInfo>, deleted: seq<UserInfo>)
    requires Distinct(deleted)
    requires forall u :: u in deleted <==> u.uuid in before - Uuids(users) && before[u.uuid] == u
    ensures IsDelta(before, users, deleted, NewOnes(before, users), ChangedOnes(before, users)) <==> Distinct(users)
  {
    if Distinct(users) {
      NewOnesAre(before, users);
      ChangedOnesAre(before, users);
    } else if IsDelta(before, users, deleted, NewOnes(before, users), ChangedOnes(before, users)) {
      NewOnesShowDuplicates(before, users);
      assert false;
    }
  }

  /** The deltas touch disjoint users, and what none of them touches kept its limits. */
  lemma DeltasDisjoint(before: map<string, UserInfo>, after: seq<UserInfo>,
                       deleted: seq<UserInfo>, added: seq<UserInfo>, modified: seq<UserInfo>)
    requires IsDelta(before, after, deleted, added, modified)
    requires forall k | k in before :: before[k].uuid == k
    ensures Uuids(deleted) !! Uuids(added) !! Uuids(modified)
    ensures Uuids(after) == before.Keys - Uuids(deleted) + Uuids(added)
    ensures forall u | u in after && u.uuid !in Uuids(added) + Uuids(modified) ::
      u.uuid in before && !LimitsDiffer(before[u.uuid], u)
  {
    forall k | k in before.Keys - Uuids(deleted)
      ensures k in Uuids(after)
    {
      assert before[k] !in deleted;
    }
    forall u | u in after && u.uuid !in Uuids(added) + Uuids(modified)
      ensures u.uuid in before && !LimitsDiffer(before[u.uuid], u)
    {
      assert u !in added && u !in modified;
    }
  }
}
