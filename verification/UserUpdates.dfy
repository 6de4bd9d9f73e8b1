/** Updating by the difference of two user lists against starting afresh from the new one. */
module UserUpdates {
  import opened Panel
  import opened UserList
  import L = Limiter
  import S = Server
  import AR = AdmissionRuns
  import SF = ServerFacts

  /** No uuid of both lists changed its panel id. */
  ghost predicate IdsKept(before: map<string, UserInfo>, after: map<string, UserInfo>) {
    forall k | k in before && k in after :: before[k].id == after[k].id
  }

  // ---------- the limiter ----------

  lemma {:induction false} ModifyAllLimits(s: L.State, users: seq<UserInfo>, k: string)
    requires k in s.limits
    ensures var t := L.ModifyAll(s, users);
      k in t.limits
      && t.limits[k] == if k in ByUuid(users)
                        then L.UserLimit(s.limits[k].uid, ByUuid(users)[k].speedLimit, ByUuid(users)[k].deviceLimit)
                        else s.limits[k]
  {
    if users != [] {
      ModifyAllLimits(s, users[..|users| - 1], k);
    }
  }

  lemma {:induction false} AddAllLimits(s: L.State, users: seq<UserInfo>, k: string)
    ensures var t := L.AddAll(s, users);
      && (k in t.limits <==> k in s.limits || k in ByUuid(users))
      && (k in t.limits ==> t.limits[k] == if k in ByUuid(users) then L.LimitOf(ByUuid(users)[k]) else s.limits[k])
  {
    if users != [] {
      hide L.LimitOf;
      AddAllLimits(s, users[..|users| - 1], k);
    }
  }

  /** The limit of one user after an update by difference. */
  lemma LimitAfterUpdate(s: L.State, before: map<string, UserInfo>, after: seq<UserInfo>,
                         deleted: seq<UserInfo>, added: seq<UserInfo>, modified: seq<UserInfo>, k: string)
    requires Distinct(after) && IsDelta(before, after, deleted, added, modified) && k in Uuids(after)
    requires s.limits == map k | k in before :: L.LimitOf(before[k])
    requires forall k | k in before :: before[k].uuid == k
    ensures k in ByUuid(after) && k in L.Updated(s, added, deleted, modified).limits
    ensures var t := L.Updated(s, added, deleted, modified); var user := ByUuid(after)[k];
       t.limits[k] == L.UserLimit(if k in before then before[k].id else user.id, user.speedLimit, user.deviceLimit)
  {
    var s1 := L.DeleteAll(s, deleted);
    var s2 := L.ModifyAll(s1, modified);
    AR.DeleteAllFacts(s, deleted);
    AR.ModifyAllFacts(s1, modified);
    AddAllLimits(s2, added, k);
    DeltasDisjoint(before, after, deleted, added, modified);
    ByUuidKeys(after);
    ByUuidKeys(added);
    ByUuidKeys(modified);
    ByUuidHolds(after);
    ByUuidHolds(added);
    ByUuidHolds(modified);
    var user := ByUuid(after)[k];
    if k in before {
      assert k in s1.limits && s1.limits[k] == L.LimitOf(before[k]);
      ModifyAllLimits(s1, modified, k);
      if LimitsDiffer(before[k], user) {
        assert user in modified;
      } else {
        assert k !in ByUuid(modified);
      }
    } else {
      assert user in added;
    }
  }

  /** Updating a limiter by the difference gives every user the limits a fresh limiter built from
      the new list would have, exactly when no user of both lists changed its panel id. */
  lemma IncrementalIsRebuildIffIdsKept(s: L.State, before: seq<UserInfo>, after: seq<UserInfo>,
                                       deleted: seq<UserInfo>, added: seq<UserInfo>, modified: seq<UserInfo>)
    requires Distinct(before) && Distinct(after) && s.limits == L.LimitsOf(before)
    requires IsDelta(ByUuid(before), after, deleted, added, modified)
    ensures L.Updated(s, added, deleted, modified).limits == L.LimitsOf(after)
            <==> IdsKept(ByUuid(before), ByUuid(after))
  {
    hide L.Updated, ByUuid, IsDelta, Distinct, Uuids;
    var t := L.Updated(s, added, deleted, modified);
    ByUuidKeys(before);
    ByUuidKeys(after);
    AR.UpdatedFacts(s, added, deleted, modified);
    DeltasDisjoint(ByUuid(before), after, deleted, added, modified);
    assert t.limits.Keys == ByUuid(after).Keys;
    forall k | k in ByUuid(after)
      ensures t.limits[k] == L.LimitsOf(after)[k]
              <==> (k in ByUuid(before) ==> ByUuid(before)[k].id == ByUuid(after)[k].id)
    {
      LimitAfterUpdate(s, ByUuid(before), after, deleted, added, modified, k);
    }
    if IdsKept(ByUuid(before), ByUuid(after)) {
      assert forall k | k in ByUuid(after) :: t.limits[k] == L.LimitsOf(after)[k];
    } else {
      var k :| k in ByUuid(before) && k in ByUuid(after) && ByUuid(before)[k].id != ByUuid(after)[k].id;
      assert t.limits[k] != L.LimitsOf(after)[k];
    }
  }

  // ---------- the server ----------

  /** The id of every listed user is on record. */
  ghost predicate IdsRecorded(s: S.State) {
    forall k | k in s.users && s.users[k].id > 0 :: k in s.userIDs && s.userIDs[k] == s.users[k].id
  }

  lemma {:induction false} RecordIdsFacts(ids: map<string, int>, users: seq<UserInfo>)
    requires Distinct(users)
    ensures forall k :: k in S.RecordIds(ids, users) <==> k in ids || (k in ByUuid(users) && ByUuid(users)[k].id > 0)
    ensures forall k | k in S.RecordIds(ids, users) ::
      S.RecordIds(ids, users)[k]
      == if k in ByUuid(users) && ByUuid(users)[k].id > 0 then ByUuid(users)[k].id else ids[k]
  {
    if users != [] {
      var init, last := users[..|users| - 1], users[|users| - 1];
      RecordIdsFacts(ids, init);
      ByUuidKeys(init);
      NextUuidIsNew(users, |users| - 1);
    }
  }

  /** Replacing all users and applying the difference lead to the same users, the same ids on
      record and the same pending bytes for everyone. They agree on the users exactly when no
      user kept its limits but changed its panel id: such a change is no difference. */
  lemma DeltaPathIsFullPath(s: S.State, after: seq<UserInfo>, deleted: seq<UserInfo>, added: seq<UserInfo>,
                            modified: seq<UserInfo>)
    requires SF.NonNegative(s.stats) && IdsRecorded(s)
    requires forall k | k in s.users :: s.users[k].uuid == k
    requires Distinct(after) && IsDelta(s.users, after, deleted, added, modified)
    ensures var full := S.Updated(s, added, deleted, modified, Some(after));
      var delta := S.Updated(s, added, deleted, modified, None);
      && full.users == ByUuid(after)
      && (delta.users == full.users <==> UnchangedKeptIds(s.users, ByUuid(after)))
      && (delta.users == full.users ==> delta.userIDs == full.userIDs)
      && (forall uuid, d ::
            SF.PendingOf(delta.stats, uuid, d) == SF.PendingOf(full.stats, uuid, d) == SF.PendingOf(s.stats, uuid, d))
  {
    SF.UpdateKeepsBytes(s, added, deleted, modified, Some(after));
    SF.UpdateKeepsBytes(s, added, deleted, modified, None);
    DeltaUsers(s, after, deleted, added, modified);
    if UnchangedKeptIds(s.users, ByUuid(after)) {
      DeltaIds(s, after, deleted, added, modified);
    }
  }

  ghost predicate UnchangedKeptIds(before: map<string, UserInfo>, after: map<string, UserInfo>) {
    forall k | k in before && k in after && !LimitsDiffer(before[k], after[k]) :: before[k].id == after[k].id
  }

  lemma DeltaShape(s: S.State, deleted: seq<UserInfo>, added: seq<UserInfo>, modified: seq<UserInfo>)
    requires SF.NonNegative(s.stats)
    ensures var t := S.AppliedDelta(s, added, deleted, modified);
      && t.users == (s.users - Uuids(deleted)) + ByUuid(added) + ByUuid(modified)
      && t.userIDs == S.RecordIds(S.RecordIds(s.userIDs, added), modified)
      && t.online == s.online - Uuids(deleted)
  {
    var s1 := S.DeleteAll(s, deleted);
    SF.DeleteAllFacts(s, deleted);
    SF.AddAllUsers(s1, added);
    SF.ModifyAllFacts(S.AddAll(s1, added), modified);
  }

  /** What the three deltas say about one uuid. */
  lemma DeltaAt(before: map<string, UserInfo>, after: seq<UserInfo>, deleted: seq<UserInfo>, added: seq<UserInfo>,
                modified: seq<UserInfo>, k: string)
    requires Distinct(after) && IsDelta(before, after, deleted, added, modified)
    requires forall k | k in before :: before[k].uuid == k
    ensures k in ByUuid(after) <==> k in Uuids(after)
    ensures k in ByUuid(added) <==> k in ByUuid(after) && k !in before
    ensures k in ByUuid(added) ==> ByUuid(added)[k] == ByUuid(after)[k]
    ensures k in ByUuid(modified) <==> k in ByUuid(after) && k in before && LimitsDiffer(before[k], ByUuid(after)[k])
    ensures k in ByUuid(modified) ==> ByUuid(modified)[k] == ByUuid(after)[k]
    ensures k in Uuids(deleted) <==> k in before && k !in ByUuid(after)
  {
    ByUuidKeys(after);
    ByUuidKeys(added);
    ByUuidKeys(modified);
    ByUuidHolds(after);
    ByUuidHolds(added);
    ByUuidHolds(modified);
    if k in ByUuid(after) {
      assert ByUuid(after)[k] in after;
      if k !in before {
        assert ByUuid(after)[k] in added;
      } else if LimitsDiffer(before[k], ByUuid(after)[k]) {
        assert ByUuid(after)[k] in modified;
      }
    } else if k in before {
      assert before[k] in deleted;
    }
  }

  lemma DeltaUsers(s: S.State, after: seq<UserInfo>, deleted: seq<UserInfo>, added: seq<UserInfo>,
                   modified: seq<UserInfo>)
    requires SF.NonNegative(s.stats)
    requires forall k | k in s.users :: s.users[k].uuid == k
    requires Distinct(after) && IsDelta(s.users, after, deleted, added, modified)
    ensures S.AppliedDelta(s, added, deleted, modified).users == ByUuid(after)
            <==> UnchangedKeptIds(s.users, ByUuid(after))
  {
    hide S.AppliedDelta, ByUuid, IsDelta, Distinct, Uuids, SF.NonNegative;
    var users := S.AppliedDelta(s, added, deleted, modified).users;
    DeltaShape(s, deleted, added, modified);
    ByUuidKeys(after);
    forall k
      ensures k in users <==> k in ByUuid(after)
      ensures k in users ==> (users[k] == ByUuid(after)[k] <==>
        (k in s.users && !LimitsDiffer(s.users[k], ByUuid(after)[k]) ==> s.users[k].id == ByUuid(after)[k].id))
    {
      DeltaAt(s.users, after, deleted, added, modified, k);
    }
    if UnchangedKeptIds(s.users, ByUuid(after)) {
      assert forall k | k in users :: users[k] == ByUuid(after)[k];
    } else {
      var k :| k in s.users && k in ByUuid(after) && !LimitsDiffer(s.users[k], ByUuid(after)[k])
               && s.users[k].id != ByUuid(after)[k].id;
      assert users[k] != ByUuid(after)[k];
    }
  }

  lemma DeltaIds(s: S.State, after: seq<UserInfo>, deleted: seq<UserInfo>, added: seq<UserInfo>,
                 modified: seq<UserInfo>)
    requires SF.NonNegative(s.stats) && IdsRecorded(s)
    requires forall k | k in s.users :: s.users[k].uuid == k
    requires Distinct(after) && IsDelta(s.users, after, deleted, added, modified)
    requires UnchangedKeptIds(s.users, ByUuid(after))
    ensures S.AppliedDelta(s, added, deleted, modified).userIDs == S.RecordIds(s.userIDs, after)
  {
    hide S.AppliedDelta, ByUuid, Distinct, Uuids, SF.NonNegative, S.RecordIds;
    var ids := S.AppliedDelta(s, added, deleted, modified).userIDs;
    DeltaShape(s, deleted, added, modified);
    RecordIdsFacts(s.userIDs, after);
    RecordIdsFacts(s.userIDs, added);
    RecordIdsFacts(S.RecordIds(s.userIDs, added), modified);
    forall k
      ensures k in ids <==> k in S.RecordIds(s.userIDs, after)
      ensures k in ids ==> ids[k] == S.RecordIds(s.userIDs, after)[k]
    {
      DeltaAt(s.users, after, deleted, added, modified, k);
    }
  }
}
