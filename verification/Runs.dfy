/** Whole runs of procedure calls. */
module Runs {
  import opened Deletions
  import opened Effects
  import opened Integrity
  import opened Procedures
  import opened Scripts
  import opened StudentDb
  import opened Tables
  import opened Wrappers

  ghost function Run(s: State, calls: seq<Call>): State {
    if calls == [] then s
    else Apply(Run(s, calls[..|calls| - 1]), calls[|calls| - 1]).db
  }

  lemma RunSnoc(s: State, calls: seq<Call>, c: Call)
    ensures Run(s, calls + [c]) == Apply(Run(s, calls), c).db
  {
    assert (calls + [c])[..|calls|] == calls;
  }

  predicate AllCarryAccount(calls: seq<Call>) {
    forall i :: 0 <= i < |calls| ==> CarriesAccount(calls[i])
  }

  lemma {:induction false} RunKeepsInv(s: State, calls: seq<Call>)
    requires Inv(s) && AllCarryAccount(calls)
    ensures Inv(Run(s, calls))
  {
    if calls != [] {
      RunKeepsInv(s, calls[..|calls| - 1]);
      ApplyKeepsInv(Run(s, calls[..|calls| - 1]), calls[|calls| - 1]);
    }
  }

  lemma {:induction false} RunKeepsConsistent(s: State, calls: seq<Call>)
    requires Consistent(s)
    ensures Consistent(Run(s, calls))
  {
    if calls != [] {
      var front, last := calls[..|calls| - 1], calls[|calls| - 1];
      RunKeepsConsistent(s, front);
      WholeCallKeepsConsistent(Run(s, front), last);
    }
  }

  /** Ids and accounts are unique, score and authority rows belong to users, nobody has two of either,
      and no call meets the score count the procedure does not handle. */
  ghost predicate Sound(s: State) {
    && (forall id :: Count(s.users, id) <= 1
                     && Count(s.scores, id) <= Count(s.users, id)
                     && Count(s.auths, id) <= Count(s.users, id))
    && (forall r, q :: r in s.users && q in s.users && r.val.account == q.val.account ==> r == q)
    && (forall r :: r in s.users ==> 0 < r.id < s.nextId)
    && forall c :: Apply(s, c).err != Some(NullStatement)
  }

  lemma ConsistentIsSound(s: State)
    requires Consistent(s)
    ensures Sound(s)
  {
    forall c ensures Apply(s, c).err != Some(NullStatement) {
      NeverNullStatement(s, c);
    }
  }

  /** Every state reached from the initial script by any calls is sound, and if the calls carry their
      accounts every user has exactly one authority row. */
  lemma {:induction false} ReachableStates(calls: seq<Call>, id: int)
    ensures var s := Run(InitState(), calls);
            Sound(s) && (AllCarryAccount(calls) ==> Count(s.auths, id) == Count(s.users, id))
  {
    InitStateIsValid();
    RunKeepsConsistent(InitState(), calls);
    ConsistentIsSound(Run(InitState(), calls));
    if AllCarryAccount(calls) {
      RunKeepsInv(InitState(), calls);
    }
  }

  /** So is every state reached when any of the calls are cut off, each after any of its statements. */
  lemma InterruptedStates(attempts: seq<Attempt>)
    ensures Sound(CutRun(InitState(), attempts))
  {
    InitStateIsValid();
    CutRunKeepsConsistent(InitState(), attempts);
    ConsistentIsSound(CutRun(InitState(), attempts));
  }

  // ---- Ids are never issued again ----

  /** The user row a creating call would insert. */
  function NewUser(c: Call): UserInfo
    requires Creating(c)
  {
    match c
    case UserRegister(account, name, pwd, sex, ident, _) => UserInfo(account, pwd, name, sex, ident, None, None)
    case AddSingleScore(_, info, _, _, _, _) => WithoutMajorAndGrade(info)
    case AddSingleUserInfo(info, _, _) => info
  }

  ghost predicate GrewBy(s: State, info: UserInfo, t: State) {
    && s.nextId <= t.nextId <= s.nextId + 1 && t.subjects == s.subjects
    && (t.users == s.users || (t.users == s.users + [Row(s.nextId, info)] && s.nextId < t.nextId))
  }

  lemma CreatedGrows(s: State, info: UserInfo, account: string, auth: string)
    ensures GrewBy(s, info, Created(s, info, account, auth).db)
  {
  }

  lemma ScoreInsertKeepsUsers(s: State, id: int, names: string, marks: string, limit: nat)
    ensures var t := ScoreInserted(s, id, names, marks, limit).db; t == s.(scores := t.scores)
  {
  }

  lemma {:induction false} ScoreAddedGrows(s: State, text: string, info: UserInfo, account: string, auth: string,
                        names: string, marks: string)
    ensures GrewBy(s, WithoutMajorAndGrade(info), ScoreAdded(s, text, info, account, auth, names, marks).db)
  {
    var user := WithoutMajorAndGrade(info);
    CreatedGrows(s, user, account, auth);
    ScoreInsertKeepsUsers(s, IdOf(s, account), names, marks, 200);
    ScoreInsertKeepsUsers(Created(s, user, account, auth).db, s.nextId, names, marks, 300);
  }

  lemma CreatingGrows(s: State, c: Call)
    requires Creating(c)
    ensures GrewBy(s, NewUser(c), Apply(s, c).db)
  {
    match c
    case UserRegister(account, _, _, _, _, auth) => CreatedGrows(s, NewUser(c), account, auth);
    case AddSingleScore(text, info, account, auth, names, marks) =>
      ScoreAddedGrows(s, text, info, account, auth, names, marks);
    case AddSingleUserInfo(info, account, auth) => CreatedGrows(s, info, account, auth);
  }

  predicate Deleting(c: Call) {
    c.DeleteSingleUserInfoByAccount? || c.DeleteBatchUserInfoByUserId?
  }

  /** Only a deletion changes how many users have an id already issued. */
  lemma {:induction false} OthersKeepCounts(s: State, c: Call, id: int)
    requires !Deleting(c) && id < s.nextId
    ensures Count(Apply(s, c).db.users, id) == Count(s.users, id)
  {
    if Creating(c) {
      CreatingGrows(s, c);
      Appended(s.users, Row(s.nextId, NewUser(c)));
    } else {
      UserUpdateKeepsCounts(s, IdOf(s, c.account), c.changes);
    }
  }

  lemma {:induction false} IdsOnlyGrow(s: State, c: Call)
    ensures s.nextId <= Apply(s, c).db.nextId <= s.nextId + 1 && Apply(s, c).db.subjects == s.subjects
  {
    if Creating(c) {
      CreatingGrows(s, c);
    }
  }

  lemma {:induction false} RunNeverReissues(s: State, calls: seq<Call>)
    ensures s.nextId <= Run(s, calls).nextId <= s.nextId + |calls| && Run(s, calls).subjects == s.subjects
  {
    if calls != [] {
      var front := calls[..|calls| - 1];
      RunNeverReissues(s, front);
      IdsOnlyGrow(Run(s, front), calls[|calls| - 1]);
    }
  }

  predicate Creates(c: Call, account: string, auth: string) {
    || (c.UserRegister? && c.account == account && c.authority == auth)
    || (c.AddSingleUserInfo? && c.info.account == c.account == account && c.authority == auth)
  }

  /** Whatever became of the users of an earlier state, an account created now gets an id none of
      them had, no score row, and as its one authority row the text passed. */
  lemma {:induction false} CleanRebirth(s: State, calls: seq<Call>, c: Call, account: string, auth: string,
                     earlier: Row<UserInfo>)
    requires Inv(s) && AllCarryAccount(calls) && earlier in s.users
    requires Creates(c, account, auth)
    ensures var t := Run(s, calls);
            var r := Apply(t, c);
            r.err == None && IdOf(t, account) == 0 ==>
              var id := IdOf(r.db, account);
              && id > earlier.id && Count(r.db.users, id) == 1
              && Count(r.db.scores, id) == 0
              && Count(r.db.auths, id) == 1 && Lookup(r.db.auths, id) == Some(auth)
  {
    var t := Run(s, calls);
    RunKeepsInv(s, calls);
    RunNeverReissues(s, calls);
    var info := if c.UserRegister? then UserInfo(account, c.password, c.name, c.sex, c.ident, None, None)
                else c.info;
    NewRows(t, info, auth);
  }

  lemma NewRows(t: State, info: UserInfo, auth: string)
    requires Inv(t)
    ensures var r := Created(t, info, info.account, auth);
            r.err == None ==>
              && IdOf(r.db, info.account) == t.nextId && Count(r.db.users, t.nextId) == 1
              && Count(r.db.scores, t.nextId) == 0
              && Count(r.db.auths, t.nextId) == 1 && Lookup(r.db.auths, t.nextId) == Some(auth)
  {
    CreatedFresh(t, info, info.account, auth);
    FreshId(t);
    RowAdded(t.users, Row(t.nextId, info));
    RowAdded(t.auths, Row(t.nextId, auth));
  }

  lemma RowAdded<T>(rows: seq<Row<T>>, r: Row<T>)
    requires Count(rows, r.id) == 0
    ensures Count(rows + [r], r.id) == 1 && Lookup(rows + [r], r.id) == Some(r.val)
  {
    Appended(rows, r);
  }

  // ---- Who can be deleted by whom ----

  predicate Removes(c: Call, r: Row<UserInfo>) {
    && ParametersFit(c)
    && match c
       case DeleteSingleUserInfoByAccount(account, op) => OneTarget(account, op)(r)
       case DeleteBatchUserInfoByUserId(min, max, op) => BatchTarget(min, max, op)(r)
       case _ => false
  }

  predicate KeepsRank(c: Change) {
    !c.SetAccount? && !c.SetIdent?
  }

  /** The call may change the account or the rank of the user with this account. */
  predicate Reranks(c: Call, account: string) {
    c.UpdateSingleUserInfoByAccount? && c.account == account
    && exists i :: 0 <= i < |c.changes| && !KeepsRank(c.changes[i])
  }

  predicate SameUser(r: Row<UserInfo>, q: Row<UserInfo>) {
    r.id == q.id && r.val.account == q.val.account && r.val.ident == q.val.ident
  }

  ghost predicate Survives(s: State, r: Row<UserInfo>) {
    exists q :: q in s.users && SameUser(r, q)
  }

  lemma {:induction false} ChangedAllKeepsRank(u: UserInfo, changes: seq<Change>)
    requires forall i :: 0 <= i < |changes| ==> KeepsRank(changes[i])
    ensures ChangedAll(u, changes).account == u.account && ChangedAll(u, changes).ident == u.ident
  {
    if changes != [] {
      ChangedAllKeepsRank(u, changes[..|changes| - 1]);
    }
  }

  lemma UpdateKeepsUser(s: State, id: int, changes: seq<Change>, r: Row<UserInfo>)
    requires Consistent(s) && r in s.users
    requires r.id == id ==> forall i :: 0 <= i < |changes| ==> KeepsRank(changes[i])
    ensures Survives(ExecUpdateUser(s, id, changes).db, r)
  {
    var t := ExecUpdateUser(s, id, changes).db;
    if t == s {
      assert SameUser(r, r);
    } else {
      var u := ChangedAll(Lookup(s.users, id).value, changes);
      var i :| 0 <= i < |s.users| && s.users[i] == r;
      SetRowsAt(s.users, id, v => u, i);
      LookupOfUnique(s.users, r);
      if r.id == id {
        ChangedAllKeepsRank(r.val, changes);
      }
      assert SameUser(r, t.users[i]);
    }
  }

  lemma UpdateCallKeepsUser(s: State, c: Call, r: Row<UserInfo>)
    requires Inv(s) && r in s.users && c.UpdateSingleUserInfoByAccount? && !Reranks(c, r.val.account)
    ensures Survives(Apply(s, c).db, r)
  {
    var id := IdOf(s, c.account);
    IdOfFinds(s, c.account);
    LookupOfUnique(s.users, r);
    UpdateKeepsUser(s, id, c.changes, r);
    assert SameUser(r, r);
  }

  lemma DeletionRemoves(s: State, p: Row<UserInfo> -> bool, r: Row<UserInfo>)
    requires Inv(s) && r in s.users
    ensures if p(r) then Count(Deleted(s, p).db.users, r.id) == 0 else Survives(Deleted(s, p).db, r)
  {
    var ids := IdSet(s.users, p);
    PurgedRows(s, ids);
    PurgedCounts(s, ids, r.id);
    RowInIdSet(s, p, r);
    assert SameUser(r, r);
  }

  /** A call removes the users it is a deletion of, and no others. */
  lemma CallRemoves(s: State, c: Call, r: Row<UserInfo>)
    requires Inv(s) && r in s.users && !Reranks(c, r.val.account)
    ensures if Removes(c, r) then Count(Apply(s, c).db.users, r.id) == 0
            else Survives(Apply(s, c).db, r)
  {
    assert SameUser(r, r);
    match c
    case UpdateSingleUserInfoByAccount(_, _, _, _) => UpdateCallKeepsUser(s, c, r);
    case DeleteSingleUserInfoByAccount(account, op) => DeletionRemoves(s, OneTarget(account, op), r);
    case DeleteBatchUserInfoByUserId(min, max, op) => DeletionRemoves(s, BatchTarget(min, max, op), r);
    case _ => CreatingGrows(s, c);
  }

  /** An id that is gone does not come back. */
  lemma {:induction false} GoneStaysGone(s: State, c: Call, id: int)
    requires Inv(s) && id < s.nextId && Count(s.users, id) == 0
    ensures Count(Apply(s, c).db.users, id) == 0
  {
    match c
    case DeleteSingleUserInfoByAccount(account, op) =>
      CountWithout(s.users, IdSet(s.users, OneTarget(account, op)), id);
    case DeleteBatchUserInfoByUserId(min, max, op) =>
      CountWithout(s.users, IdSet(s.users, BatchTarget(min, max, op)), id);
    case _ => OthersKeepCounts(s, c, id);
  }

  // ---- The same by id, whatever becomes of account and rank ----

  /** A call removes the id of every user it is a deletion of, as that user is at the time, and no
      other id. */
  lemma CallRemovesId(s: State, c: Call, r: Row<UserInfo>)
    requires Inv(s) && r in s.users
    ensures Count(Apply(s, c).db.users, r.id) == if Removes(c, r) then 0 else 1
  {
    LookupOfUnique(s.users, r);
    CountLookup(s.users, r.id);
    match c
    case DeleteSingleUserInfoByAccount(account, op) => DeletionRemovesId(s, OneTarget(account, op), r);
    case DeleteBatchUserInfoByUserId(min, max, op) => DeletionRemovesId(s, BatchTarget(min, max, op), r);
    case _ => OthersKeepCounts(s, c, r.id);
  }

  lemma DeletionRemovesId(s: State, p: Row<UserInfo> -> bool, r: Row<UserInfo>)
    requires Inv(s) && r in s.users
    ensures Count(Deleted(s, p).db.users, r.id) == if p(r) then 0 else Count(s.users, r.id)
  {
    PurgedCounts(s, IdSet(s.users, p), r.id);
    RowInIdSet(s, p, r);
  }

  /** The k-th call is a deletion of the user with this id, as that user is when the call comes. */
  ghost predicate RemovedAt(s: State, calls: seq<Call>, id: int, k: nat)
    requires k < |calls|
  {
    var u := Lookup(Run(s, calls[..k]).users, id);
    u.Some? && Removes(calls[k], Row(id, u.value))
  }

  ghost predicate IdRemovedWithin(s: State, calls: seq<Call>, id: int) {
    exists k :: 0 <= k < |calls| && RemovedAt(s, calls, id, k)
  }

  lemma RemovedAtInPrefix(s: State, calls: seq<Call>, id: int)
    requires calls != []
    ensures IdRemovedWithin(s, calls, id)
            <==> IdRemovedWithin(s, calls[..|calls| - 1], id) || RemovedAt(s, calls, id, |calls| - 1)
  {
    var n := |calls| - 1;
    forall k | 0 <= k < n ensures RemovedAt(s, calls, id, k) <==> RemovedAt(s, calls[..n], id, k) {
      assert calls[..n][..k] == calls[..k];
    }
  }

  /** Along every run, renamings and changes of rank included, an id is there until the first call
      that deletes the user it then stands for, and never again after. */
  lemma {:induction false} RunRemovesId(s: State, calls: seq<Call>, id: int)
    requires Inv(s) && AllCarryAccount(calls) && Count(s.users, id) == 1
    ensures Count(Run(s, calls).users, id) == if IdRemovedWithin(s, calls, id) then 0 else 1
  {
    if calls != [] {
      var front, c := calls[..|calls| - 1], calls[|calls| - 1];
      var t := Run(s, front);
      RunRemovesId(s, front, id);
      RunKeepsInv(s, front);
      RemovedAtInPrefix(s, calls, id);
      CountLookup(t.users, id);
      if IdRemovedWithin(s, front, id) {
        RunNeverReissues(s, front);
        CountLookup(s.users, id);
        GoneStaysGone(t, c, id);
      } else {
        CallRemovesId(t, c, Row(id, Lookup(t.users, id).value));
      }
    }
  }

  /** The calls that delete act for operators of the three ranks. */
  predicate RankedOperators(calls: seq<Call>) {
    forall i :: 0 <= i < |calls| ==>
      Deleting(calls[i]) ==> 1 <= calls[i].op.ident <= 3
  }

  predicate RemovedWithin(calls: seq<Call>, r: Row<UserInfo>) {
    exists k :: 0 <= k < |calls| && Removes(calls[k], r)
  }

  lemma RemovedWithinPrefix(calls: seq<Call>, r: Row<UserInfo>)
    requires calls != []
    ensures RemovedWithin(calls, r)
            <==> RemovedWithin(calls[..|calls| - 1], r) || Removes(calls[|calls| - 1], r)
  {
    forall k | 0 <= k < |calls| - 1 ensures Removes(calls[k], r) <==> Removes(calls[..|calls| - 1][k], r) {
    }
  }

  /** Along any run that does not change its account or rank, a user is there, under its id, until
      the first call that is a deletion of it, and never again after. */
  lemma {:induction false} RunRemoves(s: State, calls: seq<Call>, r: Row<UserInfo>)
    requires Inv(s) && AllCarryAccount(calls) && r in s.users
    requires forall i :: 0 <= i < |calls| ==> !Reranks(calls[i], r.val.account)
    ensures if RemovedWithin(calls, r) then Count(Run(s, calls).users, r.id) == 0
            else Survives(Run(s, calls), r)
  {
    if calls == [] {
      assert SameUser(r, r);
    } else {
      var front, c := calls[..|calls| - 1], calls[|calls| - 1];
      RunRemoves(s, front, r);
      RunKeepsInv(s, front);
      RunNeverReissues(s, front);
      RemovedWithinPrefix(calls, r);
      var t := Run(s, front);
      if RemovedWithin(front, r) {
        GoneStaysGone(t, c, r.id);
      } else {
        var q :| q in t.users && SameUser(r, q);
        CallRemoves(t, c, q);
      }
    }
  }

  /** No deletion reaches a user of higher rank than its operator; one of the same rank is deleted by
      itself, or as a student under the grant. */
  lemma DeletionRespectsRank(c: Call, r: Row<UserInfo>)
    requires Removes(c, r) && 1 <= c.op.ident <= 3
    ensures r.val.ident <= c.op.ident
    ensures r.val.ident == c.op.ident ==>
              r.val.account == c.op.account || (r.val.ident == 1 && c.op.studentCanDelete == 1)
  {
  }

  /** An id that disappears along a run was removed by some call for an operator whom the user it then
      stood for did not outrank; at the same rank by that user itself, or as a student under the
      grant.  An administrator's id, whoever made it one, thus goes only at the wish of its account. */
  lemma {:induction false} NobodyRemovesUpwards(s: State, calls: seq<Call>, id: int)
    requires Inv(s) && AllCarryAccount(calls) && RankedOperators(calls)
    requires Count(s.users, id) == 1 && Count(Run(s, calls).users, id) == 0
    ensures exists k :: 0 <= k < |calls| && RemovedAt(s, calls, id, k) &&
              var u, op := Lookup(Run(s, calls[..k]).users, id).value, calls[k].op;
              && u.ident <= op.ident
              && (u.ident == op.ident ==>
                    u.account == op.account || (u.ident == 1 && op.studentCanDelete == 1))
              && (u.ident == 3 ==> u.account == op.account)
  {
    RunRemovesId(s, calls, id);
    var k :| 0 <= k < |calls| && RemovedAt(s, calls, id, k);
    DeletionRespectsRank(calls[k], Row(id, Lookup(Run(s, calls[..k]).users, id).value));
  }

  /** An administrator disappears, in any run whose deletions act for the three ranks, only through a
      deletion its own account asked for. */
  lemma {:induction false} AdministratorsLeaveByThemselves(s: State, calls: seq<Call>, r: Row<UserInfo>)
    requires Inv(s) && AllCarryAccount(calls) && r in s.users && r.val.ident == 3
    requires forall i :: 0 <= i < |calls| ==> !Reranks(calls[i], r.val.account)
    requires RankedOperators(calls)
    ensures Survives(Run(s, calls), r)
            || exists k :: 0 <= k < |calls| && Removes(calls[k], r) && calls[k].op.account == r.val.account
  {
    RunRemoves(s, calls, r);
    if k :| 0 <= k < |calls| && Removes(calls[k], r) {
      DeletionRespectsRank(calls[k], r);
    }
  }
}
