/** Every procedure, on every arguments, keeps the invariant; what creation and deletion leave. */
module Effects {
  import opened Integrity
  import opened ScoreSql
  import opened StudentDb
  import opened Tables
  import Text
  import opened Wrappers

  // ---- Looking up an account ----

  lemma IdOfFinds(s: State, account: string)
    requires Consistent(s)
    ensures IdOf(s, account) == 0 <==> forall r :: r in s.users ==> r.val.account != account
    ensures var id := IdOf(s, account);
            id != 0 ==> && 0 < id <= LAST_ID && id < s.nextId
                        && Count(s.users, id) == 1 && Lookup(s.users, id).Some?
                        && Lookup(s.users, id).value.account == account
                        && Row(id, Lookup(s.users, id).value) in s.users
  {
    var p := ByAccount(account);
    SelectIdFinds(s.users, p);
    assert forall r :: p(r) <==> r.val.account == account;
    var id := IdOf(s, account);
    if id != 0 {
      var r :| r in s.users && p(r) && r.id == id;
      LookupOfUnique(s.users, r);
      CountLookup(s.users, id);
    }
  }

  lemma IdOfRow(s: State, r: Row<UserInfo>)
    requires Consistent(s) && r in s.users
    ensures IdOf(s, r.val.account) == r.id
  {
    IdOfFinds(s, r.val.account);
  }

  lemma FreshId(s: State)
    requires Consistent(s)
    ensures Count(s.users, s.nextId) == Count(s.scores, s.nextId) == Count(s.auths, s.nextId) == 0
  {
    CountLookup(s.users, s.nextId);
  }

  // ---- Creating ----

  /** An accepted INSERT takes a fresh id for an account nobody had; a refused one changes no row. */
  lemma InsertedFresh(s: State, info: UserInfo)
    requires Consistent(s)
    ensures var r := Exec(s, InsertUser(info));
            r.err.None? ==>
              && s.nextId <= LAST_ID && IdOf(s, info.account) == 0
              && r.db == s.(users := s.users + [Row(s.nextId, info)], nextId := s.nextId + 1)
              && Consistent(r.db)
              && Count(r.db.users, s.nextId) == 1 && Count(r.db.scores, s.nextId) == 0
              && Count(r.db.auths, s.nextId) == 0
              && IdOf(r.db, info.account) == s.nextId
    ensures var r := Exec(s, InsertUser(info));
            r.err.Some? ==> Consistent(r.db) && r.db == s.(nextId := r.db.nextId)
                            && s.nextId <= r.db.nextId <= s.nextId + 1
  {
    FreshId(s);
    NewUserKeepsConsistent(s, info);
    var r := Exec(s, InsertUser(info));
    if r.err.None? {
      Appended(s.users, Row(s.nextId, info));
      assert Row(s.nextId, info) in r.db.users;
      IdOfRow(r.db, Row(s.nextId, info));
    }
  }

  /** A new account gets a fresh id, no score row and the authority passed; everyone else keeps
      all rows. */
  lemma CreatedFresh(s: State, info: UserInfo, account: string, auth: string)
    requires Inv(s)
    ensures var r := Created(s, info, account, auth);
            r.err.None? ==>
              && s.nextId <= LAST_ID && IdOf(s, info.account) == 0
              && r.db.users == s.users + [Row(s.nextId, info)] && r.db.scores == s.scores
              && r.db.nextId == s.nextId + 1 && r.db.subjects == s.subjects
              && Consistent(r.db)
              && IdOf(r.db, info.account) == s.nextId && Count(r.db.scores, s.nextId) == 0
              && r.db.auths == s.auths + if info.account == account then [Row(s.nextId, auth)] else []
    ensures var r := Created(s, info, account, auth);
            r.err.Some? ==> r.db == s.(nextId := r.db.nextId) && Inv(r.db)
                            && s.nextId <= r.db.nextId <= s.nextId + 1
  {
    InsertedFresh(s, info);
    var r, mid := Created(s, info, account, auth), Exec(s, InsertUser(info)).db;
    if r.err.None? && info.account == account {
      AuthorityAppended(mid, s.nextId, auth);
      assert IdOf(r.db, info.account) == IdOf(mid, info.account);
    }
  }

  /** The invariant survives exactly when the inserted account is the one looked up. */
  lemma CreatedKeepsInv(s: State, info: UserInfo, account: string, auth: string)
    requires Inv(s)
    ensures var r := Created(s, info, account, auth);
            Inv(r.db) <==> r.err.Some? || info.account == account
  {
    var r := Created(s, info, account, auth);
    CreatedFresh(s, info, account, auth);
    if r.err.None? && info.account == account {
      CreatedHasAuthority(s, info, auth);
    } else if r.err.None? {
      FreshId(s);
      Appended(s.users, Row(s.nextId, info));
      assert Count(r.db.users, s.nextId) == 1 && Count(r.db.auths, s.nextId) == 0;
    }
  }

  lemma CreatedHasAuthority(s: State, info: UserInfo, auth: string)
    requires EveryoneHasAuthority(s)
    ensures var r := Created(s, info, info.account, auth);
            r.err.None? ==> EveryoneHasAuthority(r.db)
  {
    Appended(s.auths, Row(s.nextId, auth));
    Appended(s.users, Row(s.nextId, info));
    forall id ensures Count(s.auths + [Row(s.nextId, auth)], id) == Count(s.users + [Row(s.nextId, info)], id) {
      assert Count(s.auths, id) == Count(s.users, id);
    }
  }

  /** Inserting an account registers no other one. */
  lemma OthersStayUnknown(s: State, s': State, info: UserInfo, account: string)
    requires Consistent(s) && IdOf(s, account) == 0
    requires Exec(s, InsertUser(info)) == Done(s')
    ensures IdOf(s', account) == if account == info.account then s.nextId else 0
  {
    InsertedFresh(s, info);
    IdOfFinds(s, account);
    IdOfFinds(s', account);
  }

  // ---- Scores ----

  lemma InsertPairsName(names: string, marks: string, subjects: set<string>)
    requires ParseInsert(names, marks, subjects).Some?
    ensures Names(ParseInsert(names, marks, subjects).value, subjects)
  {
    ParsedListsName(Text.FullSplit(names, ","), Text.FullSplit(marks, ","), subjects);
  }

  lemma SetPairsName(text: string, subjects: set<string>)
    requires ParseSet(text, subjects).Some?
    ensures Names(ParseSet(text, subjects).value, subjects)
  {
    ParsedItemsName(Text.FullSplit(text, ","), subjects);
  }

  lemma {:induction false} ScoreInsertedKeepsInv(s: State, id: int, names: string, marks: string, limit: nat)
    requires Inv(s) && Count(s.users, id) == 1 && Count(s.scores, id) == 0
    ensures var r := ScoreInserted(s, id, names, marks, limit);
            Inv(r.db) && r.db.users == s.users && r.err != Some(NullStatement)
  {
    var pairs := ParseInsert(names, marks, s.subjects);
    if pairs.Some? {
      InsertPairsName(names, marks, s.subjects);
      StatementKeepsConsistent(s, InsertScore(id, pairs.value));
    }
  }

  lemma ScoreUpdatedKeepsInv(s: State, id: int, text: string, limit: nat)
    requires Inv(s)
    ensures var r := ScoreUpdated(s, id, text, limit);
            Inv(r.db) && r.db.users == s.users && r.err != Some(NullStatement)
  {
    var pairs := ParseSet(text, s.subjects);
    if pairs.Some? {
      SetPairsName(text, s.subjects);
      StatementKeepsConsistent(s, UpdateScore(id, pairs.value));
    }
  }

  /** The case without a statement text is never met. */
  lemma {:induction false} ScoreWrittenKeepsInv(s: State, id: int, text: string, names: string, marks: string)
    requires Inv(s) && Count(s.users, id) == 1
    ensures var r := ScoreWritten(s, id, text, names, marks);
            Inv(r.db) && r.db.users == s.users && r.err != Some(NullStatement)
  {
    if Count(s.scores, id) == 1 {
      ScoreUpdatedKeepsInv(s, id, text, 200);
    } else {
      ScoreInsertedKeepsInv(s, id, names, marks, 200);
    }
  }

  lemma {:induction false} FirstScoreKeepsInv(s: State, info: UserInfo, auth: string, names: string, marks: string)
    requires Inv(s)
    ensures var r := Created(s, info, info.account, auth);
            r.err.None? ==>
              var q := ScoreInserted(r.db, s.nextId, names, marks, 300);
              Inv(q.db) && q.err != Some(NullStatement) && q.db.users == r.db.users
  {
    CreatedFresh(s, info, info.account, auth);
    CreatedKeepsInv(s, info, info.account, auth);
    var r := Created(s, info, info.account, auth);
    if r.err.None? {
      IdOfFinds(r.db, info.account);
      ScoreInsertedKeepsInv(r.db, s.nextId, names, marks, 300);
    }
  }

  lemma {:induction false} CreatedWithScoreKeepsInv(s: State, info: UserInfo, account: string, auth: string,
                                 names: string, marks: string)
    requires Inv(s)
    ensures var r := CreatedWithScore(s, info, account, auth, names, marks);
            && (Inv(r.db) <==> info.account == account || |r.db.users| == |s.users|)
            && r.err != Some(NullStatement)
  {
    var user := WithoutMajorAndGrade(info);
    CreatedFresh(s, user, account, auth);
    CreatedKeepsInv(s, user, account, auth);
    FirstScoreKeepsInv(s, user, auth, names, marks);
  }

  // ---- Updating a user ----

  lemma UserUpdatedKeepsInv(s: State, id: int, changes: seq<Change>, flag: int, auth: string)
    requires Inv(s)
    ensures Inv(UserUpdated(s, id, changes, flag, auth).db)
  {
    var r := Exec(s, UpdateUser(id, changes));
    UserUpdateKeepsInv(s, id, changes);
    if r.err.None? && flag == 1 && Count(r.db.auths, id) == 1 {
      AuthorityUpdateInOrder(r.db, id, auth);
      SetRowsKeepsCounts(r.db.auths, id, v => auth);
    }
  }

  lemma UserUpdateKeepsCounts(s: State, id: int, changes: seq<Change>)
    ensures var t := ExecUpdateUser(s, id, changes).db;
            t == s.(users := t.users) && forall other :: Count(t.users, other) == Count(s.users, other)
  {
    if Lookup(s.users, id).Some? {
      SetRowsKeepsCounts(s.users, id, v => ChangedAll(Lookup(s.users, id).value, changes));
    }
  }

  lemma UserUpdateKeepsInv(s: State, id: int, changes: seq<Change>)
    requires Inv(s)
    ensures Inv(Exec(s, UpdateUser(id, changes)).db)
  {
    UserUpdateKeepsConsistent(s, id, changes);
    UserUpdateKeepsCounts(s, id, changes);
  }

  // ---- Deleting ----

  /** Users go with all their rows, and no other row is touched. */
  lemma PurgedRows(s: State, ids: set<int>)
    ensures forall r :: r in Purged(s, ids).users <==> r in s.users && r.id !in ids
    ensures forall r :: r in Purged(s, ids).scores <==> r in s.scores && r.id !in ids
    ensures forall r :: r in Purged(s, ids).auths <==> r in s.auths && r.id !in ids
  {
    forall r ensures r in Purged(s, ids).users <==> r in s.users && r.id !in ids {
      InWithout(s.users, ids, r);
    }
    forall r ensures r in Purged(s, ids).scores <==> r in s.scores && r.id !in ids {
      InWithout(s.scores, ids, r);
    }
    forall r ensures r in Purged(s, ids).auths <==> r in s.auths && r.id !in ids {
      InWithout(s.auths, ids, r);
    }
  }

  lemma PurgedCounts(s: State, ids: set<int>, id: int)
    ensures var t := Purged(s, ids);
            && Count(t.users, id) == (if id in ids then 0 else Count(s.users, id))
            && Count(t.scores, id) == (if id in ids then 0 else Count(s.scores, id))
            && Count(t.auths, id) == (if id in ids then 0 else Count(s.auths, id))
  {
    CountWithout(s.users, ids, id);
    CountWithout(s.scores, ids, id);
    CountWithout(s.auths, ids, id);
  }

  lemma PurgedKeepsInv(s: State, ids: set<int>)
    requires Inv(s)
    ensures Inv(Purged(s, ids))
  {
    var t := Purged(s, ids);
    PurgedRows(s, ids);
    forall id
      ensures Count(t.users, id) <= 1 && Count(t.scores, id) <= Count(t.users, id)
              && Count(t.auths, id) == Count(t.users, id)
    {
      PurgedCounts(s, ids, id);
    }
  }

  lemma PurgedTwice(s: State, a: set<int>, b: set<int>)
    ensures Purged(Purged(s, a), b) == Purged(s, a + b)
  {
    WithoutTwice(s.users, a, b);
    WithoutTwice(s.scores, a, b);
    WithoutTwice(s.auths, a, b);
  }

  lemma PurgedNobody(s: State)
    ensures Purged(s, {}) == s
  {
    WithoutNone(s.users, {});
    WithoutNone(s.scores, {});
    WithoutNone(s.auths, {});
  }

  /** `select userID into v` with a condition that fixes the account finds the one id there is. */
  lemma SelectOne(s: State, account: string, p: Row<UserInfo> -> bool, q: Row<UserInfo> -> bool)
    requires Consistent(s)
    requires forall r :: p(r) <==> q(r)
    requires forall r :: q(r) ==> r.val.account == account
    ensures var id := SelectId(s.users, p);
            id >= 0 && IdSet(s.users, q) == if id == 0 then {} else {id}
  {
    SelectIdFinds(s.users, p);
    var id := SelectId(s.users, p);
    if id != 0 {
      var r :| r in s.users && p(r) && r.id == id;
      assert forall other :: other in s.users && q(other) ==> other == r;
    } else {
      assert forall other :: other in s.users ==> !p(other);
    }
  }

  // ---- All procedures ----

  /** The inserted user has the account the procedure is called for. */
  predicate CarriesAccount(c: Call) {
    c.AddSingleScore? || c.AddSingleUserInfo? ==> c.info.account == c.account
  }

  predicate Creating(c: Call) {
    c.UserRegister? || c.AddSingleScore? || c.AddSingleUserInfo?
  }

  lemma ScoreAddedKeepsInv(s: State, text: string, info: UserInfo, account: string, auth: string,
                           names: string, marks: string)
    requires Inv(s)
    ensures var r := ScoreAdded(s, text, info, account, auth, names, marks);
            && (Inv(r.db) <==> info.account == account || |r.db.users| == |s.users|)
            && r.err != Some(NullStatement)
  {
    var id := IdOf(s, account);
    IdOfFinds(s, account);
    if id > 0 {
      ScoreWrittenKeepsInv(s, id, text, names, marks);
    } else {
      CreatedWithScoreKeepsInv(s, info, account, auth, names, marks);
    }
  }

  lemma CreatingKeepsInv(s: State, c: Call)
    requires Inv(s) && Creating(c) && ParametersFit(c)
    ensures var r := Apply(s, c);
            && (Inv(r.db) <==> CarriesAccount(c) || |r.db.users| == |s.users|)
            && r.err != Some(NullStatement)
  {
    match c
    case UserRegister(account, name, pwd, sex, ident, auth) =>
      CreatedKeepsInv(s, UserInfo(account, pwd, name, sex, ident, None, None), account, auth);
    case AddSingleScore(text, info, account, auth, names, marks) =>
      ScoreAddedKeepsInv(s, text, info, account, auth, names, marks);
    case AddSingleUserInfo(info, account, auth) =>
      CreatedKeepsInv(s, info, account, auth);
      CreatedFresh(s, info, account, auth);
  }

  /** Every call that carries its account keeps the invariant; one that does not breaks it as soon
      as it inserts a user. */
  lemma ApplyKeepsInv(s: State, c: Call)
    requires Inv(s)
    ensures var r := Apply(s, c);
            Inv(r.db) <==> CarriesAccount(c) || |r.db.users| == |s.users|
    ensures Apply(s, c).err != Some(NullStatement)
  {
    if ParametersFit(c) {
      match c
      case UpdateSingleUserInfoByAccount(changes, account, flag, auth) =>
        UserUpdatedKeepsInv(s, IdOf(s, account), changes, flag, auth);
      case DeleteSingleUserInfoByAccount(account, op) =>
        PurgedKeepsInv(s, IdSet(s.users, OneTarget(account, op)));
      case DeleteBatchUserInfoByUserId(min, max, op) =>
        PurgedKeepsInv(s, IdSet(s.users, BatchTarget(min, max, op)));
      case _ => CreatingKeepsInv(s, c);
    }
  }
}
