/** The stored procedures, statement by statement, on the tables of a database. */
module Procedures {
  import opened Decimal
  import opened Effects
  import opened Integrity
  import opened ScoreSql
  import opened Scripts
  import opened StringTool
  import opened StudentDb
  import opened Tables
  import opened Text
  import opened Wrappers

  class Database {
    var users: seq<Row<UserInfo>>
    var scores: seq<Row<Marks>>
    var auths: seq<Row<string>>
    var nextId: int
    const subjects := INIT_SUBJECTS

    /** The state after every statement so far, the empty database first. */
    ghost var log: seq<State>

    ghost function Snap(): State
      reads this
    {
      State(users, scores, auths, nextId, subjects)
    }

    /** No statement so far left the tables inconsistent. */
    ghost predicate Logged()
      reads this
    {
      && log != [] && log[|log| - 1] == Snap()
      && forall k :: 0 <= k < |log| ==> Consistent(log[k])
    }

    ghost predicate Valid()
      reads this
    {
      Inv(Snap()) && Logged()
    }

    /** One SQL statement.  The procedures issue statements in order only. */
    method Execute(st: Stmt) returns (err: Option<Error>)
      requires Logged() && InOrder(Snap(), st)
      modifies this
      ensures Snap() == Exec(old(Snap()), st).db && err == Exec(old(Snap()), st).err
      ensures Logged() && log == old(log) + [Snap()]
    {
      StatementKeepsConsistent(Snap(), st);
      var r := Exec(State(users, scores, auths, nextId, subjects), st);
      users, scores, auths, nextId := r.db.users, r.db.scores, r.db.auths, r.db.nextId;
      err := r.err;
      log := log + [Snap()];
    }

    /** Create_Init_table.sql. */
    constructor ()
      ensures Valid() && Snap() == InitState()
    {
      users, scores, auths, nextId := [], [], [], FIRST_ID;
      log := [EmptyState()];
      new;
      InitialStatements();
      InitStateIsValid();
      var e := Execute(InsertUser(ADMIN));
      e := Execute(InsertAuthority(FIRST_ID, AllAuthority()));
    }

    /** A call in progress: from `s` it has issued these statements, each logged. */
    ghost predicate Ran(before: seq<State>, s: State, stmts: seq<Stmt>)
      reads this
    {
      Logged() && log == before + Trace(s, stmts)
    }

    /** What three procedures do for a new user: insert it, look its account up, and give the user
        found an authority row. */
    method InsertUserAndAuthority(info: UserInfo, account: string, authority: string)
      returns (err: Option<Error>, id: int)
      requires Logged() && |authority| <= 150
      requires info.account == account || IdOf(Snap(), account) == 0
      modifies this
      ensures Ran(old(log), old(Snap()), CreateScript(old(Snap()), info, account, authority))
      ensures Outcome(Snap(), err, 0) == Created(old(Snap()), info, account, authority)
      ensures id == if err == None && info.account == account then old(nextId) else 0
    {
      CreateTrace(Snap(), info, account, authority);
      UserThenAuthority(Snap(), info, account, authority);
      id := 0;
      err := Execute(InsertUser(info));
      if err.Some? {
        return;
      }
      id := SelectId(users, ByAccount(account));
      if id > 0 {
        ghost var before, mid := log, Snap();
        err := Execute(InsertAuthority(id, authority));
        Chain(old(log), before, log, [mid], [Snap()]);
      }
    }

    method UserRegister(account: string, name: string, password: string, sex: int, ident: int,
                        authority: string)
      returns (err: Option<Error>, userId: int)
      requires Logged()
      modifies this
      ensures var c := Call.UserRegister(account, name, password, sex, ident, authority);
              && Ran(old(log), old(Snap()), Script(old(Snap()), c))
              && Outcome(Snap(), err, userId) == Apply(old(Snap()), c)
              && (old(Valid()) ==> Valid())
    {
      ghost var c := Call.UserRegister(account, name, password, sex, ident, authority);
      KeepsInv(Snap(), c);
      userId := 0;
      if !ParametersFit(Call.UserRegister(account, name, password, sex, ident, authority)) {
        return Some(DoesNotFit), userId;
      }
      var info := UserInfo(account, password, name, sex, ident, None, None);
      err, userId := InsertUserAndAuthority(info, account, authority);
    }

    /** Called by AddSingleScore for a registered user. */
    method AddSingleScoreHaveRegister(names: string, id: int, marks: string, updateSet: string)
      returns (err: Option<Error>)
      requires Logged() && Count(users, id) == 1
      modifies this
      ensures Ran(old(log), old(Snap()), ScoreScript(old(Snap()), id, updateSet, names, marks))
      ensures Outcome(Snap(), err, 0) == ScoreWritten(old(Snap()), id, updateSet, names, marks)
      ensures err != Some(NullStatement) && (old(Valid()) ==> Valid())
    {
      if Inv(Snap()) {
        ScoreWrittenKeepsInv(Snap(), id, updateSet, names, marks);
      }
      assert Count(scores, id) <= 1;
      var count := Count(scores, id);
      if count == 1 {
        var sql := UpdateScoreText(updateSet, id);
        ScoreTextLengths(updateSet, "", "", id);
        if |sql| > 200 {
          return Some(DoesNotFit);
        }
        err := ExecuteScoreUpdate(updateSet, id, 200);
      } else if count == 0 {
        var sql := InsertScoreText(names, id, marks);
        ScoreTextLengths("", names, marks, id);
        if |sql| > 200 {
          return Some(DoesNotFit);
        }
        err := ExecuteScoreInsert(names, id, marks, 200);
      } else {
        err := Some(NullStatement);
      }
    }

    /** Preparing and executing the text of a score UPDATE that fits. */
    method ExecuteScoreUpdate(updateSet: string, id: int, ghost limit: nat) returns (err: Option<Error>)
      requires Logged() && UpdateScoreLength(updateSet, id) <= limit
      modifies this
      ensures && Ran(old(log), old(Snap()), UpdateScript(id, updateSet, subjects, limit))
              && Outcome(Snap(), err, 0) == ScoreUpdated(old(Snap()), id, updateSet, limit)
              && err != Some(NullStatement)
    {
      var pairs := ParseSet(updateSet, subjects);
      if pairs == None {
        return Some(BadStatement);
      }
      SetPairsName(updateSet, subjects);
      ExecOne(Snap(), UpdateScore(id, pairs.value));
      err := Execute(UpdateScore(id, pairs.value));
    }

    /** Preparing and executing the text of a score INSERT that fits. */
    method ExecuteScoreInsert(names: string, id: int, marks: string, ghost limit: nat)
      returns (err: Option<Error>)
      requires Logged() && Count(users, id) == 1 && Count(scores, id) == 0
      requires InsertScoreLength(names, id, marks) <= limit
      modifies this
      ensures && Ran(old(log), old(Snap()), InsertScript(id, names, marks, subjects, limit))
              && Outcome(Snap(), err, 0) == ScoreInserted(old(Snap()), id, names, marks, limit)
              && err != Some(NullStatement)
    {
      var pairs := ParseInsert(names, marks, subjects);
      if pairs == None {
        return Some(BadStatement);
      }
      InsertPairsName(names, marks, subjects);
      ExecOne(Snap(), InsertScore(id, pairs.value));
      err := Execute(InsertScore(id, pairs.value));
    }

    /** Called by AddSingleScore for an account that is not registered. */
    method AddSingleScoreNotRegister(info: UserInfo, account: string, authority: string,
                                     names: string, marks: string)
      returns (err: Option<Error>)
      requires Logged() && IdOf(Snap(), account) == 0
      requires |FiveValues(info)| <= 200 && |authority| <= 150
      modifies this
      ensures Ran(old(log), old(Snap()), FirstScoreScript(old(Snap()), info, account, authority, names, marks))
      ensures Outcome(Snap(), err, 0)
           == CreatedWithScore(old(Snap()), info, account, authority, names, marks)
      ensures old(Valid()) && info.account == account ==> Valid()
    {
      var user := WithoutMajorAndGrade(info);
      ghost var first := CreateScript(Snap(), user, account, authority);
      ghost var second := InsertScript(nextId, names, marks, subjects, 300);
      FirstScoreKeeps(Snap(), info, account, authority, names, marks);
      FirstScoreTrace(Snap(), info, account, authority, names, marks);
      ReadyForScore(Snap(), user, account, authority);
      var id;
      err, id := InsertUserAndAuthority(user, account, authority);
      if id > 0 {
        var sql := InsertScoreText(names, id, marks);
        ScoreTextLengths("", names, marks, id);
        if |sql| > 300 {
          return Some(DoesNotFit);
        }
        ghost var before, mid := log, Snap();
        err := ExecuteScoreInsert(names, id, marks, 300);
        Chain(old(log), before, log, Trace(old(Snap()), first), Trace(mid, second));
      }
    }

    method AddSingleScore(updateSet: string, info: UserInfo, account: string, authority: string,
                          names: string, marks: string)
      returns (err: Option<Error>)
      requires Logged()
      modifies this
      ensures var c := Call.AddSingleScore(updateSet, info, account, authority, names, marks);
              && Ran(old(log), old(Snap()), Script(old(Snap()), c))
              && Outcome(Snap(), err, 0) == Apply(old(Snap()), c)
              && (old(Valid()) && CarriesAccount(c) ==> Valid())
    {
      ghost var c := Call.AddSingleScore(updateSet, info, account, authority, names, marks);
      KeepsInv(Snap(), c);
      if !ParametersFit(Call.AddSingleScore(updateSet, info, account, authority, names, marks)) {
        return Some(DoesNotFit);
      }
      IdOfFinds(Snap(), account);
      var id := SelectId(users, ByAccount(account));
      if id > 0 {
        err := AddSingleScoreHaveRegister(names, id, marks, updateSet);
      } else {
        err := AddSingleScoreNotRegister(info, account, authority, names, marks);
      }
    }

    method AddSingleUserInfo(info: UserInfo, account: string, authority: string)
      returns (err: Option<Error>)
      requires Logged()
      modifies this
      ensures var c := Call.AddSingleUserInfo(info, account, authority);
              && Ran(old(log), old(Snap()), Script(old(Snap()), c))
              && Outcome(Snap(), err, 0) == Apply(old(Snap()), c)
              && (old(Valid()) && CarriesAccount(c) ==> Valid())
    {
      ghost var c := Call.AddSingleUserInfo(info, account, authority);
      KeepsInv(Snap(), c);
      if !ParametersFit(Call.AddSingleUserInfo(info, account, authority)) {
        return Some(DoesNotFit);
      }
      IdOfFinds(Snap(), account);
      var id := SelectId(users, ByAccount(account));
      if id > 0 {
        return None;
      }
      err, id := InsertUserAndAuthority(info, account, authority);
    }

    method UpdateSingleUserInfoByAccount(changes: seq<Change>, account: string,
                                         updateIdentFlag: int, authority: string)
      returns (err: Option<Error>)
      requires Logged()
      modifies this
      ensures var c := Call.UpdateSingleUserInfoByAccount(changes, account, updateIdentFlag, authority);
              && Ran(old(log), old(Snap()), Script(old(Snap()), c))
              && Outcome(Snap(), err, 0) == Apply(old(Snap()), c)
              && (old(Valid()) ==> Valid())
    {
      ghost var c := Call.UpdateSingleUserInfoByAccount(changes, account, updateIdentFlag, authority);
      KeepsInv(Snap(), c);
      if !ParametersFit(Call.UpdateSingleUserInfoByAccount(changes, account, updateIdentFlag, authority)) {
        return Some(DoesNotFit);
      }
      err := None;
      var id := SelectId(users, ByAccount(account));
      if id > 0 {
        err := UpdateUserAndAuthority(id, changes, updateIdentFlag, authority);
      }
    }

    method UpdateUserAndAuthority(id: int, changes: seq<Change>, updateIdentFlag: int,
                                  authority: string)
      returns (err: Option<Error>)
      requires Logged()
      modifies this
      ensures Ran(old(log), old(Snap()), UserScript(old(Snap()), id, changes, updateIdentFlag, authority))
      ensures Outcome(Snap(), err, 0)
           == UserUpdated(old(Snap()), id, changes, updateIdentFlag, authority)
    {
      UserTrace(Snap(), id, changes, updateIdentFlag, authority);
      err := Execute(UpdateUser(id, changes));
      if err.Some? {
        return;
      }
      if updateIdentFlag == 1 {
        var count := Count(auths, id);
        if count == 1 {
          err := Execute(UpdateAuthority(id, authority));
        }
      }
    }

    /** The three deletions of a user, children first. */
    method DeleteRows(id: int)
      requires Logged()
      modifies this
      ensures Ran(old(log), old(Snap()), DeleteOne(id)) && Snap() == Purged(old(Snap()), {id})
    {
      ghost var s := Snap();
      ghost var t := Exec(s, DeleteScore(id)).db;
      DeleteOneRuns(s, id);
      CountWithout(scores, {id}, id);
      CountWithout(auths, {id}, id);
      AppendThree(log, t, Exec(t, DeleteAuthority(id)).db, Purged(s, {id}));
      var e := Execute(DeleteScore(id));
      e := Execute(DeleteAuthority(id));
      e := Execute(DeleteUser(id));
    }

    method DeleteSingleUserInfoByAccount(account: string, myIdent: int, myAccount: string,
                                         studentCanDelete: int)
      returns (err: Option<Error>, result: int)
      requires Logged()
      modifies this
      ensures var c := Call.DeleteSingleUserInfoByAccount(
                         account, Operator(myIdent, myAccount, studentCanDelete));
              && Ran(old(log), old(Snap()), Script(old(Snap()), c))
              && Outcome(Snap(), err, result) == Apply(old(Snap()), c)
              && (old(Valid()) ==> Valid())
    {
      var op := Operator(myIdent, myAccount, studentCanDelete);
      KeepsInv(Snap(), Call.DeleteSingleUserInfoByAccount(account, op));
      SingleScript(Snap(), account, op);
      err, result := None, 0;
      if !ParametersFit(Call.DeleteSingleUserInfoByAccount(account, op)) {
        return Some(DoesNotFit), 0;
      }
      var id := 0;
      ghost var target := OneTarget(account, op);
      if myIdent == 1 && studentCanDelete == 1 {
        var p := (r: Row<UserInfo>) => r.val.account == account && r.val.ident == 1;
        id := SelectId(users, p);
        SelectIdSame(users, p, target);
      } else if myIdent > 1 {
        var p := (r: Row<UserInfo>) =>
          r.val.account == account
          && (r.val.ident < myIdent || (r.val.ident == myIdent && r.val.account == myAccount));
        id := SelectId(users, p);
        SelectIdSame(users, p, target);
      } else {
        SelectIdNone(users, target);
      }
      if id > 0 {
        result := 1;
        DeleteRows(id);
      }
    }

    method DeleteBatchUserInfoByUserId(minUserId: int, maxUserId: int, myIdent: int,
                                       myAccount: string, studentCanDelete: int)
      returns (err: Option<Error>, result: int)
      requires Logged()
      modifies this
      ensures var c := Call.DeleteBatchUserInfoByUserId(
                         minUserId, maxUserId, Operator(myIdent, myAccount, studentCanDelete));
              && Ran(old(log), old(Snap()), Script(old(Snap()), c))
              && Outcome(Snap(), err, result) == Apply(old(Snap()), c)
              && (old(Valid()) ==> Valid())
    {
      var op := Operator(myIdent, myAccount, studentCanDelete);
      KeepsInv(Snap(), Call.DeleteBatchUserInfoByUserId(minUserId, maxUserId, op));
      BatchScript(Snap(), minUserId, maxUserId, op);
      err, result := None, 0;
      if !ParametersFit(Call.DeleteBatchUserInfoByUserId(minUserId, maxUserId, op)) {
        return Some(DoesNotFit), 0;
      }
      var cursor := SelectIds(users, BatchTarget(minUserId, maxUserId, op));
      result := EmpLoop(cursor);
    }

    /** The loop over the opened cursor. */
    method EmpLoop(cursor: seq<int>) returns (result: int)
      requires Logged()
      modifies this
      ensures Ran(old(log), old(Snap()), DeleteScript(cursor))
      ensures Snap() == ExecAll(old(Snap()), DeleteScript(cursor)).db
      ensures result == if |cursor| == 0 then 0 else 1
      ensures old(Valid()) ==> Valid()
    {
      DeleteScriptRuns(Snap(), cursor);
      if Inv(Snap()) {
        PurgedKeepsInv(Snap(), Elements(cursor));
      }
      var id, done := 0, 0;
      result := 0;
      var fetched := 0;
      while true
        invariant 0 <= fetched <= |cursor| && done == 0
        invariant Ran(old(log), old(Snap()), DeleteScript(cursor[..fetched]))
        invariant Snap() == ExecAll(old(Snap()), DeleteScript(cursor[..fetched])).db
        invariant result == if fetched == 0 then 0 else 1
        decreases |cursor| - fetched
      {
        if fetched < |cursor| {
          id := cursor[fetched];
          fetched := fetched + 1;
        } else {
          done := 1;
        }
        if done == 1 {
          break;
        }
        if result == 0 {
          result := 1;
        }
        NextDeleted(old(Snap()), cursor, fetched - 1);
        ghost var before, three := log, Trace(Snap(), DeleteOne(id));
        DeleteRows(id);
        Chain(old(log), before, log, Trace(old(Snap()), DeleteScript(cursor[..fetched - 1])), three);
      }
      assert cursor[..fetched] == cursor;
    }
  }

  /** Between the two statements of a creation: what looking up the account finds, and that the
      authority row comes in order. */
  lemma UserThenAuthority(s: State, info: UserInfo, account: string, auth: string)
    requires Consistent(s) && (info.account == account || IdOf(s, account) == 0)
    ensures s.nextId > 0
    ensures var r := Exec(s, InsertUser(info));
            r.err.None? ==>
              && IdOf(r.db, account) == (if info.account == account then s.nextId else 0)
              && (info.account == account ==> InOrder(r.db, InsertAuthority(s.nextId, auth)))
  {
    InsertedFresh(s, info);
    var r := Exec(s, InsertUser(info));
    if r.err.None? && info.account != account {
      OthersStayUnknown(s, r.db, info, account);
    }
  }

  lemma SingleScript(s: State, account: string, op: Operator)
    requires Consistent(s)
    ensures var c := DeleteSingleUserInfoByAccount(account, op);
            var id := SelectId(s.users, OneTarget(account, op));
            if !ParametersFit(c) then Script(s, c) == [] && Apply(s, c) == Fail(s, DoesNotFit)
            else
              && Script(s, c) == (if id > 0 then DeleteOne(id) else [])
              && Apply(s, c)
                 == Outcome(if id > 0 then Purged(s, {id}) else s, None, if id > 0 then 1 else 0)
  {
    OneFetched(s, account, op);
  }

  lemma BatchScript(s: State, min: int, max: int, op: Operator)
    ensures var c := DeleteBatchUserInfoByUserId(min, max, op);
            var cursor := SelectIds(s.users, BatchTarget(min, max, op));
            if !ParametersFit(c) then Script(s, c) == [] && Apply(s, c) == Fail(s, DoesNotFit)
            else
              && Script(s, c) == DeleteScript(cursor)
              && Apply(s, c) == Outcome(ExecAll(s, DeleteScript(cursor)).db, None, if |cursor| == 0 then 0 else 1)
  {
    AllFetched(s, BatchTarget(min, max, op));
  }

  lemma AppendThree<T>(v: seq<T>, a: T, b: T, c: T)
    ensures v + [a] + [b] + [c] == v + [a, b, c]
  {
  }

  lemma Chain<T>(before: seq<T>, mid: seq<T>, after: seq<T>, a: seq<T>, b: seq<T>)
    requires mid == before + a && after == mid + b
    ensures after == before + (a + b)
  {
  }

  /** One turn of the loop: its three statements are appended to those so far. */
  lemma NextDeleted(s: State, cursor: seq<int>, i: nat)
    requires i < |cursor|
    ensures var so_far, t := DeleteScript(cursor[..i]), ExecAll(s, DeleteScript(cursor[..i])).db;
            && Trace(s, DeleteScript(cursor[..i + 1])) == Trace(s, so_far) + Trace(t, DeleteOne(cursor[i]))
            && ExecAll(s, DeleteScript(cursor[..i + 1])).db == Purged(t, {cursor[i]})
  {
    var next := cursor[..i + 1];
    assert next[..i] == cursor[..i];
    DeleteScriptRuns(s, cursor[..i]);
    ExecAllAppend(s, DeleteScript(cursor[..i]), DeleteOne(cursor[i]));
    TraceAppend(s, DeleteScript(cursor[..i]), DeleteOne(cursor[i]));
    DeleteOneRuns(ExecAll(s, DeleteScript(cursor[..i])).db, cursor[i]);
  }

  lemma FirstScoreTrace(s: State, info: UserInfo, account: string, auth: string, names: string, marks: string)
    requires Consistent(s) && |auth| <= 150
    ensures var first := CreateScript(s, WithoutMajorAndGrade(info), account, auth);
            var r := Created(s, WithoutMajorAndGrade(info), account, auth);
            Trace(s, FirstScoreScript(s, info, account, auth, names, marks))
            == if r.err.None? && info.account == account then
                 Trace(s, first) + Trace(r.db, InsertScript(s.nextId, names, marks, s.subjects, 300))
               else Trace(s, first)
  {
    var first := CreateScript(s, WithoutMajorAndGrade(info), account, auth);
    CreateScriptRuns(s, WithoutMajorAndGrade(info), account, auth);
    TraceAppend(s, first, InsertScript(s.nextId, names, marks, s.subjects, 300));
    assert first + [] == first;
  }

  lemma ReadyForScore(s: State, info: UserInfo, account: string, auth: string)
    requires Consistent(s)
    ensures var r := Created(s, info, account, auth);
            r.err.None? ==>
              Count(r.db.users, s.nextId) == 1 && Count(r.db.scores, s.nextId) == 0 && s.nextId > 0
  {
    InsertedFresh(s, info);
  }

  lemma FirstScoreKeeps(s: State, info: UserInfo, account: string, auth: string, names: string, marks: string)
    ensures Inv(s) && info.account == account ==>
              Inv(CreatedWithScore(s, info, account, auth, names, marks).db)
  {
    if Inv(s) {
      CreatedWithScoreKeepsInv(s, info, account, auth, names, marks);
    }
  }

  lemma KeepsInv(s: State, c: Call)
    ensures Inv(s) && CarriesAccount(c) ==> Inv(Apply(s, c).db)
  {
    if Inv(s) {
      ApplyKeepsInv(s, c);
    }
  }

  function EmptyState(): State {
    State([], [], [], FIRST_ID, INIT_SUBJECTS)
  }

  lemma InitialNamesArePlain()
    ensures PlainNames(INIT_SUBJECTS)
  {
  }

  lemma {:induction false} ShortTexts(n: nat)
    requires n <= 30
    ensures TotalLength(IntTexts(seq(n, i => i + 1))) <= 2 * n
  {
    if n > 0 {
      ShortTexts(n - 1);
      Pow10Values();
      NatWidth(n, 2);
      var texts := IntTexts(seq(n - 1, i => i + 1));
      assert IntTexts(seq(n, i => i + 1)) == texts + [IntToStr(n)];
      TotalLengthSnoc(texts, IntToStr(n));
    }
  }

  /** The administrator's authority text fits its column, and splits into the 30 permissions. */
  lemma AdministratorAuthority()
    ensures |AllAuthority()| <= 150
    ensures ParsedInts(AllAuthority(), "|") == seq(30, i => i + 1)
  {
    ShortTexts(30);
    JoinLength(IntTexts(seq(30, i => i + 1)), "|");
    IntListRoundTrip(seq(30, i => i + 1), "|");
  }

  lemma InitialStatements()
    ensures Consistent(EmptyState())
    ensures var mid := Exec(EmptyState(), InsertUser(ADMIN));
            && mid == Done(State([Row(FIRST_ID, ADMIN)], [], [], FIRST_ID + 1, INIT_SUBJECTS))
            && InOrder(mid.db, InsertAuthority(FIRST_ID, AllAuthority()))
            && Exec(mid.db, InsertAuthority(FIRST_ID, AllAuthority())) == Done(InitState())
  {
    EmptyIsConsistent();
    AdministratorInserted();
    AdministratorAuthority();
    Appended([], Row(FIRST_ID, ADMIN));
  }

  lemma AdministratorInserted()
    ensures Exec(EmptyState(), InsertUser(ADMIN))
            == Done(State([] + [Row(FIRST_ID, ADMIN)], [], [], FIRST_ID + 1, INIT_SUBJECTS))
  {
  }

  lemma EmptyIsConsistent()
    ensures Consistent(EmptyState())
  {
    InitialNamesArePlain();
  }

  lemma InitStateIsValid()
    ensures Inv(InitState())
  {
    var s := InitState();
    InitialNamesArePlain();
    Appended([], Row(FIRST_ID, ADMIN));
    Appended([], Row(FIRST_ID, AllAuthority()));
    assert [] + [Row(FIRST_ID, ADMIN)] == s.users;
    assert [] + [Row(FIRST_ID, AllAuthority())] == s.auths;
  }
}
