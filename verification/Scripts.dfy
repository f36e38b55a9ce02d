/** The statements each call issues, and what is left when it is cut off after some of them. */
module Scripts {
  import opened Effects
  import opened Integrity
  import opened StudentDb
  import opened Tables
  import opened Upsert
  import opened Wrappers

  /** One statement after the other, up to the first that fails. */
  function ExecAll(s: State, stmts: seq<Stmt>): Outcome
    decreases |stmts|
  {
    if stmts == [] then Done(s)
    else
      var r := Exec(s, stmts[0]);
      if r.err.Some? then r else ExecAll(r.db, stmts[1..])
  }

  /** The states after each of them. */
  function Trace(s: State, stmts: seq<Stmt>): seq<State>
    decreases |stmts|
  {
    if stmts == [] then []
    else
      var r := Exec(s, stmts[0]);
      [r.db] + if r.err.Some? then [] else Trace(r.db, stmts[1..])
  }

  ghost predicate InOrderAll(s: State, stmts: seq<Stmt>)
    decreases |stmts|
  {
    stmts == []
    || (InOrder(s, stmts[0])
        && (Exec(s, stmts[0]).err.None? ==> InOrderAll(Exec(s, stmts[0]).db, stmts[1..])))
  }

  lemma AppendTail(a: seq<Stmt>, b: seq<Stmt>)
    requires a != []
    ensures (a + b)[0] == a[0] && (a + b)[1..] == a[1..] + b
  {
  }

  lemma {:induction false} ExecAllAppend(s: State, a: seq<Stmt>, b: seq<Stmt>)
    ensures ExecAll(s, a + b)
            == if ExecAll(s, a).err.Some? then ExecAll(s, a) else ExecAll(ExecAll(s, a).db, b)
    decreases |a|
  {
    if a == [] {
      assert a + b == b;
    } else {
      AppendTail(a, b);
      ExecAllAppend(Exec(s, a[0]).db, a[1..], b);
    }
  }

  lemma {:induction false} TraceAppend(s: State, a: seq<Stmt>, b: seq<Stmt>)
    ensures Trace(s, a + b)
            == Trace(s, a) + if ExecAll(s, a).err.Some? then [] else Trace(ExecAll(s, a).db, b)
    decreases |a|
  {
    if a == [] {
      assert a + b == b;
    } else {
      AppendTail(a, b);
      TraceAppend(Exec(s, a[0]).db, a[1..], b);
    }
  }

  lemma {:induction false} InOrderAppend(s: State, a: seq<Stmt>, b: seq<Stmt>)
    ensures InOrderAll(s, a + b)
            <==> InOrderAll(s, a) && (ExecAll(s, a).err.None? ==> InOrderAll(ExecAll(s, a).db, b))
    decreases |a|
  {
    if a == [] {
      assert a + b == b;
    } else {
      AppendTail(a, b);
      InOrderAppend(Exec(s, a[0]).db, a[1..], b);
    }
  }

  lemma {:induction false} ExecOne(s: State, st: Stmt)
    ensures ExecAll(s, [st]).db == Exec(s, st).db && ExecAll(s, [st]).err == Exec(s, st).err
    ensures Trace(s, [st]) == [Exec(s, st).db]
    ensures InOrderAll(s, [st]) <==> InOrder(s, st)
  {
    assert [st][1..] == [];
  }

  lemma {:induction false} InOrderKeepsConsistent(s: State, stmts: seq<Stmt>)
    requires Consistent(s) && InOrderAll(s, stmts)
    ensures Consistent(ExecAll(s, stmts).db)
    decreases |stmts|
  {
    if stmts != [] {
      StatementKeepsConsistent(s, stmts[0]);
      if Exec(s, stmts[0]).err.None? {
        InOrderKeepsConsistent(Exec(s, stmts[0]).db, stmts[1..]);
      }
    }
  }

  // ---- The script of each call ----

  function CreateScript(s: State, info: UserInfo, account: string, auth: string): seq<Stmt> {
    [InsertUser(info)] + if info.account == account then [InsertAuthority(s.nextId, auth)] else []
  }

  function InsertScript(id: int, names: string, marks: string, subjects: set<string>, limit: nat): seq<Stmt> {
    var pairs := InsertPairs(id, names, marks, subjects, limit);
    if pairs.Some? then [InsertScore(id, pairs.value)] else []
  }

  function UpdateScript(id: int, text: string, subjects: set<string>, limit: nat): seq<Stmt> {
    var pairs := UpdatePairs(id, text, subjects, limit);
    if pairs.Some? then [UpdateScore(id, pairs.value)] else []
  }

  /** For a registered user. */
  function ScoreScript(s: State, id: int, text: string, names: string, marks: string): seq<Stmt> {
    if Count(s.scores, id) == 1 then UpdateScript(id, text, s.subjects, 200)
    else if Count(s.scores, id) == 0 then InsertScript(id, names, marks, s.subjects, 200)
    else []
  }

  /** For a new one. */
  function FirstScoreScript(s: State, info: UserInfo, account: string, auth: string, names: string,
                            marks: string): seq<Stmt>
  {
    CreateScript(s, WithoutMajorAndGrade(info), account, auth)
    + if info.account == account then InsertScript(s.nextId, names, marks, s.subjects, 300) else []
  }

  function UserScript(s: State, id: int, changes: seq<Change>, flag: int, auth: string): seq<Stmt> {
    [UpdateUser(id, changes)]
    + if flag == 1 && Count(s.auths, id) == 1 then [UpdateAuthority(id, auth)] else []
  }

  function DeleteOne(id: int): seq<Stmt> {
    [DeleteScore(id), DeleteAuthority(id), DeleteUser(id)]
  }

  function DeleteScript(ids: seq<int>): seq<Stmt> {
    if ids == [] then [] else DeleteScript(ids[..|ids| - 1]) + DeleteOne(ids[|ids| - 1])
  }

  function Script(s: State, c: Call): seq<Stmt> {
    if !ParametersFit(c) then []
    else
      match c
      case UserRegister(account, name, pwd, sex, ident, auth) =>
        CreateScript(s, UserInfo(account, pwd, name, sex, ident, None, None), account, auth)
      case AddSingleScore(text, info, account, auth, names, marks) =>
        if IdOf(s, account) > 0 then ScoreScript(s, IdOf(s, account), text, names, marks)
        else FirstScoreScript(s, info, account, auth, names, marks)
      case AddSingleUserInfo(info, account, auth) =>
        if IdOf(s, account) > 0 then [] else CreateScript(s, info, account, auth)
      case UpdateSingleUserInfoByAccount(changes, account, flag, auth) =>
        if IdOf(s, account) > 0 then UserScript(s, IdOf(s, account), changes, flag, auth) else []
      case DeleteSingleUserInfoByAccount(account, op) =>
        var id := SelectId(s.users, OneTarget(account, op));
        if id > 0 then DeleteOne(id) else []
      case DeleteBatchUserInfoByUserId(min, max, op) =>
        DeleteScript(SelectIds(s.users, BatchTarget(min, max, op)))
  }

  // ---- Each script does what its call does, in order ----

  lemma CreateScriptRuns(s: State, info: UserInfo, account: string, auth: string)
    requires Consistent(s) && |auth| <= 150
    ensures var stmts := CreateScript(s, info, account, auth);
            ExecAll(s, stmts) == Created(s, info, account, auth) && InOrderAll(s, stmts)
  {
    var mid := Exec(s, InsertUser(info)).db;
    InsertedFresh(s, info);
    ExecOne(s, InsertUser(info));
    if info.account == account {
      ExecAllAppend(s, [InsertUser(info)], [InsertAuthority(s.nextId, auth)]);
      InOrderAppend(s, [InsertUser(info)], [InsertAuthority(s.nextId, auth)]);
      ExecOne(mid, InsertAuthority(s.nextId, auth));
    } else {
      assert [InsertUser(info)] + [] == [InsertUser(info)];
    }
  }

  lemma CreateTrace(s: State, info: UserInfo, account: string, auth: string)
    requires |auth| <= 150
    ensures var r := Exec(s, InsertUser(info));
            Trace(s, CreateScript(s, info, account, auth))
            == [r.db] + if r.err.None? && info.account == account then [Created(s, info, account, auth).db] else []
  {
    var first, second := [InsertUser(info)], [InsertAuthority(s.nextId, auth)];
    ExecOne(s, first[0]);
    TraceAppend(s, first, second);
    ExecOne(Exec(s, first[0]).db, second[0]);
    assert first + [] == first;
  }

  lemma InsertScriptRuns(s: State, id: int, names: string, marks: string, limit: nat)
    requires Count(s.users, id) == 1 && Count(s.scores, id) == 0
    ensures var stmts := InsertScript(id, names, marks, s.subjects, limit);
            ExecAll(s, stmts).db == ScoreInserted(s, id, names, marks, limit).db && InOrderAll(s, stmts)
  {
    var pairs := InsertPairs(id, names, marks, s.subjects, limit);
    if pairs.Some? {
      InsertPairsName(names, marks, s.subjects);
      ExecOne(s, InsertScore(id, pairs.value));
    }
  }

  lemma UpdateScriptRuns(s: State, id: int, text: string, limit: nat)
    ensures var stmts := UpdateScript(id, text, s.subjects, limit);
            ExecAll(s, stmts).db == ScoreUpdated(s, id, text, limit).db && InOrderAll(s, stmts)
  {
    var pairs := UpdatePairs(id, text, s.subjects, limit);
    if pairs.Some? {
      SetPairsName(text, s.subjects);
      ExecOne(s, UpdateScore(id, pairs.value));
    }
  }

  lemma ScoreScriptRuns(s: State, id: int, text: string, names: string, marks: string)
    requires Count(s.users, id) == 1
    ensures var stmts := ScoreScript(s, id, text, names, marks);
            ExecAll(s, stmts).db == ScoreWritten(s, id, text, names, marks).db && InOrderAll(s, stmts)
  {
    if Count(s.scores, id) == 1 {
      UpdateScriptRuns(s, id, text, 200);
    } else if Count(s.scores, id) == 0 {
      InsertScriptRuns(s, id, names, marks, 200);
    }
  }

  lemma FirstScoreScriptRuns(s: State, info: UserInfo, account: string, auth: string, names: string,
                             marks: string)
    requires Consistent(s) && |auth| <= 150
    ensures var stmts := FirstScoreScript(s, info, account, auth, names, marks);
            ExecAll(s, stmts).db == CreatedWithScore(s, info, account, auth, names, marks).db
            && InOrderAll(s, stmts)
  {
    var user := WithoutMajorAndGrade(info);
    var r := Created(s, user, account, auth);
    CreateScriptRuns(s, user, account, auth);
    InsertedFresh(s, user);
    var first := CreateScript(s, user, account, auth);
    if info.account == account {
      var second := InsertScript(s.nextId, names, marks, s.subjects, 300);
      ExecAllAppend(s, first, second);
      InOrderAppend(s, first, second);
      if r.err.None? {
        InsertScriptRuns(r.db, s.nextId, names, marks, 300);
      }
    } else {
      assert first + [] == first;
    }
  }

  lemma UserScriptRuns(s: State, id: int, changes: seq<Change>, flag: int, auth: string)
    requires |auth| <= 150
    ensures var stmts := UserScript(s, id, changes, flag, auth);
            ExecAll(s, stmts).db == UserUpdated(s, id, changes, flag, auth).db && InOrderAll(s, stmts)
  {
    var first := UpdateUser(id, changes);
    var r := Exec(s, first);
    ExecOne(s, first);
    UserUpdateKeepsCounts(s, id, changes);
    if flag == 1 && Count(s.auths, id) == 1 {
      ExecAllAppend(s, [first], [UpdateAuthority(id, auth)]);
      InOrderAppend(s, [first], [UpdateAuthority(id, auth)]);
      ExecOne(r.db, UpdateAuthority(id, auth));
    } else {
      assert [first] + [] == [first];
    }
  }

  lemma UserTrace(s: State, id: int, changes: seq<Change>, flag: int, auth: string)
    ensures var r := Exec(s, UpdateUser(id, changes));
            Trace(s, UserScript(s, id, changes, flag, auth))
            == [r.db] + if r.err.None? && flag == 1 && Count(r.db.auths, id) == 1 then
                          [Exec(r.db, UpdateAuthority(id, auth)).db] else []
  {
    var first, second := [UpdateUser(id, changes)], [UpdateAuthority(id, auth)];
    ExecOne(s, first[0]);
    TraceAppend(s, first, second);
    ExecOne(Exec(s, first[0]).db, second[0]);
    UserUpdateKeepsCounts(s, id, changes);
    assert first + [] == first;
  }

  ghost function Elements(v: seq<int>): set<int> {
    set x | x in v
  }

  /** The three deletions of a user, children first. */
  lemma {:induction false} DeleteOneRuns(s: State, id: int)
    ensures ExecAll(s, DeleteOne(id)) == Done(Purged(s, {id})) && InOrderAll(s, DeleteOne(id))
    ensures Trace(s, DeleteOne(id))
            == [Exec(s, DeleteScore(id)).db, Exec(Exec(s, DeleteScore(id)).db, DeleteAuthority(id)).db, Purged(s, {id})]
  {
    var t := Exec(s, DeleteScore(id)).db;
    var u := Exec(t, DeleteAuthority(id)).db;
    CountWithout(s.scores, {id}, id);
    CountWithout(s.auths, {id}, id);
    assert DeleteOne(id)[1..] == [DeleteAuthority(id), DeleteUser(id)];
    assert [DeleteAuthority(id), DeleteUser(id)][1..] == [DeleteUser(id)];
    ExecOne(u, DeleteUser(id));
  }

  lemma {:induction false} DeleteScriptRuns(s: State, ids: seq<int>)
    ensures ExecAll(s, DeleteScript(ids)) == Done(Purged(s, Elements(ids)))
    ensures InOrderAll(s, DeleteScript(ids))
  {
    if ids == [] {
      PurgedNobody(s);
      assert Elements(ids) == {};
    } else {
      var front, last := ids[..|ids| - 1], ids[|ids| - 1];
      DeleteScriptRuns(s, front);
      DeleteOneRuns(Purged(s, Elements(front)), last);
      ExecAllAppend(s, DeleteScript(front), DeleteOne(last));
      InOrderAppend(s, DeleteScript(front), DeleteOne(last));
      PurgedTwice(s, Elements(front), {last});
      assert Elements(ids) == Elements(front) + {last};
    }
  }

  lemma AllFetched(s: State, p: Row<UserInfo> -> bool)
    ensures var cursor := SelectIds(s.users, p);
            Deleted(s, p) == Outcome(ExecAll(s, DeleteScript(cursor)).db, None, if |cursor| == 0 then 0 else 1)
  {
    var cursor := SelectIds(s.users, p);
    DeleteScriptRuns(s, cursor);
    forall id ensures id in Elements(cursor) <==> id in IdSet(s.users, p) {
      SelectIdsFind(s.users, p, id);
    }
    assert Elements(cursor) == IdSet(s.users, p);
    assert cursor != [] ==> cursor[0] in Elements(cursor);
  }

  lemma OneFetched(s: State, account: string, op: Operator)
    requires Consistent(s)
    ensures var target := OneTarget(account, op);
            var id := SelectId(s.users, target);
            && Deleted(s, target).db == (if id > 0 then Purged(s, {id}) else s)
            && Deleted(s, target).result == if id > 0 then 1 else 0
  {
    var target := OneTarget(account, op);
    var id := SelectId(s.users, target);
    SelectOne(s, account, target, target);
    PurgedNobody(s);
  }

  /** From a consistent state the statements of a call come in order, and all of them together are the
      call. */
  lemma ScriptIsApply(s: State, c: Call)
    requires Consistent(s)
    ensures ExecAll(s, Script(s, c)).db == Apply(s, c).db && InOrderAll(s, Script(s, c))
  {
    if ParametersFit(c) {
      match c
      case UserRegister(account, name, pwd, sex, ident, auth) =>
        CreateScriptRuns(s, UserInfo(account, pwd, name, sex, ident, None, None), account, auth);
      case AddSingleScore(text, info, account, auth, names, marks) =>
        IdOfFinds(s, account);
        if IdOf(s, account) > 0 {
          ScoreScriptRuns(s, IdOf(s, account), text, names, marks);
        } else {
          FirstScoreScriptRuns(s, info, account, auth, names, marks);
        }
      case AddSingleUserInfo(info, account, auth) => CreateScriptRuns(s, info, account, auth);
      case UpdateSingleUserInfoByAccount(changes, account, flag, auth) =>
        UserScriptRuns(s, IdOf(s, account), changes, flag, auth);
      case DeleteSingleUserInfoByAccount(account, op) =>
        OneFetched(s, account, op);
        DeleteOneRuns(s, SelectId(s.users, OneTarget(account, op)));
      case DeleteBatchUserInfoByUserId(min, max, op) =>
        AllFetched(s, BatchTarget(min, max, op));
        DeleteScriptRuns(s, SelectIds(s.users, BatchTarget(min, max, op)));
    }
  }

  // ---- Calls that are cut off ----

  /** A call that ends, for whatever reason, after at most so many statements. */
  datatype Attempt = Attempt(call: Call, statements: nat)

  function FirstOf(stmts: seq<Stmt>, k: nat): seq<Stmt> {
    if k < |stmts| then stmts[..k] else stmts
  }

  function CutOff(s: State, a: Attempt): State {
    ExecAll(s, FirstOf(Script(s, a.call), a.statements)).db
  }

  function CutRun(s: State, attempts: seq<Attempt>): State {
    if attempts == [] then s
    else CutOff(CutRun(s, attempts[..|attempts| - 1]), attempts[|attempts| - 1])
  }

  lemma CutOffKeepsConsistent(s: State, a: Attempt)
    requires Consistent(s)
    ensures Consistent(CutOff(s, a))
    ensures a.statements >= |Script(s, a.call)| ==> CutOff(s, a) == Apply(s, a.call).db
  {
    var stmts := Script(s, a.call);
    ScriptIsApply(s, a.call);
    var first := FirstOf(stmts, a.statements);
    assert stmts == first + stmts[|first|..];
    InOrderAppend(s, first, stmts[|first|..]);
    InOrderKeepsConsistent(s, first);
  }

  lemma WholeCallKeepsConsistent(s: State, c: Call)
    requires Consistent(s)
    ensures Consistent(Apply(s, c).db)
  {
    CutOffKeepsConsistent(s, Attempt(c, |Script(s, c)|));
  }

  lemma {:induction false} CutRunKeepsConsistent(s: State, attempts: seq<Attempt>)
    requires Consistent(s)
    ensures Consistent(CutRun(s, attempts))
  {
    if attempts != [] {
      CutRunKeepsConsistent(s, attempts[..|attempts| - 1]);
      CutOffKeepsConsistent(CutRun(s, attempts[..|attempts| - 1]), attempts[|attempts| - 1]);
    }
  }

  lemma {:induction false} ExecAllKeepsSubjects(s: State, stmts: seq<Stmt>)
    ensures ExecAll(s, stmts).db.subjects == s.subjects
    decreases |stmts|
  {
    if stmts != [] && Exec(s, stmts[0]).err.None? {
      ExecAllKeepsSubjects(Exec(s, stmts[0]).db, stmts[1..]);
    }
  }

  lemma {:induction false} CutRunKeepsSubjects(s: State, attempts: seq<Attempt>)
    ensures CutRun(s, attempts).subjects == s.subjects
  {
    if attempts != [] {
      var t, a := CutRun(s, attempts[..|attempts| - 1]), attempts[|attempts| - 1];
      CutRunKeepsSubjects(s, attempts[..|attempts| - 1]);
      ExecAllKeepsSubjects(t, FirstOf(Script(t, a.call), a.statements));
    }
  }

  /** From a consistent state no call meets a score count it does not handle. */
  lemma NeverNullStatement(s: State, c: Call)
    requires Consistent(s)
    ensures Apply(s, c).err != Some(NullStatement)
  {
    if c.AddSingleScore? {
      ScoreAddedHasStatement(s, c.updateSet, c.info, c.account, c.authority, c.names, c.marks);
    }
  }

  lemma ScoreAddedHasStatement(s: State, text: string, info: UserInfo, account: string, auth: string,
                               names: string, marks: string)
    requires Consistent(s)
    ensures ScoreAdded(s, text, info, account, auth, names, marks).err != Some(NullStatement)
  {
    var id := IdOf(s, account);
    IdOfFinds(s, account);
    if id > 0 {
      assert Count(s.scores, id) <= 1;
    }
  }

  // ---- A user whose registration was cut off ----

  /** Authority rows are inserted only for ids from n on. */
  predicate AuthoritiesFrom(stmts: seq<Stmt>, n: int) {
    forall i :: 0 <= i < |stmts| && stmts[i].InsertAuthority? ==> stmts[i].id >= n
  }

  lemma {:induction false} DeleteScriptInserts(ids: seq<int>, n: int)
    ensures AuthoritiesFrom(DeleteScript(ids), n)
  {
    if ids != [] {
      DeleteScriptInserts(ids[..|ids| - 1], n);
    }
  }

  lemma ScriptInserts(s: State, c: Call)
    ensures AuthoritiesFrom(Script(s, c), s.nextId)
  {
    match c
    case DeleteBatchUserInfoByUserId(min, max, op) =>
      DeleteScriptInserts(SelectIds(s.users, BatchTarget(min, max, op)), s.nextId);
    case _ =>
  }

  lemma StatementGivesNoAuthority(s: State, st: Stmt, id: int)
    requires Count(s.auths, id) == 0 && (st.InsertAuthority? ==> st.id != id)
    ensures Count(Exec(s, st).db.auths, id) == 0 && s.nextId <= Exec(s, st).db.nextId
  {
    match st
    case InsertAuthority(other, text) => Appended(s.auths, Row(other, text));
    case UpdateAuthority(other, text) => SetRowsKeepsCounts(s.auths, other, v => text);
    case DeleteAuthority(other) => CountWithout(s.auths, {other}, id);
    case _ =>
  }

  lemma {:induction false} ScriptGivesNoAuthority(s: State, stmts: seq<Stmt>, id: int, n: int)
    requires AuthoritiesFrom(stmts, n) && id < n && Count(s.auths, id) == 0
    ensures Count(ExecAll(s, stmts).db.auths, id) == 0 && s.nextId <= ExecAll(s, stmts).db.nextId
    decreases |stmts|
  {
    if stmts != [] {
      StatementGivesNoAuthority(s, stmts[0], id);
      if Exec(s, stmts[0]).err.None? {
        ScriptGivesNoAuthority(Exec(s, stmts[0]).db, stmts[1..], id, n);
      }
    }
  }

  /** A user left without an authority row, as by a registration cut off after its first statement,
      never gets one: not from registering, importing or updating it, and however calls are cut off. */
  lemma {:induction false} AuthorityNeverComes(s: State, attempts: seq<Attempt>, id: int)
    requires id < s.nextId && Count(s.auths, id) == 0
    ensures var t := CutRun(s, attempts); Count(t.auths, id) == 0 && s.nextId <= t.nextId
  {
    if attempts != [] {
      var t, a := CutRun(s, attempts[..|attempts| - 1]), attempts[|attempts| - 1];
      AuthorityNeverComes(s, attempts[..|attempts| - 1], id);
      ScriptInserts(t, a.call);
      ScriptGivesNoAuthority(t, FirstOf(Script(t, a.call), a.statements), id, t.nextId);
    }
  }
}
