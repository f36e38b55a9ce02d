/** What every statement and every procedure keeps. */
module Integrity {
  import opened ScoreSql
  import opened StudentDb
  import opened Tables

  /** No id twice in userInfo; a score or authority row only for an existing user, and not two. */
  ghost predicate AtMostOneRow(s: State) {
    forall id :: Count(s.users, id) <= 1
              && Count(s.scores, id) <= Count(s.users, id)
              && Count(s.auths, id) <= Count(s.users, id)
  }

  ghost predicate IdsWereIssued(s: State) {
    0 < s.nextId && forall r :: r in s.users ==> 0 < r.id < s.nextId && r.id <= LAST_ID
  }

  ghost predicate AccountsUnique(s: State) {
    forall r, q :: r in s.users && q in s.users && r.val.account == q.val.account ==> r == q
  }

  ghost predicate MarksForAllSubjects(s: State) {
    && PlainNames(s.subjects)
    && forall r :: r in s.scores ==> r.val.Keys == s.subjects
  }

  /** What holds after every single statement. */
  ghost predicate Consistent(s: State) {
    AtMostOneRow(s) && IdsWereIssued(s) && AccountsUnique(s) && MarksForAllSubjects(s)
  }

  ghost predicate EveryoneHasAuthority(s: State) {
    forall id :: Count(s.auths, id) == Count(s.users, id)
  }

  /** What holds between calls. */
  ghost predicate Inv(s: State) {
    Consistent(s) && EveryoneHasAuthority(s)
  }

  // ---- Statements ----

  /** A statement that inserts does so for a user without such a row, and a user is deleted only
      after the rows that refer to it. */
  ghost predicate InOrder(s: State, st: Stmt) {
    match st
    case InsertAuthority(id, text) => Count(s.users, id) == 1 && Count(s.auths, id) == 0
    case InsertScore(id, pairs) =>
      Count(s.users, id) == 1 && Count(s.scores, id) == 0 && Names(pairs, s.subjects)
    case UpdateScore(id, pairs) => Count(s.scores, id) > 0 ==> Names(pairs, s.subjects)
    case DeleteUser(id) => Count(s.scores, id) == 0 && Count(s.auths, id) == 0
    case _ => true
  }

  lemma NewUserKeepsConsistent(s: State, info: UserInfo)
    requires Consistent(s)
    ensures Consistent(ExecInsertUser(s, info).db)
  {
    var s' := ExecInsertUser(s, info).db;
    if s'.users != s.users {
      Appended(s.users, Row(s.nextId, info));
      CountLookup(s.users, s.nextId);
      SelectIdFinds(s.users, ByAccount(info.account));
      assert forall r :: r in s.users ==> ByAccount(info.account)(r) == (r.val.account == info.account);
    }
  }

  lemma UserUpdateKeepsConsistent(s: State, id: int, changes: seq<Change>)
    requires Consistent(s)
    ensures Consistent(ExecUpdateUser(s, id, changes).db)
  {
    var s' := ExecUpdateUser(s, id, changes).db;
    if s' != s {
      var before := Lookup(s.users, id).value;
      var u := ChangedAll(before, changes);
      var f := v => u;
      CountLookup(s.users, id);
      assert Row(id, before) in s.users;
      SelectIdFinds(s.users, ByAccount(u.account));
      SetRowsKeepsCounts(s.users, id, f);
      assert s'.users == SetRows(s.users, id, f);
      forall r | r in s'.users ensures if r.id == id then r.val == u else r in s.users {
        InSetRows(s.users, id, f, r);
      }
    }
  }

  lemma {:induction false} AssignKeys(row: Marks, ps: Pairs)
    ensures Assign(row, ps).Keys == row.Keys + set i | 0 <= i < |ps| :: ps[i].0
  {
    if ps != [] {
      var front := ps[..|ps| - 1];
      AssignKeys(row, front);
      assert (set i | 0 <= i < |ps| :: ps[i].0)
          == (set i | 0 <= i < |front| :: front[i].0) + {ps[|ps| - 1].0};
    }
  }

  lemma AssignStaysInside(row: Marks, ps: Pairs, subjects: set<string>)
    requires row.Keys == subjects
    ensures Assign(row, ps).Keys == subjects <==> Names(ps, subjects)
  {
    AssignKeys(row, ps);
    var named := set i | 0 <= i < |ps| :: ps[i].0;
    forall i | 0 <= i < |ps| ensures ps[i].0 in named {
    }
  }

  lemma ScoreInsertInOrder(s: State, id: int, pairs: Pairs)
    requires Consistent(s)
    ensures Consistent(Exec(s, InsertScore(id, pairs)).db) <==> InOrder(s, InsertScore(id, pairs))
  {
    var row := Row(id, Assign(Zeros(s.subjects), pairs));
    var s' := Exec(s, InsertScore(id, pairs)).db;
    Appended(s.scores, row);
    AssignStaysInside(Zeros(s.subjects), pairs, s.subjects);
    assert row in s'.scores;
    assert Count(s'.scores, id) == Count(s.scores, id) + 1;
  }

  lemma ScoreUpdateInOrder(s: State, id: int, pairs: Pairs)
    requires Consistent(s)
    ensures Consistent(Exec(s, UpdateScore(id, pairs)).db) <==> InOrder(s, UpdateScore(id, pairs))
  {
    var f := row => Assign(row, pairs);
    var scores := SetRows(s.scores, id, f);
    SetRowsKeepsCounts(s.scores, id, f);
    CountLookup(s.scores, id);
    if Count(s.scores, id) > 0 {
      var row := Lookup(s.scores, id).value;
      AssignStaysInside(row, pairs, s.subjects);
      CountSetRows(s.scores, id, f, id);
      CountLookup(scores, id);
      assert Row(id, Assign(row, pairs)) in scores;
    }
    forall r | r in scores && InOrder(s, UpdateScore(id, pairs)) ensures r.val.Keys == s.subjects {
      InSetRows(s.scores, id, f, r);
      if r.id == id {
        var q :| q in s.scores && q.id == id && r.val == f(q.val);
        AssignStaysInside(q.val, pairs, s.subjects);
      }
    }
    assert Consistent(s.(scores := scores)) <==> InOrder(s, UpdateScore(id, pairs));
  }

  lemma NewAuthorities(s: State, auths: seq<Row<string>>)
    requires Consistent(s) && forall id :: Count(auths, id) <= Count(s.users, id)
    ensures Consistent(s.(auths := auths))
  {
  }

  lemma AuthorityAppended(s: State, id: int, text: string)
    requires Consistent(s) && Count(s.users, id) == 1 && Count(s.auths, id) == 0
    ensures Consistent(s.(auths := s.auths + [Row(id, text)]))
  {
    Appended(s.auths, Row(id, text));
    NewAuthorities(s, s.auths + [Row(id, text)]);
  }

  lemma AuthorityInsertInOrder(s: State, id: int, text: string)
    requires Consistent(s)
    ensures var st := InsertAuthority(id, text);
            Consistent(Exec(s, st).db) <==> InOrder(s, st) || Exec(s, st).err.Some?
  {
    Appended(s.auths, Row(id, text));
    assert Count(s.auths + [Row(id, text)], id) == Count(s.auths, id) + 1;
    if InOrder(s, InsertAuthority(id, text)) {
      AuthorityAppended(s, id, text);
    }
  }

  lemma AuthorityUpdateInOrder(s: State, id: int, text: string)
    requires Consistent(s)
    ensures Consistent(Exec(s, UpdateAuthority(id, text)).db)
  {
    var f := v => text;
    SetRowsKeepsCounts(s.auths, id, f);
    NewAuthorities(s, SetRows(s.auths, id, f));
  }

  lemma AuthorityDeleteInOrder(s: State, id: int)
    requires Consistent(s)
    ensures Consistent(Exec(s, DeleteAuthority(id)).db)
  {
    forall other ensures Count(Without(s.auths, {id}), other) <= Count(s.auths, other) {
      CountWithout(s.auths, {id}, other);
    }
    NewAuthorities(s, Without(s.auths, {id}));
  }

  lemma DeletionsInOrder(s: State, st: Stmt)
    requires Consistent(s) && (st.DeleteScore? || st.DeleteUser?)
    ensures Consistent(Exec(s, st).db) <==> InOrder(s, st)
  {
    var s' := Exec(s, st).db;
    forall other
      ensures Count(Without(s.users, {st.id}), other) == if other == st.id then 0 else Count(s.users, other)
      ensures Count(Without(s.scores, {st.id}), other) == if other == st.id then 0 else Count(s.scores, other)
    {
      CountWithout(s.users, {st.id}, other);
      CountWithout(s.scores, {st.id}, other);
    }
    forall r | r in s'.users ensures r in s.users {
      InWithout(s.users, {st.id}, r);
    }
    forall r | r in s'.scores ensures r in s.scores {
      InWithout(s.scores, {st.id}, r);
    }
    if st.DeleteUser? {
      assert Count(s'.users, st.id) == 0;
    }
  }

  /** A statement that takes effect keeps the tables consistent exactly when it comes in order:
      parents are inserted first and deleted last, and no row is inserted a second time. */
  lemma StatementKeepsConsistent(s: State, st: Stmt)
    requires Consistent(s)
    ensures Consistent(Exec(s, st).db) <==> InOrder(s, st) || Exec(s, st).err.Some?
  {
    match st
    case InsertUser(info) => NewUserKeepsConsistent(s, info);
    case InsertScore(id, pairs) => ScoreInsertInOrder(s, id, pairs);
    case UpdateScore(id, pairs) => ScoreUpdateInOrder(s, id, pairs);
    case UpdateUser(id, changes) => UserUpdateKeepsConsistent(s, id, changes);
    case InsertAuthority(id, text) => AuthorityInsertInOrder(s, id, text);
    case UpdateAuthority(id, text) => AuthorityUpdateInOrder(s, id, text);
    case DeleteAuthority(id) => AuthorityDeleteInOrder(s, id);
    case DeleteScore(_) => DeletionsInOrder(s, st);
    case DeleteUser(_) => DeletionsInOrder(s, st);
  }
}
