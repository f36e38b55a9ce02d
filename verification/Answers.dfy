/** What each call answers and leaves, said of its arguments, the rows and their cells. */
module Answers {
  import opened Decimal
  import LastWriter
  import opened Deletions
  import opened Effects
  import opened Integrity
  import opened Procedures
  import opened Requests
  import opened Runs
  import opened Scripts
  import opened StudentDb
  import opened Tables
  import Strings = Text
  import opened Updates
  import opened Upsert
  import opened Wrappers

  ghost predicate Registered(s: State, account: string) {
    exists r :: r in s.users && r.val.account == account
  }

  predicate SameTables(s: State, t: State) {
    t.users == s.users && t.scores == s.scores && t.auths == s.auths && t.subjects == s.subjects
  }

  /** varchar(40) or varchar(30), and tinyint. */
  predicate CellFits(col: Column, v: Value) {
    match v
    case Text(t) => |t| <= if col == Name || col == Grade then 30 else 40
    case Number(n) => -128 <= n <= 127
    case Null => true
  }

  predicate TextsIn(u: UserInfo, account: string, name: string, password: string) {
    Cell(u, Account) == Text(account) && Cell(u, Name) == Text(name) && Cell(u, Password) == Text(password)
  }

  predicate NumbersIn(u: UserInfo, sex: int, ident: int) {
    Cell(u, Sex) == Number(sex) && Cell(u, Ident) == Number(ident)
  }

  lemma ColumnsFit(u: UserInfo)
    ensures FitsColumns(u) <==> forall col :: CellFits(col, Cell(u, col))
  {
    if forall col :: CellFits(col, Cell(u, col)) {
      assert CellFits(Account, Cell(u, Account)) && CellFits(Password, Cell(u, Password));
      assert CellFits(Name, Cell(u, Name)) && CellFits(Sex, Cell(u, Sex)) && CellFits(Ident, Cell(u, Ident));
      assert CellFits(Major, Cell(u, Major)) && CellFits(Grade, Cell(u, Grade));
    }
  }

  lemma LookedUp(s: State, account: string)
    requires Consistent(s)
    ensures IdOf(s, account) >= 0 && (IdOf(s, account) != 0 <==> Registered(s, account))
  {
    IdOfFinds(s, account);
  }

  // ---- Creating users ----

  /** `t` is `s` with one row more, under the next id, which no row of `s` had. */
  ghost predicate OneMoreUser(s: State, u: UserInfo, t: State) {
    && t.users == s.users + [Row(s.nextId, u)] && t.nextId == s.nextId + 1 && s.nextId > 0
    && (forall r :: r in s.users ==> r.id != s.nextId)
    && (forall r :: r in s.scores ==> r.id != s.nextId)
    && (forall r :: r in s.auths ==> r.id != s.nextId)
    && t.subjects == s.subjects
  }

  lemma NextIdIsFree(s: State)
    requires Consistent(s)
    ensures s.nextId > 0
    ensures forall r :: r in s.users ==> r.id != s.nextId
    ensures forall r :: r in s.scores ==> r.id != s.nextId
    ensures forall r :: r in s.auths ==> r.id != s.nextId
  {
    FreshId(s);
    CountLookup(s.scores, s.nextId);
    CountLookup(s.auths, s.nextId);
  }

  /** An insertion is accepted exactly when every cell fits, ids remain and nobody has the account. */
  lemma CreationAnswer(s: State, u: UserInfo, account: string, auth: string)
    requires Consistent(s)
    ensures var r := Created(s, u, account, auth);
            var fits := (forall col :: CellFits(col, Cell(u, col))) && s.nextId <= 0x7fff_ffff;
            && (r.err.None? <==> fits && !Registered(s, u.account))
            && if r.err.None? then
                 && OneMoreUser(s, u, r.db) && r.db.scores == s.scores
                 && r.db.auths == s.auths + if u.account == account then [Row(s.nextId, auth)] else []
               else SameTables(s, r.db) && r.db.nextId == s.nextId + if fits then 1 else 0
  {
    ColumnsFit(u);
    LookedUp(s, u.account);
    NextIdIsFree(s);
  }

  /** A registration is accepted exactly when the arguments fit parameters and columns, ids remain and
      nobody has the account.  It then returns the positive id of the one new row, which holds the
      arguments in their columns and has the authority text and no score; refused, it returns 0. */
  lemma RegisterAnswer(s: State, account: string, name: string, password: string, sex: int, ident: int,
                       auth: string)
    requires Consistent(s)
    ensures var r := Apply(s, UserRegister(account, name, password, sex, ident, auth));
            var fits := && |account| <= 31 && |name| <= 30 && |password| <= 31 && |auth| <= 150
                        && -128 <= sex <= 127 && -128 <= ident <= 127 && s.nextId <= 0x7fff_ffff;
            && (r.err.None? <==> fits && !Registered(s, account))
            && if r.err.None? then
                 && r.result == s.nextId > 0 && IdOf(r.db, account) == r.result
                 && (exists u :: TextsIn(u, account, name, password) && NumbersIn(u, sex, ident)
                                 && Cell(u, Major) == Null && Cell(u, Grade) == Null && OneMoreUser(s, u, r.db))
                 && r.db.scores == s.scores && r.db.auths == s.auths + [Row(r.result, auth)]
               else r.result == 0 && SameTables(s, r.db) && r.db.nextId == s.nextId + if fits then 1 else 0
  {
    var u := UserInfo(account, password, name, sex, ident, None, None);
    CreationAnswer(s, u, account, auth);
    UserCells(account, name, password, sex, ident, None, None);
    NewAccountFound(s, u, account, auth);
    assert TextsIn(u, account, name, password) && NumbersIn(u, sex, ident);
  }

  lemma NewAccountFound(s: State, u: UserInfo, account: string, auth: string)
    requires Consistent(s) && u.account == account
    ensures var r := Created(s, u, account, auth); r.err.None? ==> IdOf(r.db, account) == s.nextId
  {
    InsertedFresh(s, u);
  }

  lemma UserCells(account: string, name: string, password: string, sex: int, ident: int,
                  major: Option<string>, grade: Option<string>)
    ensures var u := UserInfo(account, password, name, sex, ident, major, grade);
            (forall col :: CellFits(col, Cell(u, col)))
            <==> && |account| <= 40 && |name| <= 30 && |password| <= 40 && -128 <= sex <= 127 && -128 <= ident <= 127
                 && (major.Some? ==> |major.value| <= 40) && (grade.Some? ==> |grade.value| <= 30)
  {
    ColumnsFit(UserInfo(account, password, name, sex, ident, major, grade));
  }

  /** The length of the value list of an import: quotes and commas, and NULL for what is missing. */
  function ImportLength(info: UserInfo): nat {
    |info.account| + |info.name| + |info.password| + |IntToStr(info.sex)| + |IntToStr(info.ident)| + 12
    + (if info.major.Some? then |info.major.value| + 2 else 4)
    + (if info.grade.Some? then |info.grade.value| + 2 else 4)
  }

  lemma SevenValuesLength(info: UserInfo)
    ensures |SevenValues(info)| == ImportLength(info)
  {
  }

  /** An import answers without an error and changes nothing if the account exists.  Otherwise it is
      accepted exactly when every cell fits, ids remain and nobody has the inserted account, which
      then has a row with just these cells and, if it is the account named, the authority text. */
  lemma ImportAnswer(s: State, info: UserInfo, account: string, auth: string)
    requires Consistent(s)
    ensures var r := Apply(s, AddSingleUserInfo(info, account, auth));
            var arguments := ImportLength(info) <= 200 && |account| <= 31 && |auth| <= 150;
            var fits := (forall col :: CellFits(col, Cell(info, col))) && s.nextId <= 0x7fff_ffff;
            if !arguments then r.err.Some? && r.db == s
            else if Registered(s, account) then r.err.None? && r.db == s
            else
              && (r.err.None? <==> fits && !Registered(s, info.account))
              && if r.err.None? then
                   && OneMoreUser(s, info, r.db) && r.db.scores == s.scores
                   && r.db.auths == s.auths + if info.account == account then [Row(s.nextId, auth)] else []
                 else SameTables(s, r.db) && r.db.nextId == s.nextId + if fits then 1 else 0
  {
    SevenValuesLength(info);
    LookedUp(s, account);
    CreationAnswer(s, info, account, auth);
  }

  function FirstScoreLength(info: UserInfo): nat {
    |info.account| + |info.name| + |info.password| + |IntToStr(info.sex)| + |IntToStr(info.ident)| + 14
  }

  lemma FiveValuesLength(info: UserInfo)
    ensures |FiveValues(info)| == FirstScoreLength(info)
  {
  }

  /** A request for an account without a user, once accepted, has added one user: the five values
      passed in their columns, nothing in major and grade. */
  lemma FirstScoreAnswer(s: State, c: Call)
    requires Consistent(s) && c.AddSingleScore? && !Registered(s, c.account)
    ensures var r := Apply(s, c);
            var i := c.info;
            r.err.None? ==>
              && (exists u :: TextsIn(u, i.account, i.name, i.password) && NumbersIn(u, i.sex, i.ident)
                              && Cell(u, Major) == Null && Cell(u, Grade) == Null && OneMoreUser(s, u, r.db))
              && r.db.auths
                 == s.auths + if i.account == c.account then [Row(s.nextId, c.authority)] else []
  {
    var u := WithoutMajorAndGrade(c.info);
    LookedUp(s, c.account);
    CreationAnswer(s, u, c.account, c.authority);
    assert TextsIn(u, c.info.account, c.info.name, c.info.password) && NumbersIn(u, c.info.sex, c.info.ident);
    assert Cell(u, Major) == Null && Cell(u, Grade) == Null;
    ScoreInsertKeepsUsers(Created(s, u, c.account, c.authority).db, s.nextId, c.names, c.marks, 300);
  }

  /** Such a request is accepted exactly when the arguments fit parameters and columns, ids remain,
      nobody has the inserted account, and the score, if it is the account named, is accepted. */
  lemma FirstScoreAccepted(s: State, c: Call)
    requires Consistent(s) && c.AddSingleScore? && !Registered(s, c.account)
    ensures Apply(s, c).err.None?
            <==> && FirstScoreLength(c.info) <= 200 && |c.updateSet| <= 200 && |c.names| <= 200 && |c.marks| <= 200
                 && |c.account| <= 31 && |c.authority| <= 150
                 && |c.info.account| <= 40 && |c.info.name| <= 30 && |c.info.password| <= 40
                 && -128 <= c.info.sex <= 127 && -128 <= c.info.ident <= 127
                 && s.nextId <= 0x7fff_ffff && !Registered(s, c.info.account)
                 && (c.info.account == c.account ==>
                       InsertPairs(s.nextId, c.names, c.marks, s.subjects, 300).Some?)
  {
    LookedUp(s, c.account);
    LookedUp(s, c.info.account);
    FiveValuesLength(c.info);
    RequestAccepted(s, c);
  }

  /** A request for a registered account is accepted exactly when the arguments fit and the branch its
      score row selects takes its text; it touches no user, no authority, no id and nobody else's
      score, and refused it changes nothing. */
  lemma {:induction false} LaterScoreAnswer(s: State, c: Call, r: Row<UserInfo>)
    requires Inv(s) && c.AddSingleScore? && r in s.users && r.val.account == c.account
    ensures var t := Apply(s, c);
            && (t.err.None?
                <==> && FirstScoreLength(c.info) <= 200 && |c.updateSet| <= 200 && |c.names| <= 200 && |c.marks| <= 200
                     && |c.account| <= 31 && |c.authority| <= 150
                     && if exists q :: q in s.scores && q.id == r.id
                        then UpdatePairs(r.id, c.updateSet, s.subjects, 200).Some?
                        else InsertPairs(r.id, c.names, c.marks, s.subjects, 200).Some?)
            && (if t.err.Some? then t.db == s else t.db == s.(scores := t.db.scores))
            && forall other :: other != r.id ==> Lookup(t.db.scores, other) == Lookup(s.scores, other)
  {
    IdOfRow(s, r);
    IdOfFinds(s, c.account);
    FiveValuesLength(c.info);
    RequestAccepted(s, c);
    CountLookup(s.scores, r.id);
    OnlyScoresWritten(s, r.id, c.updateSet, c.names, c.marks);
  }

  lemma OnlyScoresWritten(s: State, id: int, text: string, names: string, marks: string)
    requires Inv(s) && Count(s.users, id) == 1
    ensures var t := ScoreWritten(s, id, text, names, marks);
            && (if t.err.Some? then t.db == s else t.db == s.(scores := t.db.scores))
            && forall other :: other != id ==> Lookup(t.db.scores, other) == Lookup(s.scores, other)
  {
    LastWriter.RegisteredWrites(s, id, text, names, marks);
    OnlyScores(s, id, text, names, marks);
  }

  lemma OnlyScores(s: State, id: int, text: string, names: string, marks: string)
    ensures var t := ScoreWritten(s, id, text, names, marks); t.db == s.(scores := t.db.scores)
  {
    BranchesWrite(s, id, names, marks, text, 200);
  }

  // ---- Updating a user ----

  function ColumnName(col: Column): string {
    match col
    case Account => "account"
    case Password => "password"
    case Name => "name"
    case Sex => "sex"
    case Ident => "Ident"
    case Major => "major"
    case Grade => "grade"
  }

  function ValueText(v: Value): string {
    match v
    case Text(t) => "'" + t + "'"
    case Number(n) => IntToStr(n)
    case Null => "NULL"
  }

  /** The text of an assignment names its column and its value. */
  lemma ChangeNames(c: Change)
    ensures var (col, v) := Assignment(c); ChangeText(c) == ColumnName(col) + "=" + ValueText(v)
  {
    match c
    case SetAccount(_) => assert "account" + "=" == "account=";
    case SetPassword(_) => assert "password" + "=" == "password=";
    case SetName(_) => assert "name" + "=" == "name=";
    case SetSex(_) => assert "sex" + "=" == "sex=";
    case SetIdent(_) => assert "Ident" + "=" == "Ident=";
    case SetMajor(_) => assert "major" + "=" == "major=";
    case SetGrade(_) => assert "grade" + "=" == "grade=";
  }

  /** What a column holds after the changes. */
  function NewCell(u: UserInfo, changes: seq<Change>, col: Column): Value {
    if LastAssigned(changes, col).Some? then LastAssigned(changes, col).value else Cell(u, col)
  }

  lemma UpdatedRowFits(u: UserInfo, changes: seq<Change>)
    ensures FitsColumns(ChangedAll(u, changes)) <==> forall col :: CellFits(col, NewCell(u, changes, col))
  {
    var w := ChangedAll(u, changes);
    ColumnsFit(w);
    forall col ensures Cell(w, col) == NewCell(u, changes, col) {
      ChangedCells(u, changes, col);
    }
  }

  /** An update of a user's row is accepted exactly when the list is not empty, the cells it gives fit
      and no other row has the account it gives. */
  lemma RowUpdateAccepted(s: State, r: Row<UserInfo>, changes: seq<Change>)
    requires Consistent(s) && r in s.users
    ensures Exec(s, UpdateUser(r.id, changes)).err.None?
            <==> && changes != [] && (forall col :: CellFits(col, NewCell(r.val, changes, col)))
                 && forall q :: q in s.users && q.id != r.id ==>
                      Cell(q.val, Account) != NewCell(r.val, changes, Account)
  {
    var u := ChangedAll(r.val, changes);
    LookupOfUnique(s.users, r);
    UpdatedRowFits(r.val, changes);
    ChangedCells(r.val, changes, Account);
    IdOfFinds(s, u.account);
    forall q | q in s.users && q.id == r.id ensures q == r {
      LookupOfUnique(s.users, q);
    }
  }

  /** So is the call for its account, when its arguments fit; for an account nobody has it does nothing. */
  lemma UserUpdateAccepted(s: State, changes: seq<Change>, account: string, flag: int, auth: string)
    requires Consistent(s)
    ensures var t := Apply(s, UpdateSingleUserInfoByAccount(changes, account, flag, auth));
            var arguments := |ChangesText(changes)| <= 200 && |account| <= 31 && |auth| <= 150;
            && (!Registered(s, account) ==> (t.err.None? <==> arguments) && t.db == s)
            && forall r :: r in s.users && r.val.account == account ==>
                 (t.err.None?
                  <==> && arguments && changes != [] && (forall col :: CellFits(col, NewCell(r.val, changes, col)))
                       && forall q :: q in s.users && q.id != r.id ==>
                            Cell(q.val, Account) != NewCell(r.val, changes, Account))
  {
    LookedUp(s, account);
    forall r | r in s.users && r.val.account == account
      ensures IdOf(s, account) == r.id > 0
      ensures Exec(s, UpdateUser(r.id, changes)).err.None?
              <==> && changes != [] && (forall col :: CellFits(col, NewCell(r.val, changes, col)))
                   && forall q :: q in s.users && q.id != r.id ==>
                        Cell(q.val, Account) != NewCell(r.val, changes, Account)
    {
      IdOfRow(s, r);
      RowUpdateAccepted(s, r, changes);
    }
  }

  function CellTexts(u: UserInfo, cols: seq<Column>): (v: seq<string>)
    ensures |v| == |cols| && forall i :: 0 <= i < |cols| ==> v[i] == ValueText(Cell(u, cols[i]))
  {
    seq(|cols|, i requires 0 <= i < |cols| => ValueText(Cell(u, cols[i])))
  }

  /** The value list of a first score, all of it in quotes, names the cells in the order of the columns
      of its INSERT. */
  lemma FirstScoreNames(u: UserInfo)
    ensures FiveValues(u)
            == "'" + u.account + "','" + u.name + "','" + u.password + "','" + IntToStr(u.sex) + "','"
               + IntToStr(u.ident) + "'"
  {
    assert "'" + "," + "'" == "','";
    var a, b, c := u.account, u.name, u.password;
    assert FiveValues(u)
        == "'" + a + ("'" + "," + "'") + b + ("'" + "," + "'") + c + ("'" + "," + "'") + IntToStr(u.sex)
           + ("'" + "," + "'") + IntToStr(u.ident) + "'";
  }

  /** The value list of an import names the cells in the order of the columns of its INSERT. */
  lemma ImportNames(u: UserInfo)
    ensures SevenValues(u) == Strings.Join(CellTexts(u, [Account, Name, Password, Sex, Ident, Major, Grade]), ",")
  {
    var t := CellTexts(u, [Account, Name, Password, Sex, Ident, Major, Grade]);
    JoinSeven(t[0], t[1], t[2], t[3], t[4], t[5], t[6]);
    assert t == [t[0], t[1], t[2], t[3], t[4], t[5], t[6]];
  }

  lemma JoinSeven(a: string, b: string, c: string, d: string, e: string, f: string, g: string)
    ensures Strings.Join([a, b, c, d, e, f, g], ",")
            == a + "," + b + "," + c + "," + d + "," + e + "," + f + "," + g
  {
    assert Strings.Join([f, g], ",") == f + "," + g;
    assert Strings.Join([e, f, g], ",") == e + "," + Strings.Join([f, g], ",");
    assert Strings.Join([d, e, f, g], ",") == d + "," + Strings.Join([e, f, g], ",");
    assert Strings.Join([c, d, e, f, g], ",") == c + "," + Strings.Join([d, e, f, g], ",");
    assert Strings.Join([b, c, d, e, f, g], ",") == b + "," + Strings.Join([c, d, e, f, g], ",");
    assert Strings.Join([a, b, c, d, e, f, g], ",") == a + "," + Strings.Join([b, c, d, e, f, g], ",");
  }

  // ---- Rows of reachable states ----

  ghost predicate RowsFit(s: State) {
    forall r :: r in s.users ==> FitsColumns(r.val)
  }

  lemma StatementKeepsFit(s: State, st: Stmt)
    requires RowsFit(s)
    ensures RowsFit(Exec(s, st).db)
  {
    match st
    case UpdateUser(id, changes) =>
      if Exec(s, st).db != s {
        var u := ChangedAll(Lookup(s.users, id).value, changes);
        forall r | r in Exec(s, st).db.users ensures FitsColumns(r.val) {
          InSetRows(s.users, id, v => u, r);
        }
      }
    case DeleteUser(id) =>
      forall r | r in Exec(s, st).db.users ensures FitsColumns(r.val) {
        InWithout(s.users, {id}, r);
      }
    case _ =>
  }

  lemma {:induction false} ScriptKeepsFit(s: State, stmts: seq<Stmt>)
    requires RowsFit(s)
    ensures RowsFit(ExecAll(s, stmts).db)
    decreases |stmts|
  {
    if stmts != [] {
      StatementKeepsFit(s, stmts[0]);
      if Exec(s, stmts[0]).err.None? {
        ScriptKeepsFit(Exec(s, stmts[0]).db, stmts[1..]);
      }
    }
  }

  /** In every reachable state every cell fits its column, whatever calls are cut off. */
  lemma {:induction false} ReachableRowsFit(attempts: seq<Attempt>)
    ensures RowsFit(CutRun(InitState(), attempts))
  {
    if attempts != [] {
      var t, a := CutRun(InitState(), attempts[..|attempts| - 1]), attempts[|attempts| - 1];
      ReachableRowsFit(attempts[..|attempts| - 1]);
      ScriptKeepsFit(t, FirstOf(Script(t, a.call), a.statements));
    }
  }

  /** There the acceptance of an update depends on the assigned cells only. */
  lemma AssignedCellsDecide(s: State, r: Row<UserInfo>, changes: seq<Change>)
    requires RowsFit(s) && r in s.users
    ensures (forall col :: CellFits(col, NewCell(r.val, changes, col)))
            <==> forall col :: AssignedFits(changes, col)
  {
    ColumnsFit(r.val);
    forall col ensures CellFits(col, NewCell(r.val, changes, col)) <==> AssignedFits(changes, col) {
      assert CellFits(col, Cell(r.val, col));
    }
  }

  predicate AssignedFits(changes: seq<Change>, col: Column) {
    var v := LastAssigned(changes, col);
    v.Some? ==> CellFits(col, v.value)
  }

  // ---- Deleting ----

  predicate Ranked(ident: int) {
    1 <= ident <= 3
  }

  /** Administrators reach teachers and students, teachers reach students, either reaches itself; a
      student reaches students under the grant and, in a batch, itself. */
  predicate Reaches(op: Operator, u: UserInfo, batch: bool) {
    var own := u.account == op.account;
    if op.ident == 3 then u.ident == 1 || u.ident == 2 || own
    else if op.ident == 2 then u.ident == 1 || (u.ident == 2 && own)
    else u.ident == 1 && (op.studentCanDelete == 1 || (batch && own))
  }

  predicate OperatorArguments(op: Operator) {
    -128 <= op.ident <= 127 && |op.account| <= 31 && -128 <= op.studentCanDelete <= 127
  }

  ghost predicate WithoutUser(s: State, r: Row<UserInfo>, t: State) {
    && (forall q :: q in t.users <==> q in s.users && q != r)
    && (forall q :: q in t.scores <==> q in s.scores && q.id != r.id)
    && (forall q :: q in t.auths <==> q in s.auths && q.id != r.id)
    && t.nextId == s.nextId && t.subjects == s.subjects
  }

  lemma OneSelected(s: State, p: Row<UserInfo> -> bool, r: Row<UserInfo>)
    requires Consistent(s) && r in s.users
    requires forall q :: q in s.users && p(q) ==> q == r
    ensures if p(r) then WithoutUser(s, r, Deleted(s, p).db) && Deleted(s, p).result == 1
            else Deleted(s, p) == Done(s)
  {
    var ids := IdSet(s.users, p);
    if p(r) {
      assert ids == {r.id};
      PurgedRows(s, ids);
      forall q | q in s.users && q.id == r.id ensures q == r {
        LookupOfUnique(s.users, q);
        LookupOfUnique(s.users, r);
      }
    } else {
      assert ids == {};
      PurgedNobody(s);
    }
  }

  /** A single deletion of a ranked user for a ranked operator removes it, with its rows and nobody
      else, and returns 1, exactly when the arguments fit and the operator reaches it; otherwise it
      changes nothing and returns 0. */
  lemma SingleDeletionAnswer(s: State, op: Operator, r: Row<UserInfo>)
    requires Consistent(s) && r in s.users && Ranked(r.val.ident) && Ranked(op.ident)
    ensures var t := Apply(s, DeleteSingleUserInfoByAccount(r.val.account, op));
            var arguments := |r.val.account| <= 31 && OperatorArguments(op);
            && (t.err.None? <==> arguments)
            && if arguments && Reaches(op, r.val, false) then WithoutUser(s, r, t.db) && t.result == 1
               else t.db == s && t.result == 0
  {
    OneSelected(s, OneTarget(r.val.account, op), r);
  }

  /** For an account nobody has it does nothing. */
  lemma NobodyDeleted(s: State, account: string, op: Operator)
    requires !Registered(s, account)
    ensures var t := Apply(s, DeleteSingleUserInfoByAccount(account, op)); t.db == s && t.result == 0
  {
    assert IdSet(s.users, OneTarget(account, op)) == {};
    PurgedNobody(s);
  }

  /** A batch for a ranked operator removes exactly the users in the range whom it reaches, with their
      rows, and returns 1 exactly if there are any. */
  lemma BatchDeletionAnswer(s: State, min: int, max: int, op: Operator)
    requires Consistent(s) && Ranked(op.ident) && forall r :: r in s.users ==> Ranked(r.val.ident)
    ensures var t := Apply(s, DeleteBatchUserInfoByUserId(min, max, op));
            var arguments := && -0x8000_0000 <= min < 0x8000_0000 && -0x8000_0000 <= max < 0x8000_0000
                             && OperatorArguments(op);
            && (t.err.None? <==> arguments)
            && t.db.nextId == s.nextId && t.db.subjects == s.subjects
            && t.result == (if exists r :: r in s.users && r !in t.db.users then 1 else 0)
            && forall r :: r in s.users ==>
                 var gone := arguments && min <= r.id <= max && Reaches(op, r.val, true);
                 && (r in t.db.users <==> !gone)
                 && (forall q: Row<Marks> :: q.id == r.id ==> (q in t.db.scores <==> q in s.scores && !gone))
                 && (forall q: Row<string> :: q.id == r.id ==> (q in t.db.auths <==> q in s.auths && !gone))
  {
    var p := BatchTarget(min, max, op);
    SelectedGo(s, p);
    forall r | r in s.users && IsInt32(min) && IsInt32(max) && OperatorFits(op)
      ensures p(r) <==> min <= r.id <= max && Reaches(op, r.val, true)
    {
    }
  }

  lemma SelectedGo(s: State, p: Row<UserInfo> -> bool)
    requires Consistent(s)
    ensures var t := Deleted(s, p);
            && t.result == (if exists r :: r in s.users && r !in t.db.users then 1 else 0)
            && forall r :: r in s.users ==>
                 && (r in t.db.users <==> !p(r))
                 && (forall q: Row<Marks> :: q.id == r.id ==> (q in t.db.scores <==> q in s.scores && !p(r)))
                 && (forall q: Row<string> :: q.id == r.id ==> (q in t.db.auths <==> q in s.auths && !p(r)))
  {
    var ids := IdSet(s.users, p);
    PurgedRows(s, ids);
    forall r | r in s.users ensures r.id in ids <==> p(r) {
      RowInIdSet(s, p, r);
    }
    if id :| id in ids {
      var r :| r in s.users && p(r) && r.id == id;
      assert r !in Purged(s, ids).users;
    }
  }

  // ---- The initial script ----

  /** One administrator, with id 100000 and the permissions 1 to 30; three subjects. */
  lemma InitialRows()
    ensures var s := InitState();
            && |s.users| == |s.auths| == 1 && s.scores == [] && s.nextId == 100001
            && s.users[0].id == s.auths[0].id == 100000
            && TextsIn(s.users[0].val, "admin", "admin", "123456") && NumbersIn(s.users[0].val, 0, 3)
            && Cell(s.users[0].val, Major) == Null && Cell(s.users[0].val, Grade) == Null
            && s.subjects == {"Chinese", "Math", "English"}
  {
  }

  /** It stays in every run in which it does not itself ask for a deletion and no call changes its
      account or rank. */
  lemma InitialAdministratorStays(calls: seq<Call>)
    requires AllCarryAccount(calls) && RankedOperators(calls)
    requires forall i :: 0 <= i < |calls| ==> !Reranks(calls[i], "admin")
    requires forall i :: 0 <= i < |calls| && Deleting(calls[i]) ==> calls[i].op.account != "admin"
    ensures exists q :: q in Run(InitState(), calls).users
                        && q.id == 100000 && q.val.account == "admin" && q.val.ident == 3
  {
    InitialAdministrator(InitState());
    StaysWithoutAsking(InitState(), calls, InitState().users[0]);
  }

  lemma InitialAdministrator(s: State)
    requires s == InitState()
    ensures Inv(s) && |s.users| == 1 && s.users[0] in s.users
    ensures var r := s.users[0]; r.id == 100000 && r.val.account == "admin" && r.val.ident == 3
  {
    InitStateIsValid();
  }

  lemma StaysWithoutAsking(s: State, calls: seq<Call>, r: Row<UserInfo>)
    requires Inv(s) && AllCarryAccount(calls) && r in s.users && r.val.ident == 3 && RankedOperators(calls)
    requires forall i :: 0 <= i < |calls| ==> !Reranks(calls[i], r.val.account)
    requires forall i :: 0 <= i < |calls| && Deleting(calls[i]) ==> calls[i].op.account != r.val.account
    ensures exists q :: q in Run(s, calls).users
                        && q.id == r.id && q.val.account == r.val.account && q.val.ident == 3
  {
    OwnAccountNever(calls, r);
    AdministratorsLeaveByThemselves(s, calls, r);
    var q :| q in Run(s, calls).users && SameUser(r, q);
  }

  lemma OwnAccountNever(calls: seq<Call>, r: Row<UserInfo>)
    requires forall i :: 0 <= i < |calls| && Deleting(calls[i]) ==> calls[i].op.account != r.val.account
    ensures !exists k :: 0 <= k < |calls| && Removes(calls[k], r) && calls[k].op.account == r.val.account
  {
    forall k | 0 <= k < |calls| && Removes(calls[k], r) ensures Deleting(calls[k]) {
    }
  }
}
