/** The three tables, the SQL statements on them, and what each stored procedure does as a whole.

    A value, parameter or variable that is too long or out of range is an error that writes
    nothing.  An INSERT refused for its account still uses up an id. */
module StudentDb {
  import opened Decimal
  import opened ScoreSql
  import opened StringTool
  import opened Tables
  import opened Text
  import opened Wrappers

  type Marks = map<string, int>

  datatype UserInfo = UserInfo(
    account: string, password: string, name: string, sex: int, ident: int,
    major: Option<string>, grade: Option<string>)

  datatype State = State(
    users: seq<Row<UserInfo>>, scores: seq<Row<Marks>>, auths: seq<Row<string>>,
    nextId: int, subjects: set<string>)

  datatype Error =
    | DuplicateAccount | DoesNotFit | OutOfIds
    | BadStatement   // the assembled text is no statement the table accepts
    | NullStatement  // no text was assembled

  /** `result` is the procedure's out parameter, where it has one. */
  datatype Outcome = Outcome(db: State, err: Option<Error>, result: int)

  function Done(s: State): Outcome {
    Outcome(s, None, 0)
  }

  function Fail(s: State, e: Error): Outcome {
    Outcome(s, Some(e), 0)
  }

  const FIRST_ID := 100000
  const LAST_ID := 0x7fff_ffff

  // ---- Statements ----

  datatype Change =
    | SetAccount(s: string) | SetPassword(s: string) | SetName(s: string) | SetSex(n: int)
    | SetIdent(n: int) | SetMajor(s: string) | SetGrade(s: string)

  datatype Stmt =
    | InsertUser(info: UserInfo)
    | InsertAuthority(id: int, text: string)
    | InsertScore(id: int, pairs: Pairs)
    | UpdateScore(id: int, pairs: Pairs)
    | UpdateUser(id: int, changes: seq<Change>)
    | UpdateAuthority(id: int, text: string)
    | DeleteScore(id: int)
    | DeleteAuthority(id: int)
    | DeleteUser(id: int)

  predicate FitsColumns(u: UserInfo) {
    && |u.account| <= 40 && |u.password| <= 40 && |u.name| <= 30
    && IsTinyInt(u.sex) && IsTinyInt(u.ident)
    && (u.major.Some? ==> |u.major.value| <= 40) && (u.grade.Some? ==> |u.grade.value| <= 30)
  }

  function ByAccount(account: string): Row<UserInfo> -> bool {
    (r: Row<UserInfo>) => r.val.account == account
  }

  /** `select s.userID into v from userInfo s where s.account = account`, v starting at 0. */
  function IdOf(s: State, account: string): int {
    SelectId(s.users, ByAccount(account))
  }

  function Changed(u: UserInfo, c: Change): UserInfo {
    match c
    case SetAccount(v) => u.(account := v)
    case SetPassword(v) => u.(password := v)
    case SetName(v) => u.(name := v)
    case SetSex(n) => u.(sex := n)
    case SetIdent(n) => u.(ident := n)
    case SetMajor(v) => u.(major := Some(v))
    case SetGrade(v) => u.(grade := Some(v))
  }

  function ChangedAll(u: UserInfo, changes: seq<Change>): UserInfo {
    if changes == [] then u
    else Changed(ChangedAll(u, changes[..|changes| - 1]), changes[|changes| - 1])
  }

  function Zeros(subjects: set<string>): Marks {
    map x | x in subjects :: 0
  }

  function ExecUpdateUser(s: State, id: int, changes: seq<Change>): Outcome {
    if changes == [] then Fail(s, BadStatement)
    else
      match Lookup(s.users, id)
      case None => Done(s)
      case Some(before) =>
        var u := ChangedAll(before, changes);
        if !FitsColumns(u) then Fail(s, DoesNotFit)
        else if u.account != before.account && IdOf(s, u.account) != 0 then Fail(s, DuplicateAccount)
        else Done(s.(users := SetRows(s.users, id, v => u)))
  }

  function ExecInsertUser(s: State, info: UserInfo): Outcome {
    if !FitsColumns(info) then Fail(s, DoesNotFit)
    else if s.nextId > LAST_ID then Fail(s, OutOfIds)
    else if IdOf(s, info.account) != 0 then
      Fail(s.(nextId := s.nextId + 1), DuplicateAccount)
    else Done(s.(users := s.users + [Row(s.nextId, info)], nextId := s.nextId + 1))
  }

  function Exec(s: State, st: Stmt): Outcome {
    match st
    case InsertUser(info) => ExecInsertUser(s, info)
    case InsertAuthority(id, text) =>
      if |text| > 150 then Fail(s, DoesNotFit) else Done(s.(auths := s.auths + [Row(id, text)]))
    case InsertScore(id, pairs) =>
      Done(s.(scores := s.scores + [Row(id, Assign(Zeros(s.subjects), pairs))]))
    case UpdateScore(id, pairs) =>
      Done(s.(scores := SetRows(s.scores, id, row => Assign(row, pairs))))
    case UpdateUser(id, changes) => ExecUpdateUser(s, id, changes)
    case UpdateAuthority(id, text) =>
      if |text| > 150 then Fail(s, DoesNotFit)
      else Done(s.(auths := SetRows(s.auths, id, v => text)))
    case DeleteScore(id) => Done(s.(scores := Without(s.scores, {id})))
    case DeleteAuthority(id) => Done(s.(auths := Without(s.auths, {id})))
    case DeleteUser(id) => Done(s.(users := Without(s.users, {id})))
  }

  // ---- The text of the statements ----

  function Quoted(v: string): string {
    "'" + v + "'"
  }

  function QuotedOrNull(v: Option<string>): string {
    if v.Some? then Quoted(v.value) else "NULL"
  }

  /** The server's list of values for account, name, password, sex and Ident. */
  function FiveValues(u: UserInfo): string {
    Quoted(u.account) + "," + Quoted(u.name) + "," + Quoted(u.password) + ","
    + Quoted(IntToStr(u.sex)) + "," + Quoted(IntToStr(u.ident))
  }

  /** The same with major and grade. */
  function SevenValues(u: UserInfo): string {
    Quoted(u.account) + "," + Quoted(u.name) + "," + Quoted(u.password) + ","
    + IntToStr(u.sex) + "," + IntToStr(u.ident) + ","
    + QuotedOrNull(u.major) + "," + QuotedOrNull(u.grade)
  }

  function ChangeText(c: Change): string {
    match c
    case SetAccount(v) => "account=" + Quoted(v)
    case SetPassword(v) => "password=" + Quoted(v)
    case SetName(v) => "name=" + Quoted(v)
    case SetSex(n) => "sex=" + IntToStr(n)
    case SetIdent(n) => "Ident=" + IntToStr(n)
    case SetMajor(v) => "major=" + Quoted(v)
    case SetGrade(v) => "grade=" + Quoted(v)
  }

  function ChangeTexts(changes: seq<Change>): seq<string> {
    seq(|changes|, i requires 0 <= i < |changes| => ChangeText(changes[i]))
  }

  function ChangesText(changes: seq<Change>): string {
    Join(ChangeTexts(changes), ",")
  }

  function InsertFiveText(values: string): string {
    "insert into userInfo(account, name, password, sex, Ident) values(" + values + ")"
  }

  function InsertSevenText(values: string): string {
    "insert into userInfo(account, name, password, sex, Ident, major, grade) values("
    + values + ")"
  }

  function InsertAuthorityText(id: int, authority: string): string {
    "insert into userAuthority(userID, Authority) values(" + IntToStr(id) + ",'" + authority + "')"
  }

  function UpdateUserText(updateSet: string, id: int): string {
    "update userInfo set " + updateSet + " where userID=" + IntToStr(id)
  }

  function UpdateScoreText(updateSet: string, id: int): string {
    "update studScore set " + updateSet + " where userID=" + IntToStr(id)
  }

  function InsertScoreText(names: string, id: int, marks: string): string {
    "insert into studScore(userID," + names + ") values(" + IntToStr(id) + "," + marks + ")"
  }

  function UpdateScoreLength(updateSet: string, id: int): nat {
    |updateSet| + |IntToStr(id)| + 35
  }

  function InsertScoreLength(names: string, id: int, marks: string): nat {
    |names| + |IntToStr(id)| + |marks| + 40
  }

  lemma ScoreTextLengths(updateSet: string, names: string, marks: string, id: int)
    ensures |UpdateScoreText(updateSet, id)| == UpdateScoreLength(updateSet, id)
    ensures |InsertScoreText(names, id, marks)| == InsertScoreLength(names, id, marks)
  {
  }

  lemma IdWidth(id: int)
    requires 0 <= id <= LAST_ID
    ensures |IntToStr(id)| <= 10
  {
    Pow10Values();
    NatWidth(id, 10);
  }

  /** The UPDATE of a printed list is four characters shorter than the INSERT of the two lists, and
      one more for each empty tail of theirs. */
  lemma UpdateIsShorterThanInsert(names: string, marks: string, text: string, id: int)
    requires Pieces(names, ",") != [] && |Pieces(names, ",")| == |Pieces(marks, ",")|
    requires UpdateSetText(Pieces(names, ","), Pieces(marks, ",")) == Some(text)
    ensures |UpdateScoreText(text, id)| + 4 + EmptyTails(names, marks)
            == |InsertScoreText(names, id, marks)|
  {
    PrintedSetLength(names, marks, text);
    ScoreTextLengths(text, names, marks, id);
  }

  // ---- The procedures ----

  datatype Operator = Operator(ident: int, account: string, studentCanDelete: int)

  datatype Call =
    | UserRegister(account: string, name: string, password: string, sex: int, ident: int, authority: string)
    | AddSingleScore(updateSet: string, info: UserInfo, account: string, authority: string,
                     names: string, marks: string)
    | AddSingleUserInfo(info: UserInfo, account: string, authority: string)
    | UpdateSingleUserInfoByAccount(changes: seq<Change>, account: string, updateIdentFlag: int,
                                    authority: string)
    | DeleteSingleUserInfoByAccount(account: string, op: Operator)
    | DeleteBatchUserInfoByUserId(minUserId: int, maxUserId: int, op: Operator)

  predicate OperatorFits(op: Operator) {
    IsTinyInt(op.ident) && |op.account| <= 31 && IsTinyInt(op.studentCanDelete)
  }

  /** The arguments fit the declared parameters. */
  predicate ParametersFit(c: Call) {
    match c
    case UserRegister(account, name, pwd, sex, ident, auth) =>
      |account| <= 31 && |name| <= 31 && |pwd| <= 31 && IsTinyInt(sex) && IsTinyInt(ident) && |auth| <= 150
    case AddSingleScore(set_, info, account, auth, names, marks) =>
      |set_| <= 200 && |FiveValues(info)| <= 200 && |account| <= 31 && |auth| <= 150
      && |names| <= 200 && |marks| <= 200
    case AddSingleUserInfo(info, account, auth) =>
      |SevenValues(info)| <= 200 && |account| <= 31 && |auth| <= 150
    case UpdateSingleUserInfoByAccount(changes, account, flag, auth) =>
      |ChangesText(changes)| <= 200 && |account| <= 31 && |auth| <= 150
    case DeleteSingleUserInfoByAccount(account, op) =>
      |account| <= 31 && OperatorFits(op)
    case DeleteBatchUserInfoByUserId(min, max, op) =>
      IsInt32(min) && IsInt32(max) && OperatorFits(op)
  }

  lemma InsertFiveLength(values: string)
    ensures |InsertFiveText(values)| == |values| + 66
  {
  }

  lemma InsertSevenLength(values: string)
    ensures |InsertSevenText(values)| == |values| + 80
  {
  }

  lemma InsertAuthorityLength(id: int, authority: string)
    ensures |InsertAuthorityText(id, authority)| == |IntToStr(id)| + |authority| + 56
  {
  }

  lemma UpdateUserLength(updateSet: string, id: int)
    ensures |UpdateUserText(updateSet, id)| == |updateSet| + |IntToStr(id)| + 34
  {
  }

  /** The texts put into a varchar(300) for arguments of these lengths fit, but for the score INSERT,
      which fits just when its lists and its id leave room for the rest of the text. */
  lemma TextsFit(values: string, updateSet: string, authority: string, names: string, marks: string, id: int)
    requires |values| <= 200 && |updateSet| <= 200 && |authority| <= 150 && 0 <= id <= LAST_ID
    ensures |InsertFiveText(values)| <= 300 && |InsertSevenText(values)| <= 300
    ensures |InsertAuthorityText(id, authority)| <= 300 && |UpdateUserText(updateSet, id)| <= 300
    ensures |InsertScoreText(names, id, marks)| <= 300 <==> |names| + |marks| + |IntToStr(id)| <= 260
  {
    IdWidth(id);
    InsertFiveLength(values);
    InsertSevenLength(values);
    InsertAuthorityLength(id, authority);
    UpdateUserLength(updateSet, id);
    ScoreTextLengths(updateSet, names, marks, id);
  }

  /** So do those of a score call whose arguments fit. */
  lemma ScoreTextsFit(c: Call, id: int)
    requires c.AddSingleScore? && ParametersFit(c) && 0 <= id <= LAST_ID
    ensures |InsertFiveText(FiveValues(c.info))| <= 300 && |InsertAuthorityText(id, c.authority)| <= 300
    ensures |InsertScoreText(c.names, id, c.marks)| <= 300
            <==> |c.names| + |c.marks| + |IntToStr(id)| <= 260
  {
    TextsFit(FiveValues(c.info), "", c.authority, c.names, c.marks, id);
  }

  lemma InfoTextsFit(c: Call, id: int)
    requires c.AddSingleUserInfo? && ParametersFit(c) && 0 <= id <= LAST_ID
    ensures |InsertSevenText(SevenValues(c.info))| <= 300 && |InsertAuthorityText(id, c.authority)| <= 300
  {
    TextsFit(SevenValues(c.info), "", c.authority, "", "", id);
  }

  lemma UpdateTextFits(c: Call, id: int)
    requires c.UpdateSingleUserInfoByAccount? && ParametersFit(c) && 0 <= id <= LAST_ID
    ensures |UpdateUserText(ChangesText(c.changes), id)| <= 300
  {
    TextsFit("", ChangesText(c.changes), "", "", "", id);
  }

  /** With arguments that fit, every text put into a varchar(300) fits, but for the score INSERT,
      which fits just when its lists and its id leave room for the rest of the text. */
  lemma StatementTextsFit(c: Call, id: int)
    requires ParametersFit(c) && 0 <= id <= LAST_ID
    ensures c.AddSingleScore? ==>
              && |InsertFiveText(FiveValues(c.info))| <= 300 && |InsertAuthorityText(id, c.authority)| <= 300
              && (|InsertScoreText(c.names, id, c.marks)| <= 300
                  <==> |c.names| + |c.marks| + |IntToStr(id)| <= 260)
    ensures c.AddSingleUserInfo? ==>
              |InsertSevenText(SevenValues(c.info))| <= 300 && |InsertAuthorityText(id, c.authority)| <= 300
    ensures c.UpdateSingleUserInfoByAccount? ==> |UpdateUserText(ChangesText(c.changes), id)| <= 300
  {
    if c.AddSingleScore? {
      ScoreTextsFit(c, id);
    } else if c.AddSingleUserInfo? {
      InfoTextsFit(c, id);
    } else if c.UpdateSingleUserInfoByAccount? {
      UpdateTextFits(c, id);
    }
  }

  /** A new user, with the authority row when the account looked up is the one inserted. */
  function Created(s: State, info: UserInfo, account: string, auth: string): Outcome {
    var r := Exec(s, InsertUser(info));
    if r.err.Some? || info.account != account then r
    else Done(r.db.(auths := r.db.auths + [Row(s.nextId, auth)]))
  }

  function ScoreInserted(s: State, id: int, names: string, marks: string, limit: nat): Outcome {
    if InsertScoreLength(names, id, marks) > limit then Fail(s, DoesNotFit)
    else
      match ParseInsert(names, marks, s.subjects)
      case None => Fail(s, BadStatement)
      case Some(pairs) => Exec(s, InsertScore(id, pairs))
  }

  function ScoreUpdated(s: State, id: int, text: string, limit: nat): Outcome {
    if UpdateScoreLength(text, id) > limit then Fail(s, DoesNotFit)
    else
      match ParseSet(text, s.subjects)
      case None => Fail(s, BadStatement)
      case Some(pairs) => Exec(s, UpdateScore(id, pairs))
  }

  /** The score of a registered user. */
  function ScoreWritten(s: State, id: int, text: string, names: string, marks: string): Outcome {
    if Count(s.scores, id) == 1 then ScoreUpdated(s, id, text, 200)
    else if Count(s.scores, id) == 0 then ScoreInserted(s, id, names, marks, 200)
    else Fail(s, NullStatement)
  }

  function WithoutMajorAndGrade(u: UserInfo): UserInfo {
    u.(major := None, grade := None)
  }

  function CreatedWithScore(s: State, info: UserInfo, account: string, auth: string,
                            names: string, marks: string): Outcome
  {
    var r := Created(s, WithoutMajorAndGrade(info), account, auth);
    if r.err.Some? || info.account != account then r
    else ScoreInserted(r.db, s.nextId, names, marks, 300)
  }

  function ScoreAdded(s: State, text: string, info: UserInfo, account: string, auth: string,
                      names: string, marks: string): Outcome
  {
    if IdOf(s, account) > 0 then ScoreWritten(s, IdOf(s, account), text, names, marks)
    else CreatedWithScore(s, info, account, auth, names, marks)
  }

  function UserUpdated(s: State, id: int, changes: seq<Change>, flag: int, auth: string): Outcome {
    var r := Exec(s, UpdateUser(id, changes));
    if r.err.Some? || flag != 1 || Count(r.db.auths, id) != 1 then r
    else Exec(r.db, UpdateAuthority(id, auth))
  }

  predicate MayDeleteOne(op: Operator, u: UserInfo) {
    if op.ident == 1 && op.studentCanDelete == 1 then u.ident == 1
    else op.ident > 1 && (u.ident < op.ident || (u.ident == op.ident && u.account == op.account))
  }

  predicate MayDeleteInBatch(op: Operator, u: UserInfo) {
    || (u.ident == 1 && op.studentCanDelete == 1)
    || u.ident < op.ident
    || (u.ident == op.ident && u.account == op.account)
  }

  function OneTarget(account: string, op: Operator): Row<UserInfo> -> bool {
    (r: Row<UserInfo>) => r.val.account == account && MayDeleteOne(op, r.val)
  }

  function BatchTarget(min: int, max: int, op: Operator): Row<UserInfo> -> bool {
    (r: Row<UserInfo>) => min <= r.id <= max && MayDeleteInBatch(op, r.val)
  }

  /** All rows of some users gone, from all three tables. */
  ghost function Purged(s: State, ids: set<int>): State {
    s.(users := Without(s.users, ids), scores := Without(s.scores, ids),
       auths := Without(s.auths, ids))
  }

  ghost function Deleted(s: State, p: Row<UserInfo> -> bool): Outcome {
    var ids := IdSet(s.users, p);
    Outcome(Purged(s, ids), None, if ids == {} then 0 else 1)
  }

  /** What a call does to the database. */
  ghost function Apply(s: State, c: Call): Outcome {
    if !ParametersFit(c) then Fail(s, DoesNotFit)
    else
      match c
      case UserRegister(account, name, pwd, sex, ident, auth) =>
        var r := Created(s, UserInfo(account, pwd, name, sex, ident, None, None), account, auth);
        if r.err.None? then r.(result := s.nextId) else r
      case AddSingleScore(text, info, account, auth, names, marks) =>
        ScoreAdded(s, text, info, account, auth, names, marks)
      case AddSingleUserInfo(info, account, auth) =>
        if IdOf(s, account) > 0 then Done(s) else Created(s, info, account, auth)
      case UpdateSingleUserInfoByAccount(changes, account, flag, auth) =>
        if IdOf(s, account) > 0 then UserUpdated(s, IdOf(s, account), changes, flag, auth)
        else Done(s)
      case DeleteSingleUserInfoByAccount(account, op) => Deleted(s, OneTarget(account, op))
      case DeleteBatchUserInfoByUserId(min, max, op) => Deleted(s, BatchTarget(min, max, op))
  }

  // ---- The state the initial script leaves ----

  const ADMIN := UserInfo("admin", "123456", "admin", 0, 3, None, None)

  /** 1|2|...|30. */
  function AllAuthority(): string {
    Join(IntTexts(seq(30, i => i + 1)), "|")
  }

  const INIT_SUBJECTS: set<string> := {"Chinese", "Math", "English"}

  function InitState(): State {
    State([Row(FIRST_ID, ADMIN)], [], [Row(FIRST_ID, AllAuthority())], FIRST_ID + 1, INIT_SUBJECTS)
  }
}
