/** Inputs for which the branches of the score upsert, or the two ways to delete, differ, and a
    registration that is cut off. */
module Counterexamples {
  import opened Decimal
  import opened Deletions
  import opened Effects
  import opened Integrity
  import opened Procedures
  import opened Runs
  import opened ScoreSql
  import opened Scripts
  import opened StringTool
  import opened StudentDb
  import opened Tables
  import opened Text
  import opened Upsert
  import opened Wrappers

  // ---- The score upsert ----

  predicate PlainPieces(v: seq<string>) {
    forall i :: 0 <= i < |v| ==> v[i] != "" && ',' !in v[i]
  }

  lemma {:induction false} EmptyTailIsDropped(v: seq<string>)
    requires v != [] && PlainPieces(v)
    ensures Pieces(Join(v, ",") + ",", ",") == v && EndsInEmptyPiece(Join(v, ",") + ",")
  {
    var w := v + [""];
    AvoidingPiecesAreWellSeparated(w, ",");
    SplitJoined(w);
    JoinSnoc(v, "", ",");
    assert Join(w, ",") == Join(v, ",") + ",";
  }

  lemma SplitJoined(v: seq<string>)
    requires WellSeparated(v, ",")
    ensures FullSplit(Join(v, ","), ",") == v && Pieces(Join(v, ","), ",") == DropEmptyTail(v)
  {
    FullSplitOfJoin(v, ",");
    PiecesDropOne(Join(v, ","), ",");
  }

  lemma NothingIsDropped(v: seq<string>)
    requires v != [] && PlainPieces(v)
    ensures Pieces(Join(v, ","), ",") == v && !EndsInEmptyPiece(Join(v, ","))
  {
    AvoidingPiecesAreWellSeparated(v, ",");
    SplitJoined(v);
  }

  lemma MarksArePlain(marks: seq<string>)
    requires forall i :: 0 <= i < |marks| ==> IsMark(marks[i])
    ensures PlainPieces(marks)
  {
    forall i | 0 <= i < |marks| ensures marks[i] != "" && ',' !in marks[i] {
      var m := marks[i];
      var d := if m[0] == '-' then m[1..] else m;
      assert AllDigits(d);
      assert m == d || m == "-" + d;
    }
  }

  /** Marks for some subjects, each assignment short enough for the printer's buffer. */
  ghost predicate Requested(cols: seq<string>, marks: seq<string>, subjects: set<string>) {
    && PlainNames(subjects) && ValidLists(cols, marks, subjects)
    && forall i :: 0 <= i < |cols| ==> |cols[i]| + 1 + |marks[i]| < 30
  }

  function MaybeComma(comma: bool): string {
    if comma then "," else ""
  }

  /** What the branches make of such a request, with or without a comma after the names or the marks:
      the printed list is the same, the UPDATE fits when the INSERT is at most four characters too
      long, not counting the commas, and the INSERT wants no comma and no column twice. */
  lemma RequestTaken(cols: seq<string>, marks: seq<string>, subjects: set<string>, id: int, limit: nat,
                     a: bool, b: bool)
    requires Requested(cols, marks, subjects)
    ensures var names, values := Join(cols, ",") + MaybeComma(a), Join(marks, ",") + MaybeComma(b);
            var text, n := Join(Assignments(cols, marks), ","), InsertScoreLength(names, id, values);
            && UpdateSetText(Pieces(names, ","), Pieces(values, ",")) == Some(text)
            && (UpdatePairs(id, text, subjects, limit).Some?
                <==> n <= limit + 4 + |MaybeComma(a)| + |MaybeComma(b)|)
            && (InsertPairs(id, names, values, subjects, limit).Some?
                <==> Distinct(cols) && !a && !b && n <= limit)
  {
    var names, values := Join(cols, ",") + MaybeComma(a), Join(marks, ",") + MaybeComma(b);
    var text := Join(Assignments(cols, marks), ",");
    MarksArePlain(marks);
    CommaIsDropped(cols, a);
    CommaIsDropped(marks, b);
    UpdateAccepted(id, names, values, subjects, text, limit);
    InsertAccepted(id, names, values, subjects, limit);
  }

  lemma CommaIsDropped(v: seq<string>, comma: bool)
    requires v != [] && PlainPieces(v)
    ensures var s := Join(v, ",") + MaybeComma(comma);
            Pieces(s, ",") == v && (EndsInEmptyPiece(s) <==> comma)
  {
    if comma {
      EmptyTailIsDropped(v);
    } else {
      NothingIsDropped(v);
      assert Join(v, ",") + "" == Join(v, ",");
    }
  }

  lemma DigitMarks()
    ensures IsMark("1") && IsMark("2") && IsMark("5")
  {
    AtoiOfIntToStr(1);
    AtoiOfIntToStr(2);
    AtoiOfIntToStr(5);
    assert IntToStr(1) == "1" && IntToStr(2) == "2" && IntToStr(5) == "5";
  }

  lemma JoinTwo(a: string, b: string)
    ensures Join([a, b], ",") == a + "," + b
  {
  }

  /** A column listed twice: the UPDATE sets it twice, the INSERT fails. */
  lemma RepeatedColumn()
    ensures var text := "Math=1,Math=2";
            && UpdateSetText(Pieces("Math,Math", ","), Pieces("1,2", ",")) == Some(text)
            && UpdatePairs(100001, text, INIT_SUBJECTS, 200).Some?
            && InsertPairs(100001, "Math,Math", "1,2", INIT_SUBJECTS, 200) == None
  {
    var cols, marks := ["Math", "Math"], ["1", "2"];
    InitialNamesArePlain();
    DigitMarks();
    JoinTwo("Math", "Math");
    JoinTwo("1", "2");
    JoinTwo("Math=1", "Math=2");
    IdWidth(100001);
    assert "Math" + "," + "Math" + "" == "Math,Math" && "1" + "," + "2" + "" == "1,2";
    assert "Math" + "=" + "1" == "Math=1" && "Math" + "=" + "2" == "Math=2";
    assert Assignments(cols, marks) == ["Math=1", "Math=2"];
    assert "Math=1" + "," + "Math=2" == "Math=1,Math=2";
    RequestTaken(cols, marks, INIT_SUBJECTS, 100001, 200, false, false);
    assert !Distinct(cols) by {
      assert cols[0] == cols[1];
    }
  }

  /** A comma after the mark, which the server passes on: the printed list is without it, the INSERT
      has a value too many. */
  lemma CommaAtTheEnd()
    ensures UpdateSetText(Pieces("Math", ","), Pieces("5,", ",")) == Some("Math=5")
            && UpdatePairs(100001, "Math=5", INIT_SUBJECTS, 200).Some?
            && InsertPairs(100001, "Math", "5,", INIT_SUBJECTS, 200) == None
  {
    var cols, marks := ["Math"], ["5"];
    InitialNamesArePlain();
    DigitMarks();
    IdWidth(100001);
    assert "Math" + "=" + "5" == "Math=5";
    assert Assignments(cols, marks) == ["Math=5"];
    assert Join(cols, ",") + "" == "Math" && Join(marks, ",") + "," == "5,";
    RequestTaken(cols, marks, INIT_SUBJECTS, 100001, 200, false, true);
  }

  // ---- An INSERT that is too long ----

  /** The mark 90 with zeros before it. */
  function Padded(zeros: nat): string {
    seq(zeros, _ => '0') + "90"
  }

  lemma {:induction false} PaddedValue(zeros: nat)
    ensures |Padded(zeros)| == zeros + 2 && AllDigits(Padded(zeros)) && DigitsValue(Padded(zeros)) == 90
  {
    var t := seq(zeros, _ => '0') + "9";
    assert Padded(zeros)[..zeros + 1] == t;
    assert t[..zeros] == seq(zeros, _ => '0');
    ZerosAreZero(zeros);
  }

  lemma {:induction false} ZerosAreZero(k: nat)
    ensures DigitsValue(seq(k, _ => '0')) == 0
  {
    if k > 0 {
      ZerosAreZero(k - 1);
      assert seq(k, _ => '0')[..k - 1] == seq(k - 1, _ => '0');
    }
  }

  lemma PaddedIsMark(zeros: nat)
    ensures IsMark(Padded(zeros)) && |Padded(zeros)| == zeros + 2
  {
    PaddedValue(zeros);
    DigitPrefixOfDigits(Padded(zeros));
    AtoiOfDigits(Padded(zeros));
    assert IsDigit(Padded(zeros)[0]);
  }

  lemma TotalNine(a: string, b: string, c: string, d: string, e: string, f: string, g: string, h: string,
                  i: string)
    ensures TotalLength([a, b, c, d, e, f, g, h, i])
            == |a| + |b| + |c| + |d| + |e| + |f| + |g| + |h| + |i|
  {
    assert TotalLength([a, b, c, d, e, f, g, h, i]) == |a| + TotalLength([b, c, d, e, f, g, h, i]);
    assert TotalLength([b, c, d, e, f, g, h, i]) == |b| + TotalLength([c, d, e, f, g, h, i]);
    assert TotalLength([c, d, e, f, g, h, i]) == |c| + TotalLength([d, e, f, g, h, i]);
    assert TotalLength([d, e, f, g, h, i]) == |d| + TotalLength([e, f, g, h, i]);
    assert TotalLength([e, f, g, h, i]) == |e| + TotalLength([f, g, h, i]);
    assert TotalLength([f, g, h, i]) == |f| + TotalLength([g, h, i]);
    assert TotalLength([g, h, i]) == |g| + TotalLength([h, i]);
    assert TotalLength([h, i]) == |h| + TotalLength([i]);
  }

  /** 00000090 for seven subjects and 000000090 for two; with bars between them 82 characters, and the
      client takes 90. */
  const PADDED_MARKS := [
    Padded(6), Padded(6), Padded(6), Padded(6), Padded(6), Padded(6), Padded(6), Padded(7), Padded(7)
  ]

  lemma PaddedLengths()
    ensures |PADDED_MARKS| == 9 && |Join(PADDED_MARKS, ",")| == 82
    ensures forall i :: 0 <= i < 9 ==> IsMark(PADDED_MARKS[i]) && |PADDED_MARKS[i]| <= 9
  {
    PaddedIsMark(6);
    PaddedIsMark(7);
    TotalNine(Padded(6), Padded(6), Padded(6), Padded(6), Padded(6), Padded(6), Padded(6), Padded(7), Padded(7));
    JoinLength(PADDED_MARKS, ",");
  }

  lemma ServerNamesLength()
    ensures |Join(SERVER_NAMES, ",")| == 73
  {
    TotalNine("chinese", "math", "english", "physics", "chemistry", "biology", "history", "politics", "geography");
    JoinLength(SERVER_NAMES, ",");
  }

  lemma SixDigits(n: int)
    requires 100000 <= n < 1000000
    ensures |IntToStr(n)| == 6
  {
    Pow10Values();
    assert Pow10(5) == 10 * Pow10(4) == 100 * Pow10(3) && Pow10(6) == 10 * Pow10(5);
    NatWidth(n, 5);
    NatWidth(n, 6);
  }

  /** What the server prints for the two lists is taken by the UPDATE in `shorter` characters; the
      INSERT, of `longer` ones, does not fit, where a first score for a new account would. */
  ghost predicate InsertTooLong(names: string, marks: string, subjects: set<string>, shorter: nat, longer: nat) {
    var text := UpdateSetText(Pieces(names, ","), Pieces(marks, ","));
    && text.Some? && UpdatePairs(100001, text.value, subjects, 200).Some?
    && UpdateScoreLength(text.value, 100001) == shorter
    && InsertScoreLength(names, 100001, marks) == longer
    && InsertPairs(100001, names, marks, subjects, 200) == None
    && InsertPairs(100001, names, marks, subjects, 300).Some?
  }

  lemma LongRequest(cols: seq<string>, marks: seq<string>, subjects: set<string>, names: string, values: string)
    requires Requested(cols, marks, subjects) && Distinct(cols)
    requires names == Join(cols, ",") && values == Join(marks, ",")
    requires 200 < |names| + |values| + 46 <= 204
    ensures InsertTooLong(names, values, subjects, |names| + |values| + 42, |names| + |values| + 46)
  {
    SixDigits(100001);
    assert names + "" == names && values + "" == values;
    RequestTaken(cols, marks, subjects, 100001, 200, false, false);
    RequestTaken(cols, marks, subjects, 100001, 300, false, false);
    AssignmentsLength(cols, marks);
  }

  lemma RequestForAll(cols: seq<string>, marks: seq<string>, subjects: set<string>)
    requires |cols| == |marks| > 0 && subjects == set x | x in cols
    requires forall i :: 0 <= i < |cols| ==>
               PlainName(cols[i]) && IsMark(marks[i]) && |cols[i]| + 1 + |marks[i]| < 30
    ensures Requested(cols, marks, subjects)
  {
  }

  lemma PaddedRequest()
    ensures Requested(SERVER_NAMES, PADDED_MARKS, SERVER_SUBJECTS)
  {
    PaddedLengths();
    ServerNames();
    RequestForAll(SERVER_NAMES, PADDED_MARKS, SERVER_SUBJECTS);
  }

  /** All nine subjects with these marks: 197 characters of UPDATE, 201 of INSERT. */
  lemma PaddedMarksTooLong()
    ensures InsertTooLong(Join(SERVER_NAMES, ","), Join(PADDED_MARKS, ","), SERVER_SUBJECTS, 197, 201)
  {
    PaddedRequest();
    PaddedLengths();
    ServerNames();
    ServerNamesLength();
    LongRequest(SERVER_NAMES, PADDED_MARKS, SERVER_SUBJECTS,
                Join(SERVER_NAMES, ","), Join(PADDED_MARKS, ","));
  }

  // ---- Deletion ----

  const STUDENT := UserInfo("a", "123456", "a", 0, 1, None, None)

  const REGISTER := UserRegister("a", "a", "123456", 0, 1, "1")

  lemma Registered()
    ensures var r := Apply(InitState(), REGISTER);
            r.err.None? && r.db.users == [Row(FIRST_ID, ADMIN), Row(100001, STUDENT)]
  {
  }

  lemma OneStudent()
    ensures var s := Run(InitState(), [REGISTER]);
            && Inv(s) && s.users == [Row(FIRST_ID, ADMIN), Row(100001, STUDENT)]
  {
    InitStateIsValid();
    RunKeepsInv(InitState(), [REGISTER]);
    RunSnoc(InitState(), [], REGISTER);
    assert [] + [REGISTER] == [REGISTER];
    Registered();
  }

  lemma Gone(s: State, r: Row<UserInfo>, op: Operator)
    requires Inv(s) && r in s.users && r.id == 100001 && OperatorFits(op) && MayDeleteInBatch(op, r.val)
    ensures Count(s.users, 100001) == 1
    ensures Count(Apply(s, DeleteBatchUserInfoByUserId(100001, 100001, op)).db.users, 100001) == 0
  {
    CountLookup(s.users, 100001);
    CallRemovesId(s, DeleteBatchUserInfoByUserId(100001, 100001, op), r);
  }

  /** The student whose account is "a", without the grant, deletes itself in a batch but not singly. */
  lemma StudentDeletesItself()
    ensures var s, op := Run(InitState(), [REGISTER]), Operator(1, "a", 0);
            && Count(s.users, 100001) == 1
            && Count(Apply(s, DeleteBatchUserInfoByUserId(100001, 100001, op)).db.users, 100001) == 0
            && Apply(s, DeleteSingleUserInfoByAccount("a", op)).db == s
  {
    var s, op := Run(InitState(), [REGISTER]), Operator(1, "a", 0);
    OneStudent();
    assert s.users[1] in s.users;
    Gone(s, Row(100001, STUDENT), op);
    UngrantedStudentDeletesNobody(s, "a", op);
  }

  const LONG_ACCOUNT := "abcdefghijklmnopqrstuvwxyz012345"

  const RENAME := UpdateSingleUserInfoByAccount([SetAccount(LONG_ACCOUNT)], "a", 0, "")

  lemma RenameFits()
    ensures |LONG_ACCOUNT| == 32 && ParametersFit(RENAME)
    ensures FitsColumns(STUDENT.(account := LONG_ACCOUNT))
  {
    assert ChangesText([SetAccount(LONG_ACCOUNT)]) == ChangeText(SetAccount(LONG_ACCOUNT));
  }

  /** The only user but the administrator renamed. */
  lemma Renamed(s: State, c: Call, info: UserInfo, account: string)
    requires Inv(s) && s.users == [Row(FIRST_ID, ADMIN), Row(100001, info)]
    requires c == UpdateSingleUserInfoByAccount([SetAccount(account)], info.account, 0, "")
    requires ParametersFit(c) && FitsColumns(info.(account := account))
    requires account != "admin" && account != info.account
    ensures Apply(s, c).db.users == [Row(FIRST_ID, ADMIN), Row(100001, info.(account := account))]
  {
    var r := s.users[1];
    assert r in s.users && s.users[0] in s.users;
    IdOfRow(s, r);
    LookupOfUnique(s.users, r);
    IdOfFinds(s, account);
    assert [SetAccount(account)][..0] == [];
    assert ChangedAll(info, [SetAccount(account)]) == info.(account := account);
    RenamedRows(s.users, info, info.(account := account));
  }

  lemma RenamedRows(rows: seq<Row<UserInfo>>, info: UserInfo, u: UserInfo)
    requires rows == [Row(FIRST_ID, ADMIN), Row(100001, info)]
    ensures SetRows(rows, 100001, v => u) == [Row(FIRST_ID, ADMIN), Row(100001, u)]
  {
    SetRowsAt(rows, 100001, v => u, 0);
    SetRowsAt(rows, 100001, v => u, 1);
  }

  lemma OneLongAccount()
    ensures var s := Run(InitState(), [REGISTER, RENAME]);
            && Inv(s)
            && s.users == [Row(FIRST_ID, ADMIN), Row(100001, STUDENT.(account := LONG_ACCOUNT))]
  {
    OneStudent();
    RunSnoc(InitState(), [REGISTER], RENAME);
    assert [REGISTER] + [RENAME] == [REGISTER, RENAME];
    RenameFits();
    Renamed(Run(InitState(), [REGISTER]), RENAME, STUDENT, LONG_ACCOUNT);
    ApplyKeepsInv(Run(InitState(), [REGISTER]), RENAME);
  }

  /** A user renamed to 32 characters: the administrator deletes it in a batch but not singly. */
  lemma LongAccountStays()
    ensures var s, op := Run(InitState(), [REGISTER, RENAME]), Operator(3, "admin", 0);
            && Count(s.users, 100001) == 1
            && Count(Apply(s, DeleteBatchUserInfoByUserId(100001, 100001, op)).db.users, 100001) == 0
            && Apply(s, DeleteSingleUserInfoByAccount(LONG_ACCOUNT, op)).db == s
  {
    var s, op := Run(InitState(), [REGISTER, RENAME]), Operator(3, "admin", 0);
    OneLongAccount();
    RenameFits();
    assert s.users[1] in s.users;
    Gone(s, Row(100001, STUDENT.(account := LONG_ACCOUNT)), op);
  }

  // ---- Registration ----

  /** A registration cut off after its first statement leaves a user who never gets an authority row,
      whatever calls follow, whole or cut off. */
  lemma RegistrationCutOff(attempts: seq<Attempt>)
    ensures var s := CutOff(InitState(), Attempt(REGISTER, 1));
            Count(s.users, 100001) == 1 && Count(CutRun(s, attempts).auths, 100001) == 0
  {
    var s := CutOff(InitState(), Attempt(REGISTER, 1));
    UserInserted();
    Appended([Row(FIRST_ID, ADMIN)], Row(100001, STUDENT));
    Appended([], Row(FIRST_ID, ADMIN));
    Appended([], Row(FIRST_ID, AllAuthority()));
    assert [] + [Row(FIRST_ID, ADMIN)] == [Row(FIRST_ID, ADMIN)];
    assert [] + [Row(FIRST_ID, AllAuthority())] == s.auths;
    AuthorityNeverComes(s, attempts, 100001);
  }

  lemma UserInserted()
    ensures var s := CutOff(InitState(), Attempt(REGISTER, 1));
            s == InitState().(users := [Row(FIRST_ID, ADMIN)] + [Row(100001, STUDENT)], nextId := 100002)
  {
    var stmts := Script(InitState(), REGISTER);
    assert stmts == [InsertUser(STUDENT), InsertAuthority(100001, "1")];
    assert FirstOf(stmts, 1) == [InsertUser(STUDENT)];
    ExecOne(InitState(), InsertUser(STUDENT));
  }
}
