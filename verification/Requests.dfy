/** Which score requests are accepted, and what a run of requests that fit leaves. */
module Requests {
  import opened Effects
  import opened Integrity
  import opened LastWriter
  import opened Runs
  import opened Scripts
  import opened ScoreSql
  import opened StudentDb
  import opened Tables
  import opened Text
  import opened Upsert
  import opened Wrappers
  import StringTool

  // ---- Acceptance of one request ----

  /** Every argument fits, and: a new account's user can be inserted and its first score, if one is
      written, is accepted; for a registered user the branch taken accepts its text. */
  ghost predicate Acceptable(s: State, c: Call)
    requires c.AddSingleScore?
  {
    var id := IdOf(s, c.account);
    && ParametersFit(c)
    && if id == 0 then
         && FitsColumns(WithoutMajorAndGrade(c.info)) && s.nextId <= LAST_ID && IdOf(s, c.info.account) == 0
         && (c.info.account == c.account ==> InsertPairs(s.nextId, c.names, c.marks, s.subjects, 300).Some?)
       else if Lookup(s.scores, id).Some? then UpdatePairs(id, c.updateSet, s.subjects, 200).Some?
       else InsertPairs(id, c.names, c.marks, s.subjects, 200).Some?
  }

  lemma RegisteredAccepted(s: State, id: int, text: string, names: string, marks: string)
    requires Consistent(s) && Count(s.users, id) == 1
    ensures ScoreWritten(s, id, text, names, marks).err.None?
            <==> if Lookup(s.scores, id).Some? then UpdatePairs(id, text, s.subjects, 200).Some?
                 else InsertPairs(id, names, marks, s.subjects, 200).Some?
  {
    CountLookup(s.scores, id);
    BranchesWrite(s, id, names, marks, text, 200);
  }

  lemma UnregisteredAccepted(s: State, info: UserInfo, account: string, auth: string, names: string, marks: string)
    requires Consistent(s)
    ensures CreatedWithScore(s, info, account, auth, names, marks).err.None?
            <==> && FitsColumns(WithoutMajorAndGrade(info)) && s.nextId <= LAST_ID && IdOf(s, info.account) == 0
                 && (info.account == account ==> InsertPairs(s.nextId, names, marks, s.subjects, 300).Some?)
  {
    var r := Created(s, WithoutMajorAndGrade(info), account, auth);
    BranchesWrite(r.db, s.nextId, names, marks, "", 300);
  }

  /** From any consistent state a request is accepted exactly when it is acceptable. */
  lemma RequestAccepted(s: State, c: Call)
    requires Consistent(s) && c.AddSingleScore?
    ensures Apply(s, c).err.None? <==> Acceptable(s, c)
  {
    var id := IdOf(s, c.account);
    IdOfFinds(s, c.account);
    if id > 0 {
      RegisteredAccepted(s, id, c.updateSet, c.names, c.marks);
    } else {
      UnregisteredAccepted(s, c.info, c.account, c.authority, c.names, c.marks);
    }
  }

  // ---- Requests that fit whatever the state ----

  /** A coherent request whose arguments fit, for a user who can be inserted and texts that leave room
      for any id. */
  predicate Fitting(c: Call, account: string, subjects: set<string>) {
    && Coherent(c, account, subjects) && ParametersFit(c) && FitsColumns(WithoutMajorAndGrade(c.info))
    && |c.names| + |c.marks| <= 150 && |c.updateSet| <= 155
  }

  lemma FittingIsAccepted(s: State, c: Call, account: string)
    requires Consistent(s) && s.nextId <= LAST_ID && Fitting(c, account, s.subjects)
    ensures Apply(s, c).err.None?
  {
    var id := IdOf(s, account);
    IdOfFinds(s, account);
    IdWidth(id);
    IdWidth(s.nextId);
    RequestAccepted(s, c);
  }

  /** What the server prints for lists the INSERT accepts fits when the lists have 150 characters. */
  lemma PrintedRequestFits(c: Call, account: string, subjects: set<string>)
    requires PlainNames(subjects) && c.AddSingleScore?
    requires c.account == account && c.info.account == account
    requires ParametersFit(c) && FitsColumns(WithoutMajorAndGrade(c.info)) && |c.names| + |c.marks| <= 150
    requires ParseInsert(c.names, c.marks, subjects).Some?
    requires StringTool.UpdateSetText(Pieces(c.names, ","), Pieces(c.marks, ",")) == Some(c.updateSet)
    ensures Fitting(c, account, subjects)
  {
    PrintedRequestIsCoherent(c, account, subjects);
    InsertAccepted(0, c.names, c.marks, subjects, InsertScoreLength(c.names, 0, c.marks));
    PrintedSetLength(c.names, c.marks, c.updateSet);
  }

  // ---- Whole runs ----

  /** The mark in the last request of the account that lists the subject, or 0. */
  function LastAsked(calls: seq<Call>, account: string, subjects: set<string>, subject: string): int {
    if calls == [] then 0
    else
      var front, last := calls[..|calls| - 1], calls[|calls| - 1];
      var mark := MarkFor(PairsOf(last, subjects), subject);
      if Request(last, account) && mark.Some? then mark.value
      else LastAsked(front, account, subjects, subject)
  }

  function LastAskedMarks(calls: seq<Call>, account: string, subjects: set<string>): Marks {
    map x | x in subjects :: LastAsked(calls, account, subjects, x)
  }

  predicate Asked(calls: seq<Call>, account: string) {
    calls != [] && (Asked(calls[..|calls| - 1], account) || Request(calls[|calls| - 1], account))
  }

  predicate FittingRequests(calls: seq<Call>, account: string, subjects: set<string>) {
    forall i :: 0 <= i < |calls| && Request(calls[i], account) ==> Fitting(calls[i], account, subjects)
  }

  lemma {:induction false} AllAccepted(s: State, calls: seq<Call>, account: string, subject: string)
    requires Inv(s) && ScoreOf(s, account) == None && OnlyRequests(s, calls, account)
    requires FittingRequests(calls, account, s.subjects) && s.nextId + |calls| <= LAST_ID + 1
    ensures LastMark(s, calls, account, subject) == LastAsked(calls, account, s.subjects, subject)
    ensures AnyAccepted(s, calls, account) <==> Asked(calls, account)
  {
    if calls != [] {
      var front, last := calls[..|calls| - 1], calls[|calls| - 1];
      AllAccepted(s, front, account, subject);
      LastWriterWins(s, front, account);
      RunNeverReissues(s, front);
      if Request(last, account) {
        assert Fitting(last, account, s.subjects);
        FittingIsAccepted(Run(s, front), last, account);
      }
    }
  }

  lemma AllMarksAsked(s: State, calls: seq<Call>, account: string)
    requires Inv(s) && ScoreOf(s, account) == None && OnlyRequests(s, calls, account)
    requires FittingRequests(calls, account, s.subjects) && s.nextId + |calls| <= LAST_ID + 1
    ensures LastMarks(s, calls, account) == LastAskedMarks(calls, account, s.subjects)
  {
    forall x | x in s.subjects
      ensures LastMark(s, calls, account, x) == LastAsked(calls, account, s.subjects, x)
    {
      AllAccepted(s, calls, account, x);
    }
  }

  /** Along a run of requests that fit and calls that leave the account alone, as long as ids remain,
      every request is accepted: the account's marks can be read off the requests alone, each subject's
      from the last one that lists it. */
  lemma {:induction false} LastRequestWins(s: State, calls: seq<Call>, account: string)
    requires Inv(s) && ScoreOf(s, account) == None && OnlyRequests(s, calls, account)
    requires FittingRequests(calls, account, s.subjects) && s.nextId + |calls| <= LAST_ID + 1
    ensures ScoreOf(Run(s, calls), account)
            == if Asked(calls, account) then
                 Some(LastAskedMarks(calls, account, s.subjects))
               else None
  {
    LastWriterWins(s, calls, account);
    AllMarksAsked(s, calls, account);
    AllAccepted(s, calls, account, "");
  }

  // ---- The branches in reachable states ----

  /** In every state reached from the initial script, calls cut off included, the two branches take a
      printed request alike but for a repeated column or an empty last piece. */
  lemma ReachableBranchesAgree(attempts: seq<Attempt>, id: int, names: string, marks: string, text: string)
    requires 0 <= id <= LAST_ID
    requires StringTool.UpdateSetText(Pieces(names, ","), Pieces(marks, ",")) == Some(text)
    ensures var s := CutRun(InitState(), attempts);
            var n, tails := InsertScoreLength(names, id, marks), EmptyTails(names, marks);
            InsertPairs(id, names, marks, s.subjects, 200) == UpdatePairs(id, text, s.subjects, 200)
            <==> !(&& ValidLists(Pieces(names, ","), Pieces(marks, ","), s.subjects)
                   && n <= 204 + tails && (!Distinct(Pieces(names, ",")) || tails > 0))
  {
    var s := CutRun(InitState(), attempts);
    InitialSubjects(s.subjects);
    CutRunKeepsSubjects(InitState(), attempts);
    FewSubjectsAgree(id, names, marks, s.subjects, text);
  }

  lemma InitialSubjects(subjects: set<string>)
    ensures subjects == INIT_SUBJECTS ==> PlainNames(subjects) && |subjects| == 3
  {
  }
}
