/** Runs of score requests: the last writer wins. */
module LastWriter {
  import opened Deletions
  import opened Effects
  import opened Integrity
  import opened Runs
  import opened ScoreSql
  import opened StudentDb
  import opened Tables
  import opened Text
  import opened Wrappers
  import StringTool
  import Updates

  ghost function ScoreOf(s: State, account: string): Option<Marks> {
    if IdOf(s, account) == 0 then None else Lookup(s.scores, IdOf(s, account))
  }

  /** What a score request would write in this state: the UPDATE list where the account has a score,
      the INSERT lists where it has none.  None if that text is not a statement. */
  ghost function BranchPairs(s: State, c: Call): Option<Pairs>
    requires c.AddSingleScore?
  {
    if ScoreOf(s, c.account).Some? then ParseSet(c.updateSet, s.subjects)
    else ParseInsert(c.names, c.marks, s.subjects)
  }

  ghost function TakenPairs(s: State, c: Call): Pairs {
    if c.AddSingleScore? && BranchPairs(s, c).Some? then BranchPairs(s, c).value else []
  }

  /** A score request whose UPDATE list says the same as its INSERT lists, for the account of the
      user it would insert. */
  predicate Coherent(c: Call, account: string, subjects: set<string>) {
    && c.AddSingleScore? && c.account == account && c.info.account == account
    && ParseInsert(c.names, c.marks, subjects).Some?
    && ParseSet(c.updateSet, subjects) == ParseInsert(c.names, c.marks, subjects)
  }

  function PairsOf(c: Call, subjects: set<string>): Pairs {
    if c.AddSingleScore? && ParseInsert(c.names, c.marks, subjects).Some? then
      ParseInsert(c.names, c.marks, subjects).value
    else []
  }

  ghost function MarksBefore(s: State, account: string): Marks {
    if ScoreOf(s, account).Some? then ScoreOf(s, account).value else Zeros(s.subjects)
  }

  /** The row with this id now holds the pairs over `before`, as a new row if it was missing. */
  ghost predicate Wrote(scores: seq<Row<Marks>>, scores': seq<Row<Marks>>, id: int, pairs: Pairs, zeros: Marks) {
    && Lookup(scores', id)
       == Some(Assign(if Lookup(scores, id).Some? then Lookup(scores, id).value else zeros, pairs))
    && |scores'| == |scores| + (if Lookup(scores, id).Some? then 0 else 1)
    && forall other :: other != id ==> Lookup(scores', other) == Lookup(scores, other)
  }

  lemma InsertWrites(s: State, id: int, pairs: Pairs)
    requires Lookup(s.scores, id) == None
    ensures Wrote(s.scores, Exec(s, InsertScore(id, pairs)).db.scores, id, pairs, Zeros(s.subjects))
  {
    Appended(s.scores, Row(id, Assign(Zeros(s.subjects), pairs)));
  }

  lemma UpdateWrites(s: State, id: int, pairs: Pairs)
    requires Lookup(s.scores, id).Some?
    ensures Wrote(s.scores, Exec(s, UpdateScore(id, pairs)).db.scores, id, pairs, Zeros(s.subjects))
  {
    var f := row => Assign(row, pairs);
    forall other
      ensures Lookup(SetRows(s.scores, id, f), other)
              == if other == id then Some(f(Lookup(s.scores, id).value)) else Lookup(s.scores, other)
    {
      CountSetRows(s.scores, id, f, other);
    }
  }

  ghost predicate WroteOrFailed(s: State, id: int, pairs: Option<Pairs>, r: Outcome) {
    && r.db.users == s.users
    && if r.err.None? then pairs.Some? && Wrote(s.scores, r.db.scores, id, pairs.value, Zeros(s.subjects))
       else r.db == s
  }

  lemma InsertBranchWrites(s: State, id: int, names: string, marks: string, limit: nat)
    requires Lookup(s.scores, id) == None
    ensures WroteOrFailed(s, id, ParseInsert(names, marks, s.subjects),
                          ScoreInserted(s, id, names, marks, limit))
  {
    var pairs := ParseInsert(names, marks, s.subjects);
    if pairs.Some? {
      InsertWrites(s, id, pairs.value);
    }
  }

  lemma UpdateBranchWrites(s: State, id: int, text: string, limit: nat)
    requires Lookup(s.scores, id).Some?
    ensures WroteOrFailed(s, id, ParseSet(text, s.subjects), ScoreUpdated(s, id, text, limit))
  {
    var pairs := ParseSet(text, s.subjects);
    if pairs.Some? {
      UpdateWrites(s, id, pairs.value);
    }
  }

  /** For a registered user, the pairs of the branch the score row selects go to that one row; any
      failure, of length or of syntax, changes nothing. */
  lemma {:induction false} RegisteredWrites(s: State, id: int, text: string, names: string, marks: string)
    requires Inv(s) && Count(s.users, id) == 1
    ensures var pairs := if Lookup(s.scores, id).Some? then ParseSet(text, s.subjects)
                         else ParseInsert(names, marks, s.subjects);
            WroteOrFailed(s, id, pairs, ScoreWritten(s, id, text, names, marks))
  {
    CountLookup(s.scores, id);
    if Count(s.scores, id) == 1 {
      UpdateBranchWrites(s, id, text, 200);
    } else {
      InsertBranchWrites(s, id, names, marks, 200);
    }
  }

  /** In `t` the user has been added under the next id, which had no score row. */
  ghost predicate Joined(s: State, info: UserInfo, t: State) {
    && t.users == s.users + [Row(s.nextId, info)] && IdOf(t, info.account) == s.nextId
    && Lookup(s.scores, s.nextId) == None
  }

  /** A first score for a new account: the pairs of the INSERT lists over zeros, in a row of its own.
      If the score is refused the user may have been created, but no score row is. */
  lemma UnregisteredWrites(s: State, info: UserInfo, auth: string, names: string, marks: string)
    requires Inv(s) && IdOf(s, info.account) == 0
    ensures var r := CreatedWithScore(s, info, info.account, auth, names, marks);
            var pairs := ParseInsert(names, marks, s.subjects);
            if r.err.None? then
              && pairs.Some? && Joined(s, WithoutMajorAndGrade(info), r.db)
              && Wrote(s.scores, r.db.scores, s.nextId, pairs.value, Zeros(s.subjects))
            else r.db.scores == s.scores
                 && (r.db.users == s.users || Joined(s, WithoutMajorAndGrade(info), r.db))
  {
    var user := WithoutMajorAndGrade(info);
    FreshId(s);
    CountLookup(s.scores, s.nextId);
    CreatedFresh(s, user, info.account, auth);
    var mid := Created(s, user, info.account, auth);
    if mid.err.None? {
      InsertBranchWrites(mid.db, s.nextId, names, marks, 300);
    }
  }

  /** An accepted request, whatever its texts, writes the pairs of the branch taken over the marks so
      far, or over zeros in a new row; a refused one leaves the marks. */
  lemma {:induction false} RequestWrites(s: State, c: Call)
    requires Inv(s) && c.AddSingleScore? && CarriesAccount(c)
    ensures var r := Apply(s, c);
            if r.err.None? then
              && BranchPairs(s, c).Some?
              && ScoreOf(r.db, c.account) == Some(Assign(MarksBefore(s, c.account), TakenPairs(s, c)))
              && |r.db.scores| == |s.scores| + (if ScoreOf(s, c.account).Some? then 0 else 1)
            else ScoreOf(r.db, c.account) == ScoreOf(s, c.account) && r.db.scores == s.scores
  {
    if ParametersFit(c) {
      IdOfFinds(s, c.account);
      if IdOf(s, c.account) > 0 {
        RegisteredWrites(s, IdOf(s, c.account), c.updateSet, c.names, c.marks);
      } else {
        UnregisteredWrites(s, c.info, c.authority, c.names, c.marks);
      }
    }
  }

  /** What the server prints for lists the INSERT accepts makes a coherent request. */
  lemma PrintedRequestIsCoherent(c: Call, account: string, subjects: set<string>)
    requires PlainNames(subjects) && c.AddSingleScore?
    requires c.account == account && c.info.account == account
    requires ParseInsert(c.names, c.marks, subjects).Some?
    requires StringTool.UpdateSetText(Pieces(c.names, ","), Pieces(c.marks, ",")) == Some(c.updateSet)
    ensures Coherent(c, account, subjects)
  {
    UpsertCoherence(c.names, c.marks, subjects, c.updateSet);
    AcceptedInsertHasNoEmptyPiece(c.names, c.marks, subjects);
  }

  // ---- Calls in between that leave the score alone ----

  predicate Request(c: Call, account: string) {
    c.AddSingleScore? && c.account == account
  }

  /** The update leaves the account with the user that has it: an account assigned last is this one
      just when it is this one's user that is updated. */
  predicate LeavesAccount(changes: seq<Change>, whose: string, account: string) {
    var v := Updates.LastAssigned(changes, Updates.Account);
    v.Some? ==> (v.value == Updates.Text(account) <==> whose == account)
  }

  /** A call for someone else's score, any registration, an update that leaves the account where it
      is, or a deletion that does not reach it. */
  ghost predicate Bystander(s: State, c: Call, account: string) {
    && !Request(c, account) && CarriesAccount(c)
    && (c.UpdateSingleUserInfoByAccount? ==> LeavesAccount(c.changes, c.account, account))
    && forall r :: r in s.users && r.val.account == account ==> !Removes(c, r)
  }

  lemma OtherIdsUnchanged(s: State, info: UserInfo, t: State, account: string)
    requires GrewBy(s, info, t) && account != info.account
    ensures IdOf(t, account) == IdOf(s, account)
  {
    assert (s.users + [Row(s.nextId, info)])[..|s.users|] == s.users;
  }

  /** A registration gives the new account no score and touches no other. */
  lemma RegistrationKeepsScores(s: State, info: UserInfo, auth: string, account: string)
    requires Inv(s)
    ensures ScoreOf(Created(s, info, info.account, auth).db, account) == ScoreOf(s, account)
  {
    var t := Created(s, info, info.account, auth).db;
    CreatedFresh(s, info, info.account, auth);
    CreatedGrows(s, info, info.account, auth);
    FreshId(s);
    CountLookup(s.scores, s.nextId);
    if account != info.account {
      OtherIdsUnchanged(s, info, t, account);
    }
  }

  /** A score INSERT, whatever its text, leaves the score rows of other ids. */
  lemma ScoreInsertKeepsOthers(s: State, id: int, names: string, marks: string, limit: nat, other: int)
    requires other != id
    ensures var t := ScoreInserted(s, id, names, marks, limit).db;
            t.users == s.users && Lookup(t.scores, other) == Lookup(s.scores, other)
  {
    var pairs := ParseInsert(names, marks, s.subjects);
    if pairs.Some? {
      Appended(s.scores, Row(id, Assign(Zeros(s.subjects), pairs.value)));
    }
  }

  /** So does a score UPDATE. */
  lemma ScoreUpdateKeepsOthers(s: State, id: int, text: string, limit: nat, other: int)
    requires other != id
    ensures var t := ScoreUpdated(s, id, text, limit).db;
            t.users == s.users && Lookup(t.scores, other) == Lookup(s.scores, other)
  {
    var pairs := ParseSet(text, s.subjects);
    if pairs.Some? {
      var f := row => Assign(row, pairs.value);
      CountSetRows(s.scores, id, f, other);
      assert Exec(s, UpdateScore(id, pairs.value)).db.scores == SetRows(s.scores, id, f);
    }
  }

  lemma OthersScoreKeepsScore(s: State, text: string, info: UserInfo, auth: string,
                              names: string, marks: string, account: string)
    requires Inv(s) && account != info.account
    ensures ScoreOf(ScoreAdded(s, text, info, info.account, auth, names, marks).db, account)
            == ScoreOf(s, account)
  {
    var mine, theirs := IdOf(s, account), IdOf(s, info.account);
    IdOfFinds(s, account);
    IdOfFinds(s, info.account);
    if theirs > 0 {
      ScoreInsertKeepsOthers(s, theirs, names, marks, 200, mine);
      ScoreUpdateKeepsOthers(s, theirs, text, 200, mine);
    } else {
      var user := WithoutMajorAndGrade(info);
      var mid := Created(s, user, info.account, auth).db;
      RegistrationKeepsScores(s, user, auth, account);
      CreatedGrows(s, user, info.account, auth);
      OtherIdsUnchanged(s, user, mid, account);
      ScoreInsertKeepsOthers(mid, s.nextId, names, marks, 300, mine);
    }
  }

  lemma UpdateKeepsIds(s: State, whose: string, changes: seq<Change>, account: string)
    requires Inv(s) && IdOf(s, whose) != 0 && LeavesAccount(changes, whose, account)
    ensures IdOf(ExecUpdateUser(s, IdOf(s, whose), changes).db, account) == IdOf(s, account)
  {
    var id := IdOf(s, whose);
    var t := ExecUpdateUser(s, id, changes).db;
    IdOfFinds(s, whose);
    if t != s {
      var before := Lookup(s.users, id).value;
      var u := ChangedAll(before, changes);
      Updates.ChangedCells(before, changes, Updates.Account);
      forall r | r in s.users && r.id == id ensures r.val == before {
        LookupOfUnique(s.users, r);
      }
      SelectIdInUpdated(s.users, id, u, account);
    }
  }

  lemma {:induction false} SelectIdInUpdated(rows: seq<Row<UserInfo>>, id: int, u: UserInfo, account: string)
    requires forall r :: r in rows && r.id == id ==> (r.val.account == account <==> u.account == account)
    ensures SelectId(SetRows(rows, id, v => u), ByAccount(account)) == SelectId(rows, ByAccount(account))
  {
    if rows != [] {
      var n := |rows| - 1;
      SelectIdInUpdated(rows[..n], id, u, account);
      assert rows[n] in rows;
      assert SetRows(rows, id, v => u)[..n] == SetRows(rows[..n], id, v => u);
    }
  }

  lemma DeletionKeepsScore(s: State, p: Row<UserInfo> -> bool, account: string)
    requires Inv(s) && forall r :: r in s.users && r.val.account == account ==> !p(r)
    ensures ScoreOf(Deleted(s, p).db, account) == ScoreOf(s, account)
  {
    var ids, id := IdSet(s.users, p), IdOf(s, account);
    var t := Purged(s, ids);
    PurgedKeepsInv(s, ids);
    PurgedRows(s, ids);
    IdOfFinds(s, account);
    IdOfFinds(t, account);
    if id != 0 {
      var r := Row(id, Lookup(s.users, id).value);
      RowInIdSet(s, p, r);
      IdOfRow(t, r);
      CountWithout(s.scores, ids, id);
    }
  }

  lemma {:induction false} BystanderKeepsScore(s: State, c: Call, account: string)
    requires Inv(s) && Bystander(s, c, account)
    ensures ScoreOf(Apply(s, c).db, account) == ScoreOf(s, account)
  {
    if ParametersFit(c) {
      match c
      case UserRegister(_, _, _, _, _, auth) => RegistrationKeepsScores(s, NewUser(c), auth, account);
      case AddSingleScore(text, info, _, auth, names, marks) =>
        OthersScoreKeepsScore(s, text, info, auth, names, marks, account);
      case AddSingleUserInfo(info, _, auth) => RegistrationKeepsScores(s, info, auth, account);
      case UpdateSingleUserInfoByAccount(changes, whose, _, _) =>
        if IdOf(s, whose) > 0 {
          UpdateKeepsIds(s, whose, changes, account);
        }
      case DeleteSingleUserInfoByAccount(whose, op) => DeletionKeepsScore(s, OneTarget(whose, op), account);
      case DeleteBatchUserInfoByUserId(min, max, op) => DeletionKeepsScore(s, BatchTarget(min, max, op), account);
    }
  }

  // ---- Whole runs ----

  ghost predicate Accepted(s: State, c: Call, account: string) {
    Request(c, account) && Apply(s, c).err.None?
  }

  ghost predicate AnyAccepted(s: State, calls: seq<Call>, account: string) {
    calls != [] && (AnyAccepted(s, calls[..|calls| - 1], account)
                    || Accepted(Run(s, calls[..|calls| - 1]), calls[|calls| - 1], account))
  }

  /** The mark in the account's last accepted request that lists the subject, or 0.  The list is the
      one of the branch that request took, in the state it met. */
  ghost function LastMark(s: State, calls: seq<Call>, account: string, subject: string): int {
    if calls == [] then 0
    else
      var front, last := calls[..|calls| - 1], calls[|calls| - 1];
      var mark := MarkFor(TakenPairs(Run(s, front), last), subject);
      if Accepted(Run(s, front), last, account) && mark.Some? then mark.value
      else LastMark(s, front, account, subject)
  }

  ghost function LastMarks(s: State, calls: seq<Call>, account: string): Marks {
    map x | x in s.subjects :: LastMark(s, calls, account, x)
  }

  lemma {:induction false} NoneAcceptedNoMark(s: State, calls: seq<Call>, account: string)
    requires !AnyAccepted(s, calls, account)
    ensures LastMarks(s, calls, account) == Zeros(s.subjects)
  {
    if calls != [] {
      var front := calls[..|calls| - 1];
      NoneAcceptedNoMark(s, front, account);
      forall x | x in s.subjects ensures LastMark(s, calls, account, x) == 0 {
        assert LastMarks(s, front, account)[x] == 0;
      }
    }
  }

  lemma TakenPairsName(s: State, c: Call)
    ensures Names(TakenPairs(s, c), s.subjects)
  {
    if c.AddSingleScore? && BranchPairs(s, c).Some? {
      if ScoreOf(s, c.account).Some? {
        SetPairsName(c.updateSet, s.subjects);
      } else {
        InsertPairsName(c.names, c.marks, s.subjects);
      }
    }
  }

  lemma {:induction false} OneMoreCall(s: State, calls: seq<Call>, account: string, c: Call)
    requires Run(s, calls).subjects == s.subjects
    ensures LastMarks(s, calls + [c], account)
            == if Accepted(Run(s, calls), c, account)
               then Assign(LastMarks(s, calls, account), TakenPairs(Run(s, calls), c))
               else LastMarks(s, calls, account)
    ensures AnyAccepted(s, calls + [c], account)
            <==> AnyAccepted(s, calls, account) || Accepted(Run(s, calls), c, account)
  {
    assert (calls + [c])[..|calls|] == calls;
    TakenPairsName(Run(s, calls), c);
    AssignWrites(LastMarks(s, calls, account), TakenPairs(Run(s, calls), c), s.subjects);
  }

  ghost function ExpectedScore(s: State, calls: seq<Call>, account: string): Option<Marks> {
    if AnyAccepted(s, calls, account) then Some(LastMarks(s, calls, account)) else None
  }

  ghost predicate RequestOrBystander(s: State, c: Call, account: string) {
    (Request(c, account) && CarriesAccount(c)) || Bystander(s, c, account)
  }

  ghost predicate AsExpected(s: State, calls: seq<Call>, account: string) {
    var t := Run(s, calls);
    && Inv(t) && t.subjects == s.subjects
    && ScoreOf(t, account) == ExpectedScore(s, calls, account)
  }

  lemma {:induction false} ScoreStep(s: State, calls: seq<Call>, account: string, t: State, c: Call)
    requires Inv(t) && t.subjects == s.subjects && t == Run(s, calls)
    requires ScoreOf(t, account) == ExpectedScore(s, calls, account)
    requires RequestOrBystander(t, c, account)
    ensures ScoreOf(Apply(t, c).db, account) == ExpectedScore(s, calls + [c], account)
  {
    OneMoreCall(s, calls, account, c);
    if Request(c, account) {
      RequestWrites(t, c);
      if !AnyAccepted(s, calls, account) {
        NoneAcceptedNoMark(s, calls, account);
      }
      assert MarksBefore(t, account) == LastMarks(s, calls, account);
    } else {
      BystanderKeepsScore(t, c, account);
    }
  }

  lemma {:induction false} StepAsExpected(s: State, calls: seq<Call>, account: string, c: Call)
    requires AsExpected(s, calls, account) && RequestOrBystander(Run(s, calls), c, account)
    ensures AsExpected(s, calls + [c], account)
  {
    var t := Run(s, calls);
    RunSnoc(s, calls, c);
    ScoreStep(s, calls, account, t, c);
    ApplyKeepsInv(t, c);
    IdsOnlyGrow(t, c);
  }

  /** Each call is, in the state it meets, a request for the account or leaves its score alone. */
  ghost predicate OnlyRequests(s: State, calls: seq<Call>, account: string) {
    calls == []
    || (OnlyRequests(s, calls[..|calls| - 1], account)
        && RequestOrBystander(Run(s, calls[..|calls| - 1]), calls[|calls| - 1], account))
  }

  /** An account starts without a score.  Along any run of score requests for it, well formed or not,
      and calls that leave it alone, each subject's mark is the one in the last accepted request that
      lists the subject, or 0; there is no score row until a request is accepted, and one from then
      on. */
  lemma {:induction false} LastWriterWins(s: State, calls: seq<Call>, account: string)
    requires Inv(s) && ScoreOf(s, account) == None && OnlyRequests(s, calls, account)
    ensures AsExpected(s, calls, account)
  {
    if calls == [] {
      assert AsExpected(s, [], account);
    } else {
      var front, c := calls[..|calls| - 1], calls[|calls| - 1];
      assert calls == front + [c];
      LastWriterWins(s, front, account);
      StepAsExpected(s, front, account, c);
    }
  }

  // ---- Runs of coherent requests ----

  /** As LastMark, read off the INSERT lists alone. */
  ghost function LastListed(s: State, calls: seq<Call>, account: string, subject: string): int {
    if calls == [] then 0
    else
      var front, last := calls[..|calls| - 1], calls[|calls| - 1];
      var mark := MarkFor(PairsOf(last, s.subjects), subject);
      if Accepted(Run(s, front), last, account) && mark.Some? then mark.value
      else LastListed(s, front, account, subject)
  }

  predicate CoherentRequests(calls: seq<Call>, account: string, subjects: set<string>) {
    forall i :: 0 <= i < |calls| && Request(calls[i], account) ==> Coherent(calls[i], account, subjects)
  }

  /** When the requests are coherent, which branch each of them took does not matter. */
  lemma {:induction false} CoherentLastWriter(s: State, calls: seq<Call>, account: string, subject: string)
    requires Inv(s) && AllCarryAccount(calls) && CoherentRequests(calls, account, s.subjects)
    ensures LastMark(s, calls, account, subject) == LastListed(s, calls, account, subject)
  {
    if calls != [] {
      var front, last := calls[..|calls| - 1], calls[|calls| - 1];
      CoherentLastWriter(s, front, account, subject);
      RunNeverReissues(s, front);
      if Request(last, account) {
        assert Coherent(last, account, s.subjects);
      }
    }
  }
}
