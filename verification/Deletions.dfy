/** The two ways to delete users compared, and who may be deleted by whom. */
module Deletions {
  import opened Decimal
  import opened Effects
  import opened Integrity
  import opened StudentDb
  import opened Tables
  import opened Wrappers

  /** In a consistent state an id is selected exactly when its row is. */
  lemma RowInIdSet(s: State, p: Row<UserInfo> -> bool, r: Row<UserInfo>)
    requires Consistent(s) && r in s.users
    ensures r.id in IdSet(s.users, p) <==> p(r)
  {
    if r.id in IdSet(s.users, p) {
      var q :| q in s.users && p(q) && q.id == r.id;
      LookupOfUnique(s.users, q);
      LookupOfUnique(s.users, r);
    }
  }

  /** A deletion removes exactly the users selected, with all their rows, and says whether there
      were any; every other row stays. */
  lemma DeletedExactly(s: State, p: Row<UserInfo> -> bool, r: Row<UserInfo>)
    requires Inv(s) && r in s.users
    ensures var t := Deleted(s, p);
            && Inv(t.db)
            && (t.result == 1 <==> exists q :: q in s.users && p(q))
            && (t.result == 0 <==> t.db == s)
            && (r in t.db.users <==> !p(r))
            && Lookup(t.db.scores, r.id) == (if p(r) then None else Lookup(s.scores, r.id))
            && Lookup(t.db.auths, r.id) == (if p(r) then None else Lookup(s.auths, r.id))
  {
    var ids := IdSet(s.users, p);
    PurgedKeepsInv(s, ids);
    PurgedRows(s, ids);
    RowInIdSet(s, p, r);
    CountWithout(s.scores, ids, r.id);
    CountWithout(s.auths, ids, r.id);
    PurgedNobody(s);
    assert (exists q :: q in s.users && p(q)) ==> ids != {} by {
      if q :| q in s.users && p(q) {
        assert q.id in ids;
      }
    }
    if id :| id in ids {
      var q :| q in s.users && p(q) && q.id == id;
      assert q !in Purged(s, ids).users;
    }
  }

  /** What is selected after a deletion was selected before it and not deleted. */
  lemma SelectedAfter(s: State, gone: set<int>, p: Row<UserInfo> -> bool)
    ensures IdSet(Purged(s, gone).users, p) == (set r | r in s.users && p(r) && r.id !in gone :: r.id)
  {
    PurgedRows(s, gone);
  }

  lemma DeletedInTurn(s: State, p: Row<UserInfo> -> bool, q: Row<UserInfo> -> bool)
    ensures Deleted(Deleted(s, p).db, q).db == Purged(s, IdSet(s.users, p) + IdSet(s.users, q))
  {
    var a, b := IdSet(s.users, p), IdSet(s.users, q);
    SelectedAfter(s, a, q);
    PurgedTwice(s, a, IdSet(Purged(s, a).users, q));
    assert a + IdSet(Purged(s, a).users, q) == a + b;
  }

  lemma ResultsInTurn(s: State, p: Row<UserInfo> -> bool, q: Row<UserInfo> -> bool)
    ensures Deleted(s, p).result == 1 || Deleted(Deleted(s, p).db, q).result == 1
            <==> IdSet(s.users, p) + IdSet(s.users, q) != {}
  {
    var t := Deleted(s, p).db;
    SelectedAfter(s, IdSet(s.users, p), q);
    assert IdSet(t.users, q) <= IdSet(s.users, q) <= IdSet(s.users, p) + IdSet(t.users, q);
  }

  /** Deleting a range twice: the second call finds nobody and changes nothing. */
  lemma BatchTwice(s: State, min: int, max: int, op: Operator)
    requires Inv(s)
    ensures var c := DeleteBatchUserInfoByUserId(min, max, op);
            var t := Apply(s, c).db;
            Apply(t, c).db == t && Apply(t, c).result == 0
  {
    var p := BatchTarget(min, max, op);
    SelectedAfter(s, IdSet(s.users, p), p);
    assert IdSet(Purged(s, IdSet(s.users, p)).users, p) == {};
    PurgedNobody(Deleted(s, p).db);
  }

  /** Adjoining ranges deleted one after the other are the whole range deleted. */
  lemma BatchesCompose(s: State, a: int, b: int, c: int, op: Operator)
    requires IsInt32(a) && IsInt32(b) && IsInt32(b + 1) && IsInt32(c) && OperatorFits(op)
    requires a <= b + 1 && b <= c
    ensures var first := Apply(s, DeleteBatchUserInfoByUserId(a, b, op));
            var second := Apply(first.db, DeleteBatchUserInfoByUserId(b + 1, c, op));
            var whole := Apply(s, DeleteBatchUserInfoByUserId(a, c, op));
            second.db == whole.db
            && (whole.result == 1 <==> first.result == 1 || second.result == 1)
  {
    var p, q, w := BatchTarget(a, b, op), BatchTarget(b + 1, c, op), BatchTarget(a, c, op);
    assert IdSet(s.users, w) == IdSet(s.users, p) + IdSet(s.users, q) by {
      assert forall r :: w(r) <==> p(r) || q(r);
    }
    DeletedInTurn(s, p, q);
    ResultsInTurn(s, p, q);
  }

  // ---- One by one ----

  ghost function DeletedEach(s: State, accounts: seq<string>, op: Operator): State
    decreases |accounts|
  {
    if accounts == [] then s
    else DeletedEach(Apply(s, DeleteSingleUserInfoByAccount(accounts[0], op)).db, accounts[1..], op)
  }

  predicate ReachedOneByOne(accounts: seq<string>, op: Operator, u: UserInfo) {
    u.account in accounts && |u.account| <= 31 && MayDeleteOne(op, u)
  }

  function EachTarget(accounts: seq<string>, op: Operator): Row<UserInfo> -> bool {
    (r: Row<UserInfo>) => ReachedOneByOne(accounts, op, r.val)
  }

  lemma OneCall(s: State, account: string, op: Operator)
    requires OperatorFits(op)
    ensures Apply(s, DeleteSingleUserInfoByAccount(account, op)).db
            == Purged(s, IdSet(s.users, EachTarget([account], op)))
  {
    var p, q := OneTarget(account, op), EachTarget([account], op);
    if |account| <= 31 {
      assert forall r :: p(r) <==> q(r);
      assert IdSet(s.users, p) == IdSet(s.users, q);
    } else {
      assert IdSet(s.users, q) == {};
      PurgedNobody(s);
    }
  }

  lemma {:induction false} DeletedEachIsPurged(s: State, accounts: seq<string>, op: Operator)
    requires OperatorFits(op)
    ensures DeletedEach(s, accounts, op) == Purged(s, IdSet(s.users, EachTarget(accounts, op)))
    decreases |accounts|
  {
    if accounts == [] {
      assert IdSet(s.users, EachTarget([], op)) == {};
      PurgedNobody(s);
    } else {
      var p, q := EachTarget([accounts[0]], op), EachTarget(accounts[1..], op);
      OneCall(s, accounts[0], op);
      DeletedEachIsPurged(Deleted(s, p).db, accounts[1..], op);
      DeletedInTurn(s, p, q);
      var all := EachTarget(accounts, op);
      assert forall r :: all(r) <==> p(r) || q(r);
      assert IdSet(s.users, all) == IdSet(s.users, p) + IdSet(s.users, q);
    }
  }

  ghost predicate InRange(s: State, min: int, max: int, r: Row<UserInfo>) {
    r in s.users && min <= r.id <= max
  }

  /** Deleting a range leaves the same database as deleting its accounts one by one, in any order
      and with any repetition, exactly when nobody the batch may delete has an account too long for
      the single form's parameter, and the operator is not a student without the grant. */
  lemma BatchIsOneByOne(s: State, min: int, max: int, op: Operator, order: seq<string>)
    requires Inv(s) && IsInt32(min) && IsInt32(max) && OperatorFits(op)
    requires op.ident >= 1 && forall r :: r in s.users ==> r.val.ident >= 1
    requires forall r :: r in s.users ==> (r.val.account in order <==> min <= r.id <= max)
    ensures Apply(s, DeleteBatchUserInfoByUserId(min, max, op)).db == DeletedEach(s, order, op)
            <==> forall r :: InRange(s, min, max, r) && MayDeleteInBatch(op, r.val) ==>
                   |r.val.account| <= 31 && (op.ident >= 2 || op.studentCanDelete == 1)
  {
    var p, q := BatchTarget(min, max, op), EachTarget(order, op);
    DeletedEachIsPurged(s, order, op);
    SamePurge(s, p, q);
    forall r | r in s.users
      ensures q(r) ==> p(r)
      ensures p(r) <==> InRange(s, min, max, r) && MayDeleteInBatch(op, r.val)
      ensures p(r) ==> (q(r) <==> |r.val.account| <= 31 && (op.ident >= 2 || op.studentCanDelete == 1))
    {
    }
  }

  /** Two deletions have the same effect only if they select the same users. */
  lemma SamePurge(s: State, p: Row<UserInfo> -> bool, q: Row<UserInfo> -> bool)
    requires Inv(s)
    ensures Purged(s, IdSet(s.users, p)) == Purged(s, IdSet(s.users, q))
            <==> forall r :: r in s.users ==> (p(r) <==> q(r))
  {
    var a, b := IdSet(s.users, p), IdSet(s.users, q);
    if Purged(s, a) == Purged(s, b) {
      PurgedRows(s, a);
      PurgedRows(s, b);
      forall r | r in s.users ensures p(r) <==> q(r) {
        RowInIdSet(s, p, r);
        RowInIdSet(s, q, r);
      }
    }
    if forall r :: r in s.users ==> (p(r) <==> q(r)) {
      assert a == b;
    }
  }

  /** A student without the grant deletes nobody one by one. */
  lemma UngrantedStudentDeletesNobody(s: State, account: string, op: Operator)
    requires op.ident == 1 && op.studentCanDelete != 1
    ensures Apply(s, DeleteSingleUserInfoByAccount(account, op)).db == s
  {
    assert IdSet(s.users, OneTarget(account, op)) == {};
    PurgedNobody(s);
  }

  /** In a batch such a student removes at most itself. */
  lemma UngrantedStudentBatch(s: State, min: int, max: int, op: Operator, r: Row<UserInfo>)
    requires Inv(s) && op.ident == 1 && op.studentCanDelete != 1
    requires r in s.users && r.val.ident >= 1
    ensures r !in Apply(s, DeleteBatchUserInfoByUserId(min, max, op)).db.users
            ==> r.val.account == op.account && r.val.ident == 1
  {
    PurgedRows(s, IdSet(s.users, BatchTarget(min, max, op)));
    RowInIdSet(s, BatchTarget(min, max, op), r);
  }
}
