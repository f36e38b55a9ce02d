/** What an update of a user's data leaves. */
module Updates {
  import opened Effects
  import opened Integrity
  import opened StudentDb
  import opened Tables
  import opened Wrappers

  datatype Column = Account | Password | Name | Sex | Ident | Major | Grade

  datatype Value = Text(s: string) | Number(n: int) | Null

  function OrNull(v: Option<string>): Value {
    if v.Some? then Text(v.value) else Null
  }

  function Cell(u: UserInfo, col: Column): Value {
    match col
    case Account => Text(u.account)
    case Password => Text(u.password)
    case Name => Text(u.name)
    case Sex => Number(u.sex)
    case Ident => Number(u.ident)
    case Major => OrNull(u.major)
    case Grade => OrNull(u.grade)
  }

  /** The column an assignment names and the value it gives. */
  function Assignment(c: Change): (Column, Value) {
    match c
    case SetAccount(v) => (Account, Text(v))
    case SetPassword(v) => (Password, Text(v))
    case SetName(v) => (Name, Text(v))
    case SetSex(n) => (Sex, Number(n))
    case SetIdent(n) => (Ident, Number(n))
    case SetMajor(v) => (Major, Text(v))
    case SetGrade(v) => (Grade, Text(v))
  }

  /** The value of the last assignment to a column. */
  function LastAssigned(changes: seq<Change>, col: Column): Option<Value> {
    if changes == [] then None
    else
      var (c, v) := Assignment(changes[|changes| - 1]);
      if c == col then Some(v) else LastAssigned(changes[..|changes| - 1], col)
  }

  /** That is the value of an assignment to the column with none to it after. */
  lemma {:induction false} LastAssignedIsLast(changes: seq<Change>, col: Column)
    ensures LastAssigned(changes, col) == None
            <==> forall i :: 0 <= i < |changes| ==> Assignment(changes[i]).0 != col
    ensures forall i :: 0 <= i < |changes| && Assignment(changes[i]).0 == col
                        && (forall j :: i < j < |changes| ==> Assignment(changes[j]).0 != col) ==>
              LastAssigned(changes, col) == Some(Assignment(changes[i]).1)
  {
    if changes != [] {
      var front := changes[..|changes| - 1];
      LastAssignedIsLast(front, col);
      assert forall i :: 0 <= i < |front| ==> front[i] == changes[i];
    }
  }

  /** Each column takes the last value assigned to it, and a column not named keeps its own. */
  lemma {:induction false} ChangedCells(u: UserInfo, changes: seq<Change>, col: Column)
    ensures Cell(ChangedAll(u, changes), col)
            == if LastAssigned(changes, col).Some? then LastAssigned(changes, col).value else Cell(u, col)
  {
    if changes != [] {
      ChangedCells(u, changes[..|changes| - 1], col);
    }
  }

  /** In `t` the user has the assigned cells and, when the flag asked for it, the authority text. */
  ghost predicate Updated(s: State, t: State, id: int, changes: seq<Change>, flag: int, auth: string,
                          col: Column)
  {
    && Lookup(s.users, id).Some? && Lookup(t.users, id).Some?
    && Cell(Lookup(t.users, id).value, col)
       == (if LastAssigned(changes, col).Some? then LastAssigned(changes, col).value
           else Cell(Lookup(s.users, id).value, col))
    && Lookup(t.auths, id) == (if flag == 1 then Some(auth) else Lookup(s.auths, id))
  }

  /** Neither the scores nor any row of this other user differ. */
  ghost predicate Untouched(s: State, t: State, other: int) {
    && t.scores == s.scores
    && Lookup(t.users, other) == Lookup(s.users, other)
    && Lookup(t.auths, other) == Lookup(s.auths, other)
  }

  lemma UserUpdatedEffect(s: State, id: int, changes: seq<Change>, flag: int, auth: string,
                          col: Column, other: int)
    requires Inv(s) && Lookup(s.users, id).Some? && |auth| <= 150
    ensures var r := UserUpdated(s, id, changes, flag, auth);
            if r.err.Some? then r.db == s
            else Updated(s, r.db, id, changes, flag, auth, col)
                 && (other != id ==> Untouched(s, r.db, other))
  {
    UserRowUpdated(s, id, changes, other);
    ChangedCells(Lookup(s.users, id).value, changes, col);
    CountLookup(s.users, id);
    AuthorityRowUpdated(Exec(s, UpdateUser(id, changes)).db, id, auth, other);
  }

  lemma AuthorityRowUpdated(s: State, id: int, auth: string, other: int)
    requires |auth| <= 150
    ensures Count(s.auths, id) == 1 ==>
              var t := Exec(s, UpdateAuthority(id, auth));
              && t == Done(s.(auths := t.db.auths)) && Lookup(t.db.auths, id) == Some(auth)
              && (other != id ==> Lookup(t.db.auths, other) == Lookup(s.auths, other))
  {
    var f := v => auth;
    CountLookup(s.auths, id);
    CountSetRows(s.auths, id, f, id);
    CountSetRows(s.auths, id, f, other);
  }

  /** An accepted update of an account writes the assigned cells of its user and, when the flag asks
      for it, the authority text; no other user, authority or score changes.  A refused one changes
      nothing at all. */
  lemma {:induction false} UpdateEffect(s: State, c: Call, col: Column, other: int)
    requires Inv(s) && c.UpdateSingleUserInfoByAccount? && IdOf(s, c.account) != 0
    ensures var r := Apply(s, c);
            var id := IdOf(s, c.account);
            if r.err.Some? then r.db == s
            else Updated(s, r.db, id, c.changes, c.updateIdentFlag, c.authority, col)
                 && (other != id ==> Untouched(s, r.db, other))
  {
    var id := IdOf(s, c.account);
    IdOfFinds(s, c.account);
    if ParametersFit(c) {
      UserUpdatedEffect(s, id, c.changes, c.updateIdentFlag, c.authority, col, other);
    }
  }

  lemma UserRowUpdated(s: State, id: int, changes: seq<Change>, other: int)
    requires Consistent(s) && Lookup(s.users, id).Some?
    ensures var r := Exec(s, UpdateUser(id, changes));
            if r.err.Some? then r.db == s
            else
              && r.db == s.(users := r.db.users)
              && Lookup(r.db.users, id) == Some(ChangedAll(Lookup(s.users, id).value, changes))
              && (other != id ==> Lookup(r.db.users, other) == Lookup(s.users, other))
  {
    var u := ChangedAll(Lookup(s.users, id).value, changes);
    var f := v => u;
    CountSetRows(s.users, id, f, id);
    CountSetRows(s.users, id, f, other);
  }
}
