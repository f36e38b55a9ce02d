/** Tables as sequences of rows keyed by user id, with nothing said about key uniqueness. */
module Tables {
  import opened Wrappers

  datatype Row<T> = Row(id: int, val: T)

  /** `select count(1) ... where userID = id`. */
  function Count<T>(t: seq<Row<T>>, id: int): nat {
    if t == [] then 0
    else Count(t[..|t| - 1], id) + (if t[|t| - 1].id == id then 1 else 0)
  }

  /** `delete ... where userID in ids`. */
  function Without<T>(t: seq<Row<T>>, ids: set<int>): seq<Row<T>> {
    if t == [] then []
    else Without(t[..|t| - 1], ids) + (if t[|t| - 1].id in ids then [] else [t[|t| - 1]])
  }

  /** `update ... where userID = id`. */
  function SetRows<T>(t: seq<Row<T>>, id: int, f: T -> T): (r: seq<Row<T>>)
    ensures |r| == |t|
  {
    if t == [] then []
    else SetRows(t[..|t| - 1], id, f)
         + [if t[|t| - 1].id == id then Row(id, f(t[|t| - 1].val)) else t[|t| - 1]]
  }

  /** The row of an id; the last one if there were several. */
  function Lookup<T>(t: seq<Row<T>>, id: int): Option<T> {
    if t == [] then None
    else if t[|t| - 1].id == id then Some(t[|t| - 1].val)
    else Lookup(t[..|t| - 1], id)
  }

  /** `select userID into v ... where p` on a variable that starts at 0. */
  function SelectId<T>(t: seq<Row<T>>, p: Row<T> -> bool): int {
    if t == [] then 0
    else if p(t[|t| - 1]) then t[|t| - 1].id
    else SelectId(t[..|t| - 1], p)
  }

  /** The rows a cursor over `select userID ... where p` has yet to fetch when it is opened. */
  function SelectIds<T>(t: seq<Row<T>>, p: Row<T> -> bool): seq<int> {
    if t == [] then []
    else SelectIds(t[..|t| - 1], p) + (if p(t[|t| - 1]) then [t[|t| - 1].id] else [])
  }

  ghost function IdSet<T>(t: seq<Row<T>>, p: Row<T> -> bool): set<int> {
    set r | r in t && p(r) :: r.id
  }

  // ---- Appending ----

  lemma Appended<T>(t: seq<Row<T>>, r: Row<T>)
    ensures forall id :: Count(t + [r], id) == Count(t, id) + (if r.id == id then 1 else 0)
    ensures forall id :: Lookup(t + [r], id) == if r.id == id then Some(r.val) else Lookup(t, id)
  {
    assert (t + [r])[..|t|] == t;
  }

  // ---- Counting and finding ----

  lemma {:induction false} CountLookup<T>(t: seq<Row<T>>, id: int)
    ensures Count(t, id) == 0 <==> Lookup(t, id) == None
    ensures Lookup(t, id).Some? ==> Row(id, Lookup(t, id).value) in t
    ensures (exists r :: r in t && r.id == id) <==> Count(t, id) > 0
  {
    if t != [] {
      var front, last := t[..|t| - 1], t[|t| - 1];
      assert t == front + [last];
      CountLookup(front, id);
      if last.id == id {
        assert last in t;
      } else {
        assert forall r :: r in t && r.id == id ==> r in front;
      }
    }
  }

  /** With at most one row for its id, a row of the table is the one its id finds. */
  lemma {:induction false} LookupOfUnique<T>(t: seq<Row<T>>, r: Row<T>)
    requires r in t && Count(t, r.id) <= 1
    ensures Lookup(t, r.id) == Some(r.val)
  {
    var front, last := t[..|t| - 1], t[|t| - 1];
    assert t == front + [last];
    CountLookup(front, r.id);
    if last != r {
      assert r in front;
      LookupOfUnique(front, r);
    }
  }

  // ---- Deleting ----

  lemma {:induction false} CountWithout<T>(t: seq<Row<T>>, ids: set<int>, id: int)
    ensures Count(Without(t, ids), id) == if id in ids then 0 else Count(t, id)
    ensures Lookup(Without(t, ids), id) == if id in ids then None else Lookup(t, id)
  {
    if t != [] {
      var front, last := t[..|t| - 1], t[|t| - 1];
      CountWithout(front, ids, id);
      Appended(Without(front, ids), last);
      assert Without(front, ids) + [] == Without(front, ids);
    }
  }

  lemma {:induction false} InWithout<T>(t: seq<Row<T>>, ids: set<int>, r: Row<T>)
    ensures r in Without(t, ids) <==> r in t && r.id !in ids
  {
    if t != [] {
      InWithout(t[..|t| - 1], ids, r);
      assert t == t[..|t| - 1] + [t[|t| - 1]];
    }
  }

  lemma {:induction false} WithoutAppend<T>(a: seq<Row<T>>, b: seq<Row<T>>, ids: set<int>)
    ensures Without(a + b, ids) == Without(a, ids) + Without(b, ids)
  {
    if b == [] {
      assert a + b == a;
    } else {
      WithoutAppend(a, b[..|b| - 1], ids);
      assert (a + b)[..|a + b| - 1] == a + b[..|b| - 1];
    }
  }

  lemma {:induction false} WithoutTwice<T>(t: seq<Row<T>>, a: set<int>, b: set<int>)
    ensures Without(Without(t, a), b) == Without(t, a + b)
  {
    if t != [] {
      var front, last := t[..|t| - 1], t[|t| - 1];
      WithoutTwice(front, a, b);
      WithoutAppend(Without(front, a), if last.id in a then [] else [last], b);
      assert Without([last], b) == if last.id in b then [] else [last] by {
        assert [last][..0] == [];
      }
    }
  }

  lemma {:induction false} WithoutNone<T>(t: seq<Row<T>>, ids: set<int>)
    requires forall r :: r in t ==> r.id !in ids
    ensures Without(t, ids) == t
  {
    if t != [] {
      WithoutNone(t[..|t| - 1], ids);
    }
  }

  // ---- Updating ----

  lemma {:induction false} CountSetRows<T>(t: seq<Row<T>>, id: int, f: T -> T, other: int)
    ensures Count(SetRows(t, id, f), other) == Count(t, other)
    ensures Lookup(SetRows(t, id, f), other)
            == if other == id && Lookup(t, id).Some? then Some(f(Lookup(t, id).value))
               else Lookup(t, other)
  {
    if t != [] {
      CountSetRows(t[..|t| - 1], id, f, other);
      assert SetRows(t, id, f)[..|t| - 1] == SetRows(t[..|t| - 1], id, f);
    }
  }

  lemma {:induction false} SetRowsAt<T>(t: seq<Row<T>>, id: int, f: T -> T, i: nat)
    requires i < |t|
    ensures SetRows(t, id, f)[i] == if t[i].id == id then Row(id, f(t[i].val)) else t[i]
  {
    if i < |t| - 1 {
      SetRowsAt(t[..|t| - 1], id, f, i);
    }
  }

  lemma SetRowsKeepsCounts<T>(t: seq<Row<T>>, id: int, f: T -> T)
    ensures forall other :: Count(SetRows(t, id, f), other) == Count(t, other)
  {
    forall other ensures Count(SetRows(t, id, f), other) == Count(t, other) {
      CountSetRows(t, id, f, other);
    }
  }

  lemma InSetRows<T>(t: seq<Row<T>>, id: int, f: T -> T, r: Row<T>)
    requires r in SetRows(t, id, f)
    ensures if r.id == id then exists q :: q in t && q.id == id && r.val == f(q.val) else r in t
  {
    var i :| 0 <= i < |t| && SetRows(t, id, f)[i] == r;
    SetRowsAt(t, id, f, i);
    assert t[i] in t;
  }

  // ---- Selecting ----

  lemma {:induction false} SelectIdFinds<T>(t: seq<Row<T>>, p: Row<T> -> bool)
    requires forall r :: r in t ==> r.id != 0
    ensures SelectId(t, p) != 0 <==> exists r :: r in t && p(r)
    ensures SelectId(t, p) != 0 ==> exists r :: r in t && p(r) && r.id == SelectId(t, p)
  {
    if t != [] {
      var front, last := t[..|t| - 1], t[|t| - 1];
      assert t == front + [last];
      SelectIdFinds(front, p);
      assert last in t;
    }
  }

  lemma {:induction false} SelectIdSame<T>(t: seq<Row<T>>, p: Row<T> -> bool, q: Row<T> -> bool)
    requires forall r :: r in t ==> p(r) == q(r)
    ensures SelectId(t, p) == SelectId(t, q)
  {
    if t != [] {
      SelectIdSame(t[..|t| - 1], p, q);
    }
  }

  lemma {:induction false} SelectIdNone<T>(t: seq<Row<T>>, p: Row<T> -> bool)
    requires forall r :: r in t ==> !p(r)
    ensures SelectId(t, p) == 0
  {
    if t != [] {
      SelectIdNone(t[..|t| - 1], p);
    }
  }

  lemma {:induction false} SelectIdsFind<T>(t: seq<Row<T>>, p: Row<T> -> bool, id: int)
    ensures id in SelectIds(t, p) <==> id in IdSet(t, p)
  {
    if t != [] {
      var front, last := t[..|t| - 1], t[|t| - 1];
      assert t == front + [last];
      SelectIdsFind(front, p, id);
      assert IdSet(t, p) == IdSet(front, p) + if p(last) then {last.id} else {};
    }
  }
}
