/** Which number a mark text stands for, and which numbers a request leaves in the score row. */
module MarkValues {
  import opened Decimal
  import opened Effects
  import opened Integrity
  import opened LastWriter
  import opened Requests
  import opened ScoreSql
  import opened StringTool
  import opened StudentDb
  import opened Tables
  import opened Text
  import opened Wrappers

  // ---- One mark ----

  /** Digits, with or without a minus before them, and the number they write. */
  predicate Writes(t: string, d: string, v: int) {
    d != "" && AllDigits(d) && ((t == d && v == DigitsValue(d)) || (t == "-" + d && v == 0 - DigitsValue(d)))
  }

  /** A mark text is digits, with or without a minus, that write a tinyint, and it means that number. */
  lemma MarkMeans(t: string, v: int)
    ensures ParseMark(t) == Some(v) <==> -128 <= v <= 127 && exists d :: Writes(t, d, v)
  {
    if w :| Writes(t, w, v) {
      WritesLiteral(t, w, v);
      LiteralValue(t);
    }
    if IsIntLiteral(t) {
      LiteralValue(t);
      assert Writes(t, if t[0] == '-' then t[1..] else t, Atoi(t));
    }
  }

  lemma LiteralValue(t: string)
    requires IsIntLiteral(t)
    ensures var d := if t[0] == '-' then t[1..] else t;
            && d != "" && AllDigits(d) && t == (if t[0] == '-' then "-" + d else d)
            && Atoi(t) == if t[0] == '-' then 0 - DigitsValue(d) else DigitsValue(d)
  {
    var d := if t[0] == '-' then t[1..] else t;
    DigitPrefixOfDigits(d);
    AtoiOfDigits(d);
  }

  lemma WritesLiteral(t: string, w: string, v: int)
    requires Writes(t, w, v)
    ensures IsIntLiteral(t) && w == (if t[0] == '-' then t[1..] else t)
  {
    assert IsDigit(w[0]);
    assert ("-" + w)[1..] == w;
  }

  /** A printed int is a mark exactly if it is a tinyint, and means itself. */
  lemma MarkOfPrinted(n: int)
    ensures ParseMark(IntToStr(n)) == if -128 <= n <= 127 then Some(n) else None
  {
    var d := NatToStr(Magnitude(n));
    DigitsValueOfNatToStr(Magnitude(n));
    assert IntToStr(n) == if n < 0 then "-" + d else d;
    AtoiOfIntToStr(n);
    IntCharactersOf(n);
  }

  lemma IntCharactersOf(n: int)
    ensures IsIntLiteral(IntToStr(n)) && ',' !in IntToStr(n) && IntToStr(n) != ""
  {
    var d := NatToStr(Magnitude(n));
    assert IsDigit(d[0]);
    assert IntToStr(n) == if n < 0 then "-" + d else d;
    assert ("-" + d)[1..] == d;
    IntToStrChars(n, ',');
  }

  // ---- The pairs of a request ----

  function Zip(cols: seq<string>, values: seq<int>): (ps: Pairs)
    requires |cols| == |values|
    ensures |ps| == |cols| && forall i :: 0 <= i < |ps| ==> ps[i] == (cols[i], values[i])
  {
    seq(|cols|, i requires 0 <= i < |cols| => (cols[i], values[i]))
  }

  predicate ForSubjects(cols: seq<string>, values: seq<int>, subjects: set<string>) {
    && |cols| == |values| > 0
    && forall i :: 0 <= i < |cols| ==> cols[i] in subjects && -128 <= values[i] <= 127
  }

  lemma {:induction false} PrintedListsRead(cols: seq<string>, values: seq<int>, subjects: set<string>)
    requires |cols| == |values|
    requires forall i :: 0 <= i < |cols| ==> cols[i] in subjects && -128 <= values[i] <= 127
    ensures ParseLists(cols, IntTexts(values), subjects) == Some(Zip(cols, values))
  {
    if cols != [] {
      PrintedListsRead(cols[1..], values[1..], subjects);
      MarkOfPrinted(values[0]);
      assert IntTexts(values)[1..] == IntTexts(values[1..]);
      assert Zip(cols, values) == [(cols[0], values[0])] + Zip(cols[1..], values[1..]);
    }
  }

  lemma SplitAtCommas(v: seq<string>)
    requires v != [] && forall i :: 0 <= i < |v| ==> ',' !in v[i]
    ensures FullSplit(Join(v, ","), ",") == v
  {
    AvoidingPiecesAreWellSeparated(v, ",");
    FullSplitOfJoin(v, ",");
  }

  /** What the two branches read in a request for some subjects and marks. */
  lemma RequestReads(cols: seq<string>, values: seq<int>, subjects: set<string>)
    requires PlainNames(subjects) && ForSubjects(cols, values, subjects)
    ensures ParseSet(Join(Assignments(cols, IntTexts(values)), ","), subjects) == Some(Zip(cols, values))
    ensures ParseInsert(Join(cols, ","), Join(IntTexts(values), ","), subjects)
            == if Distinct(cols) then Some(Zip(cols, values)) else None
  {
    forall i | 0 <= i < |cols| ensures ',' !in cols[i] && ',' !in IntTexts(values)[i] {
      IntCharactersOf(values[i]);
    }
    SplitAtCommas(cols);
    SplitAtCommas(IntTexts(values));
    ListCoherence(cols, IntTexts(values), subjects);
    PrintedListsRead(cols, values, subjects);
  }

  /** In a list of pairs the last one of a subject counts, and a subject without one keeps its mark. */
  lemma {:induction false} LastPairCounts(row: map<string, int>, ps: Pairs, x: string)
    requires x in row
    ensures x in Assign(row, ps)
    ensures (forall i :: 0 <= i < |ps| ==> ps[i].0 != x) ==> Assign(row, ps)[x] == row[x]
    ensures forall i :: 0 <= i < |ps| && ps[i].0 == x && (forall j :: i < j < |ps| ==> ps[j].0 != x) ==>
              Assign(row, ps)[x] == ps[i].1
  {
    if ps != [] {
      var n := |ps| - 1;
      LastPairCounts(row, ps[..n], x);
      if ps[n].0 != x {
        assert forall i :: 0 <= i < n ==> ps[..n][i] == ps[i];
      }
    }
  }

  // ---- What the request leaves ----

  /** The i-th is the last of its column. */
  predicate LastOf(cols: seq<string>, i: nat)
    requires i < |cols|
  {
    forall j :: i < j < |cols| ==> cols[j] != cols[i]
  }

  predicate RequestFor(c: Call, cols: seq<string>, values: seq<int>)
    requires |cols| == |values|
  {
    && c.AddSingleScore? && c.names == Join(cols, ",") && c.marks == Join(IntTexts(values), ",")
    && c.updateSet == Join(Assignments(cols, IntTexts(values)), ",")
  }

  /** An accepted request for some subjects and marks leaves each mark under its subject, the last one
      if the subject is repeated; the other subjects keep theirs, or are at 0 in a first score. */
  lemma RequestStores(s: State, c: Call, cols: seq<string>, values: seq<int>)
    requires Inv(s) && ForSubjects(cols, values, s.subjects) && RequestFor(c, cols, values)
    requires CarriesAccount(c) && Apply(s, c).err.None?
    ensures var before, after := ScoreOf(s, c.account), ScoreOf(Apply(s, c).db, c.account);
            && after.Some? && after.value.Keys == s.subjects
            && (before.Some? ==> before.value.Keys == s.subjects)
            && (forall i :: 0 <= i < |cols| && LastOf(cols, i) ==> after.value[cols[i]] == values[i])
            && forall x :: x in s.subjects && x !in cols ==>
                 after.value[x] == if before.Some? then before.value[x] else 0
  {
    RequestTakes(s, c, cols, values);
    RequestWrites(s, c);
    ScoreHasSubjects(s, c.account);
    ZipStores(MarksBefore(s, c.account), cols, values, s.subjects);
  }

  lemma RequestTakes(s: State, c: Call, cols: seq<string>, values: seq<int>)
    requires PlainNames(s.subjects) && ForSubjects(cols, values, s.subjects) && RequestFor(c, cols, values)
    ensures BranchPairs(s, c).Some? ==> BranchPairs(s, c).value == Zip(cols, values)
  {
    RequestReads(cols, values, s.subjects);
  }

  lemma ZipStores(row: Marks, cols: seq<string>, values: seq<int>, subjects: set<string>)
    requires row.Keys == subjects && ForSubjects(cols, values, subjects)
    ensures var after := Assign(row, Zip(cols, values));
            && after.Keys == subjects
            && (forall i :: 0 <= i < |cols| && LastOf(cols, i) ==> after[cols[i]] == values[i])
            && forall x :: x in subjects && x !in cols ==> after[x] == row[x]
  {
    var ps := Zip(cols, values);
    AssignWrites(row, ps, subjects);
    forall i | 0 <= i < |cols| && LastOf(cols, i) ensures Assign(row, ps)[cols[i]] == values[i] {
      LastPairCounts(row, ps, cols[i]);
    }
    forall x | x in subjects && x !in cols ensures Assign(row, ps)[x] == row[x] {
      LastPairCounts(row, ps, x);
    }
  }

  lemma ScoreHasSubjects(s: State, account: string)
    requires Inv(s)
    ensures ScoreOf(s, account).Some? ==> ScoreOf(s, account).value.Keys == s.subjects
  {
    if ScoreOf(s, account).Some? {
      CountLookup(s.scores, IdOf(s, account));
      assert Row(IdOf(s, account), ScoreOf(s, account).value) in s.scores;
    }
  }

  /** Such a request for different subjects fits, and so is accepted while ids remain, if its lists have
      at most 150 characters. */
  lemma RequestForFits(c: Call, account: string, cols: seq<string>, values: seq<int>, subjects: set<string>)
    requires PlainNames(subjects) && ForSubjects(cols, values, subjects) && RequestFor(c, cols, values)
    requires Distinct(cols) && c.account == account && c.info.account == account
    requires ParametersFit(c) && FitsColumns(WithoutMajorAndGrade(c.info)) && |c.names| + |c.marks| <= 150
    ensures Fitting(c, account, subjects)
  {
    RequestReads(cols, values, subjects);
    AssignmentsLength(cols, IntTexts(values));
  }
}
